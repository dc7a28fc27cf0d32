/** The per-project memo of nullable settings that one filter keeps across a filtering pass. */
module StatusCache {
  import opened Wrappers
  import opened Hierarchy
  import opened ProjectSettings

  /** No element of `s` occurs twice. */
  ghost predicate NoDuplicates<T>(s: seq<T>) {
    forall i, j :: 0 <= i < j < |s| ==> s[i] != s[j]
  }

  /** The elements of `s`, as a set. */
  ghost function Elements<T>(s: seq<T>): set<T> {
    set x | x in s
  }

  class ProjectNullableStatusContainer {
    /** Project file path (exactly as the host spells it) to the setting computed for it. */
    var statuses: map<string, Option<bool>>
    /** Every project file this container has read, in order. */
    ghost var readLog: seq<string>

    /** Every cached entry is what the project file at that path resolves to. */
    ghost predicate Consistent(readAllText: string -> string, nullableNodes: string -> seq<string>)
      reads this
    {
      forall path :: path in statuses ==> statuses[path] == ResolveSetting(readAllText(path), nullableNodes)
    }

    constructor ()
      ensures statuses == map[] && readLog == []
    {
      statuses := map[];
      readLog := [];
    }

    /** The setting of `project`'s file: taken from the memo when its path is there (no read),
        otherwise read, resolved and stored under that path, leaving every other entry alone. */
    method GetNullableStatus(project: Project, readAllText: string -> string, nullableNodes: string -> seq<string>)
      returns (r: Option<bool>)
      modifies this
      ensures project.fullName in old(statuses) ==>
        r == old(statuses)[project.fullName] && statuses == old(statuses) && readLog == old(readLog)
      ensures project.fullName !in old(statuses) ==>
        r == ResolveSetting(readAllText(project.fullName), nullableNodes) &&
        statuses == old(statuses)[project.fullName := r] &&
        readLog == old(readLog) + [project.fullName]
      ensures project.fullName in statuses && statuses[project.fullName] == r
      ensures old(Consistent(readAllText, nullableNodes)) ==>
        Consistent(readAllText, nullableNodes) && r == ResolveSetting(readAllText(project.fullName), nullableNodes)
    {
      var projectFilePath := project.fullName;
      if projectFilePath in statuses {
        r := statuses[projectFilePath];
      } else {
        var csprojBody := readAllText(projectFilePath);
        readLog := readLog + [projectFilePath];
        r := ResolveSetting(csprojBody, nullableNodes);
        statuses := statuses[projectFilePath := r];
      }
    }

    /** Forgets every memoised setting. */
    method Reset()
      modifies this
      ensures statuses == map[] && readLog == old(readLog)
    {
      statuses := map[];
    }
  }
}
