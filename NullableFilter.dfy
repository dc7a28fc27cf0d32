/** The solution-tree filter: which `.cs` files stay visible.

    A file is shown unless nullable checking is in effect for it. The file's own directives
    decide first; only a file without any directive falls back to the setting of the C#
    project that owns it. */
module NullableFilter {
  import opened Wrappers
  import opened Strings
  import opened Directives
  import opened ProjectSettings
  import opened Hierarchy
  import opened StatusCache

  /** What the filter asks of the host: File.Exists, File.ReadAllText, the inner texts of the
      `Nullable` elements of a parsed project file, and which items are C# projects. */
  datatype Env = Env(
    fileExists: string -> bool,
    readAllText: string -> string,
    nullableNodes: string -> seq<string>,
    isCsprojProject: Item -> Option<Project>)

  // ---------------------------------------------------------------------------
  // The decision, as a function of the host's answers

  /** The early guards of MeetsFilter all let the item through: it is an item, its canonical
      name is neither null nor empty and ends in `.cs`, that file exists and is not empty. */
  predicate PassesGuards(item: Option<Item>, env: Env) {
    item.Some? && item.value.canonicalName.Some? && item.value.canonicalName.value != "" &&
    EndsWith(item.value.canonicalName.value, ".cs") &&
    env.fileExists(item.value.canonicalName.value) &&
    env.readAllText(item.value.canonicalName.value) != ""
  }

  function FileText(item: Option<Item>, env: Env): string
    requires PassesGuards(item, env)
  {
    env.readAllText(item.value.canonicalName.value)
  }

  /** The C# project found by walking up from the item, if any. */
  function OwningProject(item: Item, env: Env): Option<Project> {
    FirstCsproj(Ancestry(Some(item)), env.isCsprojProject)
  }

  /** The path of the owning project's file, if any. */
  function OwningProjectPath(item: Item, env: Env): Option<string> {
    match OwningProject(item, env)
    case None => None
    case Some(p) => Some(p.fullName)
  }

  /** The owning project's setting; None also when no C# project owns the item. */
  function ProjectNullableStatus(item: Item, env: Env): Option<bool> {
    match OwningProject(item, env)
    case None => None
    case Some(p) => ResolveSetting(env.readAllText(p.fullName), env.nullableNodes)
  }

  /** The switch on the file's status. */
  function Decide(status: FileNullableStatus, projectStatus: Option<bool>): (show: bool)
    ensures show <==> !NullableOn(status, projectStatus)
  {
    match status
    case NotDefined => if projectStatus.Some? then !projectStatus.value else true
    case BothDefined => true
    case Enable => false
    case Disable => true
  }

  /** What MeetsFilter answers for `item`. */
  function Meets(item: Option<Item>, env: Env): bool {
    PassesGuards(item, env) &&
    Decide(GetFileNullableStatus(FileText(item, env)), ProjectNullableStatus(item.value, env))
  }

  /** Nullable checking is in effect: the file enables it and does not also disable it, or
      the file says nothing and its project enables it. */
  predicate NullableOn(status: FileNullableStatus, projectStatus: Option<bool>) {
    status == Enable || (status == NotDefined && projectStatus == Some(true))
  }

  /** The project file whose setting MeetsFilter looks up for `item`: only an item that passes
      the guards, whose file has no directive and that has an owning C# project causes one. */
  function ProjectLookup(item: Option<Item>, env: Env): Option<string> {
    if PassesGuards(item, env) && GetFileNullableStatus(FileText(item, env)) == NotDefined then
      OwningProjectPath(item.value, env)
    else None
  }

  /** The items of `items` that MeetsFilter accepts, in their order. */
  function FilterItems(items: seq<Option<Item>>, env: Env): (r: seq<Option<Item>>)
    ensures |r| <= |items|
    ensures forall x :: x in r <==> x in items && Meets(x, env)
  {
    if items == [] then []
    else
      var last := items[|items| - 1];
      assert items == items[..|items| - 1] + [last];
      FilterItems(items[..|items| - 1], env) + (if Meets(last, env) then [last] else [])
  }

  /** The project files whose settings a pass over `items` has to know. */
  function NeededPaths(items: seq<Option<Item>>, env: Env): (r: set<string>)
    ensures forall path :: path in r <==>
      exists i :: 0 <= i < |items| && ProjectLookup(items[i], env) == Some(path)
  {
    if items == [] then {}
    else
      var init := items[..|items| - 1];
      var more := match ProjectLookup(items[|items| - 1], env)
        case None => {}
        case Some(path) => {path};
      assert forall i :: 0 <= i < |init| ==> init[i] == items[i];
      NeededPaths(init, env) + more
  }

  // ---------------------------------------------------------------------------
  // Properties of the decision

  /** A file is shown exactly when it passes the guards and nullable checking is not in
      effect for it. */
  lemma ShownIffNullableOff(item: Option<Item>, env: Env)
    ensures Meets(item, env) <==>
      PassesGuards(item, env) &&
      !NullableOn(GetFileNullableStatus(FileText(item, env)), ProjectNullableStatus(item.value, env))
  {
  }

  /** Each early guard hides the item. */
  lemma EarlyGuardsHide(item: Option<Item>, env: Env)
    ensures item.None? ==> !Meets(item, env)
    ensures item.Some? && (item.value.canonicalName.None? || item.value.canonicalName.value == "") ==> !Meets(item, env)
    ensures item.Some? && item.value.canonicalName.Some? && !EndsWith(item.value.canonicalName.value, ".cs") ==> !Meets(item, env)
    ensures item.Some? && item.value.canonicalName.Some? && !env.fileExists(item.value.canonicalName.value) ==> !Meets(item, env)
    ensures item.Some? && item.value.canonicalName.Some? && env.readAllText(item.value.canonicalName.value) == "" ==> !Meets(item, env)
  {
  }

  /** A file whose directives decide leaves the owning project's setting unconsulted: another
      host that agrees on that one file gives the same answer, whatever it says about every
      other file and project. */
  lemma DirectiveOverridesProject(item: Option<Item>, env: Env, other: Env)
    requires PassesGuards(item, env) && GetFileNullableStatus(FileText(item, env)) != NotDefined
    requires other.fileExists(item.value.canonicalName.value) == env.fileExists(item.value.canonicalName.value)
    requires other.readAllText(item.value.canonicalName.value) == env.readAllText(item.value.canonicalName.value)
    ensures Meets(item, other) == Meets(item, env)
    ensures ProjectLookup(item, env).None?
  {
  }

  /** A `.cs` file with an enable directive line and no `disable` anywhere is hidden. */
  lemma EnableDirectiveHides(item: Option<Item>, env: Env, lines: seq<string>, i: int)
    requires PassesGuards(item, env) && FileText(item, env) == Join(lines)
    requires 0 <= i < |lines| && MatchLine(lines[i], EnableWord)
    requires !Occurs("disable", Join(lines))
    ensures !Meets(item, env)
  {
    EnableLineEnable(lines, i);
  }

  /** A `.cs` file with a disable directive line and no `enable` anywhere is shown. */
  lemma DisableDirectiveShows(item: Option<Item>, env: Env, lines: seq<string>, i: int)
    requires PassesGuards(item, env) && FileText(item, env) == Join(lines)
    requires 0 <= i < |lines| && MatchLine(lines[i], DisableWord)
    requires !Occurs("enable", Join(lines))
    ensures Meets(item, env)
  {
    DisableLineDisable(lines, i);
  }

  /** A `.cs` file with both an enable and a disable directive line is shown. */
  lemma BothDirectivesShow(item: Option<Item>, env: Env, lines: seq<string>, i: int, j: int)
    requires PassesGuards(item, env) && FileText(item, env) == Join(lines)
    requires 0 <= i < |lines| && MatchLine(lines[i], EnableWord)
    requires 0 <= j < |lines| && MatchLine(lines[j], DisableWord)
    ensures Meets(item, env)
  {
    BothDirectivesBothDefined(lines, i, j);
  }

  /** A `.cs` file without any `#` follows its project: hidden exactly when the owning
      project enables nullable checking; shown when it disables it, leaves it unspecified,
      or when no C# project owns the file. */
  lemma NoDirectiveFollowsProject(item: Option<Item>, env: Env)
    requires PassesGuards(item, env) && '#' !in FileText(item, env)
    ensures Meets(item, env) <==> ProjectNullableStatus(item.value, env) != Some(true)
    ensures OwningProject(item.value, env).None? ==> Meets(item, env)
  {
    NoHashNotDefined(FileText(item, env));
  }

  // ---------------------------------------------------------------------------
  // The filter object

  /** The effect on a cache (entries `m0`, read log `log0`, becoming `m1`, `log1`) of looking up
      the project file `lookup`, if there is one. */
  ghost predicate LookupEffect(m0: map<string, Option<bool>>, log0: seq<string>,
                               m1: map<string, Option<bool>>, log1: seq<string>,
                               lookup: Option<string>, env: Env)
  {
    match lookup
    case None => m1 == m0 && log1 == log0
    case Some(path) =>
      if path in m0 then m1 == m0 && log1 == log0
      else m1 == m0[path := ResolveSetting(env.readAllText(path), env.nullableNodes)] && log1 == log0 + [path]
  }

  /** One lookup keeps the pass's part of the read log free of repeats and equal, as a set,
      to the cached paths. */
  lemma LookupStep(m0: map<string, Option<bool>>, log0: seq<string>,
                   m1: map<string, Option<bool>>, log1: seq<string>,
                   lookup: Option<string>, env: Env, start: nat)
    requires LookupEffect(m0, log0, m1, log1, lookup, env)
    requires start <= |log0| && NoDuplicates(log0[start..]) && Elements(log0[start..]) == m0.Keys
    ensures start <= |log1| && log1[..start] == log0[..start]
    ensures NoDuplicates(log1[start..]) && Elements(log1[start..]) == m1.Keys
    ensures m1.Keys == m0.Keys + (if lookup.Some? then {lookup.value} else {})
  {
    if lookup.Some? && lookup.value !in m0 {
      assert log1[start..] == log0[start..] + [lookup.value];
      assert log1[..start] == log0[..start];
    }
  }

  lemma FilterItemsStep(items: seq<Option<Item>>, env: Env, i: nat)
    requires i < |items|
    ensures FilterItems(items[..i + 1], env) ==
      FilterItems(items[..i], env) + (if Meets(items[i], env) then [items[i]] else [])
  {
    assert items[..i + 1][..i] == items[..i];
  }

  lemma NeededPathsStep(items: seq<Option<Item>>, env: Env, i: nat)
    requires i < |items|
    ensures NeededPaths(items[..i + 1], env) ==
      NeededPaths(items[..i], env) + (match ProjectLookup(items[i], env) case None => {} case Some(path) => {path})
  {
    assert items[..i + 1][..i] == items[..i];
  }

  class Filter {
    const projectNullableStatus: ProjectNullableStatusContainer

    constructor ()
      ensures fresh(projectNullableStatus)
      ensures projectNullableStatus.statuses == map[] && projectNullableStatus.readLog == []
    {
      projectNullableStatus := new ProjectNullableStatusContainer();
    }

    /** The setting of the project that owns `item`, through the memo. */
    method GetProjectNullableStatus(item: Item, env: Env) returns (r: Option<bool>)
      modifies projectNullableStatus
      ensures old(projectNullableStatus.Consistent(env.readAllText, env.nullableNodes)) ==>
        projectNullableStatus.Consistent(env.readAllText, env.nullableNodes) &&
        r == ProjectNullableStatus(item, env)
      ensures LookupEffect(old(projectNullableStatus.statuses), old(projectNullableStatus.readLog),
                           projectNullableStatus.statuses, projectNullableStatus.readLog,
                           OwningProjectPath(item, env), env)
    {
      r := None;
      var parentCsproj := TryFindParentCsprojProject(Some(item), env.isCsprojProject);
      if parentCsproj.Some? {
        r := projectNullableStatus.GetNullableStatus(parentCsproj.value, env.readAllText, env.nullableNodes);
      }
    }

    /** Whether `item` stays visible. The project is consulted only for a file without
        directives, and then through the memo. */
    method MeetsFilter(item: Option<Item>, env: Env) returns (r: bool)
      modifies projectNullableStatus
      ensures old(projectNullableStatus.Consistent(env.readAllText, env.nullableNodes)) ==>
        projectNullableStatus.Consistent(env.readAllText, env.nullableNodes) && r == Meets(item, env)
      ensures LookupEffect(old(projectNullableStatus.statuses), old(projectNullableStatus.readLog),
                           projectNullableStatus.statuses, projectNullableStatus.readLog,
                           ProjectLookup(item, env), env)
    {
      if item.None? {
        return false;
      }
      var canonicalName := item.value.canonicalName;
      if canonicalName.None? || canonicalName.value == "" {
        return false;
      }
      if !EndsWith(canonicalName.value, ".cs") {
        return false;
      }
      if !env.fileExists(canonicalName.value) {
        return false;
      }
      var fileText := env.readAllText(canonicalName.value);
      if fileText == "" {
        return false;
      }
      var fileNullableStatus := GetFileNullableStatus(fileText);
      match fileNullableStatus {
        case NotDefined =>
          var projectNullableStatus := GetProjectNullableStatus(item.value, env);
          if projectNullableStatus.Some? {
            return !projectNullableStatus.value;
          }
          return true;
        case BothDefined =>
          return true;
        case Enable =>
          return false;
        case Disable =>
          return true;
      }
    }

    /** One filtering pass: forget the memo, then keep the candidates MeetsFilter accepts.
        Each project file the pass needs is read exactly once, however many of its files are
        candidates, and again in every later pass. */
    method GetIncludedItems(items: seq<Option<Item>>, env: Env) returns (included: seq<Option<Item>>)
      modifies projectNullableStatus
      ensures included == FilterItems(items, env)
      ensures projectNullableStatus.Consistent(env.readAllText, env.nullableNodes)
      ensures projectNullableStatus.statuses.Keys == NeededPaths(items, env)
      ensures |projectNullableStatus.readLog| >= |old(projectNullableStatus.readLog)|
      ensures projectNullableStatus.readLog[..|old(projectNullableStatus.readLog)|] == old(projectNullableStatus.readLog)
      ensures NoDuplicates(projectNullableStatus.readLog[|old(projectNullableStatus.readLog)|..])
      ensures Elements(projectNullableStatus.readLog[|old(projectNullableStatus.readLog)|..]) == NeededPaths(items, env)
    {
      projectNullableStatus.Reset();
      ghost var start := |projectNullableStatus.readLog|;
      included := [];
      var i := 0;
      while i < |items|
        invariant 0 <= i <= |items|
        invariant included == FilterItems(items[..i], env)
        invariant projectNullableStatus.Consistent(env.readAllText, env.nullableNodes)
        invariant projectNullableStatus.statuses.Keys == NeededPaths(items[..i], env)
        invariant |projectNullableStatus.readLog| >= start
        invariant projectNullableStatus.readLog[..start] == old(projectNullableStatus.readLog)
        invariant NoDuplicates(projectNullableStatus.readLog[start..])
        invariant Elements(projectNullableStatus.readLog[start..]) == projectNullableStatus.statuses.Keys
      {
        ghost var m0, log0 := projectNullableStatus.statuses, projectNullableStatus.readLog;
        var accepted := MeetsFilter(items[i], env);
        if accepted {
          included := included + [items[i]];
        }
        LookupStep(m0, log0, projectNullableStatus.statuses, projectNullableStatus.readLog,
                   ProjectLookup(items[i], env), env, start);
        FilterItemsStep(items, env, i);
        NeededPathsStep(items, env, i);
        i := i + 1;
      }
      assert items[..|items|] == items;
    }
  }

  /** Two passes over the same candidates give the same answer, and because every pass
      starts with a Reset, each project file needed is read once in each pass. */
  method RepeatedPass(filter: Filter, items: seq<Option<Item>>, env: Env)
    returns (first: seq<Option<Item>>, second: seq<Option<Item>>, ghost split: nat)
    modifies filter.projectNullableStatus
    ensures first == second == FilterItems(items, env)
    ensures |old(filter.projectNullableStatus.readLog)| <= split <= |filter.projectNullableStatus.readLog|
    ensures Elements(filter.projectNullableStatus.readLog[|old(filter.projectNullableStatus.readLog)|..split]) == NeededPaths(items, env)
    ensures Elements(filter.projectNullableStatus.readLog[split..]) == NeededPaths(items, env)
  {
    ghost var start := |filter.projectNullableStatus.readLog|;
    first := filter.GetIncludedItems(items, env);
    split := |filter.projectNullableStatus.readLog|;
    ghost var log1 := filter.projectNullableStatus.readLog;
    second := filter.GetIncludedItems(items, env);
    assert filter.projectNullableStatus.readLog[start..split] == log1[start..];
  }
}
