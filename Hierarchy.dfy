/** Items of the solution tree and the search for the C# project that owns an item. */
module Hierarchy {
  import opened Wrappers

  /** A project as the filter sees it: the full path of its project file. */
  datatype Project = Project(fullName: string)

  /** An item of the solution hierarchy: its identity in the host, its canonical name
      (a file path, or null) and its parent (null at the root). */
  datatype Item = Item(identity: nat, canonicalName: Option<string>, parent: Option<Item>)

  /** The item (if any), then its parent, then that one's parent, up to the root. */
  function Ancestry(item: Option<Item>): (chain: seq<Item>)
    ensures item.None? <==> chain == []
    ensures item.Some? ==> chain[0] == item.value
    ensures forall i :: 0 <= i < |chain| - 1 ==> chain[i].parent == Some(chain[i + 1])
    ensures chain != [] ==> chain[|chain| - 1].parent.None?
    decreases item
  {
    match item
    case None => []
    case Some(it) => [it] + Ancestry(it.parent)
  }

  /** The result of the first item in `chain` that the host recognises as a C# project. */
  function FirstCsproj(chain: seq<Item>, isCsprojProject: Item -> Option<Project>): Option<Project> {
    if chain == [] then None
    else if isCsprojProject(chain[0]).Some? then isCsprojProject(chain[0])
    else FirstCsproj(chain[1..], isCsprojProject)
  }

  /** FirstCsproj is None exactly when no item of the chain is a C# project, and otherwise
      the answer for the earliest item that is one. */
  lemma {:induction false} FirstCsprojIsFirst(chain: seq<Item>, isCsprojProject: Item -> Option<Project>)
    ensures FirstCsproj(chain, isCsprojProject).None? <==>
      forall i :: 0 <= i < |chain| ==> isCsprojProject(chain[i]).None?
    ensures FirstCsproj(chain, isCsprojProject).Some? ==>
      exists i :: 0 <= i < |chain| && FirstCsproj(chain, isCsprojProject) == isCsprojProject(chain[i]) &&
        forall j :: 0 <= j < i ==> isCsprojProject(chain[j]).None?
  {
    if chain != [] && isCsprojProject(chain[0]).None? {
      FirstCsprojIsFirst(chain[1..], isCsprojProject);
      var r := FirstCsproj(chain, isCsprojProject);
      if r.Some? {
        var i :| 0 <= i < |chain[1..]| && r == isCsprojProject(chain[1..][i]) &&
          forall j :: 0 <= j < i ==> isCsprojProject(chain[1..][j]).None?;
        assert r == isCsprojProject(chain[i + 1]);
        assert forall j :: 0 <= j < i + 1 ==> isCsprojProject(chain[j]).None? by {
          forall j | 0 <= j < i + 1
            ensures isCsprojProject(chain[j]).None?
          {
            if j > 0 { assert chain[j] == chain[1..][j - 1]; }
          }
        }
      } else {
        forall i | 0 <= i < |chain|
          ensures isCsprojProject(chain[i]).None?
        {
          if i > 0 { assert chain[i] == chain[1..][i - 1]; }
        }
      }
    } else if chain != [] {
      assert FirstCsproj(chain, isCsprojProject) == isCsprojProject(chain[0]);
    }
  }

  /** Walks from `item` up through its parents and returns the first C# project found,
      or None once the root has been passed. */
  method TryFindParentCsprojProject(item: Option<Item>, isCsprojProject: Item -> Option<Project>)
    returns (r: Option<Project>)
    ensures r == FirstCsproj(Ancestry(item), isCsprojProject)
  {
    var current := item;
    while current.Some?
      invariant FirstCsproj(Ancestry(current), isCsprojProject) == FirstCsproj(Ancestry(item), isCsprojProject)
      decreases |Ancestry(current)|
    {
      var result := isCsprojProject(current.value);
      if result.Some? {
        return result;
      }
      assert Ancestry(current)[1..] == Ancestry(current.value.parent);
      current := current.value.parent;
    }
    return None;
  }
}
