# NullableSolutionFilter — a Dafny model of the filter's decision engine

NullableSolutionFilter is a Visual Studio extension. It adds a Solution Explorer filter that
shows only the C# source files where nullable reference types are *not* in effect. This
project models the engine behind that filter and proves properties of it:

- **Directive scan** (`Directives`). A file's text is searched for the two multi-line
  patterns `^\s*#\s*nullable\s*enable\s*$` and `^\s*#\s*nullable\s*disable\s*$`. The two
  answers give one of four statuses: NotDefined, BothDefined, Enable or Disable.
  - `ContainsDirective` models `Regex.IsMatch` as "there are positions `p <= q` with `p` at
    a line start, `q` at a line end, and `text[p..q]` matching".
  - `MatchLine` is a deterministic matcher for the text between the anchors.
    `MatchLineIffShape` proves it accepts exactly the strings the pattern describes
    (`DirectiveShape`).
  - `\s` is the .NET character class `[\f\n\r\t\v\x85\p{Z}]`, written out in `IsWs`.
- **Project setting** (`ProjectSettings`). A project file maps to `Some(true)`,
  `Some(false)` or `None`, by the project's own asymmetric policy:
  - no `Nullable` substring: None;
  - exactly one `Nullable` element: `enable` or `disable` in any letter case gives
    Some(true) or Some(false), any other text gives None;
  - zero or several elements: Some(false).
- **Owning project** (`Hierarchy`). `TryFindParentCsprojProject` walks from an item up through
  its parents and returns the first C# project. The item chain is `Ancestry`; the host's
  "is this a C# project" test is a parameter.
- **Memo** (`StatusCache`). `ProjectNullableStatusContainer` is a class holding a map from
  project-file path to setting. A miss reads the file, resolves it and stores the result; a
  hit returns the stored value. `Reset` empties the map. A ghost `readLog` records every
  project-file read.
- **Filter** (`NullableFilter`).
  - `Meets` is the pure decision.
  - The class `Filter` has `MeetsFilter`, `GetProjectNullableStatus` and
    `GetIncludedItems`. A pass resets the memo, then keeps the candidates `MeetsFilter`
    accepts.
  - The host's file system, XML parser and project test are the oracle record `Env`.

Two facts about the code that the model keeps:

- `\s` also matches `'\n'`, so the whitespace between the parts of a directive may run over
  several lines. `#nullable` followed by a line `enable` counts as an enable directive
  (`Directives.WhitespaceSpansLines`).
- The project setting is a `bool?`. The model writes it as `Option<bool>`.

## Model

| member | source | states |
|---|---|---|
| `Directives.IsWs` | NullableSolutionFilter.Shared/NullableFilterProvider.cs:31-32 | definition of .NET `\s`: space, tab, `\n`, `\v`, `\f`, `\r`, U+0085 and the Unicode separators (`\p{Z}`: U+00A0, U+1680, U+2000 to U+200A, U+2028, U+2029, U+202F, U+205F, U+3000) |
| `Directives.WsPrefix` | NullableSolutionFilter.Shared/NullableFilterProvider.cs:31-32 | what a greedy `\s*` consumes: a prefix of whitespace, followed by a non-whitespace character or the end |
| `Directives.MatchLineIffShape` | NullableSolutionFilter.Shared/NullableFilterProvider.cs:31-32 | the deterministic matcher accepts a string exactly when it is `ws* # ws* nullable ws* enable ws*` (or `disable`) |
| `Directives.GetFileNullableStatus` | NullableSolutionFilter.Shared/NullableFilterProvider.cs:126-147 | BothDefined iff both patterns match, Enable iff only enable matches, Disable iff only disable matches, NotDefined iff neither matches |
| `Directives.DirectiveLineFound` | NullableSolutionFilter.Shared/NullableFilterProvider.cs:31-32 | a directive line at any position in a multi-line text makes that pattern match the text |
| `Directives.MatchNeedsHashAndKeyword` | NullableSolutionFilter.Shared/NullableFilterProvider.cs:31-32 | any match contains a `#` and the keyword |
| `Directives.KeywordAbsent` | NullableSolutionFilter.Shared/NullableFilterProvider.cs:31-32 | a text without the keyword has no match of that pattern |
| `Directives.SingleLine` | NullableSolutionFilter.Shared/NullableFilterProvider.cs:31-32 | in a text with no line break, the pattern matches iff the whole text is a directive line |
| `Directives.DirectiveShape` | NullableSolutionFilter.Shared/NullableFilterProvider.cs:31-32 | definition of the pattern's language between the anchors: whitespace, `#`, whitespace, `nullable`, whitespace, the keyword, whitespace, each whitespace run of any length |
| `Directives.LineStart` | NullableSolutionFilter.Shared/NullableFilterProvider.cs:31-32 | definition of multi-line `^`: position 0 or a position just after `'\n'` |
| `Directives.LineEnd` | NullableSolutionFilter.Shared/NullableFilterProvider.cs:31-32 | definition of multi-line `$`: the end of the text or a position just before `'\n'` |
| `Directives.ContainsDirective` | NullableSolutionFilter.Shared/NullableFilterProvider.cs:31-32 | definition: `Regex.IsMatch` with the multi-line option is true iff some `p <= q` has `p` at a line start (0 or just after `'\n'`), `q` at a line end (the end or just before `'\n'`) and `text[p..q]` accepted by `MatchLine` |
| `Directives.MatchLine` | NullableSolutionFilter.Shared/NullableFilterProvider.cs:31-32 | definition: after the whitespace a greedy `\s*` consumes comes `#`, then whitespace, `nullable`, whitespace, the keyword, and whitespace up to the end |
| `Directives.AnchoredHash` | NullableSolutionFilter.Shared/NullableFilterProvider.cs:31-32 | for every match, given by its line start `p` and line end `q`: there is a `#` at some `h` with `p <= h < q`, and every position from `p` up to `h` is whitespace (possibly a line break) |
| `Directives.AnchoredKeyword` | NullableSolutionFilter.Shared/NullableFilterProvider.cs:31-32 | for every match, given by its line start `p` and line end `q`: the keyword occurs at some `j >= p`, ends no later than `q`, and only whitespace (possibly line breaks) follows it up to `q` |
| `Directives.LeadingTextRejected` | NullableSolutionFilter.Shared/NullableFilterProvider.cs:31-32 | in a text of any number of lines in which every `#` has non-whitespace before it on its own line (as in `// #nullable enable`), neither pattern matches |
| `Directives.TrailingTextRejected` | NullableSolutionFilter.Shared/NullableFilterProvider.cs:31-32 | in a text of any number of lines in which every occurrence of the keyword has non-whitespace after it on its own line (as in `#nullable enable warnings`), that pattern does not match |
| `Directives.CommentedLineNotDefined` | NullableSolutionFilter.Shared/NullableFilterProvider.cs:126-147 | a line with code before its first `#` between text before and after it whose every `#` follows code on its line gives NotDefined |
| `Directives.TargetLineRejected` | NullableSolutionFilter.Shared/NullableFilterProvider.cs:31-32 | a directive line followed on the same line by non-whitespace, with no `#` in the text before or after it, matches neither pattern |
| `Directives.TargetLineNotDefined` | NullableSolutionFilter.Shared/NullableFilterProvider.cs:126-147 | the same file, a directive line with trailing text among `#`-free lines, gives NotDefined |
| `Directives.BothDirectivesBothDefined` | NullableSolutionFilter.Shared/NullableFilterProvider.cs:128-134 | an enable line and a disable line, in any order and with any repetition, give BothDefined |
| `Directives.EnableLineEnable` | NullableSolutionFilter.Shared/NullableFilterProvider.cs:136-140 | an enable line, with no `disable` in the text, gives Enable however often it is repeated |
| `Directives.DisableLineDisable` | NullableSolutionFilter.Shared/NullableFilterProvider.cs:141-144 | a disable line, with no `enable` in the text, gives Disable |
| `Directives.NoHashNotDefined` | NullableSolutionFilter.Shared/NullableFilterProvider.cs:136-146 | a text without `#` is NotDefined |
| `Directives.CommentedDirectiveIgnored` | NullableSolutionFilter.Shared/NullableFilterProvider.cs:31-32 | the three-line text `using X;`, `// #nullable enable`, `class C {}` is NotDefined |
| `Directives.WarningsTargetIgnored` | NullableSolutionFilter.Shared/NullableFilterProvider.cs:31-32 | the two-line text `#nullable enable warnings`, `class C {}` is NotDefined |
| `Directives.NoSpacesNeeded` | NullableSolutionFilter.Shared/NullableFilterProvider.cs:31 | `#nullableenable`, with no whitespace at all, is Enable |
| `Directives.WhitespaceSpansLines` | NullableSolutionFilter.Shared/NullableFilterProvider.cs:31 | the two-line text `#nullable`, `enable` is Enable, because `\s` includes `'\n'` |
| `Strings.Occurs` | NullableSolutionFilter.Shared/NullableFilterProvider.cs:170 | definition of ordinal `String.Contains`: the pattern is the slice of the string at some position |
| `Strings.EndsWith` | NullableSolutionFilter.Shared/NullableFilterProvider.cs:67 | definition of ordinal `String.EndsWith`: the suffix is no longer than the string and equals its last characters |
| `Strings.EqualsIgnoreCase` | NullableSolutionFilter.Shared/NullableFilterProvider.cs:179-183 | definition: equal lengths and, position by position, equal characters after ASCII lower-casing |
| `Strings.EqualsIgnoreCaseIffLowerEqual` | NullableSolutionFilter.Shared/NullableFilterProvider.cs:179-183 | the case-insensitive comparison holds iff the lower-cased strings are equal |
| `ProjectSettings.ResolveSetting` | NullableSolutionFilter.Shared/NullableFilterProvider.cs:169-203 | Some(true) iff `Nullable` occurs and there is exactly one element equal to `enable` ignoring case. Some(false) iff `Nullable` occurs and either the element count is not one or the single element is `disable`. None iff `Nullable` is absent, or the single element is neither word |
| `ProjectSettings.SingleElementAnyCase` | NullableSolutionFilter.Shared/NullableFilterProvider.cs:176-190 | a single element whose lower-cased text is `enable` gives Some(true), `disable` gives Some(false), anything else gives None |
| `Hierarchy.Ancestry` | NullableSolutionFilter.Shared/NullableFilterProvider.cs:222-231 | the chain starts with the item itself, each entry is the parent of the one before, and it ends at an item without a parent |
| `Hierarchy.FirstCsproj` | NullableSolutionFilter.Shared/NullableFilterProvider.cs:220-234 | definition: the answer for the first item of the chain that is a C# project, or None when the chain ends first |
| `Hierarchy.FirstCsprojIsFirst` | NullableSolutionFilter.Shared/NullableFilterProvider.cs:220-234 | the lookup is None iff no item of the chain is a C# project; otherwise it is the answer for the earliest one |
| `Hierarchy.TryFindParentCsprojProject` | NullableSolutionFilter.Shared/NullableFilterProvider.cs:220-234 | the loop returns the first C# project along the item's ancestry, or None |
| `StatusCache.ProjectNullableStatusContainer.constructor` | NullableSolutionFilter.Shared/NullableFilterProvider.cs:161 | a new container has no entries and has read nothing |
| `StatusCache.ProjectNullableStatusContainer.GetNullableStatus` | NullableSolutionFilter.Shared/NullableFilterProvider.cs:163-209 | hit: the stored value, no read, map unchanged. Miss: one read of that path, and the resolved value is stored under exactly that key, every other entry unchanged. Either way `statuses[path]` is the result afterwards, and consistent entries stay consistent |
| `StatusCache.ProjectNullableStatusContainer.Reset` | NullableSolutionFilter.Shared/NullableFilterProvider.cs:211-214 | the map is empty afterwards |
| `NullableFilter.PassesGuards` | NullableSolutionFilter.Shared/NullableFilterProvider.cs:56-82 | definition: the item is not null, its canonical name is neither null nor empty and ends in `.cs`, the file exists and its text is not empty |
| `NullableFilter.Decide` | NullableSolutionFilter.Shared/NullableFilterProvider.cs:84-111 | the switch shows the file exactly when nullable checking is not in effect, i.e. unless the file says Enable, or says nothing while the project says Some(true) |
| `NullableFilter.Meets` | NullableSolutionFilter.Shared/NullableFilterProvider.cs:54-112 | definition: the guards pass and `Decide` accepts the file's status with the owning project's setting |
| `NullableFilter.OwningProject` | NullableSolutionFilter.Shared/NullableFilterProvider.cs:117 | definition: the call `item.TryFindParentCsprojProject()`, i.e. `FirstCsproj` over the item's ancestry with the host's C# project test |
| `NullableFilter.ProjectNullableStatus` | NullableSolutionFilter.Shared/NullableFilterProvider.cs:114-124 | definition: None when no C# project owns the item, otherwise the resolved setting of the owning project's file |
| `NullableFilter.ProjectLookup` | NullableSolutionFilter.Shared/NullableFilterProvider.cs:87-91 | definition: the owning project's file for an item that passes the guards, whose file is NotDefined and that has an owning C# project; None otherwise |
| `NullableFilter.FilterItems` | NullableSolutionFilter.Shared/NullableFilterProvider.cs:51 | the kept items are exactly the candidates MeetsFilter accepts, and no more of them than candidates |
| `NullableFilter.NeededPaths` | NullableSolutionFilter.Shared/NullableFilterProvider.cs:87-91 | a path is needed iff some candidate's decision looks up that project file |
| `NullableFilter.ShownIffNullableOff` | NullableSolutionFilter.Shared/NullableFilterProvider.cs:54-112 | an item is shown iff it passes the guards and nullable checking is not in effect: the file does not say Enable, and it is not the case that the file says nothing and the project enables it |
| `NullableFilter.EarlyGuardsHide` | NullableSolutionFilter.Shared/NullableFilterProvider.cs:56-82 | a null item, a null or empty name, a name not ending in `.cs`, a missing file or an empty text each hide the item |
| `NullableFilter.DirectiveOverridesProject` | NullableSolutionFilter.Shared/NullableFilterProvider.cs:84-108 | once the file's directives decide, another host that agrees only on whether that one file exists and on its text gives the same answer, whatever its other files and projects, and no project file is looked up |
| `NullableFilter.EnableDirectiveHides` | NullableSolutionFilter.Shared/NullableFilterProvider.cs:103-105 | a `.cs` file with an enable line and no `disable` is hidden |
| `NullableFilter.DisableDirectiveShows` | NullableSolutionFilter.Shared/NullableFilterProvider.cs:106-108 | a `.cs` file with a disable line and no `enable` is shown |
| `NullableFilter.BothDirectivesShow` | NullableSolutionFilter.Shared/NullableFilterProvider.cs:100-102 | a `.cs` file with both kinds of line is shown |
| `NullableFilter.NoDirectiveFollowsProject` | NullableSolutionFilter.Shared/NullableFilterProvider.cs:87-98 | a `.cs` file without `#` is hidden iff its project resolves to Some(true). It is shown when the project resolves to Some(false) or None, and when no C# project owns it |
| `NullableFilter.LookupStep` | NullableSolutionFilter.Shared/NullableFilterProvider.cs:167-206 | a lookup keeps the pass's reads free of repeats, and, as a set, equal to the cached keys |
| `NullableFilter.Filter.constructor` | NullableSolutionFilter.Shared/NullableFilterProvider.cs:35 | the filter owns a fresh, empty container |
| `NullableFilter.Filter.GetProjectNullableStatus` | NullableSolutionFilter.Shared/NullableFilterProvider.cs:114-124 | the result is the owning project's resolved setting, or None without an owner; the memo changes only by that one lookup |
| `NullableFilter.Filter.MeetsFilter` | NullableSolutionFilter.Shared/NullableFilterProvider.cs:54-112 | the answer is `Meets`; the memo and the read log change only for a NotDefined file with an owning project, and only by that lookup |
| `NullableFilter.Filter.GetIncludedItems` | NullableSolutionFilter.Shared/NullableFilterProvider.cs:42-52 | after the reset, the result is the accepted candidates in order. The memo holds exactly the needed paths, and the pass reads each needed project file exactly once |
| `NullableFilter.RepeatedPass` | NullableSolutionFilter.Shared/NullableFilterProvider.cs:44 | two passes give the same result, and each pass reads every needed project file again |

## Left out

- Visual Studio and MEF plumbing is not modelled: the provider attribute,
  `HierarchyTreeFilterProvider`, `CreateFilter`, `FindCommonAncestor`, `GetDescendantsAsync`,
  `GetFilteredHierarchyItemsAsync`, async execution and cancellation. These are host services.
  The candidates of a pass are a given sequence, and filtering is a loop over it in order.
- `File.Exists` and `File.ReadAllText` are the oracles `fileExists` and `readAllText`. I/O
  errors, and a file changing between the existence check and the read, are not modelled.
- `XmlDocument.LoadXml` and `GetElementsByTagName("Nullable")` are the oracle
  `nullableNodes`, which gives the inner texts of the `Nullable` elements. A malformed
  project file, where `LoadXml` would throw, is not modelled.
- `IsCsprojProject` (`HierarchyUtilities.IsProject`, `GetProject`, the project-kind
  comparison) is the oracle `isCsprojProject`.
- `StringComparer.InvariantCultureIgnoreCase` is modelled as ASCII case folding. Culture
  rules for other characters are not modelled.
- `String.EndsWith(".cs")` is culture-sensitive in .NET. It is modelled as an ordinal suffix
  test.
- The regex engine itself is replaced by the hand-written pattern predicate. Regex timeouts
  do not apply.
- The `default: throw NotSupportedException` branch of the status switch is not modelled.
  The status is a datatype with four constructors, so the match is exhaustive.
- NullableFilter.Filter.MeetsFilter: its result equals `Meets` only when the memo's entries
  agree with the current project files. A pass starts from an empty memo and reads through
  the fixed oracles of its `Env`, so this always holds within `GetIncludedItems`. Files that
  change during a pass are not modelled.
- NullableFilter.Filter.GetProjectNullableStatus: the same condition on the memo as for
  MeetsFilter.
