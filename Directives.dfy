/** The per-file directive scan: the two multi-line patterns
      ^\s*#\s*nullable\s*enable\s*$     and     ^\s*#\s*nullable\s*disable\s*$
    each searched for anywhere in the file text, and the four-valued
    classification built from the two answers. */
module Directives {
  import opened Strings

  /** The characters of the .NET class `\s`: [\f\n\r\t\v\x85\p{Z}]. It includes '\n',
      so a `\s*` may run across line breaks. */
  predicate IsWs(c: char) {
    c == ' ' || c == '\t' || c == '\n' || c == '\U{B}' || c == '\U{C}' || c == '\r'
    || c == '\U{85}' || c == '\U{A0}' || c == '\U{1680}' || '\U{2000}' <= c <= '\U{200A}'
    || c == '\U{2028}' || c == '\U{2029}' || c == '\U{202F}' || c == '\U{205F}' || c == '\U{3000}'
  }

  predicate AllWs(s: string) {
    forall i :: 0 <= i < |s| ==> IsWs(s[i])
  }

  /** The keyword that ends a directive: `enable` or `disable`. */
  datatype Keyword = EnableWord | DisableWord

  function Word(k: Keyword): string {
    match k
    case EnableWord => "enable"
    case DisableWord => "disable"
  }

  /** The length of the longest all-whitespace prefix of `s` (what a greedy `\s*` consumes). */
  function WsPrefix(s: string): (n: nat)
    ensures n <= |s|
    ensures AllWs(s[..n])
    ensures n < |s| ==> !IsWs(s[n])
  {
    if s != [] && IsWs(s[0]) then 1 + WsPrefix(s[1..]) else 0
  }

  function SkipWs(s: string): string {
    s[WsPrefix(s)..]
  }

  /** `kw \s*` at the start of `v`, up to its end. */
  predicate MatchTail(v: string, k: Keyword) {
    |v| >= |Word(k)| && v[..|Word(k)|] == Word(k) && AllWs(v[|Word(k)|..])
  }

  /** `\s* kw \s*`: what follows `nullable`. */
  predicate MatchAfterNullable(u: string, k: Keyword) {
    MatchTail(SkipWs(u), k)
  }

  /** `\s* nullable \s* kw \s*`: what follows `#`. */
  predicate MatchAfterHash(t: string, k: Keyword) {
    var u := SkipWs(t);
    |u| >= 8 && u[..8] == "nullable" && MatchAfterNullable(u[8..], k)
  }

  /** A deterministic matcher for the text between the `^` and the `$` of the pattern for `k`.
      Because `#`, `n`, `e` and `d` are not whitespace, each `\s*` can only stop at the first
      non-whitespace character, so no backtracking is needed. */
  predicate MatchLine(s: string, k: Keyword) {
    var t := SkipWs(s);
    t != [] && t[0] == '#' && MatchAfterHash(t[1..], k)
  }

  /** The language of `\s*#\s*nullable\s*enable\s*` (or `disable`), written as the regex reads. */
  ghost predicate DirectiveShape(s: string, k: Keyword) {
    exists a, b, c, d :: AllWs(a) && AllWs(b) && AllWs(c) && AllWs(d) &&
      s == a + "#" + b + "nullable" + c + Word(k) + d
  }

  /** Multi-line `^`: the start of the text or just after a '\n'. */
  predicate LineStart(text: string, p: int) {
    0 <= p <= |text| && (p == 0 || text[p - 1] == '\n')
  }

  /** Multi-line `$`: the end of the text or just before a '\n'. */
  predicate LineEnd(text: string, q: int) {
    0 <= q <= |text| && (q == |text| || text[q] == '\n')
  }

  /** Regex.IsMatch for the pattern of `k` with RegexOptions.Multiline. */
  predicate ContainsDirective(text: string, k: Keyword) {
    exists p, q | 0 <= p <= q <= |text| :: LineStart(text, p) && LineEnd(text, q) && MatchLine(text[p..q], k)
  }

  datatype FileNullableStatus = NotDefined | BothDefined | Enable | Disable

  /** Classifies a file by which of the two directive patterns occur in it. */
  function GetFileNullableStatus(text: string): (r: FileNullableStatus)
    ensures r == BothDefined <==> ContainsDirective(text, EnableWord) && ContainsDirective(text, DisableWord)
    ensures r == Enable <==> ContainsDirective(text, EnableWord) && !ContainsDirective(text, DisableWord)
    ensures r == Disable <==> !ContainsDirective(text, EnableWord) && ContainsDirective(text, DisableWord)
    ensures r == NotDefined <==> !ContainsDirective(text, EnableWord) && !ContainsDirective(text, DisableWord)
  {
    var fileNullableEnable := ContainsDirective(text, EnableWord);
    var fileNullableDisable := ContainsDirective(text, DisableWord);
    if fileNullableEnable && fileNullableDisable then BothDefined
    else if fileNullableEnable && !fileNullableDisable then Enable
    else if !fileNullableEnable && fileNullableDisable then Disable
    else NotDefined
  }

  // ---------------------------------------------------------------------------
  // The matcher agrees with the regex

  lemma {:induction false} WsPrefixUnique(a: string, b: string)
    requires AllWs(a)
    requires b == [] || !IsWs(b[0])
    ensures WsPrefix(a + b) == |a|
  {
    if a == [] {
      assert a + b == b;
    } else {
      assert (a + b)[1..] == a[1..] + b;
      WsPrefixUnique(a[1..], b);
    }
  }

  lemma SkipWsUnique(a: string, b: string)
    requires AllWs(a)
    requires b == [] || !IsWs(b[0])
    ensures SkipWs(a + b) == b
  {
    WsPrefixUnique(a, b);
    assert (a + b)[|a|..] == b;
  }

  lemma SkipWsAppend(x: string, y: string)
    requires SkipWs(x) != []
    ensures SkipWs(x + y) == SkipWs(x) + y
  {
    var n := WsPrefix(x);
    var pre := x[..n];
    assert x + y == pre + (x[n..] + y);
    SkipWsUnique(pre, x[n..] + y);
  }

  // Each stage of the matcher, read forwards (a decomposition is accepted) ...

  lemma TailAccepts(d: string, k: Keyword)
    requires AllWs(d)
    ensures MatchTail(Word(k) + d, k)
  {
    var v := Word(k) + d;
    assert v[..|Word(k)|] == Word(k) && v[|Word(k)|..] == d;
  }

  lemma AfterNullableAccepts(c: string, v: string, k: Keyword)
    requires AllWs(c) && MatchTail(v, k)
    ensures MatchAfterNullable(c + v, k)
  {
    SkipWsUnique(c, v);
  }

  lemma AfterHashAccepts(b: string, x: string, k: Keyword)
    requires AllWs(b) && MatchAfterNullable(x, k)
    ensures MatchAfterHash(b + ("nullable" + x), k)
  {
    var u := "nullable" + x;
    SkipWsUnique(b, u);
    assert u[..8] == "nullable" && u[8..] == x;
  }

  lemma LineAccepts(a: string, y: string, k: Keyword)
    requires AllWs(a) && MatchAfterHash(y, k)
    ensures MatchLine(a + ("#" + y), k)
  {
    var t := "#" + y;
    SkipWsUnique(a, t);
    assert t[1..] == y;
  }

  // ... and backwards (an accepted string decomposes).

  lemma SplitPrefix(u: string, w: string)
    requires |u| >= |w| && u[..|w|] == w
    ensures u == w + u[|w|..]
  {
    assert u == u[..|w|] + u[|w|..];
  }

  lemma SplitWs(s: string)
    ensures AllWs(s[..WsPrefix(s)]) && s == s[..WsPrefix(s)] + SkipWs(s)
  {
    assert s == s[..WsPrefix(s)] + s[WsPrefix(s)..];
  }

  lemma TailSplits(v: string, k: Keyword) returns (d: string)
    requires MatchTail(v, k)
    ensures AllWs(d) && v == Word(k) + d
  {
    d := v[|Word(k)|..];
    SplitPrefix(v, Word(k));
  }

  lemma AfterNullableSplits(x: string, k: Keyword) returns (c: string, v: string)
    requires MatchAfterNullable(x, k)
    ensures AllWs(c) && MatchTail(v, k) && x == c + v
  {
    c, v := x[..WsPrefix(x)], SkipWs(x);
    SplitWs(x);
  }

  lemma AfterHashSplits(t: string, k: Keyword) returns (b: string, x: string)
    requires MatchAfterHash(t, k)
    ensures AllWs(b) && MatchAfterNullable(x, k) && t == b + ("nullable" + x)
  {
    var u := SkipWs(t);
    b, x := t[..WsPrefix(t)], u[8..];
    SplitPrefix(u, "nullable");
    SplitWs(t);
  }

  lemma LineSplits(s: string, k: Keyword) returns (a: string, y: string)
    requires MatchLine(s, k)
    ensures AllWs(a) && MatchAfterHash(y, k) && s == a + ("#" + y)
  {
    var t := SkipWs(s);
    a, y := s[..WsPrefix(s)], t[1..];
    SplitPrefix(t, "#");
    SplitWs(s);
  }

  lemma Reassociate(a: string, b: string, c: string, d: string, w: string)
    ensures a + "#" + b + "nullable" + c + w + d == a + ("#" + (b + ("nullable" + (c + (w + d)))))
  {
  }

  lemma MatchLineGivesShape(s: string, k: Keyword)
    requires MatchLine(s, k)
    ensures DirectiveShape(s, k)
  {
    var a, y := LineSplits(s, k);
    var b, x := AfterHashSplits(y, k);
    var c, v := AfterNullableSplits(x, k);
    var d := TailSplits(v, k);
    Reassociate(a, b, c, d, Word(k));
  }

  lemma ShapeGivesMatchLine(a: string, b: string, c: string, d: string, k: Keyword)
    requires AllWs(a) && AllWs(b) && AllWs(c) && AllWs(d)
    ensures MatchLine(a + "#" + b + "nullable" + c + Word(k) + d, k)
  {
    TailAccepts(d, k);
    AfterNullableAccepts(c, Word(k) + d, k);
    AfterHashAccepts(b, c + (Word(k) + d), k);
    LineAccepts(a, b + ("nullable" + (c + (Word(k) + d))), k);
    Reassociate(a, b, c, d, Word(k));
  }

  /** The deterministic matcher accepts exactly the language of the pattern. */
  lemma MatchLineIffShape(s: string, k: Keyword)
    ensures MatchLine(s, k) <==> DirectiveShape(s, k)
  {
    if MatchLine(s, k) {
      MatchLineGivesShape(s, k);
    }
    if DirectiveShape(s, k) {
      var a, b, c, d :| AllWs(a) && AllWs(b) && AllWs(c) && AllWs(d) &&
        s == a + "#" + b + "nullable" + c + Word(k) + d;
      ShapeGivesMatchLine(a, b, c, d, k);
    }
  }

  // ---------------------------------------------------------------------------
  // Where a directive can and cannot be found

  /** The text whose lines are `lines`, separated by '\n'. */
  function Join(lines: seq<string>): string {
    if lines == [] then ""
    else if |lines| == 1 then lines[0]
    else lines[0] + "\n" + Join(lines[1..])
  }

  lemma {:induction false} JoinAppend(a: seq<string>, b: seq<string>)
    requires a != [] && b != []
    ensures Join(a + b) == Join(a) + "\n" + Join(b)
  {
    if |a| == 1 {
      assert (a + b)[1..] == b;
    } else {
      assert (a + b)[1..] == a[1..] + b;
      JoinAppend(a[1..], b);
    }
  }

  /** Line `i` of `Join(lines)` sits between two line boundaries. */
  lemma JoinAround(lines: seq<string>, i: int) returns (before: string, after: string)
    requires 0 <= i < |lines|
    ensures Join(lines) == before + lines[i] + after
    ensures before == [] || before[|before| - 1] == '\n'
    ensures after == [] || after[0] == '\n'
  {
    var rest := lines[i..];
    assert lines == lines[..i] + rest;
    if i + 1 == |lines| {
      after := "";
      assert Join(rest) == lines[i] + after;
    } else {
      after := "\n" + Join(lines[i + 1..]);
      assert rest == [lines[i]] + lines[i + 1..];
      JoinAppend([lines[i]], lines[i + 1..]);
    }
    if i == 0 {
      before := "";
    } else {
      before := Join(lines[..i]) + "\n";
      JoinAppend(lines[..i], rest);
    }
  }

  /** A directive line anywhere in a text makes its pattern match the text. */
  lemma DirectiveLineFound(lines: seq<string>, i: int, k: Keyword)
    requires 0 <= i < |lines| && MatchLine(lines[i], k)
    ensures ContainsDirective(Join(lines), k)
  {
    var before, after := JoinAround(lines, i);
    var text := Join(lines);
    var p, q := |before|, |before| + |lines[i]|;
    assert text[p..q] == lines[i];
    assert LineStart(text, p) && LineEnd(text, q);
  }

  lemma PieceAt(x: string, w: string, d: string)
    ensures (x + w + d)[|x|..|x| + |w|] == w && (x + w + d)[|x| + |w|..] == d
  {
  }

  lemma HashAfter(a: string, rest: string)
    ensures (a + ("#" + rest))[|a|] == '#' && (a + ("#" + rest))[..|a|] == a
  {
  }

  lemma PartsHashAndKeyword(s: string, a: string, b: string, c: string, d: string, k: Keyword) returns (h: int, j: int)
    requires AllWs(a) && AllWs(d) && s == a + "#" + b + "nullable" + c + Word(k) + d
    ensures 0 <= h < |s| && s[h] == '#' && AllWs(s[..h])
    ensures OccursAt(Word(k), s, j) && AllWs(s[j + |Word(k)|..])
  {
    var x := a + "#" + b + "nullable" + c;
    PieceAt(x, Word(k), d);
    Reassociate(a, b, c, d, Word(k));
    HashAfter(a, b + ("nullable" + (c + (Word(k) + d))));
    h, j := |a|, |x|;
  }

  /** A directive line is whitespace up to a `#`, and nothing but whitespace follows its
      keyword. */
  lemma ShapeHasHashAndKeyword(s: string, k: Keyword) returns (h: int, j: int)
    requires DirectiveShape(s, k)
    ensures 0 <= h < |s| && s[h] == '#' && AllWs(s[..h])
    ensures OccursAt(Word(k), s, j) && AllWs(s[j + |Word(k)|..])
  {
    var a, b, c, d :| AllWs(a) && AllWs(b) && AllWs(c) && AllWs(d) &&
      s == a + "#" + b + "nullable" + c + Word(k) + d;
    h, j := PartsHashAndKeyword(s, a, b, c, d, k);
  }

  /** Where the pattern of `k` matches in `text`. */
  lemma MatchSite(text: string, k: Keyword) returns (p: int, q: int)
    requires ContainsDirective(text, k)
    ensures 0 <= p <= q <= |text| && LineStart(text, p) && LineEnd(text, q)
    ensures DirectiveShape(text[p..q], k)
  {
    p, q :| 0 <= p <= q <= |text| && LineStart(text, p) && LineEnd(text, q) && MatchLine(text[p..q], k);
    MatchLineIffShape(text[p..q], k);
  }

  lemma AllWsSlice(text: string, p: int, h: int)
    requires 0 <= p <= h <= |text| && AllWs(text[p..h])
    ensures forall m :: p <= m < h ==> IsWs(text[m])
  {
    forall m | p <= m < h
      ensures IsWs(text[m])
    {
      assert text[p..h][m - p] == text[m];
    }
  }

  /** The `#` of a slice whose first non-whitespace character is `#`. */
  lemma HashInSlice(text: string, p: int, q: int) returns (h: int)
    requires 0 <= p <= q <= |text| && SkipWs(text[p..q]) != [] && SkipWs(text[p..q])[0] == '#'
    ensures p <= h < q && text[h] == '#' && forall m :: p <= m < h ==> IsWs(text[m])
  {
    var s := text[p..q];
    var n := WsPrefix(s);
    assert s[n..][0] == s[n];
    h := p + n;
    assert text[h] == s[n];
    assert text[p..h] == s[..n];
    AllWsSlice(text, p, h);
  }

  /** The positions of a match of a matching text. */
  lemma LineMatch(text: string, k: Keyword) returns (p: int, q: int)
    requires ContainsDirective(text, k)
    ensures 0 <= p <= q <= |text| && LineStart(text, p) && LineEnd(text, q)
    ensures MatchLine(text[p..q], k)
  {
    p, q :| 0 <= p <= q <= |text| && LineStart(text, p) && LineEnd(text, q) && MatchLine(text[p..q], k);
  }

  /** Every match, between the line start `p` and the line end `q`, runs over whitespace only
      (possibly across line breaks) from `p` up to its `#`. */
  lemma AnchoredHash(text: string, k: Keyword, p: int, q: int) returns (h: int)
    requires 0 <= p <= q <= |text| && LineStart(text, p) && LineEnd(text, q)
    requires MatchLine(text[p..q], k)
    ensures p <= h < q && text[h] == '#' && forall m :: p <= m < h ==> IsWs(text[m])
  {
    h := HashInSlice(text, p, q);
  }

  lemma KeywordInMatch(s: string, k: Keyword) returns (j: int)
    requires MatchLine(s, k)
    ensures OccursAt(Word(k), s, j) && AllWs(s[j + |Word(k)|..])
  {
    MatchLineIffShape(s, k);
    var h;
    h, j := ShapeHasHashAndKeyword(s, k);
  }

  lemma KeywordInSlice(text: string, p: int, q: int, k: Keyword, j0: int) returns (j: int)
    requires 0 <= p <= q <= |text|
    requires OccursAt(Word(k), text[p..q], j0) && AllWs(text[p..q][j0 + |Word(k)|..])
    ensures p <= j && OccursAt(Word(k), text, j) && j + |Word(k)| <= q
    ensures AllWs(text[j + |Word(k)|..q])
  {
    var w := Word(k);
    j := p + j0;
    forall m | 0 <= m < |w|
      ensures text[j..j + |w|][m] == w[m]
    {
      assert text[p..q][j0..j0 + |w|][m] == w[m];
      assert text[p..q][j0 + m] == text[j + m];
    }
    assert text[p..q][j0 + |w|..] == text[j + |w|..q];
  }

  /** Every match, between the line start `p` and the line end `q`, ends with its keyword
      followed by whitespace only (possibly across line breaks) up to `q`. */
  lemma AnchoredKeyword(text: string, k: Keyword, p: int, q: int) returns (j: int)
    requires 0 <= p <= q <= |text| && LineStart(text, p) && LineEnd(text, q)
    requires MatchLine(text[p..q], k)
    ensures p <= j && OccursAt(Word(k), text, j) && j + |Word(k)| <= q
    ensures AllWs(text[j + |Word(k)|..q])
  {
    var j0 := KeywordInMatch(text[p..q], k);
    j := KeywordInSlice(text, p, q, k, j0);
  }

  /** A match always contains a `#` and the keyword itself. */
  lemma MatchNeedsHashAndKeyword(text: string, k: Keyword)
    requires ContainsDirective(text, k)
    ensures '#' in text
    ensures Occurs(Word(k), text)
  {
    var p, q := MatchSite(text, k);
    var h, j := ShapeHasHashAndKeyword(text[p..q], k);
    assert text[p + h] == '#';
    OccursInSlice(Word(k), text, p, q);
  }

  /** The keyword can be absent only where no directive is. */
  lemma KeywordAbsent(text: string, k: Keyword)
    requires !Occurs(Word(k), text)
    ensures !ContainsDirective(text, k)
  {
    if ContainsDirective(text, k) {
      MatchNeedsHashAndKeyword(text, k);
    }
  }

  /** In a text of one line the pattern can only match the whole line. */
  lemma SingleLine(s: string, k: Keyword)
    requires '\n' !in s
    ensures ContainsDirective(s, k) <==> MatchLine(s, k)
  {
    if ContainsDirective(s, k) {
      var p, q :| 0 <= p <= q <= |s| && LineStart(s, p) && LineEnd(s, q) && MatchLine(s[p..q], k);
      assert p == 0 && q == |s|;
      assert s[p..q] == s;
    }
    if MatchLine(s, k) {
      assert s[0..|s|] == s;
      assert LineStart(s, 0) && LineEnd(s, |s|);
    }
  }

  // ---------------------------------------------------------------------------
  // Text before the `#` or after the keyword of a line

  /** No line break in `text[i..h]`. */
  predicate SameLine(text: string, i: int, h: int) {
    0 <= i <= h <= |text| && forall m :: i <= m < h ==> text[m] != '\n'
  }

  /** Every `#` of `text` has something other than whitespace before it on its line, as in
      `// #nullable enable`. */
  predicate HashesAfterCode(text: string) {
    forall h :: 0 <= h < |text| && text[h] == '#' ==>
      exists i :: 0 <= i < h && !IsWs(text[i]) && SameLine(text, i, h)
  }

  /** Every occurrence of the keyword of `k` has something other than whitespace after it on
      its line, as in `#nullable enable warnings`. */
  predicate KeywordsFollowedByText(text: string, k: Keyword) {
    forall j | 0 <= j <= |text| - |Word(k)| :: OccursAt(Word(k), text, j) ==>
      exists i :: j + |Word(k)| <= i < |text| && !IsWs(text[i]) && SameLine(text, j + |Word(k)|, i)
  }

  /** Code after a match's keyword, on its line, would have to be inside the match. */
  lemma CodeBreaksEnd(text: string, e: int, q: int)
    requires 0 <= e <= q && LineEnd(text, q) && AllWs(text[e..q])
    ensures forall i :: e <= i < |text| && SameLine(text, e, i) ==> IsWs(text[i])
  {
    AllWsSlice(text, e, q);
  }

  /** A text whose every `#` follows code on its line has no match, however many lines it has. */
  lemma LeadingTextRejected(text: string, k: Keyword)
    requires HashesAfterCode(text)
    ensures !ContainsDirective(text, k)
  {
    if ContainsDirective(text, k) {
      // The `#` of the match has only whitespace before it back to a line start, where
      // the code that must precede it on its line cannot be.
      var p, q := LineMatch(text, k);
      var h := AnchoredHash(text, k, p, q);
    }
  }

  /** A text whose every keyword is followed by code on its line has no match of that
      keyword, however many lines it has. */
  lemma TrailingTextRejected(text: string, k: Keyword)
    requires KeywordsFollowedByText(text, k)
    ensures !ContainsDirective(text, k)
  {
    if ContainsDirective(text, k) {
      var p, q := LineMatch(text, k);
      var j := AnchoredKeyword(text, k, p, q);
      CodeBreaksEnd(text, j + |Word(k)|, q);
    }
  }

  lemma HashFree(s: string)
    requires '#' !in s
    ensures HashesAfterCode(s)
  {
  }

  lemma HashesAfterCodeAppend(a: string, b: string)
    requires HashesAfterCode(a) && HashesAfterCode(b)
    ensures HashesAfterCode(a + b)
  {
    var t := a + b;
    forall h | 0 <= h < |t| && t[h] == '#'
      ensures exists i :: 0 <= i < h && !IsWs(t[i]) && SameLine(t, i, h)
    {
      if h < |a| {
        assert a[h] == '#';
        var i :| 0 <= i < h && !IsWs(a[i]) && SameLine(a, i, h);
        assert t[i] == a[i];
        assert SameLine(t, i, h);
      } else {
        assert b[h - |a|] == '#';
        var i :| 0 <= i < h - |a| && !IsWs(b[i]) && SameLine(b, i, h - |a|);
        assert t[i + |a|] == b[i];
        assert forall m :: i + |a| <= m < h ==> t[m] == b[m - |a|];
        assert SameLine(t, i + |a|, h);
      }
    }
  }

  /** A line with code before its first `#`. */
  lemma CodeBeforeHashLine(pre: string, rest: string)
    requires '#' !in pre && !AllWs(pre) && '\n' !in pre + rest
    ensures HashesAfterCode(pre + rest)
  {
    var t := pre + rest;
    var i :| 0 <= i < |pre| && !IsWs(pre[i]);
    forall h | 0 <= h < |t| && t[h] == '#'
      ensures exists i :: 0 <= i < h && !IsWs(t[i]) && SameLine(t, i, h)
    {
      assert forall m :: 0 <= m < |pre| ==> t[m] == pre[m];
      assert h >= |pre|;
      assert t[i] == pre[i];
      assert SameLine(t, i, h);
    }
  }

  /** A line with code before its first `#`, such as `// #nullable enable`, between lines
      whose every `#` also follows code, leaves the file NotDefined. */
  lemma CommentedLineNotDefined(before: string, pre: string, rest: string, after: string)
    requires HashesAfterCode(before) && HashesAfterCode(after)
    requires '#' !in pre && !AllWs(pre) && '\n' !in pre + rest
    ensures GetFileNullableStatus(before + (pre + rest) + after) == NotDefined
  {
    CodeBeforeHashLine(pre, rest);
    HashesAfterCodeAppend(before, pre + rest);
    HashesAfterCodeAppend(before + (pre + rest), after);
    LeadingTextRejected(before + (pre + rest) + after, EnableWord);
    LeadingTextRejected(before + (pre + rest) + after, DisableWord);
  }

  lemma TailExtended(v: string, tail: string, k: Keyword, k': Keyword)
    requires MatchTail(v, k) && !AllWs(tail)
    ensures !MatchTail(v + tail, k')
  {
    var w := Word(k);
    if k' == k {
      var i :| 0 <= i < |tail| && !IsWs(tail[i]);
      assert (v + tail)[|w|..][|v| - |w| + i] == tail[i];
    } else {
      assert (v + tail)[0] == w[0];
    }
  }

  lemma AfterNullableExtended(x: string, tail: string, k: Keyword, k': Keyword)
    requires MatchAfterNullable(x, k) && !AllWs(tail)
    ensures !MatchAfterNullable(x + tail, k')
  {
    SkipWsAppend(x, tail);
    TailExtended(SkipWs(x), tail, k, k');
  }

  lemma SliceAppend(u: string, tail: string, n: nat)
    requires n <= |u|
    ensures (u + tail)[..n] == u[..n] && (u + tail)[n..] == u[n..] + tail
  {
  }

  lemma AfterHashExtended(t: string, tail: string, k: Keyword, k': Keyword)
    requires MatchAfterHash(t, k) && !AllWs(tail)
    ensures !MatchAfterHash(t + tail, k')
  {
    var u := SkipWs(t);
    SkipWsAppend(t, tail);
    SliceAppend(u, tail, 8);
    AfterNullableExtended(u[8..], tail, k, k');
  }

  lemma LineExtended(line: string, tail: string, k: Keyword, k': Keyword)
    requires MatchLine(line, k) && !AllWs(tail)
    ensures !MatchLine(line + tail, k')
  {
    var t := SkipWs(line);
    SkipWsAppend(line, tail);
    SliceAppend(t, tail, 1);
    AfterHashExtended(t[1..], tail, k, k');
  }

  lemma AllWsFromPositions(text: string, p: int, b: int)
    requires 0 <= p <= b <= |text| && forall m :: p <= m < b ==> IsWs(text[m])
    ensures AllWs(text[p..b])
  {
  }

  lemma {:induction false} WsPrefixAfterWs(w: string, x: string)
    requires AllWs(w)
    ensures WsPrefix(w + x) == |w| + WsPrefix(x)
  {
    if w == [] {
      assert w + x == x;
    } else {
      assert (w + x)[1..] == w[1..] + x;
      WsPrefixAfterWs(w[1..], x);
    }
  }

  /** Leading whitespace never changes whether a text matches. */
  lemma SkipWsAfterWs(w: string, x: string)
    requires AllWs(w)
    ensures SkipWs(w + x) == SkipWs(x)
  {
    WsPrefixAfterWs(w, x);
    assert (w + x)[|w| + WsPrefix(x)..] == x[WsPrefix(x)..];
  }

  lemma MatchLineAfterWs(w: string, x: string, k: Keyword)
    requires AllWs(w)
    ensures MatchLine(w + x, k) == MatchLine(x, k)
  {
    SkipWsAfterWs(w, x);
  }

  /** Where a match can sit in `before + line + after` when only `line` has a `#` and the
      first non-whitespace character of `line` is that `#`: it starts with whitespace at or
      before the start of `line` and reaches at least the end of `line`. */
  lemma TargetLineSite(before: string, line: string, after: string, p: int, q: int, h: int)
    requires '#' !in before && '#' !in after && '\n' !in line
    requires SkipWs(line) != [] && SkipWs(line)[0] == '#'
    requires 0 <= p <= h < q <= |before + line + after|
    requires LineStart(before + line + after, p) && LineEnd(before + line + after, q)
    requires (before + line + after)[h] == '#' && forall m :: p <= m < h ==> IsWs((before + line + after)[m])
    ensures p <= |before| <= |before| + |line| <= q
    ensures AllWs(before[p..])
  {
    var text := before + line + after;
    var b, e, w := |before|, |before| + |line|, WsPrefix(line);
    assert forall m :: 0 <= m < b ==> text[m] == before[m];
    assert forall m :: b <= m < e ==> text[m] == line[m - b];
    assert forall m :: e <= m < |text| ==> text[m] == after[m - e];
    assert line[w] == SkipWs(line)[0];
    forall m | 0 <= m < w
      ensures IsWs(line[m])
    {
      assert line[..w][m] == line[m];
    }
    assert text[b + w] == '#';
    assert b <= h < e;
    assert p <= b;
    assert h == b + w;
    assert e <= q;
    assert forall m :: p <= m < b ==> IsWs(before[m]);
    AllWsFromPositions(before, p, b);
  }

  lemma SliceThrough(before: string, line: string, tail: string, after: string, p: int, q: int)
    requires 0 <= p <= |before| && |before| + |line + tail| <= q <= |before + (line + tail) + after|
    ensures (before + (line + tail) + after)[p..q]
      == before[p..] + (line + (tail + (before + (line + tail) + after)[|before| + |line + tail|..q]))
  {
    var text := before + (line + tail) + after;
    var e := |before| + |line + tail|;
    assert text[p..q] == text[p..|before|] + text[|before|..e] + text[e..q];
    assert text[p..|before|] == before[p..];
    assert text[|before|..e] == line + tail;
  }

  lemma NotAllWsAppend(tail: string, rest: string)
    requires !AllWs(tail)
    ensures !AllWs(tail + rest)
  {
    var i :| 0 <= i < |tail| && !IsWs(tail[i]);
    assert (tail + rest)[i] == tail[i];
  }

  /** A directive line followed on its line by other text, as in `#nullable enable warnings`,
      in a file with no other `#`, matches neither pattern. */
  lemma TargetLineRejected(before: string, line: string, tail: string, after: string, k: Keyword, k': Keyword)
    requires '#' !in before && '#' !in after && '\n' !in line + tail
    requires MatchLine(line, k) && !AllWs(tail)
    ensures !ContainsDirective(before + (line + tail) + after, k')
  {
    var text := before + (line + tail) + after;
    if ContainsDirective(text, k') {
      SkipWsAppend(line, tail);
      var p, q := LineMatch(text, k');
      var h := AnchoredHash(text, k', p, q);
      TargetLineSite(before, line + tail, after, p, q, h);
      var rest := text[|before| + |line + tail|..q];
      SliceThrough(before, line, tail, after, p, q);
      MatchLineAfterWs(before[p..], line + (tail + rest), k');
      NotAllWsAppend(tail, rest);
      LineExtended(line, tail + rest, k, k');
    }
  }

  /** A directive line followed on its line by other text, in a file with no other `#`,
      leaves the file NotDefined. */
  lemma TargetLineNotDefined(before: string, line: string, tail: string, after: string, k: Keyword)
    requires '#' !in before && '#' !in after && '\n' !in line + tail
    requires MatchLine(line, k) && !AllWs(tail)
    ensures GetFileNullableStatus(before + (line + tail) + after) == NotDefined
  {
    TargetLineRejected(before, line, tail, after, k, EnableWord);
    TargetLineRejected(before, line, tail, after, k, DisableWord);
  }

  // ---------------------------------------------------------------------------
  // The classification, for texts built from lines

  /** An enable line and a disable line anywhere, in either order and however often repeated,
      classify the file as BothDefined. */
  lemma BothDirectivesBothDefined(lines: seq<string>, i: int, j: int)
    requires 0 <= i < |lines| && MatchLine(lines[i], EnableWord)
    requires 0 <= j < |lines| && MatchLine(lines[j], DisableWord)
    ensures GetFileNullableStatus(Join(lines)) == BothDefined
  {
    DirectiveLineFound(lines, i, EnableWord);
    DirectiveLineFound(lines, j, DisableWord);
  }

  /** An enable line, and no `disable` anywhere in the text, classify the file as Enable. */
  lemma EnableLineEnable(lines: seq<string>, i: int)
    requires 0 <= i < |lines| && MatchLine(lines[i], EnableWord)
    requires !Occurs("disable", Join(lines))
    ensures GetFileNullableStatus(Join(lines)) == Enable
  {
    DirectiveLineFound(lines, i, EnableWord);
    KeywordAbsent(Join(lines), DisableWord);
  }

  /** A disable line, and no `enable` anywhere in the text, classify the file as Disable. */
  lemma DisableLineDisable(lines: seq<string>, i: int)
    requires 0 <= i < |lines| && MatchLine(lines[i], DisableWord)
    requires !Occurs("enable", Join(lines))
    ensures GetFileNullableStatus(Join(lines)) == Disable
  {
    DirectiveLineFound(lines, i, DisableWord);
    KeywordAbsent(Join(lines), EnableWord);
  }

  /** A text without any `#` has no directive. */
  lemma NoHashNotDefined(text: string)
    requires '#' !in text
    ensures GetFileNullableStatus(text) == NotDefined
  {
    if ContainsDirective(text, EnableWord) {
      MatchNeedsHashAndKeyword(text, EnableWord);
    }
    if ContainsDirective(text, DisableWord) {
      MatchNeedsHashAndKeyword(text, DisableWord);
    }
  }

  /** A text that is one directive line contains that directive. */
  lemma WholeText(text: string, k: Keyword)
    requires MatchLine(text, k)
    ensures ContainsDirective(text, k)
  {
    assert text[0..|text|] == text;
    assert LineStart(text, 0) && LineEnd(text, |text|);
  }

  // ---------------------------------------------------------------------------
  // Examples

  lemma CommentedDirectiveConcat()
    ensures "using X;\n" + ("// " + "#nullable enable") + "\nclass C {}" == "using X;\n// #nullable enable\nclass C {}"
  {
  }

  lemma CommentedDirectiveHashes()
    ensures '#' !in "using X;\n" && '#' !in "\nclass C {}" && '#' !in "// "
  {
  }

  lemma CommentedDirectiveOneLine()
    ensures !IsWs("// "[0]) && '\n' !in "// " + "#nullable enable"
  {
  }

  /** `#nullable enable` commented out with `//` on the middle line of a file is ignored. */
  lemma CommentedDirectiveIgnored()
    ensures GetFileNullableStatus("using X;\n// #nullable enable\nclass C {}") == NotDefined
  {
    CommentedDirectiveConcat();
    CommentedDirectiveHashes();
    CommentedDirectiveOneLine();
    HashFree("using X;\n");
    HashFree("\nclass C {}");
    CommentedLineNotDefined("using X;\n", "// ", "#nullable enable", "\nclass C {}");
  }

  lemma PlainEnableSpelling()
    ensures "" + "#" + "" + "nullable" + " " + "enable" + "" == "#nullable enable"
  {
  }

  lemma PlainEnableLine()
    ensures MatchLine("#nullable enable", EnableWord)
  {
    ShapeGivesMatchLine("", "", " ", "", EnableWord);
    PlainEnableSpelling();
  }

  lemma WarningsTargetConcat()
    ensures "" + ("#nullable enable" + " warnings") + "\nclass C {}" == "#nullable enable warnings\nclass C {}"
  {
  }

  lemma WarningsTargetHashes()
    ensures '#' !in "" && '#' !in "\nclass C {}"
  {
  }

  lemma WarningsTargetOneLine()
    ensures '\n' !in "#nullable enable" + " warnings" && !IsWs(" warnings"[1])
  {
  }

  /** `#nullable enable warnings` (a directive with a target) on the first line of a file
      matches neither pattern. */
  lemma WarningsTargetIgnored()
    ensures GetFileNullableStatus("#nullable enable warnings\nclass C {}") == NotDefined
  {
    PlainEnableLine();
    WarningsTargetConcat();
    WarningsTargetHashes();
    WarningsTargetOneLine();
    TargetLineNotDefined("", "#nullable enable", " warnings", "\nclass C {}", EnableWord);
  }

  lemma NoSpacesSpelling()
    ensures "" + "#" + "" + "nullable" + "" + "enable" + "" == "#nullableenable"
  {
  }

  lemma NoSpacesLine()
    ensures MatchLine("#nullableenable", EnableWord)
  {
    ShapeGivesMatchLine("", "", "", "", EnableWord);
    NoSpacesSpelling();
  }

  lemma NoDisableIn()
    ensures !Occurs("disable", "#nullableenable") && !Occurs("disable", "#nullable\nenable")
  {
    if Occurs("disable", "#nullableenable") {
      OccursFirstChar("disable", "#nullableenable");
    }
    if Occurs("disable", "#nullable\nenable") {
      OccursFirstChar("disable", "#nullable\nenable");
    }
  }

  /** Every `\s*` may be empty: `#nullableenable` is an enable directive. */
  lemma NoSpacesNeeded()
    ensures GetFileNullableStatus("#nullableenable") == Enable
  {
    NoSpacesLine();
    WholeText("#nullableenable", EnableWord);
    NoDisableIn();
    KeywordAbsent("#nullableenable", DisableWord);
  }

  lemma SplitEnableSpelling()
    ensures "" + "#" + "" + "nullable" + "\n" + "enable" + "" == "#nullable\nenable"
  {
  }

  lemma SplitEnableLine()
    ensures MatchLine("#nullable\nenable", EnableWord)
  {
    ShapeGivesMatchLine("", "", "\n", "", EnableWord);
    SplitEnableSpelling();
  }

  /** `\s` includes '\n', so `#nullable` on one line and `enable` on the next also match. */
  lemma WhitespaceSpansLines()
    ensures GetFileNullableStatus("#nullable\nenable") == Enable
  {
    SplitEnableLine();
    WholeText("#nullable\nenable", EnableWord);
    NoDisableIn();
    KeywordAbsent("#nullable\nenable", DisableWord);
  }
}
