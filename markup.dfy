/** Text helpers shared by the experience and project cards: HTML and
    regular-expression escaping, splitting a summary into paragraphs, and
    keyword rule tables where the first matching rule wins. */
module Markup {
  import opened JsText

  // ---------------------------------------------------------------- escapeHtml

  function HtmlEntity(c: char): string {
    if c == '&' then "&amp;" else if c == '<' then "&lt;" else if c == '>' then "&gt;" else [c]
  }

  /** `escapeHtml`: every `&`, `<` and `>` becomes its entity, every other character stays. */
  function EscapeHtml(s: string): (r: string)
    ensures forall i :: 0 <= i < |r| ==> r[i] != '<' && r[i] != '>'
    ensures (forall i :: 0 <= i < |s| ==> s[i] != '&' && s[i] != '<' && s[i] != '>') ==> r == s
    ensures |r| >= |s|
  {
    if s == [] then [] else HtmlEntity(s[0]) + EscapeHtml(s[1..])
  }

  /** Escaping works character by character: one character becomes its entity, or itself. */
  lemma EscapeHtmlChar(c: char)
    ensures EscapeHtml([c]) == HtmlEntity(c)
    ensures c == '&' ==> EscapeHtml([c]) == "&amp;"
    ensures c == '<' ==> EscapeHtml([c]) == "&lt;"
    ensures c == '>' ==> EscapeHtml([c]) == "&gt;"
    ensures c != '&' && c != '<' && c != '>' ==> EscapeHtml([c]) == [c]
  {
    assert [c][1..] == [];
  }

  /** Escaping a concatenation escapes each part: with EscapeHtmlChar, every character of the
      text is replaced by its own entity or kept, in place. */
  lemma {:induction false} EscapeHtmlAppend(a: string, b: string)
    ensures EscapeHtml(a + b) == EscapeHtml(a) + EscapeHtml(b)
  {
    if a == [] {
      assert a + b == b;
    } else {
      assert (a + b)[0] == a[0] && (a + b)[1..] == a[1..] + b;
      EscapeHtmlAppend(a[1..], b);
    }
  }

  /** Decodes the three entities that `EscapeHtml` produces. */
  function UnescapeHtml(r: string): string
    decreases |r|
  {
    if r == [] then []
    else if |r| >= 5 && r[0] == '&' && r[1] == 'a' && r[2] == 'm' && r[3] == 'p' && r[4] == ';' then
      ['&'] + UnescapeHtml(r[5..])
    else if |r| >= 4 && r[0] == '&' && r[1] == 'l' && r[2] == 't' && r[3] == ';' then
      ['<'] + UnescapeHtml(r[4..])
    else if |r| >= 4 && r[0] == '&' && r[1] == 'g' && r[2] == 't' && r[3] == ';' then
      ['>'] + UnescapeHtml(r[4..])
    else [r[0]] + UnescapeHtml(r[1..])
  }

  /** Decoding reads one escaped character back off the front. */
  lemma UnescapeEntity(c: char, rest: string)
    ensures UnescapeHtml(HtmlEntity(c) + rest) == [c] + UnescapeHtml(rest)
  {
    var r := HtmlEntity(c) + rest;
    if c == '&' {
      assert r[1] == 'a' && r[2] == 'm' && r[3] == 'p' && r[4] == ';' && r[5..] == rest;
    } else if c == '<' {
      assert r[0] == '&' && r[1] == 'l' && r[2] == 't' && r[3] == ';' && r[4..] == rest;
    } else if c == '>' {
      assert r[0] == '&' && r[1] == 'g' && r[2] == 't' && r[3] == ';' && r[4..] == rest;
    } else {
      assert r[0] == c && r[1..] == rest;
    }
  }

  /** Escaping loses nothing: decoding the entities gives the text back. */
  lemma {:induction false} EscapeHtmlRoundTrip(s: string)
    ensures UnescapeHtml(EscapeHtml(s)) == s
  {
    if s != [] {
      EscapeHtmlRoundTrip(s[1..]);
      UnescapeEntity(s[0], EscapeHtml(s[1..]));
    }
  }

  // ---------------------------------------------------------------- escapeReg

  /** The characters `escapeReg` puts a backslash before. */
  predicate IsRegexMeta(c: char) {
    c == '.' || c == '*' || c == '+' || c == '?' || c == '^' || c == '$' || c == '{' || c == '}' ||
    c == '(' || c == ')' || c == '|' || c == '[' || c == ']' || c == '\\'
  }

  function MetaCount(s: string): nat {
    if s == [] then 0 else (if IsRegexMeta(s[0]) then 1 else 0) + MetaCount(s[1..])
  }

  /** `escapeReg`: one backslash before each regular-expression metacharacter. */
  function EscapeReg(s: string): (r: string)
    ensures |r| == |s| + MetaCount(s)
    ensures (forall i :: 0 <= i < |s| ==> !IsRegexMeta(s[i])) ==> r == s
  {
    if s == [] then []
    else (if IsRegexMeta(s[0]) then ['\\', s[0]] else [s[0]]) + EscapeReg(s[1..])
  }

  /** Escaping works character by character: a metacharacter gets one backslash in front,
      any other character stays as it is. */
  lemma EscapeRegChar(c: char)
    ensures IsRegexMeta(c) ==> EscapeReg([c]) == ['\\', c]
    ensures !IsRegexMeta(c) ==> EscapeReg([c]) == [c]
  {
    assert [c][1..] == [];
  }

  /** Escaping a concatenation escapes each part: with EscapeRegChar, a backslash is inserted
      before each metacharacter and nothing else changes. */
  lemma {:induction false} EscapeRegAppend(a: string, b: string)
    ensures EscapeReg(a + b) == EscapeReg(a) + EscapeReg(b)
  {
    if a == [] {
      assert a + b == b;
    } else {
      assert (a + b)[0] == a[0] && (a + b)[1..] == a[1..] + b;
      EscapeRegAppend(a[1..], b);
    }
  }

  /** Drops the backslash in front of each escaped character. */
  function UnescapeReg(r: string): string
    decreases |r|
  {
    if r == [] then []
    else if r[0] == '\\' && |r| >= 2 then [r[1]] + UnescapeReg(r[2..])
    else [r[0]] + UnescapeReg(r[1..])
  }

  /** Escaping loses nothing: removing the inserted backslashes gives the text back. */
  lemma {:induction false} EscapeRegRoundTrip(s: string)
    ensures UnescapeReg(EscapeReg(s)) == s
  {
    if s != [] {
      var rest := EscapeReg(s[1..]);
      EscapeRegRoundTrip(s[1..]);
      if IsRegexMeta(s[0]) {
        var r := ['\\', s[0]] + rest;
        assert r[2..] == rest;
      } else {
        var r := [s[0]] + rest;
        assert r[1..] == rest;
      }
    }
  }

  // ---------------------------------------------------------------- summary paragraphs

  /** A match of `/\n\s*\n/` starts at `q`: a line feed, whitespace, then another line feed. */
  ghost predicate BlankLineAt(s: string, q: int) {
    0 <= q < |s| && s[q] == '\n' &&
    exists j {:trigger AllSpace(s, q + 1, j)} :: q < j < |s| && s[j] == '\n' && AllSpace(s, q + 1, j)
  }

  /** Last line feed in `s[lo..hi]`, or -1. */
  function LastNewline(s: string, lo: nat, hi: nat): (j: int)
    requires lo <= hi <= |s|
    ensures j == -1 ==> forall t :: lo <= t < hi ==> s[t] != '\n'
    ensures j != -1 ==> lo <= j < hi && s[j] == '\n' && forall t :: j < t < hi ==> s[t] != '\n'
    decreases hi - lo
  {
    if lo == hi then -1 else if s[hi - 1] == '\n' then hi - 1 else LastNewline(s, lo, hi - 1)
  }

  /** Where the `/\n\s*\n/` match that starts at `q` ends. The `\s*` is greedy, so the
      match runs to the last line feed of the whitespace that follows `q`: it ends just after
      a line feed, spans whitespace only, and no later line feed is reachable through
      whitespace alone. */
  function BlankLineEnd(s: string, q: nat): (e: Option<nat>)
    requires q <= |s|
    ensures e.Some? <==> BlankLineAt(s, q)
    ensures e.Some? ==> q + 2 <= e.value <= |s|
    ensures e.Some? ==> s[e.value - 1] == '\n' && AllSpace(s, q + 1, e.value)
    ensures e.Some? ==> forall j {:trigger AllSpace(s, q + 1, j)} ::
                          e.value <= j < |s| && s[j] == '\n' ==> !AllSpace(s, q + 1, j)
  {
    if q < |s| && s[q] == '\n' then
      var k := SpaceRunEnd(s, q + 1);
      var j := LastNewline(s, q + 1, k);
      if j == -1 then
        assert forall j' :: q < j' < |s| && s[j'] == '\n' ==> q < k < j' && !IsSpace(s[k]);
        None
      else
        assert forall j' :: j + 1 <= j' < |s| && s[j'] == '\n' ==> q + 1 <= k < j' && !IsSpace(s[k]);
        assert AllSpace(s, q + 1, j);
        Some(j + 1)
    else None
  }

  /** `text.split(/\n\s*\n/)`, following the string-split algorithm: the pieces from `p`
      on, with the separator search at `q`. */
  function SplitBlankLinesFrom(s: string, p: nat, q: nat): (r: seq<string>)
    requires p <= q <= |s|
    requires forall t :: p <= t < q ==> !BlankLineAt(s, t)
    ensures |r| >= 1
    ensures forall k :: 0 <= k < |r| ==> forall t :: !BlankLineAt(r[k], t)
    ensures (forall t :: q <= t < |s| ==> !BlankLineAt(s, t)) ==> r == [s[p..]]
    decreases |s| - q
  {
    if q == |s| then
      NoBlankLineInPiece(s, p, q);
      assert s[p..] == s[p..q];
      [s[p..]]
    else
      match BlankLineEnd(s, q)
      case None => SplitBlankLinesFrom(s, p, q + 1)
      case Some(e) =>
        NoBlankLineInPiece(s, p, q);
        [s[p..q]] + SplitBlankLinesFrom(s, e, e)
  }

  /** A piece cut from `s` where no separator starts contains no separator itself. */
  lemma NoBlankLineInPiece(s: string, p: nat, q: nat)
    requires p <= q <= |s|
    requires forall t :: p <= t < q ==> !BlankLineAt(s, t)
    ensures forall t :: !BlankLineAt(s[p..q], t)
  {
    forall t | BlankLineAt(s[p..q], t) ensures BlankLineAt(s, p + t) && p + t < q {
      BlankLineInPiece(s, p, q, t);
    }
  }

  /** A separator inside a piece is a separator of the whole text, at the shifted place. */
  lemma BlankLineInPiece(s: string, p: nat, q: nat, t: int)
    requires p <= q <= |s| && BlankLineAt(s[p..q], t)
    ensures BlankLineAt(s, p + t) && p + t < q
  {
    var w := s[p..q];
    var j :| t < j < |w| && w[j] == '\n' && AllSpace(w, t + 1, j);
    assert s[p + j] == '\n';
    forall u | p + t < u < p + j ensures IsSpace(s[u]) { assert s[u] == w[u - p]; }
    assert AllSpace(s, p + t + 1, p + j);
  }

  /** Where the separator starting at a cut ends (the cut itself where there is none). */
  function SepEnd(s: string, t: nat): nat {
    if t <= |s| && BlankLineEnd(s, t).Some? then BlankLineEnd(s, t).value else t
  }

  /** Where piece `k` starts, for pieces from `p` on cut at `cuts`. */
  function PieceStart(s: string, p: nat, cuts: seq<nat>, k: nat): nat
    requires k <= |cuts|
  {
    if k == 0 then p else SepEnd(s, cuts[k - 1])
  }

  /** Where the separator search for the cut ending piece `k` starts. */
  function SearchStart(s: string, q: nat, cuts: seq<nat>, k: nat): nat
    requires k <= |cuts|
  {
    if k == 0 then q else SepEnd(s, cuts[k - 1])
  }

  /** Where piece `k` ends: at its cut, the last piece at the end of the text. */
  function PieceEnd(s: string, cuts: seq<nat>, k: nat): nat
    requires k <= |cuts|
  {
    if k < |cuts| then cuts[k] else |s|
  }

  /** `r` is `s[p..]` cut at the separators `cuts`: every cut starts a separator, each
      piece is the text between one separator's end and the next cut, and each cut is the
      leftmost separator at or after where the search resumed. */
  ghost predicate CutInto(s: string, p: nat, q: nat, cuts: seq<nat>, r: seq<string>) {
    |r| == |cuts| + 1 &&
    (forall k :: 0 <= k < |cuts| ==> BlankLineAt(s, cuts[k])) &&
    (forall k :: 0 <= k < |r| ==>
      PieceStart(s, p, cuts, k) <= PieceEnd(s, cuts, k) <= |s| &&
      SearchStart(s, q, cuts, k) <= PieceEnd(s, cuts, k) &&
      r[k] == s[PieceStart(s, p, cuts, k)..PieceEnd(s, cuts, k)]) &&
    (forall k :: 0 <= k < |r| ==>
      forall t :: SearchStart(s, q, cuts, k) <= t < PieceEnd(s, cuts, k) ==> !BlankLineAt(s, t))
  }

  /** The pieces of `SplitBlankLinesFrom` are exactly the text between the leftmost
      separators, each separator running as far as the greedy match takes it. */
  lemma {:induction false} SplitBlankLinesCuts(s: string, p: nat, q: nat)
    requires p <= q <= |s|
    requires forall t :: p <= t < q ==> !BlankLineAt(s, t)
    ensures exists cuts :: CutInto(s, p, q, cuts, SplitBlankLinesFrom(s, p, q))
    decreases |s| - q
  {
    var r := SplitBlankLinesFrom(s, p, q);
    if q == |s| {
      assert CutInto(s, p, q, [], r);
    } else {
      match BlankLineEnd(s, q)
      case None =>
        SplitBlankLinesCuts(s, p, q + 1);
        var cuts :| CutInto(s, p, q + 1, cuts, r);
        CutsFromEarlierSearch(s, p, q, cuts, r);
      case Some(e) =>
        SplitBlankLinesCuts(s, e, e);
        var cuts :| CutInto(s, e, e, cuts, SplitBlankLinesFrom(s, e, e));
        CutsAfterSeparator(s, p, q, e, cuts, SplitBlankLinesFrom(s, e, e));
    }
  }

  /** Starting the search one place earlier, where no separator starts, keeps the cuts. */
  lemma CutsFromEarlierSearch(s: string, p: nat, q: nat, cuts: seq<nat>, r: seq<string>)
    requires q < |s| && !BlankLineAt(s, q)
    requires CutInto(s, p, q + 1, cuts, r)
    ensures CutInto(s, p, q, cuts, r)
  {
    assert SearchStart(s, q, cuts, 0) == q;
    forall k | 0 < k <= |cuts| ensures SearchStart(s, q, cuts, k) == SearchStart(s, q + 1, cuts, k) { }
  }

  /** A separator at `q` ending at `e` puts a cut at `q` in front of the cuts found from `e`. */
  lemma CutsAfterSeparator(s: string, p: nat, q: nat, e: nat, cuts: seq<nat>, rest: seq<string>)
    requires p <= q < |s| && BlankLineEnd(s, q) == Some(e)
    requires forall t :: p <= t < q ==> !BlankLineAt(s, t)
    requires CutInto(s, e, e, cuts, rest)
    ensures CutInto(s, p, q, [q] + cuts, [s[p..q]] + rest)
  {
    var cs := [q] + cuts;
    var r := [s[p..q]] + rest;
    assert SepEnd(s, q) == e;
    assert |r| == |cs| + 1;
    forall k | 0 <= k < |cs| ensures BlankLineAt(s, cs[k]) {
      if k > 0 { assert cs[k] == cuts[k - 1]; }
    }
    forall k | 0 <= k < |r|
      ensures PieceStart(s, p, cs, k) <= PieceEnd(s, cs, k) <= |s|
      ensures SearchStart(s, q, cs, k) <= PieceEnd(s, cs, k)
      ensures r[k] == s[PieceStart(s, p, cs, k)..PieceEnd(s, cs, k)]
      ensures forall t :: SearchStart(s, q, cs, k) <= t < PieceEnd(s, cs, k) ==> !BlankLineAt(s, t)
    {
      if k == 0 {
        assert PieceStart(s, p, cs, 0) == p && SearchStart(s, q, cs, 0) == q && PieceEnd(s, cs, 0) == q;
      } else {
        PieceOfCut(s, e, e, cuts, rest, k - 1);
        ShiftedCut(s, p, q, e, cuts, rest, k);
      }
    }
  }

  /** What `CutInto` says about piece `k`. */
  lemma PieceOfCut(s: string, p: nat, q: nat, cuts: seq<nat>, r: seq<string>, k: nat)
    requires CutInto(s, p, q, cuts, r) && k < |r|
    ensures PieceStart(s, p, cuts, k) <= PieceEnd(s, cuts, k) <= |s|
    ensures SearchStart(s, q, cuts, k) <= PieceEnd(s, cuts, k)
    ensures r[k] == s[PieceStart(s, p, cuts, k)..PieceEnd(s, cuts, k)]
    ensures forall t :: SearchStart(s, q, cuts, k) <= t < PieceEnd(s, cuts, k) ==> !BlankLineAt(s, t)
  {
  }

  /** Piece `k - 1` behind the separator at `q` becomes piece `k` once `q` is cut. */
  lemma ShiftedCut(s: string, p: nat, q: nat, e: nat, cuts: seq<nat>, rest: seq<string>, k: nat)
    requires p <= q < |s| && SepEnd(s, q) == e && 0 < k <= |cuts| + 1 && |rest| == |cuts| + 1
    requires PieceStart(s, e, cuts, k - 1) <= PieceEnd(s, cuts, k - 1) <= |s|
    requires SearchStart(s, e, cuts, k - 1) <= PieceEnd(s, cuts, k - 1)
    requires rest[k - 1] == s[PieceStart(s, e, cuts, k - 1)..PieceEnd(s, cuts, k - 1)]
    requires forall t :: SearchStart(s, e, cuts, k - 1) <= t < PieceEnd(s, cuts, k - 1) ==> !BlankLineAt(s, t)
    ensures PieceStart(s, p, [q] + cuts, k) <= PieceEnd(s, [q] + cuts, k) <= |s|
    ensures SearchStart(s, q, [q] + cuts, k) <= PieceEnd(s, [q] + cuts, k)
    ensures ([s[p..q]] + rest)[k] == s[PieceStart(s, p, [q] + cuts, k)..PieceEnd(s, [q] + cuts, k)]
    ensures forall t :: SearchStart(s, q, [q] + cuts, k) <= t < PieceEnd(s, [q] + cuts, k) ==> !BlankLineAt(s, t)
  {
    ShiftedPiece(s, p, q, e, cuts, k);
    assert ([s[p..q]] + rest)[k] == rest[k - 1];
  }

  /** Behind the cut at `q`, piece `k` is piece `k - 1` of the cuts found from `e`. */
  lemma ShiftedPiece(s: string, p: nat, q: nat, e: nat, cuts: seq<nat>, k: nat)
    requires q < |s| && SepEnd(s, q) == e && 0 < k <= |cuts| + 1
    ensures PieceStart(s, p, [q] + cuts, k) == PieceStart(s, e, cuts, k - 1)
    ensures SearchStart(s, q, [q] + cuts, k) == SearchStart(s, e, cuts, k - 1)
    ensures PieceEnd(s, [q] + cuts, k) == PieceEnd(s, cuts, k - 1)
  {
    var cs := [q] + cuts;
    assert cs[k - 1] == if k == 1 then q else cuts[k - 2];
  }

  /** The paragraphs of a summary: the text split at blank lines. */
  function Paragraphs(text: string): (r: seq<string>)
    ensures |r| >= 1
    ensures forall k :: 0 <= k < |r| ==> forall t :: !BlankLineAt(r[k], t)
  {
    SplitBlankLinesFrom(text, 0, 0)
  }

  /** The paragraphs are the text between the leftmost blank-line separators, read greedily. */
  lemma ParagraphsCut(text: string)
    ensures exists cuts :: CutInto(text, 0, 0, cuts, Paragraphs(text))
  {
    SplitBlankLinesCuts(text, 0, 0);
    var cuts :| CutInto(text, 0, 0, cuts, SplitBlankLinesFrom(text, 0, 0));
    assert CutInto(text, 0, 0, cuts, Paragraphs(text));
  }

  /** One rendered element of a summary: a trimmed paragraph, or the closing tech-stack line. */
  datatype SummaryItem = Paragraph(text: string) | TechLine(techs: string)

  /** The element list of `renderSummaryWithEmphasis`. The paragraph text is kept before
      emphasis markup is added. */
  function SummaryItems(text: string, tech: seq<string>): (r: seq<SummaryItem>)
    ensures |r| == |Paragraphs(text)| + 1
    ensures r[|r| - 1] == TechLine(Join(tech, " · "))
    ensures forall k :: 0 <= k < |r| - 1 ==> r[k] == Paragraph(Trim(Paragraphs(text)[k]))
  {
    var paras := Paragraphs(text);
    seq(|paras|, k requires 0 <= k < |paras| => Paragraph(Trim(paras[k]))) + [TechLine(Join(tech, " · "))]
  }

  /** A summary without a blank line renders as its trimmed text and the tech line. */
  lemma SummaryWithoutBlankLine(text: string, tech: seq<string>)
    requires forall t :: !BlankLineAt(text, t)
    ensures SummaryItems(text, tech) == [Paragraph(Trim(text)), TechLine(Join(tech, " · "))]
  {
    ParagraphsOfPlainText(text);
    var r := SummaryItems(text, tech);
    assert |r| == 2 && r[0] == Paragraph(Trim(text)) && r[1] == TechLine(Join(tech, " · "));
  }

  /** A text without a blank line is a single paragraph. */
  lemma ParagraphsOfPlainText(text: string)
    requires forall t :: !BlankLineAt(text, t)
    ensures Paragraphs(text) == [text]
  {
    assert text[0..] == text;
  }

  // ---------------------------------------------------------------- keyword rules

  /** A rule of an if-chain over a lowercased name: it fires when every keyword of one of
      its groups occurs in the name (`a.includes(x) && a.includes(y) || ...`). */
  datatype Rule<A> = Rule(anyOf: seq<seq<string>>, result: A)

  predicate Fires<A>(rule: Rule<A>, name: string) {
    exists g :: g in rule.anyOf && forall w :: w in g ==> Includes(name, w)
  }

  /** The if-chain itself: the first rule that fires decides; None when none fires. */
  function FirstMatch<A(==)>(rules: seq<Rule<A>>, name: string): (r: Option<A>)
    ensures r.None? <==> forall i :: 0 <= i < |rules| ==> !Fires(rules[i], name)
    ensures r.Some? ==> exists i :: 0 <= i < |rules| && Fires(rules[i], name) &&
                          r.value == rules[i].result && forall j :: 0 <= j < i ==> !Fires(rules[j], name)
  {
    if rules == [] then None
    else if Fires(rules[0], name) then Some(rules[0].result)
    else
      var r := FirstMatch(rules[1..], name);
      if r.Some? then
        var i :| 0 <= i < |rules| - 1 && Fires(rules[1..][i], name) &&
                 r.value == rules[1..][i].result && forall j :: 0 <= j < i ==> !Fires(rules[1..][j], name);
        assert forall j :: 0 <= j < i + 1 ==> !Fires(rules[j], name) by {
          forall j | 0 <= j < i + 1 ensures !Fires(rules[j], name) {
            if j > 0 { assert rules[j] == rules[1..][j - 1]; }
          }
        }
        r
      else
        assert forall i :: 0 <= i < |rules| ==> !Fires(rules[i], name) by {
          forall i | 0 <= i < |rules| ensures !Fires(rules[i], name) {
            if i > 0 { assert rules[i] == rules[1..][i - 1]; }
          }
        }
        r
  }
}
