/** The experience cards' helpers: the date label guards, the near-duplicate
    filter over highlight sentences (tokenise, stem, set-overlap similarity),
    the per-company stat badges and the company logo choice. */
module Experience {
  import opened JsText
  import opened Markup
  import App

  // ------------------------------------------------------------ formatDate

  /** What the card shows for a date: "Present", the input itself, or the locale's short
      month-year label of the first day of month `month` of `year` (the label is not modelled). */
  datatype DateLabel = PresentLabel | Verbatim(text: string) | MonthYear(year: nat, month: nat)

  /** The first two dash-separated parts both read as non-zero numbers (`y && m` truthy). */
  predicate ReadsAsMonthYear(parts: seq<string>) {
    |parts| >= 2 &&
    JsNumber(parts[0]).Some? && JsNumber(parts[0]).value != 0 &&
    JsNumber(parts[1]).Some? && JsNumber(parts[1]).value != 0
  }

  /** `formatDate`: "Present" stays; the parts around the dashes are read with `Number`, and a
      year or month part that is 0, missing or not a number leaves the input as it is. */
  function FormatDate(iso: string): (r: DateLabel)
    ensures iso == "Present" <==> r == PresentLabel
    ensures r.Verbatim? ==> r.text == iso
    ensures r.MonthYear? ==> r.year >= 1 && r.month >= 1
    ensures r.MonthYear? <==> iso != "Present" && ReadsAsMonthYear(Split(iso, '-'))
    ensures r.MonthYear? ==> var parts := Split(iso, '-');
                             Some(r.year) == JsNumber(parts[0]) && Some(r.month) == JsNumber(parts[1])
    ensures '-' !in iso ==> r.PresentLabel? || r == Verbatim(iso)
  {
    if iso == "Present" then PresentLabel
    else
      var parts := Split(iso, '-');
      var y := JsNumber(parts[0]);
      var m := if |parts| >= 2 then JsNumber(parts[1]) else None;
      if y.None? || y.value == 0 || m.None? || m.value == 0 then Verbatim(iso)
      else MonthYear(y.value, m.value)
  }

  /** A `YYYY-MM` date with a non-zero year and month is shown as that month of that year;
      with a zero year or month it is shown as written. */
  lemma FormatDateOfYearMonth(iso: string)
    requires App.IsYearMonth(iso)
    ensures var y, m := DigitsValue(iso[..4]), DigitsValue(iso[5..]);
            FormatDate(iso) == if y == 0 || m == 0 then Verbatim(iso) else MonthYear(y, m)
  {
    var a, b := iso[..4], iso[5..];
    assert iso == a + ['-'] + b;
    assert '-' !in a by {
      forall t | 0 <= t < |a| ensures a[t] != '-' { assert IsDigit(a[t]); }
    }
    assert '-' !in b by {
      forall t | 0 <= t < |b| ensures b[t] != '-' { assert IsDigit(b[t]); }
    }
    IndexOfAfter(a, '-', b);
    assert (a + ['-'] + b)[..4] == a && (a + ['-'] + b)[5..] == b;
    assert Split(iso, '-') == [a, b];
  }

  // ------------------------------------------------------------ tokenize

  /** The characters `tokenize` keeps: `[a-z0-9+%.]`. */
  predicate IsTokenChar(c: char) {
    'a' <= c <= 'z' || IsDigit(c) || c == '+' || c == '%' || c == '.'
  }

  /** `replace(/[^a-z0-9+%.\s]/g, ' ')`. */
  function Sanitize(s: string): (r: string)
    ensures |r| == |s|
    ensures forall i :: 0 <= i < |r| ==> IsTokenChar(r[i]) || IsSpace(r[i])
    ensures forall i :: 0 <= i < |r| ==> (IsTokenChar(s[i]) || IsSpace(s[i]) ==> r[i] == s[i])
    ensures forall i :: 0 <= i < |r| ==> (!IsTokenChar(s[i]) && !IsSpace(s[i]) ==> r[i] == ' ')
  {
    if s == [] then []
    else [if IsTokenChar(s[0]) || IsSpace(s[0]) then s[0] else ' '] + Sanitize(s[1..])
  }

  /** `s.split(/\s+/)`, following the string-split algorithm: the pieces from `p` on, with the
      separator search at `q`. Each separator is a whole run of whitespace. */
  function SplitWsFrom(s: string, p: nat, q: nat): (r: seq<string>)
    requires p <= q <= |s|
    requires forall t :: p <= t < q ==> !IsSpace(s[t])
    ensures |r| >= 1
    ensures forall k, i :: 0 <= k < |r| && 0 <= i < |r[k]| ==> !IsSpace(r[k][i])
    ensures (forall t :: p <= t < |s| ==> IsTokenChar(s[t]) || IsSpace(s[t])) ==>
              forall k, i :: 0 <= k < |r| && 0 <= i < |r[k]| ==> IsTokenChar(r[k][i])
    ensures (forall t :: q <= t < |s| ==> !IsSpace(s[t])) ==> r == [s[p..]]
    decreases |s| - q
  {
    if q == |s| then
      [s[p..]]
    else if IsSpace(s[q]) then
      var e := SpaceRunEnd(s, q);
      [s[p..q]] + SplitWsFrom(s, e, e)
    else SplitWsFrom(s, p, q + 1)
  }

  /** `s[a..b]` is a maximal run of non-whitespace characters of `s`. */
  ghost predicate WordRun(s: string, a: int, b: int) {
    0 <= a < b <= |s| &&
    (forall t :: a <= t < b ==> !IsSpace(s[t])) &&
    (a == 0 || IsSpace(s[a - 1])) &&
    (b == |s| || IsSpace(s[b]))
  }

  /** The non-empty pieces of the whitespace split are exactly the maximal runs of
      non-whitespace from `p` on. */
  lemma {:induction false} SplitWsRuns(s: string, p: nat, q: nat)
    requires p <= q <= |s|
    requires forall t :: p <= t < q ==> !IsSpace(s[t])
    requires p == 0 || IsSpace(s[p - 1])
    ensures forall w :: w != "" ==>
              (w in SplitWsFrom(s, p, q) <==> exists a, b :: p <= a && WordRun(s, a, b) && w == s[a..b])
    decreases |s| - q
  {
    var r := SplitWsFrom(s, p, q);
    if q == |s| {
      assert s[p..] == s[p..|s|];
      forall w | w != "" ensures w in r <==> exists a, b :: p <= a && WordRun(s, a, b) && w == s[a..b] {
        if w in r {
          assert w == s[p..|s|];
          assert WordRun(s, p, |s|);
        }
        forall a, b | p <= a && WordRun(s, a, b) ensures a == p && b == |s| {
          RunFromClearStart(s, p, |s|, a, b);
        }
      }
    } else if IsSpace(s[q]) {
      var e := SpaceRunEnd(s, q);
      var rest := SplitWsFrom(s, e, e);
      SplitWsRuns(s, e, e);
      assert r == [s[p..q]] + rest;
      forall w | w != "" ensures w in r <==> exists a, b :: p <= a && WordRun(s, a, b) && w == s[a..b] {
        if w == s[p..q] {
          assert WordRun(s, p, q);
        } else if w in rest {
          var a, b :| e <= a && WordRun(s, a, b) && w == s[a..b];
          assert p <= a;
        }
        forall a, b | p <= a && WordRun(s, a, b) ensures (a == p && b == q) || e <= a {
          if a < q {
            RunFromClearStart(s, p, q, a, b);
          } else {
            assert !IsSpace(s[a]);
          }
        }
      }
    } else {
      SplitWsRuns(s, p, q + 1);
    }
  }

  /** One word is a piece of the whole split exactly when it is a maximal run. */
  lemma WordIsRun(s: string, w: string)
    requires w != ""
    ensures w in SplitWsFrom(s, 0, 0) <==> exists a, b :: WordRun(s, a, b) && w == s[a..b]
  {
    SplitWsRuns(s, 0, 0);
  }

  /** A maximal run starting in `[p, hi)`, where nothing is whitespace and `s[hi]` (if any)
      is, must be the run `[p, hi)` itself. */
  lemma RunFromClearStart(s: string, p: nat, hi: nat, a: int, b: int)
    requires p <= hi <= |s| && (hi == |s| || IsSpace(s[hi]))
    requires forall t :: p <= t < hi ==> !IsSpace(s[t])
    requires p == 0 || IsSpace(s[p - 1])
    requires p <= a < hi && WordRun(s, a, b)
    ensures a == p && b == hi
  {
  }

  /** The words `tokenize` keeps: not empty, not a stop word, longer than two characters. */
  function KeepWords(ws: seq<string>, stop: set<string>): (r: seq<string>)
    ensures forall w :: w in r <==> w in ws && w != "" && w !in stop && |w| > 2
  {
    if ws == [] then []
    else
      assert forall w :: w in ws <==> w == ws[0] || w in ws[1..];
      (if ws[0] != "" && ws[0] !in stop && |ws[0]| > 2 then [ws[0]] else []) + KeepWords(ws[1..], stop)
  }

  /** `tokenize`: lowercase, blank out every character outside `[a-z0-9+%.]` and whitespace,
      split at whitespace, keep the words longer than two characters that are not stop words. */
  function Tokenize(text: string, stop: set<string>): (r: seq<string>)
    ensures forall k :: 0 <= k < |r| ==> |r[k]| > 2 && r[k] !in stop
    ensures forall k, i :: 0 <= k < |r| && 0 <= i < |r[k]| ==> IsTokenChar(r[k][i])
  {
    var pieces := SplitWsFrom(Sanitize(Lower(text)), 0, 0);
    var r := KeepWords(pieces, stop);
    assert forall k :: 0 <= k < |r| ==> r[k] in pieces;
    r
  }

  /** A word is a token exactly when it is longer than two characters, not a stop word, and a
      maximal whitespace-free run of the lowercased, blanked-out text. */
  lemma TokenizeMembers(text: string, stop: set<string>, w: string)
    ensures w in Tokenize(text, stop) <==> IsKeptRun(Sanitize(Lower(text)), stop, w)
  {
    KeptWordIsRun(Sanitize(Lower(text)), stop, w);
  }

  /** `w` is longer than two characters, not a stop word, and a maximal run of `s`. */
  ghost predicate IsKeptRun(s: string, stop: set<string>, w: string) {
    |w| > 2 && w !in stop && exists a, b :: WordRun(s, a, b) && w == s[a..b]
  }

  /** A word survives the filter exactly when it is long enough, not a stop word, and a
      maximal run. */
  lemma KeptWordIsRun(s: string, stop: set<string>, w: string)
    ensures w in KeepWords(SplitWsFrom(s, 0, 0), stop) <==> IsKeptRun(s, stop, w)
  {
    if w != "" {
      WordIsRun(s, w);
    }
  }

  // ------------------------------------------------------------ stem

  /** The endings `stem` strips. */
  const Endings: set<string> := {"ing", "ed", "es", "s"}

  /** `w` ends in `e`, ignoring ASCII case. */
  predicate HasEnding(w: string, e: string) {
    |e| <= |w| && Lower(w[|w| - |e|..]) == e
  }

  /** `w.replace(/(ing|ed|es|s)$/i, '')`: all alternatives end the string, so the leftmost
      match is the longest ending among them; the comparison ignores ASCII case. */
  function StripEnding(w: string): (r: string)
    ensures |w| - 3 <= |r| <= |w| && r == w[..|r|]
    ensures r == w || Lower(w[|r|..]) in Endings
  {
    var n := |w|;
    if n >= 3 && Lower(w[n - 3..]) == "ing" then w[..n - 3]
    else if n >= 2 && (Lower(w[n - 2..]) == "ed" || Lower(w[n - 2..]) == "es") then w[..n - 2]
    else if n >= 1 && LowerChar(w[n - 1]) == 's' then
      assert Lower(w[n - 1..]) == [LowerChar(w[n - 1])];
      w[..n - 1]
    else w
  }

  /** The ending cut is the longest the word has: "ing" whole, "es" rather than "s", and
      nothing only when the word has none of the endings. */
  lemma StripEndingLongest(w: string)
    ensures HasEnding(w, "ing") ==> |StripEnding(w)| == |w| - 3
    ensures HasEnding(w, "ed") || HasEnding(w, "es") ==> |StripEnding(w)| <= |w| - 2
    ensures HasEnding(w, "s") ==> |StripEnding(w)| <= |w| - 1
  {
    var n := |w|;
    EndingLastChar(w, "ing");
    EndingLastChar(w, "ed");
    EndingLastChar(w, "es");
    EndingLastChar(w, "s");
    if n >= 2 {
      assert Lower(w[n - 2..])[1] == LowerChar(w[n - 1]);
    }
    if n >= 1 {
      assert Lower(w[n - 1..]) == [LowerChar(w[n - 1])];
    }
  }

  /** A word with an ending ends in that ending's last letter, ignoring case. */
  lemma EndingLastChar(w: string, e: string)
    requires e != []
    ensures HasEnding(w, e) ==> LowerChar(w[|w| - 1]) == e[|e| - 1]
  {
    if HasEnding(w, e) {
      assert Lower(w[|w| - |e|..])[|e| - 1] == LowerChar(w[|w| - 1]);
    }
  }

  /** `stem`: strip one ending, then trim. On a word without whitespace the trim does
      nothing, so the stem is the word less its longest ending. */
  function Stem(w: string): (r: string)
    ensures |r| <= |w|
    ensures r == [] || (!IsSpace(r[0]) && !IsSpace(r[|r| - 1]))
    ensures (forall i :: 0 <= i < |w| ==> !IsSpace(w[i])) ==> r == StripEnding(w)
  {
    var s := StripEnding(w);
    assert forall i :: 0 <= i < |s| ==> s[i] == w[i];
    Trim(s)
  }

  /** A word that ends in none of ing/ed/es/s (in any case) and has no surrounding whitespace is
      its own stem. */
  lemma StemOfPlainWord(w: string)
    requires w != [] && !IsSpace(w[0]) && !IsSpace(w[|w| - 1])
    requires LowerChar(w[|w| - 1]) != 's'
    requires |w| >= 2 ==> Lower(w[|w| - 2..]) != "ed"
    requires |w| >= 3 ==> Lower(w[|w| - 3..]) != "ing"
    ensures Stem(w) == w
  {
    assert StripEnding(w) == w by {
      if |w| >= 2 {
        assert Lower(w[|w| - 2..])[1] == LowerChar(w[|w| - 1]);
      }
    }
  }

  /** The stop words of `uniqueBySimilarity`. */
  const StopWords: set<string> :=
    {"the", "a", "an", "and", "or", "to", "of", "for", "on", "in", "with", "by", "vs", "into",
     "across", "over", "under", "per", "from", "that", "this", "these", "those"}

  /** The stemmed tokens of one highlight. */
  function Terms(h: string): seq<string> {
    StemAll(Tokenize(h, StopWords))
  }

  function StemAll(ws: seq<string>): seq<string> {
    if ws == [] then [] else [Stem(ws[0])] + StemAll(ws[1..])
  }

  // ------------------------------------------------------------ similarity

  function ElemSet(a: seq<string>): set<string> {
    set x | x in a
  }

  lemma SubsetCard<T>(s: set<T>, t: set<T>)
    requires s <= t
    ensures |s| <= |t|
  {
    assert t == s + (t - s);
  }

  /** `Math.max(1, setA.size, setB.size)`. */
  function Denominator(a: seq<string>, b: seq<string>): (d: nat)
    ensures d >= 1 && d >= |ElemSet(a)| && d >= |ElemSet(b)|
    ensures d == 1 || d == |ElemSet(a)| || d == |ElemSet(b)|
  {
    var m, n := |ElemSet(a)|, |ElemSet(b)|;
    if m >= n && m >= 1 then m else if n >= 1 then n else 1
  }

  lemma RatioInUnitRange(n: nat, d: nat)
    requires 1 <= d && n <= d
    ensures 0.0 <= (n as real) / (d as real) <= 1.0
  {
    assert (n as real) / (d as real) * (d as real) == n as real;
  }

  /** `similarity`: the number of distinct shared terms over the larger number of distinct
      terms (at least 1). */
  function Similarity(a: seq<string>, b: seq<string>): (r: real)
    ensures 0.0 <= r <= 1.0
  {
    var n, d := |ElemSet(a) * ElemSet(b)|, Denominator(a, b);
    SubsetCard(ElemSet(a) * ElemSet(b), ElemSet(a));
    RatioInUnitRange(n, d);
    (n as real) / (d as real)
  }

  /** The measure does not depend on the order of its arguments. */
  lemma SimilaritySymmetric(a: seq<string>, b: seq<string>)
    ensures Similarity(a, b) == Similarity(b, a)
  {
    assert ElemSet(a) * ElemSet(b) == ElemSet(b) * ElemSet(a);
  }

  /** A non-empty term list is fully similar to itself. */
  lemma SimilarityOfItself(a: seq<string>)
    requires a != []
    ensures Similarity(a, a) == 1.0
  {
    assert a[0] in ElemSet(a);
    assert ElemSet(a) * ElemSet(a) == ElemSet(a);
  }

  /** The measure is 0 exactly when the two lists share no term. */
  lemma SimilarityZeroIff(a: seq<string>, b: seq<string>)
    ensures Similarity(a, b) == 0.0 <==> ElemSet(a) * ElemSet(b) == {}
  {
    if ElemSet(a) * ElemSet(b) != {} {
      var x :| x in ElemSet(a) * ElemSet(b);
      assert |ElemSet(a) * ElemSet(b)| >= 1;
    }
  }

  /** `similarity` as written: `inter` counts, over the distinct terms of `a`, those that also
      occur in `b`. */
  method ComputeSimilarity(a: seq<string>, b: seq<string>) returns (r: real)
    ensures r == Similarity(a, b)
  {
    var setA, setB := ElemSet(a), ElemSet(b);
    var inter := 0;
    var rest := setA;
    while rest != {}
      invariant rest <= setA
      invariant inter == |(setA - rest) * setB|
      decreases |rest|
    {
      var t :| t in rest;
      ghost var before := (setA - rest) * setB;
      assert t !in before;
      if t in setB {
        assert (setA - (rest - {t})) * setB == before + {t};
        inter := inter + 1;
      } else {
        assert (setA - (rest - {t})) * setB == before;
      }
      rest := rest - {t};
    }
    assert setA - rest == setA;
    var denom := if |setA| >= |setB| && |setA| >= 1 then |setA| else if |setB| >= 1 then |setB| else 1;
    assert denom == Denominator(a, b);
    r := (inter as real) / (denom as real);
  }

  // ------------------------------------------------------------ uniqueBySimilarity

  /** The test of `uniqueBySimilarity`: the terms of a new item reach the threshold against
      those of a kept one. */
  function NearTest(threshold: real): (string, string) -> bool {
    (h: string, o: string) => Similarity(Terms(h), Terms(o)) >= threshold
  }

  /** `h` is near some item of `out` (`out.some(...)`). */
  predicate NearAny<T(==)>(h: T, out: seq<T>, near: (T, T) -> bool) {
    exists o :: o in out && near(h, o)
  }

  /** What the filter keeps of `items`: each item in turn, unless it is near an item kept
      before it. */
  function UniqueBy<T(==)>(items: seq<T>, near: (T, T) -> bool): (r: seq<T>)
    ensures |r| <= |items|
  {
    if items == [] then []
    else
      var kept := UniqueBy(items[..|items| - 1], near);
      var h := items[|items| - 1];
      if NearAny(h, kept, near) then kept else kept + [h]
  }

  /** `uniqueBySimilarity`: the loop pushes each item that is not a near-duplicate of one
      already pushed. */
  method UniqueBySimilarity(items: seq<string>, threshold: real) returns (out: seq<string>)
    ensures out == UniqueBy(items, NearTest(threshold))
  {
    out := [];
    for i := 0 to |items|
      invariant out == UniqueBy(items[..i], NearTest(threshold))
    {
      var h := items[i];
      assert items[..i + 1][..i] == items[..i] && items[..i + 1][i] == h;
      var isDup := NearAny(h, out, NearTest(threshold));
      if !isDup {
        out := out + [h];
      }
    }
    assert items[..|items|] == items;
  }

  /** Items only ever get appended: what is kept of a prefix is a prefix of what is kept. */
  lemma {:induction false} UniqueGrows<T>(items: seq<T>, i: nat, near: (T, T) -> bool)
    requires i <= |items|
    ensures UniqueBy(items[..i], near) <= UniqueBy(items, near)
    decreases |items| - i
  {
    if i < |items| {
      var init := items[..|items| - 1];
      assert init[..i] == items[..i];
      UniqueGrows(init, i, near);
    } else {
      assert items[..i] == items;
    }
  }

  /** `xs` is `ys` at the strictly increasing positions `idx`. */
  predicate Embeds<T(==)>(xs: seq<T>, ys: seq<T>, idx: seq<nat>) {
    |idx| == |xs| &&
    (forall k :: 0 <= k < |idx| ==> idx[k] < |ys| && ys[idx[k]] == xs[k]) &&
    (forall k, l :: 0 <= k < l < |idx| ==> idx[k] < idx[l])
  }

  /** The result is a subsequence of the input: `idx` gives the input position of each kept
      item. */
  lemma {:induction false} UniqueIsSubsequence<T>(items: seq<T>, near: (T, T) -> bool) returns (idx: seq<nat>)
    ensures Embeds(UniqueBy(items, near), items, idx)
  {
    if items == [] {
      idx := [];
    } else {
      var init := items[..|items| - 1];
      idx := UniqueIsSubsequence(init, near);
      if !NearAny(items[|items| - 1], UniqueBy(init, near), near) {
        idx := idx + [|items| - 1];
      }
    }
  }

  /** The first item is always kept, in front. */
  lemma UniqueKeepsFirst<T>(items: seq<T>, near: (T, T) -> bool)
    requires items != []
    ensures UniqueBy(items, near) != [] && UniqueBy(items, near)[0] == items[0]
  {
    UniqueGrows(items, 1, near);
    assert items[..1][..0] == [];
  }

  /** No item of `out` is near an item before it. */
  predicate Apart<T>(out: seq<T>, near: (T, T) -> bool) {
    forall i, j :: 0 <= i < j < |out| ==> !near(out[j], out[i])
  }

  /** No kept item is near an item kept before it. */
  lemma {:induction false} UniqueKeepsApart<T>(items: seq<T>, near: (T, T) -> bool)
    ensures Apart(UniqueBy(items, near), near)
  {
    if items != [] {
      var init := items[..|items| - 1];
      UniqueKeepsApart(init, near);
      var kept := UniqueBy(init, near);
      var h := items[|items| - 1];
      if !NearAny(h, kept, near) {
        var out := kept + [h];
        forall i, j | 0 <= i < j < |out| ensures !near(out[j], out[i]) {
          if j == |kept| {
            assert out[j] == h && out[i] in kept;
          } else {
            assert out[i] == kept[i] && out[j] == kept[j];
          }
        }
      }
    }
  }

  /** The item at position `k` is near an item of `out` kept (at `idx`) from an earlier
      position. */
  ghost predicate NearEarlierKept<T>(items: seq<T>, out: seq<T>, idx: seq<nat>, k: nat, near: (T, T) -> bool)
    requires k < |items| && |idx| <= |out|
  {
    exists m :: 0 <= m < |idx| && idx[m] < k && near(items[k], out[m])
  }

  /** The positions the filter keeps are exactly those whose item is near no item kept from
      an earlier position; so a position left out is near an item kept before it. */
  lemma {:induction false} UniqueKeptPositions<T>(items: seq<T>, near: (T, T) -> bool) returns (idx: seq<nat>)
    ensures Embeds(UniqueBy(items, near), items, idx)
    ensures forall k :: 0 <= k < |items| ==>
              (k in idx <==> !NearEarlierKept(items, UniqueBy(items, near), idx, k, near))
  {
    if items == [] {
      idx := [];
    } else {
      var n := |items| - 1;
      var init := items[..n];
      var h := items[n];
      var kept := UniqueBy(init, near);
      var idx0 := UniqueKeptPositions(init, near);
      var out := UniqueBy(items, near);
      assert kept <= out by { UniqueGrows(items, n, near); }
      if NearAny(h, kept, near) {
        idx := idx0;
        assert out == kept;
        assert NearEarlierKept(items, out, idx, n, near) by {
          var o :| o in kept && near(h, o);
          var m :| 0 <= m < |kept| && kept[m] == o;
          assert idx[m] < n && out[m] == o;
        }
      } else {
        idx := idx0 + [n];
        assert out == kept + [h];
        assert !NearEarlierKept(items, out, idx, n, near) by {
          forall m | 0 <= m < |idx| && idx[m] < n ensures !near(h, out[m]) {
            assert m < |kept| && out[m] == kept[m] && kept[m] in kept;
          }
        }
        assert Embeds(out, items, idx) by {
          forall m | 0 <= m < |idx| ensures items[idx[m]] == out[m] {
            if m < |idx0| { assert items[idx0[m]] == init[idx0[m]]; }
          }
        }
      }
      forall k | 0 <= k < n
        ensures k in idx <==> !NearEarlierKept(items, out, idx, k, near)
      {
        assert k in idx <==> k in idx0;
        NearEarlierPrefix(items, init, out, kept, idx, idx0, k, near);
      }
    }
  }

  /** Positions before the end of a prefix see the same earlier kept items in the prefix as in
      the whole input. */
  lemma NearEarlierPrefix<T>(items: seq<T>, init: seq<T>, out: seq<T>, kept: seq<T>,
                             idx: seq<nat>, idx0: seq<nat>, k: nat, near: (T, T) -> bool)
    requires init <= items && kept <= out && idx0 <= idx && |idx0| == |kept| && |idx| <= |out|
    requires k < |init|
    requires forall m :: |idx0| <= m < |idx| ==> idx[m] >= |init|
    ensures NearEarlierKept(items, out, idx, k, near) <==> NearEarlierKept(init, kept, idx0, k, near)
  {
    assert items[k] == init[k];
    if NearEarlierKept(items, out, idx, k, near) {
      var m :| 0 <= m < |idx| && idx[m] < k && near(items[k], out[m]);
      assert m < |idx0| && idx0[m] == idx[m] && kept[m] == out[m];
    }
    if NearEarlierKept(init, kept, idx0, k, near) {
      var m :| 0 <= m < |idx0| && idx0[m] < k && near(init[k], kept[m]);
      assert idx0[m] == idx[m] && kept[m] == out[m];
    }
  }

  /** Every item left out is near an item kept before it, so only near-duplicates are
      dropped. */
  lemma UniqueDropsOnlyNear<T>(items: seq<T>, near: (T, T) -> bool) returns (idx: seq<nat>)
    ensures var out := UniqueBy(items, near);
            forall k :: 0 <= k < |items| ==> items[k] in out || NearAny(items[k], out, near)
    ensures Embeds(UniqueBy(items, near), items, idx)
    ensures forall k :: 0 <= k < |items| && k !in idx ==>
              exists m :: 0 <= m < |idx| && idx[m] < k && near(items[k], UniqueBy(items, near)[m])
  {
    idx := UniqueKeptPositions(items, near);
    var out := UniqueBy(items, near);
    forall k | 0 <= k < |items| ensures items[k] in out || NearAny(items[k], out, near) {
      if k in idx {
        var m :| 0 <= m < |idx| && idx[m] == k;
        assert out[m] == items[k];
      } else {
        assert NearEarlierKept(items, out, idx, k, near);
        var m :| 0 <= m < |idx| && idx[m] < k && near(items[k], out[m]);
        assert out[m] in out;
      }
    }
  }

  // ------------------------------------------------------------ companyBadges

  datatype Badge = Badge(caption: string, value: string)

  const O9Badges: seq<Badge> :=
    [Badge("Bugs Fixed", "250+"), Badge("Code Commits", "600+"), Badge("Features", "10+")]
  const OpenNetsBadges: seq<Badge> :=
    [Badge("Bugs Fixed", "100+"), Badge("Code Commits", "150+"), Badge("Features", "4")]
  const AwsBadges: seq<Badge> :=
    [Badge("Code Commits", "50+"), Badge("Solution Architecture", "Built from scratch")]

  predicate IsAws(c: string) { Includes(c, "amazon") || Includes(c, "aws") }

  /** `companyBadges`: the badge groups of every keyword the lowercased company name contains,
      o9 first, then OpenNets, then AWS. */
  method CompanyBadges(company: string) returns (arr: seq<Badge>)
    ensures var c := Lower(company);
            arr == (if Includes(c, "o9") then O9Badges else []) +
                   (if Includes(c, "opennets") then OpenNetsBadges else []) +
                   (if IsAws(c) then AwsBadges else [])
    ensures var c := Lower(company);
            |arr| == (if Includes(c, "o9") then 3 else 0) + (if Includes(c, "opennets") then 3 else 0) +
                     (if IsAws(c) then 2 else 0)
    ensures var c := Lower(company);
            arr == [] <==> !Includes(c, "o9") && !Includes(c, "opennets") && !IsAws(c)
  {
    var c := Lower(company);
    arr := [];
    if Includes(c, "o9") {
      arr := arr + [Badge("Bugs Fixed", "250+")];
      arr := arr + [Badge("Code Commits", "600+")];
      arr := arr + [Badge("Features", "10+")];
    }
    ghost var afterO9 := arr;
    if Includes(c, "opennets") {
      arr := arr + [Badge("Bugs Fixed", "100+")];
      arr := arr + [Badge("Code Commits", "150+")];
      arr := arr + [Badge("Features", "4")];
    }
    assert arr == afterO9 + (if Includes(c, "opennets") then OpenNetsBadges else []);
    ghost var afterOpenNets := arr;
    if Includes(c, "amazon") || Includes(c, "aws") {
      arr := arr + [Badge("Code Commits", "50+")];
      arr := arr + [Badge("Solution Architecture", "Built from scratch")];
    }
    assert arr == afterOpenNets + (if IsAws(c) then AwsBadges else []);
  }

  // ------------------------------------------------------------ logoPath

  /** The company images (their URLs are opaque here). */
  datatype CompanyLogo = AwsImage | HandshakeImage | O9Image | OpenNetsImage

  const LogoRules: seq<Rule<CompanyLogo>> :=
    [Rule([["amazon"], ["aws"]], AwsImage),
     Rule([["handshake"]], HandshakeImage),
     Rule([["o9"]], O9Image),
     Rule([["opennets"]], OpenNetsImage)]

  /** `logoPath` of an already lowercased company name: first rule wins, None is `null`. */
  function LogoPath(c: string): (r: Option<CompanyLogo>)
    ensures r.None? <==> forall i :: 0 <= i < |LogoRules| ==> !Fires(LogoRules[i], c)
  {
    FirstMatch(LogoRules, c)
  }

  lemma FiresOneWord<A>(w: string, a: A, c: string)
    ensures Fires(Rule([[w]], a), c) <==> Includes(c, w)
  {
    if Includes(c, w) {
      assert [w] in [[w]] && forall x :: x in [w] ==> Includes(c, x);
    }
  }

  lemma FiresEitherWord<A>(w1: string, w2: string, a: A, c: string)
    ensures Fires(Rule([[w1], [w2]], a), c) <==> Includes(c, w1) || Includes(c, w2)
  {
    if Includes(c, w1) {
      assert [w1] in [[w1], [w2]] && forall x :: x in [w1] ==> Includes(c, x);
    } else if Includes(c, w2) {
      assert [w2] in [[w1], [w2]] && forall x :: x in [w2] ==> Includes(c, x);
    }
  }

  /** The logo choice spelled out: AWS for amazon/aws, else Handshake, else o9, else OpenNets,
      else none. */
  lemma LogoPathChoice(c: string)
    ensures IsAws(c) ==> LogoPath(c) == Some(AwsImage)
    ensures !IsAws(c) && Includes(c, "handshake") ==> LogoPath(c) == Some(HandshakeImage)
    ensures !IsAws(c) && !Includes(c, "handshake") && Includes(c, "o9") ==> LogoPath(c) == Some(O9Image)
    ensures !IsAws(c) && !Includes(c, "handshake") && !Includes(c, "o9") && Includes(c, "opennets") ==>
              LogoPath(c) == Some(OpenNetsImage)
    ensures LogoPath(c).None? <==>
              !IsAws(c) && !Includes(c, "handshake") && !Includes(c, "o9") && !Includes(c, "opennets")
  {
    FiresEitherWord("amazon", "aws", AwsImage, c);
    FiresOneWord("handshake", HandshakeImage, c);
    FiresOneWord("o9", O9Image, c);
    FiresOneWord("opennets", OpenNetsImage, c);
    assert LogoRules[0] == Rule([["amazon"], ["aws"]], AwsImage);
    assert LogoRules[1] == Rule([["handshake"]], HandshakeImage);
    assert LogoRules[2] == Rule([["o9"]], O9Image);
    assert LogoRules[3] == Rule([["opennets"]], OpenNetsImage);
  }
}
