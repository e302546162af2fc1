/** The page shell: the profile record types, the newest-first orderings of
    experience and projects, the theme toggle and the small-screen menu. */
module App {
  import opened JsText

  datatype ExperienceItem = ExperienceItem(company: string, role: string, location: string,
                                           start: string, end: string,
                                           highlights: seq<string>, tech: seq<string>)

  datatype ProjectLinks = ProjectLinks(repo: Option<string>, demo: Option<string>)

  datatype ProjectItem = ProjectItem(name: string, summary: string, tech: seq<string>,
                                     highlights: seq<string>, links: ProjectLinks,
                                     date: Option<string>)

  // ------------------------------------------------------------ experience key

  /** The key given to an ongoing position. */
  const PresentKey: int := 999999

  /** `YYYY-MM`: four digits, a dash, two digits. */
  predicate IsYearMonth(d: string) {
    |d| == 7 && AllDigits(d[..4]) && d[4] == '-' && AllDigits(d[5..])
  }

  /** Dates whose key is a number: "Present", or a string that is all digits once its first
      dash is removed. */
  predicate IsExperienceDate(d: string) {
    d == "Present" || AllDigits(RemoveFirst(d, '-'))
  }

  /** `toNum`: "Present" is 999999; any other date is read as a number with its first dash
      removed. */
  function ExperienceKey(d: string): (r: int)
    requires IsExperienceDate(d)
    ensures d == "Present" ==> r == PresentKey
    ensures r >= 0
  {
    if d == "Present" then PresentKey else DigitsValue(RemoveFirst(d, '-'))
  }

  /** For a `YYYY-MM` date the key is `YYYY * 100 + MM` (so "2023-05" gives 202305), never above
      the key of "Present". */
  lemma ExperienceKeyOfYearMonth(d: string)
    requires IsYearMonth(d)
    ensures IsExperienceDate(d)
    ensures ExperienceKey(d) == DigitsValue(d[..4]) * 100 + DigitsValue(d[5..])
    ensures ExperienceKey(d) <= PresentKey
  {
    assert d == d[..4] + [d[4]] + d[5..];
    assert '-' !in d[..4] by {
      forall t | 0 <= t < 4 ensures d[..4][t] != '-' { assert IsDigit(d[..4][t]); }
    }
    IndexOfAfter(d[..4], '-', d[5..]);
    DigitsValueAppend(d[..4], d[5..]);
    assert Pow10(2) == 100;
  }

  /** Any other readable date is the number its digits spell once the first dash is dropped:
      "2023-5" gives 20235 and "2023-05" gives 202305. */
  lemma ExperienceKeyOfDashedDigits(d: string, a: string, b: string)
    requires d == a + "-" + b && '-' !in a && AllDigits(a + b)
    ensures IsExperienceDate(d) && d != "Present"
    ensures ExperienceKey(d) == DigitsValue(a + b)
  {
    assert d == a + ['-'] + b;
    IndexOfAfter(a, '-', b);
    assert d[..|a|] == a && d[|a| + 1..] == b;
    assert d != "Present" by { assert d[|a|] == '-'; assert '-' !in "Present"; }
  }

  /** A date without a dash is read as the number its digits spell: "2023" gives 2023. */
  lemma ExperienceKeyOfDigits(d: string)
    requires AllDigits(d)
    ensures IsExperienceDate(d) && d != "Present"
    ensures ExperienceKey(d) == DigitsValue(d)
  {
    assert '-' !in d by {
      forall t | 0 <= t < |d| ensures d[t] != '-' { assert IsDigit(d[t]); }
    }
    assert d != "Present" by { assert "Present"[0] == 'P'; assert |d| == 0 || IsDigit(d[0]); }
  }

  // ------------------------------------------------------------ newest-first ordering

  /** Keys never grow along the sequence. */
  predicate NonIncreasing<T>(xs: seq<T>, key: T -> int) {
    forall i, j :: 0 <= i < j < |xs| ==> key(xs[i]) >= key(xs[j])
  }

  /** The elements with key `k`, in their order in `xs`. */
  function WithKey<T>(xs: seq<T>, key: T -> int, k: int): seq<T> {
    if xs == [] then [] else (if key(xs[0]) == k then [xs[0]] else []) + WithKey(xs[1..], key, k)
  }

  /** Puts `x` in front of the first element whose key is not above its own. */
  function Insert<T>(x: T, ys: seq<T>, key: T -> int): (r: seq<T>)
    ensures multiset(r) == multiset(ys) + multiset{x}
  {
    if ys == [] || key(x) >= key(ys[0]) then [x] + ys
    else
      assert ys == [ys[0]] + ys[1..];
      [ys[0]] + Insert(x, ys[1..], key)
  }

  lemma {:induction false} InsertBounded<T>(x: T, ys: seq<T>, key: T -> int, b: int)
    requires key(x) <= b && forall i :: 0 <= i < |ys| ==> key(ys[i]) <= b
    ensures forall i :: 0 <= i < |Insert(x, ys, key)| ==> key(Insert(x, ys, key)[i]) <= b
  {
    if ys != [] && key(x) < key(ys[0]) {
      InsertBounded(x, ys[1..], key, b);
      assert Insert(x, ys, key) == [ys[0]] + Insert(x, ys[1..], key);
    }
  }

  lemma {:induction false} InsertKeepsOrder<T>(x: T, ys: seq<T>, key: T -> int)
    requires NonIncreasing(ys, key)
    ensures NonIncreasing(Insert(x, ys, key), key)
  {
    if ys != [] && key(x) < key(ys[0]) {
      var rest := ys[1..];
      assert forall i :: 0 <= i < |rest| ==> rest[i] == ys[i + 1];
      InsertKeepsOrder(x, rest, key);
      InsertBounded(x, rest, key, key(ys[0]));
      var tail := Insert(x, rest, key);
      var r := [ys[0]] + tail;
      assert Insert(x, ys, key) == r;
      forall i, j | 0 <= i < j < |r| ensures key(r[i]) >= key(r[j]) {
        assert r[j] == tail[j - 1];
        if i > 0 { assert r[i] == tail[i - 1]; }
      }
    }
  }

  /** `[...xs].sort((a, b) => key(b) - key(a))`: a stable sort, newest (largest key) first,
      on a copy of the input. */
  function SortNewestFirst<T>(xs: seq<T>, key: T -> int): (r: seq<T>)
    ensures multiset(r) == multiset(xs)
  {
    if xs == [] then []
    else
      assert xs == [xs[0]] + xs[1..];
      Insert(xs[0], SortNewestFirst(xs[1..], key), key)
  }

  /** The sort's output is newest first. */
  lemma {:induction false} SortIsOrdered<T>(xs: seq<T>, key: T -> int)
    ensures NonIncreasing(SortNewestFirst(xs, key), key)
  {
    if xs != [] {
      SortIsOrdered(xs[1..], key);
      InsertKeepsOrder(xs[0], SortNewestFirst(xs[1..], key), key);
    }
  }

  lemma WithKeyCons<T>(y: T, rest: seq<T>, key: T -> int, k: int)
    ensures WithKey([y] + rest, key, k) == (if key(y) == k then [y] else []) + WithKey(rest, key, k)
  {
    assert ([y] + rest)[1..] == rest;
  }

  lemma {:induction false} InsertWithKey<T>(x: T, ys: seq<T>, key: T -> int, k: int)
    requires NonIncreasing(ys, key)
    ensures WithKey(Insert(x, ys, key), key, k) == (if key(x) == k then [x] else []) + WithKey(ys, key, k)
  {
    if ys == [] || key(x) >= key(ys[0]) {
      WithKeyCons(x, ys, key, k);
    } else {
      var rest := ys[1..];
      assert NonIncreasing(rest, key) by {
        assert forall i :: 0 <= i < |rest| ==> rest[i] == ys[i + 1];
      }
      InsertWithKey(x, rest, key, k);
      var tail := Insert(x, rest, key);
      assert Insert(x, ys, key) == [ys[0]] + tail;
      WithKeyCons(ys[0], tail, key, k);
      WithKeyCons(ys[0], rest, key, k);
      assert ys == [ys[0]] + rest;
    }
  }

  /** Stability: the elements sharing any one key keep their input order. */
  lemma {:induction false} SortIsStable<T>(xs: seq<T>, key: T -> int, k: int)
    ensures WithKey(SortNewestFirst(xs, key), key, k) == WithKey(xs, key, k)
  {
    if xs != [] {
      SortIsStable(xs[1..], key, k);
      SortIsOrdered(xs[1..], key);
      InsertWithKey(xs[0], SortNewestFirst(xs[1..], key), key, k);
    }
  }

  /** The sort leaves a sequence unchanged exactly when it is already newest-first. */
  lemma {:induction false} SortUnchangedIff<T>(xs: seq<T>, key: T -> int)
    ensures SortNewestFirst(xs, key) == xs <==> NonIncreasing(xs, key)
  {
    SortIsOrdered(xs, key);
    if xs != [] && NonIncreasing(xs, key) {
      var rest := xs[1..];
      assert NonIncreasing(rest, key) by {
        forall i, j | 0 <= i < j < |rest| ensures key(rest[i]) >= key(rest[j]) {
          assert rest[i] == xs[i + 1] && rest[j] == xs[j + 1];
        }
      }
      SortUnchangedIff(rest, key);
      assert rest == [] || key(xs[0]) >= key(rest[0]);
      assert [xs[0]] + rest == xs;
    }
  }

  /** The sort key of an experience entry (its start); dates without a numeric key are
      kept out by the callers' preconditions. */
  function StartKey(e: ExperienceItem): int {
    if IsExperienceDate(e.start) then ExperienceKey(e.start) else 0
  }

  /** `sortedExp`: the experience list, newest start first. */
  function SortedExperience(items: seq<ExperienceItem>): (r: seq<ExperienceItem>)
    requires forall e :: e in items ==> IsExperienceDate(e.start)
    ensures multiset(r) == multiset(items)
    ensures forall e :: e in r ==> IsExperienceDate(e.start)
    ensures forall i, j :: 0 <= i < j < |r| ==> ExperienceKey(r[i].start) >= ExperienceKey(r[j].start)
  {
    var r := SortNewestFirst(items, StartKey);
    SortIsOrdered(items, StartKey);
    assert forall e :: e in r ==> e in multiset(items);
    r
  }

  function DateKey(p: ProjectItem): int { ProjectKey(p.date) }

  /** `sortedProjects`: the projects, latest date key first. */
  function SortedProjects(items: seq<ProjectItem>): (r: seq<ProjectItem>)
    ensures multiset(r) == multiset(items)
    ensures forall i, j :: 0 <= i < j < |r| ==> ProjectKey(r[i].date) >= ProjectKey(r[j].date)
  {
    SortIsOrdered(items, DateKey);
    SortNewestFirst(items, DateKey)
  }

  // ------------------------------------------------------------ project date key

  /** `monthMap`; note that "sepember", which the pattern accepts, is absent. */
  const MonthNumber: map<string, int> :=
    map["jan" := 1, "january" := 1, "feb" := 2, "february" := 2, "mar" := 3, "march" := 3,
        "apr" := 4, "april" := 4, "may" := 5, "jun" := 6, "june" := 6, "jul" := 7, "july" := 7,
        "aug" := 8, "august" := 8, "sep" := 9, "sept" := 9, "september" := 9,
        "oct" := 10, "october" := 10, "nov" := 11, "november" := 11, "dec" := 12, "december" := 12]

  /** The month alternatives of the date pattern in the order the matcher tries them: each
      optional suffix is greedy, so the long form comes before the short one. */
  const MonthAlternatives: seq<string> :=
    ["january", "jan", "february", "feb", "march", "mar", "april", "apr", "may",
     "june", "jun", "july", "jul", "august", "aug",
     "september", "sept", "sepember", "sep",
     "october", "oct", "november", "nov", "december", "dec"]

  /** A match of the month-year pattern: the month alternative (lowercase), the 4-digit year,
      and the indices where the match starts and just past where it ends. */
  datatype MonthYearMatch = MonthYearMatch(name: string, year: nat, start: nat, end: nat)

  /** `\s+(\d{4})` with the whitespace in `s[j..k]` and the four digits at `k`. */
  predicate SpacedYearAt(s: string, j: nat, k: nat) {
    j < k && k + 4 <= |s| && AllSpace(s, j, k) && AllDigits(s[k..k + 4])
  }

  /** Some whitespace and four digits follow position `j`. */
  ghost predicate YearFollows(s: string, j: nat) {
    exists k :: SpacedYearAt(s, j, k)
  }

  /** Digits are not whitespace, so the digits can only start where the whitespace run ends. */
  lemma SpacedYearAtRunEnd(s: string, j: nat, k: nat)
    requires j <= |s| && SpacedYearAt(s, j, k)
    ensures k == SpaceRunEnd(s, j)
  {
    assert IsDigit(s[k..k + 4][0]);
  }

  /** The pattern with month alternative `name` at `i`, case-insensitively, followed by
      whitespace and four digits. `\s+` takes the whole run of whitespace; giving some back
      cannot help, since a digit must follow. */
  function MatchNameAt(s: string, i: nat, name: string): (r: Option<MonthYearMatch>)
    requires i <= |s|
    ensures r.Some? ==> i + |name| + 5 <= r.value.end <= |s| && r.value.start == i &&
                        r.value.name == name && r.value.year <= 9999
    ensures r.Some? ==> SpacedYearAt(s, i + |name|, r.value.end - 4) &&
                        r.value.year == DigitsValue(s[r.value.end - 4..r.value.end])
  {
    var j := i + |name|;
    if j <= |s| && Lower(s[i..j]) == name then
      var k := SpaceRunEnd(s, j);
      if k > j && k + 4 <= |s| && AllDigits(s[k..k + 4]) then
        assert Pow10(4) == 10000;
        Some(MonthYearMatch(name, DigitsValue(s[k..k + 4]), i, k + 4))
      else None
    else None
  }

  /** The alternative `name` matches at `i` exactly when the text there reads `name` in any
      case and whitespace and four digits follow; the match then ends after those digits and
      carries their value. */
  lemma MatchNameAtIff(s: string, i: nat, name: string)
    requires i <= |s|
    ensures MatchNameAt(s, i, name).Some? <==>
              i + |name| <= |s| && Lower(s[i..i + |name|]) == name && YearFollows(s, i + |name|)
  {
    var j := i + |name|;
    if j <= |s| && Lower(s[i..j]) == name {
      var k := SpaceRunEnd(s, j);
      if k > j && k + 4 <= |s| && AllDigits(s[k..k + 4]) {
        assert SpacedYearAt(s, j, k);
        assert MatchNameAt(s, i, name).Some?;
      } else {
        forall k' | SpacedYearAt(s, j, k') ensures k' == k { SpacedYearAtRunEnd(s, j, k'); }
        assert MatchNameAt(s, i, name).None?;
      }
    } else {
      assert MatchNameAt(s, i, name).None?;
    }
  }

  /** Alternation: the result of the first alternative in `names` that gives one. */
  function FirstSome<T>(names: seq<string>, alt: string -> Option<T>): Option<T> {
    if names == [] then None
    else match alt(names[0])
      case Some(m) => Some(m)
      case None => FirstSome(names[1..], alt)
  }

  /** Alternation gives none exactly when no alternative gives one, and otherwise the result
      of the first alternative that does. */
  lemma {:induction false} FirstSomeFirst<T>(names: seq<string>, alt: string -> Option<T>)
    ensures FirstSome(names, alt).None? <==> forall t :: 0 <= t < |names| ==> alt(names[t]).None?
    ensures FirstSome(names, alt).Some? ==>
              exists t :: 0 <= t < |names| && FirstSome(names, alt) == alt(names[t]) &&
                          forall u :: 0 <= u < t ==> alt(names[u]).None?
  {
    if names != [] && alt(names[0]).None? {
      var rest := names[1..];
      FirstSomeFirst(rest, alt);
      assert forall t :: 1 <= t < |names| ==> names[t] == rest[t - 1];
      var r := FirstSome(rest, alt);
      if r.Some? {
        var t :| 0 <= t < |rest| && r == alt(rest[t]) && forall u :: 0 <= u < t ==> alt(rest[u]).None?;
        assert r == alt(names[t + 1]);
      }
    }
  }

  /** The match at `i` from the first alternative (in `names`) that succeeds there. */
  function MatchAt(s: string, i: nat, names: seq<string>): (r: Option<MonthYearMatch>)
    requires i <= |s|
    ensures r.Some? ==> r.value.start == i && i < r.value.end <= |s| && r.value.name in names &&
                        r.value.year <= 9999
  {
    var alt := name => MatchNameAt(s, i, name);
    FirstSomeFirst(names, alt);
    FirstSome(names, alt)
  }

  /** Alternation tries the alternatives in order: the match at `i` is the one of the first
      alternative that matches there, and there is none when no alternative matches. */
  lemma MatchAtFirst(s: string, i: nat, names: seq<string>)
    requires i <= |s|
    ensures MatchAt(s, i, names).None? <==> forall t :: 0 <= t < |names| ==> MatchNameAt(s, i, names[t]).None?
    ensures MatchAt(s, i, names).Some? ==>
              exists t :: 0 <= t < |names| && MatchAt(s, i, names) == MatchNameAt(s, i, names[t]) &&
                          forall u :: 0 <= u < t ==> MatchNameAt(s, i, names[u]).None?
  {
    var alt := name => MatchNameAt(s, i, name);
    FirstSomeFirst(names, alt);
    assert forall t :: 0 <= t < |names| ==> alt(names[t]) == MatchNameAt(s, i, names[t]);
  }

  /** `rx.exec(s)` with `rx.lastIndex == from`: the leftmost match at or after `from`. */
  function ExecFrom(s: string, from: nat, names: seq<string>): (r: Option<MonthYearMatch>)
    requires from <= |s|
    ensures r.Some? ==> from <= r.value.start && from < r.value.end <= |s| &&
                        r.value.name in names && r.value.year <= 9999
    decreases |s| - from
  {
    if from == |s| then None
    else match MatchAt(s, from, names)
      case Some(m) => Some(m)
      case None => ExecFrom(s, from + 1, names)
  }

  /** The search finds the leftmost position at or after `from` where the pattern matches,
      and nothing when it matches nowhere. */
  lemma {:induction false} ExecFromLeftmost(s: string, from: nat, names: seq<string>)
    requires from <= |s|
    ensures ExecFrom(s, from, names).None? <==> forall t :: from <= t < |s| ==> MatchAt(s, t, names).None?
    ensures ExecFrom(s, from, names).Some? ==>
              var m := ExecFrom(s, from, names).value;
              m.start < |s| && Some(m) == MatchAt(s, m.start, names) &&
              forall t :: from <= t < m.start ==> MatchAt(s, t, names).None?
    decreases |s| - from
  {
    if from < |s| {
      var here := MatchAt(s, from, names);
      if here.Some? {
        assert ExecFrom(s, from, names) == here;
        assert here.value.start == from;
        assert !(forall t :: from <= t < |s| ==> MatchAt(s, t, names).None?) by {
          assert MatchAt(s, from, names).Some?;
        }
      } else {
        assert ExecFrom(s, from, names) == ExecFrom(s, from + 1, names);
        ExecFromLeftmost(s, from + 1, names);
      }
    }
  }

  /** Where the search for match `k` of `ms` starts: `from`, then where the previous match ended. */
  function ResumeAt(from: nat, ms: seq<MonthYearMatch>, k: nat): nat
    requires k <= |ms|
  {
    if k == 0 then from else ms[k - 1].end
  }

  /** The matches a global search finds from `from` on, each search resuming where the previous
      match ended. */
  function AllMatches(s: string, from: nat, names: seq<string>): seq<MonthYearMatch>
    requires from <= |s|
    decreases |s| - from
  {
    match ExecFrom(s, from, names)
    case None => []
    case Some(m) => [m] + AllMatches(s, m.end, names)
  }

  /** The `while ((m = rx.exec(s)))` loop: each match is what the search finds where the
      previous one ended, and the loop stops at the first search that finds nothing. */
  lemma AllMatchesChain(s: string, from: nat, names: seq<string>)
    requires from <= |s|
    ensures var r := AllMatches(s, from, names);
            forall k :: 0 <= k < |r| ==> ResumeAt(from, r, k) < r[k].end <= |s|
    ensures var r := AllMatches(s, from, names);
            forall k :: 0 <= k < |r| ==> ExecFrom(s, ResumeAt(from, r, k), names) == Some(r[k])
    ensures var r := AllMatches(s, from, names); ExecFrom(s, ResumeAt(from, r, |r|), names).None?
  {
    var r := AllMatches(s, from, names);
    forall k | 0 <= k < |r|
      ensures ResumeAt(from, r, k) < r[k].end <= |s|
      ensures ExecFrom(s, ResumeAt(from, r, k), names) == Some(r[k])
    {
      MatchFoundAt(s, from, names, k);
    }
    SearchEndsAfterLast(s, from, names);
  }

  /** Match `k` is what the search finds where match `k - 1` ended (at `from` for the first). */
  lemma {:induction false} MatchFoundAt(s: string, from: nat, names: seq<string>, k: nat)
    requires from <= |s| && k < |AllMatches(s, from, names)|
    ensures var r := AllMatches(s, from, names);
            ResumeAt(from, r, k) < r[k].end <= |s| && ExecFrom(s, ResumeAt(from, r, k), names) == Some(r[k])
    decreases k
  {
    var r := AllMatches(s, from, names);
    var m := ExecFrom(s, from, names).value;
    if k > 0 {
      var rest := AllMatches(s, m.end, names);
      assert r == [m] + rest;
      MatchFoundAt(s, m.end, names, k - 1);
      assert r[k] == rest[k - 1];
      assert ResumeAt(from, r, k) == ResumeAt(m.end, rest, k - 1) by {
        if k >= 2 { assert r[k - 1] == rest[k - 2]; }
      }
    }
  }

  /** The search that resumes after the last match finds nothing. */
  lemma {:induction false} SearchEndsAfterLast(s: string, from: nat, names: seq<string>)
    requires from <= |s|
    ensures var r := AllMatches(s, from, names);
            ResumeAt(from, r, |r|) <= |s| && ExecFrom(s, ResumeAt(from, r, |r|), names).None?
    decreases |s| - from
  {
    var r := AllMatches(s, from, names);
    if ExecFrom(s, from, names).Some? {
      var m := ExecFrom(s, from, names).value;
      var rest := AllMatches(s, m.end, names);
      assert r == [m] + rest;
      SearchEndsAfterLast(s, m.end, names);
      assert ResumeAt(from, r, |r|) == ResumeAt(m.end, rest, |rest|) by {
        if |rest| >= 1 { assert r[|r| - 1] == rest[|rest| - 1]; }
      }
    }
  }

  /** `monthMap[name]`, with 0 standing for `undefined`. */
  function MonthOf(name: string): (r: int)
    ensures 0 <= r <= 12
    ensures r == 0 <==> name !in MonthNumber
  {
    if name in MonthNumber then MonthNumber[name] else 0
  }

  /** A match that counts: its month is in `monthMap` and its year is not 0. */
  predicate Counts(m: MonthYearMatch) {
    MonthOf(m.name) != 0 && m.year != 0
  }

  /** What a match contributes to the key: `year * 100 + month`, or 0 when it does not count. */
  function MatchScore(m: MonthYearMatch): int {
    if Counts(m) then m.year * 100 + MonthOf(m.name) else 0
  }

  function Max(a: int, b: int): int { if a >= b then a else b }

  /** The largest score among the matches, 0 when none counts. */
  function BestOf(ms: seq<MonthYearMatch>): (b: int)
    ensures b >= 0
    ensures forall k :: 0 <= k < |ms| ==> MatchScore(ms[k]) <= b
    ensures b == 0 <==> forall k :: 0 <= k < |ms| ==> !Counts(ms[k])
    ensures b != 0 ==> exists k :: 0 <= k < |ms| && Counts(ms[k]) && MatchScore(ms[k]) == b
  {
    if ms == [] then 0
    else
      var rest := BestOf(ms[1..]);
      assert forall k :: 1 <= k < |ms| ==> ms[k] == ms[1..][k - 1];
      Max(MatchScore(ms[0]), rest)
  }

  /** `\b(20\d{2})\b` matches at `i`. */
  predicate StandaloneYearAt(s: string, i: nat) {
    i + 4 <= |s| && s[i] == '2' && s[i + 1] == '0' && IsDigit(s[i + 2]) && IsDigit(s[i + 3]) &&
    (i == 0 || !IsWordChar(s[i - 1])) && (i + 4 == |s| || !IsWordChar(s[i + 4]))
  }

  /** `s.match(/\b(20\d{2})\b/)`: the year at the leftmost such match from `from` on. */
  function FirstStandaloneYear(s: string, from: nat): (r: Option<nat>)
    requires from <= |s|
    ensures r.Some? ==> 2000 <= r.value <= 2099
    ensures r.None? <==> forall i :: from <= i < |s| ==> !StandaloneYearAt(s, i)
    ensures r.Some? ==> exists i :: from <= i < |s| && StandaloneYearAt(s, i) &&
                          r.value == DigitsValue(s[i..i + 4]) &&
                          forall j :: from <= j < i ==> !StandaloneYearAt(s, j)
    decreases |s| - from
  {
    if from == |s| then None
    else if StandaloneYearAt(s, from) then
      DigitsValueAppend("20", s[from + 2..from + 4]);
      assert s[from..from + 4] == "20" + s[from + 2..from + 4];
      assert DigitsValue("20") == 20 && DigitsValue(s[from + 2..from + 4]) < 100;
      Some(DigitsValue(s[from..from + 4]))
    else FirstStandaloneYear(s, from + 1)
  }

  /** The project `toNum`: 0 for a missing or empty date; otherwise the largest
      `year * 100 + month` over the month-year matches that count, and when none counts, a
      standalone 20xx year as `year * 100 + 1`, else 0. */
  function ProjectKey(date: Option<string>): (r: int)
    ensures date.None? || date == Some("") ==> r == 0
    ensures r >= 0
  {
    if date.None? || date.value == "" then 0
    else
      var best := BestOf(AllMatches(date.value, 0, MonthAlternatives));
      if best != 0 then best
      else match FirstStandaloneYear(date.value, 0)
        case Some(y) => y * 100 + 1
        case None => 0
  }

  lemma {:induction false} MatchesBounded(s: string, from: nat, k: nat)
    requires from <= |s| && k < |AllMatches(s, from, MonthAlternatives)|
    ensures AllMatches(s, from, MonthAlternatives)[k].year <= 9999
    decreases |s| - from
  {
    var m := ExecFrom(s, from, MonthAlternatives).value;
    assert AllMatches(s, from, MonthAlternatives) == [m] + AllMatches(s, m.end, MonthAlternatives);
    if k > 0 { MatchesBounded(s, m.end, k - 1); }
  }

  /** A `YYYYMM` value: a month 1-12 after a year 1-9999. */
  predicate IsYearMonthKey(v: int) {
    1 <= v % 100 <= 12 && 1 <= v / 100 <= 9999
  }

  lemma KeyParts(year: int, month: int)
    requires 1 <= year <= 9999 && 1 <= month <= 12
    ensures IsYearMonthKey(year * 100 + month)
  {
    var v := year * 100 + month;
    assert v / 100 == year && v % 100 == month;
  }

  /** A counting match's score is a `YYYYMM` value. */
  lemma ScoreParts(m: MonthYearMatch)
    requires Counts(m) && m.year <= 9999
    ensures IsYearMonthKey(MatchScore(m))
  {
    KeyParts(m.year, MonthOf(m.name));
  }

  /** The best score of a date string, when some match counts, is a `YYYYMM` value. */
  lemma BestScoreRange(s: string)
    requires BestOf(AllMatches(s, 0, MonthAlternatives)) != 0
    ensures IsYearMonthKey(BestOf(AllMatches(s, 0, MonthAlternatives)))
  {
    var ms := AllMatches(s, 0, MonthAlternatives);
    var k :| 0 <= k < |ms| && Counts(ms[k]) && MatchScore(ms[k]) == BestOf(ms);
    MatchesBounded(s, 0, k);
    ScoreParts(ms[k]);
  }

  /** The key's choice between the best score and the fallback year keeps it a `YYYYMM`
      value or 0. */
  lemma KeyChoiceRange(best: int, year: Option<nat>, r: int)
    requires best == 0 || IsYearMonthKey(best)
    requires year.Some? ==> 2000 <= year.value <= 2099
    requires r == (if best != 0 then best else if year.Some? then year.value * 100 + 1 else 0)
    ensures r == 0 || IsYearMonthKey(r)
  {
    if best == 0 && year.Some? { KeyParts(year.value, 1); }
  }

  /** Every key is 0 or a real `YYYYMM` value: a month 1-12 after a year 1-9999. */
  lemma ProjectKeyRange(date: Option<string>)
    ensures ProjectKey(date) == 0 || IsYearMonthKey(ProjectKey(date))
  {
    if date.Some? && date.value != "" {
      var s := date.value;
      var best := BestOf(AllMatches(s, 0, MonthAlternatives));
      if best != 0 { BestScoreRange(s); }
      KeyChoiceRange(best, FirstStandaloneYear(s, 0), ProjectKey(date));
    }
  }

  /** The key is the latest counting month-year in the text: no match scores higher, and when
      one counts, the key is the score of one of them. */
  lemma ProjectKeyIsLatestMatch(s: string)
    requires s != ""
    ensures forall k :: 0 <= k < |AllMatches(s, 0, MonthAlternatives)| ==> MatchScore(AllMatches(s, 0, MonthAlternatives)[k]) <= ProjectKey(Some(s))
    ensures (exists k :: 0 <= k < |AllMatches(s, 0, MonthAlternatives)| && Counts(AllMatches(s, 0, MonthAlternatives)[k])) ==>
              exists j :: 0 <= j < |AllMatches(s, 0, MonthAlternatives)| && Counts(AllMatches(s, 0, MonthAlternatives)[j]) &&
                          MatchScore(AllMatches(s, 0, MonthAlternatives)[j]) == ProjectKey(Some(s))
  {
  }

  /** Without a counting month-year, the key falls back to the first standalone 20xx year
      (`year * 100 + 1`), else 0. */
  lemma ProjectKeyFallback(s: string)
    requires s != ""
    requires forall k :: 0 <= k < |AllMatches(s, 0, MonthAlternatives)| ==> !Counts(AllMatches(s, 0, MonthAlternatives)[k])
    ensures FirstStandaloneYear(s, 0).Some? ==> ProjectKey(Some(s)) == FirstStandaloneYear(s, 0).value * 100 + 1
    ensures FirstStandaloneYear(s, 0).None? ==> ProjectKey(Some(s)) == 0
  {
  }

  lemma BestOfCons(m: MonthYearMatch, rest: seq<MonthYearMatch>)
    ensures BestOf([m] + rest) == Max(MatchScore(m), BestOf(rest))
  {
    assert ([m] + rest)[1..] == rest;
  }

  /** `toNum` as written: a `while` loop over `rx.exec`, keeping the best value so far, then the
      standalone-year fallback. */
  method ScanProjectDate(date: Option<string>) returns (best: int)
    ensures best == ProjectKey(date)
  {
    if date.None? || date.value == "" {
      return 0;
    }
    var s := date.value;
    best := 0;
    var lastIndex := 0;
    var m := ExecFrom(s, lastIndex, MonthAlternatives);
    while m.Some?
      invariant 0 <= lastIndex <= |s|
      invariant m == ExecFrom(s, lastIndex, MonthAlternatives)
      invariant best >= 0
      invariant Max(best, BestOf(AllMatches(s, lastIndex, MonthAlternatives))) == BestOf(AllMatches(s, 0, MonthAlternatives))
      decreases |s| - lastIndex
    {
      BestOfCons(m.value, AllMatches(s, m.value.end, MonthAlternatives));
      var mon := MonthOf(m.value.name);
      var yr := m.value.year;
      if mon != 0 && yr != 0 {
        var val := yr * 100 + mon;
        if val > best {
          best := val;
        }
      }
      lastIndex := m.value.end;
      m := ExecFrom(s, lastIndex, MonthAlternatives);
    }
    if best == 0 {
      var yr := FirstStandaloneYear(s, 0);
      if yr.Some? {
        best := yr.value * 100 + 1;
      }
    }
  }

  // ------------------------------------------------------------ theme

  /** The theme at start-up: the stored value, or 'dark' when nothing (or "") is stored. */
  function InitialTheme(stored: Option<string>): (r: string)
    ensures stored.Some? && stored.value != "" ==> r == stored.value
    ensures stored.None? || stored.value == "" ==> r == "dark"
  {
    if stored.Some? && stored.value != "" then stored.value else "dark"
  }

  /** The toggle button: 'light' becomes 'dark', anything else becomes 'light'. */
  function ToggledTheme(theme: string): (r: string)
    ensures r == "light" || r == "dark"
    ensures r == "dark" <==> theme == "light"
  {
    if theme == "light" then "dark" else "light"
  }

  /** On the two themes the toggle is an involution. */
  lemma ToggleTwice(theme: string)
    requires theme == "light" || theme == "dark"
    ensures ToggledTheme(ToggledTheme(theme)) == theme
  {
  }

  class ThemeState {
    var theme: string

    constructor (stored: Option<string>)
      ensures theme == InitialTheme(stored)
    {
      theme := InitialTheme(stored);
    }

    method Toggle()
      modifies this
      ensures theme == ToggledTheme(old(theme))
      ensures old(theme) == "light" || old(theme) == "dark" ==> ToggledTheme(theme) == old(theme)
    {
      theme := ToggledTheme(theme);
    }
  }

  // ------------------------------------------------------------ small-screen menu

  /** `MobileMenu`: the dropdown is open or closed; while it is open the document-level click
      and keydown listeners are attached, and while it is closed none is. */
  class MobileMenu {
    var open: bool
    var listening: bool

    ghost predicate Valid()
      reads this
    {
      listening == open
    }

    constructor ()
      ensures Valid() && !open
    {
      open, listening := false, false;
    }

    /** The menu button toggles the dropdown; its click lands inside the menu, so the
        document listener leaves it alone. */
    method ButtonClick()
      requires Valid()
      modifies this
      ensures Valid()
      ensures open == !old(open)
    {
      open := !open;
      listening := open;
    }

    /** A click anywhere in the document: one outside the menu closes an open dropdown. */
    method DocumentClick(insideMenu: bool)
      requires Valid()
      modifies this
      ensures Valid()
      ensures open == (old(open) && insideMenu)
    {
      if listening && !insideMenu {
        open := false;
        listening := false;
      }
    }

    /** A key press in the document: Escape closes an open dropdown. */
    method DocumentKeyDown(key: string)
      requires Valid()
      modifies this
      ensures Valid()
      ensures open == (old(open) && key != "Escape")
    {
      if listening && key == "Escape" {
        open := false;
        listening := false;
      }
    }

    /** Choosing a section in the dropdown (only shown while open) closes it. */
    method ChooseItem()
      requires Valid() && open
      modifies this
      ensures Valid() && !open
    {
      open := false;
      listening := false;
    }
  }
}
