/** The profile data checker: a run of presence, shape and format checks over
    the parsed profile record, stopping at the first that fails. The parsed
    record is a JSON value; `undefined` and the TypeErrors JavaScript throws on
    `in` or on a property read of null are modelled explicitly. */
module ValidateData {
  import opened JsText
  import App

  /** A parsed JSON value; numbers are integers in this model. */
  datatype Json =
    | JNull
    | JBool(b: bool)
    | JNum(n: int)
    | JStr(s: string)
    | JArr(items: seq<Json>)
    | JObj(fields: map<string, Json>)

  /** What a check can fail with. `Crash` stands for a TypeError thrown by the script itself
      (`in` on a primitive, a property read on null, `forEach` on a non-array); every other
      case is one of the script's own messages. */
  datatype Failure =
    | MissingField(key: string)
    | EmailRequired
    | GithubRequired
    | LinkedinRequired
    | ExperienceArrayRequired
    | ExperienceFieldRequired(index: nat, key: string)
    | HighlightsEmpty(index: nat)
    | TechNotArray(index: nat)
    | ExperienceNotSorted
    | ProjectsArrayRequired
    | ProjectFieldRequired(index: nat, key: string)
    | AchievementDateFormat(index: nat)
    | EducationFieldRequired(index: nat, key: string)
    | EducationDateFormat(index: nat)
    | Crash

  datatype Outcome = Ok | Fail(failure: Failure)

  // ------------------------------------------------------------ JavaScript reads

  /** The result of reading a property: a JSON value, or `undefined`. */
  datatype Read = Undefined | Val(j: Json)

  /** `v[k]` for a non-null `v`. None of the keys the script reads is `length` or an index,
      so on arrays and strings, as on numbers and booleans, every read is `undefined`. */
  function Prop(v: Json, k: string): (r: Read)
    requires !v.JNull?
    ensures r.Val? <==> v.JObj? && k in v.fields
  {
    if v.JObj? && k in v.fields then Val(v.fields[k]) else Undefined
  }

  /** JavaScript truthiness. */
  predicate Truthy(r: Read) {
    match r
    case Undefined => false
    case Val(JNull) => false
    case Val(JBool(b)) => b
    case Val(JNum(n)) => n != 0
    case Val(JStr(s)) => s != ""
    case Val(_) => true
  }

  /** The falsy values of JavaScript, listed: `undefined`, `null`, `false`, `0` and `""`;
      everything else, including empty arrays and objects, is truthy. */
  lemma FalsyValues(r: Read)
    ensures !Truthy(r) <==> r in {Undefined, Val(JNull), Val(JBool(false)), Val(JNum(0)), Val(JStr(""))}
  {
  }

  /** `k in v`: None when `in` throws (on null or a primitive). Arrays hold none of the keys
      the script asks for. */
  function HasKey(v: Json, k: string): (r: Option<bool>)
    ensures r == Some(true) <==> v.JObj? && k in v.fields
    ensures r.None? <==> !v.JObj? && !v.JArr?
  {
    match v
    case JObj(f) => Some(k in f)
    case JArr(_) => Some(false)
    case _ => None
  }

  /** `/^[0-9]{4}-[0-9]{2}$/.test(v)`: the test turns its argument into a string first, so a
      one-element array is tested as its element; nothing else but a string can match. */
  predicate YearMonthTest(v: Json) {
    match v
    case JStr(s) => App.IsYearMonth(s)
    case JArr(xs) => |xs| == 1 && YearMonthTest(xs[0])
    case _ => false
  }

  /** What the test accepts, by kind of value: a string exactly when it reads `YYYY-MM`; no
      number, boolean, null or object (whose string forms are digits without a dash, `true`,
      `false`, `null` and `[object Object]`); an array only when it has exactly one element,
      which passes. */
  lemma YearMonthTestCases(v: Json)
    ensures v.JStr? ==> (YearMonthTest(v) <==> App.IsYearMonth(v.s))
    ensures v.JNum? || v.JBool? || v.JNull? || v.JObj? ==> !YearMonthTest(v)
    ensures v.JArr? ==> (YearMonthTest(v) <==> |v.items| == 1 && YearMonthTest(v.items[0]))
  {
  }

  /** The format check is purely syntactic: a thirteenth month passes. */
  lemma YearMonthIsSyntactic()
    ensures YearMonthTest(JStr("2023-13"))
    ensures !YearMonthTest(JStr("2023-5"))
  {
    assert App.IsYearMonth("2023-13") by {
      assert "2023-13"[..4] == "2023" && "2023-13"[5..] == "13";
    }
  }

  // ------------------------------------------------------------ key loops

  datatype KeyCheck = AllPresent | Missing(key: string) | Throws

  /** `for (const k of keys) assert(k in v, ...)`: the first key missing from `v`, or a throw
      when `in` cannot be applied to `v`. */
  function CheckKeys(v: Json, keys: seq<string>, i: nat): (r: KeyCheck)
    requires i < |keys|
    ensures r.AllPresent? <==> v.JObj? && forall j :: i <= j < |keys| ==> keys[j] in v.fields
    ensures r.Throws? <==> !v.JObj? && !v.JArr?
    ensures r.Missing? ==> exists j :: i <= j < |keys| && r.key == keys[j] &&
                             (v.JArr? || keys[j] !in v.fields) &&
                             forall l :: i <= l < j ==> v.JObj? && keys[l] in v.fields
    decreases |keys| - i
  {
    match HasKey(v, keys[i])
    case None => Throws
    case Some(false) => Missing(keys[i])
    case Some(true) =>
      if i + 1 == |keys| then AllPresent
      else
        var r := CheckKeys(v, keys, i + 1);
        if r.Missing? then
          var j :| i + 1 <= j < |keys| && r.key == keys[j] && (v.JArr? || keys[j] !in v.fields) &&
                   forall l :: i + 1 <= l < j ==> v.JObj? && keys[l] in v.fields;
          assert forall l :: i <= l < j ==> v.JObj? && keys[l] in v.fields;
          r
        else r
  }

  /** `k` is the first of `keys` that `k in v` finds missing: every key before it is a field
      of the object `v`. */
  predicate IsFirstMissing(v: Json, keys: seq<string>, k: string) {
    exists j :: 0 <= j < |keys| && keys[j] == k && (v.JArr? || (v.JObj? && k !in v.fields)) &&
                forall l :: 0 <= l < j ==> v.JObj? && keys[l] in v.fields
  }

  /** What the key loop reports when not every key is there: a throw for a value `in` cannot
      inspect, else the first missing key. */
  lemma CheckKeysMissing(v: Json, keys: seq<string>)
    requires keys != []
    ensures !v.JObj? && !v.JArr? ==> CheckKeys(v, keys, 0).Throws?
    ensures (v.JObj? || v.JArr?) && !HasAll(v, keys) ==>
              CheckKeys(v, keys, 0).Missing? && IsFirstMissing(v, keys, CheckKeys(v, keys, 0).key)
  {
    CheckKeysAll(v, keys);
  }

  predicate HasAll(v: Json, keys: seq<string>) {
    v.JObj? && forall k :: k in keys ==> k in v.fields
  }

  lemma CheckKeysAll(v: Json, keys: seq<string>)
    requires keys != []
    ensures CheckKeys(v, keys, 0).AllPresent? <==> HasAll(v, keys)
  {
    if v.JObj? && (forall j :: 0 <= j < |keys| ==> keys[j] in v.fields) {
      forall k | k in keys ensures k in v.fields {
        var j :| 0 <= j < |keys| && keys[j] == k;
      }
    }
  }

  const TopKeys: seq<string> :=
    ["name", "headline", "location", "links", "skills", "experience", "projects", "achievements", "education"]
  const ExperienceKeys: seq<string> := ["company", "role", "location", "start", "end", "highlights", "tech"]
  const ProjectKeys: seq<string> := ["name", "summary", "tech", "highlights", "links"]
  const EducationKeys: seq<string> := ["school", "degree", "start", "end", "details"]

  // ------------------------------------------------------------ links

  predicate LinksValid(links: Json) {
    !links.JNull? && Prop(links, "email").Val? && Prop(links, "email").j.JStr? &&
    Truthy(Prop(links, "github")) && Truthy(Prop(links, "linkedin"))
  }

  /** `links.email` must be a string, `links.github` and `links.linkedin` truthy. */
  function CheckLinks(links: Json): (r: Option<Failure>)
    ensures r.None? <==> LinksValid(links)
  {
    if links.JNull? then Some(Crash)
    else
      var email := Prop(links, "email");
      if !(email.Val? && email.j.JStr?) then Some(EmailRequired)
      else if !Truthy(Prop(links, "github")) then Some(GithubRequired)
      else if !Truthy(Prop(links, "linkedin")) then Some(LinkedinRequired)
      else None
  }

  /** `xs.forEach(check)` from index `i` on, with a callback that throws on a failure: the
      failure of the first entry that fails, or None when every entry passes. */
  function ForEachFrom(xs: seq<Json>, i: nat, check: (Json, nat) -> Option<Failure>): (r: Option<Failure>)
    requires i <= |xs|
    ensures r.None? <==> forall j :: i <= j < |xs| ==> check(xs[j], j).None?
    ensures r.Some? ==> exists j :: i <= j < |xs| && r == check(xs[j], j) &&
                          forall l :: i <= l < j ==> check(xs[l], l).None?
    decreases |xs| - i
  {
    if i == |xs| then None
    else
      var here := check(xs[i], i);
      if here.Some? then here else ForEachFrom(xs, i + 1, check)
  }

  // ------------------------------------------------------------ experience

  predicate ExperienceEntryValid(e: Json) {
    HasAll(e, ExperienceKeys) &&
    e.fields["highlights"].JArr? && |e.fields["highlights"].items| > 0 &&
    e.fields["tech"].JArr?
  }

  /** One experience entry, checks in source order: the seven keys (first missing reported),
      then a non-empty `highlights` array, then a `tech` array. */
  function CheckExperienceEntry(e: Json, i: nat): (r: Option<Failure>)
    ensures r.None? <==> ExperienceEntryValid(e)
    ensures !e.JObj? && !e.JArr? ==> r == Some(Crash)
    ensures (e.JObj? || e.JArr?) && !HasAll(e, ExperienceKeys) ==>
              r.Some? && r.value.ExperienceFieldRequired? && r.value.index == i &&
              IsFirstMissing(e, ExperienceKeys, r.value.key)
    ensures HasAll(e, ExperienceKeys) && !(e.fields["highlights"].JArr? && |e.fields["highlights"].items| > 0) ==>
              r == Some(HighlightsEmpty(i))
    ensures (HasAll(e, ExperienceKeys) && e.fields["highlights"].JArr? && |e.fields["highlights"].items| > 0 &&
             !e.fields["tech"].JArr?) ==> r == Some(TechNotArray(i))
  {
    CheckKeysMissing(e, ExperienceKeys);
    CheckKeysAll(e, ExperienceKeys);
    match CheckKeys(e, ExperienceKeys, 0)
    case Throws => Some(Crash)
    case Missing(k) => Some(ExperienceFieldRequired(i, k))
    case AllPresent =>
      var h := e.fields["highlights"];
      if !(h.JArr? && |h.items| > 0) then Some(HighlightsEmpty(i))
      else if !e.fields["tech"].JArr? then Some(TechNotArray(i))
      else None
  }

  /** The `forEach` over the experience entries from index `i` on. */
  function CheckExperienceEntries(xs: seq<Json>, i: nat): (r: Option<Failure>)
    requires i <= |xs|
    ensures r.None? <==> forall j :: i <= j < |xs| ==> ExperienceEntryValid(xs[j])
    ensures r.Some? ==> exists j :: i <= j < |xs| && r == CheckExperienceEntry(xs[j], j) &&
                          forall l :: i <= l < j ==> ExperienceEntryValid(xs[l])
  {
    ForEachFrom(xs, i, CheckExperienceEntry)
  }

  /** An entry seen as the page's experience record (non-string fields read as ""). */
  function ToExperienceItem(e: Json): App.ExperienceItem {
    App.ExperienceItem(Text(e, "company"), Text(e, "role"), Text(e, "location"),
                       Text(e, "start"), Text(e, "end"), Texts(e, "highlights"), Texts(e, "tech"))
  }

  function Text(e: Json, k: string): string {
    if e.JObj? && k in e.fields && e.fields[k].JStr? then e.fields[k].s else ""
  }

  function Texts(e: Json, k: string): seq<string> {
    if e.JObj? && k in e.fields && e.fields[k].JArr? then
      var xs := e.fields[k].items;
      seq(|xs|, t requires 0 <= t < |xs| => if xs[t].JStr? then xs[t].s else "")
    else []
  }

  /** The checker's `toNum(e.start)`: the same key the page sorts by. */
  function StartKeyOf(e: Json): int {
    App.StartKey(ToExperienceItem(e))
  }

  /** The starts the model covers: every entry that has a `start` holds a date whose key is a
      number ("Present" or digits around one dash). */
  predicate StartsReadable(data: Json) {
    data.JObj? && "experience" in data.fields && data.fields["experience"].JArr? ==>
      forall e :: e in data.fields["experience"].items && e.JObj? && "start" in e.fields ==>
        e.fields["start"].JStr? && App.IsExperienceDate(e.fields["start"].s)
  }

  /** The entries are newest first by start. */
  predicate StartsNonIncreasing(xs: seq<Json>) {
    forall i, j :: 0 <= i < j < |xs| ==> StartKeyOf(xs[i]) >= StartKeyOf(xs[j])
  }

  predicate ExperienceValid(v: Json) {
    v.JArr? && |v.items| > 0 &&
    (forall j :: 0 <= j < |v.items| ==> ExperienceEntryValid(v.items[j])) &&
    StartsNonIncreasing(v.items)
  }

  /** Non-empty array, every entry well-formed, then the ordering: the entries, stably sorted
      newest first, must be the same entries in the same places. A stable sort moves no
      entry of an already ordered array, so comparing values says what comparing references
      says. */
  function CheckExperience(v: Json): (r: Option<Failure>)
    ensures r.None? <==> ExperienceValid(v)
    ensures !(v.JArr? && |v.items| > 0) ==> r == Some(ExperienceArrayRequired)
    ensures v.JArr? && |v.items| > 0 && !(forall j :: 0 <= j < |v.items| ==> ExperienceEntryValid(v.items[j])) ==>
              exists j :: 0 <= j < |v.items| && r == CheckExperienceEntry(v.items[j], j) && r.Some? &&
                          forall l :: 0 <= l < j ==> ExperienceEntryValid(v.items[l])
    ensures (v.JArr? && |v.items| > 0 && (forall j :: 0 <= j < |v.items| ==> ExperienceEntryValid(v.items[j])) &&
             !StartsNonIncreasing(v.items)) ==> r == Some(ExperienceNotSorted)
  {
    if !(v.JArr? && |v.items| > 0) then Some(ExperienceArrayRequired)
    else
      var entries := CheckExperienceEntries(v.items, 0);
      if entries.Some? then entries
      else
        SortLeavesOrdered(v.items);
        if App.SortNewestFirst(v.items, StartKeyOf) != v.items then Some(ExperienceNotSorted)
        else None
  }

  /** The sorted copy equals the list exactly when the starts are already newest first. */
  lemma SortLeavesOrdered(xs: seq<Json>)
    ensures App.SortNewestFirst(xs, StartKeyOf) == xs <==> StartsNonIncreasing(xs)
  {
    App.SortUnchangedIff(xs, StartKeyOf);
  }

  // ------------------------------------------------------------ projects

  predicate ProjectsValid(v: Json) {
    v.JArr? && |v.items| > 0 && forall j :: 0 <= j < |v.items| ==> HasAll(v.items[j], ProjectKeys)
  }

  /** One project: its five keys, the first missing one reported. */
  function CheckProjectEntry(p: Json, i: nat): (r: Option<Failure>)
    ensures r.None? <==> HasAll(p, ProjectKeys)
    ensures !p.JObj? && !p.JArr? ==> r == Some(Crash)
    ensures (p.JObj? || p.JArr?) && !HasAll(p, ProjectKeys) ==>
              r.Some? && r.value.ProjectFieldRequired? && r.value.index == i &&
              IsFirstMissing(p, ProjectKeys, r.value.key)
  {
    CheckKeysAll(p, ProjectKeys);
    CheckKeysMissing(p, ProjectKeys);
    match CheckKeys(p, ProjectKeys, 0)
    case Throws => Some(Crash)
    case Missing(k) => Some(ProjectFieldRequired(i, k))
    case AllPresent => None
  }

  function CheckProjectEntries(xs: seq<Json>, i: nat): (r: Option<Failure>)
    requires i <= |xs|
    ensures r.None? <==> forall j :: i <= j < |xs| ==> HasAll(xs[j], ProjectKeys)
    ensures r.Some? ==> exists j :: i <= j < |xs| && r == CheckProjectEntry(xs[j], j) &&
                          forall l :: i <= l < j ==> HasAll(xs[l], ProjectKeys)
  {
    ForEachFrom(xs, i, CheckProjectEntry)
  }

  function CheckProjects(v: Json): (r: Option<Failure>)
    ensures r.None? <==> ProjectsValid(v)
    ensures !(v.JArr? && |v.items| > 0) ==> r == Some(ProjectsArrayRequired)
    ensures v.JArr? && |v.items| > 0 && r.Some? ==>
              exists j :: 0 <= j < |v.items| && r == CheckProjectEntry(v.items[j], j) &&
                          forall l :: 0 <= l < j ==> HasAll(v.items[l], ProjectKeys)
  {
    if !(v.JArr? && |v.items| > 0) then Some(ProjectsArrayRequired)
    else CheckProjectEntries(v.items, 0)
  }

  // ------------------------------------------------------------ achievements

  /** An achievement passes when it is not null and its date is absent, null, "" or in
      `YYYY-MM` form. */
  predicate AchievementValid(a: Json) {
    !a.JNull? &&
    match Prop(a, "date")
    case Undefined => true
    case Val(d) => d == JNull || d == JStr("") || YearMonthTest(d)
  }

  predicate AchievementsValid(v: Json) {
    v.JArr? && forall j :: 0 <= j < |v.items| ==> AchievementValid(v.items[j])
  }

  /** One achievement: reading `date` off null throws; a date that is present, not null, not
      empty and not `YYYY-MM` is reported. */
  function CheckAchievement(a: Json, i: nat): (r: Option<Failure>)
    ensures r.None? <==> AchievementValid(a)
    ensures a.JNull? ==> r == Some(Crash)
    ensures !a.JNull? ==> r.None? || r == Some(AchievementDateFormat(i))
  {
    if a.JNull? then Some(Crash)
    else
      var d := Prop(a, "date");
      if d.Val? && d.j != JNull && d.j != JStr("") && !YearMonthTest(d.j) then Some(AchievementDateFormat(i))
      else None
  }

  function CheckAchievementEntries(xs: seq<Json>, i: nat): (r: Option<Failure>)
    requires i <= |xs|
    ensures r.None? <==> forall j :: i <= j < |xs| ==> AchievementValid(xs[j])
    ensures r.Some? ==> exists j :: i <= j < |xs| && r == CheckAchievement(xs[j], j) &&
                          forall l :: i <= l < j ==> AchievementValid(xs[l])
  {
    ForEachFrom(xs, i, CheckAchievement)
  }

  /** `achievements.forEach(...)`: a non-array has no `forEach` and the script throws. */
  function CheckAchievements(v: Json): (r: Option<Failure>)
    ensures r.None? <==> AchievementsValid(v)
    ensures !v.JArr? ==> r == Some(Crash)
    ensures v.JArr? && r.Some? ==>
              exists j :: 0 <= j < |v.items| && r == CheckAchievement(v.items[j], j) &&
                          forall l :: 0 <= l < j ==> AchievementValid(v.items[l])
  {
    if !v.JArr? then Some(Crash) else CheckAchievementEntries(v.items, 0)
  }

  // ------------------------------------------------------------ education

  predicate EducationEntryValid(e: Json) {
    HasAll(e, EducationKeys) && YearMonthTest(e.fields["start"]) && YearMonthTest(e.fields["end"])
  }

  predicate EducationValid(v: Json) {
    v.JArr? && forall j :: 0 <= j < |v.items| ==> EducationEntryValid(v.items[j])
  }

  /** One education entry: the five keys (first missing reported), then both dates in
      `YYYY-MM` form. */
  function CheckEducationEntry(e: Json, i: nat): (r: Option<Failure>)
    ensures r.None? <==> EducationEntryValid(e)
    ensures !e.JObj? && !e.JArr? ==> r == Some(Crash)
    ensures (e.JObj? || e.JArr?) && !HasAll(e, EducationKeys) ==>
              r.Some? && r.value.EducationFieldRequired? && r.value.index == i &&
              IsFirstMissing(e, EducationKeys, r.value.key)
    ensures HasAll(e, EducationKeys) && !(YearMonthTest(e.fields["start"]) && YearMonthTest(e.fields["end"])) ==>
              r == Some(EducationDateFormat(i))
  {
    CheckKeysAll(e, EducationKeys);
    CheckKeysMissing(e, EducationKeys);
    match CheckKeys(e, EducationKeys, 0)
    case Throws => Some(Crash)
    case Missing(k) => Some(EducationFieldRequired(i, k))
    case AllPresent =>
      if !(YearMonthTest(e.fields["start"]) && YearMonthTest(e.fields["end"])) then Some(EducationDateFormat(i))
      else None
  }

  function CheckEducationEntries(xs: seq<Json>, i: nat): (r: Option<Failure>)
    requires i <= |xs|
    ensures r.None? <==> forall j :: i <= j < |xs| ==> EducationEntryValid(xs[j])
    ensures r.Some? ==> exists j :: i <= j < |xs| && r == CheckEducationEntry(xs[j], j) &&
                          forall l :: i <= l < j ==> EducationEntryValid(xs[l])
  {
    ForEachFrom(xs, i, CheckEducationEntry)
  }

  function CheckEducation(v: Json): (r: Option<Failure>)
    ensures r.None? <==> EducationValid(v)
    ensures !v.JArr? ==> r == Some(Crash)
    ensures v.JArr? && r.Some? ==>
              exists j :: 0 <= j < |v.items| && r == CheckEducationEntry(v.items[j], j) &&
                          forall l :: 0 <= l < j ==> EducationEntryValid(v.items[l])
  {
    if !v.JArr? then Some(Crash) else CheckEducationEntries(v.items, 0)
  }

  // ------------------------------------------------------------ the whole run

  /** A profile every check accepts, stated check by check. */
  predicate IsValidProfile(data: Json) {
    HasAll(data, TopKeys) &&
    LinksValid(data.fields["links"]) &&
    ExperienceValid(data.fields["experience"]) &&
    ProjectsValid(data.fields["projects"]) &&
    AchievementsValid(data.fields["achievements"]) &&
    EducationValid(data.fields["education"])
  }

  /** The script: the checks in source order; the first that fails aborts the run with its
      failure, and Ok ("OK: ... valid") is reached only past all of them. */
  function Validate(data: Json): (r: Outcome)
    requires StartsReadable(data)
    ensures r.Ok? ==> HasAll(data, TopKeys)
    ensures r.Ok? <==> IsValidProfile(data)
  {
    CheckKeysAll(data, TopKeys);
    match CheckKeys(data, TopKeys, 0)
    case Throws => Fail(Crash)
    case Missing(k) => Fail(MissingField(k))
    case AllPresent =>
      var f := data.fields;
      match CheckLinks(f["links"])
      case Some(e) => Fail(e)
      case None =>
        match CheckExperience(f["experience"])
        case Some(e) => Fail(e)
        case None =>
          match CheckProjects(f["projects"])
          case Some(e) => Fail(e)
          case None =>
            match CheckAchievements(f["achievements"])
            case Some(e) => Fail(e)
            case None =>
              match CheckEducation(f["education"])
              case Some(e) => Fail(e)
              case None => Ok
  }

  /** The checks run in source order and the first one that fails decides: a data value that
      `in` cannot inspect throws; then the first missing top-level key; then the links, the
      experience list, the projects, the achievements and the education list, each reported
      only when every check before it passed. */
  lemma ValidateFailureOrder(data: Json)
    requires StartsReadable(data)
    ensures !data.JObj? && !data.JArr? ==> Validate(data) == Fail(Crash)
    ensures (data.JObj? || data.JArr?) && !HasAll(data, TopKeys) ==>
              Validate(data).Fail? && Validate(data).failure.MissingField? &&
              IsFirstMissing(data, TopKeys, Validate(data).failure.key)
    ensures HasAll(data, TopKeys) && !LinksValid(data.fields["links"]) ==>
              Validate(data) == Fail(CheckLinks(data.fields["links"]).value)
    ensures HasAll(data, TopKeys) && LinksValid(data.fields["links"]) &&
            !ExperienceValid(data.fields["experience"]) ==>
              Validate(data) == Fail(CheckExperience(data.fields["experience"]).value)
    ensures HasAll(data, TopKeys) && LinksValid(data.fields["links"]) &&
            ExperienceValid(data.fields["experience"]) && !ProjectsValid(data.fields["projects"]) ==>
              Validate(data) == Fail(CheckProjects(data.fields["projects"]).value)
    ensures HasAll(data, TopKeys) && LinksValid(data.fields["links"]) &&
            ExperienceValid(data.fields["experience"]) && ProjectsValid(data.fields["projects"]) &&
            !AchievementsValid(data.fields["achievements"]) ==>
              Validate(data) == Fail(CheckAchievements(data.fields["achievements"]).value)
    ensures HasAll(data, TopKeys) && LinksValid(data.fields["links"]) &&
            ExperienceValid(data.fields["experience"]) && ProjectsValid(data.fields["projects"]) &&
            AchievementsValid(data.fields["achievements"]) && !EducationValid(data.fields["education"]) ==>
              Validate(data) == Fail(CheckEducation(data.fields["education"]).value)
  {
    CheckKeysAll(data, TopKeys);
    CheckKeysMissing(data, TopKeys);
  }

  /** A missing top-level key is reported, naming the first one missing in the script's order. */
  lemma MissingTopKeyReported(data: Json, i: nat)
    requires StartsReadable(data)
    requires data.JObj? && i < |TopKeys| && TopKeys[i] !in data.fields
    requires forall j :: 0 <= j < i ==> TopKeys[j] in data.fields
    ensures Validate(data) == Fail(MissingField(TopKeys[i]))
  {
    var r := CheckKeys(data, TopKeys, 0);
    assert r.Missing?;
    var j :| 0 <= j < |TopKeys| && r.key == TopKeys[j] && TopKeys[j] !in data.fields &&
             forall l :: 0 <= l < j ==> TopKeys[l] in data.fields;
    assert j == i;
  }

  /** The experience entries of a profile the run accepts, as the page's records. */
  function ExperienceItems(data: Json): seq<App.ExperienceItem>
    requires IsValidProfile(data)
  {
    var xs := data.fields["experience"].items;
    seq(|xs|, t requires 0 <= t < |xs| => ToExperienceItem(xs[t]))
  }

  /** A profile the run accepts is shown in file order: the page's newest-first sort leaves
      its experience list as it is. */
  lemma ValidProfileShownInFileOrder(data: Json)
    requires StartsReadable(data) && Validate(data) == Ok
    ensures IsValidProfile(data)
    ensures App.SortNewestFirst(ExperienceItems(data), App.StartKey) == ExperienceItems(data)
  {
    AcceptedExperienceOrdered(data);
  }

  lemma AcceptedExperienceOrdered(data: Json)
    requires IsValidProfile(data)
    ensures App.SortNewestFirst(ExperienceItems(data), App.StartKey) == ExperienceItems(data)
  {
    var xs := data.fields["experience"].items;
    var items := ExperienceItems(data);
    assert App.NonIncreasing(items, App.StartKey) by {
      forall i, j | 0 <= i < j < |items| ensures App.StartKey(items[i]) >= App.StartKey(items[j]) {
        assert StartKeyOf(xs[i]) >= StartKeyOf(xs[j]);
      }
    }
    App.SortUnchangedIff(items, App.StartKey);
  }

  /** On an accepted profile every experience start has a numeric key, as the page needs. */
  lemma ValidProfileStartsHaveKeys(data: Json)
    requires StartsReadable(data) && Validate(data) == Ok
    ensures forall e :: e in ExperienceItems(data) ==> App.IsExperienceDate(e.start)
  {
    AcceptedStartsReadable(data);
    var items := ExperienceItems(data);
    forall e | e in items ensures App.IsExperienceDate(e.start) {
      var t :| 0 <= t < |items| && e == items[t];
    }
  }

  lemma AcceptedStartsReadable(data: Json)
    requires StartsReadable(data) && IsValidProfile(data)
    ensures forall t :: 0 <= t < |ExperienceItems(data)| ==> App.IsExperienceDate(ExperienceItems(data)[t].start)
  {
    var xs := data.fields["experience"].items;
    forall t | 0 <= t < |xs| ensures App.IsExperienceDate(ExperienceItems(data)[t].start) {
      assert ExperienceEntryValid(xs[t]);
      assert xs[t] in xs;
    }
  }
}
