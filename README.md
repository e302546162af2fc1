# Portfolio page core, modelled in Dafny

This project models the logic at the centre of a one-page portfolio site and its
data checker:

- **The flip cards** (`FlipCard`). Every experience and project card flips on hover
  on desktop. It also flips on click, Enter or Space, which lock it. On a phone, a
  card auto-flips when it becomes fully visible while the page scrolls down, and it
  tells the other cards to flip back. `FlipCard.Coordinator` holds the page-wide
  state: the id counter, the single scroll tracker and the live cards. It has one
  method per browser event. Each card's handlers are pure functions on its flags.
  The main property: after an auto-flip announcement, the announcer is the only
  card still auto-flipped, apart from locked cards.
- **The page shell** (`App`):
  - the experience sort key (`YYYY-MM` read as a number, "Present" as 999999);
  - the stable newest-first sort;
  - the project date key: the latest month-year found by a global regular-expression
    scan, with a fallback to a standalone `20xx` year. It is modelled as a function
    and also as the source's `while` loop, proved equal;
  - the theme toggle;
  - the small-screen menu, as a class.
- **The experience card helpers** (`Experience`):
  - the date-label guards;
  - the near-duplicate highlight filter: tokenise, stem, set-overlap similarity,
    then keep the first of each group of similar items;
  - the per-company stat badges;
  - the company logo choice.
- **Shared text helpers** (`Markup`): HTML and regular-expression escaping, each
  with a decoding partner and a round-trip proof. Also summary paragraph splitting
  at blank lines, and first-matching-rule keyword tables.
- **The project cover image choice** (`Projects`).
- **The profile data checker** (`ValidateData`). It runs the presence, shape, format
  and ordering checks over the parsed profile in source order; the first failure ends
  the run. The run succeeds exactly for the profiles every check accepts. A profile
  it accepts is shown by the page in file order.

`JsText` holds the JavaScript built-ins the code relies on, each written to follow
its JavaScript semantics: ASCII `toLowerCase`, `includes`, `Number` on digit strings,
`split` by one character, `replace` of the first occurrence, `join`, `trim`.

## Model

| member | source | states |
|---|---|---|
| JsText.Lower | src/components/Experience.tsx:128 | same length; each character lowercased, only A-Z changed |
| JsText.JsNumber | src/components/Experience.tsx:11 | a number exactly for a string of decimal digits |
| JsText.IncludesIff | src/components/Projects.tsx:89 | `includes` is true exactly when the text occurs at some position |
| JsText.IndexOf | src/App.tsx:69 | the first position of the character, or -1 exactly when it is absent |
| JsText.Split | src/components/Experience.tsx:11 | at least one piece; no piece holds the separator; a string without it is one piece |
| JsText.JoinSplit | src/components/Experience.tsx:11 | joining the pieces with the separator gives the string back |
| JsText.SplitJoin | src/components/Experience.tsx:11 | splitting a join of separator-free pieces gives the pieces back |
| JsText.Join | src/components/Experience.tsx:167 | an empty list joins to "", one piece to itself, and two or more start with the first piece and the separator |
| JsText.RemoveFirst | src/App.tsx:69 | a string without the character is unchanged, otherwise exactly one character shorter |
| JsText.IndexOfAfter | src/App.tsx:69 | the first dash found is the one after a dash-free prefix, and removing it joins the two sides |
| JsText.Trim | src/components/Experience.tsx:163 | a slice of the input with only whitespace cut off before and after it; no whitespace left at either end; a string without edge whitespace is unchanged |
| Markup.EscapeHtml | src/components/Experience.tsx:184-186 | no `<` or `>` remains; text without `&<>` is unchanged |
| Markup.EscapeHtmlChar | src/components/Experience.tsx:185 | one character becomes `&amp;`, `&lt;` or `&gt;` for `&`, `<`, `>`, and stays itself otherwise |
| Markup.EscapeHtmlAppend | src/components/Experience.tsx:185 | escaping a concatenation escapes each part, so with EscapeHtmlChar every character is replaced in place and nothing else changes |
| Markup.EscapeHtmlRoundTrip | src/components/Experience.tsx:184-186 | decoding the three entities gives the original text back |
| Markup.EscapeReg | src/components/Experience.tsx:188-190 | one backslash added per metacharacter; text without metacharacters is unchanged |
| Markup.EscapeRegChar | src/components/Experience.tsx:189 | a metacharacter gets one backslash in front; any other character stays itself |
| Markup.EscapeRegAppend | src/components/Experience.tsx:189 | escaping a concatenation escapes each part, so with EscapeRegChar a backslash goes before each metacharacter and nothing else changes |
| Markup.EscapeRegRoundTrip | src/components/Experience.tsx:188-190 | dropping the added backslashes gives the original text back |
| Markup.BlankLineEnd | src/components/Experience.tsx:161 | a separator match exists at a position exactly when a line feed, whitespace and another line feed start there; the match ends at a line feed after only whitespace and is the longest such (greedy `\s*`) |
| Markup.SplitBlankLinesFrom | src/components/Experience.tsx:161 | at least one piece; no piece contains a blank-line separator; text without one is a single piece |
| Markup.SplitBlankLinesCuts | src/components/Experience.tsx:161 | the pieces are exactly the slices between successive separator matches, each found as the first match after the previous one ended |
| Markup.Paragraphs | src/components/Experience.tsx:161 | at least one paragraph, none containing a blank line |
| Markup.ParagraphsCut | src/components/Experience.tsx:161 | the paragraphs are the slices of the text between its successive blank-line separators, in order |
| Markup.SummaryItems | src/components/Experience.tsx:160-170 | one element per paragraph, trimmed and in order, then the tech line joined with " · " |
| Markup.SummaryWithoutBlankLine | src/components/Experience.tsx:160-170 | a summary with no blank line renders as its trimmed text and the tech line |
| Markup.FirstMatch | src/components/Projects.tsx:89-104 | none exactly when no rule fires; otherwise the result of a firing rule with no earlier rule firing |
| FlipCard.NextDirection | src/components/FlippableCard.tsx:62 | down exactly when the scroll offset grew |
| FlipCard.EffectiveDirection | src/components/FlippableCard.tsx:93 | a recorded direction is used as is; an unset one counts as down |
| FlipCard.Rerender | src/components/FlippableCard.tsx:125-133 | the mode effect runs only when `isMobile`, `locked` or `hovering` changed; otherwise the card is left as it is; only `flipped` ever changes |
| FlipCard.ModeEffect | src/components/FlippableCard.tsx:125-133 | the card ends consistent (locked implies flipped; desktop shows locked or hovering); on mobile the flip only turns on when locked; only `flipped` changes |
| FlipCard.Hover | src/components/FlippableCard.tsx:164-165 | hover flag set; on desktop the card shows locked or entering; on mobile the flip is untouched; consistency kept |
| FlipCard.ToggleLock | src/components/FlippableCard.tsx:135-145 | lock inverted and a locked card flipped; on mobile the flip follows the lock and unlocking clears the auto-flip mark; on desktop it shows locked or hovering |
| FlipCard.KeyDown | src/components/FlippableCard.tsx:146-151 | Enter and Space act as a click and always change the lock; other keys change nothing |
| FlipCard.Observe | src/components/FlippableCard.tsx:88-101 | `inView` records the sample; an auto-flip sets flipped and the mark; in every other case both stay; consistency kept |
| FlipCard.Receive | src/components/FlippableCard.tsx:111-118 | an announcement naming another card evicts exactly an auto-flipped unlocked card; otherwise nothing changes; afterwards no such card is scroll-owned |
| FlipCard.ResizeCard | src/components/FlippableCard.tsx:72-77 | the card takes the new mode and stays consistent; an unchanged mode changes nothing |
| FlipCard.Deliver | src/components/FlippableCard.tsx:99 | every live card receives the announcement, each independently |
| FlipCard.AnnouncementLeavesOnlySender | src/components/FlippableCard.tsx:95-99 | with increasing ids, after card k announces, k is untouched and no other card is still auto-flipped and unlocked; locks are unchanged |
| FlipCard.Coordinator.constructor | src/components/FlippableCard.tsx:37-49 | a page load: no cards, counter 0, no scroll listener, the window's pointer and width |
| FlipCard.Coordinator.Mount | src/components/FlippableCard.tsx:35-77 | the new card gets counter plus one, above every existing id; the first card installs the tracker (down, current offset); later ones leave it; the card starts all-false in the window's mode |
| FlipCard.Coordinator.Unmount | src/components/FlippableCard.tsx:119-122 | the card leaves the list; the page-wide values stay |
| FlipCard.Coordinator.Scroll | src/components/FlippableCard.tsx:58-64 | once installed, the tracker records the direction against the last offset and the new offset |
| FlipCard.Coordinator.Resize | src/components/FlippableCard.tsx:72-77 | every card re-reads its mode from the new pointer and width |
| FlipCard.Coordinator.MouseEnter | src/components/FlippableCard.tsx:164 | only that card changes, by `Hover`; a desktop card ends flipped |
| FlipCard.Coordinator.MouseLeave | src/components/FlippableCard.tsx:165 | only that card changes, by `Hover`; a desktop card ends showing its lock |
| FlipCard.Coordinator.Click | src/components/FlippableCard.tsx:135-145 | only that card changes, by `ToggleLock` |
| FlipCard.Coordinator.Key | src/components/FlippableCard.tsx:146-151 | only that card changes, by `KeyDown` |
| FlipCard.Coordinator.Announce | src/components/FlippableCard.tsx:99 | the cards become the announcement's delivery to every card in mount order |
| FlipCard.Coordinator.Visibility | src/components/FlippableCard.tsx:87-104 | visible means intersecting with ratio at least 1; an auto-flip flips the card, announces its id and leaves no other unlocked card auto-flipped; otherwise only that card's sample is recorded |
| App.ExperienceKey | src/App.tsx:69 | "Present" has the key 999999; every key is non-negative |
| App.ExperienceKeyOfYearMonth | src/App.tsx:69 | a `YYYY-MM` date has the key `YYYY * 100 + MM`, never above "Present" |
| App.ExperienceKeyOfDashedDigits | src/App.tsx:69 | a date of digits around its first dash is keyed by the number those digits spell once that dash is removed ("2023-5" gives 20235) |
| App.ExperienceKeyOfDigits | src/App.tsx:69 | a date of digits only is keyed by the number they spell ("2023" gives 2023) |
| App.Insert | src/App.tsx:70 | the inserted element is added and nothing is lost |
| App.SortNewestFirst | src/App.tsx:70 | the result is a permutation of the input |
| App.SortIsOrdered | src/App.tsx:70 | the result is newest first: keys never grow |
| App.SortIsStable | src/App.tsx:70 | elements with equal keys keep their input order |
| App.SortUnchangedIff | src/App.tsx:70 | the sort changes nothing exactly when the input is already newest first |
| App.SortedExperience | src/App.tsx:67-71 | a permutation of the experience list with start keys non-increasing |
| App.SortedProjects | src/App.tsx:107 | a permutation of the projects with date keys non-increasing |
| App.MatchNameAt | src/App.tsx:89 | a match of one month alternative starts at the position, covers the name, whitespace and four digits within the text; the year is the value of those four digits |
| App.MatchNameAtIff | src/App.tsx:89 | the alternative matches exactly when the text there reads the name in any case and whitespace and four digits follow |
| App.MatchAt | src/App.tsx:89 | a match at a position starts there, ends within the text and names one of the alternatives |
| App.FirstSomeFirst | src/App.tsx:89 | alternation gives nothing exactly when no alternative gives a result, and otherwise the result of the first one that does |
| App.MatchAtFirst | src/App.tsx:89 | no match exactly when no alternative matches; otherwise the match of the first alternative that matches, in pattern order |
| App.ExecFrom | src/App.tsx:92 | a match found from `lastIndex` starts at or after it, ends within the text and names one of the pattern's alternatives |
| App.ExecFromLeftmost | src/App.tsx:92 | nothing found exactly when the pattern matches at no position from `lastIndex` on; otherwise the match at the leftmost such position |
| App.AllMatchesChain | src/App.tsx:92 | each match is what the search finds where the previous match ended, and the loop ends at the first search that finds nothing |
| App.MonthOf | src/App.tsx:93 | a month 1-12 for a name in the month table, 0 (`undefined`) exactly otherwise |
| App.BestOf | src/App.tsx:92-99 | the best value bounds every match's score, is 0 exactly when no match counts, and is some counting match's score otherwise |
| App.FirstStandaloneYear | src/App.tsx:102 | a year in 2000-2099, absent exactly when no standalone `20xx` occurs; otherwise the value of the leftmost one |
| App.ProjectKey | src/App.tsx:87-106 | a missing or empty date has key 0; keys are non-negative |
| App.KeyChoiceRange | src/App.tsx:100-104 | choosing between the best score and the fallback `year * 100 + 1` gives 0 or a `YYYYMM` value |
| App.ProjectKeyRange | src/App.tsx:87-106 | every key is 0 or a `YYYYMM` value with month 1-12 |
| App.BestScoreRange | src/App.tsx:96 | a non-zero best value is a `YYYYMM` value |
| App.ProjectKeyIsLatestMatch | src/App.tsx:92-99 | no match scores above the key, and when one counts the key is one of their scores |
| App.ProjectKeyFallback | src/App.tsx:101-104 | without a counting match, the key is the first standalone year times 100 plus 1, else 0 |
| App.ScanProjectDate | src/App.tsx:87-106 | the source's `exec` loop with the fallback computes exactly the key |
| App.InitialTheme | src/App.tsx:56 | the stored theme if non-empty, else "dark" |
| App.ToggledTheme | src/App.tsx:172 | always light or dark; dark exactly when the old theme was light |
| App.ToggleTwice | src/App.tsx:172 | on light and dark, toggling twice gives the theme back |
| App.ThemeState.constructor | src/App.tsx:56 | the theme starts as the initial theme |
| App.ThemeState.Toggle | src/App.tsx:172 | the theme is toggled, and toggling back restores a light or dark theme |
| App.MobileMenu.constructor | src/App.tsx:239 | the menu starts closed with no document listeners |
| App.MobileMenu.ButtonClick | src/App.tsx:266 | the dropdown opens or closes; the listeners are attached exactly while it is open |
| App.MobileMenu.DocumentClick | src/App.tsx:244-247 | a click outside closes an open menu; a click inside keeps it |
| App.MobileMenu.DocumentKeyDown | src/App.tsx:248-250 | Escape closes an open menu; other keys keep it |
| App.MobileMenu.ChooseItem | src/App.tsx:272-277 | choosing a section closes the menu |
| Experience.FormatDate | src/components/Experience.tsx:9-12 | "Present" exactly for "Present"; a fallback shows the input; a month-year label exactly when the first two dash-separated parts are both non-zero numbers, and then its year and month are those numbers |
| Experience.FormatDateOfYearMonth | src/components/Experience.tsx:11-13 | a `YYYY-MM` date becomes its month and year, or is shown as written when either is 0 |
| Experience.Sanitize | src/components/Experience.tsx:129 | same length; `[a-z0-9+%.]` and whitespace are kept, every other character becomes a space |
| Experience.SplitWsFrom | src/components/Experience.tsx:130 | at least one piece; no piece holds whitespace; clean input gives clean pieces |
| Experience.SplitWsRuns | src/components/Experience.tsx:130 | the non-empty pieces are exactly the maximal runs of non-whitespace |
| Experience.KeepWords | src/components/Experience.tsx:131 | a word is kept exactly when it is non-empty, not a stop word and longer than two |
| Experience.Tokenize | src/components/Experience.tsx:126-132 | every token is longer than two, not a stop word, and made of `[a-z0-9+%.]` only |
| Experience.TokenizeMembers | src/components/Experience.tsx:126-132 | a word is a token exactly when it is a maximal non-whitespace run of the lowercased, sanitised text, longer than two and not a stop word |
| Experience.StripEnding | src/components/Experience.tsx:136 | the word is the result followed by what was cut, at most three characters; what was cut is nothing or one of `ing`, `ed`, `es`, `s` in any case |
| Experience.StripEndingLongest | src/components/Experience.tsx:136 | the longest ending is the one cut: `ing` whole, `ed`/`es` rather than `s`, and nothing only when the word has none of them |
| Experience.Stem | src/components/Experience.tsx:134-137 | never longer than the word, no whitespace at either end, and for a word without whitespace exactly the word less its longest ending |
| Experience.StemOfPlainWord | src/components/Experience.tsx:136 | a word with none of the endings and no edge whitespace is its own stem |
| Experience.Denominator | src/components/Experience.tsx:144 | the maximum of 1 and both distinct-term counts |
| Experience.Similarity | src/components/Experience.tsx:139-146 | the measure lies in [0, 1] |
| Experience.SimilaritySymmetric | src/components/Experience.tsx:139-146 | the measure does not depend on argument order |
| Experience.SimilarityOfItself | src/components/Experience.tsx:139-146 | a non-empty term list has similarity 1 with itself |
| Experience.SimilarityZeroIff | src/components/Experience.tsx:139-146 | the measure is 0 exactly when no term is shared |
| Experience.ComputeSimilarity | src/components/Experience.tsx:139-146 | the source's counting loop computes exactly the measure |
| Experience.UniqueBy | src/components/Experience.tsx:148-157 | never more items than the input |
| Experience.UniqueBySimilarity | src/components/Experience.tsx:148-157 | the source's loop keeps exactly what the filter keeps |
| Experience.UniqueGrows | src/components/Experience.tsx:151-155 | what is kept of a prefix is a prefix of what is kept |
| Experience.UniqueIsSubsequence | src/components/Experience.tsx:151-155 | the kept items are a subsequence of the input |
| Experience.UniqueKeepsFirst | src/components/Experience.tsx:151-155 | the first item is always kept, in front |
| Experience.UniqueKeepsApart | src/components/Experience.tsx:153-154 | no kept item is near an item kept before it |
| Experience.UniqueKeptPositions | src/components/Experience.tsx:151-155 | the kept items sit at increasing positions of the input, and a position is kept exactly when its item is near no item kept from an earlier position |
| Experience.NearEarlierPrefix | src/components/Experience.tsx:153 | an item compares against the same earlier kept items in a prefix of the input as in the whole input |
| Experience.UniqueDropsOnlyNear | src/components/Experience.tsx:153-154 | every item left out is near an item kept at an earlier position |
| Experience.CompanyBadges | src/components/Experience.tsx:192-210 | the o9, then OpenNets, then AWS badge groups for the keywords the name contains; their count; empty exactly when none occurs |
| Experience.LogoPath | src/components/Experience.tsx:114-121 | null exactly when no logo rule fires |
| Experience.LogoPathChoice | src/components/Experience.tsx:114-121 | AWS for amazon or aws, else Handshake, else o9, else OpenNets, else null |
| Projects.ProjectImage | src/components/Projects.tsx:86-105 | never null; the placeholder exactly when no rule fires, with alt "<name> illustration placeholder"; otherwise the first firing rule's image |
| Projects.FiresBothWords | src/components/Projects.tsx:89 | a two-word rule fires exactly when the name holds both words |
| Projects.FluxRateRule | src/components/Projects.tsx:102 | the last rule fires on "fluxrate", or on both "adaptive" and "pricing" |
| Projects.ProjectImageIgnoresCase | src/components/Projects.tsx:87 | names equal up to case get the same image, except for the placeholder's alt text |
| ValidateData.FalsyValues | scripts/validate-data.mjs:21-23 | the falsy values are exactly `undefined`, null, false, 0 and "" |
| ValidateData.Prop | scripts/validate-data.mjs:21 | a property read gives a value exactly for an object holding that key |
| ValidateData.HasKey | scripts/validate-data.mjs:17 | `in` is true exactly for an object holding the key and throws exactly on null and primitives |
| ValidateData.YearMonthTestCases | scripts/validate-data.mjs:54 | the date test accepts a string exactly when it reads `YYYY-MM`, no number, boolean, null or object, and an array exactly when its one element passes |
| ValidateData.YearMonthIsSyntactic | scripts/validate-data.mjs:54 | the date test accepts "2023-13" and rejects "2023-5" |
| ValidateData.CheckKeys | scripts/validate-data.mjs:16-18 | all present exactly when the object holds every key; throws exactly on null and primitives; otherwise names the first missing key |
| ValidateData.CheckKeysMissing | scripts/validate-data.mjs:16-18 | a value `in` cannot inspect throws; an object or array lacking a key reports the first key missing |
| ValidateData.CheckKeysAll | scripts/validate-data.mjs:16-18 | the key loop passes exactly when every key is present |
| ValidateData.CheckLinks | scripts/validate-data.mjs:21-23 | passes exactly when email is a string and github and linkedin are truthy |
| ValidateData.CheckExperienceEntry | scripts/validate-data.mjs:28-32 | passes exactly when the entry has all seven keys, non-empty highlights and an array of tech; fails in that order: a throw on a primitive, the first missing key, empty highlights, then tech not an array |
| ValidateData.ForEachFrom | scripts/validate-data.mjs:27-33 | a `forEach` whose body asserts: passes exactly when every element's check passes; otherwise reports the failure of the first element whose check fails |
| ValidateData.CheckExperienceEntries | scripts/validate-data.mjs:27-33 | passes exactly when every entry does; otherwise reports the failure of the first entry that fails |
| ValidateData.CheckExperience | scripts/validate-data.mjs:26-41 | passes exactly for a non-empty array of valid entries whose start keys never grow; reports a missing array, else the first bad entry, else the ordering |
| ValidateData.CheckProjectEntry | scripts/validate-data.mjs:46-48 | passes exactly when the project has its five keys; a primitive throws, otherwise the first missing key is named |
| ValidateData.CheckProjectEntries | scripts/validate-data.mjs:45-49 | passes exactly when every project has its five keys; otherwise reports the first project that fails |
| ValidateData.CheckProjects | scripts/validate-data.mjs:44-49 | passes exactly for a non-empty array of such projects; reports a missing array, else the first bad project |
| ValidateData.CheckAchievement | scripts/validate-data.mjs:53-55 | passes exactly when the date is absent, null, empty or `YYYY-MM`; null throws; otherwise the only failure is the date format |
| ValidateData.CheckAchievementEntries | scripts/validate-data.mjs:52-56 | passes exactly when every achievement passes; otherwise reports the first that fails |
| ValidateData.CheckAchievements | scripts/validate-data.mjs:52-56 | passes exactly for an array of such achievements; a non-array throws; otherwise the first bad achievement is reported |
| ValidateData.CheckEducationEntry | scripts/validate-data.mjs:60-63 | passes exactly when the entry has its five keys and `YYYY-MM` start and end; a primitive throws, then the first missing key, then the date format |
| ValidateData.CheckEducationEntries | scripts/validate-data.mjs:59-64 | passes exactly when every entry passes; otherwise reports the first that fails |
| ValidateData.CheckEducation | scripts/validate-data.mjs:59-64 | passes exactly for an array of such entries; a non-array throws; otherwise the first bad entry is reported |
| ValidateData.Validate | scripts/validate-data.mjs:11-66 | the run succeeds exactly for the profiles every check accepts, and then every top-level key is present |
| ValidateData.ValidateFailureOrder | scripts/validate-data.mjs:11-66 | the first failing check decides: a throw, the first missing top-level key, then links, experience, projects, achievements and education, each reported only when all before it passed |
| ValidateData.MissingTopKeyReported | scripts/validate-data.mjs:16-18 | a missing top-level key fails the run, naming the first one missing |
| ValidateData.SortLeavesOrdered | scripts/validate-data.mjs:36-41 | the stably sorted copy equals the entries exactly when their starts are already newest first |
| ValidateData.ValidProfileShownInFileOrder | scripts/validate-data.mjs:36-41 | on an accepted profile, the page's newest-first sort leaves the experience list as it is |
| ValidateData.AcceptedExperienceOrdered | scripts/validate-data.mjs:36-41 | on a profile every check accepts, the page's newest-first sort leaves the experience list as it is |
| ValidateData.ValidProfileStartsHaveKeys | scripts/validate-data.mjs:28-30 | the checker makes every experience entry carry a `start`; so when every start is "Present" or digits around one dash (the precondition, which the checker does not enforce), each record the page sorts has a numeric start key |
| ValidateData.AcceptedStartsReadable | scripts/validate-data.mjs:28-30 | on a profile every check accepts, each entry has a `start`, which under the same precondition is a numeric key of the record built from it |

## Left out

- Rendering is not modelled: JSX, class names, ARIA attributes, icons and the rendered markup.
- Browser observers are represented by the values they deliver, passed as method parameters. These are IntersectionObserver entries, `matchMedia('(pointer: coarse)')`, `innerWidth` and `scrollY`.
- Listener registration and removal are implicit: a live card's listeners exist exactly while it is in `cards`. The one-time `autoFlipScrollInit` event is left out, since nothing listens to it.
- React scheduling is simplified. Effects run at once after each event, and the mirror refs (`isMobileRef`, `lockedRef`, `hoveringRef`) are never one render behind. A mount's id, tracker and mode effects are folded into one step.
- FlipCard.Coordinator.Resize: a pointer-type change arrives together with a width, as a resize event; the media query's own change event is not listened to by the source either.
- FlipCard.Coordinator.Valid: it does not state that at most one unlocked card is auto-flipped, because the source does not keep that either. A card auto-flipped on a phone and then locked keeps its mark while another card auto-flips; unlocked later on a desktop (where unlocking does not clear the mark), it leaves two. `Visibility` states what one announcement achieves.
- FlipCard.Coordinator.Announce: it requires a mobile page for a non-empty announcement, because only a mobile card announces and every card shares the window's mode. An eviction clears `flipped` without re-running the mode effect, which keeps a desktop card consistent only if it never receives one.
- Local storage and the document root's `data-theme` attribute are not modelled. The stored theme is a constructor parameter and the written value is not modelled.
- Experience.FormatDate: the locale label (`toLocaleString` in UTC) is left abstract as `MonthYear(year, month)`. Month overflow, such as month 13, is not normalised.
- JsText.JsNumber: `Number` is modelled only for strings of decimal digits. Strings with surrounding whitespace, signs, decimals or exponents are treated as `NaN`, so `Experience.FormatDate` shows them verbatim.
- JsText.Lower: case mapping covers ASCII only; other letters stay as they are, in `Tokenize`, `ProjectImage`, `LogoPath`, `CompanyBadges` and the month scan.
- Experience.Similarity: the ratio is an exact real, not a double; the threshold comparison is exact.
- `emphasize` (metric and tech-term bolding by regular-expression replacement) is not modelled. `Markup.SummaryItems` keeps each paragraph's trimmed text before emphasis.
- `companyIcon` (Experience.tsx:102-112) is not modelled: it only chooses among icon components after `LogoPath`.
- Image and logo URLs are left abstract as enumerations.
- Projects.tsx repeats `escapeHtml`, `escapeReg` and `renderSummaryWithEmphasis` with identical bodies. They are modelled once, in `Markup`.
- `uniqueBySimilarity` is not called by the page. It is modelled as written, with its default threshold passed explicitly.
- ValidateData.ValidProfileStartsHaveKeys: the numeric start key comes from the `StartsReadable` precondition, not from the checker; a profile with a numeric start such as 202001 in newest-first order passes the checker, and the page's `d.replace` (App.tsx:69) then throws.
- ValidateData.Validate: it requires `StartsReadable`, so every experience start is a string "Present" or digits around one dash. Other starts are not modelled. The checker reads `Number(String(d))`, so a numeric start is a number there, but the page's `d.replace` (App.tsx:69) throws on it; null, a boolean or other text gives `NaN`, and a comparator returning `NaN` leaves the sort order to the engine.
- Reading the file, `JSON.parse` and the console output are not modelled. JSON numbers are integers here.
- ValidateData.Prop: reads of `length` or an index on arrays and strings are not modelled, because the script reads neither.
- ValidateData.CheckExperience: the source compares the sorted copy with the original by reference. The model compares by value. For a stable sort both hold exactly when the list is already newest first (`App.SortUnchangedIff`).
