# CBCN study quiz — the session engine in Dafny

This project models the quiz session engine of the CBCN study quiz, a
single-page web app that quizzes the user on multiple-choice questions from
one or more question packs. The engine is the single global `state` record
of `script.js` and the handlers that change it without touching the page:

- **Bank assembly** (module `Packs`): which packs are active (the ticked
  pack checkboxes, else the stored selection, else every configured pack),
  the bank as the concatenation of the active packs' questions in selection
  order, and the sorted list of distinct non-empty domains offered by the
  domain filter.
- **Filter engine** (module `Filters`): the three tests `applyFilters`
  combines — domain, tag substrings (the comma-separated, trimmed,
  lower-cased query terms against the lower-cased tags) and bookmark
  membership.
- **Order sequencer** (module `Ordering`): the in-place Fisher–Yates shuffle
  over an `array`, and the index order `[0, …, n-1]` a rebuild, a filter
  change or a reshuffle installs.
- **Scoring** (module `Scoring`): the right/wrong counters and the streak as
  a fold over the answers submitted since the last restart.
- **Bookmarks** (module `Bookmarks`): `indexOf` and the toggle that splices
  out the first occurrence of an id or pushes it at the end.
- **Feedback text** (module `Feedback`): the answer letter and the items of
  the "why wrong" list.
- **History export** (module `Export`): the CSV line of an answer record,
  with commas in the id blanked out and the stem quoted with its quotes
  doubled, and a CSV reader under which the fields read back.
- **The session** (module `Quiz`, class `Session`): the `state` record as a
  class whose fields the handlers update in place — `RebuildFromActive`,
  `ApplyFilters`, `Reshuffle`, `ResetSession`, `Submit`, `NextQ`,
  `ToggleBookmark`, `ClearBookmarks` — each keeping the invariant `Valid()`:
  the order is a permutation of the positions of the filtered set, the
  position lies inside the order (or is 0 when the order is empty), the filtered set is an order-preserving
  subsequence of the bank, and the counters are those of the answers scored
  since the last restart.

Modules `Text` and `Seqs` model the JavaScript string and array built-ins
the engine relies on (`trim`, `toLowerCase`, `split`, `join`, `includes`,
string comparison in `sort`, `filter`). Module `Questions` holds
the records: questions, answer records, settings, and reading a stored
value with a fallback.

The outside world enters as parameters: `Math.random` as a draw function
`pick` with `pick(i) <= i` (`Ordering.ValidPick`), `confirm` as a boolean,
the filter controls as a `FilterInputs` value, the ticked pack checkboxes as
a set of keys, stored values as `Option` (None for a missing, unreadable or
null entry), the loaded pack files as a map from pack key to questions, the
radio selection as `Option<int>`, and the current time as a string.

Where the code's behaviour might be expected to differ, the model follows
the code: a rebuild zeroes the counters while a filter change keeps them;
`nextQ` never moves the position past the last entry of the order, so there
is no "position equals length" state; distractor notes are looked up by the
choice text alone; a selected key that is not a configured pack (looking up
its file throws) or whose pack is not loaded (a fetch or parse that failed)
fails the whole rebuild after the new selection has been recorded, leaving
bank, order and counters as they were; a stored pack selection is used as it
is, without checking its keys against the configured packs, so a stale
stored key fails every rebuild in which no pack box is ticked.

## Model

| member | source | states |
|---|---|---|
| Quiz.Session.constructor | script.js:27-50 | the start-up state: empty bank, filtered set and order, position and counters at zero, settings, history and bookmarks read from storage with their fallbacks (lines 77-79), and the invariant holds |
| Text.TrimEmptyIff | script.js:215 | trimming leaves nothing exactly when the string is all ECMAScript white space |
| Text.TrimKeeps | script.js:215 | every non-white-space character survives the trim |
| Text.TrimStartSpec | script.js:215 | trimStart removes exactly the leading white space: what it drops is all white space and what it keeps does not start with any |
| Text.TrimEndSpec | script.js:215 | trimEnd removes exactly the trailing white space |
| Text.ToLower | script.js:215 | lower-casing keeps the length and maps each character on its own, changing exactly the ASCII capitals |
| Text.JoinSplit | script.js:216 | joining the pieces of a split at the same separator gives back the string |
| Text.SplitJoin | script.js:216 | splitting a join of separator-free pieces gives back the pieces |
| Text.JoinAvoids | script.js:486 | a join holds a character other than the separator only when some piece does |
| Text.SplitCount | script.js:352 | a split yields one more piece than the string has separators |
| Text.JoinCount | script.js:352 | joining n separator-free pieces puts exactly n-1 separators into the text |
| Text.JoinSplitAt | script.js:352 | a join splits at any piece boundary into the join of the pieces before it, one separator and the join of the pieces after it |
| Text.SplitCovers | script.js:216 | every character other than the separator lands in some piece of the split |
| Text.SplitChars | script.js:216 | every character of a piece comes from the split text |
| Text.ContainsIff | script.js:221 | `includes` holds exactly when the term occurs at some position of the string |
| Text.LessTotal | script.js:190 | the sort order relates any two different strings one way or the other |
| Text.LessTransitive | script.js:190 | the sort order is transitive |
| Text.LessIrreflexive | script.js:190 | no string sorts before itself |
| Text.LessAsymmetric | script.js:190 | no two strings sort before each other |
| Seqs.SelectSpec | script.js:219-224 | `filter` (modelled by `Seqs.Select`) keeps every copy of each element that passes and no copy of one that fails, and every element it keeps passes |
| Seqs.SelectSubseq | script.js:219 | what `filter` keeps is an order-preserving subsequence of its input |
| Seqs.SelectAll | script.js:219 | `filter` with a test everything passes is the identity |
| Seqs.SelectNone | script.js:219 | `filter` with a test nothing passes gives the empty list |
| Seqs.SelectAppend | script.js:219 | `filter` distributes over concatenation |
| Seqs.WithoutSpec | script.js:402-403 | specification helper for Bookmarks.ToggleKeepsOrder (the code itself removes only the first copy): the list of the other ids, with every copy of the toggled id removed, holds no copy of it and every other element |
| Seqs.WithoutAppend | script.js:402-403 | specification helper for Bookmarks.ToggleKeepsOrder: the list of the other ids distributes over concatenation |
| Packs.DefaultActivePacks | script.js:142-149 | the stored selection when it is a non-empty list, otherwise all configured packs; never empty |
| Packs.ChooseActiveSpec | script.js:170-175 | the active selection (`Packs.ChooseActive`) is never empty; with some configured pack ticked it is exactly the ticked configured packs in configuration order, otherwise the default selection |
| Packs.Assemble | script.js:181-184 | the bank is assembled exactly when every selected key is a configured pack and its pack is loaded |
| Packs.StaleStoredKeyFails | script.js:170-182 | with no configured pack ticked, a stored selection holding a key that is not configured fails the rebuild whatever is loaded |
| Packs.UnknownKeyExample | script.js:181 | a key outside the configuration fails the selection even when a pack is loaded under it |
| Packs.AssembleAppend | script.js:184 | the bank of two selections one after the other is the concatenation of their banks |
| Packs.AssembleMembers | script.js:184 | a question is in the bank exactly when it is in some selected pack |
| Packs.AssembleSize | script.js:184 | the bank's size is the sum of the selected packs' sizes |
| Packs.AssembleExample | script.js:181-184 | packs set26 = [q1, q2] and set27 = [q3] selected as [set27, set26] give [q3, q1, q2] |
| Packs.Insert | script.js:190 | adding a domain to a strictly sorted list keeps it strictly sorted and adds exactly that domain |
| Packs.Domains | script.js:190 | the domain options are strictly sorted and are exactly the non-empty domains of the bank |
| Packs.SortedNoDup | script.js:190 | the domain options hold no domain twice |
| Filters.TagTerms | script.js:215-216 | no query term is empty |
| Filters.TagTermsEmptyIff | script.js:215-216 | the query yields no terms, switching the tag test off, exactly when it holds only white space and commas |
| Filters.OnlySpaceOrCommaNoTerms | script.js:215-216 | a query of only white space and commas yields no terms |
| Filters.SomeCharSomeTerm | script.js:215-216 | a query holding some character other than white space and commas yields at least one term |
| Filters.FilterBankSpec | script.js:219-224 | the filtered set (`Filters.FilterBank`, the three tests of `Filters.Keep`) is an order-preserving subsequence of the bank holding every copy of each question that passes the domain, tag and bookmark tests and no copy of any other |
| Filters.FilterBankSubseq | script.js:219-224 | the filtered set keeps the bank's order |
| Filters.FilterOffIsIdentity | script.js:214-224 | with domain "All" (or an empty selector), a query of only white space and commas and the bookmark filter off, the filtered set is the whole bank |
| Filters.NoBookmarksNoQuestions | script.js:217-223 | with the bookmark filter on and no bookmarks nothing passes |
| Filters.SingleWordTerm | script.js:215-216 | a query that is one lower-case word is its own single term |
| Filters.CardioMatchesCardiology | script.js:221 | the query "cardio" matches a question tagged "Cardiology" |
| Ordering.Shuffle | script.js:58 | the array after the in-place shuffle is the Fisher–Yates steps from the last index down to 1 applied to its old contents |
| Ordering.SwapPermutes | script.js:58 | each swap step rearranges the array without changing its elements |
| Ordering.StepsPermutes | script.js:58 | the shuffle yields a permutation of its input |
| Ordering.FisherYatesPermutes | script.js:58 | the shuffled array has the same length and the same elements with the same multiplicities |
| Ordering.StepsFixesTail | script.js:58 | the steps below position k leave position k alone, so step i fixes position i for good |
| Ordering.StepsInjective | script.js:58 | on distinct entries, two runs of the shuffle give the same result only when their draws agree at every step, so every draw sequence yields its own order |
| Ordering.PermutationBounds | script.js:199-200 | any rearrangement of [0, …, n-1] has n entries, each below n, none repeated |
| Ordering.OrderFor | script.js:199-200 | the installed order is a rearrangement of [0, …, n-1], so it lists each of the n positions exactly once, and is exactly [0, …, n-1] when not shuffled |
| Ordering.NewOrder | script.js:199-200 | a fresh array holding [0, …, n-1], shuffled in place when asked |
| Bookmarks.IndexOf | script.js:402 | -1 exactly when the id is absent, otherwise the position of its first occurrence |
| Bookmarks.ToggleMultiset | script.js:402-403 | a toggle (`Bookmarks.Toggled`: splice at the first index, or push) removes one copy of a present id and appends an absent one at the end |
| Bookmarks.ToggleKeepsOrder | script.js:402-403 | the other ids keep their relative order |
| Bookmarks.ToggleMembership | script.js:402-403 | on a list without duplicates the toggle flips whether the id is bookmarked and leaves every other id's membership alone |
| Bookmarks.ToggleKeepsNoDup | script.js:402-403 | a list without duplicates keeps none |
| Bookmarks.ToggleTwiceMembership | script.js:402-403 | on a list without duplicates, two toggles restore every id's membership |
| Bookmarks.ToggleTwiceAbsent | script.js:402-403 | two toggles of an absent id restore the exact list |
| Bookmarks.ToggleTwicePresent | script.js:402-403 | on a list without duplicates, two toggles of a bookmarked id move it to the end |
| Bookmarks.WithoutAbsent | script.js:402 | removing an absent id changes nothing |
| Scoring.ReplayCounts | script.js:300-301 | the right and wrong counters count the right and the wrong answers, and together the answers |
| Scoring.ReplayStreak | script.js:302 | the streak is the length of the run of right answers ending the log |
| Scoring.ReplaySnoc | script.js:300-302 | scoring one more answer applies one counter step (`Scoring.Step`) to the score of the earlier answers |
| Scoring.StreakAtMostCorrect | script.js:300-302 | the streak never exceeds the right count |
| Scoring.ReplayExample | script.js:300-302 | right, right, wrong, right gives 3 right, 1 wrong, streak 1 |
| Feedback.AnswerLetter | script.js:328 | indices 0–25 give 'A'–'Z'; the letter's code is 65 + index modulo 2^16; no letter exactly for the surrogate codes |
| Feedback.LetterRoundTrip | script.js:328 | the letter reads back as its index for every index below the surrogate range |
| Feedback.LetterWraps | script.js:328 | indices 2^16 apart show the same letter |
| Feedback.FirstWordsSpec | script.js:352 | the first four words (`Feedback.FirstWords`) are a prefix of the choice ending at a space or at its end, keeping all its spaces up to three (exactly three when it has more), and are the whole choice exactly when it has at most three |
| Feedback.FirstWordsUnique | script.js:352 | the first four words are the only prefix ending at a space or at the end that keeps that many spaces, hence the longest prefix with at most three |
| Feedback.ItemSpec | script.js:350-352 | an item (`Feedback.Item`) is the bare choice when its text has no non-empty note, otherwise the prefix of the choice that ends at a space or at its end and keeps its spaces up to three, a colon and the note |
| Feedback.WhyWrongItems | script.js:344-356 | the "why wrong" list (`Feedback.WhyWrong`): no list without notes; otherwise one item per non-answer choice in choice order, choice j being item j before the answer and item j-1 after it, its note looked up by the choice text |
| Feedback.WhyWrongExample | script.js:346-353 | choices "A" and "B c d e f", answer 0, note "why" for the second give the single item "B c d e: why" |
| Export.EscapeId | script.js:480 | the id field has the id's length, no comma, commas replaced by spaces and every other character kept |
| Export.EscapeIdFixes | script.js:480 | an id without commas is written as it is; escaping twice is escaping once |
| Export.UnquoteDoubled | script.js:482 | reading a doubled-quote text up to the closing quote gives back the original text and what follows |
| Export.ReadQuotedField | script.js:482 | the quoted stem field (`Export.QuoteStem`, quotes doubled by `Export.DoubleQuotes`) reads back as the stem itself |
| Export.QuoteExample | script.js:482 | the stem He said "hi" is written "He said ""hi""" |
| Export.CsvRowFields | script.js:478-486 | a CSV line (`Export.CsvRow`) reads back as the escaped id, the time, the stem and the texts of selected, correctIndex and correct |
| Export.ReadJoin | script.js:486 | fields written as the line writes them and joined with commas read back as those fields |
| Export.ReadsField | script.js:480-485 | a field written quoted or plain reads back as itself and stops at the next comma |
| Export.ReadPlainField | script.js:480-481 | a field without commas that does not start with a quote reads back as itself |
| Export.DoubleQuotesAppend | script.js:482 | quote doubling works piece by piece |
| Export.DoubleQuotesNone | script.js:482 | a stem without quotes is written as it is between the outer quotes |
| Export.QuoteWord | script.js:482 | a stem ending in a quoted word has both quotes of the word doubled |
| Export.ExportCsv | script.js:474-489 | there is a file exactly when the history is not empty |
| Export.ExportLines | script.js:476-489 | when no id, time or stem holds a line break, the file's lines are the header and then one line per record, oldest first |
| Export.RowNoBreak | script.js:478-486 | a record whose id, time and stem have no line break gives a CSV line without one |
| Export.DoubleQuotesAvoids | script.js:482 | quote doubling adds only quotes |
| Quiz.Session.Current | script.js:251 | the current question, when there is one, belongs to the filtered set |
| Quiz.Session.CurrentSpec | script.js:251 | in a consistent state there is a current question exactly when the filtered set is non-empty, and it is the one the order points at |
| Quiz.Session.CountersSpec | script.js:299-302 | right plus wrong counts every answer since the restart, and the streak never exceeds the right count |
| Quiz.Session.RebuildFromActive | script.js:168-208 | records the chosen packs; succeeds exactly when all are configured packs and loaded, then the bank is their concatenation, the filtered set the whole bank, a fresh order of its length as the shuffle setting says, position and counters zero and the domain options those of the bank; on failure bank, order, position and counters are unchanged |
| Quiz.Session.Restart | script.js:198-202 | installs the bank unfiltered with a fresh order of its length, position and counters at zero, everything else unchanged |
| Quiz.Session.ApplyFilters | script.js:213-232 | the filtered set is the bank filtered by the controls, the order a fresh one of its length as the shuffle setting says, position zero, counters and everything else unchanged |
| Quiz.Session.Reshuffle | script.js:234-240 | nothing on an empty filtered set; otherwise a fresh always-shuffled order and position zero, with counters and everything else unchanged |
| Quiz.Session.ResetSession | script.js:242-246 | when confirmed, counters and position zero with bank, filtered set and order unchanged; when declined nothing changes |
| Quiz.Session.Submit | script.js:294-316 | no state change without a selection or a current question; otherwise right exactly when the selection is the answer index, exactly one counter up by one, the streak one longer or zero, and one record appended to the history exactly when history is kept, earlier records untouched, its correct flag equal to selected == correctIndex |
| Quiz.Session.Tally | script.js:299-302 | one counter step: right bumps the right count and the streak, wrong bumps the wrong count and zeroes the streak, and the counters stay those of the answers since the restart |
| Quiz.Session.NextQ | script.js:376-386 | one step further exactly when that stays inside the order, otherwise the position stays and completion is reported; the position stays inside the order |
| Quiz.Session.ToggleBookmark | script.js:400-407 | nothing without a current question; otherwise the bookmarks are the toggle of its id; a duplicate-free list stays duplicate-free |
| Quiz.Session.ClearBookmarks | script.js:416-423 | when confirmed, no bookmarks, and with the bookmark filter on an empty filtered set and order at position zero; when declined nothing changes |

## Left out

- Page rendering and event wiring (`renderQ`, `showFeedback`, `showDetailsQ`, `renderBank`, `renderHistory`, `renderBookmarks`, `updateStats`, `hydrateSettings`, `buildPackControls`, `onEl`, the tab setup of `init`): presentation only. The settings toggles and the theme are page state as well.
- Fetching the pack files (`fetch`, `Promise.all`): network I/O. The loaded packs are a parameter; a configured pack missing from it stands for a failed fetch or parse, which fails the whole rebuild as a rejected promise does. Overlapping rebuilds are not modelled.
- Writing to `localStorage` (`save`) and the JSON encoding: a foreign API. Reading is the helper `Questions.Load` over an `Option`, covered by the constructor's row.
- `debounce` on the tag box: timers. Each call of `Quiz.Session.ApplyFilters` is one filter run.
- `confirm` and `alert`: a boolean parameter, and the `NoSelection` outcome of a submit.
- `Math.random`: the draw function `pick`. Ordering.StepsInjective: the uniform distribution of the shuffle is not stated as probabilities; the model proves only that different draw sequences yield different orders.
- `new Date().toISOString()`: the `now` parameter of a submit. The Blob download of the export: only the file's text is modelled.
- `onReveal`, `clearHistory`, `renderBank`'s bookmark view: outside the engine; only the letter computation of the reveal badge is modelled.
- Text.ToLower: lower-cases ASCII capitals only, because full Unicode case mapping is not modelled; queries and tags outside ASCII may match differently.
- Text.LessTotal: strings compare by code points rather than UTF-16 code units, which differ only for characters outside the Basic Multilingual Plane.
- Feedback.AnswerLetter: a code in the surrogate range gives no letter, because a lone surrogate is not a character here.
- Feedback.Item: the note lookup sees only the notes' own keys, not properties inherited by a JavaScript object (a choice text such as "constructor").
- Questions.Question: fields are typed; a field missing from a pack file is the empty string or list, and non-integer or non-numeric answer indices and selections are not modelled.
- Export.IntToString: integers only, as the model's indices are integers.
- Export.CsvRowFields: read-back is stated for ids that do not start with a quote and times without commas that do not start with a quote, because the id and the time are written unquoted.
- Bookmarks.ToggleMembership: stated for lists without duplicates; a stored list may hold duplicates, and then a toggle removes only the first copy (Bookmarks.ToggleMultiset states that case).
- Bookmarks.ToggleTwiceMembership: stated for lists without duplicates; on a stored list such as [x, x] two toggles leave no copy of x.
- Bookmarks.ToggleTwicePresent: stated for lists without duplicates, for the same reason.
- Export.ExportLines: stated for ids, times and stems without line breaks; a stem with a line break spreads its quoted field over several lines of the file.
