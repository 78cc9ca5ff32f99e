# Clinic patient views — a Dafny model

This project models the core of a small clinic-management backend. The core
is the per-facility patient risk report, `calculate_patient_report`. It
computes:

- the age statistics of the facility's roster;
- a diagnosis frequency table;
- a risk score per patient;
- a ranking by score, using an in-place bubble sort;
- the top three of that ranking.

The model also covers the guard chains of the three views that change the
record store: `create_patient`, `delete_patient` and `deleteNote`.

Modules:

- `Text` covers the Python string primitives the views use:
  - `str.split` and its inverse `Join`, with round trips in both directions;
  - `str.strip`, characterised as the slice between the first and last
    non-whitespace characters;
  - `str.isdigit` and `int`; `int` is pinned down by a round trip against a
    decimal rendering that exists only for that proof.
- `Records` holds the shapes of the facility, patient and note rows.
- `Ranking` defines the report's order: descending by score, with ties kept in
  roster order.
  - `Ranked` is a reference insertion sort.
  - "Stable" means that for every score `v`, the entries scoring `v` appear
    in the same order as in the input (`SameTies`).
  - A stable descending order is unique (`StableOrderUnique`). So the
    in-place `BubbleSort`, the report's own sort, is proved to produce
    exactly `Ranked` of its input.
- `RiskReport` models sections 1 to 3 of the report (age statistics,
  diagnosis table, risk scores) as methods over the roster, each proved
  against a specification function. Section 4, the sort, is
  `Ranking.BubbleSort`. `CalculatePatientReport` runs them in turn, as the
  view does, and computes section 5 (the average and the top three) inline.
- `PatientViews` models each mutating view as a function. It maps a request
  (verb, caller, form) and the record store to a response and the new store.
  - The record store is a map from primary key to row.
  - The facility table is a sequence of rows in primary-key order, so that
    `.first()` means "first match".

The running minimum follows the view's loop: it treats 0 as "not yet set"
(`RiskReport.RunningMin`).

- It is the true minimum whenever no age is 0 (`RiskReport.RunningMinIsMinimum`).
- An age of 0 after a non-negative running minimum resets it, so the next age
  becomes the minimum (`RiskReport.ZeroAgeResetsMinimum`).

`create_patient` only ever stores ages in 1..149 (`PatientViews.CreatePatientAddsOneValidRow`).

## Model

| member | source | states |
|---|---|---|
| Text.CountChar | app/healthcare/views.py:244 | the count of a character is its multiplicity in the string |
| Text.Split | app/healthcare/views.py:224 | `split(sep)` yields one more part than there are separators, and no part contains the separator |
| Text.JoinSplit | app/healthcare/views.py:224 | joining the parts of a split with the separator restores the original string |
| Text.SplitJoin | app/healthcare/views.py:224 | splitting a separator-free, non-empty list of parts joined by the separator gives the parts back |
| Text.TrimStartSpec | app/healthcare/views.py:226 | `TrimStart` (the left half of `strip()`) is a suffix of the input, drops only whitespace, and does not start with whitespace |
| Text.TrimEndSpec | app/healthcare/views.py:226 | `TrimEnd` (the right half of `strip()`) is a prefix of the input, drops only whitespace, and does not end with whitespace |
| Text.StripSlice | app/healthcare/views.py:226 | `strip()` is a slice of the input starting where the leading whitespace ends |
| Text.StripCutsSpace | app/healthcare/views.py:226 | what `strip()` cuts off on either side is whitespace |
| Text.StripEnds | app/healthcare/views.py:226 | `strip()` neither starts nor ends with whitespace |
| Text.StripSpec | app/healthcare/views.py:226 | `strip()` is a slice of the input with only whitespace cut off either side, neither starting nor ending with whitespace |
| Text.StripIdempotent | app/healthcare/views.py:226 | stripping twice equals stripping once |
| Text.StripEmpty | app/healthcare/views.py:227 | a segment strips to empty exactly when it is all whitespace |
| Text.DecimalValue | app/healthcare/views.py:137-143 | `int(age)` of a k-digit string is below 10^k |
| Text.DecimalRoundTrip | app/healthcare/views.py:137-143 | `int` gives back every number from its shortest decimal rendering, so `DecimalValue` is the base-ten value |
| Text.LeadingZeroValue | app/healthcare/views.py:137-143 | leading zeros do not change the value `int` reads |
| Ranking.WithScore | app/healthcare/views.py:253-258 | the score group of a list is no longer than the list, and every member has that score |
| Ranking.Insert | app/healthcare/views.py:253-258 | inserting into the reference ranking lengthens it by one |
| Ranking.InsertPermutation | app/healthcare/views.py:253-258 | insertion adds exactly the inserted entry to the multiset of entries |
| Ranking.InsertBounded | app/healthcare/views.py:253-258 | inserting an entry under a score bound the list respects keeps the list under that bound |
| Ranking.Ranked | app/healthcare/views.py:253-258 | the reference ranking has the input's length |
| Ranking.WithScoreAppend | app/healthcare/views.py:253-258 | the score group of a concatenation is the concatenation of the groups |
| Ranking.WithScorePrefix | app/healthcare/views.py:270 | the score group of a prefix is a prefix of the score group |
| Ranking.WithScoreCons | app/healthcare/views.py:253-258 | a head entry joins the front of its own score group and no other |
| Ranking.InsertPastHigher | app/healthcare/views.py:253-258 | moving an entry past a strictly higher-scoring head keeps every score group |
| Ranking.InsertTies | app/healthcare/views.py:253-258 | inserting an entry gives every score group the same order as putting the entry first |
| Ranking.InsertSorted | app/healthcare/views.py:253-258 | insertion into a descending list keeps it descending |
| Ranking.RankedTies | app/healthcare/views.py:253-258 | the reference ranking keeps every score group in input order (it is stable) |
| Ranking.RankedTiesAt | app/healthcare/views.py:253-258 | the reference ranking keeps the group of one given score in input order |
| Ranking.RankedSorted | app/healthcare/views.py:253-258 | the reference ranking is non-increasing by score |
| Ranking.WithScoreCount | app/healthcare/views.py:253-258 | an entry occurs as often in its score group as in the whole list |
| Ranking.TiesArePermutation | app/healthcare/views.py:253-258 | two lists that agree on every score group are permutations of each other |
| Ranking.StableOrderUnique | app/healthcare/views.py:253-258 | two descending lists that agree on every score group are equal |
| Ranking.NoneAbove | app/healthcare/views.py:253-258 | a descending list has no entry scoring above its head |
| Ranking.SameTiesTransitive | app/healthcare/views.py:253-258 | agreement on score groups is transitive |
| Ranking.SwapAdjacentTies | app/healthcare/views.py:255-258 | swapping two adjacent entries with different scores keeps every score group |
| Ranking.PassStep | app/healthcare/views.py:254-258 | one compare-and-swap step keeps the settled suffix, carries the lowest score seen so far to the next position, and settles the pass's target position once reached |
| Ranking.CompareSwap | app/healthcare/views.py:255-258 | after the compare-and-swap at `j` the pair is in descending order, holds the same two entries, and nothing else moved |
| Ranking.CompareSwapTies | app/healthcare/views.py:255-258 | a compare-and-swap step keeps every score group |
| Ranking.BubblePass | app/healthcare/views.py:254-258 | one pass of adjacent swaps settles one more position at the end and keeps every score group |
| Ranking.BubbleSort | app/healthcare/views.py:253-258 | after `len(r)` passes the array is exactly the reference ranking of its old contents: descending, a permutation, stable |
| RiskReport.MaxAge | app/healthcare/views.py:205-212 | the running maximum from 0 is at least 0, bounds every age, and is 0 or some patient's age |
| RiskReport.RunningMin | app/healthcare/views.py:206-217 | the running minimum is 0 for an empty roster, otherwise some patient's age, and never above the last age |
| RiskReport.RunningMinIsMinimum | app/healthcare/views.py:206-217 | with no age 0, the running minimum is 0 for an empty roster and otherwise an age that no age is below |
| RiskReport.ZeroAgeResetsMinimum | app/healthcare/views.py:213-214 | a 0 age after a non-negative minimum makes the next age the minimum |
| RiskReport.SumAgesAtMost | app/healthcare/views.py:204-210 | when every age is at most `hi`, the sum `a` is at most `len * hi` |
| RiskReport.SumAgesAtLeast | app/healthcare/views.py:204-210 | when every age is at least `lo`, the sum `a` is at least `len * lo` |
| RiskReport.AverageWithinAgeRange | app/healthcare/views.py:204-263 | the average `a / len(tmp)` is at most the maximum `b`, and at least the minimum `c` when no age is 0 |
| RiskReport.AgeStep | app/healthcare/views.py:208-217 | one more patient advances the four accumulators by the loop body's step: append the age, add it, raise the maximum, lower the minimum (or set it when 0) |
| RiskReport.AgeStatistics | app/healthcare/views.py:204-217 | the loop yields the list of ages, their sum, the running maximum and the running minimum |
| RiskReport.KeptTokens | app/healthcare/views.py:225-227 | the kept tokens are no more than the segments |
| RiskReport.KeptTokensClean | app/healthcare/views.py:226-227 | every kept token is non-empty and stripped |
| RiskReport.DiagnosisTokens | app/healthcare/views.py:223-227 | a patient contributes no more table entries than the score counts segments |
| RiskReport.RosterTokensClean | app/healthcare/views.py:222-227 | every diagnosis occurrence of the roster is non-empty and stripped |
| RiskReport.TallyAdd | app/healthcare/views.py:228-231 | the increment-or-insert step keeps the table an exact count of the tokens seen |
| RiskReport.TallyKeys | app/healthcare/views.py:227-231 | a table counting only clean tokens has only clean keys |
| RiskReport.CountSegments | app/healthcare/views.py:225-231 | the inner loop adds exactly the kept tokens of one field to the count table |
| RiskReport.DiagnosisTable | app/healthcare/views.py:220-231 | the table maps each diagnosis of the roster (`RosterTokens`) to its number of occurrences and has no other key (`Tally`); every key is non-empty and stripped |
| RiskReport.SegmentCount | app/healthcare/views.py:243-244 | the segment count is 0 for an empty field and otherwise one more than its number of commas |
| RiskReport.AgePoints | app/healthcare/views.py:239-242 | age points are at most 3, 0 exactly when the age is at most 65, and 3 exactly when it is above 75 |
| RiskReport.CountPoints | app/healthcare/views.py:245-248 | segment points are 0 exactly when there are at most 2 segments, otherwise between n and n + 2, and n + 2 exactly when there are more than 4 |
| RiskReport.RiskScore | app/healthcare/views.py:238-248 | the score is 0 exactly when the age is at most 65 and there are at most 2 segments; 3 or more segments alone give at least 3; over 75 with more than 4 segments gives segments + 5 |
| RiskReport.RiskScores | app/healthcare/views.py:236-250 | the cumulative if-chain gives, in roster order, each patient's name with 2 points above 65, 3 above 75, plus n for n > 2 segments and n + 2 for n > 4 |
| RiskReport.KeptTokensCount | app/healthcare/views.py:224-227 | the table keeps as many tokens as there are segments exactly when no segment strips to empty |
| RiskReport.TokensVersusSegments | app/healthcare/views.py:224-227 | a field contributes at most as many table entries as it has score segments, and exactly as many when no segment is blank |
| RiskReport.BlankSegmentExample | app/healthcare/views.py:224-246 | for `a,,b` the score counts 3 segments and adds 3 points, while the table receives only `strip(a)` and `strip(b)` |
| RiskReport.KeptAroundBlank | app/healthcare/views.py:225-227 | a blank segment between two diagnoses is dropped from the table |
| RiskReport.ScoreMonotone | app/healthcare/views.py:239-248 | the score never decreases as age or segment count grows |
| RiskReport.TopThree | app/healthcare/views.py:270 | `r[:3] if len(r) > 3 else r` is a prefix of length min(3, len) |
| RiskReport.PrefixDominates | app/healthcare/views.py:270 | in a descending list nothing after position k outscores anything before it |
| RiskReport.PrefixSplit | app/healthcare/views.py:270 | a prefix of a descending list is descending and leaves out exactly the rest of the list |
| RiskReport.TopThreeDominates | app/healthcare/views.py:253-270 | the top three of the ranking are descending, drawn from the entries, and outscored by none of the entries left out |
| RiskReport.TopThreeStable | app/healthcare/views.py:253-270 | within each score, the top three keep the entries' input order as a prefix of that score's group |
| RiskReport.HighRiskIsTopThree | app/healthcare/views.py:236-270 | `HighRisk`, the `high_risk` list, has min(3, roster size) entries, descending, none outscored by an excluded patient, and equal scores in roster order |
| RiskReport.CalculatePatientReport | app/healthcare/views.py:199-272 | the report's total, average (0 when empty), max, min, exact diagnosis counts and `high_risk` are those of the roster |
| PatientViews.FacilityById | app/healthcare/views.py:129 | `.filter(id=...).first()` finds a row with that id, or there is none |
| PatientViews.FacilityByName | app/healthcare/views.py:168 | `.filter(name=...).first()` finds the first row in primary-key order with that name, or there is none |
| PatientViews.ValidAgeAccepts | app/healthcare/views.py:137 | the age check (`isdigit` via `IsDigits`, then `0 < int(age) < 150`) accepts the decimal rendering of exactly 1..149, and a leading zero changes nothing |
| PatientViews.NewPatient | app/healthcare/views.py:138-147 | the inserted row has an age in 1..149, a non-empty name, phone and address, the facility's name and the caller's username, and empty diagnoses when none were posted |
| PatientViews.CreatePatient | app/healthcare/views.py:126-160 | the first failing check decides: GET shows the form; then not logged in, no facility, not a doctor (`IsDoctorOf`), a missing field (`RequiredFieldsFilled`), a bad age (`ValidAge`); only when all pass is the row inserted and the caller sent to it |
| PatientViews.CreatePatientAddsOneValidRow | app/healthcare/views.py:126-153 | the store gains at most the new row and only on redirect; that row belongs to the facility and the calling doctor, has non-empty fields and an age in 1..149 |
| PatientViews.DeletePatient | app/healthcare/views.py:163-181 | GET is refused; then not logged in, no patient, no facility named like the patient's, not a doctor; only when all pass is the row removed |
| PatientViews.DeletePatientRemovesOnlyAuthorized | app/healthcare/views.py:163-174 | the store changes only by losing the requested patient, exactly when a doctor of its facility posted, and exactly when the response is the list redirect |
| PatientViews.DeleteNote | app/healthcare/views.py:324-330 | an authenticated POST deletes the note (a missing note is a server error); anything else is "Method not allowed" and changes nothing |
| PatientViews.AnonymousDeleteAnswers | app/healthcare/views.py:324-330 | an anonymous `deleteNote` request of any verb gets the same answer as a GET, in contrast with `delete_patient` (lines 163-181), which tells an anonymous POST to log in |

## Left out

- The roster query is not modelled. `Facility.objects.get` and the `Patient` filter by facility name become the roster parameter of `RiskReport.CalculatePatientReport`. The database's row order is the order of that sequence.
- The unknown-facility exception of `calculate_patient_report` is not modelled; the caller gives the roster directly.
- The list `e` of distinct diagnoses (views.py:221, 232-233) is not modelled. It is built but never returned.
- RiskReport.CalculatePatientReport: `avg` is the exact rational sum / count, not a binary floating-point value. It is `0.0` rather than the integer `0` for an empty roster.
- RiskReport.Report: `diagnoses` is a map, so the first-occurrence key order of the Python dict (which the JSON object carries) is not modelled; only keys and counts are.
- JSON serialization, HTTP responses, template rendering and redirects are reduced to the `Response` datatype.
- Text.IsDigits: `str.isdigit` and `int` are modelled for ASCII digits only. Other Unicode digits, which `isdigit` accepts and `int` may reject, are left out.
- PatientViews.CreatePatient: the new row's primary key is a parameter (`newId`, required to be unused), because the database assigns it. The `created_at` timestamps are not recorded.
- PatientViews.CreatePatient: field length limits of the schema (`max_length`) are not enforced by the view and are not modelled.
- Authentication and the session are a `Caller` value; facility membership is a set of user ids.
- The listing, detail, search, export and note-creation views are not part of this model. Neither are `urls.py` and the raw SQL in `patient_export`.
- PatientViews.DeleteNote: a missing note raises an uncaught lookup error in the view; the model answers `ServerError` and leaves the store unchanged.
