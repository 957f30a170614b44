# Health-staffing platform: verified model of the core logic

This project models the logic at the heart of a Norwegian health-staffing
web application, where municipalities post shifts and nurses and other health
workers take them. It has four parts.

- **Match scoring and ranking of eligible workers.** A shift is offered at an
  hourly wage. Each candidate worker gets three scores:
  - a wage-fit score, from a ten-step table over the percentage by which the
    worker's rate exceeds the wage;
  - a rating score;
  - an experience score, from the number of reviews.

  The match score is their sum. The list is then sorted by match score,
  highest first; equal scores go cheaper worker first. The sort is
  JavaScript's stable sort, so full ties keep the fetched order. The list
  also keeps per-worker notification preferences (email, SMS, push).
- **Norwegian national identity numbers (fødselsnummer).** The model covers:
  - cleaning and validation: the DDMMYY date, then the two mod-11 control
    digits;
  - formatting and masking;
  - gender from the parity of the individual number;
  - the birth century from the individual-number ranges;
  - a generator of mock numbers.
- **The availability form.** A worker ticks shift types, the form is checked
  for validity, and submitting it builds a database record.
- **The demo-user session.** Two fixed personas, looked up by id, and one
  local-storage slot holding the current user's id, with the employer persona
  as the fallback.

Modules: `Wrappers` (Option, Result), `MatchScoring`, `Ranking`,
`NotificationPrefs`, `PersonalNumber`, `Availability`, `DemoSession`.

Some modelling choices:

- **Wage fit in integers.** Rates and wages are whole numbers.
  - The test "the rate is at most k % over the wage" is stated as
    `(rate - wage) * 100 <= k * wage`.
  - `PercentageOverAtMost` proves this agrees with the exact percentage;
    floating-point rounding is listed under "Left out".
- **Sorting.** `Array.prototype.sort` with the comparator at
  src/components/shifts/EligibleWorkersList.jsx:142-148 is modelled by
  insertion sort.
  - The functional version is `SortByMatch`; the in-place array version is
    `SortInPlace`.
  - `StableSortIsSortByMatch` proves that any stable sort with that
    comparator gives the same list, so the choice of algorithm does not
    matter.
- **Tie-breaking.** The comment at line 140 says ties are broken "by wage
  score". The comparator uses only the match score and then the hourly rate.
  The model follows the comparator.
- **Birth-century comment.** The comment above the century rules in
  src/utils/personalNumber.js:102-105 gives ranges (1854-1899 for 500-749,
  1940-1999 for 900-999) that the code does not implement.
  - The code maps 500-749 with YY ≥ 40 to 19YY and 900-999 to 19YY.
  - It leaves 750-899 as the bare two-digit year.
  - The model follows the code (`CenturyYear`, `BirthYearRanges`).
- **`parseInt`.** JavaScript's `parseInt(s, 10)` is modelled as an optional
  sign followed by the longest run of digits, with NaN as `None`. The gender
  and birth-date functions only check the cleaned length, not that the
  characters are digits, so this matters there.
- **Mock-number birth years.** The mock generator draws an individual
  number below 500, plus one for parity.
  - A female draw of 499 becomes 500. For a birth year 1900-1939 the number
    then decodes a century late (`MockFemaleDraw499`).
  - Dates in 1900-1999 with an individual number up to 499 decode correctly
    (`MockBirthDate`).
- **Submit versus validity.** The submit handler itself does not check the
  recurrence fields. Only `isFormValid`, which enables the button, does.
  `Submit` models the handler's own guards.

## Model

| member | source | states |
|---|---|---|
| MatchScoring.WageScore | src/components/shifts/EligibleWorkersList.jsx:85-108 | 40 when no positive wage is offered; 100 at or below the wage; above it a multiple of 10 in 0..90, with the rate within `100 - r` % of the wage when r > 0 and beyond `90 - r` % when r < 90 |
| MatchScoring.PercentageOverAtMost | src/components/shifts/EligibleWorkersList.jsx:95-97 | the code's real percentage `(rate - wage) / wage * 100` is at most k exactly when `(rate - wage) * 100 <= k * wage` |
| MatchScoring.OverByAtMostMonotone | src/components/shifts/EligibleWorkersList.jsx:97-105 | the decile thresholds are nested: within k1 % implies within k2 % for k1 <= k2 |
| MatchScoring.FirstDecile | src/components/shifts/EligibleWorkersList.jsx:97-106 | the smallest j (from a start) whose bound 10(j+1) % the rate is within, 9 if none |
| MatchScoring.WageScoreIsFirstDecile | src/components/shifts/EligibleWorkersList.jsx:94-107 | above the wage, the wage score is 90 - 10 j for the first decile j the excess falls in, with inclusive upper bounds |
| MatchScoring.WageScoreAntitone | src/components/shifts/EligibleWorkersList.jsx:88-107 | a higher rate never gets a higher wage score, for every wage |
| MatchScoring.TierScoreMonotone | src/components/shifts/EligibleWorkersList.jsx:111-123 | a lookup in a descending threshold table never decreases as the value grows |
| MatchScoring.TierScoreBounded | src/components/shifts/EligibleWorkersList.jsx:111-123 | a table lookup stays between 0 and any bound on the table's scores |
| MatchScoring.RatingScore | src/components/shifts/EligibleWorkersList.jsx:110-116 | a multiple of 10 in 0..50; 50 exactly from 4.5 up; 0 exactly below 2.5 |
| MatchScoring.RatingScoreIsTierLookup | src/components/shifts/EligibleWorkersList.jsx:111-116 | the rating score is the lookup in the table 4.5→50, 4.0→40, 3.5→30, 3.0→20, 2.5→10 |
| MatchScoring.RatingScoreMonotone | src/components/shifts/EligibleWorkersList.jsx:111-116 | a better rating never scores lower |
| MatchScoring.ExperienceScore | src/components/shifts/EligibleWorkersList.jsx:118-123 | a multiple of 5 in 0..20; 20 exactly from 20 reviews; 0 exactly below 1 |
| MatchScoring.ExperienceScoreIsTierLookup | src/components/shifts/EligibleWorkersList.jsx:119-123 | the experience score is the lookup in the table 20→20, 10→15, 5→10, 1→5 |
| MatchScoring.ExperienceScoreMonotone | src/components/shifts/EligibleWorkersList.jsx:119-123 | more reviews never score lower |
| MatchScoring.OrElse | src/components/shifts/EligibleWorkersList.jsx:129-130 | a missing or empty profile field falls back to the default text, any other value is kept |
| MatchScoring.RatingOrZero | src/components/shifts/EligibleWorkersList.jsx:82 | a stored rating is used as it is, a missing one counts as 0 |
| MatchScoring.ReviewsOrZero | src/components/shifts/EligibleWorkersList.jsx:83 | a stored review count is used as it is, a missing one counts as 0 |
| MatchScoring.ScoreWorker | src/components/shifts/EligibleWorkersList.jsx:79-137 | id, profession and rate copied; missing rating and reviews count as 0; match score = wage + rating + experience score, within 0..170; 40 without a wage, 100 at or below it; the shown name and username are the profile's own when present and non-empty, else "Ukjent navn" and "ukjent" |
| MatchScoring.ScoreAll | src/components/shifts/EligibleWorkersList.jsx:79-138 | one scored row per fetched worker, same order and length, each carrying that worker's id, profession, rate, rating and review count (a missing rating or count as 0) and that worker's shown name and username and scored from them, all within 0..170 |
| Ranking.CompareIsConsistent | src/components/shifts/EligibleWorkersList.jsx:142-148 | the comparator is antisymmetric; the order it induces is irreflexive and transitive, and two rows tie exactly when their (match score, rate) keys are equal |
| Ranking.Compare | src/components/shifts/EligibleWorkersList.jsx:142-148 | negative exactly when a goes before b (higher match score, or the same score and a lower rate), positive exactly when b goes before a, 0 exactly on equal (match score, rate) keys |
| Ranking.Insert | src/components/shifts/EligibleWorkersList.jsx:142-148 | inserting one row lengthens the list by one |
| Ranking.SortByMatch | src/components/shifts/EligibleWorkersList.jsx:142 | the sorted list is as long as the input; its meaning is given by SortByMatchCorrect and StableSortIsSortByMatch |
| Ranking.InsertPermutes | src/components/shifts/EligibleWorkersList.jsx:142-148 | insertion adds exactly the inserted row to the multiset |
| Ranking.InsertSorted | src/components/shifts/EligibleWorkersList.jsx:142-148 | insertion into a sorted list keeps it sorted |
| Ranking.InsertWithKey | src/components/shifts/EligibleWorkersList.jsx:142-148 | insertion places the new row after every row with the same key |
| Ranking.SortByMatchPermutes | src/components/shifts/EligibleWorkersList.jsx:142-148 | the sorted list is a permutation of the input |
| Ranking.SortByMatchSorted | src/components/shifts/EligibleWorkersList.jsx:142-148 | no row is ordered before an earlier row by the comparator |
| Ranking.SortByMatchStable | src/components/shifts/EligibleWorkersList.jsx:142-148 | rows with equal match score and rate keep their input order |
| Ranking.SortByMatchCorrect | src/components/shifts/EligibleWorkersList.jsx:142-148 | same length, a permutation, sorted, match scores non-increasing, rates non-decreasing among equal scores, and full ties in input order |
| Ranking.SortedStableUnique | src/components/shifts/EligibleWorkersList.jsx:142-148 | two sorted lists with the same per-key order are equal |
| Ranking.StableSortIsSortByMatch | src/components/shifts/EligibleWorkersList.jsx:142-148 | every sorted, stable rearrangement of the input is the modelled sort's output |
| Ranking.ShiftUp | src/components/shifts/EligibleWorkersList.jsx:142-148 | the elements from the stopping slot up to i each move one place up, every one of them ranks after x, the one below the slot does not, and the rest of the array is untouched |
| Ranking.InsertPastSuffix | src/components/shifts/EligibleWorkersList.jsx:142-148 | inserting x into a list whose elements from index j on all rank after x puts x among the first j and leaves the rest behind it |
| Ranking.InsertBack | src/components/shifts/EligibleWorkersList.jsx:142-148 | shifting a[i] back into the sorted prefix yields the insertion of it into that prefix; the rest of the array is untouched |
| Ranking.SortInPlace | src/components/shifts/EligibleWorkersList.jsx:142-148 | the array ends up holding the sorted list of its old contents |
| Ranking.RankWorkers | src/components/shifts/EligibleWorkersList.jsx:79-150 | the shown list is the sorted scored list: same length as the fetched list, a permutation of its scored rows, sorted, every row scored correctly within 0..170 |
| NotificationPrefs.Toggled | src/components/shifts/EligibleWorkersList.jsx:27-35 | flips only the clicked channel of the clicked worker (an unset flag becomes on), keeps its other flags and every other worker |
| NotificationPrefs.ToggleTwice | src/components/shifts/EligibleWorkersList.jsx:27-35 | toggling a stored flag twice restores the preferences |
| NotificationPrefs.Shown | src/components/shifts/EligibleWorkersList.jsx:243 | a checkbox shows on unless a false flag is stored for that worker and channel; a worker or channel with nothing stored shows on (the same read at lines 253 and 263) |
| NotificationPrefs.ToggleFlipsShown | src/components/shifts/EligibleWorkersList.jsx:27-35 | for a stored flag, exactly the clicked checkbox changes what it shows |
| NotificationPrefs.ToggleUnknownWorker | src/components/shifts/EligibleWorkersList.jsx:27-35 | a worker with no entry shows all boxes on, and the first click stores the clicked box as on |
| NotificationPrefs.InitThenToggle | src/components/shifts/EligibleWorkersList.jsx:15-35 | after initialisation, a click turns a listed worker's box off and a second click restores all |
| NotificationPrefs.NotificationPanel.constructor | src/components/shifts/EligibleWorkersList.jsx:12 | the panel starts with no preferences |
| NotificationPrefs.NotificationPanel.InitNotificationPrefs | src/components/shifts/EligibleWorkersList.jsx:15-25 | the preferences hold exactly the listed workers' ids, each with email, SMS and push on |
| NotificationPrefs.NotificationPanel.ToggleNotification | src/components/shifts/EligibleWorkersList.jsx:27-35 | the new preferences are the toggled old ones |
| PersonalNumber.Clean | src/utils/personalNumber.js:19 | the result has no white space or dash and is no longer than the input |
| PersonalNumber.CleanKeepsOthers | src/utils/personalNumber.js:19 | a character occurs in the cleaned string exactly when it occurs in the input and is not white space or a dash |
| PersonalNumber.CleanExample | src/utils/personalNumber.js:19 | a dash between digits is removed and the digits stay in order: "12-34" cleans to "1234" |
| PersonalNumber.CleanKeepsPlain | src/utils/personalNumber.js:19 | a string without separators is unchanged by cleaning |
| PersonalNumber.CleanAppend | src/utils/personalNumber.js:19 | cleaning a concatenation cleans each part and joins them, so the kept characters stay in their order |
| PersonalNumber.CleanIdempotent | src/utils/personalNumber.js:19 | cleaning twice equals cleaning once |
| PersonalNumber.ParseInt | src/utils/personalNumber.js:27-29 | a non-empty string of digits parses to its decimal value; the empty string is NaN |
| PersonalNumber.ControlDigit | src/utils/personalNumber.js:54-55 | the control digit is in 0..10 and makes the sum plus the digit divisible by 11 |
| PersonalNumber.WeightedSum | src/utils/personalNumber.js:48-53 | the closed form of the summing loops; never negative for digits and non-negative weights |
| PersonalNumber.ChecksumsValid | src/utils/personalNumber.js:54-70 | when both control digits match, each weighted sum plus its control digit is divisible by 11 |
| PersonalNumber.ControlDigitUnique | src/utils/personalNumber.js:54-57 | a digit matches the computed control digit exactly when it completes the sum to a multiple of 11 |
| PersonalNumber.ChecksumsValidIffMod11 | src/utils/personalNumber.js:45-71 | both control digits match exactly when both weighted sums are multiples of 11 (K1 weights over digits 0-8 plus digit 9, K2 weights over digits 0-9 plus digit 10); a computed 10 never matches |
| PersonalNumber.ValidateChecksums | src/utils/personalNumber.js:45-71 | the two summing loops decide exactly whether both control digits are valid |
| PersonalNumber.IsValidPersonalNumber | src/utils/personalNumber.js:17-38 | a valid number always has a gender and a birth date, with day in 1..31 and month in 1..12 |
| PersonalNumber.ValidatePersonalNumber | src/utils/personalNumber.js:17-38 | accepts exactly valid numbers; rejects anything not 11 digits once cleaned; accepted ones have day 1..31 and month 1..12 |
| PersonalNumber.ValidIffMod11 | src/utils/personalNumber.js:17-71 | validity is: 11 digits after cleaning, day 1..31, month 1..12, and both mod-11 sums zero |
| PersonalNumber.ValidIgnoresSeparators | src/utils/personalNumber.js:19-24 | a string validates exactly when its cleaned form does |
| PersonalNumber.FormatPersonalNumber | src/utils/personalNumber.js:78-84 | for 11 cleaned characters: 12 characters, a space at position 6, and the rest equal to the cleaned string; otherwise the input unchanged |
| PersonalNumber.FormatKeepsCleanedForm | src/utils/personalNumber.js:78-84 | cleaning the formatted number gives back the cleaned input |
| PersonalNumber.FormatKeepsValidity | src/utils/personalNumber.js:78-84 | formatting never changes whether a number validates |
| PersonalNumber.MaskPersonalNumber | src/utils/personalNumber.js:186-192 | for 11 cleaned characters: six asterisks, a space and the last five cleaned characters; otherwise exactly eleven asterisks |
| PersonalNumber.MaskMatchesFormatTail | src/utils/personalNumber.js:186-192 | the mask shows the same tail as the formatted number |
| PersonalNumber.GenderOf | src/utils/personalNumber.js:122-130 | a gender is given exactly when the cleaned length is 11 |
| PersonalNumber.GenderIsParity | src/utils/personalNumber.js:128-129 | for 11 digits, female exactly for an even individual number, male for an odd one |
| PersonalNumber.BirthDateOf | src/utils/personalNumber.js:91-115 | no date (null) exactly when the cleaned length is not 11 |
| PersonalNumber.BirthYearRanges | src/utils/personalNumber.js:97-114 | for 11 digits: day and month as written; year 1900+YY for 0-499 and 900-999, 2000+YY or 1900+YY for 500-749 (YY below 40 or not), bare YY for 750-899 |
| PersonalNumber.CenturyYear | src/utils/personalNumber.js:106-112 | the full year keeps the two-digit year; 0-499 and 900-999 give 1900-1999, 500-749 give 2000-2039 below 40 and 1940-1999 from 40, and 750-899 add no century |
| PersonalNumber.BirthDateOfPlain | src/utils/personalNumber.js:97-114 | a plain 11-digit number decodes to its day, month and the century-adjusted year |
| PersonalNumber.MockIndividual | src/utils/personalNumber.js:143-149 | the individual number is odd for male, even for female, the draw itself for any other gender, and at most one more than the draw |
| PersonalNumber.TwoDigits | src/utils/personalNumber.js:139-141 | the zero-padded text is two digits denoting the number |
| PersonalNumber.ThreeDigits | src/utils/personalNumber.js:150 | the zero-padded text is three digits denoting the number |
| PersonalNumber.MockPrefix | src/utils/personalNumber.js:153 | the date and individual number make nine digits |
| PersonalNumber.MockControl | src/utils/personalNumber.js:162-164 | the mock's control digit is always a digit 0..9 |
| PersonalNumber.MockPersonalNumber | src/utils/personalNumber.js:138-179 | the mock is always eleven digits |
| PersonalNumber.GenerateMockPersonalNumber | src/utils/personalNumber.js:138-179 | the two summing loops compute the mock number |
| PersonalNumber.MockFields | src/utils/personalNumber.js:139-153 | a mock needs no cleaning and carries the given day, month, two-digit year and individual number |
| PersonalNumber.MockGender | src/utils/personalNumber.js:143-150 | the mock's gender reads back as the requested one |
| PersonalNumber.MockIsValid | src/utils/personalNumber.js:152-178 | when neither raw control digit is 10, the mock passes the checksum test and the full validator |
| PersonalNumber.MockBirthDateDecodes | src/utils/personalNumber.js:139-153 | the mock decodes to its day and month and the year its individual number implies |
| PersonalNumber.MockBirthDate | src/utils/personalNumber.js:139-153 | a mock for a 1900s date with individual number up to 499 decodes to that date |
| PersonalNumber.MockFemaleDraw499 | src/utils/personalNumber.js:144-149 | a female draw of 499 becomes 500 and a 1900-1939 birth decodes 100 years late |
| Availability.Without | src/pages/workers/PostAvailability.jsx:63 | every occurrence of the type is removed and every other type is kept |
| Availability.WithoutAbsent | src/pages/workers/PostAvailability.jsx:63 | removing a type that is not there changes nothing |
| Availability.WithoutAppend | src/pages/workers/PostAvailability.jsx:63-64 | removal distributes over concatenation |
| Availability.ToggleShiftType | src/pages/workers/PostAvailability.jsx:55-67 | the type becomes selected exactly when it was not; an absent type is appended at the end; a present one is removed; other types keep their order; other fields are unchanged |
| Availability.ToggleAbsentTwice | src/pages/workers/PostAvailability.jsx:55-66 | toggling an unselected type twice restores the form |
| Availability.TogglePresentTwice | src/pages/workers/PostAvailability.jsx:55-66 | toggling a selected type twice leaves the other types in order and one copy of it at the end |
| Availability.Submit | src/pages/workers/PostAvailability.jsx:74-103 | a record is built exactly when there is a worker id, a backend, a shift type and a date, whatever the recurrence fields hold; otherwise the first failing guard in source order (worker id, backend, shift types, date) gives the error; a record carries the worker, the day, the recurrence fields only when recurring, the shift types, the notes and status "available" |
| Availability.ValidFormSubmits | src/pages/workers/PostAvailability.jsx:125-133 | the record made from a valid recurring form, once there is a worker id and a backend, carries a non-empty recurrence pattern and end date |
| Availability.IsFormValid | src/pages/workers/PostAvailability.jsx:125-133 | a form that passes the test is accepted for every non-empty worker id once the backend is there |
| Availability.EmptyForm | src/pages/workers/PostAvailability.jsx:10-17 | the initial form has no shift type and is not recurring, fails the validity test, and a first click selects exactly the clicked type |
| Availability.EmptyFormThenToggle | src/pages/workers/PostAvailability.jsx:10-17 | the initial form is invalid; a date and one toggled type make it valid |
| DemoSession.FindById | src/api/mockData.js:84 | a found user is in the list with that id; none exactly when no user has it |
| DemoSession.FindByIdUnambiguous | src/api/mockData.js:83-85 | with distinct ids, looking up any listed user's id finds that user |
| DemoSession.DemoIdsDistinct | src/api/mockData.js:5-57 | the demo personas have distinct ids |
| DemoSession.GetUserById | src/api/mockData.js:83-85 | a user is found exactly when a demo user has that id, and it is that user |
| DemoSession.GetAllUsers | src/api/mockData.js:79-81 | exactly the demo users, as many as there are, and every listed user is found again by its id |
| DemoSession.Session.constructor | src/api/mockData.js:61 | the storage slot starts empty |
| DemoSession.Session.StoredUserId | src/api/mockData.js:63-69 | the stored id when storage works and holds a non-empty id, the default employer's id otherwise |
| DemoSession.Session.CurrentUser | src/api/mockData.js:87-90 | always a demo user; the one with the stored id if there is one, otherwise the default employer |
| DemoSession.Session.SetCurrentUser | src/api/mockData.js:92-104 | an unknown id leaves the slot unchanged; a known id is stored when storage works, and then is the current user |
| DemoSession.UserIdNotEmpty | src/api/mockData.js:63-65 | no demo id is empty, so a stored one is never replaced by the default |
| DemoSession.DefaultUser | src/api/mockData.js:87-90 | with nothing stored, or an unknown id stored, the current user is the default employer |

## Left out

- MatchScoring.WageScore: the code compares a floating-point percentage, the model compares exactly in integers; IEEE rounding of the division and multiplication is not modelled, so agreement at the exact decile bounds is not proved.
- JavaScript values outside the modelled types are not modelled: a non-numeric rating or review count, a non-integer rate, or a `null` worker list (taken as the empty list).
- The database query, the insert, their errors and the React state setters and rendering are not modelled; `Availability.Submit` stops at the record it would insert.
- Availability.Submit: the start and end times are not computed; the record carries the day. In the code, `new Date(date)` reads the "YYYY-MM-DD" string as UTC midnight and `setHours` then sets local midnight and 23:59:59.999, so the times cover the local day that contains UTC midnight of the chosen date. West of UTC that is the day before (at UTC-5, "2024-05-10" gives 9 May). Only the empty date, which makes `toISOString` throw, is modelled as an error; other unparseable dates are not.
- Availability.AvailabilityForm: `shiftTypes` is always a list (the page never sets it to `null`), so the `|| []` fallback has no modelled case.
- PersonalNumber.BirthDateOf: returns the arguments given to the `Date` constructor (year, 1-based month, day). `Date`'s own normalisation (day 31 of a 30-day month rolling over, years 0-99 read as 1900-1999) is not modelled.
- PersonalNumber.GenerateMockPersonalNumber: the random draw `Math.floor(Math.random() * 500)` is a parameter in 0..499, and the birth date is given as day, month and a four-digit year (1000-9999); `String(year).substring(2)` on other years is not modelled. The default arguments (1 January 1990, male) are not modelled; callers pass the date and gender explicitly.
- PersonalNumber.FormatPersonalNumber: the 11-character test counts characters (Unicode scalar values), while JavaScript's `length` counts UTF-16 code units; a cleaned input holding a character outside the Basic Multilingual Plane (nine digits and an emoji, say) has a different length in the two, so the model and the code can take different branches on it.
- PersonalNumber.MaskPersonalNumber: the same character-count versus UTF-16-length difference as FormatPersonalNumber in its 11-character test.
- PersonalNumber.GenderOf: the same character-count versus UTF-16-length difference as FormatPersonalNumber in its 11-character test.
- PersonalNumber.BirthDateOf: the same character-count versus UTF-16-length difference as FormatPersonalNumber in its 11-character test.
- PersonalNumber.ParseInt: leading white space, which `parseInt` skips, never reaches it here because the input is cleaned first.
- DemoSession.User: only the fields every persona shares are modelled (municipality, department, cost centre, permissions, HPR number, locations and the rest are left out).
- DemoSession.Session: local storage is one slot plus one flag saying whether storage can be used; a store that fails while reads work is not distinguished. The development-mode warning and the console messages are left out.

