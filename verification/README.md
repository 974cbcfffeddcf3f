# Attendance tracker: roster and attendance state engine

This is a Dafny model of the state engine behind the single-page
attendance tracker in `web.js`. The page keeps one global `state` object
with two parts:

- `classes` maps a class name to the ordered list of its students
  (`{ name, id }`).
- `attendance` maps a date to a class name, and that class name to a
  student name with a presence flag.

Two event handlers change this state:

- the *add student* button, which enrolls a student;
- the *save attendance* button, which stores the ticks of the sheet on
  screen.

Everything else is derived from the state:

- the roster listing and the class drop-down;
- the name autocomplete;
- the attendance sheet for a class and date;
- the dates the calendar marks;
- the per-class summary shown when a calendar day is clicked.

The model follows the code's structure:

| file | module | what it holds |
|---|---|---|
| `wrappers.dfy` | `Wrappers` | `Option` |
| `strings.dfy` | `Strings` | `trim`, `toLowerCase` and `includes` as pure functions, with their specifications |
| `ordered_map.dfy` | `OrderedMap` | a JavaScript plain object as a map plus key insertion order, since `Object.keys`, `Object.values` and `Object.entries` enumerate in that order |
| `roster.dfy` | `Roster` | students and classes, the class an enrollment targets, the roster labels and the overview's name lookup |
| `names.dfy` | `Names` | `getAllStudentNames` and the suggestion filter |
| `attendance.dfy` | `Attendance` | the attendance record, the presence object a save builds, the replacement a save performs, the marked dates |
| `session.dfy` | `Session` | the state, the two handlers as pure functions `State -> Step` (new state plus the alert raised), and the attendance sheet |
| `session_lemmas.dfy` | `SessionLemmas` | properties relating several handler calls |
| `stats.dfy` | `Stats` | the day overview: counts, rounded percentage, display lines |
| `scenario.dfy` | `Scenario` | one worked session, from page load to the overview of a day |

A handler that alerts an error returns the state unchanged, as the source
does by returning early.

The save handler reads the sheet rows that are on screen. These rows are
a parameter of `Session.Save`. `Session.Sheet` is what the page renders for
the selected class and date, so `SessionLemmas.SheetRoundTrip` and
`SessionLemmas.SaveSheetIdempotent` state what happens when exactly those
rows are saved.

Three behaviours of the code are worth stating plainly:

- The autocomplete name list is in first-occurrence order, not sorted,
  because `new Set` keeps insertion order.
- Sheet rows carry only a name and a checkbox, with no id. Presence is
  therefore keyed by name only, so two students of a class with the same
  name share one presence entry, and the last row with that name decides
  it.
- A save does not require the rows to carry the roster's names. It stores
  whatever rows are shown.

## Model

| member | source | states |
|---|---|---|
| Strings.TrimSpec | web.js:22 | `trim` returns a contiguous slice of its input that neither starts nor ends with white space, and everything cut off on either side is white space |
| Strings.BlankIffAllSpace | web.js:21-23 | a field fails the required-value test exactly when every character of it is white space |
| Strings.TrimUnchanged | web.js:41-42 | a value with no white space at either end is stored as typed |
| Strings.Lower | web.js:89 | lower-casing keeps the length, leaves no upper-case ASCII letter, moves each upper-case letter 32 code points on to its lower-case partner and keeps every other character |
| Strings.LowerIdempotent | web.js:89 | lower-casing an already lower-cased value changes nothing |
| Strings.ContainsIffOccurs | web.js:96 | `includes` holds exactly when the query occurs at some position of the name |
| OrderedMap.Put | web.js:45 | assigning a property sets its value, leaves every other property alone, and appends the key to the enumeration order only when it is new |
| OrderedMap.PutPut | web.js:214 | assigning the same property twice is the same as assigning the second value once |
| OrderedMap.PutOrder | web.js:213-214 | assignment keeps the relative order of the keys already present, and a new key comes last |
| Roster.TargetClass | web.js:39 | the target class is the trimmed class field, or "Unnamed Class" when that field is blank, and is never empty |
| Roster.AddStudent | web.js:45-46 | the class gets the student appended at its end and is created when absent; every other class is unchanged; a class that exists keeps its position in the class order |
| Roster.ClassNames | web.js:153-160 | the drop-down offers every class on the roster and nothing else, each once |
| Roster.Label | web.js:139 | a roster line is the bare name exactly when the student has no id, and `name (id)` otherwise |
| Roster.FindFirst | web.js:284 | `find` returns the first student with that name, and returns nothing exactly when no student of the class has it |
| Roster.DisplayName | web.js:284-285 | the overview shows the bare name exactly when no student of the class has that name or the first such student has no id; otherwise it shows `name (id)` with that first student's id |
| Names.NamesOver | web.js:80-84 | the names fed to the set are exactly the names of the students of the listed classes |
| Names.Collect | web.js:79-85 | the listed set holds each non-empty fed name exactly once, and nothing else |
| Names.CollectOrder | web.js:79-85 | two collected names appear in the order of their first occurrences among the fed names |
| Names.AllStudentNames | web.js:78-86 | `getAllStudentNames` lists every non-empty name of a student of some class, each exactly once, and nothing else |
| Names.Matching | web.js:96 | the filter keeps exactly the candidates whose lower-cased form contains the query, without repeating any |
| Names.MatchingOrder | web.js:96 | the filter keeps the candidates' relative order |
| Names.Suggestions | web.js:88-96 | a blank field suggests nothing; otherwise the suggestions are exactly the enrolled names containing the trimmed field case-insensitively, each once |
| Attendance.LastIndex | web.js:216-220 | finds the last row carrying a name, and finds nothing exactly when no row carries it |
| Attendance.PresenceOf | web.js:214-220 | the presence object built from the rows gives each name the flag of the last row carrying it, and has no entry for a name no row carries |
| Attendance.PresenceNames | web.js:214-220 | the presence object has an entry for exactly the names of the rows |
| Attendance.PresenceOrder | web.js:214-220 | the presence object lists names in the order each first appears among the rows |
| Attendance.OnlyRowFlag | web.js:216-220 | a name carried by one row only gets that row's flag |
| Attendance.SavedPresence | web.js:172 | the optional-chaining lookup yields a presence object exactly when the date and the class are both recorded, and then it is the one recorded for that class on that date |
| Attendance.Replace | web.js:213-214 | after the save the class's presence on that date is the new object whatever it was before; the other classes of that date and all other dates are unchanged; a new date is appended to the date order; a class already recorded on that date keeps its place in the date's class order and a new one is appended to it |
| Attendance.ReplaceAddsOnly | web.js:213-214 | a save adds no empty date, and the only class it can add to any date is the saved one |
| Attendance.ReplaceTwice | web.js:214 | saving the same class and date twice leaves what the second save alone leaves |
| Attendance.MarkedDates | web.js:242-249 | the calendar marks every date of the record and nothing else, each once |
| Session.Init | web.js:4-7 | the page starts with no classes and no records, a state satisfying the invariant |
| Session.Enroll | web.js:33-46 | the name-required alert is raised exactly for a blank name field and then nothing changes; otherwise the trimmed name and id are appended as a new student to the target class, the class order grows only by a new class, and other classes and the attendance record are untouched |
| Session.EnrollPreservesInv | web.js:33-46 | enrollment keeps the invariant: every class has a student, every recorded date has a class, every recorded class is on the roster |
| Session.Sheet | web.js:163-191 | no rows without a class, a date or students; otherwise one row per student in roster order, ticked exactly when the saved presence for that class and date marks the name true |
| Session.Save | web.js:199-222 | the class alert is raised exactly when no class with students is selected, the date alert exactly when only the date is missing, and the confirmation exactly otherwise; an alert other than the confirmation leaves the state unchanged; a save replaces that class's presence on that date by the one the rows build, keeps the class's place in that date's class order or appends it when new, touches nothing else, and marks the date |
| Session.SavePreservesInv | web.js:199-220 | saving keeps the invariant |
| SessionLemmas.LastSaveWins | web.js:213-214 | a second save of the same class and date discards the first: the outcome is that of the second save alone |
| SessionLemmas.SaveThenSheet | web.js:172-181 | after a save, each sheet row of that class and date is ticked exactly when the last saved row with that name was ticked |
| SessionLemmas.SheetRoundTrip | web.js:172-184 | saving rows named like the roster, with distinct names, and reopening the sheet shows exactly the saved rows |
| SessionLemmas.SaveSheetIdempotent | web.js:172-184 | saving the sheet as shown and reopening it shows the same sheet, duplicate names included |
| SessionLemmas.EnrollAppendsInOrder | web.js:45-46 | after any series of enrollments each class lists the students it had, then one student per accepted form aimed at it, in submission order |
| SessionLemmas.ClassOrder | web.js:153-160 | from page load, the drop-down lists the classes in the order the first accepted form aimed at each arrived: exactly the insertion order of a `Set` fed with the target classes of the accepted forms |
| SessionLemmas.MarkedAfterSaves | web.js:213 | after any series of saves a date is marked exactly when it was marked before or some accepted save was for it, whatever the order of the saves |
| Stats.FlagsOver | web.js:272 | the flags of the given keys, in the order of the keys |
| Stats.CountTrue | web.js:272 | `filter(Boolean).length` counts the true flags; it equals the flag count exactly when all flags are set and is zero exactly when none is |
| Stats.Percent | web.js:273 | the percentage is at most 100, is 0 for an empty class, and is otherwise the whole number nearest to `present / total * 100`, a half rounded up |
| Stats.CountMatchesNames | web.js:272 | over keys without repeats, the true flags number the names marked present |
| Stats.CountsOfPresence | web.js:271-272 | the present count is the number of names marked present, and the total is the number of recorded names |
| Stats.Report | web.js:266-298 | a class summary counts the recorded students and the present ones, gives the percentage `Stats.Percent` rounds from those two counts, and has one line per recorded student in the presence object's order, with its display name and flag |
| Stats.DayReport | web.js:252-266 | an unrecorded date shows nothing; a recorded date shows one summary per recorded class in the order the classes were first saved for it, and never an empty list |
| Scenario.AvaAndBen | web.js:33-298 | Ava with id S1 and Ben with no id join CS101, Ben through a padded class field; Ava is saved present and Ben absent on 2024-03-01; the overview of that day shows CS101 at 1 of 2 present, 50%, with the lines "Ava (S1)" present and "Ben" absent |
| Scenario.ThreeOfFour | web.js:273 | three present out of four rounds to 75% |

## Left out

- DOM rendering, `alert` dialogs as UI, focus and blur handling and the `setTimeout` in the suggestion box are left out. The model keeps the alert as a value of the handler's result.
- Clearing the name and id inputs after an enrollment (web.js:48-49) is left out, because form fields are not part of the modelled state.
- The FullCalendar event objects are left out: their ids, background colour, `display: 'background'`, rendering, sizing and `refetchEvents`. The model keeps the list of marked dates. The `needsRefetch` and `calendarRendered` flags and `showPage` are navigation state with no bearing on the data.
- The day-cell highlight of the last clicked date (web.js:256-258) is left out, because it is presentation only.
- The suggestion box's click-to-fill handler (web.js:107-111) is left out, because it only copies a suggestion into the input field.
- Stats.Percent: the source computes `Math.round((present / total) * 100)` in floating point. The model uses the exact ratio with halves rounded up. The two can differ only where the exact percentage is a whole number plus one half and the floating-point product rounds to just below it; that rounding error is not modelled.
- Strings.Lower: only ASCII letters are lower-cased. Full Unicode `toLowerCase` is not modelled, including multi-character results and locale-independent special cases.
- Strings are sequences of Unicode scalar values, not UTF-16 code units. Trimming and substring search agree on both representations for the characters involved, but lengths of astral characters differ.
- JavaScript enumerates integer-like keys (for example a class named "2024") in ascending numeric order before all other keys. The model keeps plain insertion order for every key.
- Keys inherited from `Object.prototype` are not modelled: a class or student named `constructor`, `toString` or `__proto__` makes the source read an inherited property (for example `state.classes["constructor"]` is a function, so the `push` on web.js:46 throws). The model treats every string as an ordinary own key.
- `requireValue` reads a DOM input. The model applies it to the field's string.
- Session.Save takes the sheet rows as a parameter rather than reading `.attendance-row` elements from the document. It assumes those elements are exactly the rows of the last rendered sheet, which is what `SessionLemmas.SheetRoundTrip` and `SessionLemmas.SaveSheetIdempotent` are stated about.
- Roster.DisplayName requires the class to be on the roster. The source would throw on web.js:284 otherwise. `Session.Inv` guarantees that every recorded class is on the roster, and `Stats.DayReport` requires it.
