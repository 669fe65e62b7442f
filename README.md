# felicaStudentIDReader in Dafny

A verified model of the deterministic core of `felicaStudentIDReader.rb`, a
Ruby script that checks students in when they touch a FeliCa card on a
Pasori reader. At start-up the script works out the current class period
from the wall clock (`getAcademicTime`) and names the day's attendance file
after the date and that period. It loads the roster `students.csv`
(`StudentDB::Load`) and opens the attendance store (`AttendanceDB`), which
rebuilds its hash by replaying the period's file if one exists. It then
handles every card id the reader yields:

- a roster card not yet checked in is stored (one tab-separated line is
  appended to the file) and greeted;
- a roster card already checked in gets "already authorised", with a
  shorter notice that does not speak the name when it is also the
  previous card read;
- any other card is meant to be reported as an unknown card (as written
  the script stops there; see Findings).

The card id is remembered as `prev_idm` after each read.

Modules, leaf first:

- `Base`: Option and Result.
- `Text`: Ruby's `chop`, `split` (trailing empty fields dropped) and
  `join`, `puts` line termination, and decimal numbers with and without
  zero padding, with their round trips.
- `Timestamp`: the `Time` record, `strftime("%Y-%m-%d-%a %H:%M:%S")`, and
  the `split(/[\s\-\:]/)` plus `Time.mktime` that reads it back.
- `AcademicTime`: `ACADEMIC_TIME`, the margins, `getAcademicTime` and the
  output file name.
- `LineLoad`: the shared shape of the two file-loading loops (skip
  comment and blank lines, set one hash entry per line, a raise stops the
  load). It has a reference fold and a loop method proved equal to it.
- `Records`: `Student`, `Attendance`, the roster line and the attendance
  line, in both directions.
- `StudentDB`: the roster load.
- `AttendanceStore`: class `AttendanceDB`, with a `map` field for
  `@attendance` and a `seq` field for the file's lines.
- `CheckIn`: the per-read dispatch, as a pure `Step` over (store, file,
  `prev_idm`) and as class `Reader`, whose `OnRead` method updates the
  store and `prevIdm`.

The clock, the file system and the card reader are parameters:

- `now` stands for `Time.new`.
- An `Option<seq<string>>` stands for "the file exists, with these lines".
- A card id is a plain string argument.

## Model

| member | source | states |
|---|---|---|
| Text.Chop | felicaStudentIDReader.rb:99 | `chop` returns the line without its last two characters when they are CR LF, without its last character otherwise, and "" for "" |
| Text.PutsLine | felicaStudentIDReader.rb:126 | `puts` writes a line that ends in a newline, and leaves the line unchanged exactly when it already ends in one |
| Text.ChopPuts | felicaStudentIDReader.rb:126 | chopping a line written by `puts` gives back the line when it holds no CR or LF |
| Text.Fields | felicaStudentIDReader.rb:100 | the raw split has at least one field, and no field contains a separator |
| Text.DropTrailingEmpty | felicaStudentIDReader.rb:100 | Ruby's split keeps a prefix of the raw fields that does not end in an empty field; everything dropped is empty |
| Text.Join | felicaStudentIDReader.rb:125 | `join` starts with the first field, puts the separator right after it when there are more, and is as long as all fields plus one separator between each two |
| Text.Split | felicaStudentIDReader.rb:71 | `split` gives fields without separators and without an empty last field; "" gives no field, and a non-empty string without separators gives itself |
| Text.FieldsFree | felicaStudentIDReader.rb:100 | a string with no separator splits into itself alone |
| Text.FieldsGlue | felicaStudentIDReader.rb:101 | a separator after a separator-free field closes exactly that field |
| Text.FieldsJoin | felicaStudentIDReader.rb:125 | the raw split of a join of separator-free fields is those fields |
| Text.SplitJoin | felicaStudentIDReader.rb:125 | `split` after `join` returns the fields up to the last non-empty one |
| Text.JoinFree | felicaStudentIDReader.rb:125 | joining fields free of some characters, with a separator outside them, stays free of them |
| Text.JoinHead | felicaStudentIDReader.rb:125 | a join starts with the first character of its first field |
| Text.JoinTwo | felicaStudentIDReader.rb:125 | a join of three or more fields is the first field, the separator, the second field, the separator, then the join of the rest |
| Text.SplitHead | felicaStudentIDReader.rb:100 | whatever follows them, two leading separator-free fields, the second non-empty, come back as the first two fields of `split` |
| Text.GlueFree | felicaStudentIDReader.rb:124 | gluing two strings with a separator keeps out every character neither they nor the separator hold |
| Text.ParseDecimal | felicaStudentIDReader.rb:102 | a token is read as a number exactly when it is a non-empty run of digits |
| Text.Decimal | felicaStudentIDReader.rb:182 | `to_s` of a natural number is a non-empty digit string with no leading zero |
| Text.Padded | felicaStudentIDReader.rb:124 | a zero-padded `strftime` number has only digits and at least the requested width |
| Text.DecimalValue | felicaStudentIDReader.rb:182 | the digits of `to_s` denote the number |
| Text.LeadingZeros | felicaStudentIDReader.rb:102 | leading zeros do not change the number a digit string denotes |
| Text.ZerosValue | felicaStudentIDReader.rb:102 | a string of zeros denotes 0 |
| Text.DecimalRoundTrip | felicaStudentIDReader.rb:182 | reading `to_s` back gives the number |
| Text.PaddedRoundTrip | felicaStudentIDReader.rb:124 | reading a zero-padded number back gives the number |
| Timestamp.DaysInMonth | felicaStudentIDReader.rb:102 | every month has 28 to 31 days |
| Timestamp.ToSecond | felicaStudentIDReader.rb:124 | truncation drops only the sub-second part and keeps a valid time valid |
| Timestamp.Weekday | felicaStudentIDReader.rb:124 | the `%a` weekday index is below 7 |
| Timestamp.MkTime | felicaStudentIDReader.rb:102 | the result exists exactly when month is 1-12, day 1-31, hour below 24 and minute and second below 60, and it is then a valid whole-second time with the given hour, minute and second that equals the given date whenever that date is valid |
| Timestamp.ParseStamp | felicaStudentIDReader.rb:101-102 | a parsed time is valid and has no sub-second part |
| Timestamp.DigitsFree | felicaStudentIDReader.rb:124 | digit strings hold no separator of either file |
| Timestamp.DayNameFree | felicaStudentIDReader.rb:124 | weekday names hold no separator of either file |
| Timestamp.Format | felicaStudentIDReader.rb:124 | the written time has no tab, comma or line break, and starts with a digit |
| Timestamp.DateStem | felicaStudentIDReader.rb:182 | the date part of the file name has no `/` and ends in `-` |
| Timestamp.StampRoundTrip | felicaStudentIDReader.rb:124 | splitting and `mktime` of the written time give the original time, to the second |
| Timestamp.StampTokens | felicaStudentIDReader.rb:101 | the written time splits into the seven fields `strftime` wrote: year, month, day, weekday, hour, minute, second |
| Timestamp.ClockFields | felicaStudentIDReader.rb:101 | `%H:%M:%S` splits into its three numbers |
| Timestamp.DateFields | felicaStudentIDReader.rb:101 | `%Y-%m-%d-%a ` gives four fields ahead of those of the text that follows |
| AcademicTime.ScanFrom | felicaStudentIDReader.rb:55-63 | the scan from entry i returns the first entry from i on whose window holds the time, or 0 when there is none |
| AcademicTime.GetAcademicTime | felicaStudentIDReader.rb:52-64 | the result is an index of the table; it is the smallest index whose window holds h*60+m, or 0 when no window does |
| AcademicTime.PeriodOf | felicaStudentIDReader.rb:52-54 | with the default margins, the period is an index of the table; a nonzero period's window holds the time; and when the window of some period after entry 0 holds the time, the result is a nonzero period no later than that one |
| AcademicTime.SessionFileName | felicaStudentIDReader.rb:182-186 | the file name has no `/`, is the date stem, then digits, then `.csv`, and the digits read back as the period |
| AcademicTime.OverlapEarlierWins | felicaStudentIDReader.rb:38-49 | 10:30 lies in the windows of entries 1 and 2, and entry 1 is returned |
| AcademicTime.NightIsOutside | felicaStudentIDReader.rb:55-63 | with the default margins, every time from 01:31 to 08:49 gives 0 |
| AcademicTime.FirstPeriodWindow | felicaStudentIDReader.rb:40 | with the default margins, every time from 08:50 to 10:30 gives period 1 |
| AcademicTime.FileNameFixesPeriod | felicaStudentIDReader.rb:182-186 | on one date, two output file names are equal exactly when the periods are |
| LineLoad.IsComment | felicaStudentIDReader.rb:70 | a line starting with `#` is a comment, and a line with no line feed before its last character is a comment only when it starts with `#` |
| LineLoad.IsBlank | felicaStudentIDReader.rb:99 | a line is blank exactly when it has at most one character or is a bare CR LF |
| LineLoad.Load | felicaStudentIDReader.rb:98-104 | a failed load names a line of the file |
| LineLoad.Apply | felicaStudentIDReader.rb:98-104 | folding the line effects fails only at one of the lines |
| LineLoad.LoadLines | felicaStudentIDReader.rb:98-104 | the one-pass loop over the lines, leaving at the first raise, computes the reference fold |
| LineLoad.LoadStopsAt | felicaStudentIDReader.rb:98-104 | once a prefix of the file stops the load, the whole file stops it at the same line |
| LineLoad.ApplyStopsAt | felicaStudentIDReader.rb:98-104 | once a prefix of the effects stops the fold, all of them stop it at the same place |
| LineLoad.EffectsPrefix | felicaStudentIDReader.rb:98-104 | the effects of a prefix of the file are the prefix of the file's effects |
| LineLoad.LoadAppend | felicaStudentIDReader.rb:103 | one more line applies its effect to the hash built so far |
| LineLoad.LoadLastWins | felicaStudentIDReader.rb:103 | a loaded hash holds exactly the keys some line sets, each with the value from the last line for that key |
| LineLoad.ApplyLastWins | felicaStudentIDReader.rb:103 | a successful fold holds exactly the keys some effect sets, each with the value of the last effect that sets it |
| LineLoad.LoadStopsAtFirstAbort | felicaStudentIDReader.rb:98-104 | a load fails exactly when some line raises, and it names the first such line |
| LineLoad.ApplyStopsAtFirstAbort | felicaStudentIDReader.rb:98-104 | a fold fails exactly when some effect raises, and it names the first such effect |
| LineLoad.SkippedLineIsNoOp | felicaStudentIDReader.rb:99 | a comment or blank line leaves the hash unchanged |
| Records.StudentEffect | felicaStudentIDReader.rb:71-73 | a roster line sets an entry exactly when it has at least four fields, keyed by its first field, the student's idm |
| Records.StudentRoundTrip | felicaStudentIDReader.rb:71-72 | a roster line written from a student reads back as that student, keyed by its idm |
| Records.StudentLineKept | felicaStudentIDReader.rb:70 | a roster line written from a student is neither a comment nor blank, and `chop` leaves its joined fields |
| Records.StudentFieldsBack | felicaStudentIDReader.rb:71-72 | the comma fields of a student's joined fields give back that student under its idm |
| Records.NotComment | felicaStudentIDReader.rb:70 | a line with no inner line break is a comment only when it starts with `#` |
| Records.RecordLine | felicaStudentIDReader.rb:124-125 | the stored line starts with the written time followed by a tab |
| Records.RecordEffect | felicaStudentIDReader.rb:100-103 | a record line sets the entry for its second field, with a valid whole-second time; it raises exactly when it has no field or its time does not parse |
| Records.RecordRoundTrip | felicaStudentIDReader.rb:124-125 | the line `store` writes is replayed as the same card id with the same time, to the second |
| Records.RecordLineKept | felicaStudentIDReader.rb:124-126 | the line `store` writes is neither a comment nor blank, and `chop` leaves the joined fields |
| Records.RecordFieldsBack | felicaStudentIDReader.rb:100-103 | the joined fields of a record are read as the entry for its card id, with its time to the second |
| Records.RecordLineHead | felicaStudentIDReader.rb:100-101 | the first two tab fields of a stored line are the written time and the card id, whatever tabs the student fields hold |
| Records.RecordLineFields | felicaStudentIDReader.rb:125 | with no tab in the student fields, the stored line splits into the time, idm, student_id, fullname, furigana and gender, in that order |
| StudentDB.Load | felicaStudentIDReader.rb:67-76 | loading the roster computes the reference fold, and every entry is keyed by its own idm |
| StudentDB.RosterLastLineWins | felicaStudentIDReader.rb:72 | the roster holds exactly the ids that start a student line, each mapped to the student of the last such line |
| StudentDB.RosterStopsOnShortLine | felicaStudentIDReader.rb:73 | the load fails exactly when some non-comment, non-blank line has fewer than four fields |
| StudentDB.RosterRoundTrip | felicaStudentIDReader.rb:71-72 | a roster file written from students loads to each student under its id, later duplicates winning |
| AttendanceStore.Replay | felicaStudentIDReader.rb:97-105 | a failed replay names a line of the file, and a rebuilt hash keys each check-in by its own card id with whole-second times only |
| AttendanceStore.Truncated | felicaStudentIDReader.rb:124 | cutting to the second leaves a hash of whole-second times unchanged; otherwise it keeps the keys and card ids and changes only the times |
| AttendanceStore.TruncatedIdempotent | felicaStudentIDReader.rb:124 | cutting to the second is idempotent |
| AttendanceStore.ReplayWellKeyed | felicaStudentIDReader.rb:103 | a successful load of record lines keys each check-in by its own card id, with a valid whole-second time |
| AttendanceStore.ReplayAfterStore | felicaStudentIDReader.rb:123-126 | if the file rebuilt the hash before a store, it rebuilds the updated hash after it |
| AttendanceStore.TruncatedUpdate | felicaStudentIDReader.rb:123 | cutting times after setting an entry equals setting the cut entry after cutting |
| AttendanceStore.AfterStores | felicaStudentIDReader.rb:123 | after a sequence of stores the hash holds the earlier keys plus every stored card id |
| AttendanceStore.RestartRecovers | felicaStudentIDReader.rb:119-128 | after any number of stores, replaying the file rebuilds the hash, to the second |
| AttendanceStore.StoresSnoc | felicaStudentIDReader.rb:119-128 | one more store appends its line to the file and sets its entry in the hash |
| AttendanceStore.EmptyReplay | felicaStudentIDReader.rb:97 | an empty file rebuilds the empty hash |
| AttendanceStore.FreshFileRecovers | felicaStudentIDReader.rb:100-103 | replaying a file written only by `store` gives exactly the stored card ids |
| AttendanceStore.FreshKeys | felicaStudentIDReader.rb:123 | stores from an empty hash leave exactly the stored card ids |
| AttendanceStore.AttendanceDB.constructor | felicaStudentIDReader.rb:93-109 | with no file the hash and file start empty; otherwise the hash is the replay of the file; either way the file rebuilds the hash |
| AttendanceStore.AttendanceDB.Exists | felicaStudentIDReader.rb:111-113 | `exists?` is true exactly for the card ids in the hash |
| AttendanceStore.AttendanceDB.Get | felicaStudentIDReader.rb:115-117 | `[]` returns the check-in under the id, with that id, or nil when there is none |
| AttendanceStore.AttendanceDB.Store | felicaStudentIDReader.rb:119-128 | `store` sets the entry for `a.idm` to `a`, leaves every other entry alone, appends exactly the joined line, and keeps the file able to rebuild the hash |
| CheckIn.Step | felicaStudentIDReader.rb:216-235 | a roster card not yet stored is stored and succeeds. A stored roster card is not stored again: it does nothing when it equals `prev_idm`, and notices otherwise. Any other card changes nothing. `prev_idm` becomes the card |
| CheckIn.StepAsWritten | felicaStudentIDReader.rb:232 | as written, a read stops the reader exactly when the card is not in the roster, and a read that completes never reports an unknown card and sets `prev_idm` |
| CheckIn.UnknownCardStopsAsWritten | felicaStudentIDReader.rb:232 | as written, a card not in the roster stops the reader; on roster cards the written code and `Step` agree |
| CheckIn.UnknownCardExample | felicaStudentIDReader.rb:232 | with an empty roster, any card stops the reader as written |
| CheckIn.Run | felicaStudentIDReader.rb:216-235 | a run gives one outcome per read |
| CheckIn.RunSnoc | felicaStudentIDReader.rb:216-235 | a run of one more read is the run so far followed by that read |
| CheckIn.RunStore | felicaStudentIDReader.rb:216-235 | after a run the store holds the earlier ids plus every roster id read, earlier entries never change, and `prev_idm` is the last id read |
| CheckIn.StepStore | felicaStudentIDReader.rb:219-229 | one read adds its card to the store when it is a roster card, changes no entry already there, and sets `prev_idm` |
| CheckIn.ReadOfSnoc | felicaStudentIDReader.rb:216-235 | a run reads card `k` exactly when the reads before the last do or the last does |
| CheckIn.StoredExactlyOnce | felicaStudentIDReader.rb:219-229 | a run succeeds once for a roster card read in it and not stored before, and never otherwise |
| CheckIn.SuccessCountSnoc | felicaStudentIDReader.rb:219-229 | one more outcome adds one to the count for `k` exactly when it is a first check-in of `k` |
| CheckIn.RunLog | felicaStudentIDReader.rb:226-229 | the file grows by exactly one line per success, and its earlier lines are kept |
| CheckIn.SuccessesSnoc | felicaStudentIDReader.rb:226-229 | one more outcome adds one to the total exactly when it is a first check-in |
| CheckIn.SecondTapDoesNothing | felicaStudentIDReader.rb:221-222 | two consecutive reads of a roster card: the second does nothing and changes nothing |
| CheckIn.RunRecoverable | felicaStudentIDReader.rb:226-228 | a run keeps the file able to rebuild the store, so a restart loses no check-in |
| CheckIn.Reader.constructor | felicaStudentIDReader.rb:184-188 | the reader starts with the loaded roster and store, and `prev_idm` nil |
| CheckIn.Reader.OnRead | felicaStudentIDReader.rb:216-235 | one read changes the store, the file and `prevIdm` exactly as `Step` does, and keeps the file able to rebuild the store |

## Findings

| source | as written | input that shows it | evidently intended | confidence | as-written member | corrected member |
|---|---|---|---|---|---|---|
| felicaStudentIDReader.rb:232 | The unknown-card branch passes the block-local `a`, which is nil on that branch. `on_unknown_card` reads `attendance.idm` (line 212) and raises NoMethodError. `CardReader` rescues only PasoriError, so the reader stops and `prev_idm` is never set | any card id that is not a key of `students.csv`, e.g. `0123456789ABCDEF` with an empty roster | report the unknown card, keep polling, and set `prev_idm` to the id | high; not executed | CheckIn.UnknownCardStopsAsWritten | CheckIn.Step |

## Left out

- The card reader `CardReader` (felicaStudentIDReader.rb:142-176) is Pasori polling in an endless loop. Card ids reach `Reader.OnRead` as arguments, and the `pmm` value is unused.
- The notifications `on_success`, `on_do_nothing`, `on_notice_ignorance` and `on_unknown_card` (194-214) print and call `say`. They are the `Outcome` values.
- Romaji and encoding conversion (`to_roma`, `toeuc`, 73 and 190-192) is a foreign library. The model keeps only one effect of line 73: a roster line without a furigana field raises there.
- The live clock `Time.new` (180, 227) is the parameter `now`. Time zones and daylight-saving gaps of local time are not modelled.
- File handling (`FileTest::exists?`, `File.open`, `flush`) is replaced by values. The existing file is an `Option` of its lines, and the file is a sequence of lines as `each_line` yields them. A missing `students.csv`, which makes `File.open` raise, is not modelled.
- A pre-existing attendance file whose last line has no newline is kept apart from the next stored line. The source would glue the two into one line.
- A stored field that contains a line break turns one stored line into several real lines. The model keeps it one entry, and the round-trip lemmas require stored fields without CR or LF, and a card id without a tab. A tab inside a student field is allowed, since the replay reads only the first two fields.
- An attendance line holding only a time makes the source store an entry under the key nil. No card id can look that entry up, so `RecordEffect` skips the line.
- Timestamp.MkTime: only all-digit tokens are accepted, with month 1-12, day 1-31, hour below 24, minute and second below 60. Ruby's leniencies are treated as a failure of the load instead: month names, coercion of non-digit strings, defaults for missing parts, hour 24 and second 60. Years are natural numbers.
- AttendanceStore.AttendanceDB.constructor: a file line on which the source raises (no field, or a time that does not parse) is excluded by the precondition. The same case is `Failure` in `Replay` and `LineLoad.LoadLines`.
- StudentDB.Load: a roster line on which the source raises is returned as `Failure` with the line's index, not as a crash.
- The weekday name for `%a` is computed in the proleptic Gregorian calendar. It is written but never read back.
- The output file name is computed once at start-up (182).
- A roster line has five fields with `idm` first. An attendance line has six fields including `student_id`. Unknown cards are not recorded.
