# Verified models of the platform's exact parts

The platform computes carbon-intensity figures for ships. This Dafny project models those of its parts
that promise something exact - about every input, every run or every failure - and proves the promises.
`dafny verify dfyconfig.toml` checks the whole project.

## What is modelled

| modules | part of the system |
|---|---|
| `Replacement`, `Names` | replacing the production database by a dump: the commands, their failures, the rollback, the names, the ownership report |
| `Digits`, `DecimalText`, `Format`, `FixedDecimal`, `Percent`, `NumberInput`, `NumberForms` | decimal display and number input on digit strings |
| `Calendar`, `Kst` | the KST wall-clock field and the Gregorian calendar behind it |
| `Json`, `NulGuard`, `NulFilter`, `NulReplay` | the guard against NUL characters in JSON bodies: JSON reader, recursive scan, byte search, replay of the body |
| `JsonForms`, `JsonReads`, `JsonAccepts`, `JsonBodies` | what a JSON document is, apart from the reader, and that the reader reads exactly those |
| `Clip` | clipping map lines to a box, over the reals |
| `Changelog` | the checker for lost change-history rows on a commit graph |
| `Sql`, `Immutable`, `ActiveKey`, `Migration061`, `Transactions` | database triggers and the derived unique key in three-valued logic, the migration between the two forms, and what each comes to when transactions overlap |
| `Backoff`, `RateLimit` | the login delay and the request limit, against the whole history |
| `ByteRange` | byte ranges of one file over a server that only knows whole files |
| `Prelude` | optional values and results |

A program that changes state in place is a class or a method with loops here, proved equal to a specification;
what the specification means is proved about that. Pure code is functions and lemmas. Time is a parameter: each
method takes the clock readings it makes. What a command sent to the host or to the database comes to is an
arbitrary function of its position, so the results hold for every pattern of failures.

## What the proofs found

Where the code and its own text differ, the model follows the code.

- A derived database name can be the production name itself (`Names.DerivedIsLive`): exactly for a name of four or
  five characters followed by the very tag and time. The time has no year. With the tag of the kept database the
  restore is safe and ends without a swap. With the tag of the staged database its first commands delete the
  production database (`Replacement.TaggedNameIsDeleted`); when the kept name is free, nothing runs under it and no
  command fails, it ends with the message that the old database is back, while the dump has its name
  (`Replacement.Host.Restore`). The old content survives every order and every fate of the commands exactly when the name does not carry that tag
  (`Replacement.SurvivesExactly`).
- The message of a failed rollback says that the old content has the kept name and the new one the staged name. That
  is wrong exactly when the renaming back took effect (and then the server did not start, or the answer was lost), or
  when the renaming reported as failed had taken effect, or when the staged name is the production name
  (`Replacement.RollbackTextExactly`); there are such runs (`Replacement.WrongTextIsReached`).
- An error of one of the two `server stop` commands, of `start app`, or of `server start` after a failed first
  rename is not in the table of `restore`. The states left are safe (`Replacement.Host.Swap`, `CommandFailed`).
- The change-history checker "misses nothing" only for documents that are still there: a document that the merge
  result has lost is not checked. When every report is silent, nothing is lost exactly if the base had no row of a
  lost document and every row that a commit added to one was in an ancestor shared with the base
  (`Changelog.Check`, `Changelog.DeletedDocumentLosesRows`); a row added and removed in the same pull request is
  enough (`Changelog.AddedRowIsLostToo`).
- `kstInputToIso` refuses the years 0 to 99, which `Date.UTC` reads as 1900 to 1999 (`Kst.SurvivesExactly`); the years
  100 to 999 are accepted, but `toKstInput` writes them with fewer than four digits (`Kst.FieldRoundTrip`).
- `toDecimalInput` would make "12." of a text "12e-0", which the text of a number never is; a positive exponent stays
  in the text. `formatPercent` throws on exactly these (`Percent.PercentOfNumberText`).
- The NUL guard finds a NUL exactly when one within the recursion limit comes before every part that is nested as deep
  as the limit (`NulGuard.FindsExactlyAtLimit`, `NulFilter.RejectsExactly`). For every limit there is a document
  that the parser reads and whose NUL is missed (`NulFilter.DeepBodyPasses`); the code leaves such bodies to the validator.
- Under the triggers of 047 two transactions of one write leave two active rows with one key exactly when both write
  before either commits and each write, on its own, would be accepted and give that key to a row
  (`Transactions.TriggersMissOverlap`). Under 061's index every run of any number of
  transactions leaves what they leave one after the other (`Transactions.OverlapIsOneAfterTheOther`).

## Model

| member | source | states |
|---|---|---|
| Replacement.NothingLosesTheOldContent | scripts/db_backup.py:689-738 | whatever the order of the commands a replacement sends, and whatever becomes of each (works, refused, silently nothing, done but reported as failed), the old content stays bound to the production name or the kept name |
| Replacement.Host.Send | scripts/db_backup.py:325-337 | one command: the state after it, whether the script is told it worked, and one more entry in the log and in the trace of states |
| Replacement.Host.StartAppIfAny | scripts/db_backup.py:693-695 | the application is started only over a production database whose server is up; nothing is sent where the application is elsewhere |
| Replacement.Host.StopBoth | scripts/db_backup.py:697-700 | both servers are stopped first; an error here ends the swap before any name changes |
| Replacement.Host.KeepFailed | scripts/db_backup.py:703-709 | first row of the table: the names are as they were, the server and the application run again - or a command failed and the application stays off |
| Replacement.Host.PutFailed | scripts/db_backup.py:712-728 | second and third row: the old name is given back and runs, or the swap stops with the application off; when only the server did not start, the names are as they were before |
| Replacement.Host.StartNew | scripts/db_backup.py:729-738 | last row and the normal end: the new content is in production and the old one is kept; the application runs only if the server came up |
| Replacement.Host.Swap | scripts/db_backup.py:689-738 | for every failure pattern: how it ends and which content is under which name, as a function of what becomes of each command; every state on the way is safe (old content there, application served), the replies fix which row of the table is reached, and each row leaves exactly the databases it says |
| Replacement.OnlyTheSecondRenameFails | scripts/db_backup.py:712-728 | when only the renaming of the new database fails, the old one gets its name back and runs, with the application on |
| Replacement.NoCommandFails | scripts/db_backup.py:697-738 | when no command fails, a free kept name ends in a swap and a taken one leaves the names as they were |
| Replacement.RepliesDecide | scripts/db_backup.py:866-880 | the same replies never belong to two different rows of the table |
| Replacement.RollbackTextExactly | scripts/db_backup.py:713-723 | the message of a failed rollback names the right databases exactly when neither the renaming back took effect nor the renaming that was reported as failed, and the staged name is not the production name |
| Replacement.WrongTextIsReached | scripts/db_backup.py:713-723 | from every state with free names the wrong message is reached: when the renaming is refused and then only the server does not start, and when only the answer to the renaming is lost |
| Replacement.WrongTextHasAPattern | scripts/db_backup.py:713-723 | such a pattern of failures exists in every such state, and under it the names are as they were before |
| Replacement.VerifyRestored | scripts/db_backup.py:646-663 | the list of differences holds exactly those there are, and is empty exactly when revision, trigger count and the count of every table of the manifest agree (further tables are not noticed) |
| Replacement.Host.Ask | scripts/db_backup.py:354-383 | a question to the database or the host changes nothing and may fail |
| Replacement.Host.DropDatabase | scripts/db_backup.py:601-611 | dropping touches only the database that is being made and reports no error when there is nothing to drop; the two commands it sends, and how they are answered |
| Replacement.Host.RestoreInto | scripts/db_backup.py:614-643 | on success the new database holds what was loaded; on any failure only the new database has changed; the commands sent, in order, up to the one that failed |
| Replacement.Host.MakeAndCompare | scripts/db_backup.py:912-916 | up to the comparison no command touches the application or any other database; it goes on only for a database that matches the manifest, and a database that does not match is dropped before the error: the last two commands are its stop and its deletion, both answered, and when they work the databases are the old ones without the staged name |
| Replacement.Host.Exchange | scripts/db_backup.py:917-938 | after the application is stopped: the swap, and the last questions, which cannot undo it; the commands sent for each way to end |
| Replacement.Host.StopAndExchange | scripts/db_backup.py:917-938 | the application is stopped, where there is one, and the databases are exchanged; if stopping it fails nothing is exchanged |
| Replacement.Host.Replace | scripts/db_backup.py:909-938 | making, comparing and exchanging, for any three names of which staged and kept differ: how it ends and what is left, with every command that was sent for each way to end; a mismatch leaves no staged database, and with a taken kept name nothing but the staged database changes |
| Replacement.Host.Confirmed | scripts/db_backup.py:886-908 | the production name is asked for first and must be the one the operator and the dump name, then four more questions; nothing changes, and with the right names and no failure it goes on |
| Replacement.Host.RestoreNamed | scripts/db_backup.py:881-938 | the whole restore for any staged and kept name that differ |
| Replacement.Host.Restore | scripts/db_backup.py:848-938 | the whole restore: safe after every command unless the production name carries the staged tag with this time; what is left and exactly which commands were sent for every way to end; nothing is changed before the five questions at the start are answered; the application is stopped only for a confirmed, matching dump, and a dump that does not match is dropped again; a normal end means the dump is in production and the old content is kept; if nothing fails it does end normally, except with a taken kept name (no swap) and with the staged tag (the old content is lost) |
| Replacement.NamesEndInTags | scripts/db_backup.py:909-911 | the staged name ends in `_s` and the kept name in `_b`, each followed by the time, behind at most five characters of the production name |
| Replacement.NamesDiffer | scripts/db_backup.py:909-911 | staged and kept name always differ, and either equals the production name exactly when that name already carries this tag and time |
| Replacement.TaggedNameIsDeleted | scripts/db_backup.py:909-912 | for every production name that carries the staged tag and this time, the commands that make room for the new database delete it |
| Replacement.SurvivesExactly | scripts/db_backup.py:909-912 | the old content survives every order and every fate of the commands of a replacement exactly when the production name does not carry the staged tag with this time |
| Names.DerivedName | scripts/db_backup.py:297-307 | a derived name is refused exactly when tag and stamp leave no room; otherwise it is at most 17 characters: the longest beginning of the production name that fits and does not end in an underscore, the tag and the stamp |
| Names.DerivedDistinct | scripts/db_backup.py:297-307 | names derived with different tags or different stamps of one length differ, for any two production names |
| Names.DerivedIsLive | scripts/db_backup.py:304-307 | a derived name is the production name itself exactly when that name is four or five characters, not ending in an underscore, followed by this tag and stamp |
| Names.OneOwner | scripts/db_backup.py:776-780 | a file has at most one owner: names that fit are beginnings of the file name, so the longest is unique |
| Names.BelongsTo | scripts/db_backup.py:769-780 | for any order in which the registered names come up, the answer is whether the production name is the longest that fits |
| Names.FilesAreShared | scripts/db_backup.py:769-780 | databases in one directory share the files without overlap; a file with the longer name of another database is never the production database's |
| Names.BasenameIs | scripts/db_backup.py:805-815 | the file name is the longest end of the path without a slash |
| Names.WrongPathsAre | scripts/db_backup.py:805-815 | the files that are complained about are, in the order of the report, exactly those of the production database that another user owns |
| Names.ReadReport | scripts/db_backup.py:785-804 | the last user and directory line count, and every registered name, file and server of the report is collected |
| Names.ParseOwnership | scripts/db_backup.py:783-827 | the list of complaints, in its order: the user the server runs as, directory owner, files of the production database owned by another user, and each server that runs as another user - exactly those the report shows |
| Format.StripLeadingZeros | frontend/src/display/format.ts:218-221 | the same number without superfluous leading zeros |
| Format.AddOne | frontend/src/display/format.ts:203-216 | the walk from the right adds exactly one and grows the text exactly when all digits were nines |
| Format.RoundPadded | frontend/src/display/format.ts:179-180 | with enough digits rounding only appends zeros |
| Format.RoundCut | frontend/src/display/format.ts:182-192 | cutting at `digits` and looking at the first dropped digit alone is half-up rounding of the whole number |
| Format.RoundDigits | frontend/src/display/format.ts:176-193 | the digits left in front of and behind the point are the half-up rounding of the magnitude, with exactly `digits` behind it, through every carry chain |
| Format.BodyIsShown | frontend/src/display/format.ts:195-199 | the assembled text is the canonical one, and the zero test suppresses exactly the sign of zero |
| Format.FormatDecimalString | frontend/src/display/format.ts:162-200 | the character algorithm prints what the arithmetic says for every text and digit count, and throws in exactly the same cases |
| DecimalText.SplitJoin | frontend/src/display/format.ts:167-174 | the grammar accepts every text glued from a sign, digits and a fraction, and splitting finds the pieces again |
| DecimalText.JoinSplit | frontend/src/display/format.ts:167-174 | and it accepts no other text |
| DecimalText.TrimsBlanks | frontend/src/display/format.ts:166-167 | exactly the space characters and line ends around a text are cut off |
| DecimalText.FormattedMeaning | frontend/src/display/format.ts:150-162 | exactly `digits` fraction digits, canonical integer part, no negative zero, and the value is the half-up rounding (ties away from zero) |
| DecimalText.HalfUpNearest | frontend/src/display/format.ts:150-162 | half-up: within half a unit of the value, and an exact tie goes up |
| DecimalText.FormattedIdempotent | frontend/src/display/format.ts:150-162 | a displayed text displays as itself |
| DecimalText.FormattedMonotone | frontend/src/display/format.ts:150-162 | a smaller number never displays as a larger one |
| DecimalText.ReadShown | frontend/src/display/format.ts:195-199 | reading a displayed text gives its sign, its digits and its number back |
| FixedDecimal.DisplayScaledMeaning | frontend/src/display/decimal.ts:26-32 | lifting gives the half-up rounding in units of the last digit |
| FixedDecimal.ScaledOfUnscaled | frontend/src/display/decimal.ts:26-41 | lifting undoes unscaling for every integer |
| FixedDecimal.FixedOfUnscaled | frontend/src/display/decimal.ts:34-41 | unscaling gives a text in the canonical fixed form |
| FixedDecimal.UnscaledOfScaled | frontend/src/display/decimal.ts:26-41 | unscaling undoes lifting on every text in the canonical fixed form |
| FixedDecimal.AddUndoesSubtract | frontend/src/display/decimal.ts:43-51 | adding back what was subtracted shows the first text again |
| FixedDecimal.SubtractUndoesAdd | frontend/src/display/decimal.ts:43-51 | subtracting what was added shows the first text again |
| FixedDecimal.SubtractMatchesScreen | frontend/src/display/decimal.ts:18-24 | the shown difference is the difference of the two shown numbers, with no hidden digit |
| FixedDecimal.CompareMatchesScreen | frontend/src/display/decimal.ts:53-64 | 0 exactly when the two shown texts are equal, otherwise the order of the shown numbers |
| FixedDecimal.TwoStepIsRounded | frontend/src/display/decimal.ts:97-99 | the two truncating divisions equal one rounding half away from zero |
| FixedDecimal.PercentTextRoundsOnce | frontend/src/display/decimal.ts:96-100 | the text is that of the exact percentage rounded once to one digit |
| FixedDecimal.PercentChangeRoundsOnce | frontend/src/display/decimal.ts:88-101 | null exactly for a base that is not positive when displayed, otherwise one rounding of the exact change of the displayed values |
| Percent.ShiftTwoValue | frontend/src/display/format.ts:558-566 | moving the point two places multiplies by exactly one hundred |
| Percent.FormatPercentRoundsOnce | frontend/src/display/format.ts:552-569 | a percentage is one rounding of exactly one hundred times the value |
| Percent.ToDecimalInputExact | frontend/src/display/format.ts:514-533 | for the text of every number: the formatter accepts the result exactly when there is no exponent or a negative one that moves the point, and then it is exactly the number written |
| Percent.PercentOfNumberText | frontend/src/display/format.ts:514-569 | number text to percentage is rounded once only, with or without an exponent, and throws exactly on a positive exponent and on "12e-0" |
| NumberInput.GroupIsGroups | frontend/src/display/format.ts:238-247 | the printed grouping of four or more digits has the grouped form, and without its commas it is the numeral |
| NumberInput.GroupsAreGrouped | frontend/src/display/numberInput.ts:32-38 | the grouped form is met only by printed groupings |
| NumberInput.PlainNumber | frontend/src/display/numberInput.ts:43-44 | a plain decimal text is read as exactly its number |
| NumberInput.CommaIsNoNumber | frontend/src/display/numberInput.ts:43-44 | no text with a comma left in it is a number |
| NumberInput.CommasOnlyAsPrinted | frontend/src/display/numberInput.ts:16-18 | a text with commas is read exactly when it is the printed grouping of some numeral of four or more digits, with any sign and any point and digits behind, and then as that number |
| NumberInput.PrintedIsGrouped | frontend/src/display/numberInput.ts:32-38 | every such text meets the grouped form, with each sign and with a point that no digit follows |
| NumberInput.ReadsWhatItPrints | frontend/src/display/numberInput.ts:4-14 | what the screen printed with separators is read back as the displayed number, for every value and digit count |
| NumberInput.MissingExactly | frontend/src/display/numberInput.ts:41-42 | a field counts as not filled in exactly when there is nothing but blanks in it |
| NumberInput.NarrowedAndTrimmed | frontend/src/display/numberInput.ts:12-16 | blanks around a text and the full-width form of any of its characters make no difference |
| NumberInput.PlainIsEntered | frontend/src/display/numberInput.ts:40-45 | a plain decimal text of any length, with blanks around it and any of its characters in full width, is entered as its number |
| NumberForms.NumberExactly | frontend/src/display/numberInput.ts:43-44 | `Number` gives a number exactly for the literals - decimal with or without point and exponent, and 0x, 0o, 0b - and gives the number that the literal means |
| NumberForms.ReadsExactly | frontend/src/display/numberInput.ts:40-45 | a field without commas is entered exactly when it holds such a literal, as the number it means, and is unreadable exactly when it holds anything else but blanks |
| Calendar.DateOfMadeDay | frontend/src/display/format.ts:437-446 | every real Gregorian date comes back from its day number |
| Calendar.RealDates | frontend/src/display/format.ts:437-446 | the dates that exist, month by month, with the 29th of February in every fourth year but not in three of four centuries |
| Calendar.DayNumbersFollow | frontend/src/display/format.ts:437-446 | the day after a date, on the calendar sheet, has the next day number |
| Calendar.MadeDayOfDate | frontend/src/display/format.ts:437-446 | every day number comes back from its date |
| Calendar.YearUnique | frontend/src/display/format.ts:437-446 | a day lies in exactly one year |
| Calendar.ClockOfMadeDate | frontend/src/display/format.ts:437-446 | day, hour and minute come back from a time value |
| Calendar.MadeDateOfClock | frontend/src/display/format.ts:437-446 | a time value on a whole minute is made from its own fields |
| Kst.SurvivesExactly | frontend/src/display/format.ts:437-446 | the roll-over test passes exactly on the dates and times that exist, from the year 100 on |
| Kst.AcceptedInstant | frontend/src/display/format.ts:448-449 | an accepted time has an instant with a four-digit year, so the second null branch is never taken |
| Kst.AcceptsExactly | frontend/src/display/format.ts:430-450 | a field value is accepted exactly when it has the form, its date exists in the year 100 or later, and its hour and minute are below 24 and 60 |
| Kst.SendsNineHoursEarlier | frontend/src/display/format.ts:430-450 | an accepted field is sent as the UTC text of the same date with the hour less nine, or of the calendar day before with the hour plus fifteen |
| Kst.ParseIsoText | frontend/src/display/format.ts:448-449 | the UTC text denotes exactly the instant it was written for |
| Kst.FieldText | frontend/src/display/format.ts:389-409 | the field shows an instant as its four-digit KST time exactly from the year 1000 on, also with a formatter that writes hour 24; what KST is stands in the next row |
| Kst.ShowsNineHoursLater | frontend/src/display/format.ts:389-409 | a UTC text is shown as the same date with the hour plus nine, or the calendar day after with the hour less fifteen |
| Kst.FieldRoundTrip | frontend/src/display/format.ts:389-450 | what the field said it says again exactly for the years from 1000 on |
| Kst.InstantRoundTrip | frontend/src/display/format.ts:389-450 | an instant on a whole minute that the field shows is read back as the same instant |
| NulGuard.FoundAddress | src/cii_platform/api/nul_guard.py:38-58 | the reported path is the written form of an address, shorter than the limit, at which a string or an object key has a NUL |
| NulGuard.FindsExactly | src/cii_platform/api/nul_guard.py:38-58 | for values the interpreter can follow, the scan finds something exactly when some string or key has a NUL |
| NulGuard.FoundIsReal | src/cii_platform/api/nul_guard.py:38-58 | a find is a real one at any recursion limit |
| NulGuard.FirstEvent | src/cii_platform/api/nul_guard.py:38-58 | the scan reports what comes first in document order: a NUL, a part that is one call too deep, or nothing where there is neither |
| NulGuard.FindsExactlyAtLimit | src/cii_platform/api/nul_guard.py:38-58 | at any recursion limit something is found exactly when a NUL within it comes before every part that is too deep, and the path is that of the first NUL |
| NulGuard.DeepNulIsMissed | src/cii_platform/api/nul_guard.py:119-121 | for every recursion limit there is a value one level deeper whose NUL is not reported |
| NulGuard.FieldSpelledOut | src/cii_platform/api/nul_guard.py:38-58 | the field path is written step by step: an index as a decimal number in brackets, a key behind a point unless the path is still empty; it leads to the string that has the NUL or to the object with one in a key |
| JsonReads.ReadsForm | src/cii_platform/api/nul_guard.py:114-121 | every written form of a JSON value (sections 2 to 7 of RFC 8259, and the words NaN and Infinity) is read as the value it means, if it is nested no deeper than the parser follows |
| JsonAccepts.FormOf | src/cii_platform/api/nul_guard.py:114-121 | whatever is read is the written form of the value it is read as |
| JsonForms.DictIs | src/cii_platform/api/nul_guard.py:48-53 | an object is a dictionary: each key once, in the order of first use, with the value given last |
| JsonBodies.Decodes | src/cii_platform/api/nul_guard.py:118-118 | the bytes of a text in UTF-8 (section 3 of RFC 3629, lone surrogates included) are decoded to the text |
| JsonBodies.Encodes | src/cii_platform/api/nul_guard.py:118-118 | and only those bytes are |
| JsonBodies.LoadsExactly | src/cii_platform/api/nul_guard.py:114-121 | a body is read as a value exactly when it is a document that means the value - the UTF-8 bytes, with or without a byte order mark, of a written form with white space around it - nested no deeper than the parser follows |
| NulFilter.NulNeedsEscape | src/cii_platform/api/nul_guard.py:34-35 | however a value with a NUL is written, its bytes contain the six of the escape |
| NulFilter.FilterChangesNothing | src/cii_platform/api/nul_guard.py:91-92 | the byte search changes no answer: it says what parsing and scanning every body would say |
| NulFilter.RejectsExactly | src/cii_platform/api/nul_guard.py:88-121 | for every body: rejected exactly when it is the written form of a value in which a NUL within the limit comes before every part too deep for the scan, and the field is that of the first NUL |
| NulFilter.RejectsDocument | src/cii_platform/api/nul_guard.py:88-121 | the same for each document that the parser follows; for a value no deeper than the limit it is rejected exactly when some string or key has a NUL |
| NulFilter.ReportedFieldIsAddress | src/cii_platform/api/nul_guard.py:38-58 | the reported field is the address, written step by step and shorter than the limit, of such a place in the value that the document means |
| NulFilter.DeepBodyPasses | src/cii_platform/api/nul_guard.py:114-121 | for every limit there is a document one level deeper, within what the parser follows, whose value has a NUL and which the guard lets pass |
| NulReplay.BufferBody | src/cii_platform/api/nul_guard.py:123-136 | the body is read to its end, or not at all when another event comes first, and nothing behind it is consumed |
| NulReplay.PiecesGiveTheBody | src/cii_platform/api/nul_guard.py:123-136 | however a byte string is cut into pieces, reading them gives the byte string and leaves what comes behind |
| NulReplay.BodyIsInPieces | src/cii_platform/api/nul_guard.py:123-136 | a stream gives a body only if it begins with the pieces of it |
| NulReplay.CutOff | src/cii_platform/api/nul_guard.py:128-131 | a stream that breaks off before the last piece gives no body and leaves what comes behind the break |
| NulReplay.Channel.Receive | src/cii_platform/api/nul_guard.py:127-128 | one message of the server, in order |
| NulReplay.Replay.Receive | src/cii_platform/api/nul_guard.py:154-163 | the pending message first, then the server's |
| NulReplay.Handle | src/cii_platform/api/nul_guard.py:83-97 | a body is rejected exactly when it is the written form of a value with such a NUL, with the field of the first one; and the application reads the same body and the same events after it |
| Clip.SidesAreInside | frontend/scripts/build-harbor-snapshot.py:60-62 | the four side conditions hold at a parameter exactly when the point is in the box |
| Clip.Narrowed | frontend/scripts/build-harbor-snapshot.py:64-75 | one turn of the loop keeps exactly the parameters that also meet this side |
| Clip.ClipSegment | frontend/scripts/build-harbor-snapshot.py:57-81 | None exactly when at most one parameter gives a point inside; otherwise exactly the parameters between the two returned ends do |
| Clip.ClippedPart | frontend/scripts/build-harbor-snapshot.py:57-81 | between the ends of a clipped segment lie exactly its visible points |
| Clip.Stitch | frontend/scripts/build-harbor-snapshot.py:92-96 | one clipped segment is added to the runs: the pieces of all runs, read in order, grow by exactly it, and not at all if its ends are one point; the covered points grow by it, and no run starts where the one before ended |
| Clip.ClipLine | frontend/scripts/build-harbor-snapshot.py:84-97 | the pieces of all runs, read in order, are the parts inside the box of exactly the segments that cross it, each once and in the direction of the line; a new run begins exactly where a piece does not start at the end of the one before; so the runs cover exactly the polyline inside the box up to merely touched segments |
| Clip.PieceDecided | frontend/scripts/build-harbor-snapshot.py:57-81 | the part of a segment inside the box is one pair of points |
| Clip.PairsDecide | frontend/scripts/build-harbor-snapshot.py:92-96 | the pieces in order decide the runs |
| Clip.RunsDecided | frontend/scripts/build-harbor-snapshot.py:84-97 | so for every line and box there is only one such result |
| Changelog.RowEntries | scripts/check_changelog_rows.py:118-130 | the entries are, in the order of the text, those of exactly the lines that are rows, have a reference and have no placeholder in their commit column |
| Changelog.RowKeysCount | scripts/check_changelog_rows.py:133-136 | the count of a key is the number of lines that are such rows with that set of references |
| Changelog.AddedRows | scripts/check_changelog_rows.py:170-185 | exactly the keys of which the commit has more rows than every parent, with the number the commit had |
| Changelog.Misnumbered | scripts/check_changelog_rows.py:138-152 | for every key but the pull request's own, exactly the last rows by which the merge result exceeds the base |
| Changelog.SurplusCount | scripts/check_changelog_rows.py:143-146 | as many of them as the merge result has more than the base, and they are the last ones with their key |
| Changelog.CollectAdded | scripts/check_changelog_rows.py:265-271 | per key the largest number that a commit adding the key had |
| Changelog.MostAddedUnique | scripts/check_changelog_rows.py:163-167 | and there is only one such number |
| Changelog.CommitsRead | scripts/check_changelog_rows.py:239-275 | a commit is read exactly when it is an ancestor of the head or of the head pushed before, if there was one, and not of the base |
| Changelog.AncestorsByPath | scripts/check_changelog_rows.py:239-275 | an ancestor is a commit to which a path from parent to parent leads |
| Changelog.CheckDocument | scripts/check_changelog_rows.py:251-275 | the report of one document: rows fewer than in the base, surplus rows under a wrong number, and per key by how many rows the result falls short of the most that a commit adding the key had |
| Changelog.Check | scripts/check_changelog_rows.py:239-276 | one report for every document still in the tree; a silent report means that nothing the base had, or any ancestor of the head or of the head pushed before that the base does not have, was lost there; when all are silent, nothing at all is lost exactly if the documents that are gone had nothing to lose |
| Changelog.CommitLosesNothing | scripts/check_changelog_rows.py:30-37 | for every commit read, on any commit graph: if the added rows are kept or were in a shared ancestor, so is every row the commit had |
| Changelog.NothingLostExactly | scripts/check_changelog_rows.py:30-37 | nothing is lost exactly when the result dominates the base and keeps every row that a commit added and no shared ancestor had |
| Changelog.SilentLosesNothing | scripts/check_changelog_rows.py:30-37 | if nothing was overwritten and no added row dropped, the result dominates the base and every commit read in that sense |
| Changelog.DeletedDocumentLosesRows | scripts/check_changelog_rows.py:247-250 | a document missing from the tree is not checked: nothing of it is lost exactly when the base had no row of it and every row a commit added was in an ancestor shared with the base |
| Changelog.AddedRowIsLostToo | scripts/check_changelog_rows.py:247-250 | a row added by one commit and removed with its document by the next is lost unreported, although the base never had it |
| Sql.JoinedTruth | alembic/versions/051_immutable_update_null_safe.py:122-125 | a conjunction is false as soon as one part is, and true only if all are, in three-valued logic |
| Immutable.NullSafeAdmitsExactly | alembic/versions/051_immutable_update_null_safe.py:103-125 | for any frozen columns: an update is admitted exactly when the flag goes from 0 to 1 and every frozen column is identical |
| Immutable.LegacyAdmitsExactly | alembic/versions/a7d3e9b14f26_restore_constraints_as_triggers.py:121-134 | the older condition also admitted a nullable column that is NULL on one side only |
| Immutable.ClosedHole | alembic/versions/051_immutable_update_null_safe.py:103-134 | 051 closed exactly those admissions and opened none |
| Immutable.OneUpdateOfARun | alembic/versions/a7d3e9b14f26_restore_constraints_as_triggers.py:96-113 | for rows with the fourteen columns of a calculation run: the only admitted update raises the flag and leaves the row as it is |
| Immutable.StatementKeeps | alembic/versions/a7d3e9b14f26_restore_constraints_as_triggers.py:176-190 | one statement keeps every row, up to one raising of its flag |
| Immutable.StoredRunsStay | alembic/versions/a7d3e9b14f26_restore_constraints_as_triggers.py:176-190 | over any run of statements no stored row is deleted and none changes but for its flag |
| Immutable.AtMostTwoVersions | alembic/versions/a7d3e9b14f26_restore_constraints_as_triggers.py:129-134 | so a row has at most two versions |
| ActiveKey.LegacyRejects | alembic/versions/047_soft_delete_partial_unique.py:114-120 | 047 rejects a write exactly when another row that is not deleted has the key |
| ActiveKey.SettlesAtOnce | alembic/versions/061_active_key_unique_index.py:71-84 | the fill triggers stop after at most one self-update, with the right value, and fail exactly on a key another row holds |
| ActiveKey.FilledIndex | alembic/versions/061_active_key_unique_index.py:165-188 | a filled row fits the unique index exactly when 047 lets it pass |
| ActiveKey.KeyedIndex | alembic/versions/061_active_key_unique_index.py:42-49 | with the right values in the column the index says: keys are unique among rows that are not deleted |
| ActiveKey.SameWrite | alembic/versions/061_active_key_unique_index.py:165-188 | one write: the index and its triggers accept what 047 accepts and change the same columns in the same way |
| ActiveKey.WriteUnderIndex | alembic/versions/061_active_key_unique_index.py:165-188 | which writes 061 accepts and the table each leaves, spelled out |
| ActiveKey.WriteUnderTriggers | alembic/versions/047_soft_delete_partial_unique.py:114-120 | the same for 047 |
| ActiveKey.SameRuns | alembic/versions/061_active_key_unique_index.py:293-302 | over every run of writes both leave the same rows, and the derived column is right after each |
| ActiveKey.NullKeyNeverSettles | alembic/versions/061_active_key_unique_index.py:170-178 | without the NOT NULL constraint on the key the triggers would not stop at any depth |
| Transactions.OverlapIsOneAfterTheOther | alembic/versions/061_active_key_unique_index.py:22-23 | under the index, for every run of any number of transactions: the committed rows are those the committed transactions leave one after the other in commit order, which are the rows 047 leaves when nothing overlaps; keys of active rows stay unique |
| Transactions.SecondWaits | alembic/versions/061_active_key_unique_index.py:82-82 | of two writes that give one key to two rows the second waits, fails when the first commits, and goes through when it is rolled back |
| Transactions.WaitsExactly | alembic/versions/061_active_key_unique_index.py:82-82 | a write waits exactly when another open transaction has written its row, or, under the index, holds the key that the row has or gets |
| Transactions.HoldsExactly | alembic/versions/061_active_key_unique_index.py:82-82 | after every run, an accepted write gives its transaction the row and those keys to hold, shows it the table it has made, and changes nothing else |
| Transactions.TriggersMissOverlap | alembic/versions/061_active_key_unique_index.py:13-20 | under 047, for any two single-write transactions in any interleaving: two active rows end up with one key exactly when both write before either commits and each write alone would be accepted |
| Transactions.TriggersSuffice | alembic/versions/061_active_key_unique_index.py:13-20 | for every run of any number of transactions in which no write has to wait for a key, the triggers of 047 leave the same rows as the index |
| Transactions.EffectUnique | alembic/versions/047_soft_delete_partial_unique.py:114-120 | alone, a write under 047 keeps the keys of active rows unique and changes only its own row |
| Migration061.CountsDuplicates | alembic/versions/061_active_key_unique_index.py:217-241 | the count is zero exactly when keys are unique among the rows that are not deleted |
| Migration061.StagesSpelledOut | alembic/versions/061_active_key_unique_index.py:268-302 | what each statement leaves, after every prefix of the statements of a table |
| Migration061.UpgradeOfTable | alembic/versions/061_active_key_unique_index.py:274-302 | from any catalog and any values, no statement of the upgrade fails and it ends in 061's form |
| Migration061.DowngradeOfTable | alembic/versions/061_active_key_unique_index.py:305-326 | from any catalog no statement of the downgrade fails and it ends in 060's form |
| Migration061.AttemptKeepsData | alembic/versions/061_active_key_unique_index.py:103-108 | a run cut off anywhere changes nothing but the derived column |
| Migration061.WholeUpgrade | alembic/versions/061_active_key_unique_index.py:268-302 | the same for all tables one after another |
| Migration061.Resumable | alembic/versions/061_active_key_unique_index.py:53-60 | after any number of upgrades and downgrades, each cut off anywhere, an upgrade ends in the same catalog and values as one uninterrupted upgrade; with duplicates it changes nothing |
| Migration061.DowngradeUndoesUpgrade | alembic/versions/061_active_key_unique_index.py:305-326 | a downgrade takes back exactly what the upgrade did |
| Migration061.UpgradeKeepsTheRule | alembic/versions/061_active_key_unique_index.py:31-51 | after the upgrade every run of writes does to the rows what it would have done under 047 |
| Migration061.Migration.DropTrigger | alembic/versions/061_active_key_unique_index.py:57-59 | a trigger that was not there is not dropped |
| Migration061.Migration.CreateTrigger | alembic/versions/061_active_key_unique_index.py:57-59 | a trigger that was there is not created again |
| Migration061.Migration.Execute | alembic/versions/061_active_key_unique_index.py:279-291 | the guarded statements on column, values and index |
| Migration061.Migration.UpgradeTable | alembic/versions/061_active_key_unique_index.py:274-302 | the statements of one table, as far as the connection lasts |
| Migration061.Migration.DowngradeTable | alembic/versions/061_active_key_unique_index.py:311-326 | the same for the downgrade |
| Migration061.Migration.Upgrade | alembic/versions/061_active_key_unique_index.py:268-302 | the loop over all tables leaves exactly the stage it was cut off at, counts duplicates first, and sends no statement that fails |
| Migration061.Migration.Downgrade | alembic/versions/061_active_key_unique_index.py:305-326 | the same for the downgrade |
| Backoff.DelayGrows | src/cii_platform/auth/backoff.py:64-74 | more failures never mean a shorter delay; it starts with the fifth and is at its ceiling from the ninth on |
| Backoff.DelayDoubles | src/cii_platform/auth/backoff.py:64-74 | between those each failure doubles the delay |
| Backoff.DelayTable | src/cii_platform/auth/backoff.py:64-74 | the delays in seconds: nothing below five failures, then 0.4, 0.8, 1.6, 3.2 and from the ninth on 6.4 |
| Backoff.SweepChangesNoAnswer | src/cii_platform/auth/backoff.py:109-120 | sweeping expired entries changes no answer, then or later |
| Backoff.EvictedFacts | src/cii_platform/auth/backoff.py:109-127 | seen by address: what stays is within the limit and unchanged; only expired entries go, unless the rest are too many, and then none that stays is older than one that went |
| Backoff.EvictedExactly | src/cii_platform/auth/backoff.py:109-127 | a table of up to 10,000 addresses is left alone; in a longer one no entry older than 900 seconds stays, the others stay as they were and in their order - all of them, or exactly the 10,000 that go last by age and then by place |
| Backoff.PutKeepsPlace | src/cii_platform/auth/backoff.py:129-132 | an address that is recorded again keeps its place in the table |
| Backoff.NewestIsNotFirst | src/cii_platform/auth/backoff.py:125-127 | the newest entry is not the first to go, even among equal times |
| Backoff.RecordedStays | src/cii_platform/auth/backoff.py:129-133 | the entry just recorded survives the cut |
| Backoff.AgreedAnswer | src/cii_platform/auth/backoff.py:94-97 | the answer is the delay of the streak in the whole history for every address a full table did not touch, and never longer |
| Backoff.CountedInARow | src/cii_platform/auth/backoff.py:83-97 | what counts are the failures of the address in a row: none with a success or with more than 900 seconds between them, none more than 900 seconds ago at the end, and none more in front |
| Backoff.LoginBackoff.Current | src/cii_platform/auth/backoff.py:83-92 | the failures that count now; an expired entry is taken out |
| Backoff.LoginBackoff.DelaySeconds | src/cii_platform/auth/backoff.py:94-97 | the delay, in seconds, of the failures in a row that the whole history has, for every address that lost nothing to a full table - and never a longer one |
| Backoff.LoginBackoff.Evict | src/cii_platform/auth/backoff.py:109-127 | expired entries first, then the oldest in a stable order |
| Backoff.LoginBackoff.RecordFailure | src/cii_platform/auth/backoff.py:129-133 | the history grows by the failure, the table stays within its limit, the entry just recorded is in it, and an address loses an entry only to a table of 10,000 that stays full, and only if its last failure is the longest ago |
| Backoff.LoginBackoff.RecordSuccess | src/cii_platform/auth/backoff.py:135-137 | a success ends the streak and with it any loss |
| RateLimit.RateLimiter.Consume | src/cii_platform/api/rate_limit.py:349-366 | with the limit of its bucket - auth, calculation, chat or any other - a call is turned away exactly when that many earlier calls with the same bucket and address fall in the current window of the whole history; a bucket without limit counts nothing and moves nothing |
| RateLimit.WindowHoldsLastCall | src/cii_platform/api/rate_limit.py:357-360 | the current window contains the call |
| RateLimit.WindowsFollow | src/cii_platform/api/rate_limit.py:357-360 | the current window is the last of these: one from the start, and each next one from the first call that comes 60 seconds or more after the beginning of the one before |
| RateLimit.CallsAre | src/cii_platform/api/rate_limit.py:361-366 | the calls counted are those with the key since then |
| RateLimit.AcceptedAre | src/cii_platform/api/rate_limit.py:361-366 | the accepted calls are those with the key in a stretch of time that were not turned away |
| RateLimit.AcceptedInWindow | src/cii_platform/api/rate_limit.py:327-337 | one window never accepts more than the limit |
| RateLimit.AtMostTwiceTheLimit | src/cii_platform/api/rate_limit.py:330-332 | in no stretch of 60 seconds are more than twice the limit accepted, wherever it begins |
| RateLimit.TwiceIsReached | src/cii_platform/api/rate_limit.py:330-332 | and for every limit twice the limit is reached |
| ByteRange.RangeTextParts | frontend/functions/_byteRange.ts:81-84 | every text made of two digit strings is a range, and its parts are found |
| ByteRange.RangeTexts | frontend/functions/_byteRange.ts:81-84 | and no other text is |
| ByteRange.ParsesExactly | frontend/functions/_byteRange.ts:78-105 | a range is satisfiable exactly when it names a position, and then 0 <= start <= end < size and it is the stretch of exactly the positions named; unsatisfiable exactly when it starts behind the end |
| ByteRange.ContentRangeTells | frontend/functions/_byteRange.ts:107-110 | range and size can be read off the header |
| ByteRange.AnswersExactly | frontend/functions/basemap/[[path]].ts:61-93 | a range that names a position, by numbers up to 2^53 - 1, is answered by a 206 with exactly the bytes at the positions named, in order, and headers that say which; one that starts behind the end by a 416 that says the size; any other by the whole file |
| ByteRange.NoRangeIsWhole | frontend/functions/basemap/[[path]].ts:67-71 | a header that is no such range is answered by the whole file |
| ByteRange.PassesOn | frontend/functions/basemap/[[path]].ts:53-62 | an answer that is not 200 is passed on untouched, and a request without a range gets the file |
| ByteRange.CopyHeaders | frontend/functions/basemap/[[path]].ts:28-33 | exactly the listed headers that are there are copied |
| ByteRange.ServeRange | frontend/functions/basemap/[[path]].ts:50-93 | the steps of the function give that answer, and an answer that is not 200 is passed on untouched |
| ByteRange.AskedPiece | frontend/functions/_byteRange.ts:78-105 | the answer to a client that asks for the next piece: exactly that piece as a 206 as long as there is one, then a 416 |
| ByteRange.FetchesTheFile | frontend/functions/_byteRange.ts:58-60 | asking for one piece after the other until told there is no more ends with the whole file, for every size of the pieces |

## Left out

- Docker, compose, `csql`, `cubrid` and `tar` themselves: a command works, refuses, silently does nothing or is lost.
- Crashes of a server or of the application by themselves: in `Replacement` only commands change the state.
- `backup`, `prune`, `rehearse`, the reading of the manifest file and its checksum: a manifest is there or is refused.
- Replacement.Host.Restore: in a split deployment it takes the operator's word that the application is stopped.
- Replacement.VerifyRestored: the order of the differences in the report is not modelled; the source sorts the tables by name.
- Names.ParseOwnership: the lines of the report are taken apart already; splitting text into fields, the texts of the complaints (with path, mode and user of a file) and their shortening are not modelled.
- `shareOfMax`, `formatCapacity`, `formatTimestamp` and the unit tables: display code that would only add easy members.
- A digit count that is not an integer: the source throws the same RangeError as for a negative one.
- NumberForms.ReadsExactly: `Number` is exact here, as it is in `NumberInput.PlainNumber`; rounding to binary floating point, overflow to infinity and the parts of NFKC other than the full-width forms are not modelled.
- Percent.ToDecimalInputExact: starts from the parts of the text of a number; how `String(number)` chooses that text is not modelled.
- Kst.FieldRoundTrip: KST is UTC+09:00 all year, as the code's own constant says; what the formatter writes for historical Seoul offsets is not modelled.
- Seconds and milliseconds in `toKstInput`: instants on whole minutes only, the precision of the field.
- JsonBodies.LoadsExactly: a body in an encoding other than UTF-8 counts as one that does not parse; a number is a number without its value, and the limit on the digits of an integer is not modelled.
- The URL half of the NUL guard: a find in the path or the query is a parameter.
- The error response of the guards, media type parsing and middleware order.
- Clip.ClipSegment: works over the reals; the rounding of the ends to seven digits is not modelled.
- Reading OSM data, building heights and file output of the harbor snapshot.
- Changelog.RowEntries: a line is taken apart already; the regular expressions for rows, references and placeholders, and the message texts, are not modelled.
- Changelog.Check: the order of messages and the fetching of a missing previous head are not modelled; a previous head is known or absent.
- Migration061.Resumable: nobody writes between the attempts; the race between the count and the index is not modelled, nor is `updated_at`.
- ActiveKey.SameRuns: single-row writes that do not set the derived column, one after the other; overlapping transactions are in `Transactions`.
- Transactions.OverlapIsOneAfterTheOther: the values of a write do not depend on what its transaction read before; a transaction keeps the rows and keys it touched until it ends; who waits for whom, deadlocks and lock timeouts are not modelled - a write that waits is tried again later in the run or never.
- Transactions.TriggersMissOverlap: two transactions of one write each; for longer ones under 047 it is proved when they are safe (`Transactions.TriggersSuffice`), not exactly when they are not.
- The internals of the trigger helper: only its contract (existing triggers are not created again, missing ones not dropped).
- The foreign-key and hash-format triggers of a7d3e9b14f26 and the index statements of 047: single-condition checks.
- Waiting out the login delay; `wait` sleeps for the delay that `DelaySeconds` returns.
- Backoff.LoginBackoff.DelaySeconds: an address that lost an entry to a full table may get a shorter delay; which ones is tracked exactly.
- Rate limits read from the environment, the choice of bucket for a path and the client address; keys share one window, so they are not independent.
- ByteRange.ServeRange: the fallback to the untouched asset when reading it fails is not modelled; header names are written in lower case.
- ByteRange.FetchesTheFile: the client is the reading loop that the range functions exist for; the tile library itself is not part of this model.
