# Shift alerts and shift form: a Dafny model

This project models the logic of a volunteer-shift module (a PHP/Symfony
application). It covers two pieces:

- **The `app:shift:send_alerts` console command** (`SendShiftAlertsCommand::execute`).
  It accepts a date only in the strict `Y-m-d` form and normalises it to the start
  of the day. It then fetches the day's shifts for a list of jobs and groups them
  into *buckets* by interval code, keeping first-occurrence order. A bucket with
  fewer than two people booked raises an *alert* with the issue text
  `"<count> personnes inscrites sur <shifts>"`. When there is at least one alert,
  one mail goes to the whole comma-separated recipient list.
- **The data mapper of the shift form** (`ShiftType::mapDataToForms` /
  `mapFormsToData`). It splits a shift into date, start and end fields. On
  submission it grafts the chosen date onto the start and end times.

Modules (one file each):

| file | module | contents |
|---|---|---|
| wrappers.dfy | `Wrappers` | `Option`, `Result` |
| strings.dfy | `Strings` | decimal text of integers, zero padding, `explode`/`implode` on one character |
| calendar.dfy | `Calendar` | date-time records, Gregorian validity, the lenient `Y-m-d` reader with overflow roll-over, `format('Y-m-d')`, the strict round-trip check |
| buckets.dfy | `Buckets` | `Shift`, `Bucket`, the declarative grouping `GroupByCode` and the imperative loop `BuildBuckets` |
| alerts.dfy | `Alerts` | shifter counts, the staffing rule, `ShiftAlert`, `EvaluateAlerts` |
| alert_command.dfy | `AlertCommand` | one run of the command: query, mails sent, console report |
| shift_form.dfy | `ShiftForm` | the two mapping directions of the form |

Modelling choices:

- A PHP `DateTime` is the record `(year, month, day, hour, minute, second)`, as a
  wall-clock reading without a time zone. The record itself is unconstrained. A
  `DateTime` that PHP hands over is taken to be a real calendar date, because PHP
  never produces another. `CreateFromFormat` proves this for the dates it makes.
  `date_create_from_format('Y-m-d', s)` works in three steps. It reads up to 4
  year digits, a dash, up to 2 month digits, a dash, up to 2 day digits, and then
  nothing more. It then rolls out-of-range months into years and out-of-range days
  into months, as PHP does (`2024-02-30` becomes `2024-03-01`). Finally it takes
  its time of day from the clock. The clock is a parameter `now`.
- The repository query `findAt(date, jobs)` is a function parameter of `Execute`.
  The run records the query it made, so "no query" can be stated.
- The shift entity derives a shift's interval code from its start and end, but
  that entity is not part of this model. The bucket pass reads the code as the
  stored field `intervalCode` of the shifts the query returns. The form works on
  an `Entity` whose start and end may be unset, and the derivation is a function
  parameter `code`. So a submitted shift gets the code of its new times
  (`ShiftForm.Stored`).
- **Assumption:** the bucket entity `ShiftBucket` is not part of this model. It is
  taken to behave as follows. `addShift` appends the shift to the bucket's list
  (lines 68-71). `getShifts` returns the shifts added, so `count(...)` in the issue
  text is their number (line 79). `getShifterCount` is the sum of the per-shift
  `shifters` counts (line 77). The "in input order" claims and the `<shifts>` of
  the issue text rest on the first two.
- The bucket loop keeps a map from code to bucket position. This map plays the
  role of the PHP associative array, whose keys keep insertion order.
- The jobs argument reaches the query as the raw comma-split list, duplicates and
  empty pieces included, not as a set of identifiers.
- `mapDataToForms` throws on a non-`Shift` value, and the model returns
  `Err(UnexpectedType)`. The exception class is not imported in the PHP file, so
  PHP would raise a class-not-found error instead. Either way the fields are not
  filled.

## Model

| member | source | states |
|---|---|---|
| Strings.Split | src/Command/SendShiftAlertsCommand.php:53-54 | `explode(',', …)` always gives at least one piece, and no piece contains a comma |
| Strings.JoinSplit | src/Command/SendShiftAlertsCommand.php:53-54 | splitting the jobs or recipients argument loses nothing: joining the pieces with commas gives the argument back |
| Strings.SplitJoin | src/Command/SendShiftAlertsCommand.php:53-54 | pieces without commas are recovered exactly from their comma-joined text, so the recipient list and the argument determine each other |
| Calendar.Normalize | src/Command/SendShiftAlertsCommand.php:55 | the date PHP builds from read fields is always a real calendar date, and in-range fields are kept unchanged |
| Calendar.CreateFromFormat | src/Command/SendShiftAlertsCommand.php:55 | a successful read yields a real date whose time of day is the clock's |
| Calendar.ParseFormat | src/Command/SendShiftAlertsCommand.php:55-56 | reading the `Y-m-d` rendering of any real date of years 0–9999 gives back exactly that date |
| Calendar.ParsedYearInRange | src/Command/SendShiftAlertsCommand.php:55-56 | if the reader accepts the rendering of a date, the year is between 0 and 9999: a sign or a fifth year digit would stop the reader |
| Calendar.AcceptedIsCanonical | src/Command/SendShiftAlertsCommand.php:55-56 | an accepted date argument is the zero-padded `YYYY-MM-DD` rendering of the real date it denotes |
| Calendar.CanonicalIsAccepted | src/Command/SendShiftAlertsCommand.php:55-56 | the zero-padded rendering of every real date of years 0–9999 is accepted and denotes that date (converse of the previous row) |
| Calendar.AcceptedLength | src/Command/SendShiftAlertsCommand.php:55-56 | accepted date arguments are exactly ten characters long |
| Calendar.RejectsImpossibleDay | src/Command/SendShiftAlertsCommand.php:55-56 | "2024-02-30" is rejected although it has the right shape |
| Calendar.RejectsUnpadded | src/Command/SendShiftAlertsCommand.php:55-56 | "2024-3-5" is rejected because it is not zero-padded |
| Calendar.AcceptsCanonical | src/Command/SendShiftAlertsCommand.php:55-56 | "2024-03-05" is accepted as 5 March 2024 |
| Calendar.StrictDate | src/Command/SendShiftAlertsCommand.php:55-56 | an accepted date is a real calendar date; the full characterisation (accepted exactly when the argument is the zero-padded rendering of that date) is stated by Calendar.AcceptedIsCanonical and Calendar.CanonicalIsAccepted |
| Calendar.FormatShape | src/Command/SendShiftAlertsCommand.php:56 | `format('Y-m-d')` of a date of years 0–9999 is ten characters: four year digits, a dash, two month digits, a dash and two day digits, reading back as the year, month and day |
| Calendar.SetTime | src/Command/SendShiftAlertsCommand.php:60 | `setTime(0, 0)` keeps the day and sets hour, minute and second to midnight |
| Calendar.SetDate | src/Form/ShiftType.php:91-96 | `setDate` with the date field's year, month and day moves a time onto that day and keeps its hour, minute and second |
| Buckets.Place | src/Command/SendShiftAlertsCommand.php:66-71 | one loop turn keeps the code-to-position index exact and acts as the declarative one-shift step `AddShift` |
| Buckets.GroupByCodeStep | src/Command/SendShiftAlertsCommand.php:65-72 | grouping one more shift equals one more loop turn on the grouping so far: an existing bucket of its code gets the shift appended, otherwise a new bucket is opened at the end |
| Buckets.BuildBuckets | src/Command/SendShiftAlertsCommand.php:64-72 | the bucket loop yields exactly the declarative grouping: one bucket per distinct code in first-occurrence order, each holding that code's shifts in input order |
| Buckets.GroupByCodePartition | src/Command/SendShiftAlertsCommand.php:64-72 | the buckets together hold exactly the input shifts, each as often as it occurs: none dropped, none duplicated |
| Buckets.GroupByCodeTotal | src/Command/SendShiftAlertsCommand.php:64-72 | the shift counts of all buckets sum to the number of input shifts |
| Buckets.GroupByCodeBuckets | src/Command/SendShiftAlertsCommand.php:65-71 | bucket codes are pairwise different, every bucket is non-empty, and every shift in a bucket has the bucket's code |
| Buckets.ShiftInExactlyOneBucket | src/Command/SendShiftAlertsCommand.php:65-71 | every input shift is in the bucket of its own code and in no other bucket |
| Buckets.BucketsInFirstOccurrenceOrder | src/Command/SendShiftAlertsCommand.php:65-71 | buckets come in the order in which their codes first occur among the shifts |
| Buckets.FirstOccurrencesOrdered | src/Command/SendShiftAlertsCommand.php:67-69 | the codes the PHP array gains as keys are listed in order of first occurrence |
| Buckets.GroupByCodeEmpty | src/Command/SendShiftAlertsCommand.php:64 | no shifts give no buckets |
| Alerts.SumShiftersBounds | src/Command/SendShiftAlertsCommand.php:77 | the people booked on a list of shifts are at least those of each shift, and none exactly when no shift has anyone |
| Alerts.ShifterCount | src/Command/SendShiftAlertsCommand.php:77 | a bucket's shifter count is at least the count of each of its shifts, and zero exactly when none of its shifts has anyone booked |
| Alerts.IssueText | src/Command/SendShiftAlertsCommand.php:79 | the issue text starts with the shifter count in decimal without leading zero, which its leading digits read back as, followed by " personnes inscrites sur " and the number of shifts |
| Alerts.BucketIssues | src/Command/SendShiftAlertsCommand.php:77-80 | a bucket has one issue exactly when its shifter count is below 2, and the issue is the count, " personnes inscrites sur ", then its number of shifts |
| Alerts.IssueTextInjective | src/Command/SendShiftAlertsCommand.php:79 | the issue text determines both numbers: different counts never give the same text |
| Alerts.EvaluateAlerts | src/Command/SendShiftAlertsCommand.php:74-85 | every alert has a non-empty issue list, is about one of the buckets, and carries that bucket's issues |
| Alerts.AlertIffUnderstaffed | src/Command/SendShiftAlertsCommand.php:75-85 | a bucket is alerted if and only if its shifter count is below 2 |
| Alerts.AlertsKeepBucketOrder | src/Command/SendShiftAlertsCommand.php:75-85 | the alerted buckets form a subsequence of the buckets, so alerts keep bucket order |
| Alerts.AlertedCodes | src/Command/SendShiftAlertsCommand.php:64-85 | a code is alerted exactly when it occurs among the shifts and the shifts of that code have fewer than two people booked altogether |
| Alerts.NoAlertIffStaffed | src/Command/SendShiftAlertsCommand.php:64-87 | there is no alert exactly when every code among the shifts has at least two people booked |
| Alerts.TwoSlotBuckets | src/Command/SendShiftAlertsCommand.php:64-72 | two shifts of one slot and then one of another give those two buckets, in that order |
| Alerts.WorkedExample | src/Command/SendShiftAlertsCommand.php:64-85 | morning shifts booked 0 and 1 plus a later shift booked 3 give one alert, on the morning bucket, with issue "1 personnes inscrites sur 2" |
| AlertCommand.Dispatch | src/Command/SendShiftAlertsCommand.php:87-107 | after the query, one mail goes out exactly when there is at least one alert; it goes to the given recipients and carries exactly the alerts; the report is the email-sent line with the number of alerts exactly in that case, and the no-alert line otherwise |
| AlertCommand.Execute | src/Command/SendShiftAlertsCommand.php:50-107 | a rejected date means no query, no mail and the wrong-format report. Otherwise the query asks for the start of the accepted day and the comma-split jobs. At most one mail goes out, to the comma-split recipients, with at least one alert, and the reported count is the mail's alert count |
| AlertCommand.SentIffUnderstaffedCode | src/Command/SendShiftAlertsCommand.php:87-103 | a mail is sent exactly when the date is accepted and some interval code among the day's shifts has fewer than two people booked |
| AlertCommand.SentToAllRecipients | src/Command/SendShiftAlertsCommand.php:93-103 | the mail carries all alerts, and its recipient list joined by commas is the recipients argument |
| AlertCommand.NoShiftsNoMail | src/Command/SendShiftAlertsCommand.php:64-106 | a run that reaches the query and gets no shifts sends nothing and reports that there is no alert |
| AlertCommand.ImpossibleDateStopsRun | src/Command/SendShiftAlertsCommand.php:55-61 | with "2024-02-30" the run stops before querying shifts or sending anything |
| AlertCommand.ClockIrrelevant | src/Command/SendShiftAlertsCommand.php:55-60 | the clock reading does not change the outcome, because the start-of-day normalisation discards it |
| ShiftForm.Stored | src/Form/ShiftType.php:98-99 | an entity stands for a shift exactly when both its times are set, and that shift's interval code is the one derived from its start and end |
| ShiftForm.StoredEntityOf | src/Form/ShiftType.php:98-99 | a shift comes out of an entity exactly when its interval code is the one its times derive: a stale code is impossible |
| ShiftForm.MapDataToForms | src/Form/ShiftType.php:59-80 | null data leaves the fields untouched. Non-shift data is an error. For a shift, the mapper hands both date and start its start, end its end, and copies job and formation; a new shift's unset times leave those three fields null (the framework's refusal of set `DateTime` values is under "## Left out") |
| ShiftForm.MapFormsToData | src/Form/ShiftType.php:82-102 | the new start and end are set, carry the day of the date field and keep their own time of day. Job and formation are copied, and the entity's other state is unchanged |
| ShiftForm.SubmittedShiftRecoded | src/Form/ShiftType.php:91-99 | after a submission, even on a new shift, the entity stands for a shift on the chosen day whose interval code follows the new start and end |
| ShiftForm.ResubmitIsShown | src/Form/ShiftType.php:75-79 | the fields shown for a shift, submitted untouched, are the shift's start, start, end, job and formation; there is nothing to resubmit exactly when a shown time field is empty |
| ShiftForm.RoundTripIffSameDay | src/Form/ShiftType.php:75-99 | showing a shift whose times are set and submitting it untouched gives it back exactly when it ends on the day it starts; otherwise the end moves onto the start day |
| ShiftForm.MapFormsToDataIdempotent | src/Form/ShiftType.php:91-101 | submitting the same fields a second time changes nothing more |

## Left out

- The repository query `findAt` (src/Command/SendShiftAlertsCommand.php:61) is persistence I/O. It is a function parameter, so which shifts it returns is not modelled.
- Mail construction and sending, and the template rendering of the mail body (lines 93-103), are foreign library calls. A mail is modelled only by its recipients and its alerts. The sender address and name, the subject and the HTML body are not modelled. A transport failure, which the source lets propagate, is not modelled.
- The French long-date subject (`setlocale` / `strftime`, lines 89-91) is left out. It depends on process-wide locale state and platform formatting.
- Console output is modelled only by which of the three messages is printed (`Report`). Its colour markup and the command configuration (lines 39-48) are left out.
- `buildForm` field wiring and the enabled-jobs query builder (src/Form/ShiftType.php:18-46) are left out. They are framework configuration and a database query.
- The free-text `new \DateTime(...)` reading of the submitted form fields (src/Form/ShiftType.php:87-89) is left out. `MapFormsToData` receives fields that are already read as date-times, so an empty field read as "now" is not modelled.
- src/Controller/ShiftController.php is not part of this model. It only routes, checks roles, shows flash messages and persists through the ORM.
- AlertCommand.SentIffUnderstaffedCode: the mail library's address handling in `setTo` (src/Command/SendShiftAlertsCommand.php:95) is not modelled. It throws on an address that does not comply with RFC 2822, for example the empty piece of `""` or `"a@x.org,"`, and then no mail goes out and nothing is reported. It also merges duplicate addresses. The model sends to the raw comma-split list, so this lemma, `AlertCommand.SentToAllRecipients` and `AlertCommand.Execute` promise a mail in runs where the library would throw.
- AlertCommand.Execute: a failing repository query (line 61) is not modelled. `findAt` is a total function.
- ShiftForm.MapDataToForms: the framework's plain text fields `date`, `start` and `end` (src/Form/ShiftType.php:21-23) have no data class. They refuse a `DateTime` object as data and throw a logic exception. So in the application, showing a shift whose start or end is set throws out of lines 75-77. Only a new shift with null times, as in src/Controller/ShiftController.php:29,39, is shown without failing. This member, `ShiftForm.ResubmitIsShown` and `ShiftForm.RoundTripIffSameDay` state what the mapper code does with set times. They do not describe a path the application completes.
- Calendar.SetDate: PHP rolls an out-of-range year, month and day passed to `setDate` over into a real date; the record does not. The form passes the day of a `DateTime`, which is always real, so this never arises in the modelled code.
- Calendar.SetDate: time zones and daylight-saving time are not modelled. PHP's `setDate` (src/Form/ShiftType.php:95-96) and `setTime` (src/Command/SendShiftAlertsCommand.php:60) recompute a zoned timestamp. A wall-clock time that does not exist on the target day is then shifted, for example 02:30 on 2024-03-31 in Europe/Paris becomes 03:30. `Calendar.SetDate`, `Calendar.SetTime` and `ShiftForm.MapFormsToData` promise the hour, minute and second unconditionally, which holds for the record and not for such a time.
- Calendar.CreateFromFormat: reads the year as one to four unsigned digits. Some versions of PHP's date library also accept a signed year or more digits. Such strings (for example "-0001-12-31" or "10000-01-01") would then also pass the round-trip check. For years 0 to 9999 the accepted set is the same.
- Buckets.Shift: in the bucket pass the interval code is read as a stored field. The entity's derivation of it from start and end is a parameter only in the form model. PHP's conversion of numeric-string array keys to integers is not modelled.
- Alerts.ShifterCount: is defined as the sum of per-shift counts. This is an assumption about the bucket entity, which is not part of this model.
