# hustle check-in tracker, modelled in Dafny

hustle is a small Flask application for a group that holds itself to a
workout routine. Members register, then submit one check-in per weekday:
a short description and a proof image. An admin approves or rejects each
pending check-in. Approval drives the streak counters:

- `current_streak` counts consecutive calendar days of approved check-ins;
- `longest_streak` is the best `current_streak` so far;
- `weekly_streak` counts approvals of weekday-dated check-ins since the
  last Monday reset. That reset runs only when the user opens the dashboard
  on a Monday.

A user who has fewer than five approved check-ins when they open the
dashboard on Friday from 22:00 owes the group R10. The penalty is charged
once per week.

This project models that core:

- the two tables, `User` and `CheckIn`, with their defaults and uniqueness
  constraints (module `Models`);
- the decisions the route handlers make, as functions on values: the upload
  check, the submission window, the Monday reset, the Friday penalty, the
  streak rule and the leaderboard order (module `Routes`). The penalty rule
  is written for a given week key (`PenaltyDueIn`, `ChargedIn`), and the
  handler applies it to the key of today's date; its lemmas hold for every
  key, so they hold for that one;
- the date arithmetic behind them: weekdays, and the `%Y-%W` week key with
  Python's own proleptic Gregorian calendar (module `Calendar`);
- `str.strip` and `str.lower` as the handlers use them, and the last-`.`
  split of a filename (module `Text`);
- registration's normalisation and its outcomes (module `Auth`);
- the database as one object, `Database.Store`. Its fields are the two
  tables, plus a ghost record of each user's approved dates. Its methods are
  the handlers, written as the sequences of guards and field updates the
  source performs.

The clock is a parameter everywhere: a `Calendar.Instant` is a day number
plus minutes since midnight. Day 1 is 1 January of year 1, as in
`date.toordinal`, so weekday 0 is Monday. Three other things the handlers
obtain from libraries are also plain parameters of the methods:

- the password hash function;
- werkzeug's `secure_filename`, as a function from the uploaded name to the
  sanitised one, and the random token (`uuid4().hex[:12]`) that, with the
  lowered extension of the sanitised name, makes the name the proof is
  stored under;
- the `created_at` timestamp.

`Store.Valid()` is the invariant every handler keeps:

- ids follow row positions;
- usernames and emails are unique, non-empty and in normalised form;
- at most one check-in exists per user and date, and every check-in is
  dated on a weekday (see the clock reading under "Left out");
- the streak columns of each user are exactly those that the history of
  that user's approved dates determines. `RunLength` gives the trailing run
  of consecutive days and `LongestRun` the longest run. The history is
  exactly the dates of that user's approved check-ins;
- debt is charged ten at a time, only together with a penalty week.

One consequence is proved from this invariant: every streak stays at or
below 5 (`Database.StreaksAtMostFive`), because the rule needs the previous
calendar day and every weekend breaks the run. Separately, `pending` is the
only status that ever moves: `Submit`, `Approve` and `Reject` ensure that
settled rows are kept (`SettledRowsKept`), and the other handlers leave the
check-in table unchanged. The weekday dating and the bound of 5 rest on
the model reading the clock once per request; the handler reads it several
times, which can date a check-in on a Sunday (see "Left out").

In these places the model follows the code, where one would expect
otherwise:

- One would expect "once per week" to mean a Monday-to-Sunday week. The
  week key is `strftime("%Y-%W")`, which is not an ISO week either: its weeks
  start on Monday, and the days before a year's first Monday fall in week 0.
  So the key can split one Monday-to-Sunday week at the turn of the year
  (`Calendar.KeySplitsAtNewYear`). It never merges two weeks.
- One would expect a weekday-only routine to keep a streak across the
  weekend. The streak counts consecutive calendar days, so a Friday followed
  by a Monday restarts it at 1 (`Routes.WeekendBreaksStreak`).
- One would expect the weekly count to count this week's check-ins. It
  counts approvals since the Monday reset. A user who does not open the
  dashboard on Monday carries last week's count over
  (`Routes.WeeklyCountCarriesOverWithoutMondayVisit`). Last week's check-in
  approved after the reset counts toward the new week
  (`Routes.LateApprovalCountsInNewWeek`).
- One would expect approval order not to matter. Approving Tuesday before
  Monday leaves a streak of 1 (`Routes.OutOfOrderApproval`).
- One would expect every upload that passes `allowed_file` to be stored.
  The submission handler sanitises the file name after `allowed_file` has
  accepted it and splits the sanitised name at its last `.`. When
  `secure_filename` leaves no `.` (it drops leading dots, so `.png` becomes
  `png`), that split raises and nothing is inserted: `Submit` ends in
  `ExtensionLost` (`Database.LeadingDotLosesExtension`).

One place departs from the code on purpose. The penalty code reads and
writes a penalty-week column that the `User` table does not declare, so as
written it raises every Friday from 22:00 (`Routes.ApplyWeeklyPenaltyAsWritten`,
see Findings). `Models.User` adds that column as an optional week key that
starts empty, and `Store.ApplyWeeklyPenalty` and `Store.Dashboard` charge
by the corrected rule.

## Model

| member | source | states |
|---|---|---|
| Routes.AllowedFileIff | app/routes.py:13-17 | a filename is accepted exactly when it has a `.` and the text after its last `.`, lower-cased, is png, jpg or jpeg |
| Routes.AllowedFileUpperCase | app/routes.py:13-17 | `proof.PNG` is accepted: the extension is compared lower-cased |
| Routes.AllowedFileLastDot | app/routes.py:13-17 | `run.2024.jpeg` is accepted: only the text after the last `.` counts |
| Routes.AllowedFileDoubleExtension | app/routes.py:13-17 | `proof.png.exe` is rejected |
| Routes.AllowedFileLeadingDot | app/routes.py:13-17 | `.png` is accepted: the extension is the text after the only `.` |
| Routes.AllowedFileDotsOnly | app/routes.py:13-17 | `..jpg` is accepted |
| Routes.AllowedFileNeedsExtension | app/routes.py:13-17 | `png` (no dot) and `proof.` (nothing after the dot) are rejected |
| Text.LastDot | app/routes.py:17 | `rsplit(".", 1)` finds a position exactly when the name holds a `.`; that position holds a `.` and no `.` follows it |
| Text.ExtensionAt | app/routes.py:17 | any `.` with no `.` after it is the one `rsplit(".", 1)` splits at, and the extension is the text after it |
| Text.StripSpec | app/auth.py:17 | the result of `strip` is the input without its leading and trailing whitespace, as `str.isspace` defines it; it neither starts nor ends with whitespace, and it is empty exactly when the input is all whitespace |
| Text.StripIdempotent | app/auth.py:17-18 | stripping twice is stripping once |
| Text.TrimmedStrip | app/auth.py:17 | what `strip` returns neither starts nor ends with whitespace, and a string of that shape is its own strip |
| Text.LowerNormal | app/auth.py:18 | a lowered string holds no upper-case letter, and lowering it again changes nothing |
| Text.LowerStripCommute | app/auth.py:18 | stripping then lowering equals lowering then stripping |
| Routes.WindowOverAWeek | app/routes.py:20-22 | in a week from its Monday, the window is open at minute `m` of day `d` exactly when `d` is Monday to Friday and `m` is before 22:00; so it is closed from 22:00 every weekday and all weekend, and open only on weekdays |
| Calendar.Weekday | app/routes.py:22 | the weekday of a day number lies between 0 (Monday) and 6 (Sunday) |
| Calendar.WeekdayShift | app/routes.py:22 | moving `k` days on moves the weekday `k` places on, modulo 7 |
| Calendar.MondayOf | app/routes.py:35-36 | the Monday of a day's week is a Monday, at most six days earlier |
| Calendar.YearOfCorrect | app/routes.py:36 | the year computed as Python's ordinal conversion does holds the day: the day falls between that year's 1 January and the end of that year |
| Calendar.WeekNumberRange | app/routes.py:36 | `%W` week numbers run from 0 to 53 |
| Calendar.SameKeySameWeek | app/routes.py:36 | two days with the same week key fall in the same Monday-to-Sunday week |
| Calendar.SameWeekSameKey | app/routes.py:36 | two days of one Monday-to-Sunday week in the same year have the same key |
| Calendar.OneFridayPerKey | app/routes.py:35-36 | a week key contains at most one Friday |
| Calendar.KeySplitsAtNewYear | app/routes.py:36 | 31 December 2025 and 1 January 2026 share a Monday but have keys 2025-52 and 2026-00 |
| Routes.WeeklyResetFacts | app/routes.py:25-29 | the reset changes nothing, or on a Monday sets only `weekly_streak` to 0; repeating it changes nothing more; it keeps the row invariant |
| Routes.WeeklyCountCarriesOverWithoutMondayVisit | app/routes.py:25-29 | on a Tuesday the reset does not run, so last week's count survives into a week whose Monday had no dashboard load |
| Routes.LateApprovalCountsInNewWeek | app/routes.py:25-29 | a check-in dated last Friday and approved after Monday's reset makes the new week's count 1 |
| Routes.PenaltyCharge | app/routes.py:32-43 | for the key of the current week (and indeed for any key): when due, the penalty adds exactly 10 to `debt` and records the week; otherwise, and always with five or more weekly check-ins, the row is unchanged |
| Routes.PenaltyOncePerWeek | app/routes.py:36-41 | after a charge under a week key, no later moment under the same key is due |
| Routes.PenaltyKeepsCounters | app/routes.py:38-41 | under any week key, the penalty keeps the row invariant; debt stays a non-negative multiple of 10 |
| Routes.PenaltyOutsideWindow | app/routes.py:35 | the penalty is only due while the submission window is closed |
| Routes.AtMostOnePenaltyPerWeek | app/routes.py:32-43 | over any sequence of dashboard loads within one week key, with approvals in between, debt grows by at most 10, and not at all when that week was already charged |
| Routes.PenaltyAsWrittenNeverCharges | app/routes.py:38-41 | as written, whenever a penalty would be due the handler raises instead, so it never charges |
| Routes.PenaltyAsWrittenExample | app/routes.py:35-41 | at 22:01 on Friday 16 October 2026 a user with three check-ins that week makes the code raise, while the corrected rule charges 10 |
| Routes.AfterApproval | app/routes.py:155-169 | after approval the current streak is at most the longest, the longest is the larger of its old value and the new current streak, and the last check-in date is the approved date |
| Routes.ApprovalFacts | app/routes.py:155-169 | approval sets the streak to old + 1 exactly when the last approved date is the day before, and to 1 otherwise; it adds 1 to the weekly count exactly on weekdays; it leaves debt and penalty week alone; it keeps the row invariant |
| Routes.ThreeDaysInOrder | app/routes.py:155-167 | approving Monday, Tuesday and Wednesday in order gives a streak of 3 |
| Routes.OutOfOrderApproval | app/routes.py:155-161 | approving Tuesday before Monday leaves a streak of 1, not 2 |
| Routes.WeekendBreaksStreak | app/routes.py:155-161 | approving a Monday after a Friday restarts the streak at 1 |
| Routes.RunLengthSpec | app/routes.py:155-161 | the trailing run of a history is a run of consecutive days, and no longer trailing run exists |
| Routes.LongestRunOccurs | app/routes.py:166-167 | the longest run of a history is the length of some run in it |
| Routes.LongestRunIsLongest | app/routes.py:166-167 | every run of consecutive days in a history is at most the longest run |
| Routes.ApprovalExtendsHistory | app/routes.py:155-169 | a row whose streak columns follow a history follows that history extended by the approved date, in whatever order the dates arrive |
| Routes.NewUserFollowsEmptyHistory | app/models.py:17-22 | a new user's streak columns follow the empty history |
| Routes.WeekdayStretchesShort | app/routes.py:20-22 | a run of consecutive days that are all weekdays has at most 5 days |
| Routes.WeekdayHistoriesShort | app/routes.py:155-167 | on a history of weekdays, the current streak is at most the longest, which is at most 5 |
| Routes.InsertPermutes | app/routes.py:212 | inserting into the ranking keeps exactly the same users plus the new one |
| Routes.InsertSorted | app/routes.py:212 | inserting into a ranking ordered by descending streak keeps it ordered |
| Routes.LeaderboardSpec | app/routes.py:212 | the leaderboard is ordered by descending current streak and is a permutation of the users |
| Routes.LeaderboardExample | app/routes.py:212 | users with streaks 5, 3 and 8 are listed as 8, 5, 3 |
| Models.NewUserValid | app/models.py:10-22 | a new user row, with its zero counters, satisfies the row invariant |
| Auth.NormalizeIdempotent | app/auth.py:17-18 | normalising a normalised username or email changes nothing |
| Auth.NormalizedShape | app/auth.py:17-18 | a normalised username is trimmed; a normalised email is trimmed and holds no upper-case letter |
| Auth.StoredNamesAreNormalized | app/auth.py:17-18 | names of that shape are left as they are by normalisation, so the stored names are fixed points of it |
| Auth.AppendKeepsUnique | app/auth.py:30-36 | adding a user whose username and email are unused keeps both columns unique |
| Database.AppendCheckInKeepsValid | app/models.py:36-38 | a new row for a user and date that have none keeps at most one check-in per user and date |
| Database.StatusChangeKeepsValid | app/models.py:36-38 | changing a row's status keeps at most one check-in per user and date |
| Database.ApproveKeepsRecorded | app/routes.py:169-170 | approving a pending row and adding its date to its user's history keeps the history equal to the approved dates |
| Database.RejectKeepsRecorded | app/routes.py:198-202 | rejecting a pending row keeps every history equal to the approved dates |
| Database.Store.Register | app/auth.py:13-52 | each refusal happens exactly when its check is the first one to fail: signed in, a field empty after normalisation, a password under 6 characters, a username in use, an email in use after strip and lower-case; then the table is unchanged. Otherwise exactly one user is appended, with id next in line, the normalised names, the hash and default columns |
| Database.Store.ResetWeeklyStreakIfMonday | app/routes.py:25-29 | the user's row becomes its reset, no other row changes, and the invariant is kept |
| Database.PenaltyRow | app/routes.py:32-43 | the handler's step-by-step checks and updates charge exactly when the penalty is due and leave the row as the penalty rule says |
| Database.Store.ApplyWeeklyPenalty | app/routes.py:32-43 | it returns true exactly when the penalty is due; the user's row becomes its penalised form, no other row changes, and the invariant is kept |
| Database.Store.Submit | app/routes.py:74-121 | each refusal happens exactly when its guard is the first to fail: window closed, already submitted today, blank description, no file name, disallowed type; then the table is unchanged. After those guards, it ends in the split error exactly when the sanitised name holds no `.`, again with the table unchanged. Otherwise exactly one pending row is appended, dated today, for this user, stored under the token and the lowered extension. Settled rows never change |
| Database.StoredProofName | app/routes.py:104-106 | the stored name starts with the token, and its extension (after its last `.`) is the lowered extension of the sanitised name |
| Database.LeadingDotLosesExtension | app/routes.py:100-105 | an upload named `.png` passes every guard, but when `secure_filename` turns it into `png` the submission is not accepted |
| Database.SubmitDecision | app/routes.py:74-105 | a submission is accepted exactly when every guard passes and the sanitised name keeps a `.`, and then its id is the next one |
| Database.SaturdayPostRefused | app/routes.py:20-22 | a post on a Saturday is refused by the window check, whatever the form |
| Database.Store.Dashboard | app/routes.py:63-124 | the reset, then the penalty, then for a form post the submission, whose outcome is exactly the one `Submit` returns on the table as it was: the refusal named by the first failing guard, the split error, or the next id and the appended row; the user's row becomes the reset-then-penalty effect |
| Database.ApprovedRow | app/routes.py:155-169 | the handler's step-by-step streak updates leave the row exactly as the streak rule says |
| Database.Store.Approve | app/routes.py:141-172 | non-admins get 403, an unknown id 404, a settled row "Already processed" with nothing changed. Otherwise the row becomes approved, its user's row takes the streak rule, and the approved date joins that user's history |
| Database.Store.Reject | app/routes.py:191-203 | the same guards; a pending row becomes rejected, and no user row changes |
| Database.StreaksAtMostFive | app/routes.py:155-167 | in any valid database every user has 0 ≤ current streak ≤ longest streak ≤ 5 |

## Left out

- Flask routing, templates, flash messages and redirects are not modelled. Every handler returns an outcome value that names the message it would flash.
- Sessions are not modelled: `login_required`, `current_user` and the `admin_required` decorator. The signed-in user's id and the admin flag are method parameters.
- `login` is not modelled. It depends on `check_password_hash`, a library call. Password hashing is an opaque function parameter.
- The upload's file handling is left out: what `secure_filename` computes, `uuid4`, creating the directory and saving the file. `secure_filename` and the token are parameters of `Submit`, so the sanitiser's own rules (which characters it keeps) are not modelled.
- `uploaded_file` is left out, because it only serves files.
- `forgot_password` is left out, because it is a stub that sends nothing.
- `make_admin` is left out. It is an unauthenticated backdoor keyed on one hard-coded email.
- app/__init__.py and config.py are app set-up and environment lookup. The model starts from an empty database instead.
- The `Leaderboard` table is left out, because nothing writes it.
- The dashboard's `GET` listing and `review_checkins` are left out. They only read rows for a template.
- Database transactions and the race between the existence check and the insert are not modelled. Uniqueness is an invariant of `Store`, and each handler runs as one atomic step.
- `MAX_CONTENT_LENGTH` and the column length limits (`String(80)` and so on) are not modelled. They are enforced outside the handlers.
- `datetime.now()` and `date.today()` are read at several points of one request. The model reads one `now` per request and dates the check-in by `now.day`. The handler reads `date.today()` before the window check reads `datetime.now()`, so a post that straddles midnight between Sunday and Monday is dated Sunday. Approving that Sunday and then Monday to Friday in order gives a streak of 6. The model does not capture this: `Store.Valid()`'s weekday dating and `Database.StreaksAtMostFive` hold only under the single clock reading.
- Text.Lower: lower-cases only ASCII letters. That is exact for the extension check, whose allowed values are ASCII, but for emails Python's Unicode case mapping of other letters is not modelled.
- Calendar.YearOf: day numbers are unbounded. The range of `date` (years 1 to 9999) and its overflow error are not modelled.
- Database integers are unbounded, so the model has no 32-bit limit on counters or ids.
- Routes.LeaderboardSpec: ties in `current_streak` are listed in insertion order. The database's order for ties is unspecified, so the model states only the descending order and the permutation.
- Routes.AfterApproval: does not promise `current_streak >= 1` for an arbitrary row. It holds for valid rows, via the target of `Routes.ApprovalExtendsHistory`.

## Findings

| source | as written | input that shows it | evidently intended | confidence | as-written member | corrected member |
|---|---|---|---|---|---|---|
| app/routes.py:38-41 | `apply_weekly_penalty` reads and writes `user.last_penalty_week`. The `User` model (app/models.py:5-24) declares no such column, so on Friday from 22:00 the read raises `AttributeError` and the dashboard fails for every user. | a user with `weekly_streak` 3 opening the dashboard at 22:01 on Friday 16 October 2026 | a nullable week-key column on `User`, starting empty, so that the user is charged 10 once in that week | not executed; high | Routes.PenaltyAsWrittenNeverCharges | Routes.AtMostOnePenaltyPerWeek |
