/**
  The decisions the route handlers make, as functions on values: the file
  check, the submission window, the Monday reset of the weekly count, the
  Friday-night penalty, the streak rule applied on approval, and the
  leaderboard order. The handlers that apply them to the tables are the
  methods of `Database.Store`.
 */
module Routes {
  import opened Wrappers
  import opened Text
  import opened Calendar
  import opened Models

  // ----- uploads ---------------------------------------------------------

  const AllowedExtensions: set<string> := {"png", "jpg", "jpeg"}

  /** `allowed_file`: a `.` is present and the text after the last one, lowered, is allowed. */
  predicate AllowedFile(filename: string) {
    match Extension(filename)
    case None => false
    case Some(ext) => Lower(ext) in AllowedExtensions
  }

  /** `allowed_file` accepts exactly the names with an allowed extension after their last `.`. */
  lemma AllowedFileIff(filename: string)
    ensures AllowedFile(filename) <==>
      exists k :: 0 <= k < |filename| && filename[k] == '.' && '.' !in filename[k + 1..]
                  && Lower(filename[k + 1..]) in AllowedExtensions
  {
    var f := filename;
    if k :| 0 <= k < |f| && f[k] == '.' && '.' !in f[k + 1..] && Lower(f[k + 1..]) in AllowedExtensions {
      ExtensionAt(f, k);
    }
  }

  /** The extension is compared lowered: an upper-case one is accepted. */
  lemma AllowedFileUpperCase()
    ensures AllowedFile("proof.PNG")
  {
    assert "proof.PNG"[6..] == "PNG";
    ExtensionAt("proof.PNG", 5);
    assert Lower("PNG") == "png";
  }

  /** Only the text after the last `.` counts. */
  lemma AllowedFileLastDot()
    ensures AllowedFile("run.2024.jpeg")
  {
    assert "run.2024.jpeg"[9..] == "jpeg";
    ExtensionAt("run.2024.jpeg", 8);
    assert Lower("jpeg") == "jpeg";
  }

  lemma AllowedFileDoubleExtension()
    ensures !AllowedFile("proof.png.exe")
  {
    assert "proof.png.exe"[10..] == "exe";
    ExtensionAt("proof.png.exe", 9);
    assert Lower("exe") == "exe";
  }

  /** A name without a `.`, or with nothing after its last one, is refused. */
  lemma AllowedFileNeedsExtension()
    ensures !AllowedFile("png")
    ensures !AllowedFile("proof.")
  {
    assert '.' !in "png" by {
      assert forall k :: 0 <= k < |"png"| ==> "png"[k] != '.';
    }
    assert "proof."[6..] == "";
    ExtensionAt("proof.", 5);
    assert Lower("") == "";
  }

  /** A name whose only `.` leads passes: its extension is everything after it. */
  lemma AllowedFileLeadingDot()
    ensures AllowedFile(".png")
  {
    assert ".png"[1..] == "png";
    ExtensionAt(".png", 0);
    assert Lower("png") == "png";
  }

  /** So does a name whose stem is only dots. */
  lemma AllowedFileDotsOnly()
    ensures AllowedFile("..jpg")
  {
    assert "..jpg"[2..] == "jpg";
    ExtensionAt("..jpg", 1);
    assert Lower("jpg") == "jpg";
  }

  // ----- the submission window -------------------------------------------

  /** `checkin_window_open`: Monday to Friday, from 00:00 up to but not including 22:00. */
  predicate CheckinWindowOpen(now: Instant) {
    Weekday(now.day) < 5 && 0 <= now.minute < TenPm
  }

  /**
    Over the week starting on Monday `monday`: on each of its first five
    days the window is open from 00:00 up to 21:59 and closed from 22:00;
    on Saturday and Sunday it is closed all day. So every day it is open
    on is a weekday.
   */
  lemma WindowOverAWeek(monday: Day, now: Instant)
    requires Weekday(monday) == Monday
    ensures forall d: Day, m: Minute :: monday <= d < monday + 7 ==>
              (CheckinWindowOpen(Instant(d, m)) <==> d < monday + 5 && m < TenPm)
    ensures CheckinWindowOpen(now) ==> IsWeekday(now.day)
  {
    forall d: Day, m: Minute | monday <= d < monday + 7
      ensures CheckinWindowOpen(Instant(d, m)) <==> d < monday + 5 && m < TenPm
    {
      WeekdayShift(monday, d - monday);
    }
  }

  // ----- the Monday reset ------------------------------------------------

  /**
    `reset_weekly_streak_if_monday`: on a Monday, a user whose last
    approved check-in is dated before today starts the week at 0.
   */
  function AfterWeeklyReset(u: User, today: Day): (r: User) {
    if Weekday(today) == Monday && u.lastCheckinDate.Some? && u.lastCheckinDate.value < today
    then u.(weeklyStreak := 0)
    else u
  }

  /** The reset changes only `weeklyStreak`, only on a Monday, and only to 0; doing it twice is doing it once. */
  lemma WeeklyResetFacts(u: User, today: Day)
    ensures AfterWeeklyReset(u, today) == u || (Weekday(today) == Monday && AfterWeeklyReset(u, today) == u.(weeklyStreak := 0))
    ensures AfterWeeklyReset(AfterWeeklyReset(u, today), today) == AfterWeeklyReset(u, today)
    ensures CountersValid(u) ==> CountersValid(AfterWeeklyReset(u, today))
  {
  }

  /**
    The reset runs only when a Monday dashboard load happens. A user who
    does not open the dashboard on Monday keeps last week's count into the
    new week, and it can spare them that week's penalty.
   */
  lemma WeeklyCountCarriesOverWithoutMondayVisit(u: User, tuesday: Day)
    requires Weekday(tuesday) == 1 && u.lastCheckinDate.Some? && u.lastCheckinDate.value < tuesday - 1
    ensures AfterWeeklyReset(u, tuesday).weeklyStreak == u.weeklyStreak
  {
  }

  /**
    The count is of approvals since the reset, not of check-ins dated this
    week: last Friday's check-in approved after Monday's reset counts 1
    toward the new week.
   */
  lemma LateApprovalCountsInNewWeek(u: User, monday: Day)
    requires Weekday(monday) == Monday && u.lastCheckinDate.Some? && u.lastCheckinDate.value < monday
    ensures AfterApproval(AfterWeeklyReset(u, monday), monday - 3).weeklyStreak == 1
  {
    WeekdayShift(monday, -3);
  }

  // ----- the weekly penalty ----------------------------------------------

  const PenaltyAmount := 10
  const WeeklyTarget := 5

  /**
    When `apply_weekly_penalty` charges, with `week` the key of the current
    week: on Friday from 22:00, in a week not yet charged, to a user with
    fewer than five approved weekday check-ins counted this week.
   */
  predicate PenaltyDueIn(u: User, now: Instant, week: WeekKey) {
    && Weekday(now.day) == Friday
    && now.minute >= TenPm
    && u.lastPenaltyWeek != Some(week)
    && u.weeklyStreak < WeeklyTarget
  }

  /** The user row after `apply_weekly_penalty`, with `week` the key of the current week. */
  function ChargedIn(u: User, now: Instant, week: WeekKey): (r: User) {
    if PenaltyDueIn(u, now, week)
    then u.(debt := u.debt + PenaltyAmount, lastPenaltyWeek := Some(week))
    else u
  }

  /** The week key of `now`'s date decides. */
  predicate PenaltyDue(u: User, now: Instant) {
    PenaltyDueIn(u, now, WeekKeyOf(now.day))
  }

  function AfterPenalty(u: User, now: Instant): (r: User) {
    ChargedIn(u, now, WeekKeyOf(now.day))
  }

  // The lemmas below hold for every week key, so they hold for the key of `now`.

  /**
    A charge adds exactly 10 to the debt and records the week; otherwise,
    and always when five or more check-ins count this week, nothing changes.
   */
  lemma PenaltyCharge(u: User, now: Instant, week: WeekKey)
    ensures PenaltyDueIn(u, now, week) ==> ChargedIn(u, now, week).debt == u.debt + 10
    ensures PenaltyDueIn(u, now, week) ==> ChargedIn(u, now, week).lastPenaltyWeek == Some(week)
    ensures !PenaltyDueIn(u, now, week) ==> ChargedIn(u, now, week) == u
    ensures u.weeklyStreak >= WeeklyTarget ==> ChargedIn(u, now, week) == u
  {
  }

  /** A second call in the week of a charge does not charge. */
  lemma PenaltyOncePerWeek(u: User, now: Instant, later: Instant, week: WeekKey)
    ensures PenaltyDueIn(u, now, week) ==> !PenaltyDueIn(ChargedIn(u, now, week), later, week)
  {
  }

  lemma PenaltyKeepsCounters(u: User, now: Instant, week: WeekKey)
    ensures CountersValid(u) ==> CountersValid(ChargedIn(u, now, week))
  {
  }

  /** The penalty is due only when the submission window is closed. */
  lemma PenaltyOutsideWindow(u: User, now: Instant, week: WeekKey)
    requires PenaltyDueIn(u, now, week)
    ensures !CheckinWindowOpen(now)
  {
  }

  /** What a dashboard load does to its user before anything else: the reset, then the penalty. */
  function DashboardEffect(u: User, now: Instant): (r: User) {
    AfterPenalty(AfterWeeklyReset(u, now.day), now)
  }

  /** The two things that change a user's streak and penalty columns. */
  datatype Event = Load(now: Instant) | Approval(day: Day)

  function Step(u: User, e: Event): (r: User) {
    match e
    case Load(now) => DashboardEffect(u, now)
    case Approval(day) => AfterApproval(u, day)
  }

  function Replay(u: User, events: seq<Event>): (r: User)
    decreases |events|
  {
    if |events| == 0 then u else Replay(Step(u, events[0]), events[1..])
  }

  /**
    At most one penalty per week: however many dashboard loads fall in one
    week key, with approvals in between, the debt grows by at most 10, and
    not at all once that week has been charged.
   */
  lemma {:induction false} AtMostOnePenaltyPerWeek(u: User, events: seq<Event>, key: WeekKey)
    requires forall i :: 0 <= i < |events| && events[i].Load? ==> WeekKeyOf(events[i].now.day) == key
    ensures u.debt <= Replay(u, events).debt <= u.debt + PenaltyAmount
    ensures u.lastPenaltyWeek == Some(key) ==> Replay(u, events).debt == u.debt
    decreases |events|
  {
    if |events| > 0 {
      var s := Step(u, events[0]);
      assert u.lastPenaltyWeek == Some(key) ==> s.debt == u.debt && s.lastPenaltyWeek == Some(key);
      assert s.debt == u.debt || (s.debt == u.debt + PenaltyAmount && s.lastPenaltyWeek == Some(key));
      assert s.debt == u.debt ==> s.lastPenaltyWeek == u.lastPenaltyWeek;
      AtMostOnePenaltyPerWeek(s, events[1..], key);
    }
  }

  // ----- Finding: the penalty as written ---------------------------------

  /** What `apply_weekly_penalty` returns as written, or that it raises. */
  datatype PenaltyAsWrittenResult = AttributeError | Returned(charged: bool)

  /**
    `apply_weekly_penalty` as written: `User` declares no
    `last_penalty_week` column, so reading `user.last_penalty_week` on
    Friday from 22:00 raises instead of comparing week keys.
   */
  function ApplyWeeklyPenaltyAsWritten(u: User, now: Instant): (r: PenaltyAsWrittenResult) {
    if Weekday(now.day) == Friday && now.minute >= TenPm then AttributeError else Returned(false)
  }

  /**
    As written, no penalty is ever charged: whenever the corrected rule
    charges, the code raises instead. Example: a user with three approved
    check-ins this week on Friday 16 October 2026 at 22:01.
   */
  lemma PenaltyAsWrittenNeverCharges(u: User, now: Instant)
    ensures ApplyWeeklyPenaltyAsWritten(u, now) != Returned(true)
    ensures PenaltyDue(u, now) ==> ApplyWeeklyPenaltyAsWritten(u, now) == AttributeError
  {
  }

  lemma PenaltyAsWrittenExample(u: User)
    requires u.weeklyStreak == 3 && u.debt == 0 && u.lastPenaltyWeek == None
    ensures ApplyWeeklyPenaltyAsWritten(u, Instant(739905, 22 * 60 + 1)) == AttributeError
    ensures PenaltyDue(u, Instant(739905, 22 * 60 + 1))
    ensures AfterPenalty(u, Instant(739905, 22 * 60 + 1)).debt == 10
  {
  }

  // ----- approval and the streaks ----------------------------------------

  function Max(a: int, b: int): (m: int) {
    if a >= b then a else b
  }

  /**
    The user row after one of its check-ins, dated `d`, is approved: the
    streak grows by one when the last approved check-in is dated the day
    before and restarts at 1 otherwise; a weekday adds to the weekly count;
    the longest streak follows the current one upwards.
   */
  function AfterApproval(u: User, d: Day): (r: User)
    ensures r.currentStreak <= r.longestStreak
    ensures r.longestStreak == Max(u.longestStreak, r.currentStreak)
    ensures r.lastCheckinDate == Some(d)
  {
    var streak := if u.lastCheckinDate == Some(d - 1) then u.currentStreak + 1 else 1;
    u.(currentStreak := streak,
       weeklyStreak := if IsWeekday(d) then u.weeklyStreak + 1 else u.weeklyStreak,
       longestStreak := if streak > u.longestStreak then streak else u.longestStreak,
       lastCheckinDate := Some(d))
  }

  /** Approval keeps the row invariant and touches neither debt nor penalty week. */
  lemma ApprovalFacts(u: User, d: Day)
    ensures CountersValid(u) ==> CountersValid(AfterApproval(u, d))
    ensures AfterApproval(u, d).debt == u.debt && AfterApproval(u, d).lastPenaltyWeek == u.lastPenaltyWeek
    ensures AfterApproval(u, d).weeklyStreak == u.weeklyStreak + (if IsWeekday(d) then 1 else 0)
    ensures AfterApproval(u, d).currentStreak ==
            (if u.lastCheckinDate == Some(d - 1) then u.currentStreak + 1 else 1)
  {
  }

  /** Approvals on Monday, Tuesday and Wednesday, in that order, give streaks 1, 2 and 3. */
  lemma ThreeDaysInOrder(u: User, monday: Day)
    requires Weekday(monday) == Monday && u.lastCheckinDate == None && u.longestStreak == 0 && u.weeklyStreak == 0
    ensures AfterApproval(u, monday).currentStreak == 1
    ensures AfterApproval(AfterApproval(u, monday), monday + 1).currentStreak == 2
    ensures var r := AfterApproval(AfterApproval(AfterApproval(u, monday), monday + 1), monday + 2);
      r.currentStreak == 3 && r.longestStreak == 3 && r.weeklyStreak == 3
  {
  }

  /**
    The rule looks at the order of approval, not at the calendar: approving
    Tuesday's check-in and then Monday's leaves a streak of 1, dated Monday.
   */
  lemma OutOfOrderApproval(u: User, monday: Day)
    ensures var r := AfterApproval(AfterApproval(u, monday + 1), monday);
      r.currentStreak == 1 && r.lastCheckinDate == Some(monday)
  {
  }

  /** A weekend always breaks a streak: Friday's approval followed by Monday's restarts at 1. */
  lemma WeekendBreaksStreak(u: User, friday: Day)
    requires Weekday(friday) == Friday && u.lastCheckinDate == Some(friday)
    ensures AfterApproval(u, friday + 3).currentStreak == 1
  {
  }

  // ----- streaks as a function of the approval history -------------------

  /** Each date is the day after the one before it. */
  predicate Consecutive(ds: seq<Day>) {
    forall i :: 0 < i < |ds| ==> ds[i] == ds[i - 1] + 1
  }

  /**
    The length of the longest suffix of `ds` whose dates are consecutive:
    the streak the rule yields for a history of approvals made in the
    order `ds` lists them.
   */
  function RunLength(ds: seq<Day>): (n: nat)
    ensures n <= |ds| && (|ds| > 0 ==> n >= 1)
    decreases |ds|
  {
    if |ds| == 0 then 0
    else if |ds| >= 2 && ds[|ds| - 2] == ds[|ds| - 1] - 1 then RunLength(ds[..|ds| - 1]) + 1
    else 1
  }

  /** The trailing run is consecutive, and the date before it (if any) does not continue it. */
  lemma {:induction false} RunLengthSpec(ds: seq<Day>)
    ensures Consecutive(ds[|ds| - RunLength(ds)..])
    ensures 0 < RunLength(ds) < |ds| ==> ds[|ds| - RunLength(ds) - 1] != ds[|ds| - RunLength(ds)] - 1
    decreases |ds|
  {
    if |ds| >= 2 && ds[|ds| - 2] == ds[|ds| - 1] - 1 {
      var init := ds[..|ds| - 1];
      RunLengthSpec(init);
      var m := RunLength(init);
      var p := init[|init| - m..];
      assert ds[|ds| - (m + 1)..] == p + [ds[|ds| - 1]];
      assert p[|p| - 1] == ds[|ds| - 2];
      ConsecutiveSnoc(p, ds[|ds| - 1]);
      assert m + 1 < |ds| ==> ds[|ds| - (m + 1) - 1] == init[|init| - m - 1] && ds[|ds| - (m + 1)] == init[|init| - m];
    }
  }

  lemma ConsecutiveSnoc(p: seq<Day>, x: Day)
    requires Consecutive(p) && |p| > 0 && p[|p| - 1] + 1 == x
    ensures Consecutive(p + [x])
  {
    var q := p + [x];
    forall i | 0 < i < |q|
      ensures q[i] == q[i - 1] + 1
    {
      if i < |p| {
        assert q[i] == p[i] && q[i - 1] == p[i - 1];
      }
    }
  }

  /** The longest run of consecutive dates anywhere in `ds`. */
  function LongestRun(ds: seq<Day>): (n: nat)
    decreases |ds|
  {
    if |ds| == 0 then 0 else Max(LongestRun(ds[..|ds| - 1]), RunLength(ds))
  }

  /** A consecutive stretch ending at `j` is no longer than the run ending there. */
  lemma RunBoundsStretch(ds: seq<Day>, i: int, j: int)
    requires 0 <= i <= j <= |ds| && Consecutive(ds[i..j])
    ensures j - i <= RunLength(ds[..j])
  {
    var p := ds[..j];
    var n := RunLength(p);
    RunLengthSpec(p);
  }

  /** `ds` has a consecutive stretch of length `n` starting at `i`. */
  ghost predicate RunAt(ds: seq<Day>, i: int, n: nat) {
    0 <= i <= |ds| - n && Consecutive(ds[i..i + n])
  }

  lemma SuffixIsRun(ds: seq<Day>)
    ensures RunAt(ds, |ds| - RunLength(ds), RunLength(ds))
  {
    var n := RunLength(ds);
    RunLengthSpec(ds);
    assert ds[|ds| - n..|ds| - n + n] == ds[|ds| - n..];
  }

  lemma RunInPrefix(ds: seq<Day>, i: int, m: nat)
    requires |ds| > 0 && RunAt(ds[..|ds| - 1], i, m)
    ensures RunAt(ds, i, m)
  {
    assert ds[i..i + m] == ds[..|ds| - 1][i..i + m];
  }

  /** `LongestRun` is the length of some consecutive stretch of `ds` ... */
  lemma {:induction false} LongestRunOccurs(ds: seq<Day>)
    ensures exists i :: RunAt(ds, i, LongestRun(ds))
    decreases |ds|
  {
    if |ds| == 0 {
      assert LongestRun(ds) == 0;
      assert RunAt(ds, 0, 0);
    } else {
      var init := ds[..|ds| - 1];
      if RunLength(ds) >= LongestRun(init) {
        SuffixIsRun(ds);
        assert LongestRun(ds) == RunLength(ds);
      } else {
        LongestRunOccurs(init);
        var i :| RunAt(init, i, LongestRun(init));
        RunInPrefix(ds, i, LongestRun(init));
        assert LongestRun(ds) == LongestRun(init);
      }
    }
  }

  /** ... and no consecutive stretch of `ds` is longer. */
  lemma {:induction false} LongestRunIsLongest(ds: seq<Day>, i: int, j: int)
    requires 0 <= i <= j <= |ds| && Consecutive(ds[i..j])
    ensures j - i <= LongestRun(ds)
    decreases |ds|
  {
    if j == |ds| {
      RunBoundsStretch(ds, i, j);
      assert ds[..j] == ds;
    } else {
      var init := ds[..|ds| - 1];
      assert ds[i..j] == init[i..j];
      LongestRunIsLongest(init, i, j);
    }
  }

  /** The streak columns are those the history of approvals determines. */
  predicate StreaksFollow(u: User, history: seq<Day>) {
    && u.currentStreak == RunLength(history)
    && u.longestStreak == LongestRun(history)
    && u.lastCheckinDate == (if history == [] then None else Some(history[|history| - 1]))
  }

  /** A new user has an empty history. */
  lemma NewUserFollowsEmptyHistory(id: nat, username: string, email: string, passwordHash: string, createdAt: Instant)
    ensures StreaksFollow(NewUser(id, username, email, passwordHash, createdAt), [])
  {
  }

  /** Approving a check-in dated `d` extends the history by `d`, whatever order the dates come in. */
  lemma ApprovalExtendsHistory(u: User, history: seq<Day>, d: Day)
    requires StreaksFollow(u, history)
    ensures StreaksFollow(AfterApproval(u, d), history + [d])
  {
    var h := history + [d];
    assert h[..|h| - 1] == history;
  }

  lemma {:induction false} ConsecutiveAt(ds: seq<Day>, i: int)
    requires Consecutive(ds) && 0 <= i < |ds|
    ensures ds[i] == ds[0] + i
  {
    if i > 0 {
      ConsecutiveAt(ds, i - 1);
    }
  }

  /** Six consecutive dates include a Saturday or a Sunday. */
  lemma WeekdayStretchesShort(ds: seq<Day>)
    requires Consecutive(ds) && forall i :: 0 <= i < |ds| ==> IsWeekday(ds[i])
    ensures |ds| <= 5
  {
    if |ds| > 5 {
      var w := Weekday(ds[0]);
      var i := if w <= 5 then 5 - w else 0;
      ConsecutiveAt(ds, i);
      WeekdayShift(ds[0], i);
    }
  }

  /**
    When every approved date is a weekday, as the submission window
    ensures, no streak can exceed 5: the rule needs the previous calendar
    day, so every weekend resets it.
   */
  lemma {:induction false} WeekdayHistoriesShort(ds: seq<Day>)
    requires forall i :: 0 <= i < |ds| ==> IsWeekday(ds[i])
    ensures RunLength(ds) <= LongestRun(ds) <= 5
    decreases |ds|
  {
    if |ds| > 0 {
      var n := RunLength(ds);
      RunLengthSpec(ds);
      WeekdayStretchesShort(ds[|ds| - n..]);
      WeekdayHistoriesShort(ds[..|ds| - 1]);
    }
  }

  // ----- the leaderboard -------------------------------------------------

  ghost predicate ByStreakDescending(users: seq<User>) {
    forall i, j :: 0 <= i < j < |users| ==> users[i].currentStreak >= users[j].currentStreak
  }

  /** Places `u` before the first user of `ranked` with no greater streak. */
  function InsertByStreak(u: User, ranked: seq<User>): (r: seq<User>)
    ensures |r| == |ranked| + 1
    decreases |ranked|
  {
    if |ranked| == 0 || u.currentStreak >= ranked[0].currentStreak then [u] + ranked
    else [ranked[0]] + InsertByStreak(u, ranked[1..])
  }

  /** Inserting keeps exactly the users ranked so far and adds `u`. */
  lemma {:induction false} InsertPermutes(u: User, ranked: seq<User>)
    ensures multiset(InsertByStreak(u, ranked)) == multiset(ranked) + multiset{u}
    decreases |ranked|
  {
    if |ranked| > 0 && u.currentStreak < ranked[0].currentStreak {
      assert ranked == [ranked[0]] + ranked[1..];
      InsertPermutes(u, ranked[1..]);
    }
  }

  lemma {:induction false} InsertKeepsBound(u: User, ranked: seq<User>, bound: int)
    requires u.currentStreak <= bound && forall k :: 0 <= k < |ranked| ==> ranked[k].currentStreak <= bound
    ensures forall k :: 0 <= k < |InsertByStreak(u, ranked)| ==> InsertByStreak(u, ranked)[k].currentStreak <= bound
    decreases |ranked|
  {
    if |ranked| > 0 && u.currentStreak < ranked[0].currentStreak {
      InsertKeepsBound(u, ranked[1..], bound);
    }
  }

  lemma {:induction false} InsertSorted(u: User, ranked: seq<User>)
    requires ByStreakDescending(ranked)
    ensures ByStreakDescending(InsertByStreak(u, ranked))
    decreases |ranked|
  {
    if |ranked| > 0 && u.currentStreak < ranked[0].currentStreak {
      var rest := ranked[1..];
      InsertSorted(u, rest);
      InsertKeepsBound(u, rest, ranked[0].currentStreak);
    }
  }

  /**
    `leaderboard`: the users ordered by current streak, highest first
    (`order_by(User.current_streak.desc())`), with nobody added or lost.
    Users with equal streaks keep table order here; the query leaves their
    order open.
   */
  function Leaderboard(users: seq<User>): (r: seq<User>)
    ensures |r| == |users|
    decreases |users|
  {
    if |users| == 0 then [] else InsertByStreak(users[0], Leaderboard(users[1..]))
  }

  /** The leaderboard is ordered by descending streak and holds exactly the users. */
  lemma {:induction false} LeaderboardSpec(users: seq<User>)
    ensures ByStreakDescending(Leaderboard(users))
    ensures multiset(Leaderboard(users)) == multiset(users)
    decreases |users|
  {
    if |users| > 0 {
      assert users == [users[0]] + users[1..];
      var rest := Leaderboard(users[1..]);
      LeaderboardSpec(users[1..]);
      InsertSorted(users[0], rest);
      InsertPermutes(users[0], rest);
    }
  }

  function Streaks(users: seq<User>): (s: seq<int>) {
    seq(|users|, i requires 0 <= i < |users| => users[i].currentStreak)
  }

  lemma LeaderboardOfTwo(b: User, c: User)
    requires b.currentStreak == 3 && c.currentStreak == 8
    ensures Leaderboard([b, c]) == [c, b]
  {
    assert [b, c][1..] == [c];
    assert [c][1..] == [];
    assert Leaderboard([c]) == [c];
    assert InsertByStreak(b, [c]) == [c] + InsertByStreak(b, []);
  }

  /** Streaks 5, 3 and 8 are listed as 8, 5, 3. */
  lemma LeaderboardExample(a: User, b: User, c: User)
    requires a.currentStreak == 5 && b.currentStreak == 3 && c.currentStreak == 8
    ensures Leaderboard([a, b, c]) == [c, a, b]
    ensures Streaks(Leaderboard([a, b, c])) == [8, 5, 3]
  {
    var r := Leaderboard([a, b, c]);
    assert r == InsertByStreak(a, [c, b]) by {
      assert [a, b, c][1..] == [b, c];
      LeaderboardOfTwo(b, c);
    }
    assert r == [c, a, b] by {
      assert [c, b][1..] == [b];
      assert InsertByStreak(a, [b]) == [a, b];
    }
    assert Streaks([c, a, b]) == [8, 5, 3] by {
      var t := Streaks([c, a, b]);
      assert |t| == 3 && t[0] == 8 && t[1] == 5 && t[2] == 3;
    }
  }
}
