/**
  The two tables of the application, `User` and `CheckIn`, their column
  defaults, and the constraints the store keeps on them.
 */
module Models {
  import opened Wrappers
  import opened Calendar

  /** The three values the `status` column takes. */
  datatype Status = Pending | Approved | Rejected

  /**
    A `User` row. `lastPenaltyWeek` is the week key of the last penalty
    charged; the penalty code reads and writes it although the table does
    not declare it (see the README), so here it is a nullable column that
    starts empty.
   */
  datatype User = User(
    id: nat,
    username: string,
    email: string,
    passwordHash: string,
    isAdmin: bool,
    role: string,
    createdAt: Instant,
    currentStreak: int,
    longestStreak: int,
    weeklyStreak: int,
    debt: int,
    lastCheckinDate: Option<Day>,
    lastPenaltyWeek: Option<WeekKey>)

  /** A `CheckIn` row: one user's submission for one calendar date. */
  datatype CheckIn = CheckIn(
    id: nat,
    userId: nat,
    checkinDate: Day,
    status: Status,
    proofFile: string,
    content: string,
    createdAt: Instant)

  /** A user row with every column that has a default left at it. */
  function NewUser(id: nat, username: string, email: string, passwordHash: string, createdAt: Instant): (u: User) {
    User(id, username, email, passwordHash, false, "user", createdAt, 0, 0, 0, 0, None, None)
  }

  /** A check-in row with `status` left at its default. */
  function NewCheckIn(id: nat, userId: nat, checkinDate: Day, proofFile: string, content: string, createdAt: Instant): (c: CheckIn) {
    CheckIn(id, userId, checkinDate, Pending, proofFile, content, createdAt)
  }

  // ----- table constraints -----------------------------------------------

  /** `username` is declared unique. */
  ghost predicate UniqueUsernames(users: seq<User>) {
    forall i, j :: 0 <= i < j < |users| ==> users[i].username != users[j].username
  }

  /** `email` is declared unique. */
  ghost predicate UniqueEmails(users: seq<User>) {
    forall i, j :: 0 <= i < j < |users| ==> users[i].email != users[j].email
  }

  /** The `unique_daily_checkin` constraint: one row per user and date. */
  ghost predicate OneCheckInPerDay(checkins: seq<CheckIn>) {
    forall i, j :: 0 <= i < j < |checkins| ==>
      checkins[i].userId != checkins[j].userId || checkins[i].checkinDate != checkins[j].checkinDate
  }

  /** Whether `user` already has a check-in row for `day`. */
  predicate SubmittedOn(checkins: seq<CheckIn>, user: nat, day: Day) {
    exists k :: 0 <= k < |checkins| && checkins[k].userId == user && checkins[k].checkinDate == day
  }

  /**
    What the application keeps true of every user row: counters are not
    negative, the current streak never exceeds the longest, and debt is
    charged ten at a time, only together with a penalty week.
   */
  ghost predicate CountersValid(u: User) {
    && 0 <= u.currentStreak <= u.longestStreak
    && 0 <= u.weeklyStreak
    && 0 <= u.debt && u.debt % 10 == 0
    && (u.lastPenaltyWeek.None? ==> u.debt == 0)
  }

  /**
    Between two states of the check-in table: rows are only added, and a
    row that was approved or rejected is unchanged; `pending` is the only
    status that moves.
   */
  ghost predicate SettledRowsKept(before: seq<CheckIn>, after: seq<CheckIn>) {
    && |before| <= |after|
    && forall k :: 0 <= k < |before| && before[k].status != Pending ==> after[k] == before[k]
  }

  /** A fresh user row satisfies the row invariant. */
  lemma NewUserValid(id: nat, username: string, email: string, passwordHash: string, createdAt: Instant)
    ensures CountersValid(NewUser(id, username, email, passwordHash, createdAt))
  {
  }
}
