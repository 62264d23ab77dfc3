/**
  The database session as an object: the `User` and `CheckIn` tables as
  sequences (the row with id `n` at index `n - 1`), and the request
  handlers that read and change them — registration, the dashboard's
  reset, penalty and submission, and the admin's approve and reject.
 */
module Database {
  import opened Wrappers
  import opened Text
  import opened Calendar
  import opened Models
  import opened Routes
  import opened Auth

  /** The `POST /dashboard` form: the `content` field and the uploaded file's name; either may be absent. */
  datatype SubmitForm = SubmitForm(content: Option<string>, proofFilename: Option<string>)

  /**
    How a check-in submission ends: one refusal per flash message;
    `ExtensionLost` is the `IndexError` raised when the sanitised file name
    holds no `.`, after which nothing is inserted.
   */
  datatype SubmitOutcome =
    | WindowClosed
    | AlreadySubmitted
    | DescriptionRequired
    | ProofRequired
    | InvalidFileType
    | ExtensionLost
    | Submitted(id: nat)

  /** How `approve_checkin` and `reject_checkin` end: 403, 404, "Already processed." or done. */
  datatype Disposition = Forbidden | NotFound | AlreadyProcessed | Disposed

  /** `content` is present and not blank. */
  predicate HasText(content: Option<string>) {
    content.Some? && Strip(content.value) != []
  }

  /** A file was uploaded and it has a name. */
  predicate HasUpload(filename: Option<string>) {
    filename.Some? && filename.value != []
  }

  /** Every guard of the submission branch passes. */
  predicate GuardsPass(checkins: seq<CheckIn>, uid: nat, now: Instant, form: SubmitForm) {
    && CheckinWindowOpen(now)
    && !SubmittedOn(checkins, uid, now.day)
    && HasText(form.content)
    && HasUpload(form.proofFilename)
    && AllowedFile(form.proofFilename.value)
  }

  /**
    The guards pass and the name `secure` makes of the upload's name still
    holds a `.`, so the extension can be read off it.
   */
  predicate SubmissionAccepted(checkins: seq<CheckIn>, uid: nat, now: Instant, form: SubmitForm, secure: string -> string) {
    && GuardsPass(checkins, uid, now, form)
    && '.' in secure(form.proofFilename.value)
  }

  /**
    The outcome of the submission branch on the table `checkins`: the
    first guard that fails names the refusal, a sanitised name without a
    `.` is the split error, and otherwise the new row gets the next id.
   */
  function SubmitDecision(checkins: seq<CheckIn>, uid: nat, now: Instant, form: SubmitForm, secure: string -> string): (r: SubmitOutcome)
    ensures r.Submitted? <==> SubmissionAccepted(checkins, uid, now, form, secure)
    ensures r.Submitted? ==> r.id == |checkins| + 1
  {
    if !CheckinWindowOpen(now) then WindowClosed
    else if SubmittedOn(checkins, uid, now.day) then AlreadySubmitted
    else if !HasText(form.content) then DescriptionRequired
    else if !HasUpload(form.proofFilename) then ProofRequired
    else if !AllowedFile(form.proofFilename.value) then InvalidFileType
    else if '.' !in secure(form.proofFilename.value) then ExtensionLost
    else Submitted(|checkins| + 1)
  }

  /** A post on Saturday 17 October 2026 at 10:00 is refused by the window check, whatever the form. */
  lemma SaturdayPostRefused(checkins: seq<CheckIn>, uid: nat, form: SubmitForm, secure: string -> string)
    ensures SubmitDecision(checkins, uid, Instant(739906, 600), form, secure) == WindowClosed
  {
    assert Weekday(739906) == 5;
  }

  /**
    The name the proof is stored under: the random `token`, a `.`, and the
    lowered text after the last `.` of the sanitised name `safe`.
   */
  function StoredProofName(token: string, safe: string): (n: string)
    requires '.' in safe
    ensures |n| > |token| && n[..|token|] == token
    ensures Extension(n) == Some(Lower(Extension(safe).value))
  {
    var ext := Extension(safe).value;
    var n := token + "." + Lower(ext);
    assert '.' !in Lower(ext) by {
      assert forall k :: 0 <= k < |ext| ==> LowerChar(ext[k]) != '.';
    }
    assert n[|token| + 1..] == Lower(ext);
    ExtensionAt(n, |token|);
    n
  }

  /**
    `.png` passes every file check, but `secure_filename` drops leading
    dots and returns `png`: then no `.` is left to split at, and the
    submission ends in `ExtensionLost` instead of a new row.
   */
  lemma LeadingDotLosesExtension(checkins: seq<CheckIn>, uid: nat, now: Instant, content: string, secure: string -> string)
    requires CheckinWindowOpen(now) && !SubmittedOn(checkins, uid, now.day) && HasText(Some(content))
    requires secure(".png") == "png"
    ensures GuardsPass(checkins, uid, now, SubmitForm(Some(content), Some(".png")))
    ensures !SubmissionAccepted(checkins, uid, now, SubmitForm(Some(content), Some(".png")), secure)
  {
    AllowedFileLeadingDot();
    assert "png"[0] != '.' && "png"[1] != '.' && "png"[2] != '.';
  }

  /** The registration form passes the checks that do not look at the table. */
  predicate FormComplete(username: string, email: string, password: string) {
    !MissingField(username, email, password) && |password| >= MinPasswordLength
  }

  // ----- what the tables keep ---------------------------------------------

  /** `user` has an approved check-in dated `day`. */
  ghost predicate ApprovedOn(checkins: seq<CheckIn>, user: nat, day: Day) {
    exists k :: 0 <= k < |checkins| && checkins[k].userId == user && checkins[k].checkinDate == day && checkins[k].status == Approved
  }

  /**
    `approvals[i]` lists, in the order they were approved, exactly the
    dates of the approved check-ins of the user with id `i + 1`.
   */
  ghost predicate ApprovalsRecorded(checkins: seq<CheckIn>, approvals: seq<seq<Day>>) {
    && (forall k :: 0 <= k < |checkins| && checkins[k].status == Approved ==>
          0 < checkins[k].userId <= |approvals| && checkins[k].checkinDate in approvals[checkins[k].userId - 1])
    && (forall i, j {:trigger EntryApproved(checkins, approvals, i, j)} ::
          0 <= i < |approvals| && 0 <= j < |approvals[i]| ==> EntryApproved(checkins, approvals, i, j))
  }

  /** Entry `j` of the history of the user with id `i + 1` is the date of one of their approved check-ins. */
  ghost predicate EntryApproved(checkins: seq<CheckIn>, approvals: seq<seq<Day>>, i: int, j: int) {
    0 <= i < |approvals| && 0 <= j < |approvals[i]| && ApprovedOn(checkins, i + 1, approvals[i][j])
  }

  /** A user row: normalised names, sane counters, streak columns that follow its approval history of weekdays. */
  ghost predicate UserRowValid(u: User, history: seq<Day>) {
    && StoredNamesNormal(u)
    && CountersValid(u)
    && StreaksFollow(u, history)
    && (forall j :: 0 <= j < |history| ==> IsWeekday(history[j]))
  }

  /** A check-in row at index `k` of a store with `n` users. */
  ghost predicate CheckInRowValid(c: CheckIn, k: int, n: int) {
    c.id == k + 1 && 1 <= c.userId <= n && IsWeekday(c.checkinDate)
  }

  // ----- how each change keeps the tables valid ---------------------------

  lemma ResetKeepsRow(u: User, history: seq<Day>, today: Day)
    requires UserRowValid(u, history)
    ensures UserRowValid(AfterWeeklyReset(u, today), history)
  {
    WeeklyResetFacts(u, today);
  }

  lemma PenaltyKeepsRow(u: User, history: seq<Day>, now: Instant, week: WeekKey)
    requires UserRowValid(u, history)
    ensures UserRowValid(ChargedIn(u, now, week), history)
  {
    PenaltyKeepsCounters(u, now, week);
  }

  lemma ApprovalKeepsRow(u: User, history: seq<Day>, d: Day)
    requires UserRowValid(u, history) && IsWeekday(d)
    ensures UserRowValid(AfterApproval(u, d), history + [d])
  {
    ApprovalFacts(u, d);
    ApprovalExtendsHistory(u, history, d);
    var h := history + [d];
    forall j | 0 <= j < |h|
      ensures IsWeekday(h[j])
    {
      if j < |history| {
        assert h[j] == history[j];
      }
    }
  }

  lemma NewUserRow(id: nat, name: string, mail: string, passwordHash: string, createdAt: Instant)
    requires name != [] && Trimmed(name)
    requires mail != [] && Trimmed(mail) && HasNoUpper(mail)
    ensures UserRowValid(NewUser(id, name, mail, passwordHash, createdAt), [])
  {
    NewUserValid(id, name, mail, passwordHash, createdAt);
    NewUserFollowsEmptyHistory(id, name, mail, passwordHash, createdAt);
  }

  /** Replacing a row by one with the same id and names, valid for its new history. */
  lemma ReplaceUserKeepsValid(users: seq<User>, approvals: seq<seq<Day>>, i: int, u: User, history: seq<Day>)
    requires UsersValid(users, approvals) && 0 <= i < |users|
    requires u.id == users[i].id && u.username == users[i].username && u.email == users[i].email
    requires UserRowValid(u, history)
    ensures UsersValid(users[i := u], approvals[i := history])
  {
    var us := users[i := u];
    var hs := approvals[i := history];
    forall k | 0 <= k < |us|
      ensures us[k].id == k + 1 && UserRowValid(us[k], hs[k])
    {
      if k != i {
        assert us[k] == users[k] && hs[k] == approvals[k];
      }
    }
  }

  /** The same, for a change that leaves the row's history as it is. */
  lemma ReplaceUserKeepsHistory(users: seq<User>, approvals: seq<seq<Day>>, i: int, u: User)
    requires UsersValid(users, approvals) && 0 <= i < |users|
    requires u.id == users[i].id && u.username == users[i].username && u.email == users[i].email
    requires UserRowValid(u, approvals[i])
    ensures UsersValid(users[i := u], approvals)
  {
    ReplaceUserKeepsValid(users, approvals, i, u, approvals[i]);
    assert approvals[i := approvals[i]] == approvals;
  }

  lemma AppendUserKeepsValid(users: seq<User>, approvals: seq<seq<Day>>, u: User)
    requires UsersValid(users, approvals)
    requires !UsernameInUse(users, u.username) && !EmailInUse(users, u.email)
    requires u.id == |users| + 1 && UserRowValid(u, [])
    ensures UsersValid(users + [u], approvals + [[]])
  {
    AppendKeepsUnique(users, u);
    var us := users + [u];
    var hs := approvals + [[]];
    forall k | 0 <= k < |us|
      ensures us[k].id == k + 1 && UserRowValid(us[k], hs[k])
    {
      if k < |users| {
        assert us[k] == users[k] && hs[k] == approvals[k];
      }
    }
  }

  lemma MoreUsersKeepCheckIns(checkins: seq<CheckIn>, n: int, m: int)
    requires CheckInsValid(checkins, n) && n <= m
    ensures CheckInsValid(checkins, m)
  {
    forall k | 0 <= k < |checkins|
      ensures CheckInRowValid(checkins[k], k, m)
    {
      assert CheckInRowValid(checkins[k], k, n);
    }
  }

  /** A new row for a user and day that have none keeps the one-per-day rule. */
  lemma AppendCheckInKeepsValid(checkins: seq<CheckIn>, n: int, c: CheckIn)
    requires CheckInsValid(checkins, n) && CheckInRowValid(c, |checkins|, n)
    requires !SubmittedOn(checkins, c.userId, c.checkinDate)
    ensures CheckInsValid(checkins + [c], n)
  {
    var cs := checkins + [c];
    forall k | 0 <= k < |cs|
      ensures CheckInRowValid(cs[k], k, n)
    {
      if k < |checkins| {
        assert cs[k] == checkins[k];
      }
    }
    forall i, j | 0 <= i < j < |cs|
      ensures cs[i].userId != cs[j].userId || cs[i].checkinDate != cs[j].checkinDate
    {
      assert cs[i] == checkins[i];
      if j < |checkins| {
        assert cs[j] == checkins[j];
      }
    }
  }

  /** Changing a row's status keeps the check-in table valid. */
  lemma StatusChangeKeepsValid(checkins: seq<CheckIn>, n: int, x: int, status: Status)
    requires CheckInsValid(checkins, n) && 0 <= x < |checkins|
    ensures CheckInsValid(checkins[x := checkins[x].(status := status)], n)
  {
    var cs := checkins[x := checkins[x].(status := status)];
    forall k | 0 <= k < |cs|
      ensures CheckInRowValid(cs[k], k, n)
    {
      assert CheckInRowValid(checkins[k], k, n);
    }
    forall i, j | 0 <= i < j < |cs|
      ensures cs[i].userId != cs[j].userId || cs[i].checkinDate != cs[j].checkinDate
    {
      assert cs[i].userId == checkins[i].userId && cs[i].checkinDate == checkins[i].checkinDate;
      assert cs[j].userId == checkins[j].userId && cs[j].checkinDate == checkins[j].checkinDate;
    }
  }

  lemma AppendUserKeepsRecorded(checkins: seq<CheckIn>, approvals: seq<seq<Day>>)
    requires ApprovalsRecorded(checkins, approvals)
    ensures ApprovalsRecorded(checkins, approvals + [[]])
  {
    var hs := approvals + [[]];
    forall i, j | 0 <= i < |hs| && 0 <= j < |hs[i]|
      ensures EntryApproved(checkins, hs, i, j)
    {
      assert hs[i] == approvals[i];
      assert EntryApproved(checkins, approvals, i, j);
    }
  }

  lemma AppendPendingKeepsRecorded(checkins: seq<CheckIn>, approvals: seq<seq<Day>>, c: CheckIn)
    requires ApprovalsRecorded(checkins, approvals) && c.status == Pending
    ensures ApprovalsRecorded(checkins + [c], approvals)
  {
    var cs := checkins + [c];
    forall k | 0 <= k < |cs| && cs[k].status == Approved
      ensures 0 < cs[k].userId <= |approvals| && cs[k].checkinDate in approvals[cs[k].userId - 1]
    {
      assert cs[k] == checkins[k];
    }
    forall i, j | 0 <= i < |approvals| && 0 <= j < |approvals[i]|
      ensures EntryApproved(cs, approvals, i, j)
    {
      assert EntryApproved(checkins, approvals, i, j);
      var m :| 0 <= m < |checkins| && checkins[m].userId == i + 1 && checkins[m].checkinDate == approvals[i][j] && checkins[m].status == Approved;
      assert cs[m] == checkins[m];
    }
  }

  lemma ApproveKeepsRecorded(checkins: seq<CheckIn>, approvals: seq<seq<Day>>, x: int)
    requires ApprovalsRecorded(checkins, approvals)
    requires 0 <= x < |checkins| && checkins[x].status == Pending && 0 < checkins[x].userId <= |approvals|
    ensures ApprovalsRecorded(checkins[x := checkins[x].(status := Approved)],
                              approvals[checkins[x].userId - 1 := approvals[checkins[x].userId - 1] + [checkins[x].checkinDate]])
  {
    var c := checkins[x];
    var k := c.userId - 1;
    var cs := checkins[x := c.(status := Approved)];
    var hs := approvals[k := approvals[k] + [c.checkinDate]];
    forall m | 0 <= m < |cs| && cs[m].status == Approved
      ensures 0 < cs[m].userId <= |hs| && cs[m].checkinDate in hs[cs[m].userId - 1]
    {
      if m != x {
        assert cs[m] == checkins[m];
      }
    }
    forall i, j | 0 <= i < |hs| && 0 <= j < |hs[i]|
      ensures EntryApproved(cs, hs, i, j)
    {
      if i == k && j == |approvals[k]| {
        assert cs[x].userId == i + 1 && cs[x].checkinDate == hs[i][j];
      } else {
        assert hs[i][j] == approvals[i][j];
        assert EntryApproved(checkins, approvals, i, j);
        var m :| 0 <= m < |checkins| && checkins[m].userId == i + 1 && checkins[m].checkinDate == approvals[i][j] && checkins[m].status == Approved;
        assert cs[m] == checkins[m];
      }
    }
  }

  lemma RejectKeepsRecorded(checkins: seq<CheckIn>, approvals: seq<seq<Day>>, x: int)
    requires ApprovalsRecorded(checkins, approvals)
    requires 0 <= x < |checkins| && checkins[x].status == Pending
    ensures ApprovalsRecorded(checkins[x := checkins[x].(status := Rejected)], approvals)
  {
    var cs := checkins[x := checkins[x].(status := Rejected)];
    forall m | 0 <= m < |cs| && cs[m].status == Approved
      ensures 0 < cs[m].userId <= |approvals| && cs[m].checkinDate in approvals[cs[m].userId - 1]
    {
      assert cs[m] == checkins[m];
    }
    forall i, j | 0 <= i < |approvals| && 0 <= j < |approvals[i]|
      ensures EntryApproved(cs, approvals, i, j)
    {
      assert EntryApproved(checkins, approvals, i, j);
      var m :| 0 <= m < |checkins| && checkins[m].userId == i + 1 && checkins[m].checkinDate == approvals[i][j] && checkins[m].status == Approved;
      assert cs[m] == checkins[m];
    }
  }

  /** The user table: ids follow positions, names are unique and normalised, each row follows its history. */
  ghost predicate UsersValid(users: seq<User>, approvals: seq<seq<Day>>) {
    && |approvals| == |users|
    && (forall i :: 0 <= i < |users| ==> users[i].id == i + 1)
    && UniqueUsernames(users)
    && UniqueEmails(users)
    && (forall i {:trigger UserRowValid(users[i], approvals[i])} :: 0 <= i < |users| ==> UserRowValid(users[i], approvals[i]))
  }

  /** The check-in table of a store with `n` users: ids follow positions, one row per user and day. */
  ghost predicate CheckInsValid(checkins: seq<CheckIn>, n: int) {
    && (forall k :: 0 <= k < |checkins| ==> CheckInRowValid(checkins[k], k, n))
    && OneCheckInPerDay(checkins)
  }

  // ----- the store --------------------------------------------------------

  class Store {
    var users: seq<User>
    var checkins: seq<CheckIn>
    /** The dates of each user's approved check-ins, in approval order. */
    ghost var approvals: seq<seq<Day>>

    ghost predicate Valid()
      reads this
    {
      && UsersValid(users, approvals)
      && CheckInsValid(checkins, |users|)
      && ApprovalsRecorded(checkins, approvals)
    }

    /** An empty database. */
    constructor ()
      ensures Valid()
      ensures users == [] && checkins == [] && approvals == []
    {
      users := [];
      checkins := [];
      approvals := [];
    }

    /** Commits a new user row, with an empty approval history. */
    method AddUser(u: User)
      requires Valid()
      requires u.id == |users| + 1 && UserRowValid(u, [])
      requires !UsernameInUse(users, u.username) && !EmailInUse(users, u.email)
      modifies this
      ensures Valid()
      ensures users == old(users) + [u] && approvals == old(approvals) + [[]] && checkins == old(checkins)
    {
      AppendUserKeepsValid(users, approvals, u);
      MoreUsersKeepCheckIns(checkins, |users|, |users| + 1);
      AppendUserKeepsRecorded(checkins, approvals);
      users := users + [u];
      approvals := approvals + [[]];
    }

    /** Commits a change to user row `i` that leaves its history and names as they are. */
    method SetUser(i: nat, u: User)
      requires Valid() && i < |users|
      requires u.id == users[i].id && u.username == users[i].username && u.email == users[i].email
      requires UserRowValid(u, approvals[i])
      modifies this
      ensures Valid()
      ensures users == old(users)[i := u] && approvals == old(approvals) && checkins == old(checkins)
    {
      ReplaceUserKeepsHistory(users, approvals, i, u);
      users := users[i := u];
    }

    /**
      `register`: refuses a signed-in visitor, an incomplete form, a short
      password, a taken username and a taken email, in that order;
      otherwise appends a user row with the normalised names and the hash
      of the password. The hash function is a parameter.
     */
    method Register(signedIn: bool, username: string, email: string, password: string,
                    hash: string -> string, createdAt: Instant) returns (r: RegisterOutcome)
      requires Valid()
      modifies this
      ensures Valid()
      ensures checkins == old(checkins)
      ensures r == AlreadySignedIn <==> signedIn
      ensures r == FieldsRequired <==> !signedIn && MissingField(username, email, password)
      ensures r == PasswordTooShort <==>
                !signedIn && !MissingField(username, email, password) && |password| < MinPasswordLength
      ensures r == UsernameExists <==>
                !signedIn && FormComplete(username, email, password)
                && UsernameInUse(old(users), NormalizeUsername(username))
      ensures r == EmailExists <==>
                !signedIn && FormComplete(username, email, password)
                && !UsernameInUse(old(users), NormalizeUsername(username))
                && EmailInUse(old(users), NormalizeEmail(email))
      ensures r.Registered? <==>
                !signedIn && FormComplete(username, email, password)
                && !UsernameInUse(old(users), NormalizeUsername(username))
                && !EmailInUse(old(users), NormalizeEmail(email))
      ensures r.Registered? ==>
                && r.id == |old(users)| + 1
                && users == old(users) + [NewUser(r.id, NormalizeUsername(username), NormalizeEmail(email), hash(password), createdAt)]
                && approvals == old(approvals) + [[]]
      ensures !r.Registered? ==> users == old(users) && approvals == old(approvals)
    {
      if signedIn {
        return AlreadySignedIn;
      }
      var name := NormalizeUsername(username);
      var mail := NormalizeEmail(email);
      if name == [] || mail == [] || password == [] {
        return FieldsRequired;
      }
      if |password| < MinPasswordLength {
        return PasswordTooShort;
      }
      if UsernameInUse(users, name) {
        return UsernameExists;
      }
      if EmailInUse(users, mail) {
        return EmailExists;
      }
      var id := |users| + 1;
      var u := NewUser(id, name, mail, hash(password), createdAt);
      NormalizedShape(username, email);
      NewUserRow(id, name, mail, hash(password), createdAt);
      AddUser(u);
      r := Registered(id);
    }

    /** `reset_weekly_streak_if_monday` for the user with id `uid`. */
    method ResetWeeklyStreakIfMonday(uid: nat, today: Day)
      requires Valid() && 1 <= uid <= |users|
      modifies this
      ensures Valid()
      ensures users == old(users)[uid - 1 := AfterWeeklyReset(old(users)[uid - 1], today)]
      ensures checkins == old(checkins) && approvals == old(approvals)
    {
      var u := users[uid - 1];
      if Weekday(today) == Monday {
        if u.lastCheckinDate.Some? && u.lastCheckinDate.value < today {
          ResetKeepsRow(u, approvals[uid - 1], today);
          SetUser(uid - 1, u.(weeklyStreak := 0));
        }
      }
    }

    /**
      `apply_weekly_penalty` for the user with id `uid`, with the
      penalty week recorded on the row; the result says whether it charged.
     */
    method ApplyWeeklyPenalty(uid: nat, now: Instant) returns (charged: bool)
      requires Valid() && 1 <= uid <= |users|
      modifies this
      ensures Valid()
      ensures charged == PenaltyDue(old(users)[uid - 1], now)
      ensures users == old(users)[uid - 1 := AfterPenalty(old(users)[uid - 1], now)]
      ensures checkins == old(checkins) && approvals == old(approvals)
    {
      var u := users[uid - 1];
      var r;
      charged, r := PenaltyRow(u, now);
      if charged {
        PenaltyKeepsRow(u, approvals[uid - 1], now, WeekKeyOf(now.day));
        SetUser(uid - 1, r);
      }
    }

    /**
      The `POST` branch of `dashboard`: refuses outside the window, on a
      second submission for today, without a description, without a file
      and with a disallowed extension, in that order. Then it sanitises the
      file name with `secure` (werkzeug's `secure_filename`, a parameter)
      and takes the extension after its last `.`, which raises when no `.`
      is left; otherwise appends a pending check-in dated today, stored
      under `token` (the random part of the name) and that extension.
     */
    method Submit(uid: nat, now: Instant, form: SubmitForm, secure: string -> string, token: string, createdAt: Instant)
      returns (r: SubmitOutcome)
      requires Valid() && 1 <= uid <= |users|
      modifies this
      ensures Valid()
      ensures users == old(users) && approvals == old(approvals)
      ensures r == WindowClosed <==> !CheckinWindowOpen(now)
      ensures r == AlreadySubmitted <==> CheckinWindowOpen(now) && SubmittedOn(old(checkins), uid, now.day)
      ensures r == DescriptionRequired <==>
                CheckinWindowOpen(now) && !SubmittedOn(old(checkins), uid, now.day) && !HasText(form.content)
      ensures r == ProofRequired <==>
                CheckinWindowOpen(now) && !SubmittedOn(old(checkins), uid, now.day) && HasText(form.content)
                && !HasUpload(form.proofFilename)
      ensures r == InvalidFileType <==>
                CheckinWindowOpen(now) && !SubmittedOn(old(checkins), uid, now.day) && HasText(form.content)
                && HasUpload(form.proofFilename) && !AllowedFile(form.proofFilename.value)
      ensures r == ExtensionLost <==>
                GuardsPass(old(checkins), uid, now, form) && '.' !in secure(form.proofFilename.value)
      ensures r.Submitted? <==> SubmissionAccepted(old(checkins), uid, now, form, secure)
      ensures r == SubmitDecision(old(checkins), uid, now, form, secure)
      ensures r.Submitted? ==>
                && r.id == |old(checkins)| + 1
                && checkins == old(checkins) + [NewCheckIn(r.id, uid, now.day,
                     StoredProofName(token, secure(form.proofFilename.value)), form.content.value, createdAt)]
      ensures !r.Submitted? ==> checkins == old(checkins)
      ensures SettledRowsKept(old(checkins), checkins)
    {
      if !CheckinWindowOpen(now) {
        return WindowClosed;
      }
      var today := now.day;
      if SubmittedOn(checkins, uid, today) {
        return AlreadySubmitted;
      }
      if !HasText(form.content) {
        return DescriptionRequired;
      }
      if !HasUpload(form.proofFilename) {
        return ProofRequired;
      }
      if !AllowedFile(form.proofFilename.value) {
        return InvalidFileType;
      }
      var filename := secure(form.proofFilename.value);
      var ext := Extension(filename);
      if ext.None? {
        return ExtensionLost;
      }
      var storedName := token + "." + Lower(ext.value);
      var id := |checkins| + 1;
      var c := NewCheckIn(id, uid, today, storedName, form.content.value, createdAt);
      AppendCheckInKeepsValid(checkins, |users|, c);
      AppendPendingKeepsRecorded(checkins, approvals, c);
      checkins := checkins + [c];
      r := Submitted(id);
    }

    /**
      `dashboard` for the signed-in user `uid`: the Monday reset, then the
      penalty, then, for a `POST`, the submission.
     */
    method Dashboard(uid: nat, now: Instant, form: Option<SubmitForm>, secure: string -> string, token: string, createdAt: Instant)
      returns (charged: bool, submission: Option<SubmitOutcome>)
      requires Valid() && 1 <= uid <= |users|
      modifies this
      ensures Valid()
      ensures users == old(users)[uid - 1 := DashboardEffect(old(users)[uid - 1], now)]
      ensures approvals == old(approvals)
      ensures charged == PenaltyDue(AfterWeeklyReset(old(users)[uid - 1], now.day), now)
      ensures form.None? ==> submission.None? && checkins == old(checkins)
      ensures form.Some? ==> submission == Some(SubmitDecision(old(checkins), uid, now, form.value, secure))
      ensures submission.Some? && submission.value.Submitted? <==>
                form.Some? && SubmissionAccepted(old(checkins), uid, now, form.value, secure)
      ensures submission.Some? && submission.value.Submitted? ==>
                checkins == old(checkins) + [NewCheckIn(|old(checkins)| + 1, uid, now.day,
                  StoredProofName(token, secure(form.value.proofFilename.value)), form.value.content.value, createdAt)]
      ensures !(submission.Some? && submission.value.Submitted?) ==> checkins == old(checkins)
    {
      ghost var u0 := users[uid - 1];
      ResetWeeklyStreakIfMonday(uid, now.day);
      assert users[uid - 1] == AfterWeeklyReset(u0, now.day);
      charged := ApplyWeeklyPenalty(uid, now);
      assert users == old(users)[uid - 1 := DashboardEffect(u0, now)];
      if form.Some? {
        var r := Submit(uid, now, form.value, secure, token, createdAt);
        submission := Some(r);
      } else {
        submission := None;
      }
    }

    /**
      `approve_checkin`: admins only, a check-in that exists and is still
      pending; it becomes approved and its user's streak columns move as
      `AfterApproval` says.
     */
    method Approve(callerIsAdmin: bool, id: int) returns (r: Disposition)
      requires Valid()
      modifies this
      ensures Valid()
      ensures r == Forbidden <==> !callerIsAdmin
      ensures r == NotFound <==> callerIsAdmin && !(1 <= id <= |old(checkins)|)
      ensures r == AlreadyProcessed <==>
                callerIsAdmin && 1 <= id <= |old(checkins)| && old(checkins)[id - 1].status != Pending
      ensures r == Disposed ==>
                var c := old(checkins)[id - 1];
                && checkins == old(checkins)[id - 1 := c.(status := Approved)]
                && users == old(users)[c.userId - 1 := AfterApproval(old(users)[c.userId - 1], c.checkinDate)]
                && approvals == old(approvals)[c.userId - 1 := old(approvals)[c.userId - 1] + [c.checkinDate]]
      ensures r != Disposed ==> checkins == old(checkins) && users == old(users) && approvals == old(approvals)
      ensures SettledRowsKept(old(checkins), checkins)
    {
      if !callerIsAdmin {
        return Forbidden;
      }
      if !(1 <= id <= |checkins|) {
        return NotFound;
      }
      var c := checkins[id - 1];
      if c.status != Pending {
        return AlreadyProcessed;
      }
      assert CheckInRowValid(c, id - 1, |users|);
      var u := ApprovedRow(users[c.userId - 1], c.checkinDate);
      CommitApproval(id - 1, u);
      r := Disposed;
    }

    /**
      Commits an approval of the pending check-in at index `x`: its status,
      its user's recomputed row `u`, and the date added to that user's history.
     */
    method CommitApproval(x: nat, u: User)
      requires Valid() && x < |checkins| && checkins[x].status == Pending
      requires CheckInRowValid(checkins[x], x, |users|)
      requires u == AfterApproval(users[checkins[x].userId - 1], checkins[x].checkinDate)
      modifies this
      ensures Valid()
      ensures var c := old(checkins)[x];
              && checkins == old(checkins)[x := c.(status := Approved)]
              && users == old(users)[c.userId - 1 := u]
              && approvals == old(approvals)[c.userId - 1 := old(approvals)[c.userId - 1] + [c.checkinDate]]
    {
      var c := checkins[x];
      var k := c.userId - 1;
      var d := c.checkinDate;
      assert UserRowValid(users[k], approvals[k]);
      ApprovalKeepsRow(users[k], approvals[k], d);
      ReplaceUserKeepsValid(users, approvals, k, u, approvals[k] + [d]);
      StatusChangeKeepsValid(checkins, |users|, x, Approved);
      ApproveKeepsRecorded(checkins, approvals, x);
      users := users[k := u];
      checkins := checkins[x := c.(status := Approved)];
      approvals := approvals[k := approvals[k] + [d]];
    }

    /** `reject_checkin`: the same guards as approval; only the status changes. */
    method Reject(callerIsAdmin: bool, id: int) returns (r: Disposition)
      requires Valid()
      modifies this
      ensures Valid()
      ensures r == Forbidden <==> !callerIsAdmin
      ensures r == NotFound <==> callerIsAdmin && !(1 <= id <= |old(checkins)|)
      ensures r == AlreadyProcessed <==>
                callerIsAdmin && 1 <= id <= |old(checkins)| && old(checkins)[id - 1].status != Pending
      ensures r == Disposed ==> checkins == old(checkins)[id - 1 := old(checkins)[id - 1].(status := Rejected)]
      ensures r != Disposed ==> checkins == old(checkins)
      ensures users == old(users) && approvals == old(approvals)
      ensures SettledRowsKept(old(checkins), checkins)
    {
      if !callerIsAdmin {
        return Forbidden;
      }
      if !(1 <= id <= |checkins|) {
        return NotFound;
      }
      var c := checkins[id - 1];
      if c.status != Pending {
        return AlreadyProcessed;
      }
      CommitRejection(id - 1);
      r := Disposed;
    }

    /** Commits a rejection of the pending check-in at index `x`. */
    method CommitRejection(x: nat)
      requires Valid() && x < |checkins| && checkins[x].status == Pending
      modifies this
      ensures Valid()
      ensures checkins == old(checkins)[x := old(checkins)[x].(status := Rejected)]
      ensures users == old(users) && approvals == old(approvals)
    {
      StatusChangeKeepsValid(checkins, |users|, x, Rejected);
      RejectKeepsRecorded(checkins, approvals, x);
      checkins := checkins[x := checkins[x].(status := Rejected)];
    }
  }

  /**
    The checks and the charge of `apply_weekly_penalty`, step by step as
    the handler does them, on the row `u`; `charged` says whether it charged.
   */
  method PenaltyRow(u: User, now: Instant) returns (charged: bool, r: User)
    ensures charged == PenaltyDue(u, now)
    ensures r == AfterPenalty(u, now)
  {
    r := u;
    charged := false;
    if Weekday(now.day) == Friday && now.minute >= TenPm {
      var currentWeek := WeekKeyOf(now.day);
      if r.lastPenaltyWeek != Some(currentWeek) {
        if r.weeklyStreak < WeeklyTarget {
          r := r.(debt := r.debt + PenaltyAmount);
          r := r.(lastPenaltyWeek := Some(currentWeek));
          charged := true;
        }
      }
    }
  }

  /**
    The streak update of `approve_checkin`, step by step as the handler
    does it, for a check-in dated `d` of the user with row `before`.
   */
  method ApprovedRow(before: User, d: Day) returns (u: User)
    ensures u == AfterApproval(before, d)
  {
    u := before;
    if u.lastCheckinDate.Some? {
      if u.lastCheckinDate.value == d - 1 {
        u := u.(currentStreak := u.currentStreak + 1);
      } else {
        u := u.(currentStreak := 1);
      }
    } else {
      u := u.(currentStreak := 1);
    }
    if Weekday(d) < 5 {
      u := u.(weeklyStreak := u.weeklyStreak + 1);
    }
    if u.currentStreak > u.longestStreak {
      u := u.(longestStreak := u.currentStreak);
    }
    u := u.(lastCheckinDate := Some(d));
  }

  /** In any reachable database no streak exceeds 5, since check-ins are only dated on weekdays. */
  lemma StreaksAtMostFive(s: Store)
    requires s.Valid()
    ensures forall i :: 0 <= i < |s.users| ==> 0 <= s.users[i].currentStreak <= s.users[i].longestStreak <= 5
  {
    forall i | 0 <= i < |s.users|
      ensures 0 <= s.users[i].currentStreak <= s.users[i].longestStreak <= 5
    {
      assert UserRowValid(s.users[i], s.approvals[i]);
      WeekdayHistoriesShort(s.approvals[i]);
    }
  }
}
