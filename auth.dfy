/**
  Registration: how the form's username and email are normalised before
  they are checked and stored, and the outcomes `register` can have.
 */
module Auth {
  import opened Text
  import opened Models

  const MinPasswordLength := 6

  /** `request.form.get("username", "").strip()` */
  function NormalizeUsername(raw: string): (name: string) {
    Strip(raw)
  }

  /** `request.form.get("email", "").strip().lower()` */
  function NormalizeEmail(raw: string): (email: string) {
    Lower(Strip(raw))
  }

  /** Normalising a stored (already normalised) value changes nothing. */
  lemma NormalizeIdempotent(raw: string)
    ensures NormalizeUsername(NormalizeUsername(raw)) == NormalizeUsername(raw)
    ensures NormalizeEmail(NormalizeEmail(raw)) == NormalizeEmail(raw)
  {
    var s := Strip(raw);
    StripIdempotent(raw);
    LowerStripCommute(s);
    LowerNormal(s);
  }

  /** One of the three fields is empty once normalised. */
  predicate MissingField(username: string, email: string, password: string) {
    NormalizeUsername(username) == [] || NormalizeEmail(email) == [] || password == []
  }

  /** `User.query.filter_by(username=name).first()` finds a row. */
  predicate UsernameInUse(users: seq<User>, name: string) {
    exists i :: 0 <= i < |users| && users[i].username == name
  }

  /** `User.query.filter_by(email=email).first()` finds a row. */
  predicate EmailInUse(users: seq<User>, email: string) {
    exists i :: 0 <= i < |users| && users[i].email == email
  }

  /** What the stored names look like: non-empty, trimmed, and for the email without upper-case letters. */
  predicate StoredNamesNormal(u: User) {
    && u.username != [] && Trimmed(u.username)
    && u.email != [] && Trimmed(u.email) && HasNoUpper(u.email)
  }

  /** Normalised names have that shape. */
  lemma NormalizedShape(username: string, email: string)
    ensures Trimmed(NormalizeUsername(username))
    ensures Trimmed(NormalizeEmail(email)) && HasNoUpper(NormalizeEmail(email))
  {
    TrimmedStrip(username);
    TrimmedStrip(email);
    LowerKeepsTrimmed(Strip(email));
    LowerNormal(Strip(email));
  }

  /** ... and names of that shape are exactly the ones normalisation leaves as they are. */
  lemma StoredNamesAreNormalized(u: User)
    requires StoredNamesNormal(u)
    ensures NormalizeUsername(u.username) == u.username
    ensures NormalizeEmail(u.email) == u.email
  {
    TrimmedStrip(u.username);
    TrimmedStrip(u.email);
    LowerFixes(u.email);
  }

  /** The outcomes of `register`, in the order its checks run. */
  datatype RegisterOutcome =
    | AlreadySignedIn
    | FieldsRequired
    | PasswordTooShort
    | UsernameExists
    | EmailExists
    | Registered(id: nat)

  /** Appending a user whose username and email are not yet in use keeps both unique. */
  lemma AppendKeepsUnique(users: seq<User>, u: User)
    requires UniqueUsernames(users) && UniqueEmails(users)
    requires !UsernameInUse(users, u.username) && !EmailInUse(users, u.email)
    ensures UniqueUsernames(users + [u]) && UniqueEmails(users + [u])
  {
    var t := users + [u];
    forall i, j | 0 <= i < j < |t|
      ensures t[i].username != t[j].username && t[i].email != t[j].email
    {
      if j == |users| {
        assert t[i] == users[i];
      }
    }
  }
}
