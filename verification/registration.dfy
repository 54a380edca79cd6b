/**
 * The account-creation endpoint (`POST /app/api/createUser/`) as a
 * transition of the account store: read and clean the form, validate it in a
 * fixed order, and only then create the user and set its curator flag.
 * Every refusal is a 400 and leaves the store exactly as it was.
 */
module Registration {
  import opened Options
  import opened PyText
  import opened Accounts
  import Guards

  /** The POSTed form; a field the client did not send is `None`. */
  datatype Form = Form(email: Option<string>, userName: Option<string>, password: Option<string>, isCurator: Option<string>)

  /** `request.POST.get(name, default)`. */
  function Field(v: Option<string>, default: string): string {
    match v
    case Some(x) => x
    case None => default
  }

  /** The email the view works with: the field stripped of surrounding whitespace. */
  function EmailOf(f: Form): string {
    Strip(Field(f.email, ""))
  }

  /** The username the view works with: the field stripped of surrounding whitespace. */
  function UsernameOf(f: Form): string {
    Strip(Field(f.userName, ""))
  }

  /** The password, taken as sent: it is not stripped. */
  function PasswordOf(f: Form): string {
    Field(f.password, "")
  }

  /** The curator flag text; a form without one counts as "0". */
  function FlagTextOf(f: Form): string {
    Field(f.isCurator, "0")
  }

  /** Some required field is missing, blank after stripping, or (the password) empty. */
  predicate MissingAny(f: Form) {
    || AllSpace(Field(f.email, ""))
    || AllSpace(Field(f.userName, ""))
    || Field(f.password, "") == []
  }

  datatype Response = Response(status: int, body: string)

  /** Why a registration was refused. */
  datatype RegError = MissingField | EmailTaken(email: string) | UsernameTaken(username: string) | BadCuratorFlag

  const StatusBadRequest: int := 400
  const StatusCreated: int := 201

  /** The body of the 400 response for each refusal. */
  function ErrorMessage(e: RegError): string {
    match e
    case MissingField => "All fields (email, user_name, password) are required"
    case EmailTaken(email) => "email " + email + " already in use"
    case UsernameTaken(username) => "username " + username + " already taken"
    case BadCuratorFlag => "is_curator must be 0 or 1"
  }

  /** A form that passed every check, cleaned, with its curator flag parsed. */
  datatype Accepted = Accepted(email: string, username: string, password: string, isCurator: bool)

  datatype Outcome = Outcome(response: Response, store: Store)

  /** The key the duplicate-email query is made with, as the view writes it: the stripped email itself. */
  function Verbatim(email: string): string {
    email
  }

  /**
   * The checks of the view, in their order: a missing field, then an email
   * already in use (looked up under `lookup` of the cleaned email), then a
   * taken username, then a flag `int()` cannot parse. The first that fails
   * decides; a form that passes is accepted with a nonzero flag meaning
   * curator.
   */
  function Validate(s: Store, f: Form, lookup: string -> string): (r: Result<Accepted, RegError>)
    ensures r == Err(MissingField) <==> MissingAny(f)
    ensures (r.Err? && r.error.EmailTaken?) <==> !MissingAny(f) && EmailInUse(s, lookup(EmailOf(f)))
    ensures (r.Err? && r.error.UsernameTaken?)
        <==> !MissingAny(f) && !EmailInUse(s, lookup(EmailOf(f))) && UsernameInUse(s, UsernameOf(f))
    ensures r == Err(BadCuratorFlag)
        <==> !MissingAny(f) && !EmailInUse(s, lookup(EmailOf(f))) && !UsernameInUse(s, UsernameOf(f))
             && ParseInt(FlagTextOf(f)).None?
    ensures r.Err? && r.error.EmailTaken? ==> r.error.email == EmailOf(f)
    ensures r.Err? && r.error.UsernameTaken? ==> r.error.username == UsernameOf(f)
    ensures r.Ok? ==> r.value == Accepted(EmailOf(f), UsernameOf(f), PasswordOf(f), HasNonzeroDigit(FlagTextOf(f)))
    ensures r.Ok? ==> r.value.username != [] && !UsernameInUse(s, r.value.username)
  {
    var email := EmailOf(f);
    var username := UsernameOf(f);
    var password := PasswordOf(f);
    if email == [] || username == [] || password == [] then Err(MissingField)
    else if EmailInUse(s, lookup(email)) then Err(EmailTaken(email))
    else if UsernameInUse(s, username) then Err(UsernameTaken(username))
    else
      match ParseInt(FlagTextOf(f))
      case None => Err(BadCuratorFlag)
      case Some(v) => Ok(Accepted(email, username, password, v != 0))
  }

  /**
   * The store after a successful registration: exactly one new user, under
   * the next primary key, with the cleaned username, the normalised email
   * and the password as sent; its profile carries the parsed flag; every
   * other user and profile is untouched.
   */
  ghost predicate AddedAccount(s: Store, s': Store, f: Form) {
    && s.nextId !in s.users
    && s'.users == s.users[s.nextId := User(UsernameOf(f), NormalizeEmail(EmailOf(f)), PasswordOf(f))]
    && |s'.users| == |s.users| + 1
    && ProfileOf(s', s.nextId) == Some(Profile(s.nextId, HasNonzeroDigit(FlagTextOf(f))))
    && (forall other :: other != s.nextId ==> ProfileOf(s', other) == ProfileOf(s, other))
  }

  /** Answers a validated form: 400 with the refusal's message, or create the account and answer 201. */
  function Respond(s: Store, f: Form, v: Result<Accepted, RegError>): (r: Outcome)
    requires Valid(s)
    requires v.Ok? ==> v.value == Accepted(EmailOf(f), UsernameOf(f), PasswordOf(f), HasNonzeroDigit(FlagTextOf(f)))
    requires v.Ok? ==> v.value.username != [] && !UsernameInUse(s, v.value.username)
    ensures v.Err? ==> r == Outcome(Response(400, ErrorMessage(v.error)), s)
    ensures v.Ok? ==> r.response == Response(201, "success") && Valid(r.store) && AddedAccount(s, r.store, f)
  {
    match v
    case Err(e) => Outcome(Response(StatusBadRequest, ErrorMessage(e)), s)
    case Ok(a) =>
      match CreateUser(s, a.username, a.email, a.password)
      case None => assert false; Outcome(Response(StatusBadRequest, ""), s)
      case Some(c) => Outcome(Response(StatusCreated, "success"), SetCurator(c.store, c.id, a.isCurator))
  }

  /**
   * `create_user_api`, as written: the duplicate-email query uses the
   * stripped email verbatim. A refusal is a 400 that leaves the store as it
   * was; success is 201 "success" with exactly one account added.
   */
  function Register(s: Store, f: Form): (r: Outcome)
    requires Valid(s)
    ensures r.response.status == 400 || r.response == Response(201, "success")
    ensures r.response.status == 400 ==> r.store == s
    ensures r.response.status == 400
        <==> MissingAny(f) || EmailInUse(s, EmailOf(f)) || UsernameInUse(s, UsernameOf(f))
             || ParseInt(FlagTextOf(f)).None?
    ensures MissingAny(f) ==> r.response.body == "All fields (email, user_name, password) are required"
    ensures !MissingAny(f) && EmailInUse(s, EmailOf(f))
        ==> r.response.body == "email " + EmailOf(f) + " already in use"
    ensures !MissingAny(f) && !EmailInUse(s, EmailOf(f)) && UsernameInUse(s, UsernameOf(f))
        ==> r.response.body == "username " + UsernameOf(f) + " already taken"
    ensures !MissingAny(f) && !EmailInUse(s, EmailOf(f)) && !UsernameInUse(s, UsernameOf(f))
            && ParseInt(FlagTextOf(f)).None?
        ==> r.response.body == "is_curator must be 0 or 1"
    ensures r.response.status == 201 ==> Valid(r.store) && AddedAccount(s, r.store, f)
  {
    var r := Respond(s, f, Validate(s, f, Verbatim));
    Answers(s, f, Verbatim, r);
    r
  }

  /**
   * The registration with the duplicate-email query made under the same
   * normalisation `create_user` applies before storing the address.
   */
  function RegisterIntended(s: Store, f: Form): (r: Outcome)
    requires Valid(s)
    ensures r.response.status == 400 || r.response == Response(201, "success")
    ensures r.response.status == 400 ==> r.store == s
    ensures r.response.status == 400
        <==> MissingAny(f) || EmailInUse(s, NormalizeEmail(EmailOf(f))) || UsernameInUse(s, UsernameOf(f))
             || ParseInt(FlagTextOf(f)).None?
    ensures MissingAny(f) ==> r.response.body == "All fields (email, user_name, password) are required"
    ensures !MissingAny(f) && EmailInUse(s, NormalizeEmail(EmailOf(f)))
        ==> r.response.body == "email " + EmailOf(f) + " already in use"
    ensures !MissingAny(f) && !EmailInUse(s, NormalizeEmail(EmailOf(f))) && UsernameInUse(s, UsernameOf(f))
        ==> r.response.body == "username " + UsernameOf(f) + " already taken"
    ensures !MissingAny(f) && !EmailInUse(s, NormalizeEmail(EmailOf(f))) && !UsernameInUse(s, UsernameOf(f))
            && ParseInt(FlagTextOf(f)).None?
        ==> r.response.body == "is_curator must be 0 or 1"
    ensures r.response.status == 201 ==> Valid(r.store) && AddedAccount(s, r.store, f)
  {
    var r := Respond(s, f, Validate(s, f, NormalizeEmail));
    Answers(s, f, NormalizeEmail, r);
    r
  }

  /** The answer to a form whose email is looked up under `key`, in the order the checks are made. */
  lemma Answers(s: Store, f: Form, key: string -> string, r: Outcome)
    requires Valid(s) && r == Respond(s, f, Validate(s, f, key))
    ensures r.response.status == 400 || r.response == Response(201, "success")
    ensures r.response.status == 400 ==> r.store == s
    ensures r.response.status == 400
        <==> MissingAny(f) || EmailInUse(s, key(EmailOf(f))) || UsernameInUse(s, UsernameOf(f))
             || ParseInt(FlagTextOf(f)).None?
    ensures MissingAny(f) ==> r.response.body == "All fields (email, user_name, password) are required"
    ensures !MissingAny(f) && EmailInUse(s, key(EmailOf(f)))
        ==> r.response.body == "email " + EmailOf(f) + " already in use"
    ensures !MissingAny(f) && !EmailInUse(s, key(EmailOf(f))) && UsernameInUse(s, UsernameOf(f))
        ==> r.response.body == "username " + UsernameOf(f) + " already taken"
    ensures !MissingAny(f) && !EmailInUse(s, key(EmailOf(f))) && !UsernameInUse(s, UsernameOf(f))
            && ParseInt(FlagTextOf(f)).None?
        ==> r.response.body == "is_curator must be 0 or 1"
    ensures r.response.status == 201 ==> Valid(r.store) && AddedAccount(s, r.store, f)
  {
  }

  /** A form without an `is_curator` field registers a non-curator ("Harvester"). */
  lemma MissingFlagMeansHarvester(s: Store, f: Form)
    requires Valid(s) && f.isCurator.None?
    ensures Register(s, f).response.status == 201
        ==> ProfileOf(Register(s, f).store, s.nextId) == Some(Profile(s.nextId, false))
  {
    ZeroHasNoNonzeroDigit();
  }

  /**
   * What a guard sees of `request.user` when the session holds user `uid`:
   * signed in, with the curator flag read from that user's profile. With no
   * session, or a session for a user that no longer exists, it sees an
   * anonymous caller, whose flag it never reads.
   */
  function CallerOf(s: Store, session: Option<nat>): (c: Guards.Caller)
    requires Valid(s)
    ensures c.isAuthenticated <==> session.Some? && session.value in s.users
    ensures c.isAuthenticated ==> ProfileOf(s, session.value) == Some(Profile(session.value, c.isCurator))
  {
    match session
    case Some(uid) =>
      if uid in s.users then
        EveryUserHasOneProfile(s, uid);
        Guards.Caller(true, ProfileOf(s, uid).value.isCurator)
      else Guards.Caller(false, false)
    case None => Guards.Caller(false, false)
  }

  /**
   * Signed in as a freshly registered account, the curator guard lets the
   * request through exactly when the form's flag was nonzero, and answers
   * 403 otherwise.
   */
  lemma NewAccountMeetsCuratorGuard(s: Store, f: Form)
    requires Valid(s)
    ensures Register(s, f).response.status == 201
        ==> (Guards.CuratorDecision(CallerOf(Register(s, f).store, Some(s.nextId)))
             == if HasNonzeroDigit(FlagTextOf(f)) then Guards.Proceed else Guards.Reject(403, "Curator privileges required"))
  {
  }

  /** No two accounts share an email address. */
  ghost predicate UniqueEmails(s: Store) {
    forall a, b :: a in s.users && b in s.users && a != b ==> s.users[a].email != s.users[b].email
  }

  /** Every stored email is in the normal form `create_user` gives it. */
  ghost predicate NormalizedEmails(s: Store) {
    forall id :: id in s.users ==> NormalizeEmail(s.users[id].email) == s.users[id].email
  }

  /**
   * Retrying a registration whose email was stored unchanged fails: any
   * later form with that email is refused with "email ... already in use"
   * and the store stays as it is.
   */
  lemma RetryWithSameEmailFails(s: Store, f: Form, g: Form)
    requires Valid(s) && NormalizeEmail(EmailOf(f)) == EmailOf(f)
    requires !MissingAny(g) && EmailOf(g) == EmailOf(f)
    ensures Register(s, f).response.status == 201
        ==> (Register(Register(s, f).store, g)
             == Outcome(Response(400, "email " + EmailOf(f) + " already in use"), Register(s, f).store))
  {
    if Register(s, f).response.status == 201 {
      var s' := Register(s, f).store;
      assert s'.users[s.nextId].email == EmailOf(g);
      EmailRefusal(s', g, Verbatim);
    }
  }

  /**
   * With the corrected lookup, any later form whose email normalises to a
   * registered one is refused, whatever its letter case in the domain.
   */
  lemma IntendedRetryFails(s: Store, f: Form, g: Form)
    requires Valid(s)
    requires !MissingAny(g) && NormalizeEmail(EmailOf(g)) == NormalizeEmail(EmailOf(f))
    ensures RegisterIntended(s, f).response.status == 201
        ==> (RegisterIntended(RegisterIntended(s, f).store, g)
             == Outcome(Response(400, "email " + EmailOf(g) + " already in use"), RegisterIntended(s, f).store))
  {
    if RegisterIntended(s, f).response.status == 201 {
      var s' := RegisterIntended(s, f).store;
      assert s'.users[s.nextId].email == NormalizeEmail(EmailOf(g));
      EmailRefusal(s', g, NormalizeEmail);
    }
  }

  /** A complete form whose email (under `lookup`) is in use is refused with that email's message. */
  lemma EmailRefusal(s: Store, g: Form, lookup: string -> string)
    requires Valid(s) && !MissingAny(g) && EmailInUse(s, lookup(EmailOf(g)))
    ensures Respond(s, g, Validate(s, g, lookup)) == Outcome(Response(400, "email " + EmailOf(g) + " already in use"), s)
  {
  }

  /** The corrected registration keeps every email address unique. */
  lemma IntendedKeepsEmailsUnique(s: Store, f: Form)
    requires Valid(s) && UniqueEmails(s) && NormalizedEmails(s)
    ensures UniqueEmails(RegisterIntended(s, f).store)
    ensures NormalizedEmails(RegisterIntended(s, f).store)
  {
    var r := RegisterIntended(s, f);
    if r.response.status == 201 {
      var u := User(UsernameOf(f), NormalizeEmail(EmailOf(f)), PasswordOf(f));
      NormalizeEmailIdempotent(EmailOf(f));
      InsertKeepsEmailsUnique(s, r.store, s.nextId, u);
    }
  }

  lemma InsertKeepsEmailsUnique(s: Store, s': Store, id: nat, u: User)
    requires UniqueEmails(s) && NormalizedEmails(s)
    requires id !in s.users && s'.users == s.users[id := u]
    requires !EmailInUse(s, u.email) && NormalizeEmail(u.email) == u.email
    ensures UniqueEmails(s') && NormalizedEmails(s')
  {
  }

  /** Where the stripped email is already in normal form, the two registrations agree. */
  lemma IntendedAgreesOnNormalForm(s: Store, f: Form)
    requires Valid(s) && NormalizeEmail(EmailOf(f)) == EmailOf(f)
    ensures RegisterIntended(s, f) == Register(s, f)
  {
    assert Validate(s, f, NormalizeEmail) == Validate(s, f, Verbatim);
  }

  const BobForm: Form := Form(Some("bob@Example.com"), Some("bob"), Some("pw"), None)
  const RobertForm: Form := Form(Some("bob@Example.com"), Some("robert"), Some("pw"), None)

  lemma ExampleFormsComplete()
    ensures EmailOf(BobForm) == "bob@Example.com" && EmailOf(RobertForm) == "bob@Example.com"
    ensures UsernameOf(BobForm) == "bob" && UsernameOf(RobertForm) == "robert"
    ensures !MissingAny(BobForm) && !MissingAny(RobertForm)
  {
    ExampleEmailUntrimmed();
    ExampleNamesUntrimmed();
    ExampleTextsNotBlank();
  }

  lemma ExampleTextsNotBlank()
    ensures !AllSpace("bob@Example.com") && !AllSpace("bob") && !AllSpace("robert")
  {
    assert "bob@Example.com"[0] == 'b' && "bob"[0] == 'b' && "robert"[0] == 'r';
  }

  lemma ExampleNamesUntrimmed()
    ensures Strip("bob") == "bob" && Strip("robert") == "robert"
  {
    ExampleNameUntrimmed("bob");
    ExampleNameUntrimmed("robert");
  }

  lemma ExampleNameUntrimmed(name: string)
    requires name == "bob" || name == "robert"
    ensures Strip(name) == name
  {
    assert name[0] == 'b' || name[0] == 'r';
    assert name[|name| - 1] == 'b' || name[|name| - 1] == 't';
    StripUntrimmed(name);
  }

  lemma ExampleEmailUntrimmed()
    ensures Strip("bob@Example.com") == "bob@Example.com"
  {
    StripUntrimmed("bob@Example.com");
  }

  lemma ExampleFormsHarvesters()
    ensures ParseInt(FlagTextOf(BobForm)) == Some(0) && ParseInt(FlagTextOf(RobertForm)) == Some(0)
    ensures !HasNonzeroDigit(FlagTextOf(BobForm))
  {
    ParseZeroAndOne();
  }

  lemma ExampleEmailNormalized()
    ensures NormalizeEmail("bob@Example.com") == "bob@example.com"
  {
    ExampleEmailUntrimmed();
    ExampleLastAt();
    NormalizeSplit("bob@Example.com", 3);
    ExampleRebuilt();
  }

  lemma ExampleRebuilt()
    ensures "bob@Example.com"[..3] + "@" + Lower("bob@Example.com"[3 + 1..]) == "bob@example.com"
  {
    ExampleDomainLowered();
    assert "bob@Example.com"[..3] == "bob";
  }

  lemma ExampleLastAt()
    ensures LastIndexOf("bob@Example.com", '@') == Some(3)
  {
    LastIndexOfAt("bob@Example.com", '@', 3);
  }

  lemma ExampleDomainLowered()
    ensures "bob@Example.com"[4..] == "Example.com"
    ensures Lower("Example.com") == "example.com"
  {
  }

  lemma FirstExampleRegisters()
    ensures Register(EmptyStore, BobForm).response.status == 201
    ensures Register(EmptyStore, BobForm).store.users == map[1 := User("bob", "bob@example.com", "pw")]
  {
    ExampleFormsComplete();
    ExampleFormsHarvesters();
    ExampleEmailNormalized();
  }

  lemma SecondExampleRegisters(s1: Store)
    requires Valid(s1) && s1.users == map[1 := User("bob", "bob@example.com", "pw")]
    ensures Register(s1, RobertForm).response.status == 201
    ensures Register(s1, RobertForm).store.users == s1.users[s1.nextId := User("robert", "bob@example.com", "pw")]
  {
    ExampleFormsComplete();
    ExampleFormsHarvesters();
    ExampleEmailNormalized();
    SecondExampleIsNew(s1);
  }

  lemma SecondExampleIsNew(s1: Store)
    requires s1.users == map[1 := User("bob", "bob@example.com", "pw")]
    ensures !EmailInUse(s1, "bob@Example.com") && !UsernameInUse(s1, "robert")
  {
    assert "bob@example.com"[4] != "bob@Example.com"[4];
  }

  /**
   * The duplicate-email check as written misses a repeated address whose
   * domain has upper-case letters: it compares the address as typed with
   * the lower-cased domain `create_user` stored, so a second account with
   * the same email is created.
   */
  lemma AsWrittenAdmitsDuplicateEmail()
    ensures Register(EmptyStore, BobForm).response.status == 201
    ensures Register(Register(EmptyStore, BobForm).store, RobertForm).response.status == 201
    ensures !UniqueEmails(Register(Register(EmptyStore, BobForm).store, RobertForm).store)
  {
    FirstExampleRegisters();
    var s1 := Register(EmptyStore, BobForm).store;
    SecondExampleRegisters(s1);
    var s2 := Register(s1, RobertForm).store;
    assert 1 in s1.users && s1.nextId != 1;
    assert s2.users[1].email == s2.users[s1.nextId].email;
  }
}
