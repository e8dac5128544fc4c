/** Properties of the endpoints across calls: signup then login, the
    indistinguishable login failures, token resolution, ownership and
    ordering of listings. */
module Properties {
  import opened Wrappers
  import opened Http
  import opened Ids
  import opened Hasher
  import opened UserStore
  import opened Sessions
  import opened AppointmentStore
  import opened Api
  import opened Lifecycle
  import opened Lex
  import Hex

  /** A second signup with a registered email is refused with 400 and
      changes nothing. */
  lemma SignupRejectsDuplicate(H: Sha256, s: State, req: SignupRequest, salt: SaltBytes, oid: ObjectId, tb: TokenBytes,
                               again: SignupRequest, salt2: SaltBytes, oid2: ObjectId, tb2: TokenBytes)
    requires Signup(H, s, req, salt, oid, tb).Ok?
    requires again.email == req.email
    ensures Signup(H, Signup(H, s, req, salt, oid, tb).value.next, again, salt2, oid2, tb2)
         == Err(BadRequest, EmailAlreadyRegistered)
  {
    var next := Signup(H, s, req, salt, oid, tb).value.next;
    assert next.users[|s.users|].email == again.email;
  }

  /** Login succeeds when the stored salt is non-empty lower-case hex and
      the stored digest is that of the password under it, whatever salt and
      token the call would draw. */
  lemma LoginAccepts(H: Sha256, s: State, req: LoginRequest, u: User, salt: SaltBytes, tb: TokenBytes)
    requires s.dbConfigured && FindByEmail(s.users, req.email) == Some(u)
    requires u.salt != "" && Hex.IsLowerHex(u.salt) && |u.salt| % 2 == 0
    requires MatchesStored(H, u, req.password)
    ensures Login(H, s, req, salt, tb).Ok?
    ensures Login(H, s, req, salt, tb).value.body.user == UserSummary(u.id, u.name, u.email)
  {
    HashPasswordEchoesSalt(H, req.password, u.salt, salt);
  }

  /** In a reachable state with a database, login succeeds exactly when the
      email is registered and the password reproduces the stored digest. */
  lemma LoginSucceedsIff(H: Sha256, s: State, req: LoginRequest, salt: SaltBytes, tb: TokenBytes)
    requires Valid(s) && s.dbConfigured
    ensures Login(H, s, req, salt, tb).Ok? <==>
              EmailTaken(s.users, req.email) && MatchesStored(H, FindByEmail(s.users, req.email).value, req.password)
  {
    if EmailTaken(s.users, req.email) {
      var u := FindByEmail(s.users, req.email).value;
      var k :| FirstWithEmail(s.users, req.email, k) && s.users[k] == u;
      HashPasswordEchoesSalt(H, req.password, u.salt, salt);
    }
  }

  /** In a reachable state a database-backed login never fails with 500:
      every stored salt parses. */
  lemma LoginNeverServerError(H: Sha256, s: State, req: LoginRequest, salt: SaltBytes, tb: TokenBytes)
    requires Valid(s) && s.dbConfigured
    ensures Login(H, s, req, salt, tb).Err? ==> Login(H, s, req, salt, tb) == Err(Unauthorized, InvalidCredentials)
  {
    if EmailTaken(s.users, req.email) {
      var u := FindByEmail(s.users, req.email).value;
      var k :| FirstWithEmail(s.users, req.email, k) && s.users[k] == u;
      HashPasswordEchoesSalt(H, req.password, u.salt, salt);
    }
  }

  /** A stored salt holding a char that is neither whitespace nor a hex
      digit makes `fromhex` raise inside login, which the framework answers
      with 500. */
  lemma LoginMalformedSaltServerError(H: Sha256, s: State, req: LoginRequest, salt: SaltBytes, tb: TokenBytes, k: int)
    requires s.dbConfigured && EmailTaken(s.users, req.email)
    requires var u := FindByEmail(s.users, req.email).value;
             0 <= k < |u.salt| && !Hex.IsAsciiSpace(u.salt[k]) && Hex.DigitValue(u.salt[k]).None?
    ensures Login(H, s, req, salt, tb) == Err(ServerError, InternalServerError)
  {
    Hex.DecodeRejectsStray(FindByEmail(s.users, req.email).value.salt, k);
  }

  /** In a reachable state the user id a session resolves to names exactly
      one stored user, so per-user isolation of bookings is isolation of one
      account. */
  lemma SessionNamesOneUser(s: State, token: Option<string>)
    requires Valid(s) && RequireAuth(s.sessions, token).Ok?
    ensures exists i :: 0 <= i < |s.users| && s.users[i].id == s.sessions[token.value]
    ensures forall i, j ::
              (0 <= i < |s.users| && 0 <= j < |s.users| &&
               s.users[i].id == s.sessions[token.value] && s.users[j].id == s.sessions[token.value]) ==> i == j
  {
  }

  /** An unknown email and a wrong password draw the very same response, so a
      caller cannot tell which one failed. */
  lemma LoginFailuresIndistinguishable(H: Sha256, s1: State, r1: LoginRequest, s2: State, r2: LoginRequest,
                                       salt1: SaltBytes, tb1: TokenBytes, salt2: SaltBytes, tb2: TokenBytes)
    requires s1.dbConfigured && !EmailTaken(s1.users, r1.email)
    requires Valid(s2) && s2.dbConfigured && EmailTaken(s2.users, r2.email)
    requires !MatchesStored(H, FindByEmail(s2.users, r2.email).value, r2.password)
    ensures Login(H, s1, r1, salt1, tb1) == Login(H, s2, r2, salt2, tb2) == Err(Unauthorized, InvalidCredentials)
  {
    LoginSucceedsIff(H, s2, r2, salt2, tb2);
    LoginNeverServerError(H, s2, r2, salt2, tb2);
  }

  /** The user a signup creates is the one a lookup of its email finds. */
  lemma SignupUserFound(H: Sha256, s: State, req: SignupRequest, salt: SaltBytes, oid: ObjectId, tb: TokenBytes)
    requires Signup(H, s, req, salt, oid, tb).Ok?
    ensures var next := Signup(H, s, req, salt, oid, tb).value.next;
            FindByEmail(next.users, req.email) == Some(next.users[|s.users|])
  {
    var next := Signup(H, s, req, salt, oid, tb).value.next;
    forall j | 0 <= j < |s.users|
      ensures next.users[j].email != req.email
    {
      assert next.users[j] == s.users[j];
    }
    FindByEmailFirst(next.users, req.email, |s.users|);
  }

  /** Signing up and then logging in with the same email and password
      succeeds for the new user. */
  lemma SignupThenLogin(H: Sha256, s: State, req: SignupRequest, salt: SaltBytes, oid: ObjectId, tb: TokenBytes,
                        salt2: SaltBytes, tb2: TokenBytes)
    requires Signup(H, s, req, salt, oid, tb).Ok?
    ensures var reply := Signup(H, s, req, salt, oid, tb).value;
            var login := Login(H, reply.next, LoginRequest(req.email, req.password), salt2, tb2);
            login.Ok? && login.value.body.user == reply.body.user
  {
    var next := Signup(H, s, req, salt, oid, tb).value.next;
    SignupUserFound(H, s, req, salt, oid, tb);
    LoginAccepts(H, next, LoginRequest(req.email, req.password), next.users[|s.users|], salt2, tb2);
  }

  /** The same holds however many requests of any kind come in between:
      registered credentials keep working for the same user. */
  lemma SignupThenLoginAfterRun(H: Sha256, s: State, req: SignupRequest, salt: SaltBytes, oid: ObjectId, tb: TokenBytes,
                                qs: seq<Request>, salt2: SaltBytes, tb2: TokenBytes)
    requires Signup(H, s, req, salt, oid, tb).Ok?
    ensures var reply := Signup(H, s, req, salt, oid, tb).value;
            var login := Login(H, Run(H, reply.next, qs), LoginRequest(req.email, req.password), salt2, tb2);
            login.Ok? && login.value.body.user == reply.body.user
  {
    var next := Signup(H, s, req, salt, oid, tb).value.next;
    var u := next.users[|s.users|];
    var later := Run(H, next, qs);
    SignupUserFound(H, s, req, salt, oid, tb);
    RunGrowsUsers(H, next, qs);
    var more := later.users[|next.users|..];
    assert later.users == next.users + more;
    FindByEmailAppend(next.users, more, req.email);
    LoginAccepts(H, later, LoginRequest(req.email, req.password), u, salt2, tb2);
  }

  /** The token a signup returns resolves to the new user's id. */
  lemma SignupTokenResolves(H: Sha256, s: State, req: SignupRequest, salt: SaltBytes, oid: ObjectId, tb: TokenBytes)
    requires Signup(H, s, req, salt, oid, tb).Ok?
    ensures var reply := Signup(H, s, req, salt, oid, tb).value;
            RequireAuth(reply.next.sessions, Some(reply.body.token)) == Ok(reply.body.user.id)
  {
  }

  /** The token a login returns resolves to the id of the user who logged in. */
  lemma LoginTokenResolves(H: Sha256, s: State, req: LoginRequest, salt: SaltBytes, tb: TokenBytes)
    requires Login(H, s, req, salt, tb).Ok?
    ensures var reply := Login(H, s, req, salt, tb).value;
            RequireAuth(reply.next.sessions, Some(reply.body.token)) == Ok(reply.body.user.id)
  {
  }

  /** From a fresh start, a token no call has issued is refused with 401. */
  lemma UnissuedTokenRejected(H: Sha256, db: bool, qs: seq<Request>, token: string)
    requires token !in Issued(H, Init(db), qs)
    ensures RequireAuth(Run(H, Init(db), qs).sessions, Some(token)) == Err(Unauthorized, UnauthorizedDetail)
  {
    RunSessionKeys(H, Init(db), qs);
  }

  /** The new booking is listed for the token that made it, and for no token
      of another user. */
  lemma BookingListedForOwnerOnly(s: State, req: AppointmentRequest, token: Option<string>, oid: ObjectId,
                                  other: Option<string>)
    requires CreateAppointment(s, req, token, oid).Ok?
    ensures var next := CreateAppointment(s, req, token, oid).value.next;
            var a := next.appointments[|s.appointments|];
            && a in ListMyAppointments(next, token).value
            && (RequireAuth(next.sessions, other).Ok? && next.sessions[other.value] != a.userId ==>
                  a !in ListMyAppointments(next, other).value)
  {
    var next := CreateAppointment(s, req, token, oid).value.next;
    var a := next.appointments[|s.appointments|];
    ListByOwnerMembers(next.appointments, a.userId, a);
    if RequireAuth(next.sessions, other).Ok? {
      ListByOwnerMembers(next.appointments, next.sessions[other.value], a);
    }
  }
}
