/** Sequences of requests handled one after another, the state invariant
    they keep, and the tokens they issue. */
module Lifecycle {
  import opened Wrappers
  import opened Http
  import opened Ids
  import opened Hasher
  import opened UserStore
  import opened Sessions
  import opened AppointmentStore
  import opened Api
  import Hex

  /** One call of an endpoint, carrying the random values and the record id
      that the call would draw. */
  datatype Request =
    | SignupCall(signup: SignupRequest, salt: SaltBytes, oid: ObjectId, tokenBytes: TokenBytes)
    | LoginCall(login: LoginRequest, salt: SaltBytes, tokenBytes: TokenBytes)
    | BookCall(booking: AppointmentRequest, token: Option<string>, oid: ObjectId)
    | ListCall(token: Option<string>)

  /** The process as it starts: no users, no sessions, no bookings. */
  function Init(dbConfigured: bool): State {
    State([], map[], [], dbConfigured)
  }

  /** The token a call issues, if it issues one. */
  function IssuedBy(H: Sha256, s: State, q: Request): Option<string> {
    match q
    case SignupCall(req, salt, oid, tb) =>
      (match Signup(H, s, req, salt, oid, tb)
       case Ok(reply) => Some(reply.body.token)
       case Err(_, _) => None)
    case LoginCall(req, salt, tb) =>
      (match Login(H, s, req, salt, tb)
       case Ok(reply) => Some(reply.body.token)
       case Err(_, _) => None)
    case BookCall(_, _, _) => None
    case ListCall(_) => None
  }

  /** The state after one call; a refused call leaves the state as it was. */
  function Step(H: Sha256, s: State, q: Request): (next: State)
    ensures next.dbConfigured == s.dbConfigured
    ensures s.users <= next.users
    ensures s.appointments <= next.appointments
    ensures next.sessions.Keys == s.sessions.Keys + (if IssuedBy(H, s, q).Some? then {IssuedBy(H, s, q).value} else {})
  {
    match q
    case SignupCall(req, salt, oid, tb) =>
      (match Signup(H, s, req, salt, oid, tb)
       case Ok(reply) => reply.next
       case Err(_, _) => s)
    case LoginCall(req, salt, tb) =>
      (match Login(H, s, req, salt, tb)
       case Ok(reply) => reply.next
       case Err(_, _) => s)
    case BookCall(req, token, oid) =>
      (match CreateAppointment(s, req, token, oid)
       case Ok(reply) => reply.next
       case Err(_, _) => s)
    case ListCall(_) => s
  }

  function Run(H: Sha256, s: State, qs: seq<Request>): State
    decreases |qs|
  {
    if |qs| == 0 then s else Run(H, Step(H, s, qs[0]), qs[1..])
  }

  /** Every token issued along a run. */
  function Issued(H: Sha256, s: State, qs: seq<Request>): set<string>
    decreases |qs|
  {
    if |qs| == 0 then {}
    else
      var here := if IssuedBy(H, s, qs[0]).Some? then {IssuedBy(H, s, qs[0]).value} else {};
      here + Issued(H, Step(H, s, qs[0]), qs[1..])
  }

  /** What every state reached from `Init` satisfies: emails are distinct,
      user ids and booking ids are distinct, salts are 32 lower-case hex
      digits, tokens are 48, and every session and every booking belongs to a
      stored user. */
  predicate Valid(s: State) {
    && EmailsDistinct(s.users)
    && IdsDistinct(s.users)
    && AppointmentIdsDistinct(s.appointments)
    && (forall i :: 0 <= i < |s.users| ==> |s.users[i].salt| == 32 && Hex.IsLowerHex(s.users[i].salt))
    && (forall t :: t in s.sessions ==> |t| == 48 && Hex.IsLowerHex(t))
    && (forall t :: t in s.sessions ==> HasUser(s.users, s.sessions[t]))
    && (forall i :: 0 <= i < |s.appointments| ==> HasUser(s.users, s.appointments[i].userId))
  }

  lemma InitValid(db: bool)
    ensures Valid(Init(db))
  {
  }

  /** Appending a user with a new email, a new id and a 32-hex-char salt
      keeps the invariant. */
  lemma UserAddKeepsValid(s: State, u: User)
    requires Valid(s) && !EmailTaken(s.users, u.email) && !HasUser(s.users, u.id)
    requires |u.salt| == 32 && Hex.IsLowerHex(u.salt)
    ensures Valid(s.(users := s.users + [u]))
  {
    var users := s.users + [u];
    forall i, j | 0 <= i < j < |users|
      ensures users[i].email != users[j].email && users[i].id != users[j].id
    {
      assert users[i] == s.users[i];
      if j < |s.users| {
        assert users[j] == s.users[j];
      }
    }
    forall t | t in s.sessions
      ensures HasUser(users, s.sessions[t])
    {
      HasUserGrows(s.users, users, s.sessions[t]);
    }
    forall i | 0 <= i < |s.appointments|
      ensures HasUser(users, s.appointments[i].userId)
    {
      HasUserGrows(s.users, users, s.appointments[i].userId);
    }
  }

  lemma SignupKeepsValid(H: Sha256, s: State, req: SignupRequest, salt: SaltBytes, oid: ObjectId, tb: TokenBytes)
    requires Valid(s) && Signup(H, s, req, salt, oid, tb).Ok?
    ensures Valid(Signup(H, s, req, salt, oid, tb).value.next)
  {
    var reply := Signup(H, s, req, salt, oid, tb).value;
    var u := reply.next.users[|s.users|];
    assert reply.next.users == s.users + [u];
    var mid := s.(users := s.users + [u]);
    UserAddKeepsValid(s, u);
    assert HasUser(mid.users, u.id) by {
      assert mid.users[|s.users|] == u;
    }
    assert reply.next == mid.(sessions := mid.sessions[reply.body.token := u.id]);
    SessionAddKeepsValid(mid, reply.body.token, u.id);
  }

  /** Registering one more well-formed token for a stored user keeps the
      invariant. */
  lemma SessionAddKeepsValid(s: State, token: string, id: string)
    requires Valid(s) && |token| == 48 && Hex.IsLowerHex(token) && HasUser(s.users, id)
    ensures Valid(s.(sessions := s.sessions[token := id]))
  {
  }

  lemma LoginKeepsValid(H: Sha256, s: State, req: LoginRequest, salt: SaltBytes, tb: TokenBytes)
    requires Valid(s) && Login(H, s, req, salt, tb).Ok?
    ensures Valid(Login(H, s, req, salt, tb).value.next)
  {
    var reply := Login(H, s, req, salt, tb).value;
    var u := FindByEmail(s.users, req.email).value;
    var k :| FirstWithEmail(s.users, req.email, k) && s.users[k] == u;
    assert HasUser(s.users, u.id);
    assert reply.next == s.(sessions := s.sessions[reply.body.token := u.id]);
    SessionAddKeepsValid(s, reply.body.token, u.id);
  }

  lemma CreateKeepsValid(s: State, req: AppointmentRequest, token: Option<string>, oid: ObjectId)
    requires Valid(s) && CreateAppointment(s, req, token, oid).Ok?
    ensures Valid(CreateAppointment(s, req, token, oid).value.next)
  {
    var next := CreateAppointment(s, req, token, oid).value.next;
    var n := |s.appointments|;
    assert HasUser(s.users, s.sessions[token.value]);
    forall i | 0 <= i < |next.appointments|
      ensures HasUser(next.users, next.appointments[i].userId)
    {
      if i < n {
        assert next.appointments[i] == s.appointments[i];
      }
    }
    forall i, j | 0 <= i < j < |next.appointments|
      ensures next.appointments[i].id != next.appointments[j].id
    {
      assert next.appointments[i] == s.appointments[i];
      if j < n {
        assert next.appointments[j] == s.appointments[j];
      }
    }
  }

  lemma StepValid(H: Sha256, s: State, q: Request)
    requires Valid(s)
    ensures Valid(Step(H, s, q))
  {
    match q
    case SignupCall(req, salt, oid, tb) =>
      if Signup(H, s, req, salt, oid, tb).Ok? {
        SignupKeepsValid(H, s, req, salt, oid, tb);
      }
    case LoginCall(req, salt, tb) =>
      if Login(H, s, req, salt, tb).Ok? {
        LoginKeepsValid(H, s, req, salt, tb);
      }
    case BookCall(req, token, oid) =>
      if CreateAppointment(s, req, token, oid).Ok? {
        CreateKeepsValid(s, req, token, oid);
      }
    case ListCall(_) =>
  }

  /** The invariant holds after any sequence of requests. */
  lemma {:induction false} RunValid(H: Sha256, s: State, qs: seq<Request>)
    requires Valid(s)
    ensures Valid(Run(H, s, qs))
    decreases |qs|
  {
    if |qs| > 0 {
      StepValid(H, s, qs[0]);
      RunValid(H, Step(H, s, qs[0]), qs[1..]);
    }
  }

  /** After any run the registry holds exactly the tokens it held before and
      the tokens the run issued. */
  lemma {:induction false} RunSessionKeys(H: Sha256, s: State, qs: seq<Request>)
    ensures Run(H, s, qs).sessions.Keys == s.sessions.Keys + Issued(H, s, qs)
    decreases |qs|
  {
    if |qs| > 0 {
      RunSessionKeys(H, Step(H, s, qs[0]), qs[1..]);
    }
  }

  /** A run only appends users and never changes the database flag. */
  lemma {:induction false} RunGrowsUsers(H: Sha256, s: State, qs: seq<Request>)
    ensures s.users <= Run(H, s, qs).users
    ensures Run(H, s, qs).dbConfigured == s.dbConfigured
    decreases |qs|
  {
    if |qs| > 0 {
      RunGrowsUsers(H, Step(H, s, qs[0]), qs[1..]);
    }
  }
}
