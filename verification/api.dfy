/** The five endpoints as pure transitions on one abstract state: the user
    collection, the session registry, the appointment collection and whether
    a database is configured. Each returns the HTTPException it raises, or
    its response body together with the state after the call. */
module Api {
  import opened Wrappers
  import opened Http
  import opened Ids
  import opened Hasher
  import opened UserStore
  import opened Sessions
  import opened AppointmentStore
  import Hex
  import Utf8

  datatype State = State(
    users: seq<User>,
    sessions: SessionMap,
    appointments: seq<Appointment>,
    dbConfigured: bool)

  /** A response body and the state the call leaves behind. */
  datatype Reply<+T> = Reply(body: T, next: State)

  datatype SignupRequest = SignupRequest(name: string, email: string, password: string)
  datatype LoginRequest = LoginRequest(email: string, password: string)
  datatype AppointmentRequest = AppointmentRequest(
    name: string,
    phone: string,
    carModel: string,
    datetimeIso: string,
    purpose: string)

  datatype UserSummary = UserSummary(id: string, name: string, email: string)
  datatype AuthResponse = AuthResponse(token: string, user: UserSummary)
  datatype Booking = Booking(id: string, message: string)

  /** The stored digest is SHA-256 over the stored salt's octets followed by
      the UTF-8 octets of `password`. */
  predicate MatchesStored(H: Sha256, u: User, password: string) {
    Hex.Decode(u.salt).Some? && u.passwordHash == Hex.Encode(H(Hex.Decode(u.salt).value + Utf8.Encode(password)))
  }

  /** `get_user_by_email`: no user at all while no database is configured. */
  function GetUserByEmail(s: State, email: string): (r: Option<User>)
    ensures r.Some? <==> s.dbConfigured && EmailTaken(s.users, email)
    ensures r.Some? ==> r.value in s.users && r.value.email == email
  {
    if s.dbConfigured then FindByEmail(s.users, email) else None
  }

  /** `signup`. Refused with 500 without a database and with 400 when some
      user already has exactly this email. An ObjectId already held by a
      user makes `insert_one` raise DuplicateKeyError, which the framework
      answers with 500. Otherwise one user is appended, with a fresh salt and
      the digest of the password under it, and one session is issued for the
      new id. */
  function Signup(H: Sha256, s: State, req: SignupRequest, newSalt: SaltBytes, oid: ObjectId, tokenBytes: TokenBytes)
    : (r: Result<Reply<AuthResponse>>)
    ensures !s.dbConfigured ==> r == Err(ServerError, DbNotConfigured)
    ensures s.dbConfigured && EmailTaken(s.users, req.email) ==> r == Err(BadRequest, EmailAlreadyRegistered)
    ensures s.dbConfigured && !EmailTaken(s.users, req.email) && HasUser(s.users, IdString(oid))
            ==> r == Err(ServerError, InternalServerError)
    ensures r.Ok? <==> s.dbConfigured && !EmailTaken(s.users, req.email) && !HasUser(s.users, IdString(oid))
    ensures r.Ok? ==>
              var next := r.value.next;
              var body := r.value.body;
              |next.users| == |s.users| + 1 && next.users[..|s.users|] == s.users &&
              var u := next.users[|s.users|];
              && u.id == IdString(oid)
              && u.name == req.name && u.email == req.email
              && |u.salt| == 32 && Hex.Decode(u.salt) == Some(newSalt)
              && MatchesStored(H, u, req.password)
              && body.user == UserSummary(u.id, req.name, req.email)
              && body.token == TokenHex(tokenBytes)
              && next.sessions == s.sessions[body.token := u.id]
              && next.appointments == s.appointments
              && next.dbConfigured == s.dbConfigured
  {
    if !s.dbConfigured then Err(ServerError, DbNotConfigured)
    else if GetUserByEmail(s, req.email).Some? then Err(BadRequest, EmailAlreadyRegistered)
    else if HasUser(s.users, IdString(oid)) then Err(ServerError, InternalServerError)
    else
      var hashed := HashPassword(H, req.password, None, newSalt).value;
      var id := IdString(oid);
      var user := User(id, req.name, req.email, hashed.digest, hashed.salt);
      var issued := Issue(s.sessions, tokenBytes, id);
      var next := s.(users := s.users + [user], sessions := issued.1);
      assert next.users[..|s.users|] == s.users;
      Ok(Reply(AuthResponse(issued.0, UserSummary(id, req.name, req.email)), next))
  }

  /** `login`. Refused with 500 without a database, and with the same 401
      "Invalid credentials" for an unknown email and for a wrong password.
      A stored salt `fromhex` rejects makes the hasher raise, which the
      framework answers with 500. On success one session is issued for the
      found user and nothing else changes. */
  function Login(H: Sha256, s: State, req: LoginRequest, newSalt: SaltBytes, tokenBytes: TokenBytes)
    : (r: Result<Reply<AuthResponse>>)
    ensures !s.dbConfigured ==> r == Err(ServerError, DbNotConfigured)
    ensures s.dbConfigured && !EmailTaken(s.users, req.email) ==> r == Err(Unauthorized, InvalidCredentials)
    ensures s.dbConfigured && EmailTaken(s.users, req.email) ==>
              var u := FindByEmail(s.users, req.email).value;
              var h := HashPassword(H, req.password, Some(u.salt), newSalt);
              && (h.None? ==> r == Err(ServerError, InternalServerError))
              && (h.Some? && h.value.digest != u.passwordHash ==> r == Err(Unauthorized, InvalidCredentials))
              && (r.Ok? <==> h.Some? && h.value.digest == u.passwordHash)
    ensures r.Ok? ==>
              var u := FindByEmail(s.users, req.email).value;
              var next := r.value.next;
              var body := r.value.body;
              && body.user == UserSummary(u.id, u.name, u.email)
              && body.token == TokenHex(tokenBytes)
              && next.sessions == s.sessions[body.token := u.id]
              && next.users == s.users
              && next.appointments == s.appointments
              && next.dbConfigured == s.dbConfigured
  {
    if !s.dbConfigured then Err(ServerError, DbNotConfigured)
    else
      var found := GetUserByEmail(s, req.email);
      if found.None? then Err(Unauthorized, InvalidCredentials)
      else
        var user := found.value;
        var hashed := HashPassword(H, req.password, Some(user.salt), newSalt);
        if hashed.None? then Err(ServerError, InternalServerError)
        else if hashed.value.digest != user.passwordHash then Err(Unauthorized, InvalidCredentials)
        else
          var issued := Issue(s.sessions, tokenBytes, user.id);
          Ok(Reply(AuthResponse(issued.0, UserSummary(user.id, user.name, user.email)), s.(sessions := issued.1)))
  }

  /** `create_appointment`. The database check (500) comes before the token
      check (401). The owner is the user the session resolves to — the
      request carries no owner — and the five booking fields are copied
      as given. An ObjectId already held by a booking makes `insert_one`
      raise, answered with 500. Otherwise exactly one record is appended;
      users and sessions are kept. */
  function CreateAppointment(s: State, req: AppointmentRequest, token: Option<string>, oid: ObjectId)
    : (r: Result<Reply<Booking>>)
    ensures !s.dbConfigured ==> r == Err(ServerError, DbNotConfigured)
    ensures s.dbConfigured && RequireAuth(s.sessions, token).Err? ==> r == Err(Unauthorized, UnauthorizedDetail)
    ensures s.dbConfigured && RequireAuth(s.sessions, token).Ok? && HasAppointment(s.appointments, IdString(oid))
            ==> r == Err(ServerError, InternalServerError)
    ensures r.Ok? <==>
              s.dbConfigured && RequireAuth(s.sessions, token).Ok? && !HasAppointment(s.appointments, IdString(oid))
    ensures r.Ok? ==>
              var next := r.value.next;
              |next.appointments| == |s.appointments| + 1 &&
              var a := next.appointments[|s.appointments|];
              && next.appointments == s.appointments + [a]
              && a.userId == s.sessions[token.value]
              && a == Appointment(IdString(oid), a.userId, req.name, req.phone, req.carModel, req.datetimeIso, req.purpose)
              && r.value.body == Booking(a.id, AppointmentBooked)
              && next.users == s.users
              && next.sessions == s.sessions
              && next.dbConfigured == s.dbConfigured
  {
    if !s.dbConfigured then Err(ServerError, DbNotConfigured)
    else
      var userId :- RequireAuth(s.sessions, token);
      if HasAppointment(s.appointments, IdString(oid)) then Err(ServerError, InternalServerError)
      else
        var appt := Appointment(IdString(oid), userId, req.name, req.phone, req.carModel, req.datetimeIso, req.purpose);
        Ok(Reply(Booking(appt.id, AppointmentBooked), s.(appointments := s.appointments + [appt])))
  }

  /** `list_my_appointments`. The same two checks in the same order; then
      the caller's bookings, each as often as stored, and no one else's,
      ascending by their time text. The call changes no state. */
  function ListMyAppointments(s: State, token: Option<string>): (r: Result<seq<Appointment>>)
    ensures !s.dbConfigured ==> r == Err(ServerError, DbNotConfigured)
    ensures s.dbConfigured && RequireAuth(s.sessions, token).Err? ==> r == Err(Unauthorized, UnauthorizedDetail)
    ensures r.Ok? <==> s.dbConfigured && RequireAuth(s.sessions, token).Ok?
    ensures r.Ok? ==> SortedByDatetime(r.value)
    ensures r.Ok? ==> forall a :: multiset(r.value)[a] ==
                                 if a.userId == s.sessions[token.value] then multiset(s.appointments)[a] else 0
  {
    if !s.dbConfigured then Err(ServerError, DbNotConfigured)
    else
      var userId :- RequireAuth(s.sessions, token);
      Ok(ListByOwner(s.appointments, userId))
  }
}
