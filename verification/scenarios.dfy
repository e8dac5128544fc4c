/** Concrete request sequences from the system's documented behaviour,
    proved for every hash function, salt, token and record id. */
module Scenarios {
  import opened Wrappers
  import opened Http
  import opened Ids
  import opened Hasher
  import opened UserStore
  import opened Sessions
  import opened AppointmentStore
  import opened Api
  import opened Lifecycle
  import opened Lex

  function Alice(): SignupRequest {
    SignupRequest("Alice", "a@x.com", "pw")
  }

  /** A sequence holding one element once is that element alone. */
  lemma SingletonFromMultiset(r: seq<Appointment>, a: Appointment)
    requires multiset(r) == multiset{a}
    ensures r == [a]
  {
    assert |r| == |multiset(r)| == 1;
    assert r[0] in multiset(r);
  }

  /** Alice signs up on a fresh server, books once with her token and lists
      her bookings: exactly that booking, with her id as owner and the fields
      she sent. */
  lemma SignupBookList(H: Sha256, salt: SaltBytes, userOid: ObjectId, tb: TokenBytes,
                       req: AppointmentRequest, apptOid: ObjectId)
    ensures var signup := Signup(H, Init(true), Alice(), salt, userOid, tb);
            signup.Ok? &&
            var token := Some(signup.value.body.token);
            var booked := CreateAppointment(signup.value.next, req, token, apptOid);
            booked.Ok? &&
            ListMyAppointments(booked.value.next, token)
              == Ok([Appointment(booked.value.body.id, signup.value.body.user.id,
                                 req.name, req.phone, req.carModel, req.datetimeIso, req.purpose)])
  {
    var signup := Signup(H, Init(true), Alice(), salt, userOid, tb);
    var token := Some(signup.value.body.token);
    var booked := CreateAppointment(signup.value.next, req, token, apptOid);
    var next := booked.value.next;
    var a := next.appointments[0];
    assert next.appointments == [a];
    var listed := ListMyAppointments(next, token).value;
    assert multiset(listed) == multiset{a} by {
      forall b
        ensures multiset(listed)[b] == multiset{a}[b]
      {
      }
    }
    SingletonFromMultiset(listed, a);
  }

  const January := "2024-01-01T10:00:00"
  const March := "2024-03-01T09:00:00"

  lemma JanuaryBeforeMarch()
    ensures StrLe(January, March) && !StrLe(March, January)
  {
    assert DiffersBelowAt(January, March, 6) by {
      assert January[..6] == "2024-0" == March[..6];
    }
    StrLeAtDifference(January, March, 6);
  }

  function TestDrive(datetimeIso: string): AppointmentRequest {
    AppointmentRequest("Alice", "555-0100", "Model S", datetimeIso, "Test Drive")
  }

  /** Two bookings made latest first, under the distinct ids the database
      gives them, are listed earliest first. */
  lemma ListedInTimeOrder(H: Sha256, salt: SaltBytes, userOid: ObjectId, tb: TokenBytes,
                          late: string, lateOid: ObjectId, early: string, earlyOid: ObjectId)
    requires StrLe(early, late) && !StrLe(late, early)
    requires lateOid != earlyOid
    ensures var signup := Signup(H, Init(true), Alice(), salt, userOid, tb);
            signup.Ok? &&
            var token := Some(signup.value.body.token);
            var first := CreateAppointment(signup.value.next, TestDrive(late), token, lateOid);
            first.Ok? &&
            var second := CreateAppointment(first.value.next, TestDrive(early), token, earlyOid);
            second.Ok? &&
            var s := second.value.next;
            ListMyAppointments(s, token) == Ok([s.appointments[1], s.appointments[0]])
  {
    var signup := Signup(H, Init(true), Alice(), salt, userOid, tb);
    var s0 := signup.value.next;
    var uid := signup.value.body.user.id;
    var token := Some(signup.value.body.token);
    assert RequireAuth(s0.sessions, token) == Ok(uid);
    var first := CreateAppointment(s0, TestDrive(late), token, lateOid);
    var s1 := first.value.next;
    var a1 := s1.appointments[0];
    assert s1.appointments == [a1] && a1.userId == uid && a1.datetimeIso == late;
    assert !HasAppointment(s1.appointments, IdString(earlyOid)) by {
      assert a1.id == IdString(lateOid) != IdString(earlyOid);
    }
    var second := CreateAppointment(s1, TestDrive(early), token, earlyOid);
    var s := second.value.next;
    var a2 := s.appointments[1];
    assert s.appointments == [a1, a2] && a2.userId == uid && a2.datetimeIso == early;
    ListedPair(s, token, a1, a2);
  }

  /** Listing two bookings of the caller, the later one stored first. */
  lemma ListedPair(s: State, token: Option<string>, a1: Appointment, a2: Appointment)
    requires s.dbConfigured && RequireAuth(s.sessions, token).Ok?
    requires s.appointments == [a1, a2]
    requires a1.userId == s.sessions[token.value] && a2.userId == s.sessions[token.value]
    requires StrLe(a2.datetimeIso, a1.datetimeIso) && !StrLe(a1.datetimeIso, a2.datetimeIso)
    ensures ListMyAppointments(s, token) == Ok([a2, a1])
  {
    var listed := ListMyAppointments(s, token).value;
    assert multiset(listed) == multiset{a1, a2} by {
      forall a
        ensures multiset(listed)[a] == multiset(s.appointments)[a]
      {
        if a.userId != s.sessions[token.value] {
          assert a !in s.appointments;
        }
      }
    }
    TwoInOrder(listed, a2, a1);
  }

  /** The documented example: March booked before January, January listed first. */
  lemma JanuaryListedBeforeMarch(H: Sha256, salt: SaltBytes, userOid: ObjectId, tb: TokenBytes,
                                 marchOid: ObjectId, januaryOid: ObjectId)
    requires marchOid != januaryOid
    ensures var signup := Signup(H, Init(true), Alice(), salt, userOid, tb);
            signup.Ok? &&
            var token := Some(signup.value.body.token);
            var first := CreateAppointment(signup.value.next, TestDrive(March), token, marchOid);
            first.Ok? &&
            var second := CreateAppointment(first.value.next, TestDrive(January), token, januaryOid);
            second.Ok? &&
            var s := second.value.next;
            ListMyAppointments(s, token) == Ok([s.appointments[1], s.appointments[0]])
  {
    JanuaryBeforeMarch();
    ListedInTimeOrder(H, salt, userOid, tb, March, marchOid, January, januaryOid);
  }

  /** A sorted sequence of two records whose keys are strictly ordered puts
      the smaller first. */
  lemma TwoInOrder(r: seq<Appointment>, x: Appointment, y: Appointment)
    requires multiset(r) == multiset{x, y} && SortedByDatetime(r)
    requires StrLe(x.datetimeIso, y.datetimeIso) && !StrLe(y.datetimeIso, x.datetimeIso)
    ensures r == [x, y]
  {
    assert |r| == |multiset(r)| == 2;
    assert r[0] in multiset(r) && r[1] in multiset(r);
    assert r == [r[0], r[1]];
  }

  /** After Alice has booked, Bob signs up with another email. His signup
      is refused with 500 exactly when the database hands him Alice's id;
      otherwise he lists no bookings at all, even when his token collides
      with hers. */
  lemma OtherUserListsNothing(H: Sha256, salt: SaltBytes, aliceOid: ObjectId, aliceTb: TokenBytes,
                              bobSalt: SaltBytes, bobOid: ObjectId, bobTb: TokenBytes,
                              req: AppointmentRequest, apptOid: ObjectId)
    ensures var alice := Signup(H, Init(true), Alice(), salt, aliceOid, aliceTb);
            alice.Ok? &&
            var booked := CreateAppointment(alice.value.next, req, Some(alice.value.body.token), apptOid);
            booked.Ok? &&
            var bob := Signup(H, booked.value.next, SignupRequest("Bob", "b@x.com", "pw2"), bobSalt, bobOid, bobTb);
            && (bob.Ok? <==> aliceOid != bobOid)
            && (bob.Err? ==> bob == Err(ServerError, InternalServerError))
            && (bob.Ok? ==> ListMyAppointments(bob.value.next, Some(bob.value.body.token)) == Ok([]))
  {
    var alice := Signup(H, Init(true), Alice(), salt, aliceOid, aliceTb);
    var booked := CreateAppointment(alice.value.next, req, Some(alice.value.body.token), apptOid);
    var s1 := booked.value.next;
    assert !EmailTaken(s1.users, "b@x.com") by {
      assert s1.users == [s1.users[0]];
      assert s1.users[0].email == "a@x.com";
    }
    assert s1.users[0].id == IdString(aliceOid);
    assert HasUser(s1.users, IdString(bobOid)) <==> aliceOid == bobOid by {
      assert IdString(aliceOid) == IdString(bobOid) ==> aliceOid == bobOid;
    }
    var bob := Signup(H, s1, SignupRequest("Bob", "b@x.com", "pw2"), bobSalt, bobOid, bobTb);
    if bob.Ok? {
      var s2 := bob.value.next;
      var a := s2.appointments[0];
      assert s2.appointments == [a];
      assert a.userId == IdString(aliceOid) != IdString(bobOid);
      ListedNone(s2, Some(bob.value.body.token), a);
    }
  }

  /** The one stored booking belongs to someone else: the caller lists nothing. */
  lemma ListedNone(s: State, token: Option<string>, a: Appointment)
    requires s.dbConfigured && RequireAuth(s.sessions, token).Ok?
    requires s.appointments == [a] && a.userId != s.sessions[token.value]
    ensures ListMyAppointments(s, token) == Ok([])
  {
    var listed := ListMyAppointments(s, token).value;
    assert multiset(listed)[a] == 0;
  }
}
