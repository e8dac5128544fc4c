/** The `appointment` collection: bookings owned by a user, listed by owner
    in ascending order of their `datetime_iso` text. */
module AppointmentStore {
  import opened Lex

  /** A stored booking. `id` is the text form of the record's ObjectId, which
      is what the listing exposes as `id`; timestamps are not modelled. */
  datatype Appointment = Appointment(
    id: string,
    userId: string,
    name: string,
    phone: string,
    carModel: string,
    datetimeIso: string,
    purpose: string)

  /** `find({"user_id": userId})`: the owner's records, each as often as it
      is stored, and nothing else. */
  function OwnedBy(appts: seq<Appointment>, userId: string): (r: seq<Appointment>)
    ensures forall a :: multiset(r)[a] == if a.userId == userId then multiset(appts)[a] else 0
  {
    if |appts| == 0 then []
    else
      assert appts == [appts[0]] + appts[1..];
      if appts[0].userId == userId then [appts[0]] + OwnedBy(appts[1..], userId)
      else OwnedBy(appts[1..], userId)
  }

  /** Some stored booking has this id. */
  predicate HasAppointment(appts: seq<Appointment>, id: string) {
    exists i :: 0 <= i < |appts| && appts[i].id == id
  }

  /** No two stored bookings share an id: the collection's unique `_id` index. */
  predicate AppointmentIdsDistinct(appts: seq<Appointment>) {
    forall i, j :: 0 <= i < j < |appts| ==> appts[i].id != appts[j].id
  }

  predicate SortedByDatetime(xs: seq<Appointment>) {
    forall i, j :: 0 <= i < j < |xs| ==> StrLe(xs[i].datetimeIso, xs[j].datetimeIso)
  }

  /** Every record of `xs` has a time text not below `key`. */
  predicate IsLowerBound(key: string, xs: seq<Appointment>) {
    forall j :: 0 <= j < |xs| ==> StrLe(key, xs[j].datetimeIso)
  }

  /** Puts `x` into a sorted sequence, after the records whose time text is
      not greater. */
  function InsertByDatetime(x: Appointment, xs: seq<Appointment>): (r: seq<Appointment>)
    requires SortedByDatetime(xs)
    ensures SortedByDatetime(r)
    ensures multiset(r) == multiset(xs) + multiset{x}
  {
    if |xs| == 0 then [x]
    else if !StrLe(xs[0].datetimeIso, x.datetimeIso) then
      HeadBound(x, xs);
      SortedCons(x, xs);
      [x] + xs
    else
      var tail := InsertByDatetime(x, xs[1..]);
      assert xs == [xs[0]] + xs[1..];
      TailBound(x, xs, tail);
      SortedCons(xs[0], tail);
      [xs[0]] + tail
  }

  lemma SortedCons(x: Appointment, xs: seq<Appointment>)
    requires SortedByDatetime(xs) && IsLowerBound(x.datetimeIso, xs)
    ensures SortedByDatetime([x] + xs)
  {
  }

  /** A key below the head of a sorted sequence is below all of it. */
  lemma HeadBound(x: Appointment, xs: seq<Appointment>)
    requires SortedByDatetime(xs) && |xs| > 0
    requires !StrLe(xs[0].datetimeIso, x.datetimeIso)
    ensures IsLowerBound(x.datetimeIso, xs)
  {
    StrLeTotal(xs[0].datetimeIso, x.datetimeIso);
    forall j | 0 <= j < |xs|
      ensures StrLe(x.datetimeIso, xs[j].datetimeIso)
    {
      if j > 0 {
        StrLeTransitive(x.datetimeIso, xs[0].datetimeIso, xs[j].datetimeIso);
      }
    }
  }

  /** The head of a sorted sequence is below whatever the rest of it becomes
      once a record not below the head is inserted. */
  lemma TailBound(x: Appointment, xs: seq<Appointment>, tail: seq<Appointment>)
    requires SortedByDatetime(xs) && |xs| > 0
    requires StrLe(xs[0].datetimeIso, x.datetimeIso)
    requires multiset(tail) == multiset(xs[1..]) + multiset{x}
    ensures IsLowerBound(xs[0].datetimeIso, tail)
  {
    forall j | 0 <= j < |tail|
      ensures StrLe(xs[0].datetimeIso, tail[j].datetimeIso)
    {
      assert tail[j] in multiset(tail);
      if tail[j] != x {
        assert tail[j] in multiset(xs[1..]);
        var k :| 0 <= k < |xs[1..]| && xs[1..][k] == tail[j];
        assert xs[k + 1] == tail[j];
      }
    }
  }

  /** `.sort("datetime_iso", 1)`: ascending by time text. The database leaves
      the order of equal keys open; this sort keeps them in storage order. */
  function SortByDatetime(xs: seq<Appointment>): (r: seq<Appointment>)
    ensures SortedByDatetime(r)
    ensures multiset(r) == multiset(xs)
  {
    if |xs| == 0 then []
    else
      assert xs == [xs[0]] + xs[1..];
      InsertByDatetime(xs[0], SortByDatetime(xs[1..]))
  }

  /** The owner's bookings in ascending time order. */
  function ListByOwner(appts: seq<Appointment>, userId: string): (r: seq<Appointment>)
    ensures SortedByDatetime(r)
    ensures forall a :: multiset(r)[a] == if a.userId == userId then multiset(appts)[a] else 0
  {
    SortByDatetime(OwnedBy(appts, userId))
  }

  /** A booking is listed exactly when it is stored and owned by the caller:
      another user's bookings never appear. */
  lemma ListByOwnerMembers(appts: seq<Appointment>, userId: string, a: Appointment)
    ensures a in ListByOwner(appts, userId) <==> a in appts && a.userId == userId
  {
    var r := ListByOwner(appts, userId);
    assert a in r <==> multiset(r)[a] > 0;
    assert a in appts <==> multiset(appts)[a] > 0;
  }

  /** When the caller owns every stored booking, all of them are listed. */
  lemma ListByOwnerAll(appts: seq<Appointment>, userId: string)
    requires forall i :: 0 <= i < |appts| ==> appts[i].userId == userId
    ensures multiset(ListByOwner(appts, userId)) == multiset(appts)
  {
    var r := ListByOwner(appts, userId);
    forall a
      ensures multiset(r)[a] == multiset(appts)[a]
    {
      if a.userId != userId {
        assert a !in appts;
      }
    }
  }
}
