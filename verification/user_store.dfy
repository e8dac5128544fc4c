/** The `userauth` collection: user records looked up by exact email. */
module UserStore {
  import opened Wrappers

  /** A stored user. `id` is the text form of the record's ObjectId; the
      created/updated timestamps are not modelled. */
  datatype User = User(id: string, name: string, email: string, passwordHash: string, salt: string)

  predicate EmailTaken(users: seq<User>, email: string) {
    exists i :: 0 <= i < |users| && users[i].email == email
  }

  /** `users[k]` is the first record whose email is exactly `email`. */
  predicate FirstWithEmail(users: seq<User>, email: string, k: int) {
    0 <= k < |users| && users[k].email == email && forall j :: 0 <= j < k ==> users[j].email != email
  }

  /** No two stored users share an email. */
  predicate EmailsDistinct(users: seq<User>) {
    forall i, j :: 0 <= i < j < |users| ==> users[i].email != users[j].email
  }

  /** Some stored user has this id. */
  predicate HasUser(users: seq<User>, id: string) {
    exists i :: 0 <= i < |users| && users[i].id == id
  }

  /** No two stored users share an id: the collection's unique `_id` index. */
  predicate IdsDistinct(users: seq<User>) {
    forall i, j :: 0 <= i < j < |users| ==> users[i].id != users[j].id
  }

  /** `find_one({"email": email})` on the collection in insertion order. */
  function FindByEmail(users: seq<User>, email: string): (r: Option<User>)
    ensures r.Some? <==> EmailTaken(users, email)
    ensures r.Some? ==> exists k :: FirstWithEmail(users, email, k) && users[k] == r.value
  {
    var k :- FirstIndexFrom(users, email, 0);
    Some(users[k])
  }

  /** The position of the first record at or after `i` with that email. */
  function FirstIndexFrom(users: seq<User>, email: string, i: nat): (r: Option<nat>)
    requires i <= |users|
    ensures r.Some? ==> i <= r.value < |users| && users[r.value].email == email
    ensures r.Some? ==> forall j :: i <= j < r.value ==> users[j].email != email
    ensures r.None? ==> forall j :: i <= j < |users| ==> users[j].email != email
    decreases |users| - i
  {
    if i == |users| then None
    else if users[i].email == email then Some(i)
    else FirstIndexFrom(users, email, i + 1)
  }

  /** The lookup finds the first record holding the email. */
  lemma FindByEmailFirst(users: seq<User>, email: string, k: int)
    requires FirstWithEmail(users, email, k)
    ensures FindByEmail(users, email) == Some(users[k])
  {
    var r := FindByEmail(users, email);
    var k' :| FirstWithEmail(users, email, k') && users[k'] == r.value;
    assert k == k';
  }

  /** With distinct emails the lookup finds the one record holding the email. */
  lemma FindByEmailUnique(users: seq<User>, k: int)
    requires EmailsDistinct(users) && 0 <= k < |users|
    ensures FindByEmail(users, users[k].email) == Some(users[k])
  {
  }

  /** Appending records never changes which record a successful lookup finds. */
  lemma FindByEmailAppend(users: seq<User>, more: seq<User>, email: string)
    requires EmailTaken(users, email)
    ensures FindByEmail(users + more, email) == FindByEmail(users, email)
  {
    var r := FindByEmail(users, email);
    var k :| FirstWithEmail(users, email, k) && users[k] == r.value;
    var all := users + more;
    assert all[k] == users[k];
    assert EmailTaken(all, email);
    var r' := FindByEmail(all, email);
    var k' :| FirstWithEmail(all, email, k') && all[k'] == r'.value;
    assert k == k';
  }

  lemma HasUserGrows(users: seq<User>, more: seq<User>, id: string)
    requires users <= more && HasUser(users, id)
    ensures HasUser(more, id)
  {
    var i :| 0 <= i < |users| && users[i].id == id;
    assert more[i] == users[i];
  }
}
