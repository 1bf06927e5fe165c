/** The in-memory user store of the user-management service: a dictionary of
    user records keyed by a generated id, with the five handlers that read and
    change it (list all, get one, create, full-replace update, delete).

    The dictionary is modelled by a map from id to record together with the
    sequence of its keys in insertion order, which is the order in which the
    dictionary hands out its values. */
module UserService {

  datatype Option<T> = None | Some(value: T)

  /** What a handler answers: the record (or acknowledgement) it produced, or
      the "user not found" error that the HTTP layer turns into a 404. */
  datatype Result<T> = Ok(value: T) | NotFound

  /** A stored user record. */
  datatype User = User(id: string, name: string, email: string, role: string)

  /** The request body of create and update: a record without its id. */
  datatype UserCreate = UserCreate(name: string, email: string, role: string)

  /** The role a new record gets when the request does not name one. */
  const DefaultRole: string := "user"

  /** Builds a request body; an omitted role falls back to DefaultRole. */
  function NewUserCreate(name: string, email: string, role: Option<string>): (u: UserCreate)
    ensures u.name == name && u.email == email
    ensures role.Some? ==> u.role == role.value
    ensures role.None? ==> u.role == DefaultRole
  {
    UserCreate(name, email, if role.Some? then role.value else DefaultRole)
  }

  /** The request fields of a record, without its id. */
  function Dump(u: User): UserCreate {
    UserCreate(u.name, u.email, u.role)
  }

  /** A record made of an id and the request fields. */
  function WithId(id: string, user: UserCreate): (r: User)
    ensures r.id == id && Dump(r) == user
  {
    User(id, user.name, user.email, user.role)
  }

  /** Splitting a record into id and fields and putting it back together
      gives the record again. */
  lemma WithIdDumpRoundTrip(u: User)
    ensures WithId(u.id, Dump(u)) == u
  {
  }

  // ---------------------------------------------------------------------------
  // The store as a value: what each handler does to the map
  // ---------------------------------------------------------------------------

  /** Every record is stored under its own id. */
  ghost predicate KeyedById(db: map<string, User>) {
    forall k :: k in db ==> db[k].id == k
  }

  /** No key occurs twice. */
  ghost predicate Distinct(s: seq<string>) {
    forall i, j :: 0 <= i < j < |s| ==> s[i] != s[j]
  }

  /** `order` lists each key of `db` exactly once. */
  ghost predicate OrderOf(db: map<string, User>, order: seq<string>) {
    Distinct(order) && forall k :: k in order <==> k in db
  }

  /** Looking up one id: the stored record, or NotFound when there is none. */
  function Lookup(db: map<string, User>, id: string): (r: Result<User>)
    ensures r.Ok? <==> id in db
    ensures r.Ok? ==> r.value == db[id]
  {
    if id in db then Ok(db[id]) else NotFound
  }

  /** Storing a record built from `id` and `user` under `id`, as create and
      update both do; whatever was stored under `id` before is replaced. */
  function Stored(db: map<string, User>, id: string, user: UserCreate): (r: map<string, User>)
    ensures r.Keys == db.Keys + {id}
    ensures r[id].id == id && Dump(r[id]) == user
    ensures forall k :: k in db && k != id ==> r[k] == db[k]
    ensures KeyedById(db) ==> KeyedById(r)
  {
    db[id := WithId(id, user)]
  }

  /** Deleting the record under `id`. */
  function Removed(db: map<string, User>, id: string): (r: map<string, User>)
    ensures r.Keys == db.Keys - {id}
    ensures forall k :: k in r ==> r[k] == db[k]
    ensures KeyedById(db) ==> KeyedById(r)
  {
    db - {id}
  }

  /** The tail of a sequence without repetitions has none either, and does
      not contain the head. */
  lemma DistinctTail(s: seq<string>)
    requires Distinct(s) && s != []
    ensures Distinct(s[1..]) && s[0] !in s[1..]
  {
    forall i, j | 0 <= i < j < |s[1..]| ensures s[1..][i] != s[1..][j] {
      assert s[1..][i] == s[i + 1] && s[1..][j] == s[j + 1];
    }
    forall j | 0 <= j < |s[1..]| ensures s[1..][j] != s[0] {
      assert s[1..][j] == s[j + 1];
    }
  }

  /** The key order after deleting `x`: the other keys in their old order. */
  function Without(s: seq<string>, x: string): (r: seq<string>)
    ensures forall k :: k in r <==> k in s && k != x
    ensures x !in s ==> r == s
  {
    if s == [] then []
    else if s[0] == x then Without(s[1..], x)
    else [s[0]] + Without(s[1..], x)
  }

  /** Deleting from a sequence without repetitions keeps it without repetitions. */
  lemma {:induction false} WithoutKeepsDistinct(s: seq<string>, x: string)
    requires Distinct(s)
    ensures Distinct(Without(s, x))
  {
    if s != [] {
      DistinctTail(s);
      WithoutKeepsDistinct(s[1..], x);
      if s[0] != x {
        var rest := Without(s[1..], x);
        assert s[0] !in rest;
        var r := [s[0]] + rest;
        forall i, j | 0 <= i < j < |r| ensures r[i] != r[j] {
          if i == 0 {
            assert r[j] == rest[j - 1];
          } else {
            assert r[i] == rest[i - 1] && r[j] == rest[j - 1];
          }
        }
      }
    }
  }

  /** Deleting a key that occurs once, between `a` and `b`, leaves `a`
      followed by `b`. */
  lemma {:induction false} WithoutBetween(a: seq<string>, x: string, b: seq<string>)
    requires x !in a && x !in b
    ensures Without(a + [x] + b, x) == a + b
  {
    var s := a + [x] + b;
    if a == [] {
      assert s[0] == x && s[1..] == b;
    } else {
      assert s[0] == a[0] != x;
      assert s[1..] == a[1..] + [x] + b;
      WithoutBetween(a[1..], x, b);
      assert a + b == [a[0]] + (a[1..] + b);
    }
  }

  /** Deleting the key at position `i` of a sequence without repetitions
      leaves the keys before and after it, in order. */
  lemma WithoutAt(s: seq<string>, i: nat)
    requires Distinct(s) && i < |s|
    ensures Without(s, s[i]) == s[..i] + s[i + 1..]
  {
    var x := s[i];
    assert s == s[..i] + [x] + s[i + 1..];
    var before, after := s[..i], s[i + 1..];
    forall j | 0 <= j < |before| ensures before[j] != x {
      assert before[j] == s[j];
    }
    forall j | 0 <= j < |after| ensures after[j] != x {
      assert after[j] == s[i + 1 + j];
    }
    WithoutBetween(before, x, after);
  }

  /** The values of `db` in the order `order` gives their keys. */
  function Listing(db: map<string, User>, order: seq<string>): (r: seq<User>)
    requires forall k :: k in order ==> k in db
    ensures |r| == |order|
    ensures forall i :: 0 <= i < |order| ==> r[i] == db[order[i]]
  {
    seq(|order|, i requires 0 <= i < |order| => db[order[i]])
  }

  /** A sequence without repetitions has as many elements as it has members. */
  lemma {:induction false} DistinctCardinality(s: seq<string>)
    requires Distinct(s)
    ensures |set k | k in s| == |s|
  {
    if s != [] {
      DistinctTail(s);
      DistinctCardinality(s[1..]);
      assert (set k | k in s) == {s[0]} + (set k | k in s[1..]);
    }
  }

  /** Listing a well-formed store gives each stored record exactly once: as
      many records as keys, each one stored under its own id, no id twice. */
  lemma ListingMatchesStore(db: map<string, User>, order: seq<string>)
    requires KeyedById(db) && OrderOf(db, order)
    ensures |Listing(db, order)| == |db|
    ensures forall u :: u in Listing(db, order) ==> u.id in db && db[u.id] == u
    ensures forall k :: k in db ==> db[k] in Listing(db, order)
    ensures forall i, j :: 0 <= i < j < |Listing(db, order)| ==> Listing(db, order)[i].id != Listing(db, order)[j].id
  {
    var r := Listing(db, order);
    DistinctCardinality(order);
    assert db.Keys == set k | k in order;
    forall k | k in db ensures db[k] in r {
      var i :| 0 <= i < |order| && order[i] == k;
      assert r[i] == db[k];
    }
  }

  // ---------------------------------------------------------------------------
  // What each handler promises, stated on the value model
  // ---------------------------------------------------------------------------

  /** Create with a fresh id adds exactly that key; the store grows by one. */
  lemma CreateFreshAddsOneKey(db: map<string, User>, id: string, user: UserCreate)
    requires id !in db
    ensures Stored(db, id, user).Keys == db.Keys + {id}
    ensures |Stored(db, id, user)| == |db| + 1
    ensures forall k :: k in db ==> Stored(db, id, user)[k] == db[k]
  {
  }

  /** Storing under a key that is already present (update, or a create whose
      id collides) keeps the key set and replaces the old record outright. */
  lemma StorePresentKeepsKeys(db: map<string, User>, id: string, user: UserCreate)
    requires id in db
    ensures Stored(db, id, user).Keys == db.Keys
    ensures |Stored(db, id, user)| == |db|
    ensures Lookup(Stored(db, id, user), id) == Ok(User(id, user.name, user.email, user.role))
  {
  }

  /** Delete of a present key removes exactly that key; the store shrinks by one. */
  lemma RemovePresentDropsOneKey(db: map<string, User>, id: string)
    requires id in db
    ensures Removed(db, id).Keys == db.Keys - {id}
    ensures |Removed(db, id)| == |db| - 1
  {
  }

  /** Create (or update) then get answers the stored fields under that id,
      and every other id answers as before. */
  lemma GetAfterStore(db: map<string, User>, id: string, user: UserCreate, other: string)
    requires other != id
    ensures Lookup(Stored(db, id, user), id) == Ok(User(id, user.name, user.email, user.role))
    ensures Lookup(Stored(db, id, user), other) == Lookup(db, other)
  {
  }

  /** Delete then get answers NotFound, and every other id answers as before. */
  lemma GetAfterRemove(db: map<string, User>, id: string, other: string)
    requires other != id
    ensures Lookup(Removed(db, id), id) == NotFound
    ensures Lookup(Removed(db, id), other) == Lookup(db, other)
  {
  }

  // ---------------------------------------------------------------------------
  // The store itself, changed in place by the handlers
  // ---------------------------------------------------------------------------

  class UserStore {
    /** The records, by id. */
    var users: map<string, User>
    /** The ids in the order they were first stored. */
    var order: seq<string>

    ghost predicate Valid()
      reads this
    {
      KeyedById(users) && OrderOf(users, order)
    }

    /** The empty store the service starts with. */
    constructor ()
      ensures Valid()
      ensures users == map[] && order == []
    {
      users := map[];
      order := [];
    }

    /** get_users: every stored record once, in insertion order. */
    method GetUsers() returns (r: seq<User>)
      requires Valid()
      ensures r == Listing(users, order)
      ensures |r| == |users|
      ensures forall u :: u in r ==> u.id in users && users[u.id] == u
      ensures forall k :: k in users ==> users[k] in r
      ensures forall i, j :: 0 <= i < j < |r| ==> r[i].id != r[j].id
    {
      r := Listing(users, order);
      ListingMatchesStore(users, order);
    }

    /** get_user: the record stored under `id`, or NotFound. */
    method GetUser(id: string) returns (r: Result<User>)
      requires Valid()
      ensures r == Lookup(users, id)
      ensures r.Ok? ==> r.value.id == id
    {
      if id !in users {
        return NotFound;
      }
      r := Ok(users[id]);
    }

    /** create_user: stores a new record under `id` and returns it. The id
        stands for a freshly drawn random UUID and is assumed not to be a key
        already; the handler itself does not check this. */
    method CreateUser(id: string, user: UserCreate) returns (created: User)
      requires Valid()
      requires id !in users
      modifies this
      ensures Valid()
      ensures created.id == id && Dump(created) == user
      ensures users == Stored(old(users), id, user) && users[id] == created
      ensures order == old(order) + [id]
    {
      created := WithId(id, user);
      users := users[id := created];
      order := order + [id];
    }

    /** update_user: replaces the whole record under `id` with the request
        fields, or answers NotFound and changes nothing. */
    method UpdateUser(id: string, user: UserCreate) returns (r: Result<User>)
      requires Valid()
      modifies this
      ensures Valid()
      ensures order == old(order)
      ensures id !in old(users) ==> r == NotFound && users == old(users)
      ensures id in old(users) ==>
        && r.Ok? && r.value.id == id && Dump(r.value) == user
        && users == Stored(old(users), id, user) && users[id] == r.value
    {
      if id !in users {
        return NotFound;
      }
      var updated := WithId(id, user);
      users := users[id := updated];
      r := Ok(updated);
    }

    /** delete_user: removes the record under `id`, or answers NotFound and
        changes nothing. */
    method DeleteUser(id: string) returns (r: Result<()>)
      requires Valid()
      modifies this
      ensures Valid()
      ensures id !in old(users) ==> r == NotFound && users == old(users) && order == old(order)
      ensures id in old(users) ==>
        r == Ok(()) && users == Removed(old(users), id) && order == Without(old(order), id)
    {
      if id !in users {
        return NotFound;
      }
      WithoutKeepsDistinct(order, id);
      users := users - {id};
      order := Without(order, id);
      r := Ok(());
    }
  }

  /** Create then get on the store returns the request fields under the new id. */
  method CreateThenGet(store: UserStore, id: string, user: UserCreate) returns (r: Result<User>)
    requires store.Valid() && id !in store.users
    modifies store
    ensures store.Valid()
    ensures r == Ok(User(id, user.name, user.email, user.role))
  {
    var created := store.CreateUser(id, user);
    r := store.GetUser(id);
  }

  /** Update then get on the store returns exactly the new fields, with
      nothing kept from the record that was replaced. */
  method UpdateThenGet(store: UserStore, id: string, user: UserCreate) returns (r: Result<User>)
    requires store.Valid()
    modifies store
    ensures store.Valid()
    ensures id in old(store.users) ==> r == Ok(User(id, user.name, user.email, user.role))
    ensures id !in old(store.users) ==> r == NotFound
  {
    var updated := store.UpdateUser(id, user);
    r := store.GetUser(id);
  }

  /** Delete then get on the store answers NotFound, whether or not the
      delete found the record. */
  method DeleteThenGet(store: UserStore, id: string) returns (r: Result<User>)
    requires store.Valid()
    modifies store
    ensures store.Valid()
    ensures r == NotFound
  {
    var deleted := store.DeleteUser(id);
    r := store.GetUser(id);
  }
}
