/** The user store behind both services: `UserDao` (DAO-backed service) and `UserRepository`
    (repository-backed service) over one table of users, as a map from id to record. */
module Store {
  import opened Wrappers
  import opened Records

  /** Every row is stored under its own id. */
  ghost predicate KeyedById(rows: map<int, User>)
  {
    forall id :: id in rows ==> rows[id].id == id
  }

  /** Some row holds `email` (exact, case-sensitive match). */
  ghost predicate EmailInUse(rows: map<int, User>, email: string)
  {
    exists id :: id in rows && rows[id].email == email
  }

  /** No two rows share an email: the uniqueness the services enforce. */
  ghost predicate EmailsUnique(rows: map<int, User>)
  {
    forall id1, id2 :: id1 in rows && id2 in rows && rows[id1].email == rows[id2].email ==> id1 == id2
  }

  /** Adding a row whose email no row holds keeps emails unique. */
  lemma UniqueAfterInsert(rows: map<int, User>, id: int, user: User)
    requires EmailsUnique(rows) && !EmailInUse(rows, user.email)
    ensures EmailsUnique(rows[id := user])
  {
  }

  /** Replacing a row keeps emails unique when the new email is the row's own or held by no row. */
  lemma UniqueAfterReplace(rows: map<int, User>, id: int, user: User)
    requires EmailsUnique(rows) && id in rows
    requires user.email == rows[id].email || !EmailInUse(rows, user.email)
    ensures EmailsUnique(rows[id := user])
  {
  }

  /** Removing a row keeps emails unique. */
  lemma UniqueAfterRemove(rows: map<int, User>, id: int)
    requires EmailsUnique(rows)
    ensures EmailsUnique(rows - {id})
  {
  }

  /** The ids of `rows` in [from, bound). */
  ghost function IdsBetween(rows: map<int, User>, from: int, bound: int): set<int>
  {
    set id | id in rows && from <= id < bound
  }

  /** The rows whose ids lie in [from, bound), in increasing id order. */
  function ScanFrom(rows: map<int, User>, from: int, bound: int): (r: seq<User>)
    requires KeyedById(rows)
    ensures forall k :: 0 <= k < |r| ==> r[k].id in rows && rows[r[k].id] == r[k] && from <= r[k].id < bound
    ensures forall k, l :: 0 <= k < l < |r| ==> r[k].id < r[l].id
    ensures forall id :: id in rows && from <= id < bound ==> rows[id] in r
    decreases bound - from
  {
    if from >= bound then []
    else (if from in rows then [rows[from]] else []) + ScanFrom(rows, from + 1, bound)
  }

  /** Going one id further drops `from` from the range, and with it one id when `from` is a key. */
  lemma IdsBetweenStep(rows: map<int, User>, from: int, bound: int)
    requires from < bound
    ensures |IdsBetween(rows, from, bound)| == |IdsBetween(rows, from + 1, bound)| + (if from in rows then 1 else 0)
  {
    var rest := IdsBetween(rows, from + 1, bound);
    if from in rows {
      assert IdsBetween(rows, from, bound) == rest + {from};
    } else {
      assert IdsBetween(rows, from, bound) == rest;
    }
  }

  /** A scan holds exactly one record per id in its range. */
  lemma {:induction false} ScanSize(rows: map<int, User>, from: int, bound: int)
    requires KeyedById(rows)
    ensures |ScanFrom(rows, from, bound)| == |IdsBetween(rows, from, bound)|
    decreases bound - from
  {
    if from >= bound {
      assert IdsBetween(rows, from, bound) == {};
    } else {
      ScanSize(rows, from + 1, bound);
      IdsBetweenStep(rows, from, bound);
    }
  }

  /** The first user in `users` holding `email`, if any. */
  function FirstWithEmail(users: seq<User>, email: string): (r: Option<User>)
    ensures r.Some? ==> r.value in users && r.value.email == email
    ensures r.None? ==> forall k :: 0 <= k < |users| ==> users[k].email != email
    ensures r.Some? ==> exists k :: 0 <= k < |users| && users[k] == r.value
                                    && forall j :: 0 <= j < k ==> users[j].email != email
  {
    if users == [] then None
    else if users[0].email == email then Some(users[0])
    else FirstWithEmail(users[1..], email)
  }

  /** One call made on the store, as the services' unit tests observe them. */
  datatype StoreCall =
    | Lookup(id: int)              // findById
    | LookupByEmail(email: string) // findByEmail
    | ListAll                      // findAll
    | Insert(user: User)           // save of a new record
    | Merge(user: User)            // update (repository: save of an existing record)
    | Remove(id: int)              // delete / deleteById

  /** The table of users: rows keyed by id and the next id the store will assign. */
  class UserStore {
    var rows: map<int, User>
    var nextId: int
    /** Every call made on the store, oldest first. */
    ghost var log: seq<StoreCall>

    /** Ids are positive, below the next id to assign, and each row is keyed by its own id. */
    ghost predicate Valid()
      reads this
    {
      && 1 <= nextId
      && KeyedById(rows)
      && forall id :: id in rows ==> 0 < id < nextId
    }

    /** An empty table. */
    constructor ()
      ensures Valid()
      ensures rows == map[] && log == []
    {
      rows := map[];
      nextId := 1;
      log := [];
    }

    /** The row with `id`, if any. */
    function Get(id: int): Option<User>
      reads this
    {
      if id in rows then Some(rows[id]) else None
    }

    /** Every row, once, in increasing id order: what `findAll` returns. */
    function All(): (r: seq<User>)
      reads this
      requires Valid()
      ensures |r| == |rows|
      ensures forall u :: u in r <==> u.id in rows && rows[u.id] == u
      ensures forall k, l :: 0 <= k < l < |r| ==> r[k].id != r[l].id
    {
      var r := ScanFrom(rows, 1, nextId);
      ScanSize(rows, 1, nextId);
      assert IdsBetween(rows, 1, nextId) == rows.Keys;
      r
    }

    /** The row `findByEmail` returns: the first one, in scan order, holding `email`. */
    function WithEmail(email: string): (r: Option<User>)
      reads this
      requires Valid()
      ensures r.Some? <==> EmailInUse(rows, email)
      ensures r.Some? ==> r.value.id in rows && rows[r.value.id] == r.value && r.value.email == email
    {
      FirstWithEmail(All(), email)
    }

    /** Under unique emails, the row `findByEmail` returns is the only one holding the email. */
    lemma WithEmailIsTheHolder(email: string, id: int)
      requires Valid() && EmailsUnique(rows)
      requires id in rows && rows[id].email == email
      ensures WithEmail(email) == Some(rows[id])
    {
    }

    /** `findById`: the row with `id`, or nothing when there is none. */
    method FindById(id: int) returns (r: Option<User>)
      modifies this`log
      ensures r == Get(id)
      ensures log == old(log) + [Lookup(id)]
    {
      r := if id in rows then Some(rows[id]) else None;
      log := log + [Lookup(id)];
    }

    /** `findByEmail`: the row holding `email`, or nothing when no row holds it. */
    method FindByEmail(email: string) returns (r: Option<User>)
      requires Valid()
      modifies this`log
      ensures r.Some? <==> EmailInUse(rows, email)
      ensures r.Some? ==> r.value.id in rows && rows[r.value.id] == r.value && r.value.email == email
      ensures log == old(log) + [LookupByEmail(email)]
    {
      r := WithEmail(email);
      log := log + [LookupByEmail(email)];
    }

    /** `findAll`: every row. */
    method FindAll() returns (users: seq<User>)
      requires Valid()
      modifies this`log
      ensures users == All()
      ensures log == old(log) + [ListAll]
    {
      users := ScanFrom(rows, 1, nextId);
      log := log + [ListAll];
    }

    /** `save` of a new record: assigns a fresh positive id and stores the fields under it unchanged. */
    method Save(name: string, email: string, age: int, createdAt: Timestamp) returns (id: int)
      requires Valid()
      modifies this
      ensures Valid()
      ensures id == old(nextId) && nextId == id + 1
      ensures 0 < id && id !in old(rows)
      ensures rows == old(rows)[id := User(id, name, email, age, createdAt)]
      ensures log == old(log) + [Insert(rows[id])]
    {
      id := nextId;
      rows := rows[id := User(id, name, email, age, createdAt)];
      nextId := nextId + 1;
      log := log + [Insert(rows[id])];
    }

    /** `update`: replaces the row with `user`'s id by `user`. Reports whether that row exists;
        when it does not, nothing changes. */
    method Update(user: User) returns (written: bool)
      requires Valid()
      modifies this`rows, this`log
      ensures Valid()
      ensures written <==> user.id in old(rows)
      ensures rows == if written then old(rows)[user.id := user] else old(rows)
      ensures log == old(log) + [Merge(user)]
    {
      written := user.id in rows;
      if written {
        rows := rows[user.id := user];
      }
      log := log + [Merge(user)];
    }

    /** `delete`: removes the row with `id`, reporting whether there was one. */
    method Delete(id: int) returns (removed: bool)
      requires Valid()
      modifies this`rows, this`log
      ensures Valid()
      ensures removed <==> id in old(rows)
      ensures rows == old(rows) - {id}
      ensures log == old(log) + [Remove(id)]
    {
      removed := id in rows;
      rows := rows - {id};
      log := log + [Remove(id)];
    }
  }

  /** A saved record reads back with a positive id and exactly the fields it was saved with. */
  method SaveThenFind(store: UserStore, name: string, email: string, age: int, createdAt: Timestamp)
    returns (id: int, found: Option<User>)
    requires store.Valid()
    modifies store
    ensures 0 < id
    ensures found == Some(User(id, name, email, age, createdAt))
  {
    id := store.Save(name, email, age, createdAt);
    found := store.FindById(id);
  }

  /** A deleted record is gone, and a second delete of it reports that nothing was removed. */
  method DeleteThenFind(store: UserStore, id: int) returns (first: bool, found: Option<User>, second: bool)
    requires store.Valid()
    modifies store
    ensures first <==> id in old(store.rows)
    ensures found == None && !second
  {
    first := store.Delete(id);
    found := store.FindById(id);
    second := store.Delete(id);
  }
}
