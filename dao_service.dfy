/** `UserService`: the user operations over the `UserDao` store, with the strict field validator. */
module DaoService {
  import opened Wrappers
  import opened Text
  import opened Validation
  import opened Records
  import opened Store
  import opened Operations

  class UserService {
    const store: UserStore

    /** The store is well formed and no two records share an email. */
    ghost predicate Valid()
      reads store
    {
      store.Valid() && EmailsUnique(store.rows)
    }

    constructor (store: UserStore)
      requires store.Valid() && EmailsUnique(store.rows)
      ensures this.store == store && Valid()
    {
      this.store := store;
    }

    /** `createUser`: validates, rejects an email already held, and otherwise saves one new record. */
    method CreateUser(name: Option<string>, email: Option<string>, age: Option<int>, now: Timestamp)
      returns (r: Result<int, ServiceError>)
      requires Valid()
      modifies store
      ensures Valid()
      ensures var s := CreateStep(old(store.rows), old(store.nextId), ValidateUserData(name, email, age),
                                  name, email, age, now);
              r == s.result && store.rows == s.rows && store.log == old(store.log) + s.calls
    {
      var verdict := ValidateUserData(name, email, age);
      if verdict.Rejected? {
        assert store.log == old(store.log) + [];
        return Failure(InvalidField(verdict.error));
      }
      r := InsertIfEmailFree(name.value, email.value, age.value, now);
    }

    /** The store phase of `createUser`, after the fields passed validation. */
    method InsertIfEmailFree(name: string, email: string, age: int, now: Timestamp) returns (r: Result<int, ServiceError>)
      requires Valid()
      modifies store
      ensures Valid()
      ensures var s := InsertStep(old(store.rows), old(store.nextId), name, email, age, now);
              r == s.result && store.rows == s.rows && store.log == old(store.log) + s.calls
    {
      ghost var log0 := store.log;
      var existing := store.FindByEmail(email);
      if existing.Some? {
        return Failure(DuplicateEmail);
      }
      UniqueAfterInsert(store.rows, store.nextId, User(store.nextId, name, email, age, now));
      var id := store.Save(name, email, age, now);
      assert store.log == log0 + [LookupByEmail(email), Insert(store.rows[id])];
      return Success(id);
    }

    /** `getUserById`: a bad id fails without calling the store; otherwise the store's answer, unchanged. */
    method GetUserById(id: Option<int>) returns (r: Result<Option<User>, ServiceError>)
      requires Valid()
      modifies store`log
      ensures !IdAcceptable(id) ==> r == Failure(InvalidId) && store.log == old(store.log)
      ensures IdAcceptable(id) ==>
                r == Success(store.Get(id.value)) && store.log == old(store.log) + [Lookup(id.value)]
    {
      if id.None? || id.value <= 0 {
        return Failure(InvalidId);
      }
      var user := store.FindById(id.value);
      return Success(user);
    }

    /** `getAllUsers`: every record, each once. */
    method GetAllUsers() returns (users: seq<User>)
      requires Valid()
      modifies store`log
      ensures |users| == |store.rows|
      ensures forall u :: u in users <==> u.id in store.rows && store.rows[u.id] == u
      ensures store.log == old(store.log) + [ListAll]
    {
      users := store.FindAll();
    }

    /** `updateUser`: replaces name, email and age of an existing record after the id, field, existence
        and (only when the email changes) uniqueness checks. */
    method UpdateUser(id: Option<int>, name: Option<string>, email: Option<string>, age: Option<int>)
      returns (r: Outcome<ServiceError>)
      requires Valid()
      modifies store
      ensures Valid() && store.nextId == old(store.nextId)
      ensures var s := UpdateStep(old(store.rows), id, ValidateUserData(name, email, age), name, email, age);
              r == s.result && store.rows == s.rows && store.log == old(store.log) + s.calls
    {
      if id.None? || id.value <= 0 {
        assert store.log == old(store.log) + [];
        return Fail(InvalidId);
      }
      var verdict := ValidateUserData(name, email, age);
      if verdict.Rejected? {
        assert store.log == old(store.log) + [];
        return Fail(InvalidField(verdict.error));
      }
      r := ReplaceFields(id.value, name.value, email.value, age.value);
    }

    /** The store phase of `updateUser`, after the id and the fields passed their checks. */
    method ReplaceFields(id: int, name: string, email: string, age: int) returns (r: Outcome<ServiceError>)
      requires Valid()
      modifies store
      ensures Valid() && store.nextId == old(store.nextId)
      ensures var s := ReplaceStep(old(store.rows), id, name, email, age);
              r == s.result && store.rows == s.rows && store.log == old(store.log) + s.calls
    {
      ghost var log0 := store.log;
      var found := store.FindById(id);
      if found.None? {
        return Fail(NotFound);
      }
      var user := found.value;
      ghost var lookups := [Lookup(id)];
      if user.email != email {
        var holder := store.FindByEmail(email);
        lookups := lookups + [LookupByEmail(email)];
        if holder.Some? {
          return Fail(DuplicateEmail);
        }
      }
      assert store.log == log0 + lookups;
      user := user.(name := name, email := email, age := age);
      UniqueAfterReplace(store.rows, id, user);
      var written := store.Update(user);
      assert store.log == log0 + lookups + [Merge(user)];
      return Pass;
    }

    /** `deleteUser`: a bad id fails; otherwise the store's delete decides, true iff the record existed. */
    method DeleteUser(id: Option<int>) returns (r: Result<bool, ServiceError>)
      requires Valid()
      modifies store
      ensures Valid() && store.nextId == old(store.nextId)
      ensures var s := DeleteStep(old(store.rows), id);
              r == s.result && store.rows == s.rows && store.log == old(store.log) + s.calls
    {
      if id.None? || id.value <= 0 {
        assert store.log == old(store.log) + [];
        return Failure(InvalidId);
      }
      DeleteKeepsEmailsUnique(store.rows, id);
      var removed := store.Delete(id.value);
      return Success(removed);
    }

    /** `getUserByEmail`: a blank or malformed email fails without calling the store;
        otherwise the record holding the trimmed email, if any. */
    method GetUserByEmail(email: Option<string>) returns (r: Result<Option<User>, ServiceError>)
      requires Valid()
      modifies store`log
      ensures IsBlank(email) ==> r == Failure(InvalidField(EmailEmpty)) && store.log == old(store.log)
      ensures !IsBlank(email) && !EmailShaped(email) ==>
                r == Failure(InvalidField(EmailMalformed)) && store.log == old(store.log)
      ensures !IsBlank(email) && EmailShaped(email) ==>
                && r.Success?
                && (r.value.Some? <==> EmailInUse(store.rows, Trim(email.value)))
                && (r.value.Some? ==> r.value.value.id in store.rows && store.rows[r.value.value.id] == r.value.value
                                      && r.value.value.email == Trim(email.value))
                && store.log == old(store.log) + [LookupByEmail(Trim(email.value))]
    {
      if email.None? || Trim(email.value) == [] {
        return Failure(InvalidField(EmailEmpty));
      }
      if !IsValidEmail(email) {
        return Failure(InvalidField(EmailMalformed));
      }
      var user := store.FindByEmail(Trim(email.value));
      return Success(user);
    }

    /** `getUsersCount`: the number of records `findAll` returns, which is the number of records stored. */
    method GetUsersCount() returns (count: int)
      requires Valid()
      modifies store`log
      ensures count == |store.All()| == |store.rows|
      ensures store.log == old(store.log) + [ListAll]
    {
      var users := store.FindAll();
      count := |users|;
    }
  }
}
