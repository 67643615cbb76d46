/** `UserServiceImpl`: the user operations over the `UserRepository` store, with the lenient field
    validator (no email format check), announcing each creation and each deletion as a `UserEvent`. */
module RepositoryService {
  import opened Wrappers
  import opened Validation
  import opened Records
  import opened Store
  import opened Operations

  /** The message the event producer publishes for `send(kind, email)` as the producer is written:
      the kind it is given is dropped and every message says `DELETED`. */
  function PublishedAsWritten(kind: EventKind, email: string): (m: UserEvent)
    ensures m.email == email && m.kind == Deleted
  {
    UserEvent(Deleted, email)
  }

  /** As written, a creation and a deletion of the same email publish the same message. */
  lemma CreationPublishedAsDeletion(email: string)
    ensures PublishedAsWritten(Created, email) == PublishedAsWritten(Deleted, email)
    ensures PublishedAsWritten(Created, email).kind != Created
  {
  }

  /** The message the event producer is evidently meant to publish: the kind and the email it is given. */
  function Published(kind: EventKind, email: string): (m: UserEvent)
    ensures m.kind == kind && m.email == email
  {
    UserEvent(kind, email)
  }

  /** A consumer can tell every published message apart: kind and email are recovered from it. */
  lemma PublishedDeterminesEvent(k1: EventKind, e1: string, k2: EventKind, e2: string)
    ensures Published(k1, e1) == Published(k2, e2) <==> k1 == k2 && e1 == e2
  {
  }

  /** One call of the event producer's `send`: the (kind, email) the service passes, and how many store
      calls had been made when it was sent, which places the send among the store calls. */
  datatype Sent = Sent(event: UserEvent, afterCalls: nat)

  /** The sends of `createUser`, made once `calls` store calls have been made: one `CREATED` send
      carrying the email, exactly when a record is saved. */
  ghost function CreateEvents(rows: map<int, User>, verdict: Verdict, email: Option<string>, calls: nat)
    : (r: seq<Sent>)
    ensures |r| <= 1
    ensures r != [] ==> r[0].event.kind == Created && r[0].afterCalls == calls
                        && verdict.Accepted? && email.Some? && r[0].event.email == email.value
  {
    if verdict.Accepted? && email.Some? && !EmailInUse(rows, email.value) then
      [Sent(UserEvent(Created, email.value), calls)]
    else
      []
  }

  /** The sends of `deleteUser`, made once `calls` store calls have been made: one `DELETED` send
      carrying the removed record's email, exactly when a record is removed. */
  ghost function DeleteEvents(rows: map<int, User>, id: Option<int>, calls: nat): (r: seq<Sent>)
    ensures |r| <= 1
    ensures r != [] ==> r[0].event.kind == Deleted && r[0].afterCalls == calls
                        && IdAcceptable(id) && id.value in rows && r[0].event.email == rows[id.value].email
  {
    if IdAcceptable(id) && id.value in rows then [Sent(UserEvent(Deleted, rows[id.value].email), calls)] else []
  }

  /** A `CREATED` event is sent if and only if creation succeeded. It names the new record's email,
      and it is sent after the operation's last store call, which is the save of that record. */
  lemma CreateEventIffCreated(rows: map<int, User>, nextId: int, verdict: Verdict,
                              name: Option<string>, email: Option<string>, age: Option<int>, now: Timestamp,
                              callsBefore: nat)
    requires verdict.Accepted? ==> name.Some? && email.Some? && age.Some?
    ensures var s := CreateStep(rows, nextId, verdict, name, email, age, now);
            var sends := CreateEvents(rows, verdict, email, callsBefore + |s.calls|);
            && (sends != [] <==> s.result.Success?)
            && (s.result.Success? ==>
                  && sends == [Sent(UserEvent(Created, s.rows[s.result.value].email), callsBefore + |s.calls|)]
                  && s.calls[|s.calls| - 1] == Insert(s.rows[s.result.value]))
  {
  }

  /** A `DELETED` event is sent if and only if the delete answered true. It names the email the record
      had, the record is gone afterwards, and it is sent after the operation's last store call, the removal. */
  lemma DeleteEventIffRemoved(rows: map<int, User>, id: Option<int>, callsBefore: nat)
    ensures var s := DeleteCheckedStep(rows, id);
            var sends := DeleteEvents(rows, id, callsBefore + |s.calls|);
            && (sends != [] <==> s.result == Success(true))
            && (s.result == Success(true) ==>
                  && sends == [Sent(UserEvent(Deleted, rows[id.value].email), callsBefore + |s.calls|)]
                  && id.value !in s.rows
                  && s.calls[|s.calls| - 1] == Remove(id.value))
  {
  }

  /** Deleting the same id twice sends one `DELETED` event, not two. */
  lemma DeleteTwiceAnnouncesOnce(rows: map<int, User>, id: Option<int>, calls: nat)
    ensures DeleteEvents(DeleteCheckedStep(rows, id).rows, id, calls) == []
  {
  }

  /** With the producer as it is evidently meant to be, every send publishes exactly the event the service
      passed; as written, a send of a creation publishes a different message. */
  lemma PublishedIsWhatWasSent(s: Sent)
    ensures Published(s.event.kind, s.event.email) == s.event
    ensures s.event.kind == Created ==> PublishedAsWritten(s.event.kind, s.event.email) != s.event
  {
  }

  class UserServiceImpl {
    const store: UserStore
    /** Every call of the event producer's `send`, oldest first. */
    ghost var events: seq<Sent>

    /** The store is well formed and no two records share an email. */
    ghost predicate Valid()
      reads store
    {
      store.Valid() && EmailsUnique(store.rows)
    }

    constructor (store: UserStore)
      requires store.Valid() && EmailsUnique(store.rows)
      ensures this.store == store && Valid() && events == []
    {
      this.store := store;
      events := [];
    }

    /** `createUser`: validates (without the email format check), rejects an email already held,
        and otherwise saves one new record and announces it. */
    method CreateUser(name: Option<string>, email: Option<string>, age: Option<int>, now: Timestamp)
      returns (r: Result<int, ServiceError>)
      requires Valid()
      modifies this`events, store
      ensures Valid()
      ensures var verdict := ValidateUserDataLenient(name, email, age);
              var s := CreateStep(old(store.rows), old(store.nextId), verdict, name, email, age, now);
              && r == s.result && store.rows == s.rows && store.log == old(store.log) + s.calls
              && events == old(events) + CreateEvents(old(store.rows), verdict, email, |store.log|)
    {
      var verdict := ValidateUserDataLenient(name, email, age);
      if verdict.Rejected? {
        assert store.log == old(store.log) + [];
        assert events == old(events) + [];
        return Failure(InvalidField(verdict.error));
      }
      r := InsertAndAnnounce(name.value, email.value, age.value, now);
    }

    /** The store phase of `createUser`, after the fields passed validation. */
    method InsertAndAnnounce(name: string, email: string, age: int, now: Timestamp)
      returns (r: Result<int, ServiceError>)
      requires Valid()
      modifies this`events, store
      ensures Valid()
      ensures var s := InsertStep(old(store.rows), old(store.nextId), name, email, age, now);
              && r == s.result && store.rows == s.rows && store.log == old(store.log) + s.calls
              && events == old(events) + CreateEvents(old(store.rows), Accepted, Some(email), |store.log|)
    {
      ghost var log0 := store.log;
      var existing := store.FindByEmail(email);
      if existing.Some? {
        assert events == old(events) + [];
        return Failure(DuplicateEmail);
      }
      UniqueAfterInsert(store.rows, store.nextId, User(store.nextId, name, email, age, now));
      var id := store.Save(name, email, age, now);
      assert store.log == log0 + [LookupByEmail(email), Insert(store.rows[id])];
      Announce(Created, email);
      return Success(id);
    }

    /** One call of the event producer's `send`, recorded with the number of store calls made so far. */
    ghost method Announce(kind: EventKind, email: string)
      modifies this`events
      ensures events == old(events) + [Sent(UserEvent(kind, email), |store.log|)]
    {
      events := events + [Sent(UserEvent(kind, email), |store.log|)];
    }

    /** `getUserById`: a bad id fails without calling the store; otherwise the store's answer, unchanged. */
    method GetUserById(id: Option<int>) returns (r: Result<Option<User>, ServiceError>)
      requires Valid()
      modifies store`log
      ensures !IdAcceptable(id) ==> r == Failure(InvalidId) && store.log == old(store.log)
      ensures IdAcceptable(id) ==>
                r == Success(store.Get(id.value)) && store.log == old(store.log) + [Lookup(id.value)]
    {
      if id.None? || id.value <= 0 {
        return Failure(InvalidId);
      }
      var user := store.FindById(id.value);
      return Success(user);
    }

    /** `getAllUsers`: every record, each once. */
    method GetAllUsers() returns (users: seq<User>)
      requires Valid()
      modifies store`log
      ensures |users| == |store.rows|
      ensures forall u :: u in users <==> u.id in store.rows && store.rows[u.id] == u
      ensures store.log == old(store.log) + [ListAll]
    {
      users := store.FindAll();
    }

    /** `updateUser`: replaces name, email and age of an existing record after the id, field, existence
        and (only when the email changes) uniqueness checks; no event is sent. */
    method UpdateUser(id: Option<int>, name: Option<string>, email: Option<string>, age: Option<int>)
      returns (r: Outcome<ServiceError>)
      requires Valid()
      modifies store
      ensures Valid() && store.nextId == old(store.nextId)
      ensures var s := UpdateStep(old(store.rows), id, ValidateUserDataLenient(name, email, age), name, email, age);
              r == s.result && store.rows == s.rows && store.log == old(store.log) + s.calls
    {
      if id.None? || id.value <= 0 {
        assert store.log == old(store.log) + [];
        return Fail(InvalidId);
      }
      var verdict := ValidateUserDataLenient(name, email, age);
      if verdict.Rejected? {
        assert store.log == old(store.log) + [];
        return Fail(InvalidField(verdict.error));
      }
      r := SaveLoadedRecord(id.value, name.value, email.value, age.value);
    }

    /** The store phase of `updateUser`: load the record, check a changed email, and save it back. */
    method SaveLoadedRecord(id: int, name: string, email: string, age: int) returns (r: Outcome<ServiceError>)
      requires Valid()
      modifies store
      ensures Valid() && store.nextId == old(store.nextId)
      ensures var s := ReplaceStep(old(store.rows), id, name, email, age);
              r == s.result && store.rows == s.rows && store.log == old(store.log) + s.calls
    {
      ghost var log0 := store.log;
      var found := store.FindById(id);
      if found.None? {
        return Fail(NotFound);
      }
      var existing := found.value;
      ghost var lookups := [Lookup(id)];
      if existing.email != email {
        var holder := store.FindByEmail(email);
        lookups := lookups + [LookupByEmail(email)];
        if holder.Some? {
          return Fail(DuplicateEmail);
        }
      }
      assert store.log == log0 + lookups;
      existing := existing.(name := name, email := email, age := age);
      UniqueAfterReplace(store.rows, id, existing);
      var written := store.Update(existing);
      assert store.log == log0 + lookups + [Merge(existing)];
      return Pass;
    }

    /** `deleteUser`: a bad id fails; a missing record answers false; otherwise the record is removed,
        its email announced, and the answer is true. */
    method DeleteUser(id: Option<int>) returns (r: Result<bool, ServiceError>)
      requires Valid()
      modifies this`events, store
      ensures Valid() && store.nextId == old(store.nextId)
      ensures var s := DeleteCheckedStep(old(store.rows), id);
              && r == s.result && store.rows == s.rows && store.log == old(store.log) + s.calls
              && events == old(events) + DeleteEvents(old(store.rows), id, |store.log|)
    {
      if id.None? || id.value <= 0 {
        assert store.log == old(store.log) + [];
        assert events == old(events) + [];
        return Failure(InvalidId);
      }
      r := RemoveAndAnnounce(id.value);
    }

    /** The store phase of `deleteUser`, after the id passed its check. */
    method RemoveAndAnnounce(id: int) returns (r: Result<bool, ServiceError>)
      requires Valid() && id > 0
      modifies this`events, store
      ensures Valid() && store.nextId == old(store.nextId)
      ensures var s := DeleteCheckedStep(old(store.rows), Some(id));
              && r == s.result && store.rows == s.rows && store.log == old(store.log) + s.calls
              && events == old(events) + DeleteEvents(old(store.rows), Some(id), |store.log|)
    {
      ghost var log0 := store.log;
      var found := store.FindById(id);
      if found.None? {
        assert events == old(events) + [];
        return Success(false);
      }
      var email := found.value.email;
      DeleteKeepsEmailsUnique(store.rows, Some(id));
      var removed := store.Delete(id);
      assert store.log == log0 + [Lookup(id), Remove(id)];
      Announce(Deleted, email);
      return Success(true);
    }
  }
}
