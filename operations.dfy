/** What each mutating service operation does to the store, as pure functions of the store before it:
    the value returned, the rows afterwards, and the store calls made in order. Both service classes are
    proved to follow these; the properties the services promise are lemmas about them. */
module Operations {
  import opened Wrappers
  import opened Validation
  import opened Records
  import opened Store

  /** An id the services accept: present and positive. */
  predicate IdAcceptable(id: Option<int>)
  {
    id.Some? && id.value > 0
  }

  /** The effect of one operation: its result, the rows after it, and the calls it made on the store. */
  datatype Step<R> = Step(result: R, rows: map<int, User>, calls: seq<StoreCall>)

  /** `createUser` given the verdict of the service's validator: a rejected field fails with no store call;
      otherwise the store phase decides. */
  ghost function CreateStep(rows: map<int, User>, nextId: int, verdict: Verdict,
                            name: Option<string>, email: Option<string>, age: Option<int>, now: Timestamp)
    : (r: Step<Result<int, ServiceError>>)
    requires verdict.Accepted? ==> name.Some? && email.Some? && age.Some?
    ensures r.result.Success? <==> verdict.Accepted? && !EmailInUse(rows, email.value)
    ensures r.result.Failure? ==> r.rows == rows
    ensures verdict.Rejected? ==> r.calls == []
  {
    if verdict.Rejected? then Step(Failure(InvalidField(verdict.error)), rows, [])
    else InsertStep(rows, nextId, name.value, email.value, age.value, now)
  }

  /** The store phase of `createUser`: an email already held fails after one lookup; otherwise
      the fields are saved under `nextId`. */
  ghost function InsertStep(rows: map<int, User>, nextId: int, name: string, email: string, age: int, now: Timestamp)
    : (r: Step<Result<int, ServiceError>>)
    ensures r.result.Success? <==> !EmailInUse(rows, email)
    ensures r.result.Failure? ==> r.result.error == DuplicateEmail && r.rows == rows
    ensures r.result.Success? ==> r.rows.Keys == rows.Keys + {nextId} && r.rows[nextId].email == email
    ensures 1 <= |r.calls| && r.calls[0] == LookupByEmail(email)
  {
    if EmailInUse(rows, email) then
      Step(Failure(DuplicateEmail), rows, [LookupByEmail(email)])
    else
      var user := User(nextId, name, email, age, now);
      Step(Success(nextId), rows[nextId := user], [LookupByEmail(email), Insert(user)])
  }

  /** `updateUser` given the verdict of the service's validator: the id is checked, then the fields,
      then the store phase decides. */
  ghost function UpdateStep(rows: map<int, User>, id: Option<int>, verdict: Verdict,
                            name: Option<string>, email: Option<string>, age: Option<int>)
    : (r: Step<Outcome<ServiceError>>)
    requires verdict.Accepted? ==> name.Some? && email.Some? && age.Some?
    ensures r.rows.Keys == rows.Keys
    ensures r.result.Fail? ==> r.rows == rows
    ensures !IdAcceptable(id) || verdict.Rejected? ==> r.calls == []
  {
    if !IdAcceptable(id) then Step(Fail(InvalidId), rows, [])
    else if verdict.Rejected? then Step(Fail(InvalidField(verdict.error)), rows, [])
    else ReplaceStep(rows, id.value, name.value, email.value, age.value)
  }

  /** The store phase of `updateUser`: the record is loaded; it must exist; when the email changes
      no record may hold the new one; then name, email and age of the loaded record are replaced
      and it is written back. */
  ghost function ReplaceStep(rows: map<int, User>, id: int, name: string, email: string, age: int)
    : (r: Step<Outcome<ServiceError>>)
    ensures r.rows.Keys == rows.Keys
    ensures r.result.Pass? <==> id in rows && (rows[id].email == email || !EmailInUse(rows, email))
    ensures r.result.Pass? ==> r.rows[id].email == email
    ensures 1 <= |r.calls| && r.calls[0] == Lookup(id)
  {
    if id !in rows then
      Step(Fail(NotFound), rows, [Lookup(id)])
    else
      var before := rows[id];
      var emailLookup := if before.email != email then [LookupByEmail(email)] else [];
      if before.email != email && EmailInUse(rows, email) then
        Step(Fail(DuplicateEmail), rows, [Lookup(id)] + emailLookup)
      else
        var after := before.(name := name, email := email, age := age);
        Step(Pass, rows[id := after], [Lookup(id)] + emailLookup + [Merge(after)])
  }

  /** `deleteUser` of the DAO-backed service: a bad id fails; otherwise the store's delete answers. */
  ghost function DeleteStep(rows: map<int, User>, id: Option<int>): (r: Step<Result<bool, ServiceError>>)
    ensures r.result.Failure? <==> !IdAcceptable(id)
    ensures r.result == Success(true) <==> IdAcceptable(id) && id.value in rows
    ensures r.rows.Keys <= rows.Keys && (r.result.Success? ==> id.value !in r.rows)
    ensures r.result.Failure? ==> r.result.error == InvalidId
  {
    if !IdAcceptable(id) then Step(Failure(InvalidId), rows, [])
    else Step(Success(id.value in rows), rows - {id.value}, [Remove(id.value)])
  }

  /** `deleteUser` of the repository-backed service: a bad id fails; an absent id answers false after
      the lookup; a present one is deleted and answers true. */
  ghost function DeleteCheckedStep(rows: map<int, User>, id: Option<int>): (r: Step<Result<bool, ServiceError>>)
    ensures r.result.Failure? <==> !IdAcceptable(id)
    ensures r.result == Success(true) <==> IdAcceptable(id) && id.value in rows
    ensures r.rows == if r.result == Success(true) then rows - {id.value} else rows
    ensures r.result.Failure? ==> r.result.error == InvalidId
    ensures IdAcceptable(id) ==> 1 <= |r.calls| && r.calls[0] == Lookup(id.value)
  {
    if !IdAcceptable(id) then Step(Failure(InvalidId), rows, [])
    else if id.value !in rows then Step(Success(false), rows, [Lookup(id.value)])
    else Step(Success(true), rows - {id.value}, [Lookup(id.value), Remove(id.value)])
  }

  // ---- createUser ----

  /** Invalid fields: the validator's error, no store call, no change. */
  lemma CreateRejectsInvalidFields(rows: map<int, User>, nextId: int, verdict: Verdict,
                                   name: Option<string>, email: Option<string>, age: Option<int>, now: Timestamp)
    requires verdict.Rejected?
    ensures CreateStep(rows, nextId, verdict, name, email, age, now) == Step(Failure(InvalidField(verdict.error)), rows, [])
  {
  }

  /** An email some record holds: DuplicateEmail after the one lookup, no save, no change. */
  lemma CreateRejectsHeldEmail(rows: map<int, User>, nextId: int, verdict: Verdict,
                               name: Option<string>, email: Option<string>, age: Option<int>, now: Timestamp)
    requires verdict.Accepted? && name.Some? && email.Some? && age.Some?
    requires EmailInUse(rows, email.value)
    ensures var s := CreateStep(rows, nextId, verdict, name, email, age, now);
            s.result == Failure(DuplicateEmail) && s.rows == rows && s.calls == [LookupByEmail(email.value)]
  {
  }

  /** Otherwise exactly one record is added, under a fresh positive id, holding the given fields,
      and its id is returned. */
  lemma CreateAddsOneRecord(rows: map<int, User>, nextId: int, verdict: Verdict,
                            name: Option<string>, email: Option<string>, age: Option<int>, now: Timestamp)
    requires 1 <= nextId && forall id :: id in rows ==> 0 < id < nextId
    requires verdict.Accepted? && name.Some? && email.Some? && age.Some?
    requires !EmailInUse(rows, email.value)
    ensures var s := CreateStep(rows, nextId, verdict, name, email, age, now);
            && s.result.Success? && 0 < s.result.value && s.result.value !in rows
            && s.rows.Keys == rows.Keys + {s.result.value} && |s.rows| == |rows| + 1
            && s.rows[s.result.value] == User(s.result.value, name.value, email.value, age.value, now)
            && forall id :: id in rows ==> s.rows[id] == rows[id]
  {
  }

  /** Creation never makes two records share an email. */
  lemma CreateKeepsEmailsUnique(rows: map<int, User>, nextId: int, verdict: Verdict,
                                name: Option<string>, email: Option<string>, age: Option<int>, now: Timestamp)
    requires EmailsUnique(rows)
    requires verdict.Accepted? ==> name.Some? && email.Some? && age.Some?
    ensures EmailsUnique(CreateStep(rows, nextId, verdict, name, email, age, now).rows)
  {
    if verdict.Accepted? && !EmailInUse(rows, email.value) {
      UniqueAfterInsert(rows, nextId, User(nextId, name.value, email.value, age.value, now));
    }
  }

  // ---- updateUser ----

  /** Every failure of an update leaves the rows as they were; only the id and field checks avoid the store.
      Each failure has its own error, checked in order: a bad id, then the fields, then a missing record,
      then an email another record holds. */
  lemma UpdateFailureChangesNothing(rows: map<int, User>, id: Option<int>, verdict: Verdict,
                                    name: Option<string>, email: Option<string>, age: Option<int>)
    requires verdict.Accepted? ==> name.Some? && email.Some? && age.Some?
    ensures var s := UpdateStep(rows, id, verdict, name, email, age);
            s.result.Fail? ==> s.rows == rows && forall k :: 0 <= k < |s.calls| ==> !s.calls[k].Merge?
    ensures var s := UpdateStep(rows, id, verdict, name, email, age);
            s.result.Fail? <==>
              !IdAcceptable(id) || verdict.Rejected? || id.value !in rows
              || (rows[id.value].email != email.value && EmailInUse(rows, email.value))
    ensures var s := UpdateStep(rows, id, verdict, name, email, age);
            && (s.result == Fail(InvalidId) <==> !IdAcceptable(id))
            && (IdAcceptable(id) && verdict.Rejected? ==> s.result == Fail(InvalidField(verdict.error)))
            && (s.result == Fail(NotFound) <==> IdAcceptable(id) && verdict.Accepted? && id.value !in rows)
            && (s.result == Fail(DuplicateEmail) <==>
                  IdAcceptable(id) && verdict.Accepted? && id.value in rows
                  && rows[id.value].email != email.value && EmailInUse(rows, email.value))
  {
  }

  /** A successful update changes only name, email and age of that one record: its id and creation
      time stay, and every other record is untouched. */
  lemma UpdateChangesOnlyThreeFields(rows: map<int, User>, id: Option<int>, verdict: Verdict,
                                     name: Option<string>, email: Option<string>, age: Option<int>)
    requires KeyedById(rows)
    requires verdict.Accepted? ==> name.Some? && email.Some? && age.Some?
    requires UpdateStep(rows, id, verdict, name, email, age).result.Pass?
    ensures var s := UpdateStep(rows, id, verdict, name, email, age);
            && s.rows.Keys == rows.Keys
            && s.rows[id.value].id == rows[id.value].id == id.value
            && s.rows[id.value].createdAt == rows[id.value].createdAt
            && s.rows[id.value].name == name.value && s.rows[id.value].email == email.value
            && s.rows[id.value].age == age.value
            && forall other :: other in rows && other != id.value ==> s.rows[other] == rows[other]
  {
  }

  /** An update that keeps the email does no email lookup: it loads the record and writes it back. */
  lemma UpdateSameEmailSkipsLookup(rows: map<int, User>, id: Option<int>, verdict: Verdict,
                                   name: Option<string>, email: Option<string>, age: Option<int>)
    requires IdAcceptable(id) && id.value in rows
    requires verdict.Accepted? && name.Some? && email.Some? && age.Some?
    requires rows[id.value].email == email.value
    ensures var s := UpdateStep(rows, id, verdict, name, email, age);
            && s.result == Pass
            && s.calls == [Lookup(id.value), Merge(rows[id.value].(name := name.value, age := age.value))]
  {
  }

  /** Updating never makes two records share an email. */
  lemma UpdateKeepsEmailsUnique(rows: map<int, User>, id: Option<int>, verdict: Verdict,
                                name: Option<string>, email: Option<string>, age: Option<int>)
    requires EmailsUnique(rows)
    requires verdict.Accepted? ==> name.Some? && email.Some? && age.Some?
    ensures EmailsUnique(UpdateStep(rows, id, verdict, name, email, age).rows)
  {
    var s := UpdateStep(rows, id, verdict, name, email, age);
    if s.result.Pass? {
      UniqueAfterReplace(rows, id.value, s.rows[id.value]);
    }
  }

  // ---- deleteUser ----

  /** DAO-backed delete: with an acceptable id it answers whether the record was there, and afterwards it is not. */
  lemma DeleteReportsPresence(rows: map<int, User>, id: Option<int>)
    requires IdAcceptable(id)
    ensures DeleteStep(rows, id).result == Success(id.value in rows)
    ensures id.value !in DeleteStep(rows, id).rows
    ensures DeleteStep(rows, id).rows == rows - {id.value}
  {
  }

  /** The two delete variants answer the same and leave the same rows; they differ only in the calls made. */
  lemma DeleteVariantsAgree(rows: map<int, User>, id: Option<int>)
    ensures DeleteCheckedStep(rows, id).result == DeleteStep(rows, id).result
    ensures DeleteCheckedStep(rows, id).rows == DeleteStep(rows, id).rows
  {
  }

  /** Deleting twice: the second delete of the same id answers false and changes nothing. */
  lemma DeleteTwiceAnswersFalse(rows: map<int, User>, id: Option<int>)
    requires IdAcceptable(id)
    ensures var once := DeleteCheckedStep(rows, id).rows;
            DeleteCheckedStep(once, id) == Step(Success(false), once, [Lookup(id.value)])
  {
  }

  /** Deleting never makes two records share an email. */
  lemma DeleteKeepsEmailsUnique(rows: map<int, User>, id: Option<int>)
    requires EmailsUnique(rows)
    ensures EmailsUnique(DeleteStep(rows, id).rows)
  {
    if IdAcceptable(id) {
      UniqueAfterRemove(rows, id.value);
    }
  }

}
