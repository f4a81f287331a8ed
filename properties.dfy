/**
 * What the branching of the waitlist POST and GET guarantees, stated over the
 * specification function `Post` that `WaitlistStore.Register` is proved against.
 */
module WaitlistProperties {
  import opened Results
  import opened Json
  import opened Schema
  import opened Waitlist

  /** The address a body carries when it passes the schema. */
  predicate Accepted(body: Body, isEmail: string -> bool) {
    body.Parsed? && ParseWaitlist(body.value, isEmail).Ok?
  }

  function AcceptedEmail(body: Body, isEmail: string -> bool): (email: string)
    requires Accepted(body, isEmail)
  {
    ParseWaitlist(body.value, isEmail).value
  }

  predicate Registered(table: seq<Entry>, email: string) {
    exists e :: e in table && e.email == email
  }

  // ---------------------------------------------------------------------------
  // One status per outcome, both directions.
  // ---------------------------------------------------------------------------

  /** POST answers with one of four statuses and never with anything else. */
  lemma StatusIsOneOfFour(table: seq<Entry>, body: Body, be: Backend, isEmail: string -> bool)
    ensures Post(table, body, be, isEmail).response.status in {201, 400, 409, 500}
  {
  }

  /**
   * 400 exactly when the body is JSON that fails the schema; the text is the first
   * form-level message or the fallback, and the table is untouched.
   */
  lemma BadInputIs400(table: seq<Entry>, body: Body, be: Backend, isEmail: string -> bool)
    ensures var o := Post(table, body, be, isEmail);
            o.response.status == 400 <==> body.Parsed? && ParseWaitlist(body.value, isEmail).Err?
    ensures var o := Post(table, body, be, isEmail);
            o.response.status == 400 ==>
              o.table == table
              && o.response.payload == Error(ValidationMessage(ParseWaitlist(body.value, isEmail).error))
  {
  }

  /**
   * 400 never depends on the table or on the database: no lookup and no insert
   * happens before the schema has accepted the body.
   */
  lemma BadInputTouchesNoStorage(t1: seq<Entry>, t2: seq<Entry>, v: Value, be1: Backend, be2: Backend, isEmail: string -> bool)
    requires ParseWaitlist(v, isEmail).Err?
    ensures Post(t1, Parsed(v), be1, isEmail).response == Post(t2, Parsed(v), be2, isEmail).response
    ensures Post(t1, Parsed(v), be1, isEmail).table == t1
  {
  }

  /**
   * A malformed, missing or non-string `email` in an object body is a field-level
   * problem, so the 400 text is the fallback, not the schema's own message.
   */
  lemma FieldProblemGivesFallback(table: seq<Entry>, members: map<string, Value>, be: Backend, isEmail: string -> bool)
    requires !("email" in members && members["email"].Str? && isEmail(members["email"].s))
    ensures Post(table, Parsed(Obj(members)), be, isEmail).response == Response(400, Error(FallbackMessage))
  {
  }

  /** Only a body that is not an object supplies a form-level message. */
  lemma NonObjectGivesTypeMessage(table: seq<Entry>, v: Value, be: Backend, isEmail: string -> bool)
    requires !v.Obj?
    ensures Post(table, Parsed(v), be, isEmail).response
            == Response(400, Error("Expected object, received " + TypeName(v)))
  {
    var issues := ParseWaitlist(v, isEmail).error;
    assert issues == [Issue([], Expected("object", v))];
    assert Expected("object", v) == "Expected object, received " + TypeName(v);
    assert FormErrors(issues[1..]) == [];
  }

  /**
   * 409 exactly when the address passes the schema, the lookup works and a row with
   * that exact address exists; the text is fixed and the table is untouched.
   */
  lemma DuplicateIs409(table: seq<Entry>, body: Body, be: Backend, isEmail: string -> bool)
    ensures var o := Post(table, body, be, isEmail);
            o.response.status == 409 <==>
              Accepted(body, isEmail) && !be.findFails && Registered(table, AcceptedEmail(body, isEmail))
    ensures var o := Post(table, body, be, isEmail);
            o.response.status == 409 ==>
              o.table == table && o.response.payload == Error(DuplicateMessage)
  {
  }

  /**
   * 201 exactly when the address passes the schema, is not yet registered and the
   * database performs both calls; the new row carries the parsed address verbatim
   * and is the only change to the table.
   */
  lemma NewAddressIs201(table: seq<Entry>, body: Body, be: Backend, isEmail: string -> bool)
    ensures var o := Post(table, body, be, isEmail);
            o.response.status == 201 <==>
              Accepted(body, isEmail) && !be.findFails && !Registered(table, AcceptedEmail(body, isEmail))
              && be.createFault.None?
    ensures var o := Post(table, body, be, isEmail);
            o.response.status == 201 ==>
              var entry := Entry(be.newId, AcceptedEmail(body, isEmail), be.now);
              o.response.payload == Joined(JoinedMessage, entry) && o.table == table + [entry]
  {
  }

  /**
   * 500 exactly when the body is not JSON or the database throws; the text is the
   * generic one and the table is untouched.
   */
  lemma FaultIs500(table: seq<Entry>, body: Body, be: Backend, isEmail: string -> bool)
    ensures var o := Post(table, body, be, isEmail);
            o.response.status == 500 <==>
              body.Unparseable?
              || (Accepted(body, isEmail)
                  && (be.findFails
                      || (!Registered(table, AcceptedEmail(body, isEmail)) && be.createFault.Some?)))
    ensures var o := Post(table, body, be, isEmail);
            o.response.status == 500 ==>
              o.table == table && o.response.payload == Error(GenericMessage)
  {
  }

  /**
   * A unique-constraint violation raised by the insert is not reported as a
   * duplicate: it is answered like any other database fault.
   */
  lemma UniqueViolationAtInsertIs500(table: seq<Entry>, body: Body, be: Backend, isEmail: string -> bool)
    requires Accepted(body, isEmail) && !be.findFails && !Registered(table, AcceptedEmail(body, isEmail))
    requires be.createFault == Some(UniqueViolation)
    ensures Post(table, body, be, isEmail) == Outcome(table, Response(500, Error(GenericMessage)))
  {
  }

  // ---------------------------------------------------------------------------
  // The table.
  // ---------------------------------------------------------------------------

  /** A POST never alters or removes a row: the old table is a prefix of the new one. */
  lemma PostOnlyAppends(table: seq<Entry>, body: Body, be: Backend, isEmail: string -> bool)
    ensures var o := Post(table, body, be, isEmail);
            table <= o.table && |o.table| <= |table| + 1
            && (|o.table| == |table| + 1 <==> o.response.status == 201)
  {
  }

  /**
   * Uniqueness of addresses (and, given a fresh id, of ids) survives every POST.
   */
  lemma PostKeepsUnique(table: seq<Entry>, body: Body, be: Backend, isEmail: string -> bool)
    requires UniqueEmails(table)
    ensures UniqueEmails(Post(table, body, be, isEmail).table)
    ensures UniqueIds(table) && be.newId !in Ids(table) ==> UniqueIds(Post(table, body, be, isEmail).table)
  {
  }

  /**
   * No normalisation: two different strings are two different keys, so both can be
   * registered one after the other, however alike they look (case, spaces).
   */
  lemma DistinctStringsAreDistinctKeys(table: seq<Entry>, a: string, b: string, be1: Backend, be2: Backend, isEmail: string -> bool)
    requires a != b && isEmail(a) && isEmail(b)
    requires !Registered(table, a) && !Registered(table, b)
    requires !be1.findFails && be1.createFault.None? && !be2.findFails && be2.createFault.None?
    ensures var o1 := Post(table, Parsed(Obj(map["email" := Str(a)])), be1, isEmail);
            var o2 := Post(o1.table, Parsed(Obj(map["email" := Str(b)])), be2, isEmail);
            o1.response.status == 201 && o2.response.status == 201
            && o2.table == table + [Entry(be1.newId, a, be1.now), Entry(be2.newId, b, be2.now)]
  {
  }

  /** Case only: "A@b.com" and "a@b.com" are both admitted when zod accepts both. */
  lemma CaseVariantsBothJoin(be1: Backend, be2: Backend, isEmail: string -> bool)
    requires isEmail("A@b.com") && isEmail("a@b.com")
    requires !be1.findFails && be1.createFault.None? && !be2.findFails && be2.createFault.None?
    ensures var o1 := Post([], Parsed(Obj(map["email" := Str("A@b.com")])), be1, isEmail);
            var o2 := Post(o1.table, Parsed(Obj(map["email" := Str("a@b.com")])), be2, isEmail);
            o1.response.status == 201 && o2.response.status == 201 && |o2.table| == 2
  {
  }

  // ---------------------------------------------------------------------------
  // Sequences of requests.
  // ---------------------------------------------------------------------------

  /** One POST together with the database's behaviour during it. */
  datatype Call = Call(body: Body, backend: Backend)

  /** The table after a series of POSTs, one after the other, and their answers in order. */
  function Replay(table: seq<Entry>, calls: seq<Call>, isEmail: string -> bool): (r: (seq<Entry>, seq<Response>))
    ensures |r.1| == |calls|
    ensures table <= r.0
    decreases |calls|
  {
    if calls == [] then (table, [])
    else
      var o := Post(table, calls[0].body, calls[0].backend, isEmail);
      var rest := Replay(o.table, calls[1..], isEmail);
      (rest.0, [o.response] + rest.1)
  }

  /** How many answers are 201. */
  function Joins(rs: seq<Response>): (n: nat) {
    if rs == [] then 0 else (if rs[0].status == 201 then 1 else 0) + Joins(rs[1..])
  }

  /** The count grows by exactly the number of 201 answers: from empty, N joins give N rows. */
  lemma {:induction false} ReplayCount(table: seq<Entry>, calls: seq<Call>, isEmail: string -> bool)
    ensures |Replay(table, calls, isEmail).0| == |table| + Joins(Replay(table, calls, isEmail).1)
    decreases |calls|
  {
    if calls != [] {
      var o := Post(table, calls[0].body, calls[0].backend, isEmail);
      ReplayCount(o.table, calls[1..], isEmail);
      PostOnlyAppends(table, calls[0].body, calls[0].backend, isEmail);
      var r := Replay(table, calls, isEmail);
      assert r.1[1..] == Replay(o.table, calls[1..], isEmail).1;
    }
  }

  /** Fresh ids for every call of a series, as the database hands them out. */
  ghost predicate FreshIds(table: seq<Entry>, calls: seq<Call>) {
    (forall k :: 0 <= k < |calls| ==> calls[k].backend.newId !in Ids(table))
    && (forall j, k :: 0 <= j < k < |calls| ==> calls[j].backend.newId != calls[k].backend.newId)
  }

  /** Over any series of POSTs, no two rows ever share an address or an id. */
  lemma {:induction false} ReplayKeepsUnique(table: seq<Entry>, calls: seq<Call>, isEmail: string -> bool)
    requires UniqueEmails(table) && UniqueIds(table) && FreshIds(table, calls)
    ensures UniqueEmails(Replay(table, calls, isEmail).0) && UniqueIds(Replay(table, calls, isEmail).0)
    decreases |calls|
  {
    if calls != [] {
      var be := calls[0].backend;
      var o := Post(table, calls[0].body, be, isEmail);
      PostKeepsUnique(table, calls[0].body, be, isEmail);
      assert FreshIds(o.table, calls[1..]) by {
        forall k | 0 <= k < |calls[1..]| ensures calls[1..][k].backend.newId !in Ids(o.table) {
          assert calls[1..][k] == calls[k + 1];
          if o.table != table {
            assert Ids(o.table) == Ids(table) + {be.newId} by {
              assert o.table == table + [o.response.payload.entry];
            }
          }
        }
      }
      ReplayKeepsUnique(o.table, calls[1..], isEmail);
    }
  }

  // ---------------------------------------------------------------------------
  // A worked session.
  // ---------------------------------------------------------------------------

  /**
   * Join "a@b.com" (201), join it again (409), send "not-an-email" in the `email`
   * field (400 with the fallback text, since the e-mail message is field-level),
   * and the count is then 1.
   */
  lemma ExampleSession(be1: Backend, be2: Backend, be3: Backend, isEmail: string -> bool)
    requires isEmail("a@b.com") && !isEmail("not-an-email")
    requires !be1.findFails && be1.createFault.None? && !be2.findFails
    ensures var o1 := Post([], Parsed(Obj(map["email" := Str("a@b.com")])), be1, isEmail);
            var o2 := Post(o1.table, Parsed(Obj(map["email" := Str("a@b.com")])), be2, isEmail);
            var o3 := Post(o2.table, Parsed(Obj(map["email" := Str("not-an-email")])), be3, isEmail);
            o1.response == Response(201, Joined(JoinedMessage, Entry(be1.newId, "a@b.com", be1.now)))
            && o2.response == Response(409, Error(DuplicateMessage))
            && o3.response == Response(400, Error(FallbackMessage))
            && |o3.table| == 1
  {
  }

  /**
   * The same session on a `WaitlistStore`, followed by GET: what a caller
   * can conclude from the contracts of `Register` and `Count` alone.
   */
  method StoreSession(isEmail: string -> bool, t1: Timestamp, t2: Timestamp, t3: Timestamp)
    returns (first: Response, second: Response, malformed: Response, count: Response)
    requires isEmail("a@b.com") && !isEmail("not-an-email")
    ensures first.status == 201 && first.payload.Joined? && first.payload.entry.email == "a@b.com"
    ensures second == Response(409, Error(DuplicateMessage))
    ensures malformed == Response(400, Error(FallbackMessage))
    ensures count == Response(200, Total(1))
  {
    var store := new WaitlistStore(isEmail);
    var joinA := Parsed(Obj(map["email" := Str("a@b.com")]));
    var joinBad := Parsed(Obj(map["email" := Str("not-an-email")]));
    first := store.Register(joinA, Backend(false, None, 1, t1));
    ExampleSession(Backend(false, None, 1, t1), Backend(false, None, 2, t2), Backend(false, None, 3, t3), isEmail);
    assert Ids(store.entries) == {1};
    second := store.Register(joinA, Backend(false, None, 2, t2));
    malformed := store.Register(joinBad, Backend(false, None, 3, t3));
    count := store.Count(false);
  }
}
