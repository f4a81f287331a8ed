/**
 * The waitlist endpoint: POST registers an e-mail address at most once, GET reports
 * how many addresses are registered. The table of entries lives in the database;
 * here it is the `entries` field of a `WaitlistStore`, and each request runs to
 * completion before the next one starts.
 */
module Waitlist {
  import opened Results
  import opened Json
  import opened Schema

  /** Identifiers and timestamps are chosen by the database; the route never looks inside them. */
  type EntryId = nat
  type Timestamp = int

  /** One row of the waitlist table. */
  datatype Entry = Entry(id: EntryId, email: string, createdAt: Timestamp)

  /** The JSON object of an answer: `{ message, entry }`, `{ error }` or `{ count }`. */
  datatype Payload =
    | Joined(message: string, entry: Entry)
    | Error(error: string)
    | Total(count: nat)

  /** An HTTP answer: status code and JSON payload. */
  datatype Response = Response(status: nat, payload: Payload)

  const JoinedMessage := "Successfully joined the waitlist!"
  const DuplicateMessage := "This email is already on the waitlist!"
  const GenericMessage := "Something went wrong. Please try again."
  const CountFailedMessage := "Failed to fetch waitlist count"

  /** Why the database may refuse to create a row. */
  datatype CreateFault = UniqueViolation | OtherCreateFault

  /**
   * What the database does during one POST: whether the lookup throws, whether the
   * insert throws (and why), and the id and timestamp it gives a new row.
   */
  datatype Backend = Backend(findFails: bool, createFault: Option<CreateFault>, newId: EntryId, now: Timestamp)

  /** What may reach the `catch` block of POST. */
  datatype Thrown =
    | InvalidJson
    | SchemaError(issues: seq<Issue>)
    | FindFailed
    | CreateFailed(fault: CreateFault)

  /**
   * The `catch` block of POST: a schema error is a 400 carrying the first form-level
   * message; everything else, a unique-constraint violation at insert included, is
   * a 500 with a fixed text that reveals nothing about the cause.
   */
  function Caught(e: Thrown): (r: Response)
    ensures r.payload.Error? && r.payload.error != ""
    ensures r.status == 400 <==> e.SchemaError?
    ensures r.status == 500 <==> !e.SchemaError?
    ensures e.SchemaError? ==> r.payload.error == ValidationMessage(e.issues)
    ensures !e.SchemaError? ==> r.payload.error == GenericMessage
  {
    match e
    case SchemaError(issues) => Response(400, Error(ValidationMessage(issues)))
    case _ => Response(500, Error(GenericMessage))
  }

  /** `findUnique({ where: { email } })`: the row whose email is exactly `email`, if any. */
  function Find(table: seq<Entry>, email: string): (r: Option<Entry>)
    ensures r.Some? ==> r.value in table && r.value.email == email
    ensures r.None? ==> forall e :: e in table ==> e.email != email
  {
    if table == [] then None
    else if table[0].email == email then Some(table[0])
    else Find(table[1..], email)
  }

  /** No two rows share an e-mail address (compared as exact strings). */
  ghost predicate UniqueEmails(table: seq<Entry>) {
    forall i, j :: 0 <= i < j < |table| ==> table[i].email != table[j].email
  }

  /** No two rows share an id. */
  ghost predicate UniqueIds(table: seq<Entry>) {
    forall i, j :: 0 <= i < j < |table| ==> table[i].id != table[j].id
  }

  ghost function Ids(table: seq<Entry>): (ids: set<EntryId>) {
    set e | e in table :: e.id
  }

  /** The table after a request and the answer to it. */
  datatype Outcome = Outcome(table: seq<Entry>, response: Response)

  /**
   * What one POST does to the table and answers, as a function of the table, the
   * body and the database's behaviour. The table either stays as it is or gains
   * exactly one row at the end, and it gains one only with a 201 that returns it.
   */
  function Post(table: seq<Entry>, body: Body, be: Backend, isEmail: string -> bool): (o: Outcome)
    ensures o.table == table || (o.response.status == 201 && o.response.payload.Joined? && o.table == table + [o.response.payload.entry])
    ensures o.response.status == 201 ==> o.response.payload.Joined? && o.table != table
  {
    match body
    case Unparseable => Outcome(table, Caught(InvalidJson))
    case Parsed(v) =>
      match ParseWaitlist(v, isEmail)
      case Err(issues) => Outcome(table, Caught(SchemaError(issues)))
      case Ok(email) =>
        if be.findFails then Outcome(table, Caught(FindFailed))
        else if Find(table, email).Some? then Outcome(table, Response(409, Error(DuplicateMessage)))
        else if be.createFault.Some? then Outcome(table, Caught(CreateFailed(be.createFault.value)))
        else
          var entry := Entry(be.newId, email, be.now);
          Outcome(table + [entry], Response(201, Joined(JoinedMessage, entry)))
  }

  /** The waitlist table and the two handlers that use it. */
  class WaitlistStore {
    var entries: seq<Entry>
    /** zod's e-mail check, which this model does not describe. */
    const isEmail: string -> bool

    /** What the database's unique columns guarantee between requests. */
    ghost predicate Valid()
      reads this
    {
      UniqueEmails(entries) && UniqueIds(entries)
    }

    constructor (isEmail: string -> bool)
      ensures Valid()
      ensures entries == [] && this.isEmail == isEmail
    {
      entries := [];
      this.isEmail := isEmail;
    }

    /**
     * POST: validate, look up, and insert only when the address is absent. The id the
     * database hands out is one no row has yet.
     */
    method Register(body: Body, be: Backend) returns (r: Response)
      requires Valid()
      requires be.newId !in Ids(entries)
      modifies this
      ensures Valid()
      ensures entries == Post(old(entries), body, be, isEmail).table
      ensures r == Post(old(entries), body, be, isEmail).response
      ensures r.status == 201 ==> entries == old(entries) + [r.payload.entry]
      ensures r.status != 201 ==> entries == old(entries)
    {
      if body.Unparseable? {
        return Caught(InvalidJson);
      }
      var parsed := ParseWaitlist(body.value, isEmail);
      if parsed.Err? {
        return Caught(SchemaError(parsed.error));
      }
      var email := parsed.value;

      if be.findFails {
        return Caught(FindFailed);
      }
      var existing := Find(entries, email);
      if existing.Some? {
        return Response(409, Error(DuplicateMessage));
      }

      if be.createFault.Some? {
        return Caught(CreateFailed(be.createFault.value));
      }
      var entry := Entry(be.newId, email, be.now);
      assert entry !in entries;
      entries := entries + [entry];
      r := Response(201, Joined(JoinedMessage, entry));
    }

    /** GET: the number of rows, or a 500 when the database cannot be reached. */
    method Count(fails: bool) returns (r: Response)
      ensures r.status == 200 <==> !fails
      ensures !fails ==> r.payload == Total(|entries|)
      ensures fails ==> r == Response(500, Error(CountFailedMessage))
    {
      if fails {
        return Response(500, Error(CountFailedMessage));
      }
      r := Response(200, Total(|entries|));
    }
  }
}
