/**
 * The secrets server's user table and the lookups every handler shares: reading
 * the identifying fields of a request, and finding a user's record by email with
 * the salt as credential.
 */
module ServerHelper {
  import opened Wrappers

  /** One user: the email identifies the user, the salt authenticates like a password. */
  datatype UserRecord = UserRecord(email: string, salt: string, secrets: string, enabled: bool)

  /** The datastore's records, in the order a query returns them. */
  type Table = seq<UserRecord>

  /** A Python 2 `str` as the framework delivers a request body: one character per byte. */
  type ByteString = s: string | forall i | 0 <= i < |s| :: s[i] as int < 256

  /** A request: its headers, its query parameters and its raw body, whose length counts bytes. */
  datatype Request = Request(headers: map<string, string>, params: map<string, string>, body: ByteString)

  /** What a handler sends back. */
  datatype Response = Response(status: int, body: string)

  const HeaderEmail := "X-Secrets-Email"
  const HeaderSalt := "X-Secrets-Salt"
  const InvalidCredentials := "Invalid credentials"

  /**
   * A value read from a request: `Missing` is the `False` that `name in headers and
   * ...` yields for an absent header, `Given` a string, possibly empty.
   */
  datatype Field = Missing | Given(value: string)

  /** Python truthiness of a field: present and non-empty. */
  predicate Truthy(f: Field) {
    f.Given? && |f.value| > 0
  }

  /** `GetHeaderFields`: the email and salt headers, each `Missing` when absent. */
  function GetHeaderFields(req: Request): (r: (Field, Field))
    ensures r.0 == Missing <==> HeaderEmail !in req.headers
    ensures r.0.Given? ==> r.0.value == req.headers[HeaderEmail]
    ensures r.1 == Missing <==> HeaderSalt !in req.headers
    ensures r.1.Given? ==> r.1.value == req.headers[HeaderSalt]
  {
    (if HeaderEmail in req.headers then Given(req.headers[HeaderEmail]) else Missing,
     if HeaderSalt in req.headers then Given(req.headers[HeaderSalt]) else Missing)
  }

  /** `request.get(name, '')`: a query parameter, the empty string when absent. */
  function Param(req: Request, name: string): string {
    if name in req.params then req.params[name] else ""
  }

  /**
   * The credentials the delete and enable handlers use: the header fields, or both
   * query parameters when the email header is missing or empty.
   */
  function Credentials(req: Request): (r: (Field, Field))
    ensures Truthy(GetHeaderFields(req).0) ==> r == GetHeaderFields(req)
    ensures !Truthy(GetHeaderFields(req).0) ==> r == (Given(Param(req, "email")), Given(Param(req, "salt")))
  {
    var (email, salt) := GetHeaderFields(req);
    if Truthy(email) then (email, salt) else (Given(Param(req, "email")), Given(Param(req, "salt")))
  }

  /** The query `email = ...` fetching one result: the position of the first record with that email. */
  function FirstWithEmail(table: Table, email: string): (r: Option<nat>)
    ensures r.Some? ==> r.value < |table| && table[r.value].email == email
    ensures r.Some? ==> forall j | 0 <= j < r.value :: table[j].email != email
    ensures r.None? ==> forall j | 0 <= j < |table| :: table[j].email != email
    decreases |table|
  {
    if |table| == 0 then None
    else
      var earlier := FirstWithEmail(table[..|table| - 1], email);
      if earlier.Some? then earlier
      else if table[|table| - 1].email == email then Some(|table| - 1)
      else None
  }

  /** A lookup: the position of the record found, if any, and whether the salt matched. */
  datatype Found = Found(record: Option<nat>, exact: bool)

  /**
   * `FindUserRecord`: without a non-empty email there is no lookup; otherwise the
   * first record with the email, exact exactly when its salt is the one given.
   */
  function FindUserRecord(table: Table, email: Field, salt: Field): (r: Found)
    ensures !Truthy(email) ==> r == Found(None, false)
    ensures r.exact ==> r.record.Some?
    ensures r.record.Some? ==> Truthy(email) && r.record == FirstWithEmail(table, email.value)
    ensures r.record.Some? ==> (r.exact <==> salt == Given(table[r.record.value].salt))
    ensures Truthy(email) && r.record.None? ==> forall j | 0 <= j < |table| :: table[j].email != email.value
  {
    if !Truthy(email) then Found(None, false)
    else match FirstWithEmail(table, email.value)
      case None => Found(None, false)
      case Some(i) => Found(Some(i), salt == Given(table[i].salt))
  }

  /** `FindEnabledUserRecord`: a lookup that ignores a disabled record. */
  function FindEnabledUserRecord(table: Table, email: Field, salt: Field): (r: Found)
    ensures r.record.Some? ==> r.record.value < |table| && table[r.record.value].enabled
    ensures r.exact ==> r.record.Some?
    ensures FindUserRecord(table, email, salt).record.Some? && r.record.None? ==>
      !table[FindUserRecord(table, email, salt).record.value].enabled
    ensures var all := FindUserRecord(table, email, salt);
      all.record.Some? && table[all.record.value].enabled ==> r == all
    ensures var all := FindUserRecord(table, email, salt);
      !(all.record.Some? && table[all.record.value].enabled) ==> r == Found(None, false)
  {
    var found := FindUserRecord(table, email, salt);
    if found.record.Some? && table[found.record.value].enabled then found else Found(None, false)
  }

  /**
   * The access rule, stated on its own: an enabled lookup is exact if and only if
   * the email is non-empty and the first record with it is enabled and has exactly
   * the salt given.
   */
  lemma ExactEnabledMatch(table: Table, email: Field, salt: Field)
    ensures FindEnabledUserRecord(table, email, salt).exact <==>
      && Truthy(email)
      && exists i | 0 <= i < |table| :: && FirstWithEmail(table, email.value) == Some(i)
                                       && table[i].enabled && salt == Given(table[i].salt)
  {
  }

  /** At most one record per email, as the lookup assumes. */
  ghost predicate UniqueEmails(table: Table) {
    forall i, j | 0 <= i < j < |table| :: table[i].email != table[j].email
  }

  /** The datastore, changed in place by the handlers. */
  class Datastore {
    var records: Table

    constructor (initial: Table)
      ensures records == initial
    {
      records := initial;
    }

    /** `record.put()` on the record at position `i`. */
    method Update(i: nat, record: UserRecord)
      requires i < |records|
      modifies this
      ensures records == old(records)[i := record]
    {
      records := records[i := record];
    }

    /** `UserRecord(...).put()` of a new record. */
    method Insert(record: UserRecord)
      modifies this
      ensures records == old(records) + [record]
    {
      records := records + [record];
    }

    /** `record.delete()` on the record at position `i`. */
    method Remove(i: nat)
      requires i < |records|
      modifies this
      ensures records == old(records)[..i] + old(records)[i + 1..]
    {
      records := records[..i] + records[i + 1..];
    }
  }
}
