/**
 * The `/secret` handler: GET returns a user's secrets, PUT stores them (creating
 * the user on first use), DELETE removes the user. Every request is authorised by
 * its email and salt.
 */
module SecretPage {
  import opened Wrappers
  import opened ServerHelper

  /** The largest body a PUT may store, in bytes. */
  const MaxSize := 25 * 1024

  /** The longest value a datastore `StringProperty` accepts, such as an email or a salt. */
  const MaxStringLength := 500

  /**
   * Whether a byte string can be stored in a `TextProperty`: the datastore decodes
   * a Python 2 byte string as ASCII, and any byte from 128 up raises.
   */
  predicate Ascii(s: string) {
    forall i | 0 <= i < |s| :: s[i] as int < 128
  }

  /**
   * The PUT reaches one of its two storing branches: the body fits, both header
   * fields are non-empty, and an enabled record matches exactly or (creating) no
   * enabled record has the email, nor any record at all in the corrected PUT.
   */
  predicate PutAccepted(table: Table, req: Request, rejectDisabled: bool) {
    var (email, salt) := GetHeaderFields(req);
    var found := FindEnabledUserRecord(table, email, salt);
    && |req.body| <= MaxSize && Truthy(email) && Truthy(salt)
    && (found.exact || (found.record.None? && !(rejectDisabled && FindUserRecord(table, email, salt).record.Some?)))
  }

  /**
   * The datastore accepts the values the storing branch writes: an ASCII body, and
   * when a record is created, an email and a salt of at most 500 characters.
   */
  predicate PutStorable(table: Table, req: Request) {
    var (email, salt) := GetHeaderFields(req);
    && Ascii(req.body)
    && (FindEnabledUserRecord(table, email, salt).exact ||
        (email.Given? && salt.Given? && |email.value| <= MaxStringLength && |salt.value| <= MaxStringLength))
  }

  /** The table after a request, and the response sent. */
  datatype Outcome = Outcome(table: Table, response: Response)

  /**
   * `delete`: with the credentials of the headers (or of the query parameters when
   * the email header is missing or empty), remove the record on an exact enabled
   * match; otherwise 403 and nothing changes.
   */
  function Delete(table: Table, req: Request): (r: Outcome)
    ensures var (email, salt) := Credentials(req);
      var found := FindEnabledUserRecord(table, email, salt);
      && (r.response.status == 200 <==> found.exact)
      && (found.exact ==> r.table == table[..found.record.value] + table[found.record.value + 1..])
      && (!found.exact ==> r == Outcome(table, Response(403, InvalidCredentials)))
  {
    var (email, salt) := Credentials(req);
    var found := FindEnabledUserRecord(table, email, salt);
    if found.exact then
      var i := found.record.value;
      Outcome(table[..i] + table[i + 1..], Response(200, "Secrets deleted"))
    else
      Outcome(table, Response(403, InvalidCredentials))
  }

  /**
   * `get`: with `http_method=DELETE` it is a delete, for an administrator only;
   * otherwise it never changes the table and answers 200 with the stored secrets
   * exactly when an enabled record matches both header fields, else 403.
   */
  function Get(table: Table, req: Request, isAdmin: bool): (r: Outcome)
    ensures Param(req, "http_method") == "DELETE" ==>
      r == if isAdmin then Delete(table, req) else Outcome(table, Response(403, InvalidCredentials))
    ensures Param(req, "http_method") != "DELETE" ==>
      var (email, salt) := GetHeaderFields(req);
      var found := FindEnabledUserRecord(table, email, salt);
      && r.table == table
      && (r.response.status == 200 <==> found.exact)
      && (found.exact ==> r.response.body == table[found.record.value].secrets)
      && (!found.exact ==> r.response == Response(403, InvalidCredentials))
  {
    if Param(req, "http_method") == "DELETE" then
      if isAdmin then Delete(table, req) else Outcome(table, Response(403, InvalidCredentials))
    else
      var (email, salt) := GetHeaderFields(req);
      var found := FindEnabledUserRecord(table, email, salt);
      if found.exact then Outcome(table, Response(200, table[found.record.value].secrets))
      else Outcome(table, Response(403, InvalidCredentials))
  }

  /**
   * `put`. As written (`rejectDisabled` false) an email whose record is disabled is
   * treated as unknown and a second record is created for it; the corrected handler
   * rejects it. A value the datastore's properties refuse raises in the storing
   * branch, before anything is written: 500, and the table is unchanged.
   */
  function Put(table: Table, req: Request, rejectDisabled: bool): (r: Outcome)
    ensures |req.body| > MaxSize ==> r == Outcome(table, Response(403, "Invalid request"))
    ensures r.response.status == 200 || r.table == table
    ensures r.response.status in {200, 403, 500}
    ensures r.response.status == 500 <==> PutAccepted(table, req, rejectDisabled) && !PutStorable(table, req)
    ensures r.response.status == 500 ==> r == Outcome(table, Response(500, ""))
    ensures r.response.status == 200 ==>
      var (email, salt) := GetHeaderFields(req);
      var found := FindEnabledUserRecord(table, email, salt);
      && |req.body| <= MaxSize && Truthy(email) && Truthy(salt) && Ascii(req.body)
      && (found.exact ==> r.table == table[found.record.value := table[found.record.value].(secrets := req.body)])
      && (!found.exact ==>
            && found.record.None? && r.table == table + [UserRecord(email.value, salt.value, req.body, true)]
            && |email.value| <= MaxStringLength && |salt.value| <= MaxStringLength)
    ensures r.response.status == 200 <==>
      var (email, salt) := GetHeaderFields(req);
      var found := FindEnabledUserRecord(table, email, salt);
      && |req.body| <= MaxSize && Truthy(email) && Truthy(salt) && Ascii(req.body)
      && (found.exact ||
          (found.record.None? && !(rejectDisabled && FindUserRecord(table, email, salt).record.Some?)
           && |email.value| <= MaxStringLength && |salt.value| <= MaxStringLength))
    ensures r.response.status == 200 ==> r.response.body == ""
    ensures rejectDisabled && r.response.status == 200 && !FindEnabledUserRecord(table, GetHeaderFields(req).0, GetHeaderFields(req).1).exact ==>
      forall j | 0 <= j < |table| :: table[j].email != GetHeaderFields(req).0.value
  {
    if |req.body| > MaxSize then Outcome(table, Response(403, "Invalid request"))
    else
      var (email, salt) := GetHeaderFields(req);
      if !(Truthy(email) && Truthy(salt)) then Outcome(table, Response(403, InvalidCredentials))
      else
        var found := FindEnabledUserRecord(table, email, salt);
        if found.exact then
          var i := found.record.value;
          if !Ascii(req.body) then Outcome(table, Response(500, ""))
          else Outcome(table[i := table[i].(secrets := req.body)], Response(200, ""))
        else if found.record.None? && !(rejectDisabled && FindUserRecord(table, email, salt).record.Some?) then
          if !Ascii(req.body) || |email.value| > MaxStringLength || |salt.value| > MaxStringLength then
            Outcome(table, Response(500, ""))
          else Outcome(table + [UserRecord(email.value, salt.value, req.body, true)], Response(200, ""))
        else
          Outcome(table, Response(403, InvalidCredentials))
  }

  /** The corrected PUT keeps at most one record per email. */
  lemma PutKeepsUniqueEmails(table: Table, req: Request)
    requires UniqueEmails(table)
    ensures UniqueEmails(Put(table, req, true).table)
  {
  }

  /** The GET after a PUT: same headers, no `http_method` override. */
  predicate FollowsUp(get: Request, put: Request) {
    get.headers == put.headers && Param(get, "http_method") != "DELETE"
  }

  /** After a corrected PUT succeeds, a GET with the same credentials returns what was stored. */
  lemma PutThenGet(table: Table, req: Request, get: Request, isAdmin: bool)
    requires Put(table, req, true).response.status == 200 && FollowsUp(get, req)
    ensures Get(Put(table, req, true).table, get, isAdmin).response == Response(200, req.body)
  {
    var (email, salt) := GetHeaderFields(req);
    var t := Put(table, req, true).table;
    var found := FindEnabledUserRecord(table, email, salt);
    if found.exact {
      var i := found.record.value;
      FirstWithEmailAfterUpdate(table, i, table[i].(secrets := req.body), email.value);
    } else {
      FirstWithEmailAfterAppend(table, UserRecord(email.value, salt.value, req.body, true));
    }
  }

  /** Changing a record but not its email keeps the first record with every email where it was. */
  lemma FirstWithEmailAfterUpdate(table: Table, i: nat, record: UserRecord, email: string)
    requires i < |table| && record.email == table[i].email
    ensures FirstWithEmail(table[i := record], email) == FirstWithEmail(table, email)
  {
    var t := table[i := record];
    var a, b := FirstWithEmail(t, email), FirstWithEmail(table, email);
    assert forall j | 0 <= j < |table| :: t[j].email == table[j].email;
    if a.Some? && b.Some? {
      assert !(a.value < b.value) && !(b.value < a.value);
    }
  }

  /** A record appended for an email no record had is the first with that email. */
  lemma FirstWithEmailAfterAppend(table: Table, record: UserRecord)
    requires forall j | 0 <= j < |table| :: table[j].email != record.email
    ensures FirstWithEmail(table + [record], record.email) == Some(|table|)
  {
  }

  /**
   * The PUT as written creates a second record for the email of a disabled user,
   * after which a GET with the new credentials is still refused; the corrected PUT
   * refuses the request instead.
   */
  lemma PutDuplicatesDisabledEmail()
    ensures var table := [UserRecord("a@b.c", "s1", "old", false)];
      var req := Request(map[HeaderEmail := "a@b.c", HeaderSalt := "s2"], map[], "new");
      var r := Put(table, req, false);
      && UniqueEmails(table)
      && r.response.status == 200
      && |r.table| == 2 && r.table[0].email == r.table[1].email
      && !UniqueEmails(r.table)
      && Get(r.table, req, false).response.status == 403
      && Put(table, req, true) == Outcome(table, Response(403, InvalidCredentials))
  {
  }

  /** Deleting keeps at most one record per email. */
  lemma DeleteKeepsUniqueEmails(table: Table, req: Request)
    requires UniqueEmails(table)
    ensures UniqueEmails(Delete(table, req).table)
  {
  }

  /** After a successful delete, with one record per email, the same credentials are refused. */
  lemma DeleteThenGet(table: Table, req: Request, get: Request, isAdmin: bool)
    requires UniqueEmails(table) && Delete(table, req).response.status == 200
    requires GetHeaderFields(get) == Credentials(req) && Param(get, "http_method") != "DELETE"
    ensures Get(Delete(table, req).table, get, isAdmin).response == Response(403, InvalidCredentials)
  {
  }

  /** The handlers, updating the datastore in place. */
  class SecretsHandler {
    const store: Datastore

    constructor (store: Datastore)
      ensures this.store == store
    {
      this.store := store;
    }

    /** HTTP GET, with the DELETE override. */
    method HandleGet(req: Request, isAdmin: bool) returns (res: Response)
      modifies store
      ensures store.records == Get(old(store.records), req, isAdmin).table
      ensures res == Get(old(store.records), req, isAdmin).response
    {
      if Param(req, "http_method") == "DELETE" {
        if isAdmin {
          res := HandleDelete(req);
        } else {
          res := Response(403, InvalidCredentials);
        }
        return;
      }
      var (email, salt) := GetHeaderFields(req);
      var found := FindEnabledUserRecord(store.records, email, salt);
      if found.exact {
        res := Response(200, store.records[found.record.value].secrets);
      } else {
        res := Response(403, InvalidCredentials);
      }
    }

    /** HTTP PUT, as written. */
    method HandlePut(req: Request) returns (res: Response)
      modifies store
      ensures store.records == Put(old(store.records), req, false).table
      ensures res == Put(old(store.records), req, false).response
    {
      if |req.body| > MaxSize {
        return Response(403, "Invalid request");
      }
      var (email, salt) := GetHeaderFields(req);
      res := Response(403, InvalidCredentials);
      if Truthy(email) && Truthy(salt) {
        var found := FindEnabledUserRecord(store.records, email, salt);
        if found.exact {
          if !Ascii(req.body) {
            return Response(500, "");
          }
          var i := found.record.value;
          store.Update(i, store.records[i].(secrets := req.body));
          res := Response(200, "");
        } else if found.record.None? {
          if !Ascii(req.body) || |email.value| > MaxStringLength || |salt.value| > MaxStringLength {
            return Response(500, "");
          }
          store.Insert(UserRecord(email.value, salt.value, req.body, true));
          res := Response(200, "");
        }
      }
    }

    /** HTTP DELETE. */
    method HandleDelete(req: Request) returns (res: Response)
      modifies store
      ensures store.records == Delete(old(store.records), req).table
      ensures res == Delete(old(store.records), req).response
    {
      var (email, salt) := Credentials(req);
      var found := FindEnabledUserRecord(store.records, email, salt);
      if found.exact {
        store.Remove(found.record.value);
        res := Response(200, "Secrets deleted");
      } else {
        res := Response(403, InvalidCredentials);
      }
    }
  }
}
