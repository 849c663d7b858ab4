/**
 * The `/enable` handler: sets or clears the `enabled` flag of the user whose email
 * and salt match exactly, whether or not the record is currently enabled.
 */
module EnablePage {
  import opened Wrappers
  import opened Strings
  import opened ServerHelper
  import opened SecretPage

  predicate AllDigits(s: string) {
    forall i | 0 <= i < |s| :: '0' <= s[i] <= '9'
  }

  /** The value of a string of decimal digits. */
  function DigitsValue(s: string): nat
    requires AllDigits(s)
    decreases |s|
  {
    if |s| == 0 then 0
    else DigitsValue(s[..|s| - 1]) * 10 + (s[|s| - 1] as int - '0' as int)
  }

  /**
   * `int(s)` on a string: an optional sign followed by at least one decimal digit;
   * `None` for the `ValueError` anything else raises.
   */
  function ParseInt(s: string): (r: Option<int>)
    ensures r.Some? <==> |s| > 0 && (AllDigits(s) || (s[0] in "+-" && |s| > 1 && AllDigits(s[1..])))
    ensures |s| > 0 && AllDigits(s) ==> r == Some(DigitsValue(s))
    ensures |s| > 1 && s[0] == '+' && AllDigits(s[1..]) ==> r == Some(DigitsValue(s[1..]))
    ensures |s| > 1 && s[0] == '-' && AllDigits(s[1..]) ==> r == Some(-(DigitsValue(s[1..]) as int))
  {
    if |s| > 0 && AllDigits(s) then Some(DigitsValue(s))
    else if |s| > 1 && s[0] == '+' && AllDigits(s[1..]) then Some(DigitsValue(s[1..]))
    else if |s| > 1 && s[0] == '-' && AllDigits(s[1..]) then Some(-(DigitsValue(s[1..]) as int))
    else None
  }

  /** Leading zeros do not change the value of a digit string. */
  lemma {:induction false} LeadingZeroValue(s: string)
    requires AllDigits(s)
    ensures AllDigits("0" + s) && DigitsValue("0" + s) == DigitsValue(s)
    decreases |s|
  {
    var t := "0" + s;
    if |s| > 0 {
      assert t[..|t| - 1] == "0" + s[..|s| - 1];
      LeadingZeroValue(s[..|s| - 1]);
    }
  }

  /** `int` ignores leading zeros, with or without a sign. */
  lemma ParseIntLeadingZero(s: string)
    requires |s| > 0 && AllDigits(s)
    ensures ParseInt("0" + s) == ParseInt(s)
    ensures ParseInt("+0" + s) == ParseInt(s)
    ensures ParseInt("-0" + s) == ParseInt("-" + s)
  {
    LeadingZeroValue(s);
    var z := "0" + s;
    var plus, minus, negative := "+0" + s, "-0" + s, "-" + s;
    assert plus[0] == '+' && plus[1..] == z;
    assert minus[0] == '-' && minus[1..] == z;
    assert negative[0] == '-' && negative[1..] == s;
    SignedParse(plus);
    SignedParse(minus);
    SignedParse(negative);
  }

  /** A sign followed by digits reads as the digits' value, negated after a minus. */
  lemma SignedParse(t: string)
    requires |t| > 1 && (t[0] == '+' || t[0] == '-') && AllDigits(t[1..])
    ensures ParseInt(t) == Some(if t[0] == '+' then DigitsValue(t[1..]) else -(DigitsValue(t[1..]) as int))
  {
  }

  /** Reading back the decimal rendering of a number gives the number. */
  lemma {:induction false} DecimalValue(n: nat)
    ensures AllDigits(Decimal(n)) && DigitsValue(Decimal(n)) == n
  {
    var d := Decimal(n);
    if n >= 10 {
      DecimalValue(n / 10);
      assert d[..|d| - 1] == Decimal(n / 10);
    }
  }

  /** `int` parses every decimal rendering, with or without a sign. */
  lemma ParseIntDecimal(n: nat)
    ensures ParseInt(Decimal(n)) == Some(n)
    ensures ParseInt("+" + Decimal(n)) == Some(n)
    ensures ParseInt("-" + Decimal(n)) == Some(-(n as int))
  {
    DecimalValue(n);
    SignedDecimal('+', n);
    SignedDecimal('-', n);
  }

  /** A sign character followed by a decimal rendering is not all digits, and its digits are the rendering. */
  lemma SignedDecimal(sign: char, n: nat)
    requires sign == '+' || sign == '-'
    ensures var t := [sign] + Decimal(n);
      !AllDigits(t) && |t| > 1 && t[0] == sign && t[1..] == Decimal(n)
  {
  }

  /** `int(request.get('enable', 0)) != 0`: false when absent, `None` when not a number. */
  function EnableFlag(req: Request): (r: Option<bool>)
    ensures "enable" !in req.params ==> r == Some(false)
    ensures "enable" in req.params ==> (r.Some? <==> ParseInt(req.params["enable"]).Some?)
    ensures r == Some(true) ==> ParseInt(req.params["enable"]).value != 0
    ensures "enable" in req.params && ParseInt(req.params["enable"]).Some? ==>
      r == Some(ParseInt(req.params["enable"]).value != 0)
  {
    if "enable" !in req.params then Some(false)
    else match ParseInt(req.params["enable"])
      case None => None
      case Some(v) => Some(v != 0)
  }

  /**
   * `get`: a parameter that is not a number fails the request (500) before anything
   * else; otherwise, on an exact match of the credentials of the headers (or of the
   * query parameters), only that record's `enabled` flag is set, with 200; with no
   * exact match, 403 and nothing changes.
   */
  function Enable(table: Table, req: Request): (r: Outcome)
    ensures EnableFlag(req).None? ==> r.table == table && r.response.status == 500
    ensures EnableFlag(req).Some? ==>
      var (email, salt) := Credentials(req);
      var found := FindUserRecord(table, email, salt);
      && (r.response.status == 200 <==> found.exact)
      && (found.exact ==> r.table == table[found.record.value := table[found.record.value].(enabled := EnableFlag(req).value)])
      && (!found.exact ==> r == Outcome(table, Response(403, InvalidCredentials)))
  {
    match EnableFlag(req)
    case None => Outcome(table, Response(500, ""))
    case Some(enabled) =>
      var (email, salt) := Credentials(req);
      var found := FindUserRecord(table, email, salt);
      if found.exact then
        var i := found.record.value;
        Outcome(table[i := table[i].(enabled := enabled)], Response(200, if enabled then "User enabled" else "User disabled"))
      else
        Outcome(table, Response(403, InvalidCredentials))
  }

  /** Enabling or disabling keeps at most one record per email. */
  lemma EnableKeepsUniqueEmails(table: Table, req: Request)
    requires UniqueEmails(table)
    ensures UniqueEmails(Enable(table, req).table)
  {
  }

  /**
   * After a successful enable request, a GET with the same credentials succeeds if
   * and only if the flag was set: a disabled user is locked out, and re-enabling
   * restores access.
   */
  lemma EnableThenGet(table: Table, req: Request, get: Request, isAdmin: bool)
    requires Enable(table, req).response.status == 200
    requires GetHeaderFields(get) == Credentials(req) && Param(get, "http_method") != "DELETE"
    ensures Get(Enable(table, req).table, get, isAdmin).response.status == 200 <==> EnableFlag(req) == Some(true)
  {
    var (email, salt) := Credentials(req);
    var i := FindUserRecord(table, email, salt).record.value;
    FirstWithEmailAfterUpdate(table, i, table[i].(enabled := EnableFlag(req).value), email.value);
  }

  /** The handler, updating the datastore in place. */
  class EnableHandler {
    const store: Datastore

    constructor (store: Datastore)
      ensures this.store == store
    {
      this.store := store;
    }

    /** HTTP GET on `/enable`. */
    method HandleGet(req: Request) returns (res: Response)
      modifies store
      ensures store.records == Enable(old(store.records), req).table
      ensures res == Enable(old(store.records), req).response
    {
      var flag := EnableFlag(req);
      if flag.None? {
        return Response(500, "");
      }
      var enabled := flag.value;
      var (email, salt) := Credentials(req);
      var found := FindUserRecord(store.records, email, salt);
      if found.exact {
        var i := found.record.value;
        store.Update(i, store.records[i].(enabled := enabled));
        res := Response(200, if enabled then "User enabled" else "User disabled");
      } else {
        res := Response(403, InvalidCredentials);
      }
    }
  }
}
