/** `POST /api/contact`: rate-limit the client, then check the submitted
    form, then store it. The limiter runs first, so a submission that fails
    validation still uses up quota. */
module Contact {
  import opened Options
  import opened Numbers
  import opened RateLimit

  /** The JSON values a form field may hold. */
  datatype Value = Str(s: string) | Num(n: int) | Bool(b: bool) | Null

  /** The parsed request body, field name to value. */
  type Form = map<string, Value>

  function Lookup(form: Form, name: string): Option<Value>
  {
    if name in form then Some(form[name]) else None
  }

  /** JavaScript falsiness of `formData[name]`: missing, `""`, `0`, `false`
      or `null`. */
  predicate Falsy(v: Option<Value>)
  {
    match v
    case None => true
    case Some(Str(s)) => s == ""
    case Some(Num(n)) => n == 0
    case Some(Bool(b)) => !b
    case Some(Null) => true
  }

  const REQUIRED_FIELDS: seq<string> := ["needs", "name", "email", "projectType", "budget"]

  /** The position of the first falsy field among `fields[from..]`, the one
      the `for` loop over the required fields reports. */
  function FirstMissing(form: Form, fields: seq<string>, from: nat): (r: Option<nat>)
    requires from <= |fields|
    ensures r.Some? ==> from <= r.value < |fields| && Falsy(Lookup(form, fields[r.value]))
    ensures r.Some? ==> forall j :: from <= j < r.value ==> !Falsy(Lookup(form, fields[j]))
    ensures r.None? <==> forall j :: from <= j < |fields| ==> !Falsy(Lookup(form, fields[j]))
    decreases |fields| - from
  {
    if from == |fields| then None
    else if Falsy(Lookup(form, fields[from])) then Some(from)
    else FirstMissing(form, fields, from + 1)
  }

  /** `\s` of a JavaScript regular expression: the ECMAScript WhiteSpace and
      LineTerminator code points. */
  predicate IsSpace(c: char)
  {
    || c == '\t' || c == '\n' || c == '\U{0B}' || c == '\U{0C}' || c == '\r' || c == ' '
    || c == '\U{A0}' || c == '\U{1680}' || ('\U{2000}' <= c <= '\U{200A}')
    || c == '\U{2028}' || c == '\U{2029}' || c == '\U{202F}' || c == '\U{205F}'
    || c == '\U{3000}' || c == '\U{FEFF}'
  }

  predicate NoSpace(s: string)
  {
    forall i :: 0 <= i < |s| ==> !IsSpace(s[i])
  }

  /** The language of `^\S+@\S+\.\S+$`: no whitespace, and some `@` with at
      least one character before it, followed at least two places later by a
      `.` that is not the last character. */
  ghost predicate EmailShape(s: string)
  {
    && NoSpace(s)
    && exists i, j :: 1 <= i && i + 2 <= j && j + 2 <= |s| && s[i] == '@' && s[j] == '.'
  }

  /** The first position at or after `from` holding `c`. */
  function IndexFrom(s: string, c: char, from: nat): (r: Option<nat>)
    requires from <= |s|
    ensures r.Some? ==> from <= r.value < |s| && s[r.value] == c
    ensures r.Some? ==> forall k :: from <= k < r.value ==> s[k] != c
    ensures r.None? ==> forall k :: from <= k < |s| ==> s[k] != c
    decreases |s| - from
  {
    if from == |s| then None
    else if s[from] == c then Some(from)
    else IndexFrom(s, c, from + 1)
  }

  /** A matcher for the pattern: take the first `@` after the first
      character, then the first `.` two or more places after it, which must
      not be last. */
  function MatchesEmail(s: string): bool
  {
    && NoSpace(s)
    && |s| >= 1
    && match IndexFrom(s, '@', 1)
       case None => false
       case Some(a) =>
         a + 2 <= |s| &&
         match IndexFrom(s, '.', a + 2)
         case None => false
         case Some(d) => d + 2 <= |s|
  }

  /** The matcher accepts exactly the strings of the pattern's language. */
  lemma MatchesEmailExactly(s: string)
    ensures MatchesEmail(s) <==> EmailShape(s)
  {
    if MatchesEmail(s) {
      var a := IndexFrom(s, '@', 1).value;
      var d := IndexFrom(s, '.', a + 2).value;
      assert 1 <= a && a + 2 <= d && d + 2 <= |s| && s[a] == '@' && s[d] == '.';
    }
    if EmailShape(s) {
      var i, j :| 1 <= i && i + 2 <= j && j + 2 <= |s| && s[i] == '@' && s[j] == '.';
      var a := IndexFrom(s, '@', 1);
      assert a.Some? && a.value <= i;
      var d := IndexFrom(s, '.', a.value + 2);
      assert d.Some? && d.value <= j;
    }
  }

  /** `/^\S+@\S+\.\S+$/.test(formData.email)`. A number or boolean is turned
      into a string without `@`, so only a string can pass. */
  predicate ValidEmail(v: Option<Value>)
  {
    v.Some? && v.value.Str? && MatchesEmail(v.value.s)
  }

  /** The row handed to `prisma.contact.create`. */
  datatype ContactRecord = ContactRecord(
    needs: Value, name: Value, email: Value, projectType: Value, budget: Value, additional: Value)

  /** The outcome of the database step: the client or its `contact` model is
      missing, `create` throws, or it returns the new row's id. */
  datatype Database = Unavailable | CreateFails | Created(id: int)

  datatype ContactResponse =
    | TooManyRequests(limit: nat, remaining: nat, reset: nat, retryAfter: nat)
    | BadRequest(message: string)
    | ServerError(message: string)
    | Submitted(contactId: int, record: ContactRecord)
  {
    function Status(): nat
    {
      match this
      case TooManyRequests(_, _, _, _) => 429
      case BadRequest(_) => 400
      case ServerError(_) => 500
      case Submitted(_, _) => 200
    }
  }

  /** The stored row: the five required fields as sent, and `additional`
      with `''` in place of a falsy value. */
  function RecordOf(form: Form): (c: ContactRecord)
    requires FirstMissing(form, REQUIRED_FIELDS, 0).None?
    ensures c.needs == form["needs"] && c.name == form["name"] && c.email == form["email"]
    ensures c.projectType == form["projectType"] && c.budget == form["budget"]
    ensures Falsy(Lookup(form, "additional")) ==> c.additional == Str("")
    ensures !Falsy(Lookup(form, "additional")) ==> c.additional == form["additional"]
  {
    assert !Falsy(Lookup(form, REQUIRED_FIELDS[0]));
    assert !Falsy(Lookup(form, REQUIRED_FIELDS[1]));
    assert !Falsy(Lookup(form, REQUIRED_FIELDS[2]));
    assert !Falsy(Lookup(form, REQUIRED_FIELDS[3]));
    assert !Falsy(Lookup(form, REQUIRED_FIELDS[4]));
    ContactRecord(
      form["needs"], form["name"], form["email"], form["projectType"], form["budget"],
      if Falsy(Lookup(form, "additional")) then Str("") else form["additional"])
  }

  /** Everything after the rate limit: parse the body (`None` when
      `request.json()` throws), check the fields, store the row. A failing
      notification email is logged and does not change the answer. */
  function Submit(body: Option<Form>, db: Database): (r: ContactResponse)
    ensures body.None? ==> r == ServerError("Server error processing your request")
    ensures !r.TooManyRequests?
    ensures r.Submitted? ==> body.Some? && db == Created(r.contactId)
  {
    match body
    case None => ServerError("Server error processing your request")
    case Some(form) =>
      match FirstMissing(form, REQUIRED_FIELDS, 0)
      case Some(i) => BadRequest(REQUIRED_FIELDS[i] + " is required")
      case None =>
        if !ValidEmail(Lookup(form, "email")) then BadRequest("Invalid email format")
        else
          match db
          case Unavailable => ServerError("Database connection error")
          case CreateFails => ServerError("Database error creating contact entry")
          case Created(id) => Submitted(id, RecordOf(form))
  }

  /** A form missing a required field is answered 400 naming the first one
      missing in the order needs, name, email, projectType, budget, and
      nothing is stored. */
  lemma MissingFieldRejected(form: Form, db: Database, i: nat)
    requires i < |REQUIRED_FIELDS| && Falsy(Lookup(form, REQUIRED_FIELDS[i]))
    requires forall j :: 0 <= j < i ==> !Falsy(Lookup(form, REQUIRED_FIELDS[j]))
    ensures Submit(Some(form), db) == BadRequest(REQUIRED_FIELDS[i] + " is required")
    ensures Submit(Some(form), db).Status() == 400
  {
    assert FirstMissing(form, REQUIRED_FIELDS, 0) == Some(i);
  }

  /** A complete form whose email is not a string of the pattern's shape is
      answered 400 "Invalid email format", and nothing is stored. */
  lemma MalformedEmailRejected(form: Form, db: Database)
    requires FirstMissing(form, REQUIRED_FIELDS, 0).None?
    requires !(form["email"].Str? && EmailShape(form["email"].s))
    ensures Submit(Some(form), db) == BadRequest("Invalid email format")
  {
    assert !Falsy(Lookup(form, REQUIRED_FIELDS[2]));
    if form["email"].Str? {
      MatchesEmailExactly(form["email"].s);
    }
  }

  /** A submission is stored only when every required field is present and
      the email has the pattern's shape; the stored row carries the five
      required fields as sent, and `''` for a falsy `additional`. */
  lemma SubmittedOnlyWhenValid(body: Option<Form>, db: Database)
    requires Submit(body, db).Submitted?
    ensures var r := Submit(body, db);
      && body.Some? && db == Created(r.contactId)
      && (forall j :: 0 <= j < |REQUIRED_FIELDS| ==> !Falsy(Lookup(body.value, REQUIRED_FIELDS[j])))
      && body.value["email"].Str? && EmailShape(body.value["email"].s)
      && r.record.needs == body.value["needs"] && r.record.name == body.value["name"]
      && r.record.email == body.value["email"] && r.record.projectType == body.value["projectType"]
      && r.record.budget == body.value["budget"]
      && r.record.additional ==
           (if Falsy(Lookup(body.value, "additional")) then Str("") else body.value["additional"])
  {
    MatchesEmailExactly(body.value["email"].s);
  }

  /** A complete form whose email has the pattern's shape reaches the
      database: it is stored and answered 200 with the new row's id, or gets
      one of the two database errors, both 500. */
  lemma ValidFormReachesDatabase(form: Form, db: Database)
    requires FirstMissing(form, REQUIRED_FIELDS, 0).None?
    requires form["email"].Str? && EmailShape(form["email"].s)
    ensures db.Created? ==> Submit(Some(form), db) == Submitted(db.id, RecordOf(form))
    ensures db == Unavailable ==> Submit(Some(form), db) == ServerError("Database connection error")
    ensures db == CreateFails ==> Submit(Some(form), db) == ServerError("Database error creating contact entry")
    ensures Submit(Some(form), db).Status() == (if db.Created? then 200 else 500)
  {
    assert !Falsy(Lookup(form, REQUIRED_FIELDS[2]));
    MatchesEmailExactly(form["email"].s);
  }

  /** `Retry-After: Math.ceil(reset / 1000)`: whole seconds, enough to cover
      `reset`, and at most one second more. */
  function RetryAfter(reset: nat): (secs: nat)
    ensures reset <= secs * 1000
    ensures reset > 0 ==> (secs - 1) * 1000 < reset
    ensures reset == 0 <==> secs == 0
  {
    CeilDiv(reset, 1000)
  }

  /** A refusal asks the client to wait between 1 and 3600 seconds when no
      stored timestamp lies in the future. */
  lemma RetryAfterWithinAnHour(ts: seq<int>, now: int)
    requires !Decide(ts, now).success
    requires forall i :: 0 <= i < |ts| ==> ts[i] <= now
    ensures 1 <= RetryAfter(Decide(ts, now).reset) <= 3600
  {
    var reset := Decide(ts, now).reset;
    var secs := RetryAfter(reset);
    MulCancelStrict(secs - 1, 3600, 1000);
  }

  /** The POST handler for client `clientIp` at time `now`; `sweep` as in
      `RateLimit.AfterCheck`. */
  method Post(limiter: RateLimiter, clientIp: string, now: int, sweep: Option<int>,
              body: Option<Form>, db: Database) returns (r: ContactResponse)
    requires limiter.Valid()
    modifies limiter
    ensures limiter.Valid()
    ensures limiter.limits == AfterCheck(old(limiter.limits), clientIp, now, sweep)
    ensures var v := Decide(Stored(old(limiter.limits), clientIp), now);
      if v.success then r == Submit(body, db)
      else r == TooManyRequests(v.limit, v.remaining, v.reset, RetryAfter(v.reset))
  {
    var v := limiter.Check(clientIp, now, sweep);
    if !v.success {
      return TooManyRequests(v.limit, v.remaining, v.reset, RetryAfter(v.reset));
    }
    r := Submit(body, db);
  }
}
