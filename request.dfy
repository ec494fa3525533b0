/** What the HTTP layer hands the handlers: the parsed JSON body of the POST,
    and the `limit` query parameter after JavaScript's `Number(...)`. */
module Request {
  import opened Wrappers
  import opened Readings

  /** A JSON value as the body parser produces it. */
  datatype Json =
    | JNumber(value: real)
    | JString(text: string)
    | JBool(flag: bool)
    | JNull
    | JArray(items: seq<Json>)
    | JObject(members: seq<(string, Json)>)

  /** A property read in JavaScript: `undefined` or a value. */
  datatype Field = Undefined | Defined(value: Json)

  /** `(key, v)` is a member and no later member has the same name. */
  predicate LastBinding(members: seq<(string, Json)>, key: string, v: Json)
  {
    exists k :: 0 <= k < |members| && members[k] == (key, v) && forall k' :: k < k' < |members| ==> members[k'].0 != key
  }

  /** `body[key]`. A key written twice in the JSON text keeps its last value;
      a body that is not an object has no such property. */
  function Property(body: Json, key: string): (f: Field)
    ensures body.JObject? && (exists k :: 0 <= k < |body.members| && body.members[k].0 == key) ==> f.Defined?
    ensures f.Defined? ==> body.JObject? && LastBinding(body.members, key, f.value)
  {
    if body.JObject? then LastMember(body.members, key) else Undefined
  }

  /** The value of the last member named `key`, as JSON.parse keeps it. */
  function LastMember(members: seq<(string, Json)>, key: string): (f: Field)
    ensures f.Undefined? <==> forall k :: 0 <= k < |members| ==> members[k].0 != key
    ensures f.Defined? ==> LastBinding(members, key, f.value)
  {
    if members == [] then Undefined
    else if members[|members| - 1].0 == key then
      assert members[|members| - 1] == (key, members[|members| - 1].1);
      Defined(members[|members| - 1].1)
    else
      var init := members[..|members| - 1];
      var f := LastMember(init, key);
      assert members == init + [members[|members| - 1]];
      if f.Defined? then LastBindingExtends(init, members[|members| - 1], key, f.value); f
      else f
  }

  /** A member with another name appended after the last binding keeps it last. */
  lemma LastBindingExtends(init: seq<(string, Json)>, m: (string, Json), key: string, v: Json)
    requires LastBinding(init, key, v) && m.0 != key
    ensures LastBinding(init + [m], key, v)
  {
    var k :| 0 <= k < |init| && init[k] == (key, v) && forall k' :: k < k' < |init| ==> init[k'].0 != key;
    var all := init + [m];
    assert all[k] == (key, v);
    assert forall k' :: k < k' < |all| ==> all[k'].0 != key by {
      forall k' | k < k' < |all| ensures all[k'].0 != key {
        if k' < |init| { assert all[k'] == init[k']; }
      }
    }
  }

  /** JavaScript's `typeof` of a property read from parsed JSON; `null`,
      arrays and objects are all "object". */
  function TypeOf(f: Field): (t: string)
    ensures t in {"undefined", "number", "string", "boolean", "object"}
    ensures t == "undefined" <==> f.Undefined?
    ensures t == "object" <==> f.Defined? && (f.value.JNull? || f.value.JArray? || f.value.JObject?)
  {
    match f
    case Undefined => "undefined"
    case Defined(v) =>
      match v
      case JNumber(_) => "number"
      case JString(_) => "string"
      case JBool(_) => "boolean"
      case _ => "object"
  }

  /** `typeof v === 'number'`. */
  predicate IsNumber(f: Field)
  {
    TypeOf(f) == "number"
  }

  /** The check of `typeof` accepts exactly the JSON numbers. */
  lemma IsNumberExactlyNumbers(f: Field)
    ensures IsNumber(f) <==> f.Defined? && f.value.JNumber?
  {
  }

  /** The (temperature, humidity) pair of a body whose two fields are both
      numbers, or nothing. */
  function Numbers(body: Json): (r: Option<(real, real)>)
    ensures r.Some? <==> IsNumber(Property(body, "temperature")) && IsNumber(Property(body, "humidity"))
    ensures r.Some? ==> r.value.0 == Property(body, "temperature").value.value
    ensures r.Some? ==> r.value.1 == Property(body, "humidity").value.value
  {
    var t := Property(body, "temperature");
    var h := Property(body, "humidity");
    if IsNumber(t) && IsNumber(h) then Some((t.value.value, h.value.value)) else None
  }

  /** The result of JavaScript's `Number(...)` on the query parameter: not a
      number (a missing or non-numeric parameter) or a finite value. */
  datatype NumberValue = NaN | Finite(x: real)

  /** The row count used when `limit` is missing, not a number or zero. */
  const DefaultLimit: real := 50.0

  /** `Number(req.query.limit) || 50`: NaN and 0 are falsy, so the limit
      handed to the query is never 0. */
  function EffectiveLimit(q: NumberValue): (r: real)
    ensures r != 0.0
    ensures q.Finite? && q.x != 0.0 ==> r == q.x
    ensures r == DefaultLimit <==> q.NaN? || q.x == 0.0 || q.x == DefaultLimit
  {
    if q.NaN? || q.x == 0.0 then DefaultLimit else q.x
  }

  /** SQLite turns a bound LIMIT value into an integer only when it is one
      and lies strictly inside the 64-bit range. */
  const Int64Bound: real := 9223372036854775808.0

  /** How SQLite reads a bound LIMIT value: a negative integer means no bound;
      a value that is not an integer, or one too large for 64 bits, is a
      datatype mismatch (an error). */
  function LimitBound(x: real): (b: Option<Bound>)
    ensures b.Some? <==> x == x.Floor as real && -Int64Bound < x < Int64Bound
    ensures b == Some(Unbounded) <==> x == x.Floor as real && -Int64Bound < x < 0.0
    ensures b.Some? && b.value.AtMost? ==> b.value.n as real == x
  {
    if x != x.Floor as real || x <= -Int64Bound || x >= Int64Bound then None
    else if x < 0.0 then Some(Unbounded)
    else Some(AtMost(x.Floor))
  }
}
