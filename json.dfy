/** JSON values as the body parser delivers them to a route handler, and the
    few JavaScript operations the router applies to them: truthiness,
    `Number.isInteger`, and the two `includes` methods. */
module Json {
  import opened Wrappers

  /** A parsed JSON value. `JNum` holds the number `JSON.parse` delivers, an IEEE
      double; parse-time rounding and overflow to Infinity are not modelled. */
  datatype Json =
    | JNull
    | JBool(b: bool)
    | JNum(n: real)
    | JStr(s: string)
    | JArr(items: seq<Json>)
    | JObj(members: map<string, Json>)

  /** A parsed request body. A key that is absent reads as `undefined`. */
  type Payload = map<string, Json>

  /** `body[key]`, with None standing for `undefined`. */
  function Get(body: Payload, key: string): Option<Json>
  {
    if key in body then Some(body[key]) else None
  }

  /** JavaScript truthiness: `undefined`, `null`, `false`, `0` and `""` are falsy;
      every other value, including an empty array or object, is truthy. */
  predicate Truthy(v: Option<Json>): (r: bool)
    ensures r <==> v.Some? && v.value !in {JNull, JBool(false), JNum(0.0), JStr("")}
  {
    match v
    case None => false
    case Some(JNull) => false
    case Some(JBool(b)) => b
    case Some(JNum(n)) => n != 0.0
    case Some(JStr(s)) => s != ""
    case Some(JArr(_)) => true
    case Some(JObj(_)) => true
  }

  /** `Number.isInteger(v)`: false for anything that is not a number. */
  predicate IsInteger(v: Option<Json>)
  {
    v.Some? && v.value.JNum? && v.value.n.Floor as real == v.value.n
  }

  /** `pat` occurs in `s` starting at index `i`. */
  predicate OccursAt(s: string, pat: string, i: int)
  {
    0 <= i && i + |pat| <= |s| && s[i..i + |pat|] == pat
  }

  /** `String.prototype.includes`: a substring test anywhere in `s`. */
  function Includes(s: string, pat: string): (r: bool)
    ensures r <==> exists i :: OccursAt(s, pat, i)
    decreases |s|
  {
    if |s| < |pat| then false
    else if s[..|pat|] == pat then
      assert OccursAt(s, pat, 0);
      true
    else
      ShiftOccurrences(s, pat);
      Includes(s[1..], pat)
  }

  /** When `pat` is not a prefix of `s`, its occurrences in `s` are those in `s[1..]`. */
  lemma ShiftOccurrences(s: string, pat: string)
    requires |pat| <= |s| && s[..|pat|] != pat
    ensures (exists i :: OccursAt(s, pat, i)) <==> (exists i :: OccursAt(s[1..], pat, i))
  {
    if i :| OccursAt(s, pat, i) {
      assert i != 0;
      assert s[1..][i - 1..i - 1 + |pat|] == s[i..i + |pat|];
      assert OccursAt(s[1..], pat, i - 1);
    }
    if i :| OccursAt(s[1..], pat, i) {
      assert s[1..][i..i + |pat|] == s[i + 1..i + 1 + |pat|];
      assert OccursAt(s, pat, i + 1);
    }
  }
}
