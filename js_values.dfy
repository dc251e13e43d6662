/**
 * JavaScript values as the data-table code sees them, and the few built-in
 * coercions it relies on: `String(v)`, `Number(v)`, `Boolean(v)`, `new Date(v)`
 * and `toLowerCase`. The parts of these coercions that depend on floating
 * point formatting or on the host's date parser are left to a `Runtime`
 * record of functions; everything else follows the ECMAScript rules.
 */
module JsValues {

  datatype Option<+T> = None | Some(value: T)

  /** A JavaScript number: an extended real, with NaN kept apart. */
  datatype Num = NaN | NegInf | Finite(r: real) | PosInf

  /** A Date object's time value: invalid (`NaN`) or integer milliseconds since the epoch. */
  datatype Instant = Invalid | At(ms: int)

  datatype Value =
    | JNull
    | JUndefined
    | JString(s: string)
    | JNumber(n: Num)
    | JBool(b: bool)
    | JDate(t: Instant)
    | JArray(items: seq<Value>)
    | JObject   // any other object (a plain record, a function, ...)

  /**
   * What the model does not interpret: how a number or a valid date prints,
   * how a string reads as a number (`StringToNumber`) and how `Date.parse`
   * reads a string.
   */
  datatype Runtime = Runtime(
    numberText: Num -> string,
    dateText: int -> string,
    parseNumber: string -> Num,
    parseDate: string -> Instant)

  /** `Boolean(v)`: the falsy values are null, undefined, "", 0, NaN and false. */
  predicate Truthy(v: Value)
  {
    match v
    case JNull => false
    case JUndefined => false
    case JString(s) => s != ""
    case JNumber(n) => n != NaN && n != Finite(0.0)
    case JBool(b) => b
    case JDate(_) => true
    case JArray(_) => true
    case JObject => true
  }

  /** `a === b` on numbers: NaN is equal to nothing, not even itself. */
  predicate NumEq(a: Num, b: Num)
  {
    a != NaN && a == b
  }

  /** `a < b` on numbers: false as soon as either side is NaN. */
  predicate NumLt(a: Num, b: Num)
  {
    match (a, b)
    case (NaN, _) => false
    case (_, NaN) => false
    case (NegInf, NegInf) => false
    case (NegInf, _) => true
    case (_, PosInf) => a != PosInf
    case (Finite(x), Finite(y)) => x < y
    case (_, _) => false
  }

  /** `a <= b` on numbers. */
  predicate NumLe(a: Num, b: Num)
  {
    NumLt(a, b) || NumEq(a, b)
  }

  lemma NumLtIrreflexive(a: Num)
    ensures !NumLt(a, a)
  {
  }

  /** Joins strings with a separator, as `Array.prototype.join` does once the elements are strings. */
  function JoinWith(sep: string, parts: seq<string>): (r: string)
    ensures parts == [] ==> r == ""
    ensures |parts| == 1 ==> r == parts[0]
  {
    if parts == [] then ""
    else if |parts| == 1 then parts[0]
    else parts[0] + sep + JoinWith(sep, parts[1..])
  }

  /** `xs` is `ys` with some entries left out: the entries of `xs` appear in `ys` in the same order. */
  predicate IsSubsequence<T(==)>(xs: seq<T>, ys: seq<T>)
    decreases |ys|
  {
    if xs == [] then true
    else if ys == [] then false
    else if xs[0] == ys[0] then IsSubsequence(xs[1..], ys[1..])
    else IsSubsequence(xs, ys[1..])
  }

  /** `String(v)`; an array is joined with "," after turning null and undefined elements into "". */
  function ToStr(rt: Runtime, v: Value): string
  {
    match v
    case JNull => "null"
    case JUndefined => "undefined"
    case JString(s) => s
    case JNumber(n) => rt.numberText(n)
    case JBool(b) => if b then "true" else "false"
    case JDate(t) => if t.At? then rt.dateText(t.ms) else "Invalid Date"
    case JArray(xs) =>
      JoinWith(",", seq(|xs|, i requires 0 <= i < |xs| =>
        if xs[i].JNull? || xs[i].JUndefined? then "" else ToStr(rt, xs[i])))
    case JObject => "[object Object]"
  }

  /** `Number(v)`. Arrays and objects go through their string form first. */
  function ToNumber(rt: Runtime, v: Value): Num
  {
    match v
    case JNull => Finite(0.0)
    case JUndefined => NaN
    case JString(s) => rt.parseNumber(s)
    case JNumber(n) => n
    case JBool(b) => if b then Finite(1.0) else Finite(0.0)
    case JDate(t) => if t.At? then Finite(t.ms as real) else NaN
    case JArray(_) => rt.parseNumber(ToStr(rt, v))
    case JObject => rt.parseNumber(ToStr(rt, v))
  }

  /** Largest magnitude of a valid time value, 8.64e15 ms. */
  const MaxTime: int := 8_640_000_000_000_000

  /** Truncation toward zero of a real, as `ToIntegerOrInfinity` does. */
  function Truncate(r: real): int
  {
    if r >= 0.0 then r.Floor else -((-r).Floor)
  }

  /** `TimeClip`: the time value `new Date(n)` gets from a number. */
  function TimeClip(n: Num): (t: Instant)
    ensures forall ms: int :: n == Finite(ms as real) && -MaxTime <= ms <= MaxTime ==> t == At(ms)
  {
    match n
    case Finite(r) =>
      if -(MaxTime as real) <= r <= MaxTime as real then At(Truncate(r)) else Invalid
    case _ => Invalid
  }

  /** `new Date(v)`: a Date keeps its time value, a string is parsed, anything else goes through `Number`. */
  function ToDate(rt: Runtime, v: Value): Instant
  {
    match v
    case JDate(t) => t
    case JString(s) => rt.parseDate(s)
    case JArray(_) => rt.parseDate(ToStr(rt, v))
    case JObject => rt.parseDate(ToStr(rt, v))
    case _ => TimeClip(ToNumber(rt, v))
  }

  /** `toLowerCase` on one character; only the ASCII letters are mapped. */
  function LowerChar(c: char): char
  {
    if 'A' <= c <= 'Z' then (c as int + 32) as char else c
  }

  function Lower(s: string): (r: string)
    ensures |r| == |s|
    ensures forall i :: 0 <= i < |s| ==> r[i] == LowerChar(s[i])
  {
    seq(|s|, i requires 0 <= i < |s| => LowerChar(s[i]))
  }

  lemma LowerSlice(s: string, i: int, j: int)
    requires 0 <= i <= j <= |s|
    ensures Lower(s[i..j]) == Lower(s)[i..j]
  {
  }

  lemma LowerConcat(a: string, b: string)
    ensures Lower(a + b) == Lower(a) + Lower(b)
  {
  }

  /** `t` occurs in `s` at position `i`. */
  predicate OccursAt(s: string, t: string, i: int)
  {
    0 <= i && i + |t| <= |s| && s[i..i + |t|] == t
  }

  /** `s.includes(t)`. */
  predicate Contains(s: string, t: string)
  {
    exists i | 0 <= i <= |s| :: OccursAt(s, t, i)
  }

  lemma ContainsEmpty(s: string)
    ensures Contains(s, "")
  {
    assert OccursAt(s, "", 0);
  }

  // -------------------------------------------------------------------
  // Integers in decimal: `Number.prototype.toString` on an integer below 1e21
  // -------------------------------------------------------------------

  function DigitChar(d: int): (c: char)
    requires 0 <= d < 10
    ensures '0' <= c <= '9'
  {
    ('0' as int + d) as char
  }

  /** The decimal digits of a natural number, without leading zeros. */
  function NatText(n: nat): (r: string)
    ensures |r| > 0
    ensures forall i :: 0 <= i < |r| ==> '0' <= r[i] <= '9'
    ensures |r| > 1 ==> r[0] != '0'
  {
    if n < 10 then [DigitChar(n)] else NatText(n / 10) + [DigitChar(n % 10)]
  }

  /** `String(n)` for an integer time value: a minus sign for negatives, then the digits. */
  function IntText(n: int): (r: string)
    ensures |r| > 0
  {
    if n < 0 then "-" + NatText(-n) else NatText(n)
  }

  /** Reads a string of decimal digits. */
  function ParseNat(s: string): int
  {
    if s == [] then 0 else ParseNat(s[..|s| - 1]) * 10 + (s[|s| - 1] as int - '0' as int)
  }

  function ParseIntText(s: string): int
  {
    if |s| > 0 && s[0] == '-' then -ParseNat(s[1..]) else ParseNat(s)
  }

  lemma {:induction false} ParseNatText(n: nat)
    ensures ParseNat(NatText(n)) == n
  {
    if n >= 10 {
      var s := NatText(n);
      assert s[..|s| - 1] == NatText(n / 10);
      ParseNatText(n / 10);
    }
  }

  /** Reading the decimal form back gives the integer. */
  lemma IntTextRoundTrip(n: int)
    ensures ParseIntText(IntText(n)) == n
  {
    if n < 0 {
      assert IntText(n)[1..] == NatText(-n);
      ParseNatText(-n);
    } else {
      ParseNatText(n);
    }
  }

  /** `IntText` is one-to-one, so distinct time values print differently. */
  lemma IntTextInjective(a: int, b: int)
    ensures IntText(a) == IntText(b) ==> a == b
  {
    IntTextRoundTrip(a);
    IntTextRoundTrip(b);
  }

  /** A host whose `Number(s)` reads the decimal form of every valid time value exactly. */
  predicate ReadsDecimalTimes(rt: Runtime)
  {
    forall n: int | -MaxTime <= n <= MaxTime :: rt.parseNumber(IntText(n)) == Finite(n as real)
  }
}
