/** Values shared by the whole catalog model: decoded JSON values as the
    provider returns them, the exceptions the core raises (as data), and the
    few text routines the core relies on (case folding, substring search,
    decimal digits). */
module Values {

  datatype Option<+T> = None | Some(value: T)

  datatype Result<+T, +E> = Ok(value: T) | Err(error: E)

  /** A decoded JSON value. */
  datatype Value = Null | Bool(b: bool) | Int(i: int) | Str(s: string) | Arr(items: seq<Value>)

  /** A raw record fetched from the provider: one decoded JSON object. */
  type Record = map<string, Value>

  /** A parsed timestamp; how it is parsed is not part of this model. */
  datatype DateTime = DateTime(year: int, month: int, day: int, hour: int, minute: int, second: int)

  /** The exceptions the core raises or lets through. */
  datatype Error =
    | KeyError(key: string)
    | ValueError(message: string)
    | TypeError
    | AttributeError(name: string)
    | IntegrityError             // a unique or primary-key constraint refused a flush
    | InvalidRequest             // the session was asked to delete an object it does not hold
    | NotFound(detail: string)
    | PermissionDenied(detail: string)
    | BadCredentials
    | AlreadyExists(message: string)

  /** Python's truth value of a decoded JSON value. */
  predicate Truthy(v: Value) {
    match v
    case Null => false
    case Bool(b) => b
    case Int(i) => i != 0
    case Str(s) => s != ""
    case Arr(xs) => xs != []
  }

  /** `data.get(key)`: the value under `key`, or None when the key is absent. */
  function Lookup(data: Record, key: string): Value {
    if key in data then data[key] else Null
  }

  function Min(a: int, b: int): int { if a <= b then a else b }

  // ----- case-insensitive substring search (the model of `ILIKE '%q%'`) -----

  function LowerChar(c: char): char {
    if 'A' <= c <= 'Z' then (c as int + 32) as char else c
  }

  function Lower(s: string): string {
    seq(|s|, i requires 0 <= i < |s| => LowerChar(s[i]))
  }

  /** `q` occurs in `h` at position `i`, ignoring case. */
  predicate OccursAt(h: string, q: string, i: nat) {
    i + |q| <= |h| && Lower(h)[i..i + |q|] == Lower(q)
  }

  /** `h ILIKE '%' || q || '%'`, with ASCII case folding. */
  predicate ContainsIgnoringCase(h: string, q: string) {
    exists i: nat | i <= |h| :: OccursAt(h, q, i)
  }

  /** Every string contains itself, its lower-cased form and each of its prefixes. */
  lemma ContainsOwnPrefix(s: string, n: nat)
    requires n <= |s|
    ensures ContainsIgnoringCase(s, s[..n])
    ensures ContainsIgnoringCase(s, s) && ContainsIgnoringCase(s, Lower(s))
  {
    assert Lower(s)[0..n] == Lower(s[..n]);
    assert OccursAt(s, s[..n], 0);
    assert Lower(s)[0..|s|] == Lower(s);
    assert OccursAt(s, s, 0);
    assert Lower(Lower(s)) == Lower(s);
    assert OccursAt(s, Lower(s), 0);
  }

  // ----- decimal digits -----

  function DigitChar(d: nat): char
    requires d < 10
  {
    ('0' as int + d) as char
  }

  predicate IsDigit(c: char) { '0' <= c <= '9' }

  predicate AllDigits(s: string) {
    forall i :: 0 <= i < |s| ==> IsDigit(s[i])
  }

  /** `str(n)` for a non-negative integer. */
  function NatToString(n: nat): string
    decreases n
  {
    if n < 10 then [DigitChar(n)] else NatToString(n / 10) + [DigitChar(n % 10)]
  }

  /** `str(i)` for any integer. */
  function IntToString(i: int): string {
    if i < 0 then "-" + NatToString(-i) else NatToString(i)
  }

  /** The value of a string of decimal digits (leading zeros allowed, as `int()` does). */
  function DigitsValue(s: string): nat
    requires AllDigits(s)
  {
    if s == [] then 0 else DigitsValue(s[..|s| - 1]) * 10 + (s[|s| - 1] as int - '0' as int)
  }

  /** `int(str(n)) == n`: printing a number and reading it back is the identity. */
  lemma {:induction false} NatToStringRoundTrip(n: nat)
    ensures |NatToString(n)| > 0 && AllDigits(NatToString(n))
    ensures DigitsValue(NatToString(n)) == n
    decreases n
  {
    if n >= 10 {
      NatToStringRoundTrip(n / 10);
      var s := NatToString(n / 10);
      assert NatToString(n) == s + [DigitChar(n % 10)];
      assert NatToString(n)[..|NatToString(n)| - 1] == s;
    }
  }
}
