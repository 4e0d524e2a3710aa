/** The values a semantic object holds once it has been read from JSON, and the
    few Python string and truth-value operations the evaluator relies on. */
module Values {

  /** A JSON value as the evaluator sees it. Arrays and objects are kept only as
      their canonical JSON text: the evaluator compares them, tests their truth
      value, or fails to hash them, and the model compares them by that text. */
  datatype Value =
    | Str(s: string)
    | Num(x: real)
    | Bool(b: bool)
    | Null
    | Composite(json: string)

  /** A semantic object: a dictionary from field names to values. */
  type SemObj = map<string, Value>

  /** The Python exceptions the evaluator can raise on ill-typed data. */
  datatype PyError = TypeError | AttributeError

  datatype Result<T> = Ok(value: T) | Err(error: PyError) {
    predicate IsFailure() { Err? }

    function PropagateFailure<U>(): Result<U>
      requires Err?
    {
      Err(error)
    }

    function Extract(): T
      requires Ok?
    {
      value
    }
  }

  datatype Option<T> = None | Some(value: T)

  /** `o.get(key)`: the value under `key`, or `None` when it is missing. */
  function Get(o: SemObj, key: string): Value {
    if key in o then o[key] else Null
  }

  /** Python truth value (`bool(v)`). */
  predicate Truthy(v: Value) {
    match v
    case Str(s) => s != ""
    case Num(x) => x != 0.0
    case Bool(b) => b
    case Null => false
    case Composite(json) => json != "[]" && json != "{}"
  }

  /** Python `u == v`: booleans compare equal to the numbers 0 and 1. */
  predicate PyEq(u: Value, v: Value) {
    match (u, v)
    case (Num(x), Bool(b)) => x == (if b then 1.0 else 0.0)
    case (Bool(b), Num(x)) => x == (if b then 1.0 else 0.0)
    case _ => u == v
  }

  /** Python `v in names` for a set of strings: only a string can be a member,
      and an array or object cannot be hashed at all. */
  function InNames(v: Value, names: set<string>): (r: Result<bool>)
    ensures r == Ok(true) <==> v.Str? && v.s in names
    ensures r.Err? <==> v.Composite?
  {
    match v
    case Str(s) => Ok(s in names)
    case Composite(_) => Err(TypeError)
    case _ => Ok(false)
  }

  lemma ProductNonnegative(a: real, b: real)
    requires a >= 0.0 && b >= 0.0
    ensures a * b >= 0.0
  {
  }

  lemma QuotientOfSelf(x: real)
    requires x != 0.0
    ensures x / x == 1.0
  {
  }

  lemma HalfOfDouble(x: real)
    requires x != 0.0
    ensures x / (2.0 * x) == 0.5
  {
  }

  /** A quotient of a non-negative number by a larger positive one is a ratio. */
  lemma QuotientAtMostOne(x: real, d: real)
    requires 0.0 <= x <= d && d > 0.0
    ensures 0.0 <= x / d <= 1.0
  {
    var t := x / d;
    assert t * d == x;
    ProductNonnegative(t, d);
    assert (1.0 - t) * d == d - x;
  }

  function Min(x: int, y: int): int { if x <= y then x else y }

  function Max(x: int, y: int): int { if x >= y then x else y }

  /** Case folding of one character (ASCII letters only). */
  function LowerChar(c: char): char {
    if 'A' <= c <= 'Z' then (c as int - 'A' as int + 'a' as int) as char else c
  }

  /** `s.lower()`, letter by letter, keeping the length. */
  function Lower(s: string): (r: string)
    ensures |r| == |s|
  {
    seq(|s|, i requires 0 <= i < |s| => LowerChar(s[i]))
  }

  lemma {:induction false} LowerIdempotent(s: string)
    ensures Lower(Lower(s)) == Lower(s)
  {
    forall i | 0 <= i < |s|
      ensures Lower(Lower(s))[i] == Lower(s)[i]
    {
      var c := s[i];
      assert LowerChar(LowerChar(c)) == LowerChar(c);
    }
  }

  /** The characters for which Python's `str.isspace()` holds. */
  predicate IsWhitespace(c: char) {
    || '\t' <= c <= '\r' || '\U{1c}' <= c <= '\U{1f}' || c == ' '
    || c == '\U{85}' || c == '\U{a0}' || c == '\U{1680}'
    || '\U{2000}' <= c <= '\U{200a}' || c == '\U{2028}' || c == '\U{2029}'
    || c == '\U{202f}' || c == '\U{205f}' || c == '\U{3000}'
  }

  /** `not s.strip()`: the string is empty or all whitespace. */
  predicate IsBlank(s: string) {
    forall i :: 0 <= i < |s| ==> IsWhitespace(s[i])
  }

  predicate OccursAt(s: string, t: string, i: int) {
    0 <= i && i + |s| <= |t| && t[i..i + |s|] == s
  }

  /** Python `s in t` for strings: `s` is a contiguous substring of `t`. */
  predicate IsSubstring(s: string, t: string) {
    exists i :: 0 <= i <= |t| - |s| && OccursAt(s, t, i)
  }
}
