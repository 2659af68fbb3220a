/**
 * The few pieces of java.lang and java.util that the shard descriptor relies on:
 * nullable references, the exceptions thrown by its checks, String.trim,
 * String.hashCode and 32-bit int arithmetic.
 */
module JavaLang {

  /** A Java reference that may be null. */
  datatype Option<+T> = None | Some(value: T)

  /** The unchecked exceptions the shard descriptor throws, with their messages. */
  datatype Exception =
    | IllegalArgumentException(message: string)
    | IllegalStateException(message: string)

  /** Either a value or the exception that was thrown instead of producing it. */
  datatype Result<+T> = Ok(value: T) | Err(error: Exception)

  /** `checkf(condition, kind, message)`: throws `error` exactly when the condition is false. */
  function Checkf(condition: bool, error: Exception): (r: Result<()>)
    ensures r.Ok? <==> condition
    ensures r.Err? ==> r.error == error
  {
    if condition then Ok(()) else Err(error)
  }

  /** String.trim treats every character at or below U+0020 as white space. */
  predicate IsTrimmable(c: char) {
    c <= ' '
  }

  /** The first index at or after `from` whose character is not trimmable, or |s|. */
  function FirstKept(s: string, from: nat): (k: nat)
    requires from <= |s|
    ensures from <= k <= |s|
    ensures forall i :: from <= i < k ==> IsTrimmable(s[i])
    ensures k < |s| ==> !IsTrimmable(s[k])
    decreases |s| - from
  {
    if from < |s| && IsTrimmable(s[from]) then FirstKept(s, from + 1) else from
  }

  /** The end of `s[lo..hi]` once its trailing trimmable characters are dropped. */
  function LastKept(s: string, lo: nat, hi: nat): (k: nat)
    requires lo <= hi <= |s|
    decreases hi
    ensures lo <= k <= hi
    ensures forall i :: k <= i < hi ==> IsTrimmable(s[i])
    ensures k > lo ==> !IsTrimmable(s[k - 1])
  {
    if lo < hi && IsTrimmable(s[hi - 1]) then LastKept(s, lo, hi - 1) else hi
  }

  /** `r` is `s[a..b]`, and everything of `s` before `a` and from `b` on is trimmable. */
  predicate StripsTo(s: string, r: string, a: int, b: int) {
    && 0 <= a <= b <= |s| && r == s[a..b]
    && (forall i :: 0 <= i < a ==> IsTrimmable(s[i]))
    && (forall i :: b <= i < |s| ==> IsTrimmable(s[i]))
  }

  /** String.trim: drops the trimmable characters at both ends of `s`. */
  function Trim(s: string): (r: string)
    ensures |r| <= |s|
    ensures exists a, b :: StripsTo(s, r, a, b)
    ensures r != [] ==> !IsTrimmable(r[0]) && !IsTrimmable(r[|r| - 1])
    ensures r == [] <==> forall i :: 0 <= i < |s| ==> IsTrimmable(s[i])
  {
    var a := FirstKept(s, 0);
    var b := LastKept(s, a, |s|);
    assert StripsTo(s, s[a..b], a, b);
    s[a..b]
  }

  /**
   * `s.trim().isEmpty()`: every character is trimmable. Trim's contract proves
   * this is the same as `Trim(s) == []`; the quantified form is the cheaper
   * one to reason with.
   */
  predicate IsBlank(s: string) {
    forall i :: 0 <= i < |s| ==> IsTrimmable(s[i])
  }

  const TWO_TO_THE_32: int := 0x1_0000_0000
  const INT_MIN: int := -0x8000_0000
  const INT_MAX: int := 0x7fff_ffff

  /** Reduces an unbounded integer to the Java `int` it wraps around to. */
  function Int32(x: int): (r: int)
    ensures INT_MIN <= r <= INT_MAX
    ensures (x - r) % TWO_TO_THE_32 == 0
  {
    var m := x % TWO_TO_THE_32;
    if m > INT_MAX then m - TWO_TO_THE_32 else m
  }

  /** A Java `char`: one UTF-16 code unit. */
  type CodeUnit = x: int | 0 <= x < 0x1_0000

  /** The UTF-16 code units of one character: itself, or a surrogate pair above U+FFFF. */
  function CodeUnits(c: char): (u: seq<CodeUnit>)
    ensures c as int < 0x1_0000 ==> u == [c as int]
    ensures c as int >= 0x1_0000 ==> |u| == 2 && 0xD800 <= u[0] < 0xDC00 <= u[1] < 0xE000
    ensures c as int >= 0x1_0000 ==> c as int == 0x1_0000 + (u[0] as int - 0xD800) * 0x400 + (u[1] as int - 0xDC00)
  {
    if c as int < 0x1_0000 then [c as int]
    else
      var v := c as int - 0x1_0000;
      [0xD800 + v / 0x400, 0xDC00 + v % 0x400]
  }

  /** The UTF-16 code units of a string, as a Java String holds them. */
  function Utf16(s: string): (u: seq<CodeUnit>)
    ensures |s| <= |u| <= 2 * |s|
    ensures (forall i :: 0 <= i < |s| ==> s[i] as int < 0x1_0000) ==>
              |u| == |s| && forall i :: 0 <= i < |s| ==> u[i] == s[i] as int
  {
    if s == [] then [] else Utf16(s[..|s| - 1]) + CodeUnits(s[|s| - 1])
  }

  /** The units of a one-character string are that character's units. */
  lemma Utf16One(c: char)
    ensures Utf16([c]) == CodeUnits(c)
  {
    assert [c][..0] == [];
  }

  /** Encoding distributes over concatenation, so every character becomes exactly its own units. */
  lemma {:induction false} Utf16Append(s: string, t: string)
    ensures Utf16(s + t) == Utf16(s) + Utf16(t)
    decreases |t|
  {
    if t != [] {
      var t' := t[..|t| - 1];
      assert (s + t)[..|s + t| - 1] == s + t';
      assert (s + t)[|s + t| - 1] == t[|t| - 1];
      Utf16Append(s, t');
    } else {
      assert s + t == s;
    }
  }

  /** String.hashCode: `h = 31 * h + c` over the code units, in 32-bit arithmetic. */
  function StringHashCode(u: seq<CodeUnit>): (h: int)
    ensures INT_MIN <= h <= INT_MAX
  {
    if u == [] then 0 else Int32(31 * StringHashCode(u[..|u| - 1]) + u[|u| - 1])
  }

  /** The documented value of String.hashCode before wrap-around: u[0]*31^(n-1) + ... + u[n-1]. */
  function Polynomial(u: seq<CodeUnit>): int {
    if u == [] then 0 else 31 * Polynomial(u[..|u| - 1]) + u[|u| - 1]
  }

  /** The wrapped hash is the documented polynomial reduced to 32 bits. */
  lemma {:induction false} StringHashCodeIsPolynomialModulo(u: seq<CodeUnit>)
    ensures (Polynomial(u) - StringHashCode(u)) % TWO_TO_THE_32 == 0
  {
    if u != [] {
      var p := u[..|u| - 1];
      StringHashCodeIsPolynomialModulo(p);
      var x := 31 * StringHashCode(p) + u[|u| - 1];
      assert Polynomial(u) - StringHashCode(u) == 31 * (Polynomial(p) - StringHashCode(p)) + (x - Int32(x));
      MultipleCombination(31, Polynomial(p) - StringHashCode(p), x - Int32(x));
    }
  }

  /** Multiples of 2^32 stay multiples under `k * a + b`. */
  lemma MultipleCombination(k: int, a: int, b: int)
    requires a % TWO_TO_THE_32 == 0 && b % TWO_TO_THE_32 == 0
    ensures (k * a + b) % TWO_TO_THE_32 == 0
  {
    var qa, qb := a / TWO_TO_THE_32, b / TWO_TO_THE_32;
    assert a == TWO_TO_THE_32 * qa;
    assert b == TWO_TO_THE_32 * qb;
    assert k * a == TWO_TO_THE_32 * (k * qa);
    assert k * a + b == TWO_TO_THE_32 * (k * qa + qb);
  }
}
