/**
 * The few pieces of Python's built-in semantics that the assembler and the
 * read simulator rely on: slicing with clamped and negative bounds,
 * negative indexing, and floor division.
 */
module Python {

  /** Python's normalisation of one slice bound against a sequence of length n. */
  function SliceBound(i: int, n: nat): (r: nat)
    ensures r <= n
    ensures 0 <= i <= n ==> r == i
    ensures i > n ==> r == n
    ensures i < 0 ==> r == if i + n < 0 then 0 else i + n
  {
    if i < 0 then (if i + n < 0 then 0 else i + n)
    else if i > n then n
    else i
  }

  /** `s[i:j]` in Python: both bounds normalised, empty when they cross. */
  function Slice<T>(s: seq<T>, i: int, j: int): (r: seq<T>)
    ensures |r| <= |s|
    ensures 0 <= i <= j <= |s| ==> r == s[i..j]
    ensures 0 <= j <= i ==> r == []
    ensures IsInfix(r, s)
  {
    var a := SliceBound(i, |s|);
    var b := SliceBound(j, |s|);
    if a < b then
      assert InfixAt(s[a..b], s, a) by { assert s[a..b] == s[a..a + (b - a)]; }
      s[a..b]
    else
      assert InfixAt([], s, 0);
      []
  }

  /** r occurs in s starting at position a. */
  ghost predicate InfixAt<T>(r: seq<T>, s: seq<T>, a: int)
  {
    0 <= a <= |s| - |r| && s[a..a + |r|] == r
  }

  /** r is a contiguous piece (a substring) of s. */
  ghost predicate IsInfix<T>(r: seq<T>, s: seq<T>)
  {
    exists a :: InfixAt(r, s, a)
  }

  /** `s[i]` in Python, where a negative index counts from the end. */
  function Index<T>(s: seq<T>, i: int): (r: T)
    requires -|s| <= i < |s|
    ensures 0 <= i ==> r == s[i]
    ensures i < 0 ==> r == s[|s| + i]
  {
    if i < 0 then s[|s| + i] else s[i]
  }

  /** `a // b` in Python: the quotient rounded towards minus infinity. */
  function FloorDiv(a: int, b: int): (q: int)
    requires b != 0
    ensures b > 0 ==> q * b <= a < q * b + b
    ensures b < 0 ==> q * b + b < a <= q * b
  {
    if b > 0 then a / b else (-a) / (-b)
  }

  /** The number of iterations of `for _ in range(n)`. */
  function RangeLength(n: int): (r: nat)
    ensures n <= 0 ==> r == 0
    ensures n >= 0 ==> r == n
  {
    if n < 0 then 0 else n
  }
}
