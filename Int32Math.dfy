/**
 * The pieces of C# `int` arithmetic and of `System.Math` that the client relies on:
 * unchecked 32-bit wrap-around, truncating division, `Math.Abs` (which throws on
 * `int.MinValue`) and `Math.Clamp`.
 */
module Int32Math {
  import opened Wrappers

  const MinInt32: int := -0x8000_0000
  const MaxInt32: int := 0x7fff_ffff
  const Modulus: int := 0x1_0000_0000

  /** A value of C#'s `int`. */
  type Int32 = i: int | MinInt32 <= i <= MaxInt32

  predicate InRange(v: int) {
    MinInt32 <= v <= MaxInt32
  }

  /**
   * Unchecked conversion of an exact result back into `int`: the value congruent to `v`
   * modulo 2^32. Every caller wraps the exact result of one 32-bit addition, subtraction
   * or negation, which lies within 2^32 of zero.
   */
  function Wrap(v: int): (r: Int32)
    requires -Modulus <= v < Modulus
    ensures InRange(v) ==> r == v
    ensures r == v || r == v - Modulus || r == v + Modulus
  {
    if v > MaxInt32 then v - Modulus else if v < MinInt32 then v + Modulus else v
  }

  /** Wrapping depends only on the residue modulo 2^32. */
  lemma {:induction false} WrapCongruent(u: int, v: int)
    requires -Modulus <= u < Modulus && -Modulus <= v < Modulus
    requires (u - v) % Modulus == 0
    ensures Wrap(u) == Wrap(v)
  {
    var k := (u - v) / Modulus;
    assert u - v == k * Modulus;
    assert -2 < k < 2;
  }

  /** C#'s unchecked `-v`: `-int.MinValue` is `int.MinValue` again. */
  function Neg(v: Int32): (r: Int32)
    ensures v != MinInt32 ==> r == -v
    ensures v == MinInt32 ==> r == MinInt32
  {
    Wrap(-(v as int))
  }

  /** `Math.Abs(int)`: throws `OverflowException` (here `None`) exactly on `int.MinValue`. */
  function Abs(v: Int32): (r: Option<Int32>)
    ensures r.None? <==> v == MinInt32
    ensures r.Some? ==> r.value >= 0 && (r.value == v || r.value == -v)
  {
    if v == MinInt32 then None else if v < 0 then Some(-v) else Some(v)
  }

  /** `Math.Min(int, int)`. */
  function Min(a: int, b: int): (r: int)
    ensures r <= a && r <= b
    ensures r == a || r == b
  {
    if a <= b then a else b
  }

  /** `Math.Max(int, int)`. */
  function Max(a: int, b: int): (r: int)
    ensures r >= a && r >= b
    ensures r == a || r == b
  {
    if a >= b then a else b
  }

  /**
   * `Math.Clamp(value, min, max)`. The library throws when `min > max`; every call in
   * the client passes constant bounds with `min <= max`, so that case is a precondition.
   */
  function Clamp(v: int, lo: int, hi: int): (r: int)
    requires lo <= hi
    ensures lo <= r <= hi
    ensures lo <= v <= hi ==> r == v
    ensures v < lo ==> r == lo
    ensures v > hi ==> r == hi
  {
    if v < lo then lo else if v > hi then hi else v
  }

  /**
   * C#'s `c / 16` on `int`: division that truncates toward zero (Dafny's own `/`
   * is Euclidean and rounds negative quotients down instead).
   */
  function DivBy16(c: Int32): (r: Int32)
    ensures -16 < c - 16 * r < 16
    ensures c >= 0 ==> r >= 0 && c - 16 * r >= 0
    ensures c <= 0 ==> r <= 0 && c - 16 * r <= 0
  {
    if c >= 0 then c / 16 else -((-(c as int)) / 16)
  }

  /** The quotient is pinned down by the truncation law, and differs from floor division exactly on inexact negatives. */
  lemma DivBy16VersusFloor(c: Int32)
    ensures c >= 0 || c % 16 == 0 ==> DivBy16(c) == c / 16
    ensures c < 0 && c % 16 != 0 ==> DivBy16(c) == c / 16 + 1
  {
  }
}
