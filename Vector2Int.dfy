/**
 * The integer 2D vector used for chunk addressing. Components are C# `int`s, and the
 * operators use C#'s default unchecked arithmetic, so sums and differences wrap around
 * modulo 2^32.
 */
module Vectors {
  import opened Wrappers
  import opened Int32Math
  import Text

  /** A vector; the constructor takes `z` first and `x` second, as `new Vector2Int(z, x)` does. */
  datatype Vector2Int = Vector2Int(z: Int32, x: Int32)

  const Zero: Vector2Int := Vector2Int(0, 0)
  const One: Vector2Int := Vector2Int(1, 1)
  const AxisZ: Vector2Int := Vector2Int(1, 0)
  const AxisX: Vector2Int := Vector2Int(0, 1)

  /** The constants, read through the constructor's argument order, and how they relate under `+`. */
  lemma Constants()
    ensures Zero.z == 0 && Zero.x == 0
    ensures One.z == 1 && One.x == 1
    ensures AxisZ.z == 1 && AxisZ.x == 0
    ensures AxisX.z == 0 && AxisX.x == 1
    ensures Add(AxisZ, AxisX) == One
  {
  }

  /**
   * Unary `-` as written: it negates `Z` twice and never touches `X`, so it gives back
   * its argument, on every input (including `int.MinValue` components).
   */
  function NegateAsWritten(v: Vector2Int): (r: Vector2Int)
    ensures r == v
  {
    var v1 := v.(z := Neg(v.z));
    v1.(z := Neg(v1.z))
  }

  /** Concretely: `-One` is `One`, not `(-1, -1)`. */
  lemma NegateOneIsOne()
    ensures NegateAsWritten(One) == One
    ensures NegateAsWritten(One) != Vector2Int(-1, -1)
  {
  }

  /** The negation the operator's documentation describes: both components negated (with wrap-around). */
  function Negate(v: Vector2Int): (r: Vector2Int)
    ensures Add(v, r) == Zero
    ensures v.z != MinInt32 && v.x != MinInt32 ==> r.z == -v.z && r.x == -v.x
  {
    WrapCongruent(v.z + Neg(v.z), 0);
    WrapCongruent(v.x + Neg(v.x), 0);
    Vector2Int(Neg(v.z), Neg(v.x))
  }

  /** Negating twice gives the vector back. */
  lemma NegateInvolutive(v: Vector2Int)
    ensures Negate(Negate(v)) == v
  {
  }

  /** `operator ==`: componentwise equality. */
  function Equal(a: Vector2Int, b: Vector2Int): (r: bool)
    ensures r <==> a == b
  {
    a.z == b.z && a.x == b.x
  }

  /** `operator !=`, written in the source as its own disjunction. */
  function NotEqual(a: Vector2Int, b: Vector2Int): (r: bool)
    ensures r <==> a != b
  {
    a.z != b.z || a.x != b.x
  }

  /** `!=` is exactly the negation of `==`. */
  lemma NotEqualIsNotEqual(a: Vector2Int, b: Vector2Int)
    ensures NotEqual(a, b) == !Equal(a, b)
  {
  }

  /** `operator +`: componentwise, wrapping on overflow. */
  function Add(a: Vector2Int, b: Vector2Int): (r: Vector2Int)
    ensures InRange(a.z + b.z) ==> r.z == a.z + b.z
    ensures InRange(a.x + b.x) ==> r.x == a.x + b.x
    ensures (r.z - (a.z + b.z)) % Modulus == 0 && (r.x - (a.x + b.x)) % Modulus == 0
  {
    Vector2Int(Wrap(a.z + b.z), Wrap(a.x + b.x))
  }

  /** Binary `operator -`: componentwise, wrapping on overflow. */
  function Sub(a: Vector2Int, b: Vector2Int): (r: Vector2Int)
    ensures InRange(a.z - b.z) ==> r.z == a.z - b.z
    ensures InRange(a.x - b.x) ==> r.x == a.x - b.x
    ensures (r.z - (a.z - b.z)) % Modulus == 0 && (r.x - (a.x - b.x)) % Modulus == 0
  {
    Vector2Int(Wrap(a.z - b.z), Wrap(a.x - b.x))
  }

  /** Subtracting what was added restores the vector; wrap-around cannot break this. */
  lemma {:induction false} SubAddCancel(a: Vector2Int, b: Vector2Int)
    ensures Sub(Add(a, b), b) == a
  {
    var s := Add(a, b);
    WrapCongruent(s.z - b.z, a.z);
    WrapCongruent(s.x - b.x, a.x);
  }

  /** Adding what was subtracted restores the vector. */
  lemma {:induction false} AddSubCancel(a: Vector2Int, b: Vector2Int)
    ensures Add(Sub(a, b), b) == a
  {
    var d := Sub(a, b);
    WrapCongruent(d.z + b.z, a.z);
    WrapCongruent(d.x + b.x, a.x);
  }

  /** `+` is commutative and has `Zero` as identity. */
  lemma AddCommutes(a: Vector2Int, b: Vector2Int)
    ensures Add(a, b) == Add(b, a)
    ensures Add(a, Zero) == a
  {
  }

  /** `Min`: componentwise `Math.Min`. */
  function Min(a: Vector2Int, b: Vector2Int): (r: Vector2Int)
    ensures r.z <= a.z && r.z <= b.z && r.x <= a.x && r.x <= b.x
    ensures (r.z == a.z || r.z == b.z) && (r.x == a.x || r.x == b.x)
  {
    Vector2Int(Int32Math.Min(a.z, b.z), Int32Math.Min(a.x, b.x))
  }

  /** `Max`: componentwise `Math.Max`. */
  function Max(a: Vector2Int, b: Vector2Int): (r: Vector2Int)
    ensures r.z >= a.z && r.z >= b.z && r.x >= a.x && r.x >= b.x
    ensures (r.z == a.z || r.z == b.z) && (r.x == a.x || r.x == b.x)
  {
    Vector2Int(Int32Math.Max(a.z, b.z), Int32Math.Max(a.x, b.x))
  }

  /** `Min` and `Max` are commutative and idempotent. */
  lemma MinMaxLaws(a: Vector2Int, b: Vector2Int)
    ensures Min(a, b) == Min(b, a) && Max(a, b) == Max(b, a)
    ensures Min(a, a) == a && Max(a, a) == a
  {
  }

  /** `Min` is the greatest componentwise lower bound and `Max` the least upper bound. */
  lemma MinMaxAreBounds(a: Vector2Int, b: Vector2Int, c: Vector2Int)
    ensures c.z <= a.z && c.z <= b.z && c.x <= a.x && c.x <= b.x ==> c.z <= Min(a, b).z && c.x <= Min(a, b).x
    ensures c.z >= a.z && c.z >= b.z && c.x >= a.x && c.x >= b.x ==> c.z >= Max(a, b).z && c.x >= Max(a, b).x
  {
  }

  /** The exact Manhattan distance, with no machine arithmetic involved. */
  function Distance(a: Vector2Int, b: Vector2Int): nat
  {
    (if a.z >= b.z then a.z - b.z else b.z - a.z) + (if a.x >= b.x then a.x - b.x else b.x - a.x)
  }

  /**
   * `Manhattan(a, b) = Math.Abs(a.Z - b.Z) + Math.Abs(a.X - b.X)` in C# arithmetic:
   * the differences and the sum wrap, and `Math.Abs` throws (`None`) on `int.MinValue`.
   */
  function Manhattan(a: Vector2Int, b: Vector2Int): (r: Option<Int32>)
    ensures Distance(a, b) <= MaxInt32 ==> r == Some(Distance(a, b))
  {
    WrappedSum(Abs(Wrap(a.z - b.z)), Abs(Wrap(a.x - b.x)))
  }

  /** The wrapped sum of two `Math.Abs` results; an exception in either propagates. */
  function WrappedSum(dz: Option<Int32>, dx: Option<Int32>): Option<Int32>
  {
    match dz
    case None => None
    case Some(z) =>
      match dx
      case None => None
      case Some(x) => Some(Wrap(z + x))
  }

  lemma {:induction false} NegatedDifference(p: Int32, q: Int32)
    ensures Wrap(q - p) == Neg(Wrap(p - q))
  {
    WrapCongruent(-(Wrap(p - q) as int), q - p);
  }

  /** Negating an `int` does not change what `Math.Abs` makes of it (`int.MinValue` throws either way). */
  lemma AbsOfNeg(w: Int32)
    ensures Abs(Neg(w)) == Abs(w)
  {
  }

  /** `Math.Abs` of a wrapped difference does not depend on the order of the operands. */
  lemma AbsOfSwappedDifference(p: Int32, q: Int32)
    ensures Abs(Wrap(q - p)) == Abs(Wrap(p - q))
  {
    NegatedDifference(p, q);
    AbsOfNeg(Wrap(p - q));
  }

  /** `Manhattan` is symmetric on every input, overflow and exceptions included. */
  lemma {:induction false} ManhattanSymmetric(a: Vector2Int, b: Vector2Int)
    ensures Manhattan(a, b) == Manhattan(b, a)
  {
    assert Abs(Wrap(b.z - a.z)) == Abs(Wrap(a.z - b.z)) by {
      AbsOfSwappedDifference(a.z, b.z);
    }
    assert Abs(Wrap(b.x - a.x)) == Abs(Wrap(a.x - b.x)) by {
      AbsOfSwappedDifference(a.x, b.x);
    }
    assert Manhattan(b, a) == WrappedSum(Abs(Wrap(b.z - a.z)), Abs(Wrap(b.x - a.x)));
  }

  /** `Manhattan` is zero exactly between equal vectors: a wrapped sum of two absolute values never lands on 0. */
  lemma {:induction false} ManhattanZeroIffEqual(a: Vector2Int, b: Vector2Int)
    ensures Manhattan(a, b) == Some(0) <==> a == b
  {
    var dz, dx := Abs(Wrap(a.z - b.z)), Abs(Wrap(a.x - b.x));
    assert Manhattan(a, b) == Some(0) <==> dz == Some(0) && dx == Some(0) by {
      assert Manhattan(a, b) == WrappedSum(dz, dx);
      WrappedSumZero(dz, dx);
    }
    assert dz == Some(0) <==> a.z == b.z by {
      AbsOfDifferenceZero(a.z, b.z);
    }
    assert dx == Some(0) <==> a.x == b.x by {
      AbsOfDifferenceZero(a.x, b.x);
    }
  }

  /** Two non-negative `int`s wrap to a zero sum only when both are zero. */
  lemma WrappedSumZero(dz: Option<Int32>, dx: Option<Int32>)
    requires dz.Some? ==> dz.value >= 0
    requires dx.Some? ==> dx.value >= 0
    ensures WrappedSum(dz, dx) == Some(0) <==> dz == Some(0) && dx == Some(0)
  {
    if dz.Some? && dx.Some? {
      var s := dz.value + dx.value;
      assert 0 <= s < Modulus;
      if Wrap(s) == 0 {
        assert s % Modulus == 0;
      }
    }
  }

  /** `Math.Abs(p - q)` is zero exactly when `p == q`. */
  lemma AbsOfDifferenceZero(p: Int32, q: Int32)
    ensures Abs(Wrap(p - q)) == Some(0) <==> p == q
  {
    if Wrap(p - q) == 0 {
      assert (p - q) % Modulus == 0;
      assert -Modulus < p - q < Modulus;
    }
  }

  /** Without overflow the distance is non-negative. */
  lemma ManhattanNonNegative(a: Vector2Int, b: Vector2Int)
    requires Distance(a, b) <= MaxInt32
    ensures Manhattan(a, b).Some? && Manhattan(a, b).value >= 0
  {
  }

  /** `ToString()`: `"(" + Z + ", " + X + ")"`, which `ReadVector` reads back. */
  function ToString(v: Vector2Int): (s: string)
    ensures |s| >= 6 && s[0] == '(' && s[|s| - 1] == ')'
    ensures ReadVector(s) == Some(v)
  {
    ReadVectorOfText(v.z, v.x);
    "(" + Text.IntText(v.z) + ", " + Text.IntText(v.x) + ")"
  }

  /** The text of two components, as `ToString` lays them out, reads back to them. */
  lemma {:induction false} ReadVectorOfText(z: Int32, x: Int32)
    ensures ReadVector("(" + Text.IntText(z) + ", " + Text.IntText(x) + ")") == Some(Vector2Int(z, x))
  {
    var zs, xs := Text.IntText(z), Text.IntText(x);
    var s := "(" + zs + ", " + xs + ")";
    var inner := s[1..|s| - 1];
    assert inner == zs + [','] + (" " + xs);
    Text.IntTextExcludes(z, ',');
    Text.SplitFirstAfter(zs, ',', " " + xs);
    assert (" " + xs)[1..] == xs;
    Text.IntTextRoundTrip(z);
    Text.IntTextRoundTrip(x);
  }

  /** Reads back text of the shape `ToString` produces. */
  function ReadVector(s: string): Option<Vector2Int>
  {
    if |s| < 2 || s[0] != '(' || s[|s| - 1] != ')' then None
    else match Text.SplitFirst(s[1..|s| - 1], ',')
      case None => None
      case Some((zs, rest)) =>
        if |rest| == 0 || rest[0] != ' ' then None
        else match (Text.ParseInt(zs), Text.ParseInt(rest[1..]))
          case (Some(z), Some(x)) =>
            if InRange(z) && InRange(x) then Some(Vector2Int(z, x)) else None
          case _ => None
  }

  /** Distinct vectors print differently. */
  lemma ToStringInjective(a: Vector2Int, b: Vector2Int)
    requires ToString(a) == ToString(b)
    ensures a == b
  {
  }
}
