/** Size helpers and direction constants shared by the builders and cells. */
module OctoUtil {
  import opened Wrappers
  import opened Vector

  /** The remainder is the one a quotient-and-remainder split names: every
      parity and mod-4 fact below is reduced to these two. */
  lemma DivMod2(a: int, q: int, r: int)
    requires a == 2 * q + r && 0 <= r < 2
    ensures a % 2 == r
  {
  }

  lemma DivMod4(a: int, q: int, r: int)
    requires a == 4 * q + r && 0 <= r < 4
    ensures a % 4 == r
  {
  }

  function Pow2(n: nat): (r: nat)
    ensures r >= 1
  {
    if n == 0 then 1 else 2 * Pow2(n - 1)
  }

  lemma {:induction false} Pow2Add(a: nat, b: nat)
    ensures Pow2(a + b) == Pow2(a) * Pow2(b)
  {
    if a > 0 {
      Pow2Add(a - 1, b);
      assert Pow2(a + b) == 2 * Pow2(a - 1 + b);
    }
  }

  lemma {:induction false} Pow2Monotone(a: nat, b: nat)
    requires a <= b
    ensures Pow2(a) <= Pow2(b)
  {
    if a < b {
      Pow2Monotone(a, b - 1);
    }
  }

  /** Every power of two from 4 upwards is a multiple of 4. */
  lemma Pow2DivisibleBy4(n: nat)
    requires n >= 2
    ensures Pow2(n) % 4 == 0
  {
    Pow2Add(2, n - 2);
    assert Pow2(2) == 4;
  }

  /**
   * `p2(i, o) = 2 ** (i + o)`. Python's `**` on a negative exponent gives a
   * fraction, so the result is a real number.
   */
  function P2(i: int, o: int := 0): (r: real)
    ensures r > 0.0
    ensures i + o == 0 ==> r == 1.0
  {
    var e := i + o;
    if e >= 0 then Pow2(e) as real else 1.0 / (Pow2(-e) as real)
  }

  /** `p2(i + 1)` is twice `p2(i)`, for every exponent. */
  lemma P2Doubles(i: int, o: int)
    ensures P2(i + 1, o) == 2.0 * P2(i, o)
  {
    var e := i + o;
    if e <= -2 {
      assert Pow2(-e) == 2 * Pow2(-e - 1);
    }
  }

  /** `p2(-i, -o)` is the reciprocal of `p2(i, o)`. */
  lemma P2Reciprocal(i: int, o: int)
    ensures P2(i, o) * P2(-i, -o) == 1.0
  {
  }

  /** On a natural exponent, `p2` is the whole power of two. */
  lemma P2Whole(n: nat)
    ensures P2(n) == Pow2(n) as real
    ensures P2(n) >= 1.0
  {
  }

  datatype UtilError = NegativeIteration

  /** `octo_radius`: the farthest cell coordinate of a flake of iteration `i`. */
  function OctoRadius(i: int): (r: Result<nat, UtilError>)
    ensures i < 0 <==> r.Err?
    ensures i == 0 ==> r == Ok(0)
    ensures i > 0 ==> r == Ok(FRad([i - 1]))
  {
    if i < 0 then Err(NegativeIteration)
    else if i == 0 then Ok(0)
    else Ok(Pow2(i))
  }

  /** `f_rad(*iterations)`: the sum of `2 ** (i + 1)` over its arguments. */
  function FRad(iterations: seq<nat>): (r: nat)
    ensures |iterations| == 0 ==> r == 0
    ensures |iterations| > 0 ==> r >= 2
  {
    if |iterations| == 0 then 0 else Pow2(iterations[0] + 1) + FRad(iterations[1..])
  }

  /** `f_rad` of a concatenation is the sum of the parts: it does not depend on
      how the arguments are grouped. */
  lemma {:induction false} FRadConcat(a: seq<nat>, b: seq<nat>)
    ensures FRad(a + b) == FRad(a) + FRad(b)
  {
    if |a| > 0 {
      assert (a + b)[1..] == a[1..] + b;
      FRadConcat(a[1..], b);
    } else {
      assert a + b == b;
    }
  }

  /** The horizontal offset of a plain spawn, `f_rad(i) - f_rad(i - 2)`, is `3 * 2 ** (i - 1)`. */
  lemma FRadSpawnOffset(i: nat)
    requires i >= 2
    ensures FRad([i]) - FRad([i - 2]) == 3 * Pow2(i - 1)
  {
    assert FRad([i]) == Pow2(i + 1) + FRad([]);
    assert FRad([i - 2]) == Pow2(i - 1) + FRad([]);
    Pow2Add(2, i - 1);
    assert Pow2(2) == 4;
  }

  // Direction constants.
  const X := Vec(1, 0, 0)
  const Y := Vec(0, 1, 0)
  const Z := Vec(0, 0, 1)

  const E := Vec(1, 0, 0)
  const W := Vec(-1, 0, 0)
  const N := Vec(0, 1, 0)
  const S := Vec(0, -1, 0)
  const Up := Vec(0, 0, 1)
  const Down := Vec(0, 0, -1)

  const NE := Vec(1, 1, 0)
  const NW := Vec(-1, 1, 0)
  const SW := Vec(-1, -1, 0)
  const SE := Vec(1, -1, 0)

  /** W, S and Down are the negations of E, N and Up. */
  lemma OppositeDirections()
    ensures W == Neg(E) && S == Neg(N) && Down == Neg(Up)
  {
    assert Neg(E) == Vec(-1, 0, 0);
    assert Neg(N) == Vec(0, -1, 0);
    assert Neg(Up) == Vec(0, 0, -1);
  }

  /** Each diagonal is the sum of its two cardinal directions: `NE = N + E` and so on. */
  lemma DiagonalDirections()
    ensures NE == Add(N, E) && NW == Add(N, W) && SW == Add(S, W) && SE == Add(S, E)
  {
    assert Add(N, E) == Vec(1, 1, 0);
    assert Add(N, W) == Vec(-1, 1, 0);
    assert Add(S, W) == Vec(-1, -1, 0);
    assert Add(S, E) == Vec(1, -1, 0);
  }

  /** The four horizontal unit directions, in the order E, N, W, S. */
  const Cardinal: seq<Vec> := [E, N, W, S]

  /** A quarter turn counter-clockwise about the vertical axis. */
  function TurnCcw(v: Vec): Vec
  {
    Vec(-v.y, v.x, v.z)
  }

  /** `Cardinal` runs counter-clockwise, and each diagonal is the sum of two
      consecutive cardinal directions: the diagonal between corner k and k+1. */
  lemma CardinalOrder()
    ensures |Cardinal| == 4
    ensures Cardinal[1] == TurnCcw(Cardinal[0]) && Cardinal[2] == TurnCcw(Cardinal[1])
    ensures Cardinal[3] == TurnCcw(Cardinal[2]) && Cardinal[0] == TurnCcw(Cardinal[3])
    ensures NE == Add(Cardinal[0], Cardinal[1]) && NW == Add(Cardinal[1], Cardinal[2])
    ensures SW == Add(Cardinal[2], Cardinal[3]) && SE == Add(Cardinal[3], Cardinal[0])
  {
  }

  /** The four diagonal directions, as the cells' corner trims name them. */
  datatype Diag = DNe | DNw | DSw | DSe

  function DiagVec(d: Diag): Vec
  {
    match d
    case DNe => NE
    case DNw => NW
    case DSw => SW
    case DSe => SE
  }
}
