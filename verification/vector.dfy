/** The integer lattice coordinate (`OctoVector`, a frozen dataclass of three ints). */
module Vector {
  import opened Wrappers

  /** Structural equality of the frozen dataclass is Dafny's datatype equality. */
  datatype Vec = Vec(x: int, y: int, z: int)

  const Origin := Vec(0, 0, 0)

  function Add(a: Vec, b: Vec): Vec
  {
    Vec(a.x + b.x, a.y + b.y, a.z + b.z)
  }

  function Sub(a: Vec, b: Vec): Vec
  {
    Vec(a.x - b.x, a.y - b.y, a.z - b.z)
  }

  function Neg(a: Vec): Vec
  {
    Vec(-a.x, -a.y, -a.z)
  }

  /** `vector * k` and `k * vector` for an integer scalar `k`. */
  function Scale(a: Vec, k: int): Vec
  {
    Vec(a.x * k, a.y * k, a.z * k)
  }

  /** `vector * (a, b, c)`: multiplication by a 3-sequence is componentwise. */
  function MulComp(a: Vec, b: Vec): Vec
  {
    Vec(a.x * b.x, a.y * b.y, a.z * b.z)
  }

  /** Reflection by a sign vector of +-1 entries undoes itself. */
  lemma MulCompSignInvolution(a: Vec, s: Vec)
    requires s.x in {1, -1} && s.y in {1, -1} && s.z in {1, -1}
    ensures MulComp(MulComp(a, s), s) == a
  {
    assert s.x * s.x == 1 && s.y * s.y == 1 && s.z * s.z == 1;
    assert a.x * s.x * s.x == a.x * (s.x * s.x);
    assert a.y * s.y * s.y == a.y * (s.y * s.y);
    assert a.z * s.z * s.z == a.z * (s.z * s.z);
  }

  /** `other - vector` evaluated by Python's reflected subtraction, as written:
      it returns the componentwise PRODUCT of the two vectors. */
  function RSubAsWritten(self: Vec, other: Vec): (r: Vec)
    ensures r == MulComp(other, self)
  {
    MulComp(self, other)
  }

  /** The reflected subtraction as intended: `other - self`. */
  function RSub(self: Vec, other: Vec): (r: Vec)
    ensures Add(r, self) == other
  {
    Sub(other, self)
  }

  /** (1, 2, 3) subtracted from (2, 2, 2) through the reflected operator gives
      (2, 4, 6) rather than the difference (1, 0, -1). */
  lemma RSubAsWrittenIsNotSubtraction()
    ensures RSubAsWritten(Vec(1, 2, 3), Vec(2, 2, 2)) == Vec(2, 4, 6)
    ensures RSubAsWritten(Vec(1, 2, 3), Vec(2, 2, 2)) != Sub(Vec(2, 2, 2), Vec(1, 2, 3))
  {
  }

  /** The product agrees with the reflected subtraction exactly where, in each
      coordinate, `self * other` happens to equal `other - self`. */
  lemma RSubAsWrittenAgreesWhen(self: Vec, other: Vec)
    ensures RSubAsWritten(self, other) == RSub(self, other) <==>
      (self.x * other.x == other.x - self.x &&
       self.y * other.y == other.y - self.y &&
       self.z * other.z == other.z - self.z)
  {
  }

  /** A coordinate triple before validation: the dataclass accepts any number. */
  datatype RawVec = RawVec(x: real, y: real, z: real)

  datatype VectorError = NonIntegerCoordinate

  predicate IsWhole(r: real)
  {
    r.Floor as real == r
  }

  /** `validate`: raises unless every coordinate is an integer. */
  function Validate(v: RawVec): (r: Result<Vec, VectorError>)
    ensures r.Ok? <==> IsWhole(v.x) && IsWhole(v.y) && IsWhole(v.z)
    ensures r.Ok? ==> r.value.x as real == v.x && r.value.y as real == v.y && r.value.z as real == v.z
  {
    if IsWhole(v.x) && IsWhole(v.y) && IsWhole(v.z) then
      Ok(Vec(v.x.Floor, v.y.Floor, v.z.Floor))
    else
      Err(NonIntegerCoordinate)
  }
}
