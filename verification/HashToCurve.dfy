/** Hashing to a curve point: the search for a liftable abscissa and the 256 rounds after it. */
module HashToCurve {
  import opened Options
  import opened Hex
  import opened BigNum
  import opened Arith
  import opened Curves
  import opened PointEncoding

  // ----- The search -----------------------------------------------------------------------

  /** How far the generator's abscissa lies ahead of `x`, modulo the field prime. */
  function Ahead(c: Curve, x: nat): (d: int)
    requires c.p > 0 && c.gen.Affine?
    ensures 0 <= d < c.p
  {
    (c.gen.x - x) % c.p
  }

  lemma Generator(c: Curve)
    requires c.Valid()
    ensures c.Field() && c.p % 2 == 1 && c.gen.Affine? && c.On(c.gen) && c.gen.x < c.p && c.gen.y < c.p
  {
    hide Curve.Rhs, Fits;
    GeneratorIsOn(c);
  }

  /** Of the two points with one abscissa, one has an even ordinate. */
  lemma EvenTwin(c: Curve, a: Point) returns (g: Point)
    requires c.Valid() && c.On(a) && a.Affine?
    ensures g.Affine? && c.On(g) && g.x == a.x < c.p && g.y % 2 == 0
  {
    hide Curve.Valid, Curve.Rhs;
    Generator(c);
    g := a;
    if a.y % 2 == 1 {
      g := c.Neg(a);
      NegOn(c, a);
    }
  }

  lemma GeneratorLifts(c: Curve, x: nat)
    requires c.Valid() && Ahead(c, x) == 0
    ensures Lift(c, x, 0).Some?
  {
    hide Lift, Curve.Valid, Curve.On;
    Positive(c);
    Generator(c);
    var g := EvenTwin(c, c.gen);
    CongIffSameRest(g.x, x, c.p);
    DivisionUnique(g.x, c.p, 0, g.x);
    LiftFinds(c, g, x);
  }

  /** The search cannot miss the generator's abscissa, so it comes closer with every failure. */
  lemma SearchProgress(c: Curve, x: nat)
    requires c.Valid() && Lift(c, x, 0).None?
    ensures Ahead(c, x + 1) == Ahead(c, x) - 1
  {
    hide Lift, Curve.Valid, Curve.On;
    Positive(c);
    var d := Ahead(c, x);
    if d == 0 {
      GeneratorLifts(c, x);
      assert false;
    }
    var k := (c.gen.x - x) / c.p;
    assert c.gen.x - x == c.p * k + d;
    DivisionUnique(c.gen.x - (x + 1), c.p, k, d - 1);
  }

  /** The least abscissa, from `x` on, that lifts to a point. It is always found. */
  function FirstLift(c: Curve, x: nat): (r: nat)
    requires c.Valid()
    ensures x <= r <= x + Ahead(c, x)
    ensures Lift(c, r, 0).Some?
    ensures forall y :: x <= y < r ==> Lift(c, y, 0).None?
    decreases Ahead(c, x)
  {
    if Lift(c, x, 0).Some? then x
    else
      SearchProgress(c, x);
      FirstLift(c, x + 1)
  }

  /** No point of the curve has this abscissa. */
  ghost predicate NoPointAt(c: Curve, x: nat)
    requires c.p > 0
  {
    forall a: Point :: a.Affine? && c.On(a) ==> a.x != x % c.p
  }

  lemma NoLiftNoPoint(c: Curve, x: nat)
    requires c.Valid() && Lift(c, x, 0).None?
    ensures NoPointAt(c, x)
  {
    hide Lift, Curve.Valid, Curve.On;
    Positive(c);
    forall a: Point | a.Affine? && c.On(a) ensures a.x != x % c.p {
      if a.x == x % c.p {
        var g := EvenTwin(c, a);
        LiftFinds(c, g, x);
      }
    }
  }

  /** `P` is the point with even ordinate at the first abscissa, from `n` on, at which the curve
      has a point. */
  ghost predicate IsStart(c: Curve, n: int, r: nat, P: Point)
    requires c.p > 0
  {
    && n <= r
    && P.Affine? && c.On(P) && P.x == r % c.p && P.y % 2 == 0
    && forall y: nat :: n <= y < r ==> NoPointAt(c, y)
  }

  /** There is only one such point. */
  lemma StartUnique(c: Curve, n: int, r: nat, P: Point, r': nat, P': Point)
    requires c.Valid() && IsStart(c, n, r, P) && IsStart(c, n, r', P')
    ensures r == r' && P == P'
  {
    hide Curve.Valid, Curve.On, Lift;
    Positive(c);
    LiftFinds(c, P, r);
    LiftFinds(c, P', r');
    assert !NoPointAt(c, r) && !NoPointAt(c, r');
  }

  lemma FirstLiftIsStart(c: Curve, x: nat)
    requires c.Valid()
    ensures IsStart(c, x, FirstLift(c, x), Lift(c, FirstLift(c, x), 0).value)
  {
    hide Lift, Curve.Valid, Curve.On, NoPointAt;
    var r := FirstLift(c, x);
    LiftOn(c, r, 0);
    forall y: nat | x <= y < r ensures NoPointAt(c, y) {
      NoLiftNoPoint(c, y);
    }
  }

  // ----- The rounds -----------------------------------------------------------------------

  /** Bit `i` of a byte string, the most significant bit of each byte first. */
  function Bit(bytes: seq<Byte>, i: nat): int
    requires i < 8 * |bytes|
  {
    bytes[i / 8] / Pow2(7 - i % 8) % 2
  }

  /** The number of zero bits among the first `n`. */
  function ZeroBits(bytes: seq<Byte>, n: nat): nat
    requires n <= 8 * |bytes|
  {
    if n == 0 then 0 else ZeroBits(bytes, n - 1) + 1 - Bit(bytes, n - 1)
  }

  /** Bit `b` of byte `k`. */
  lemma BitAt(bytes: seq<Byte>, k: nat, b: nat)
    requires k < |bytes| && b < 8
    ensures Bit(bytes, 8 * k + b) == bytes[k] / Pow2(7 - b) % 2
  {
    DivisionUnique(8 * k + b, 8, k, b);
  }

  /** The bits of a byte, weighted, make up the byte. */
  lemma BitsOfByte(bytes: seq<Byte>, k: nat)
    requires k < |bytes|
    ensures bytes[k] == 128 * Bit(bytes, 8 * k) + 64 * Bit(bytes, 8 * k + 1) + 32 * Bit(bytes, 8 * k + 2)
                      + 16 * Bit(bytes, 8 * k + 3) + 8 * Bit(bytes, 8 * k + 4) + 4 * Bit(bytes, 8 * k + 5)
                      + 2 * Bit(bytes, 8 * k + 6) + Bit(bytes, 8 * k + 7)
  {
    hide Bit, Pow2;
    SmallPowers();
    BitAt(bytes, k, 0);
    BitAt(bytes, k, 1);
    BitAt(bytes, k, 2);
    BitAt(bytes, k, 3);
    BitAt(bytes, k, 4);
    BitAt(bytes, k, 5);
    BitAt(bytes, k, 6);
    BitAt(bytes, k, 7);
    Halves(bytes[k]);
  }

  lemma SmallPowers()
    ensures Pow2(0) == 1 && Pow2(1) == 2 && Pow2(2) == 4 && Pow2(3) == 8
    ensures Pow2(4) == 16 && Pow2(5) == 32 && Pow2(6) == 64 && Pow2(7) == 128
  {
  }

  lemma Halves(v: Byte)
    ensures v == 128 * (v / 128 % 2) + 64 * (v / 64 % 2) + 32 * (v / 32 % 2) + 16 * (v / 16 % 2)
               + 8 * (v / 8 % 2) + 4 * (v / 4 % 2) + 2 * (v / 2 % 2) + v / 1 % 2
  {
    var h1 := v / 2;
    var h2 := h1 / 2;
    var h3 := h2 / 2;
    var h4 := h3 / 2;
    var h5 := h4 / 2;
    var h6 := h5 / 2;
    var h7 := h6 / 2;
    assert v / 4 == h2 && v / 8 == h3 && v / 16 == h4;
    assert v / 32 == h5 && v / 64 == h6 && v / 128 == h7;
    assert v == 2 * h1 + v % 2 && h1 == 2 * h2 + h1 % 2 && h2 == 2 * h3 + h2 % 2 && h3 == 2 * h4 + h3 % 2;
    assert h4 == 2 * h5 + h4 % 2 && h5 == 2 * h6 + h5 % 2 && h6 == 2 * h7 + h6 % 2 && h7 % 2 == h7;
  }

  /** `ZeroBits` counts the positions of the zero bits. */
  lemma {:induction false} ZeroBitsCount(bytes: seq<Byte>, n: nat)
    requires n <= 8 * |bytes|
    ensures ZeroBits(bytes, n) == |set i | 0 <= i < n && Bit(bytes, i) == 0|
    decreases n
  {
    hide Bit;
    var zeros := set i | 0 <= i < n && Bit(bytes, i) == 0;
    if n == 0 {
      assert zeros == {};
    } else {
      ZeroBitsCount(bytes, n - 1);
      BitIsBinary(bytes, n - 1);
      var before := set i | 0 <= i < n - 1 && Bit(bytes, i) == 0;
      assert zeros == if Bit(bytes, n - 1) == 0 then before + {n - 1} else before;
    }
  }

  lemma BitIsBinary(bytes: seq<Byte>, i: nat)
    requires i < 8 * |bytes|
    ensures Bit(bytes, i) == 0 || Bit(bytes, i) == 1
  {
  }

  predicate IsHash(hash: string) {
    IsHex(hash) && |hash| == 64
  }

  /** The point the rounds start from. */
  function StartPoint(c: Curve, hash: string): (a: Point)
    requires c.Valid() && IsHash(hash)
    ensures a.Affine? && c.On(a)
  {
    LiftOn(c, FirstLift(c, Unsigned(hash)), 0);
    Lift(c, FirstLift(c, Unsigned(hash)), 0).value
  }

  /** The closed form of the rounds: the start point times two to the number of zero bits. */
  function HashToPoint(c: Curve, hash: string): Point
    requires c.Valid() && IsHash(hash)
  {
    DecodeAt(hash, 0);
    c.Mul(Pow2(ZeroBits(Decode(hash), 256)), StartPoint(c, hash))
  }

  lemma DoubleMul(c: Curve, k: nat, a: Point)
    requires c.Group() && c.On(a)
    ensures c.On(c.Mul(k, a))
    ensures c.add(c.Mul(k, a), c.Mul(k, a)) == c.Mul(2 * k, a)
  {
    MulOn(c, k, a);
    MulAdd(c, k, k, a);
  }

  lemma PowerOfPoint(c: Curve, z: nat, a: Point)
    requires c.Group() && c.On(a) && a != Infinity
    ensures c.On(c.Mul(Pow2(z), a)) && c.Mul(Pow2(z), a) != Infinity
  {
    MulOn(c, Pow2(z), a);
    Pow2NotMultiple(z, c.q);
    MulZeroIff(c, Pow2(z), a);
  }

  /** The first loop: increments `x` until it lifts. The point stays the fresh one, the
      identity, as long as lifting fails. */
  method SearchPoint(c: Curve, start: nat) returns (P: Point)
    requires c.Valid()
    ensures Some(P) == Lift(c, FirstLift(c, start), 0)
  {
    var x := start;
    P := Infinity;
    while true
      invariant P == Infinity
      invariant FirstLift(c, x) == FirstLift(c, start)
      decreases Ahead(c, x)
    {
      LiftOn(c, x, 0);
      var lifted := Lift(c, x, 0);
      if lifted.Some? {
        P := lifted.value;
      }
      if P == Infinity {
        SearchProgress(c, x);
        x := x + 1;
      } else {
        break;
      }
    }
  }

  /** One round: the bit decides between adding the identity and doubling. */
  lemma RoundStep(c: Curve, bytes: seq<Byte>, i: nat, P0: Point)
    requires c.Group() && c.On(P0) && P0 != Infinity && i < 8 * |bytes|
    ensures var P := c.Mul(Pow2(ZeroBits(bytes, i)), P0);
            var P' := c.Mul(Pow2(ZeroBits(bytes, i + 1)), P0);
            && c.On(P') && P' != Infinity
            && P' == if Bit(bytes, i) == 1 then c.add(P, Infinity) else c.add(P, P)
  {
    var z := ZeroBits(bytes, i);
    PowerOfPoint(c, z, P0);
    Neutral(c, c.Mul(Pow2(z), P0));
    DoubleMul(c, Pow2(z), P0);
    PowerOfPoint(c, z + 1, P0);
  }

  /** The rounds. `Q` is added for a one bit, `P` to itself for a zero bit; when `Q` is the
      identity, the identity is never reached and no round is cut short. */
  method Rounds(c: Curve, P0: Point, Q: Point, hashHex: array<Byte>) returns (finalP: Point)
    requires c.Group() && c.On(P0) && P0 != Infinity && Q == Infinity && hashHex.Length == 32
    ensures finalP == c.Mul(Pow2(ZeroBits(hashHex[..], 256)), P0)
    ensures finalP != Infinity && c.On(finalP)
  {
    var P := P0;
    finalP := P0;
    MulNext(c, 0, P0);
    Neutral(c, P0);
    var i := 0;
    while i < 256
      invariant 0 <= i <= 256
      invariant P == c.Mul(Pow2(ZeroBits(hashHex[..], i)), P0)
      invariant P != Infinity && c.On(P)
      invariant finalP == P
    {
      RoundStep(c, hashHex[..], i, P0);
      assert hashHex[..][i / 8] == hashHex[i / 8];
      var bit := hashHex[i / 8] / Pow2(7 - i % 8) % 2 == 1;
      if bit {
        P := c.add(P, Q);
      } else {
        P := c.add(P, P);
      }
      if P != Infinity {
        finalP := P;
      } else {
        break;
      }
      i := i + 1;
    }
  }

  /** `ssvg_hash_to_curve`. `Q` is a copy of the fresh point, taken before the lift, so adding
      it changes nothing; doubling is what moves the point. */
  method SsvgHashToCurve(c: Curve, hash: string) returns (finalP: Point)
    requires c.Valid() && IsHash(hash)
    ensures finalP == HashToPoint(c, hash)
    ensures finalP != Infinity && c.On(finalP)
    ensures exists r, P0 :: IsStart(c, Hex2Bn(hash), r, P0)
              && |Decode(hash)| == 32 && finalP == c.Mul(Pow2(ZeroBits(Decode(hash), 256)), P0)
  {
    HashToPointIs(c, hash);
    DigitCountAll(hash);
    assert !IsHexDigit('-');
    var x: nat := Hex2Bn(hash);
    var Q := Infinity;
    var P := SearchPoint(c, x);
    var hashHex := new Byte[32](_ => 0);
    var ok := ParseString(hashHex, hash);
    DecodeAt(hash, 0);
    assert hash[..64] == hash && hashHex[..] == Decode(hash);
    ghost var P0 := StartPoint(c, hash);
    assert P == P0;
    finalP := Rounds(c, P, Q, hashHex);
  }

  /** The hash of a point to the curve is a point of the curve other than the identity. */
  lemma HashToPointOn(c: Curve, hash: string)
    requires c.Valid() && IsHash(hash)
    ensures c.On(HashToPoint(c, hash)) && HashToPoint(c, hash) != Infinity
  {
    DecodeAt(hash, 0);
    PowerOfPoint(c, ZeroBits(Decode(hash), 256), StartPoint(c, hash));
  }

  /** The closed form: the hash read as a number says where the search starts, and the zero bits of
      the hash how often the point found is doubled. */
  lemma HashToPointIs(c: Curve, hash: string)
    requires c.Valid() && IsHash(hash)
    ensures |Decode(hash)| == 32
    ensures exists r, P0 :: IsStart(c, Hex2Bn(hash), r, P0)
              && HashToPoint(c, hash) == c.Mul(Pow2(ZeroBits(Decode(hash), 256)), P0)
  {
    hide IsStart, Curve.Valid, Curve.On, Curve.Mul, Lift, ZeroBits;
    DecodeAt(hash, 0);
    assert !IsHexDigit('-');
    FirstLiftIsStart(c, Unsigned(hash));
    assert IsStart(c, Hex2Bn(hash), FirstLift(c, Unsigned(hash)), StartPoint(c, hash));
  }
}
