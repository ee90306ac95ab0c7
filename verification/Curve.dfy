/** The curve y^2 = x^3 + 7 over a prime field, as an additive group of odd prime order. The
    coordinates and the encoding of points are concrete. Point addition, the modular square
    root and SHA3 belong to libraries; they are parameters of which `Valid` lists what is used. */
module Curves {
  import opened Options
  import opened Hex
  import opened Arith

  datatype Point = Infinity | Affine(x: nat, y: nat)

  /** 2^256 */
  const FIELD_LIMIT := 0x1_0000000000000000_0000000000000000_0000000000000000_0000000000000000

  /** A coordinate that 32 bytes can hold. */
  predicate Fits(x: nat) {
    x < FIELD_LIMIT
  }

  datatype Curve = Curve(
    p: nat,
    q: nat,
    gen: Point,
    add: (Point, Point) -> Point,
    sqrt: nat -> Option<nat>,
    sha3: seq<Byte> -> string)
  {
    // ----- What a curve is ----------------------------------------------------------------

    ghost predicate Field() {
      IsPrime(p) && p > 3 && p % 2 == 1 && forall x: nat :: x < p ==> Fits(x)
    }

    function Rhs(x: nat): nat
      requires p > 0
    {
      (x * x * x + 7) % p
    }

    predicate On(a: Point)
      requires p > 0
    {
      a.Affine? ==> a.x < p && a.y < p && a.y * a.y % p == Rhs(a.x)
    }

    function Neg(a: Point): Point {
      if a.Affine? && 0 < a.y < p then Affine(a.x, p - a.y) else a
    }

    // The laws, each behind a predicate of its own so that it is used where it is named.

    ghost predicate GeneratorAt(a: Point)
      requires p > 0
    {
      a == gen ==> On(a)
    }

    ghost predicate ClosedAt(a: Point, b: Point)
      requires p > 0
    {
      On(a) && On(b) ==> On(add(a, b))
    }

    ghost predicate CommutativeAt(a: Point, b: Point)
      requires p > 0
    {
      On(a) && On(b) ==> add(a, b) == add(b, a)
    }

    ghost predicate AssociativeAt(a: Point, b: Point, d: Point)
      requires p > 0
    {
      On(a) && On(b) && On(d) ==> add(add(a, b), d) == add(a, add(b, d))
    }

    ghost predicate NeutralAt(a: Point)
      requires p > 0
    {
      On(a) ==> add(a, Infinity) == a
    }

    ghost predicate InverseAt(a: Point)
      requires p > 0
    {
      On(a) ==> add(a, Neg(a)) == Infinity
    }

    ghost predicate OrderAt(a: Point)
      requires p > 0
    {
      On(a) ==> Times(q, a) == Infinity
    }

    /** `sqrt` finds a root below `p` whenever there is one. */
    ghost predicate RootAt(a: nat)
      requires p > 0
    {
      match sqrt(a)
      case Some(y) => IsRoot(y, a, p)
      case None => forall y :: !IsRoot(y, a, p)
    }

    /** A hash is printed as 64 hexadecimal digits. */
    ghost predicate HashAt(bytes: seq<Byte>) {
      IsHex(sha3(bytes)) && |sha3(bytes)| == 64
    }

    ghost predicate Group() {
      && Field()
      && IsPrime(q) && q % 2 == 1
      && gen.Affine? && (forall a :: GeneratorAt(a))
      && (forall a, b :: ClosedAt(a, b))
      && (forall a, b :: CommutativeAt(a, b))
      && (forall a, b, d :: AssociativeAt(a, b, d))
      && (forall a :: NeutralAt(a))
      && (forall a :: InverseAt(a))
      && (forall a :: OrderAt(a))
    }

    ghost predicate Valid() {
      && Group()
      && (forall a :: RootAt(a))
      && (forall bytes :: HashAt(bytes))
    }

    // ----- Scalar multiplication ----------------------------------------------------------

    function Times(n: nat, a: Point): Point {
      if n == 0 then Infinity else add(Times(n - 1, a), a)
    }

    /** `ec_mul`: the multiple of a point by any integer. */
    function Mul(k: int, a: Point): Point {
      if k >= 0 then Times(k, a) else Times(-k, Neg(a))
    }
  }

  // ----- Group laws as lemmas ---------------------------------------------------------------

  lemma Positive(c: Curve)
    requires c.Valid()
    ensures c.p > 0 && c.q > 0 && c.gen.Affine?
  {
  }

  lemma GeneratorIsOn(c: Curve)
    requires c.Valid()
    ensures c.Group() && c.On(c.gen)
  {
    assert c.GeneratorAt(c.gen);
  }

  lemma NegOn(c: Curve, a: Point)
    requires c.Field() && c.On(a)
    ensures c.On(c.Neg(a))
  {
    if a.Affine? && a.y > 0 {
      NegSquare(c.p, a.y);
    }
  }

  lemma Closed(c: Curve, a: Point, b: Point)
    requires c.Group() && c.On(a) && c.On(b)
    ensures c.On(c.add(a, b))
  {
    assert c.ClosedAt(a, b);
  }

  lemma Commutative(c: Curve, a: Point, b: Point)
    requires c.Group() && c.On(a) && c.On(b)
    ensures c.add(a, b) == c.add(b, a)
  {
    assert c.CommutativeAt(a, b);
  }

  lemma Associative(c: Curve, a: Point, b: Point, d: Point)
    requires c.Group() && c.On(a) && c.On(b) && c.On(d)
    ensures c.add(c.add(a, b), d) == c.add(a, c.add(b, d))
  {
    assert c.AssociativeAt(a, b, d);
  }

  lemma Neutral(c: Curve, a: Point)
    requires c.Group() && c.On(a)
    ensures c.add(a, Infinity) == a && c.add(Infinity, a) == a
  {
    assert c.NeutralAt(a);
    Commutative(c, a, Infinity);
  }

  lemma Inverse(c: Curve, a: Point)
    requires c.Group() && c.On(a)
    ensures c.On(c.Neg(a))
    ensures c.add(a, c.Neg(a)) == Infinity && c.add(c.Neg(a), a) == Infinity
  {
    NegOn(c, a);
    assert c.InverseAt(a);
    Commutative(c, a, c.Neg(a));
  }

  lemma {:induction false} TimesOn(c: Curve, n: nat, a: Point)
    requires c.Group() && c.On(a)
    ensures c.On(c.Times(n, a))
  {
    if n > 0 {
      TimesOn(c, n - 1, a);
      Closed(c, c.Times(n - 1, a), a);
    }
  }

  lemma MulOn(c: Curve, k: int, a: Point)
    requires c.Group() && c.On(a)
    ensures c.On(c.Mul(k, a))
  {
    NegOn(c, a);
    if k >= 0 { TimesOn(c, k, a); } else { TimesOn(c, -k, c.Neg(a)); }
  }

  /** One more copy of the point, on either side of zero. */
  lemma MulNext(c: Curve, k: int, a: Point)
    requires c.Group() && c.On(a)
    ensures c.Mul(k + 1, a) == c.add(c.Mul(k, a), a)
  {
    if k < 0 {
      var n := c.Neg(a);
      var m := c.Times(-k - 1, n);
      Inverse(c, a);
      TimesOn(c, -k - 1, n);
      Associative(c, m, n, a);
      Neutral(c, m);
      assert c.Times(-k, n) == c.add(m, n);
    }
  }

  /** Cancelling a point on the right. */
  lemma Cancel(c: Curve, a: Point, b: Point, d: Point)
    requires c.Group() && c.On(a) && c.On(b) && c.On(d)
    requires c.add(a, d) == c.add(b, d)
    ensures a == b
  {
    var n := c.Neg(d);
    Inverse(c, d);
    Associative(c, a, d, n);
    Associative(c, b, d, n);
    Neutral(c, a);
    Neutral(c, b);
  }

  /** The integer action is additive in the scalar. */
  lemma {:induction false} MulAdd(c: Curve, k: int, l: int, a: Point)
    requires c.Group() && c.On(a)
    ensures c.Mul(k + l, a) == c.add(c.Mul(k, a), c.Mul(l, a))
    decreases if l < 0 then -l else l
  {
    MulOn(c, k, a);
    if l == 0 {
      Neutral(c, c.Mul(k, a));
    } else if l > 0 {
      MulAdd(c, k, l - 1, a);
      MulNext(c, k + l - 1, a);
      MulNext(c, l - 1, a);
      MulOn(c, l - 1, a);
      Associative(c, c.Mul(k, a), c.Mul(l - 1, a), a);
    } else {
      MulAdd(c, k, l + 1, a);
      MulNext(c, k + l, a);
      MulNext(c, l, a);
      MulOn(c, l, a);
      MulOn(c, k + l, a);
      Associative(c, c.Mul(k, a), c.Mul(l, a), a);
      Closed(c, c.Mul(k, a), c.Mul(l, a));
      Cancel(c, c.Mul(k + l, a), c.add(c.Mul(k, a), c.Mul(l, a)), a);
    }
  }

  /** The integer action is compatible with multiplication of scalars. */
  lemma {:induction false} MulMul(c: Curve, k: int, l: int, a: Point)
    requires c.Group() && c.On(a)
    ensures c.On(c.Mul(l, a))
    ensures c.Mul(k * l, a) == c.Mul(k, c.Mul(l, a))
    decreases if k < 0 then -k else k
  {
    MulOn(c, l, a);
    var b := c.Mul(l, a);
    if k == 0 {
    } else if k > 0 {
      MulMul(c, k - 1, l, a);
      MulNext(c, k - 1, b);
      assert k * l == (k - 1) * l + l;
      MulAdd(c, (k - 1) * l, l, a);
    } else {
      MulMul(c, k + 1, l, a);
      MulNext(c, k, b);
      assert (k + 1) * l == k * l + l;
      MulAdd(c, k * l, l, a);
      MulOn(c, k * l, a);
      MulOn(c, k, b);
      Cancel(c, c.Mul(k * l, a), c.Mul(k, b), b);
    }
  }

  lemma {:induction false} TimesInfinity(c: Curve, n: nat)
    requires c.Group()
    ensures c.Times(n, Infinity) == Infinity
  {
    if n > 0 {
      TimesInfinity(c, n - 1);
      Neutral(c, Infinity);
    }
  }

  /** Scalars count modulo the group order. */
  lemma MulCong(c: Curve, k: int, l: int, a: Point)
    requires c.Group() && c.On(a) && Cong(k, l, c.q)
    ensures c.Mul(k, a) == c.Mul(l, a)
  {
    var m := (k - l) / c.q;
    assert k - l == c.q * m;
    assert c.OrderAt(a);
    assert m * c.q == c.q * m;
    MulMul(c, m, c.q, a);
    TimesInfinity(c, if m < 0 then -m else m);
    assert c.Mul(c.q * m, a) == Infinity;
    MulAdd(c, l, c.q * m, a);
    MulOn(c, l, a);
    Neutral(c, c.Mul(l, a));
  }

  /** In a group of prime order only the multiples of the order annihilate a point. */
  lemma MulZeroIff(c: Curve, k: int, a: Point)
    requires c.Group() && c.On(a) && a != Infinity
    ensures c.Mul(k, a) == Infinity <==> k % c.q == 0
  {
    if k % c.q == 0 {
      MulCong(c, k, 0, a);
    } else if c.Mul(k, a) == Infinity {
      var u := InverseExists(k, c.q);
      MulMul(c, u, k, a);
      TimesInfinity(c, u);
      MulCong(c, u * k, 1, a);
      MulNext(c, 0, a);
      Neutral(c, a);
      assert false;
    }
  }

  /** Equal multiples of a point have congruent scalars. */
  lemma MulInjective(c: Curve, k: int, l: int, a: Point)
    requires c.Group() && c.On(a) && a != Infinity
    requires c.Mul(k, a) == c.Mul(l, a)
    ensures Cong(k, l, c.q)
  {
    MulAdd(c, k - l, l, a);
    MulOn(c, k - l, a);
    MulOn(c, l, a);
    Neutral(c, c.Mul(l, a));
    Cancel(c, c.Mul(k - l, a), Infinity, c.Mul(l, a));
    MulZeroIff(c, k - l, a);
  }
}
