/** The curve over the field of 13 elements, whose 7 points form a group of odd prime order. It
    shows that the assumptions made of a curve can be met, and it carries a counterexample. */
module ToyCurve {
  import opened Options
  import opened Hex
  import opened BigNum
  import opened Arith
  import opened Curves
  import opened Octets
  import opened PointEncoding
  import opened HashToCurve
  import opened Ring
  import opened RingProperties
  import opened RingBinding
  import opened RingExtraction
  import opened RingSpelling

  /** The multiples of the generator. */
  function Multiple(i: nat): Point
    requires i < 7
  {
    match i
    case 0 => Infinity
    case 1 => Affine(7, 5)
    case 2 => Affine(8, 5)
    case 3 => Affine(11, 8)
    case 4 => Affine(11, 5)
    case 5 => Affine(8, 8)
    case 6 => Affine(7, 8)
  }

  /** The discrete logarithm. */
  function Log(a: Point): (i: nat)
    ensures i < 7
  {
    match a
    case Infinity => 0
    case Affine(x, y) =>
      if x == 7 then (if y == 5 then 1 else 6)
      else if x == 8 then (if y == 5 then 2 else 5)
      else if y == 8 then 3 else 4
  }

  function Rest(i: int): (r: nat)
    ensures r < 7
  {
    i % 7
  }

  function Add(a: Point, b: Point): Point {
    Multiple(Rest(Log(a) + Log(b)))
  }

  function Sqrt(a: nat): Option<nat> {
    match a % 13
    case 0 => Some(0)
    case 1 => Some(1)
    case 4 => Some(2)
    case 9 => Some(3)
    case 3 => Some(4)
    case 12 => Some(5)
    case 10 => Some(6)
    case _ => None
  }

  function Toy(hash: seq<Byte> -> string): Curve {
    Curve(13, 7, Affine(7, 5), (a, b) => Add(a, b), a => Sqrt(a), hash)
  }

  // ----- The tables are right -------------------------------------------------------------

  function Square(y: nat): nat {
    match y
    case 0 => 0
    case 1 => 1
    case 2 => 4
    case 3 => 9
    case 4 => 3
    case 5 => 12
    case 6 => 10
    case 7 => 10
    case 8 => 12
    case 9 => 3
    case 10 => 9
    case 11 => 4
    case _ => 1
  }

  lemma SquareIs(y: nat)
    requires y < 13
    ensures y * y % 13 == Square(y)
  {
    match y
    case 0 =>
    case 1 =>
    case 2 =>
    case 3 =>
    case 4 =>
    case 5 =>
    case 6 =>
    case 7 =>
    case 8 =>
    case 9 =>
    case 10 =>
    case 11 =>
    case _ => assert y == 12;
  }

  lemma RhsIs(x: nat)
    requires x < 13
    ensures (x * x * x + 7) % 13 ==
              match x { case 0 => 7 case 1 => 8 case 2 => 2 case 3 => 8 case 4 => 6 case 5 => 2 case 6 => 2
                        case 7 => 12 case 8 => 12 case 9 => 8 case 10 => 6 case 11 => 12 case _ => 6 }
  {
    match x
    case 0 =>
    case 1 =>
    case 2 =>
    case 3 =>
    case 4 =>
    case 5 =>
    case 6 =>
    case 7 =>
    case 8 =>
    case 9 =>
    case 10 =>
    case 11 =>
    case _ => assert x == 12;
  }

  predicate Listed(a: Point) {
    Multiple(Log(a)) == a
  }

  lemma OnIffListed(hash: seq<Byte> -> string, a: Point)
    ensures Toy(hash).On(a) <==> Listed(a)
  {
    if a.Affine? && a.x < 13 && a.y < 13 {
      SquareIs(a.y);
      RhsIs(a.x);
    }
  }

  lemma LogMultiple(i: nat)
    requires i < 7
    ensures Log(Multiple(i)) == i && Listed(Multiple(i))
  {
  }

  lemma SumsAssociate(a: nat, b: nat, d: nat)
    ensures Rest(Rest(a + b) + d) == Rest(a + Rest(b + d))
  {
    hide Cong;
    CongRest(a + b, 7);
    CongRest(b + d, 7);
    CongAdd((a + b) % 7, a + b, d, d, 7);
    CongAdd((b + d) % 7, b + d, a, a, 7);
    CongIffSameRest((a + b) % 7 + d, a + b + d, 7);
    CongIffSameRest((b + d) % 7 + a, b + d + a, 7);
  }

  lemma NextMultiple(n: int, k: int)
    ensures Rest(Rest((n - 1) * k) + k) == Rest(n * k)
  {
    var m := (n - 1) * k;
    assert n * k == m + k;
    CongRest(m, 7);
    CongAdd(m % 7, m, k, k, 7);
    CongIffSameRest(m % 7 + k, m + k, 7);
  }

  lemma {:induction false} TimesIs(hash: seq<Byte> -> string, a: Point, n: nat)
    requires Listed(a)
    ensures Toy(hash).Times(n, a) == Multiple(Rest(n * Log(a)))
  {
    hide Multiple, Log, Rest;
    LogMultiple(0);
    if n > 0 {
      TimesIs(hash, a, n - 1);
      LogMultiple(Rest((n - 1) * Log(a)));
      NextMultiple(n, Log(a));
    } else {
      IdentityIs();
      SmallRest(0);
    }
  }

  lemma IdentityIs()
    ensures Multiple(0) == Infinity && Log(Infinity) == 0
  {
  }

  lemma NegIs(hash: seq<Byte> -> string, a: Point)
    requires Listed(a)
    ensures Toy(hash).On(a) && Toy(hash).Neg(a) == Multiple(Rest(7 - Log(a)))
  {
    OnIffListed(hash, a);
  }

  lemma AddIs(hash: seq<Byte> -> string, a: Point, b: Point)
    ensures Toy(hash).add(a, b) == Add(a, b)
  {
  }

  lemma AddListed(a: Point, b: Point)
    ensures Listed(Add(a, b)) && Log(Add(a, b)) == Rest(Log(a) + Log(b)) && Add(a, b) == Add(b, a)
  {
    hide Multiple, Log, Rest;
    LogMultiple(Rest(Log(a) + Log(b)));
  }

  lemma AddAssociates(a: Point, b: Point, d: Point)
    ensures Add(Add(a, b), d) == Add(a, Add(b, d))
  {
    hide Multiple, Log, Rest;
    AddListed(a, b);
    AddListed(b, d);
    SumsAssociate(Log(a), Log(b), Log(d));
  }

  lemma PairLaws(hash: seq<Byte> -> string, a: Point, b: Point)
    ensures Toy(hash).ClosedAt(a, b) && Toy(hash).CommutativeAt(a, b)
  {
    hide Add, Log, Curve.On;
    AddIs(hash, a, b);
    AddIs(hash, b, a);
    AddListed(a, b);
    OnIffListed(hash, Add(a, b));
  }

  lemma TripleLaw(hash: seq<Byte> -> string, a: Point, b: Point, d: Point)
    ensures Toy(hash).p == 13
    ensures Toy(hash).AssociativeAt(a, b, d)
  {
    hide Add, Curve.On, Toy;
    ToyParameters(hash);
    AddIs(hash, a, b);
    AddIs(hash, b, d);
    AddIs(hash, Add(a, b), d);
    AddIs(hash, a, Add(b, d));
    AddAssociates(a, b, d);
  }

  lemma SmallRest(i: nat)
    requires i < 7
    ensures Rest(i) == i && Rest(i + Rest(7 - i)) == 0 && Rest(7 * i) == 0
  {
    DivisionUnique(7 * i, 7, i, 0);
  }

  /** Zero and the opposite, on the side of the logarithms. */
  lemma AddSpecial(a: Point)
    requires Listed(a)
    ensures Add(a, Infinity) == a
    ensures Add(a, Multiple(Rest(7 - Log(a)))) == Infinity
    ensures Multiple(Rest(7 * Log(a))) == Infinity
  {
    hide Multiple, Log, Rest;
    IdentityIs();
    SmallRest(Log(a));
    LogMultiple(Rest(7 - Log(a)));
  }

  lemma ToyParameters(hash: seq<Byte> -> string)
    ensures Toy(hash).p == 13 && Toy(hash).q == 7 && Toy(hash).gen == Affine(7, 5)
  {
  }

  lemma SingleLaws(hash: seq<Byte> -> string, a: Point)
    ensures Toy(hash).p == 13
    ensures Toy(hash).NeutralAt(a) && Toy(hash).InverseAt(a) && Toy(hash).OrderAt(a)
  {
    hide Add, Multiple, Log, Rest, Curve.On, Curve.Neg, Curve.Times, Toy;
    ToyParameters(hash);
    OnIffListed(hash, a);
    if Listed(a) {
      AddSpecial(a);
      NegIs(hash, a);
      AddIs(hash, a, Infinity);
      AddIs(hash, a, Toy(hash).Neg(a));
      TimesIs(hash, a, 7);
    }
  }

  /** The assumptions about curves can be met, with any hash function that prints 64 digits. */
  lemma ToyIsValid(hash: seq<Byte> -> string)
    requires forall bytes :: IsHash(hash(bytes))
    ensures Toy(hash).Valid()
  {
    hide Curve.On, Curve.ClosedAt, Curve.CommutativeAt, Curve.AssociativeAt, Curve.NeutralAt, Curve.InverseAt;
    hide Curve.OrderAt, Curve.RootAt, IsPrime, IsHash;
    var c := Toy(hash);
    SmallPrimes();
    GeneratorOn(hash);
    forall a, b ensures c.ClosedAt(a, b) && c.CommutativeAt(a, b) {
      PairLaws(hash, a, b);
    }
    forall a, b, d ensures c.AssociativeAt(a, b, d) {
      TripleLaw(hash, a, b, d);
    }
    forall a ensures c.NeutralAt(a) && c.InverseAt(a) && c.OrderAt(a) {
      SingleLaws(hash, a);
    }
    forall a ensures c.RootAt(a) {
      RootsListed(hash, a);
    }
    forall bytes ensures c.HashAt(bytes) {
      HashLaw(hash, bytes);
    }
  }

  lemma HashLaw(hash: seq<Byte> -> string, bytes: seq<Byte>)
    requires IsHash(hash(bytes))
    ensures Toy(hash).HashAt(bytes)
  {
  }

  lemma GeneratorOn(hash: seq<Byte> -> string)
    ensures Toy(hash).On(Toy(hash).gen)
  {
    OnIffListed(hash, Toy(hash).gen);
  }

  lemma SmallPrimes()
    ensures IsPrime(7) && IsPrime(13)
  {
    forall d | 1 < d < 7 ensures 7 % d != 0 {
      assert d == 2 || d == 3 || d == 4 || d == 5 || d == 6;
    }
    forall d | 1 < d < 13 ensures 13 % d != 0 {
      assert d == 2 || d == 3 || d == 4 || d == 5 || d == 6 || d == 7 || d == 8 || d == 9 || d == 10 || d == 11 || d == 12;
    }
  }

  lemma RootsListed(hash: seq<Byte> -> string, a: nat)
    ensures Toy(hash).RootAt(a)
  {
    if Sqrt(a).Some? {
      SquareIs(Sqrt(a).value);
    } else {
      forall y ensures !IsRoot(y, a, 13) {
        if y < 13 {
          SquareIs(y);
        }
      }
    }
  }

  // ----- A signer whose key is spelled uncompressed ---------------------------------------

  /** 32 bytes, all zero but the last. */
  function Block(v: Byte): seq<Byte> {
    seq(31, _ => 0) + [v]
  }

  /** A hash function that is as simple as it can be and still tells the two spellings of a
      point apart: 0 for 65 bytes, 1 for 33 bytes, the last byte otherwise. */
  function LastByteHash(bytes: seq<Byte>): string {
    EncodeUpper(Block(if |bytes| == 65 || bytes == [] then 0 else if |bytes| == 33 then 1 else bytes[|bytes| - 1]))
  }

  lemma {:induction false} ZerosValue(n: nat)
    ensures FromBigEndian(seq(n, _ => 0)) == 0
  {
    if n > 0 {
      var z: seq<Byte> := seq(n, _ => 0);
      assert z[..n - 1] == seq(n - 1, _ => 0);
      ZerosValue(n - 1);
    }
  }

  lemma BlockHash(v: Byte)
    ensures IsHash(EncodeUpper(Block(v))) && Decode(EncodeUpper(Block(v))) == Block(v)
    ensures Unsigned(EncodeUpper(Block(v))) == v
    ensures Hex2Bn(EncodeUpper(Block(v))) == v
  {
    hide EncodeUpper, Decode, DigitsValue, Unsigned;
    DecodeEncodeUpper(Block(v));
    HexValue(Block(v));
    ZerosValue(31);
    assert Block(v)[..31] == seq(31, _ => 0);
    HexNumber(EncodeUpper(Block(v)));
  }

  /** The toy curve with that hash. */
  const TOY := Toy(bytes => LastByteHash(bytes))

  lemma ToyNumbers()
    ensures TOY.p == 13 && TOY.q == 7 && TOY.gen == Affine(7, 5)
  {
  }

  lemma ToyHolds()
    ensures TOY.Valid()
    ensures forall bytes :: TOY.sha3(bytes) == LastByteHash(bytes)
  {
    forall bytes ensures IsHash(LastByteHash(bytes)) {
      BlockHash(if |bytes| == 65 || bytes == [] then 0 else if |bytes| == 33 then 1 else bytes[|bytes| - 1]);
    }
    ToyIsValid(bytes => LastByteHash(bytes));
  }

  lemma BlockBit(v: Byte, i: nat)
    requires v < 2 && i < 256
    ensures Bit(Block(v), i) == if i == 255 then v else 0
  {
    hide Pow2;
    if i / 8 < 31 {
      assert Block(v)[i / 8] == 0;
    } else {
      assert Block(v)[31] == v;
      BitOfSmall(v, 7 - i % 8);
    }
  }

  lemma {:induction false} BlockZeroBits(v: Byte, n: nat)
    requires v < 2 && n <= 256
    ensures ZeroBits(Block(v), n) == n - if n == 256 then v else 0
    decreases n
  {
    hide Bit, Block;
    BlockLength(v);
    if n > 0 {
      BlockZeroBits(v, n - 1);
      BlockBit(v, n - 1);
    }
  }

  lemma BlockLength(v: Byte)
    ensures |Block(v)| == 32
  {
  }

  lemma BitOfSmall(v: nat, k: nat)
    requires v < 2 && k < 8
    ensures v / Pow2(k) % 2 == if k == 0 then v else 0
  {
    if k > 0 {
      assert Pow2(k) >= 2;
      DivisionUnique(v, Pow2(k), 0, v);
    }
  }

  lemma {:induction false} Pow2Rest(n: nat)
    ensures Rest(Pow2(3 * n)) == 1
  {
    if n > 0 {
      var m: nat := 3 * (n - 1);
      Pow2Rest(n - 1);
      assert Pow2(m + 1) == 2 * Pow2(m) && Pow2(m + 2) == 2 * Pow2(m + 1) && Pow2(m + 3) == 2 * Pow2(m + 2);
      DivisionUnique(Pow2(m + 3), 7, 8 * (Pow2(m) / 7) + 1, 1);
    }
  }

  lemma ToyLift(y: nat)
    requires y <= 7
    ensures Lift(TOY, y, 0) == if y == 7 then Some(Affine(7, 8)) else None
  {
    hide Curve.On, Curve.Valid, Curve.Rhs;
    ToyRhs(y);
    assert y % 13 == y;
  }

  lemma ToyRhs(y: nat)
    requires y <= 7
    ensures TOY.Rhs(y) ==
              match y { case 0 => 7 case 1 => 8 case 2 => 2 case 3 => 8 case 4 => 6 case 5 => 2 case 6 => 2 case _ => 12 }
  {
    RhsIs(y);
  }

  /** The search from anywhere up to 7 ends there, and lifts to six times the generator. */
  lemma SearchEnds(x: nat)
    requires x <= 7 && TOY.Valid()
    ensures Lift(TOY, FirstLift(TOY, x), 0) == Some(Multiple(6))
  {
    hide Lift, TOY, Curve.Valid, Curve.On;
    ToyNumbers();
    forall y: nat | y <= 7 ensures Lift(TOY, y, 0) == if y == 7 then Some(Affine(7, 8)) else None {
      ToyLift(y);
    }
  }

  lemma ToyStart(hash: string)
    requires TOY.Valid() && IsHash(hash) && Unsigned(hash) <= 7
    ensures StartPoint(TOY, hash) == Multiple(6)
  {
    hide Lift, FirstLift, Multiple, Unsigned, IsHash, TOY, Curve.Valid;
    SearchEnds(Unsigned(hash));
  }

  lemma ToyHashToPoint(v: Byte)
    requires TOY.Valid() && v < 2
    ensures IsHash(EncodeUpper(Block(v)))
    ensures HashToPoint(TOY, EncodeUpper(Block(v))) == TOY.Times(Pow2(256 - v), Multiple(6))
  {
    hide Pow2, Block, EncodeUpper, Decode, ZeroBits, Curve.Valid, Multiple, Unsigned, Curve.On, Curve.Times, IsHash;
    BlockHash(v);
    BlockLength(v);
    BlockZeroBits(v, 256);
    ToyStart(EncodeUpper(Block(v)));
  }

  /** The hash point of a byte string that hashes to 0 or 1. */
  lemma ToyHp(bytes: seq<Byte>, v: Byte)
    requires TOY.Valid() && v < 2 && TOY.sha3(bytes) == EncodeUpper(Block(v))
    ensures Hp(TOY, bytes) == Multiple(if v == 0 then 5 else 6)
  {
    hide Pow2, Block, EncodeUpper, HashToPoint, Curve.Valid, Multiple, Log, Curve.On, Curve.Times, Rest;
    ToyHashToPoint(v);
    LogMultiple(6);
    TimesIs(bytes => LastByteHash(bytes), Multiple(6), Pow2(256 - v));
    ToyPowers();
  }

  lemma ToyPowers()
    ensures Rest(Pow2(256) * 6) == 5 && Rest(Pow2(255) * 6) == 6
  {
    hide Pow2;
    Pow2Rest(85);
    assert Pow2(3 * 85) == Pow2(255);
    DoublePow2(255);
  }

  lemma DoublePow2(n: nat)
    ensures Pow2(n + 1) == 2 * Pow2(n)
  {
  }

  /** A message hash of 64 digits. */
  const MESSAGE := Zeros(64)

  lemma MessageIsHash()
    ensures IsMessageHash(MESSAGE) && |StringBytes(MESSAGE)| == 32
  {
    assert IsHexDigit('0');
    DecodeAt(MESSAGE, 0);
    StringBytesIsDecode(MESSAGE);
  }

  /** Its challenges are the abscissa of the second point. */
  lemma ToyChallenge(R: Point, R2: Point)
    requires TOY.Valid() && R.Affine? && R2.Affine? && R2.x < 13
    requires forall bytes :: TOY.sha3(bytes) == LastByteHash(bytes)
    ensures Challenge(TOY, MESSAGE, R, R2) == R2.x
  {
    hide Curve.Valid, EncodeUpper, Block, Encode, StringBytes, Transcript, Hex2Bn, Unsigned, Decode, TOY, Zeros;
    MessageIsHash();
    TranscriptParts(MESSAGE, R, R2);
    LastOfEncode(R);
    LastOfEncode(R2);
    var bytes := Transcript(MESSAGE, R, R2);
    assert |bytes| == 98 && bytes[97] == Encode(R2)[32];
    BlockHash(R2.x);
  }

  lemma LastOfEncode(a: Point)
    requires a.Affine?
    ensures |Encode(a)| == 33 && (a.x < 256 ==> Encode(a)[32] == a.x)
  {
  }

  lemma ToyMultiples()
    ensures Multiple(1) == Affine(7, 5) && Multiple(5) == Affine(8, 8) && Multiple(6) == Affine(7, 8)
  {
  }

  lemma ToyPoint(i: nat)
    requires TOY.Valid() && 1 <= i < 7
    ensures TOY.p == 13 && TOY.On(Multiple(i)) && TOY.Mul(1, Multiple(i)) == Multiple(i)
  {
    hide Multiple, Curve.On, Curve.Valid;
    LogMultiple(i);
    OnIffListed(bytes => LastByteHash(bytes), Multiple(i));
    OneTimes(TOY, Multiple(i));
  }

  lemma OneTimes(c: Curve, a: Point)
    requires c.Valid() && c.On(a)
    ensures c.Mul(1, a) == a
  {
    hide Curve.On, Curve.Valid, Curve.Group;
    GeneratorIsOn(c);
    MulNext(c, 0, a);
    Neutral(c, a);
  }

  /** The generator's compressed and uncompressed forms hash to different points. */
  lemma ToyHashPoints()
    requires TOY.Valid()
    requires forall bytes :: TOY.sha3(bytes) == LastByteHash(bytes)
    ensures Hp(TOY, Encode(Affine(7, 5))) == Affine(7, 8)
    ensures Hp(TOY, LongForm(4, Affine(7, 5))) == Affine(8, 8)
  {
    hide Curve.Valid, Hp, EncodeUpper, Block, Encode, LongForm, TOY;
    LastOfEncode(Affine(7, 5));
    ToyHp(Encode(Affine(7, 5)), 1);
    ToyHp(LongForm(4, Affine(7, 5)), 0);
  }

  /** The keys of the secret 1. */
  lemma ToyKeys()
    requires TOY.Valid()
    requires forall bytes :: TOY.sha3(bytes) == LastByteHash(bytes)
    ensures KeyOf(TOY, 1) == Affine(7, 5) && ImageOf(TOY, 1) == Affine(7, 8)
  {
    hide Curve.Valid, Curve.Mul, Hp, TOY;
    ToyNumbers();
    ToyHashPoints();
    ToyPoint(1);
    ToyPoint(6);
  }

  /** A ring of one whose member, the signer, is spelled uncompressed: `sign` hashes the spelling
      that it was given, `verify` the compressed form, and rejects the signature. */
  lemma UncompressedSignerRejected()
    ensures TOY.Valid() && IsMessageHash(MESSAGE) && Randomness(TOY, 1, 1, [0])
    ensures var key, image := LongHex(Affine(7, 5)), PointHex(Affine(7, 8));
            && IsSigner(TOY, MESSAGE, [key], key, 1, image)
            && var signed := Signed(TOY, MESSAGE, [key], key, 1, image, 1, [0]);
            && signed.Returned?
            && Verdict(TOY, MESSAGE, signed.value, [key], image) == Returned(false)
  {
    hide Curve.Valid, Curve.On, Hp, LongHex, PointHex, IsSigner, Signed, Verdict, KeyOf, ImageOf, TOY, Multiple;
    hide LongForm, Transcript;
    ToyHolds();
    ToyNumbers();
    ToyPoint(5);
    ToyPoint(6);
    MessageIsHash();
    ToyKeys();
    ToyHashPoints();
    ToyMultiples();
    ToyFirst();
    UncompressedVerifiesIff(TOY, MESSAGE, 1, 1, 0);
  }

  /** The first challenges made with the two hash points differ. */
  lemma ToyFirst()
    requires TOY.Valid() && TOY.On(Affine(7, 8)) && TOY.On(Affine(8, 8))
    requires forall bytes :: TOY.sha3(bytes) == LastByteHash(bytes)
    ensures TOY.q > 0
    ensures !Coincide(TOY, FirstTranscript(TOY, MESSAGE, 1, Affine(7, 8)), FirstTranscript(TOY, MESSAGE, 1, Affine(8, 8)), true)
  {
    hide Curve.Valid, Curve.On, Transcript, Hex2Bn, TOY, Curve.Mul;
    ToyNumbers();
    ToyPoint(1);
    ToyPoint(5);
    ToyPoint(6);
    ToyChallenge(Affine(7, 5), Affine(7, 8));
    ToyChallenge(Affine(7, 5), Affine(8, 8));
  }
}
