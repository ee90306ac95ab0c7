/** Points as octets, as in section 2.3.3 and 2.3.4 of SEC 1 version 2, and as the hexadecimal
    strings that `EC_POINT_point2hex` prints and `EC_POINT_hex2point` reads. */
module PointEncoding {
  import opened Options
  import opened Hex
  import opened Arith
  import opened Curves
  import opened Octets

  const FIELD_BYTES := 32

  // ----- Lifting an abscissa --------------------------------------------------------------

  /** The square root of `a` with the given parity, if there is one. */
  function Root(c: Curve, a: nat, bit: nat): Option<nat> {
    match c.sqrt(a)
    case None => None
    case Some(y) =>
      if y % 2 == bit then Some(y)
      else if 0 < y < c.p then Some(c.p - y)
      else None
  }

  /** `EC_POINT_set_compressed_coordinates`: the point with abscissa `x` modulo the field prime
      whose ordinate has the given parity; None when the call fails. */
  function Lift(c: Curve, x: nat, bit: nat): Option<Point>
    requires c.p > 0
  {
    match Root(c, c.Rhs(x % c.p), bit)
    case None => None
    case Some(y) => Some(Affine(x % c.p, y))
  }

  lemma RootIsRoot(c: Curve, a: nat, bit: nat)
    requires c.Field() && c.RootAt(a) && bit < 2
    ensures Root(c, a, bit).Some? ==> RootOfParity(Root(c, a, bit).value, bit, a, c.p)
  {
    if c.sqrt(a).Some? {
      RootsOfBothParities(c.sqrt(a).value, a, c.p);
    }
  }

  /** In an odd prime field the square root of each parity is unique, and it is found. */
  lemma RootFinds(c: Curve, a: nat, y: nat)
    requires c.Field() && c.RootAt(a) && IsRoot(y, a, c.p)
    ensures Root(c, a, y % 2) == Some(y)
  {
    hide IsRoot, IsPrime;
    var z := c.sqrt(a).value;
    RootsAreOpposite(y, z, a, c.p);
  }

  lemma LiftOn(c: Curve, x: nat, bit: nat)
    requires c.Valid() && bit < 2
    ensures Lift(c, x, bit).Some? ==>
      var a := Lift(c, x, bit).value;
      a.Affine? && c.On(a) && a.x == x % c.p && a.y % 2 == bit
  {
    var rhs := c.Rhs(x % c.p);
    assert c.RootAt(rhs);
    DivisionUnique(rhs, c.p, 0, rhs);
    RootIsRoot(c, rhs, bit);
  }

  /** Lifting the abscissa of a point, with the parity of its ordinate, gives the point back. */
  lemma LiftFinds(c: Curve, a: Point, x: nat)
    requires c.Valid() && c.On(a) && a.Affine? && x % c.p == a.x
    ensures Lift(c, x, a.y % 2) == Some(a)
  {
    var rhs := c.Rhs(a.x);
    assert c.RootAt(rhs);
    DivisionUnique(rhs, c.p, 0, rhs);
    RootFinds(c, rhs, a.y);
  }

  // ----- Octets ---------------------------------------------------------------------------

  /** The compressed form; the identity is the single octet zero. */
  function Encode(a: Point): seq<Byte> {
    match a
    case Infinity => [0]
    case Affine(x, y) => [2 + y % 2] + BigEndian(x, FIELD_BYTES)
  }

  /** `EC_POINT_oct2point`: identity, compressed, uncompressed and hybrid forms. */
  function DecodePoint(c: Curve, bytes: seq<Byte>): Option<Point>
    requires c.p > 0
  {
    if bytes == [] then None
    else if bytes == [0] then Some(Infinity)
    else if 2 <= bytes[0] <= 3 && |bytes| == 1 + FIELD_BYTES then
      var x := FromBigEndian(bytes[1..]);
      if x < c.p then Lift(c, x, bytes[0] - 2) else None
    else if (bytes[0] == 4 || 6 <= bytes[0] <= 7) && |bytes| == 1 + 2 * FIELD_BYTES then
      var a := Affine(FromBigEndian(bytes[1..1 + FIELD_BYTES]), FromBigEndian(bytes[1 + FIELD_BYTES..]));
      if a.x < c.p && a.y < c.p && c.On(a) && (bytes[0] == 4 || a.y % 2 == bytes[0] - 6) then Some(a)
      else None
    else None
  }

  /** A coordinate is read back from its 32 bytes. */
  lemma ReadCoordinate(x: nat)
    requires Fits(x)
    ensures FromBigEndian(BigEndian(x, FIELD_BYTES)) == x
  {
    assert Pow256(8) == 0x1_0000000000000000;
    assert Pow256(16) == 0x1_0000000000000000_0000000000000000;
    assert Pow256(24) == 0x1_0000000000000000_0000000000000000_0000000000000000;
    assert Pow256(32) == FIELD_LIMIT;
    ReadBigEndian(x, FIELD_BYTES);
  }

  lemma CoordinateFits(c: Curve, x: nat)
    requires c.Field() && x < c.p
    ensures Fits(x)
  {
    hide Fits;
  }

  lemma DecodeCompressed(c: Curve, coordinate: seq<Byte>, bit: nat)
    requires c.p > 0 && |coordinate| == FIELD_BYTES && FromBigEndian(coordinate) < c.p && bit < 2
    ensures DecodePoint(c, [2 + bit] + coordinate) == Lift(c, FromBigEndian(coordinate), bit)
  {
    hide Lift, Curve.On, FromBigEndian;
    assert ([2 + bit] + coordinate)[1..] == coordinate;
  }

  /** Decoding undoes encoding, for every point of the curve. */
  lemma DecodeEncoded(c: Curve, a: Point)
    requires c.Valid() && c.On(a)
    ensures DecodePoint(c, Encode(a)) == Some(a)
  {
    hide Fits;
    if a.Affine? {
      CoordinateFits(c, a.x);
      ReadCoordinate(a.x);
      DivisionUnique(a.x, c.p, 0, a.x);
      LiftFinds(c, a, a.x);
      DecodeCompressed(c, BigEndian(a.x, FIELD_BYTES), a.y % 2);
      hide Lift, DecodePoint, BigEndian, FromBigEndian, Curve.Valid, Curve.On;
    }
  }

  /** The uncompressed form, or with another first octet the hybrid one. */
  function LongForm(first: Byte, a: Point): (bytes: seq<Byte>)
    requires a.Affine?
    ensures |bytes| == 1 + 2 * FIELD_BYTES
  {
    [first] + BigEndian(a.x, FIELD_BYTES) + BigEndian(a.y, FIELD_BYTES)
  }

  /** The long forms are read back as well. */
  lemma DecodeLongForms(c: Curve, a: Point)
    requires c.Valid() && c.On(a) && a.Affine?
    ensures DecodePoint(c, LongForm(4, a)) == Some(a)
    ensures DecodePoint(c, LongForm(6 + a.y % 2, a)) == Some(a)
  {
    CoordinatesRead(c, a);
    DecodeCoordinates(c, 4, BigEndian(a.x, FIELD_BYTES), BigEndian(a.y, FIELD_BYTES));
    DecodeCoordinates(c, 6 + a.y % 2, BigEndian(a.x, FIELD_BYTES), BigEndian(a.y, FIELD_BYTES));
  }

  lemma CoordinatesRead(c: Curve, a: Point)
    requires c.Valid() && c.On(a) && a.Affine?
    ensures FromBigEndian(BigEndian(a.x, FIELD_BYTES)) == a.x
    ensures FromBigEndian(BigEndian(a.y, FIELD_BYTES)) == a.y
  {
    hide Fits;
    CoordinateFits(c, a.x);
    CoordinateFits(c, a.y);
    ReadCoordinate(a.x);
    ReadCoordinate(a.y);
  }

  lemma DecodeCoordinates(c: Curve, first: Byte, x: seq<Byte>, y: seq<Byte>)
    requires c.p > 0 && |x| == |y| == FIELD_BYTES
    requires var a := Affine(FromBigEndian(x), FromBigEndian(y));
             a.x < c.p && a.y < c.p && c.On(a) && (first == 4 || first == 6 + a.y % 2)
    ensures DecodePoint(c, [first] + x + y) == Some(Affine(FromBigEndian(x), FromBigEndian(y)))
  {
    hide FromBigEndian, Curve.On;
    var bytes := [first] + x + y;
    assert bytes[1..1 + FIELD_BYTES] == x && bytes[1 + FIELD_BYTES..] == y;
  }

  /** What is decoded lies on the curve; and encoding gives the octets back exactly when they
      were in compressed form, which their number tells. */
  lemma EncodeDecoded(c: Curve, bytes: seq<Byte>)
    requires c.Valid() && DecodePoint(c, bytes).Some?
    ensures c.On(DecodePoint(c, bytes).value)
    ensures Encode(DecodePoint(c, bytes).value) == bytes <==> |bytes| <= 1 + FIELD_BYTES
  {
    if |bytes| == 1 + FIELD_BYTES {
      var x := FromBigEndian(bytes[1..]);
      LiftOn(c, x, bytes[0] - 2);
      DivisionUnique(x, c.p, 0, x);
      WriteBigEndian(bytes[1..]);
      assert bytes == [bytes[0]] + bytes[1..];
    }
  }

  /** The octets that spell a point are its compressed, uncompressed and hybrid form, and no others. */
  lemma DecodeExactly(c: Curve, bytes: seq<Byte>, a: Point)
    requires c.Valid()
    ensures DecodePoint(c, bytes) == Some(a) <==>
              c.On(a) &&
              (bytes == Encode(a) || (a.Affine? && (bytes == LongForm(4, a) || bytes == LongForm(6 + a.y % 2, a))))
  {
    hide LongForm, Encode, DecodePoint, Curve.Valid, Curve.On;
    Positive(c);
    if c.On(a) {
      DecodeEncoded(c, a);
      if a.Affine? {
        DecodeLongForms(c, a);
      }
    }
    if DecodePoint(c, bytes) == Some(a) {
      EncodeDecoded(c, bytes);
      if |bytes| > 1 + FIELD_BYTES {
        DecodedLong(c, bytes);
      }
    }
  }

  lemma DecodedLong(c: Curve, bytes: seq<Byte>)
    requires c.Valid() && DecodePoint(c, bytes).Some? && |bytes| > 1 + FIELD_BYTES
    ensures var a := DecodePoint(c, bytes).value;
            a.Affine? && (bytes == LongForm(4, a) || bytes == LongForm(6 + a.y % 2, a))
  {
    hide BigEndian, FromBigEndian, Curve.Valid, Curve.On;
    var x, y := bytes[1..1 + FIELD_BYTES], bytes[1 + FIELD_BYTES..];
    WriteBigEndian(x);
    WriteBigEndian(y);
    assert bytes == [bytes[0]] + x + y;
  }

  /** No encoding is the beginning of another, so encodings can be strung together. */
  lemma EncodePrefixFree(c: Curve, a: Point, b: Point, r: seq<Byte>, t: seq<Byte>)
    requires c.Valid() && c.On(a) && c.On(b)
    requires Encode(a) + r == Encode(b) + t
    ensures a == b && r == t
  {
    var s := Encode(a) + r;
    assert s[0] == Encode(a)[0] == Encode(b)[0];
    assert |Encode(a)| == |Encode(b)|;
    var n := |Encode(a)|;
    assert s[..n] == Encode(a) && (Encode(b) + t)[..n] == Encode(b);
    assert s[n..] == r && (Encode(b) + t)[n..] == t;
    DecodeEncoded(c, a);
    DecodeEncoded(c, b);
  }

  // ----- Hexadecimal strings --------------------------------------------------------------

  /** `EC_POINT_point2hex` in compressed form. */
  function PointHex(a: Point): string {
    EncodeUpper(Encode(a))
  }

  /** `EC_POINT_hex2point` on pairs of digits. */
  function HexPoint(c: Curve, s: string): Option<Point>
    requires c.p > 0
  {
    if IsHex(s) && |s| % 2 == 0 then DecodePoint(c, Decode(s)) else None
  }

  lemma PointHexShape(a: Point)
    ensures IsHex(PointHex(a)) && |PointHex(a)| % 2 == 0
    ensures Decode(PointHex(a)) == Encode(a) && StringBytes(PointHex(a)) == Encode(a)
  {
    DecodeEncodeUpper(Encode(a));
    StringBytesIsDecode(PointHex(a));
  }

  lemma HexPointOfPointHex(c: Curve, a: Point)
    requires c.Valid() && c.On(a)
    ensures HexPoint(c, PointHex(a)) == Some(a)
  {
    PointHexShape(a);
    DecodeEncoded(c, a);
  }

  /** A point read from a string of at most 66 digits was spelled in compressed form: the bytes
      of the string, in whatever case, are the ones the point is encoded by. Longer spellings
      never are. */
  lemma HexPointBytes(c: Curve, s: string)
    requires c.Valid() && HexPoint(c, s).Some?
    ensures c.On(HexPoint(c, s).value)
    ensures StringBytes(s) == Encode(HexPoint(c, s).value) <==> |s| <= 66
  {
    EncodeDecoded(c, Decode(s));
    DecodeAt(s, 0);
    StringBytesIsDecode(s);
  }

  /** The strings that spell a point: the digits, in either case, of its three forms, and no others. */
  lemma HexPointExactly(c: Curve, s: string, a: Point)
    requires c.Valid()
    ensures HexPoint(c, s) == Some(a) <==>
              IsHex(s) && c.On(a) &&
              (ToLower(s) == EncodeLower(Encode(a)) ||
               (a.Affine? && (ToLower(s) == EncodeLower(LongForm(4, a)) || ToLower(s) == EncodeLower(LongForm(6 + a.y % 2, a)))))
  {
    hide Decode, Encode, LongForm, DecodePoint, ToLower, EncodeLower, Curve.Valid, Curve.On;
    Positive(c);
    EvenLength(s, Encode(a));
    if a.Affine? {
      EvenLength(s, LongForm(4, a));
      EvenLength(s, LongForm(6 + a.y % 2, a));
    }
    if IsHex(s) && |s| % 2 == 0 {
      DecodeExactly(c, Decode(s), a);
      DecodesTo(s, Encode(a));
      if a.Affine? {
        DecodesTo(s, LongForm(4, a));
        DecodesTo(s, LongForm(6 + a.y % 2, a));
      }
    }
  }

  lemma EvenLength(s: string, bytes: seq<Byte>)
    ensures ToLower(s) == EncodeLower(bytes) ==> |s| % 2 == 0
  {
    DecodeEncodeLower(bytes);
  }
}
