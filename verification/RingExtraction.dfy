/** What an accepted signature proves about the key: the transcript determines what was
    committed to, two answers to one commitment give the secret away, and a key has one image. */
module RingExtraction {
  import opened Hex
  import opened Arith
  import opened Curves
  import opened PointEncoding
  import opened Ring
  import opened RingProperties

  // ----- Transcripts ----------------------------------------------------------------------

  lemma StringBytesOfThree(a: string, b: string, d: string)
    requires |a| % 2 == 0 && |b| % 2 == 0
    ensures StringBytes(a + b + d) == StringBytes(a) + (StringBytes(b) + StringBytes(d))
  {
    hide StringBytes;
    StringBytesConcat(a + b, d);
    StringBytesConcat(a, b);
  }

  lemma TranscriptParts(hash: string, R: Point, R2: Point)
    requires |hash| % 2 == 0
    ensures Transcript(hash, R, R2) == StringBytes(hash) + (Encode(R) + Encode(R2))
  {
    hide Encode, PointHex, StringBytes, IsHex;
    PointHexShape(R);
    PointHexShape(R2);
    StringBytesOfThree(hash, PointHex(R), PointHex(R2));
  }

  /** The encodings of two points, strung together, tell both points. */
  lemma PairInjective(c: Curve, R: Point, R2: Point, S: Point, S2: Point)
    requires c.Valid() && c.On(R) && c.On(R2) && c.On(S) && c.On(S2)
    ensures Encode(R) + Encode(R2) == Encode(S) + Encode(S2) <==> R == S && R2 == S2
  {
    hide Encode, Curve.On, Curve.Valid;
    if Encode(R) + Encode(R2) == Encode(S) + Encode(S2) {
      EncodePrefixFree(c, R, S, Encode(R2), Encode(S2));
      assert Encode(R2) + [] == Encode(S2) + [];
      EncodePrefixFree(c, R2, S2, [], []);
    }
  }

  /** For one message hash of an even number of characters, digits or not, the hashed bytes tell
      both points. */
  lemma TranscriptTellsPoints(c: Curve, hash: string, R: Point, R2: Point, S: Point, S2: Point)
    requires c.Valid() && c.On(R) && c.On(R2) && c.On(S) && c.On(S2) && |hash| % 2 == 0
    ensures Transcript(hash, R, R2) == Transcript(hash, S, S2) <==> R == S && R2 == S2
  {
    hide Encode, Transcript, StringBytes, Curve.On, Curve.Valid;
    TranscriptParts(hash, R, R2);
    TranscriptParts(hash, S, S2);
    PairInjective(c, R, R2, S, S2);
    var n, a, b := |StringBytes(hash)|, Transcript(hash, R, R2), Transcript(hash, S, S2);
    assert a[n..] == Encode(R) + Encode(R2) && b[n..] == Encode(S) + Encode(S2);
  }

  /** The hashed bytes tell the message hash, up to the case of its letters, and both points
      apart from all others, the identity included. */
  lemma TranscriptInjective(c: Curve, M: string, R: Point, R2: Point, M': string, S: Point, S2: Point)
    requires c.Valid() && c.On(R) && c.On(R2) && c.On(S) && c.On(S2)
    requires IsHex(M) && |M| == 64 && IsHex(M') && |M'| == 64
    ensures Transcript(M, R, R2) == Transcript(M', S, S2) <==> ToLower(M) == ToLower(M') && R == S && R2 == S2
  {
    hide Encode, Transcript, Decode, StringBytes, Curve.On, Curve.Valid;
    TranscriptParts(M, R, R2);
    TranscriptParts(M', S, S2);
    StringBytesIsDecode(M);
    StringBytesIsDecode(M');
    DecodeIgnoresCaseOnly(M, M');
    DecodeAt(M, 0);
    DecodeAt(M', 0);
    PairInjective(c, R, R2, S, S2);
    var a, b := Transcript(M, R, R2), Transcript(M', S, S2);
    assert a[..32] == Decode(M) && b[..32] == Decode(M');
    assert a[32..] == Encode(R) + Encode(R2) && b[32..] == Encode(S) + Encode(S2);
  }

  // ----- Extraction -----------------------------------------------------------------------

  lemma CombineOn(c: Curve, s: int, A: Point, e: int, B: Point)
    requires c.Group() && c.On(A) && c.On(B)
    ensures c.On(Combine(c, s, A, e, B))
  {
    MulOn(c, s, A);
    MulOn(c, e, B);
    Closed(c, c.Mul(s, A), c.Mul(e, B));
  }

  /** Equal combinations: what one multiple gained the other lost. */
  lemma Balance(c: Curve, A: Point, B: Point, s: int, e: int, t: int, f: int)
    requires c.Group() && c.On(A) && c.On(B)
    requires Combine(c, s, A, e, B) == Combine(c, t, A, f, B)
    ensures c.Mul(s - t, A) == c.Mul(f - e, B)
  {
    var X, Y := c.Mul(s - t, A), c.Mul(f - e, B);
    var tA, eB := c.Mul(t, A), c.Mul(e, B);
    MulAdd(c, s - t, t, A);
    MulAdd(c, f - e, e, B);
    MulOn(c, s - t, A);
    MulOn(c, f - e, B);
    MulOn(c, t, A);
    MulOn(c, e, B);
    hide Curve.On, Curve.Mul;
    Closed(c, tA, eB);
    Associative(c, X, tA, eB);
    Associative(c, tA, Y, eB);
    Commutative(c, tA, Y);
    Associative(c, Y, tA, eB);
    Cancel(c, X, Y, c.add(tA, eB));
  }

  lemma Divide(c: Curve, A: Point, B: Point, d: int, r: int, u: int)
    requires c.Group() && c.On(A) && c.On(B)
    requires c.Mul(r, A) == c.Mul(d, B) && Cong(u * d, 1, c.q)
    ensures B == c.Mul(u * r % c.q, A)
  {
    MulMul(c, u, d, B);
    MulMul(c, u, r, A);
    MulCong(c, u * d, 1, B);
    MulNext(c, 0, B);
    Neutral(c, B);
    CongRest(u * r, c.q);
    MulCong(c, u * r, u * r % c.q, A);
  }

  /** Two answers to the same commitments with challenges that differ modulo the order: there is
      one scalar, the quotient of the differences, that makes both the key and the image. */
  lemma Extract(c: Curve, P: Point, I: Point, H: Point, s: int, e: int, t: int, f: int) returns (x: int)
    requires c.Valid() && c.On(P) && c.On(I) && c.On(H)
    requires Combine(c, s, c.gen, e, P) == Combine(c, t, c.gen, f, P)
    requires Combine(c, s, H, e, I) == Combine(c, t, H, f, I)
    requires !Cong(e, f, c.q)
    ensures 0 <= x < c.q && Cong(x * (f - e), s - t, c.q)
    ensures P == c.Mul(x, c.gen) && I == c.Mul(x, H)
    ensures forall y :: P == c.Mul(y, c.gen) ==> Cong(x, y, c.q)
  {
    hide Curve.Valid, Curve.Group, Curve.On, Curve.Mul, Combine;
    Positive(c);
    GeneratorIsOn(c);
    CongIffSameRest(e, f, c.q);
    CongIffSameRest(f, e, c.q);
    var d, r := f - e, s - t;
    var u := InverseExists(d, c.q);
    x := u * r % c.q;
    Balance(c, c.gen, P, s, e, t, f);
    Balance(c, H, I, s, e, t, f);
    Divide(c, c.gen, P, d, r, u);
    Divide(c, H, I, d, r, u);
    QuotientIs(u, d, r, c.q);
    forall y | P == c.Mul(y, c.gen) ensures Cong(x, y, c.q) {
      MulInjective(c, x, y, c.gen);
    }
  }

  lemma QuotientIs(u: int, d: int, r: int, q: int)
    requires q > 0 && Cong(u * d, 1, q)
    ensures Cong(u * r % q * d, r, q)
  {
    CongRest(u * r, q);
    CongMul(u * r % q, u * r, d, q);
    CongMul(u * d, 1, r, q);
    assert u * r * d == u * d * r;
    CongTrans(u * r % q * d, u * r * d, r, q);
  }

  /** The transcript that response `s` and challenge `e` lead to at slot `k`. */
  ghost function TranscriptAt(c: Curve, g: Setting, k: nat, s: int, e: int): seq<Byte>
    requires c.Valid() && Proper(c, g) && k < |g.keys|
  {
    var P := g.keys[k];
    Transcript(g.hash, Combine(c, s, c.gen, e, P), Combine(c, s, Hp(c, Encode(P)), e, g.image))
  }

  /** Two runs around the same ring that put the same bytes into the hash after slot `k`, but
      came to that slot with different challenges, reveal the secret of slot `k`. */
  lemma ForkRevealsSecret(c: Curve, g: Setting, k: nat, s: seq<int>, e0: int, t: seq<int>, f0: int) returns (x: int)
    requires c.Valid() && Proper(c, g) && k < |g.keys| == |s| == |t|
    requires |g.hash| % 2 == 0
    requires !Cong(Walk(c, g, s, 0, e0, k), Walk(c, g, t, 0, f0, k), c.q)
    requires TranscriptAt(c, g, k, s[k], Walk(c, g, s, 0, e0, k)) == TranscriptAt(c, g, k, t[k], Walk(c, g, t, 0, f0, k))
    ensures 0 <= x < c.q && Owns(c, g, k, x)
    ensures Cong(x * (Walk(c, g, t, 0, f0, k) - Walk(c, g, s, 0, e0, k)), s[k] - t[k], c.q)
  {
    hide Walk, Link, Transcript, Combine, Cong, Curve.Valid, Curve.Group, Curve.On;
    GeneratorIsOn(c);
    var e, f := Walk(c, g, s, 0, e0, k), Walk(c, g, t, 0, f0, k);
    var P, I, H := g.keys[k], g.image, Hp(c, Encode(g.keys[k]));
    CombineOn(c, s[k], c.gen, e, P);
    CombineOn(c, s[k], H, e, I);
    CombineOn(c, t[k], c.gen, f, P);
    CombineOn(c, t[k], H, f, I);
    TranscriptTellsPoints(c, g.hash, Combine(c, s[k], c.gen, e, P), Combine(c, s[k], H, e, I),
                          Combine(c, t[k], c.gen, f, P), Combine(c, t[k], H, f, I));
    x := Extract(c, P, I, H, s[k], e, t[k], f);
  }

  // ----- Linking --------------------------------------------------------------------------

  /** A key has one image: whoever owns the same key in two rings shows the same key image. */
  lemma OneImagePerKey(c: Curve, g: Setting, j: nat, x: int, g': Setting, j': nat, x': int)
    requires c.Valid() && Proper(c, g) && Proper(c, g') && j < |g.keys| && j' < |g'.keys|
    requires Owns(c, g, j, x) && Owns(c, g', j', x')
    requires g.keys[j] == g'.keys[j']
    ensures g.image == g'.image
  {
    hide Curve.Valid, Curve.Group, Curve.On, Curve.Mul, Hp, Cong;
    Positive(c);
    GeneratorIsOn(c);
    MulInjective(c, x, x', c.gen);
    MulCong(c, x, x', Hp(c, Encode(g.keys[j])));
  }
}
