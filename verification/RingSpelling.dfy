/** What happens when the signer's key is not spelled in compressed form: `sign` hashes the bytes
    of the spelling, `verify` those of the compressed form. */
module RingSpelling {
  import opened Options
  import opened Hex
  import opened BigNum
  import opened Arith
  import opened Curves
  import opened PointEncoding
  import opened Ring
  import opened RingProperties
  import opened RingInvariance
  import opened RingExtraction
  import opened RingBinding

  predicate AllAffine(g: Setting) {
    forall i :: 0 <= i < |g.keys| ==> g.keys[i].Affine?
  }

  // ----- One slot, two challenges ---------------------------------------------------------

  /** Two challenges of one slot lead to the same commitments exactly when they count the same. */
  lemma TranscriptTellsChallenge(c: Curve, g: Setting, k: nat, s: int, e: int, f: int)
    requires c.Valid() && Proper(c, g) && k < |g.keys| && g.keys[k].Affine? && |g.hash| % 2 == 0
    ensures TranscriptAt(c, g, k, s, e) == TranscriptAt(c, g, k, s, f) <==> Cong(e, f, c.q)
  {
    hide Transcript, Combine, Cong, Curve.Valid, Curve.Group, Curve.On;
    Positive(c);
    GeneratorIsOn(c);
    var P := g.keys[k];
    var H := Hp(c, Encode(P));
    CombineOn(c, s, c.gen, e, P);
    CombineOn(c, s, H, e, g.image);
    CombineOn(c, s, c.gen, f, P);
    CombineOn(c, s, H, f, g.image);
    TranscriptTellsPoints(c, g.hash, Combine(c, s, c.gen, e, P), Combine(c, s, H, e, g.image),
                          Combine(c, s, c.gen, f, P), Combine(c, s, H, f, g.image));
    if Cong(e, f, c.q) {
      SelfCong(c, s);
      CombineCong(c, s, s, c.gen, e, f, P);
      CombineCong(c, s, s, H, e, f, g.image);
    } else {
      ChallengeChangesPoint(c, P, s, e, f);
    }
  }

  lemma ChallengeChangesPoint(c: Curve, P: Point, s: int, e: int, f: int)
    requires c.Valid() && c.On(P) && P.Affine? && !Cong(e, f, c.q)
    ensures Combine(c, s, c.gen, e, P) != Combine(c, s, c.gen, f, P)
  {
    hide Curve.Valid, Curve.Group, Curve.On, Curve.Mul;
    GeneratorIsOn(c);
    var S, E, F := c.Mul(s, c.gen), c.Mul(e, P), c.Mul(f, P);
    MulOn(c, s, c.gen);
    MulOn(c, e, P);
    MulOn(c, f, P);
    if c.add(S, E) == c.add(S, F) {
      Commutative(c, S, E);
      Commutative(c, S, F);
      Cancel(c, E, F, S);
      MulInjective(c, e, f, P);
    }
  }

  // ----- Two walks ------------------------------------------------------------------------

  /** The transcript of link `m` of a walk. */
  ghost function TranscriptAlong(c: Curve, g: Setting, s: seq<int>, from: nat, e: int, m: nat): seq<Byte>
    requires c.Valid() && Proper(c, g) && |s| == |g.keys|
  {
    var slot := Slot(from, m, |s|);
    TranscriptAt(c, g, slot, s[slot], Walk(c, g, s, from, e, m))
  }

  /** At link `m` the walks that started with `e` and `f` show different transcripts that are
      hashed to the same challenge. */
  ghost predicate MeetAt(c: Curve, g: Setting, s: seq<int>, from: nat, e: int, f: int, m: nat, last: bool)
    requires c.Valid() && Proper(c, g) && |s| == |g.keys|
  {
    Coincide(c, TranscriptAlong(c, g, s, from, e, m), TranscriptAlong(c, g, s, from, f, m), last)
  }

  /** Among the first `k` links only the last may have to be exact. */
  ghost predicate MeetWithin(c: Curve, g: Setting, s: seq<int>, from: nat, e: int, f: int, m: nat, k: nat, last: bool)
    requires c.Valid() && Proper(c, g) && |s| == |g.keys|
  {
    m < k && MeetAt(c, g, s, from, e, f, m, last && m + 1 == k)
  }

  /** The walks meet at one of their first `k` links. */
  ghost predicate Meet(c: Curve, g: Setting, s: seq<int>, from: nat, e: int, f: int, k: nat, last: bool)
    requires c.Valid() && Proper(c, g) && |s| == |g.keys|
  {
    exists m: nat :: MeetWithin(c, g, s, from, e, f, m, k, last)
  }

  lemma WalkStart(c: Curve, g: Setting, s: seq<int>, from: nat, e: int)
    requires c.Valid() && Proper(c, g) && |s| == |g.keys|
    ensures Walk(c, g, s, from, e, 0) == e
  {
  }

  /** Every link of a walk is the hash of its transcript. */
  lemma WalkStep(c: Curve, g: Setting, s: seq<int>, from: nat, e: int, m: nat)
    requires c.Valid() && Proper(c, g) && |s| == |g.keys|
    ensures Walk(c, g, s, from, e, m + 1) == Hex2Bn(c.sha3(TranscriptAlong(c, g, s, from, e, m)))
  {
    hide Slot, Transcript, Combine, Hex2Bn, Curve.Valid, Curve.On;
  }

  lemma SameIfEqual(c: Curve, e: int, f: int, last: bool)
    requires c.Valid() && e == f
    ensures Same(c, e, f, last)
  {
    SelfCong(c, e);
  }

  /** After link `m` the walks agree exactly when they did before it or meet at it. */
  lemma NextAgreesIff(c: Curve, g: Setting, s: seq<int>, from: nat, e: int, f: int, m: nat, last: bool)
    requires c.Valid() && Proper(c, g) && |s| == |g.keys| && AllAffine(g) && |g.hash| % 2 == 0
    ensures Same(c, Walk(c, g, s, from, e, m + 1), Walk(c, g, s, from, f, m + 1), last)
       <==> Same(c, Walk(c, g, s, from, e, m), Walk(c, g, s, from, f, m), false)
            || MeetAt(c, g, s, from, e, f, m, last)
  {
    hide Walk, Slot, TranscriptAt, Cong, Hex2Bn, Curve.Valid, Curve.On;
    Positive(c);
    WalkStep(c, g, s, from, e, m);
    WalkStep(c, g, s, from, f, m);
    var slot := Slot(from, m, |s|);
    TranscriptTellsChallenge(c, g, slot, s[slot], Walk(c, g, s, from, e, m), Walk(c, g, s, from, f, m));
    if TranscriptAlong(c, g, s, from, e, m) == TranscriptAlong(c, g, s, from, f, m) {
      SameIfEqual(c, Walk(c, g, s, from, e, m + 1), Walk(c, g, s, from, f, m + 1), last);
    }
  }

  lemma MeetNext(c: Curve, g: Setting, s: seq<int>, from: nat, e: int, f: int, k: nat, last: bool)
    requires c.Valid() && Proper(c, g) && |s| == |g.keys|
    ensures Meet(c, g, s, from, e, f, k + 1, last)
       <==> Meet(c, g, s, from, e, f, k, false) || MeetAt(c, g, s, from, e, f, k, last)
  {
    hide MeetAt, Proper, Curve.Valid;
    if Meet(c, g, s, from, e, f, k, false) {
      var m: nat :| MeetWithin(c, g, s, from, e, f, m, k, false);
      assert MeetWithin(c, g, s, from, e, f, m, k + 1, last);
    }
    if MeetAt(c, g, s, from, e, f, k, last) {
      assert MeetWithin(c, g, s, from, e, f, k, k + 1, last);
    }
    if Meet(c, g, s, from, e, f, k + 1, last) {
      var m: nat :| MeetWithin(c, g, s, from, e, f, m, k + 1, last);
      assert m < k ==> MeetWithin(c, g, s, from, e, f, m, k, false);
    }
  }

  /** Two walks with the same responses end alike exactly when they start alike or meet at a link
      on the way: once they agree modulo the order they never part again. */
  lemma {:induction false} WalksAgreeIff(c: Curve, g: Setting, s: seq<int>, from: nat, e: int, f: int, k: nat, last: bool)
    requires c.Valid() && Proper(c, g) && |s| == |g.keys| && AllAffine(g) && |g.hash| % 2 == 0
    ensures Same(c, Walk(c, g, s, from, e, k), Walk(c, g, s, from, f, k), last)
       <==> Same(c, e, f, last && k == 0) || Meet(c, g, s, from, e, f, k, last)
    decreases k
  {
    hide Walk, MeetAt, Same, Proper, Curve.Valid, Curve.On;
    Positive(c);
    if k == 0 {
      WalkStart(c, g, s, from, e);
      WalkStart(c, g, s, from, f);
    } else {
      hide Meet;
      WalksAgreeIff(c, g, s, from, e, f, k - 1, false);
      NextAgreesIff(c, g, s, from, e, f, k - 1, last);
      MeetNext(c, g, s, from, e, f, k - 1, last);
    }
  }

  // ----- Two hash points ------------------------------------------------------------------

  /** The bytes behind the challenge of the slot after the signer's. */
  ghost function FirstTranscript(c: Curve, hash: string, alpha: int, H: Point): seq<Byte>
    requires c.Valid() && c.On(H)
  {
    Transcript(hash, c.Mul(alpha, c.gen), c.Mul(alpha, H))
  }

  lemma MulTellsPoint(c: Curve, alpha: int, A: Point, B: Point)
    requires c.Group() && c.On(A) && c.On(B) && 0 < alpha < c.q
    requires c.Mul(alpha, A) == c.Mul(alpha, B)
    ensures A == B
  {
    DivisionUnique(alpha, c.q, 0, alpha);
    var u := InverseExists(alpha, c.q);
    Divide(c, A, A, alpha, alpha, u);
    Divide(c, A, B, alpha, alpha, u);
  }

  /** The first transcripts made with two hash points differ exactly when the points do, unless
      `alpha` is zero. */
  lemma FirstTranscriptTells(c: Curve, hash: string, alpha: int, A: Point, B: Point)
    requires c.Valid() && c.On(A) && c.On(B) && |hash| % 2 == 0 && 0 <= alpha < c.q
    ensures FirstTranscript(c, hash, alpha, A) == FirstTranscript(c, hash, alpha, B) <==> A == B || alpha == 0
  {
    hide Transcript, Curve.Valid, Curve.Group, Curve.On;
    GeneratorIsOn(c);
    MulOn(c, alpha, c.gen);
    MulOn(c, alpha, A);
    MulOn(c, alpha, B);
    TranscriptTellsPoints(c, hash, c.Mul(alpha, c.gen), c.Mul(alpha, A), c.Mul(alpha, c.gen), c.Mul(alpha, B));
    if alpha > 0 && c.Mul(alpha, A) == c.Mul(alpha, B) {
      MulTellsPoint(c, alpha, A, B);
    }
  }

  /** The hash function hides the difference between `H` and the hash point that `verify` uses:
      at the first transcript, or at a link between the signer's slot and slot 0. */
  ghost predicate Coincidence(c: Curve, g: Setting, j: nat, H: Point, alpha: int, s: seq<int>)
    requires c.Valid() && Proper(c, g) && c.On(H) && j < |g.keys| == |s|
  {
    var H', k := Hp(c, Encode(g.keys[j])), |s| - 1 - j;
    || Coincide(c, FirstTranscript(c, g.hash, alpha, H'), FirstTranscript(c, g.hash, alpha, H), k == 0)
    || Meet(c, g, s, j + 1, FirstChallenge(c, g.hash, alpha, H'), FirstChallenge(c, g.hash, alpha, H), k, true)
  }

  lemma FirstAgreesIff(c: Curve, hash: string, alpha: int, A: Point, B: Point, last: bool)
    requires c.Valid() && c.On(A) && c.On(B) && |hash| % 2 == 0 && 0 <= alpha < c.q
    ensures Same(c, FirstChallenge(c, hash, alpha, A), FirstChallenge(c, hash, alpha, B), last)
       <==> A == B || alpha == 0
            || Coincide(c, FirstTranscript(c, hash, alpha, A), FirstTranscript(c, hash, alpha, B), last)
  {
    hide Same, Transcript, Hex2Bn, Curve.Valid, Curve.On;
    FirstTranscriptTells(c, hash, alpha, A, B);
    if FirstTranscript(c, hash, alpha, A) == FirstTranscript(c, hash, alpha, B) {
      SameIfEqual(c, FirstChallenge(c, hash, alpha, A), FirstChallenge(c, hash, alpha, B), last);
    }
  }

  /** Hash points make no difference to the walk exactly when they are equal, `alpha` is zero, or
      the hash function coincides on a named pair of transcripts. */
  lemma SameWalkIff(c: Curve, g: Setting, j: nat, H: Point, alpha: int, s: seq<int>)
    requires c.Valid() && Proper(c, g) && AllAffine(g) && |g.hash| % 2 == 0
    requires c.On(H) && j < |g.keys| == |s| && 0 <= alpha < c.q
    ensures SameWalk(c, g, j, H, alpha, s)
       <==> H == Hp(c, Encode(g.keys[j])) || alpha == 0 || Coincidence(c, g, j, H, alpha, s)
  {
    hide Walk, Meet, Coincide, FirstTranscript, FirstChallenge, Cong, Hp, AllAffine, Curve.Valid, Curve.On;
    Positive(c);
    var H', k := Hp(c, Encode(g.keys[j])), |s| - 1 - j;
    FirstAgreesIff(c, g.hash, alpha, H', H, k == 0);
    WalksAgreeIff(c, g, s, j + 1, FirstChallenge(c, g.hash, alpha, H'), FirstChallenge(c, g.hash, alpha, H), k, true);
  }

  // ----- The exact condition --------------------------------------------------------------

  /** The bytes that the signer's key is spelled by hash to the same point as its compressed form. */
  ghost predicate SameHashPoint(c: Curve, realOutput: string)
    requires c.Valid() && SpellsPoint(c, realOutput)
  {
    Hp(c, StringBytes(realOutput)) == Hp(c, Encode(HexPoint(c, realOutput).value))
  }

  /** `verify` accepts what `sign` returns exactly when the signer's key is spelled by at most 66
      digits, which means in compressed form, or the longer spelling happens to hash to the same
      point, or `alpha` is zero, or the hash function coincides on two different transcripts of
      the same place in the ring. */
  lemma SignedVerifiesIffCompressed(c: Curve, hash: string, outputs: seq<string>, realOutput: string, x: int,
                                    keyImage: string, alpha: int, rand: seq<int>)
    requires c.Valid() && IsSigner(c, hash, outputs, realOutput, x, keyImage) && |hash| % 2 == 0
    requires Randomness(c, |outputs|, alpha, rand)
    ensures var g, j := ReadSetting(c, hash, outputs, keyImage), Find(outputs, realOutput);
            var signed := Signed(c, hash, outputs, realOutput, x, keyImage, alpha, rand);
            && signed.Returned?
            && Verdict(c, hash, signed.value, outputs, keyImage) == Returned(
                 || |realOutput| <= 66
                 || SameHashPoint(c, realOutput)
                 || alpha == 0
                 || Coincidence(c, g, j, Hp(c, StringBytes(realOutput)), alpha, rand))
  {
    hide Signature, Verdict, Canonical, Walk, Coincidence, SameWalk, FirstChallenge, Owns, HexPoint, Hp;
    hide Curve.Valid, Curve.On;
    Positive(c);
    var g := ReadSetting(c, hash, outputs, keyImage);
    var j, H := Find(outputs, realOutput), Hp(c, StringBytes(realOutput));
    if |realOutput| <= 66 {
      SignerHashPoint(c, hash, outputs, realOutput, x, keyImage);
    }
    SignedVerifiesIff(c, hash, outputs, realOutput, x, keyImage, alpha, rand);
    SameWalkIff(c, g, j, H, alpha, rand);
  }

  // ----- The failing family ---------------------------------------------------------------

  /** The uncompressed spelling of a point. */
  function LongHex(a: Point): string
    requires a.Affine?
  {
    EncodeUpper(LongForm(4, a))
  }

  lemma LongHexSpells(c: Curve, a: Point)
    requires c.Valid() && c.On(a) && a.Affine?
    ensures HexPoint(c, LongHex(a)) == Some(a) && |LongHex(a)| == 130 && StringBytes(LongHex(a)) == LongForm(4, a)
  {
    hide EncodeUpper, Decode, LongForm, DecodePoint, StringBytes, Curve.Valid, Curve.On;
    DecodeEncodeUpper(LongForm(4, a));
    DecodeLongForms(c, a);
    StringBytesIsDecode(LongHex(a));
  }

  /** The key and the key image that belong to a secret. */
  ghost function KeyOf(c: Curve, x: int): Point {
    c.Mul(x, c.gen)
  }

  ghost function ImageOf(c: Curve, x: int): Point
    requires c.Valid()
  {
    c.Mul(x, Hp(c, Encode(KeyOf(c, x))))
  }

  lemma KeysAreProper(c: Curve, x: int)
    requires c.Valid() && x % c.q != 0
    ensures c.On(KeyOf(c, x)) && KeyOf(c, x).Affine? && c.On(ImageOf(c, x)) && ImageOf(c, x).Affine?
  {
    hide Curve.Valid, Curve.Group, Curve.On, Curve.Mul, Hp;
    Positive(c);
    GeneratorIsOn(c);
    MulOn(c, x, c.gen);
    MulZeroIff(c, x, c.gen);
    var H := Hp(c, Encode(KeyOf(c, x)));
    MulOn(c, x, H);
    MulZeroIff(c, x, H);
  }

  /** On every curve every secret has a ring, of one member, whose signer is spelled uncompressed. */
  lemma UncompressedIsSigner(c: Curve, hash: string, x: int)
    requires c.Valid() && x % c.q != 0
    ensures KeyOf(c, x).Affine?
    ensures var key, image := LongHex(KeyOf(c, x)), PointHex(ImageOf(c, x));
            && |key| == 130 && Find([key], key) == 0
            && IsSigner(c, hash, [key], key, x, image)
            && ReadSetting(c, hash, [key], image) == Setting(hash, [KeyOf(c, x)], ImageOf(c, x))
  {
    hide Curve.Valid, Curve.On, LongHex, PointHex, HexPoint, Hp, KeyOf, ImageOf;
    Positive(c);
    KeysAreProper(c, x);
    LongHexSpells(c, KeyOf(c, x));
    HexPointOfPointHex(c, ImageOf(c, x));
    var key, image := LongHex(KeyOf(c, x)), PointHex(ImageOf(c, x));
    SettingProper(c, hash, [key], image);
    assert ReadSetting(c, hash, [key], image).keys == [KeyOf(c, x)];
    OwnsOfSecret(c, hash, x);
  }

  lemma OwnsOfSecret(c: Curve, hash: string, x: int)
    requires c.Valid() && Proper(c, Setting(hash, [KeyOf(c, x)], ImageOf(c, x)))
    ensures Owns(c, Setting(hash, [KeyOf(c, x)], ImageOf(c, x)), 0, x)
  {
    hide Curve.Valid, Curve.On, Hp;
  }

  /** In that ring `verify` accepts what `sign` returns only if `alpha` is zero, the two forms of
      the key hash to the same point, or two different transcripts have the same hash. */
  lemma UncompressedVerifiesIff(c: Curve, hash: string, x: int, alpha: int, r: int)
    requires c.Valid() && x % c.q != 0 && |hash| % 2 == 0 && 0 <= alpha < c.q && 0 <= r < c.q
    ensures KeyOf(c, x).Affine?
    ensures var P := KeyOf(c, x);
            var key, image := LongHex(P), PointHex(ImageOf(c, x));
            var H, H' := Hp(c, LongForm(4, P)), Hp(c, Encode(P));
            && IsSigner(c, hash, [key], key, x, image)
            && var signed := Signed(c, hash, [key], key, x, image, alpha, [r]);
            && signed.Returned?
            && Verdict(c, hash, signed.value, [key], image) == Returned(
                 || H == H'
                 || alpha == 0
                 || Coincide(c, FirstTranscript(c, hash, alpha, H'), FirstTranscript(c, hash, alpha, H), true))
  {
    hide Curve.Valid, Curve.On, LongHex, PointHex, HexPoint, Hp, KeyOf, ImageOf, IsSigner, Signed, Verdict, Coincide;
    hide LongForm, StringBytes, FirstTranscript, ReadSetting, Find;
    Positive(c);
    UncompressedIsSigner(c, hash, x);
    KeysAreProper(c, x);
    LongHexSpells(c, KeyOf(c, x));
    var key, image := LongHex(KeyOf(c, x)), PointHex(ImageOf(c, x));
    SignedVerifiesIffCompressed(c, hash, [key], key, x, image, alpha, [r]);
  }
}
