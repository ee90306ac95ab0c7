/** What the verdict of `verify` does not depend on: the slot a ring starts from, the
    spelling of the numbers in a signature, and multiples of the order in its responses. */
module RingInvariance {
  import opened Hex
  import opened BigNum
  import opened Arith
  import opened Curves
  import opened PointEncoding
  import opened Ring
  import opened RingProperties

  // ----- Rotation -------------------------------------------------------------------------

  /** `xs` read from position `k` on, around its end. */
  function Rotated<T>(xs: seq<T>, k: nat): (r: seq<T>)
    ensures |r| == |xs|
  {
    seq(|xs|, i requires 0 <= i < |xs| => xs[Slot(k, i, |xs|)])
  }

  lemma SlotOfSlot(k: nat, from: nat, m: nat, N: nat)
    requires N > 0
    ensures Slot(k, Slot(from, m, N), N) == Slot(from + k, m, N)
  {
    CongRest(from + m, N);
    CongAdd((from + m) % N, from + m, k, k, N);
    CongIffSameRest((from + m) % N + k, from + m + k, N);
  }

  ghost function RotatedSetting(g: Setting, k: nat): Setting {
    g.(keys := Rotated(g.keys, k))
  }

  lemma RotatedProper(c: Curve, g: Setting, k: nat)
    requires c.p > 0 && Proper(c, g)
    ensures Proper(c, RotatedSetting(g, k))
  {
  }

  lemma {:induction false} WalkRotated(c: Curve, g: Setting, s: seq<int>, k: nat, from: nat, e: int, m: nat)
    requires c.Valid() && Proper(c, g) && Proper(c, RotatedSetting(g, k)) && |s| == |g.keys|
    ensures Walk(c, RotatedSetting(g, k), Rotated(s, k), from, e, m) == Walk(c, g, s, from + k, e, m)
    decreases m
  {
    hide Link, Slot, Curve.Valid, Curve.On;
    if m > 0 {
      WalkRotated(c, g, s, k, from, e, m - 1);
      SlotOfSlot(k, from, m - 1, |s|);
    }
  }

  /** If a signature verifies, so does the one that starts at slot `k` of the ring, with the
      challenge recomputed there as its first entry. */
  lemma RotationVerifies(c: Curve, hash: string, sig: seq<string>, outputs: seq<string>, keyImage: string, k: nat)
    requires c.Valid() && SpellsRing(c, outputs, keyImage) && outputs != []
    requires |sig| == |outputs| + 1
    requires Proper(c, ReadSetting(c, hash, outputs, keyImage))
    requires Verdict(c, hash, sig, outputs, keyImage) == Returned(true)
    ensures SpellsRing(c, Rotated(outputs, k), keyImage)
    ensures var g, s := ReadSetting(c, hash, outputs, keyImage), Numbers(sig[1..]);
            var ek := Walk(c, g, s, 0, Hex2Bn(sig[0]), k);
            Verdict(c, hash, [Bn2Hex(ek)] + Rotated(sig[1..], k), Rotated(outputs, k), keyImage) == Returned(true)
  {
    hide Link, Walk, Slot, Curve.On, Curve.Valid, HexPoint, Hex2Bn, Bn2Hex;
    Positive(c);
    var g, s := ReadSetting(c, hash, outputs, keyImage), Numbers(sig[1..]);
    var e0 := Hex2Bn(sig[0]);
    var ek := Walk(c, g, s, 0, e0, k);
    RotatedStrings(c, hash, sig, outputs, keyImage, k, ek);
    ReadPrinted(ek);
    RotatedProper(c, g, k);
    ClosesFrom(c, g, s, 0, e0, k);
    WalkRotated(c, g, s, k, 0, ek, |s|);
  }

  /** Rotating the strings rotates what they are read as. */
  lemma RotatedStrings(c: Curve, hash: string, sig: seq<string>, outputs: seq<string>, keyImage: string, k: nat, ek: int)
    requires c.p > 0 && SpellsRing(c, outputs, keyImage) && |sig| == |outputs| + 1
    ensures SpellsRing(c, Rotated(outputs, k), keyImage)
    ensures ReadSetting(c, hash, Rotated(outputs, k), keyImage)
         == RotatedSetting(ReadSetting(c, hash, outputs, keyImage), k)
    ensures Numbers(([Bn2Hex(ek)] + Rotated(sig[1..], k))[1..]) == Rotated(Numbers(sig[1..]), k)
  {
    hide Slot, HexPoint, Hex2Bn, Bn2Hex;
    assert ReadSetting(c, hash, Rotated(outputs, k), keyImage).keys
        == RotatedSetting(ReadSetting(c, hash, outputs, keyImage), k).keys;
    assert ([Bn2Hex(ek)] + Rotated(sig[1..], k))[1..] == Rotated(sig[1..], k);
  }

  // ----- Spelling -------------------------------------------------------------------------

  /** Two strings of digits that differ in case and leading zeros only. */
  predicate SameSpelling(s: string, t: string) {
    && IsHex(s) && IsHex(t)
    && ToLower(Zeros(if |s| < |t| then |t| - |s| else 0) + s) == ToLower(Zeros(if |t| < |s| then |s| - |t| else 0) + t)
  }

  lemma NoZeros(s: string)
    ensures Zeros(0) + s == s
  {
  }

  lemma SameSpellingIff(s: string, t: string)
    requires IsHex(s) && IsHex(t)
    ensures SameSpelling(s, t) <==> Hex2Bn(s) == Hex2Bn(t)
  {
    hide Hex2Bn, ToLower, Zeros;
    NoZeros(s);
    NoZeros(t);
    if |s| <= |t| {
      SameNumberIff(s, t);
    } else {
      SameNumberIff(t, s);
    }
  }

  /** Respelling any entries of a signature, the challenge included, leaves the verdict as it is. */
  lemma RespellingKeepsVerdict(c: Curve, hash: string, sig: seq<string>, sig': seq<string>, outputs: seq<string>,
                               keyImage: string)
    requires c.Valid() && (|sig| == |outputs| + 1 && outputs != [] ==> SpellsRing(c, outputs, keyImage))
    requires |sig| == |sig'|
    requires forall i :: 0 <= i < |sig| ==> sig[i] == sig'[i] || SameSpelling(sig[i], sig'[i])
    ensures Verdict(c, hash, sig, outputs, keyImage) == Verdict(c, hash, sig', outputs, keyImage)
  {
    forall i | 0 <= i < |sig| ensures Hex2Bn(sig[i]) == Hex2Bn(sig'[i]) {
      if sig[i] != sig'[i] {
        SameSpellingIff(sig[i], sig'[i]);
      }
    }
    if |sig| > 0 {
      assert forall i :: 0 <= i < |sig| - 1 ==> sig[1..][i] == sig[i + 1] && sig'[1..][i] == sig'[i + 1];
      assert Numbers(sig[1..]) == Numbers(sig'[1..]);
    }
  }

  // ----- Multiples of the order -----------------------------------------------------------

  lemma CombineCong(c: Curve, s: int, t: int, A: Point, e: int, f: int, B: Point)
    requires c.Group() && c.On(A) && c.On(B) && Cong(s, t, c.q) && Cong(e, f, c.q)
    ensures Combine(c, s, A, e, B) == Combine(c, t, A, f, B)
  {
    hide Curve.On, Curve.Mul, Cong;
    MulCong(c, s, t, A);
    MulCong(c, e, f, B);
  }

  lemma LinkCong(c: Curve, hash: string, s: int, t: int, e: int, f: int, P: Point, I: Point)
    requires c.Valid() && c.On(P) && c.On(I) && Cong(s, t, c.q) && Cong(e, f, c.q)
    ensures Link(c, hash, s, e, P, I) == Link(c, hash, t, f, P, I)
  {
    hide Combine, Challenge, Cong;
    GeneratorIsOn(c);
    CombineCong(c, s, t, c.gen, e, f, P);
    CombineCong(c, s, t, Hp(c, Encode(P)), e, f, I);
  }

  predicate CongAll(s: seq<int>, t: seq<int>, q: int)
    requires q > 0
  {
    |s| == |t| && forall i :: 0 <= i < |s| ==> Cong(s[i], t[i], q)
  }

  lemma {:induction false} WalkCong(c: Curve, g: Setting, s: seq<int>, t: seq<int>, from: nat, e: int, k: nat)
    requires c.Valid() && Proper(c, g) && |s| == |t| == |g.keys| && CongAll(s, t, c.q)
    ensures Walk(c, g, s, from, e, k) == Walk(c, g, t, from, e, k)
    decreases k
  {
    hide Link, Slot, Cong, Curve.Valid, Curve.On;
    if k > 0 {
      WalkCong(c, g, s, t, from, e, k - 1);
      var e' := Walk(c, g, s, from, e, k - 1);
      var slot := Slot(from, k - 1, |s|);
      SelfCong(c, e');
      LinkCong(c, g.hash, s[slot], t[slot], e', e', g.keys[slot], g.image);
    }
  }

  lemma SelfCong(c: Curve, e: int)
    requires c.Valid()
    ensures Cong(e, e, c.q)
  {
    CongIffSameRest(e, e, c.q);
  }

  /** Unlike the challenge, which is compared exactly, the responses count modulo the order:
      `verify` does not ask for reduced ones. */
  lemma ResponsesCountModuloOrder(c: Curve, hash: string, sig: seq<string>, sig': seq<string>, outputs: seq<string>,
                                  keyImage: string)
    requires c.Valid() && SpellsRing(c, outputs, keyImage) && outputs != []
    requires |sig| == |sig'| == |outputs| + 1 && Hex2Bn(sig[0]) == Hex2Bn(sig'[0])
    requires CongAll(Numbers(sig[1..]), Numbers(sig'[1..]), c.q)
    ensures Verdict(c, hash, sig, outputs, keyImage) == Verdict(c, hash, sig', outputs, keyImage)
  {
    hide Walk, Link, Hex2Bn, CongAll, SpellsRing, Curve.Valid, Curve.On;
    Positive(c);
    SettingProper(c, hash, outputs, keyImage);
    var g := ReadSetting(c, hash, outputs, keyImage);
    WalkCong(c, g, Numbers(sig[1..]), Numbers(sig'[1..]), 0, Hex2Bn(sig[0]), |outputs|);
  }
}
