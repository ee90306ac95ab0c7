/** What the ring signature guarantees: signatures verify, every accepted signature is one that
    `sign` could have made, in exactly one way, and rings can be rotated. */
module RingProperties {
  import opened Hex
  import opened BigNum
  import opened Arith
  import opened Curves
  import opened PointEncoding
  import opened Ring

  // ----- Walking around the ring ----------------------------------------------------------

  /** A walk of `k + l` links is one of `k` links continued by one of `l`. */
  lemma {:induction false} WalkCompose(c: Curve, g: Setting, s: seq<int>, from: nat, e: int, k: nat, l: nat)
    requires c.Valid() && Proper(c, g) && |s| == |g.keys|
    ensures Walk(c, g, s, from, e, k + l) == Walk(c, g, s, from + k, Walk(c, g, s, from, e, k), l)
    decreases l
  {
    hide Link, Slot, Curve.Valid, Curve.On;
    if l > 0 {
      WalkCompose(c, g, s, from, e, k, l - 1);
      SlotIs(from, k + l - 1, from + k + l - 1, |s|);
      SlotIs(from + k, l - 1, from + k + l - 1, |s|);
    }
  }

  /** Slots count modulo the size of the ring. */
  lemma {:induction false} WalkTurn(c: Curve, g: Setting, s: seq<int>, from: nat, e: int, k: nat)
    requires c.Valid() && Proper(c, g) && |s| == |g.keys|
    ensures Walk(c, g, s, from + |s|, e, k) == Walk(c, g, s, from, e, k)
    decreases k
  {
    hide Link, Slot, Curve.Valid, Curve.On;
    if k > 0 {
      WalkTurn(c, g, s, from, e, k - 1);
      SlotTurn(from, k - 1, |s|);
    }
  }

  lemma SlotTurn(from: nat, k: nat, N: nat)
    requires N > 0
    ensures Slot(from + N, k, N) == Slot(from, k, N)
  {
    CongWitness(from + N + k, from + k, N, 1);
    CongIffSameRest(from + N + k, from + k, N);
  }

  /** A ring that closes from one slot closes from every slot. */
  lemma ClosesFrom(c: Curve, g: Setting, s: seq<int>, from: nat, e: int, k: nat)
    requires c.Valid() && Proper(c, g) && |s| == |g.keys|
    requires Closes(c, g, s, from, e)
    ensures Closes(c, g, s, from + k, Walk(c, g, s, from, e, k))
  {
    hide Link, Slot, Curve.Valid, Curve.On;
    WalkCompose(c, g, s, from, e, k, |s|);
    WalkCompose(c, g, s, from, e, |s|, k);
    WalkTurn(c, g, s, from, e, k);
  }

  // ----- The closing link -----------------------------------------------------------------

  /** The secret of slot `j`, for which key and image were made. */
  ghost predicate Owns(c: Curve, g: Setting, j: nat, x: int)
    requires c.Valid() && Proper(c, g) && j < |g.keys|
  {
    && g.keys[j] == c.Mul(x, c.gen)
    && g.image == c.Mul(x, Hp(c, Encode(g.keys[j])))
  }

  lemma CombineIsMul(c: Curve, A: Point, s: int, e: int, x: int, alpha: int)
    requires c.Group() && c.On(A) && Cong(s + e * x, alpha, c.q)
    ensures c.On(c.Mul(x, A))
    ensures Combine(c, s, A, e, c.Mul(x, A)) == c.Mul(alpha, A)
  {
    MulMul(c, e, x, A);
    MulAdd(c, s, e * x, A);
    MulCong(c, s + e * x, alpha, A);
  }

  /** For the owner of a slot the link with response `s` and challenge `e` depends on
      s + e*x modulo the order only. */
  lemma OwnerLink(c: Curve, g: Setting, j: nat, x: int, s: int, e: int, alpha: int)
    requires c.Valid() && Proper(c, g) && j < |g.keys| && Owns(c, g, j, x)
    requires Cong(s + e * x, alpha, c.q)
    ensures Link(c, g.hash, s, e, g.keys[j], g.image)
         == FirstChallenge(c, g.hash, alpha, Hp(c, Encode(g.keys[j])))
  {
    hide Combine, Challenge, Curve.Valid, Curve.Group, Curve.On, Curve.Mul, Cong, Hp;
    GeneratorIsOn(c);
    CombineIsMul(c, c.gen, s, e, x, alpha);
    CombineIsMul(c, Hp(c, Encode(g.keys[j])), s, e, x, alpha);
  }

  lemma ClosingResponseIs(q: nat, alpha: int, e: int, x: int)
    requires q > 0
    ensures 0 <= ClosingResponse(q, alpha, e, x) < q
    ensures Cong(ClosingResponse(q, alpha, e, x) + e * x, alpha, q)
  {
    DifferenceIs(q, alpha, e * x);
  }

  lemma DifferenceIs(q: nat, alpha: int, m: int)
    requires q > 0
    ensures 0 <= (alpha - m % q) % q < q
    ensures Cong((alpha - m % q) % q + m, alpha, q)
  {
    var r := alpha - m % q;
    CongRest(m, q);
    CongRest(r, q);
    CongAdd(r % q, r, m, m % q, q);
  }

  lemma ResponseUnique(q: nat, alpha: int, e: int, x: int, s: int)
    requires q > 0 && 0 <= s < q && Cong(s + e * x, alpha, q)
    ensures s == ClosingResponse(q, alpha, e, x)
  {
    ClosingResponseIs(q, alpha, e, x);
    var t := ClosingResponse(q, alpha, e, x);
    CongIffSameRest(s + e * x, alpha, q);
    CongIffSameRest(t + e * x, alpha, q);
    CongIffSameRest(s + e * x, t + e * x, q);
    assert s + e * x - (t + e * x) == s - t;
    CongSmall(s, t, q);
  }

  // ----- Completeness ---------------------------------------------------------------------

  /** Where the signer's own walk passes: slot 0 after N-1-j links, and from there slot `j`. */
  lemma SignerWalk(c: Curve, g: Setting, s: seq<int>, j: nat, first: int)
    requires c.Valid() && Proper(c, g) && |s| == |g.keys| && j < |s|
    ensures var e0 := Walk(c, g, s, j + 1, first, |s| - 1 - j);
            && Walk(c, g, s, j + 1, first, |s| - 1) == Walk(c, g, s, 0, e0, j)
            && Walk(c, g, s, 0, e0, |s|)
            == Walk(c, g, s, j + 1, Walk(c, g, s, j + 1, first, |s|), |s| - 1 - j)
  {
    hide Link, Slot, Curve.Valid, Curve.On;
    var N := |s|;
    var m := N - 1 - j;
    var e0 := Walk(c, g, s, j + 1, first, m);
    WalkCompose(c, g, s, j + 1, first, m, j);
    WalkTurn(c, g, s, 0, e0, j);
    WalkCompose(c, g, s, j + 1, first, m, N);
    WalkTurn(c, g, s, 0, e0, N);
    WalkCompose(c, g, s, j + 1, first, N, m);
    WalkTurn(c, g, s, j + 1, Walk(c, g, s, j + 1, first, N), m);
    assert j + 1 + m == 0 + N;
  }

  /** From the signer's slot to slot 0 it makes no difference whether the first challenge was
      made with the hash point `H`, as in `sign`, or with the one that `verify` computes. */
  ghost predicate SameWalk(c: Curve, g: Setting, j: nat, H: Point, alpha: int, s: seq<int>)
    requires c.Valid() && Proper(c, g) && c.On(H) && j < |g.keys| == |s|
  {
    var H' := Hp(c, Encode(g.keys[j]));
    && Walk(c, g, s, j + 1, FirstChallenge(c, g.hash, alpha, H'), |s| - 1 - j)
    == Walk(c, g, s, j + 1, FirstChallenge(c, g.hash, alpha, H), |s| - 1 - j)
  }

  lemma SignatureClosesIff(c: Curve, g: Setting, j: nat, H: Point, x: int, alpha: int, rand: seq<int>)
    requires c.Valid() && Proper(c, g) && c.On(H) && j < |g.keys| == |rand|
    requires Owns(c, g, j, x)
    ensures var (e0, s) := Signature(c, g, j, H, x, alpha, rand);
            Closes(c, g, s, 0, e0) <==> SameWalk(c, g, j, H, alpha, rand)
  {
    hide Link, Walk, Slot, Curve.On, Curve.Valid, Cong, FirstChallenge, ClosingResponse, Owns;
    Positive(c);
    var first := FirstChallenge(c, g.hash, alpha, H);
    var ej := SignerChallenge(c, g, j, H, x, alpha, rand);
    var (e0, s) := Signature(c, g, j, H, x, alpha, rand);
    ClosingResponseIs(c.q, alpha, ej, x);
    OwnerLink(c, g, j, x, s[j], ej, alpha);
    var again := FirstChallenge(c, g.hash, alpha, Hp(c, Encode(g.keys[j])));
    WalkSkipsStart(c, g, rand, s, j, first, |s| - 1 - j);
    WalkSkipsStart(c, g, rand, s, j, again, |s| - 1 - j);
    TurnIff(c, g, s, j, first, ej, again);
  }

  /** If the link of slot `j` leads to `again`, then the walk that starts after slot `j` with
      `first` closes at slot 0 exactly when starting with `again` makes no difference there. */
  lemma TurnIff(c: Curve, g: Setting, s: seq<int>, j: nat, first: int, ej: int, again: int)
    requires c.Valid() && Proper(c, g) && |s| == |g.keys| && j < |s|
    requires ej == Walk(c, g, s, 0, Walk(c, g, s, j + 1, first, |s| - 1 - j), j)
    requires Link(c, g.hash, s[j], ej, g.keys[j], g.image) == again
    ensures Closes(c, g, s, 0, Walk(c, g, s, j + 1, first, |s| - 1 - j))
       <==> Walk(c, g, s, j + 1, again, |s| - 1 - j) == Walk(c, g, s, j + 1, first, |s| - 1 - j)
  {
    hide Link, Walk, Slot, Curve.On, Curve.Valid;
    SignerWalk(c, g, s, j, first);
    LastLink(c, g, s, j, first);
  }

  /** The last link of a whole turn that starts after slot `j` is the one of slot `j`. */
  lemma LastLink(c: Curve, g: Setting, s: seq<int>, j: nat, first: int)
    requires c.Valid() && Proper(c, g) && |s| == |g.keys| && j < |s|
    ensures Walk(c, g, s, j + 1, first, |s|)
         == Link(c, g.hash, s[j], Walk(c, g, s, j + 1, first, |s| - 1), g.keys[j], g.image)
  {
    hide Link, Slot, Curve.On;
    LastSlots(j, |s|);
  }

  lemma SignatureCloses(c: Curve, g: Setting, j: nat, x: int, alpha: int, rand: seq<int>)
    requires c.Valid() && Proper(c, g) && j < |g.keys| == |rand|
    requires Owns(c, g, j, x)
    ensures var (e0, s) := Signature(c, g, j, Hp(c, Encode(g.keys[j])), x, alpha, rand);
            Closes(c, g, s, 0, e0)
  {
    SignatureClosesIff(c, g, j, Hp(c, Encode(g.keys[j])), x, alpha, rand);
  }

  // ----- Every closed ring is a signature -------------------------------------------------

  /** A closed ring of reduced responses is what the owner of any slot gets for the one `alpha`
      that response and challenge of the slot add up to. */
  lemma ClosedIsSignature(c: Curve, g: Setting, j: nat, x: int, e0: int, s: seq<int>) returns (alpha: int)
    requires c.Valid() && Proper(c, g) && j < |g.keys| == |s|
    requires Owns(c, g, j, x)
    requires Closes(c, g, s, 0, e0)
    requires 0 <= s[j] < c.q
    ensures alpha == (s[j] + Walk(c, g, s, 0, e0, j) * x) % c.q
    ensures Signature(c, g, j, Hp(c, Encode(g.keys[j])), x, alpha, s) == (e0, s)
  {
    hide Link, Walk, Slot, Cong, Curve.On, Curve.Valid, FirstChallenge, ClosingResponse, Owns;
    Positive(c);
    var N := |s|;
    var ej := Walk(c, g, s, 0, e0, j);
    var sum := s[j] + ej * x;
    alpha := sum % c.q;
    CongRest(sum, c.q);
    OwnerLink(c, g, j, x, s[j], ej, alpha);
    ResponseUnique(c.q, alpha, ej, x, s[j]);
    var first := FirstChallenge(c, g.hash, alpha, Hp(c, Encode(g.keys[j])));
    NextLink(c, g, s, e0, j);
    WalkCompose(c, g, s, 0, e0, j + 1, N - 1 - j);
    WalkCompose(c, g, s, 0, e0, j + 1, N - 1);
    WalkCompose(c, g, s, 0, e0, N, j);
    WalkTurn(c, g, s, 0, e0, j);
    assert s[j := s[j]] == s;
  }

  /** The walk from slot 0 takes the link of slot `j` after `j` others. */
  lemma NextLink(c: Curve, g: Setting, s: seq<int>, e0: int, j: nat)
    requires c.Valid() && Proper(c, g) && |s| == |g.keys| && j < |s|
    ensures Walk(c, g, s, 0, e0, j + 1)
         == Link(c, g.hash, s[j], Walk(c, g, s, 0, e0, j), g.keys[j], g.image)
  {
    hide Link, Slot, Curve.On;
    SlotIs(0, j, j, |s|);
    DivisionUnique(j, |s|, 0, j);
  }

  /** Different randomness gives different signatures. */
  lemma SignatureInjective(c: Curve, g: Setting, j: nat, H: Point, x: int,
                           alpha: int, rand: seq<int>, beta: int, rand': seq<int>)
    requires c.Valid() && Proper(c, g) && c.On(H) && j < |g.keys| == |rand| == |rand'|
    requires 0 <= alpha < c.q && 0 <= beta < c.q
    requires Signature(c, g, j, H, x, alpha, rand) == Signature(c, g, j, H, x, beta, rand')
    ensures alpha == beta
    ensures forall i :: 0 <= i < |rand| && i != j ==> rand[i] == rand'[i]
  {
    hide Link, Slot, Walk, Curve.On, FirstChallenge, ClosingResponse;
    var N := |rand|;
    var (e0, s) := Signature(c, g, j, H, x, alpha, rand);
    var ej := SignerChallenge(c, g, j, H, x, alpha, rand);
    var ej' := SignerChallenge(c, g, j, H, x, beta, rand');
    ClosingResponseIs(c.q, alpha, ej, x);
    ClosingResponseIs(c.q, beta, ej, x);
    CongIffSameRest(s[j] + ej * x, alpha, c.q);
    CongIffSameRest(s[j] + ej * x, beta, c.q);
    CongIffSameRest(alpha, beta, c.q);
    CongSmall(alpha, beta, c.q);
    forall i | 0 <= i < N && i != j ensures rand[i] == rand'[i] {
      assert rand[i] == s[i] && rand'[i] == s[i];
    }
  }

  /** The challenge of the signer's slot can be read off the signature. */
  lemma SignerChallenge(c: Curve, g: Setting, j: nat, H: Point, x: int, alpha: int, rand: seq<int>) returns (ej: int)
    requires c.Valid() && Proper(c, g) && c.On(H) && j < |g.keys| == |rand|
    ensures var (e0, s) := Signature(c, g, j, H, x, alpha, rand);
            ej == Walk(c, g, s, 0, e0, j) && s[j] == ClosingResponse(c.q, alpha, ej, x)
  {
    hide Link, Slot, Walk, Curve.On, FirstChallenge, ClosingResponse;
    var first := FirstChallenge(c, g.hash, alpha, H);
    var (e0, s) := Signature(c, g, j, H, x, alpha, rand);
    ej := Walk(c, g, rand, j + 1, first, |rand| - 1);
    WalkSkipsStart(c, g, rand, s, j, first, |rand| - 1);
    WalkSkipsStart(c, g, rand, s, j, first, |rand| - 1 - j);
    SignerWalk(c, g, s, j, first);
  }

  // ----- The same for signatures as strings -----------------------------------------------

  lemma NumbersOfPrints(numbers: seq<int>)
    ensures Numbers(Prints(numbers)) == numbers
  {
    forall i | 0 <= i < |numbers| ensures Hex2Bn(Bn2Hex(numbers[i])) == numbers[i] {
      ReadPrinted(numbers[i]);
    }
  }

  /** The shape of what `sign` returns: numbers printed canonically, responses reduced. */
  ghost predicate Canonical(c: Curve, sig: seq<string>, N: nat) {
    && |sig| == N + 1
    && (forall i :: 0 <= i < |sig| ==> sig[i] == Bn2Hex(Hex2Bn(sig[i])))
    && (forall i :: 1 <= i < |sig| ==> 0 <= Hex2Bn(sig[i]) < c.q)
  }

  /** `realOutput` is in the ring, and `x` is its secret, from which the key image was made. */
  ghost predicate IsSigner(c: Curve, hash: string, outputs: seq<string>, realOutput: string, x: int, keyImage: string)
    requires c.Valid()
  {
    && outputs != [] && SpellsRing(c, outputs, keyImage)
    && Find(outputs, realOutput) < |outputs|
    && Proper(c, ReadSetting(c, hash, outputs, keyImage))
    && Owns(c, ReadSetting(c, hash, outputs, keyImage), Find(outputs, realOutput), x)
  }

  lemma SignerHashPoint(c: Curve, hash: string, outputs: seq<string>, realOutput: string, x: int, keyImage: string)
    requires c.Valid() && IsSigner(c, hash, outputs, realOutput, x, keyImage)
    requires |realOutput| <= 66
    ensures var g := ReadSetting(c, hash, outputs, keyImage);
            StringBytes(realOutput) == Encode(g.keys[Find(outputs, realOutput)])
  {
    HexPointBytes(c, realOutput);
  }

  lemma StringsRead(c: Curve, N: nat, e0: int, s: seq<int>)
    requires |s| == N && forall i :: 0 <= i < N ==> 0 <= s[i] < c.q
    ensures var sig := Strings((e0, s));
            Canonical(c, sig, N) && Hex2Bn(sig[0]) == e0 && Numbers(sig[1..]) == s
  {
    hide Hex2Bn, Bn2Hex;
    var sig := Strings((e0, s));
    ReadPrinted(e0);
    forall i | 0 <= i < N ensures Hex2Bn(sig[i + 1]) == s[i] {
      ReadPrinted(s[i]);
    }
    assert forall i :: 1 <= i < |sig| ==> sig[i] == Bn2Hex(s[i - 1]);
    assert sig[1..] == Prints(s);
    NumbersOfPrints(s);
  }

  lemma CanonicalIsStrings(c: Curve, sig: seq<string>, N: nat)
    requires Canonical(c, sig, N)
    ensures Strings((Hex2Bn(sig[0]), Numbers(sig[1..]))) == sig
    ensures |Numbers(sig[1..])| == N
    ensures forall i :: 0 <= i < N ==> 0 <= Numbers(sig[1..])[i] < c.q
  {
    hide Hex2Bn, Bn2Hex;
  }

  /** What `sign` returns is canonical; and `verify` accepts it exactly when no difference is
      seen between the hash of the spelling of the signer's key and the hash of its compressed
      form. */
  lemma SignedVerifiesIff(c: Curve, hash: string, outputs: seq<string>, realOutput: string, x: int, keyImage: string,
                          alpha: int, rand: seq<int>)
    requires c.Valid() && IsSigner(c, hash, outputs, realOutput, x, keyImage)
    requires Randomness(c, |outputs|, alpha, rand)
    ensures var g := ReadSetting(c, hash, outputs, keyImage);
            var j, H := Find(outputs, realOutput), Hp(c, StringBytes(realOutput));
            var signed := Signed(c, hash, outputs, realOutput, x, keyImage, alpha, rand);
            && signed.Returned? && Canonical(c, signed.value, |outputs|)
            && Verdict(c, hash, signed.value, outputs, keyImage) == Returned(SameWalk(c, g, j, H, alpha, rand))
  {
    hide Link, Walk, Curve.On, Owns, ClosingResponse, Strings, SameWalk;
    var g := ReadSetting(c, hash, outputs, keyImage);
    var j, H := Find(outputs, realOutput), Hp(c, StringBytes(realOutput));
    SignatureClosesIff(c, g, j, H, x, alpha, rand);
    var ej := SignerChallenge(c, g, j, H, x, alpha, rand);
    ClosingResponseIs(c.q, alpha, ej, x);
    var (e0, s) := Signature(c, g, j, H, x, alpha, rand);
    StringsRead(c, |outputs|, e0, s);
  }

  /** Completeness: `verify` accepts what `sign` returns, for every ring, message, signer and
      randomness, when the signer's key is spelled in compressed form. */
  lemma SignedVerifies(c: Curve, hash: string, outputs: seq<string>, realOutput: string, x: int, keyImage: string,
                       alpha: int, rand: seq<int>)
    requires c.Valid() && IsSigner(c, hash, outputs, realOutput, x, keyImage)
    requires |realOutput| <= 66
    requires Randomness(c, |outputs|, alpha, rand)
    ensures var signed := Signed(c, hash, outputs, realOutput, x, keyImage, alpha, rand);
            && signed.Returned? && Canonical(c, signed.value, |outputs|)
            && Verdict(c, hash, signed.value, outputs, keyImage) == Returned(true)
  {
    hide Signed, Signature, Verdict, Canonical, Walk, FirstChallenge;
    SignerHashPoint(c, hash, outputs, realOutput, x, keyImage);
    SignedVerifiesIff(c, hash, outputs, realOutput, x, keyImage, alpha, rand);
  }

  /** Every accepted canonical signature is one that the signer could have made: with its own
      responses as the random ones, and `alpha` from the response and challenge of the slot. */
  lemma VerifiedIsSigned(c: Curve, hash: string, outputs: seq<string>, realOutput: string, x: int, keyImage: string,
                         sig: seq<string>) returns (alpha: int, rand: seq<int>)
    requires c.Valid() && IsSigner(c, hash, outputs, realOutput, x, keyImage)
    requires |realOutput| <= 66
    requires Canonical(c, sig, |outputs|)
    requires Verdict(c, hash, sig, outputs, keyImage) == Returned(true)
    ensures Randomness(c, |outputs|, alpha, rand)
    ensures Signed(c, hash, outputs, realOutput, x, keyImage, alpha, rand) == Returned(sig)
    ensures rand == Numbers(sig[1..])
    ensures var g, j := ReadSetting(c, hash, outputs, keyImage), Find(outputs, realOutput);
            alpha == (rand[j] + Walk(c, g, rand, 0, Hex2Bn(sig[0]), j) * x) % c.q
  {
    hide Link, Walk, Curve.On, Curve.Valid, Owns, Strings, Signature, HexPoint, Hex2Bn, Bn2Hex;
    Positive(c);
    var g := ReadSetting(c, hash, outputs, keyImage);
    var j := Find(outputs, realOutput);
    SignerHashPoint(c, hash, outputs, realOutput, x, keyImage);
    CanonicalIsStrings(c, sig, |outputs|);
    rand := Numbers(sig[1..]);
    alpha := ClosedIsSignature(c, g, j, x, Hex2Bn(sig[0]), rand);
  }

  /** There is a choice of randomness for which `sign` returns `sig`. */
  ghost predicate CanSign(c: Curve, hash: string, outputs: seq<string>, realOutput: string, x: int, keyImage: string,
                          sig: seq<string>)
    requires c.Valid() && IsSigner(c, hash, outputs, realOutput, x, keyImage)
  {
    exists alpha, rand :: Randomness(c, |outputs|, alpha, rand)
      && Signed(c, hash, outputs, realOutput, x, keyImage, alpha, rand) == Returned(sig)
  }

  /** The signatures that a signer can make are exactly the accepted canonical ones. The right
      side does not name the signer: what is accepted tells nothing about who signed beyond the
      key image. */
  lemma SignedExactlyVerified(c: Curve, hash: string, outputs: seq<string>, realOutput: string, x: int,
                              keyImage: string, sig: seq<string>)
    requires c.Valid() && IsSigner(c, hash, outputs, realOutput, x, keyImage)
    requires |realOutput| <= 66
    ensures CanSign(c, hash, outputs, realOutput, x, keyImage, sig) <==>
              Canonical(c, sig, |outputs|) && Verdict(c, hash, sig, outputs, keyImage) == Returned(true)
  {
    if Canonical(c, sig, |outputs|) && Verdict(c, hash, sig, outputs, keyImage) == Returned(true) {
      var alpha, rand := VerifiedIsSigned(c, hash, outputs, realOutput, x, keyImage, sig);
    }
    if CanSign(c, hash, outputs, realOutput, x, keyImage, sig) {
      hide Canonical, Verdict, Signed;
      var alpha, rand :| Randomness(c, |outputs|, alpha, rand)
        && Signed(c, hash, outputs, realOutput, x, keyImage, alpha, rand) == Returned(sig);
      SignedVerifies(c, hash, outputs, realOutput, x, keyImage, alpha, rand);
    }
  }

  /** Two members of a ring that own the same key image can make the same signatures. */
  lemma SignersIndistinguishable(c: Curve, hash: string, outputs: seq<string>, keyImage: string,
                                 realOutput: string, x: int, other: string, y: int, sig: seq<string>)
    requires c.Valid() && |realOutput| <= 66 && |other| <= 66
    requires IsSigner(c, hash, outputs, realOutput, x, keyImage)
    requires IsSigner(c, hash, outputs, other, y, keyImage)
    ensures CanSign(c, hash, outputs, realOutput, x, keyImage, sig)
       <==> CanSign(c, hash, outputs, other, y, keyImage, sig)
  {
    hide *;
    SignedExactlyVerified(c, hash, outputs, realOutput, x, keyImage, sig);
    SignedExactlyVerified(c, hash, outputs, other, y, keyImage, sig);
  }

  /** One signature comes from one `alpha` and one choice of the other responses. */
  lemma SignedOnce(c: Curve, hash: string, outputs: seq<string>, realOutput: string, x: int, keyImage: string,
                   alpha: int, rand: seq<int>, beta: int, rand': seq<int>)
    requires c.Valid() && IsSigner(c, hash, outputs, realOutput, x, keyImage)
    requires Randomness(c, |outputs|, alpha, rand) && Randomness(c, |outputs|, beta, rand')
    requires Signed(c, hash, outputs, realOutput, x, keyImage, alpha, rand)
          == Signed(c, hash, outputs, realOutput, x, keyImage, beta, rand')
    ensures alpha == beta
    ensures forall i :: 0 <= i < |outputs| && i != Find(outputs, realOutput) ==> rand[i] == rand'[i]
  {
    hide Link, Walk, Curve.On, Owns;
    var g := ReadSetting(c, hash, outputs, keyImage);
    var j, H := Find(outputs, realOutput), Hp(c, StringBytes(realOutput));
    var a, b := Signature(c, g, j, H, x, alpha, rand), Signature(c, g, j, H, x, beta, rand');
    assert Strings(a) == Strings(b);
    assert Strings(a)[0] == Strings(b)[0] && Strings(a)[1..] == Prints(a.1) && Strings(b)[1..] == Prints(b.1);
    ReadPrinted(a.0);
    ReadPrinted(b.0);
    NumbersOfPrints(a.1);
    NumbersOfPrints(b.1);
    SignatureInjective(c, g, j, H, x, alpha, rand, beta, rand');
  }
}
