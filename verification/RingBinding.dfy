/** What a signature binds: two signatures with one challenge that differ, in the message or in a
    response, lead to colliding transcripts or give a secret away. */
module RingBinding {
  import opened Hex
  import opened BigNum
  import opened Arith
  import opened Curves
  import opened PointEncoding
  import opened Ring
  import opened RingProperties
  import opened RingInvariance
  import opened RingExtraction

  /** The transcript at slot `k` of the walk from slot 0, and the challenge it is hashed to. */
  ghost function TranscriptOf(c: Curve, g: Setting, s: seq<int>, e0: int, k: nat): seq<Byte>
    requires c.Valid() && Proper(c, g) && |s| == |g.keys| && k < |s|
  {
    TranscriptAt(c, g, k, s[k], Walk(c, g, s, 0, e0, k))
  }

  lemma ChallengeOf(c: Curve, g: Setting, s: seq<int>, e0: int, k: nat)
    requires c.Valid() && Proper(c, g) && |s| == |g.keys| && k < |s|
    ensures Walk(c, g, s, 0, e0, k + 1) == Hex2Bn(c.sha3(TranscriptOf(c, g, s, e0, k)))
  {
    hide Walk, Transcript, Combine, Hex2Bn, Curve.Valid, Curve.On;
    NextLink(c, g, s, e0, k);
  }

  predicate IsMessageHash(hash: string) {
    IsHex(hash) && |hash| == 64
  }

  // ----- The message ----------------------------------------------------------------------

  lemma TranscriptTellsMessage(c: Curve, g: Setting, s: seq<int>, e0: int, k: nat,
                               g': Setting, t: seq<int>, f0: int, l: nat)
    requires c.Valid() && Proper(c, g) && |s| == |g.keys| && k < |s| && IsMessageHash(g.hash)
    requires Proper(c, g') && |t| == |g'.keys| && l < |t| && IsMessageHash(g'.hash)
    requires ToLower(g.hash) != ToLower(g'.hash)
    ensures TranscriptOf(c, g, s, e0, k) != TranscriptOf(c, g', t, f0, l)
  {
    hide Walk, Transcript, Combine, ToLower, Curve.Valid, Curve.On;
    var e, f := Walk(c, g, s, 0, e0, k), Walk(c, g', t, 0, f0, l);
    var P, Q := g.keys[k], g'.keys[l];
    var H, J := Hp(c, Encode(P)), Hp(c, Encode(Q));
    GeneratorIsOn(c);
    CombineOn(c, s[k], c.gen, e, P);
    CombineOn(c, s[k], H, e, g.image);
    CombineOn(c, t[l], c.gen, f, Q);
    CombineOn(c, t[l], J, f, g'.image);
    TranscriptInjective(c, g.hash, Combine(c, s[k], c.gen, e, P), Combine(c, s[k], H, e, g.image),
                        g'.hash, Combine(c, t[l], c.gen, f, Q), Combine(c, t[l], J, f, g'.image));
  }

  /** One challenge cannot belong to two messages without a collision: if two signatures that
      start with the same number are accepted for different messages, for whatever rings and key
      images, then the last transcripts of the two walks differ and hash to the same number. */
  lemma MessageBound(c: Curve, g: Setting, s: seq<int>, g': Setting, t: seq<int>, e0: int)
    requires c.Valid() && Proper(c, g) && |s| == |g.keys| && IsMessageHash(g.hash)
    requires Proper(c, g') && |t| == |g'.keys| && IsMessageHash(g'.hash)
    requires Closes(c, g, s, 0, e0) && Closes(c, g', t, 0, e0)
    requires ToLower(g.hash) != ToLower(g'.hash)
    ensures var a, b := TranscriptOf(c, g, s, e0, |s| - 1), TranscriptOf(c, g', t, e0, |t| - 1);
            a != b && Hex2Bn(c.sha3(a)) == Hex2Bn(c.sha3(b)) == e0
  {
    hide Walk, TranscriptOf, ToLower, Hex2Bn, Curve.Valid, Curve.On;
    ChallengeOf(c, g, s, e0, |s| - 1);
    ChallengeOf(c, g', t, e0, |t| - 1);
    TranscriptTellsMessage(c, g, s, e0, |s| - 1, g', t, e0, |t| - 1);
  }

  // ----- The responses --------------------------------------------------------------------

  /** The two walks come to slot `k` with challenges that count the same. */
  ghost predicate Agree(c: Curve, g: Setting, s: seq<int>, t: seq<int>, e0: int, k: nat)
    requires c.Valid() && Proper(c, g) && |s| == |t| == |g.keys|
  {
    Cong(Walk(c, g, s, 0, e0, k), Walk(c, g, t, 0, e0, k), c.q)
  }

  /** The last challenge of a walk is compared exactly; the ones before count modulo the order. */
  predicate Same(c: Curve, e: int, f: int, last: bool)
    requires c.q > 0
  {
    if last then e == f else Cong(e, f, c.q)
  }

  /** Two different transcripts are hashed to the same challenge. */
  ghost predicate Coincide(c: Curve, a: seq<Byte>, b: seq<Byte>, last: bool)
    requires c.q > 0
  {
    a != b && Same(c, Hex2Bn(c.sha3(a)), Hex2Bn(c.sha3(b)), last)
  }

  /** The two transcripts of slot `k` are different but hash to numbers that count the same. */
  ghost predicate Collides(c: Curve, g: Setting, s: seq<int>, t: seq<int>, e0: int, k: nat)
    requires c.Valid() && Proper(c, g) && |s| == |t| == |g.keys| && k < |s|
  {
    Coincide(c, TranscriptOf(c, g, s, e0, k), TranscriptOf(c, g, t, e0, k), false)
  }

  /** Slot `k` gives the secret of its member away, as the quotient of the differences of the
      responses and of the challenges. */
  ghost predicate Reveals(c: Curve, g: Setting, s: seq<int>, t: seq<int>, e0: int, k: nat, x: int)
    requires c.Valid() && Proper(c, g) && |s| == |t| == |g.keys| && k < |s|
  {
    var e, f := Walk(c, g, s, 0, e0, k), Walk(c, g, t, 0, e0, k);
    !Cong(e, f, c.q) && Cong(x * (f - e), s[k] - t[k], c.q) && Owns(c, g, k, x)
  }

  /** Once the walks disagree they agree again somewhere, if they agree in the end. */
  lemma {:induction false} Reunion(c: Curve, g: Setting, s: seq<int>, t: seq<int>, e0: int, m: nat) returns (k: nat)
    requires c.Valid() && Proper(c, g) && |s| == |t| == |g.keys| && m <= |s|
    requires !Agree(c, g, s, t, e0, m) && Agree(c, g, s, t, e0, |s|)
    ensures m <= k < |s| && !Agree(c, g, s, t, e0, k) && Agree(c, g, s, t, e0, k + 1)
    decreases |s| - m
  {
    hide Agree, Curve.Valid, Curve.On;
    if Agree(c, g, s, t, e0, m + 1) {
      k := m;
    } else {
      k := Reunion(c, g, s, t, e0, m + 1);
    }
  }

  lemma AgreeIff(c: Curve, g: Setting, s: seq<int>, t: seq<int>, e0: int, k: nat)
    requires c.Valid() && Proper(c, g) && |s| == |t| == |g.keys| && k < |s|
    ensures Agree(c, g, s, t, e0, k + 1)
       <==> Cong(Hex2Bn(c.sha3(TranscriptOf(c, g, s, e0, k))), Hex2Bn(c.sha3(TranscriptOf(c, g, t, e0, k))), c.q)
  {
    hide Walk, TranscriptOf, Hex2Bn, Cong, Curve.Valid, Curve.On;
    ChallengeOf(c, g, s, e0, k);
    ChallengeOf(c, g, t, e0, k);
  }

  /** Different responses to one challenge commit to different points. */
  lemma ResponseChangesPoint(c: Curve, P: Point, s: int, t: int, e: int, f: int)
    requires c.Valid() && c.On(P) && Cong(e, f, c.q)
    requires 0 <= s < c.q && 0 <= t < c.q && s != t
    ensures Combine(c, s, c.gen, e, P) != Combine(c, t, c.gen, f, P)
  {
    hide Curve.Valid, Curve.Group, Curve.On, Curve.Mul;
    Positive(c);
    GeneratorIsOn(c);
    if Combine(c, s, c.gen, e, P) == Combine(c, t, c.gen, f, P) {
      MulCong(c, e, f, P);
      MulOn(c, s, c.gen);
      MulOn(c, t, c.gen);
      MulOn(c, f, P);
      Cancel(c, c.Mul(s, c.gen), c.Mul(t, c.gen), c.Mul(f, P));
      MulInjective(c, s, t, c.gen);
      CongSmall(s, t, c.q);
    }
  }

  lemma ResponseChangesTranscript(c: Curve, g: Setting, s: seq<int>, t: seq<int>, e0: int, k: nat)
    requires c.Valid() && Proper(c, g) && |s| == |t| == |g.keys| && k < |s| && |g.hash| % 2 == 0
    requires Agree(c, g, s, t, e0, k)
    requires 0 <= s[k] < c.q && 0 <= t[k] < c.q && s[k] != t[k]
    ensures TranscriptOf(c, g, s, e0, k) != TranscriptOf(c, g, t, e0, k)
  {
    hide Walk, Transcript, Combine, Curve.Valid, Curve.On;
    var e, f := Walk(c, g, s, 0, e0, k), Walk(c, g, t, 0, e0, k);
    var P := g.keys[k];
    var H := Hp(c, Encode(P));
    GeneratorIsOn(c);
    CombineOn(c, s[k], c.gen, e, P);
    CombineOn(c, s[k], H, e, g.image);
    CombineOn(c, t[k], c.gen, f, P);
    CombineOn(c, t[k], H, f, g.image);
    ResponseChangesPoint(c, P, s[k], t[k], e, f);
    TranscriptTellsPoints(c, g.hash, Combine(c, s[k], c.gen, e, P), Combine(c, s[k], H, e, g.image),
                          Combine(c, t[k], c.gen, f, P), Combine(c, t[k], H, f, g.image));
  }

  /** Two accepted signatures of one message for one ring that start with the same challenge but
      differ in a reduced response: somewhere on the way around, two different transcripts hash
      to numbers that count the same, or the secret of a member is revealed. */
  lemma ResponsesBound(c: Curve, g: Setting, s: seq<int>, t: seq<int>, e0: int, i: nat) returns (k: nat, x: int)
    requires c.Valid() && Proper(c, g) && |s| == |t| == |g.keys| && |g.hash| % 2 == 0
    requires Closes(c, g, s, 0, e0) && Closes(c, g, t, 0, e0)
    requires i < |s| && 0 <= s[i] < c.q && 0 <= t[i] < c.q && s[i] != t[i]
    ensures k < |s|
    ensures Collides(c, g, s, t, e0, k) || Reveals(c, g, s, t, e0, k, x)
  {
    hide Walk, Link, TranscriptOf, Reveals, Collides, Agree, Curve.Valid, Curve.On;
    x := 0;
    EndsAgree(c, g, s, t, e0);
    if Agree(c, g, s, t, e0, i) && Agree(c, g, s, t, e0, i + 1) {
      k := i;
      ResponseChangesTranscript(c, g, s, t, e0, i);
      CollidesIf(c, g, s, t, e0, i);
    } else {
      k := Reunion(c, g, s, t, e0, if Agree(c, g, s, t, e0, i) then i + 1 else i);
      if TranscriptOf(c, g, s, e0, k) != TranscriptOf(c, g, t, e0, k) {
        CollidesIf(c, g, s, t, e0, k);
      } else {
        x := RevealsIf(c, g, s, t, e0, k);
      }
    }
  }

  lemma EndsAgree(c: Curve, g: Setting, s: seq<int>, t: seq<int>, e0: int)
    requires c.Valid() && Proper(c, g) && |s| == |t| == |g.keys|
    requires Closes(c, g, s, 0, e0) && Closes(c, g, t, 0, e0)
    ensures Agree(c, g, s, t, e0, |s|)
  {
    hide Walk, Cong, Curve.Valid, Curve.On;
    SelfCong(c, e0);
  }

  lemma CollidesIf(c: Curve, g: Setting, s: seq<int>, t: seq<int>, e0: int, k: nat)
    requires c.Valid() && Proper(c, g) && |s| == |t| == |g.keys| && k < |s|
    requires TranscriptOf(c, g, s, e0, k) != TranscriptOf(c, g, t, e0, k)
    requires Agree(c, g, s, t, e0, k + 1)
    ensures Collides(c, g, s, t, e0, k)
  {
    hide Walk, TranscriptOf, Agree, Cong, Hex2Bn, Curve.Valid, Curve.On;
    AgreeIff(c, g, s, t, e0, k);
  }

  lemma RevealsIf(c: Curve, g: Setting, s: seq<int>, t: seq<int>, e0: int, k: nat) returns (x: int)
    requires c.Valid() && Proper(c, g) && |s| == |t| == |g.keys| && k < |s| && |g.hash| % 2 == 0
    requires !Agree(c, g, s, t, e0, k)
    requires TranscriptOf(c, g, s, e0, k) == TranscriptOf(c, g, t, e0, k)
    ensures Reveals(c, g, s, t, e0, k, x)
  {
    hide Walk, Link, TranscriptAt, Cong, Curve.Valid, Curve.On, Owns;
    x := ForkRevealsSecret(c, g, k, s, e0, t, e0);
  }
}
