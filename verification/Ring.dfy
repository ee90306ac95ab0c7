/** The ring signature: `calc_e`, `sign` and `verify`, with the chain of challenges that the
    two loops compute. */
module Ring {
  import opened Options
  import opened Hex
  import opened BigNum
  import opened Arith
  import opened Curves
  import opened PointEncoding
  import opened HashToCurve

  // ----- One link of the chain ------------------------------------------------------------

  /** The bytes that are hashed into a challenge. */
  function Transcript(hash: string, R: Point, R2: Point): seq<Byte> {
    StringBytes(hash + PointHex(R) + PointHex(R2))
  }

  /** `Hs` of the hashed transcript: the hash read as a number, not reduced. */
  function Challenge(c: Curve, hash: string, R: Point, R2: Point): int {
    Hex2Bn(c.sha3(Transcript(hash, R, R2)))
  }

  /** The hash of a byte string to the curve. */
  ghost function Hp(c: Curve, bytes: seq<Byte>): (a: Point)
    requires c.Valid()
    ensures c.On(a) && a != Infinity
  {
    assert c.HashAt(bytes);
    HashToPointOn(c, c.sha3(bytes));
    HashToPoint(c, c.sha3(bytes))
  }

  /** s*A + e*B */
  function Combine(c: Curve, s: int, A: Point, e: int, B: Point): Point {
    c.add(c.Mul(s, A), c.Mul(e, B))
  }

  /** The challenge that response `s` and challenge `e` of one member lead to. */
  ghost function Link(c: Curve, hash: string, s: int, e: int, P: Point, I: Point): int
    requires c.Valid() && c.On(P) && c.On(I)
  {
    Challenge(c, hash, Combine(c, s, c.gen, e, P), Combine(c, s, Hp(c, Encode(P)), e, I))
  }

  method CalcE(c: Curve, hash: string, s: int, e: int, P: Point, I: Point) returns (r: int)
    requires c.Valid() && c.On(P) && c.On(I)
    ensures r == Link(c, hash, s, e, P, I)
  {
    var S := c.Mul(s, c.gen);
    var E := c.Mul(e, P);
    var R := c.add(S, E);
    var PBytes := HexToString(PointHex(P));
    PointHexShape(P);
    assert c.HashAt(PBytes);
    var HpP := SsvgHashToCurve(c, c.sha3(PBytes));
    var S2 := c.Mul(s, HpP);
    var E2 := c.Mul(e, I);
    var R2 := c.add(S2, E2);
    var bytes := HexToString(hash + PointHex(R) + PointHex(R2));
    r := Hex2Bn(c.sha3(bytes));
  }

  // ----- The chain ------------------------------------------------------------------------

  /** What a signature is about: the message hash, the ring members, the key image. */
  datatype Setting = Setting(hash: string, keys: seq<Point>, image: Point)

  ghost predicate Proper(c: Curve, g: Setting)
    requires c.p > 0
  {
    && |g.keys| > 0
    && (forall i :: 0 <= i < |g.keys| ==> c.On(g.keys[i]))
    && c.On(g.image)
  }

  lemma RingNotEmpty(c: Curve, g: Setting)
    requires c.Valid() && Proper(c, g)
    ensures |g.keys| > 0 && c.p > 0 && c.On(g.image)
  {
  }

  lemma KeyOn(c: Curve, g: Setting, i: nat)
    requires c.Valid() && Proper(c, g) && i < |g.keys|
    ensures c.On(g.keys[i])
  {
  }

  /** The slot `k` places after slot `from`, around a ring of `N`. */
  function Slot(from: nat, k: nat, N: nat): (r: nat)
    requires N > 0
    ensures r < N
  {
    (from + k) % N
  }

  /** The challenge reached from challenge `e` of slot `from` after `k` links around the ring. */
  ghost function Walk(c: Curve, g: Setting, s: seq<int>, from: nat, e: int, k: nat): int
    requires c.Valid() && Proper(c, g) && |s| == |g.keys|
    decreases k
  {
    if k == 0 then e
    else
      var slot := Slot(from, k - 1, |s|);
      Link(c, g.hash, s[slot], Walk(c, g, s, from, e, k - 1), g.keys[slot], g.image)
  }

  /** The whole way around the ring leads back to the challenge it started from. */
  ghost predicate Closes(c: Curve, g: Setting, s: seq<int>, from: nat, e: int)
    requires c.Valid() && Proper(c, g) && |s| == |g.keys|
  {
    Walk(c, g, s, from, e, |s|) == e
  }

  // ----- Reading the arguments ------------------------------------------------------------

  /** What the callers promise: the strings spell points other than the identity. */
  predicate SpellsPoint(c: Curve, s: string)
    requires c.p > 0
  {
    HexPoint(c, s).Some? && HexPoint(c, s).value.Affine?
  }

  predicate SpellsRing(c: Curve, outputs: seq<string>, keyImage: string)
    requires c.p > 0
  {
    && (forall i :: 0 <= i < |outputs| ==> SpellsPoint(c, outputs[i]))
    && SpellsPoint(c, keyImage)
  }

  function ReadSetting(c: Curve, hash: string, outputs: seq<string>, keyImage: string): Setting
    requires c.p > 0 && SpellsRing(c, outputs, keyImage)
  {
    Setting(hash,
            seq(|outputs|, i requires 0 <= i < |outputs| => HexPoint(c, outputs[i]).value),
            HexPoint(c, keyImage).value)
  }

  lemma SettingProper(c: Curve, hash: string, outputs: seq<string>, keyImage: string)
    requires c.Valid() && SpellsRing(c, outputs, keyImage) && outputs != []
    ensures Proper(c, ReadSetting(c, hash, outputs, keyImage))
  {
    forall i | 0 <= i < |outputs| ensures c.On(HexPoint(c, outputs[i]).value) {
      HexPointBytes(c, outputs[i]);
    }
    HexPointBytes(c, keyImage);
  }

  /** `std::find`: the first position of `x`, or the length. */
  function Find(outputs: seq<string>, x: string): (j: nat)
    ensures j <= |outputs|
    ensures j < |outputs| ==> outputs[j] == x
    ensures forall i :: 0 <= i < j ==> outputs[i] != x
  {
    if outputs == [] || outputs[0] == x then 0 else 1 + Find(outputs[1..], x)
  }

  function Numbers(strings: seq<string>): seq<int> {
    seq(|strings|, i requires 0 <= i < |strings| => Hex2Bn(strings[i]))
  }

  function Prints(numbers: seq<int>): seq<string> {
    seq(|numbers|, i requires 0 <= i < |numbers| => Bn2Hex(numbers[i]))
  }

  // ----- verify ---------------------------------------------------------------------------

  /** A result, or the exception that `vector::at` throws. */
  datatype Outcome<+T> = Returned(value: T) | OutOfRange

  /** What `verify` decides. */
  ghost function Verdict(c: Curve, hash: string, sig: seq<string>, outputs: seq<string>, keyImage: string): Outcome<bool>
    requires c.Valid() && (|sig| == |outputs| + 1 && outputs != [] ==> SpellsRing(c, outputs, keyImage))
  {
    if |sig| != |outputs| + 1 then Returned(false)
    else if outputs == [] then OutOfRange
    else
      SettingProper(c, hash, outputs, keyImage);
      Returned(Closes(c, ReadSetting(c, hash, outputs, keyImage), Numbers(sig[1..]), 0, Hex2Bn(sig[0])))
  }

  /** The part of the first loop of both functions that reads the ring members. */
  method ReadKeys(c: Curve, outputs: seq<string>, ghost g: Setting) returns (P: array<Point>)
    requires c.p > 0 && |outputs| == |g.keys|
    requires forall i :: 0 <= i < |outputs| ==> HexPoint(c, outputs[i]) == Some(g.keys[i])
    ensures fresh(P) && P[..] == g.keys
  {
    P := new Point[|outputs|](_ => Infinity);
    var i := 0;
    while i < |outputs|
      invariant 0 <= i <= |outputs|
      invariant P[..i] == g.keys[..i]
    {
      P[i] := HexPoint(c, outputs[i]).value;
      i := i + 1;
    }
  }

  /** The part of it that reads the responses of a signature. */
  method ReadResponses(sig: seq<string>) returns (s: array<int>)
    requires sig != []
    ensures fresh(s) && s[..] == Numbers(sig[1..])
  {
    s := new int[|sig| - 1](_ => 0);
    var i := 0;
    while i < |sig| - 1
      invariant 0 <= i <= |sig| - 1
      invariant s[..i] == Numbers(sig[1..])[..i]
    {
      s[i] := Hex2Bn(sig[i + 1]);
      i := i + 1;
    }
  }

  lemma SlotIs(from: nat, k: nat, i: nat, N: nat)
    requires N > 0 && i == from + k
    ensures Slot(from, k, N) == i % N
  {
  }

  /** The loop of `verify`: once around the ring, back into slot 0. */
  method Recompute(c: Curve, ghost g: Setting, hash: string, e: array<int>, s: array<int>, P: array<Point>, I: Point)
    requires c.Valid() && Proper(c, g) && hash == g.hash && I == g.image
    requires e.Length == s.Length == |g.keys| && P[..] == g.keys
    requires e != s
    modifies e
    ensures e[0] == Walk(c, g, s[..], 0, old(e[0]), s.Length)
  {
    hide Link, Curve.Valid;
    var N := s.Length;
    ghost var start, responses := e[0], s[..];
    SlotIs(0, 0, 0, N);
    DivisionUnique(0, N, 0, 0);
    var i := 0;
    while i < N
      invariant 0 <= i <= N
      invariant s[..] == responses && P[..] == g.keys
      invariant e[Slot(0, i, N)] == Walk(c, g, responses, 0, start, i)
    {
      var prev := i % N;
      var curr := (i + 1) % N;
      SlotIs(0, i, i, N);
      SlotIs(0, i + 1, i + 1, N);
      assert responses[prev] == s[prev] && g.keys[prev] == P[prev];
      var next := CalcE(c, hash, s[prev], e[prev], P[prev], I);
      e[curr] := next;
      i := i + 1;
    }
    SlotIs(0, N, N, N);
    DivisionUnique(N, N, 1, 0);
  }

  method Verify(c: Curve, hash: string, sig: seq<string>, publicAddrs: seq<string>, keyImage: string)
    returns (r: Outcome<bool>)
    requires c.Valid() && (|sig| == |publicAddrs| + 1 && publicAddrs != [] ==> SpellsRing(c, publicAddrs, keyImage))
    ensures r == Verdict(c, hash, sig, publicAddrs, keyImage)
    ensures |sig| != |publicAddrs| + 1 ==> r == Returned(false)
    ensures r == OutOfRange <==> |sig| == 1 && publicAddrs == []
  {
    // The unsigned size minus one wraps around for an empty signature.
    if |sig| == 0 || |sig| - 1 != |publicAddrs| {
      return Returned(false);
    }
    var N := |publicAddrs|;
    if N == 0 {
      return OutOfRange;
    }
    ghost var g := ReadSetting(c, hash, publicAddrs, keyImage);
    SettingProper(c, hash, publicAddrs, keyImage);
    var I := HexPoint(c, keyImage).value;
    var s := ReadResponses(sig);
    var P := ReadKeys(c, publicAddrs, g);
    var e := new int[N](_ => 0);
    e[0] := Hex2Bn(sig[0]);
    ReadPrinted(e[0]);
    var e0 := Bn2Hex(e[0]);
    Recompute(c, g, hash, e, s, P, I);
    ReadPrinted(e[0]);
    var edash := Bn2Hex(e[0]);
    return Returned(e0 == edash);
  }

  // ----- sign -----------------------------------------------------------------------------

  /** The randomness of one call: `alpha` and one response a slot, all below the group order.
      The response of the signer's own slot is not used. */
  ghost predicate Randomness(c: Curve, N: nat, alpha: int, rand: seq<int>) {
    && 0 <= alpha < c.q
    && |rand| == N
    && forall i :: 0 <= i < N ==> 0 <= rand[i] < c.q
  }

  /** The challenge of the slot after the signer's. */
  ghost function FirstChallenge(c: Curve, hash: string, alpha: int, H: Point): int
    requires c.Valid() && c.On(H)
  {
    Challenge(c, hash, c.Mul(alpha, c.gen), c.Mul(alpha, H))
  }

  /** The response that closes the ring. */
  function ClosingResponse(q: nat, alpha: int, e: int, x: int): int
    requires q > 0
  {
    (alpha - e * x % q) % q
  }

  /** The signature of the member at slot `j`, whose hash point is `H` and whose secret is `x`,
      as numbers: the challenge of slot 0 and the responses. */
  ghost function Signature(c: Curve, g: Setting, j: nat, H: Point, x: int, alpha: int, rand: seq<int>): (int, seq<int>)
    requires c.Valid() && Proper(c, g) && c.On(H)
    requires j < |g.keys| == |rand|
  {
    var N := |rand|;
    var first := FirstChallenge(c, g.hash, alpha, H);
    var ej := Walk(c, g, rand, j + 1, first, N - 1);
    (Walk(c, g, rand, j + 1, first, N - 1 - j), rand[j := ClosingResponse(c.q, alpha, ej, x)])
  }

  /** A signature as `sign` returns it. */
  function Strings(numbers: (int, seq<int>)): seq<string> {
    [Bn2Hex(numbers.0)] + Prints(numbers.1)
  }

  /** What `sign` returns for the given randomness. */
  ghost function Signed(c: Curve, hash: string, outputs: seq<string>, realOutput: string, x: int, keyImage: string,
                        alpha: int, rand: seq<int>): Outcome<seq<string>>
    requires c.Valid() && SpellsRing(c, outputs, keyImage) && outputs != []
    requires Randomness(c, |outputs|, alpha, rand)
  {
    var j := Find(outputs, realOutput);
    if j == |outputs| then OutOfRange
    else
      SettingProper(c, hash, outputs, keyImage);
      var g := ReadSetting(c, hash, outputs, keyImage);
      Returned(Strings(Signature(c, g, j, Hp(c, StringBytes(realOutput)), x, alpha, rand)))
  }

  /** Different distances of less than a whole turn lead to different slots. */
  lemma SlotsDiffer(from: nat, k: nat, l: nat, N: nat)
    requires N > 0 && k < l < k + N
    ensures Slot(from, k, N) != Slot(from, l, N)
  {
    if Slot(from, k, N) == Slot(from, l, N) {
      CongIffSameRest(from + l, from + k, N);
      DivisionUnique(l - k, N, 0, l - k);
    }
  }

  /** The part of the first loop of `sign` that draws the responses. */
  method DrawResponses(N: nat, j: nat, rand: seq<int>) returns (s: array<int>)
    requires |rand| == N && j <= N
    ensures fresh(s) && s.Length == N
    ensures s[..] == if j < N then rand[j := 0] else rand
  {
    s := new int[N](_ => 0);
    var i := 0;
    ghost var drawn := if j < N then rand[j := 0] else rand;
    while i < N
      invariant 0 <= i <= N
      invariant s[..i] == drawn[..i]
      invariant i <= j < N ==> s[j] == 0
    {
      if i != j {
        s[i] := rand[i];
      }
      i := i + 1;
    }
  }

  /** The first `n + 1` challenges after slot `from` are in place. */
  ghost predicate Filled(c: Curve, g: Setting, s: seq<int>, from: nat, first: int, e: seq<int>, n: nat)
    requires c.Valid() && Proper(c, g) && |e| == |s| == |g.keys|
  {
    forall k :: 0 <= k <= n ==> e[Slot(from, k, |e|)] == Walk(c, g, s, from, first, k)
  }

  lemma FillNext(c: Curve, g: Setting, s: seq<int>, from: nat, first: int, e: seq<int>, n: nat)
    requires c.Valid() && Proper(c, g) && |e| == |s| == |g.keys|
    requires Filled(c, g, s, from, first, e, n) && n + 1 < |e|
    ensures Filled(c, g, s, from, first,
                   e[Slot(from, n + 1, |e|) := Walk(c, g, s, from, first, n + 1)], n + 1)
  {
    hide Link, Slot, Curve.Valid, Proper;
    forall k | 0 <= k <= n ensures Slot(from, k, |e|) != Slot(from, n + 1, |e|) {
      SlotsDiffer(from, k, n + 1, |e|);
    }
  }

  /** The link from one slot to the next extends what is filled. */
  lemma FillStep(c: Curve, g: Setting, s: seq<int>, from: nat, first: int, e: seq<int>, n: nat, next: int)
    requires c.Valid() && Proper(c, g) && |e| == |s| == |g.keys|
    requires Filled(c, g, s, from, first, e, n) && n + 1 < |e|
    requires var prev := Slot(from, n, |e|);
             next == Link(c, g.hash, s[prev], e[prev], g.keys[prev], g.image)
    ensures Filled(c, g, s, from, first, e[Slot(from, n + 1, |e|) := next], n + 1)
  {
    hide Link, Slot, Filled, Curve.Valid, Curve.On;
    FilledAt(c, g, s, from, first, e, n, n);
    FillNext(c, g, s, from, first, e, n);
  }

  lemma FilledStart(c: Curve, g: Setting, s: seq<int>, from: nat, e: seq<int>)
    requires c.Valid() && Proper(c, g) && |e| == |s| == |g.keys|
    ensures Filled(c, g, s, from, e[Slot(from, 0, |e|)], e, 0)
  {
    hide Link, Slot, Curve.Valid, Curve.On;
  }

  /** The wrap-around loop of `sign`, with `from` the slot after the signer's: it fills every
      slot of `e` once and, when the signer is in the ring, ends at the signer's. */
  method FillChallenges(c: Curve, ghost g: Setting, hash: string, e: array<int>, s: array<int>, P: array<Point>,
                        I: Point, from: nat)
    requires c.Valid() && Proper(c, g) && hash == g.hash && I == g.image
    requires e.Length == s.Length == |g.keys| && P[..] == g.keys
    requires e != s
    modifies e
    ensures Filled(c, g, s[..], from, old(e[Slot(from, 0, e.Length)]), e[..], e.Length - 1)
  {
    hide Link, Slot, Walk, Filled, Proper, Curve.Valid, Curve.On;
    var N := e.Length;
    RingNotEmpty(c, g);
    ghost var first, responses := e[Slot(from, 0, N)], s[..];
    FilledStart(c, g, responses, from, e[..]);
    var i := from;
    var count := 0;
    while count < N - 1
      invariant 0 <= count <= N - 1 && i == from + count
      invariant s[..] == responses && P[..] == g.keys
      invariant Filled(c, g, responses, from, first, e[..], count)
    {
      KeyOn(c, g, i % N);
      var prev := i % N;
      var curr := (i + 1) % N;
      SlotIs(from, count, i, N);
      SlotIs(from, count + 1, i + 1, N);
      assert responses[prev] == s[prev] && g.keys[prev] == P[prev];
      var next := CalcE(c, hash, s[prev], e[prev], P[prev], I);
      FillStep(c, g, responses, from, first, e[..], count, next);
      ghost var filled := e[..][curr := next];
      e[curr] := next;
      assert e[..] == filled;
      i := i + 1;
      count := count + 1;
    }
  }

  lemma FilledAt(c: Curve, g: Setting, s: seq<int>, from: nat, first: int, e: seq<int>, n: nat, k: nat)
    requires c.Valid() && Proper(c, g) && |e| == |s| == |g.keys|
    requires Filled(c, g, s, from, first, e, n) && k <= n
    ensures e[Slot(from, k, |e|)] == Walk(c, g, s, from, first, k)
  {
  }

  /** The two modular operations on the signer's response. */
  method CloseRing(q: nat, s: array<int>, j: nat, alpha: int, ej: int, x: int)
    requires q > 0 && j < s.Length
    modifies s
    ensures s[..] == old(s[..])[j := ClosingResponse(q, alpha, ej, x)]
  {
    s[j] := ej * x % q;
    s[j] := (alpha - s[j]) % q;
  }

  /** The last loop of `sign`. */
  method PrintSignature(e0: int, s: array<int>) returns (sig: seq<string>)
    ensures sig == Strings((e0, s[..]))
  {
    sig := [Bn2Hex(e0)];
    var n := 0;
    while n < s.Length
      invariant 0 <= n <= s.Length
      invariant sig == [Bn2Hex(e0)] + Prints(s[..n])
    {
      assert s[..n + 1] == s[..n] + [s[n]];
      sig := sig + [Bn2Hex(s[n])];
      n := n + 1;
    }
    assert s[..n] == s[..];
  }

  /** The end of `sign`: the missing response, and the printed result. */
  method FinishSignature(q: nat, e: array<int>, s: array<int>, j: nat, alpha: int, x: int) returns (sig: seq<string>)
    requires q > 0 && j < s.Length && j < e.Length && e != s
    modifies s
    ensures sig == Strings((e[0], old(s[..])[j := ClosingResponse(q, alpha, e[j], x)]))
  {
    CloseRing(q, s, j, alpha, e[j], x);
    sig := PrintSignature(e[0], s);
  }

  /** The challenge after the signer's slot, from `alpha` instead of a response. */
  method StartChallenge(c: Curve, hash: string, realOutput: string, alpha: int) returns (first: int)
    requires c.Valid()
    ensures first == FirstChallenge(c, hash, alpha, Hp(c, StringBytes(realOutput)))
  {
    var Q := c.Mul(alpha, c.gen);
    var realBytes := HexToString(realOutput);
    assert c.HashAt(realBytes);
    var HpPj := SsvgHashToCurve(c, c.sha3(realBytes));
    var Q2 := c.Mul(alpha, HpPj);
    var bytes := HexToString(hash + PointHex(Q) + PointHex(Q2));
    first := Hex2Bn(c.sha3(bytes));
  }

  /** The rest of `sign`, once its arguments are read and the first challenge is known. */
  method SignFrom(c: Curve, ghost g: Setting, hash: string, j: nat, ghost H: Point, x: int, alpha: int,
                  ghost rand: seq<int>, first: int, s: array<int>, P: array<Point>, I: Point)
    returns (r: Outcome<seq<string>>)
    requires c.Valid() && Proper(c, g) && c.On(H) && hash == g.hash && I == g.image
    requires s.Length == |rand| == |g.keys| && P[..] == g.keys && j <= |rand|
    requires s[..] == (if j < |rand| then rand[j := 0] else rand)
    requires first == FirstChallenge(c, hash, alpha, H)
    modifies s
    ensures j == |rand| ==> r == OutOfRange
    ensures j < |rand| ==> r == Returned(Strings(Signature(c, g, j, H, x, alpha, rand)))
  {
    hide Link, Slot, Curve.Valid, Curve.On, ClosingResponse, Filled, FirstChallenge, Signature, Strings;
    Positive(c);
    var N := s.Length;
    var next := (j + 1) % N;
    SlotIs(j + 1, 0, j + 1, N);
    var e := new int[N](_ => 0);
    e[next] := first;
    FillChallenges(c, g, hash, e, s, P, I, j + 1);
    if j == N {
      return OutOfRange;
    }
    ghost var drawn, filled := s[..], e[..];
    assert drawn == rand[j := 0];
    SignatureFilled(c, g, j, H, x, alpha, rand, drawn, filled);
    ghost var sj := ClosingResponse(c.q, alpha, filled[j], x);
    assert drawn[j := sj] == rand[j := sj];
    var sig := FinishSignature(c.q, e, s, j, alpha, x);
    return Returned(sig);
  }

  method Sign(c: Curve, hash: string, outputs: seq<string>, realOutput: string, stealthKey: string, keyImage: string,
              alpha: int, rand: seq<int>)
    returns (r: Outcome<seq<string>>)
    requires c.Valid() && SpellsRing(c, outputs, keyImage) && outputs != []
    requires Randomness(c, |outputs|, alpha, rand)
    ensures r == Signed(c, hash, outputs, realOutput, Hex2Bn(stealthKey), keyImage, alpha, rand)
    ensures r == OutOfRange <==> realOutput !in outputs
    ensures r.Returned? ==> |r.value| == |outputs| + 1
  {
    hide Link, Slot, Curve.Valid, Curve.On, Signature, Signed, FirstChallenge;
    Positive(c);
    SignedShape(c, hash, outputs, realOutput, Hex2Bn(stealthKey), keyImage, alpha, rand);
    var N := |outputs|;
    var j := Find(outputs, realOutput);
    ghost var g := ReadSetting(c, hash, outputs, keyImage);
    SettingProper(c, hash, outputs, keyImage);
    var s := DrawResponses(N, j, rand);
    var P := ReadKeys(c, outputs, g);
    var x := Hex2Bn(stealthKey);
    var I := HexPoint(c, keyImage).value;
    var first := StartChallenge(c, hash, realOutput, alpha);
    ghost var H := Hp(c, StringBytes(realOutput));
    r := SignFrom(c, g, hash, j, H, x, alpha, rand, first, s, P, I);
    SignedIs(c, hash, outputs, realOutput, x, keyImage, alpha, rand);
  }

  lemma SignedIs(c: Curve, hash: string, outputs: seq<string>, realOutput: string, x: int, keyImage: string,
                 alpha: int, rand: seq<int>)
    requires c.Valid() && SpellsRing(c, outputs, keyImage) && outputs != []
    requires Randomness(c, |outputs|, alpha, rand) && Proper(c, ReadSetting(c, hash, outputs, keyImage))
    ensures var j, g := Find(outputs, realOutput), ReadSetting(c, hash, outputs, keyImage);
            Signed(c, hash, outputs, realOutput, x, keyImage, alpha, rand) ==
              if j == |outputs| then OutOfRange
              else Returned(Strings(Signature(c, g, j, Hp(c, StringBytes(realOutput)), x, alpha, rand)))
  {
    hide Signature, Strings, Hp, Curve.Valid, Curve.On;
  }

  /** `sign` fails exactly when the signer is not in the ring; otherwise it returns one number more
      than there are members. */
  lemma SignedShape(c: Curve, hash: string, outputs: seq<string>, realOutput: string, x: int, keyImage: string,
                    alpha: int, rand: seq<int>)
    requires c.Valid() && SpellsRing(c, outputs, keyImage) && outputs != []
    requires Randomness(c, |outputs|, alpha, rand)
    ensures var r := Signed(c, hash, outputs, realOutput, x, keyImage, alpha, rand);
            && (r == OutOfRange <==> realOutput !in outputs)
            && (r.Returned? ==> |r.value| == |outputs| + 1)
  {
    hide Hp, Walk, FirstChallenge, ClosingResponse, Curve.On;
  }

  /** The filled challenges hold the numbers of the signature. */
  lemma SignatureFilled(c: Curve, g: Setting, j: nat, H: Point, x: int, alpha: int, rand: seq<int>,
                        s: seq<int>, e: seq<int>)
    requires c.Valid() && Proper(c, g) && c.On(H)
    requires j < |g.keys| == |rand| && |s| == |e| == |rand| && s == rand[j := 0]
    requires Filled(c, g, s, j + 1, FirstChallenge(c, g.hash, alpha, H), e, |e| - 1)
    ensures Signature(c, g, j, H, x, alpha, rand) == (e[0], rand[j := ClosingResponse(c.q, alpha, e[j], x)])
  {
    hide Link, Slot, Curve.Valid, Curve.On, Proper, Filled, FirstChallenge, ClosingResponse;
    var first, N := FirstChallenge(c, g.hash, alpha, H), |rand|;
    LastSlots(j, N);
    FilledAt(c, g, s, j + 1, first, e, N - 1, N - 1);
    FilledAt(c, g, s, j + 1, first, e, N - 1, N - 1 - j);
    WalkSkipsStart(c, g, rand, s, j, first, N - 1);
    WalkSkipsStart(c, g, rand, s, j, first, N - 1 - j);
  }

  /** Less than a whole turn that starts after slot `j` does not read the response of slot `j`. */
  lemma {:induction false} WalkSkipsStart(c: Curve, g: Setting, s: seq<int>, t: seq<int>, j: nat, e: int, k: nat)
    requires c.Valid() && Proper(c, g) && |s| == |t| == |g.keys|
    requires j < |s| && k < |s|
    requires forall i :: 0 <= i < |s| && i != j ==> s[i] == t[i]
    ensures Walk(c, g, s, j + 1, e, k) == Walk(c, g, t, j + 1, e, k)
    decreases k
  {
    hide Link, Slot, Curve.Valid, Curve.On;
    if k > 0 {
      WalkSkipsStart(c, g, s, t, j, e, k - 1);
      SlotsDiffer(j, 0, k, |s|);
      SlotIs(j, 0, j, |s|);
      DivisionUnique(j, |s|, 0, j);
      SlotIs(j + 1, k - 1, j + k, |s|);
      SlotIs(j, k, j + k, |s|);
    }
  }

  lemma LastSlots(j: nat, N: nat)
    requires j < N
    ensures Slot(j + 1, N - 1, N) == j && Slot(j + 1, N - 1 - j, N) == 0
  {
    DivisionUnique(j + N, N, 1, j);
    DivisionUnique(N, N, 1, 0);
  }
}
