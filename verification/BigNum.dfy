/** Arbitrary-precision integers as the OpenSSL routines `BN_hex2bn` and `BN_bn2hex` read and
    print them. */
module BigNum {
  import opened Arith
  import opened Characters
  import opened Hex
  import opened Octets

  // ----- Reading --------------------------------------------------------------------------

  /** How many characters at the start of `s` are hexadecimal digits. */
  function DigitCount(s: string): (n: nat)
    ensures n <= |s| && IsHex(s[..n])
    ensures n < |s| ==> !IsHexDigit(s[n])
  {
    if s == "" || !IsHexDigit(s[0]) then 0
    else
      var n := 1 + DigitCount(s[1..]);
      assert forall i :: 0 < i < n ==> s[i] == s[1..][i - 1];
      n
  }

  function DigitsValue(s: string): nat
    requires IsHex(s)
  {
    if s == "" then 0 else 16 * DigitsValue(s[..|s| - 1]) + Digit(s[|s| - 1])
  }

  function Unsigned(s: string): nat {
    DigitsValue(s[..DigitCount(s)])
  }

  /** `BN_hex2bn` into a fresh number: an optional minus sign, then digits up to the first
      other character. Without a digit the number keeps its initial zero. */
  function Hex2Bn(s: string): int {
    if s != "" && s[0] == '-' then 0 - Unsigned(s[1..]) else Unsigned(s)
  }

  // ----- Printing -------------------------------------------------------------------------

  function Magnitude(n: nat): string {
    if n == 0 then ""
    else Magnitude(n / 256) + [UpperDigit(n % 256 / 16), UpperDigit(n % 256 % 16)]
  }

  /** `BN_bn2hex`: whole bytes without leading zero bytes, in upper case. */
  function Bn2Hex(n: int): string {
    if n == 0 then "0" else if n < 0 then "-" + Magnitude(-n) else Magnitude(n)
  }

  // ----- Reading undoes printing ----------------------------------------------------------

  lemma {:induction false} MagnitudeValue(n: nat)
    ensures IsHex(Magnitude(n)) && DigitsValue(Magnitude(n)) == n
    ensures n > 0 ==> Magnitude(n) != ""
  {
    if n != 0 {
      MagnitudeValue(n / 256);
      var s := Magnitude(n);
      var high, low := n % 256 / 16, n % 256 % 16;
      var front := s[..|s| - 1];
      assert s[|s| - 1] == UpperDigit(low);
      assert front == Magnitude(n / 256) + [UpperDigit(high)];
      assert front[..|front| - 1] == Magnitude(n / 256);
      assert DigitsValue(front) == 16 * (n / 256) + high;
    }
  }

  lemma DigitCountAll(s: string)
    requires IsHex(s)
    ensures DigitCount(s) == |s| && Unsigned(s) == DigitsValue(s)
  {
    assert s[..|s|] == s;
  }

  /** Every integer is read back from its print; so the print determines the integer. */
  lemma ReadPrinted(n: int)
    ensures Hex2Bn(Bn2Hex(n)) == n
  {
    if n == 0 {
      DigitCountAll("0");
      assert DigitsValue("0") == 16 * DigitsValue("") + 0;
    } else if n < 0 {
      MagnitudeValue(-n);
      DigitCountAll(Magnitude(-n));
      assert Bn2Hex(n)[1..] == Magnitude(-n);
    } else {
      MagnitudeValue(n);
      DigitCountAll(Magnitude(n));
      assert !IsHexDigit('-');
    }
  }

  // ----- Which spellings mean the same number ---------------------------------------------

  function Zeros(n: nat): string {
    seq(n, _ => '0')
  }

  lemma {:induction false} LeadingZeros(n: nat, s: string)
    requires IsHex(s)
    ensures IsHex(Zeros(n) + s) && DigitsValue(Zeros(n) + s) == DigitsValue(s)
    decreases n + |s|
  {
    var padded := Zeros(n) + s;
    assert IsHexDigit('0');
    if s != "" {
      LeadingZeros(n, s[..|s| - 1]);
      assert padded[..|padded| - 1] == Zeros(n) + s[..|s| - 1];
    } else if n > 0 {
      LeadingZeros(n - 1, s);
      assert padded[..|padded| - 1] == Zeros(n - 1) + s;
    }
  }

  lemma {:induction false} SameLengthSameValue(s: string, t: string)
    requires IsHex(s) && IsHex(t) && |s| == |t|
    ensures DigitsValue(s) == DigitsValue(t) <==> ToLower(s) == ToLower(t)
    decreases |s|
  {
    if s == "" {
      assert t == "";
    } else {
      var n := |s| - 1;
      SameLengthSameValue(s[..n], t[..n]);
      DigitSpelling(s[n]);
      DigitSpelling(t[n]);
      assert forall d: int, e: int | 0 <= d < 16 && 0 <= e < 16 && LowerDigit(d) == LowerDigit(e) :: d == e;
      assert ToLower(s) == ToLower(s[..n]) + [ToLowerChar(s[n])];
      assert ToLower(t) == ToLower(t[..n]) + [ToLowerChar(t[n])];
      if ToLower(s) == ToLower(t) {
        assert ToLower(s)[..n] == ToLower(s[..n]) && ToLower(t)[..n] == ToLower(t[..n]);
        assert ToLower(s)[n] == ToLower(t)[n];
      }
    }
  }

  /** Two digit strings are read as the same number exactly when they differ in the case of
      letters and in leading zeros only. */
  lemma SameNumberIff(s: string, t: string)
    requires IsHex(s) && IsHex(t) && |s| <= |t|
    ensures Hex2Bn(s) == Hex2Bn(t) <==> ToLower(Zeros(|t| - |s|) + s) == ToLower(t)
  {
    assert !IsHexDigit('-');
    DigitCountAll(s);
    DigitCountAll(t);
    LeadingZeros(|t| - |s|, s);
    SameLengthSameValue(Zeros(|t| - |s|) + s, t);
  }

  // ----- What is read ---------------------------------------------------------------------

  /** Reading takes an optional minus sign and the digits after it, and stops there. */
  lemma Hex2BnReads(minus: bool, digits: string, rest: string)
    requires IsHex(digits) && (rest == "" || !IsHexDigit(rest[0]))
    requires minus || digits != "" || rest == "" || rest[0] != '-'
    ensures Hex2Bn((if minus then "-" else "") + digits + rest) == if minus then 0 - DigitsValue(digits) else DigitsValue(digits)
  {
    hide DigitsValue, Digit, Unsigned;
    assert !IsHexDigit('-');
    var s := digits + rest;
    UnsignedStops(digits, rest);
    if minus {
      assert ("-" + digits + rest)[1..] == s;
    } else {
      assert "" + digits + rest == s;
      assert s != "" ==> s[0] == if digits != "" then digits[0] else rest[0];
    }
  }

  lemma UnsignedStops(digits: string, rest: string)
    requires IsHex(digits) && (rest == "" || !IsHexDigit(rest[0]))
    ensures Unsigned(digits + rest) == DigitsValue(digits)
  {
    hide DigitsValue, Digit, IsHexDigit;
    DigitCountStops(digits, rest);
    assert (digits + rest)[..|digits|] == digits;
  }

  lemma {:induction false} DigitCountStops(digits: string, rest: string)
    requires IsHex(digits) && (rest == "" || !IsHexDigit(rest[0]))
    ensures DigitCount(digits + rest) == |digits|
    decreases |digits|
  {
    if digits == "" {
      assert digits + rest == rest;
    } else {
      assert (digits + rest)[1..] == digits[1..] + rest;
      DigitCountStops(digits[1..], rest);
    }
  }

  lemma HexNumber(s: string)
    requires IsHex(s)
    ensures Hex2Bn(s) == Unsigned(s) == DigitsValue(s)
  {
    DigitCountAll(s);
    assert !IsHexDigit('-');
  }

  lemma {:induction false} EncodeUpperConcat(a: seq<Byte>, b: seq<Byte>)
    ensures EncodeUpper(a + b) == EncodeUpper(a) + EncodeUpper(b)
    decreases |a|
  {
    if a == [] {
      assert a + b == b;
    } else {
      assert (a + b)[1..] == a[1..] + b;
      EncodeUpperConcat(a[1..], b);
    }
  }

  lemma AppendPair(s: string, high: char, low: char)
    requires IsHex(s) && IsHexDigit(high) && IsHexDigit(low)
    ensures IsHex(s + [high, low])
    ensures DigitsValue(s + [high, low]) == 256 * DigitsValue(s) + 16 * Digit(high) + Digit(low)
  {
    hide ParseHex;
    var one, two := s + [high], s + [high, low];
    assert two[..|two| - 1] == one && one[..|one| - 1] == s;
  }

  lemma {:induction false} HexValue(bytes: seq<Byte>)
    ensures IsHex(EncodeUpper(bytes)) && DigitsValue(EncodeUpper(bytes)) == FromBigEndian(bytes)
    decreases |bytes|
  {
    hide ParseHex, UpperDigit;
    if bytes != [] {
      var front, v := bytes[..|bytes| - 1], bytes[|bytes| - 1];
      HexValue(front);
      EncodeUpperConcat(front, [v]);
      assert bytes == front + [v];
      PairRoundTrip(v);
      assert EncodeUpper([v]) == [UpperDigit(v / 16), UpperDigit(v % 16)];
      AppendPair(EncodeUpper(front), UpperDigit(v / 16), UpperDigit(v % 16));
    }
  }

  // ----- What is printed ------------------------------------------------------------------

  lemma {:induction false} MagnitudeIs(n: nat) returns (k: nat)
    ensures Magnitude(n) == EncodeUpper(BigEndian(n, k))
    ensures n < Pow256(k) && (k > 0 ==> Pow256(k - 1) <= n)
  {
    k := 0;
    if n > 0 {
      k := MagnitudeIs(n / 256);
      k := k + 1;
      EncodeUpperConcat(BigEndian(n / 256, k - 1), [n % 256]);
    }
  }

  /** A number is printed as a minus sign, if it is negative, and the upper-case digits of its
      octets, as many as it needs and no more. */
  lemma PrintIs(n: int) returns (k: nat)
    requires n != 0
    ensures k > 0 && Pow256(k - 1) <= (if n < 0 then -n else n) < Pow256(k)
    ensures Bn2Hex(n) == if n < 0 then "-" + EncodeUpper(BigEndian(-n, k)) else EncodeUpper(BigEndian(n, k))
  {
    k := MagnitudeIs(if n < 0 then -n else n);
  }

  // ----- Extraction from streams ----------------------------------------------------------

  function SkipBlanks(s: string): string {
    if s != "" && IsSpace(s[0]) then SkipBlanks(s[1..]) else s
  }

  /** What extracting an unsigned hexadecimal number of at most eight digits from a stream that
      holds `s` yields: blanks are skipped, one sign is taken, digits are read while they last,
      and a minus sign negates modulo 2^32. Without a digit the number is zero. */
  function Extracted(s: string): int {
    var t := SkipBlanks(s);
    if t != "" && t[0] == '-' then (0 - Unsigned(t[1..])) % 0x1_0000_0000
    else if t != "" && t[0] == '+' then Unsigned(t[1..])
    else Unsigned(t)
  }

  lemma UnsignedOfTwo(s: string)
    requires |s| <= 2
    ensures Unsigned(s) == if s == "" || !IsHexDigit(s[0]) then 0
                           else if |s| == 1 || !IsHexDigit(s[1]) then Digit(s[0])
                           else 16 * Digit(s[0]) + Digit(s[1])
  {
    hide ParseHex, Digit;
    var n := if s == "" || !IsHexDigit(s[0]) then 0 else if |s| == 1 || !IsHexDigit(s[1]) then 1 else 2;
    assert s == s[..n] + s[n..];
    DigitCountStops(s[..n], s[n..]);
    DigitsOfTwo(s[..n]);
  }

  lemma DigitsOfTwo(s: string)
    requires |s| <= 2 && IsHex(s)
    ensures DigitsValue(s) == if s == "" then 0 else if |s| == 1 then Digit(s[0]) else 16 * Digit(s[0]) + Digit(s[1])
  {
    hide ParseHex, Digit;
    if |s| == 2 {
      assert s[..1][..0] == "";
    }
  }

  /** The byte that `hexToString` makes of a pair is what is extracted from it, cut to eight bits. */
  lemma PairByteIsExtracted(a: char, b: char)
    ensures PairByte(a, b) == Extracted([a, b]) % 256
  {
    hide Digit, Unsigned, SkipBlanks;
    assert !IsHexDigit('-') && !IsHexDigit('+') && IsHexDigit('0') && !IsSpace('-') && !IsSpace('+');
    assert [a, b][1..] == [b] && [b][1..] == "";
    assert IsSpace(a) ==> !IsHexDigit(a);
    assert IsSpace(b) ==> !IsHexDigit(b);
    UnsignedOfTwo([a, b]);
    UnsignedOfTwo([b]);
    UnsignedOfTwo("");
    SkipTwo(a, b);
  }

  lemma SkipTwo(a: char, b: char)
    ensures SkipBlanks([a, b]) == if !IsSpace(a) then [a, b] else if !IsSpace(b) then [b] else ""
  {
    assert [a, b][1..] == [b] && [b][1..] == "";
    assert SkipBlanks([b]) == if IsSpace(b) then SkipBlanks([b][1..]) else [b];
    assert SkipBlanks([b][1..]) == "";
  }
}
