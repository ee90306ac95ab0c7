/** Bytes and their hexadecimal spellings. `Decode` is the common meaning that the two
    decoders of the library, and the encoder that they undo, are proved against. */
module Hex {
  import opened Characters
  import opened Options

  type Byte = b: int | 0 <= b < 256

  // ----- Digits ---------------------------------------------------------------------------

  /** `parse_hex`; None stands for its call of `std::abort`. */
  function ParseHex(c: char): Option<int> {
    if '0' <= c <= '9' then Some(c as int - '0' as int)
    else if 'A' <= c <= 'F' then Some(c as int - 'A' as int + 10)
    else if 'a' <= c <= 'f' then Some(c as int - 'a' as int + 10)
    else None
  }

  predicate IsHexDigit(c: char) {
    ParseHex(c).Some?
  }

  function Digit(c: char): (d: int)
    requires IsHexDigit(c)
    ensures 0 <= d < 16
  {
    ParseHex(c).value
  }

  function LowerDigit(d: int): char
    requires 0 <= d < 16
  {
    if d < 10 then '0' + d as char else 'a' + (d - 10) as char
  }

  function UpperDigit(d: int): char
    requires 0 <= d < 16
  {
    if d < 10 then '0' + d as char else 'A' + (d - 10) as char
  }

  function ToLowerChar(c: char): char {
    if 'A' <= c <= 'Z' then c + 32 as char else c
  }

  predicate IsHex(s: string) {
    forall i :: 0 <= i < |s| ==> IsHexDigit(s[i])
  }

  function ToLower(s: string): string {
    seq(|s|, i requires 0 <= i < |s| => ToLowerChar(s[i]))
  }

  // ----- Byte strings ---------------------------------------------------------------------

  /** The bytes spelled by the pairs of `s`; an odd last digit is not looked at. */
  function Decode(s: string): seq<Byte>
    requires IsHex(s)
  {
    if |s| < 2 then [] else [16 * Digit(s[0]) + Digit(s[1])] + Decode(s[2..])
  }

  function EncodeLower(bytes: seq<Byte>): string {
    if bytes == [] then "" else [LowerDigit(bytes[0] / 16), LowerDigit(bytes[0] % 16)] + EncodeLower(bytes[1..])
  }

  function EncodeUpper(bytes: seq<Byte>): string {
    if bytes == [] then "" else [UpperDigit(bytes[0] / 16), UpperDigit(bytes[0] % 16)] + EncodeUpper(bytes[1..])
  }

  lemma {:induction false} DecodeAt(s: string, k: nat)
    requires IsHex(s)
    ensures |Decode(s)| == |s| / 2
    ensures k < |s| / 2 ==> Decode(s)[k] == 16 * Digit(s[2 * k]) + Digit(s[2 * k + 1])
    decreases |s|
  {
    if |s| >= 2 {
      var rest, l := s[2..], if k == 0 then 0 else k - 1;
      DecodeAt(rest, l);
      assert k > 0 && k < |s| / 2 ==> rest[2 * l] == s[2 * k] && rest[2 * l + 1] == s[2 * k + 1];
    }
  }

  lemma {:induction false} EncodeLowerConcat(a: seq<Byte>, b: seq<Byte>)
    ensures EncodeLower(a + b) == EncodeLower(a) + EncodeLower(b)
    decreases |a|
  {
    if a == [] {
      assert a + b == b;
    } else {
      assert (a + b)[1..] == a[1..] + b;
      EncodeLowerConcat(a[1..], b);
    }
  }

  lemma PairRoundTrip(v: Byte)
    ensures v == 16 * (v / 16) + v % 16
    ensures ParseHex(LowerDigit(v / 16)) == ParseHex(UpperDigit(v / 16)) == Some(v / 16)
    ensures ParseHex(LowerDigit(v % 16)) == ParseHex(UpperDigit(v % 16)) == Some(v % 16)
  {
  }

  /** Decoding undoes encoding in lower case. */
  lemma {:induction false} DecodeEncodeLower(bytes: seq<Byte>)
    ensures |EncodeLower(bytes)| == 2 * |bytes| && IsHex(EncodeLower(bytes))
    ensures Decode(EncodeLower(bytes)) == bytes
    decreases |bytes|
  {
    if bytes != [] {
      PairRoundTrip(bytes[0]);
      DecodeEncodeLower(bytes[1..]);
      assert EncodeLower(bytes)[2..] == EncodeLower(bytes[1..]);
    }
  }

  /** Decoding undoes encoding in upper case. */
  lemma {:induction false} DecodeEncodeUpper(bytes: seq<Byte>)
    ensures |EncodeUpper(bytes)| == 2 * |bytes| && IsHex(EncodeUpper(bytes))
    ensures Decode(EncodeUpper(bytes)) == bytes
    decreases |bytes|
  {
    if bytes != [] {
      PairRoundTrip(bytes[0]);
      DecodeEncodeUpper(bytes[1..]);
      assert EncodeUpper(bytes)[2..] == EncodeUpper(bytes[1..]);
    }
  }

  lemma DigitSpelling(c: char)
    requires IsHexDigit(c)
    ensures LowerDigit(Digit(c)) == ToLowerChar(c)
  {
  }

  lemma PairSpelling(a: char, b: char)
    requires IsHexDigit(a) && IsHexDigit(b)
    ensures var v := 16 * Digit(a) + Digit(b);
            EncodeLower([v]) == [ToLowerChar(a), ToLowerChar(b)]
  {
    hide ParseHex, Digit, IsHexDigit;
    DigitSpelling(a);
    DigitSpelling(b);
    var v := 16 * Digit(a) + Digit(b);
    assert v / 16 == Digit(a) && v % 16 == Digit(b);
  }

  lemma UpperDigitIs(d: int)
    requires 0 <= d < 16
    ensures ToLowerChar(UpperDigit(d)) == LowerDigit(d) && UpperDigit(d) <= 'F'
  {
  }

  /** Upper case is what the letters of a printed point are in, and the only difference. */
  lemma {:induction false} EncodeUpperIs(bytes: seq<Byte>)
    ensures ToLower(EncodeUpper(bytes)) == EncodeLower(bytes)
    ensures forall i :: 0 <= i < |EncodeUpper(bytes)| ==> EncodeUpper(bytes)[i] <= 'F'
    decreases |bytes|
  {
    hide UpperDigit, LowerDigit, ToLowerChar;
    if bytes != [] {
      EncodeUpperIs(bytes[1..]);
      UpperDigitIs(bytes[0] / 16);
      UpperDigitIs(bytes[0] % 16);
      var pair := [UpperDigit(bytes[0] / 16), UpperDigit(bytes[0] % 16)];
      assert ToLower(EncodeUpper(bytes)) == ToLower(pair) + ToLower(EncodeUpper(bytes[1..]));
    }
  }

  /** Encoding what was decoded puts the digits into lower case. */
  lemma {:induction false} EncodeDecode(s: string)
    requires IsHex(s) && |s| % 2 == 0
    ensures EncodeLower(Decode(s)) == ToLower(s)
    decreases |s|
  {
    hide ParseHex, Digit, IsHexDigit, ToLowerChar, EncodeLower;
    if s == "" {
      EncodeNothing();
    } else {
      PairSpelling(s[0], s[1]);
      EncodeDecode(s[2..]);
      EncodeLowerConcat([16 * Digit(s[0]) + Digit(s[1])], Decode(s[2..]));
      assert ToLower(s) == [ToLowerChar(s[0]), ToLowerChar(s[1])] + ToLower(s[2..]);
    }
  }

  lemma EncodeNothing()
    ensures EncodeLower([]) == ""
  {
  }

  /** Two strings of digit pairs mean the same bytes exactly when they differ in case only. */
  lemma DecodeIgnoresCaseOnly(s: string, t: string)
    requires IsHex(s) && |s| % 2 == 0
    requires IsHex(t) && |t| % 2 == 0
    ensures Decode(s) == Decode(t) <==> ToLower(s) == ToLower(t)
  {
    EncodeDecode(s);
    EncodeDecode(t);
    if ToLower(s) == ToLower(t) {
      DecodeEncodeLower(Decode(s));
      DecodeEncodeLower(Decode(t));
    }
  }

  /** The digit strings that mean given bytes. */
  lemma DecodesTo(s: string, bytes: seq<Byte>)
    requires IsHex(s) && |s| % 2 == 0
    ensures Decode(s) == bytes <==> ToLower(s) == EncodeLower(bytes)
  {
    EncodeDecode(s);
    DecodeEncodeLower(bytes);
    DecodeEncodeLower(Decode(s));
  }

  // ----- hexToString ----------------------------------------------------------------------

  /** What extracting an unsigned hexadecimal number from a stream that holds just `a` and `b`
      yields, cut to a byte: blanks are skipped, one sign is accepted (a minus wraps around),
      digits are read while they last, and without any digit the number stays zero. */
  function PairByte(a: char, b: char): Byte {
    if IsHexDigit(a) then (if IsHexDigit(b) then 16 * Digit(a) + Digit(b) else Digit(a))
    else if !IsHexDigit(b) then 0
    else if IsSpace(a) || a == '+' then Digit(b)
    else if a == '-' then (256 - Digit(b)) % 256
    else 0
  }

  function StringBytes(s: string): (bytes: seq<Byte>) {
    if |s| < 2 then [] else [PairByte(s[0], s[1])] + StringBytes(s[2..])
  }

  lemma {:induction false} StringBytesAppend(s: string, a: char, b: char)
    requires |s| % 2 == 0
    ensures StringBytes(s + [a, b]) == StringBytes(s) + [PairByte(a, b)]
    decreases |s|
  {
    if s == "" {
      assert s + [a, b] == [a, b];
    } else {
      assert (s + [a, b])[2..] == s[2..] + [a, b];
      StringBytesAppend(s[2..], a, b);
    }
  }

  /** `hexToString`. It accepts any characters; an odd last one is dropped. */
  method HexToString(input: string) returns (output: seq<Byte>)
    ensures output == StringBytes(input)
  {
    output := [];
    var count := |input| / 2;
    var i := 0;
    while count > i
      invariant 0 <= i <= count
      invariant output == StringBytes(input[..2 * i])
    {
      assert input[..2 * (i + 1)] == input[..2 * i] + [input[2 * i], input[2 * i + 1]];
      StringBytesAppend(input[..2 * i], input[2 * i], input[2 * i + 1]);
      output := output + [PairByte(input[2 * i], input[2 * i + 1])];
      i := i + 1;
    }
    if |input| % 2 == 0 {
      assert input[..2 * count] == input;
    } else {
      assert input == input[..2 * count] + input[2 * count..];
      StringBytesConcat(input[..2 * count], input[2 * count..]);
    }
  }

  /** `hexToString` distributes over concatenation as long as no pair is torn apart,
      digits or not. */
  lemma {:induction false} StringBytesConcat(a: string, b: string)
    requires |a| % 2 == 0
    ensures StringBytes(a + b) == StringBytes(a) + StringBytes(b)
    decreases |a|
  {
    if a == "" {
      assert a + b == b;
    } else {
      assert (a + b)[2..] == a[2..] + b;
      StringBytesConcat(a[2..], b);
    }
  }

  /** On digits the stream-based decoder and the table-based one agree. */
  lemma {:induction false} StringBytesIsDecode(s: string)
    requires IsHex(s)
    ensures StringBytes(s) == Decode(s)
    decreases |s|
  {
    if |s| >= 2 {
      StringBytesIsDecode(s[2..]);
    }
  }

  // ----- parse_string and uChar2Str -------------------------------------------------------

  /** `parse_string`; `ok` is false when it reaches `std::abort`. A buffer longer than the
      decoded string keeps its tail. */
  method ParseString(arr: array<Byte>, s: string) returns (ok: bool)
    requires |s| / 2 <= arr.Length
    modifies arr
    ensures ok <==> IsHex(s[..2 * (|s| / 2)])
    ensures ok ==> arr[..|s| / 2] == Decode(s[..2 * (|s| / 2)])
    ensures arr[|s| / 2..] == old(arr[|s| / 2..])
  {
    ghost var pairs := s[..2 * (|s| / 2)];
    var i := 0;
    while i != |s| / 2
      invariant 0 <= i <= |s| / 2
      invariant IsHex(s[..2 * i])
      invariant arr[..i] == Decode(s[..2 * i])
      invariant arr[|s| / 2..] == old(arr[|s| / 2..])
    {
      var high, low := ParseHex(s[2 * i]), ParseHex(s[2 * i + 1]);
      if high.None? || low.None? {
        assert pairs[2 * i] == s[2 * i] && pairs[2 * i + 1] == s[2 * i + 1];
        return false;
      }
      arr[i] := 16 * high.value + low.value;
      ghost var done := s[..2 * (i + 1)];
      assert IsHex(done) by {
        assert done == s[..2 * i] + [s[2 * i], s[2 * i + 1]];
      }
      forall k | 0 <= k <= i
        ensures |Decode(done)| == i + 1 && arr[k] == Decode(done)[k]
      {
        DecodeAt(done, k);
        DecodeAt(s[..2 * i], k);
        assert k < i ==> arr[k] == arr[..i][k];
      }
      i := i + 1;
    }
    return true;
  }

  /** `uChar2Str`: two lower-case digits a byte, the first zero-filled. */
  method UChar2Str(arr: array<Byte>, len: int) returns (s: string)
    requires 0 <= len <= arr.Length
    ensures s == EncodeLower(arr[..len])
  {
    s := "";
    var i := 0;
    while i < len
      invariant 0 <= i <= len
      invariant s == EncodeLower(arr[..i])
    {
      EncodeLowerConcat(arr[..i], [arr[i]]);
      assert arr[..i + 1] == arr[..i] + [arr[i]];
      s := s + [LowerDigit(arr[i] / 16), LowerDigit(arr[i] % 16)];
      i := i + 1;
    }
  }
}
