/** Integers as big-endian bytes: the scalar form of Appendix B of the Ethereum Yellow Paper. */
module ScalarCodec {
  import opened Numerals

  type Byte = n: nat | n < 256 witness 0

  /** Reads digits two by two. */
  function HexToBytes(s: string): seq<Byte>
    requires |s| % 2 == 0 && AllDigits(s, Hex)
  {
    if |s| == 0 then []
    else HexToBytes(s[..|s| - 2]) + [16 * DigitValue(s[|s| - 2]) + DigitValue(s[|s| - 1])]
  }

  function BytesToHex(b: seq<Byte>): (s: string)
    ensures |s| == 2 * |b| && AllDigits(s, Hex)
    ensures LowerCase(s)
  {
    if |b| == 0 then []
    else BytesToHex(b[..|b| - 1]) + [DigitChar(b[|b| - 1] / 16), DigitChar(b[|b| - 1] % 16)]
  }

  function ToRlpBuffer(value: nat): seq<Byte> {
    if value == 0 then []
    else
      var hex := Print(value, Hex);
      HexToBytes(if |hex| % 2 == 0 then hex else "0" + hex)
  }

  function FromRlpBuffer(buffer: seq<Byte>): nat {
    if |buffer| == 0 then 0 else Value(BytesToHex(buffer), Hex)
  }

  /** The number that bytes denote in big-endian order. */
  function BigEndian(b: seq<Byte>): nat {
    if |b| == 0 then 0 else 256 * BigEndian(b[..|b| - 1]) + b[|b| - 1]
  }

  predicate Minimal(b: seq<Byte>) {
    |b| > 0 ==> b[0] != 0
  }

  lemma TwoMoreDigits(s: string, c: char, d: char)
    ensures AllDigits(s + [c, d], Hex) <==> AllDigits(s, Hex) && DigitValue(c) < 16 && DigitValue(d) < 16
    ensures LowerCase(s + [c, d]) ==> LowerCase(s) && !('A' <= c <= 'F') && !('A' <= d <= 'F')
  {
    hide DigitValue;
    var t := s + [c, d];
    assert forall i | 0 <= i < |s| :: t[i] == s[i];
    assert t[|s|] == c && t[|s| + 1] == d;
  }

  lemma HexAppend(s: string, c: char, d: char)
    requires |s| % 2 == 0 && AllDigits(s, Hex) && AllDigits(s + [c, d], Hex) && DigitValue(c) < 16 && DigitValue(d) < 16
    ensures HexToBytes(s + [c, d]) == HexToBytes(s) + [16 * DigitValue(c) + DigitValue(d)]
  {
    hide DigitValue, AllDigits;
    var t := s + [c, d];
    assert t[..|t| - 2] == s;
  }

  lemma ValueAppendTwo(s: string, c: char, d: char)
    requires AllDigits(s, Hex) && AllDigits(s + [c, d], Hex) && DigitValue(c) < 16 && DigitValue(d) < 16
    ensures Value(s + [c, d], Hex) == 256 * Value(s, Hex) + 16 * DigitValue(c) + DigitValue(d)
  {
    hide DigitValue, Value, AllDigits;
    ValueAppend(s, c, Hex);
    ValueAppend(s + [c], d, Hex);
    assert s + [c, d] == s + [c] + [d];
  }

  lemma SplitByte(hi: nat, lo: nat)
    requires hi < 16 && lo < 16
    ensures (16 * hi + lo) / 16 == hi && (16 * hi + lo) % 16 == lo
  {
  }

  lemma BytesAppend(b: seq<Byte>, x: Byte)
    ensures BytesToHex(b + [x]) == BytesToHex(b) + [DigitChar(x / 16), DigitChar(x % 16)]
  {
    assert (b + [x])[..|b|] == b;
  }

  lemma NoBytes()
    ensures BytesToHex([]) == "" && HexToBytes("") == [] && Value("", Hex) == 0
  {
  }

  lemma ByteToHexAndBack(b: seq<Byte>, x: Byte)
    requires HexToBytes(BytesToHex(b)) == b && Value(BytesToHex(b), Hex) == BigEndian(b)
    ensures HexToBytes(BytesToHex(b + [x])) == b + [x]
    ensures Value(BytesToHex(b + [x]), Hex) == 256 * BigEndian(b) + x
  {
    hide HexToBytes, Value, BytesToHex, DigitValue, AllDigits, LowerCase, BigEndian;
    BytesAppend(b, x);
    HexAppend(BytesToHex(b), DigitChar(x / 16), DigitChar(x % 16));
    ValueAppendTwo(BytesToHex(b), DigitChar(x / 16), DigitChar(x % 16));
  }

  lemma {:induction false} HexOfBytes(b: seq<Byte>)
    ensures HexToBytes(BytesToHex(b)) == b
    ensures Value(BytesToHex(b), Hex) == BigEndian(b)
  {
    hide HexToBytes, Value, BytesToHex, AllDigits, LowerCase;
    if |b| == 0 {
      NoBytes();
    } else {
      HexOfBytes(b[..|b| - 1]);
      ByteToHexAndBack(b[..|b| - 1], b[|b| - 1]);
      assert b == b[..|b| - 1] + [b[|b| - 1]];
    }
  }

  lemma HexToByteAndBack(s: string, c: char, d: char)
    requires |s| % 2 == 0 && AllDigits(s, Hex) && AllDigits(s + [c, d], Hex) && LowerCase(s + [c, d])
    requires BytesToHex(HexToBytes(s)) == s
    ensures BytesToHex(HexToBytes(s + [c, d])) == s + [c, d]
  {
    TwoMoreDigits(s, c, d);
    CharOfValue(c);
    CharOfValue(d);
    hide HexToBytes, BytesToHex, DigitValue, DigitChar, AllDigits, LowerCase;
    HexAppend(s, c, d);
    SplitByte(DigitValue(c), DigitValue(d));
    BytesAppend(HexToBytes(s), 16 * DigitValue(c) + DigitValue(d));
  }

  lemma {:induction false} BytesOfHex(s: string)
    requires |s| % 2 == 0 && AllDigits(s, Hex) && LowerCase(s)
    ensures BytesToHex(HexToBytes(s)) == s
  {
    hide HexToBytes, BytesToHex, DigitValue, DigitChar, AllDigits, LowerCase;
    if |s| == 0 {
      NoBytes();
      assert s == "";
    } else {
      var init, c, d := s[..|s| - 2], s[|s| - 2], s[|s| - 1];
      assert s == init + [c, d];
      TwoMoreDigits(init, c, d);
      BytesOfHex(init);
      HexToByteAndBack(init, c, d);
    }
  }

  lemma Padding(s: string)
    requires AllDigits(s, Hex)
    ensures AllDigits("0" + s, Hex) && Value("0" + s, Hex) == Value(s, Hex)
  {
    assert Zeros(1) == "0";
    ValueOfPadded(1, s, Hex);
  }

  /** Decoding reads the bytes as a big-endian number. */
  lemma FromIsBigEndian(b: seq<Byte>)
    ensures FromRlpBuffer(b) == BigEndian(b)
  {
    HexOfBytes(b);
  }

  /** The digits that are read two by two. */
  function Even(hex: string): string {
    if |hex| % 2 == 0 then hex else "0" + hex
  }

  lemma EvenDigits(value: nat)
    requires value > 0
    ensures
      var s := Even(Print(value, Hex));
      && |s| % 2 == 0 && AllDigits(s, Hex) && LowerCase(s) && Value(s, Hex) == value
      && ToRlpBuffer(value) == HexToBytes(s)
      && |s| >= 2 && (s[0] != '0' || s[1] != '0')
  {
    var hex := Print(value, Hex);
    hide Print, Value, HexToBytes;
    PrintLeadingDigit(value, Hex);
    ValueOfPrint(value, Hex);
    Padding(hex);
  }

  lemma PositiveRoundTrip(value: nat)
    requires value > 0
    ensures FromRlpBuffer(ToRlpBuffer(value)) == value
    ensures Minimal(ToRlpBuffer(value))
  {
    hide Print, Value, HexToBytes, BytesToHex, ToRlpBuffer, Even, AllDigits, LowerCase;
    EvenDigits(value);
    var s := Even(Print(value, Hex));
    BytesOfHex(s);
    FirstByteNonzero(s);
  }

  /** Encoding and decoding gives the number back, and the bytes are minimal. */
  lemma RoundTrip(value: nat)
    ensures FromRlpBuffer(ToRlpBuffer(value)) == value
    ensures Minimal(ToRlpBuffer(value))
  {
    if value > 0 {
      PositiveRoundTrip(value);
    }
  }

  lemma FirstByteNonzero(s: string)
    requires |s| >= 2 && |s| % 2 == 0 && AllDigits(s, Hex) && LowerCase(s) && (s[0] != '0' || s[1] != '0')
    ensures |HexToBytes(s)| > 0 && HexToBytes(s)[0] != 0
  {
    hide HexToBytes, DigitValue;
    FirstByte(s);
    CharOfValue(s[0]);
    CharOfValue(s[1]);
  }

  lemma {:induction false} FirstByte(s: string)
    requires |s| % 2 == 0 && |s| > 0 && AllDigits(s, Hex)
    ensures |HexToBytes(s)| > 0 && HexToBytes(s)[0] == 16 * DigitValue(s[0]) + DigitValue(s[1])
  {
    if |s| > 2 {
      FirstByte(s[..|s| - 2]);
    }
  }

  lemma DigitsOfMinimal(b: seq<Byte>)
    requires Minimal(b) && |b| > 0
    ensures
      var s := BytesToHex(b);
      Value(s, Hex) > 0 && Even(Print(Value(s, Hex), Hex)) == s
  {
    var s := BytesToHex(b);
    hide Print, Value, HexToBytes, BytesToHex, DigitValue;
    HexOfBytes(b);
    FirstByte(s);
    CharOfValue(s[0]);
    CharOfValue(s[1]);
    if s[0] != '0' {
      PrintOfValue(s, Hex);
    } else {
      UnpaddedDigits(s);
    }
  }

  lemma UnpaddedDigits(s: string)
    requires |s| >= 2 && |s| % 2 == 0 && AllDigits(s, Hex) && LowerCase(s) && s[0] == '0' && s[1] != '0'
    ensures Value(s, Hex) > 0 && Even(Print(Value(s, Hex), Hex)) == s
  {
    hide Print, Value, DigitValue;
    assert s == "0" + s[1..];
    Padding(s[1..]);
    PrintOfValue(s[1..], Hex);
  }

  /** The encoding is the only minimal one: bytes are what their number encodes to exactly when
      they have no leading zero. */
  lemma CanonicalIff(b: seq<Byte>)
    ensures ToRlpBuffer(FromRlpBuffer(b)) == b <==> Minimal(b)
  {
    RoundTrip(FromRlpBuffer(b));
    if Minimal(b) && |b| > 0 {
      hide Print, Value, HexToBytes, BytesToHex, Even, ToRlpBuffer;
      DigitsOfMinimal(b);
      EvenDigits(FromRlpBuffer(b));
      HexOfBytes(b);
    }
  }
}
