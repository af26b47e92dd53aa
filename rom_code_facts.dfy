/** What the address type promises: the packing round-trips, the family is
    byte 0, validity is the CRC residue check, the ordering is strict and
    total, and the hex rendering can be read back. */
module RomCodeFacts {
  import opened OneWireCrc
  import opened Wrappers
  import opened RomCodes

  /** Equality of codes is equality of raw values, and `!=` is its negation. */
  lemma EqualityIsRawEquality(c: RomCode, d: RomCode)
    ensures c == d <==> c.raw == d.raw
    ensures c != d <==> !(c == d)
  {
  }

  /** The broadcast constant, built from -1, is the broadcast address, and an
      address is broadcast exactly when all eight of its bytes are 0xFF. */
  lemma BroadcastIsAllOnes(c: RomCode)
    ensures BroadcastCode.IsBroadcast()
    ensures c.IsBroadcast() <==> forall i :: 0 <= i < 8 ==> c.Bytes()[i] == 0xFF
  {
    if forall i :: 0 <= i < 8 ==> c.Bytes()[i] == 0xFF {
      UnpackThenPack(c);
      assert c.Bytes() == [0xFF, 0xFF, 0xFF, 0xFF, 0xFF, 0xFF, 0xFF, 0xFF];
    }
  }

  /** The default code is unknown, and a code is unknown exactly when all
      eight of its bytes are zero. */
  lemma UnknownIsAllZero(c: RomCode)
    ensures UnknownCode.IsUnknown()
    ensures c.IsUnknown() <==> forall i :: 0 <= i < 8 ==> c.Bytes()[i] == 0
  {
    if forall i :: 0 <= i < 8 ==> c.Bytes()[i] == 0 {
      UnpackThenPack(c);
      assert c.Bytes() == [0, 0, 0, 0, 0, 0, 0, 0];
    }
  }

  /** The family code is byte 0 of the unpacked address. */
  lemma FamilyIsByteZero(c: RomCode)
    ensures c.Bytes()[0] == c.Family()
  {
  }

  /** Packing the unpacked bytes gives the code back. */
  lemma UnpackThenPack(c: RomCode)
    ensures FromAddress(c.Bytes()) == c
  {
  }

  /** Unpacking a packed address gives the bytes back. */
  lemma PackThenUnpack(a: Address)
    ensures FromAddress(a).Bytes() == a
  {
    var c := FromAddress(a);
    forall k | 0 <= k < 8
      ensures c.Bytes()[k] == a[k]
    {
      c.BytesAt(k);
      PackedByte(a, k);
    }
  }

  /** Byte `k` of a packed address is entry `k` of the address. */
  lemma PackedByte(a: Address, k: nat)
    requires k < 8
    ensures ByteOf(FromAddress(a).raw, k) == a[k]
  {
    match k
    case 0 => case 1 => case 2 => case 3 =>
    case 4 => case 5 => case 6 => case 7 =>
  }

  /** Two addresses with the same bytes are the same address. */
  lemma BytesInjective(c: RomCode, d: RomCode)
    requires c.Bytes() == d.Bytes()
    ensures c == d
  {
    UnpackThenPack(c);
    UnpackThenPack(d);
  }

  /** Validity compares the CRC-8 of the low seven bytes with the top byte of
      the raw value; equivalently, the CRC-8 of all eight bytes is zero. */
  lemma ValidUnicastIsCrcResidue(c: RomCode)
    ensures c.IsValidUnicast() <==> Crc8(c.Bytes()[..7]) == ((c.raw >> 56) & 0xFF) as bv8
    ensures c.IsValidUnicast() <==> Crc8(c.Bytes()) == 0
  {
    var bytes := c.Bytes();
    assert bytes == bytes[..7] + [bytes[7]];
    ResidueZeroIffCrcAppended(bytes[..7], bytes[7]);
  }

  /** Altering one byte of a valid address always yields an invalid one. */
  lemma SingleByteCorruptionDetected(c: RomCode, i: nat, e: bv8)
    requires c.IsValidUnicast()
    requires i < 8 && e != c.Bytes()[i]
    ensures !FromAddress(c.Bytes()[i := e]).IsValidUnicast()
  {
    var corrupted := c.Bytes()[i := e];
    ValidUnicastIsCrcResidue(c);
    SingleByteErrorDetected(c.Bytes(), i, e);
    PackThenUnpack(corrupted);
    ValidUnicastIsCrcResidue(FromAddress(corrupted));
  }

  /** `<` is a strict total order: irreflexive, transitive, and exactly one
      of `c < d`, `d < c` holds for distinct codes. */
  lemma LessIsStrictTotalOrder(c: RomCode, d: RomCode, e: RomCode)
    ensures !c.Less(c)
    ensures c.Less(d) && d.Less(e) ==> c.Less(e)
    ensures c != d ==> c.Less(d) || d.Less(c)
    ensures !(c.Less(d) && d.Less(c))
    ensures c.Less(d) ==> c != d
  {
    LessTotal(c, d);
  }

  /** Of two distinct codes one is less than the other. */
  lemma LessTotal(c: RomCode, d: RomCode)
    ensures c != d ==> c.Less(d) || d.Less(c)
  {
    if c.raw as int == d.raw as int {
      RawValueInjective(c, d);
    }
  }

  /** Distinct codes have distinct unsigned values. */
  lemma RawValueInjective(c: RomCode, d: RomCode)
    requires c.raw as int == d.raw as int
    ensures c == d
  {
    assert (c.raw as int) as bv64 == c.raw;
    assert (d.raw as int) as bv64 == d.raw;
  }

  /** Characters `2 * j` and `2 * j + 1` of the rendering are the high and
      low nibble of byte `7 - j`: the most significant byte comes first. */
  lemma HexDigitPair(c: RomCode, j: nat)
    requires j < 8
    ensures c.Hex()[2 * j] == NibbleToChar(ByteOf(c.raw, 7 - j) >> 4)
    ensures c.Hex()[2 * j + 1] == NibbleToChar(ByteOf(c.raw, 7 - j) & 15)
  {
    c.HexPrefixAt(8, j);
  }

  /** Every character of the rendering is an uppercase hex digit. */
  lemma HexIsDigits(c: RomCode)
    ensures forall k :: 0 <= k < 16 ==> IsHexDigit(c.Hex()[k])
  {
    forall k | 0 <= k < 16
      ensures IsHexDigit(c.Hex()[k])
    {
      var j := k / 2;
      HexDigitPair(c, j);
      NibbleRoundTrip(ByteOf(c.raw, 7 - j) >> 4);
      NibbleRoundTrip(ByteOf(c.raw, 7 - j) & 15);
      assert k == 2 * j || k == 2 * j + 1;
    }
  }

  /** A byte is recovered from its two hex digits. */
  lemma HexByteOfDigits(b: bv8)
    ensures IsHexDigit(NibbleToChar(b >> 4)) && IsHexDigit(NibbleToChar(b & 15))
    ensures HexByte(NibbleToChar(b >> 4), NibbleToChar(b & 15)) == b
  {
    NibbleRoundTrip(b >> 4);
    NibbleRoundTrip(b & 15);
    assert ((b >> 4) << 4) | (b & 15) == b;
  }

  /** The digits of a parsed byte are the characters it was parsed from. */
  lemma DigitsOfHexByte(hi: char, lo: char)
    requires IsHexDigit(hi) && IsHexDigit(lo)
    ensures HexByte(hi, lo) >> 4 == CharToNibble(hi)
    ensures HexByte(hi, lo) & 15 == CharToNibble(lo)
  {
    CharRoundTrip(hi);
    CharRoundTrip(lo);
    NibblePair(CharToNibble(hi), CharToNibble(lo));
  }

  /** The two nibbles packed into a byte are its high and low nibble. */
  lemma NibblePair(h: bv8, l: bv8)
    requires h < 16 && l < 16
    ensures ((h << 4) | l) >> 4 == h
    ensures ((h << 4) | l) & 15 == l
  {
  }

  /** Reading back the rendering gives the original code. */
  lemma ParseHexOfHex(c: RomCode)
    ensures ParseHex(c.Hex()) == Some(c)
  {
    var s := c.Hex();
    HexIsDigits(c);
    forall j | 0 <= j < 8
      ensures HexByteAt(s, j) == ByteOf(c.raw, 7 - j)
    {
      HexDigitPair(c, j);
      HexByteOfDigits(ByteOf(c.raw, 7 - j));
    }
    assert ParsedBytes(s) == c.Bytes();
    UnpackThenPack(c);
  }

  /** A string that parses is exactly the rendering of what it parses to. */
  lemma HexOfParseHex(s: string)
    requires ParseHex(s).Some?
    ensures ParseHex(s).value.Hex() == s
  {
    var c := FromAddress(ParsedBytes(s));
    PackThenUnpack(ParsedBytes(s));
    forall j | 0 <= j < 8
      ensures c.Hex()[2 * j] == s[2 * j] && c.Hex()[2 * j + 1] == s[2 * j + 1]
    {
      HexDigitAgain(s, c, j);
    }
    PairwiseEqual(c.Hex(), s);
  }

  /** Two sixteen-character strings that agree pair by pair are equal. */
  lemma PairwiseEqual(a: string, b: string)
    requires |a| == 16 && |b| == 16
    requires forall j :: 0 <= j < 8 ==> a[2 * j] == b[2 * j] && a[2 * j + 1] == b[2 * j + 1]
    ensures a == b
  {
    forall k | 0 <= k < 16
      ensures a[k] == b[k]
    {
      var j := k / 2;
      assert k == 2 * j || k == 2 * j + 1;
    }
  }

  /** One byte of the parsed address is rendered as the two digits it was
      parsed from. */
  lemma HexDigitAgain(s: string, c: RomCode, j: nat)
    requires AllHexDigits(s) && j < 8 && c.Bytes() == ParsedBytes(s)
    ensures c.Hex()[2 * j] == s[2 * j] && c.Hex()[2 * j + 1] == s[2 * j + 1]
  {
    c.BytesAt(7 - j);
    ParsedBytesAt(s, j);
    HexDigitPair(c, j);
    ParsedDigitsAgain(s, j);
  }

  /** The digits of a parsed byte are the digits it was parsed from. */
  lemma ParsedDigitsAgain(s: string, j: nat)
    requires AllHexDigits(s) && j < 8
    ensures HexByteAt(s, j) >> 4 < 16 && HexByteAt(s, j) & 15 < 16
    ensures NibbleToChar(HexByteAt(s, j) >> 4) == s[2 * j]
    ensures NibbleToChar(HexByteAt(s, j) & 15) == s[2 * j + 1]
  {
    DigitsOfHexByte(s[2 * j], s[2 * j + 1]);
    CharRoundTrip(s[2 * j]);
    CharRoundTrip(s[2 * j + 1]);
  }

  /** Distinct codes have distinct renderings. */
  lemma HexInjective(c: RomCode, d: RomCode)
    requires c.Hex() == d.Hex()
    ensures c == d
  {
    ParseHexOfHex(c);
    ParseHexOfHex(d);
  }
}
