/** The 64-bit address of a device on the bus. Byte 0 (the least significant
    byte of the raw value) is the family code, bytes 1-6 are the serial number
    and byte 7 (the most significant byte) is the CRC-8 of bytes 0-6. */
module RomCodes {
  import opened OneWireCrc
  import opened Wrappers

  /** The eight bytes of an address as they travel on the bus, byte 0 first. */
  type Address = a: seq<bv8> | |a| == 8 witness [0, 0, 0, 0, 0, 0, 0, 0]

  /** The digits used to render a nibble, indexed by the nibble's value. */
  const HexDigits: string := "0123456789ABCDEF"

  datatype RomCode = RomCode(raw: bv64) {

    /** The reserved all-ones address that every device answers to. */
    predicate IsBroadcast() {
      raw == 0xFFFF_FFFF_FFFF_FFFF
    }

    /** The all-zero address, meaning "no device". */
    predicate IsUnknown() {
      raw == 0
    }

    /** The family code, byte 0 of the address. */
    function Family(): bv8 {
      (raw & 0xFF) as bv8
    }

    /** Ordering by raw value, read as an unsigned 64-bit number. */
    predicate Less(other: RomCode) {
      raw as int < other.raw as int
    }

    /** The address unpacked into its eight bytes, byte 0 first. */
    function Bytes(): Address {
      [ByteOf(raw, 0), ByteOf(raw, 1), ByteOf(raw, 2), ByteOf(raw, 3), ByteOf(raw, 4), ByteOf(raw, 5), ByteOf(raw, 6), ByteOf(raw, 7)]
    }

    /** Entry `i` of the unpacked address is byte `i` of the raw value. */
    lemma BytesAt(i: nat)
      requires i < 8
      ensures Bytes()[i] == ByteOf(raw, i)
    {
      match i
      case 0 => case 1 => case 2 => case 3 =>
      case 4 => case 5 => case 6 => case 7 =>
    }

    /** Unpacks the address into the eight-byte buffer `addr`, in place. */
    method ToOneWireDeviceAddress(addr: array<bv8>)
      requires addr.Length == 8
      modifies addr
      ensures addr[..] == Bytes()
    {
      addr[0] := ByteOf(raw, 0);
      addr[1] := ByteOf(raw, 1);
      addr[2] := ByteOf(raw, 2);
      addr[3] := ByteOf(raw, 3);
      addr[4] := ByteOf(raw, 4);
      addr[5] := ByteOf(raw, 5);
      addr[6] := ByteOf(raw, 6);
      addr[7] := ByteOf(raw, 7);
      assert addr[..] == [addr[0], addr[1], addr[2], addr[3], addr[4], addr[5], addr[6], addr[7]];
    }

    /** A genuine device address: byte 7 is the CRC-8 of bytes 0-6. */
    predicate IsValidUnicast() {
      var addr := Bytes();
      Crc8(addr[..7]) == addr[7]
    }

    /** The two hex digits of byte `i`, high nibble first. */
    function HexDigitsOf(i: nat): string
      requires i < 8
    {
      [NibbleToChar(ByteOf(raw, i) >> 4), NibbleToChar(ByteOf(raw, i) & 15)]
    }

    /** The digits of the `n` most significant bytes, most significant first. */
    function HexPrefix(n: nat): (s: string)
      requires n <= 8
      ensures |s| == 2 * n
    {
      if n == 0 then [] else HexPrefix(n - 1) + HexDigitsOf(8 - n)
    }

    /** The sixteen characters of the address, two uppercase hex digits per
        byte, most significant byte first. */
    function Hex(): (s: string)
      ensures |s| == 16
    {
      HexPrefix(8)
    }

    /** Characters `2 * j` and `2 * j + 1` of every long enough prefix are the
        high and low nibble of byte `7 - j`. */
    lemma {:induction false} HexPrefixAt(n: nat, j: nat)
      requires j < n <= 8
      ensures HexPrefix(n)[2 * j] == HexDigitsOf(7 - j)[0]
      ensures HexPrefix(n)[2 * j + 1] == HexDigitsOf(7 - j)[1]
    {
      assert HexPrefix(n) == HexPrefix(n - 1) + HexDigitsOf(8 - n);
      if j < n - 1 {
        HexPrefixAt(n - 1, j);
      }
    }

    /** The byte that the rendering loops extract at step `7 - k` supplies the
        next two digits of the rendering. */
    lemma RenderStep(k: nat, b: bv8)
      requires k < 8 && b == ByteOf(raw, k)
      ensures b >> 4 < 16 && b & 15 < 16
      ensures HexPrefix(8 - k) == HexPrefix(7 - k) + [NibbleToChar(b >> 4), NibbleToChar(b & 15)]
    {
    }

    /** Renders the address by appending two characters per byte. */
    method ToString() returns (result: string)
      ensures result == Hex()
    {
      result := "";
      var val := raw;
      for i := 0 to 8
        invariant result == HexPrefix(i)
      {
        var k: nat := 7 - i;
        var b := ByteOf(val, k);
        RenderStep(k, b);
        ghost var prefix := result;
        result := result + [NibbleToChar(b >> 4)];
        result := result + [NibbleToChar(b & 15)];
        PairAppended(prefix, result, HexPrefix(7 - k), HexPrefix(8 - k), NibbleToChar(b >> 4), NibbleToChar(b & 15));
      }
    }

    /** Renders the address into the first sixteen cells of `out`; the rest of
        `out` is left alone. */
    method ToCharArray(out: array<char>)
      requires out.Length >= 16
      modifies out
      ensures out[..16] == Hex()
      ensures out[16..] == old(out[16..])
    {
      var val := raw;
      ghost var orig := out[..];
      for i := 0 to 8
        invariant out[..2 * i] == HexPrefix(i)
        invariant out[2 * i..] == orig[2 * i..]
      {
        var k: nat := 7 - i;
        var b := ByteOf(val, k);
        RenderStep(k, b);
        WritePair(out, i, NibbleToChar(b >> 4), NibbleToChar(b & 15), HexPrefix(i), orig);
      }
    }
  }

  /** Appending the digits `c`, `d` one at a time to the rendering `p0`
      gives the rendering `p1` that extends it by them. */
  lemma PairAppended(prefix: string, result: string, p0: string, p1: string, c: char, d: char)
    requires prefix == p0 && p1 == p0 + [c, d] && result == prefix + [c] + [d]
    ensures result == p1
  {
  }

  /** Writes the digits `c`, `d` into cells `2 * i` and `2 * i + 1` of `out`,
      which extends the rendering `p0` held in the cells before them by those
      digits and leaves the cells after them alone. */
  method WritePair(out: array<char>, i: nat, c: char, d: char, ghost p0: string, ghost orig: seq<char>)
    requires 2 * i + 2 <= out.Length == |orig|
    requires out[..2 * i] == p0 && out[2 * i..] == orig[2 * i..]
    modifies out
    ensures out[..2 * i + 2] == p0 + [c, d]
    ensures out[2 * i + 2..] == orig[2 * i + 2..]
  {
    out[2 * i] := c;
    out[2 * i + 1] := d;
    assert out[..2 * i + 2] == out[..2 * i] + [c, d];
  }

  /** Byte `k` of `x`: `x` shifted down by `8 * k` bits and truncated to its
      low eight bits. */
  function ByteOf(x: bv64, k: nat): bv8
    requires k < 8
  {
    match k
    case 0 => (x & 0xFF) as bv8
    case 1 => ((x >> 8) & 0xFF) as bv8
    case 2 => ((x >> 16) & 0xFF) as bv8
    case 3 => ((x >> 24) & 0xFF) as bv8
    case 4 => ((x >> 32) & 0xFF) as bv8
    case 5 => ((x >> 40) & 0xFF) as bv8
    case 6 => ((x >> 48) & 0xFF) as bv8
    case 7 => ((x >> 56) & 0xFF) as bv8
  }

  /** The address with no device: what a default-constructed code holds. */
  const UnknownCode: RomCode := RomCode(0)

  /** The broadcast address, built from -1 converted to an unsigned 64-bit
      value, that is, 0 - 1 wrapped around modulo 2^64. */
  const BroadcastCode: RomCode := RomCode((0 as bv64) - 1)

  /** Packs eight bytes, byte 0 least significant. */
  function FromAddress(addr: Address): RomCode {
    RomCode(((addr[0] as bv64) << 0) | ((addr[1] as bv64) << 8) |
            ((addr[2] as bv64) << 16) | ((addr[3] as bv64) << 24) |
            ((addr[4] as bv64) << 32) | ((addr[5] as bv64) << 40) |
            ((addr[6] as bv64) << 48) | ((addr[7] as bv64) << 56))
  }

  /** The hex digit for a nibble: digits for 0-9, uppercase letters above. */
  function NibbleToChar(nibble: bv8): char
    requires nibble < 16
  {
    if nibble >= 10 then ((nibble - 10) as int + 'A' as int) as char
    else (nibble as int + '0' as int) as char
  }

  predicate IsHexDigit(c: char) {
    '0' <= c <= '9' || 'A' <= c <= 'F'
  }

  /** The value of an uppercase hex digit. */
  function CharToNibble(c: char): bv8
    requires IsHexDigit(c)
  {
    if c <= '9' then (c as int - '0' as int) as bv8
    else (c as int - 'A' as int + 10) as bv8
  }

  /** Nibble `n` is rendered as entry `n` of the digit table, and reading that
      digit back gives `n`. */
  lemma NibbleRoundTrip(n: bv8)
    requires n < 16
    ensures NibbleToChar(n) == HexDigits[n as int]
    ensures IsHexDigit(NibbleToChar(n)) && CharToNibble(NibbleToChar(n)) == n
  {
  }

  /** Every uppercase hex digit is the rendering of the nibble it denotes. */
  lemma CharRoundTrip(c: char)
    requires IsHexDigit(c)
    ensures CharToNibble(c) < 16 && NibbleToChar(CharToNibble(c)) == c
  {
  }

  /** Distinct nibbles are rendered as distinct characters. */
  lemma NibbleToCharInjective(m: bv8, n: bv8)
    requires m < 16 && n < 16 && NibbleToChar(m) == NibbleToChar(n)
    ensures m == n
  {
    NibbleRoundTrip(m);
    NibbleRoundTrip(n);
  }

  /** The byte written as the two hex digits `hi`, `lo`. */
  function HexByte(hi: char, lo: char): bv8
    requires IsHexDigit(hi) && IsHexDigit(lo)
  {
    (CharToNibble(hi) << 4) | CharToNibble(lo)
  }

  /** The byte written by the hex digits at positions `2 * j` and `2 * j + 1`. */
  function HexByteAt(s: string, j: nat): bv8
    requires j < 8 && AllHexDigits(s)
  {
    HexByte(s[2 * j], s[2 * j + 1])
  }

  predicate AllHexDigits(s: string) {
    |s| == 16 && forall k :: 0 <= k < 16 ==> IsHexDigit(s[k])
  }

  /** The bytes written by sixteen hex digits, most significant byte first,
      listed byte 0 first. */
  function ParsedBytes(s: string): Address
    requires AllHexDigits(s)
  {
    [HexByteAt(s, 7), HexByteAt(s, 6), HexByteAt(s, 5), HexByteAt(s, 4),
     HexByteAt(s, 3), HexByteAt(s, 2), HexByteAt(s, 1), HexByteAt(s, 0)]
  }

  /** Byte `7 - j` of the parsed address is written at positions `2 * j` and
      `2 * j + 1`. */
  lemma ParsedBytesAt(s: string, j: nat)
    requires AllHexDigits(s) && j < 8
    ensures ParsedBytes(s)[7 - j] == HexByteAt(s, j)
  {
    match j
    case 0 => case 1 => case 2 => case 3 =>
    case 4 => case 5 => case 6 => case 7 =>
  }

  /** Reads back a rendered address: sixteen uppercase hex digits, most
      significant byte first. Anything else is rejected. */
  function ParseHex(s: string): Option<RomCode> {
    if AllHexDigits(s) then Some(FromAddress(ParsedBytes(s))) else None
  }
}
