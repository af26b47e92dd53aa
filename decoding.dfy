/** Classification of a device by its family code and decoding of its
    nine-byte scratchpad into a resolution and a temperature. */
module Decoding {
  import opened Wrappers
  import opened OneWireCrc
  import opened RomCodes
  import opened DeviceFamilies
  import opened Temperatures
  import opened ThermometerRecords

  /** The nine bytes a thermometer answers a read-scratchpad command with:
      bytes 0-1 the raw temperature, byte 4 the configuration register,
      byte 8 the CRC-8 of bytes 0-7. */
  type Scratchpad = s: seq<bv8> | |s| == 9 witness [0, 0, 0, 0, 0, 0, 0, 0, 0]

  /** The resolution coded in bits 5 and 6 of the configuration register. */
  function Read2BitResolution(sp: Scratchpad): (r: Resolution)
    ensures 9 <= r <= 12
  {
    ((sp[4] >> 5) & 3) as int + 9
  }

  /** Bit 6 of the configuration register is worth two extra bits of
      resolution and bit 5 one, on top of nine. */
  lemma ResolutionFromConfigBits(sp: Scratchpad)
    ensures Read2BitResolution(sp) ==
            9 + (if sp[4] & 0x40 == 0 then 0 else 2) + (if sp[4] & 0x20 == 0 then 0 else 1)
  {
    var c := sp[4];
    assert (c >> 5) & 3 == (if c & 0x40 == 0 then 0 else 2) + (if c & 0x20 == 0 then 0 else 1);
  }

  /** The 16-bit word with high byte `hi` and low byte `lo`. */
  function Word(hi: bv8, lo: bv8): bv16 {
    ((hi as bv16) << 8) | (lo as bv16)
  }

  /** The raw temperature word, byte 1 high and byte 0 low. */
  function Raw16(sp: Scratchpad): bv16 {
    Word(sp[1], sp[0])
  }

  /** The word is `hi` times 256 plus `lo`: the bitwise or of the driver
      equals the sum it writes, the two bytes sharing no bit. */
  lemma WordValue(hi: bv8, lo: bv8)
    ensures Word(hi, lo) as int == hi as int * 256 + lo as int
  {
    var x := Word(hi, lo);
    HighAndLowByte(x);
    WordBytes(hi, lo);
    WidenByte(hi);
    WidenByte(lo);
  }

  /** The high byte of the word is `hi` and its low byte is `lo`. */
  lemma WordBytes(hi: bv8, lo: bv8)
    ensures Word(hi, lo) >> 8 == hi as bv16
    ensures Word(hi, lo) & 0xFF == lo as bv16
  {
  }

  /** A 16-bit word is 256 times its high byte plus its low byte. */
  lemma HighAndLowByte(x: bv16)
    ensures x as int == 256 * ((x >> 8) as int) + (x & 0xFF) as int
  {
  }

  /** Widening a byte to sixteen bits keeps its value. */
  lemma WidenByte(b: bv8)
    ensures (b as bv16) as int == b as int
  {
  }

  /** The 16-bit word read as a two's-complement signed number. */
  function Signed16(x: bv16): (v: int)
    ensures -0x8000 <= v < 0x8000
  {
    if x as int < 0x8000 then x as int else x as int - 0x1_0000
  }

  /** `~((1 << (12 - res)) - 1)` as a 16-bit value: ones everywhere but the
      `12 - res` low bits, which a conversion at that resolution leaves
      undefined. */
  function Mask(res: int): bv16
    requires 9 <= res <= 12
  {
    if res == 12 then !((1 << 0) - 1)
    else if res == 11 then !((1 << 1) - 1)
    else if res == 10 then !((1 << 2) - 1)
    else !((1 << 3) - 1)
  }

  function Pow2(n: nat): nat {
    if n == 0 then 1 else 2 * Pow2(n - 1)
  }

  /** The resolution and temperature decoded from a scratchpad. */
  datatype TemperatureData = TemperatureData(resolution: Resolution, temperature: Temperature)

  /** Decodes a scratchpad according to the device family. */
  function ReadTemperatureData(family: DeviceFamily, sp: Scratchpad): TemperatureData {
    match family
    case DS18S20 =>
      TemperatureData(Resolution9Bits, Some(Signed16(Raw16(sp)) as real / 2.0))
    case DS18B20 | DS1822 | DS1825 | DS28EA00 =>
      TwoBitData(sp)
    case MAX31850 =>
      TemperatureData(Resolution14Bits, None)
    case _ =>
      TemperatureData(ResolutionUndefined, None)
  }

  /** Decoding for the families with a two-bit resolution field: the raw
      word with the bits the resolution leaves undefined masked off, in
      sixteenths of a degree. */
  function TwoBitData(sp: Scratchpad): TemperatureData {
    var resolution := Read2BitResolution(sp);
    TemperatureData(resolution, Some(Signed16(Raw16(sp) & Mask(resolution)) as real / 16.0))
  }

  /** The family a family code stands for. Code 0x3B is shared: bit 7 of the
      configuration register set means a MAX31850, clear a DS1825. Any other
      code is not a recognised thermometer. */
  function FamilyOf(code: bv8, config: bv8): Option<DeviceFamily> {
    if code == 0x10 then Some(DS18S20)
    else if code == 0x28 then Some(DS18B20)
    else if code == 0x22 then Some(DS1822)
    else if code == 0x3B then (if config & 0x80 == 0 then Some(DS1825) else Some(MAX31850))
    else if code == 0x42 then Some(DS28EA00)
    else None
  }

  /** The family codes of the supported thermometers. */
  predicate IsThermometerFamilySupported(family: bv8) {
    family == 0x10 || family == 0x28 || family == 0x22 || family == 0x3B || family == 0x42
  }

  /** A DS18S20 reads bytes 4 and 5 as all ones; anything else there means the
      scratchpad is bogus. Other families have no such check. */
  predicate PlausibleScratchpad(code: bv8, sp: Scratchpad) {
    code == 0x10 ==> sp[4] == 0xFF && sp[5] == 0xFF
  }

  /** The record a thermometer gets from its scratchpad, or `None` when the
      family code is not recognised or the scratchpad is bogus. The
      temperature is kept only after a conversion (`postConversion`); the
      scratchpad read at discovery time carries no fresh reading. */
  function Init(romCode: RomCode, sp: Scratchpad, postConversion: bool): Option<Record> {
    var code := romCode.Family();
    match FamilyOf(code, sp[4])
    case None => None
    case Some(family) =>
      if !PlausibleScratchpad(code, sp) then None
      else
        var data := ReadTemperatureData(family, sp);
        Some(Record(romCode, family, data.resolution,
                    if postConversion then data.temperature else None))
  }

  /** `initThermometer` on a thermometer object: when `Init` succeeds, all four
      fields are overwritten with its record and true is returned; otherwise
      the object is left untouched and false is returned. */
  method InitThermometer(romCode: RomCode, sp: Scratchpad, t: Thermometer, postConversion: bool)
      returns (ok: bool)
    modifies t
    ensures ok <==> Init(romCode, sp, postConversion).Some?
    ensures ok ==> t.Value() == Init(romCode, sp, postConversion).value
    ensures !ok ==> t.Value() == old(t.Value())
  {
    var code := romCode.Family();
    var family: DeviceFamily;
    if code == 0x10 {
      if sp[4] != 0xFF || sp[5] != 0xFF {
        return false;
      }
      family := DS18S20;
    } else if code == 0x28 {
      family := DS18B20;
    } else if code == 0x22 {
      family := DS1822;
    } else if code == 0x3B {
      if sp[4] & 0x80 == 0 {
        family := DS1825;
      } else {
        family := MAX31850;
      }
    } else if code == 0x42 {
      family := DS28EA00;
    } else {
      return false;
    }
    var data := ReadTemperatureData(family, sp);
    t.Set(romCode, family, data.resolution, if postConversion then data.temperature else None);
    ok := true;
  }

  // ----- What the decoder promises -----

  /** A family code has a branch of its own in the classifier exactly when
      it is one of the supported thermometer families, whatever the
      configuration register holds. */
  lemma SupportedIffClassified(code: bv8, config: bv8)
    ensures FamilyOf(code, config).Some? <==> IsThermometerFamilySupported(code)
  {
  }

  /** Initialisation fails exactly for an unsupported family code or for a
      DS18S20 whose bytes 4 and 5 are not both 0xFF. */
  lemma InitFailsIff(romCode: RomCode, sp: Scratchpad, postConversion: bool)
    ensures Init(romCode, sp, postConversion).None? <==>
            !IsThermometerFamilySupported(romCode.Family()) ||
            (romCode.Family() == 0x10 && (sp[4] != 0xFF || sp[5] != 0xFF))
  {
    SupportedIffClassified(romCode.Family(), sp[4]);
  }

  /** A successful initialisation names the code it was given, and its
      temperature is unknown unless the read follows a conversion. */
  lemma InitRecordShape(romCode: RomCode, sp: Scratchpad, postConversion: bool)
    requires Init(romCode, sp, postConversion).Some?
    ensures Init(romCode, sp, postConversion).value.romCode == romCode
    ensures !postConversion ==> Init(romCode, sp, postConversion).value.temperature.None?
    ensures Init(romCode, sp, postConversion).value.family != DeviceFamily.Unknown
    ensures Init(romCode, sp, postConversion).value.family != Broadcast
    ensures Init(romCode, sp, postConversion).value.resolution != ResolutionUndefined
  {
  }

  /** Initialisation before and after a conversion differs only in the
      temperature. */
  lemma InitIgnoresPostConversionButForTemperature(romCode: RomCode, sp: Scratchpad)
    ensures Init(romCode, sp, false).Some? <==> Init(romCode, sp, true).Some?
    ensures Init(romCode, sp, true).Some? ==>
            Init(romCode, sp, false).value == Init(romCode, sp, true).value.(temperature := None)
  {
  }

  /** A decoded record carries a temperature, after a conversion, exactly
      when the device is not a MAX31850. */
  lemma KnownTemperatureUnlessMAX31850(romCode: RomCode, sp: Scratchpad)
    requires Init(romCode, sp, true).Some?
    ensures Init(romCode, sp, true).value.family != MAX31850 <==> Init(romCode, sp, true).value.temperature.Some?
  {
  }

  /** Family 0x10: nine bits, and the raw word read as signed and halved. */
  lemma DS18S20Decoding(romCode: RomCode, sp: Scratchpad)
    requires romCode.Family() == 0x10 && sp[4] == 0xFF && sp[5] == 0xFF
    ensures Init(romCode, sp, true) ==
            Some(Record(romCode, DS18S20, 9, Some(Signed16(Raw16(sp)) as real / 2.0)))
  {
  }

  /** Families 0x28, 0x22, 0x42, and 0x3B with bit 7 of the configuration
      clear: the resolution comes from the configuration register and the
      temperature is the signed raw word, rounded down to a multiple of
      2^(12 - resolution), in sixteenths of a degree. */
  lemma TwoBitResolutionDecoding(romCode: RomCode, sp: Scratchpad)
    requires romCode.Family() in {0x28, 0x22, 0x42} ||
             (romCode.Family() == 0x3B && sp[4] & 0x80 == 0)
    ensures Init(romCode, sp, true).Some?
    ensures var r := Init(romCode, sp, true).value;
            && r.resolution == Read2BitResolution(sp)
            && r.temperature == Some(ClearLow(Raw(sp[1], sp[0]), 12 - r.resolution as int) as real / 16.0)
  {
    var family := FamilyOf(romCode.Family(), sp[4]).value;
    InitAfterConversion(romCode, sp);
    TwoBitTemperature(sp);
  }

  /** After a conversion, a recognised and plausible scratchpad gives the
      record of its family's decoding. */
  lemma InitAfterConversion(romCode: RomCode, sp: Scratchpad)
    requires FamilyOf(romCode.Family(), sp[4]).Some? && PlausibleScratchpad(romCode.Family(), sp)
    ensures var family := FamilyOf(romCode.Family(), sp[4]).value;
            var data := ReadTemperatureData(family, sp);
            Init(romCode, sp, true) == Some(Record(romCode, family, data.resolution, data.temperature))
  {
  }

  /** The two-bit decoding clears the low bits that the resolution leaves
      undefined. */
  lemma TwoBitTemperature(sp: Scratchpad)
    ensures TwoBitData(sp).resolution == Read2BitResolution(sp)
    ensures TwoBitData(sp).temperature ==
            Some(ClearLow(Raw(sp[1], sp[0]), 12 - Read2BitResolution(sp) as int) as real / 16.0)
  {
    MaskRoundsDown(sp[1], sp[0], Read2BitResolution(sp));
  }

  /** `x` with its `n` lowest bits cleared, as on a two's-complement
      number: halved `n` times rounding down, then doubled back. */
  function ClearLow(x: int, n: nat): int
    decreases n
  {
    if n == 0 then x else 2 * ClearLow(x / 2, n - 1)
  }

  /** `x` divided by 2^n, rounding down. */
  function Quotient(x: int, n: nat): int
    decreases n
  {
    if n == 0 then x else Quotient(x / 2, n - 1)
  }

  /** Clearing the `n` lowest bits gives a multiple of 2^n that is not above
      `x` and less than 2^n below it. */
  lemma {:induction false} ClearLowRoundsDown(x: int, n: nat)
    decreases n
    ensures ClearLow(x, n) == Pow2(n) * Quotient(x, n)
    ensures ClearLow(x, n) <= x < ClearLow(x, n) + Pow2(n)
  {
    if n > 0 {
      var h := x / 2;
      ClearLowRoundsDown(h, n - 1);
      var c, p, q := ClearLow(h, n - 1), Pow2(n - 1), Quotient(h, n - 1);
      assert ClearLow(x, n) == 2 * c && Pow2(n) == 2 * p && Quotient(x, n) == q;
      DoubleProduct(p, q);
      assert 2 * h <= x <= 2 * h + 1;
    }
  }

  /** Doubling a product doubles its first factor. */
  lemma DoubleProduct(p: int, q: int)
    ensures 2 * (p * q) == (2 * p) * q
  {
  }

  /** Clearing the low one, two or three bits, written out. */
  lemma ClearLowSmall(x: int)
    ensures ClearLow(x, 0) == x
    ensures ClearLow(x, 1) == 2 * (x / 2)
    ensures ClearLow(x, 2) == 4 * (x / 4)
    ensures ClearLow(x, 3) == 8 * (x / 8)
  {
    assert ClearLow(x / 2, 0) == x / 2;
    assert ClearLow(x / 4, 0) == x / 4;
    assert ClearLow(x / 8, 0) == x / 8;
    assert (x / 2) / 2 == x / 4;
    assert (x / 4) / 2 == x / 8;
    assert ClearLow(x / 2, 1) == 2 * (x / 4);
    assert ClearLow(x / 4, 1) == 2 * (x / 8);
    assert ClearLow(x / 2, 2) == 4 * (x / 8);
  }

  /** Family 0x3B with bit 7 of the configuration set is a MAX31850: fourteen
      bits and no decoded temperature. */
  lemma MAX31850Decoding(romCode: RomCode, sp: Scratchpad, postConversion: bool)
    requires romCode.Family() == 0x3B && sp[4] & 0x80 != 0
    ensures Init(romCode, sp, postConversion) == Some(Record(romCode, MAX31850, 14, None))
  {
  }

  /** At twelve bits the mask keeps every bit of the raw word. */
  lemma TwelveBitsUnmasked(x: bv16)
    ensures x & Mask(12) == x
  {
  }

  /** Masking the raw word clears the `12 - res` low bits of its signed
      value. */
  lemma MaskRoundsDown(hi: bv8, lo: bv8, res: int)
    requires 9 <= res <= 12
    ensures Signed16(Word(hi, lo) & Mask(res)) == ClearLow(Raw(hi, lo), 12 - res)
  {
    MaskedWord(hi, lo, res);
    MaskedRaw(hi, lo, res);
  }

  /** The two's-complement value of the word with high byte `hi` and low
      byte `lo`, computed from the bytes. */
  function Raw(hi: bv8, lo: bv8): int {
    hi as int * 256 + lo as int - (if hi as int >= 128 then 0x1_0000 else 0)
  }

  /** The low byte of `Mask(res)`. */
  function LowMask(res: int): bv8
    requires 9 <= res <= 12
  {
    if res == 12 then 0xFF else if res == 11 then 0xFE else if res == 10 then 0xFC else 0xF8
  }

  /** The mask has all ones in its high byte, so it acts on the low byte
      alone. */
  lemma MaskKeepsHighByte(res: int)
    requires 9 <= res <= 12
    ensures Mask(res) == 0xFF00 | LowMask(res) as bv16
  {
  }

  /** A mask that keeps the high byte acts on the low byte alone. */
  lemma MaskLowByte(hi: bv8, lo: bv8, keep: bv8, mask: bv16)
    requires mask == 0xFF00 | keep as bv16
    ensures Word(hi, lo) & mask == Word(hi, lo & keep)
  {
  }

  /** The signed value of a word, read from its bytes. */
  lemma SignedWord(hi: bv8, lo: bv8)
    ensures Signed16(Word(hi, lo)) == Raw(hi, lo)
  {
    WordValue(hi, lo);
  }

  /** The 16-bit masking of the driver, in terms of the bytes. */
  lemma MaskedWord(hi: bv8, lo: bv8, res: int)
    requires 9 <= res <= 12
    ensures Signed16(Word(hi, lo) & Mask(res)) == Raw(hi, lo & LowMask(res))
  {
    MaskIsLowByteMask(hi, lo, res);
    SignedWord(hi, lo & LowMask(res));
  }

  /** The 16-bit mask applied to the word is the low-byte mask applied to
      its low byte. */
  lemma MaskIsLowByteMask(hi: bv8, lo: bv8, res: int)
    requires 9 <= res <= 12
    ensures Word(hi, lo) & Mask(res) == Word(hi, lo & LowMask(res))
  {
    MaskKeepsHighByte(res);
    MaskLowByte(hi, lo, LowMask(res), Mask(res));
  }

  /** Masking the low byte clears the `12 - res` low bits of the signed
      value. */
  lemma MaskedRaw(hi: bv8, lo: bv8, res: int)
    requires 9 <= res <= 12
    ensures Raw(hi, lo & LowMask(res)) == ClearLow(Raw(hi, lo), 12 - res)
  {
    ByteClearLow(lo, res);
    WordClearLow(hi as int, lo as int, if hi as int >= 128 then 0x1_0000 else 0, 12 - res);
  }

  /** Masking a byte clears its `12 - res` low bits. */
  lemma ByteClearLow(x: bv8, res: int)
    requires 9 <= res <= 12
    ensures (x & LowMask(res)) as int == ClearLow(x as int, 12 - res)
  {
    ClearLowSmall(x as int);
    if res == 12 {
      KeepAll(x);
    } else if res == 11 {
      KeepFE(x);
    } else if res == 10 {
      KeepFC(x);
    } else {
      KeepF8(x);
    }
  }

  lemma KeepAll(x: bv8)
    ensures (x & 0xFF) as int == x as int
  {
  }

  lemma KeepFE(x: bv8)
    ensures (x & 0xFE) as int == 2 * (x as int / 2)
  {
  }

  lemma KeepFC(x: bv8)
    ensures (x & 0xFC) as int == 4 * (x as int / 4)
  {
  }

  lemma KeepF8(x: bv8)
    ensures (x & 0xF8) as int == 8 * (x as int / 8)
  {
  }

  /** Clearing the `n` low bits of the low byte of `h * 256 + lo - s`, with
      2^n dividing 256 and `s`, clears the `n` low bits of the whole. */
  lemma WordClearLow(h: int, lo: int, s: int, n: nat)
    requires n <= 3
    requires s == 0 || s == 0x1_0000
    ensures h * 256 + ClearLow(lo, n) - s == ClearLow(h * 256 + lo - s, n)
  {
    ClearLowSmall(lo);
    ClearLowSmall(h * 256 + lo - s);
    if n == 1 {
      assert (h * 256 + lo - s) / 2 == h * 128 + lo / 2 - s / 2;
    } else if n == 2 {
      assert (h * 256 + lo - s) / 4 == h * 64 + lo / 4 - s / 4;
    } else if n == 3 {
      assert (h * 256 + lo - s) / 8 == h * 32 + lo / 8 - s / 8;
    }
  }

  /** A DS18B20 reporting 12 bits and 0x0550 reads 85.0 degrees, the
      power-on value of the part. */
  lemma DS18B20PowerOnValue(romCode: RomCode)
    requires romCode.Family() == 0x28
    ensures Init(romCode, [0x50, 0x05, 0x4B, 0x46, 0x7F, 0xFF, 0x0C, 0x10, 0x1C], true) ==
            Some(Record(romCode, DS18B20, 12, Some(85.0)))
  {
    var sp: Scratchpad := [0x50, 0x05, 0x4B, 0x46, 0x7F, 0xFF, 0x0C, 0x10, 0x1C];
    assert Raw16(sp) == 0x0550;
    assert Read2BitResolution(sp) == 12;
  }

  /** A negative DS18B20 reading: 0xFF5E is -162 sixteenths, -10.125
      degrees. */
  lemma DS18B20NegativeValue(romCode: RomCode)
    requires romCode.Family() == 0x28
    ensures Init(romCode, [0x5E, 0xFF, 0x4B, 0x46, 0x7F, 0xFF, 0x02, 0x10, 0x00], true) ==
            Some(Record(romCode, DS18B20, 12, Some(-10.125)))
  {
    var sp: Scratchpad := [0x5E, 0xFF, 0x4B, 0x46, 0x7F, 0xFF, 0x02, 0x10, 0x00];
    assert Raw16(sp) == 0xFF5E;
    assert Read2BitResolution(sp) == 12;
  }

  /** A DS18S20 with raw bytes 0x50, 0x05 reads 0x0550 / 2 = 680.0 degrees:
      the word is halved, not divided by sixteen. */
  lemma DS18S20HalvesRawWord(romCode: RomCode)
    requires romCode.Family() == 0x10
    ensures Init(romCode, [0x50, 0x05, 0x4B, 0x46, 0xFF, 0xFF, 0x0C, 0x10, 0x1C], true) ==
            Some(Record(romCode, DS18S20, 9, Some(680.0)))
  {
    var sp: Scratchpad := [0x50, 0x05, 0x4B, 0x46, 0xFF, 0xFF, 0x0C, 0x10, 0x1C];
    assert Raw16(sp) == 0x0550;
  }

  /** A DS18S20 whose byte 4 is not 0xFF is rejected. */
  lemma DS18S20BogusRejected(romCode: RomCode, sp: Scratchpad, postConversion: bool)
    requires romCode.Family() == 0x10 && (sp[4] != 0xFF || sp[5] != 0xFF)
    ensures Init(romCode, sp, postConversion).None?
  {
  }
}
