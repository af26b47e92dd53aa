/** The kinds of devices the driver tells apart, and the conversion
    resolutions they report. */
module DeviceFamilies {

  datatype DeviceFamily =
    | Unknown
    | DS18S20   // also covers the DS1820
    | DS18B20   // also covers the MAX31820
    | DS1822
    | DS1825
    | MAX31850
    | DS28EA00
    | Broadcast

  /** A conversion resolution in bits; 0 means undefined. */
  type Resolution = r: int | r == 0 || 9 <= r <= 14

  const ResolutionUndefined: Resolution := 0
  const Resolution9Bits: Resolution := 9
  const Resolution14Bits: Resolution := 14
}
