/** The per-device record the registry keeps: which device it is, what kind,
    at what resolution it converts, and its last temperature. */
module ThermometerRecords {
  import opened Wrappers
  import opened RomCodes
  import opened DeviceFamilies
  import opened Temperatures

  /** The four fields of a thermometer, as a value. */
  datatype Record = Record(romCode: RomCode, family: DeviceFamily,
                           resolution: Resolution, temperature: Temperature)

  /** What a default-constructed thermometer holds. */
  const DefaultRecord: Record := Record(UnknownCode, DeviceFamily.Unknown, ResolutionUndefined, None)

  /** A thermometer whose fields are overwritten in place by `Set`. */
  class Thermometer {
    var romCode: RomCode
    var family: DeviceFamily
    var resolution: Resolution
    var temperature: Temperature

    /** A thermometer with the unknown code, unknown family, undefined
        resolution and unknown temperature. */
    constructor()
      ensures Value() == DefaultRecord
    {
      romCode := UnknownCode;
      family := DeviceFamily.Unknown;
      resolution := ResolutionUndefined;
      temperature := None;
    }

    /** The current fields as a value. */
    function Value(): Record
      reads this
    {
      Record(romCode, family, resolution, temperature)
    }

    /** Overwrites all four fields. */
    method Set(r: RomCode, f: DeviceFamily, res: Resolution, t: Temperature)
      modifies this
      ensures Value() == Record(r, f, res, t)
    {
      romCode := r;
      family := f;
      resolution := res;
      temperature := t;
    }
  }
}
