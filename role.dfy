/** An application-defined role, such as "outdoor" or "boiler", that a
    discovered thermometer can be assigned to. */
module Roles {
  import opened RomCodes
  import opened Temperatures

  class ThermometerRole {
    const id: int
    const name: string
    /** The assigned thermometer; the unknown code when none is. */
    var romCode: RomCode
    /** The last temperature copied from the assigned thermometer. */
    var lastReading: Reading

    /** A role with the given id and name, unassigned and without a reading. */
    constructor(id: int, name: string)
      ensures this.id == id && this.name == name
      ensures romCode == UnknownCode && !IsAssigned()
      ensures lastReading == NoReading
    {
      this.id := id;
      this.name := name;
      romCode := UnknownCode;
      lastReading := NoReading;
    }

    /** A role is assigned when its code is not the unknown code. */
    predicate IsAssigned()
      reads this
    {
      !romCode.IsUnknown()
    }

    function ReadTemperature(): Reading
      reads this
    {
      lastReading
    }

    /** Assigns the thermometer `r`; the last reading is kept. */
    method Assign(r: RomCode)
      modifies this
      ensures romCode == r && (IsAssigned() <==> !r.IsUnknown())
      ensures lastReading == old(lastReading)
    {
      romCode := r;
    }

    /** Drops the assignment; the last reading is kept. */
    method Unassign()
      modifies this
      ensures romCode == UnknownCode && !IsAssigned()
      ensures lastReading == old(lastReading)
    {
      romCode := UnknownCode;
    }

    /** Records `reading`, taken at `time`, as the last reading. */
    method SetLastReading(reading: Temperature, time: Uptime)
      modifies this
      ensures ReadTemperature() == Reading(reading, time)
      ensures romCode == old(romCode)
    {
      lastReading := Reading(reading, time);
    }
  }
}
