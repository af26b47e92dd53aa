/** The registry of identified thermometers: a table of records keyed by
    address, the ascending list of those addresses, and the state of the
    temperature conversion the driver runs on all of them at once. */
module Registry {
  import opened OneWireCrc
  import opened Wrappers
  import opened RomCodes
  import opened RomCodeFacts
  import opened DeviceFamilies
  import opened Temperatures
  import opened ThermometerRecords
  import opened Decoding
  import opened BusEnv
  import opened Discovery
  import opened RomCodeOrder

  /** The record a device not yet in the table gets when it is discovered:
      its scratchpad, read there and then, decoded without a temperature.
      `None` when the read fails or the scratchpad is rejected. */
  function Fresh(c: RomCode, bus: Bus): Option<Record> {
    match ScratchpadRead(bus.answers(c))
    case None => None
    case Some(sp) => Init(c, sp, false)
  }

  /** The table after discovery: every discovered device already known keeps
      its record, every other discovered device is added when it yields a
      fresh record, and every device no longer discovered is gone. */
  function Reconciled(known: map<RomCode, Record>, discovered: set<RomCode>, bus: Bus): map<RomCode, Record> {
    map c | c in discovered && (c in known || Fresh(c, bus).Some?) ::
      if c in known then known[c] else Fresh(c, bus).value
  }

  /** One record after a conversion: when the device's scratchpad is read and
      decoded, the decoded record with its temperature; otherwise the record
      as it was. */
  function Refresh(c: RomCode, r: Record, bus: Bus): Record {
    match ScratchpadRead(bus.answers(c))
    case None => r
    case Some(sp) => Init(c, sp, true).GetOr(r)
  }

  /** The table after a conversion: the same devices, each refreshed. */
  function Refreshed(known: map<RomCode, Record>, bus: Bus): map<RomCode, Record> {
    map c | c in known :: Refresh(c, known[c], bus)
  }

  /** Every record is filed under its own address. */
  predicate Keyed(m: map<RomCode, Record>) {
    forall c :: c in m ==> m[c].romCode == c
  }

  /** What `update` does to the registry `t`, `ok` being its result. While a
      conversion is pending it returns true and changes nothing. Otherwise
      the power supply is sampled, the table is reconciled with a fresh
      discovery, and the call succeeds exactly when the reset before the
      convert command is answered, leaving the deadline 750 ms after `now`;
      on failure no conversion is pending. */
  twostate predicate UpdateEffect(t: Thermometers, now: Uptime, bus: Bus, ok: bool)
    reads t
  {
    if old(t.IsConversionPending()) then ok && unchanged(t)
    else
      && ok == bus.convertPresence
      && t.parasite == (bus.powerBit == 0)
      && t.thermometers == Reconciled(old(t.thermometers), Discovered(bus.search), bus)
      && t.pendingConversion == (if ok then now + ConversionDelay else Start)
      && t.lastCompletedConversion == old(t.lastCompletedConversion)
      && t.listeners == old(t.listeners)
  }

  /** The identified thermometers and the conversion engine. */
  class Thermometers {
    /** When the last conversion finished. */
    var lastCompletedConversion: Uptime
    /** When the current conversion finishes; `Start` when none is pending. */
    var pendingConversion: Uptime
    /** Whether the devices draw power from the data line. */
    var parasite: bool
    /** The addresses of the identified thermometers, ascending. */
    var romCodes: seq<RomCode>
    /** The records of the identified thermometers, by address. */
    var thermometers: map<RomCode, Record>
    /** The registered event listeners. */
    var listeners: set<object>

    /** The registry invariant: the list holds exactly the table's addresses,
        in strictly ascending order, and each record is filed under its own
        address. */
    ghost predicate Valid()
      reads this
    {
      && Keyed(thermometers)
      && StrictlyAscending(romCodes)
      && (forall c :: c in romCodes <==> c in thermometers)
    }

    /** An empty registry with no conversion pending or completed. Whether the
        bus is parasite-powered is not known until the first update. */
    constructor()
      ensures Valid()
      ensures romCodes == [] && thermometers == map[] && listeners == {}
      ensures pendingConversion == Start && lastCompletedConversion == Start
    {
      lastCompletedConversion := Start;
      pendingConversion := Start;
      romCodes := [];
      thermometers := map[];
      listeners := {};
    }

    predicate IsParasite()
      reads this
    {
      parasite
    }

    /** The number of identified thermometers. */
    function Count(): nat
      reads this
    {
      |romCodes|
    }

    /** The address of the `idx`-th thermometer in ascending order. */
    function RomCodeAt(idx: nat): RomCode
      reads this
      requires idx < Count()
    {
      romCodes[idx]
    }

    /** The record of the thermometer with address `c`; `None` stands for the
        null pointer returned for an address not identified. */
    function ThermometerByRomCode(c: RomCode): Option<Record>
      reads this
    {
      if c in thermometers then Some(thermometers[c]) else None
    }

    /** The record of the `idx`-th thermometer. The lookup it makes never
        comes back empty, and the record found is the one of the `idx`-th
        address: both rest on the registry invariant. */
    function ThermometerAt(idx: nat): (r: Record)
      reads this
      requires Valid() && idx < Count()
      ensures ThermometerByRomCode(RomCodeAt(idx)) == Some(r)
      ensures r.romCode == RomCodeAt(idx)
    {
      assert romCodes[idx] in romCodes;
      ThermometerByRomCode(RomCodeAt(idx)).value
    }

    function LastReadingTime(): Uptime
      reads this
    {
      lastCompletedConversion
    }

    predicate IsConversionPending()
      reads this
    {
      pendingConversion != Start
    }

    function GetPendingConversionTime(): Uptime
      reads this
    {
      pendingConversion
    }

    function RomCodes(): seq<RomCode>
      reads this
    {
      romCodes
    }

    /** An iterator at the first thermometer. */
    method Begin() returns (it: ConstIterator)
      ensures fresh(it) && it.owner == this && it.idx == 0
    {
      it := new ConstIterator(this, 0);
    }

    /** An iterator one past the last thermometer. */
    method End() returns (it: ConstIterator)
      ensures fresh(it) && it.owner == this && it.idx == Count()
    {
      it := new ConstIterator(this, Count());
    }

    /** An address is in the list exactly when the lookup finds a record for
        it, and the record found carries that address. */
    lemma LookupAgreesWithList(c: RomCode)
      requires Valid()
      ensures ThermometerByRomCode(c).Some? <==> c in RomCodes()
      ensures ThermometerByRomCode(c).Some? ==> ThermometerByRomCode(c).value.romCode == c
    {
    }

    /** The count is the number of records in the table. */
    lemma CountIsTableSize()
      requires Valid()
      ensures Count() == |thermometers.Keys|
    {
      StrictImpliesDistinct(romCodes);
      DistinctCardinality(romCodes);
      assert thermometers.Keys == set c | c in romCodes;
    }

    /** The list is determined by the table: it is the one strictly ascending
        sequence of the table's addresses. */
    lemma ListDeterminedByTable(s: seq<RomCode>)
      requires Valid()
      requires StrictlyAscending(s) && forall c :: c in s <==> c in thermometers
      ensures s == RomCodes()
    {
      StrictlyAscendingUnique(s, romCodes);
    }

    /** Reads the nine scratchpad bytes of the device `romCode` into
        `scratchpad`. The bytes are stored once the first reset is answered;
        true is returned only when the second reset is answered too and byte 8
        is the CRC-8 of bytes 0-7. */
    method ReadScratchpad(romCode: RomCode, scratchpad: array<bv8>, bus: Bus) returns (ok: bool)
      requires scratchpad.Length == 9
      modifies scratchpad
      ensures ok <==> ScratchpadRead(bus.answers(romCode)).Some?
      ensures ok ==> scratchpad[..] == ScratchpadRead(bus.answers(romCode)).value
      ensures bus.answers(romCode).presenceBefore ==> scratchpad[..] == bus.answers(romCode).bytes
      ensures !bus.answers(romCode).presenceBefore ==> scratchpad[..] == old(scratchpad[..])
    {
      var answer := bus.answers(romCode);
      if !answer.presenceBefore {
        return false;
      }
      // The device is selected and sent the read-scratchpad command; the next
      // nine bytes read are its answer.
      for i := 0 to 9
        invariant scratchpad[..i] == answer.bytes[..i]
      {
        scratchpad[i] := answer.bytes[i];
      }
      assert scratchpad[..] == scratchpad[..9] == answer.bytes;
      if !answer.presenceAfter {
        return false;
      }
      if Crc8(scratchpad[..8]) != scratchpad[8] {
        return false;
      }
      return true;
    }

    /** Samples whether any device is parasite-powered: a device that is
        pulls the line low, so a 0 bit means parasite power. */
    method ReadPowerSupply(bus: Bus)
      modifies this
      ensures parasite == (bus.powerBit == 0)
      ensures romCodes == old(romCodes) && thermometers == old(thermometers)
      ensures pendingConversion == old(pendingConversion) && lastCompletedConversion == old(lastCompletedConversion)
      ensures listeners == old(listeners)
    {
      parasite := bus.powerBit == 0;
    }

    /** Re-discovers the devices and reconciles the table with what was found,
        then rebuilds the list of addresses and sorts it. */
    method UpdateThermometers(bus: Bus)
      requires Valid()
      modifies this
      ensures Valid()
      ensures thermometers == Reconciled(old(thermometers), Discovered(bus.search), bus)
      ensures pendingConversion == old(pendingConversion) && lastCompletedConversion == old(lastCompletedConversion)
      ensures parasite == old(parasite) && listeners == old(listeners)
    {
      var discovered := DiscoverAll(bus.search);
      ghost var known := thermometers;
      RemoveVanished(discovered);
      ReconcileAfterRemoval(known, discovered, bus);
      AddDiscovered(discovered, bus);
      ReconciledKeyed(known, discovered, bus);
      RebuildRomCodes();
    }

    /** The first pass of `updateThermometers`: erases every record whose
        device was not discovered. */
    method RemoveVanished(discovered: set<RomCode>)
      requires Keyed(thermometers)
      modifies this
      ensures thermometers == Restricted(old(thermometers), discovered)
      ensures pendingConversion == old(pendingConversion) && lastCompletedConversion == old(lastCompletedConversion)
      ensures parasite == old(parasite) && listeners == old(listeners)
    {
      ghost var known := thermometers;
      var visit := thermometers.Keys;
      while visit != {}
        invariant visit <= known.Keys
        invariant forall c :: c in thermometers <==> c in known && (c in visit || c in discovered)
        invariant forall c :: c in thermometers ==> thermometers[c] == known[c]
        invariant pendingConversion == old(pendingConversion) && lastCompletedConversion == old(lastCompletedConversion)
        invariant parasite == old(parasite) && listeners == old(listeners)
        decreases visit
      {
        var c :| c in visit;
        if c !in discovered {
          thermometers := thermometers - {thermometers[c].romCode};
        }
        visit := visit - {c};
      }
    }

    /** The second pass of `updateThermometers`: every discovered device not
        in the table has its scratchpad read and decoded, and is added when
        both succeed. */
    method AddDiscovered(discovered: set<RomCode>, bus: Bus)
      requires thermometers.Keys <= discovered
      modifies this
      ensures thermometers == Reconciled(old(thermometers), discovered, bus)
      ensures pendingConversion == old(pendingConversion) && lastCompletedConversion == old(lastCompletedConversion)
      ensures parasite == old(parasite) && listeners == old(listeners)
    {
      ghost var known := thermometers;
      var todo := discovered;
      while todo != {}
        invariant todo <= discovered
        invariant forall c :: c in thermometers <==>
                    c in discovered && (c in known || (c !in todo && Fresh(c, bus).Some?))
        invariant forall c :: c in thermometers ==>
                    thermometers[c] == if c in known then known[c] else Fresh(c, bus).value
        invariant pendingConversion == old(pendingConversion) && lastCompletedConversion == old(lastCompletedConversion)
        invariant parasite == old(parasite) && listeners == old(listeners)
        decreases todo
      {
        var c :| c in todo;
        if c !in thermometers {
          AddOne(c, bus);
        }
        todo := todo - {c};
      }
    }

    /** The body of the second pass for a device not in the table: its
        scratchpad is read and decoded into a new record, which is inserted
        when both succeed. */
    method AddOne(c: RomCode, bus: Bus)
      modifies this
      ensures thermometers == if Fresh(c, bus).Some? then old(thermometers)[c := Fresh(c, bus).value] else old(thermometers)
      ensures romCodes == old(romCodes) && parasite == old(parasite) && listeners == old(listeners)
      ensures pendingConversion == old(pendingConversion) && lastCompletedConversion == old(lastCompletedConversion)
    {
      var scratchpad := new bv8[9];
      var ok := ReadScratchpad(c, scratchpad, bus);
      if ok {
        var t := new Thermometer();
        ok := InitThermometer(c, scratchpad[..], t, false);
        if ok {
          thermometers := thermometers[c := t.Value()];
        }
      }
    }

    /** The last pass of `updateThermometers`: the list is cleared, refilled
        with the address of every record and sorted. */
    method RebuildRomCodes()
      requires Keyed(thermometers)
      modifies this
      ensures Valid()
      ensures thermometers == old(thermometers)
      ensures pendingConversion == old(pendingConversion) && lastCompletedConversion == old(lastCompletedConversion)
      ensures parasite == old(parasite) && listeners == old(listeners)
    {
      romCodes := [];
      var rest := thermometers.Keys;
      while rest != {}
        invariant rest <= thermometers.Keys
        invariant forall c :: c in romCodes <==> c in thermometers && c !in rest
        invariant Distinct(romCodes)
        invariant thermometers == old(thermometers)
        invariant pendingConversion == old(pendingConversion) && lastCompletedConversion == old(lastCompletedConversion)
        invariant parasite == old(parasite) && listeners == old(listeners)
        decreases rest
      {
        var c :| c in rest;
        romCodes := romCodes + [thermometers[c].romCode];
        rest := rest - {c};
      }
      SortOfDistinct(romCodes);
      SortSameElements(romCodes);
      romCodes := Sort(romCodes);
    }

    /** `update`: while a conversion is pending, returns true and changes
        nothing. Otherwise samples the power supply, reconciles the table with
        a fresh discovery and starts a conversion on all devices; it fails,
        leaving no conversion pending, exactly when the reset before the
        convert command is unanswered, and otherwise sets the deadline
        750 ms from `now`. */
    method Update(now: Uptime, bus: Bus) returns (ok: bool)
      requires Valid()
      modifies this
      ensures Valid()
      ensures UpdateEffect(this, now, bus, ok)
    {
      if IsConversionPending() {
        return true;
      }
      ReadPowerSupply(bus);
      UpdateThermometers(bus);
      // beginConversion: the reset must be answered before the skip-ROM and
      // convert commands are sent.
      if !bus.convertPresence {
        return false;
      }
      pendingConversion := now + ConversionDelay;
      return true;
    }

    /** What the scheduler runs when the conversion deadline passes: records
        the deadline as the time of the last reading, marks no conversion
        pending and re-reads every identified device. A device whose read or
        decoding fails keeps its record. */
    method ConversionCompleted(bus: Bus)
      requires Valid()
      modifies this
      ensures Valid()
      ensures lastCompletedConversion == old(pendingConversion) && pendingConversion == Start
      ensures romCodes == old(romCodes)
      ensures thermometers == Refreshed(old(thermometers), bus)
      ensures parasite == old(parasite) && listeners == old(listeners)
    {
      lastCompletedConversion := pendingConversion;
      pendingConversion := Start;
      ghost var known := thermometers;
      var codes := romCodes;
      for i := 0 to |codes|
        invariant romCodes == codes && parasite == old(parasite) && listeners == old(listeners)
        invariant lastCompletedConversion == old(pendingConversion) && pendingConversion == Start
        invariant RefreshedUpTo(thermometers, known, codes[..i], bus)
      {
        var c := codes[i];
        NotInPrefix(codes, i);
        ghost var before := thermometers;
        RefreshOne(c, bus);
        RefreshStep(before, known, codes[..i], c, bus);
        assert codes[..i + 1] == codes[..i] + [c];
      }
      assert codes[..|codes|] == codes;
      RefreshDone(thermometers, known, codes, bus);
      RefreshedKeyed(known, bus);
    }

    /** The body of the refresh loop: the device's scratchpad is read and, when
        the read and the decoding succeed, its record is overwritten in place. */
    method RefreshOne(c: RomCode, bus: Bus)
      requires c in thermometers
      modifies this
      ensures thermometers == old(thermometers)[c := Refresh(c, old(thermometers)[c], bus)]
      ensures romCodes == old(romCodes) && parasite == old(parasite) && listeners == old(listeners)
      ensures pendingConversion == old(pendingConversion) && lastCompletedConversion == old(lastCompletedConversion)
    {
      var scratchpad := new bv8[9];
      var ok := ReadScratchpad(c, scratchpad, bus);
      if ok {
        var r := Init(c, scratchpad[..], true);
        if r.Some? {
          thermometers := thermometers[c := r.value];
        }
      }
    }

    /** Registers a listener; registering one twice is a checked error. */
    method AddEventListener(listener: object)
      requires listener !in listeners
      modifies this
      ensures listeners == old(listeners) + {listener}
      ensures romCodes == old(romCodes) && thermometers == old(thermometers) && parasite == old(parasite)
      ensures pendingConversion == old(pendingConversion) && lastCompletedConversion == old(lastCompletedConversion)
    {
      listeners := listeners + {listener};
    }

    /** Unregisters a listener, if it was registered. */
    method RemoveEventListener(listener: object)
      modifies this
      ensures listeners == old(listeners) - {listener}
      ensures romCodes == old(romCodes) && thermometers == old(thermometers) && parasite == old(parasite)
      ensures pendingConversion == old(pendingConversion) && lastCompletedConversion == old(lastCompletedConversion)
    {
      listeners := listeners - {listener};
    }
  }

  /** An iterator over the thermometers in ascending order of address: the
      registry it walks and a position in it. */
  class ConstIterator {
    const owner: Thermometers
    var idx: int

    constructor(owner: Thermometers, idx: int)
      ensures this.owner == owner && this.idx == idx
    {
      this.owner := owner;
      this.idx := idx;
    }

    /** The thermometer at the current position. */
    function Deref(): (r: Record)
      reads this, owner
      requires owner.Valid() && 0 <= idx < owner.Count()
      ensures r.romCode == owner.RomCodeAt(idx)
    {
      owner.ThermometerAt(idx)
    }

    /** Prefix `++`: advances by one. */
    method Increment()
      modifies this
      ensures idx == old(idx) + 1
    {
      idx := idx + 1;
    }

    /** Postfix `++`: advances by one and returns a copy of the iterator as
        it was. */
    method PostIncrement() returns (previous: ConstIterator)
      modifies this
      ensures fresh(previous) && previous.owner == owner && previous.idx == old(idx)
      ensures idx == old(idx) + 1
    {
      previous := new ConstIterator(owner, idx);
      idx := idx + 1;
    }

    /** Two iterators are equal when they walk the same registry and stand at
        the same position. */
    predicate Equals(other: ConstIterator)
      reads this, other
    {
      owner == other.owner && idx == other.idx
    }

    predicate NotEquals(other: ConstIterator)
      reads this, other
    {
      owner != other.owner || idx != other.idx
    }

    /** `!=` is the negation of `==`. */
    lemma NotEqualsIsNegation(other: ConstIterator)
      ensures NotEquals(other) <==> !Equals(other)
    {
    }
  }

  // ----- What reconciliation and refreshing promise -----

  /** Reconciliation keeps only discovered devices, leaves the record of every
      device that stays untouched, and adds a newly discovered device exactly
      when its scratchpad is read and decoded. */
  lemma ReconciledFacts(known: map<RomCode, Record>, discovered: set<RomCode>, bus: Bus, c: RomCode)
    ensures c in Reconciled(known, discovered, bus) ==> c in discovered
    ensures c in known && c in discovered ==> c in Reconciled(known, discovered, bus) && Reconciled(known, discovered, bus)[c] == known[c]
    ensures c !in known && c in discovered ==>
              (c in Reconciled(known, discovered, bus) <==>
                 ScratchpadRead(bus.answers(c)).Some? && Init(c, ScratchpadRead(bus.answers(c)).value, false).Some?)
  {
  }

  /** After reconciliation every record is still filed under its own address. */
  lemma ReconciledKeyed(known: map<RomCode, Record>, discovered: set<RomCode>, bus: Bus)
    requires Keyed(known)
    ensures Keyed(Reconciled(known, discovered, bus))
  {
    forall c | c in Reconciled(known, discovered, bus) && c !in known
      ensures Fresh(c, bus).value.romCode == c
    {
      InitRecordShape(c, ScratchpadRead(bus.answers(c)).value, false);
    }
  }

  /** A discovered device fails to get a fresh record only when its
      scratchpad read fails or it claims to be a DS18S20 with bogus bytes 4
      and 5. A fresh record carries the device's address and no temperature. */
  lemma FreshFailsIff(search: seq<Address>, c: RomCode, bus: Bus)
    requires c in Discovered(search)
    ensures Fresh(c, bus).None? <==>
              ScratchpadRead(bus.answers(c)).None? ||
              (c.Family() == 0x10 && (bus.answers(c).bytes[4] != 0xFF || bus.answers(c).bytes[5] != 0xFF))
    ensures Fresh(c, bus).Some? ==> Fresh(c, bus).value.romCode == c && Fresh(c, bus).value.temperature.None?
  {
    var sp := bus.answers(c).bytes;
    DiscoveredAreClassified(search, c, sp[4]);
    InitFailsIff(c, sp, false);
    if Fresh(c, bus).Some? {
      InitRecordShape(c, sp, false);
    }
  }

  /** After refreshing every record is still filed under its own address. */
  lemma RefreshedKeyed(known: map<RomCode, Record>, bus: Bus)
    requires Keyed(known)
    ensures Keyed(Refreshed(known, bus))
  {
    forall c | c in known
      ensures Refresh(c, known[c], bus).romCode == c
    {
      var sp := bus.answers(c).bytes;
      if Init(c, sp, true).Some? {
        InitRecordShape(c, sp, true);
      }
    }
  }

  /** Refreshing keeps the same devices. A device whose read or decoding fails
      keeps its record; any other gets the decoded record, with a temperature
      unless it is a MAX31850. */
  lemma RefreshedFacts(known: map<RomCode, Record>, bus: Bus, c: RomCode)
    ensures Refreshed(known, bus).Keys == known.Keys
    ensures c in known && (ScratchpadRead(bus.answers(c)).None? || Init(c, bus.answers(c).bytes, true).None?) ==>
              Refreshed(known, bus)[c] == known[c]
    ensures c in known && ScratchpadRead(bus.answers(c)).Some? && Init(c, bus.answers(c).bytes, true).Some? ==>
              Refreshed(known, bus)[c] == Init(c, bus.answers(c).bytes, true).value &&
              (Refreshed(known, bus)[c].family != MAX31850 <==> Refreshed(known, bus)[c].temperature.Some?)
  {
    var sp := bus.answers(c).bytes;
    if c in known && ScratchpadRead(bus.answers(c)).Some? && Init(c, sp, true).Some? {
      KnownTemperatureUnlessMAX31850(c, sp);
    }
  }

  /** The table with only the records of discovered devices. */
  function Restricted(known: map<RomCode, Record>, discovered: set<RomCode>): map<RomCode, Record> {
    map c | c in known && c in discovered :: known[c]
  }

  /** Removing the devices that vanished first does not change the outcome of
      reconciliation. */
  lemma ReconcileAfterRemoval(known: map<RomCode, Record>, discovered: set<RomCode>, bus: Bus)
    ensures Reconciled(Restricted(known, discovered), discovered, bus) == Reconciled(known, discovered, bus)
  {
  }

  /** Part-way through a refresh: the same devices as before, those in
      `done` refreshed and the others as they were. */
  ghost predicate RefreshedUpTo(table: map<RomCode, Record>, known: map<RomCode, Record>, done: seq<RomCode>, bus: Bus) {
    && table.Keys == known.Keys
    && forall c :: c in table ==> table[c] == if c in done then Refresh(c, known[c], bus) else known[c]
  }

  /** Refreshing one more device that was not yet refreshed. */
  lemma RefreshStep(table: map<RomCode, Record>, known: map<RomCode, Record>, done: seq<RomCode>, c: RomCode, bus: Bus)
    requires RefreshedUpTo(table, known, done, bus) && c in known && c !in done
    ensures RefreshedUpTo(table[c := Refresh(c, table[c], bus)], known, done + [c], bus)
  {
  }

  /** Once every device has been refreshed, the table is the refreshed table. */
  lemma RefreshDone(table: map<RomCode, Record>, known: map<RomCode, Record>, done: seq<RomCode>, bus: Bus)
    requires RefreshedUpTo(table, known, done, bus) && forall c :: c in known ==> c in done
    ensures table == Refreshed(known, bus)
  {
  }
}
