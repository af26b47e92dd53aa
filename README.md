# roo_onewire in Dafny

A model of the core of roo_onewire, a driver for 1-Wire temperature sensors
(DS18S20, DS18B20, DS1822, DS1825, MAX31850, DS28EA00). The model covers the
following layers, each with what it promises proved:

- **The 64-bit device address.** `RomCodes`, `RomCodeFacts` and
  `RomCodeOrder` model `RomCode`:
  - the low byte is the family code and the top byte is a CRC-8;
  - it packs to and from eight bytes;
  - it is compared with the broadcast and unknown addresses;
  - it is ordered by raw value;
  - it renders as sixteen uppercase hex digits.

  `OneWireCrc` implements the Dallas/Maxim CRC-8 bit by bit, in the form the
  OneWire library computes it.
- **The family classifier and scratchpad decoder.** `Decoding` maps a family
  code and nine scratchpad bytes to a family, a resolution and a
  temperature, or rejects them (`ReadTemperatureData`, `initThermometer`).
- **Discovery and the registry.**
  - `Discovery` filters the bus search down to valid, supported addresses.
  - `Registry.Thermometers` keeps a table of records keyed by address and
    the ascending list of those addresses (`updateThermometers`).
  - It also runs the conversion state machine (`update`,
    `conversionCompleted`, `readPowerSupply`).
  - `Registry.ConstIterator` walks the registry in address order.
- **The front object.** `RooOneWire.OneWire` forwards `update` to the
  registry.
- **The role layer.** `Roles.ThermometerRole` and
  `RoleRegistry.ThermometerRoles` map application roles to discovered
  thermometers:
  - the mapping is held in a persistent store;
  - the layer keeps the ascending list of discovered thermometers no role
    is mapped to, refreshed on every assignment change and every discovery;
  - it copies the last temperatures into the assigned roles when a
    conversion completes.

  The registry's events reach the layer through its forwarding `Listener`:
  `ThermometerRoles.Update` runs the driver's `update` and then the
  discovery event when no conversion was pending, and
  `ThermometerRoles.OnConversionDeadline` runs the registry's
  `conversionCompleted` and then the conversion event.

## How the model is built

**Values and objects.**
- Value types are datatypes: `RomCode` over a `bv64`, and `Record` for a
  thermometer's four fields.
- Objects the driver updates in place are classes with `modifies` clauses:
  - `Thermometer`;
  - `Thermometers`, whose mutable fields are `lastCompletedConversion`,
    `pendingConversion`, `parasite`, `romCodes`, `thermometers` and
    `listeners`;
  - `ConstIterator`, `OneWire`, `ThermometerRole`, `ThermometerRoles` and
    `Listener`.

**The bus.** The bus is an input, the datatype `BusEnv.Bus`. It scripts the
devices' answers to every request the driver makes:
- the addresses the search enumerates;
- the bit read back after the read-power-supply command;
- each device's scratchpad answer, given as the presences at the two resets
  and the nine bytes;
- whether the reset before the convert command is answered.

**Time.** The current time is a parameter of `update`. The scheduler's task
that fires when the conversion deadline passes is the method
`Thermometers.ConversionCompleted`; seen from the role layer, with the
registry's event delivered to the forwarding listener, it is
`ThermometerRoles.OnConversionDeadline`. Like the source function, it does
not require a conversion to be pending.

**Specifications and proofs.**
- Each loop of the source is a loop with invariants, proved against a
  function that states its effect:
  - `DiscoverAll` ↔ `Discovered`;
  - `RemoveVanished` and `AddDiscovered` ↔ `Reconciled`;
  - the refresh loop of `ConversionCompleted` ↔ `Refreshed`;
  - `RefreshUnassignedThermometers` ↔ `UnassignedIn`;
  - `SetStore` ↔ `Loaded`;
  - `ToString` and `ToCharArray` ↔ `Hex`.
- The lemmas then establish the source's promises about those functions.

**Registry invariant.** `Thermometers.Valid` has three parts:
- every record is filed under its own address;
- the address list is strictly ascending;
- the list holds exactly the table's keys.

`Update` and `ConversionCompleted` keep it. `ListDeterminedByTable` shows
the list is the only such sequence.

**Arithmetic.**
- Temperatures are exact reals. A signed 16-bit value divided by 2 or by 16
  is exact in `float`, so nothing is lost.
- The 16-bit two's-complement reading is written out (`Signed16`), as is
  the 64-bit wrap-around of `RomCode(-1)`.

**Accessors.** Plain reads of a field are functions without contracts:
- `Count`, `RomCodeAt`, `ThermometerByRomCode`, `IsConversionPending`,
  `GetPendingConversionTime`, `LastReadingTime`, `RomCodes` and
  `IsParasite`;
- `RolesCount`, `RoleAt` and `Unassigned`;
- `ReadTemperature` and `IsAssigned`.

Each is the source's expression. `IsConversionPending` is
`pendingConversion != Start`, as in `thermometers.h:117-119`. The lemmas
below state what these accessors promise together.

## Where the documentation and the code differ

The model follows the code in each case below.

- **`OneWire::update` on an empty bus.** The comment in `roo_onewire.h`
  says `update` returns false when no thermometers were identified. The
  code returns false only when the reset before the convert command goes
  unanswered, whatever was discovered. `RooOneWire.OneWire.Update` states
  this as `ok <==> old(pending) || bus.convertPresence`.
- **DS18S20 decoding.** The raw word of a DS18S20 is halved, so bytes
  0x50, 0x05 read 680.0 degrees, not 85.0 (`Decoding.DS18S20HalvesRawWord`).
  The 85.0 power-on value is what a DS18B20 gives for those bytes
  (`Decoding.DS18B20PowerOnValue`).
- **`setStore` and the unknown code.** For a role without a stored code,
  `setStore` erases the unknown code from the code-to-id map. That role is
  not unassigned: its current code, and that code's mapping, are kept.
- **`assign` on an assigned role.** `assign` on a role that is already
  assigned leaves the role's previous code mapped to its id.

## Model

| member | source | states |
|---|---|---|
| OneWireCrc.ResidueZeroIffCrcAppended | src/roo_onewire/rom_code.cpp:13-17 | comparing the CRC-8 of a message with a byte is the same as checking that the CRC-8 of the message with that byte appended is zero |
| OneWireCrc.SingleByteErrorDetected | src/roo_onewire/thermometers.cpp:145-150 | two messages that differ in exactly one byte never have the same CRC-8 |
| OneWireCrc.UpdateIsDivides | src/roo_onewire/rom_code.cpp:16 | one byte through the bitwise CRC loop depends on the register and the byte only through their xor, as eight steps of polynomial division |
| RomCodes.RomCode.ToOneWireDeviceAddress | src/roo_onewire/rom_code.cpp:46-55 | the 8-byte buffer receives the code's bytes, byte 0 being the lowest byte of the raw value; the lemmas below show this is the inverse of packing |
| RomCodes.RomCode.Hex | src/roo_onewire/rom_code.h:51-52 | the rendering of an address has exactly sixteen characters |
| RomCodes.RomCode.ToString | src/roo_onewire/rom_code.cpp:19-29 | the string built by appending two digits per byte, most significant byte first, is the rendering `Hex()`: the same characters that `toCharArray` writes |
| RomCodes.RomCode.ToCharArray | src/roo_onewire/rom_code.cpp:31-38 | the first sixteen cells of the output array receive the rendering `Hex()` and no other cell changes |
| RomCodes.NibbleRoundTrip | src/roo_onewire/rom_code.cpp:7-9 | nibble n becomes entry n of "0123456789ABCDEF", and reading that digit back gives n |
| RomCodes.NibbleToCharInjective | src/roo_onewire/rom_code.cpp:7-9 | distinct nibbles become distinct characters |
| RomCodes.CharRoundTrip | src/roo_onewire/rom_code.cpp:7-9 | every uppercase hex digit is the character of some nibble, so the map is onto '0'-'9', 'A'-'F' |
| RomCodeFacts.EqualityIsRawEquality | src/roo_onewire/rom_code.h:39-45 | two codes are equal exactly when their raw values are, and `!=` is the negation of `==` |
| RomCodeFacts.BroadcastIsAllOnes | src/roo_onewire/rom_code.h:70 | the constant built from -1 is broadcast, and a code is broadcast exactly when all eight of its bytes are 0xFF |
| RomCodeFacts.UnknownIsAllZero | src/roo_onewire/rom_code.h:29-33 | the default code is unknown, and a code is unknown exactly when all eight of its bytes are zero |
| RomCodeFacts.FamilyIsByteZero | src/roo_onewire/rom_code.h:37 | the family code is byte 0 of the unpacked address |
| RomCodeFacts.UnpackThenPack | src/roo_onewire/rom_code.cpp:40-44 | packing the unpacked bytes of a code gives the code back |
| RomCodeFacts.PackThenUnpack | src/roo_onewire/rom_code.cpp:40-55 | unpacking a packed address gives its eight bytes back |
| RomCodeFacts.BytesInjective | src/roo_onewire/rom_code.cpp:46-55 | distinct codes unpack to distinct addresses |
| RomCodeFacts.ValidUnicastIsCrcResidue | src/roo_onewire/rom_code.cpp:13-17 | validity is exactly "CRC-8 of bytes 0-6 equals the top byte of the raw value", equivalently "CRC-8 of all eight bytes is zero" |
| RomCodeFacts.SingleByteCorruptionDetected | src/roo_onewire/rom_code.cpp:13-17 | changing any one byte of a valid address yields an invalid one |
| RomCodeFacts.LessIsStrictTotalOrder | src/roo_onewire/rom_code.h:47 | `<` is irreflexive, transitive and asymmetric, and of two distinct codes exactly one is less than the other |
| RomCodeFacts.HexDigitPair | src/roo_onewire/rom_code.cpp:31-38 | characters 2j and 2j+1 of the rendering are the high and low nibble of byte 7-j, so the most significant byte comes first |
| RomCodeFacts.HexIsDigits | src/roo_onewire/rom_code.cpp:19-38 | every character of the rendering is an uppercase hex digit |
| RomCodeFacts.ParseHexOfHex | src/roo_onewire/rom_code.cpp:19-38 | reading the sixteen digits back gives the original code |
| RomCodeFacts.HexOfParseHex | src/roo_onewire/rom_code.cpp:19-38 | a string that reads back as a code is exactly that code's rendering, so rendering and reading are inverse bijections |
| RomCodeFacts.HexInjective | src/roo_onewire/rom_code.cpp:19-38 | distinct codes have distinct renderings |
| RomCodeOrder.Insert | src/roo_onewire/thermometers.cpp:118 | inserting into an ascending sequence keeps it ascending and adds exactly one occurrence of the element |
| RomCodeOrder.Sort | src/roo_onewire/thermometers.cpp:118 | the sorted list is ascending and a permutation of its input |
| RomCodeOrder.SortOfDistinct | src/roo_onewire/thermometers.cpp:114-118 | sorting codes that occur once each gives a strictly ascending list |
| RomCodeOrder.SortSameElements | src/roo_onewire/thermometers.cpp:118 | the sorted list holds exactly the elements of its input |
| RomCodeOrder.StrictlyAscendingUnique | src/roo_onewire/thermometers.h:184-185 | two strictly ascending lists with the same elements are equal, so the sorted address list is determined by its set |
| Decoding.Read2BitResolution | src/roo_onewire/thermometers.cpp:27-29 | the resolution read from the configuration register is always between 9 and 12 bits |
| Decoding.ResolutionFromConfigBits | src/roo_onewire/thermometers.cpp:27-29 | bit 6 of the configuration register adds two bits of resolution and bit 5 adds one, on top of nine |
| Decoding.Signed16 | src/roo_onewire/thermometers.cpp:41 | the word read as `int16_t` lies in -32768..32767 |
| Decoding.WordValue | src/roo_onewire/thermometers.cpp:41 | the word with high byte b1 and low byte b0 is b1 * 256 + b0: the driver's sum and a bitwise or agree |
| Decoding.InitThermometer | src/roo_onewire/thermometers.cpp:154-217 | it returns true exactly when classification succeeds; then all four fields take the decoded record, and otherwise the object is left untouched |
| Decoding.SupportedIffClassified | src/roo_onewire/thermometers.cpp:159-212 | a family code gets a branch of its own in `initThermometer` exactly when `IsThermometerFamilySupported` accepts it, whatever the configuration register holds |
| Decoding.InitFailsIff | src/roo_onewire/thermometers.cpp:159-212 | initialisation fails exactly for an unsupported family, or for family 0x10 with byte 4 or byte 5 not 0xFF |
| Decoding.InitRecordShape | src/roo_onewire/thermometers.cpp:214-215 | a successful initialisation records the code it was given, a known family and a defined resolution, and it has no temperature unless the read follows a conversion |
| Decoding.InitIgnoresPostConversionButForTemperature | src/roo_onewire/thermometers.cpp:214-215 | initialising before and after a conversion succeeds on the same inputs, and the two results differ only in the temperature |
| Decoding.KnownTemperatureUnlessMAX31850 | src/roo_onewire/thermometers.cpp:36-68 | after a conversion a decoded record has a temperature exactly when the device is not a MAX31850 |
| Decoding.InitAfterConversion | src/roo_onewire/thermometers.cpp:159-215 | after a conversion, a recognised and plausible scratchpad yields the record of its family's decoding |
| Decoding.DS18S20Decoding | src/roo_onewire/thermometers.cpp:39-45 | family 0x10 with bytes 4 and 5 both 0xFF decodes as DS18S20 at 9 bits, with the signed raw word halved as its temperature |
| Decoding.DS18S20BogusRejected | src/roo_onewire/thermometers.cpp:160-170 | family 0x10 with byte 4 or byte 5 not 0xFF is rejected |
| Decoding.TwoBitResolutionDecoding | src/roo_onewire/thermometers.cpp:46-57 | for families 0x28, 0x22 and 0x42, and for 0x3B with bit 7 of byte 4 clear, the resolution comes from the configuration register and the temperature is the signed raw word with its 12-resolution low bits cleared, in sixteenths of a degree |
| Decoding.TwoBitTemperature | src/roo_onewire/thermometers.cpp:51-56 | the two-bit decoding masks off exactly the low bits the resolution leaves undefined |
| Decoding.MaskRoundsDown | src/roo_onewire/thermometers.cpp:52-53 | masking the 16-bit word and reading it as signed clears the 12-res low bits of the signed value |
| Decoding.TwelveBitsUnmasked | src/roo_onewire/thermometers.cpp:52 | at twelve bits the mask keeps every bit |
| Decoding.ClearLowRoundsDown | src/roo_onewire/thermometers.cpp:52-53 | clearing n low bits yields the largest multiple of 2^n not above the value, for negative values too |
| Decoding.MAX31850Decoding | src/roo_onewire/thermometers.cpp:194-200 | family 0x3B with bit 7 of byte 4 set is a MAX31850, at 14 bits and with no temperature |
| Decoding.DS18B20PowerOnValue | src/roo_onewire/thermometers.cpp:46-57 | a DS18B20 scratchpad with raw word 0x0550 at 12 bits reads 85.0 degrees |
| Decoding.DS18B20NegativeValue | src/roo_onewire/thermometers.cpp:46-57 | a DS18B20 raw word of 0xFF5E reads -10.125 degrees |
| Decoding.DS18S20HalvesRawWord | src/roo_onewire/thermometers.cpp:39-45 | a DS18S20 raw word of 0x0550 reads 680.0 degrees |
| Discovery.DiscoverAll | src/roo_onewire.cpp:39-51 | the loop over the search results returns exactly `Discovered(search)`, the set of codes of searched addresses that are valid and of a supported family |
| Discovery.DiscoveredIff | src/roo_onewire.cpp:43-48 | a code is discovered exactly when it is valid, of a supported family, and its bytes are among the searched addresses; a repeated address counts once |
| Discovery.DiscoveredAreClassified | src/roo_onewire.cpp:45-47 | every discovered code has a family branch in the decoder, so a discovered device is never rejected for an unrecognised family |
| Discovery.DiscoveredAreUnicast | src/roo_onewire.cpp:45-46 | a discovered code is neither the broadcast nor the unknown address |
| BusEnv.AcceptedScratchpadHasZeroResidue | src/roo_onewire/thermometers.cpp:124-152 | a scratchpad read succeeds exactly when both resets are answered and the CRC-8 over all nine bytes is zero, and it then yields the bytes read |
| BusEnv.CorruptedScratchpadRejected | src/roo_onewire/thermometers.cpp:145-150 | an accepted scratchpad with any one byte altered is rejected |
| ThermometerRecords.Thermometer.constructor | src/roo_onewire/thermometers/thermometer.cpp:5-8 | a new thermometer has the unknown code, unknown family, undefined resolution and unknown temperature |
| ThermometerRecords.Thermometer.Set | src/roo_onewire/thermometers/thermometer.h:17-31 | all four fields are overwritten, and the getters return exactly the values given |
| Registry.Thermometers.constructor | src/roo_onewire/thermometers.cpp:74-80 | a new registry is empty, satisfies the registry invariant and has no conversion pending or completed |
| Registry.Thermometers.ThermometerAt | src/roo_onewire/thermometers.h:104-106 | for an index below `count()`, the lookup of the index-th address finds a record, and that record carries the index-th address |
| Registry.Thermometers.Begin | src/roo_onewire/thermometers.h:127 | `begin()` walks this registry from position 0 |
| Registry.Thermometers.End | src/roo_onewire/thermometers.h:128 | `end()` stands at position `count()` |
| Registry.Thermometers.LookupAgreesWithList | src/roo_onewire/thermometers.h:97-100 | the lookup by address finds a record exactly when the address is in the ascending list, and the record found carries that address |
| Registry.Thermometers.CountIsTableSize | src/roo_onewire/thermometers.h:89 | `count()` is the number of records in the table |
| Registry.Thermometers.ListDeterminedByTable | src/roo_onewire/thermometers.h:91-93 | the list of addresses is the one strictly ascending sequence of the table's keys |
| Registry.Thermometers.ReadScratchpad | src/roo_onewire/thermometers.cpp:124-152 | it returns true exactly when both resets are answered and byte 8 is the CRC-8 of bytes 0-7; once the first reset is answered the buffer holds the nine bytes read, and otherwise it is untouched |
| Registry.Thermometers.ReadPowerSupply | src/roo_onewire/thermometers.cpp:241-247 | the bus counts as parasite-powered exactly when the bit read back is 0, and nothing else changes |
| Registry.Thermometers.UpdateThermometers | src/roo_onewire/thermometers.cpp:95-122 | the table becomes `Reconciled` with the fresh discovery, the registry invariant is kept (the list is the table's keys in strictly ascending order), and the conversion state is untouched |
| Registry.Thermometers.RemoveVanished | src/roo_onewire/thermometers.cpp:98-102 | exactly the records of devices that were not discovered are erased |
| Registry.Thermometers.AddDiscovered | src/roo_onewire/thermometers.cpp:104-113 | each discovered device missing from the table is added exactly when its scratchpad is read and decoded |
| Registry.Thermometers.AddOne | src/roo_onewire/thermometers.cpp:105-112 | one device's record is inserted exactly when the read and the decoding succeed |
| Registry.Thermometers.RebuildRomCodes | src/roo_onewire/thermometers.cpp:114-118 | the list is rebuilt as the table's keys in strictly ascending order and the table does not change |
| Registry.Thermometers.Update | src/roo_onewire/thermometers.cpp:82-93 | see `UpdateEffect`: while a conversion is pending it returns true and changes nothing; otherwise it samples the power supply, reconciles the table, and succeeds exactly when the convert reset is answered, in which case the deadline is now + 750 ms and otherwise no conversion is pending |
| Registry.Thermometers.ConversionCompleted | src/roo_onewire/thermometers.cpp:226-239 | the old deadline becomes the last reading time and no conversion is pending; the address list is unchanged and the table becomes `Refreshed`; the registry invariant is kept |
| Registry.Thermometers.RefreshOne | src/roo_onewire/thermometers.cpp:230-234 | one device's record is replaced by its post-conversion decoding when the read and the decoding succeed, and otherwise kept |
| Registry.Thermometers.AddEventListener | src/roo_onewire/thermometers.cpp:249-253 | a listener not yet registered is added; registering one twice is excluded, as the CHECK does |
| Registry.Thermometers.RemoveEventListener | src/roo_onewire/thermometers.cpp:255-257 | the listener is no longer registered and nothing else changes |
| Registry.ConstIterator.constructor | src/roo_onewire/thermometers.h:78-79 | the iterator walks the given registry from the given position |
| Registry.ConstIterator.Deref | src/roo_onewire/thermometers.h:48-50 | dereferencing gives the record of the address at the current position |
| Registry.ConstIterator.Increment | src/roo_onewire/thermometers.h:56-59 | prefix `++` advances the position by one |
| Registry.ConstIterator.PostIncrement | src/roo_onewire/thermometers.h:61-65 | postfix `++` returns a copy at the old position and advances this one by one |
| Registry.ConstIterator.NotEqualsIsNegation | src/roo_onewire/thermometers.h:67-73 | `!=` is the negation of `==`, which compares owner and position |
| Registry.ReconciledFacts | src/roo_onewire/thermometers.cpp:95-113 | after reconciliation only discovered devices remain, known and still-discovered records are unchanged, and a newly discovered device is present exactly when its scratchpad is read and decoded |
| Registry.ReconciledKeyed | src/roo_onewire/thermometers.h:133-137 | after reconciliation every record is still filed under its own address |
| Registry.FreshFailsIff | src/roo_onewire/thermometers.cpp:104-113 | a discovered device fails to get a record only when its scratchpad read fails or it claims to be a DS18S20 with bogus bytes 4 and 5; a new record has no temperature |
| Registry.ReconcileAfterRemoval | src/roo_onewire/thermometers.cpp:98-113 | removing the vanished devices before adding new ones does not change the outcome |
| Registry.RefreshedKeyed | src/roo_onewire/thermometers.h:133-137 | after refreshing every record is still filed under its own address |
| Registry.RefreshedFacts | src/roo_onewire/thermometers.cpp:229-235 | refreshing keeps the same devices; a device whose read or decoding fails keeps its record, and any other gets the decoded record, which has a temperature unless it is a MAX31850 |
| RooOneWire.OneWire.constructor | src/roo_onewire.cpp:35-36 | a new driver owns an empty, valid registry with no conversion pending |
| RooOneWire.OneWire.Update | src/roo_onewire.cpp:53 | the result is the registry's: true exactly when a conversion was pending or the convert reset was answered, however many thermometers were found |
| Roles.ThermometerRole.constructor | src/roo_onewire/thermometers/thermometer_role.h:15-16 | a new role has the given id and name, is unassigned and has no reading |
| Roles.ThermometerRole.Assign | src/roo_onewire/thermometers/thermometer_role.h:31 | the role takes the code, is assigned exactly when the code is not unknown, and keeps its reading |
| Roles.ThermometerRole.Unassign | src/roo_onewire/thermometers/thermometer_role.h:33 | the role is unassigned and keeps its reading |
| Roles.ThermometerRole.SetLastReading | src/roo_onewire/thermometers/thermometer_role.h:35-39 | `readTemperature()` then returns the given value at the given time, and the code is untouched |
| RoleRegistry.UnassignedMembers | src/roo_onewire/thermometer_roles.cpp:65-73 | a code is listed as unassigned exactly when it is a registry code and no role is mapped to it |
| RoleRegistry.UnassignedAscending | src/roo_onewire/thermometer_roles.cpp:65-73 | the unassigned list of an ascending list is ascending |
| RoleRegistry.CreateRoles | src/roo_onewire/thermometer_roles.cpp:17-22 | one new, distinct, unassigned role per spec, in spec order, and each id indexes the position of the last spec with that id |
| RoleRegistry.ThermometerRoles.constructor | src/roo_onewire/thermometer_roles.cpp:13-25 | the roles follow the specs in order with the stored codes loaded; each id indexes its last spec; every stored code maps to the id of the last role, in role order, holding it, and no other code is mapped (`Loaded` from the empty map); the forwarding listener is registered with the registry, whose table, list, conversion state and power flag are unchanged |
| RoleRegistry.ThermometerRoles.SetStore | src/roo_onewire/thermometer_roles.cpp:31-42 | a role with a stored code takes it; each stored code maps to the id of the last role, in role order, whose stored code it is (`Loaded`, `LastHolder`); the unknown code is unmapped when some role has no stored code; other entries and all readings are kept |
| RoleRegistry.ThermometerRoles.LoadOne | src/roo_onewire/thermometer_roles.cpp:34-40 | one role's stored code is loaded: the role takes it and maps it to its id, or the unknown code is unmapped |
| RoleRegistry.ThermometerRoles.ThermometerRoleById | src/roo_onewire/thermometer_roles.cpp:44-48 | for a registered id it returns a role with that id; an unregistered id is a checked error |
| RoleRegistry.ThermometerRoles.TemperatureByIdIsLastReading | src/roo_onewire/thermometer_roles.cpp:50-54 | once the readings are current (as after a conversion event), a known temperature asked for by id belongs to an assigned role and equals the last reading that role holds, stamped with the registry's last reading time |
| RoleRegistry.ThermometerRoles.TemperatureByRomCodeAfterRefresh | src/roo_onewire/thermometer_roles.cpp:56-61 | a temperature is known by address only for a listed thermometer; after a refresh, for a device whose read and decoding succeeded it is the decoded temperature, known exactly when the device is not a MAX31850 |
| RoleRegistry.ThermometerRoles.Update | src/roo_onewire/thermometer_roles.cpp:63 | the registry changes as the driver's `update` says; when no conversion was pending and the forwarding listener is registered, the discovery event refreshes the unassigned list from the reconciled registry (thermometers.cpp:119-121, thermometer_roles.h:85); otherwise the layer is unchanged |
| RoleRegistry.ThermometerRoles.OnConversionDeadline | src/roo_onewire/thermometers.cpp:226-239 | the registry records the deadline as the last reading time, clears the pending conversion and refreshes every record, keeping its list, listeners and power flag; with the forwarding listener registered, the temperatures are then copied into the assigned roles and the readings are current; otherwise no role changes |
| RoleRegistry.ThermometerRoles.UnassignedCurrentFacts | src/roo_onewire/thermometer_roles.cpp:65-73 | a current unassigned list is strictly ascending and holds exactly the registry's thermometers no role is mapped to |
| RoleRegistry.ThermometerRoles.RefreshUnassignedThermometers | src/roo_onewire/thermometer_roles.cpp:65-73 | the unassigned list becomes the registry's codes, in order, that no role is mapped to, and nothing else changes |
| RoleRegistry.ThermometerRoles.Assign | src/roo_onewire/thermometer_roles.cpp:75-81 | for a code no role maps to: the role gets the code, the code maps to the id, the store remembers it, the unassigned list is refreshed and no longer holds the code; the forwarding listener is kept |
| RoleRegistry.ThermometerRoles.Unassign | src/roo_onewire/thermometer_roles.cpp:83-91 | an assigned role is cleared, its code unmapped, its store entry removed and the unassigned list refreshed, with the forwarding listener kept; an unassigned role leaves everything unchanged |
| RoleRegistry.ThermometerRoles.UpdateTemperatures | src/roo_onewire/thermometer_roles.cpp:93-103 | each assigned role whose thermometer has a known temperature gets it, stamped with the registry's last reading time; every other role keeps its reading; no code changes; the readings are then current |
| RoleRegistry.ThermometerRoles.DiscoveryCompleted | src/roo_onewire/thermometer_roles.cpp:105-110 | the unassigned list is refreshed before the role listeners would run |
| RoleRegistry.ThermometerRoles.ConversionCompleted | src/roo_onewire/thermometer_roles.cpp:112-117 | the temperatures are copied into the roles before the role listeners would run |
| RoleRegistry.ThermometerRoles.AddEventListener | src/roo_onewire/thermometer_roles.cpp:119-123 | a listener not yet registered is added; registering one twice is excluded, as the CHECK does |
| RoleRegistry.ThermometerRoles.RemoveEventListener | src/roo_onewire/thermometer_roles.cpp:125-127 | the listener is no longer registered and nothing else changes |
| RoleRegistry.ThermometerRoles.Destroy | src/roo_onewire/thermometer_roles.cpp:27-29 | the forwarding listener is unregistered from the registry; its table, list, conversion state and power flag are unchanged |
| RoleRegistry.Listener.constructor | src/roo_onewire/thermometer_roles.h:83 | the listener forwards to the given role layer |
| RoleRegistry.Listener.DiscoveryCompleted | src/roo_onewire/thermometer_roles.h:85 | the discovery event has exactly the owner's effect: its unassigned list is refreshed |
| RoleRegistry.Listener.ConversionCompleted | src/roo_onewire/thermometer_roles.h:86 | the conversion event has exactly the owner's effect: its temperatures are copied |

## Left out

- The physical bus is an input. Pin setup, reset, select, skip, write, read
  and the search algorithm of `bus.h` are not part of this model: each call
  is replaced by the scripted answer it produces. The CRC-8, which lives in
  the OneWire library, is implemented from the algorithm of Maxim
  Application Note 27.
- The scheduler and real time are outside the model. `Uptime::Now()` is the
  parameter `now`. Scheduling the completion task is not modelled, and its
  firing is a call of `ConversionCompleted`.
- Listener dispatch is modelled for the role layer's forwarding `Listener`
  only, the one listener the core itself registers. `Registry.Thermometers`
  cannot call into listeners it knows only as objects, so its
  `UpdateThermometers` and `ConversionCompleted` keep the listener set and
  dispatch nothing; the role layer's `Update` and `OnConversionDeadline`
  deliver the event to the forwarding listener right after the registry's
  step. In the source that listener runs inside `updateThermometers`,
  before the convert command; nothing the refresh reads changes in
  between. Listeners of application code, on the registry or on the role
  layer, are outside the model: only their registration and
  unregistration are modelled. The event listeners live in a hash set, so
  the source promises no order among them, and the model claims none.
- Persistence is a `map<int, RomCode>`. `ArduinoPreferencesThermometerRoleStore`,
  `DefaultStore()` and the constructor that delegates to `DefaultStore()`
  rely on a foreign preferences library and are not part of this model.
- Logging, the `operator<<` printers, `toString` on device families and the
  `ROO_TESTING` constructor that finds a fake bus are not modelled, because
  they are output or test plumbing.
- Hash internals are outside the model: `RomCodeHashFn`, the hash tables'
  bucket layout and capacity hints. Tables are Dafny maps and sets.
  `Thermometers.RemoveVanished`, `AddDiscovered` and `RebuildRomCodes` walk
  these maps and sets in an arbitrary order through `:|`.
- `std::sort` is modelled by an insertion sort (`RomCodeOrder.Sort`). Only
  its result matters: the ascending permutation, which is unique for
  distinct codes.
- `float` arithmetic is not modelled. Temperatures are exact reals, which
  agree with the source's floats because a 16-bit value divided by 2 or 16
  is exact.
- Registry.Thermometers.RemoveVanished: models the evident intent of
  thermometers.cpp:98-101, erasing every record whose device was not
  discovered. The model does not capture the source's erasing from the
  table while range-iterating over it, whose effect depends on the hash
  table's iterator guarantees.
- Registry.Thermometers.RefreshOne: the registry keeps its records as values
  in a map. Where the source's `initThermometer` writes through
  `*thermometers_.find(i)`, the model stores the record `Init` computes; the
  in-place write on an object is modelled by `Decoding.InitThermometer`.
  The registry therefore does not capture the aliasing of that reference.
- RoleRegistry.ThermometerRoles.Update: states only that some result of the
  driver's `update` describes the change, since the source discards that
  result.
- `FlatSmallHashMap::operator[]` on an unregistered id, in `assign` and
  `unassign`, would insert a default index 0. The model requires the id to
  be registered instead, like the `CHECK` in `thermometerRoleById`, and
  does not model that insertion.
- Accessors that are a single read of a field or of the role list carry no
  contract of their own: `Count`, `RomCodeAt`, `ThermometerByRomCode`,
  `IsConversionPending`, `GetPendingConversionTime`, `LastReadingTime`,
  `RomCodes`, `IsParasite`, `RolesCount`, `RoleAt`, `Unassigned`,
  `IsAssigned`, `ReadTemperature`, and the role layer's `TemperatureById`
  and `TemperatureByRomCode`, whose meaning after a conversion is stated by
  `TemperatureByIdIsLastReading` and `TemperatureByRomCodeAfterRefresh`. Their properties are stated by the
  lemmas and methods that use them.
- The `operator->` of `ConstIterator` is the same as `Deref`, and the
  copy and move constructors are plain copies, so neither is modelled
  separately.
