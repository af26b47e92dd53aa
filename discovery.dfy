/** Discovery: the bus search narrowed down to the thermometers the driver
    supports. */
module Discovery {
  import opened Wrappers
  import opened RomCodes
  import opened RomCodeFacts
  import opened Decoding

  /** A searched address is kept when its CRC checks out and its family is a
      supported thermometer family. */
  predicate Accepted(c: RomCode) {
    c.IsValidUnicast() && IsThermometerFamilySupported(c.Family())
  }

  /** The codes of the searched addresses that are accepted; an address the
      search reports twice is counted once. */
  function Discovered(search: seq<Address>): set<RomCode> {
    set a | a in search && Accepted(FromAddress(a)) :: FromAddress(a)
  }

  /** `OneWire::discoverAll`: walks the search results one address at a time
      and inserts each accepted code into the result set. */
  method DiscoverAll(search: seq<Address>) returns (result: set<RomCode>)
    ensures result == Discovered(search)
  {
    result := {};
    var i := 0;
    while i < |search|
      invariant i <= |search|
      invariant result == Discovered(search[..i])
    {
      var addr := search[i];
      var romCode := FromAddress(addr);
      DiscoveredStep(search, i);
      if romCode.IsValidUnicast() && IsThermometerFamilySupported(romCode.Family()) {
        result := result + {romCode};
      }
      i := i + 1;
    }
    assert search[..i] == search;
  }

  /** Taking one more search result adds its code exactly when it is accepted. */
  lemma DiscoveredStep(search: seq<Address>, i: nat)
    requires i < |search|
    ensures Discovered(search[..i + 1]) ==
            Discovered(search[..i]) + (if Accepted(FromAddress(search[i])) then {FromAddress(search[i])} else {})
  {
    assert search[..i + 1] == search[..i] + [search[i]];
  }

  /** A code is discovered exactly when it is accepted and some searched
      address packs to it. */
  lemma DiscoveredIff(search: seq<Address>, c: RomCode)
    ensures c in Discovered(search) <==> Accepted(c) && c.Bytes() in search
  {
    if c.Bytes() in search && Accepted(c) {
      UnpackThenPack(c);
    }
    if c in Discovered(search) {
      var a :| a in search && Accepted(FromAddress(a)) && FromAddress(a) == c;
      PackThenUnpack(a);
    }
  }

  /** Every discovered code has a family branch of its own in the decoder, so
      a discovered device is never rejected as of an unrecognised family. */
  lemma DiscoveredAreClassified(search: seq<Address>, c: RomCode, config: bv8)
    requires c in Discovered(search)
    ensures FamilyOf(c.Family(), config).Some?
  {
    SupportedIffClassified(c.Family(), config);
  }

  /** A discovered code is a genuine device address: neither the broadcast nor
      the unknown address. */
  lemma DiscoveredAreUnicast(search: seq<Address>, c: RomCode)
    requires c in Discovered(search)
    ensures !c.IsBroadcast() && !c.IsUnknown()
  {
  }
}
