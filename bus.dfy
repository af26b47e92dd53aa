/** The bus as the driver sees it: a scripted environment that answers the
    driver's requests. Nothing here drives wires; each field is the answer
    the devices give to one kind of request. */
module BusEnv {
  import opened Wrappers
  import opened OneWireCrc
  import opened RomCodes
  import opened Decoding

  /** What a read of one device's scratchpad brings back: whether a device
      answered the reset pulse sent before the read, the nine bytes read, and
      whether a device answered the reset pulse sent after them. */
  datatype ScratchpadAnswer = ScratchpadAnswer(presenceBefore: bool, bytes: Scratchpad, presenceAfter: bool)

  /** One round of bus traffic: the addresses the search enumerates, in the
      order it reports them; the bit read back after the read-power-supply
      command; each device's scratchpad answer; and whether a device answered
      the reset that opens the convert command. */
  datatype Bus = Bus(search: seq<Address>, powerBit: bv8,
                     answers: RomCode -> ScratchpadAnswer, convertPresence: bool)

  /** The scratchpad a read accepts: both resets answered and byte 8 equal to
      the CRC-8 of bytes 0-7. Anything else is a failed read. */
  function ScratchpadRead(a: ScratchpadAnswer): Option<Scratchpad> {
    if a.presenceBefore && a.presenceAfter && Crc8(a.bytes[..8]) == a.bytes[8] then Some(a.bytes)
    else None
  }

  /** An accepted scratchpad has CRC-8 residue zero over all nine bytes, and a
      read fails exactly when a reset is unanswered or the residue is not zero. */
  lemma AcceptedScratchpadHasZeroResidue(a: ScratchpadAnswer)
    ensures ScratchpadRead(a).Some? <==> a.presenceBefore && a.presenceAfter && Crc8(a.bytes) == 0
    ensures ScratchpadRead(a).Some? ==> ScratchpadRead(a).value == a.bytes
  {
    assert a.bytes == a.bytes[..8] + [a.bytes[8]];
    ResidueZeroIffCrcAppended(a.bytes[..8], a.bytes[8]);
  }

  /** A scratchpad that a read accepts is rejected once any single byte of it
      is altered. */
  lemma CorruptedScratchpadRejected(a: ScratchpadAnswer, i: nat, e: bv8)
    requires ScratchpadRead(a).Some? && i < 9 && e != a.bytes[i]
    ensures ScratchpadRead(a.(bytes := a.bytes[i := e])).None?
  {
    AcceptedScratchpadHasZeroResidue(a);
    SingleByteErrorDetected(a.bytes, i, e);
    AcceptedScratchpadHasZeroResidue(a.(bytes := a.bytes[i := e]));
  }
}
