/** The Dallas/Maxim 1-Wire CRC-8 (polynomial x^8 + x^5 + x^4 + 1, reflected,
    initial value 0, no final xor): the bitwise algorithm of Maxim Application
    Note 27 as the OneWire library computes it, one input bit per step. */
module OneWireCrc {

  /** One bit of the shift register: mix the low bit of the register with the
      low bit of the input, shift right, and fold in the polynomial 0x8C when
      the mixed bit was set. */
  function BitStep(crc: bv8, inbyte: bv8): bv8 {
    var mix := (crc ^ inbyte) & 1;
    var shifted := crc >> 1;
    if mix == 1 then shifted ^ 0x8C else shifted
  }

  /** Bit steps on the `n` low bits of `inbyte`, least significant first:
      the body of the library's eight-iteration bit loop, run `n` times. */
  function Steps(crc: bv8, inbyte: bv8, n: nat): bv8
    decreases n
  {
    if n == 0 then crc else Steps(BitStep(crc, inbyte), inbyte >> 1, n - 1)
  }

  /** All eight bits of one input byte, least significant first. */
  function Update(crc: bv8, b: bv8): bv8 {
    Steps(crc, b, 8)
  }

  /** The register after feeding `data`, in order, into a register holding `crc`. */
  function Feed(crc: bv8, data: seq<bv8>): bv8
    decreases |data|
  {
    if |data| == 0 then crc else Feed(Update(crc, data[0]), data[1..])
  }

  /** The CRC-8 of `data`. */
  function Crc8(data: seq<bv8>): bv8 {
    Feed(0, data)
  }

  /** The step on the xor of register and remaining input: one bit of
      division by the reflected polynomial. */
  function Divide(d: bv8): bv8 {
    if d & 1 == 1 then (d >> 1) ^ 0x8C else d >> 1
  }

  /** `n` bits of division. */
  function Divides(d: bv8, n: nat): bv8
    decreases n
  {
    if n == 0 then d else Divides(Divide(d), n - 1)
  }

  /** `x` shifted right by one bit `n` times. */
  function Shr(x: bv8, n: nat): bv8
    decreases n
  {
    if n == 0 then x else Shr(x >> 1, n - 1)
  }

  /** A bit step, seen through the xor of the register with what is left of
      the input byte, is one bit of division. */
  lemma BitStepIsDivide(c: bv8, x: bv8)
    ensures BitStep(c, x) ^ (x >> 1) == Divide(c ^ x)
  {
  }

  /** `n` bit steps, seen through the xor of the register with what is left
      of the input byte, are `n` bits of division. */
  lemma {:induction false} StepsAreDivides(c: bv8, x: bv8, n: nat)
    ensures Steps(c, x, n) ^ Shr(x, n) == Divides(c ^ x, n)
    decreases n
  {
    if n > 0 {
      var c', x' := BitStep(c, x), x >> 1;
      BitStepIsDivide(c, x);
      StepsAreDivides(c', x', n - 1);
      assert Steps(c, x, n) == Steps(c', x', n - 1);
      assert Shr(x, n) == Shr(x', n - 1);
      assert Divides(c ^ x, n) == Divides(c' ^ x', n - 1);
    }
  }

  /** Eight shifts empty a byte. */
  lemma ShrEightIsZero(x: bv8)
    ensures Shr(x, 8) == 0
  {
    var x1 := x >> 1;
    var x2 := x1 >> 1;
    var x3 := x2 >> 1;
    var x4 := x3 >> 1;
    var x5 := x4 >> 1;
    var x6 := x5 >> 1;
    var x7 := x6 >> 1;
    var x8 := x7 >> 1;
    assert Shr(x7, 1) == Shr(x8, 0) == x8 == 0;
    assert Shr(x5, 3) == Shr(x6, 2) == Shr(x7, 1);
    assert Shr(x3, 5) == Shr(x4, 4) == Shr(x5, 3);
    assert Shr(x1, 7) == Shr(x2, 6) == Shr(x3, 5);
    assert Shr(x, 8) == Shr(x1, 7);
  }

  /** A byte step depends on register and byte only through their xor. */
  lemma UpdateIsDivides(c: bv8, b: bv8)
    ensures Update(c, b) == Divides(c ^ b, 8)
  {
    StepsAreDivides(c, b, 8);
    ShrEightIsZero(b);
  }

  /** One bit of division can be undone: the top bit of the result tells
      whether the polynomial was folded in. */
  lemma DivideInjective(d: bv8, d': bv8)
    ensures Divide(d) == Divide(d') <==> d == d'
  {
  }

  /** Division leaves a zero register at zero. */
  lemma {:induction false} DividesZero(n: nat)
    ensures Divides(0, n) == 0
    decreases n
  {
    if n > 0 {
      assert Divide(0) == 0;
      DividesZero(n - 1);
    }
  }

  /** Any number of bits of division can be undone. */
  lemma {:induction false} DividesInjective(d: bv8, d': bv8, n: nat)
    ensures Divides(d, n) == Divides(d', n) <==> d == d'
    decreases n
  {
    if n > 0 {
      DivideInjective(d, d');
      DividesInjective(Divide(d), Divide(d'), n - 1);
    }
  }

  /** One byte step is injective in the register: distinct registers stay
      distinct whatever byte is fed. */
  lemma UpdateInjectiveInRegister(c: bv8, c': bv8, b: bv8)
    ensures Update(c, b) == Update(c', b) <==> c == c'
  {
    UpdateIsDivides(c, b);
    UpdateIsDivides(c', b);
    DividesInjective(c ^ b, c' ^ b, 8);
  }

  /** One byte step is injective in the input byte. */
  lemma UpdateInjectiveInByte(c: bv8, b: bv8, b': bv8)
    ensures Update(c, b) == Update(c, b') <==> b == b'
  {
    UpdateIsDivides(c, b);
    UpdateIsDivides(c, b');
    DividesInjective(c ^ b, c ^ b', 8);
  }

  /** Feeding a byte equal to the register clears it, and only that byte does. */
  lemma UpdateZeroIffEqual(c: bv8, b: bv8)
    ensures Update(c, b) == 0 <==> b == c
  {
    UpdateIsDivides(c, b);
    DividesZero(8);
    DividesInjective(c ^ b, 0, 8);
    assert c ^ b == 0 <==> b == c;
  }

  /** Feeding `data` then `b` is feeding `b` into the register left by `data`. */
  lemma {:induction false} FeedAppend(crc: bv8, data: seq<bv8>, b: bv8)
    ensures Feed(crc, data + [b]) == Update(Feed(crc, data), b)
    decreases |data|
  {
    if |data| == 0 {
      assert data + [b] == [b];
      assert ([b])[1..] == [];
    } else {
      assert (data + [b])[1..] == data[1..] + [b];
      FeedAppend(Update(crc, data[0]), data[1..], b);
    }
  }

  /** Feeding the same bytes into distinct registers leaves distinct registers. */
  lemma {:induction false} FeedInjectiveInRegister(c: bv8, c': bv8, data: seq<bv8>)
    requires c != c'
    ensures Feed(c, data) != Feed(c', data)
    decreases |data|
  {
    if |data| > 0 {
      UpdateInjectiveInRegister(c, c', data[0]);
      FeedInjectiveInRegister(Update(c, data[0]), Update(c', data[0]), data[1..]);
    }
  }

  /** Appending its own CRC to a message makes the CRC of the whole zero, and
      that byte is the only one that does: checking `Crc8(m) == b` is checking
      `Crc8(m + [b]) == 0`. */
  lemma ResidueZeroIffCrcAppended(m: seq<bv8>, b: bv8)
    ensures Crc8(m + [b]) == 0 <==> b == Crc8(m)
  {
    FeedAppend(0, m, b);
    UpdateZeroIffEqual(Feed(0, m), b);
  }

  /** Every single-byte corruption changes the CRC: two messages that differ
      in exactly one byte never share a CRC-8. */
  lemma {:induction false} SingleByteErrorDetected(m: seq<bv8>, i: nat, e: bv8)
    requires i < |m| && e != m[i]
    ensures Crc8(m[i := e]) != Crc8(m)
  {
    var m' := m[i := e];
    FeedSplit(0, m, i);
    FeedSplit(0, m', i);
    assert m'[..i] == m[..i];
    assert m'[i+1..] == m[i+1..];
    var s := Feed(0, m[..i]);
    UpdateInjectiveInByte(s, m[i], e);
    FeedInjectiveInRegister(Update(s, e), Update(s, m[i]), m[i+1..]);
  }

  /** Feeding a message is feeding its prefix, then byte `i`, then the rest. */
  lemma {:induction false} FeedSplit(crc: bv8, m: seq<bv8>, i: nat)
    requires i < |m|
    ensures Feed(crc, m) == Feed(Update(Feed(crc, m[..i]), m[i]), m[i+1..])
    decreases i
  {
    if i > 0 {
      FeedSplit(Update(crc, m[0]), m[1..], i - 1);
      assert m[1..][..i-1] == m[1..i];
      assert m[1..][i-1] == m[i];
      assert m[1..][i..] == m[i+1..];
      assert m[..i][0] == m[0] && m[..i][1..] == m[1..i];
    }
  }
}
