/** The WS281x pulse encoder and its channel driver.

    A colour is packed into a 32-bit ARGB word (alpha in bits 24-31, red in
    16-23, green in 8-15, blue in 0-7). Pulse `i` of the 24-pulse sequence is
    the timing symbol selected by bit `i` of that word, so the sequence is
    least significant bit first: index 0 carries blue bit 0 and index 23
    carries red bit 7. Alpha never reaches the wire. */
module Ws281x {
  import opened Bits
  import opened PulseControl

  datatype Option<T> = None | Some(value: T)

  /** An 8-bit-per-channel sRGB colour. */
  datatype Srgb = Srgb(red: u8, green: u8, blue: u8)

  /** The two timing symbols, indexed by bit value. */
  type BitTable = s: seq<PulseCode> | |s| == 2
    witness [PulseCode(true, 0, false, 0), PulseCode(true, 0, false, 0)]

  /** The reference WS281x timings in nanoseconds: bit 0 is 350 ns high then
      900 ns low, bit 1 is 600 ns high then 650 ns low. */
  const BITS: BitTable := [PulseCode(true, 350, false, 900), PulseCode(true, 600, false, 650)]

  /** Alpha of a colour converted from opaque sRGB. */
  const OPAQUE: u8 := 0xFF

  const PULSES_PER_COLOR := 24

  /** ARGB packing of a colour into a 32-bit word. */
  function PackArgb(alpha: u8, c: Srgb): u32
  {
    alpha * 0x100_0000 + c.red * 0x1_0000 + c.green * 0x100 + c.blue
  }

  /** Reference layout: bit `i` of the colour counted from blue bit 0 up to
      red bit 7, read channel by channel. */
  function ChannelBit(c: Srgb, i: nat): (b: nat)
    requires i < PULSES_PER_COLOR
    ensures b < 2
  {
    if i < 8 then Bit(c.blue, i)
    else if i < 16 then Bit(c.green, i - 8)
    else Bit(c.red, i - 16)
  }

  /** The pulse sequence for a packed word: index `i` gets `bits[(packed >> i) & 1]`. */
  function EncodePacked(packed: u32, bits: BitTable): seq<PulseCode>
  {
    seq(PULSES_PER_COLOR, i requires 0 <= i < PULSES_PER_COLOR => bits[Bit(packed, i)])
  }

  /** The pulse sequence for a colour, after its conversion to packed ARGB. */
  function Encode(c: Srgb, bits: BitTable): seq<PulseCode>
  {
    EncodePacked(PackArgb(OPAQUE, c), bits)
  }

  /** Builds the 24 pulses starting from 24 copies of `bits[0]` and
      overwriting index 23 down to index 0, as the source's reversed loop
      does; the result is the forward definition `Encode`. */
  method ColorToPulseCode(c: Srgb, bits: BitTable) returns (pulses: seq<PulseCode>)
    ensures pulses == Encode(c, bits)
  {
    var packed := PackArgb(OPAQUE, c);
    var a := new PulseCode[PULSES_PER_COLOR](_ => bits[0]);
    var i := PULSES_PER_COLOR;
    while i > 0
      invariant 0 <= i <= PULSES_PER_COLOR
      invariant forall j :: i <= j < PULSES_PER_COLOR ==> a[j] == bits[Bit(packed, j)]
      invariant forall j :: 0 <= j < i ==> a[j] == bits[0]
    {
      i := i - 1;
      a[i] := bits[Bit(packed, i)];
    }
    pulses := a[..];
  }

  // ---------------------------------------------------------------------
  // Properties of the encoding

  lemma Pow2Of8()
    ensures Pow2(8) == 256
  {
  }

  /** Bit `i` of the packed word is bit `i` of the channel layout, whatever
      the alpha. */
  lemma PackedBit(alpha: u8, c: Srgb, i: nat)
    requires i < PULSES_PER_COLOR
    ensures Bit(PackArgb(alpha, c), i) == ChannelBit(c, i)
  {
    Pow2Of8();
    var hi2 := alpha * 0x100 + c.red;
    var hi1 := hi2 * 0x100 + c.green;
    assert PackArgb(alpha, c) == hi1 * Pow2(8) + c.blue;
    if i < 8 {
      BitOfLow(hi1, c.blue, 8, i);
    } else {
      BitOfHigh(hi1, c.blue, 8, i);
      assert hi1 == hi2 * Pow2(8) + c.green;
      if i < 16 {
        BitOfLow(hi2, c.green, 8, i - 8);
      } else {
        BitOfHigh(hi2, c.green, 8, i - 8);
        assert hi2 == alpha * Pow2(8) + c.red;
        BitOfLow(alpha, c.red, 8, i - 16);
      }
    }
  }

  /** Exactly 24 pulses; pulse `i` is the symbol for bit `i` of the channel
      layout (blue bits 0-7, then green, then red). */
  lemma EncodeLayout(c: Srgb, bits: BitTable)
    ensures |Encode(c, bits)| == 24
    ensures forall i :: 0 <= i < 24 ==> Encode(c, bits)[i] == bits[ChannelBit(c, i)]
  {
    forall i | 0 <= i < 24
      ensures Encode(c, bits)[i] == bits[ChannelBit(c, i)]
    {
      PackedBit(OPAQUE, c, i);
    }
  }

  /** Alpha (bits 24-31 of the packed word) never influences the pulses. */
  lemma EncodeIgnoresAlpha(a1: u8, a2: u8, c: Srgb, bits: BitTable)
    ensures EncodePacked(PackArgb(a1, c), bits) == EncodePacked(PackArgb(a2, c), bits)
  {
    forall i | 0 <= i < PULSES_PER_COLOR
      ensures EncodePacked(PackArgb(a1, c), bits)[i] == EncodePacked(PackArgb(a2, c), bits)[i]
    {
      PackedBit(a1, c, i);
      PackedBit(a2, c, i);
    }
  }

  /** No symbol other than the two of the table ever appears. */
  lemma EncodeOnlySymbols(c: Srgb, bits: BitTable)
    ensures forall p :: p in Encode(c, bits) ==> p == bits[0] || p == bits[1]
  {
  }

  /** Black is 24 copies of the bit-0 symbol. */
  lemma EncodeBlack(bits: BitTable)
    ensures Encode(Srgb(0, 0, 0), bits) == seq(24, _ => bits[0])
  {
    var black := Srgb(0, 0, 0);
    forall i | 0 <= i < 24
      ensures Encode(black, bits)[i] == bits[0]
    {
      PackedBit(OPAQUE, black, i);
      BitOfZero(i % 8);
      assert i < 8 || (8 <= i < 16 && i - 8 == i % 8) || (16 <= i && i - 16 == i % 8);
    }
  }

  /** White is 24 copies of the bit-1 symbol. */
  lemma EncodeWhite(bits: BitTable)
    ensures Encode(Srgb(255, 255, 255), bits) == seq(24, _ => bits[1])
  {
    var white := Srgb(255, 255, 255);
    Pow2Of8();
    forall i | 0 <= i < 24
      ensures Encode(white, bits)[i] == bits[1]
    {
      PackedBit(OPAQUE, white, i);
      BitOfOnes(8, i % 8);
      assert i < 8 || (8 <= i < 16 && i - 8 == i % 8) || (16 <= i && i - 16 == i % 8);
    }
  }

  /** Pure red, the colour the firmware sends: the bit-1 symbol exactly at
      indices 16 to 23 and the bit-0 symbol at 0 to 15. */
  lemma EncodePureRed(bits: BitTable)
    ensures forall i :: 0 <= i < 16 ==> Encode(Srgb(255, 0, 0), bits)[i] == bits[0]
    ensures forall i :: 16 <= i < 24 ==> Encode(Srgb(255, 0, 0), bits)[i] == bits[1]
  {
    var red := Srgb(255, 0, 0);
    Pow2Of8();
    forall i | 0 <= i < 24
      ensures Encode(red, bits)[i] == if i < 16 then bits[0] else bits[1]
    {
      PackedBit(OPAQUE, red, i);
      if i < 8 {
        BitOfZero(i);
      } else if i < 16 {
        BitOfZero(i - 8);
      } else {
        BitOfOnes(8, i - 16);
      }
    }
  }

  // ---------------------------------------------------------------------
  // The receiving side: what a strip reading the pulses back would recover

  function SymbolBit(p: PulseCode, bits: BitTable): (b: nat)
    ensures b < 2
  {
    if p == bits[1] then 1 else 0
  }

  /** Reads a 24-pulse sequence back into a colour in the layout `Encode`
      uses; a wrong length or a foreign symbol is rejected. */
  function Decode(pulses: seq<PulseCode>, bits: BitTable): Option<Srgb>
  {
    if |pulses| != PULSES_PER_COLOR
       || exists i :: 0 <= i < |pulses| && pulses[i] != bits[0] && pulses[i] != bits[1]
    then None
    else
      var v := seq(PULSES_PER_COLOR, i requires 0 <= i < PULSES_PER_COLOR => SymbolBit(pulses[i], bits));
      Pow2Of8();
      Some(Srgb(FromBits(v[16..24]), FromBits(v[8..16]), FromBits(v[..8])))
  }

  /** With two distinct symbols, decoding recovers the colour: the encoding
      loses nothing. */
  lemma EncodeRoundTrip(c: Srgb, bits: BitTable)
    requires bits[0] != bits[1]
    ensures Decode(Encode(c, bits), bits) == Some(c)
  {
    var pulses := Encode(c, bits);
    EncodeLayout(c, bits);
    var v := seq(PULSES_PER_COLOR, i requires 0 <= i < PULSES_PER_COLOR => SymbolBit(pulses[i], bits));
    assert forall i :: 0 <= i < 24 ==> v[i] == ChannelBit(c, i);
    Pow2Of8();
    assert v[16..24] == BitsOf(c.red, 8);
    assert v[8..16] == BitsOf(c.green, 8);
    assert v[..8] == BitsOf(c.blue, 8);
    FromBitsOf(c.red, 8);
    FromBitsOf(c.green, 8);
    FromBitsOf(c.blue, 8);
  }

  /** Distinct colours give distinct pulse sequences. */
  lemma EncodeInjective(c1: Srgb, c2: Srgb, bits: BitTable)
    requires bits[0] != bits[1]
    ensures Encode(c1, bits) == Encode(c2, bits) ==> c1 == c2
  {
    EncodeRoundTrip(c1, bits);
    EncodeRoundTrip(c2, bits);
  }

  /** The reference table: distinct symbols, high first, bit 1 held high
      longer than bit 0, and both with a 1250 ns period. */
  lemma BitsTable()
    ensures BITS[0] != BITS[1]
    ensures BITS[0].level1 && !BITS[0].level2 && BITS[1].level1 && !BITS[1].level2
    ensures BITS[1].length1 > BITS[0].length1
    ensures BITS[0].length1 + BITS[0].length2 == BITS[1].length1 + BITS[1].length2 == 1250
  {
  }

  // ---------------------------------------------------------------------
  // The driver

  /** What sending `colors` one by one transmits when every request succeeds. */
  function Transmissions(colors: seq<Srgb>, bits: BitTable): seq<Transmission>
  {
    seq(|colors|, i requires 0 <= i < |colors| => Transmission(SingleShot, Encode(colors[i], bits)))
  }

  /** Offset of the first failing request among `n` requests starting at
      request `start`, or `n` when all of them succeed. */
  function FirstFailure(outcome: nat -> Result<(), TransmissionError>, start: nat, n: nat): (k: nat)
    ensures k <= n
    ensures forall j :: start <= j < start + k ==> outcome(j).Ok?
    ensures k < n ==> outcome(start + k).Err?
    decreases n
  {
    if n == 0 || outcome(start).Err? then 0
    else 1 + FirstFailure(outcome, start + 1, n - 1)
  }

  class Ws281X {
    var channel: PulseChannel
    var bits: BitTable

    /** Takes the timing table explicitly instead of deriving it from a
        clock rate. */
    constructor (channel: PulseChannel, bits: BitTable)
      ensures this.channel == channel && this.bits == bits
    {
      this.channel := channel;
      this.bits := bits;
    }

    /** Encodes one colour and issues one single-shot transmission. */
    method SendOneColor(c: Srgb) returns (r: Result<(), TransmissionError>)
      modifies channel
      ensures r == channel.outcome(old(channel.attempts))
      ensures channel.attempts == old(channel.attempts) + 1
      ensures channel.sent == old(channel.sent)
        + (if r.Ok? then [Transmission(SingleShot, Encode(c, bits))] else [])
    {
      var pulses := ColorToPulseCode(c, bits);
      r := channel.SendPulseSequence(SingleShot, pulses);
    }

    /** Sends the colours in order and stops at the first failure, returning
        that failure unchanged: exactly the colours before it are
        transmitted and no later colour is attempted. */
    method SendColors(colors: seq<Srgb>) returns (r: Result<(), TransmissionError>)
      modifies channel
      ensures bits == old(bits) && channel == old(channel)
      ensures var k := FirstFailure(channel.outcome, old(channel.attempts), |colors|);
        && channel.sent == old(channel.sent) + Transmissions(colors[..k], bits)
        && channel.attempts == old(channel.attempts) + (if k < |colors| then k + 1 else k)
        && r == (if k < |colors| then channel.outcome(old(channel.attempts) + k) else Ok(()))
    {
      var i := 0;
      while i < |colors|
        invariant 0 <= i <= |colors|
        invariant channel.attempts == old(channel.attempts) + i
        invariant forall j :: old(channel.attempts) <= j < channel.attempts ==> channel.outcome(j).Ok?
        invariant channel.sent == old(channel.sent) + Transmissions(colors[..i], bits)
      {
        r := SendOneColor(colors[i]);
        if r.Err? {
          return;
        }
        assert Transmissions(colors[..i + 1], bits)
            == Transmissions(colors[..i], bits) + [Transmission(SingleShot, Encode(colors[i], bits))];
        i := i + 1;
      }
      assert colors[..i] == colors;
      r := Ok(());
    }
  }
}
