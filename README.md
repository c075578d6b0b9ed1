# WS281x pulse encoder and driver (espylights firmware)

This project models the LED-driving core of the espylights firmware for the
ESP32-C3. The firmware drives a chain of WS281x RGB LEDs through the
microcontroller's remote-control (RMT) pulse peripheral. The model covers:

- the timing table `BITS`, with one NRZ pulse code per bit value (bit 0 is
  350 ns high then 900 ns low, bit 1 is 600 ns high then 650 ns low);
- the encoder `color_to_pulse_code`, which packs an sRGB colour into a 32-bit
  ARGB word and turns bits 0 to 23 of it into 24 pulse codes, writing index 23
  down to index 0 into an array that starts as 24 copies of the bit-0 symbol;
- the driver `Ws281X`, which encodes one colour and transmits it in one
  single-shot request (`send_one_color`), or sends a slice of colours in order
  and stops at the first transmission error (`send_colors`);
- the 128-entry test pulse sequence that `main` builds: a ramp of pulses, then
  one zero-length end marker.

Files:

- `bits.dfy` (module `Bits`): unsigned integer types and bit arithmetic.
  `Bit(x, i)` is `(x >> i) & 1`, written as the parity of `x / 2^i`.
- `pulse_control.dfy` (module `PulseControl`): the peripheral's pulse code,
  repeat mode, error type and a configured channel. The channel is a class
  holding a log of the sequences it transmitted. A failure oracle, fixed when
  the channel is built, gives the outcome of the n-th request.
- `ws281x.dfy` (module `Ws281x`): the colour type, the packing, the encoder as
  a method (`ColorToPulseCode`) and as a forward specification (`Encode`), the
  properties of the encoding, and the `Ws281X` driver class.
- `test_sequence.dfy` (module `TestSequence`): the test sequence, built in
  place in an array.

The colour layout is fixed explicitly. The packed word is
`alpha * 2^24 + red * 2^16 + green * 2^8 + blue`. Pulse `i` is the symbol
for bit `i` of that word. The sequence is therefore least significant bit
first: index 0 is blue bit 0 and index 23 is red bit 7. WS281x parts read
each colour most-significant-bit first; this code sends bit 0 first, and the
model follows the code.

A colour converted from opaque sRGB gets alpha 255 (`OPAQUE`). Alpha does not
matter either way: `EncodeIgnoresAlpha` proves that the pulses are the same
for every alpha.

`Decode` is not in the firmware. It is the reading side, an LED that reads
the 24 pulses back in the same layout. It is the inverse against which the
encoder is proved lossless (`EncodeRoundTrip`).

## Model

| member | source | states |
|---|---|---|
| `Ws281x.ColorToPulseCode` | src/ws281x.rs:71-81 | Starts from 24 copies of `bits[0]` and fills from index 23 down to 0. The result equals the forward definition `Encode`, so the reverse loop writes each index once and the order of the writes does not matter |
| `Ws281x.PackedBit` | src/ws281x.rs:72-75 | Bit `i < 24` of the ARGB word is blue bit `i` for `i < 8`, green bit `i - 8` for `i < 16`, and red bit `i - 16` otherwise. This holds for any alpha |
| `Ws281x.EncodeLayout` | src/ws281x.rs:71-78 | Always exactly 24 pulses. Pulse `i` is `bits[b]`, where `b` is bit `i` of the blue, green, red channel layout (least significant bit first) |
| `Ws281x.EncodeIgnoresAlpha` | src/ws281x.rs:72-75 | The pulses are the same whatever alpha sits in bits 24-31 of the packed word |
| `Ws281x.EncodeOnlySymbols` | src/ws281x.rs:73-77 | Every pulse is `bits[0]` or `bits[1]`; no other symbol appears |
| `Ws281x.EncodeBlack` | src/ws281x.rs:73-77 | Black (0, 0, 0) gives 24 copies of `bits[0]` |
| `Ws281x.EncodeWhite` | src/ws281x.rs:73-77 | White (255, 255, 255) gives 24 copies of `bits[1]` |
| `Ws281x.EncodePureRed` | src/ws281x.rs:72-77 | Pure red (255, 0, 0), the colour the firmware sends, gives `bits[1]` exactly at indices 16-23 and `bits[0]` at 0-15 |
| `Ws281x.EncodeRoundTrip` | src/ws281x.rs:71-81 | With two distinct symbols, reading the pulses back recovers the colour: `Decode(Encode(c, bits), bits) == Some(c)` |
| `Ws281x.EncodeInjective` | src/ws281x.rs:71-81 | With two distinct symbols, distinct colours give distinct pulse sequences |
| `Ws281x.BitsTable` | src/ws281x.rs:9-25 | The reference table has two distinct symbols, each high then low. Bit 1 stays high longer than bit 0 (600 ns against 350 ns), and both have a 1250 ns period |
| `Ws281x.FirstFailure` | src/ws281x.rs:63-67 | Offset of the first failing request among `n`, or `n` if none fails. Every request before that offset succeeds |
| `Ws281x.Ws281X.constructor` | src/ws281x.rs:34-52 | The driver owns the given channel and timing table |
| `Ws281x.Ws281X.SendOneColor` | src/ws281x.rs:54-61 | Issues exactly one request and returns its outcome unchanged. On success the log gains one single-shot transmission of `Encode(c, bits)`; on failure nothing is logged |
| `Ws281x.Ws281X.SendColors` | src/ws281x.rs:63-68 | With `k` the first failing colour: exactly colours `0..k` are transmitted, in slice order, each as its single-shot encoding. If some colour fails, its error is returned unchanged and no later colour is attempted (`k + 1` requests). Otherwise the result is `Ok` after `|colors|` requests; an empty slice sends nothing. `bits` is unchanged |
| `PulseControl.PulseChannel.SendPulseSequence` | src/ws281x.rs:57-58 | One request per call. It returns the oracle's outcome for that request and logs the transmission only when the request succeeds |
| `TestSequence.BuildTestSequence` | src/main.rs:79-95 | Starts from 128 zero-length codes and fills entries 0 to 126 in place. Entry `i < 127` becomes high for `10 * (i + 1)` ns, then low for 60 ns. Entry 127 is still the zero-length end marker |
| `TestSequence.TestSequenceShape` | src/main.rs:86-95 | High times rise strictly along the ramp, up to 1270 ns at entry 126. Entry 127 is the only entry with a zero duration, so the transmission ends exactly there |

## Left out

- Ws281x.Ws281X.constructor: takes the timing table explicitly, for example `BITS`. It does not compute the table from `clock_hz`, because `Ws281X::new` (src/ws281x.rs:34-52) does that with `f32` arithmetic and truncating casts. Monotonicity of the table in the clock rate is left out with it.
- `main` calls `Ws281X::new` with one argument (src/main.rs:77), but the definition takes two. The model keeps the two-parameter form and does not reconcile the two.
- The conversion from `Srgb<u8>` to `Packed<Argb, u32>` is the palette library's. The model assumes red in bits 16-23, green in 8-15, blue in 0-7, and alpha 255 in bits 24-31. `EncodeIgnoresAlpha` shows that the alpha value is irrelevant.
- `lazy_static` initialisation: `BITS` is a plain constant.
- The `println!` debug output in `new` and `send_one_color` is not modelled.
- The peripheral is abstract. Only `SingleShot` is modelled, and `TransmissionError` is a single opaque code rather than the peripheral's own variants. A failed request is assumed to transmit nothing. The peripheral's channel-memory limits and its own end-of-transmission handling are not part of this model.
- Pulse durations are unbounded naturals rather than `u32` nanosecond values. The durations the core itself writes are small: at most 900 ns in `BITS`, and `10 * (i + 1) <= 1270` ns in the test sequence, so no wrap-around occurs there. A table passed to the constructor is not bounded.
- Heap initialisation (src/main.rs:18-33), peripheral bring-up (src/main.rs:37-76), and the `Delay`-driven endless loop with its `.unwrap()` panics (src/main.rs:99-108) are hardware and runtime side effects with no stated logic.
- `TestSequence.EndsTransmission` treats a zero duration in either half as the end of a transmission. `TestSequenceShape` holds under that reading and also under the stricter one where both halves must be zero.
