/** The 128-entry test pulse sequence the firmware builds at start-up: a ramp
    of pulses whose high time grows by 10 ns per entry, followed by one
    zero-length entry that ends the transmission. */
module TestSequence {
  import opened PulseControl

  const SEQUENCE_LEN := 128

  /** The value every entry starts with: zero-length, so it ends a transmission. */
  const END_MARKER := PulseCode(true, 0, false, 0)

  /** A zero duration in either half stops the peripheral at this entry. */
  predicate EndsTransmission(p: PulseCode)
  {
    p.length1 == 0 || p.length2 == 0
  }

  /** The finished sequence: entry `i < 127` is high for `10 * (i + 1)` ns
      then low for 60 ns, and the last entry is still the end marker. */
  ghost predicate IsTestSequence(s: seq<PulseCode>)
  {
    && |s| == SEQUENCE_LEN
    && s[SEQUENCE_LEN - 1] == END_MARKER
    && forall i :: 0 <= i < SEQUENCE_LEN - 1 ==> s[i] == PulseCode(true, 10 * (i + 1), false, 60)
  }

  /** Fills an array of end markers in place, every entry but the last. */
  method BuildTestSequence() returns (s: seq<PulseCode>)
    ensures IsTestSequence(s)
  {
    var a := new PulseCode[SEQUENCE_LEN](_ => END_MARKER);
    for i := 0 to a.Length - 1
      invariant forall j :: 0 <= j < i ==> a[j] == PulseCode(true, 10 * (j + 1), false, 60)
      invariant forall j :: i <= j < a.Length ==> a[j] == END_MARKER
    {
      a[i] := PulseCode(true, 10 * (i + 1), false, 60);
    }
    s := a[..];
  }

  /** The high times rise strictly along the ramp up to 1270 ns, and no
      entry before the last ends the transmission, so the whole ramp goes
      out and stops exactly at the final marker. */
  lemma TestSequenceShape(s: seq<PulseCode>)
    requires IsTestSequence(s)
    ensures forall i, j :: 0 <= i < j < SEQUENCE_LEN - 1 ==> s[i].length1 < s[j].length1
    ensures forall i :: 0 <= i < SEQUENCE_LEN - 1 ==> s[i].length1 <= s[SEQUENCE_LEN - 2].length1 == 1270
    ensures forall i :: 0 <= i < SEQUENCE_LEN ==> (EndsTransmission(s[i]) <==> i == SEQUENCE_LEN - 1)
  {
  }
}
