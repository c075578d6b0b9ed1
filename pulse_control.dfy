/** The slice of the microcontroller's remote-control (RMT) pulse peripheral
    that the LED driver uses: the pulse-code record, the repeat mode, the
    transmission error and a configured output channel. The channel is
    abstract: it keeps a log of the sequences it has transmitted, and a
    failure oracle fixed at construction decides the outcome of each
    request in turn. */
module PulseControl {
  /** One NRZ timing unit: hold `level1` for `length1` ns, then `level2`
      for `length2` ns. */
  datatype PulseCode = PulseCode(level1: bool, length1: nat, level2: bool, length2: nat)

  datatype RepeatMode = SingleShot

  /** A peripheral-level transmit fault; the kind of fault is not modelled. */
  datatype TransmissionError = TransmissionError(code: nat)

  datatype Result<T, E> = Ok(value: T) | Err(error: E)

  /** One request the peripheral carried out. */
  datatype Transmission = Transmission(mode: RepeatMode, pulses: seq<PulseCode>)

  class PulseChannel {
    /** Sequences transmitted so far, oldest first. */
    var sent: seq<Transmission>
    /** Number of transmission requests issued so far. */
    var attempts: nat
    /** Outcome of the n-th request (counting from 0). */
    const outcome: nat -> Result<(), TransmissionError>

    constructor (outcome: nat -> Result<(), TransmissionError>)
      ensures sent == [] && attempts == 0 && this.outcome == outcome
    {
      sent := [];
      attempts := 0;
      this.outcome := outcome;
    }

    /** Issues one request; a failed request transmits nothing. */
    method SendPulseSequence(mode: RepeatMode, pulses: seq<PulseCode>)
      returns (r: Result<(), TransmissionError>)
      modifies this
      ensures r == outcome(old(attempts))
      ensures attempts == old(attempts) + 1
      ensures sent == if r.Ok? then old(sent) + [Transmission(mode, pulses)] else old(sent)
    {
      r := outcome(attempts);
      if r.Ok? {
        sent := sent + [Transmission(mode, pulses)];
      }
      attempts := attempts + 1;
    }
  }
}
