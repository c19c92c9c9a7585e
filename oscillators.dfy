// The state of the two generator kinds the generator table can hold, and the
// phasor's per-sample step. The sine step is `sin`/`fmod` arithmetic and is
// supplied to the table as a function.

module Oscillators {

  /** The device's sample rate: an `unsigned int`, nonzero. */
  type SampleRate = r: int | 0 < r < 0x1_0000_0000 witness 44100

  /** A sine generator: its running phase `t` and its frequency. */
  datatype Sine = Sine(t: real, freq: real)

  /** A phasor: its running value and its frequency. */
  datatype Phasor = Phasor(value: real, freq: real)

  /** `new_sine`: phase and frequency start at zero. */
  function NewSine(): (s: Sine)
    ensures s.t == 0.0 && s.freq == 0.0
  {
    Sine(0.0, 0.0)
  }

  /** `new_phasor`: value and frequency start at zero. */
  function NewPhasor(): (p: Phasor)
    ensures p.value == 0.0 && p.freq == 0.0
  {
    Phasor(0.0, 0.0)
  }

  /** `gen_phasor`: advances the value by `freq / rate` and subtracts one when
      the result is above one; returns the new state and the new value, which
      is also the sample. A value of exactly 1.0 is kept, not wrapped. */
  function GenPhasor(p: Phasor, rate: SampleRate): (r: (Phasor, real))
    ensures r.0.freq == p.freq && r.1 == r.0.value
    ensures 0.0 <= p.value <= 1.0 && 0.0 <= p.freq <= rate as real ==> 0.0 <= r.0.value <= 1.0
    ensures r.0.value == p.value + p.freq / rate as real || r.0.value == p.value + p.freq / rate as real - 1.0
    ensures r.0.value == p.value + p.freq / rate as real - 1.0 <==> p.value + p.freq / rate as real > 1.0
  {
    StepInUnit(p.freq, rate);
    var v := p.value + p.freq / rate as real;
    var next := if v > 1.0 then v - 1.0 else v;
    (p.(value := next), next)
  }

  /** A frequency between zero and the sample rate advances a phasor by a
      step between zero and one. */
  lemma StepInUnit(freq: real, rate: SampleRate)
    ensures 0.0 <= freq <= rate as real ==> 0.0 <= freq / rate as real <= 1.0
  {
    var q := freq / rate as real;
    assert q * rate as real == freq;
  }

  /** Once a phasor with a step in [0, 1] is in [0, 1], any number of steps
      keeps it there. */
  lemma {:induction false} PhasorStaysInUnit(p: Phasor, rate: SampleRate, steps: nat)
    requires 0.0 <= p.value <= 1.0 && 0.0 <= p.freq <= rate as real
    ensures 0.0 <= Iterate(p, rate, steps).value <= 1.0
    ensures Iterate(p, rate, steps).freq == p.freq
  {
    if steps > 0 {
      PhasorStaysInUnit(p, rate, steps - 1);
    }
  }

  /** A new phasor stands still until its frequency is set: every call
      returns 0.0 and leaves it as it was. */
  lemma {:induction false} NewPhasorIsSilent(rate: SampleRate, steps: nat)
    ensures Iterate(NewPhasor(), rate, steps) == NewPhasor()
    ensures GenPhasor(Iterate(NewPhasor(), rate, steps), rate).1 == 0.0
  {
    if steps > 0 {
      NewPhasorIsSilent(rate, steps - 1);
    }
  }

  /** The phasor's state after `steps` calls to `GenPhasor`. */
  function Iterate(p: Phasor, rate: SampleRate, steps: nat): Phasor
  {
    if steps == 0 then p else GenPhasor(Iterate(p, rate, steps - 1), rate).0
  }
}
