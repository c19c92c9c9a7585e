// The feedback delay line: a circular buffer of `10 * sample_rate` samples
// addressed by a free-running unsigned 32-bit write head. Each call reads the
// sample `read_offset` positions behind the head, writes the input plus the
// fed-back delayed sample at the head, and advances the head.

module Delay {
  import opened Oscillators

  /** 2^32: unsigned 32-bit arithmetic is arithmetic modulo this. */
  const Wrap: int := 0x1_0000_0000

  /** A `uint32_t` value. */
  type U32 = x: int | 0 <= x < 0x1_0000_0000

  /** The buffer size `new_delay` stores: `10 * sample_rate`, computed in
      unsigned 32-bit arithmetic. */
  function BufSizeFor(rate: SampleRate): (size: U32)
    ensures rate < 0x1999_999A ==> size == 10 * rate
  {
    (10 * rate) % Wrap
  }

  /** `(write_head - read_offset) % buf_size`, for a head that counts modulo
      `modulus` (2^32 for the source's `uint32_t`): the subtraction wraps
      modulo `modulus` before the remainder is taken. The slot read is thus
      the one written when the head stood `offset` counts back. */
  function ReadIndex(head: nat, offset: nat, size: nat, modulus: nat): (k: nat)
    requires size > 0 && head < modulus
    ensures k < size
    ensures k == WriteIndex((head - offset) % modulus, size)
    ensures offset <= head ==> k == (head - offset) % size
  {
    SmallMod(head - offset, modulus);
    ((head - offset) % modulus) % size
  }

  /** A value already in range is its own remainder. */
  lemma SmallMod(x: int, n: int)
    requires n > 0
    ensures 0 <= x < n ==> x % n == x
  {
    if 0 <= x < n {
      ModUnique(x, 0, x, n);
    }
  }

  /** `write_head % buf_size`. */
  function WriteIndex(head: nat, size: nat): (k: nat)
    requires size > 0
    ensures k < size
  {
    head % size
  }

  /** `write_head++` on a counter modulo `modulus`. */
  function Inc(head: nat, modulus: nat): (h: nat)
    requires head < modulus
    ensures h < modulus
    ensures h == if head == modulus - 1 then 0 else head + 1
  {
    (head + 1) % modulus
  }

  /** With an offset of zero the slot read is the slot about to be written. */
  lemma ZeroOffsetReadsWriteSlot(head: nat, size: nat, modulus: nat)
    requires size > 0 && head < modulus
    ensures ReadIndex(head, 0, size, modulus) == WriteIndex(head, size)
  {
  }

  /** The contents of a delay line between calls: the buffer and the head. */
  datatype Line = Line(buf: seq<real>, head: nat)

  /** A line `apply_delay` can run on, with a head counting modulo
      `modulus`: a nonempty buffer and a head below the modulus. */
  predicate Usable(d: Line, modulus: nat)
  {
    0 < |d.buf| && d.head < modulus
  }

  /** How the sample written back is formed from the input sample and the
      delayed sample. The buffer bookkeeping below holds for any such rule. */
  type Mixer = (real, real) -> real

  /** The rule `apply_delay` uses: `sample + delayed * feedback`. */
  function FeedbackMix(feedback: real): Mixer
  {
    (sample: real, delayed: real) => sample + delayed * feedback
  }

  /** One call on a line's contents: the next line and the returned sample.
      The returned sample is the one read before the write, exactly one slot
      is overwritten, and the head moves on by one. */
  function Step(d: Line, sample: real, offset: nat, mix: Mixer, modulus: nat): (r: (Line, real))
    requires Usable(d, modulus)
    ensures Usable(r.0, modulus) && |r.0.buf| == |d.buf|
    ensures r.1 == d.buf[ReadIndex(d.head, offset, |d.buf|, modulus)]
    ensures r.0.buf[WriteIndex(d.head, |d.buf|)] == mix(sample, r.1)
    ensures forall j :: 0 <= j < |d.buf| && j != WriteIndex(d.head, |d.buf|) ==> r.0.buf[j] == d.buf[j]
    ensures r.0.head == Inc(d.head, modulus)
  {
    var delayed := d.buf[ReadIndex(d.head, offset, |d.buf|, modulus)];
    var w := WriteIndex(d.head, |d.buf|);
    (Line(d.buf[w := mix(sample, delayed)], Inc(d.head, modulus)), delayed)
  }

  /** Feeding the inputs `xs` one call at a time: the final line and the
      outputs, in order. */
  function Run(d: Line, xs: seq<real>, offset: nat, mix: Mixer, modulus: nat): (r: (Line, seq<real>))
    requires Usable(d, modulus)
    ensures Usable(r.0, modulus) && |r.0.buf| == |d.buf| && |r.1| == |xs|
  {
    if |xs| == 0 then (d, [])
    else
      var (t, out) := Run(d, xs[..|xs| - 1], offset, mix, modulus);
      var (u, y) := Step(t, xs[|xs| - 1], offset, mix, modulus);
      (u, out + [y])
  }

  lemma MulAtLeast(z: int, n: int)
    requires z >= 1 && n > 0
    ensures z * n >= n
  {
    assert z * n == (z - 1) * n + n;
  }

  /** The remainder is the only value in range that differs from `x` by a
      multiple of `n`. */
  lemma ModUnique(x: int, q: int, r: int, n: int)
    requires n > 0 && x == q * n + r && 0 <= r < n
    ensures x % n == r
  {
    var z := x / n - q;
    assert z * n == r - x % n;
    if z >= 1 {
      MulAtLeast(z, n);
    }
  }

  /** Adding a multiple of `n` does not change the remainder. */
  lemma ModShift(x: int, j: int, n: int)
    requires n > 0
    ensures (x + j * n) % n == x % n
  {
    assert x + j * n == (x / n + j) * n + x % n;
    ModUnique(x + j * n, x / n + j, x % n, n);
  }

  /** Counting modulo a multiple of `n` keeps the remainder by `n`. */
  lemma ModOfMod(x: int, w: int, n: int)
    requires n > 0 && w > 0 && w % n == 0
    ensures (x % w) % n == x % n
  {
    var t, q := w / n, x / w;
    assert w == t * n;
    assert x == q * w + x % w;
    assert x % w == x + (-(q * t)) * n by {
      assert q * w == (q * t) * n;
    }
    ModShift(x, -(q * t), n);
  }

  /** A counter modulo `w` steps like an unbounded one. */
  lemma ModInc(x: int, w: int)
    requires w > 0
    ensures (x % w + 1) % w == (x + 1) % w
  {
    assert x % w + 1 == (x + 1) + (-(x / w)) * w;
    ModShift(x + 1, -(x / w), w);
  }

  /** Two positions closer together than the buffer is long land in
      different slots. */
  lemma ModDistinct(a: int, b: int, n: int)
    requires a < b < a + n
    ensures a % n != b % n
  {
    var q, r := a / n, a % n;
    if r + (b - a) < n {
      ModUnique(b, q, r + (b - a), n);
    } else {
      assert b == (q + 1) * n + (r + (b - a) - n);
      ModUnique(b, q + 1, r + (b - a) - n, n);
    }
  }

  /** The first `calls` calls on `d` read and write where an unbounded
      counter would put them: either the head does not wrap during those
      calls and has passed the offset, or the modulus is a multiple of the
      buffer size, so the wrap is invisible to the remainder. */
  predicate WrapSafe(d: Line, calls: nat, offset: nat, modulus: nat)
  {
    (d.head + calls < modulus && offset <= d.head) || (0 < |d.buf| && modulus % |d.buf| == 0)
  }

  /** Call `k` of a wrap-safe run writes at position `head + k` and reads at
      position `head + k - offset`, both taken modulo the buffer size. */
  lemma CallIndices(d: Line, k: nat, offset: nat, modulus: nat)
    requires Usable(d, modulus) && WrapSafe(d, k + 1, offset, modulus)
    ensures WriteIndex((d.head + k) % modulus, |d.buf|) == (d.head + k) % |d.buf|
    ensures ReadIndex((d.head + k) % modulus, offset, |d.buf|, modulus) == (d.head + k - offset) % |d.buf|
  {
    var p, n := d.head + k, |d.buf|;
    if p < modulus && offset <= d.head {
      ModUnique(p, 0, p, modulus);
    } else {
      ModOfMod(p, modulus, n);
      var h := p % modulus;
      ModOfMod(h - offset, modulus, n);
      assert h - offset == (p - offset) + (-(p / modulus) * (modulus / n)) * n by {
        assert modulus == (modulus / n) * n;
        assert p == (p / modulus) * modulus + h;
        assert (p / modulus) * modulus == ((p / modulus) * (modulus / n)) * n;
      }
      ModShift(p - offset, -(p / modulus) * (modulus / n), n);
    }
  }

  /** A run moves the head on by one per call, modulo the modulus. */
  lemma {:induction false} RunHead(d: Line, xs: seq<real>, offset: nat, mix: Mixer, modulus: nat)
    requires Usable(d, modulus)
    ensures Run(d, xs, offset, mix, modulus).0.head == (d.head + |xs|) % modulus
  {
    if |xs| == 0 {
      ModUnique(d.head, 0, d.head, modulus);
    } else {
      RunHead(d, xs[..|xs| - 1], offset, mix, modulus);
      ModInc(d.head + |xs| - 1, modulus);
    }
  }

  /** What a wrap-safe run leaves in the buffer: the slot of each of the last
      `offset` positions holds what the run wrote there or, for a position
      before the run, what the buffer held. */
  lemma {:induction false} RunSlot(d: Line, xs: seq<real>, offset: nat, mix: Mixer, modulus: nat, m: int)
    requires Usable(d, modulus) && 1 <= offset <= |d.buf|
    requires WrapSafe(d, |xs|, offset, modulus)
    requires |xs| - offset <= m < |xs|
    ensures Run(d, xs, offset, mix, modulus).0.buf[(d.head + m) % |d.buf|] ==
      if m >= 0 then mix(xs[m], Run(d, xs, offset, mix, modulus).1[m])
      else d.buf[(d.head + m) % |d.buf|]
  {
    if |xs| > 0 {
      var k := |xs| - 1;
      var p := (d.head + m) % |d.buf|;
      var r := Run(d, xs[..k], offset, mix, modulus);
      RunHead(d, xs[..k], offset, mix, modulus);
      CallIndices(d, k, offset, modulus);
      var s := Step(r.0, xs[k], offset, mix, modulus);
      assert Run(d, xs, offset, mix, modulus) == (s.0, r.1 + [s.1]);
      if m < k {
        RunSlot(d, xs[..k], offset, mix, modulus, m);
        ModDistinct(d.head + m, d.head + k, |d.buf|);
        assert s.0.buf[p] == r.0.buf[p];
        if m >= 0 {
          assert xs[..k][m] == xs[m];
          assert (r.1 + [s.1])[m] == r.1[m];
        }
      } else {
        assert p == WriteIndex(r.0.head, |d.buf|);
      }
    } else {
      assert Run(d, xs, offset, mix, modulus).0 == d;
    }
  }

  /** The first `j` outputs of a run are the outputs of the run of the first
      `j` inputs. */
  lemma {:induction false} RunPrefix(d: Line, xs: seq<real>, offset: nat, mix: Mixer, modulus: nat, j: nat)
    requires Usable(d, modulus) && j <= |xs|
    ensures Run(d, xs[..j], offset, mix, modulus).1 == Run(d, xs, offset, mix, modulus).1[..j]
  {
    if j < |xs| {
      var k := |xs| - 1;
      RunPrefix(d, xs[..k], offset, mix, modulus, j);
      assert xs[..k][..j] == xs[..j];
      var r := Run(d, xs[..k], offset, mix, modulus);
      var s := Step(r.0, xs[k], offset, mix, modulus);
      assert Run(d, xs, offset, mix, modulus).1 == r.1 + [s.1];
      assert (r.1 + [s.1])[..j] == r.1[..j];
    } else {
      assert xs[..j] == xs;
    }
  }

  /** Output `m` of a run does not depend on the inputs after `m`: it is
      output `m` of any longer prefix. */
  lemma EarlierOutput(d: Line, xs: seq<real>, offset: nat, mix: Mixer, modulus: nat, n: nat, m: nat)
    requires Usable(d, modulus) && m < n <= |xs|
    ensures Run(d, xs[..n], offset, mix, modulus).1[m] == Run(d, xs, offset, mix, modulus).1[m]
  {
    RunPrefix(d, xs, offset, mix, modulus, n);
  }

  /** Output `n` of a run is what call `n` returns on the line left by the
      first `n` calls. */
  lemma RunOutput(d: Line, xs: seq<real>, offset: nat, mix: Mixer, modulus: nat, n: nat)
    requires Usable(d, modulus) && n < |xs|
    ensures Run(d, xs, offset, mix, modulus).1[n] ==
      Step(Run(d, xs[..n], offset, mix, modulus).0, xs[n], offset, mix, modulus).1
  {
    RunPrefix(d, xs, offset, mix, modulus, n + 1);
    var ys := xs[..n + 1];
    assert ys[..n] == xs[..n] && ys[n] == xs[n];
    assert Run(d, ys, offset, mix, modulus).1[n] ==
      Step(Run(d, xs[..n], offset, mix, modulus).0, xs[n], offset, mix, modulus).1;
  }

  /** The echo property at call `n` of a run with outputs `out`: output `n`
      is formed from the input and output `offset` calls earlier or, in the
      first `offset` calls, is what the buffer held `offset` positions behind
      the head. */
  ghost predicate EchoAt(d: Line, xs: seq<real>, out: seq<real>, offset: nat, mix: Mixer, n: nat)
    requires 0 < |d.buf| && n < |xs| == |out|
  {
    out[n] == if n >= offset then mix(xs[n - offset], out[n - offset])
              else d.buf[(d.head + n - offset) % |d.buf|]
  }

  /** Call `n` of a wrap-safe run reads the slot of position
      `head + n - offset`, as the first `n` calls left it. */
  lemma ReadAtCall(d: Line, xs: seq<real>, offset: nat, mix: Mixer, modulus: nat, n: nat)
    requires Usable(d, modulus) && WrapSafe(d, |xs|, offset, modulus) && n < |xs|
    ensures Run(d, xs, offset, mix, modulus).1[n] ==
      Run(d, xs[..n], offset, mix, modulus).0.buf[(d.head + (n - offset)) % |d.buf|]
  {
    var r := Run(d, xs[..n], offset, mix, modulus);
    RunOutput(d, xs, offset, mix, modulus, n);
    RunHead(d, xs[..n], offset, mix, modulus);
    CallIndices(d, n, offset, modulus);
    assert ReadIndex(r.0.head, offset, |d.buf|, modulus) == (d.head + (n - offset)) % |d.buf|;
  }

  /** After the first `n` calls of a wrap-safe run, the slot of position
      `head + n - offset` holds what call `n - offset` wrote there or, in the
      first `offset` calls, what the buffer held. */
  lemma SlotBehind(d: Line, xs: seq<real>, offset: nat, mix: Mixer, modulus: nat, n: nat)
    requires Usable(d, modulus) && 1 <= offset <= |d.buf|
    requires WrapSafe(d, |xs|, offset, modulus) && n < |xs|
    ensures var p := (d.head + (n - offset)) % |d.buf|;
      Run(d, xs[..n], offset, mix, modulus).0.buf[p] ==
        if n >= offset then mix(xs[n - offset], Run(d, xs, offset, mix, modulus).1[n - offset])
        else d.buf[p]
  {
    RunSlot(d, xs[..n], offset, mix, modulus, n - offset);
    if n >= offset {
      EarlierOutput(d, xs, offset, mix, modulus, n, n - offset);
      assert xs[..n][n - offset] == xs[n - offset];
    }
  }

  /** The echo at one call `n` of a wrap-safe run. */
  lemma EchoStep(d: Line, xs: seq<real>, offset: nat, mix: Mixer, modulus: nat, n: nat)
    requires Usable(d, modulus) && 1 <= offset <= |d.buf|
    requires WrapSafe(d, |xs|, offset, modulus) && n < |xs|
    ensures EchoAt(d, xs, Run(d, xs, offset, mix, modulus).1, offset, mix, n)
  {
    ReadAtCall(d, xs, offset, mix, modulus, n);
    SlotBehind(d, xs, offset, mix, modulus, n);
  }

  /** The echo: once `offset` calls have passed, each output is what was
      written `offset` calls earlier, formed from that call's input and
      output; before that, it is what the buffer held `offset` positions
      behind the head. Holds for every wrap-safe run. */
  lemma Echo(d: Line, xs: seq<real>, offset: nat, mix: Mixer, modulus: nat)
    requires Usable(d, modulus) && 1 <= offset <= |d.buf|
    requires WrapSafe(d, |xs|, offset, modulus)
    ensures forall n :: 0 <= n < |xs| ==> EchoAt(d, xs, Run(d, xs, offset, mix, modulus).1, offset, mix, n)
  {
    forall n | 0 <= n < |xs| {
      EchoStep(d, xs, offset, mix, modulus, n);
    }
  }

  /** Output `n` of a run is input `n - offset` plus `feedback` times output
      `n - offset`: the rule `apply_delay` applies once `offset` calls have
      passed. */
  ghost predicate FeedbackAt(xs: seq<real>, out: seq<real>, offset: nat, feedback: real, n: nat)
    requires offset <= n < |xs| == |out|
  {
    out[n] == xs[n - offset] + out[n - offset] * feedback
  }

  /** Where the echo holds with `apply_delay`'s rule, the outputs follow the
      feedback equation. */
  lemma FeedbackFromEcho(d: Line, xs: seq<real>, out: seq<real>, offset: nat, feedback: real)
    requires 0 < |d.buf| && |xs| == |out|
    requires forall n :: 0 <= n < |xs| ==> EchoAt(d, xs, out, offset, FeedbackMix(feedback), n)
    ensures forall n :: offset <= n < |xs| ==> FeedbackAt(xs, out, offset, feedback, n)
  {
    forall n | offset <= n < |xs|
      ensures FeedbackAt(xs, out, offset, feedback, n)
    {
      assert EchoAt(d, xs, out, offset, FeedbackMix(feedback), n);
    }
  }

  /** The echo of `apply_delay` on its 32-bit head: once `offset` calls have
      passed, each output is the input from `offset` calls earlier plus
      `feedback` times the output from then. */
  lemma FeedbackEcho(d: Line, xs: seq<real>, offset: nat, feedback: real)
    requires Usable(d, Wrap) && 1 <= offset <= |d.buf|
    requires WrapSafe(d, |xs|, offset, Wrap)
    ensures forall n :: offset <= n < |xs| ==>
      FeedbackAt(xs, Run(d, xs, offset, FeedbackMix(feedback), Wrap).1, offset, feedback, n)
  {
    Echo(d, xs, offset, FeedbackMix(feedback), Wrap);
    FeedbackFromEcho(d, xs, Run(d, xs, offset, FeedbackMix(feedback), Wrap).1, offset, feedback);
  }

  /** Where the echo holds without feedback on a zeroed buffer, the outputs
      are silence for `offset` calls and then the inputs, `offset` calls
      late. */
  lemma DelayFromEcho(d: Line, xs: seq<real>, out: seq<real>, offset: nat)
    requires 0 < |d.buf| && |xs| == |out|
    requires forall j :: 0 <= j < |d.buf| ==> d.buf[j] == 0.0
    requires forall n :: 0 <= n < |xs| ==> EchoAt(d, xs, out, offset, FeedbackMix(0.0), n)
    ensures forall n :: 0 <= n < |xs| ==> out[n] == if n >= offset then xs[n - offset] else 0.0
  {
    forall n | 0 <= n < |xs|
      ensures out[n] == if n >= offset then xs[n - offset] else 0.0
    {
      assert EchoAt(d, xs, out, offset, FeedbackMix(0.0), n);
    }
  }

  /** Without feedback the line is a pure delay: from a zeroed buffer, the
      first `offset` outputs are silence and each later output is the input
      `offset` calls earlier. */
  lemma PureDelay(d: Line, xs: seq<real>, offset: nat)
    requires Usable(d, Wrap) && 1 <= offset <= |d.buf|
    requires WrapSafe(d, |xs|, offset, Wrap)
    requires forall j :: 0 <= j < |d.buf| ==> d.buf[j] == 0.0
    ensures var out := Run(d, xs, offset, FeedbackMix(0.0), Wrap).1;
      forall n :: 0 <= n < |xs| ==> out[n] == if n >= offset then xs[n - offset] else 0.0
  {
    Echo(d, xs, offset, FeedbackMix(0.0), Wrap);
    DelayFromEcho(d, xs, Run(d, xs, offset, FeedbackMix(0.0), Wrap).1, offset);
  }

  /** The 32-bit head breaks the echo when it wraps and 2^32 is not a
      multiple of the buffer size. On a zeroed 3-slot line whose head is
      about to wrap, with an offset of 2 and no feedback, the third output
      is the second input, not the first: the lag shrinks by one across
      the wrap. */
  lemma WrapGlitch(a: real, b: real, c: real)
    ensures Run(Line([0.0, 0.0, 0.0], Wrap - 1), [a, b, c], 2, FeedbackMix(0.0), Wrap).1 == [0.0, 0.0, b]
    ensures a != b ==>
      !EchoAt(Line([0.0, 0.0, 0.0], Wrap - 1), [a, b, c],
              Run(Line([0.0, 0.0, 0.0], Wrap - 1), [a, b, c], 2, FeedbackMix(0.0), Wrap).1,
              2, FeedbackMix(0.0), 2)
  {
    var d := Line([0.0, 0.0, 0.0], Wrap - 1);
    var mix := FeedbackMix(0.0);
    var xs := [a, b, c];
    var s0 := Step(d, a, 2, mix, Wrap);
    assert s0.1 == 0.0 && s0.0 == Line([a, 0.0, 0.0], 0);
    var s1 := Step(s0.0, b, 2, mix, Wrap);
    assert s1.1 == 0.0 && s1.0 == Line([b, 0.0, 0.0], 1);
    var s2 := Step(s1.0, c, 2, mix, Wrap);
    assert s2.1 == b;
    assert xs[..1][..0] == [] && xs[..2][..1] == xs[..1] && xs[..2] == [a, b];
    assert Run(d, xs[..1], 2, mix, Wrap).0 == s0.0;
    assert Run(d, xs[..1], 2, mix, Wrap).1 == [] + [s0.1] == [0.0];
    assert Run(d, xs[..2], 2, mix, Wrap).0 == s1.0;
    assert Run(d, xs[..2], 2, mix, Wrap).1 == [0.0] + [s1.1] == [0.0, 0.0];
    assert Run(d, xs, 2, mix, Wrap).1 == [0.0, 0.0] + [s2.1] == [0.0, 0.0, b];
  }

  /** At the size `new_delay` gives at 44.1 kHz, a 3-second offset read at
      head 64004 returns the slot written at head 0: from a wrap, that echo
      arrives after 64004 calls instead of 132300. */
  lemma WrapGlitchAtRate()
    ensures BufSizeFor(44100) == 441000
    ensures ReadIndex(64004, 132300, 441000, Wrap) == WriteIndex(0, 441000)
  {
  }

  /** The ring buffer evidently intended: the head kept modulo the buffer
      size (`write_head = (write_head + 1) % buf_size`) and the read taken
      with a subtraction that also wraps modulo the buffer size
      (`(write_head + buf_size - read_offset) % buf_size`, see
      `RingReadIndex`). Its echo holds for every run, across any number of
      wraps and from any head. */
  lemma RingEcho(d: Line, xs: seq<real>, offset: nat, mix: Mixer)
    requires Usable(d, |d.buf|) && 1 <= offset <= |d.buf|
    ensures forall n :: 0 <= n < |xs| ==> EchoAt(d, xs, Run(d, xs, offset, mix, |d.buf|).1, offset, mix, n)
  {
    Echo(d, xs, offset, mix, |d.buf|);
  }

  /** The read of the ring buffer in C terms: with the head kept modulo
      `buf_size` and an offset of at most `buf_size`, the slot read is
      `(write_head + buf_size - read_offset) % buf_size`, a subtraction that
      cannot wrap. */
  lemma RingReadIndex(head: nat, offset: nat, size: nat)
    requires head < size && offset <= size
    ensures ReadIndex(head, offset, size, size) == (head + size - offset) % size
  {
    ModOfMod(head - offset, size, size);
    ModShift(head - offset, 1, size);
  }

  /** An offset of zero reads the same slot as an offset of `buf_size` once
      the head has passed `buf_size`, or always when `buf_size` divides the
      modulus. */
  lemma ZeroOffsetIndex(head: nat, size: nat, modulus: nat)
    requires 0 < size && head < modulus
    requires size <= head || modulus % size == 0
    ensures ReadIndex(head, 0, size, modulus) == ReadIndex(head, size, size, modulus)
  {
    SmallMod(head, modulus);
    ModShift(head - size, 1, size);
    if size <= head {
      SmallMod(head - size, modulus);
    } else {
      ModOfMod(head - size, modulus, size);
    }
  }

  /** A run with offset zero is the run with offset `buf_size` while the head
      has passed `buf_size` and does not wrap, or when `buf_size` divides the
      modulus. */
  lemma {:induction false} ZeroOffsetRun(d: Line, xs: seq<real>, mix: Mixer, modulus: nat)
    requires Usable(d, modulus)
    requires (|d.buf| <= d.head && d.head + |xs| < modulus) || modulus % |d.buf| == 0
    ensures Run(d, xs, 0, mix, modulus) == Run(d, xs, |d.buf|, mix, modulus)
  {
    if |xs| > 0 {
      var k := |xs| - 1;
      ZeroOffsetRun(d, xs[..k], mix, modulus);
      var t := Run(d, xs[..k], 0, mix, modulus).0;
      RunHead(d, xs[..k], 0, mix, modulus);
      if modulus % |d.buf| != 0 {
        SmallMod(d.head + k, modulus);
      }
      ZeroOffsetIndex(t.head, |d.buf|, modulus);
    }
  }

  /** Under the same conditions an offset of zero is a delay of `buf_size`
      calls: each output is what was written `buf_size` calls earlier or, in
      the first `buf_size` calls, what the buffer held at that position. */
  lemma ZeroOffsetDelay(d: Line, xs: seq<real>, mix: Mixer, modulus: nat)
    requires Usable(d, modulus)
    requires (|d.buf| <= d.head && d.head + |xs| < modulus) || modulus % |d.buf| == 0
    ensures forall n :: 0 <= n < |xs| ==>
      EchoAt(d, xs, Run(d, xs, 0, mix, modulus).1, |d.buf|, mix, n)
  {
    ZeroOffsetRun(d, xs, mix, modulus);
    Echo(d, xs, |d.buf|, mix, modulus);
  }

  /** The state of one delay effect. */
  class DelayState {
    var buffer: array<real>
    var bufSize: U32
    var writeHead: U32
    var readOffset: U32

    ghost predicate Valid()
      reads this
    {
      buffer.Length == bufSize
    }

    /** The line this state holds. */
    function Contents(): (d: Line)
      reads this, buffer
      requires Valid()
      ensures |d.buf| == bufSize
    {
      Line(buffer[..], writeHead)
    }

    /** `new_delay`: a buffer of `10 * rate` samples (in 32-bit arithmetic),
        all zero. The source leaves the head and the offset as the fresh
        memory held them: `head` and `offset` stand for those values. */
    constructor (rate: SampleRate, head: U32, offset: U32)
      ensures Valid() && fresh(buffer)
      ensures bufSize == BufSizeFor(rate) && writeHead == head && readOffset == offset
      ensures forall j :: 0 <= j < bufSize ==> buffer[j] == 0.0
    {
      var size := BufSizeFor(rate);
      var b := new real[size];
      var i := 0;
      while i < size
        invariant 0 <= i <= size
        invariant forall j :: 0 <= j < i ==> b[j] == 0.0
      {
        b[i] := 0.0;
        i := i + 1;
      }
      buffer := b;
      bufSize := size;
      writeHead := head;
      readOffset := offset;
    }

    /** `apply_delay`. `offset` stands for `delay_ms * sample_rate` converted
        to `uint32_t`. The source takes the remainder by `buf_size`, so the
        buffer must not be empty. */
    method ApplyDelay(sample: real, offset: U32, feedback: real) returns (delayed: real)
      requires Valid() && bufSize > 0
      modifies this, buffer
      ensures Valid() && buffer == old(buffer) && bufSize == old(bufSize)
      ensures readOffset == offset
      ensures delayed == old(buffer[ReadIndex(writeHead, offset, bufSize, Wrap)])
      ensures buffer[old(writeHead) % bufSize] == sample + delayed * feedback
      ensures writeHead == Inc(old(writeHead), Wrap)
      ensures (Contents(), delayed) == Step(old(Contents()), sample, offset, FeedbackMix(feedback), Wrap)
    {
      ghost var before := Contents();
      readOffset := offset;
      var index := ((writeHead - readOffset) % Wrap) % bufSize;
      delayed := buffer[index];
      var w := writeHead % bufSize;
      buffer[w] := sample + delayed * feedback;
      writeHead := (writeHead + 1) % Wrap;
      assert FeedbackMix(feedback)(sample, delayed) == sample + delayed * feedback;
      assert buffer[..] == before.buf[w := FeedbackMix(feedback)(sample, delayed)];
    }
  }
}
