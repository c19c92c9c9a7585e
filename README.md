# cadence core in Dafny

A model of the sample-level core of the `cadence` audio engine, with proofs
about it. The model covers four parts:

- **Note manager** (`src/synth.c`, `src/synth.h`). It is a fixed array of
  `poly_count` note slots. Each slot has a frequency, an amplitude, a key and
  a flags word with three bits: FREE, RELEASE and RESET.
  - `new_synth` frees every slot.
  - NOTE_ON claims the lowest free slot; when none is free the event is
    dropped.
  - NOTE_OFF releases the lowest slot whose key matches; when none matches it
    only warns.
  - `play_synth` sums an injected per-voice callback over the slots that are
    not free.
- **Generator table** (`cadence.c`). It has 64 slots, each a tagged union of
  a sine or a phasor generator plus the value that generator produced last.
  - `register_gen_table` claims the first free slot and returns its index, or
    -1 when the table is full.
  - `del_gen_table` resets the tag only.
  - `process_gen_table` steps every occupied slot once.
- **Delay line** (`cadence.c`). It is a circular buffer of `10 * sample_rate`
  samples addressed by a free-running unsigned 32-bit write head. Each call
  does three things:
  - it returns the sample `read_offset` positions behind the head;
  - it writes `sample + delayed * feedback` at the head;
  - it advances the head.
- **Tracks and the mix** (`cadence.c`). `write_to_track` writes a mono sample
  to both interleaved channels of one frame. The mix loop sums every track's
  left and right columns into the interleaved 16-bit output buffer.

## Modules

- `SynthTypes` (`synth_types.dfy`)
  - The flag, note and event types, and the callback type.
  - The C flags word is seen through `Decode` as three booleans plus the
    untouched bits 3 to 31.
  - Word-level lemmas show that the C `|=`, `&= ~` and `&` on `1 << flag`
    act on exactly one of those booleans.
- `Synth` (`synth.dfy`)
  - The flag operations and slot transitions as functions on `Note` values.
  - The table's behaviour as specification functions on `seq<Note>`, with
    lemmas about them.
  - A `Synth` class over `array<Note>`. Its constructor and its methods are
    the source's loops, proved against those functions.
- `Oscillators` (`oscillators.dfy`)
  - Sine and phasor state and their constructors.
  - The phasor step, with its range lemmas.
- `GenTable` (`gen_table.dfy`)
  - The table's contents as `seq<GenSlot>`, with specification functions and
    lemmas.
  - The three table functions as methods on `array<GenSlot>`, proved against
    those specification functions.
- `Delay` (`delay.dfy`)
  - One call as the function `Step` on a `Line` (the buffer and the head), and
    a run of calls as `Run`. Both take the modulus the head counts by: 2^32
    for the source's `uint32_t`, or the buffer size for a ring buffer.
  - The echo lemmas: each output is formed from the input and the output
    `offset` calls earlier, in every wrap-safe run.
  - A counterexample showing that the 32-bit head can break the echo across a
    wrap, and the echo of the ring buffer (head and read index both taken
    modulo the buffer size), which holds for every run.
  - The offset-0 case: it reads the slot about to be written, a delay of
    `buf_size` calls while the head does not wrap.
  - A `DelayState` class whose `ApplyDelay` is proved to perform `Step`.
- `Tracks` (`tracks.dfy`)
  - The `Audio` class over `array2<real>` tracks and an `array<Int16>`
    output.
  - `write_to_track` and the mix loop as methods.
  - Lemmas about column sums.

## Model

| member | source | states |
|---|---|---|
| SynthTypes.BitOf | src/synth.h:4-8 | The three flags name bits 0, 1 and 2, all below 3. |
| SynthTypes.DistinctMasks | src/synth.h:4-8 | Two flags have disjoint masks `1 << flag` exactly when they differ, so each flag lives in its own bit of the word. |
| SynthTypes.With | src/synth.h:4-8 | Changing one flag's bit gives that flag the new value and leaves the other two flags and bits 3 to 31 as they were. |
| SynthTypes.EncodeDecode | src/synth.h:16 | Every 32-bit flags word is recovered from its three flag bits and its upper bits. |
| SynthTypes.DecodeEncode | src/synth.h:16 | Every bit view whose upper part fits in 29 bits is the view of its own encoding. Together with `EncodeDecode`, words and views correspond one to one. |
| SynthTypes.EncodeKeepsFlags | src/synth.h:16 | Writing a bit view into a word keeps its three flag bits, whatever its upper part holds. |
| SynthTypes.DecodeUpperFits | src/synth.h:16 | The upper part of any decoded word fits in 29 bits. |
| SynthTypes.OrSetsFlag | src/synth.c:7-9 | `flags \| (1 << flag)` sets the flag's bit and leaves every other bit of the word unchanged. |
| SynthTypes.AndNotClearsFlag | src/synth.c:11-13 | `flags & ~(1 << flag)` clears the flag's bit and leaves every other bit unchanged. |
| SynthTypes.AndTestsFlag | src/synth.c:15-17 | `flags & (1 << flag)` is the flag's mask when its bit is set and 0 otherwise, so it is nonzero exactly when the bit is set. |
| Synth.SetFlag | src/synth.c:7-9 | `set_flag` sets the flag and keeps the other flags, the upper bits and the note's other fields. |
| Synth.UnsetFlag | src/synth.c:11-13 | `unset_flag` clears the flag and keeps the other flags, the upper bits and the note's other fields. |
| Synth.CheckFlag | src/synth.c:15-17 | `check_flag` returns the flag's mask when the flag is set and 0 otherwise, so it is nonzero exactly when the flag is set. |
| Synth.Vacate | src/synth.c:67-73 | `new_synth`'s set/unset sequence leaves FREE set, RESET and RELEASE clear, and everything else as it was. |
| Synth.Claim | src/synth.c:24-32 | A claimed slot gets RESET set, FREE and RELEASE clear, its upper bits kept, and the new frequency, amplitude and key. |
| Synth.Release | src/synth.c:41-42 | A released slot gets RELEASE set; every other bit and field is kept. |
| Synth.FirstFree | src/synth.c:22-24 | The lowest free index, or -1 exactly when no slot is free. |
| Synth.FirstWithKey | src/synth.c:39-41 | The lowest index holding the key, free or not, or -1 exactly when no slot holds it. |
| Synth.Registered | src/synth.c:20-48 | Registering an event never changes the number of slots. |
| Synth.NoteOnClaimsLowestFree | src/synth.c:21-34 | NOTE_ON claims the lowest free slot; no other slot changes. |
| Synth.NoteOnWhenFullIsDropped | src/synth.c:21-36 | NOTE_ON when no slot is free changes nothing. |
| Synth.NoteOffReleasesFirstMatch | src/synth.c:38-44 | NOTE_OFF releases the lowest slot with the key, whether it is free or not; no other slot changes. |
| Synth.NoteOffUnknownKeyIsNoop | src/synth.c:38-47 | NOTE_OFF with a key no slot holds changes nothing. |
| Synth.NoteOnThenOffReleasesClaimedSlot | src/synth.c:20-48 | A NOTE_ON followed by a NOTE_OFF with the same key releases exactly the slot the NOTE_ON claimed, provided no active note already held that key. |
| Synth.AllFreeIsSilent | src/synth.c:50-59 | A table with every slot free renders 0. |
| Synth.ActiveSumReadsOnlyActive | src/synth.c:50-59 | Rendering depends only on the slots that are not free. |
| Synth.ActiveSumAddVoice | src/synth.c:50-59 | Making one free slot sound adds exactly that voice's callback result. |
| Synth.NoteOnAddsOneVoice | src/synth.c:20-59 | A successful NOTE_ON adds exactly one voice, the claimed slot's, to the rendered sample. |
| Synth.Synth.constructor | src/synth.c:61-75 | `new_synth` gives `poly_count` slots, each with FREE set and RESET and RELEASE clear, everything else as allocated, and stores the callback. |
| Synth.Synth.RegisterNote | src/synth.c:20-48 | The two scans perform `Registered`. The slot count and callback are unchanged. The warning is issued exactly for a NOTE_OFF whose key no slot holds. |
| Synth.Synth.PlaySynth | src/synth.c:50-59 | `play_synth` returns the callback's sum over the slots that are not free, in index order. |
| Oscillators.NewSine | cadence.c:57-62 | A new sine has phase 0 and frequency 0. |
| Oscillators.NewPhasor | cadence.c:81-86 | A new phasor has value 0 and frequency 0. |
| Oscillators.GenPhasor | cadence.c:88-93 | The phasor adds `freq / rate` and subtracts 1 exactly when the sum is strictly above 1, so a sum of exactly 1.0 is kept. It returns the new value, keeps the frequency, and keeps the value in [0, 1] for a frequency between 0 and the rate. |
| Oscillators.NewPhasorIsSilent | cadence.c:81-93 | A new phasor, whose frequency is 0, never moves: every step returns 0.0 and leaves it as it was. |
| Oscillators.PhasorStaysInUnit | cadence.c:88-93 | Any number of phasor steps keeps the value in [0, 1] and the frequency fixed. |
| GenTable.FirstFreeGen | cadence.c:152-153 | The lowest index tagged GEN_FREE, or -1 exactly when there is none. |
| GenTable.FreeCount | cadence.c:135-143 | The number of free slots is at most the table size. |
| GenTable.Allocate | cadence.c:154-163 | A claimed slot takes the requested tag and a new generator of that kind (a zeroed `new_sine()` or `new_phasor()`), keeps its cached value, and is well tagged. |
| GenTable.Register | cadence.c:151-168 | Registration claims the lowest free slot and returns its index, or returns -1 and leaves the table unchanged exactly when no slot is free. The claimed slot is exactly `Allocate` of the old one: the kind, a new generator, the old value. It changes no other slot and preserves well-taggedness. |
| GenTable.Deleted | cadence.c:170-172 | Deletion frees the slot's tag and keeps its value, its generator and every other slot. |
| GenTable.StepSlot | cadence.c:176-185 | A free slot is untouched; an occupied slot keeps its tag, and a sine or phasor slot takes its generator's step: the new state and, as the cached value, the sample. |
| GenTable.Processed | cadence.c:174-187 | Processing keeps every tag and every free slot. Each sine or phasor slot gets its generator's step: the new state and the sample as the cached value. |
| GenTable.EmptyTable | cadence.c:149 | The zero-initialised table has 64 slots, all free. |
| GenTable.RegisterAll | cadence.c:151-168 | Registering several kinds returns one handle per kind and keeps the table size. |
| GenTable.FullIffNoneFree | cadence.c:151-168 | Registration fails exactly when the free count is 0. |
| GenTable.FreeCountUpdate | cadence.c:135-143 | Replacing one slot changes the free count by that slot's change. |
| GenTable.RegisterTakesOneSlot | cadence.c:151-168 | A successful registration uses exactly one free slot. |
| GenTable.DeleteGivesOneSlot | cadence.c:170-172 | Deleting an occupied slot frees exactly one slot. |
| GenTable.DeleteThenRegisterReuses | cadence.c:151-172 | After deleting slot `i`, the next registration returns `i` unless a lower slot was already free. |
| GenTable.SameTagsSameAllocation | cadence.c:151-168 | Where registration lands depends on the tags only. |
| GenTable.ProcessKeepsAllocation | cadence.c:174-187 | Processing leaves the next handle and the free count unchanged. |
| GenTable.RegisterThenDeleteRestoresTags | cadence.c:151-172 | Registering then deleting the returned handle restores every tag and cached value. |
| GenTable.FreshTableHandles | cadence.c:151-168 | On an all-free table, registrations return 0, 1, 2, ... and then -1, and the claimed slots carry the requested kinds in order. |
| GenTable.RegisterNext | cadence.c:151-168 | On a table whose slots below `n` are taken and the rest free, registration returns `n` and tags slot `n`, or returns -1 when there is no slot `n`. |
| GenTable.TableCapacity | cadence.c:148-168 | The global table takes exactly 64 registrations; the 65th returns -1. |
| GenTable.RegisterGenTable | cadence.c:151-168 | The first-fit scan performs `Register`. GEN_FREE is excluded, because the source's switch then reaches `assert(0)`. |
| GenTable.DelGenTable | cadence.c:170-172 | `del_gen_table` performs `Deleted`. |
| GenTable.ProcessGenTable | cadence.c:174-187 | The loop performs `Processed`. |
| Delay.BufSizeFor | cadence.c:105 | The buffer size is `10 * sample_rate` computed modulo 2^32; it is exactly `10 * sample_rate` when that fits. |
| Delay.ReadIndex | cadence.c:118 | For a head counting modulo `modulus` (2^32 in the source), the index read is the slot `write_head % buf_size` addressed when the counter stood `offset` counts back, with that subtraction wrapping modulo the modulus. It is below the size, and `(head - offset) % size` when the head is at least the offset. |
| Delay.WriteIndex | cadence.c:122 | The write index is below the buffer size. |
| Delay.Inc | cadence.c:125 | `write_head++` adds 1, or wraps from the modulus minus 1 (2^32 - 1 in the source) to 0. |
| Delay.ZeroOffsetReadsWriteSlot | cadence.c:116-122 | With an offset of 0 the slot read is the slot about to be written. |
| Delay.ZeroOffsetIndex | cadence.c:118-122 | An offset of 0 reads the same slot as an offset of `buf_size`, once the head has reached `buf_size` or whenever `buf_size` divides the counter's modulus. |
| Delay.ZeroOffsetRun | cadence.c:115-127 | Under the same condition, for every call of the run (the head not wrapping in the first case), a run with offset 0 gives the same outputs and final line as a run with offset `buf_size`. |
| Delay.ZeroOffsetDelay | cadence.c:115-127 | Under that condition an offset of 0 is a delay of `buf_size` calls: every output satisfies the echo relation with lag `buf_size`. |
| Delay.Step | cadence.c:115-127 | One call returns the sample read before the write and writes the mix of input and delayed sample at the write index. No other slot changes and the head advances by one. |
| Delay.Run | cadence.c:115-127 | A run of calls keeps the buffer size and gives one output per input. |
| Delay.CallIndices | cadence.c:118-122 | In a wrap-safe run, call `k` writes the slot of position `head + k` and reads that of `head + k - offset`, both modulo the buffer size. A run is wrap-safe when the head has passed the offset and does not wrap, or the counter's modulus is a multiple of the buffer size. |
| Delay.RunHead | cadence.c:125 | A run advances the head by one per call, modulo the counter's modulus. |
| Delay.RunSlot | cadence.c:115-127 | After a wrap-safe run, each of the last `offset` head positions holds what the run wrote there, or what the buffer held before the run. |
| Delay.RunPrefix | cadence.c:115-127 | The first `j` outputs of a run are those of the run of the first `j` inputs. |
| Delay.EarlierOutput | cadence.c:115-127 | Output `m` of a run is output `m` of any longer prefix of it. |
| Delay.RunOutput | cadence.c:115-127 | Output `n` is what call `n` returns on the line left by the first `n` calls. |
| Delay.ReadAtCall | cadence.c:116-119 | In a wrap-safe run, call `n` returns the slot of position `head + n - offset` as the first `n` calls left it. |
| Delay.SlotBehind | cadence.c:115-127 | In a wrap-safe run, that slot holds what call `n - offset` wrote or, in the first `offset` calls, what the buffer held. |
| Delay.EchoStep | cadence.c:115-127 | In a wrap-safe run, output `n` is the mix of the input and output `offset` calls earlier. In the first `offset` calls it is the old buffer's content `offset` behind the head. |
| Delay.Echo | cadence.c:115-127 | The echo relation holds at every output of a wrap-safe run. |
| Delay.FeedbackFromEcho | cadence.c:122 | Wherever the echo holds with `apply_delay`'s rule, each output after the first `offset` is the input `offset` calls earlier plus `feedback` times the output from then. |
| Delay.FeedbackEcho | cadence.c:115-127 | On the 32-bit head, each output of a wrap-safe run after the first `offset` is the input `offset` calls earlier plus `feedback` times the output from then. |
| Delay.DelayFromEcho | cadence.c:103-127 | Wherever the echo holds without feedback on a zeroed buffer, the first `offset` outputs are 0 and each later one is the input `offset` calls earlier. |
| Delay.PureDelay | cadence.c:103-127 | On the 32-bit head, from a zeroed buffer with no feedback, the first `offset` outputs of a wrap-safe run are 0 and each later output is the input `offset` calls earlier. |
| Delay.WrapGlitch | cadence.c:118-125 | As written: on a zeroed 3-slot line whose 32-bit head is 2^32 - 1, with offset 2 and no feedback, inputs `[a, b, c]` give `[0, 0, b]`. The third output should be `a`, so the echo relation fails there whenever `a != b`. |
| Delay.WrapGlitchAtRate | cadence.c:105-118 | As written, at 44.1 kHz: the buffer has 441000 slots, and a 3-second offset (132300) read at head 64004 hits the slot written at head 0. |
| Delay.RingReadIndex | cadence.c:118 | Corrected read: with the head kept below `buf_size` and `read_offset <= buf_size`, the slot read is `(write_head + buf_size - read_offset) % buf_size`, a subtraction that never wraps. |
| Delay.RingEcho | cadence.c:115-127 | Corrected: with the head kept modulo `buf_size` and the read taken at `(write_head + buf_size - read_offset) % buf_size` (offset at most `buf_size`), the echo relation holds at every output of every run, from any head and across any number of wraps. |
| Delay.DelayState.constructor | cadence.c:103-113 | `new_delay` allocates `10 * sample_rate` samples (32-bit arithmetic), all zero. |
| Delay.DelayState.ApplyDelay | cadence.c:115-127 | `apply_delay` stores the offset and returns the sample at the read index. It writes `sample + delayed * feedback` at `write_head % buf_size` and increments the head; as a whole, it performs `Step` on the line's contents. |
| Tracks.SilentColumn | cadence.c:278-281 | Columns that are zero in every track sum to 0. |
| Tracks.BalancedColumns | cadence.c:46-49 | Tracks written by `write_to_track` hold equal left and right samples, so they mix to equal left and right sums. |
| Tracks.SoleTrack | cadence.c:278-281 | When only track 0 carries signal, the mixed sum is track 0's sample. |
| Tracks.Audio.constructor | cadence.c:301-306 | Setup clears every track sample, and clears the output buffer of `frames * 2` samples. |
| Tracks.Audio.WriteToTrack | cadence.c:46-49 | `write_to_track` writes the sample to both channels of the frame and changes no other track sample. |
| Tracks.Audio.MixTracks | cadence.c:273-286 | Output sample `j` (left at `2 * i`, right at `2 * i + 1`) is the quantised sum over all tracks of column `j`. |

## Code behaviour kept as written

- NOTE_OFF matches a slot by key alone and never looks at FREE
  (src/synth.c:41). A free slot that kept an old key can therefore be
  released. `NoteOffReleasesFirstMatch` states this behaviour.
- The phasor wraps only when the value is strictly above 1.0
  (cadence.c:91). Its range is therefore the closed interval [0, 1]; the
  contract of `GenPhasor` states the strict test.
- An offset of 0 reads the slot about to be written (cadence.c:118 and 122).
  `ZeroOffsetReadsWriteSlot` states this. Once the head has reached
  `buf_size`, and while it does not wrap at 2^32, the line therefore delays by
  `buf_size` calls rather than by none (`ZeroOffsetRun`, `ZeroOffsetDelay`).
  Across a 32-bit wrap that need not hold when `buf_size` does not divide
  2^32 (see Findings).
- A generator slot holds a pointer to its generator, and `del_gen_table`
  leaves that pointer in place (cadence.c:170-172). `Deleted` keeps the slot's
  generator.

## Findings

| source | as written | input that shows it | evidently intended | confidence | as-written member | corrected member |
|---|---|---|---|---|---|---|
| cadence.c:118-125 | The write head is a `uint32_t` that wraps at 2^32, the write index is `write_head % buf_size` and the read index is `(write_head - read_offset) % buf_size`, a subtraction in `uint32_t`. When `buf_size` does not divide 2^32, the write index jumps from `2^32 % buf_size - 1` back to 0 at the wrap, so the first `2^32 % buf_size` slots are written again soon after. A read taken while the subtraction `write_head - read_offset` wraps (after the head has wrapped, or from a head still below the offset) can then land on such a slot and return a sample newer than `read_offset` calls. This happens when `read_offset` is greater than `2^32 % buf_size` and `write_head` is at least `read_offset - 2^32 % buf_size`; with `read_offset` at or below `2^32 % buf_size` the lag is kept. At 44.1 kHz (441000 slots) the threshold is 68296 samples, about 1.55 s, so the 0.3 s offset (13230) passed at cadence.c:267 is not affected. | A zeroed 3-slot line, head 2^32 - 1, offset 2, no feedback, inputs `[a, b, c]`: outputs `[0, 0, b]` instead of `[0, 0, a]`. At 44.1 kHz (441000 slots), a 3-second offset read at head 64004 returns the sample written at head 0. | A ring buffer whose echo holds at every call: the head kept modulo `buf_size` (`write_head = (write_head + 1) % buf_size`) and the read taken at `(write_head + buf_size - read_offset) % buf_size`, with `read_offset <= buf_size`. Keeping the head modulo `buf_size` alone is not enough, because the `uint32_t` subtraction still wraps. | not executed | Delay.WrapGlitch | Delay.RingEcho |

## Left out

- Floating point: `float` and `double` values are reals, so rounding,
  infinities and NaN are not modelled.
- Delay.DelayState.ApplyDelay: `offset` stands for
  `delay_ms * sample_rate` converted to `uint32_t` (cadence.c:116). The
  float-to-integer conversion is not modelled.
- Delay.DelayState.ApplyDelay: it requires a nonzero buffer size. The
  source's `%` by zero is undefined, and a size of zero arises from a sample
  rate of 0 or from `10 * sample_rate` wrapping to 0.
- Delay.Echo: like `EchoStep`, `FeedbackEcho` and `PureDelay`, it holds only
  for an offset between 1 and the buffer size and for wrap-safe runs: the
  head has passed the offset and does not wrap during the run, or the
  buffer size divides the counter's modulus. On the 32-bit head other runs
  can break the echo (see Findings). The one-call facts (`Step`,
  `ApplyDelay`) hold without these limits.
- Delay.DelayState.constructor: `new_delay` leaves `write_head` and
  `read_offset` uninitialised; the constructor takes them as parameters.
  `SampleRate` excludes 0.
- Synth.Synth.constructor: the uninitialised note memory is the parameter
  `uninit`. `poly_count` is a `nat`; a negative C `poly_count` would run no
  loop iteration.
- Synth.Synth.PlaySynth: the callback is a pure function of the slot index
  and a copy of the note. The source passes it the engine context, the synth
  pointer and the note pointer `&s->notes[i]` (src/synth.c:55), through
  which a voice can change its own slot, for instance clear RESET or set
  FREE when it has finished. Those writes, and any other side effect through
  the three pointers, are not modelled: the notes are unchanged by a render.
- Synth.Synth.RegisterNote: the printed warning is the result `warned`.
- GenTable.RegisterGenTable: excludes GEN_FREE instead of modelling the
  `assert(0)` abort. A build with `NDEBUG` would fall through and return the
  slot, tagged free.
- GenTable.DelGenTable: requires an index inside the table. The source does
  not check it.
- Generators held by value: a slot's generator is stored in the slot rather
  than behind a fresh `malloc` pointer. This is equivalent because no two
  slots share a generator. The leak of the old generator on re-registration
  and the `malloc` calls themselves are not modelled.
- The `free` field of `gen_table` (cadence.c:142) is never read or written,
  so it is not modelled.
- `gen_sine` (cadence.c:64-72) is `sin` and `fmod` arithmetic. It enters
  processing as the function parameter `sineStep`. `new_sine` is modelled
  as `NewSine`.
- Tracks.Audio.WriteToTrack: requires a track below `num_tracks` and a
  frame below `track_size`. The source checks neither, and `main` calls it
  for every frame of the device period (cadence.c:261-268). For a period
  longer than 256 frames the C write lands in the next track's row, or past
  the last track, and other track samples do change; the model does not
  capture those out-of-range writes.
- Tracks.Audio.MixTracks: the cast `(int16_t)(32768.0f * x)`
  (cadence.c:284-285) is the function parameter `quantize`. The method
  requires `frames <= track_size`; the source does not check this, and
  writes past the tracks otherwise.
- Tracks.Audio.constructor: only the clearing part of `audio_setup` is
  modelled (cadence.c:301-306 and 373-375). The device handling, including
  the period-size query, is not; `frames` is a parameter. The perf-mode
  buffer of cadence.c:240-241 is not modelled.
- The host loop in `main`, `audio_setup`, `audio_cleanup` and
  `audio_play_buffer`: device I/O through ALSA and the driver loop.
- `test_osc` (cadence.c:190-225) and example/example.c: a voice callback and
  a host program outside the core.
- src/effect.h, src/util.h, src/fft.h and example/program.h: their
  implementations are not part of this model.
