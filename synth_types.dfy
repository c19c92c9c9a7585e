// The value types of the polyphonic note manager: note flags, a note slot,
// the two note events and the per-voice render callback.

module SynthTypes {

  /** The three note flags. Each names one bit of a note's flags word. */
  datatype NoteFlag = NoteFree | NoteRelease | NoteReset

  /** The bit number of a flag: the enumeration's own value. */
  function BitOf(flag: NoteFlag): (b: bv32)
    ensures b < 3
  {
    match flag
    case NoteFree => 0
    case NoteRelease => 1
    case NoteReset => 2
  }

  /** A note's 32-bit flags word, seen bit by bit: the FREE bit (bit 0), the
      RELEASE bit (bit 1), the RESET bit (bit 2) and `upper`, the word shifted
      right by three, which holds bits 3 to 31. No flag lives in `upper`; it
      keeps whatever the slot's memory held. */
  datatype FlagBits = FlagBits(free: bool, release: bool, reset: bool, upper: bv32)

  /** Whether the bit of `flag` is set. */
  function IsSet(f: FlagBits, flag: NoteFlag): bool
  {
    match flag
    case NoteFree => f.free
    case NoteRelease => f.release
    case NoteReset => f.reset
  }

  /** `f` with the bit of `flag` set to `b`. */
  function With(f: FlagBits, flag: NoteFlag, b: bool): (r: FlagBits)
    ensures IsSet(r, flag) == b
    ensures forall g :: g != flag ==> IsSet(r, g) == IsSet(f, g)
    ensures r.upper == f.upper
  {
    match flag
    case NoteFree => f.(free := b)
    case NoteRelease => f.(release := b)
    case NoteReset => f.(reset := b)
  }

  /** One polyphonic voice slot. `key` is the caller's identity for pairing
      NOTE_ON with NOTE_OFF. Frequencies and amplitudes are reals. */
  datatype Note = Note(freq: real, amp: real, key: int, flags: FlagBits)

  /** The two events a host can register with the note manager. */
  datatype NoteEvent = NoteOn | NoteOff

  /** The per-voice render callback: given the slot index and that slot's
      note it returns one sample. The engine context and the synth pointer
      that the callback also receives are not part of this model. */
  type Osc = (nat, Note) -> real

  // ---------------------------------------------------------------------
  // The flags word. These lemmas tie the bit view above to the C int and
  // its `|`, `& ~` and `&` with `1 << flag`.

  /** Reads the bits of a flags word. */
  function Decode(w: bv32): FlagBits
  {
    FlagBits(w & 1 != 0, w & 2 != 0, w & 4 != 0, w >> 3)
  }

  /** Writes the bits back into a flags word. */
  function Encode(f: FlagBits): bv32
  {
    (f.upper << 3) | (if f.reset then 4 else 0) | (if f.release then 2 else 0) | (if f.free then 1 else 0)
  }

  /** Every word is the encoding of its bits. */
  lemma EncodeDecode(w: bv32)
    ensures Encode(Decode(w)) == w
  {
  }

  /** Every bit view whose `upper` fits in 29 bits is the view of its encoding:
      with `EncodeDecode`, words and such views are in one-to-one correspondence. */
  lemma DecodeEncode(f: FlagBits)
    requires f.upper < 0x2000_0000
    ensures Decode(Encode(f)) == f
  {
  }

  /** Encoding keeps the three flag bits whatever `upper` holds: the bits
      shifted out of `upper` never reach bits 0 to 2. */
  lemma EncodeKeepsFlags(f: FlagBits)
    ensures Decode(Encode(f)).free == f.free
    ensures Decode(Encode(f)).release == f.release
    ensures Decode(Encode(f)).reset == f.reset
  {
  }

  /** Distinct flags have disjoint masks, so setting, clearing or testing one
      flag never touches another. */
  lemma DistinctMasks(f: NoteFlag, g: NoteFlag)
    ensures f != g <==> ((1 as bv32) << BitOf(f)) & ((1 as bv32) << BitOf(g)) == 0
  {
    assert (1 as bv32) << BitOf(NoteFree) == 1;
    assert (1 as bv32) << BitOf(NoteRelease) == 2;
    assert (1 as bv32) << BitOf(NoteReset) == 4;
  }

  /** Decoding a word always gives an `upper` of at most 29 bits. */
  lemma DecodeUpperFits(w: bv32)
    ensures Decode(w).upper < 0x2000_0000
  {
  }

  lemma OrOne(w: bv32)
    ensures Decode(w | 1) == Decode(w).(free := true)
  {
  }

  lemma OrTwo(w: bv32)
    ensures Decode(w | 2) == Decode(w).(release := true)
  {
  }

  lemma OrFour(w: bv32)
    ensures Decode(w | 4) == Decode(w).(reset := true)
  {
  }

  lemma AndNotOne(w: bv32)
    ensures Decode(w & 0xFFFF_FFFE) == Decode(w).(free := false)
  {
  }

  lemma AndNotTwo(w: bv32)
    ensures Decode(w & 0xFFFF_FFFD) == Decode(w).(release := false)
  {
  }

  lemma AndNotFour(w: bv32)
    ensures Decode(w & 0xFFFF_FFFB) == Decode(w).(reset := false)
  {
  }

  /** `flags |= (1 << flag)` sets the flag's bit and changes no other bit. */
  lemma OrSetsFlag(w: bv32, flag: NoteFlag)
    ensures Decode(w | (1 << BitOf(flag))) == With(Decode(w), flag, true)
  {
    match flag
    case NoteFree =>
      assert (1 as bv32) << BitOf(flag) == 1;
      OrOne(w);
    case NoteRelease =>
      assert (1 as bv32) << BitOf(flag) == 2;
      OrTwo(w);
    case NoteReset =>
      assert (1 as bv32) << BitOf(flag) == 4;
      OrFour(w);
  }

  /** `flags &= ~(1 << flag)` clears the flag's bit and changes no other bit. */
  lemma AndNotClearsFlag(w: bv32, flag: NoteFlag)
    ensures Decode(w & !(1 << BitOf(flag))) == With(Decode(w), flag, false)
  {
    match flag
    case NoteFree =>
      assert !((1 as bv32) << BitOf(flag)) == 0xFFFF_FFFE;
      AndNotOne(w);
    case NoteRelease =>
      assert !((1 as bv32) << BitOf(flag)) == 0xFFFF_FFFD;
      AndNotTwo(w);
    case NoteReset =>
      assert !((1 as bv32) << BitOf(flag)) == 0xFFFF_FFFB;
      AndNotFour(w);
  }

  /** `flags & (1 << flag)` is the flag's mask when its bit is set and zero
      otherwise, so it is nonzero exactly when the bit is set. */
  lemma AndTestsFlag(w: bv32, flag: NoteFlag)
    ensures w & (1 << BitOf(flag)) == if IsSet(Decode(w), flag) then 1 << BitOf(flag) else 0
  {
    match flag
    case NoteFree =>
      assert (1 as bv32) << BitOf(flag) == 1;
    case NoteRelease =>
      assert (1 as bv32) << BitOf(flag) == 2;
    case NoteReset =>
      assert (1 as bv32) << BitOf(flag) == 4;
  }
}
