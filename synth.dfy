// The polyphonic note manager: a fixed array of note slots, NOTE_ON/NOTE_OFF
// registration by first-match scans, and per-sample rendering through an
// injected voice callback.

module Synth {
  import opened SynthTypes

  // ---------------------------------------------------------------------
  // Flag helpers

  /** `set_flag`: sets the bit of `flag` and no other bit. */
  function SetFlag(n: Note, flag: NoteFlag): (r: Note)
    ensures IsSet(r.flags, flag)
    ensures forall g :: g != flag ==> IsSet(r.flags, g) == IsSet(n.flags, g)
    ensures r.flags.upper == n.flags.upper
    ensures r.(flags := n.flags) == n
  {
    n.(flags := With(n.flags, flag, true))
  }

  /** `unset_flag`: clears the bit of `flag` and no other bit. */
  function UnsetFlag(n: Note, flag: NoteFlag): (r: Note)
    ensures !IsSet(r.flags, flag)
    ensures forall g :: g != flag ==> IsSet(r.flags, g) == IsSet(n.flags, g)
    ensures r.flags.upper == n.flags.upper
    ensures r.(flags := n.flags) == n
  {
    n.(flags := With(n.flags, flag, false))
  }

  /** `check_flag`: the flags word masked with the flag's bit, which is the
      mask itself when the flag is set and zero otherwise. Callers test it
      for nonzero. */
  function CheckFlag(n: Note, flag: NoteFlag): (r: bv32)
    ensures r == 0 || r == 1 << BitOf(flag)
    ensures r != 0 <==> IsSet(n.flags, flag)
  {
    EncodeKeepsFlags(n.flags);
    AndTestsFlag(Encode(n.flags), flag);
    Encode(n.flags) & (1 << BitOf(flag))
  }

  /** A slot is free when its FREE bit is set. */
  predicate IsFree(n: Note)
  {
    IsSet(n.flags, NoteFree)
  }

  /** What `new_synth` does to one slot: FREE set, RESET and RELEASE clear,
      bits 3 to 31 and every other field as the slot's memory held them. */
  function Vacate(n: Note): (r: Note)
    ensures r.flags == n.flags.(free := true, release := false, reset := false)
    ensures r.(flags := n.flags) == n
  {
    UnsetFlag(UnsetFlag(SetFlag(n, NoteFree), NoteReset), NoteRelease)
  }

  /** What NOTE_ON does to the slot it claims: RESET set, FREE and RELEASE
      clear, bits 3 to 31 kept, and frequency, amplitude and key stored. */
  function Claim(n: Note, freq: real, amp: real, key: int): (r: Note)
    ensures r == Note(freq, amp, key, n.flags.(free := false, release := false, reset := true))
  {
    var m := UnsetFlag(UnsetFlag(SetFlag(n, NoteReset), NoteFree), NoteRelease);
    m.(freq := freq, amp := amp, key := key)
  }

  /** What NOTE_OFF does to the slot it matches: RELEASE set, every other
      bit and field kept. */
  function Release(n: Note): (r: Note)
    ensures r == n.(flags := n.flags.(release := true))
  {
    SetFlag(n, NoteRelease)
  }

  // ---------------------------------------------------------------------
  // Specification of the note table

  /** The lowest index of a free slot, or -1 when no slot is free. */
  function FirstFree(ns: seq<Note>): (k: int)
    ensures -1 <= k < |ns|
    ensures k == -1 <==> forall j :: 0 <= j < |ns| ==> !IsFree(ns[j])
    ensures 0 <= k ==> IsFree(ns[k]) && forall j :: 0 <= j < k ==> !IsFree(ns[j])
  {
    if |ns| == 0 then -1
    else if IsFree(ns[0]) then 0
    else
      var k := FirstFree(ns[1..]);
      if k < 0 then -1 else k + 1
  }

  /** The lowest index of a slot whose key is `key`, free or not, or -1. */
  function FirstWithKey(ns: seq<Note>, key: int): (k: int)
    ensures -1 <= k < |ns|
    ensures k == -1 <==> forall j :: 0 <= j < |ns| ==> ns[j].key != key
    ensures 0 <= k ==> ns[k].key == key && forall j :: 0 <= j < k ==> ns[j].key != key
  {
    if |ns| == 0 then -1
    else if ns[0].key == key then 0
    else
      var k := FirstWithKey(ns[1..], key);
      if k < 0 then -1 else k + 1
  }

  /** The note table after registering one event. */
  function Registered(ns: seq<Note>, freq: real, amp: real, event: NoteEvent, key: int): (r: seq<Note>)
    ensures |r| == |ns|
  {
    match event
    case NoteOn =>
      var k := FirstFree(ns);
      if k < 0 then ns else ns[k := Claim(ns[k], freq, amp, key)]
    case NoteOff =>
      var k := FirstWithKey(ns, key);
      if k < 0 then ns else ns[k := Release(ns[k])]
  }

  /** The sample rendered from a table: the callback's results over the slots
      whose FREE bit is clear, accumulated in index order from 0. */
  function ActiveSum(ns: seq<Note>, osc: Osc): real
  {
    if |ns| == 0 then 0.0
    else
      var last := |ns| - 1;
      ActiveSum(ns[..last], osc) + (if IsFree(ns[last]) then 0.0 else osc(last, ns[last]))
  }

  // ---------------------------------------------------------------------
  // Properties of registration

  /** NOTE_ON with a free slot claims the lowest free slot and leaves every
      other slot as it was. */
  lemma NoteOnClaimsLowestFree(ns: seq<Note>, freq: real, amp: real, key: int, k: nat)
    requires k < |ns| && IsFree(ns[k])
    requires forall j :: 0 <= j < k ==> !IsFree(ns[j])
    ensures var r := Registered(ns, freq, amp, NoteOn, key);
      r[k] == Claim(ns[k], freq, amp, key) &&
      forall j :: 0 <= j < |ns| && j != k ==> r[j] == ns[j]
  {
  }

  /** NOTE_ON when every slot is taken drops the event. */
  lemma NoteOnWhenFullIsDropped(ns: seq<Note>, freq: real, amp: real, key: int)
    requires forall j :: 0 <= j < |ns| ==> !IsFree(ns[j])
    ensures Registered(ns, freq, amp, NoteOn, key) == ns
  {
  }

  /** NOTE_OFF sets RELEASE on the lowest slot with a matching key, whether
      or not that slot is free, and leaves everything else as it was. */
  lemma NoteOffReleasesFirstMatch(ns: seq<Note>, freq: real, amp: real, key: int, k: nat)
    requires k < |ns| && ns[k].key == key
    requires forall j :: 0 <= j < k ==> ns[j].key != key
    ensures var r := Registered(ns, freq, amp, NoteOff, key);
      r[k] == Release(ns[k]) &&
      forall j :: 0 <= j < |ns| && j != k ==> r[j] == ns[j]
  {
  }

  /** NOTE_OFF with a key no slot holds changes nothing. */
  lemma NoteOffUnknownKeyIsNoop(ns: seq<Note>, freq: real, amp: real, key: int)
    requires forall j :: 0 <= j < |ns| ==> ns[j].key != key
    ensures Registered(ns, freq, amp, NoteOff, key) == ns
  {
  }

  /** NOTE_ON followed by NOTE_OFF with the same key, when no sounding note
      already holds that key, releases exactly the slot the NOTE_ON claimed. */
  lemma NoteOnThenOffReleasesClaimedSlot(ns: seq<Note>, freq: real, amp: real, key: int)
    requires FirstFree(ns) >= 0
    requires forall j :: 0 <= j < |ns| && !IsFree(ns[j]) ==> ns[j].key != key
    ensures var k := FirstFree(ns);
      var r := Registered(Registered(ns, freq, amp, NoteOn, key), freq, amp, NoteOff, key);
      r[k] == Release(Claim(ns[k], freq, amp, key)) &&
      forall j :: 0 <= j < |ns| && j != k ==> r[j] == ns[j]
  {
    var k := FirstFree(ns);
    var on := Registered(ns, freq, amp, NoteOn, key);
    assert on == ns[k := Claim(ns[k], freq, amp, key)];
    forall j | 0 <= j < k
      ensures on[j].key != key
    {
      assert !IsFree(ns[j]);
    }
    NoteOffReleasesFirstMatch(on, freq, amp, key, k);
  }

  // ---------------------------------------------------------------------
  // Properties of rendering

  /** A table whose slots are all free renders silence. */
  lemma {:induction false} AllFreeIsSilent(ns: seq<Note>, osc: Osc)
    requires forall j :: 0 <= j < |ns| ==> IsFree(ns[j])
    ensures ActiveSum(ns, osc) == 0.0
  {
    if |ns| > 0 {
      AllFreeIsSilent(ns[..|ns| - 1], osc);
    }
  }

  /** Rendering reads only the slots whose FREE bit is clear: two tables with
      the same free slots that agree on every other slot render the same. */
  lemma {:induction false} ActiveSumReadsOnlyActive(ns: seq<Note>, ms: seq<Note>, osc: Osc)
    requires |ns| == |ms|
    requires forall j :: 0 <= j < |ns| ==> IsFree(ns[j]) == IsFree(ms[j])
    requires forall j :: 0 <= j < |ns| && !IsFree(ns[j]) ==> ns[j] == ms[j]
    ensures ActiveSum(ns, osc) == ActiveSum(ms, osc)
  {
    if |ns| > 0 {
      var last := |ns| - 1;
      ActiveSumReadsOnlyActive(ns[..last], ms[..last], osc);
    }
  }

  /** Turning one free slot into a sounding note adds that note's callback
      result to the rendered sample. */
  lemma {:induction false} ActiveSumAddVoice(ns: seq<Note>, k: nat, n: Note, osc: Osc)
    requires k < |ns| && IsFree(ns[k]) && !IsFree(n)
    ensures ActiveSum(ns[k := n], osc) == ActiveSum(ns, osc) + osc(k, n)
  {
    var last := |ns| - 1;
    var ms := ns[k := n];
    if k == last {
      assert ms[..last] == ns[..last];
    } else {
      assert ms[..last] == ns[..last][k := n];
      ActiveSumAddVoice(ns[..last], k, n, osc);
    }
  }

  /** A NOTE_ON that finds a free slot adds exactly one voice to the output. */
  lemma NoteOnAddsOneVoice(ns: seq<Note>, freq: real, amp: real, key: int, osc: Osc)
    requires FirstFree(ns) >= 0
    ensures var k := FirstFree(ns);
      ActiveSum(Registered(ns, freq, amp, NoteOn, key), osc)
        == ActiveSum(ns, osc) + osc(k, Claim(ns[k], freq, amp, key))
  {
    var k := FirstFree(ns);
    ActiveSumAddVoice(ns, k, Claim(ns[k], freq, amp, key), osc);
  }

  // ---------------------------------------------------------------------
  // The synth object

  /** A synth owns `polyCount` note slots and the voice callback. */
  class Synth {
    var osc: Osc
    var polyCount: nat
    var notes: array<Note>

    ghost predicate Valid()
      reads this
    {
      notes.Length == polyCount
    }

    /** `new_synth`: `uninit` stands for the contents of the freshly
        allocated slots; only the three flags are initialised, the keys,
        frequencies, amplitudes and other flag bits stay as they were. */
    constructor (polyCount: nat, osc: Osc, uninit: seq<Note>)
      requires |uninit| == polyCount
      ensures Valid() && fresh(notes)
      ensures this.polyCount == polyCount && this.osc == osc
      ensures forall j :: 0 <= j < polyCount ==> notes[j] == Vacate(uninit[j])
      ensures forall j :: 0 <= j < polyCount ==> IsFree(notes[j])
    {
      var a := new Note[polyCount](j requires 0 <= j < polyCount => uninit[j]);
      var i := 0;
      while i < polyCount
        invariant 0 <= i <= polyCount
        invariant forall j :: 0 <= j < i ==> a[j] == Vacate(uninit[j])
        invariant forall j :: i <= j < polyCount ==> a[j] == uninit[j]
      {
        a[i] := SetFlag(a[i], NoteFree);
        a[i] := UnsetFlag(a[i], NoteReset);
        a[i] := UnsetFlag(a[i], NoteRelease);
        i := i + 1;
      }
      this.polyCount := polyCount;
      this.osc := osc;
      notes := a;
    }

    /** `synth_register_note`. `warned` stands for the warning printed when
        a NOTE_OFF matches no slot. The slot count and the callback never
        change. */
    method RegisterNote(freq: real, amp: real, event: NoteEvent, key: int) returns (warned: bool)
      requires Valid()
      modifies notes
      ensures Valid() && polyCount == old(polyCount) && osc == old(osc)
      ensures notes[..] == Registered(old(notes[..]), freq, amp, event, key)
      ensures warned <==> event == NoteOff && forall j :: 0 <= j < polyCount ==> old(notes[j]).key != key
    {
      warned := false;
      if event == NoteOn {
        var i := 0;
        while i < polyCount
          invariant 0 <= i <= polyCount
          invariant notes[..] == old(notes[..])
          invariant forall j :: 0 <= j < i ==> !IsFree(notes[j])
        {
          if CheckFlag(notes[i], NoteFree) != 0 {
            notes[i] := SetFlag(notes[i], NoteReset);
            notes[i] := UnsetFlag(notes[i], NoteFree);
            notes[i] := UnsetFlag(notes[i], NoteRelease);
            notes[i] := notes[i].(freq := freq, amp := amp, key := key);
            assert FirstFree(old(notes[..])) == i;
            return;
          }
          i := i + 1;
        }
      }
      if event == NoteOff {
        var i := 0;
        while i < polyCount
          invariant 0 <= i <= polyCount
          invariant notes[..] == old(notes[..])
          invariant forall j :: 0 <= j < i ==> notes[j].key != key
        {
          if notes[i].key == key {
            notes[i] := SetFlag(notes[i], NoteRelease);
            assert FirstWithKey(old(notes[..]), key) == i;
            return;
          }
          i := i + 1;
        }
        warned := true;
      }
    }

    /** `play_synth`: the sum of the callback over the slots whose FREE bit
        is clear, in index order. */
    method PlaySynth() returns (sample: real)
      requires Valid()
      ensures sample == ActiveSum(notes[..], osc)
    {
      sample := 0.0;
      var i := 0;
      while i < polyCount
        invariant 0 <= i <= polyCount
        invariant sample == ActiveSum(notes[..i], osc)
      {
        assert notes[..i + 1][..i] == notes[..i];
        if CheckFlag(notes[i], NoteFree) == 0 {
          sample := sample + osc(i, notes[i]);
        }
        i := i + 1;
      }
      assert notes[..polyCount] == notes[..];
    }
  }
}
