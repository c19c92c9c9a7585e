// The global generator table: a fixed arena of 64 slots, each a tagged union
// of a sine or phasor generator plus the value it produced last. Slots are
// claimed first-fit, released by resetting the tag, and refreshed once per
// sample.

module GenTable {
  import opened Oscillators

  /** The number of slots of the global table. */
  const GenTableSize: nat := 64

  /** The tag of a slot. */
  datatype GenType = GenFree | GenSine | GenPhasor

  /** The union member of a slot: the generator it points at. `NoOsc` is the
      null pointer of a slot that was never claimed. */
  datatype OscRef = NoOsc | SineRef(sine: Sine) | PhasorRef(phasor: Phasor)

  /** One slot: the generator's last value, the generator, and the tag. */
  datatype GenSlot = GenSlot(val: real, osc: OscRef, kind: GenType)

  /** A slot of the zero-initialised global table. */
  const EmptySlot: GenSlot := GenSlot(0.0, NoOsc, GenFree)

  /** The sine step (`gen_sine`) supplied to processing: new state and sample. */
  type SineStep = Sine -> (Sine, real)

  /** The phasor step (`gen_phasor`) supplied to processing. */
  type PhasorStep = Phasor -> (Phasor, real)

  /** A slot whose tag says sine holds a sine, and one whose tag says phasor
      holds a phasor. Free slots may hold anything. */
  predicate Tagged(g: GenSlot)
  {
    (g.kind == GenSine ==> g.osc.SineRef?) && (g.kind == GenPhasor ==> g.osc.PhasorRef?)
  }

  predicate WellTagged(s: seq<GenSlot>)
  {
    forall i :: 0 <= i < |s| ==> Tagged(s[i])
  }

  predicate IsFreeSlot(g: GenSlot)
  {
    g.kind == GenFree
  }

  /** The lowest index of a free slot, or -1 when there is none. */
  function FirstFreeGen(s: seq<GenSlot>): (k: int)
    ensures -1 <= k < |s|
    ensures k == -1 <==> forall j :: 0 <= j < |s| ==> !IsFreeSlot(s[j])
    ensures 0 <= k ==> IsFreeSlot(s[k]) && forall j :: 0 <= j < k ==> !IsFreeSlot(s[j])
  {
    if |s| == 0 then -1
    else if IsFreeSlot(s[0]) then 0
    else
      var k := FirstFreeGen(s[1..]);
      if k < 0 then -1 else k + 1
  }

  /** The number of free slots. */
  function FreeCount(s: seq<GenSlot>): (c: nat)
    ensures c <= |s|
  {
    if |s| == 0 then 0
    else (if IsFreeSlot(s[0]) then 1 else 0) + FreeCount(s[1..])
  }

  /** Claiming one slot: the tag set to `kind` and a fresh generator of that
      kind stored; the cached value is kept. */
  function Allocate(g: GenSlot, kind: GenType): (r: GenSlot)
    requires kind != GenFree
    ensures r.kind == kind && r.val == g.val && Tagged(r)
    ensures kind == GenSine ==> r.osc == SineRef(NewSine())
    ensures kind == GenPhasor ==> r.osc == PhasorRef(NewPhasor())
  {
    g.(kind := kind, osc := if kind == GenSine then SineRef(NewSine()) else PhasorRef(NewPhasor()))
  }

  /** `register_gen_table` on the table's contents: the new table and the
      returned handle. */
  function Register(s: seq<GenSlot>, kind: GenType): (r: (seq<GenSlot>, int))
    requires kind != GenFree
    ensures |r.0| == |s| && -1 <= r.1 < |s|
    ensures r.1 == -1 <==> forall j :: 0 <= j < |s| ==> !IsFreeSlot(s[j])
    ensures r.1 == -1 ==> r.0 == s
    ensures 0 <= r.1 ==> IsFreeSlot(s[r.1]) && forall j :: 0 <= j < r.1 ==> !IsFreeSlot(s[j])
    ensures 0 <= r.1 ==> r.0[r.1].kind == kind && r.0[r.1].val == s[r.1].val
    ensures 0 <= r.1 ==> r.0[r.1] == Allocate(s[r.1], kind)
    ensures forall j :: 0 <= j < |s| && j != r.1 ==> r.0[j] == s[j]
    ensures WellTagged(s) ==> WellTagged(r.0)
  {
    var k := FirstFreeGen(s);
    if k < 0 then (s, -1) else (s[k := Allocate(s[k], kind)], k)
  }

  /** `del_gen_table` on the table's contents: only the tag of slot `i`
      changes. The generator stays where it was. */
  function Deleted(s: seq<GenSlot>, i: nat): (r: seq<GenSlot>)
    requires i < |s|
    ensures |r| == |s| && IsFreeSlot(r[i])
    ensures r[i].val == s[i].val && r[i].osc == s[i].osc
    ensures forall j :: 0 <= j < |s| && j != i ==> r[j] == s[j]
    ensures WellTagged(s) ==> WellTagged(r)
  {
    s[i := s[i].(kind := GenFree)]
  }

  /** One slot refreshed: free slots are skipped; an occupied slot advances
      its generator by one step and caches the sample. */
  function StepSlot(g: GenSlot, sineStep: SineStep, phasorStep: PhasorStep): (r: GenSlot)
    requires Tagged(g)
    ensures r.kind == g.kind && Tagged(r)
    ensures IsFreeSlot(g) ==> r == g
    ensures g.kind == GenSine ==> (r.osc.sine, r.val) == sineStep(g.osc.sine)
    ensures g.kind == GenPhasor ==> (r.osc.phasor, r.val) == phasorStep(g.osc.phasor)
  {
    match g.kind
    case GenFree => g
    case GenSine =>
      var (next, sample) := sineStep(g.osc.sine);
      g.(val := sample, osc := SineRef(next))
    case GenPhasor =>
      var (next, sample) := phasorStep(g.osc.phasor);
      g.(val := sample, osc := PhasorRef(next))
  }

  /** `process_gen_table` on the table's contents. */
  function Processed(s: seq<GenSlot>, sineStep: SineStep, phasorStep: PhasorStep): (r: seq<GenSlot>)
    requires WellTagged(s)
    ensures |r| == |s| && WellTagged(r)
    ensures forall i :: 0 <= i < |s| ==> r[i].kind == s[i].kind
    ensures forall i :: 0 <= i < |s| && IsFreeSlot(s[i]) ==> r[i] == s[i]
    ensures forall i :: 0 <= i < |s| && s[i].kind == GenSine ==>
      (r[i].osc.sine, r[i].val) == sineStep(s[i].osc.sine)
    ensures forall i :: 0 <= i < |s| && s[i].kind == GenPhasor ==>
      (r[i].osc.phasor, r[i].val) == phasorStep(s[i].osc.phasor)
  {
    seq(|s|, i requires 0 <= i < |s| => StepSlot(s[i], sineStep, phasorStep))
  }

  /** The table as its callers start it: every slot zero, so every tag free. */
  function EmptyTable(): (t: seq<GenSlot>)
    ensures |t| == GenTableSize && forall j :: 0 <= j < |t| ==> IsFreeSlot(t[j])
  {
    seq(GenTableSize, _ => EmptySlot)
  }

  /** Registering each of `kinds` in turn: the final table and the handles
      returned, in order. */
  function RegisterAll(s: seq<GenSlot>, kinds: seq<GenType>): (r: (seq<GenSlot>, seq<int>))
    requires forall j :: 0 <= j < |kinds| ==> kinds[j] != GenFree
    ensures |r.0| == |s| && |r.1| == |kinds|
  {
    if |kinds| == 0 then (s, [])
    else
      var (t, hs) := RegisterAll(s, kinds[..|kinds| - 1]);
      var (u, h) := Register(t, kinds[|kinds| - 1]);
      (u, hs + [h])
  }

  // ---------------------------------------------------------------------
  // Properties of the table

  /** No free slot and a free count of zero are the same thing, so
      registration fails exactly when the count is zero. */
  lemma {:induction false} FullIffNoneFree(s: seq<GenSlot>)
    ensures FreeCount(s) == 0 <==> FirstFreeGen(s) == -1
  {
    if |s| > 0 {
      FullIffNoneFree(s[1..]);
    }
  }

  /** Replacing one slot changes the free count by that slot's change. */
  lemma {:induction false} FreeCountUpdate(s: seq<GenSlot>, i: nat, g: GenSlot)
    requires i < |s|
    ensures FreeCount(s[i := g]) ==
      FreeCount(s) - (if IsFreeSlot(s[i]) then 1 else 0) + (if IsFreeSlot(g) then 1 else 0)
  {
    if i > 0 {
      assert s[i := g][1..] == s[1..][i - 1 := g];
      FreeCountUpdate(s[1..], i - 1, g);
    } else {
      assert s[i := g][1..] == s[1..];
    }
  }

  /** A successful registration uses up exactly one free slot. */
  lemma RegisterTakesOneSlot(s: seq<GenSlot>, kind: GenType)
    requires kind != GenFree && FirstFreeGen(s) >= 0
    ensures FreeCount(Register(s, kind).0) == FreeCount(s) - 1
  {
    var k := FirstFreeGen(s);
    FreeCountUpdate(s, k, Allocate(s[k], kind));
  }

  /** Deleting an occupied slot gives back exactly one free slot. */
  lemma DeleteGivesOneSlot(s: seq<GenSlot>, i: nat)
    requires i < |s| && !IsFreeSlot(s[i])
    ensures FreeCount(Deleted(s, i)) == FreeCount(s) + 1
  {
    FreeCountUpdate(s, i, s[i].(kind := GenFree));
  }

  /** After a deletion the next registration lands on the deleted slot,
      unless a lower slot was already free. */
  lemma DeleteThenRegisterReuses(s: seq<GenSlot>, i: nat, kind: GenType)
    requires i < |s| && kind != GenFree
    ensures var f := FirstFreeGen(s);
      Register(Deleted(s, i), kind).1 == if 0 <= f < i then f else i
  {
    var f := FirstFreeGen(s);
    var d := Deleted(s, i);
    var g := FirstFreeGen(d);
    if 0 <= f < i {
      assert IsFreeSlot(d[f]);
    } else {
      assert IsFreeSlot(d[i]);
      if g >= 0 && g < i {
        assert IsFreeSlot(s[g]);
      }
    }
  }

  /** The allocation state reads only the tags. */
  lemma {:induction false} SameTagsSameAllocation(s: seq<GenSlot>, t: seq<GenSlot>)
    requires |s| == |t| && forall j :: 0 <= j < |s| ==> s[j].kind == t[j].kind
    ensures FirstFreeGen(s) == FirstFreeGen(t) && FreeCount(s) == FreeCount(t)
  {
    if |s| > 0 {
      SameTagsSameAllocation(s[1..], t[1..]);
    }
  }

  /** Processing never claims or frees a slot: the next handle and the free
      count are what they were. */
  lemma ProcessKeepsAllocation(s: seq<GenSlot>, sineStep: SineStep, phasorStep: PhasorStep)
    requires WellTagged(s)
    ensures FirstFreeGen(Processed(s, sineStep, phasorStep)) == FirstFreeGen(s)
    ensures FreeCount(Processed(s, sineStep, phasorStep)) == FreeCount(s)
  {
    SameTagsSameAllocation(Processed(s, sineStep, phasorStep), s);
  }

  /** Registering then deleting the same handle gives back the tags and the
      cached values the table had. */
  lemma RegisterThenDeleteRestoresTags(s: seq<GenSlot>, kind: GenType)
    requires kind != GenFree && FirstFreeGen(s) >= 0
    ensures var (t, h) := Register(s, kind);
      var d := Deleted(t, h);
      forall j :: 0 <= j < |s| ==> d[j].kind == s[j].kind && d[j].val == s[j].val
  {
  }

  /** On a table whose slots are all free, registrations hand out 0, 1, 2, ...
      in order, occupying the slots below the count with the requested kinds;
      once every slot is taken each further registration returns -1 and
      changes nothing. */
  lemma {:induction false} FreshTableHandles(s: seq<GenSlot>, kinds: seq<GenType>)
    requires forall j :: 0 <= j < |s| ==> IsFreeSlot(s[j])
    requires forall j :: 0 <= j < |kinds| ==> kinds[j] != GenFree
    ensures forall j :: 0 <= j < |kinds| ==> RegisterAll(s, kinds).1[j] == if j < |s| then j else -1
    ensures forall j :: 0 <= j < |s| ==>
      RegisterAll(s, kinds).0[j].kind == if j < |kinds| then kinds[j] else GenFree
  {
    if |kinds| > 0 {
      var n := |kinds| - 1;
      FreshTableHandles(s, kinds[..n]);
      var (t, hs) := RegisterAll(s, kinds[..n]);
      assert forall j :: 0 <= j < |t| ==> (IsFreeSlot(t[j]) <==> j >= n);
      RegisterNext(t, kinds[n], n);
      var (u, h) := Register(t, kinds[n]);
      assert RegisterAll(s, kinds) == (u, hs + [h]);
      forall j | 0 <= j < |kinds|
        ensures (hs + [h])[j] == if j < |s| then j else -1
      {
        if j < n {
          assert (hs + [h])[j] == hs[j];
        }
      }
    }
  }

  /** Registration on a table whose slots below `n` are taken and the rest
      free takes slot `n`, or fails when there is no such slot. */
  lemma RegisterNext(t: seq<GenSlot>, kind: GenType, n: nat)
    requires kind != GenFree
    requires forall j :: 0 <= j < |t| ==> (IsFreeSlot(t[j]) <==> j >= n)
    ensures Register(t, kind).1 == if n < |t| then n else -1
    ensures forall j :: 0 <= j < |t| ==> Register(t, kind).0[j].kind == if j == n then kind else t[j].kind
  {
    if n < |t| {
      assert IsFreeSlot(t[n]);
    }
  }

  /** The global table takes exactly 64 registrations: the first 64 get the
      handles 0 to 63 and the 65th gets -1. */
  lemma TableCapacity(kinds: seq<GenType>)
    requires |kinds| == GenTableSize + 1
    requires forall j :: 0 <= j < |kinds| ==> kinds[j] != GenFree
    ensures var hs := RegisterAll(EmptyTable(), kinds).1;
      (forall j :: 0 <= j < GenTableSize ==> hs[j] == j) && hs[GenTableSize] == -1
  {
    FreshTableHandles(EmptyTable(), kinds);
  }

  // ---------------------------------------------------------------------
  // Methods on the table itself

  /** `register_gen_table`: the first-fit scan. Registering the kind GEN_FREE
      reaches `assert(0)` in the source, so callers must not. */
  method RegisterGenTable(gt: array<GenSlot>, kind: GenType) returns (i: int)
    requires gt.Length == GenTableSize && kind != GenFree
    modifies gt
    ensures (gt[..], i) == Register(old(gt[..]), kind)
  {
    i := 0;
    while i < GenTableSize
      invariant 0 <= i <= GenTableSize
      invariant gt[..] == old(gt[..])
      invariant forall j :: 0 <= j < i ==> !IsFreeSlot(gt[j])
    {
      if gt[i].kind == GenFree {
        ghost var before := gt[..];
        gt[i] := gt[i].(kind := kind);
        if kind == GenSine {
          gt[i] := gt[i].(osc := SineRef(NewSine()));
        } else {
          gt[i] := gt[i].(osc := PhasorRef(NewPhasor()));
        }
        assert FirstFreeGen(before) == i;
        assert gt[..] == before[i := Allocate(before[i], kind)];
        return;
      }
      i := i + 1;
    }
    i := -1;
  }

  /** `del_gen_table`. The source does not check `i`; an index outside the
      table is outside this model. */
  method DelGenTable(gt: array<GenSlot>, i: int)
    requires gt.Length == GenTableSize && 0 <= i < GenTableSize
    modifies gt
    ensures gt[..] == Deleted(old(gt[..]), i)
  {
    gt[i] := gt[i].(kind := GenFree);
  }

  /** `process_gen_table`: one pass over the table in index order. Every
      occupied slot must hold the generator its tag names. */
  method ProcessGenTable(gt: array<GenSlot>, sineStep: SineStep, phasorStep: PhasorStep)
    requires gt.Length == GenTableSize && WellTagged(gt[..])
    modifies gt
    ensures gt[..] == Processed(old(gt[..]), sineStep, phasorStep)
  {
    var i := 0;
    while i < GenTableSize
      invariant 0 <= i <= GenTableSize
      invariant forall j :: 0 <= j < i ==> gt[j] == StepSlot(old(gt[j]), sineStep, phasorStep)
      invariant forall j :: i <= j < GenTableSize ==> gt[j] == old(gt[j])
    {
      var t := gt[i].kind;
      match t {
        case GenFree =>
        case GenSine =>
          var (next, sample) := sineStep(gt[i].osc.sine);
          gt[i] := gt[i].(val := sample, osc := SineRef(next));
        case GenPhasor =>
          var (next, sample) := phasorStep(gt[i].osc.phasor);
          gt[i] := gt[i].(val := sample, osc := PhasorRef(next));
      }
      i := i + 1;
    }
  }
}
