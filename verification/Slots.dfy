/** A stream listener's connection ceiling and each source's share of it, as the
    atomic steps that any number of connections interleave. */
module Slots {
  import opened Octets

  /** An address, as far as counting goes. */
  type Source = nat

  /** How far `Drop for Slot` has got: its three effects are separate steps. */
  datatype Phase = Held | SourceReleased | GaugeClosed

  /** One slot: whether a connection holds it, and the source counted for it. */
  datatype Slot = Slot(open: bool, source: Option<Source>, phase: Phase)

  /** A connection counted against `s`. */
  predicate CountedFor(slot: Slot, s: Source) {
    slot.phase == Held && slot.source == Some(s)
  }

  /** A connection the open gauge counts. */
  predicate OnGauge(slot: Slot) {
    slot.open && slot.phase != GaugeClosed
  }

  /** The shared state, and the slots that exist. `perSource` 0 is no limit. */
  datatype State = State(limit: nat, perSource: nat, permits: nat, sources: map<Source, nat>, gauge: int,
                         slots: map<nat, Slot>)

  datatype Step =
    | Take(id: nat)                                    // a permit becomes a slot
    | Open(id: nat, source: Source, exempt: bool)      // one pass under the table's lock
    | ReleaseSource(id: nat)                           // drop: the table
    | CloseGauge(id: nat)                              // drop: the gauge
    | ReturnPermit(id: nat)                            // drop: the permit

  /** A step that may be taken: a slot that is free to be made, or one owned, at
      the point its owner has reached. `open` is called once for each accepted connection. */
  predicate Enabled(s: State, step: Step) {
    match step
    case Take(id) => s.permits > 0 && id !in s.slots
    case Open(id, _, _) => id in s.slots && s.slots[id] == Slot(false, None, Held)
    case ReleaseSource(id) => id in s.slots && s.slots[id].phase == Held
    case CloseGauge(id) => id in s.slots && s.slots[id].phase == SourceReleased
    case ReturnPermit(id) => id in s.slots && s.slots[id].phase == GaugeClosed
  }

  function Tally(sources: map<Source, nat>, s: Source): nat {
    if s in sources then sources[s] else 0
  }

  /** `Slot::open`: whether the connection was admitted, and the state after. The
      entry is made before the limit is looked at. */
  function OpenSlot(s: State, id: nat, source: Source, exempt: bool): (bool, State) {
    if s.perSource == 0 || exempt then
      (true, s.(gauge := s.gauge + 1, slots := s.slots[id := Slot(true, None, Held)]))
    else
      var n := Tally(s.sources, source);
      var entered := s.sources[source := n];
      if n >= s.perSource then (false, s.(sources := entered))
      else (true, s.(sources := entered[source := n + 1], gauge := s.gauge + 1,
                     slots := s.slots[id := Slot(true, Some(source), Held)]))
  }

  /** The table's part of `drop`: one fewer, and no entry for none. */
  function Release(sources: map<Source, nat>, source: Option<Source>): map<Source, nat> {
    if source.None? || source.value !in sources then sources
    else
      var n := if sources[source.value] == 0 then 0 else sources[source.value] - 1;
      if n == 0 then sources - {source.value} else sources[source.value := n]
  }

  function Next(s: State, step: Step): (r: State)
    requires Enabled(s, step)
  {
    match step
    case Take(id) => s.(permits := s.permits - 1, slots := s.slots[id := Slot(false, None, Held)])
    case Open(id, source, exempt) => OpenSlot(s, id, source, exempt).1
    case ReleaseSource(id) =>
      s.(sources := Release(s.sources, s.slots[id].source),
         slots := s.slots[id := s.slots[id].(phase := SourceReleased)])
    case CloseGauge(id) =>
      s.(gauge := if s.slots[id].open then s.gauge - 1 else s.gauge,
         slots := s.slots[id := s.slots[id].(phase := GaugeClosed)])
    case ReturnPermit(id) => s.(permits := s.permits + 1, slots := s.slots - {id})
  }

  function Start(limit: nat, perSource: nat): State {
    State(limit, perSource, limit, map[], 0, map[])
  }

  // ---- The invariant

  function Holders(slots: map<nat, Slot>, s: Source): set<nat> {
    set id | id in slots && CountedFor(slots[id], s)
  }

  function Shown(slots: map<nat, Slot>): set<nat> {
    set id | id in slots && OnGauge(slots[id])
  }

  /** The table says, of every source, how many of its counted connections live; it
      has an entry for those that have any; and none has more than its share. */
  ghost predicate TableTrue(sources: map<Source, nat>, slots: map<nat, Slot>, perSource: nat) {
    forall s: Source :: RowTrue(sources, slots, perSource, s)
  }

  ghost predicate RowTrue(sources: map<Source, nat>, slots: map<nat, Slot>, perSource: nat, s: Source) {
    && Tally(sources, s) == |Holders(slots, s)| <= perSource
    && (s in sources <==> Holders(slots, s) != {})
  }

  ghost predicate Inv(s: State) {
    && s.permits + |s.slots| == s.limit
    && s.gauge == |Shown(s.slots)|
    && TableTrue(s.sources, s.slots, s.perSource)
  }

  // ---- One slot changing

  lemma HoldersPut(slots: map<nat, Slot>, id: nat, v: Slot, s: Source)
    ensures var before, after := Holders(slots, s), Holders(slots[id := v], s);
            if CountedFor(v, s) then after == before + {id} else after == before - {id}
  {
  }

  lemma ShownPut(slots: map<nat, Slot>, id: nat, v: Slot)
    ensures var before, after := Shown(slots), Shown(slots[id := v]);
            if OnGauge(v) then after == before + {id} else after == before - {id}
  {
  }

  lemma HoldersGone(slots: map<nat, Slot>, id: nat, s: Source)
    ensures Holders(slots - {id}, s) == Holders(slots, s) - {id}
  {
  }

  lemma ShownGone(slots: map<nat, Slot>, id: nat)
    ensures Shown(slots - {id}) == Shown(slots) - {id}
  {
  }

  /** A change that counts for nobody before or after leaves the table true. */
  lemma TableUntouched(sources: map<Source, nat>, slots: map<nat, Slot>, slots': map<nat, Slot>, perSource: nat)
    requires TableTrue(sources, slots, perSource)
    requires forall s: Source :: Holders(slots', s) == Holders(slots, s)
    ensures TableTrue(sources, slots', perSource)
  {
    forall s: Source ensures RowTrue(sources, slots', perSource, s) {
      assert RowTrue(sources, slots, perSource, s);
    }
  }

  lemma TakeKeeps(s: State, id: nat)
    requires Inv(s) && s.permits > 0 && id !in s.slots
    ensures Inv(Next(s, Take(id)))
  {
    var v := Slot(false, None, Held);
    forall src: Source ensures Holders(s.slots[id := v], src) == Holders(s.slots, src) {
      HoldersPut(s.slots, id, v, src);
    }
    ShownPut(s.slots, id, v);
    assert Shown(s.slots) - {id} == Shown(s.slots);
    TableUntouched(s.sources, s.slots, s.slots[id := v], s.perSource);
    assert s.slots[id := v].Keys == s.slots.Keys + {id};
    KeysCount(s.slots, s.slots[id := v]);
    KeysCount(s.slots, s.slots);
  }

  lemma KeysCount(a: map<nat, Slot>, b: map<nat, Slot>)
    ensures |a| == |a.Keys| && |b| == |b.Keys|
  {
  }

  /** One more counted connection for `src`, one more in its entry. */
  lemma TableGains(sources: map<Source, nat>, slots: map<nat, Slot>, perSource: nat, id: nat, src: Source, open: bool)
    requires TableTrue(sources, slots, perSource) && id in slots && slots[id].source == None
    requires Tally(sources, src) < perSource
    ensures TableTrue(sources[src := Tally(sources, src) + 1], slots[id := Slot(open, Some(src), Held)], perSource)
  {
    hide Holders;
    var v := Slot(open, Some(src), Held);
    var more, slots' := sources[src := Tally(sources, src) + 1], slots[id := v];
    forall s: Source
      ensures RowTrue(more, slots', perSource, s)
    {
      assert RowTrue(sources, slots, perSource, s);
      NotHolder(slots, id, s);
      HoldersPut(slots, id, v, s);
      assert Holders(slots, s) - {id} == Holders(slots, s);
    }
  }

  lemma NotHolder(slots: map<nat, Slot>, id: nat, s: Source)
    ensures id in Holders(slots, s) <==> id in slots && CountedFor(slots[id], s)
  {
  }

  /** One fewer, and the entry goes with the last. */
  lemma TableLoses(sources: map<Source, nat>, slots: map<nat, Slot>, perSource: nat, id: nat)
    requires TableTrue(sources, slots, perSource) && id in slots && slots[id].phase == Held
    ensures TableTrue(Release(sources, slots[id].source), slots[id := slots[id].(phase := SourceReleased)], perSource)
  {
    hide Holders;
    var v := slots[id].(phase := SourceReleased);
    var less, slots' := Release(sources, slots[id].source), slots[id := v];
    forall s: Source
      ensures RowTrue(less, slots', perSource, s)
    {
      assert RowTrue(sources, slots, perSource, s);
      NotHolder(slots, id, s);
      HoldersPut(slots, id, v, s);
      if !CountedFor(slots[id], s) {
        assert Holders(slots, s) - {id} == Holders(slots, s);
      }
    }
  }

  /** A slot counted for nobody, changed into another. */
  lemma TableIgnores(sources: map<Source, nat>, slots: map<nat, Slot>, perSource: nat, id: nat, v: Slot)
    requires TableTrue(sources, slots, perSource) && id in slots
    requires forall s: Source :: !CountedFor(slots[id], s) && !CountedFor(v, s)
    ensures TableTrue(sources, slots[id := v], perSource)
  {
    hide Holders;
    forall s: Source ensures Holders(slots[id := v], s) == Holders(slots, s) {
      NotHolder(slots, id, s);
      HoldersPut(slots, id, v, s);
      assert Holders(slots, s) - {id} == Holders(slots, s);
    }
    TableUntouched(sources, slots, slots[id := v], perSource);
  }

  lemma SameCount(slots: map<nat, Slot>, id: nat, v: Slot)
    requires id in slots
    ensures |slots[id := v]| == |slots|
  {
    assert slots[id := v].Keys == slots.Keys;
    KeysCount(slots, slots[id := v]);
  }

  lemma GaugeMoves(slots: map<nat, Slot>, id: nat, v: Slot)
    requires id in slots
    ensures |Shown(slots[id := v])|
            == |Shown(slots)| + (if OnGauge(v) then 1 else 0) - (if OnGauge(slots[id]) then 1 else 0)
  {
    ShownPut(slots, id, v);
    if !OnGauge(slots[id]) {
      assert Shown(slots) - {id} == Shown(slots);
    } else if OnGauge(v) {
      assert Shown(slots) + {id} == Shown(slots);
    }
  }

  lemma OpenKeeps(s: State, id: nat, source: Source, exempt: bool)
    requires Inv(s) && Enabled(s, Open(id, source, exempt))
    ensures Inv(OpenSlot(s, id, source, exempt).1)
  {
    hide TableTrue, Shown;
    var counted := s.perSource > 0 && !exempt;
    var v := Slot(true, if counted then Some(source) else None, Held);
    SameCount(s.slots, id, v);
    GaugeMoves(s.slots, id, v);
    if !counted {
      TableIgnores(s.sources, s.slots, s.perSource, id, v);
    } else if Tally(s.sources, source) < s.perSource {
      TableGains(s.sources, s.slots, s.perSource, id, source, true);
      assert s.sources[source := Tally(s.sources, source)][source := Tally(s.sources, source) + 1]
             == s.sources[source := Tally(s.sources, source) + 1];
    } else {
      assert s.sources[source := Tally(s.sources, source)] == s.sources;
    }
  }

  /** `open` on a slot that already holds a connection would break the count: the
      invariant is kept exactly because each slot is opened once. */
  lemma SecondOpenBreaks(s: State, id: nat, source: Source, exempt: bool)
    requires Inv(s) && id in s.slots && s.slots[id].open && s.slots[id].phase == Held
    requires OpenSlot(s, id, source, exempt).0
    ensures !Inv(OpenSlot(s, id, source, exempt).1)
  {
    hide TableTrue, Shown;
    GaugeMoves(s.slots, id, Slot(true, None, Held));
    GaugeMoves(s.slots, id, Slot(true, Some(source), Held));
  }

  lemma DropKeeps(s: State, step: Step)
    requires Inv(s) && Enabled(s, step) && (step.ReleaseSource? || step.CloseGauge?)
    ensures Inv(Next(s, step))
  {
    hide TableTrue, Shown;
    var id := step.id;
    var v := s.slots[id].(phase := if step.ReleaseSource? then SourceReleased else GaugeClosed);
    SameCount(s.slots, id, v);
    GaugeMoves(s.slots, id, v);
    if step.ReleaseSource? {
      TableLoses(s.sources, s.slots, s.perSource, id);
    } else {
      TableIgnores(s.sources, s.slots, s.perSource, id, v);
    }
  }

  lemma ReturnKeeps(s: State, id: nat)
    requires Inv(s) && Enabled(s, ReturnPermit(id))
    ensures Inv(Next(s, ReturnPermit(id)))
  {
    var rest := s.slots - {id};
    forall src: Source ensures Holders(rest, src) == Holders(s.slots, src) {
      HoldersGone(s.slots, id, src);
      NotHolder(s.slots, id, src);
    }
    ShownGone(s.slots, id);
    assert Shown(s.slots) - {id} == Shown(s.slots);
    TableUntouched(s.sources, s.slots, rest, s.perSource);
    assert rest.Keys == s.slots.Keys - {id};
    KeysCount(s.slots, rest);
  }

  lemma StepKeeps(s: State, step: Step)
    requires Inv(s) && Enabled(s, step)
    ensures Inv(Next(s, step)) && Next(s, step).limit == s.limit && Next(s, step).perSource == s.perSource
  {
    hide Inv;
    match step
    case Take(id) => TakeKeeps(s, id);
    case Open(id, source, exempt) => OpenKeeps(s, id, source, exempt);
    case ReturnPermit(id) => ReturnKeeps(s, id);
    case _ => DropKeeps(s, step);
  }

  // ---- Every interleaving

  /** `t` follows from `s` by `run`, one enabled step at a time. */
  ghost predicate Leads(s: State, run: seq<Step>, t: State)
    decreases |run|
  {
    if run == [] then s == t else Enabled(s, run[0]) && Leads(Next(s, run[0]), run[1..], t)
  }

  lemma {:induction false} RunKeeps(s: State, run: seq<Step>, t: State)
    requires Inv(s) && Leads(s, run, t)
    ensures Inv(t) && t.limit == s.limit && t.perSource == s.perSource
    decreases |run|
  {
    hide Inv, Next, Enabled;
    if run != [] {
      StepKeeps(s, run[0]);
      RunKeeps(Next(s, run[0]), run[1..], t);
    }
  }

  /** Every source in `some` has a connection of its own. */
  lemma {:induction false} SourcesFit(slots: map<nat, Slot>, some: set<Source>) returns (ids: set<nat>)
    requires forall s :: s in some ==> Holders(slots, s) != {}
    ensures |some| <= |ids| && ids <= slots.Keys
    ensures forall id :: id in ids ==> slots[id].source.Some? && slots[id].source.value in some
    decreases |some|
  {
    if some == {} {
      ids := {};
    } else {
      var s :| s in some;
      var id :| id in Holders(slots, s);
      var rest := SourcesFit(slots, some - {s});
      assert id !in rest;
      ids := rest + {id};
    }
  }

  lemma TableBounded(s: State)
    requires Inv(s)
    ensures |s.sources| <= |s.slots| <= s.limit
  {
    forall src | src in s.sources ensures Holders(s.slots, src) != {} {
      assert RowTrue(s.sources, s.slots, s.perSource, src);
    }
    var ids := SourcesFit(s.slots, s.sources.Keys);
    Subset(ids, s.slots.Keys);
    assert |s.sources| == |s.sources.Keys|;
    KeysCount(s.slots, s.slots);
  }

  lemma {:induction false} Subset(a: set<nat>, b: set<nat>)
    requires a <= b
    ensures |a| <= |b|
    decreases |a|
  {
    if a != {} {
      var x :| x in a;
      Subset(a - {x}, b - {x});
    }
  }

  /** In every state any interleaving reaches: live slots never exceed the ceiling
      and permits account for the rest; the table's count for a source is its live
      counted connections, within the source's share, with an entry exactly while
      there are some; so the table is no larger than the ceiling; and the gauge is
      the open connections. */
  lemma EveryRun(limit: nat, perSource: nat, run: seq<Step>, t: State)
    requires Leads(Start(limit, perSource), run, t)
    ensures |t.slots| + t.permits == limit && |t.sources| <= |t.slots| <= limit
    ensures t.gauge == |Shown(t.slots)| >= 0
    ensures forall s: Source ::
      Tally(t.sources, s) == |Holders(t.slots, s)| <= perSource && (s in t.sources <==> Tally(t.sources, s) > 0)
    ensures t.limit == limit && t.perSource == perSource
  {
    StartInv(limit, perSource);
    RunKeeps(Start(limit, perSource), run, t);
    TableBounded(t);
    forall s: Source
      ensures Tally(t.sources, s) == |Holders(t.slots, s)| <= perSource && (s in t.sources <==> Tally(t.sources, s) > 0)
    {
      assert RowTrue(t.sources, t.slots, t.perSource, s);
    }
  }

  /** In every reachable state a connection is admitted exactly when its source is
      exempt, there is no per-source limit, or the source's live counted connections
      are fewer than its share; a refusal changes nothing; and a slot can be taken
      exactly while fewer than the ceiling live. */
  lemma AdmittedIff(limit: nat, perSource: nat, run: seq<Step>, t: State, id: nat, source: Source, exempt: bool)
    requires Leads(Start(limit, perSource), run, t) && Enabled(t, Open(id, source, exempt))
    ensures var r := OpenSlot(t, id, source, exempt);
            && (r.0 <==> exempt || perSource == 0 || |Holders(t.slots, source)| < perSource)
            && (!r.0 ==> r.1 == t)
    ensures t.permits > 0 <==> |t.slots| < limit
  {
    EveryRun(limit, perSource, run, t);
    assert Tally(t.sources, source) == |Holders(t.slots, source)|;
    assert source in t.sources ==> t.sources[source := t.sources[source]] == t.sources;
  }

  // ---- The shared object

  class Listener {
    const limit: nat
    const perSource: nat
    var permits: nat
    var sources: map<Source, nat>
    var gauge: int
    var slots: map<nat, Slot>

    ghost function Model(): State
      reads this
    {
      State(limit, perSource, permits, sources, gauge, slots)
    }

    ghost predicate Valid()
      reads this
    {
      Inv(Model())
    }

    constructor (limit: nat, perSource: nat)
      ensures Model() == Start(limit, perSource) && Valid()
    {
      this.limit, this.perSource, permits, sources, gauge, slots := limit, perSource, limit, map[], 0, map[];
      StartInv(limit, perSource);
    }

    /** One permit, if there is one now; a waiter tries again when there is. */
    method TryTake(id: nat) returns (taken: bool)
      requires Valid() && id !in slots
      modifies this`permits, this`slots
      ensures Valid() && taken == old(permits > 0)
      ensures Model() == if taken then Next(old(Model()), Take(id)) else old(Model())
    {
      taken := permits > 0;
      if taken {
        TakeKeeps(Model(), id);
        permits, slots := permits - 1, slots[id := Slot(false, None, Held)];
      }
    }

    /** `Slot::open`. */
    method OpenConnection(id: nat, source: Source, exempt: bool) returns (admitted: bool)
      requires Valid() && Enabled(Model(), Open(id, source, exempt))
      modifies this`sources, this`gauge, this`slots
      ensures Valid() && (admitted, Model()) == OpenSlot(old(Model()), id, source, exempt)
    {
      OpenKeeps(Model(), id, source, exempt);
      hide Inv;
      ghost var next := OpenSlot(Model(), id, source, exempt).1;
      var counted: Option<Source> := None;
      if perSource > 0 && !exempt {
        if source !in sources {
          sources := sources[source := 0];
        }
        if sources[source] >= perSource {
          assert sources == next.sources;
          return false;
        }
        sources := sources[source := sources[source] + 1];
        counted := Some(source);
      }
      slots := slots[id := Slot(true, counted, Held)];
      gauge := gauge + 1;
      assert sources == next.sources && slots == next.slots;
      admitted := true;
    }

    /** The first step of `drop`: the table, under its lock. */
    method ReleaseFromTable(id: nat)
      requires Valid() && Enabled(Model(), ReleaseSource(id))
      modifies this`sources, this`slots
      ensures Valid() && Model() == Next(old(Model()), ReleaseSource(id))
    {
      DropKeeps(Model(), ReleaseSource(id));
      hide Inv;
      ghost var next := Next(Model(), ReleaseSource(id));
      var source := slots[id].source;
      if source.Some? && source.value in sources {
        var n := sources[source.value];
        sources := sources[source.value := if n == 0 then 0 else n - 1];
        if sources[source.value] == 0 {
          sources := sources - {source.value};
        }
      }
      slots := slots[id := slots[id].(phase := SourceReleased)];
      assert sources == next.sources && slots == next.slots;
    }

    /** The second: the gauge. */
    method CloseOnGauge(id: nat)
      requires Valid() && Enabled(Model(), CloseGauge(id))
      modifies this`gauge, this`slots
      ensures Valid() && Model() == Next(old(Model()), CloseGauge(id))
    {
      DropKeeps(Model(), CloseGauge(id));
      if slots[id].open {
        gauge := gauge - 1;
      }
      slots := slots[id := slots[id].(phase := GaugeClosed)];
    }

    /** The third: the permit. */
    method ReleasePermit(id: nat)
      requires Valid() && Enabled(Model(), ReturnPermit(id))
      modifies this`permits, this`slots
      ensures Valid() && Model() == Next(old(Model()), ReturnPermit(id))
    {
      ReturnKeeps(Model(), id);
      permits, slots := permits + 1, slots - {id};
    }
  }

  lemma StartInv(limit: nat, perSource: nat)
    ensures Inv(Start(limit, perSource))
  {
    forall s: Source ensures RowTrue(map[], map[], perSource, s) {
      assert Holders(map[], s) == {};
    }
  }
}
