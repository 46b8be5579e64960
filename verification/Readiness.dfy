/** The one-way latch behind `/readyz`: a flag for each zone waited for and a count
    of those outstanding, with `arrived` split where other calls can come between. */
module Readiness {
  import opened Octets

  // ---- What is waited for

  /** The names registered: lowercased, duplicates collapsed, in first order. */
  function Registered(names: seq<bytes>): (r: seq<bytes>) {
    if names == [] then []
    else
      var before, name := Registered(names[..|names| - 1]), Fold(names[|names| - 1]);
      if name in before then before else before + [name]
  }

  ghost predicate Distinct(s: seq<bytes>) {
    forall i, j :: 0 <= i < j < |s| ==> s[i] != s[j]
  }

  /** Each zone once, and every zone named in any case. */
  lemma {:induction false} RegisteredOnce(names: seq<bytes>)
    ensures Distinct(Registered(names))
    ensures forall x :: x in Registered(names) <==> exists i :: 0 <= i < |names| && Fold(names[i]) == x
    decreases |names|
  {
    if names != [] {
      var init, last := names[..|names| - 1], names[|names| - 1];
      RegisteredOnce(init);
      forall x
        ensures x in Registered(names) <==> exists i :: 0 <= i < |names| && Fold(names[i]) == x
      {
        SplitLast(names, x);
      }
    }
  }

  lemma SplitLast(names: seq<bytes>, x: bytes)
    requires names != []
    ensures var init := names[..|names| - 1];
            (exists i :: 0 <= i < |names| && Fold(names[i]) == x)
            <==> (exists i :: 0 <= i < |init| && Fold(init[i]) == x) || Fold(names[|names| - 1]) == x
  {
    var init := names[..|names| - 1];
    forall i | 0 <= i < |init| ensures Fold(init[i]) == Fold(names[i]) {
    }
  }

  /** The loop of `waiting_for`. */
  method WaitingFor(names: seq<bytes>) returns (waiting: seq<bytes>)
    ensures waiting == Registered(names)
  {
    waiting := [];
    var i := 0;
    while i < |names|
      invariant i <= |names| && waiting == Registered(names[..i])
    {
      assert names[..i + 1][..i] == names[..i];
      var name, known, k := Fold(names[i]), false, 0;
      while k < |waiting|
        invariant k <= |waiting| && known == (name in waiting[..k])
      {
        assert waiting[..k + 1] == waiting[..k] + [waiting[k]];
        known := known || waiting[k] == name;
        k := k + 1;
      }
      assert waiting[..k] == waiting;
      if !known {
        waiting := waiting + [name];
      }
      i := i + 1;
    }
    assert names[..i] == names;
  }

  // ---- The protocol

  /** `inFlight` are the calls between their compare-exchange and their decrement. */
  datatype State = State(names: seq<bytes>, arrived: seq<bool>, outstanding: int, inFlight: set<nat>)

  datatype Step =
    | Swap(call: nat, name: bytes)      // find the entry; flag it if it was not flagged
    | Subtract(call: nat)               // the winner counts it off

  predicate Shaped(s: State) {
    |s.arrived| == |s.names|
  }

  predicate Enabled(s: State, step: Step) {
    match step
    case Swap(call, _) => call !in s.inFlight
    case Subtract(call) => call in s.inFlight
  }

  /** Where `name` is waited for, if it is. */
  function Find(names: seq<bytes>, name: bytes, i: nat): (k: nat)
    requires i <= |names|
    ensures i <= k <= |names| && (k < |names| ==> names[k] == name)
    ensures forall j :: i <= j < k ==> names[j] != name
    decreases |names| - i
  {
    if i == |names| || names[i] == name then i else Find(names, name, i + 1)
  }

  /** Whether the call won the flag, and the state after. */
  function SwapFlag(s: State, call: nat, name: bytes): (r: (bool, State))
    requires Shaped(s)
  {
    var i := Find(s.names, Fold(name), 0);
    if i == |s.names| || s.arrived[i] then (false, s)
    else (true, s.(arrived := s.arrived[i := true], inFlight := s.inFlight + {call}))
  }

  function Next(s: State, step: Step): State
    requires Shaped(s) && Enabled(s, step)
  {
    match step
    case Swap(call, name) => SwapFlag(s, call, name).1
    case Subtract(call) => s.(outstanding := s.outstanding - 1, inFlight := s.inFlight - {call})
  }

  function Missing(arrived: seq<bool>): set<nat> {
    set i | 0 <= i < |arrived| && !arrived[i]
  }

  /** The count is the names not yet arrived plus the calls yet to count one off. */
  ghost predicate Inv(s: State) {
    Shaped(s) && s.outstanding == |Missing(s.arrived)| + |s.inFlight|
  }

  function Start(names: seq<bytes>): State {
    State(names, seq(|names|, _ => false), |names|, {})
  }

  lemma StartInv(names: seq<bytes>)
    ensures Inv(Start(names))
  {
    AllMissing(|names|);
  }

  lemma {:induction false} AllMissing(n: nat)
    ensures |Missing(seq(n, _ => false))| == n
  {
    if n > 0 {
      AllMissing(n - 1);
      assert Missing(seq(n, _ => false)) == Missing(seq(n - 1, _ => false)) + {n - 1};
    }
  }

  /** Every step keeps it, and a decrement never takes the count below zero. */
  lemma StepKeeps(s: State, step: Step)
    requires Inv(s) && Enabled(s, step)
    ensures Inv(Next(s, step)) && Next(s, step).outstanding >= 0 && Next(s, step).names == s.names
    ensures forall i :: 0 <= i < |s.arrived| && s.arrived[i] ==> Next(s, step).arrived[i]
  {
    if step.Swap? {
      var i := Find(s.names, Fold(step.name), 0);
      if i < |s.names| && !s.arrived[i] {
        assert Missing(s.arrived[i := true]) == Missing(s.arrived) - {i};
      }
    }
  }

  ghost predicate Leads(s: State, run: seq<Step>, t: State)
    decreases |run|
  {
    if run == [] then s == t
    else Shaped(s) && Enabled(s, run[0]) && Leads(Next(s, run[0]), run[1..], t)
  }

  lemma {:induction false} RunKeeps(s: State, run: seq<Step>, t: State)
    requires Inv(s) && Leads(s, run, t)
    ensures Inv(t) && t.names == s.names
    ensures forall i :: 0 <= i < |s.arrived| && s.arrived[i] ==> t.arrived[i]
    decreases |run|
  {
    hide Next, Missing;
    if run != [] {
      StepKeeps(s, run[0]);
      RunKeeps(Next(s, run[0]), run[1..], t);
    }
  }

  predicate Ready(s: State) {
    s.outstanding == 0
  }

  /** In every interleaving the count is right and never negative; ready means every
      name has arrived and no call is half done, and only then; a call that holds
      the flag can always count it off. */
  lemma EveryRun(names: seq<bytes>, run: seq<Step>, t: State)
    requires Leads(Start(Registered(names)), run, t)
    ensures Shaped(t) && t.outstanding == |Missing(t.arrived)| + |t.inFlight|
    ensures t.inFlight != {} ==> t.outstanding >= 1
    ensures Ready(t) <==> t.inFlight == {} && forall i :: 0 <= i < |t.arrived| ==> t.arrived[i]
  {
    StartInv(Registered(names));
    RunKeeps(Start(Registered(names)), run, t);
    if Missing(t.arrived) == {} {
      forall i | 0 <= i < |t.arrived| ensures t.arrived[i] {
        assert i !in Missing(t.arrived);
      }
    }
  }

  /** Ready is permanent. */
  lemma {:induction false} ReadyStays(names: seq<bytes>, run: seq<Step>, t: State, more: seq<Step>, u: State)
    requires Leads(Start(Registered(names)), run, t) && Ready(t) && Leads(t, more, u)
    ensures Ready(u)
  {
    StartInv(Registered(names));
    RunKeeps(Start(Registered(names)), run, t);
    ReadyFrom(t, more, u);
  }

  lemma {:induction false} ReadyFrom(t: State, more: seq<Step>, u: State)
    requires Inv(t) && Ready(t) && Leads(t, more, u)
    ensures u == t
    decreases |more|
  {
    if more != [] {
      assert t.inFlight == {} && Missing(t.arrived) == {};
      if more[0].Swap? {
        var i := Find(t.names, Fold(more[0].name), 0);
        assert i !in Missing(t.arrived);
      }
      ReadyFrom(t, more[1..], u);
    }
  }

  ghost predicate Called(run: seq<Step>, name: bytes) {
    exists k :: 0 <= k < |run| && run[k].Swap? && Fold(run[k].name) == name
  }

  lemma CalledFirst(run: seq<Step>, name: bytes)
    requires run != []
    ensures Called(run, name) <==> (run[0].Swap? && Fold(run[0].name) == name) || Called(run[1..], name)
  {
    forall k | 0 <= k < |run| - 1 ensures run[1..][k] == run[k + 1] {
    }
    if Called(run[1..], name) {
      var k :| 0 <= k < |run| - 1 && run[1..][k].Swap? && Fold(run[1..][k].name) == name;
      assert run[k + 1].Swap?;
    }
  }

  /** A name is flagged exactly once some call has named it, in whatever case. */
  lemma {:induction false} FlaggedIffCalled(s: State, run: seq<Step>, t: State, i: nat)
    requires Inv(s) && Distinct(s.names) && Leads(s, run, t) && i < |s.names|
    ensures |t.arrived| == |s.names| && (t.arrived[i] <==> s.arrived[i] || Called(run, s.names[i]))
    decreases |run|
  {
    if run != [] {
      hide Called, Missing;
      StepKeeps(s, run[0]);
      CalledFirst(run, s.names[i]);
      FlaggedIffCalled(Next(s, run[0]), run[1..], t, i);
      if run[0].Swap? {
        var k := Find(s.names, Fold(run[0].name), 0);
        assert k < |s.names| ==> (k == i <==> s.names[k] == s.names[i]);
      }
    }
  }

  /** Ready exactly when every zone waited for has been reported and every report
      that counted has finished. */
  lemma ReadyIffAllReported(names: seq<bytes>, run: seq<Step>, t: State)
    requires Leads(Start(Registered(names)), run, t)
    ensures Ready(t) <==> t.inFlight == {} && forall n :: n in names ==> Called(run, Fold(n))
  {
    hide Called, Registered;
    var s := Start(Registered(names));
    StartInv(s.names);
    RegisteredOnce(names);
    EveryRun(names, run, t);
    RunKeeps(s, run, t);
    forall i | 0 <= i < |s.names| ensures t.arrived[i] <==> Called(run, s.names[i]) {
      FlaggedIffCalled(s, run, t, i);
    }
    forall n | n in names ensures exists i :: 0 <= i < |s.names| && s.names[i] == Fold(n) {
      var i :| 0 <= i < |names| && names[i] == n;
      assert Fold(n) in s.names;
    }
    forall i | 0 <= i < |s.names| ensures exists n :: n in names && Fold(n) == s.names[i] {
      assert s.names[i] in s.names;
      var k :| 0 <= k < |names| && Fold(names[k]) == s.names[i];
      assert names[k] in names;
    }
  }

  /** The names from `i` on whose flag is not set. */
  function Unarrived(names: seq<bytes>, arrived: seq<bool>, i: nat): (r: seq<bytes>)
    requires i <= |names| == |arrived|
    ensures r == [] <==> forall j :: i <= j < |arrived| ==> arrived[j]
    decreases |names| - i
  {
    if i == |names| then []
    else if arrived[i] then Unarrived(names, arrived, i + 1)
    else [names[i]] + Unarrived(names, arrived, i + 1)
  }

  /** Each name not arrived stands in the list, and after it just those registered later:
      the list is all of them, in order of registration. */
  lemma {:induction false} UnarrivedInOrder(names: seq<bytes>, arrived: seq<bool>, i: nat, j: nat) returns (k: nat)
    requires i <= j < |names| == |arrived| && !arrived[j]
    ensures var r := Unarrived(names, arrived, i);
            k < |r| && r[k] == names[j] && r[k + 1..] == Unarrived(names, arrived, j + 1)
    ensures (forall h :: i <= h < j ==> arrived[h]) ==> k == 0
    decreases j - i
  {
    var r := Unarrived(names, arrived, i);
    if i == j {
      k := 0;
    } else {
      var rest := UnarrivedInOrder(names, arrived, i + 1, j);
      k := if arrived[i] then rest else rest + 1;
      if !arrived[i] {
        assert r[1..] == Unarrived(names, arrived, i + 1);
      }
    }
  }

  // ---- The shared object

  class Latch {
    const waiting: seq<bytes>
    const flags: array<bool>
    var outstanding: int
    ghost var inFlight: set<nat>

    ghost function Model(): State
      reads this, flags
    {
      State(waiting, flags[..], outstanding, inFlight)
    }

    ghost predicate Valid()
      reads this, flags
    {
      Inv(Model())
    }

    constructor (names: seq<bytes>)
      ensures fresh(flags) && Model() == Start(Registered(names)) && Valid()
    {
      var registered := WaitingFor(names);
      waiting := registered;
      flags := new bool[|registered|](_ => false);
      outstanding := |registered|;
      inFlight := {};
      new;
      StartInv(waiting);
      assert flags[..] == Start(waiting).arrived;
    }

    /** `arrived` up to and including its compare-exchange. */
    method FlagArrival(name: bytes, ghost call: nat) returns (won: bool)
      requires Valid() && call !in inFlight
      modifies this`inFlight, flags
      ensures Valid() && (won, Model()) == SwapFlag(old(Model()), call, name)
    {
      StepKeeps(Model(), Swap(call, name));
      var folded, i := Fold(name), 0;
      while i < |waiting| && waiting[i] != folded
        invariant i <= |waiting| && Find(waiting, folded, 0) == Find(waiting, folded, i)
      {
        i := i + 1;
      }
      if i == |waiting| || flags[i] {
        return false;
      }
      flags[i] := true;
      inFlight := inFlight + {call};
      assert flags[..] == old(flags[..])[i := true];
      won := true;
    }

    /** What is left of `arrived` for the call that won: it never wraps the count. */
    method CountOff(ghost call: nat)
      requires Valid() && call in inFlight
      modifies this`inFlight, this`outstanding
      ensures Valid() && old(outstanding) >= 1 && Model() == Next(old(Model()), Subtract(call))
    {
      StepKeeps(Model(), Subtract(call));
      outstanding := outstanding - 1;
      inFlight := inFlight - {call};
    }

    method IsReady() returns (ready: bool)
      requires Valid()
      ensures ready == Ready(Model())
      ensures ready ==> forall i :: 0 <= i < flags.Length ==> flags[i]
    {
      ready := outstanding == 0;
      if ready {
        forall i | 0 <= i < flags.Length ensures flags[i] {
          assert Missing(flags[..]) == {};
          assert i !in Missing(flags[..]);
        }
      }
    }

    /** `pending`: nothing, once ready. */
    method Pending() returns (missing: seq<bytes>)
      requires Valid()
      ensures missing == Unarrived(waiting, flags[..], 0)
      ensures Ready(Model()) ==> missing == []
    {
      var i := 0;
      missing := [];
      while i < |waiting|
        invariant i <= |waiting| && missing + Unarrived(waiting, flags[..], i) == Unarrived(waiting, flags[..], 0)
      {
        if !flags[i] {
          Assoc(missing, [waiting[i]], Unarrived(waiting, flags[..], i + 1));
          missing := missing + [waiting[i]];
        }
        i := i + 1;
      }
      assert missing + [] == missing;
      var ready := IsReady();
    }
  }
}
