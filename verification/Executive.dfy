/**
 The cycle executive: modules are initialized once, then read, written and updated in every cycle
 until the end is requested. A module's callback may request the end; what else it does is left open.
 Durations are in nanoseconds and come from outside.
 */
module Executive {
  import opened Sequences

  datatype ExecutiveState = INIT | EXECUTION | END

  datatype Phase = Init | Read | Write | Update

  datatype Event = Event(phase: Phase, id: int)

  /** What the clock shows of one cycle: until the modules are done, and until after the sleep. */
  datatype Timing = Timing(processing: nat, total: nat)

  const MILLISECOND: nat := 1_000_000

  function Max(a: nat, b: nat): nat {
    if a < b then b else a
  }

  function Visits(ids: seq<int>, phase: Phase): (r: seq<Event>)
    ensures |r| == |ids| && forall i :: 0 <= i < |ids| ==> r[i] == Event(phase, ids[i])
  {
    seq(|ids|, i requires 0 <= i < |ids| => Event(phase, ids[i]))
  }

  function Cycle(ids: seq<int>): seq<Event> {
    Visits(ids, Read) + Visits(ids, Write) + Visits(ids, Update)
  }

  function Cycles(ids: seq<int>, n: nat): seq<Event> {
    if n == 0 then [] else Cycles(ids, n - 1) + Cycle(ids)
  }

  /** The time accounted for cycles, each no shorter than the minimum. */
  function Accounted(timings: seq<Timing>, minimum: nat): nat {
    if timings == [] then 0 else
      Accounted(timings[..|timings| - 1], minimum) + Max(timings[|timings| - 1].total, minimum)
  }

  predicate Distinct(ids: seq<int>) {
    forall i, j :: 0 <= i < j < |ids| ==> ids[i] != ids[j]
  }

  class Module {
    const id: int

    constructor (id: int)
      ensures this.id == id
    {
      this.id := id;
    }

    /** A callback, in any of the phases. */
    method Run(phase: Phase, exec: Executive)
      modifies exec`trace, exec`currentState
      ensures exec.trace == old(exec.trace) + [Event(phase, id)]
      ensures exec.currentState == old(exec.currentState) || exec.currentState == END
    {
      exec.trace := exec.trace + [Event(phase, id)];
      if * {
        exec.RequestSimulationEnd();
      }
    }
  }

  function IdsOf(modules: seq<Module>): (r: seq<int>)
    ensures |r| == |modules| && forall i :: 0 <= i < |r| ==> r[i] == modules[i].id
  {
    seq(|modules|, i requires 0 <= i < |modules| => modules[i].id)
  }

  lemma OneMore(timings: seq<Timing>, k: nat, minimum: nat, ids: seq<int>)
    requires k < |timings|
    ensures Accounted(timings[..k + 1], minimum) == Accounted(timings[..k], minimum) + Max(timings[k].total, minimum)
    ensures Cycles(ids, k + 1) == Cycles(ids, k) + Cycle(ids)
  {
    assert timings[..k + 1][..k] == timings[..k];
  }

  lemma NothingYet(ids: seq<int>, timings: seq<Timing>, minimum: nat)
    ensures Cycles(ids, 0) == [] && Accounted(timings[..0], minimum) == 0
  {}

  class Executive {
    var submodules: seq<Module>
    var currentState: ExecutiveState
    var currentCycle: nat
    var totalTime: nat
    const cycleMinDuration: nat := 10 * MILLISECOND
    ghost var trace: seq<Event>

    function Ids(): seq<int>
      reads `submodules
    {
      IdsOf(submodules)
    }

    ghost predicate Valid()
      reads `submodules
    {
      Distinct(Ids())
    }

    constructor ()
      ensures Valid() && submodules == [] && currentState == INIT && currentCycle == 0 && totalTime == 0 && trace == []
    {
      submodules, currentState, currentCycle, totalTime, trace := [], INIT, 0, 0, [];
    }

    method RequestSimulationEnd()
      modifies `currentState
      ensures currentState == END
    {
      currentState := END;
    }

    /** A module whose id is taken is not added. */
    method AddModule(m: Module)
      requires Valid()
      modifies `submodules
      ensures Valid()
      ensures submodules == if m.id in old(Ids()) then old(submodules) else old(submodules) + [m]
    {
      for i := 0 to |submodules|
        invariant forall k :: 0 <= k < i ==> submodules[k].id != m.id
      {
        if submodules[i].id == m.id {
          assert Ids()[i] == m.id;
          return;
        }
      }
      assert m.id !in Ids();
      ghost var before := Ids();
      submodules := submodules + [m];
      assert Ids() == before + [m.id];
    }

    /** Lets every module run one phase, in the order of registration. */
    method RunPhase(phase: Phase)
      modifies `trace, `currentState
      ensures trace == old(trace) + Visits(Ids(), phase)
      ensures currentState == old(currentState) || currentState == END
    {
      for i := 0 to |submodules|
        invariant trace == old(trace) + Visits(Ids(), phase)[..i]
        invariant currentState == old(currentState) || currentState == END
      {
        submodules[i].Run(phase, this);
        assert Visits(Ids(), phase)[..i + 1] == Visits(Ids(), phase)[..i] + [Event(phase, submodules[i].id)];
      }
    }

    /** An end requested by a module that is being initialized is forgotten. */
    method Initialize()
      modifies `trace, `currentState
      ensures trace == old(trace) + Visits(Ids(), Init) && currentState == EXECUTION
    {
      RunPhase(Init);
      currentState := EXECUTION;
    }

    /** One cycle. It is completed even when a module requests the end meanwhile. */
    method ExecuteCycle(timing: Timing) returns (exceeded: bool, sleep: nat)
      modifies `trace, `currentState, `currentCycle, `totalTime
      ensures trace == old(trace) + Cycle(Ids())
      ensures currentState == old(currentState) || currentState == END
      ensures currentCycle == old(currentCycle) + 1
      ensures totalTime == old(totalTime) + Max(timing.total, cycleMinDuration)
      ensures timing.total >= 10_000_000 ==> totalTime == old(totalTime) + timing.total
      ensures timing.total < 10_000_000 ==> totalTime == old(totalTime) + 10_000_000
      ensures exceeded <==> timing.processing > 10_000_000
      ensures timing.processing >= 10_000_000 ==> sleep == 0
      ensures timing.processing < 10_000_000 ==> timing.processing + sleep == 10_000_000
    {
      hide Visits, IdsOf;
      RunPhase(Read);
      RunPhase(Write);
      RunPhase(Update);
      Associative(old(trace), Visits(Ids(), Read), Visits(Ids(), Write));
      Associative(old(trace), Visits(Ids(), Read) + Visits(Ids(), Write), Visits(Ids(), Update));
      exceeded, sleep := timing.processing > cycleMinDuration, 0;
      if timing.processing < cycleMinDuration {
        sleep := cycleMinDuration - timing.processing;
      }
      currentCycle := currentCycle + 1;
      totalTime := totalTime + Max(timing.total, cycleMinDuration);
    }

    /** The main loop, over as many cycles as there are timings. It only stops earlier once the end was requested. */
    method ExecuteAll(timings: seq<Timing>) returns (k: nat)
      requires Valid()
      modifies `trace, `currentState, `currentCycle, `totalTime
      ensures Valid() && k <= |timings|
      ensures trace == old(trace) + Cycles(Ids(), k)
      ensures currentCycle == old(currentCycle) + k
      ensures totalTime == old(totalTime) + Accounted(timings[..k], cycleMinDuration)
      ensures totalTime - old(totalTime) >= k * cycleMinDuration
      ensures k < |timings| ==> currentState != EXECUTION
      ensures old(currentState) == EXECUTION && timings != [] ==> k > 0
      ensures old(currentState) != EXECUTION ==> k == 0
    {
      hide Cycle, Cycles, Accounted, Distinct, IdsOf, Max;
      NothingYet(Ids(), timings, cycleMinDuration);
      k := 0;
      while k < |timings| && currentState == EXECUTION
        invariant k <= |timings|
        invariant k == 0 ==> currentState == old(currentState)
        invariant trace == old(trace) + Cycles(Ids(), k)
        invariant currentCycle == old(currentCycle) + k
        invariant totalTime == old(totalTime) + Accounted(timings[..k], cycleMinDuration)
        invariant old(currentState) != EXECUTION ==> k == 0
      {
        var exceeded, sleep := ExecuteCycle(timings[k]);
        OneMore(timings, k, cycleMinDuration, Ids());
        Associative(old(trace), Cycles(Ids(), k), Cycle(Ids()));
        k := k + 1;
      }
      AccountedAtLeast(timings[..k], cycleMinDuration);
    }
  }

  /** Cycles never account for less time than the minimum of each, nor less than was measured. */
  lemma {:induction false} AccountedAtLeast(timings: seq<Timing>, minimum: nat)
    ensures Accounted(timings, minimum) >= |timings| * minimum
    ensures Accounted(timings, minimum) >= Accounted(timings, 0)
    decreases |timings|
  {
    if timings != [] {
      AccountedAtLeast(timings[..|timings| - 1], minimum);
      assert |timings| * minimum == (|timings| - 1) * minimum + minimum;
    }
  }

  lemma {:induction false} CyclesLength(ids: seq<int>, n: nat)
    ensures |Cycles(ids, n)| == 3 * |ids| * n
    decreases n
  {
    if n > 0 {
      CyclesLength(ids, n - 1);
      assert 3 * |ids| * n == 3 * |ids| * (n - 1) + 3 * |ids|;
    }
  }

  /** Where the events of a run stand: cycle by cycle, all reads, then all writes, then all updates. */
  lemma {:induction false} EventsOfRun(ids: seq<int>, n: nat, c: nat, j: nat)
    requires c < n && j < |ids|
    ensures var at := 3 * |ids| * c + j;
      && 0 <= at && at + 2 * |ids| < |Cycles(ids, n)| == 3 * |ids| * n
      && Cycles(ids, n)[at] == Event(Read, ids[j])
      && Cycles(ids, n)[at + |ids|] == Event(Write, ids[j])
      && Cycles(ids, n)[at + 2 * |ids|] == Event(Update, ids[j])
    decreases n
  {
    CyclesLength(ids, n);
    CyclesLength(ids, n - 1);
    if c < n - 1 {
      EventsOfRun(ids, n - 1, c, j);
    } else {
      CycleAt(ids, j);
    }
  }

  lemma CycleAt(ids: seq<int>, j: nat)
    requires j < |ids|
    ensures |Cycle(ids)| == 3 * |ids|
    ensures Cycle(ids)[j] == Event(Read, ids[j])
    ensures Cycle(ids)[j + |ids|] == Event(Write, ids[j])
    ensures Cycle(ids)[j + 2 * |ids|] == Event(Update, ids[j])
  {}
}
