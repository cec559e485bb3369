/**
 The two test drivers side by side: ticks of the publisher and reads of the subscriber in any order. What is proved is
 exactly when a START is served, and when its batch is written before the read that drains it.
 */
module DriverRuns {
  import opened Control
  import opened ControlRuns
  import Executive
  import opened PublisherTest
  import opened Sequences
  import opened Subscriber

  datatype Event = PubTick(matched: bool) | SubRead

  /** One tick of the publisher. After the end of the simulation there are no more. */
  function Tick(setup: Setup, d: Driver, matched: bool): (Driver, Emission) {
    if d.ended then (d, Nothing)
    else
      var (read, stop) := ReadStep(setup, d);
      var (written, sent) := WriteStep(setup, read, matched);
      (written, if stop.Nothing? then sent else stop)
  }

  function Next(setup: Setup, d: Driver, e: Event): (Driver, Emission) {
    if e.SubRead? then (d, Nothing) else Tick(setup, d, e.matched)
  }

  /** The publisher after the events, whatever the flag nobody sets was. */
  function After(setup: Setup, reset: bool, events: seq<Event>): Driver {
    if events == [] then Initial(reset)
    else Next(setup, After(setup, reset, events[..|events| - 1]), events[|events| - 1]).0
  }

  /** What an event sends. */
  function Sends(setup: Setup, reset: bool, events: seq<Event>, k: nat): Emission
    requires k < |events|
  {
    Next(setup, After(setup, reset, events[..k]), events[k]).1
  }

  function ActionOf(setup: Setup, e: Event, sent: Emission): Action {
    if e.SubRead? then ReadTick
    else
      match sent
      case StartSent(testId) => Start(testId, setup.messages, setup.loan)
      case StopSent(testId) => Stop(testId)
      case _ => Pass
  }

  /** The events as the control channel sees them, one action each. */
  function Actions(setup: Setup, reset: bool, events: seq<Event>): (r: seq<Action>)
    ensures |r| == |events|
    ensures forall k :: 0 <= k < |events| ==> r[k] == ActionOf(setup, events[k], Sends(setup, reset, events, k))
  {
    seq(|events|, k requires 0 <= k < |events| => ActionOf(setup, events[k], Sends(setup, reset, events, k)))
  }

  lemma AfterStep(setup: Setup, reset: bool, events: seq<Event>, k: nat)
    requires k < |events|
    ensures After(setup, reset, events[..k + 1]) == Next(setup, After(setup, reset, events[..k]), events[k]).0
  {
    assert events[..k + 1][..k] == events[..k];
  }

  // ----- what the publisher does over any run

  /**
   Kept by every tick. A rest that nobody asked for ends before the first START, and the ids of the test start at zero
   for every batch.
   */
  ghost predicate Steady(setup: Setup, d: Driver) {
    && d.resets <= CYCLES_RESET && (!d.reset ==> d.resets == 0)
    && !d.phase.WaitingMatch?
    && (d.reset && d.send ==> d.phase.Announce? && d.cycle <= d.resets)
    && (d.phase.Announce? || d.send ==> d.entityId == 0)
    && 0 <= d.test && (d.ended || d.test == 0 || d.test < setup.maxTest)
  }

  lemma NextKeepsSteady(setup: Setup, d: Driver, e: Event)
    requires Steady(setup, d)
    ensures Steady(setup, Next(setup, d, e).0)
  {}

  lemma {:induction false} EveryRunIsSteady(setup: Setup, reset: bool, events: seq<Event>)
    ensures Steady(setup, After(setup, reset, events))
    decreases |events|
  {
    hide Steady, Next;
    if events == [] {
      assert Steady(setup, Initial(reset)) by { StartsSteady(setup, reset); }
    } else {
      EveryRunIsSteady(setup, reset, events[..|events| - 1]);
      NextKeepsSteady(setup, After(setup, reset, events[..|events| - 1]), events[|events| - 1]);
    }
  }

  lemma StartsSteady(setup: Setup, reset: bool)
    ensures Steady(setup, Initial(reset))
  {}

  /** A tick sends one thing at most, so nothing of what either phase sends goes unseen. */
  lemma OneEmission(setup: Setup, d: Driver, matched: bool)
    requires Steady(setup, d)
    ensures var (read, stop) := ReadStep(setup, d);
      stop.Nothing? || WriteStep(setup, read, matched).1.Nothing?
  {}

  function Count(setup: Setup, reset: bool, events: seq<Event>, wanted: Emission -> bool): nat {
    if events == [] then 0 else
      var last := |events| - 1;
      Count(setup, reset, events[..last], wanted) + if wanted(Sends(setup, reset, events, last)) then 1 else 0
  }

  /** How many STARTs were sent, and how many batches written. */
  function Announced(setup: Setup, reset: bool, events: seq<Event>): nat {
    Count(setup, reset, events, (e: Emission) => e.StartSent?)
  }

  function Written(setup: Setup, reset: bool, events: seq<Event>): nat {
    Count(setup, reset, events, (e: Emission) => e.BatchSent?)
  }

  /** Between a START and its batch there is one START more than batches; otherwise as many. */
  ghost predicate Ledger(setup: Setup, d: Driver, announced: nat, written: nat) {
    && announced == written + (if d.phase.Streaming? && d.send then 1 else 0)
    && d.nextLoaned == if setup.loan then written * setup.messages else 0
  }

  lemma NextKeepsLedger(setup: Setup, d: Driver, e: Event, announced: nat, written: nat)
    requires Steady(setup, d) && Ledger(setup, d, announced, written)
    ensures var (after, sent) := Next(setup, d, e);
      && Ledger(setup, after, announced + (if sent.StartSent? then 1 else 0),
        written + if sent.BatchSent? then 1 else 0)
      && (sent.BatchSent? ==> sent.first == if setup.loan then written * setup.messages else 0)
  {
    assert (written + 1) * setup.messages == written * setup.messages + setup.messages;
  }

  lemma {:induction false} EveryRunKeepsLedger(setup: Setup, reset: bool, events: seq<Event>)
    ensures Ledger(setup, After(setup, reset, events), Announced(setup, reset, events), Written(setup, reset, events))
    decreases |events|
  {
    hide Ledger, Next, Steady;
    if events == [] {
      StartsEven(setup, reset);
    } else {
      var front, last := events[..|events| - 1], |events| - 1;
      EveryRunKeepsLedger(setup, reset, front);
      EveryRunIsSteady(setup, reset, front);
      NextKeepsLedger(setup, After(setup, reset, front), events[last], Announced(setup, reset, front),
        Written(setup, reset, front));
    }
  }

  lemma StartsEven(setup: Setup, reset: bool)
    ensures Ledger(setup, Initial(reset), 0, 0)
  {}

  /** In normal mode every batch starts over with the ids; in loan mode each goes on behind the one before. */
  lemma {:induction false} BatchIdsOfRun(setup: Setup, reset: bool, events: seq<Event>, k: nat)
    requires k < |events| && Sends(setup, reset, events, k).BatchSent?
    ensures Sends(setup, reset, events, k).first
      == if setup.loan then Written(setup, reset, events[..k]) * setup.messages else 0
  {
    hide Ledger, Next, Steady;
    var front := events[..k];
    EveryRunKeepsLedger(setup, reset, front);
    EveryRunIsSteady(setup, reset, front);
    NextKeepsLedger(setup, After(setup, reset, front), events[k], Announced(setup, reset, front),
      Written(setup, reset, front));
  }

  // ----- from a START to its STOP

  const TICKS_TO_STOP: nat := 7

  /** The ticks after the START at `k` and before `n`, counted from the first one that finds the counters matched. */
  function Countdown(events: seq<Event>, k: nat, n: nat): nat
    requires n <= |events|
  {
    if n <= k + 1 then 0 else
      var c := Countdown(events, k, n - 1);
      match events[n - 1]
      case SubRead => c
      case PubTick(matched) => if c > 0 || matched then c + 1 else 0
  }

  /** The driver when so many of those ticks have passed. The first of them writes the batch. */
  ghost predicate Underway(d: Driver, c: nat) {
    && !d.ended && d.phase.Streaming?
    && (if c == 0 then d.send && !d.reset else !d.send && d.reset && d.resets == c - 1)
  }

  lemma StartsUnderway(setup: Setup, d: Driver, e: Event)
    requires Steady(setup, d) && Next(setup, d, e).1.StartSent?
    ensures Underway(Next(setup, d, e).0, 0)
  {}

  /** One more event before the STOP is due. */
  lemma StaysUnderway(setup: Setup, d: Driver, c: nat, e: Event)
    requires Steady(setup, d) && Underway(d, c) && c < TICKS_TO_STOP
    ensures var (after, sent) := Next(setup, d, e);
      match e
      case SubRead => after == d && sent.Nothing?
      case PubTick(matched) =>
        if c == 0 then (if matched then sent.BatchSent? && Underway(after, 1) else after == d && sent.Nothing?)
        else if c < TICKS_TO_STOP - 1 then sent.Nothing? && Underway(after, c + 1)
        else if setup.maxTest >= 0 then sent.StopSent? else sent.Nothing? && after.ended && !after.send
  {}

  lemma StartAction(setup: Setup, reset: bool, events: seq<Event>, k: nat)
    requires k < |events| && Sends(setup, reset, events, k).StartSent?
    ensures Actions(setup, reset, events)[k].Start?
    ensures CycleOf(Actions(setup, reset, events)[k]) == Cycle(setup.messages, setup.loan)
  {}

  /** Up to the seventh tick the driver counts, and no command is sent. */
  lemma {:induction false} Counting(setup: Setup, reset: bool, events: seq<Event>, k: nat, n: nat)
    requires k < n <= |events| && Sends(setup, reset, events, k).StartSent?
    requires Countdown(events, k, n) < TICKS_TO_STOP
    ensures Underway(After(setup, reset, events[..n]), Countdown(events, k, n))
    ensures NoCommand(Actions(setup, reset, events), k + 1, n)
    decreases n
  {
    hide Underway, Next, Steady, Sends, After, NoCommand, IsCommand;
    SendsStep(setup, reset, events, n - 1);
    AfterStep(setup, reset, events, n - 1);
    EveryRunIsSteady(setup, reset, events[..n - 1]);
    if n == k + 1 {
      StartsUnderway(setup, After(setup, reset, events[..k]), events[k]);
      NoCommandYet(Actions(setup, reset, events), n);
    } else {
      Counting(setup, reset, events, k, n - 1);
      StaysUnderway(setup, After(setup, reset, events[..n - 1]), Countdown(events, k, n - 1), events[n - 1]);
      NoCommandStep(Actions(setup, reset, events), k, n - 1);
    }
  }

  lemma NoCommandYet(actions: seq<Action>, n: nat)
    ensures NoCommand(actions, n, n)
  {}

  lemma SendsStep(setup: Setup, reset: bool, events: seq<Event>, k: nat)
    requires k < |events|
    ensures var sent := Next(setup, After(setup, reset, events[..k]), events[k]).1;
      && Sends(setup, reset, events, k) == sent
      && (IsCommand(Actions(setup, reset, events)[k]) <==> sent.StartSent? || sent.StopSent?)
  {
    hide After;
  }

  lemma NoCommandStep(actions: seq<Action>, k: nat, n: nat)
    requires k < n < |actions|
    ensures NoCommand(actions, k + 1, n + 1) <==> NoCommand(actions, k + 1, n) && !IsCommand(actions[n])
  {}

  /** At the seventh tick the STOP is sent, unless a negative number of tests was asked for. */
  lemma {:induction false} StopIsDue(setup: Setup, reset: bool, events: seq<Event>, k: nat, n: nat)
    requires k < n <= |events| && Sends(setup, reset, events, k).StartSent?
    requires Countdown(events, k, n) >= TICKS_TO_STOP && setup.maxTest >= 0
    ensures !NoCommand(Actions(setup, reset, events), k + 1, n)
    decreases n
  {
    hide Underway, Next, Steady, Sends, After, NoCommand, IsCommand;
    NoCommandStep(Actions(setup, reset, events), k, n - 1);
    if Countdown(events, k, n - 1) >= TICKS_TO_STOP {
      StopIsDue(setup, reset, events, k, n - 1);
    } else {
      Counting(setup, reset, events, k, n - 1);
      EveryRunIsSteady(setup, reset, events[..n - 1]);
      SendsStep(setup, reset, events, n - 1);
      StaysUnderway(setup, After(setup, reset, events[..n - 1]), Countdown(events, k, n - 1), events[n - 1]);
    }
  }

  /** With a negative number the simulation ends there. */
  lemma {:induction false} NothingMore(setup: Setup, reset: bool, events: seq<Event>, k: nat, n: nat)
    requires k < n <= |events| && Sends(setup, reset, events, k).StartSent? && setup.maxTest < 0
    ensures NoCommand(Actions(setup, reset, events), k + 1, n)
    ensures Countdown(events, k, n) >= TICKS_TO_STOP ==>
      After(setup, reset, events[..n]).ended && !After(setup, reset, events[..n]).send
    decreases n
  {
    hide Underway, Next, Steady, Sends, After, NoCommand, IsCommand;
    if Countdown(events, k, n) < TICKS_TO_STOP {
      Counting(setup, reset, events, k, n);
    } else {
      var d := After(setup, reset, events[..n - 1]);
      NothingMore(setup, reset, events, k, n - 1);
      AfterStep(setup, reset, events, n - 1);
      SendsStep(setup, reset, events, n - 1);
      NoCommandStep(Actions(setup, reset, events), k, n - 1);
      if Countdown(events, k, n - 1) < TICKS_TO_STOP {
        Counting(setup, reset, events, k, n - 1);
        EveryRunIsSteady(setup, reset, events[..n - 1]);
        StaysUnderway(setup, d, Countdown(events, k, n - 1), events[n - 1]);
      } else {
        StaysEnded(setup, d, events[n - 1]);
      }
    }
  }

  lemma StaysEnded(setup: Setup, d: Driver, e: Event)
    requires d.ended
    ensures Next(setup, d, e) == (d, Nothing)
  {}

  // ----- the two reads that serve a START

  function Reads(events: seq<Event>, n: nat): nat
    requires n <= |events|
  {
    if n == 0 then 0 else Reads(events, n - 1) + if events[n - 1].SubRead? then 1 else 0
  }

  /** The second read behind `k`: it drains the cycle of a START sent there, if that is still in force. */
  predicate SecondRead(events: seq<Event>, k: nat, r: nat) {
    k < r < |events| && events[r].SubRead? && Reads(events, r) == Reads(events, k + 1) + 1
  }

  /** It comes behind the batch and before the STOP. */
  predicate InTime(events: seq<Event>, k: nat, r: nat) {
    SecondRead(events, k, r) && 1 <= Countdown(events, k, r) < TICKS_TO_STOP
  }

  lemma {:induction false} CountdownGrows(events: seq<Event>, k: nat, m: nat, n: nat)
    requires m <= n <= |events|
    ensures Countdown(events, k, m) <= Countdown(events, k, n)
    decreases n
  {
    if m < n { CountdownGrows(events, k, m, n - 1); }
  }

  lemma {:induction false} ReadsGrow(events: seq<Event>, m: nat, n: nat)
    requires m <= n <= |events|
    ensures Reads(events, m) <= Reads(events, n)
    decreases n
  {
    if m < n { ReadsGrow(events, m, n - 1); }
  }

  /** Once there were more reads than `m`, there was the read after `m` of them. */
  lemma {:induction false} ReadNumber(events: seq<Event>, m: nat, n: nat) returns (r: nat)
    requires n <= |events| && m < Reads(events, n)
    ensures r < n && events[r].SubRead? && Reads(events, r) == m
    decreases n
  {
    if m < Reads(events, n - 1) {
      r := ReadNumber(events, m, n - 1);
    } else {
      r := n - 1;
    }
  }

  /** The reads behind `k`, first and second. */
  lemma TwoReads(events: seq<Event>, k: nat, n: nat) returns (r1: nat, r2: nat)
    requires k < n <= |events| && Reads(events, n) >= Reads(events, k + 1) + 2
    ensures k < r1 < r2 < n && events[r1].SubRead? && SecondRead(events, k, r2)
  {
    r1 := ReadNumber(events, Reads(events, k + 1), n);
    r2 := ReadNumber(events, Reads(events, k + 1) + 1, n);
    if r1 <= k { ReadsGrow(events, r1 + 1, k + 1); }
    if r2 <= r1 { ReadsGrow(events, r2, r1); }
  }

  /**
   Over every interleaving of the two drivers: a START is served if and only if the second read behind it comes before
   the seventh tick, counted from the first one that finds the counters matched.
   */
  lemma {:induction false} StartIsServed(setup: Setup, reset: bool, events: seq<Event>, k: nat)
    requires k < |events| && Sends(setup, reset, events, k).StartSent?
    ensures Served(Actions(setup, reset, events), k) <==>
      exists r: nat :: SecondRead(events, k, r) && (setup.maxTest >= 0 ==> Countdown(events, k, r) < TICKS_TO_STOP)
  {
    hide Countdown, Reads, Sends, After;
    var actions := Actions(setup, reset, events);
    if Served(actions, k) {
      var r1: nat, r2: nat :|
        k < r1 < r2 < |actions| && actions[r1].ReadTick? && actions[r2].ReadTick? && NoCommand(actions, k + 1, r2);
      ReadsBehind(events, k, r1, r2);
      var first, r := TwoReads(events, k, r2 + 1);
      CountdownGrows(events, k, r, r2);
      if setup.maxTest >= 0 && Countdown(events, k, r) >= TICKS_TO_STOP {
        StopIsDue(setup, reset, events, k, r2);
      }
    }
    if r: nat :| SecondRead(events, k, r) && (setup.maxTest >= 0 ==> Countdown(events, k, r) < TICKS_TO_STOP) {
      ServedAtSecond(setup, reset, events, k, r);
    }
  }

  lemma ReadsBehind(events: seq<Event>, k: nat, r1: nat, r2: nat)
    requires k < r1 < r2 < |events| && events[r1].SubRead? && events[r2].SubRead?
    ensures Reads(events, r2 + 1) >= Reads(events, k + 1) + 2
  {
    ReadsGrow(events, k + 1, r1);
    ReadsGrow(events, r1 + 1, r2);
  }

  lemma ServedAtSecond(setup: Setup, reset: bool, events: seq<Event>, k: nat, r: nat)
    requires k < |events| && Sends(setup, reset, events, k).StartSent?
    requires SecondRead(events, k, r) && (setup.maxTest >= 0 ==> Countdown(events, k, r) < TICKS_TO_STOP)
    ensures NoCommand(Actions(setup, reset, events), k + 1, r)
    ensures Served(Actions(setup, reset, events), k)
  {
    hide Countdown, Sends, After;
    StartAction(setup, reset, events, k);
    if setup.maxTest >= 0 {
      Counting(setup, reset, events, k, r);
    } else {
      NothingMore(setup, reset, events, k, r);
    }
    var r1 := ReadNumber(events, Reads(events, k + 1), r);
    if r1 <= k { ReadsGrow(events, r1 + 1, k + 1); }
    AddReads(Actions(setup, reset, events), k, r1, r);
  }

  // ----- the read that drains

  /** As long as no command follows, the START is in force, and the reads behind it are counted. */
  lemma {:induction false} InForce(setup: Setup, reset: bool, events: seq<Event>, k: nat, n: nat)
    requires k < n <= |events| && IsCommand(Actions(setup, reset, events)[k])
    requires NoCommand(Actions(setup, reset, events), k + 1, n)
    ensures LastCommand(Actions(setup, reset, events)[..n]) == k
    ensures ReadsSince(Actions(setup, reset, events)[..n]) == Reads(events, n) - Reads(events, k + 1)
    decreases n
  {
    hide Sends, After, IsCommand, LastCommand, ReadsSince;
    var actions := Actions(setup, reset, events);
    var front := actions[..n - 1];
    assert actions[..n] == front + [actions[n - 1]];
    InForceAfter(front, actions[n - 1]);
    if n > k + 1 {
      InForce(setup, reset, events, k, n - 1);
      assert actions[n - 1].ReadTick? <==> events[n - 1].SubRead? by { ReadAction(setup, reset, events, n - 1); }
    }
  }

  lemma ReadAction(setup: Setup, reset: bool, events: seq<Event>, n: nat)
    requires n < |events|
    ensures Actions(setup, reset, events)[n].ReadTick? <==> events[n].SubRead?
  {
    hide Sends;
  }

  /**
   The second read behind a START drains its cycle, and does so after its batch was written if and only if a tick that
   found the counters matched came first.
   */
  lemma {:induction false} DrainFindsBatch(setup: Setup, reset: bool, events: seq<Event>, k: nat, r: nat,
      messageCount: int32, loanMode: bool)
    requires k < |events| && Sends(setup, reset, events, k).StartSent?
    requires SecondRead(events, k, r) && (setup.maxTest >= 0 ==> Countdown(events, k, r) < TICKS_TO_STOP)
    ensures var actions := Actions(setup, reset, events);
      Run(actions[..r + 1], messageCount, loanMode).receiver.drained
        == Run(actions[..r], messageCount, loanMode).receiver.drained + [Cycle(setup.messages, setup.loan)]
    ensures Written(setup, reset, events[..r]) == Announced(setup, reset, events[..r])
      <==> Countdown(events, k, r) >= 1
  {
    hide Countdown, Sends, After, Reads, Run, ServedCycles, LastCommand, ReadsSince, Written, Announced;
    var actions := Actions(setup, reset, events);
    var front := actions[..r];
    ServedAtSecond(setup, reset, events, k, r);
    StartAction(setup, reset, events, k);
    InForce(setup, reset, events, k, r);
    ReadAction(setup, reset, events, r);
    assert actions[..r + 1] == front + [actions[r]];
    ServedCyclesGrow(front, actions[r]);
    DrainedAreServed(front, messageCount, loanMode);
    DrainedAreServed(actions[..r + 1], messageCount, loanMode);
    EveryRunKeepsLedger(setup, reset, events[..r]);
    if Countdown(events, k, r) < TICKS_TO_STOP {
      Counting(setup, reset, events, k, r);
    } else {
      NothingMore(setup, reset, events, k, r);
    }
  }

  /** With fewer than two reads up to the seventh tick, the START is lost. */
  lemma TooFewReads(setup: Setup, reset: bool, events: seq<Event>, k: nat, n: nat)
    requires k < n <= |events| && Sends(setup, reset, events, k).StartSent? && setup.maxTest >= 0
    requires Countdown(events, k, n) >= TICKS_TO_STOP && Reads(events, n) < Reads(events, k + 1) + 2
    ensures !Served(Actions(setup, reset, events), k)
  {
    hide Sends, Countdown, Reads, Served;
    StartIsServed(setup, reset, events, k);
    if r: nat :| SecondRead(events, k, r) && Countdown(events, k, r) < TICKS_TO_STOP {
      if r < n {
        ReadCounts(events, r);
        ReadsGrow(events, r + 1, n);
      } else {
        CountdownGrows(events, k, n, r);
      }
    }
  }

  lemma ReadCounts(events: seq<Event>, r: nat)
    requires r < |events| && events[r].SubRead?
    ensures Reads(events, r + 1) == Reads(events, r) + 1
  {}

  /** Two reads right behind a START drain its cycle before its batch is written. */
  lemma TooEarly(setup: Setup, reset: bool, events: seq<Event>, k: nat)
    requires k + 2 < |events| && Sends(setup, reset, events, k).StartSent?
    requires events[k + 1].SubRead? && events[k + 2].SubRead?
    ensures Served(Actions(setup, reset, events), k)
    ensures Written(setup, reset, events[..k + 2]) < Announced(setup, reset, events[..k + 2])
  {
    hide Sends, Served, Written, Announced;
    assert Countdown(events, k, k + 2) == 0 by { assert Countdown(events, k, k + 1) == 0; }
    assert SecondRead(events, k, k + 2);
    ServedAtSecond(setup, reset, events, k, k + 2);
    DrainFindsBatch(setup, reset, events, k, k + 2, 0, false);
    EveryRunKeepsLedger(setup, reset, events[..k + 2]);
  }

  // ----- how fast the subscriber must read

  function Ticks(events: seq<Event>, n: nat): nat
    requires n <= |events|
  {
    if n == 0 then 0 else Ticks(events, n - 1) + if events[n - 1].PubTick? then 1 else 0
  }

  /**
   The counters are matched, the subscriber reads once at most between two ticks, and twice at least between a tick
   and the seventh after it.
   */
  ghost predicate Paced(events: seq<Event>) {
    && (forall i | 0 <= i < |events| :: events[i].PubTick? ==> events[i].matched)
    && (forall i | 0 < i < |events| :: events[i - 1].PubTick? || events[i].PubTick?)
    && (forall i, j | 0 <= i < j < |events| && events[i].PubTick? && events[j].PubTick? ::
      Ticks(events, j) - Ticks(events, i + 1) == TICKS_TO_STOP - 1 ==> Reads(events, j) >= Reads(events, i + 1) + 2)
  }

  lemma {:induction false} CountdownIsTicks(events: seq<Event>, k: nat, n: nat)
    requires k < n <= |events| && forall i | 0 <= i < |events| :: events[i].PubTick? ==> events[i].matched
    ensures Countdown(events, k, n) == Ticks(events, n) - Ticks(events, k + 1)
    decreases n
  {
    if n > k + 1 { CountdownIsTicks(events, k, n - 1); }
  }

  lemma {:induction false} TickNumber(events: seq<Event>, m: nat, n: nat) returns (j: nat)
    requires n <= |events| && m < Ticks(events, n)
    ensures j < n && events[j].PubTick? && Ticks(events, j) == m
    decreases n
  {
    if m < Ticks(events, n - 1) {
      j := TickNumber(events, m, n - 1);
    } else {
      j := n - 1;
    }
  }

  lemma {:induction false} TicksGrow(events: seq<Event>, m: nat, n: nat)
    requires m <= n <= |events|
    ensures Ticks(events, m) <= Ticks(events, n)
    decreases n
  {
    if m < n { TicksGrow(events, m, n - 1); }
  }

  /** At this pace a START is served by a read behind its batch, once its STOP is due. */
  lemma PacedIsServed(setup: Setup, reset: bool, events: seq<Event>, k: nat) returns (r: nat)
    requires Paced(events) && k < |events| && Sends(setup, reset, events, k).StartSent?
    requires Countdown(events, k, |events|) >= TICKS_TO_STOP
    ensures InTime(events, k, r) && Served(Actions(setup, reset, events), k)
  {
    hide Sends, Countdown, Reads, Ticks;
    CountdownIsTicks(events, k, |events|);
    var j := TickNumber(events, Ticks(events, k + 1) + TICKS_TO_STOP - 1, |events|);
    if j <= k { TicksGrow(events, j, k + 1); }
    TickOfStart(setup, reset, events, k);
    var first;
    first, r := TwoReads(events, k, j);
    CountdownIsTicks(events, k, j);
    CountdownIsTicks(events, k, r);
    CountdownGrows(events, k, r, j);
    assert events[first + 1].PubTick?;
    TicksGrow(events, k + 1, first + 1);
    TicksGrow(events, first + 2, r);
    OneTick(events, first + 1);
    ServedAtSecond(setup, reset, events, k, r);
  }

  lemma OneTick(events: seq<Event>, n: nat)
    requires n < |events| && events[n].PubTick?
    ensures Ticks(events, n + 1) == Ticks(events, n) + 1
  {}

  lemma TickOfStart(setup: Setup, reset: bool, events: seq<Event>, k: nat)
    requires k < |events| && Sends(setup, reset, events, k).StartSent?
    ensures events[k].PubTick?
  {}

  /**
   At this pace no START is lost: when the publisher is between two cycles, every START sent has been served, and
   every one by a read behind its batch.
   */
  lemma {:induction false} PacedRunLosesNothing(setup: Setup, reset: bool, events: seq<Event>,
      messageCount: int32, loanMode: bool)
    requires Paced(events) && !After(setup, reset, events).phase.Streaming?
    ensures var actions := Actions(setup, reset, events);
      |Run(actions, messageCount, loanMode).receiver.drained| == Starts(AllSent(actions))
    ensures forall k: nat | k < |events| && Sends(setup, reset, events, k).StartSent? ::
      exists r: nat :: InTime(events, k, r)
  {
    hide Sends, Countdown, After, Paced, Run, Served, Starts, AllSent, InTime, Underway;
    var actions := Actions(setup, reset, events);
    forall k: nat | k < |events| && Sends(setup, reset, events, k).StartSent?
      ensures Served(actions, k)
      ensures exists r: nat :: InTime(events, k, r)
    {
      assert events[..|events|] == events;
      if Countdown(events, k, |events|) < TICKS_TO_STOP {
        Counting(setup, reset, events, k, |events|);
        UnderwayStreams(After(setup, reset, events), Countdown(events, k, |events|));
      }
      var r := PacedIsServed(setup, reset, events, k);
    }
    NoStartIsLost(actions, messageCount, loanMode);
  }

  lemma UnderwayStreams(d: Driver, c: nat)
    requires Underway(d, c)
    ensures d.phase.Streaming?
  {}

  /** Drivers that take turns keep the pace. */
  lemma {:induction false} TurnsArePaced(events: seq<Event>)
    requires forall i | 0 <= i < |events| :: events[i] == if i % 2 == 0 then PubTick(true) else SubRead
    ensures Paced(events)
  {
    hide Reads, Ticks;
    forall n: nat | n <= |events| ensures Reads(events, n) == n / 2 && Ticks(events, n) == (n + 1) / 2 {
      CountOfTurns(events, n);
    }
  }

  lemma {:induction false} CountOfTurns(events: seq<Event>, n: nat)
    requires n <= |events|
    requires forall i | 0 <= i < |events| :: events[i] == if i % 2 == 0 then PubTick(true) else SubRead
    ensures Reads(events, n) == n / 2 && Ticks(events, n) == (n + 1) / 2
  {
    if n > 0 { CountOfTurns(events, n - 1); }
  }

  // ----- what goes over the control channel

  /** An action sends what the event sends. */
  lemma ActionSends(setup: Setup, reset: bool, events: seq<Event>, k: nat)
    requires k < |events|
    ensures Sent(Actions(setup, reset, events)[k]) == MessageOf(setup, Sends(setup, reset, events, k))
  {
    hide After;
  }

  /** The messages of a run, event by event. */
  function Messages(setup: Setup, reset: bool, events: seq<Event>): seq<Envelope> {
    if events == [] then [] else
      var last := |events| - 1;
      Messages(setup, reset, events[..last]) + MessageOf(setup, Sends(setup, reset, events, last))
  }

  lemma ActionsOfFront(setup: Setup, reset: bool, events: seq<Event>, n: nat)
    requires n <= |events|
    ensures Actions(setup, reset, events)[..n] == Actions(setup, reset, events[..n])
  {
    hide After, Next;
    forall k | 0 <= k < n
      ensures Actions(setup, reset, events)[k] == Actions(setup, reset, events[..n])[k]
    {
      assert events[..n][..k] == events[..k];
    }
  }

  lemma {:induction false} MessagesAreSent(setup: Setup, reset: bool, events: seq<Event>)
    ensures AllSent(Actions(setup, reset, events)) == Messages(setup, reset, events)
    decreases |events|
  {
    hide Sends, MessageOf, Sent;
    if events != [] {
      var last := |events| - 1;
      MessagesAreSent(setup, reset, events[..last]);
      ActionsOfFront(setup, reset, events, last);
      ActionSends(setup, reset, events, last);
    }
  }

  function TicksOf(matched: seq<bool>): (r: seq<Event>)
    ensures |r| == |matched| && forall i :: 0 <= i < |r| ==> r[i] == PubTick(matched[i])
  {
    seq(|matched|, i requires 0 <= i < |matched| => PubTick(matched[i]))
  }

  /**
   The main loop of the publisher. As long as everything is accepted, its state and the messages in the channel are
   those of the run.
   */
  method RunTicks(test: PubTest, matched: seq<bool>) returns (ghost smooth: bool)
    requires test.pub.Valid() && test.State() == Initial(test.reset)
    modifies test, test.pub`currentId, test.pub.writer, test.control.channel, test.exec`currentState
    ensures test.pub.Valid()
    ensures smooth ==>
      && test.State() == After(test.setup, old(test.reset), TicksOf(matched))
      && test.control.channel.fifo
        == old(test.control.channel.fifo) + AllSent(Actions(test.setup, old(test.reset), TicksOf(matched)))
  {
    hide After, Next, ReadStep, WriteStep, MessageOf, Actions, AllSent, Steady;
    ghost var setup, reset, before, ticks := test.setup, test.reset, test.control.channel.fifo, TicksOf(matched);
    smooth := true;
    NothingSentYet(setup, reset, ticks);
    for i := 0 to |matched|
      invariant test.pub.Valid() && |ticks| == |matched|
      invariant smooth ==>
        && test.State() == After(setup, reset, ticks[..i])
        && test.control.channel.fifo == before + Messages(setup, reset, ticks[..i])
    {
      ghost var d, fifo := test.State(), test.control.channel.fifo;
      AfterStep(setup, reset, ticks, i);
      MessagesStep(setup, reset, ticks, i);
      EveryRunIsSteady(setup, reset, ticks[..i]);
      if test.exec.currentState != Executive.END {
        ghost var accepted := test.Read();
        ghost var read := test.State();
        var thrown;
        ghost var acceptedToo;
        thrown, acceptedToo := test.Write(matched[i]);
        if smooth {
          TickSends(setup, d, matched[i]);
          Associative(fifo, MessageOf(setup, ReadStep(setup, d).1),
            MessageOf(setup, WriteStep(setup, read, matched[i]).1));
        }
        smooth := smooth && accepted && acceptedToo && !thrown;
      } else if smooth {
        StaysEnded(setup, d, PubTick(matched[i]));
        NoMessage(setup);
      }
      if smooth {
        Associative(before, Messages(setup, reset, ticks[..i]), MessageOf(setup, Sends(setup, reset, ticks, i)));
      }
    }
    assert ticks[..|matched|] == ticks;
    MessagesAreSent(setup, reset, ticks);
  }

  lemma NothingSentYet(setup: Setup, reset: bool, events: seq<Event>)
    ensures events[..0] == [] && After(setup, reset, []) == Initial(reset) && Messages(setup, reset, []) == []
  {}

  lemma MessagesStep(setup: Setup, reset: bool, events: seq<Event>, k: nat)
    requires k < |events|
    ensures Messages(setup, reset, events[..k + 1])
      == Messages(setup, reset, events[..k]) + MessageOf(setup, Sends(setup, reset, events, k))
    ensures Sends(setup, reset, events, k) == Next(setup, After(setup, reset, events[..k]), events[k]).1
  {
    assert events[..k + 1][..k] == events[..k];
  }

  /** The two phases of a tick together send what the tick sends. */
  lemma TickSends(setup: Setup, d: Driver, matched: bool)
    requires Steady(setup, d) && !d.ended
    ensures var (read, stop) := ReadStep(setup, d);
      var (written, sent) := WriteStep(setup, read, matched);
      && Next(setup, d, PubTick(matched)).0 == written
      && MessageOf(setup, Next(setup, d, PubTick(matched)).1) == MessageOf(setup, stop) + MessageOf(setup, sent)
  {
    OneEmission(setup, d, matched);
  }

  lemma NoMessage(setup: Setup)
    ensures MessageOf(setup, Nothing) == []
  {}

  // ----- tests by number, and the end

  function Stopped(setup: Setup, reset: bool, events: seq<Event>): nat {
    Count(setup, reset, events, (e: Emission) => e.StopSent?)
  }

  /** Every test has one START and one STOP, until as many were stopped as were asked for. */
  ghost predicate Numbered(setup: Setup, d: Driver, announced: nat, stopped: nat) {
    && (announced > 0 ==> d.cycle > 50)
    && (!d.ended ==>
      && d.test == stopped && (stopped == 0 || stopped < setup.maxTest)
      && announced == stopped + if d.phase.Streaming? then 1 else 0)
    && (d.ended ==> stopped == if setup.maxTest < 0 then 0 else if setup.maxTest == 0 then 1 else setup.maxTest)
  }

  lemma NextKeepsNumbered(setup: Setup, d: Driver, e: Event, announced: nat, stopped: nat)
    requires Steady(setup, d) && Numbered(setup, d, announced, stopped)
    ensures var (after, sent) := Next(setup, d, e);
      && Numbered(setup, after, announced + (if sent.StartSent? then 1 else 0),
        stopped + if sent.StopSent? then 1 else 0)
      && (sent.StartSent? ==> sent.testId == announced + 1 == stopped + 1)
      && (sent.StopSent? ==> sent.testId == stopped + 1 == announced)
  {}

  lemma {:induction false} EveryRunIsNumbered(setup: Setup, reset: bool, events: seq<Event>)
    ensures Numbered(setup, After(setup, reset, events), Announced(setup, reset, events), Stopped(setup, reset, events))
    decreases |events|
  {
    hide Numbered, Next, Steady;
    if events == [] {
      StartsNumbered(setup, reset);
    } else {
      var front, last := events[..|events| - 1], |events| - 1;
      EveryRunIsNumbered(setup, reset, front);
      EveryRunIsSteady(setup, reset, front);
      NextKeepsNumbered(setup, After(setup, reset, front), events[last], Announced(setup, reset, front),
        Stopped(setup, reset, front));
    }
  }

  lemma StartsNumbered(setup: Setup, reset: bool)
    ensures Numbered(setup, Initial(reset), 0, 0)
  {}

  /** STARTs and STOPs carry the numbers 1, 2, 3 and so on, each STOP that of the START before it. */
  lemma {:induction false} TestsAreNumbered(setup: Setup, reset: bool, events: seq<Event>, k: nat)
    requires k < |events|
    ensures var sent, before := Sends(setup, reset, events, k), events[..k];
      && (sent.StartSent? ==> sent.testId == Announced(setup, reset, before) + 1 == Stopped(setup, reset, before) + 1)
      && (sent.StopSent? ==> sent.testId == Stopped(setup, reset, before) + 1 == Announced(setup, reset, before))
  {
    hide Numbered, Next, Steady;
    EveryRunIsNumbered(setup, reset, events[..k]);
    EveryRunIsSteady(setup, reset, events[..k]);
    NextKeepsNumbered(setup, After(setup, reset, events[..k]), events[k], Announced(setup, reset, events[..k]),
      Stopped(setup, reset, events[..k]));
  }

  /**
   A run has ended exactly when as many STOPs were sent as tests asked for, and at least one. With a negative number it
   ends without any STOP.
   */
  lemma {:induction false} EndOfRun(setup: Setup, reset: bool, events: seq<Event>)
    ensures setup.maxTest >= 0 ==>
      var wanted := if setup.maxTest == 0 then 1 else setup.maxTest;
      && Stopped(setup, reset, events) <= wanted
      && (After(setup, reset, events).ended <==> Stopped(setup, reset, events) == wanted)
    ensures setup.maxTest < 0 ==> Stopped(setup, reset, events) == 0
  {
    hide Announced, Stopped, After;
    EveryRunIsNumbered(setup, reset, events);
  }

  // ----- when STARTs are sent

  function MatchedTicks(events: seq<Event>, n: nat): nat
    requires n <= |events|
  {
    if n == 0 then 0 else
      MatchedTicks(events, n - 1) + if events[n - 1] == PubTick(true) then 1 else 0
  }

  /** Before the first START every matched tick counts. */
  ghost predicate Waiting(d: Driver, matchedTicks: nat) {
    d.phase.Announce? && d.send && !d.ended && d.cycle == matchedTicks <= 50
  }

  lemma StaysWaiting(setup: Setup, d: Driver, e: Event, matchedTicks: nat)
    requires Steady(setup, d) && Waiting(d, matchedTicks)
    ensures var (after, sent) := Next(setup, d, e);
      && (sent.StartSent? <==> e == PubTick(true) && matchedTicks == 50)
      && (!sent.StartSent? ==> sent.Nothing? && Waiting(after, matchedTicks + if e == PubTick(true) then 1 else 0))
  {}

  lemma {:induction false} WaitingForStart(setup: Setup, reset: bool, events: seq<Event>, n: nat)
    requires n <= |events| && forall k | 0 <= k < n :: !Sends(setup, reset, events, k).StartSent?
    ensures Waiting(After(setup, reset, events[..n]), MatchedTicks(events, n))
  {
    hide Next, Steady, Sends;
    if n == 0 {
      NothingSentYet(setup, reset, events);
    } else {
      WaitingForStart(setup, reset, events, n - 1);
      AfterStep(setup, reset, events, n - 1);
      SendsStep(setup, reset, events, n - 1);
      EveryRunIsSteady(setup, reset, events[..n - 1]);
      StaysWaiting(setup, After(setup, reset, events[..n - 1]), events[n - 1], MatchedTicks(events, n - 1));
    }
  }

  /** The first START is sent by the matched tick behind fifty others. */
  lemma {:induction false} FirstStart(setup: Setup, reset: bool, events: seq<Event>, n: nat)
    requires n < |events| && forall k | 0 <= k < n :: !Sends(setup, reset, events, k).StartSent?
    ensures Sends(setup, reset, events, n).StartSent? <==> events[n] == PubTick(true) && MatchedTicks(events, n) == 50
  {
    hide Next, Steady, Sends, Waiting;
    WaitingForStart(setup, reset, events, n);
    SendsStep(setup, reset, events, n);
    EveryRunIsSteady(setup, reset, events[..n]);
    StaysWaiting(setup, After(setup, reset, events[..n]), events[n], MatchedTicks(events, n));
  }

  /** After a STOP that is not the last: how many ticks have passed. */
  ghost predicate Resting(d: Driver, ticks: nat) {
    && d.phase.Announce? && !d.ended && d.cycle > 50
    && if ticks <= 5 then d.reset && !d.send && d.resets == ticks else d.send && !d.reset
  }

  lemma StartsResting(setup: Setup, d: Driver, e: Event)
    requires Steady(setup, d) && d.cycle > 50 && Next(setup, d, e).1.StopSent? && !Next(setup, d, e).0.ended
    ensures Resting(Next(setup, d, e).0, 0) && e.PubTick?
  {}

  lemma StaysResting(setup: Setup, d: Driver, e: Event, ticks: nat)
    requires Steady(setup, d) && Resting(d, ticks)
    ensures var (after, sent) := Next(setup, d, e);
      && (sent.StartSent? <==> e == PubTick(true) && ticks >= 5)
      && (!sent.StartSent? ==> sent.Nothing? && Resting(after, ticks + if e.PubTick? then 1 else 0))
  {}

  lemma {:induction false} RestAfterStop(setup: Setup, reset: bool, events: seq<Event>, k: nat, n: nat)
    requires k < n <= |events| && Sends(setup, reset, events, k).StopSent?
      && !After(setup, reset, events[..k + 1]).ended
    requires forall i | k < i < n :: !Sends(setup, reset, events, i).StartSent?
    ensures Ticks(events, n) >= Ticks(events, k + 1)
    ensures Resting(After(setup, reset, events[..n]), Ticks(events, n) - Ticks(events, k + 1))
    decreases n
  {
    hide Next, Steady, Sends, After, Resting, Announced, Stopped;
    SendsStep(setup, reset, events, n - 1);
    AfterStep(setup, reset, events, n - 1);
    EveryRunIsSteady(setup, reset, events[..n - 1]);
    if n == k + 1 {
      EveryRunIsNumbered(setup, reset, events[..k]);
      TestsAreNumbered(setup, reset, events, k);
      StartsResting(setup, After(setup, reset, events[..k]), events[k]);
    } else {
      RestAfterStop(setup, reset, events, k, n - 1);
      StaysResting(setup, After(setup, reset, events[..n - 1]), events[n - 1],
        Ticks(events, n - 1) - Ticks(events, k + 1));
    }
  }

  /** The next START is sent by the first matched tick from the sixth one behind the STOP on. */
  lemma {:induction false} NextStart(setup: Setup, reset: bool, events: seq<Event>, k: nat, n: nat)
    requires k < n < |events| && Sends(setup, reset, events, k).StopSent? && !After(setup, reset, events[..k + 1]).ended
    requires forall i | k < i < n :: !Sends(setup, reset, events, i).StartSent?
    ensures Sends(setup, reset, events, n).StartSent?
      <==> events[n] == PubTick(true) && Ticks(events, n) - Ticks(events, k + 1) >= 5
  {
    hide Next, Steady, Sends, After, Resting;
    RestAfterStop(setup, reset, events, k, n);
    SendsStep(setup, reset, events, n);
    EveryRunIsSteady(setup, reset, events[..n]);
    StaysResting(setup, After(setup, reset, events[..n]), events[n], Ticks(events, n) - Ticks(events, k + 1));
  }
}
