/**
 Which STARTs have their cycle drained. A START is served once two reads have passed without another
 START or STOP being sent: the first read takes its configuration over, the second one drains.
 */
module ControlRuns {
  import opened Control
  import opened Sequences
  import opened Subscriber

  predicate IsCommand(a: Action) {
    a.Start? || a.Stop?
  }

  function CommandMessage(a: Action): TestControl
    requires IsCommand(a)
  {
    if a.Start? then StartMessage(a.testId, a.expected, a.loan) else StopMessage(a.testId)
  }

  function CycleOf(a: Action): Cycle
    requires a.Start?
  {
    Cycle(a.expected, a.loan)
  }

  ghost predicate NoCommand(actions: seq<Action>, i: nat, j: nat) {
    forall n | i <= n < j && n < |actions| :: !IsCommand(actions[n])
  }

  /** Two reads follow the START at `k` before any other START or STOP is sent. */
  ghost predicate Served(actions: seq<Action>, k: nat) {
    && k < |actions| && actions[k].Start?
    && exists r1: nat, r2: nat ::
         k < r1 < r2 < |actions| && actions[r1].ReadTick? && actions[r2].ReadTick? && NoCommand(actions, k + 1, r2)
  }

  /** The cycles of the served STARTs among the first `n` actions, in the order they were sent. */
  ghost function ServedCycles(actions: seq<Action>, n: nat): seq<Cycle>
    requires n <= |actions|
  {
    if n == 0 then [] else
      ServedCycles(actions, n - 1)
      + if Served(actions, n - 1) then [CycleOf(actions[n - 1])] else []
  }

  // ----- the command in force

  /** The index of the last START or STOP sent. */
  function LastCommand(actions: seq<Action>): (c: int)
    ensures -1 <= c < |actions| && (c >= 0 ==> IsCommand(actions[c]))
  {
    if actions == [] then -1 else
      var last := |actions| - 1;
      if IsCommand(actions[last]) then last else LastCommand(actions[..last])
  }

  lemma {:induction false} QuietSince(actions: seq<Action>, n: nat)
    requires LastCommand(actions) < n < |actions|
    ensures !IsCommand(actions[n])
    decreases |actions|
  {
    if n < |actions| - 1 { QuietSince(actions[..|actions| - 1], n); }
  }

  /** The reads since. */
  function ReadsSince(actions: seq<Action>): nat {
    if actions == [] || IsCommand(actions[|actions| - 1]) then 0 else
      ReadsSince(actions[..|actions| - 1]) + if actions[|actions| - 1].ReadTick? then 1 else 0
  }

  lemma {:induction false} OneReadSince(actions: seq<Action>)
    ensures ReadsSince(actions) >= 1 <==> exists r: nat :: LastCommand(actions) < r < |actions| && actions[r].ReadTick?
    decreases |actions|
  {
    if actions != [] && !IsCommand(actions[|actions| - 1]) {
      var front, last := actions[..|actions| - 1], |actions| - 1;
      OneReadSince(front);
      assert LastCommand(front) == LastCommand(actions);
      if ReadsSince(front) >= 1 {
        var r: nat :| LastCommand(front) < r < |front| && front[r].ReadTick?;
        assert actions[r].ReadTick?;
      } else if actions[last].ReadTick? {
        assert LastCommand(actions) < last;
      }
    }
  }

  lemma AddReads(actions: seq<Action>, k: nat, r1: nat, r2: nat)
    requires k < r1 < r2 < |actions| && actions[k].Start? && actions[r1].ReadTick? && actions[r2].ReadTick?
    requires NoCommand(actions, k + 1, r2)
    ensures Served(actions, k)
  {}

  /** A later action serves no START but the one in force. */
  lemma ServedBefore(front: seq<Action>, a: Action, k: nat)
    requires k < |front|
    ensures Served(front, k) ==> Served(front + [a], k)
    ensures !a.ReadTick? || k != LastCommand(front) ==> (Served(front + [a], k) ==> Served(front, k))
  {
    var all := front + [a];
    if Served(front, k) {
      var r1: nat, r2: nat :|
        k < r1 < r2 < |front| && front[r1].ReadTick? && front[r2].ReadTick? && NoCommand(front, k + 1, r2);
      assert all[r1] == front[r1] && all[r2] == front[r2];
      assert NoCommand(all, k + 1, r2);
      AddReads(all, k, r1, r2);
    }
    if Served(all, k) && (!a.ReadTick? || k != LastCommand(front)) {
      var r1: nat, r2: nat :|
        k < r1 < r2 < |all| && all[r1].ReadTick? && all[r2].ReadTick? && NoCommand(all, k + 1, r2);
      if r2 < |front| {
        forall n: nat | k + 1 <= n < r2 ensures !IsCommand(front[n]) { assert all[n] == front[n]; }
        assert front[k] == all[k] && front[r1] == all[r1] && front[r2] == all[r2];
        AddReads(front, k, r1, r2);
      } else {
        CommandBetween(front, a, k);
      }
    }
  }

  lemma CommandBetween(front: seq<Action>, a: Action, k: nat)
    requires k < |front| && IsCommand(front[k])
    ensures k != LastCommand(front) ==> !NoCommand(front + [a], k + 1, |front|)
  {
    var c := LastCommand(front);
    if c < k {
      QuietSince(front, k);
    } else if k != c {
      assert (front + [a])[c] == front[c];
    }
  }

  /** The START in force is served after two reads. */
  lemma {:induction false} InForceIsServed(actions: seq<Action>)
    requires LastCommand(actions) >= 0 && actions[LastCommand(actions)].Start?
    ensures Served(actions, LastCommand(actions)) <==> ReadsSince(actions) >= 2
    decreases |actions|
  {
    var front, last, c := actions[..|actions| - 1], |actions| - 1, LastCommand(actions);
    if c != last {
      assert actions == front + [actions[last]];
      InForceIsServed(front);
      ServedBefore(front, actions[last], c);
      OneReadSince(front);
      if actions[last].ReadTick? {
        if ReadsSince(front) == 1 {
          var r: nat :| c < r < |front| && front[r].ReadTick?;
          forall n: nat | c + 1 <= n < last ensures !IsCommand(actions[n]) { QuietSince(actions, n); }
          AddReads(actions, c, r, last);
        } else if ReadsSince(front) == 0 {
          forall n | c < n < last ensures !actions[n].ReadTick? { assert front[n] == actions[n]; }
        }
      }
    }
  }

  lemma {:induction false} ServedCyclesAlike(front: seq<Action>, a: Action, n: nat)
    requires n <= |front| && (a.ReadTick? ==> n <= LastCommand(front))
    ensures ServedCycles(front + [a], n) == ServedCycles(front, n)
  {
    if n > 0 {
      ServedBefore(front, a, n - 1);
      ServedCyclesAlike(front, a, n - 1);
    }
  }

  lemma {:induction false} NoneServedSince(actions: seq<Action>, n: nat)
    requires LastCommand(actions) < n <= |actions|
    ensures ServedCycles(actions, n) == ServedCycles(actions, LastCommand(actions) + 1)
  {
    if n > LastCommand(actions) + 1 {
      QuietSince(actions, n - 1);
      NoneServedSince(actions, n - 1);
    }
  }

  lemma InForceAfter(front: seq<Action>, a: Action)
    ensures LastCommand(front + [a]) == if IsCommand(a) then |front| else LastCommand(front)
    ensures ReadsSince(front + [a]) == if IsCommand(a) then 0 else ReadsSince(front) + if a.ReadTick? then 1 else 0
  {
    assert (front + [a])[..|front|] == front;
  }

  lemma ServedCyclesOfNone(actions: seq<Action>)
    ensures ServedCycles(actions, 0) == []
  {}

  lemma ServedCyclesStep(actions: seq<Action>, n: nat)
    requires n < |actions|
    ensures !actions[n].Start? || n == |actions| - 1 ==> ServedCycles(actions, n + 1) == ServedCycles(actions, n)
    ensures actions[n].Start? ==>
      ServedCycles(actions, n + 1)
        == ServedCycles(actions, n) + if Served(actions, n) then [CycleOf(actions[n])] else []
  {}

  /** The cycles up to the command in force, which only then may add its own. */
  lemma ServedCyclesInForce(actions: seq<Action>)
    ensures var c := LastCommand(actions);
      ServedCycles(actions, |actions|) == ServedCycles(actions, if c < 0 then 0 else c)
        + if c >= 0 && actions[c].Start? && ReadsSince(actions) >= 2 then [CycleOf(actions[c])] else []
  {
    hide *;
    var c := LastCommand(actions);
    NoneServedSince(actions, |actions|);
    if c >= 0 {
      ServedCyclesStep(actions, c);
      if actions[c].Start? { InForceIsServed(actions); }
    }
  }

  /** One more action adds the cycle of the START in force when it is the second read since. */
  lemma ServedCyclesGrow(front: seq<Action>, a: Action)
    ensures var c := LastCommand(front);
      ServedCycles(front + [a], |front| + 1) == ServedCycles(front, |front|)
        + if a.ReadTick? && c >= 0 && front[c].Start? && ReadsSince(front) == 1 then [CycleOf(front[c])] else []
  {
    hide *;
    var all := front + [a];
    InForceAfter(front, a);
    if a.ReadTick? {
      ReadIsNoCommand(a);
      ServedCyclesInForce(front);
      ServedCyclesInForce(all);
      var c := LastCommand(front);
      if c < 0 {
        ServedCyclesOfNone(front);
        ServedCyclesOfNone(all);
      } else {
        ServedCyclesAlike(front, a, c);
      }
    } else {
      ServedCyclesAlike(front, a, |front|);
      ServedCyclesStep(all, |front|);
    }
  }

  lemma ReadIsNoCommand(a: Action)
    requires a.ReadTick?
    ensures !IsCommand(a)
  {}

  // ----- the receiver

  /** What the receiver is up to, in terms of the command in force and the reads since. */
  ghost predicate Follows(s: System, actions: seq<Action>) {
    var c, t := LastCommand(actions), ReadsSince(actions);
    && s.receiver.drained == ServedCycles(actions, |actions|)
    && (c >= 0 && t == 0 ==>
      HasValid(s.fifo) && NewestValid(s.fifo, s.receiver.last) == Configured(CommandMessage(actions[c])))
    && (c < 0 || t > 0 ==> !HasValid(s.fifo) && (s.receiver.active <==> c >= 0 && actions[c].Start? && t == 1))
    && (c >= 0 && actions[c].Start? && t == 1 ==> s.receiver.cycle == CycleOf(actions[c]))
  }

  lemma StepFollows(s: System, front: seq<Action>, a: Action)
    requires Follows(s, front)
    ensures Follows(Step(s, a), front + [a])
  {
    hide ServedCycles, LastCommand, ReadsSince;
    var all, c := front + [a], LastCommand(front);
    InForceAfter(front, a);
    ServedCyclesGrow(front, a);
    if IsCommand(a) {
      assert Sent(a) == [Envelope(CommandMessage(a), true)];
      NewestOfOne(s.fifo, Sent(a)[0], s.receiver.last);
      assert Sent(a)[0] in s.fifo + Sent(a);
    } else {
      assert c >= 0 ==> all[c] == front[c];
      if a.Metadata? {
        NewestOfOne(s.fifo, Sent(a)[0], s.receiver.last);
        HasValidAppend(s.fifo, Sent(a));
      } else if a.Pass? {
        assert s.fifo + Sent(a) == s.fifo;
      }
    }
  }

  lemma {:induction false} RunFollows(actions: seq<Action>, messageCount: int32, loanMode: bool)
    ensures Follows(Run(actions, messageCount, loanMode), actions)
    decreases |actions|
  {
    if actions != [] {
      var front, a := actions[..|actions| - 1], actions[|actions| - 1];
      RunFollows(front, messageCount, loanMode);
      StepFollows(Run(front, messageCount, loanMode), front, a);
      assert front + [a] == actions;
    }
  }

  /**
   Over every run, the cycles drained are those of the served STARTs, once each and in order: a START
   has its cycle drained if and only if two reads follow it before the next START or STOP.
   */
  lemma DrainedAreServed(actions: seq<Action>, messageCount: int32, loanMode: bool)
    ensures Run(actions, messageCount, loanMode).receiver.drained == ServedCycles(actions, |actions|)
  {
    RunFollows(actions, messageCount, loanMode);
  }

  // ----- how many are drained

  function StartCount(actions: seq<Action>, n: nat): nat
    requires n <= |actions|
  {
    if n == 0 then 0 else StartCount(actions, n - 1) + if actions[n - 1].Start? then 1 else 0
  }

  lemma {:induction false} ServedCount(actions: seq<Action>, n: nat)
    requires n <= |actions|
    ensures |ServedCycles(actions, n)| <= StartCount(actions, n)
    ensures |ServedCycles(actions, n)| == StartCount(actions, n)
      <==> forall k: nat | k < n && actions[k].Start? :: Served(actions, k)
  {
    if n > 0 {
      ServedCount(actions, n - 1);
      if Served(actions, n - 1) || !actions[n - 1].Start? {
        assert (forall k: nat | k < n && actions[k].Start? :: Served(actions, k))
          <==> forall k: nat | k < n - 1 && actions[k].Start? :: Served(actions, k);
      }
    }
  }

  lemma SentStep(actions: seq<Action>, n: nat)
    requires 0 < n <= |actions|
    ensures AllSent(actions[..n]) == AllSent(actions[..n - 1]) + Sent(actions[n - 1])
  {
    assert actions[..n][..n - 1] == actions[..n - 1];
  }

  lemma StartsOfOne(m: Envelope)
    ensures Starts([m]) == if m.valid && m.message.start then 1 else 0
  {
    assert [m][..0] == [];
  }

  lemma StartsOfAction(a: Action)
    ensures Starts(Sent(a)) == if a.Start? then 1 else 0
  {
    hide Starts;
    match a
    case Start(testId, expected, loan) => StartsOfOne(Envelope(StartMessage(testId, expected, loan), true));
    case Stop(testId) => StartsOfOne(Envelope(StopMessage(testId), true));
    case Metadata(message) => StartsOfOne(Envelope(message, false));
    case _ => NoStarts();
  }

  lemma NoStarts()
    ensures Starts([]) == 0
  {}

  lemma {:induction false} StartsSent(actions: seq<Action>, n: nat)
    requires n <= |actions|
    ensures Starts(AllSent(actions[..n])) == StartCount(actions, n)
  {
    hide Starts, AllSent, Sent;
    if n == 0 {
      NothingSent();
      NoStarts();
      assert actions[..0] == [];
    } else {
      StartsSent(actions, n - 1);
      SentStep(actions, n);
      SplitPoll(AllSent(actions[..n - 1]), Sent(actions[n - 1]), NO_CONFIG);
      StartsOfAction(actions[n - 1]);
    }
  }

  lemma NothingSent()
    ensures AllSent([]) == []
  {}

  /** No START is lost exactly when each is followed by two reads before the next START or STOP. */
  lemma NoStartIsLost(actions: seq<Action>, messageCount: int32, loanMode: bool)
    ensures |Run(actions, messageCount, loanMode).receiver.drained| == Starts(AllSent(actions))
      <==> forall k: nat | k < |actions| && actions[k].Start? :: Served(actions, k)
  {
    DrainedAreServed(actions, messageCount, loanMode);
    ServedCount(actions, |actions|);
    StartsSent(actions, |actions|);
    assert actions[..|actions|] == actions;
  }

  /** A START that was read is lost to a STOP polled by the next read. */
  lemma LostToStop(testId: int32, expected: int32, loan: bool, messageCount: int32, loanMode: bool)
    ensures var actions := [Start(testId, expected, loan), ReadTick, Stop(testId), ReadTick, ReadTick];
      Run(actions, messageCount, loanMode).receiver.drained == []
  {
    var actions := [Start(testId, expected, loan), ReadTick, Stop(testId), ReadTick, ReadTick];
    DrainedAreServed(actions, messageCount, loanMode);
    assert !Served(actions, 0) by { assert IsCommand(actions[2]); }
    assert ServedCycles(actions, 1) == [];
    assert ServedCycles(actions, 2) == [];
    assert ServedCycles(actions, 3) == [];
    assert ServedCycles(actions, 4) == [];
  }

  /** A START that was read is lost to another START, without any STOP. */
  lemma LostToStart(a: Action, b: Action, messageCount: int32, loanMode: bool)
    requires a.Start? && b.Start?
    ensures Run([a, ReadTick, b, ReadTick, ReadTick], messageCount, loanMode).receiver.drained == [CycleOf(b)]
  {
    var actions := [a, ReadTick, b, ReadTick, ReadTick];
    DrainedAreServed(actions, messageCount, loanMode);
    assert !Served(actions, 0) by { assert IsCommand(actions[2]); }
    AddReads(actions, 2, 3, 4);
    assert ServedCycles(actions, 1) == [];
    assert ServedCycles(actions, 2) == [];
    assert ServedCycles(actions, 3) == [CycleOf(b)];
    assert ServedCycles(actions, 4) == [CycleOf(b)];
  }
}
