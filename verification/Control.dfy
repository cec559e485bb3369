/**
 The START/STOP control channel between the test drivers, and the subscriber test that obeys it: it
 polls the channel at every read, and drains the samples of one cycle for a START it has seen.
 */
module Control {
  import Executive
  import opened Subscriber
  import opened Sequences

  datatype TestControl = TestControl(testId: int32, start: bool, expectedEntities: int32, loan: bool)

  datatype TestConfig = TestConfig(testId: int32, expectedEntities: int32, loan: bool, active: bool)

  /** A message in the channel; metadata samples carry no valid message. */
  datatype Envelope = Envelope(message: TestControl, valid: bool)

  const NO_CONFIG: TestConfig := TestConfig(0, 0, false, false)

  function StartMessage(testId: int32, expected: int32, loan: bool): TestControl {
    TestControl(testId, true, expected, loan)
  }

  function StopMessage(testId: int32): TestControl {
    TestControl(testId, false, 0, false)
  }

  function Configured(m: TestControl): TestConfig {
    TestConfig(m.testId, m.expectedEntities, m.loan, m.start)
  }

  // ----- what a poll makes of the channel

  predicate HasValid(ms: seq<Envelope>) {
    exists m :: m in ms && m.valid
  }

  /** The configuration of the newest valid message, or the old one if there is none. */
  function NewestValid(ms: seq<Envelope>, last: TestConfig): TestConfig {
    if ms == [] then last else
    if ms[|ms| - 1].valid then Configured(ms[|ms| - 1].message) else NewestValid(ms[..|ms| - 1], last)
  }

  function Starts(ms: seq<Envelope>): nat {
    if ms == [] then 0 else
      Starts(ms[..|ms| - 1]) + if ms[|ms| - 1].valid && ms[|ms| - 1].message.start then 1 else 0
  }

  lemma NewestOfOne(ms: seq<Envelope>, m: Envelope, last: TestConfig)
    ensures NewestValid(ms + [m], last) == if m.valid then Configured(m.message) else NewestValid(ms, last)
    ensures Starts(ms + [m]) == Starts(ms) + if m.valid && m.message.start then 1 else 0
  {
    assert (ms + [m])[..|ms|] == ms;
  }

  /** Polling in two goes ends where one poll ends. */
  lemma {:induction false} SplitPoll(a: seq<Envelope>, b: seq<Envelope>, last: TestConfig)
    ensures NewestValid(a + b, last) == NewestValid(b, NewestValid(a, last))
    ensures HasValid(a + b) <==> HasValid(a) || HasValid(b)
    ensures Starts(a + b) == Starts(a) + Starts(b)
    decreases |b|
  {
    if b == [] {
      assert a + b == a;
    } else {
      var front, m := b[..|b| - 1], b[|b| - 1];
      SplitPoll(a, front, last);
      assert b == front + [m] && a + b == (a + front) + [m];
      NewestOfOne(a + front, m, last);
      NewestOfOne(front, m, NewestValid(a, last));
      HasValidAppend(a, b);
    }
  }

  lemma HasValidAppend(a: seq<Envelope>, b: seq<Envelope>)
    ensures HasValid(a + b) <==> HasValid(a) || HasValid(b)
  {
    forall m | m in a || m in b ensures m in a + b {}
  }

  /** Nothing in front of a valid message matters. */
  lemma OnlyNewestMatters(a: seq<Envelope>, m: Envelope, b: seq<Envelope>, last: TestConfig, other: TestConfig)
    requires m.valid
    ensures NewestValid(a + ([m] + b), last) == NewestValid([m] + b, other)
  {
    SplitPoll(a, [m] + b, last);
    SplitPoll([m], b, NewestValid(a, last));
    SplitPoll([m], b, other);
  }

  lemma {:induction false} NoValidKeepsLast(ms: seq<Envelope>, last: TestConfig)
    requires !HasValid(ms)
    ensures NewestValid(ms, last) == last && Starts(ms) == 0
    decreases |ms|
  {
    if ms != [] {
      assert ms[|ms| - 1] in ms;
      forall m | m in ms[..|ms| - 1] ensures m in ms {}
      NoValidKeepsLast(ms[..|ms| - 1], last);
    }
  }

  lemma {:induction false} ActiveComesFromStart(ms: seq<Envelope>, last: TestConfig)
    requires HasValid(ms) && NewestValid(ms, last).active
    ensures Starts(ms) > 0
    decreases |ms|
  {
    var front, m := ms[..|ms| - 1], ms[|ms| - 1];
    assert ms == front + [m];
    if !m.valid {
      HasValidAppend(front, [m]);
      ActiveComesFromStart(front, last);
    }
  }

  // ----- the two ends of the channel

  class Channel {
    var fifo: seq<Envelope>

    constructor ()
      ensures fifo == []
    {
      fifo := [];
    }

    method TakeNextSample() returns (ok: bool, m: Envelope)
      modifies this
      ensures ok <==> old(fifo) != []
      ensures ok ==> [m] + fifo == old(fifo)
      ensures !ok ==> fifo == []
    {
      ok, m := fifo != [], Envelope(StopMessage(0), false);
      if ok {
        m, fifo := fifo[0], fifo[1..];
      }
    }

    /** The middleware may refuse a message. */
    method Write(m: TestControl) returns (ok: bool)
      modifies this
      ensures fifo == if ok then old(fifo) + [Envelope(m, true)] else old(fifo)
    {
      ok := *;
      if ok {
        fifo := fifo + [Envelope(m, true)];
      }
    }
  }

  /** The matches a listener has counted: it counts a change only when it is by one. */
  class Listener {
    var matched: int
    ghost var changes: seq<int>

    ghost predicate Valid()
      reads this
    {
      matched == Counted(changes)
    }

    constructor ()
      ensures Valid() && changes == []
    {
      matched, changes := 0, [];
    }

    method OnMatched(currentCountChange: int)
      requires Valid()
      modifies this
      ensures Valid() && changes == old(changes) + [currentCountChange]
    {
      changes := changes + [currentCountChange];
      assert changes[..|changes| - 1] == old(changes);
      if currentCountChange == 1 {
        matched := matched + 1;
      } else if currentCountChange == -1 {
        matched := matched - 1;
      }
    }
  }

  function Counted(changes: seq<int>): int {
    if changes == [] then 0 else
      var c := changes[|changes| - 1];
      Counted(changes[..|changes| - 1]) + if c == 1 || c == -1 then c else 0
  }

  function Total(changes: seq<int>, counting: int -> bool): int {
    if changes == [] then 0 else
      var c := changes[|changes| - 1];
      Total(changes[..|changes| - 1], counting) + if counting(c) then c else 0
  }

  /**
   The counter is the number of matches exactly when the changes by other than one add up to nothing.
   A single change by two, say, is missed.
   */
  lemma {:induction false} CountsMatches(changes: seq<int>)
    ensures Counted(changes) == Total(changes, _ => true) <==> Total(changes, c => c != 1 && c != -1) == 0
    ensures Counted([2]) == 0 && Total([2], _ => true) == 2
  {
    CountedIsTheRest(changes);
    assert [2][..0] == [];
  }

  lemma {:induction false} CountedIsTheRest(changes: seq<int>)
    ensures Counted(changes) == Total(changes, _ => true) - Total(changes, c => c != 1 && c != -1)
    decreases |changes|
  {
    if changes != [] { CountedIsTheRest(changes[..|changes| - 1]); }
  }

  class FastPubControl {
    const channel: Channel

    constructor (channel: Channel)
      ensures this.channel == channel
    {
      this.channel := channel;
    }

    method PublishStart(testId: int32, expected: int32, loan: bool) returns (ok: bool)
      modifies channel
      ensures channel.fifo == old(channel.fifo)
        + if ok then [Envelope(TestControl(testId, true, expected, loan), true)] else []
    {
      var m := TestControl(0, false, 0, false);
      m := m.(testId := testId);
      m := m.(start := true);
      m := m.(expectedEntities := expected);
      m := m.(loan := loan);
      ok := channel.Write(m);
    }

    method PublishStop(testId: int32) returns (ok: bool)
      modifies channel
      ensures channel.fifo == old(channel.fifo)
        + if ok then [Envelope(TestControl(testId, false, 0, false), true)] else []
    {
      var m := TestControl(0, false, 0, false);
      m := m.(testId := testId);
      m := m.(start := false);
      ok := channel.Write(m);
    }
  }

  class FastSubControl {
    const channel: Channel
    var last: TestConfig

    constructor (channel: Channel)
      ensures this.channel == channel && last == NO_CONFIG
    {
      this.channel, last := channel, NO_CONFIG;
    }

    /** Drains the channel; the newest valid message counts. */
    method PollControl(before: TestConfig) returns (applied: bool, out: TestConfig)
      modifies this, channel
      ensures channel.fifo == []
      ensures last == NewestValid(old(channel.fifo), old(last))
      ensures old(channel.fifo) != [] && old(channel.fifo)[|old(channel.fifo)| - 1].valid ==>
        var m := old(channel.fifo)[|old(channel.fifo)| - 1].message;
        last == TestConfig(m.testId, m.expectedEntities, m.loan, m.start)
      ensures applied <==> HasValid(old(channel.fifo))
      ensures out == if applied then last else before
    {
      ghost var fifo, taken := channel.fifo, [];
      applied, out := false, before;
      var ok, m := channel.TakeNextSample();
      while ok
        invariant ok ==> fifo == taken + ([m] + channel.fifo)
        invariant !ok ==> fifo == taken && channel.fifo == []
        invariant last == NewestValid(taken, old(last)) && (applied <==> HasValid(taken))
        invariant out == if applied then last else before
        decreases ok, |channel.fifo|
      {
        NewestOfOne(taken, m, old(last));
        HasValidAppend(taken, [m]);
        Associative(taken, [m], channel.fifo);
        taken := taken + [m];
        if m.valid {
          last := last.(testId := m.message.testId);
          last := last.(expectedEntities := m.message.expectedEntities);
          last := last.(loan := m.message.loan);
          last := last.(active := m.message.start);
          out := last;
          applied := true;
        }
        ok, m := channel.TakeNextSample();
      }
    }
  }

  // ----- the subscriber test

  /** The expectation and the way of draining of one test. */
  datatype Cycle = Cycle(expected: int32, loan: bool)

  /** What the subscriber test remembers, and the cycles it has drained. */
  datatype Receiver = Receiver(last: TestConfig, active: bool, cycle: Cycle, drained: seq<Cycle>)

  /** One read with these messages in the channel. */
  function Read(r: Receiver, fifo: seq<Envelope>): Receiver {
    var last := NewestValid(fifo, r.last);
    if HasValid(fifo) && last.active then
      r.(last := last, active := true, cycle := Cycle(last.expectedEntities, last.loan))
    else if HasValid(fifo) then
      r.(last := last, active := false, cycle := Cycle(last.expectedEntities, last.loan))
    else if r.active then
      r.(active := false, drained := r.drained + [r.cycle])
    else r
  }

  class SubTest {
    const sub: FastSub
    const subControl: FastSubControl
    const exec: Executive.Executive
    const maxTest: int32
    var testActive: bool
    var loan: bool
    var currentTest: nat
    var totalLostSamples: int
    /** The return values of the drains, as the test validation counts them. */
    var results: seq<bool>
    ghost var drained: seq<Cycle>

    ghost function State(): Receiver
      reads this, sub, subControl
    {
      Receiver(subControl.last, testActive, Cycle(sub.expectedMessagesCycle, loan), drained)
    }

    constructor (sub: FastSub, subControl: FastSubControl, exec: Executive.Executive, messageCount: int32,
        testCount: int32, loanMode: bool)
      modifies sub`expectedMessagesCycle
      ensures this.sub == sub && this.subControl == subControl && this.exec == exec && maxTest == testCount
        && currentTest == 0
      ensures State() == Receiver(subControl.last, false, Cycle(messageCount, loanMode), []) && results == []
    {
      this.sub, this.subControl, this.exec, maxTest := sub, subControl, exec, testCount;
      testActive, loan := false, loanMode;
      currentTest, totalLostSamples, results, drained := 0, 0, [], [];
      new;
      sub.expectedMessagesCycle := messageCount;
    }

    /** Counts a test with its result, and asks for the end of the simulation after the last one. */
    method FinishTest(result: bool)
      modifies `currentTest, `results, exec`currentState
      ensures currentTest == old(currentTest) + 1 && results == old(results) + [result]
      ensures exec.currentState == if currentTest >= maxTest then Executive.END else old(exec.currentState)
    {
      results := results + [result];
      currentTest := currentTest + 1;
      if currentTest >= maxTest {
        exec.RequestSimulationEnd();
      }
    }

    method ReadTick()
      modifies this, sub, sub.reader, subControl, subControl.channel, exec`currentState
      ensures State() == Read(old(State()), old(subControl.channel.fifo))
      ensures subControl.channel.fifo == []
      ensures drained == old(drained) ==>
        && currentTest == old(currentTest) && totalLostSamples == old(totalLostSamples) && results == old(results)
        && sub.reader.State() == old(sub.reader.State()) && exec.currentState == old(exec.currentState)
      ensures drained != old(drained) ==>
        && currentTest == old(currentTest) + 1 && |results| == |old(results)| + 1 && sub.receivedIds == {}
        && (!loan ==>
          sub.reader.State() == AfterOneByOne(old(sub.reader.State()), AsSize(sub.expectedMessagesCycle)))
        && (!loan || old(sub.reader.arriving) == [] ==>
          Accounted(Report(old(sub.reader.State())), old(results), old(totalLostSamples)))
        && exec.currentState == if currentTest >= maxTest then Executive.END else old(exec.currentState)
      ensures sub.reader.loans == old(sub.reader.loans)
    {
      hide NewestValid, HasValid, Verdict;
      var applied, config := subControl.PollControl(NO_CONFIG);
      if applied {
        sub.expectedMessagesCycle := config.expectedEntities;
        testActive := config.active;
        loan := config.loan;
        if testActive {
          return;
        }
      }
      NoNews(old(subControl.channel.fifo), old(subControl.last));
      if testActive {
        RunTest();
      }
    }

    /** What a drain of the reader in this state reports, for the expectation and the way of draining in force. */
    ghost function Report(p: Pending): Outcome
      reads this, sub
    {
      var ids := ValidIds(if loan then Samples(p.queue) else OneByOne(p, AsSize(sub.expectedMessagesCycle)));
      Verdict(ids, sub.expectedMessagesCycle, 0)
    }

    /** The report is added to the results and the losses. */
    ghost predicate Accounted(report: Outcome, resultsBefore: seq<bool>, lostBefore: int)
      reads this
    {
      results == resultsBefore + [report.allReceived] && totalLostSamples == lostBefore + report.lost
    }

    /** Drains the cycle the test was started for, and accounts for it. */
    method RunTest()
      modifies this, sub, sub.reader, exec`currentState
      ensures subControl.last == old(subControl.last)
      ensures State() == old(State()).(active := false, drained := old(drained) + [old(State()).cycle])
      ensures sub.receivedIds == {}
      ensures !loan ==> sub.reader.State() == AfterOneByOne(old(sub.reader.State()), AsSize(sub.expectedMessagesCycle))
      ensures currentTest == old(currentTest) + 1 && |results| == |old(results)| + 1
      ensures !loan || old(sub.reader.arriving) == [] ==>
        Accounted(Report(old(sub.reader.State())), old(results), old(totalLostSamples))
      ensures exec.currentState == if currentTest >= maxTest then Executive.END else old(exec.currentState)
      ensures sub.reader.loans == old(sub.reader.loans)
    {
      hide OneByOne, ValidIds, AfterOneByOne, Stream, Samples, Verdict;
      var allReceived, lost;
      if !loan {
        allReceived, lost := sub.RunWithoutLoan(0);
      } else {
        ghost var taken;
        allReceived, lost, taken := sub.RunWithLoan(0);
      }
      totalLostSamples := totalLostSamples + lost;
      drained := drained + [Cycle(sub.expectedMessagesCycle, loan)];
      FinishTest(allReceived);
      sub.ResetSamples();
      testActive := false;
    }
  }

  lemma NoNews(fifo: seq<Envelope>, last: TestConfig)
    ensures !HasValid(fifo) ==> NewestValid(fifo, last) == last
  {
    if !HasValid(fifo) { NoValidKeepsLast(fifo, last); }
  }

  // ----- whole runs

  /** `Pass` is a step of the publisher that sends nothing over the channel. */
  datatype Action =
    | Start(testId: int32, expected: int32, loan: bool)
    | Stop(testId: int32)
    | Metadata(message: TestControl)
    | Pass
    | ReadTick

  function Sent(a: Action): seq<Envelope> {
    match a
    case Start(testId, expected, loan) => [Envelope(StartMessage(testId, expected, loan), true)]
    case Stop(testId) => [Envelope(StopMessage(testId), true)]
    case Metadata(message) => [Envelope(message, false)]
    case _ => []
  }

  function AllSent(actions: seq<Action>): seq<Envelope> {
    if actions == [] then [] else AllSent(actions[..|actions| - 1]) + Sent(actions[|actions| - 1])
  }

  /** The receiver, the messages it has polled, and those still in the channel. */
  datatype System = System(receiver: Receiver, polled: seq<Envelope>, fifo: seq<Envelope>)

  function Step(s: System, a: Action): System {
    if a.ReadTick? then System(Read(s.receiver, s.fifo), s.polled + s.fifo, [])
    else s.(fifo := s.fifo + Sent(a))
  }

  /** The system after the actions, started with the configuration of the command line. */
  function Run(actions: seq<Action>, messageCount: int32, loanMode: bool): System {
    if actions == [] then System(Receiver(NO_CONFIG, false, Cycle(messageCount, loanMode), []), [], [])
    else Step(Run(actions[..|actions| - 1], messageCount, loanMode), actions[|actions| - 1])
  }

  /** A message that does not start a test expects nothing and lends nothing. */
  ghost predicate Idle(ms: seq<Envelope>) {
    forall m | m in ms :: m.valid && !m.message.start ==> m.message.expectedEntities == 0 && !m.message.loan
  }

  ghost predicate Requested(ms: seq<Envelope>, c: Cycle) {
    exists m :: m in ms && m.valid && m.message.start && c == Cycle(m.message.expectedEntities, m.message.loan)
  }

  ghost predicate Consistent(s: System) {
    && s.receiver.last == NewestValid(s.polled, NO_CONFIG)
    && (s.receiver.active ==>
      s.receiver.last.active && s.receiver.cycle == Cycle(s.receiver.last.expectedEntities, s.receiver.last.loan))
    && (s.receiver.active ==> Requested(s.polled, s.receiver.cycle))
    && (forall c | c in s.receiver.drained :: Requested(s.polled, c))
    && |s.receiver.drained| + (if s.receiver.active then 1 else 0) <= Starts(s.polled)
  }

  lemma {:induction false} NewestWasRequested(ms: seq<Envelope>, last: TestConfig)
    requires HasValid(ms) && NewestValid(ms, last).active
    ensures Requested(ms, Cycle(NewestValid(ms, last).expectedEntities, NewestValid(ms, last).loan))
    decreases |ms|
  {
    var front, m := ms[..|ms| - 1], ms[|ms| - 1];
    assert ms == front + [m];
    if m.valid {
      assert m in ms;
    } else {
      HasValidAppend(front, [m]);
      NewestWasRequested(front, last);
      RequestedAppend(front, [m], Cycle(NewestValid(front, last).expectedEntities, NewestValid(front, last).loan));
    }
  }

  lemma RequestedAppend(a: seq<Envelope>, b: seq<Envelope>, c: Cycle)
    ensures Requested(a, c) || Requested(b, c) ==> Requested(a + b, c)
  {
    forall m | m in a || m in b ensures m in a + b {}
  }

  lemma ReadKeepsConsistent(s: System)
    requires Consistent(s)
    ensures Consistent(Step(s, ReadTick))
  {
    var r, polled := Step(s, ReadTick).receiver, s.polled + s.fifo;
    SplitPoll(s.polled, s.fifo, NO_CONFIG);
    forall c | Requested(s.polled, c) || Requested(s.fifo, c) ensures Requested(polled, c) {
      RequestedAppend(s.polled, s.fifo, c);
    }
    if HasValid(s.fifo) {
      if r.active {
        ActiveComesFromStart(s.fifo, s.receiver.last);
        NewestWasRequested(s.fifo, s.receiver.last);
      }
    } else {
      NoValidKeepsLast(s.fifo, s.receiver.last);
    }
  }

  /**
   Over every run: the configuration is that of the newest valid message polled, every cycle drained
   was asked for by a START, and no more cycles are drained than STARTs were polled.
   */
  lemma {:induction false} EveryRunIsConsistent(actions: seq<Action>, messageCount: int32, loanMode: bool)
    ensures var s := Run(actions, messageCount, loanMode);
      && Consistent(s) && AllSent(actions) == s.polled + s.fifo
      && s.receiver.last == NewestValid(s.polled, NO_CONFIG)
      && (forall c | c in s.receiver.drained :: exists m ::
        m in s.polled && m.valid && m.message.start && c == Cycle(m.message.expectedEntities, m.message.loan))
      && |s.receiver.drained| <= Starts(s.polled)
    decreases |actions|
  {
    if actions != [] {
      var front, a := actions[..|actions| - 1], actions[|actions| - 1];
      var s := Run(front, messageCount, loanMode);
      EveryRunIsConsistent(front, messageCount, loanMode);
      if a.ReadTick? {
        ReadKeepsConsistent(s);
        assert AllSent(actions) == AllSent(front) + [];
      } else {
        Associative(s.polled, s.fifo, Sent(a));
      }
    }
  }

  lemma {:induction false} SentIsIdle(actions: seq<Action>)
    ensures Idle(AllSent(actions))
    decreases |actions|
  {
    if actions != [] { SentIsIdle(actions[..|actions| - 1]); }
  }

  lemma {:induction false} NewestIsIdle(ms: seq<Envelope>)
    requires Idle(ms) && !NewestValid(ms, NO_CONFIG).active
    ensures NewestValid(ms, NO_CONFIG).expectedEntities == 0 && !NewestValid(ms, NO_CONFIG).loan
    decreases |ms|
  {
    if ms != [] {
      assert ms[|ms| - 1] in ms;
      if !ms[|ms| - 1].valid { NewestIsIdle(ms[..|ms| - 1]); }
    }
  }

  /** An inactive configuration never expects entities nor lends. */
  lemma InactiveIsIdle(actions: seq<Action>, messageCount: int32, loanMode: bool)
    requires !Run(actions, messageCount, loanMode).receiver.last.active
    ensures Run(actions, messageCount, loanMode).receiver.last.expectedEntities == 0
    ensures !Run(actions, messageCount, loanMode).receiver.last.loan
  {
    var s := Run(actions, messageCount, loanMode);
    EveryRunIsConsistent(actions, messageCount, loanMode);
    SentIsIdle(actions);
    forall m | m in s.polled ensures m in AllSent(actions) {}
    NewestIsIdle(s.polled);
  }

  /** After a read, the configuration depends on what was sent, not on when it was polled. */
  lemma ScheduleIsIrrelevant(actions: seq<Action>, messageCount: int32, loanMode: bool)
    ensures var s := Run(actions + [ReadTick], messageCount, loanMode);
      s.fifo == [] && s.receiver.last == NewestValid(AllSent(actions), NO_CONFIG)
  {
    var all := actions + [ReadTick];
    EveryRunIsConsistent(all, messageCount, loanMode);
    assert all[..|all| - 1] == actions && all[|all| - 1] == ReadTick;
    assert AllSent(all) == AllSent(actions) + [] == AllSent(actions);
    assert Run(all, messageCount, loanMode).polled + [] == Run(all, messageCount, loanMode).polled;
  }
}
