/**
 The publisher test: tick by tick it announces a cycle with a START, streams its batch, sends the STOP six ticks after
 the batch, and rests for six ticks before the next START.
 */
module PublisherTest {
  import opened Control
  import Executive
  import opened Publisher
  import opened Subscriber

  const CYCLES_RESET: nat := 5
  const CYCLE_START: nat := 50

  type count = x: int32 | 0 <= x

  datatype Phase = WaitingMatch | Announce | Streaming

  datatype Setup = Setup(maxTest: int32, messages: count, loan: bool)

  /** What the test remembers; `nextLoaned` is the next id of the publisher, `entityId` the next of the test itself. */
  datatype Driver = Driver(phase: Phase, send: bool, reset: bool, resets: nat, cycle: nat, test: int32,
    entityId: int, nextLoaned: int, ended: bool)

  /** What a tick sends. */
  datatype Emission = Nothing | StartSent(testId: int32) | BatchSent(first: int) | StopSent(testId: int32)

  /** The driver when the ticks begin. Nobody sets the flag for the rest before. */
  function Initial(reset: bool): Driver {
    Driver(Announce, true, reset, 0, 0, 0, 0, 0, false)
  }

  function FinishTest(setup: Setup, d: Driver): Driver {
    var test := AsInt(d.test + 1);
    d.(test := test, ended := d.ended || test >= setup.maxTest)
  }

  function TestReset(setup: Setup, d: Driver): (Driver, Emission) {
    if d.test <= setup.maxTest then
      (FinishTest(setup, d.(entityId := 0, phase := Announce, reset := true)), StopSent(AsInt(d.test + 1)))
    else (FinishTest(setup, d), Nothing)
  }

  /** The reading phase of a tick. */
  function ReadStep(setup: Setup, d: Driver): (Driver, Emission) {
    if !d.reset then (d, Nothing)
    else if d.resets + 1 <= CYCLES_RESET then (d.(resets := d.resets + 1), Nothing)
    else
      var awake := d.(resets := 0, reset := false);
      match d.phase
      case WaitingMatch => (awake, Nothing)
      case Announce => (awake.(send := true), Nothing)
      case Streaming => TestReset(setup, awake)
  }

  /** The writing phase, with what the match counters say, and every write accepted. */
  function WriteStep(setup: Setup, d: Driver, matched: bool): (Driver, Emission) {
    if !d.send || !matched then (d, Nothing)
    else
      match d.phase
      case WaitingMatch => (d, Nothing)
      case Announce =>
        if d.cycle < CYCLE_START then (d.(cycle := d.cycle + 1), Nothing)
        else (d.(cycle := d.cycle + 1, phase := Streaming), StartSent(AsInt(d.test + 1)))
      case Streaming =>
        var sent := d.(reset := true, send := false);
        if setup.loan then (sent.(nextLoaned := d.nextLoaned + setup.messages), BatchSent(d.nextLoaned))
        else (sent.(entityId := d.entityId + setup.messages), BatchSent(d.entityId))
  }

  /** What goes over the control channel. */
  function MessageOf(setup: Setup, e: Emission): seq<Envelope> {
    match e
    case StartSent(testId) => [Envelope(StartMessage(testId, setup.messages, setup.loan), true)]
    case StopSent(testId) => [Envelope(StopMessage(testId), true)]
    case _ => []
  }

  class PubTest {
    const pub: FastPub
    const control: FastPubControl
    const exec: Executive.Executive
    const setup: Setup
    var phase: Phase
    var send: bool
    var reset: bool
    var resets: nat
    var cycle: nat
    var test: int32
    var entityId: int

    ghost function State(): Driver
      reads this, pub, exec
    {
      Driver(phase, send, reset, resets, cycle, test, entityId, pub.currentId, exec.currentState == Executive.END)
    }

    /** Construction and `init`. The flag for the rest is not initialized. */
    constructor (pub: FastPub, control: FastPubControl, exec: Executive.Executive, setup: Setup)
      requires pub.currentId == 0 && exec.currentState != Executive.END
      ensures this.pub == pub && this.control == control && this.exec == exec && this.setup == setup
      ensures State() == Initial(reset)
    {
      this.pub, this.control, this.exec, this.setup := pub, control, exec, setup;
      resets, cycle, test, entityId := 0, 0, 0, 0;
      send, phase, reset := true, Announce, *;
    }

    /** The middleware may refuse the STOP, which changes nothing else. */
    method Read() returns (ghost accepted: bool)
      modifies this, control.channel, exec`currentState
      ensures State() == ReadStep(setup, old(State())).0
      ensures control.channel.fifo == old(control.channel.fifo)
        + if accepted then MessageOf(setup, ReadStep(setup, old(State())).1) else []
      ensures var due := old(reset) && old(resets) >= 5 && old(phase) == Streaming;
        && control.channel.fifo == old(control.channel.fifo)
          + (if due && old(test) <= setup.maxTest && accepted then
               [Envelope(TestControl(AsInt(old(test) + 1), false, 0, false), true)]
             else [])
        && test == (if due then AsInt(old(test) + 1) else old(test))
        && (exec.currentState == Executive.END
          <==> old(exec.currentState) == Executive.END || (due && test >= setup.maxTest))
    {
      accepted := true;
      if reset {
        resets := resets + 1;
        if resets > CYCLES_RESET {
          resets := 0;
          reset := false;
          if phase == Announce {
            send := true;
          }
          if phase == Streaming {
            accepted := ResetTest();
          }
        }
      }
    }

    method ResetTest() returns (ghost accepted: bool)
      modifies this, control.channel, exec`currentState
      ensures var (d, e) := TestReset(setup, old(State()));
        && State() == d
        && control.channel.fifo == old(control.channel.fifo) + if accepted then MessageOf(setup, e) else []
    {
      accepted := true;
      if test <= setup.maxTest {
        var ok := control.PublishStop(AsInt(test + 1));
        accepted := ok;
        entityId := 0;
        phase := Announce;
        reset := true;
      }
      test := AsInt(test + 1);
      if test >= setup.maxTest {
        exec.RequestSimulationEnd();
      }
    }

    /**
     A refused START, or a loaned batch cut short, goes unnoticed; in normal mode a refused sample throws. Otherwise
     the batch has the ids from the one the step says.
     */
    method Write(matched: bool) returns (thrown: bool, ghost accepted: bool)
      requires pub.Valid()
      modifies this, pub`currentId, pub.writer, control.channel
      ensures pub.Valid()
      ensures var (d, e) := WriteStep(setup, old(State()), matched);
        && (!thrown ==> State() == if accepted then d else d.(nextLoaned := pub.currentId))
        && (thrown ==> e.BatchSent? && !setup.loan)
        && control.channel.fifo == old(control.channel.fifo) + (if accepted then MessageOf(setup, e) else [])
        && if e.BatchSent? then
             Streamed(e.first, old(pub.writer.copiedIds), old(pub.writer.writtenIds), !thrown && accepted)
           else pub.writer.copiedIds == old(pub.writer.copiedIds) && pub.writer.writtenIds == old(pub.writer.writtenIds)
      ensures control.channel.fifo == old(control.channel.fifo)
        + if old(send) && matched && old(phase) == Announce && old(cycle) >= 50 && accepted then
            [Envelope(TestControl(AsInt(old(test) + 1), true, setup.messages, setup.loan), true)]
          else []
    {
      thrown, accepted := false, true;
      if !send || !matched {
        return;
      }
      if phase == Announce {
        cycle := cycle + 1;
        if cycle <= CYCLE_START {
          return;
        }
        var ok := control.PublishStart(AsInt(test + 1), setup.messages, setup.loan);
        accepted := ok;
        phase := Streaming;
        return;
      }
      if phase == Streaming {
        thrown, accepted := Stream();
      }
    }

    /** Ids from `first` on were written, in the way of the mode, and all of the batch exactly if it is `complete`. */
    ghost predicate Streamed(first: int, copiedBefore: seq<int>, loanedBefore: seq<int>, complete: bool)
      reads this, pub, pub.writer
    {
      exists n: nat ::
        && n <= setup.messages && (complete <==> n == setup.messages)
        && pub.writer.copiedIds == copiedBefore + (if setup.loan then [] else Numbers(first, n))
        && pub.writer.writtenIds == loanedBefore + if setup.loan then Numbers(first, n) else []
    }

    method Stream() returns (thrown: bool, ghost accepted: bool)
      requires pub.Valid() && phase == Streaming && send
      modifies this, pub`currentId, pub.writer
      ensures pub.Valid()
      ensures thrown ==> !setup.loan && accepted
      ensures var (d, e) := WriteStep(setup, old(State()), true);
        && (!thrown ==> State() == if accepted then d else d.(nextLoaned := pub.currentId))
        && Streamed(e.first, old(pub.writer.copiedIds), old(pub.writer.writtenIds), !thrown && accepted)
    {
      thrown, accepted := false, true;
      if setup.loan {
        var ok;
        ghost var written;
        ok, written := pub.PublishLoan(setup.messages);
        accepted := ok;
        assert old(pub.writer.copiedIds) + [] == old(pub.writer.copiedIds);
      } else {
        thrown := PublishCopies();
        assert old(pub.writer.writtenIds) + [] == old(pub.writer.writtenIds);
        if thrown {
          return;
        }
      }
      reset := true;
      send := false;
    }

    method PublishCopies() returns (thrown: bool)
      requires pub.Valid()
      modifies `entityId, pub.writer`copiedIds, pub.writer`last
      ensures pub.Valid()
      ensures exists n: nat ::
        n <= setup.messages && (thrown <==> n < setup.messages)
        && pub.writer.copiedIds == old(pub.writer.copiedIds) + Numbers(old(entityId), n)
      ensures !thrown ==> entityId == old(entityId) + setup.messages
    {
      for i := 0 to setup.messages
        invariant pub.Valid() && entityId == old(entityId) + i
        invariant pub.writer.copiedIds == old(pub.writer.copiedIds) + Numbers(old(entityId), i)
      {
        var id := entityId;
        entityId := entityId + 1;
        var ok := pub.Publish(id);
        if !ok {
          return true;
        }
        assert Numbers(old(entityId), i + 1) == Numbers(old(entityId), i) + [old(entityId) + i];
      }
      thrown := false;
    }
  }
}
