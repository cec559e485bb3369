/**
 The reader drained cycle after cycle. A drain takes samples and frees no instance, so the ids received over a
 whole run are limited, and what one cycle leaves can be taken by the next.
 */
module ReaderRuns {
  import opened ReaderCache
  import opened Sequences
  import opened Subscriber

  /** What is delivered before a drain, how many ids the drain expects, and whether it takes batches. */
  datatype DrainCycle = DrainCycle(deliveries: seq<Sample>, expected: nat, loan: bool)

  function ReceivedIn(r: Reader, c: DrainCycle): set<int> {
    var queue := AllDelivered(r, c.deliveries).queue;
    ValidIds(if c.loan then queue else First(queue, c.expected))
  }

  function AfterCycle(r: Reader, c: DrainCycle): Reader {
    var full := AllDelivered(r, c.deliveries);
    full.(queue := if c.loan then [] else Rest(full.queue, c.expected))
  }

  /** The loops receive and leave what a cycle says. */
  lemma CycleIsDrain(r: Reader, c: DrainCycle)
    ensures var queue := Wrap(AllDelivered(r, c.deliveries).queue);
      && (c.loan ==> ReceivedIn(r, c) == ValidIds(Samples(queue)))
      && (!c.loan ==> ReceivedIn(r, c) == ValidIds(OneByOne(Pending(queue, []), c.expected)))
      && (!c.loan ==> AfterOneByOne(Pending(queue, []), c.expected) == Pending(Wrap(AfterCycle(r, c).queue), []))
      && (c.loan ==> AfterCycle(r, c).queue == [])
      && AfterCycle(r, c).known == AllDelivered(r, c.deliveries).known
  {
    Taken(AllDelivered(r, c.deliveries).queue, c.expected);
  }

  /** What is queued of the deliveries of a cycle, in a reader with nothing left of the cycles before. */
  function Own(known: set<int>, ds: seq<Sample>): seq<Sample> {
    AllDelivered(Reader(known, []), ds).queue
  }

  /** The ids delivered whose instances were managed or fitted in. */
  function Admitted(known: set<int>, ds: seq<Sample>): set<int> {
    Ids(ds) * AllDelivered(Reader(known, []), ds).known
  }

  lemma OwnIsAdmitted(known: set<int>, ds: seq<Sample>)
    requires |known| <= MAX_INSTANCES
    ensures OnePerId(Own(known, ds)) && Ids(Own(known, ds)) == Admitted(known, ds) <= Ids(ds)
    ensures |Own(known, ds)| == |Admitted(known, ds)|
    ensures AllValid(ds) ==> AllValid(Own(known, ds))
  {
    hide Ids, OnePerId, AllDelivered;
    NothingQueued(known);
    AllDeliveredIds(Reader(known, []), ds);
    SizeIsIds(Own(known, ds));
    QueuedAreDelivered(known, ds);
  }

  /** Which instances a cycle makes known, and that every id is admitted if and only if all fit. */
  lemma Admission(r: Reader, ds: seq<Sample>)
    requires Valid(r)
    ensures var after := AllDelivered(r, ds);
      && Valid(after) && Admitting(r.known, Ids(ds), after.known)
      && Ids(after.queue) <= Ids(r.queue) + Ids(ds)
      && after.known == r.known + Admitted(r.known, ds)
      && (Admitted(r.known, ds) == Ids(ds) <==> |r.known + Ids(ds)| <= MAX_INSTANCES)
  {
    hide Ids, OnePerId, AllDelivered;
    AllDeliveredIds(r, ds);
    LeftAndOwn(r.known, r.queue, ds);
    var after, all := AllDelivered(r, ds).known, r.known + Ids(ds);
    if |all| <= MAX_INSTANCES { SameSize(after, all); }
    assert after == r.known + Ids(ds) * after;
  }

  /** A cycle keeps the reader valid, and what it receives is managed from then on. */
  lemma CycleKeepsValid(r: Reader, c: DrainCycle)
    requires Valid(r)
    ensures Valid(AfterCycle(r, c)) && Admitting(r.known, Ids(c.deliveries), AfterCycle(r, c).known)
    ensures ReceivedIn(r, c) <= AfterCycle(r, c).known
    ensures ReceivedIn(r, c) <= Ids(r.queue) + Ids(c.deliveries)
  {
    hide Ids, OnePerId, AllDelivered, Admitting, ValidIds, First, Rest;
    Admission(r, c.deliveries);
    var full := AllDelivered(r, c.deliveries);
    FirstAndRest(full.queue, c.expected);
    OnePerIdAppend(First(full.queue, c.expected), Rest(full.queue, c.expected));
    IdsAppend(First(full.queue, c.expected), Rest(full.queue, c.expected));
    IdsInFront(full.queue, c.expected);
    NothingQueued(full.known);
  }

  // ----- whole runs

  /** The reader after a run of cycles. */
  function AfterRun(cycles: seq<DrainCycle>): Reader {
    if cycles == [] then NEW_READER else AfterCycle(AfterRun(cycles[..|cycles| - 1]), cycles[|cycles| - 1])
  }

  function DeliveredOver(cycles: seq<DrainCycle>): set<int> {
    if cycles == [] then {} else DeliveredOver(cycles[..|cycles| - 1]) + Ids(cycles[|cycles| - 1].deliveries)
  }

  function ReceivedOver(cycles: seq<DrainCycle>): set<int> {
    if cycles == [] then {} else
      var front := cycles[..|cycles| - 1];
      ReceivedOver(front) + ReceivedIn(AfterRun(front), cycles[|cycles| - 1])
  }

  lemma AdmittingTwice(known: set<int>, a: set<int>, middle: set<int>, b: set<int>, after: set<int>)
    requires Admitting(known, a, middle) && Admitting(middle, b, after)
    ensures Admitting(known, a + b, after)
  {
    var all := known + a;
    assert known + (a + b) == all + b;
    if |all| <= MAX_INSTANCES {
      SameSize(middle, all);
    } else {
      SubsetAtMost(all, all + b);
      SubsetAtMost(middle, middle + b);
    }
  }

  /**
   Over every run, whatever is delivered: the reader manages as many instances as ids were delivered, up to 200,
   and everything ever received is among them. So no more than 200 ids are ever received.
   */
  lemma {:induction false} RunHolds(cycles: seq<DrainCycle>)
    ensures var r := AfterRun(cycles);
      && Valid(r) && r.known <= DeliveredOver(cycles) && |r.known| == Held(DeliveredOver(cycles))
      && ReceivedOver(cycles) <= r.known && |ReceivedOver(cycles)| <= MAX_INSTANCES
      && Admitting({}, DeliveredOver(cycles), r.known)
    decreases |cycles|
  {
    hide Ids, OnePerId, AfterCycle, ReceivedIn;
    if cycles == [] {
      NothingQueued({});
    } else {
      var front, c := cycles[..|cycles| - 1], cycles[|cycles| - 1];
      RunHolds(front);
      CycleKeepsValid(AfterRun(front), c);
      AdmittingTwice({}, DeliveredOver(front), AfterRun(front).known, Ids(c.deliveries), AfterRun(cycles).known);
      assert {} + DeliveredOver(cycles) == DeliveredOver(cycles);
    }
    SubsetAtMost(ReceivedOver(cycles), AfterRun(cycles).known);
  }

  lemma AfterRunStep(cycles: seq<DrainCycle>, k: nat)
    requires k < |cycles|
    ensures AfterRun(cycles[..k + 1]) == AfterCycle(AfterRun(cycles[..k]), cycles[k])
    ensures ReceivedOver(cycles[..k + 1]) == ReceivedOver(cycles[..k]) + ReceivedIn(AfterRun(cycles[..k]), cycles[k])
  {
    assert cycles[..k + 1][..k] == cycles[..k];
  }

  // ----- what is left

  /** The drain takes batches, or expects as many ids as are admitted. */
  predicate DrainsDry(known: set<int>, c: DrainCycle) {
    c.loan || |Admitted(known, c.deliveries)| <= c.expected
  }

  lemma DryCycle(known: set<int>, c: DrainCycle)
    requires |known| <= MAX_INSTANCES
    ensures AfterCycle(Reader(known, []), c).queue == [] <==> DrainsDry(known, c)
  {
    hide Admitted;
    OwnIsAdmitted(known, c.deliveries);
  }

  lemma {:induction false} DryCyclesLeaveNothing(cycles: seq<DrainCycle>, k: nat)
    requires k <= |cycles|
    requires forall i | 0 <= i < |cycles| :: DrainsDry(AfterRun(cycles[..i]).known, cycles[i])
    ensures AfterRun(cycles[..k]).queue == []
  {
    hide AfterCycle, DrainsDry;
    if k > 0 {
      DryCyclesLeaveNothing(cycles, k - 1);
      AfterRunStep(cycles, k - 1);
      RunHolds(cycles[..k - 1]);
      DryCycle(AfterRun(cycles[..k - 1]).known, cycles[k - 1]);
    }
  }

  /** Over every run, no cycle leaves anything if and only if each of them drains dry. */
  lemma {:induction false} NothingLeft(cycles: seq<DrainCycle>)
    ensures (forall k | 0 <= k <= |cycles| :: AfterRun(cycles[..k]).queue == [])
      <==> forall k | 0 <= k < |cycles| :: DrainsDry(AfterRun(cycles[..k]).known, cycles[k])
  {
    hide AfterRun, AfterCycle, DrainsDry;
    if forall k | 0 <= k < |cycles| :: DrainsDry(AfterRun(cycles[..k]).known, cycles[k]) {
      forall k | 0 <= k <= |cycles| ensures AfterRun(cycles[..k]).queue == [] {
        DryCyclesLeaveNothing(cycles, k);
      }
    }
    if forall k | 0 <= k <= |cycles| :: AfterRun(cycles[..k]).queue == [] {
      forall k | 0 <= k < |cycles| ensures DrainsDry(AfterRun(cycles[..k]).known, cycles[k]) {
        AfterRunStep(cycles, k);
        assert AfterRun(cycles[..k]).queue == [] && AfterRun(cycles[..k + 1]).queue == [];
        RunHolds(cycles[..k]);
        DryCycle(AfterRun(cycles[..k]).known, cycles[k]);
      }
    }
  }

  /** With nothing left before a cycle, and valid samples only: the ids received are counted by what is admitted. */
  lemma CountOfCycle(known: set<int>, c: DrainCycle)
    requires AllValid(c.deliveries) && |known| <= MAX_INSTANCES
    ensures var received, admitted := ReceivedIn(Reader(known, []), c), Admitted(known, c.deliveries);
      && received <= admitted
      && |received| == if DrainsDry(known, c) then |admitted| else c.expected
  {
    hide Ids, ValidIds, Admitted, OnePerId;
    OwnIsAdmitted(known, c.deliveries);
    IdsInFront(Own(known, c.deliveries), c.expected);
  }

  /**
   If every cycle drains dry and every sample is valid, exactly the ids of the managed instances are received over
   the run: as many as were delivered, up to 200.
   */
  lemma DryRunReceives(cycles: seq<DrainCycle>)
    requires forall i | 0 <= i < |cycles| :: AllValid(cycles[i].deliveries)
    requires forall i | 0 <= i < |cycles| :: DrainsDry(AfterRun(cycles[..i]).known, cycles[i])
    ensures ReceivedOver(cycles) == AfterRun(cycles).known && |ReceivedOver(cycles)| == Held(DeliveredOver(cycles))
  {
    hide *;
    DryCyclesReceive(cycles, |cycles|);
    assert cycles[..|cycles|] == cycles;
    RunHolds(cycles);
  }

  lemma {:induction false} DryCyclesReceive(cycles: seq<DrainCycle>, k: nat)
    requires k <= |cycles|
    requires forall i | 0 <= i < |cycles| :: AllValid(cycles[i].deliveries)
    requires forall i | 0 <= i < |cycles| :: DrainsDry(AfterRun(cycles[..i]).known, cycles[i])
    ensures ReceivedOver(cycles[..k]) == AfterRun(cycles[..k]).known
  {
    hide *;
    if k == 0 {
      assert cycles[..0] == [];
      StartOfRun();
    } else {
      DryCyclesReceive(cycles, k - 1);
      DryCyclesLeaveNothing(cycles, k - 1);
      AfterRunStep(cycles, k - 1);
      RunHolds(cycles[..k - 1]);
      DryCycleReceives(AfterRun(cycles[..k - 1]).known, cycles[k - 1]);
    }
  }

  lemma StartOfRun()
    ensures AfterRun([]).known == ReceivedOver([])
  {}

  lemma DryCycleReceives(known: set<int>, c: DrainCycle)
    requires |known| <= MAX_INSTANCES && AllValid(c.deliveries) && DrainsDry(known, c)
    ensures known + ReceivedIn(Reader(known, []), c) == AfterCycle(Reader(known, []), c).known
  {
    hide Ids, ReceivedIn, Admitted;
    CountOfCycle(known, c);
    SameSize(ReceivedIn(Reader(known, []), c), Admitted(known, c.deliveries));
    NothingQueued(known);
    Admission(Reader(known, []), c.deliveries);
  }

  /**
   A batch of `own` ids to a reader with nothing left, of which samples may be lost, repeated and reordered: the
   drain leaves nothing, and reports the batch received exactly when no id of it was lost, and none refused for
   want of a free instance.
   */
  lemma OwnBatch(known: set<int>, c: DrainCycle, own: set<int>)
    requires AllValid(c.deliveries) && |known| <= MAX_INSTANCES && Ids(c.deliveries) <= own && |own| == c.expected
    ensures var received := ReceivedIn(Reader(known, []), c);
      && DrainsDry(known, c) && received == Admitted(known, c.deliveries)
      && (|received| == c.expected <==> received == own)
      && (received == own <==> Ids(c.deliveries) == own && |known + own| <= MAX_INSTANCES)
  {
    hide Ids, Admitted, ReceivedIn, OnePerId;
    OwnIsAdmitted(known, c.deliveries);
    SubsetAtMost(Admitted(known, c.deliveries), own);
    CountOfCycle(known, c);
    NothingQueued(known);
    Admission(Reader(known, []), c.deliveries);
    var received := ReceivedIn(Reader(known, []), c);
    SameSize(received, Admitted(known, c.deliveries));
    if |received| == c.expected { SameSize(received, own); }
  }
}
