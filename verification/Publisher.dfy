/**
 Publishing: in loan mode every sample is filled in a buffer lent by the writer, then written, or offered back when
 writing fails. What the middleware answers is arbitrary.
 */
module Publisher {
  import opened ReaderCache
  import opened ReaderRuns
  import opened Subscriber

  /** What a writer answered last. */
  datatype Event = Created | Loaned | LoanRefused | Written | WriteRefused | Discarded(accepted: bool)

  ghost predicate Increasing(s: seq<int>) {
    forall i, j :: 0 <= i < j < |s| ==> s[i] < s[j]
  }

  ghost predicate Below(s: seq<int>, bound: int) {
    forall i :: 0 <= i < |s| ==> s[i] < bound
  }

  /** The numbers from `first` on. */
  function Numbers(first: int, n: nat): (r: seq<int>)
    ensures |r| == n && forall i :: 0 <= i < n ==> r[i] == first + i
  {
    seq(n, i => first + i)
  }

  class DataWriter {
    /** The ids written in loaned buffers, and those written from buffers of the caller, each in order. */
    ghost var writtenIds: seq<int>
    ghost var copiedIds: seq<int>
    /** The loans obtained, and those written or offered back, each in order. */
    ghost var obtained: seq<nat>
    ghost var settled: seq<nat>
    var last: Event
    var nextLoan: nat
    var outstanding: set<nat>

    ghost predicate Valid()
      reads this
    {
      && (forall loan :: loan in outstanding ==> loan < nextLoan)
      && Below(obtained, nextLoan) && Increasing(obtained)
    }

    constructor ()
      ensures Valid() && writtenIds == [] && copiedIds == [] && obtained == [] && settled == [] && outstanding == {}
    {
      writtenIds, copiedIds, obtained, settled, last, nextLoan, outstanding := [], [], [], [], Created, 0, {};
    }

    method LoanSample() returns (ok: bool, loan: nat)
      requires Valid()
      modifies `obtained, `last, `nextLoan, `outstanding
      ensures Valid()
      ensures last == if ok then Loaned else LoanRefused
      ensures ok ==> loan !in old(outstanding)
      ensures ok ==> outstanding == old(outstanding) + {loan} && obtained == old(obtained) + [loan]
      ensures !ok ==> outstanding == old(outstanding) && obtained == old(obtained)
    {
      ok, loan := *, nextLoan;
      if ok {
        obtained, outstanding, nextLoan := obtained + [loan], outstanding + {loan}, nextLoan + 1;
      }
      last := if ok then Loaned else LoanRefused;
    }

    method Write(loan: nat, id: int) returns (ok: bool)
      requires Valid() && loan in outstanding
      modifies `writtenIds, `settled, `last, `outstanding
      ensures Valid() && last == if ok then Written else WriteRefused
      ensures ok ==> writtenIds == old(writtenIds) + [id]
      ensures ok ==> settled == old(settled) + [loan] && outstanding == old(outstanding) - {loan}
      ensures !ok ==> writtenIds == old(writtenIds) && settled == old(settled) && outstanding == old(outstanding)
    {
      ok := *;
      if ok {
        writtenIds, settled, outstanding := writtenIds + [id], settled + [loan], outstanding - {loan};
      }
      last := if ok then Written else WriteRefused;
    }

    method WriteCopy(id: int) returns (ok: bool)
      requires Valid()
      modifies `copiedIds, `last
      ensures Valid() && last == if ok then Written else WriteRefused
      ensures copiedIds == if ok then old(copiedIds) + [id] else old(copiedIds)
    {
      ok := *;
      if ok {
        copiedIds := copiedIds + [id];
      }
      last := if ok then Written else WriteRefused;
    }

    method DiscardLoan(loan: nat) returns (ok: bool)
      requires Valid() && loan in outstanding
      modifies `settled, `last, `outstanding
      ensures Valid() && last == Discarded(ok) && settled == old(settled) + [loan]
      ensures outstanding == if ok then old(outstanding) - {loan} else old(outstanding)
    {
      ok := *;
      last, settled := Discarded(ok), settled + [loan];
      if ok {
        outstanding := outstanding - {loan};
      }
    }
  }

  class FastPub {
    const writer: DataWriter
    var currentId: int

    /**
     Kept by every call, whatever the middleware answers: published ids increase strictly, and the
     loans obtained are, one after the other, the loans written or offered back.
     */
    ghost predicate Valid()
      reads this, writer
    {
      && writer.Valid()
      && Increasing(writer.writtenIds) && Below(writer.writtenIds, currentId)
      && writer.obtained == writer.settled
    }

    constructor (writer: DataWriter)
      requires writer.Valid()
      requires writer.writtenIds == [] && writer.obtained == [] && writer.settled == []
      ensures Valid() && this.writer == writer && currentId == 0
    {
      this.writer, currentId := writer, 0;
    }

    /** Writes a sample of the caller under the id the caller gave it. */
    method Publish(id: int) returns (ok: bool)
      requires Valid()
      modifies writer`copiedIds, writer`last
      ensures Valid()
      ensures writer.copiedIds == if ok then old(writer.copiedIds) + [id] else old(writer.copiedIds)
    {
      ok := writer.WriteCopy(id);
    }

    /**
     The ids written are the next ones in order. A call that fails does so for one of two reasons; an
     id whose sample was refused is used up, and its loan stays out if it is refused as well.
     */
    method PublishLoan(count: nat) returns (ok: bool, ghost written: nat)
      requires Valid()
      modifies `currentId, writer
      ensures Valid() && writer.copiedIds == old(writer.copiedIds)
      ensures forall i, j :: 0 <= i < j < |writer.writtenIds| ==> writer.writtenIds[i] < writer.writtenIds[j]
      ensures writer.obtained == writer.settled
      ensures written <= count && (ok <==> written == count)
      ensures writer.writtenIds == old(writer.writtenIds) + Numbers(old(currentId), written)
      ensures ok ==> currentId == old(currentId) + count && writer.outstanding == old(writer.outstanding)
      ensures !ok ==> Failed(old(currentId) + written, old(writer.outstanding))
    {
      written := 0;
      for i := 0 to count
        invariant Valid() && written == i && writer.copiedIds == old(writer.copiedIds)
        invariant currentId == old(currentId) + i
        invariant writer.outstanding == old(writer.outstanding)
        invariant writer.writtenIds == old(writer.writtenIds) + Numbers(old(currentId), i)
      {
        ok := PublishNext();
        if !ok {
          return;
        }
        assert Numbers(old(currentId), i + 1) == Numbers(old(currentId), i) + [old(currentId) + i];
        written := written + 1;
      }
      ok := true;
    }

    /** After a refused loan, or a refused write whose loan was offered back. */
    ghost predicate Failed(id: int, outstandingBefore: set<nat>)
      reads this, writer
    {
      match writer.last
      case LoanRefused => currentId == id && writer.outstanding == outstandingBefore
      case Discarded(true) => currentId == id + 1 && writer.outstanding == outstandingBefore
      case Discarded(false) => currentId == id + 1 && writer.settled != []
        && writer.outstanding == outstandingBefore + {writer.settled[|writer.settled| - 1]}
      case _ => false
    }

    /** One turn of the loop. */
    method PublishNext() returns (ok: bool)
      requires Valid()
      modifies `currentId, writer
      ensures Valid() && writer.copiedIds == old(writer.copiedIds)
      ensures ok ==> writer.writtenIds == old(writer.writtenIds) + [old(currentId)]
      ensures ok ==> currentId == old(currentId) + 1 && writer.outstanding == old(writer.outstanding)
      ensures !ok ==> writer.writtenIds == old(writer.writtenIds) && Failed(old(currentId), old(writer.outstanding))
    {
      var loan;
      ok, loan := writer.LoanSample();
      if !ok {
        return;
      }
      var id := currentId;
      currentId := currentId + 1;
      ok := writer.Write(loan, id);
      if !ok {
        var accepted := writer.DiscardLoan(loan);
      }
    }
  }

  // ----- a whole cycle

  function Elements(s: seq<int>): set<int> {
    set x | x in s
  }

  lemma {:induction false} CountOfNumbers(first: int, n: nat)
    ensures |Elements(Numbers(first, n))| == n
    decreases n
  {
    if n > 0 {
      var before := Numbers(first, n - 1);
      CountOfNumbers(first, n - 1);
      assert Numbers(first, n) == before + [first + n - 1];
      assert Elements(Numbers(first, n)) == Elements(before) + {first + n - 1};
      assert first + n - 1 !in Elements(before);
    }
  }

  /**
   From a batch of `n` samples to the verdict of the subscriber, for a new reader and over a network that may lose,
   repeat and reorder samples: either loop reports that all were received exactly when no id was lost and there were
   at most 200; otherwise the loss it reports is what was lost or did not fit.
   */
  lemma {:induction false} EndToEnd(first: int, n: nat, deliveries: seq<Sample>)
    requires AllValid(deliveries) && Ids(deliveries) <= Elements(Numbers(first, n))
    ensures var queue := Wrap(Cached(deliveries));
      var received := ValidIds(OneByOne(Pending(queue, []), n));
      && received == ValidIds(Samples(queue)) <= Ids(deliveries)
      && (|received| == n <==> n <= MAX_INSTANCES && Ids(deliveries) == Elements(Numbers(first, n)))
      && |received| == Held(Ids(deliveries))
  {
    hide Ids, ValidIds, AllDelivered, Samples, OneByOne, OnePerId;
    var sent := Elements(Numbers(first, n));
    CountOfNumbers(first, n);
    SubsetAtMost(Ids(deliveries), sent);
    CountFromCache(deliveries, n);
    CacheHolds(deliveries);
    Taken(Cached(deliveries), n);
    IdsInFront(Cached(deliveries), n);
    if |Ids(deliveries)| == n { SameSize(Ids(deliveries), sent); }
  }

  /** The deliveries of a cycle are valid samples of a batch that starts at this id. */
  ghost predicate OfBatch(c: DrainCycle, first: int) {
    AllValid(c.deliveries) && Ids(c.deliveries) <= Sent(c, first)
  }

  /** The ids of the batch. */
  function Sent(c: DrainCycle, first: int): set<int> {
    Elements(Numbers(first, c.expected))
  }

  /**
   Over every run of cycles in which samples may be lost, repeated and reordered but arrive in their own cycle:
   nothing is left from one cycle to the next, and each reports its batch received exactly when it was, which is when
   no id of it was lost and the instances of the run so far leave room for all.
   */
  lemma {:induction false} EndToEndRun(cycles: seq<DrainCycle>, firsts: seq<int>, k: nat)
    requires |firsts| == |cycles| && k < |cycles|
    requires forall i | 0 <= i < |cycles| :: OfBatch(cycles[i], firsts[i])
    ensures var r, c, sent := AfterRun(cycles[..k]), cycles[k], Sent(cycles[k], firsts[k]);
      && r.queue == [] && |r.known| == Held(DeliveredOver(cycles[..k]))
      && (|ReceivedIn(r, c)| == c.expected <==> ReceivedIn(r, c) == sent)
      && (ReceivedIn(r, c) == sent <==> Ids(c.deliveries) == sent && |r.known + sent| <= MAX_INSTANCES)
  {
    hide Ids, DrainsDry, Numbers, Elements, Held, DeliveredOver, ReceivedIn, AfterRun;
    forall i | 0 <= i < |cycles| ensures DrainsDry(AfterRun(cycles[..i]).known, cycles[i]) {
      RunHolds(cycles[..i]);
      CountOfNumbers(firsts[i], cycles[i].expected);
      OwnBatch(AfterRun(cycles[..i]).known, cycles[i], Sent(cycles[i], firsts[i]));
    }
    DryCyclesLeaveNothing(cycles, k);
    RunHolds(cycles[..k]);
    CountOfNumbers(firsts[k], cycles[k].expected);
    OwnBatch(AfterRun(cycles[..k]).known, cycles[k], Sent(cycles[k], firsts[k]));
  }

  // ----- the batches of one publisher

  lemma NumbersAppend(first: int, m: nat, n: nat)
    ensures Elements(Numbers(first, m + n)) == Elements(Numbers(first, m)) + Elements(Numbers(first + m, n))
    ensures Elements(Numbers(first, m)) !! Elements(Numbers(first + m, n))
  {
    var all, a, b := Numbers(first, m + n), Numbers(first, m), Numbers(first + m, n);
    forall x | x in a ensures x in all { assert x == all[x - first]; }
    forall x | x in b ensures x in all { assert x == all[x - first]; }
    forall x | x in all ensures x in a || x in b {
      assert if x < first + m then x == a[x - first] else x == b[x - first - m];
    }
  }

  /** Every cycle is delivered the whole of a batch of `n`, each batch with the ids behind the one before. */
  ghost predicate FreshBatches(cycles: seq<DrainCycle>, first: int, n: nat) {
    forall i | 0 <= i < |cycles| ::
      && AllValid(cycles[i].deliveries) && cycles[i].expected == n
      && Ids(cycles[i].deliveries) == Elements(Numbers(first + i * n, n))
  }

  lemma {:induction false} FreshBatchesDelivered(cycles: seq<DrainCycle>, first: int, n: nat, k: nat)
    requires FreshBatches(cycles, first, n) && k <= |cycles|
    ensures DeliveredOver(cycles[..k]) == Elements(Numbers(first, k * n))
  {
    hide Ids, Elements, Numbers;
    if k == 0 {
      NoNumbers(first);
      assert 0 * n == 0;
    } else {
      FreshBatchesDelivered(cycles, first, n, k - 1);
      assert cycles[..k][..k - 1] == cycles[..k - 1];
      assert k * n == (k - 1) * n + n;
      NumbersAppend(first, (k - 1) * n, n);
    }
  }

  lemma NoNumbers(first: int)
    ensures Elements(Numbers(first, 0)) == {}
  {}

  /** What the reader knows before a cycle of such a run. */
  lemma BeforeFreshBatch(cycles: seq<DrainCycle>, first: int, n: nat, k: nat)
    requires FreshBatches(cycles, first, n) && k < |cycles|
    ensures var r, sent := AfterRun(cycles[..k]), Elements(Numbers(first + k * n, n));
      && Valid(r) && r.queue == [] && |sent| == n && r.known !! sent
      && |r.known| == if k * n < MAX_INSTANCES then k * n else MAX_INSTANCES
  {
    hide Ids, ReceivedIn, AfterRun, DeliveredOver, Numbers, Elements;
    var firsts := seq(|cycles|, i => first + i * n);
    EndToEndRun(cycles, firsts, k);
    FreshBatchesDelivered(cycles, first, n, k);
    CountOfNumbers(first, k * n);
    CountOfNumbers(first + k * n, n);
    NumbersAppend(first, k * n, n);
    RunHolds(cycles[..k]);
  }

  /** A batch of ids the reader has not seen. */
  lemma FreshBatch(known: set<int>, c: DrainCycle, sent: set<int>)
    requires |known| <= MAX_INSTANCES && known !! sent
    requires AllValid(c.deliveries) && Ids(c.deliveries) == sent && c.expected == |sent|
    ensures |ReceivedIn(Reader(known, []), c)| ==
      (if |known| + |sent| < MAX_INSTANCES then |known| + |sent| else MAX_INSTANCES) - |known|
  {
    hide Ids, ReceivedIn, AllDelivered;
    var admitted := Admitted(known, c.deliveries);
    OwnBatch(known, c, sent);
    NothingQueued(known);
    Admission(Reader(known, []), c.deliveries);
    assert admitted <= sent;
    assert |known + admitted| == |known| + |admitted| && |known + sent| == |known| + |sent|;
  }

  /**
   In loan mode the publisher never starts over with its ids. With nothing lost, cycle `k` reports its batch of `n`
   received if and only if the reader had room for all ids sent until then; what fits is received, and in the end
   nothing is.
   */
  lemma {:induction false} LoanedBatches(cycles: seq<DrainCycle>, first: int, n: nat, k: nat)
    requires FreshBatches(cycles, first, n) && k < |cycles|
    ensures var received := |ReceivedIn(AfterRun(cycles[..k]), cycles[k])|;
      && (received == n <==> (k + 1) * n <= MAX_INSTANCES)
      && received == (if (k + 1) * n < MAX_INSTANCES then (k + 1) * n else MAX_INSTANCES)
        - (if k * n < MAX_INSTANCES then k * n else MAX_INSTANCES)
  {
    hide Ids, ReceivedIn, AfterRun, Numbers, Elements, Valid;
    assert (k + 1) * n == k * n + n;
    BeforeFreshBatch(cycles, first, n, k);
    FreshBatch(AfterRun(cycles[..k]).known, cycles[k], Elements(Numbers(first + k * n, n)));
  }

  /** As in normal mode, every batch has the same ids: each cycle reports it received exactly if nothing was lost. */
  lemma {:induction false} RepeatedBatches(cycles: seq<DrainCycle>, first: int, n: nat, k: nat)
    requires k < |cycles| && forall i | 0 <= i < |cycles| :: cycles[i].expected == n && OfBatch(cycles[i], first)
    ensures |ReceivedIn(AfterRun(cycles[..k]), cycles[k])| == n
      <==> n <= MAX_INSTANCES && Ids(cycles[k].deliveries) == Elements(Numbers(first, n))
  {
    hide Ids, ReceivedIn, AfterRun, DeliveredOver, Numbers, Elements;
    var r, sent := AfterRun(cycles[..k]), Elements(Numbers(first, n));
    var firsts := seq(|cycles|, i => first);
    EndToEndRun(cycles, firsts, k);
    CountOfNumbers(first, n);
    RunHolds(cycles[..k]);
    RepeatedDelivered(cycles, first, n, k);
    assert r.known + sent == sent;
  }

  lemma {:induction false} RepeatedDelivered(cycles: seq<DrainCycle>, first: int, n: nat, k: nat)
    requires k <= |cycles| && forall i | 0 <= i < |cycles| :: cycles[i].expected == n && OfBatch(cycles[i], first)
    ensures DeliveredOver(cycles[..k]) <= Elements(Numbers(first, n))
  {
    if k > 0 {
      RepeatedDelivered(cycles, first, n, k - 1);
      assert cycles[..k][..k - 1] == cycles[..k - 1];
    }
  }

  /** A batch delivered in order. */
  function Batch(first: int, n: nat): seq<Sample> {
    seq(n, i => Sample(first + i, true))
  }

  lemma BatchIds(first: int, n: nat)
    ensures Ids(Batch(first, n)) == Elements(Numbers(first, n)) && AllValid(Batch(first, n))
  {
    forall i | 0 <= i < n ensures Numbers(first, n)[i] in Ids(Batch(first, n)) {
      assert Batch(first, n)[i] in Batch(first, n);
    }
    forall x | x in Batch(first, n) ensures x.id in Numbers(first, n) && x.valid {
      var i :| 0 <= i < n && Batch(first, n)[i] == x;
      assert Numbers(first, n)[i] == x.id;
    }
  }

  /** Three loaned batches of a hundred, nothing lost: the first two are received, and nothing of the third. */
  lemma ThirdBatchRefused()
    ensures var cycles := [DrainCycle(Batch(0, 100), 100, true), DrainCycle(Batch(100, 100), 100, true),
        DrainCycle(Batch(200, 100), 100, true)];
      && |ReceivedIn(AfterRun(cycles[..0]), cycles[0])| == 100
      && |ReceivedIn(AfterRun(cycles[..1]), cycles[1])| == 100
      && |ReceivedIn(AfterRun(cycles[..2]), cycles[2])| == 0
  {
    hide Ids, ReceivedIn, AfterRun, Numbers, Elements, Batch;
    var cycles := [DrainCycle(Batch(0, 100), 100, true), DrainCycle(Batch(100, 100), 100, true),
      DrainCycle(Batch(200, 100), 100, true)];
    BatchIds(0, 100);
    BatchIds(100, 100);
    BatchIds(200, 100);
    assert FreshBatches(cycles, 0, 100) by {
      forall i | 0 <= i < 3 ensures Ids(cycles[i].deliveries) == Elements(Numbers(0 + i * 100, 100)) {
        assert i == 0 || i == 1 || i == 2;
      }
    }
    LoanedBatches(cycles, 0, 100, 0);
    LoanedBatches(cycles, 0, 100, 1);
    LoanedBatches(cycles, 0, 100, 2);
  }
}
