/**
 The subscriber's drain loops: taking samples one at a time, or in loaned batches, until the reader
 runs dry, and the account of what was received and what was lost. The reader is a queue of what the
 middleware will answer, with more samples arriving between calls.
 */
module Subscriber {
  import opened Sequences

  datatype Sample = Sample(id: int, valid: bool)

  /** What the middleware answers when its queue is not empty: a sample, or an error code. */
  datatype Response = Data(sample: Sample) | Failure

  datatype ReturnCode = OK | NO_DATA | ERROR

  const BATCH: nat := 100

  // ----- what a reader has and will get

  /** The queue of a reader, and what arrives just before each of the calls to come. */
  datatype Pending = Pending(queue: seq<Response>, arriving: seq<seq<Response>>)

  function Arrived(p: Pending): Pending {
    if p.arriving == [] then p else Pending(p.queue + p.arriving[0], p.arriving[1..])
  }

  function Concat(batches: seq<seq<Response>>): seq<Response> {
    if batches == [] then [] else batches[0] + Concat(batches[1..])
  }

  /** Everything the reader can still hand out, in order. */
  function Stream(p: Pending): seq<Response> {
    p.queue + Concat(p.arriving)
  }

  function Wrap(s: seq<Sample>): (r: seq<Response>)
    ensures |r| == |s| && forall i :: 0 <= i < |s| ==> r[i] == Data(s[i])
  {
    seq(|s|, i requires 0 <= i < |s| => Data(s[i]))
  }

  /** The samples in front of the first failure. */
  function Samples(q: seq<Response>): seq<Sample> {
    if q == [] || q[0].Failure? then [] else [q[0].sample] + Samples(q[1..])
  }

  function ValidIds(s: seq<Sample>): set<int> {
    set x | x in s && x.valid :: x.id
  }

  lemma ArrivalKeepsStream(p: Pending)
    ensures Stream(Arrived(p)) == Stream(p)
  {
    if p.arriving != [] {
      assert p.queue + (p.arriving[0] + Concat(p.arriving[1..])) == (p.queue + p.arriving[0]) + Concat(p.arriving[1..]);
    }
  }

  lemma ValidIdsAppend(a: seq<Sample>, b: seq<Sample>)
    ensures ValidIds(a + b) == ValidIds(a) + ValidIds(b)
  {
    forall x | x in a + b ensures x in a || x in b {}
    forall x | x in a || x in b ensures x in a + b {}
  }

  lemma ValidIdsOfOne(x: Sample)
    ensures ValidIds([x]) == if x.valid then {x.id} else {}
  {}

  lemma ValidIdsMean(s: seq<Sample>)
    ensures forall id :: id in ValidIds(s) <==> exists x :: x in s && x.valid && x.id == id
  {}

  /** Distinct ids never outnumber samples. */
  lemma {:induction false} IdsAtMostSamples(s: seq<Sample>)
    ensures |ValidIds(s)| <= |s|
    decreases |s|
  {
    if s != [] {
      assert s == [s[0]] + s[1..];
      ValidIdsAppend([s[0]], s[1..]);
      ValidIdsOfOne(s[0]);
      IdsAtMostSamples(s[1..]);
      UnionAtMost(ValidIds([s[0]]), ValidIds(s[1..]));
    }
  }

  lemma UnionAtMost(a: set<int>, b: set<int>)
    ensures |a + b| <= |a| + |b|
  {
    assert a + b == a + (b - a);
    assert |a + (b - a)| == |a| + |b - a|;
    SubsetAtMost(b - a, b);
  }

  lemma SubsetAtMost(a: set<int>, b: set<int>)
    requires a <= b
    ensures |a| <= |b|
  {
    assert b == a + (b - a);
  }

  // ----- the reader

  class DataReader {
    var queue: seq<Response>
    var arriving: seq<seq<Response>>
    var loans: nat

    function State(): Pending
      reads this
    {
      Pending(queue, arriving)
    }

    constructor (queue: seq<Response>, arriving: seq<seq<Response>>)
      ensures State() == Pending(queue, arriving) && loans == 0
    {
      this.queue, this.arriving, loans := queue, arriving, 0;
    }

    method Receive()
      modifies `queue, `arriving
      ensures State() == Arrived(old(State()))
    {
      if arriving != [] {
        queue, arriving := queue + arriving[0], arriving[1..];
      }
    }

    method TakeNextSample() returns (ret: ReturnCode, s: Sample)
      modifies `queue, `arriving
      ensures var p := Arrived(old(State()));
        match ret
        case NO_DATA => p.queue == [] && State() == p
        case ERROR => p.queue != [] && p.queue[0].Failure? && State() == p.(queue := p.queue[1..])
        case OK => p.queue != [] && p.queue[0] == Data(s) && State() == p.(queue := p.queue[1..])
    {
      Receive();
      ret, s := NO_DATA, Sample(0, false);
      if queue != [] {
        if queue[0].Failure? {
          ret := ERROR;
        } else {
          ret, s := OK, queue[0].sample;
        }
        queue := queue[1..];
      }
    }

    /** Lends some of the samples in front. The middleware is free to lend fewer than asked for. */
    method Take(maxSamples: nat) returns (ret: ReturnCode, data: seq<Sample>)
      requires maxSamples > 0
      modifies this
      ensures |data| <= maxSamples
      ensures ret == OK && data != [] ==>
        && loans == old(loans) + 1
        && Arrived(old(State())) == State().(queue := Wrap(data) + queue)
      ensures ret != OK || data == [] ==>
        && loans == old(loans)
        && var p := Arrived(old(State()));
           if p.queue == [] then State() == p && ret != ERROR
           else p.queue[0].Failure? && State() == p.(queue := p.queue[1..]) && ret == ERROR
    {
      Receive();
      data := [];
      if queue == [] {
        ret := *;
        if ret == ERROR { ret := NO_DATA; }
        return;
      }
      if queue[0].Failure? {
        queue := queue[1..];
        return ERROR, [];
      }
      var available := Samples(queue);
      SamplesAreInFront(queue);
      var n :| 0 < n <= |available| && n <= maxSamples;
      assert queue == Wrap(available[..n]) + queue[n..];
      ret, data := OK, available[..n];
      queue, loans := queue[n..], loans + 1;
    }

    method ReturnLoan()
      requires loans > 0
      modifies `loans
      ensures loans == old(loans) - 1
    {
      loans := loans - 1;
    }
  }

  lemma {:induction false} SamplesAreInFront(q: seq<Response>)
    ensures |Samples(q)| <= |q| && forall i :: 0 <= i < |Samples(q)| ==> q[i] == Data(Samples(q)[i])
    ensures q != [] && q[0].Data? ==> Samples(q) != []
    ensures |Samples(q)| < |q| ==> q[|Samples(q)|].Failure?
    decreases |q|
  {
    if q != [] && q[0].Data? { SamplesAreInFront(q[1..]); }
  }

  // ----- one at a time

  /** The samples that taking one at a time, at most `n` times, obtains. */
  function OneByOne(p: Pending, n: nat): seq<Sample>
    decreases n
  {
    var q := Arrived(p);
    if n == 0 || q.queue == [] || q.queue[0].Failure? then [] else
      [q.queue[0].sample] + OneByOne(q.(queue := q.queue[1..]), n - 1)
  }

  /** What is left in the reader behind them. */
  function AfterOneByOne(p: Pending, n: nat): Pending
    decreases n
  {
    var q := Arrived(p);
    if n == 0 then p else
    if q.queue == [] then q else
    if q.queue[0].Failure? then q.(queue := q.queue[1..]) else AfterOneByOne(q.(queue := q.queue[1..]), n - 1)
  }

  lemma {:induction false} OneByOneAtMost(p: Pending, n: nat)
    ensures |OneByOne(p, n)| <= n
    decreases n
  {
    var q := Arrived(p);
    if n > 0 && q.queue != [] && q.queue[0].Data? { OneByOneAtMost(q.(queue := q.queue[1..]), n - 1); }
  }

  /**
   With nothing arriving meanwhile, the loop takes the first `n` samples, or all if there are fewer;
   it leaves the rest in the queue, except for a failure it ran into.
   */
  lemma {:induction false} OneByOneOfQuiet(queue: seq<Response>, n: nat)
    ensures |Samples(queue)| < n ==>
      && OneByOne(Pending(queue, []), n) == Samples(queue)
      && AfterOneByOne(Pending(queue, []), n)
        == Pending(if |Samples(queue)| < |queue| then queue[|Samples(queue)| + 1..] else [], [])
    ensures n <= |Samples(queue)| ==>
      && OneByOne(Pending(queue, []), n) == Samples(queue)[..n]
      && n <= |queue| && AfterOneByOne(Pending(queue, []), n) == Pending(queue[n..], [])
    decreases n
  {
    SamplesAreInFront(queue);
    if n > 0 && queue != [] && queue[0].Data? {
      hide OneByOne, AfterOneByOne, Samples, Arrived;
      var rest := queue[1..];
      OneByOneOfQuiet(rest, n - 1);
      OneMoreOfQuiet(queue, n);
      FirstOf(queue[0].sample, Samples(rest), n);
    }
  }

  lemma OneMoreOfQuiet(queue: seq<Response>, n: nat)
    requires n > 0 && queue != [] && queue[0].Data?
    ensures Samples(queue) == [queue[0].sample] + Samples(queue[1..])
    ensures OneByOne(Pending(queue, []), n) == [queue[0].sample] + OneByOne(Pending(queue[1..], []), n - 1)
    ensures AfterOneByOne(Pending(queue, []), n) == AfterOneByOne(Pending(queue[1..], []), n - 1)
  {}

  lemma FirstOf(x: Sample, s: seq<Sample>, n: nat)
    requires n > 0
    ensures |s| >= n ==> ([x] + s)[..n] == [x] + s[..n - 1]
  {}

  /** What the loop has taken, followed by what it would still take. */
  ghost predicate Taking(start: Pending, n: nat, taken: seq<Sample>, p: Pending, left: nat, ids: set<int>) {
    && taken + OneByOne(p, left) == OneByOne(start, n)
    && AfterOneByOne(p, left) == AfterOneByOne(start, n)
    && ids == ValidIds(taken)
  }

  lemma TakesNothing(p: Pending, n: nat)
    ensures Taking(p, n, [], p, n, {})
  {
    NoIds();
    assert [] + OneByOne(p, n) == OneByOne(p, n);
  }

  lemma NoIds()
    ensures ValidIds([]) == {}
  {}

  lemma TakesOne(start: Pending, n: nat, taken: seq<Sample>, p: Pending, left: nat, ids: set<int>, s: Sample)
    requires Taking(start, n, taken, p, left, ids) && left > 0
    requires Arrived(p).queue != [] && Arrived(p).queue[0] == Data(s)
    ensures Taking(start, n, taken + [s], Arrived(p).(queue := Arrived(p).queue[1..]), left - 1, ids + ValidIds([s]))
  {
    ValidIdsAppend(taken, [s]);
    Associative(taken, [s], OneByOne(Arrived(p).(queue := Arrived(p).queue[1..]), left - 1));
  }

  /** The loop ends at its bound, on an empty queue, or on an error. */
  ghost predicate Stopped(p: Pending, left: nat, end: Pending) {
    var q := Arrived(p);
    if left == 0 then end == p
    else if q.queue == [] then end == q
    else q.queue[0].Failure? && end == q.(queue := q.queue[1..])
  }

  lemma TakesNoMore(start: Pending, n: nat, taken: seq<Sample>, p: Pending, left: nat, ids: set<int>, end: Pending)
    requires Taking(start, n, taken, p, left, ids) && Stopped(p, left, end)
    ensures end == AfterOneByOne(start, n)
    ensures taken == OneByOne(start, n) && ids == ValidIds(taken) && |ids| <= |taken| <= n
  {
    assert OneByOne(p, left) == [];
    assert taken + [] == taken;
    OneByOneAtMost(start, n);
    IdsAtMostSamples(taken);
  }

  // ----- in batches

  lemma TakesBatch(start: Pending, taken: seq<Sample>, before: Pending, data: seq<Sample>, after: Pending)
    requires Stream(start) == Wrap(taken) + Stream(before)
    requires Arrived(before) == after.(queue := Wrap(data) + after.queue) && data != []
    ensures Stream(start) == Wrap(taken + data) + Stream(after) && |Stream(after)| < |Stream(before)|
    ensures before.arriving == [] ==> after.arriving == []
    ensures ValidIds(taken + data) == ValidIds(taken) + ValidIds(data)
  {
    ArrivalKeepsStream(before);
    Associative(Wrap(data), after.queue, Concat(after.arriving));
    Associative(Wrap(taken), Wrap(data), Stream(after));
    assert Wrap(taken + data) == Wrap(taken) + Wrap(data);
    ValidIdsAppend(taken, data);
  }

  /** The last call finds nothing or an error. */
  lemma RunsDry(start: Pending, taken: seq<Sample>, before: Pending, after: Pending)
    requires Stream(start) == Wrap(taken) + Stream(before) && (start.arriving == [] ==> before.arriving == [])
    requires var p := Arrived(before);
      if p.queue == [] then after == p else p.queue[0].Failure? && after == p.(queue := p.queue[1..])
    ensures (after.queue == [] && Stream(start) == Wrap(taken) + Stream(after))
         || Stream(start) == Wrap(taken) + ([Failure] + Stream(after))
    ensures start.arriving == [] ==> taken == Samples(start.queue)
  {
    var p := Arrived(before);
    ArrivalKeepsStream(before);
    if p.queue != [] {
      assert p.queue == [Failure] + after.queue;
      Associative([Failure], after.queue, Concat(after.arriving));
    }
    if start.arriving == [] {
      assert Stream(start) == start.queue && Stream(before) == p.queue;
      SamplesOfWrap(taken, p.queue);
    }
  }

  lemma {:induction false} SamplesOfWrap(s: seq<Sample>, rest: seq<Response>)
    requires rest == [] || rest[0].Failure?
    ensures Samples(Wrap(s) + rest) == s
    decreases |s|
  {
    if s == [] {
      assert Wrap(s) + rest == rest;
    } else {
      SamplesOfWrap(s[1..], rest);
      assert (Wrap(s) + rest)[1..] == Wrap(s[1..]) + rest;
    }
  }

  type int32 = x: int | -0x8000_0000 <= x < 0x8000_0000

  /** An `int` where a `size_t` is expected. */
  function AsSize(x: int32): (r: nat)
    ensures r < 0x1_0000_0000_0000_0000 && (r - x) % 0x1_0000_0000_0000_0000 == 0
  {
    if x < 0 then x + 0x1_0000_0000_0000_0000 else x
  }

  /** A `size_t` difference where an `int` is expected. */
  function AsInt(x: int): (r: int32)
    ensures -0x8000_0000 <= x < 0x8000_0000 ==> r == x
    ensures (r - x) % 0x1_0000_0000 == 0
  {
    (x + 0x8000_0000) % 0x1_0000_0000 - 0x8000_0000
  }

  /** What a drain reports: the ids received, whether they are all, and what was lost. */
  datatype Outcome = Outcome(ids: set<int>, allReceived: bool, lost: int32)

  /** The report on the ids received. The loss is left alone when nothing was lost. */
  function Verdict(ids: set<int>, expected: int32, lostBefore: int32): Outcome {
    if |ids| == AsSize(expected) then Outcome(ids, true, lostBefore) else Outcome(ids, false, AsInt(expected - |ids|))
  }

  /** The report as the loops compute it, with the expectation as a size. */
  lemma Reported(ids: set<int>, expected: int32, lostBefore: int32)
    ensures var n := AsSize(expected);
      Verdict(ids, expected, lostBefore)
        == Outcome(ids, |ids| == n, if |ids| == n then lostBefore else AsInt(n - |ids|))
    ensures 0 <= expected && |ids| < AsSize(expected) ==> 0 < AsInt(AsSize(expected) - |ids|) == expected - |ids|
    ensures 0 <= expected ==> AsSize(expected) == expected
  {}

  class FastSub {
    const reader: DataReader
    var expectedMessagesCycle: int32
    var receivedIds: set<int>

    constructor (reader: DataReader)
      ensures this.reader == reader && expectedMessagesCycle == -1 && receivedIds == {}
    {
      this.reader, expectedMessagesCycle, receivedIds := reader, -1, {};
    }

    method ResetSamples()
      modifies `receivedIds
      ensures receivedIds == {}
    {
      receivedIds := {};
    }

    /** `lost` is left alone when nothing was lost. */
    method RunWithoutLoan(lostBefore: int32) returns (allReceived: bool, lost: int32)
      modifies `receivedIds, reader`queue, reader`arriving
      ensures receivedIds == ValidIds(OneByOne(old(reader.State()), AsSize(expectedMessagesCycle)))
      ensures forall id :: id in receivedIds <==>
        exists x :: x in OneByOne(old(reader.State()), AsSize(expectedMessagesCycle)) && x.valid && x.id == id
      ensures reader.State() == AfterOneByOne(old(reader.State()), AsSize(expectedMessagesCycle))
      ensures Outcome(receivedIds, allReceived, lost) == Verdict(receivedIds, expectedMessagesCycle, lostBefore)
      ensures 0 <= expectedMessagesCycle && !allReceived ==> 0 < lost && lost + |receivedIds| == expectedMessagesCycle
      ensures 0 <= expectedMessagesCycle ==> (allReceived <==> |receivedIds| == expectedMessagesCycle)
      ensures allReceived ==> lost == lostBefore
    {
      hide OneByOne, AfterOneByOne, ValidIds, Taking, Verdict, AsInt, AsSize;
      receivedIds, lost := {}, lostBefore;
      TakesNothing(reader.State(), AsSize(expectedMessagesCycle));
      var i, n := 0, AsSize(expectedMessagesCycle);
      ghost var start, last, taken := reader.State(), reader.State(), [];
      while i < n
        invariant i <= n && last == reader.State()
        invariant Taking(start, n, taken, last, n - i, receivedIds)
      {
        var ret, sample := reader.TakeNextSample();
        if ret != OK {
          break;
        }
        TakesOne(start, n, taken, last, n - i, receivedIds, sample);
        ValidIdsOfOne(sample);
        assert receivedIds + {} == receivedIds;
        if sample.valid {
          receivedIds := receivedIds + {sample.id};
        }
        i := i + 1;
        taken, last := taken + [sample], reader.State();
      }
      TakesNoMore(start, n, taken, last, n - i, receivedIds, reader.State());
      ValidIdsMean(taken);
      Reported(receivedIds, expectedMessagesCycle, lostBefore);
      allReceived := |receivedIds| == n;
      if !allReceived {
        lost := AsInt(n - |receivedIds|);
      }
    }

    /** Every loan is returned, and the ids are those of the valid samples taken. */
    method RunWithLoan(lostBefore: int32) returns (allReceived: bool, lost: int32, ghost taken: seq<Sample>)
      modifies `receivedIds, reader
      ensures reader.loans == old(reader.loans)
      ensures receivedIds == ValidIds(taken)
      ensures forall id :: id in receivedIds <==> exists x :: x in taken && x.valid && x.id == id
      ensures (reader.queue == [] && Stream(old(reader.State())) == Wrap(taken) + Stream(reader.State()))
           || Stream(old(reader.State())) == Wrap(taken) + ([Failure] + Stream(reader.State()))
      ensures old(reader.arriving) == [] ==> taken == Samples(old(reader.queue))
      ensures Outcome(receivedIds, allReceived, lost) == Verdict(receivedIds, expectedMessagesCycle, lostBefore)
      ensures 0 <= expectedMessagesCycle ==> (allReceived <==> |receivedIds| == expectedMessagesCycle)
      ensures allReceived ==> lost == lostBefore
      ensures !allReceived ==> (lost + |receivedIds| - expectedMessagesCycle) % 0x1_0000_0000 == 0
    {
      hide Concat, Samples, ValidIds;
      NoIds();
      receivedIds, taken := {}, [];
      ghost var start, last := reader.State(), reader.State();
      while true
        invariant reader.loans == old(reader.loans) && last == reader.State()
        invariant receivedIds == ValidIds(taken)
        invariant Stream(start) == Wrap(taken) + Stream(last) && (start.arriving == [] ==> last.arriving == [])
        decreases |Stream(reader.State())|
      {
        var ret, data := reader.Take(BATCH);
        if ret != OK || |data| == 0 {
          break;
        }
        TakesBatch(start, taken, last, data, reader.State());
        receivedIds := InsertValid(data, receivedIds);
        reader.ReturnLoan();
        taken, last := taken + data, reader.State();
      }
      RunsDry(start, taken, last, reader.State());
      ValidIdsMean(taken);
      allReceived := |receivedIds| == AsSize(expectedMessagesCycle);
      lost := if allReceived then lostBefore else AsInt(AsSize(expectedMessagesCycle) - |receivedIds|);
    }
  }

  method InsertValid(data: seq<Sample>, ids: set<int>) returns (r: set<int>)
    ensures r == ids + ValidIds(data)
  {
    r := ids;
    for i := 0 to |data|
      invariant r == ids + ValidIds(data[..i])
    {
      assert data[..i + 1] == data[..i] + [data[i]];
      ValidIdsAppend(data[..i], [data[i]]);
      ValidIdsOfOne(data[i]);
      if data[i].valid {
        r := r + {data[i].id};
      }
    }
    assert data[..|data|] == data;
  }

  // ----- slots resized to the expectation

  function Resized(slots: seq<Sample>, n: nat): (r: seq<Sample>)
    ensures |r| == n
  {
    if n <= |slots| then slots[..n] else slots + seq(n - |slots|, _ => Sample(0, false))
  }

  class OpenSub {
    const reader: DataReader?
    var expectedMessagesCycle: int32
    var receivedIds: set<int>
    var slots: seq<Sample>

    constructor (reader: DataReader?)
      ensures this.reader == reader && expectedMessagesCycle == 0 && receivedIds == {} && slots == []
    {
      this.reader, expectedMessagesCycle, receivedIds, slots := reader, 0, {}, [];
    }

    /** Resizing the slots to a negative number throws. */
    method RunWithoutLoan(lostBefore: int32) returns (thrown: bool, allReceived: bool, lost: int32)
      modifies `receivedIds, `slots, if reader == null then {} else {reader}
      ensures thrown <==> reader != null && expectedMessagesCycle < 0
      ensures thrown ==> receivedIds == {} && slots == old(slots) && !allReceived && lost == lostBefore
      ensures reader == null ==> receivedIds == {} && !allReceived && lost == expectedMessagesCycle
      ensures reader != null && !thrown ==>
        && OneByOne(old(reader.State()), expectedMessagesCycle) <= slots && |slots| == expectedMessagesCycle
        && receivedIds == ValidIds(OneByOne(old(reader.State()), expectedMessagesCycle))
        && reader.State() == AfterOneByOne(old(reader.State()), expectedMessagesCycle)
        && lost >= 0 && |receivedIds| + lost == expectedMessagesCycle && (allReceived <==> lost == 0)
    {
      receivedIds, thrown, lost := {}, false, lostBefore;
      if reader == null {
        return false, false, expectedMessagesCycle;
      }
      if expectedMessagesCycle < 0 {
        return true, false, lostBefore;
      }
      slots := Resized(slots, expectedMessagesCycle);
      Drain(reader);
      allReceived := |receivedIds| == expectedMessagesCycle;
      lost := if allReceived then 0 else expectedMessagesCycle - |receivedIds|;
    }

    /** Fills the slots, one sample each. */
    method Drain(r: DataReader)
      requires receivedIds == {} && |slots| == expectedMessagesCycle
      modifies `receivedIds, `slots, r
      ensures |slots| == old(|slots|) >= |receivedIds|
      ensures OneByOne(old(r.State()), |slots|) <= slots
      ensures receivedIds == ValidIds(OneByOne(old(r.State()), |slots|))
      ensures r.State() == AfterOneByOne(old(r.State()), |slots|)
    {
      hide OneByOne, AfterOneByOne, ValidIds;
      TakesNothing(r.State(), expectedMessagesCycle);
      var i, n := 0, expectedMessagesCycle;
      ghost var start, last := r.State(), r.State();
      while i < n
        invariant i <= n == |slots| && last == r.State()
        invariant Taking(start, n, slots[..i], last, n - i, receivedIds)
      {
        var ret, sample := r.TakeNextSample();
        if ret != OK {
          break;
        }
        TakesOne(start, n, slots[..i], last, n - i, receivedIds, sample);
        ValidIdsOfOne(sample);
        FillSlot(slots, i, sample);
        slots := slots[i := sample];
        if slots[i].valid {
          receivedIds := receivedIds + {slots[i].id};
        }
        i := i + 1;
        last := r.State();
      }
      TakesNoMore(start, n, slots[..i], last, n - i, receivedIds, r.State());
    }
  }

  lemma FillSlot(slots: seq<Sample>, i: nat, s: Sample)
    requires i < |slots|
    ensures slots[i := s][..i + 1] == slots[..i] + [s]
  {}

  // ----- what the loops tell

  ghost predicate AllNew(s: seq<Sample>) {
    s != [] ==> s[0].valid && s[0].id !in ValidIds(s[1..]) && AllNew(s[1..])
  }

  lemma {:induction false} CountsSamples(s: seq<Sample>)
    ensures |ValidIds(s)| == |s| <==> AllNew(s)
    decreases |s|
  {
    if s != [] {
      assert s == [s[0]] + s[1..];
      ValidIdsAppend([s[0]], s[1..]);
      ValidIdsOfOne(s[0]);
      IdsAtMostSamples(s[1..]);
      CountsSamples(s[1..]);
      var rest := ValidIds(s[1..]);
      if s[0].valid {
        assert |{s[0].id} + rest| == if s[0].id in rest then |rest| else |rest| + 1 by {
          if s[0].id in rest { assert {s[0].id} + rest == rest; }
        }
      } else {
        assert {} + rest == rest;
      }
    }
  }

  /**
   The one-by-one loop reports everything received exactly when it took as many samples as expected,
   each of them valid and with an id of its own.
   */
  lemma AllReceivedMeans(p: Pending, expected: nat)
    ensures |ValidIds(OneByOne(p, expected))| == expected
      <==> |OneByOne(p, expected)| == expected && AllNew(OneByOne(p, expected))
    ensures |ValidIds(OneByOne(p, expected))| <= |OneByOne(p, expected)| <= expected
  {
    OneByOneAtMost(p, expected);
    IdsAtMostSamples(OneByOne(p, expected));
    CountsSamples(OneByOne(p, expected));
  }

  /** What is taken one at a time, what stopped it and what is left make up the stream. */
  lemma {:induction false} NothingDisappears(p: Pending, n: nat)
    ensures Stream(p) == Wrap(OneByOne(p, n)) + Stream(AfterOneByOne(p, n))
         || Stream(p) == Wrap(OneByOne(p, n)) + ([Failure] + Stream(AfterOneByOne(p, n)))
    decreases n
  {
    var q := Arrived(p);
    ArrivalKeepsStream(p);
    if n > 0 && q.queue != [] {
      var rest := q.(queue := q.queue[1..]);
      assert Stream(q) == [q.queue[0]] + Stream(rest) by {
        Associative([q.queue[0]], rest.queue, Concat(rest.arriving));
        assert q.queue == [q.queue[0]] + rest.queue;
      }
      if q.queue[0].Data? {
        NothingDisappears(rest, n - 1);
        assert Wrap(OneByOne(p, n)) == [q.queue[0]] + Wrap(OneByOne(rest, n - 1));
        Associative([q.queue[0]], Wrap(OneByOne(rest, n - 1)), Stream(AfterOneByOne(rest, n - 1)));
        Associative([q.queue[0]], Wrap(OneByOne(rest, n - 1)), [Failure] + Stream(AfterOneByOne(rest, n - 1)));
      }
    }
  }

  // ----- one loop against the other

  /** The outcome of taking one at a time from a queue to which nothing is added meanwhile. */
  function OneByOneOutcome(queue: seq<Response>, expected: int32, lostBefore: int32): Outcome {
    Verdict(ValidIds(OneByOne(Pending(queue, []), AsSize(expected))), expected, lostBefore)
  }

  /** The outcome of taking batches from it. */
  function BatchedOutcome(queue: seq<Response>, expected: int32, lostBefore: int32): Outcome {
    Verdict(ValidIds(Samples(queue)), expected, lostBefore)
  }

  /** The first `n` samples, or all of them. */
  function FirstSamples(queue: seq<Response>, n: nat): seq<Sample> {
    if |Samples(queue)| <= n then Samples(queue) else Samples(queue)[..n]
  }

  /** The samples behind the first `n`. */
  function LaterSamples(queue: seq<Response>, n: nat): seq<Sample> {
    if |Samples(queue)| <= n then [] else Samples(queue)[n..]
  }

  lemma IdsOfParts(queue: seq<Response>, n: nat)
    ensures OneByOne(Pending(queue, []), n) == FirstSamples(queue, n)
    ensures ValidIds(Samples(queue)) == ValidIds(FirstSamples(queue, n)) + ValidIds(LaterSamples(queue, n))
    ensures |ValidIds(FirstSamples(queue, n))| <= n
  {
    OneByOneOfQuiet(queue, n);
    IdsAtMostSamples(FirstSamples(queue, n));
    assert Samples(queue) == FirstSamples(queue, n) + LaterSamples(queue, n);
    ValidIdsAppend(FirstSamples(queue, n), LaterSamples(queue, n));
  }

  /**
   The drains have the same outcome (ids, return value and loss) if and only if the samples beyond the
   expectation bring no new id; in particular on every queue no longer than the expectation.
   */
  lemma {:induction false} BatchesRefineOneByOne(queue: seq<Response>, expected: int32, lostBefore: int32)
    ensures OneByOneOutcome(queue, expected, lostBefore) == BatchedOutcome(queue, expected, lostBefore)
      <==> ValidIds(LaterSamples(queue, AsSize(expected))) <= ValidIds(FirstSamples(queue, AsSize(expected)))
    ensures |Samples(queue)| <= AsSize(expected) ==>
      OneByOneOutcome(queue, expected, lostBefore) == BatchedOutcome(queue, expected, lostBefore)
  {
    var n := AsSize(expected);
    IdsOfParts(queue, n);
    var first, later := ValidIds(FirstSamples(queue, n)), ValidIds(LaterSamples(queue, n));
    if later <= first { assert first + later == first; }
    if first + later == first { assert later <= first; }
    if |Samples(queue)| <= n { NoIds(); }
  }

  lemma SmallerThanUnion(a: set<int>, b: set<int>)
    ensures |a| <= |a + b|
    ensures |a| == |a + b| <==> b <= a
  {
    assert a + b == a + (b - a);
    if b <= a {
      assert a + b == a;
    } else {
      assert b - a != {};
    }
  }

  /**
   The return values agree if and only if the later samples bring no new id, or neither loop finds
   exactly as many ids as expected; so do the losses then, up to a multiple of the integer range.
   */
  lemma {:induction false} SameVerdict(queue: seq<Response>, expected: int32, lostBefore: int32)
    ensures var n := AsSize(expected);
      var a, b := OneByOneOutcome(queue, expected, lostBefore), BatchedOutcome(queue, expected, lostBefore);
      var early, all := ValidIds(FirstSamples(queue, n)), ValidIds(Samples(queue));
      && (a.allReceived == b.allReceived
        <==> ValidIds(LaterSamples(queue, n)) <= early || (|early| < n && |all| != n))
      && (a.allReceived == b.allReceived && a.lost == b.lost
        <==>
          || ValidIds(LaterSamples(queue, n)) <= early
          || (|early| < n && |all| != n && (|all| - |early|) % 0x1_0000_0000 == 0))
  {
    hide OneByOne, Samples, ValidIds, Verdict, FirstSamples, LaterSamples;
    var n := AsSize(expected);
    IdsOfParts(queue, n);
    VerdictsAlike(ValidIds(FirstSamples(queue, n)), ValidIds(LaterSamples(queue, n)), expected, lostBefore);
  }

  lemma VerdictsAlike(early: set<int>, later: set<int>, expected: int32, lostBefore: int32)
    requires |early| <= AsSize(expected)
    ensures var n, all := AsSize(expected), early + later;
      var a, b := Verdict(early, expected, lostBefore), Verdict(all, expected, lostBefore);
      && (a.allReceived == b.allReceived <==> later <= early || (|early| < n && |all| != n))
      && (a.allReceived == b.allReceived && a.lost == b.lost
        <==> later <= early || (|early| < n && |all| != n && (|all| - |early|) % 0x1_0000_0000 == 0))
  {
    hide AsInt, AsSize;
    SmallerThanUnion(early, later);
    SameLoss(expected, |early|, |early + later|);
    if later <= early { assert early + later == early; }
  }

  lemma SameLoss(expected: int32, a: nat, b: nat)
    requires a <= b
    ensures AsInt(expected - a) == AsInt(expected - b) <==> (b - a) % 0x1_0000_0000 == 0
  {}

  /**
   One at a time, the loss of a failed drain is positive for every expectation that is not negative.
   In batches it is negative exactly when there are more ids than expected, but for whole multiples of
   the integer range.
   */
  lemma {:induction false} NegativeLoss(queue: seq<Response>, expected: int32, lostBefore: int32)
    ensures var a, b := OneByOneOutcome(queue, expected, lostBefore), BatchedOutcome(queue, expected, lostBefore);
      var surplus := |ValidIds(Samples(queue))| - expected;
      && (expected >= 0 && !a.allReceived ==> a.lost > 0)
      && (!b.allReceived && b.lost < 0 <==> surplus > 0 && (surplus - 1) % 0x1_0000_0000 < 0x8000_0000)
      && (0 <= expected && surplus <= 0x8000_0000 ==> (!b.allReceived && b.lost < 0 <==> surplus > 0))
  {
    hide OneByOne, Samples, ValidIds, Verdict, AsSize, FirstSamples;
    IdsOfParts(queue, AsSize(expected));
    LossOfFew(ValidIds(FirstSamples(queue, AsSize(expected))), expected, lostBefore);
    LossOf(ValidIds(Samples(queue)), expected, lostBefore);
  }

  lemma LossOfFew(ids: set<int>, expected: int32, lostBefore: int32)
    requires |ids| <= AsSize(expected)
    ensures var v := Verdict(ids, expected, lostBefore);
      expected >= 0 && !v.allReceived ==> v.lost > 0
  {}

  lemma LossOf(ids: set<int>, expected: int32, lostBefore: int32)
    ensures var v, surplus := Verdict(ids, expected, lostBefore), |ids| - expected;
      && (!v.allReceived && v.lost < 0 <==> surplus > 0 && (surplus - 1) % 0x1_0000_0000 < 0x8000_0000)
      && (0 <= expected && surplus <= 0x8000_0000 ==> (!v.allReceived && v.lost < 0 <==> surplus > 0))
  {
    LossOfSurplus(|ids| - expected);
  }

  lemma LossOfSurplus(surplus: int)
    requires surplus > -0x8000_0000
    ensures surplus != 0 ==> (AsInt(-surplus) < 0 <==> surplus > 0 && (surplus - 1) % 0x1_0000_0000 < 0x8000_0000)
  {}

  lemma IdsOfTwo(a: int, b: int)
    ensures ValidIds([Sample(a, true), Sample(b, true)]) == {a, b}
  {
    var x, y := Sample(a, true), Sample(b, true);
    assert [x, y] == [x] + [y];
    ValidIdsAppend([x], [y]);
    ValidIdsOfOne(x);
    ValidIdsOfOne(y);
  }

  /** Two samples and an expectation of one: with two ids the loss is negative, with one id the drains agree. */
  lemma LongQueuesMayDisagree(lostBefore: int32)
    ensures OneByOneOutcome(Wrap([Sample(1, true), Sample(2, true)]), 1, lostBefore) == Outcome({1}, true, lostBefore)
    ensures BatchedOutcome(Wrap([Sample(1, true), Sample(2, true)]), 1, lostBefore) == Outcome({1, 2}, false, -1)
    ensures OneByOneOutcome(Wrap([Sample(1, true), Sample(1, true)]), 1, lostBefore) == Outcome({1}, true, lostBefore)
    ensures BatchedOutcome(Wrap([Sample(1, true), Sample(1, true)]), 1, lostBefore) == Outcome({1}, true, lostBefore)
  {
    WitnessOfTwo(2, lostBefore);
    WitnessOfTwo(1, lostBefore);
  }

  lemma WitnessOfTwo(b: int, lostBefore: int32)
    ensures OneByOneOutcome(Wrap([Sample(1, true), Sample(b, true)]), 1, lostBefore) == Outcome({1}, true, lostBefore)
    ensures BatchedOutcome(Wrap([Sample(1, true), Sample(b, true)]), 1, lostBefore) == Verdict({1, b}, 1, lostBefore)
  {
    var s := [Sample(1, true), Sample(b, true)];
    SamplesOfWrap(s, []);
    assert Wrap(s) + [] == Wrap(s);
    IdsOfParts(Wrap(s), 1);
    IdsOfTwo(1, b);
    assert s[..1] == [s[0]];
    ValidIdsOfOne(s[0]);
  }
}
