/**
 What the verdict of a cycle tells about its own batch: when success means that the batch was received, and when
 samples left by the cycle before change what a cycle receives and returns.
 */
module Verdicts {
  import opened ReaderCache
  import opened ReaderRuns
  import opened Sequences
  import opened Subscriber

  // ----- foreign samples among the deliveries

  /**
   Samples with ids in `source` reach a reader with nothing left, and the loop reports as many ids as `own` has
   without having received those.
   */
  ghost predicate Misleads(known: set<int>, own: set<int>, source: set<int>, c: DrainCycle) {
    && Ids(c.deliveries) <= source && c.expected == |own|
    && |ReceivedIn(Reader(known, []), c)| == c.expected
    && !(own <= ReceivedIn(Reader(known, []), c))
  }

  /** The ids of `source` that a reader could admit first. */
  function Admissible(known: set<int>, source: set<int>): set<int> {
    set id | id in source && Admits(known, id)
  }

  /** How many ids of `source` it can admit in all. */
  function Room(known: set<int>, source: set<int>): int {
    var free := MAX_INSTANCES - |known|;
    |source * known| + if |source - known| <= free then |source - known| else free
  }

  lemma SomeMember(s: set<int>)
    requires |s| > 0
    ensures exists x :: x in s
  {
    if forall x :: x !in s { assert false; }
  }

  lemma {:induction false} SubsetOfSize(s: set<int>, n: nat) returns (t: set<int>)
    requires n <= |s|
    ensures t <= s && |t| == n
    decreases |s| - n
  {
    if n == |s| {
      t := s;
    } else {
      SomeMember(s);
      var x :| x in s;
      assert |s - {x}| == |s| - 1;
      t := SubsetOfSize(s - {x}, n);
    }
  }

  lemma SubsetWith(s: set<int>, n: nat, id: int) returns (t: set<int>)
    requires id in s && 0 < n <= |s|
    ensures id in t && t <= s && |t| == n
  {
    assert |s - {id}| == |s| - 1;
    t := SubsetOfSize(s - {id}, n - 1);
    t := t + {id};
  }

  /** As many ids of `source` as fit, a given one among them. */
  lemma Selection(known: set<int>, source: set<int>, n: nat, id: int) returns (t: set<int>)
    requires |known| <= MAX_INSTANCES && id in Admissible(known, source) && 0 < n <= Room(known, source)
    ensures id in t && t <= source && |t| == n && |known + t| <= MAX_INSTANCES
  {
    var managed, others := source * known, source - known;
    var fromManaged, fromOthers;
    if id in known {
      var b := if n > |managed| then n - |managed| else 0;
      fromManaged := SubsetWith(managed, n - b, id);
      fromOthers := SubsetOfSize(others, b);
    } else {
      var b := if n > |managed| then n - |managed| else 1;
      SubsetAtMost({id}, others);
      fromManaged := SubsetOfSize(managed, n - b);
      fromOthers := SubsetWith(others, b, id);
    }
    t := fromManaged + fromOthers;
    SizeOfUnion(known, fromManaged, fromOthers);
  }

  lemma SizeOfUnion(known: set<int>, managed: set<int>, others: set<int>)
    requires managed <= known && others !! known
    ensures |managed + others| == |managed| + |others|
    ensures |known + (managed + others)| == |known| + |others|
  {
    assert known + (managed + others) == known + others;
  }

  lemma {:induction false} SamplesOf(ids: set<int>) returns (ds: seq<Sample>)
    ensures AllValid(ds) && Ids(ds) == ids
    decreases |ids|
  {
    if ids == {} {
      ds := [];
    } else {
      SomeMember(ids);
      var id :| id in ids;
      var rest := SamplesOf(ids - {id});
      ds := rest + [Sample(id, true)];
      IdsAppend(rest, [Sample(id, true)]);
      IdsOfOne(Sample(id, true));
    }
  }

  /** A batch that is delivered in full and admitted is received, in either way of draining. */
  lemma DeliveredBatch(known: set<int>, ids: set<int>, loan: bool) returns (c: DrainCycle)
    requires |known| <= MAX_INSTANCES && |known + ids| <= MAX_INSTANCES
    ensures AllValid(c.deliveries) && Ids(c.deliveries) == ids && c.expected == |ids| && c.loan == loan
    ensures ReceivedIn(Reader(known, []), c) == ids
  {
    var ds := SamplesOf(ids);
    c := DrainCycle(ds, |ids|, loan);
    OwnBatch(known, c, ids);
  }

  /**
   In either way of draining, success means that the own batch was received if and only if nothing was expected, or
   the ids that can arrive do not fill the expectation, or every one of them that can be admitted is of the own
   batch. Otherwise even valid samples can mislead: a foreign one makes up for one that was lost.
   */
  lemma {:induction false} SuccessMeansOwn(known: set<int>, own: set<int>, source: set<int>, loan: bool)
    requires |known| <= MAX_INSTANCES
    ensures (forall c: DrainCycle :: c.loan == loan ==> !Misleads(known, own, source, c))
      <==> own == {} || Room(known, source) < |own| || Admissible(known, source) <= own
    ensures (forall c: DrainCycle :: c.loan == loan && AllValid(c.deliveries) ==> !Misleads(known, own, source, c))
      <==> own == {} || Room(known, source) < |own| || Admissible(known, source) <= own
  {
    hide Misleads;
    if own == {} || Room(known, source) < |own| || Admissible(known, source) <= own {
      forall c: DrainCycle ensures !Misleads(known, own, source, c) {
        Honest(known, own, source, c);
      }
    } else {
      var id :| id in Admissible(known, source) && id !in own;
      var c := MisleadingCycle(known, own, source, id, loan);
    }
  }

  lemma MisleadingCycle(known: set<int>, own: set<int>, source: set<int>, id: int, loan: bool)
    returns (c: DrainCycle)
    requires |known| <= MAX_INSTANCES && own != {} && Room(known, source) >= |own|
    requires id in Admissible(known, source) && id !in own
    ensures c.loan == loan && AllValid(c.deliveries) && Misleads(known, own, source, c)
  {
    hide Ids, ReceivedIn;
    var t := Selection(known, source, |own|, id);
    c := DeliveredBatch(known, t, loan);
    if own <= t { SameSize(own, t); }
  }

  /** What is received fits into the room there is. */
  lemma Honest(known: set<int>, own: set<int>, source: set<int>, c: DrainCycle)
    requires |known| <= MAX_INSTANCES
    requires own == {} || Room(known, source) < |own| || Admissible(known, source) <= own
    ensures !Misleads(known, own, source, c)
  {
    hide Ids, ReceivedIn, Admitted, Room, Admissible;
    if Misleads(known, own, source, c) {
      NothingQueued(known);
      CycleKeepsValid(Reader(known, []), c);
      var received, after := ReceivedIn(Reader(known, []), c), AfterCycle(Reader(known, []), c).known;
      assert {} + Ids(c.deliveries) == Ids(c.deliveries);
      ReceivedFits(known, source, received, after);
      if own != {} { SameSize(received, own); }
    }
  }

  lemma ReceivedFits(known: set<int>, source: set<int>, received: set<int>, after: set<int>)
    requires known <= after && |after| <= MAX_INSTANCES && received <= source && received <= after
    ensures |received| <= Room(known, source)
    ensures received <= Admissible(known, source)
  {
    PartsOfSet(received, known);
    PartsOfSet(after, known);
    assert after * known == known;
    SubsetAtMost(received * known, source * known);
    SubsetAtMost(received - known, source - known);
    SubsetAtMost(received - known, after - known);
    AdmittedFirst(known, received, after);
  }

  lemma PartsOfSet(s: set<int>, known: set<int>)
    ensures |s| == |s * known| + |s - known|
  {
    assert s == s * known + (s - known);
  }

  lemma AdmittedFirst(known: set<int>, received: set<int>, after: set<int>)
    requires known <= after && |after| <= MAX_INSTANCES && received <= after
    ensures forall id | id in received :: Admits(known, id)
  {
    SubsetAtMost(known, after);
    if |known| == MAX_INSTANCES { SameSize(known, after); }
  }

  /** For a new reader: the condition on the ids themselves. */
  lemma NewReaderSuccess(own: set<int>, source: set<int>, loan: bool)
    requires 0 < |own| <= MAX_INSTANCES
    ensures (forall c: DrainCycle :: c.loan == loan ==> !Misleads({}, own, source, c))
      <==> source <= own || |source| < |own|
  {
    hide Misleads;
    SuccessMeansOwn({}, own, source, loan);
    assert source * {} == {} && source - {} == source;
    assert Admissible({}, source) == source;
  }

  // ----- samples left by the cycle before

  /** What is left of the cycle before, without the samples replaced by newer ones. */
  function Stale(r: Reader, c: DrainCycle): seq<Sample> {
    Except(r.queue, Admitted(r.known, c.deliveries))
  }

  /** How many samples the drain takes, if there are as many. */
  function Limit(r: Reader, c: DrainCycle): nat {
    if c.loan then |Stale(r, c)| + |Own(r.known, c.deliveries)| else c.expected
  }

  /** The samples taken that were left by the cycle before. */
  function StaleTaken(r: Reader, c: DrainCycle): seq<Sample> {
    First(Stale(r, c), Limit(r, c))
  }

  function OwnTaken(r: Reader, c: DrainCycle): seq<Sample> {
    First(Own(r.known, c.deliveries), Limit(r, c) - |StaleTaken(r, c)|)
  }

  /** The samples not taken because of those. */
  function Displaced(r: Reader, c: DrainCycle): seq<Sample> {
    Rest(First(Own(r.known, c.deliveries), Limit(r, c)), Limit(r, c) - |StaleTaken(r, c)|)
  }

  lemma FirstOfConcat(a: seq<Sample>, b: seq<Sample>, n: nat)
    ensures First(a + b, n) == First(a, n) + First(b, n - |First(a, n)|)
    ensures First(b, n) == First(b, n - |First(a, n)|) + Rest(First(b, n), n - |First(a, n)|)
  {}

  /** The reader with nothing left, but the same instances. */
  function Emptied(r: Reader): Reader {
    Reader(r.known, [])
  }

  /** What a cycle receives, with the samples left and without them, and that the parts share no id. */
  lemma Parts(r: Reader, c: DrainCycle)
    requires Valid(r)
    ensures ReceivedIn(r, c) == ValidIds(StaleTaken(r, c)) + ValidIds(OwnTaken(r, c))
    ensures ReceivedIn(Emptied(r), c) == ValidIds(OwnTaken(r, c)) + ValidIds(Displaced(r, c))
    ensures ValidIds(StaleTaken(r, c)) !! ValidIds(OwnTaken(r, c)) !! ValidIds(Displaced(r, c))
  {
    hide Ids, OnePerId, ValidIds, Except, AllDelivered, Admitted;
    var stale, own, n := Stale(r, c), Own(r.known, c.deliveries), Limit(r, c);
    LeftAndOwn(r.known, r.queue, c.deliveries);
    OwnIsAdmitted(r.known, c.deliveries);
    assert AllDelivered(r, c.deliveries).queue == stale + own;
    FirstOfConcat(stale, own, n);
    assert ReceivedIn(r, c) == ValidIds(First(stale + own, n));
    assert ReceivedIn(Emptied(r), c) == ValidIds(First(own, n));
    ValidIdsAppend(StaleTaken(r, c), OwnTaken(r, c));
    ValidIdsAppend(OwnTaken(r, c), Displaced(r, c));
    ExceptKeepsOnePerId(r.queue, Admitted(r.known, c.deliveries));
    PartsApart(stale, own, n, n - |StaleTaken(r, c)|);
  }

  lemma PartsApart(stale: seq<Sample>, own: seq<Sample>, n: nat, k: nat)
    requires OnePerId(own) && Ids(stale) !! Ids(own) && k <= n
    ensures ValidIds(First(stale, n)) !! ValidIds(First(own, k)) !! ValidIds(Rest(First(own, n), k))
  {
    hide Ids, OnePerId, ValidIds, First, Rest;
    var front := First(own, n);
    FirstAndRest(stale, n);
    FirstAndRest(own, n);
    FirstAndRest(front, k);
    FirstOfFirst(own, n, k);
    IdsAppend(First(stale, n), Rest(stale, n));
    IdsAppend(front, Rest(own, n));
    IdsAppend(First(own, k), Rest(front, k));
    OnePerIdAppend(front, Rest(own, n));
    OnePerIdAppend(First(own, k), Rest(front, k));
    ValidIdsAreIds(First(stale, n));
    ValidIdsAreIds(First(own, k));
    ValidIdsAreIds(Rest(front, k));
  }

  lemma FirstOfFirst(s: seq<Sample>, n: nat, k: nat)
    requires k <= n
    ensures First(First(s, n), k) == First(s, k)
  {}

  /**
   For a given reader and cycle: the same ids are received as if nothing had been left, if and only if no valid
   sample among those left is taken, and none is displaced by them.
   */
  lemma {:induction false} SameIds(r: Reader, c: DrainCycle)
    requires Valid(r)
    ensures ReceivedIn(r, c) == ReceivedIn(Emptied(r), c)
      <==> ValidIds(StaleTaken(r, c)) == {} && ValidIds(Displaced(r, c)) == {}
  {
    hide ReceivedIn, ValidIds, StaleTaken, OwnTaken, Displaced;
    Parts(r, c);
    var a, b, d := ValidIds(StaleTaken(r, c)), ValidIds(OwnTaken(r, c)), ValidIds(Displaced(r, c));
    if a + b == b + d {
      assert a <= b + d && d <= a + b;
      assert a == {} && d == {};
    }
  }

  /**
   The same value is returned if and only if as many valid ids come from the samples left as are displaced by them,
   or neither count is the one expected.
   */
  lemma {:induction false} SameReturn(r: Reader, c: DrainCycle)
    requires Valid(r)
    ensures var stale, own, displaced :=
        |ValidIds(StaleTaken(r, c))|, |ValidIds(OwnTaken(r, c))|, |ValidIds(Displaced(r, c))|;
      && |ReceivedIn(r, c)| == stale + own && |ReceivedIn(Emptied(r), c)| == own + displaced
      && ((|ReceivedIn(r, c)| == c.expected <==> |ReceivedIn(Emptied(r), c)| == c.expected)
        <==> stale == displaced || (stale + own != c.expected && own + displaced != c.expected))
  {
    hide ReceivedIn, ValidIds, StaleTaken, OwnTaken, Displaced;
    Parts(r, c);
  }

  /** With valid samples only: the number received, with what was left and not replaced. */
  lemma CountWithStale(r: Reader, c: DrainCycle)
    requires Valid(r) && AllValid(r.queue) && AllValid(c.deliveries)
    ensures var own := |Admitted(r.known, c.deliveries)|;
      var stale := |Ids(r.queue) - Admitted(r.known, c.deliveries)|;
      |ReceivedIn(r, c)| == if c.loan || stale + own <= c.expected then stale + own else c.expected
  {
    hide Ids, OnePerId, ValidIds, AllDelivered, Admitted;
    LeftAndOwn(r.known, r.queue, c.deliveries);
    OwnIsAdmitted(r.known, c.deliveries);
    ExceptKeepsOnePerId(r.queue, Admitted(r.known, c.deliveries));
    var stale, own := Stale(r, c), Own(r.known, c.deliveries);
    var all := stale + own;
    assert AllDelivered(r, c.deliveries).queue == all;
    SizeIsIds(stale);
    OnePerIdAppend(stale, own);
    forall x | x in all ensures x.valid { assert x in stale || x in own; }
    IdsInFront(all, c.expected);
    FirstAndRest(all, c.expected);
  }

  /**
   With valid samples only, by numbers of ids: one at a time, a cycle returns what it would without the samples left
   if and only if its own suffice or all together do not; in batches, if and only if none is left that was not
   replaced, or neither number is the expected one.
   */
  lemma {:induction false} SameReturnOfValid(r: Reader, c: DrainCycle)
    requires Valid(r) && AllValid(r.queue) && AllValid(c.deliveries)
    ensures var own := |Admitted(r.known, c.deliveries)|;
      var stale := |Ids(r.queue) - Admitted(r.known, c.deliveries)|;
      (|ReceivedIn(r, c)| == c.expected <==> |ReceivedIn(Emptied(r), c)| == c.expected)
      <==> if c.loan then stale == 0 || (stale + own != c.expected && own != c.expected)
           else own >= c.expected || stale + own < c.expected
  {
    hide ReceivedIn, Admitted, Ids;
    NothingQueued(r.known);
    CountWithStale(r, c);
    CountWithStale(Emptied(r), c);
    assert {} - Admitted(r.known, c.deliveries) == {};
  }

  /** No cycle at all can tell the difference if and only if nothing was left. */
  lemma OwnDeliveriesAlone(r: Reader)
    requires Valid(r)
    ensures (forall c: DrainCycle :: ReceivedIn(r, c) == ReceivedIn(Emptied(r), c)) <==> r.queue == []
  {
    if r.queue != [] {
      if r.queue[0].valid {
        var c := DrainCycle([], 1, false);
        NoDeliveries(r);
        NoDeliveries(Emptied(r));
        assert r.queue[0] in First(r.queue, 1) && r.queue[0].id in ReceivedIn(r, c);
        assert ReceivedIn(Emptied(r), c) == {};
      } else {
        var id := OtherAdmissible(r.known, r.queue[0].id);
        InvalidInFront(r, Sample(id, true));
      }
    }
  }

  lemma OtherAdmissible(known: set<int>, id: int) returns (other: int)
    ensures other != id && Admits(known, other)
  {
    if |known| < MAX_INSTANCES {
      other := id + 1;
    } else {
      SubsetAtMost(known, known - {id} + {id});
      SomeMember(known - {id});
      other :| other in known - {id};
    }
  }

  lemma InvalidInFront(r: Reader, s: Sample)
    requires r.queue != [] && !r.queue[0].valid && s.valid && s.id != r.queue[0].id && Admits(r.known, s.id)
    ensures var c := DrainCycle([s], 1, false);
      ReceivedIn(r, c) == {} && ReceivedIn(Emptied(r), c) == {s.id}
  {
    OneDelivery(r, s);
    OneDelivery(Emptied(r), s);
    var full := AllDelivered(r, [s]).queue;
    assert full[0] == r.queue[0] && First(full, 1) == [r.queue[0]];
    assert AllDelivered(Emptied(r), [s]).queue == [s];
    ValidIdsOfOne(r.queue[0]);
    ValidIdsOfOne(s);
  }

  lemma OneDelivery(r: Reader, s: Sample)
    ensures AllDelivered(r, [s]) == Delivered(r, s)
  {
    assert [s][..0] == [];
  }

  /** A sample of an earlier cycle that arrives late counts in place of one that was lost. */
  lemma LateSampleMasksLoss(late: int, lost: int)
    requires late != lost
    ensures var c := DrainCycle([Sample(late, true)], 1, false);
      |ReceivedIn(NEW_READER, c)| == c.expected && lost !in ReceivedIn(NEW_READER, c)
  {
    var s := Sample(late, true);
    OneDelivery(NEW_READER, s);
    assert Delivered(NEW_READER, s).queue == [s];
    ValidIdsOfOne(s);
  }

  // ----- instances known from the cycles before

  /**
   The deliveries are admitted as by a new reader if and only if they fit beside the instances known, or those
   are among the ones a new reader would admit.
   */
  lemma {:induction false} SameAdmission(known: set<int>, ds: seq<Sample>)
    requires |known| <= MAX_INSTANCES
    ensures Admitted(known, ds) == Admitted({}, ds)
      <==> |known + Ids(ds)| <= MAX_INSTANCES || known <= Admitted({}, ds)
  {
    hide Ids, AllDelivered;
    NothingQueued(known);
    NothingQueued({});
    Admission(Reader(known, []), ds);
    Admission(NEW_READER, ds);
    var anew := AllDelivered(NEW_READER, ds).known;
    assert {} + Ids(ds) == Ids(ds) && {} + Admitted({}, ds) == anew;
    SubsetAtMost(Ids(ds), known + Ids(ds));
    if known <= anew && |known + Ids(ds)| > MAX_INSTANCES {
      assert known + Ids(ds) == Ids(ds);
      AdmitsAlike(known, ds, anew);
    }
    if Admitted(known, ds) == anew && |known + Ids(ds)| > MAX_INSTANCES {
      SameAdmissionFull(known, Ids(ds), AllDelivered(Reader(known, []), ds).known, anew);
    }
  }

  lemma SameAdmissionFull(known: set<int>, ids: set<int>, after: set<int>, anew: set<int>)
    requires Admitting(known, ids, after) && Admitting({}, ids, anew)
    requires after == known + anew && |known + ids| > MAX_INSTANCES
    ensures known <= anew
  {
    assert {} + ids == ids;
    if |ids| <= MAX_INSTANCES { SameSize(anew, ids); }
    SameSize(anew, after);
  }

  lemma {:induction false} AdmitsAlike(known: set<int>, ds: seq<Sample>, all: set<int>)
    requires known <= all && |all| == MAX_INSTANCES && AllDelivered(NEW_READER, ds).known <= all
    ensures AllDelivered(Reader(known, []), ds).known == known + AllDelivered(NEW_READER, ds).known
    decreases |ds|
  {
    if ds == [] {
      assert known + {} == known;
    } else {
      hide Ids, Except;
      var front, s := ds[..|ds| - 1], ds[|ds| - 1];
      assert ds == front + [s];
      AllDeliveredStep(Reader(known, []), front, s);
      AllDeliveredStep(NEW_READER, front, s);
      AdmitsAlike(known, front, all);
      AdmitsOneAlike(known, AllDelivered(NEW_READER, front).known, s.id, all);
    }
  }

  lemma AdmitsOneAlike(known: set<int>, anew: set<int>, id: int, all: set<int>)
    requires known <= all && |all| == MAX_INSTANCES && anew <= all
    requires Admits(anew, id) ==> id in all
    ensures id in known + anew || |known + anew| < MAX_INSTANCES <==> Admits(anew, id) || id in known
  {
    SubsetAtMost(known + anew, all);
    if |known + anew| == MAX_INSTANCES { SameSize(known + anew, all); }
    if |anew| >= MAX_INSTANCES {
      SubsetAtMost(anew, known + anew);
      SameSize(anew, all);
    }
  }
}
