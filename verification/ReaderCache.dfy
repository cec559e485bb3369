/**
 The subscriber's reader under its quality of service: it manages at most 200 instances and keeps the last
 sample of each. The instance of a sample is its id. Taking a sample does not free its instance, which
 stays managed as long as it has a live writer.
 */
module ReaderCache {
  import opened Sequences
  import opened Subscriber

  const MAX_INSTANCES: nat := 200

  /** The ids whose instances the reader manages, and the samples it holds. */
  datatype Reader = Reader(known: set<int>, queue: seq<Sample>)

  const NEW_READER: Reader := Reader({}, [])

  function Ids(s: seq<Sample>): set<int> {
    set x | x in s :: x.id
  }

  /** The samples of other instances. */
  function Except(s: seq<Sample>, ids: set<int>): (r: seq<Sample>)
    ensures forall x :: x in r <==> x in s && x.id !in ids
  {
    if s == [] then [] else (if s[0].id in ids then [] else [s[0]]) + Except(s[1..], ids)
  }

  predicate Admits(known: set<int>, id: int) {
    id in known || |known| < MAX_INSTANCES
  }

  /** A newer sample of an instance replaces the older one; a new instance needs a free place. */
  function Delivered(r: Reader, s: Sample): Reader {
    if Admits(r.known, s.id) then Reader(r.known + {s.id}, Except(r.queue, {s.id}) + [s]) else r
  }

  function AllDelivered(r: Reader, ds: seq<Sample>): Reader {
    if ds == [] then r else Delivered(AllDelivered(r, ds[..|ds| - 1]), ds[|ds| - 1])
  }

  /** What is held after all deliveries to a new reader. */
  function Cached(ds: seq<Sample>): seq<Sample> {
    AllDelivered(NEW_READER, ds).queue
  }

  /** As many as there are, up to the limit. */
  function Held(ids: set<int>): nat {
    if |ids| < MAX_INSTANCES then |ids| else MAX_INSTANCES
  }

  /** Every id at most once. */
  ghost predicate OnePerId(s: seq<Sample>) {
    s != [] ==> s[0].id !in Ids(s[1..]) && OnePerId(s[1..])
  }

  /** Kept by deliveries and drains: one sample for each of some managed instances. */
  ghost predicate Valid(r: Reader) {
    OnePerId(r.queue) && Ids(r.queue) <= r.known && |r.known| <= MAX_INSTANCES
  }

  lemma IdsAppend(a: seq<Sample>, b: seq<Sample>)
    ensures Ids(a + b) == Ids(a) + Ids(b)
  {
    forall x | x in a + b ensures x in a || x in b {}
    forall x | x in a || x in b ensures x in a + b {}
  }

  lemma IdsOfOne(x: Sample)
    ensures Ids([x]) == {x.id}
  {}

  lemma {:induction false} OnePerIdAppend(a: seq<Sample>, b: seq<Sample>)
    ensures OnePerId(a + b) <==> OnePerId(a) && OnePerId(b) && Ids(a) !! Ids(b)
    decreases |a|
  {
    if a == [] {
      assert a + b == b;
    } else {
      HeadAndTail(a, b);
      OnePerIdAppend(a[1..], b);
      IdsAppend(a[1..], b);
      assert a == [a[0]] + a[1..];
      IdsAppend([a[0]], a[1..]);
      IdsOfOne(a[0]);
    }
  }

  lemma OnePerIdOfOne(x: Sample)
    ensures OnePerId([x])
  {
    assert Ids([x][1..]) == {};
  }

  lemma {:induction false} ExceptKeepsOnePerId(s: seq<Sample>, ids: set<int>)
    ensures Ids(Except(s, ids)) == Ids(s) - ids
    ensures OnePerId(s) ==> OnePerId(Except(s, ids))
    decreases |s|
  {
    if s != [] {
      var kept := if s[0].id in ids then [] else [s[0]];
      assert s == [s[0]] + s[1..];
      IdsAppend([s[0]], s[1..]);
      IdsOfOne(s[0]);
      ExceptKeepsOnePerId(s[1..], ids);
      IdsAppend(kept, Except(s[1..], ids));
      OnePerIdOfOne(s[0]);
      OnePerIdAppend(kept, Except(s[1..], ids));
    }
  }

  lemma {:induction false} SizeIsIds(a: seq<Sample>)
    requires OnePerId(a)
    ensures |Ids(a)| == |a|
    decreases |a|
  {
    if a != [] {
      assert a == [a[0]] + a[1..];
      IdsAppend([a[0]], a[1..]);
      IdsOfOne(a[0]);
      SizeIsIds(a[1..]);
    }
  }

  // ----- one delivery

  lemma DeliveredIds(r: Reader, s: Sample)
    requires |r.known| <= MAX_INSTANCES
    ensures var d, admitted := Delivered(r, s), if Admits(r.known, s.id) then {s.id} else {};
      && d.known == r.known + admitted && |d.known| <= MAX_INSTANCES
      && Ids(d.queue) == Ids(r.queue) + admitted
      && (OnePerId(r.queue) ==> OnePerId(d.queue))
  {
    hide Ids, OnePerId, Except;
    if Admits(r.known, s.id) {
      ExceptKeepsOnePerId(r.queue, {s.id});
      IdsOfOne(s);
      IdsAppend(Except(r.queue, {s.id}), [s]);
      OnePerIdOfOne(s);
      OnePerIdAppend(Except(r.queue, {s.id}), [s]);
      assert Ids(r.queue) - {s.id} + {s.id} == Ids(r.queue) + {s.id};
      if s.id in r.known { assert r.known + {s.id} == r.known; }
    }
  }

  lemma AllDeliveredStep(r: Reader, front: seq<Sample>, s: Sample)
    ensures AllDelivered(r, front + [s]) == Delivered(AllDelivered(r, front), s)
    ensures Ids(front + [s]) == Ids(front) + {s.id}
  {
    assert (front + [s])[..|front|] == front;
    IdsAppend(front, [s]);
    IdsOfOne(s);
  }

  lemma NoDeliveries(r: Reader)
    ensures AllDelivered(r, []) == r && Ids([]) == {}
  {}

  // ----- all deliveries

  /** Which instances are managed does not depend on what is queued, and those that fit are. */
  ghost predicate Admitting(known: set<int>, ids: set<int>, after: set<int>) {
    && known <= after <= known + ids
    && |after| == Held(known + ids)
  }

  lemma AdmitOne(known: set<int>, ids: set<int>, after: set<int>, id: int)
    requires Admitting(known, ids, after)
    ensures Admitting(known, ids + {id}, after + if Admits(after, id) then {id} else {})
  {
    var all := known + ids;
    assert known + (ids + {id}) == all + {id};
    if id in after {
      assert all + {id} == all && after + {id} == after;
    } else if |after| < MAX_INSTANCES {
      SameSize(after, all);
      assert |after + {id}| == |after| + 1;
    } else {
      SubsetAtMost(all, all + {id});
      assert after + {} == after;
    }
  }

  lemma SameSize(a: set<int>, b: set<int>)
    requires a <= b && |a| == |b|
    ensures a == b
  {
    assert b == a + (b - a);
  }

  /**
   Over every delivery sequence: one sample for each of some managed instances, at most 200. Those already
   managed stay, new ones come in while there is room, and a delivered id is queued if it is managed.
   */
  lemma {:induction false} AllDeliveredIds(r: Reader, ds: seq<Sample>)
    requires Valid(r)
    ensures var d := AllDelivered(r, ds);
      && Valid(d) && Admitting(r.known, Ids(ds), d.known)
      && Ids(d.queue) == Ids(r.queue) + Ids(ds) * d.known
    decreases |ds|
  {
    hide Ids, OnePerId, Delivered, AllDelivered, Admitting, Admits;
    if ds == [] {
      NoDeliveries(r);
      AdmitNone(r.known);
    } else {
      var front, s := ds[..|ds| - 1], ds[|ds| - 1];
      var before := AllDelivered(r, front);
      assert ds == front + [s];
      AllDeliveredIds(r, front);
      AllDeliveredStep(r, front, s);
      DeliveredIds(before, s);
      AdmitOne(r.known, Ids(front), before.known, s.id);
      QueueOne(Ids(r.queue), Ids(front), before.known, s.id);
    }
  }

  lemma QueueOne(queued: set<int>, ids: set<int>, known: set<int>, id: int)
    requires queued <= known
    ensures var admitted := if Admits(known, id) then {id} else {};
      && (queued + ids * known) + admitted == queued + (ids + {id}) * (known + admitted)
      && queued + ids * known + admitted <= known + admitted
  {}

  lemma AdmitNone(known: set<int>)
    requires |known| <= MAX_INSTANCES
    ensures Admitting(known, {}, known)
  {
    assert known + {} == known;
  }

  lemma {:induction false} ExceptAppend(a: seq<Sample>, b: seq<Sample>, ids: set<int>)
    ensures Except(a + b, ids) == Except(a, ids) + Except(b, ids)
    decreases |a|
  {
    if a == [] {
      assert a + b == b;
    } else {
      var kept := if a[0].id in ids then [] else [a[0]];
      HeadAndTail(a, b);
      ExceptAppend(a[1..], b, ids);
      Associative(kept, Except(a[1..], ids), Except(b, ids));
    }
  }

  lemma {:induction false} ExceptTwice(s: seq<Sample>, a: set<int>, b: set<int>)
    ensures Except(Except(s, a), b) == Except(s, a + b)
    decreases |s|
  {
    if s != [] {
      var kept := if s[0].id in a then [] else [s[0]];
      ExceptTwice(s[1..], a, b);
      ExceptAppend(kept, Except(s[1..], a), b);
      assert Except([s[0]], b) == if s[0].id in b then [] else [s[0]];
    }
  }

  lemma {:induction false} ExceptNone(s: seq<Sample>)
    ensures Except(s, {}) == s
    decreases |s|
  {
    if s != [] {
      ExceptNone(s[1..]);
      assert [s[0]] + s[1..] == s;
    }
  }

  /** What was queued before and has no newer delivery stays in front of what a reader with nothing queued holds. */
  lemma {:induction false} LeftAndOwn(known: set<int>, left: seq<Sample>, ds: seq<Sample>)
    requires |known| <= MAX_INSTANCES
    ensures var own := AllDelivered(Reader(known, []), ds);
      AllDelivered(Reader(known, left), ds) == Reader(own.known, Except(left, Ids(own.queue)) + own.queue)
    decreases |ds|
  {
    hide Ids, Except, AllDelivered, Delivered, OnePerId;
    if ds == [] {
      NoDeliveries(Reader(known, []));
      NoDeliveries(Reader(known, left));
      ExceptNone(left);
      assert left + [] == left;
    } else {
      var front, s := ds[..|ds| - 1], ds[|ds| - 1];
      assert ds == front + [s];
      NothingQueued(known);
      AllDeliveredIds(Reader(known, []), front);
      LeftAndOwn(known, left, front);
      AllDeliveredStep(Reader(known, []), front, s);
      AllDeliveredStep(Reader(known, left), front, s);
      DeliverBehind(left, AllDelivered(Reader(known, []), front), s);
    }
  }

  lemma NothingQueued(known: set<int>)
    requires |known| <= MAX_INSTANCES
    ensures Valid(Reader(known, [])) && Ids([]) == {}
  {}

  lemma DeliverBehind(left: seq<Sample>, own: Reader, s: Sample)
    requires |own.known| <= MAX_INSTANCES
    ensures var d := Delivered(own, s);
      Delivered(Reader(own.known, Except(left, Ids(own.queue)) + own.queue), s)
        == Reader(d.known, Except(left, Ids(d.queue)) + d.queue)
  {
    hide Ids, Except, OnePerId;
    DeliveredIds(own, s);
    if Admits(own.known, s.id) {
      ExceptAppend(Except(left, Ids(own.queue)), own.queue, {s.id});
      ExceptTwice(left, Ids(own.queue), {s.id});
      Associative(Except(left, Ids(own.queue) + {s.id}), Except(own.queue, {s.id}), [s]);
    } else {
      assert Ids(own.queue) + {} == Ids(own.queue);
    }
  }

  /** After deliveries to a new reader: one sample per id, and as many ids as were delivered, up to 200. */
  lemma CacheHolds(ds: seq<Sample>)
    ensures OnePerId(Cached(ds)) && Ids(Cached(ds)) <= Ids(ds)
    ensures |Cached(ds)| == Held(Ids(ds))
  {
    hide Ids, OnePerId, AllDelivered;
    NothingQueued({});
    AllDeliveredIds(NEW_READER, ds);
    var d := AllDelivered(NEW_READER, ds);
    SizeIsIds(d.queue);
    assert {} + Ids(ds) == Ids(ds) && {} + Ids(ds) * d.known == d.known;
  }

  /** The newest delivery of an id. */
  function Newest(ds: seq<Sample>, id: int): Sample
    requires id in Ids(ds)
  {
    if ds[|ds| - 1].id == id then ds[|ds| - 1] else
      assert ds == ds[..|ds| - 1] + [ds[|ds| - 1]];
      Newest(ds[..|ds| - 1], id)
  }

  /** It has the id, and no later delivery has. */
  lemma {:induction false} NewestIsLast(ds: seq<Sample>, id: int) returns (k: nat)
    requires id in Ids(ds)
    ensures k < |ds| && ds[k] == Newest(ds, id) && ds[k].id == id
    ensures forall j :: k < j < |ds| ==> ds[j].id != id
    decreases |ds|
  {
    var last := |ds| - 1;
    if ds[last].id == id {
      k := last;
    } else {
      assert ds == ds[..last] + [ds[last]];
      k := NewestIsLast(ds[..last], id);
    }
  }

  /** What is queued of an id is the newest sample delivered of it, whatever instances were known before. */
  lemma {:induction false} CacheIsNewest(known: set<int>, ds: seq<Sample>, x: Sample)
    requires x in AllDelivered(Reader(known, []), ds).queue && |known| <= MAX_INSTANCES
    ensures x.id in Ids(ds) && x == Newest(ds, x.id)
    decreases |ds|
  {
    if ds == [] {
      NoDeliveries(Reader(known, []));
      assert false;
    } else {
      var front, s := ds[..|ds| - 1], ds[|ds| - 1];
      NothingQueued(known);
      AllDeliveredIds(Reader(known, []), front);
      assert ds == front + [s];
      IdsAppend(front, [s]);
      IdsOfOne(s);
      if x in AllDelivered(Reader(known, []), front).queue && x.id != s.id {
        CacheIsNewest(known, front, x);
      }
    }
  }

  // ----- draining

  ghost predicate AllValid(s: seq<Sample>) {
    forall x | x in s :: x.valid
  }

  function First(s: seq<Sample>, n: nat): seq<Sample> {
    if |s| <= n then s else s[..n]
  }

  function Rest(s: seq<Sample>, n: nat): seq<Sample> {
    if |s| <= n then [] else s[n..]
  }

  lemma FirstAndRest(s: seq<Sample>, n: nat)
    ensures First(s, n) + Rest(s, n) == s
    ensures |First(s, n)| == if |s| <= n then |s| else n
  {}

  lemma {:induction false} QueuedAreDelivered(known: set<int>, ds: seq<Sample>)
    ensures forall x | x in AllDelivered(Reader(known, []), ds).queue :: x in ds
    decreases |ds|
  {
    if ds != [] { QueuedAreDelivered(known, ds[..|ds| - 1]); }
  }

  lemma ValidIdsAreIds(s: seq<Sample>)
    ensures ValidIds(s) <= Ids(s)
    ensures AllValid(s) ==> ValidIds(s) == Ids(s)
  {}

  /** What either loop takes from a queue to which nothing is added meanwhile, and what it leaves. */
  lemma Taken(q: seq<Sample>, n: nat)
    ensures Samples(Wrap(q)) == q
    ensures OneByOne(Pending(Wrap(q), []), n) == First(q, n)
    ensures AfterOneByOne(Pending(Wrap(q), []), n) == Pending(Wrap(Rest(q, n)), [])
  {
    SamplesOfWrap(q, []);
    assert Wrap(q) + [] == Wrap(q);
    OneByOneOfQuiet(Wrap(q), n);
    if |q| > n { assert Wrap(q)[n..] == Wrap(q[n..]); }
    assert |q| == n ==> Wrap(q)[n..] == [] && q[..n] == q;
  }

  /** The valid ids in front, when every id is there once. */
  lemma IdsInFront(q: seq<Sample>, n: nat)
    requires OnePerId(q)
    ensures |ValidIds(First(q, n))| <= |First(q, n)| && |ValidIds(q)| <= |q| == |Ids(q)|
    ensures AllValid(q) ==> ValidIds(q) == Ids(q) && |ValidIds(First(q, n))| == |First(q, n)|
    ensures ValidIds(First(q, n)) <= ValidIds(q) <= Ids(q)
  {
    var first, rest := First(q, n), Rest(q, n);
    FirstAndRest(q, n);
    OnePerIdAppend(first, rest);
    ValidIdsAppend(first, rest);
    SizeIsIds(q);
    SizeIsIds(first);
    ValidIdsAreIds(q);
    ValidIdsAreIds(first);
    IdsAtMostSamples(first);
    IdsAtMostSamples(q);
  }

  /**
   Whatever was delivered to a new reader, everything is received only if at most 200 ids were expected and
   that many delivered.
   */
  lemma ReceivedFromCache(ds: seq<Sample>, expected: nat)
    ensures |ValidIds(OneByOne(Pending(Wrap(Cached(ds)), []), expected))| == expected ==>
      expected <= MAX_INSTANCES && expected <= |Ids(ds)|
    ensures |ValidIds(Samples(Wrap(Cached(ds))))| == expected ==>
      expected <= MAX_INSTANCES && expected <= |Ids(ds)|
  {
    hide Ids, ValidIds, OnePerId, OneByOne, Samples;
    Taken(Cached(ds), expected);
    CacheHolds(ds);
    IdsInFront(Cached(ds), expected);
    FirstAndRest(Cached(ds), expected);
  }

  /** With every sample valid, the ids received are exactly as many as fit. */
  lemma CountFromCache(ds: seq<Sample>, expected: nat)
    requires AllValid(ds)
    ensures var held := Held(Ids(ds));
      && |ValidIds(Samples(Wrap(Cached(ds))))| == held
      && |ValidIds(OneByOne(Pending(Wrap(Cached(ds)), []), expected))| == if held <= expected then held else expected
  {
    hide Ids, ValidIds, OnePerId, OneByOne, Samples;
    Taken(Cached(ds), expected);
    CacheHolds(ds);
    QueuedAreDelivered({}, ds);
    IdsInFront(Cached(ds), expected);
    FirstAndRest(Cached(ds), expected);
  }
}
