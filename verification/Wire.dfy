/**
 The CDR wire format as a function of leaves: padding, then the bytes of the leaf, swapped when the
 stream and the machine disagree on byte order. Nothing here depends on the padding rule; the rules
 of the data representations are `Xcdr`.
 */
module Wire {
  import opened Bytes
  import opened Schema
  import opened Sequences

  /** A padding rule, byte swapping, and whether padding is overwritten with zeros. */
  datatype Format = Format(gap: (Leaf, nat) -> nat, swap: bool, zeroPadding: bool)

  function Effective(size: Alignment, cap: Alignment): Alignment {
    if size < cap then size else cap
  }

  /**
   The rule of the data representations: a leaf is aligned to the smaller of its word size and a
   cap, which is 8 in XCDR1, 4 in XCDR2 and 1 in unaligned CDR.
   */
  ghost function Xcdr(cap: Alignment, swap: bool, zeroPadding: bool): Format {
    Format((l: Leaf, pos: nat) => CdrGap(l, pos, cap), swap, zeroPadding)
  }

  ghost function CdrGap(l: Leaf, pos: nat, cap: Alignment): nat {
    AlignUp(pos, Effective(l.WordSize(), cap)) - pos
  }

  ghost function LeafAt(l: Leaf, pos: nat, f: Format): nat {
    pos + f.gap(l, pos)
  }

  /** Where the cursor stands after the leaves. */
  ghost function EndPos(ls: seq<Leaf>, pos: nat, f: Format): (end: nat)
    ensures end >= pos
  {
    if ls == [] then pos else EndPos(ls[1..], LeafAt(ls[0], pos, f) + ls[0].Width(), f)
  }

  /** The wire form of the bytes of one leaf, which is its own inverse. */
  function Wired(w: seq<byte>, l: Leaf, f: Format): (r: seq<byte>)
    ensures |r| == |w|
  {
    if f.swap && l.Scalar? then Reverse(w) else w
  }

  lemma WiredTwice(w: seq<byte>, l: Leaf, f: Format)
    ensures Wired(Wired(w, l, f), l, f) == w
  {
    ReverseTwice(w);
  }

  /** The buffer after one leaf and the padding before it. */
  ghost function PutLeaf(buf: seq<byte>, l: Leaf, w: seq<byte>, pos: nat, f: Format): (r: seq<byte>)
    requires |w| == l.Width()
    ensures |r| == |buf|
  {
    var at := LeafAt(l, pos, f);
    seq(|buf|, i requires 0 <= i < |buf| =>
      if at <= i < at + l.Width() then Wired(w, l, f)[i - at]
      else if f.zeroPadding && pos <= i < at then 0
      else buf[i])
  }

  /** The buffer after the leaves were written from `pos` on. */
  ghost function Put(buf: seq<byte>, ls: seq<Leaf>, ws: seq<seq<byte>>, pos: nat, f: Format): (r: seq<byte>)
    requires Fit(ws, ls) && EndPos(ls, pos, f) <= |buf|
    ensures |r| == |buf|
    decreases |ls|
  {
    if ls == [] then buf else
      Put(PutLeaf(buf, ls[0], ws[0], pos, f), ls[1..], ws[1..], LeafAt(ls[0], pos, f) + ls[0].Width(), f)
  }

  /** The words found in the buffer at the places of the leaves. */
  ghost function Get(buf: seq<byte>, ls: seq<Leaf>, pos: nat, f: Format): (ws: seq<seq<byte>>)
    requires EndPos(ls, pos, f) <= |buf|
    ensures Fit(ws, ls)
    decreases |ls|
  {
    if ls == [] then [] else
      var at := LeafAt(ls[0], pos, f);
      [Wired(buf[at..at + ls[0].Width()], ls[0], f)] + Get(buf, ls[1..], at + ls[0].Width(), f)
  }

  lemma OneLeaf(buf: seq<byte>, l: Leaf, w: seq<byte>, pos: nat, f: Format)
    requires |w| == l.Width()
    ensures EndPos([l], pos, f) == LeafAt(l, pos, f) + l.Width()
    ensures EndPos([l], pos, f) <= |buf| ==> Fit([w], [l]) && Put(buf, [l], [w], pos, f) == PutLeaf(buf, l, w, pos, f)
  {
    assert [l][1..] == [] && [w][1..] == [];
  }

  /** Writing leaves the buffer alone outside the span from the start to the end position. */
  lemma {:induction false} PutFrame(buf: seq<byte>, ls: seq<Leaf>, ws: seq<seq<byte>>, pos: nat, f: Format)
    requires Fit(ws, ls) && EndPos(ls, pos, f) <= |buf|
    ensures forall i :: 0 <= i < |buf| && !(pos <= i < EndPos(ls, pos, f)) ==> Put(buf, ls, ws, pos, f)[i] == buf[i]
    decreases |ls|
  {
    if ls != [] {
      PutFrame(PutLeaf(buf, ls[0], ws[0], pos, f), ls[1..], ws[1..], LeafAt(ls[0], pos, f) + ls[0].Width(), f);
    }
  }

  /** Two buffers that agree on the span hold the same words. */
  lemma {:induction false} GetDependsOnSpan(a: seq<byte>, b: seq<byte>, ls: seq<Leaf>, pos: nat, f: Format)
    requires EndPos(ls, pos, f) <= |a| && EndPos(ls, pos, f) <= |b|
    requires forall i :: pos <= i < EndPos(ls, pos, f) ==> a[i] == b[i]
    ensures Get(a, ls, pos, f) == Get(b, ls, pos, f)
    decreases |ls|
  {
    if ls != [] {
      var at := LeafAt(ls[0], pos, f);
      var next := at + ls[0].Width();
      assert a[at..next] == b[at..next];
      GetDependsOnSpan(a, b, ls[1..], next, f);
    }
  }

  /** The round trip: what was put is what is got. */
  lemma {:induction false} GetAfterPut(buf: seq<byte>, ls: seq<Leaf>, ws: seq<seq<byte>>, pos: nat, f: Format)
    requires Fit(ws, ls) && EndPos(ls, pos, f) <= |buf|
    ensures Get(Put(buf, ls, ws, pos, f), ls, pos, f) == ws
    decreases |ls|
  {
    if ls != [] {
      var at := LeafAt(ls[0], pos, f);
      var next := at + ls[0].Width();
      var mid := PutLeaf(buf, ls[0], ws[0], pos, f);
      GetAfterPut(mid, ls[1..], ws[1..], next, f);
      PutFrame(mid, ls[1..], ws[1..], next, f);
      assert Put(buf, ls, ws, pos, f)[at..next] == Wired(ws[0], ls[0], f);
      WiredTwice(ws[0], ls[0], f);
    }
  }

  /** Reading does not care whether the writer zeroed the padding. */
  lemma {:induction false} PaddingPolicyIsIrrelevant(buf: seq<byte>, ls: seq<Leaf>, pos: nat, f: Format, g: Format)
    requires g.gap == f.gap && g.swap == f.swap
    ensures EndPos(ls, pos, g) == EndPos(ls, pos, f)
    ensures EndPos(ls, pos, f) <= |buf| ==> Get(buf, ls, pos, f) == Get(buf, ls, pos, g)
    decreases |ls|
  {
    if ls != [] {
      PaddingPolicyIsIrrelevant(buf, ls[1..], LeafAt(ls[0], pos, f) + ls[0].Width(), f, g);
    }
  }

  lemma {:induction false} EndPosAppend(a: seq<Leaf>, b: seq<Leaf>, pos: nat, f: Format)
    ensures EndPos(a + b, pos, f) == EndPos(b, EndPos(a, pos, f), f)
    decreases |a|
  {
    if a == [] {
      assert a + b == b;
    } else {
      HeadAndTail(a, b);
      EndPosAppend(a[1..], b, LeafAt(a[0], pos, f) + a[0].Width(), f);
    }
  }

  /** Writing a concatenation is writing the first part and then the second from where it ended. */
  lemma {:induction false} PutAppend(buf: seq<byte>, a: seq<Leaf>, v: seq<seq<byte>>, b: seq<Leaf>, w: seq<seq<byte>>,
      pos: nat, f: Format)
    requires Fit(v, a) && Fit(w, b)
    requires EndPos(b, EndPos(a, pos, f), f) <= |buf|
    ensures Fit(v + w, a + b) && EndPos(a + b, pos, f) <= |buf|
    ensures Put(buf, a + b, v + w, pos, f) == Put(Put(buf, a, v, pos, f), b, w, EndPos(a, pos, f), f)
    decreases |a|
  {
    EndPosAppend(a, b, pos, f);
    FitAppend(v, a, w, b);
    if a == [] {
      assert a + b == b && v + w == w;
    } else {
      HeadAndTail(a, b);
      HeadAndTail(v, w);
      var next := LeafAt(a[0], pos, f) + a[0].Width();
      PutAppend(PutLeaf(buf, a[0], v[0], pos, f), a[1..], v[1..], b, w, next, f);
    }
  }

  lemma EndOfNone(pos: nat, f: Format)
    ensures EndPos([], pos, f) == pos
  {}

  lemma EndStep(ls: seq<Leaf>, pos: nat, f: Format)
    requires ls != []
    ensures EndPos(ls, pos, f) == EndPos(ls[1..], LeafAt(ls[0], pos, f) + ls[0].Width(), f)
  {}

  lemma GetStep(buf: seq<byte>, ls: seq<Leaf>, pos: nat, f: Format)
    requires ls != [] && EndPos(ls, pos, f) <= |buf|
    ensures var at, next := LeafAt(ls[0], pos, f), LeafAt(ls[0], pos, f) + ls[0].Width();
      && next <= EndPos(ls[1..], next, f) <= |buf|
      && Get(buf, ls, pos, f) == [Wired(buf[at..next], ls[0], f)] + Get(buf, ls[1..], next, f)
  {}

  lemma {:induction false} GetAppend(buf: seq<byte>, a: seq<Leaf>, b: seq<Leaf>, pos: nat, f: Format)
    requires EndPos(b, EndPos(a, pos, f), f) <= |buf|
    ensures EndPos(a + b, pos, f) <= |buf|
    ensures Get(buf, a + b, pos, f) == Get(buf, a, pos, f) + Get(buf, b, EndPos(a, pos, f), f)
    decreases |a|
  {
    hide *;
    EndPosAppend(a, b, pos, f);
    if a == [] {
      EndOfNone(pos, f);
      assert a + b == b && [] + Get(buf, b, pos, f) == Get(buf, b, pos, f);
      assert |Get(buf, a, pos, f)| == 0 by { GetFits(buf, a, pos, f); }
    } else {
      HeadAndTail(a, b);
      EndStep(a, pos, f);
      GetStep(buf, a, pos, f);
      GetStep(buf, a + b, pos, f);
      var next := LeafAt(a[0], pos, f) + a[0].Width();
      GetAppend(buf, a[1..], b, next, f);
      Associative([Wired(buf[next - a[0].Width()..next], a[0], f)], Get(buf, a[1..], next, f),
        Get(buf, b, EndPos(a, pos, f), f));
    }
  }

  lemma GetFits(buf: seq<byte>, ls: seq<Leaf>, pos: nat, f: Format)
    requires EndPos(ls, pos, f) <= |buf|
    ensures |Get(buf, ls, pos, f)| == |ls|
  {}

  /** With zeroed padding the emitted span is the same in whatever buffer it is written. */
  lemma {:induction false} SpanIsDetermined(a: seq<byte>, b: seq<byte>, ls: seq<Leaf>, ws: seq<seq<byte>>, pos: nat,
      f: Format)
    requires Fit(ws, ls) && f.zeroPadding
    requires EndPos(ls, pos, f) <= |a| && EndPos(ls, pos, f) <= |b|
    ensures forall i :: pos <= i < EndPos(ls, pos, f) ==> Put(a, ls, ws, pos, f)[i] == Put(b, ls, ws, pos, f)[i]
    decreases |ls|
  {
    if ls != [] {
      var next := LeafAt(ls[0], pos, f) + ls[0].Width();
      var ma, mb := PutLeaf(a, ls[0], ws[0], pos, f), PutLeaf(b, ls[0], ws[0], pos, f);
      PutFrame(ma, ls[1..], ws[1..], next, f);
      PutFrame(mb, ls[1..], ws[1..], next, f);
      SpanIsDetermined(ma, mb, ls[1..], ws[1..], next, f);
    }
  }

  lemma LeafIsPeriodic(l: Leaf, p: nat, q: nat, cap: Alignment, swap: bool, zeroPadding: bool)
    requires Residue(p, cap) == Residue(q, cap)
    ensures var f := Xcdr(cap, swap, zeroPadding);
      var p', q' := LeafAt(l, p, f) + l.Width(), LeafAt(l, q, f) + l.Width();
      p' - p == q' - q && Residue(p', cap) == Residue(q', cap)
  {
    PaddingIsPeriodic(p, q, Effective(l.WordSize(), cap), cap);
    ShiftKeepsResidue(p, q, LeafAt(l, p, Xcdr(cap, swap, zeroPadding)) + l.Width() - p, cap);
  }

  /** The encoded size depends on the start offset only modulo the alignment cap. */
  lemma {:induction false} SizeIsPeriodic(ls: seq<Leaf>, p: nat, q: nat, cap: Alignment, swap: bool, zeroPadding: bool)
    requires Residue(p, cap) == Residue(q, cap)
    ensures EndPos(ls, p, Xcdr(cap, swap, zeroPadding)) - p == EndPos(ls, q, Xcdr(cap, swap, zeroPadding)) - q
    decreases |ls|
  {
    hide *;
    var f := Xcdr(cap, swap, zeroPadding);
    if ls == [] {
      EndOfNone(p, f);
      EndOfNone(q, f);
    } else {
      LeafIsPeriodic(ls[0], p, q, cap, swap, zeroPadding);
      SizeIsPeriodic(ls[1..], LeafAt(ls[0], p, f) + ls[0].Width(), LeafAt(ls[0], q, f) + ls[0].Width(),
        cap, swap, zeroPadding);
      EndStep(ls, p, f);
      EndStep(ls, q, f);
    }
  }

  lemma LeafAtMonotone(l: Leaf, p: nat, q: nat, a: Alignment, b: Alignment, swap: bool, zeroPadding: bool)
    requires p <= q && a <= b
    ensures LeafAt(l, p, Xcdr(a, swap, zeroPadding)) <= LeafAt(l, q, Xcdr(b, swap, zeroPadding))
  {
    AlignUpMonotone(p, q, Effective(l.WordSize(), a), Effective(l.WordSize(), b));
  }

  /** A later start or a larger alignment cap never ends the encoding earlier. */
  lemma {:induction false} EndPosMonotone(ls: seq<Leaf>, p: nat, q: nat, a: Alignment, b: Alignment, swap: bool,
      zeroPadding: bool)
    requires p <= q && a <= b
    ensures EndPos(ls, p, Xcdr(a, swap, zeroPadding)) <= EndPos(ls, q, Xcdr(b, swap, zeroPadding))
    decreases |ls|
  {
    hide *;
    var f, g := Xcdr(a, swap, zeroPadding), Xcdr(b, swap, zeroPadding);
    if ls == [] {
      EndOfNone(p, f);
      EndOfNone(q, g);
    } else {
      var p', q' := LeafAt(ls[0], p, f) + ls[0].Width(), LeafAt(ls[0], q, g) + ls[0].Width();
      LeafAtMonotone(ls[0], p, q, a, b, swap, zeroPadding);
      EndPosMonotone(ls[1..], p', q', a, b, swap, zeroPadding);
      EndStep(ls, p, f);
      EndStep(ls, q, g);
    }
  }

  /** Two padding rules that treat every leaf of a list alike. */
  ghost predicate PadAlike(ls: seq<Leaf>, f: Format, g: Format) {
    ls != [] ==> (forall p: nat :: f.gap(ls[0], p) == g.gap(ls[0], p)) && PadAlike(ls[1..], f, g)
  }

  lemma {:induction false} AlikeRulesEndAlike(ls: seq<Leaf>, pos: nat, f: Format, g: Format)
    requires PadAlike(ls, f, g)
    ensures EndPos(ls, pos, g) == EndPos(ls, pos, f)
    decreases |ls|
  {
    if ls != [] { AlikeRulesEndAlike(ls[1..], LeafAt(ls[0], pos, f) + ls[0].Width(), f, g); }
  }

  lemma PutLeafAlike(buf: seq<byte>, l: Leaf, w: seq<byte>, pos: nat, f: Format, g: Format)
    requires |w| == l.Width() && f.gap(l, pos) == g.gap(l, pos)
    requires g.swap == f.swap && g.zeroPadding == f.zeroPadding
    ensures PutLeaf(buf, l, w, pos, f) == PutLeaf(buf, l, w, pos, g)
  {
    var a, b := PutLeaf(buf, l, w, pos, f), PutLeaf(buf, l, w, pos, g);
    assert Wired(w, l, f) == Wired(w, l, g);
    assert forall i :: 0 <= i < |buf| ==> a[i] == b[i];
  }

  /** Such representations produce the same bytes. */
  lemma {:induction false} AlikeRulesPutAlike(buf: seq<byte>, ls: seq<Leaf>, ws: seq<seq<byte>>, pos: nat, f: Format,
      g: Format)
    requires Fit(ws, ls) && PadAlike(ls, f, g)
    requires g.swap == f.swap && g.zeroPadding == f.zeroPadding
    ensures EndPos(ls, pos, g) == EndPos(ls, pos, f)
    ensures EndPos(ls, pos, f) <= |buf| ==> Put(buf, ls, ws, pos, g) == Put(buf, ls, ws, pos, f)
    decreases |ls|
  {
    if ls != [] {
      PutLeafAlike(buf, ls[0], ws[0], pos, f, g);
      AlikeRulesPutAlike(PutLeaf(buf, ls[0], ws[0], pos, f), ls[1..], ws[1..],
        LeafAt(ls[0], pos, f) + ls[0].Width(), f, g);
    }
  }

  ghost predicate WordsUpTo(ls: seq<Leaf>, cap: nat) {
    ls != [] ==> ls[0].WordSize() <= cap && WordsUpTo(ls[1..], cap)
  }

  /** Caps that differ only above the largest word are the same rule. */
  lemma {:induction false} CapAboveWordsIsIrrelevant(ls: seq<Leaf>, a: Alignment, b: Alignment, swap: bool,
      zeroPadding: bool)
    requires WordsUpTo(ls, a) && WordsUpTo(ls, b)
    ensures PadAlike(ls, Xcdr(a, swap, zeroPadding), Xcdr(b, swap, zeroPadding))
    decreases |ls|
  {
    if ls != [] {
      CapAboveWordsIsIrrelevant(ls[1..], a, b, swap, zeroPadding);
    }
  }

  // ----- encodings behind a header

  /** The rule of a representation with alignment counted from `origin`. */
  ghost function FromOrigin(origin: nat, cap: Alignment, swap: bool, zeroPadding: bool): Format {
    Format((l: Leaf, pos: nat) => GapBehind(l, pos, origin, cap), swap, zeroPadding)
  }

  ghost function GapBehind(l: Leaf, pos: nat, origin: nat, cap: Alignment): nat {
    if pos < origin then 0 else CdrGap(l, pos - origin, cap)
  }

  lemma GapFromOrigin(l: Leaf, origin: nat, pos: nat, cap: Alignment, swap: bool, zeroPadding: bool)
    ensures LeafAt(l, origin + pos, FromOrigin(origin, cap, swap, zeroPadding))
      == origin + LeafAt(l, pos, Xcdr(cap, swap, zeroPadding))
  {}

  lemma {:induction false} EndFromOrigin(ls: seq<Leaf>, origin: nat, pos: nat, cap: Alignment, swap: bool,
      zeroPadding: bool)
    ensures EndPos(ls, origin + pos, FromOrigin(origin, cap, swap, zeroPadding))
      == origin + EndPos(ls, pos, Xcdr(cap, swap, zeroPadding))
    decreases |ls|
  {
    hide *;
    var f, g := FromOrigin(origin, cap, swap, zeroPadding), Xcdr(cap, swap, zeroPadding);
    if ls == [] {
      EndOfNone(origin + pos, f);
      EndOfNone(pos, g);
    } else {
      GapFromOrigin(ls[0], origin, pos, cap, swap, zeroPadding);
      EndFromOrigin(ls[1..], origin, LeafAt(ls[0], pos, g) + ls[0].Width(), cap, swap, zeroPadding);
      EndStep(ls, origin + pos, f);
      EndStep(ls, pos, g);
    }
  }

  /** `f` pads behind a header of `k` bytes as `g` pads without one. */
  ghost predicate PadsBehind(k: nat, f: Format, g: Format) {
    f.swap == g.swap && forall l: Leaf, p: nat :: LeafAt(l, k + p, f) == k + LeafAt(l, p, g)
  }

  lemma {:induction false} EndBehind(k: nat, ls: seq<Leaf>, pos: nat, f: Format, g: Format)
    requires PadsBehind(k, f, g)
    ensures EndPos(ls, k + pos, f) == k + EndPos(ls, pos, g)
    decreases |ls|
  {
    if ls != [] {
      EndBehind(k, ls[1..], LeafAt(ls[0], pos, g) + ls[0].Width(), f, g);
      assert LeafAt(ls[0], k + pos, f) == k + LeafAt(ls[0], pos, g);
    }
  }

  /** A machine of the other byte order reads every word reversed. */
  ghost function Reordered(ws: seq<seq<byte>>, ls: seq<Leaf>): (r: seq<seq<byte>>)
    requires Fit(ws, ls)
    decreases |ls|
  {
    if ls == [] then [] else
      [if ls[0].Scalar? then Reverse(ws[0]) else ws[0]] + Reordered(ws[1..], ls[1..])
  }

  lemma {:induction false} GetOnOtherMachine(buf: seq<byte>, ls: seq<Leaf>, pos: nat, f: Format, g: Format)
    requires g.gap == f.gap && g.swap != f.swap && EndPos(ls, pos, f) <= |buf|
    ensures EndPos(ls, pos, g) == EndPos(ls, pos, f)
    ensures Get(buf, ls, pos, g) == Reordered(Get(buf, ls, pos, f), ls)
    decreases |ls|
  {
    if ls != [] {
      var at := LeafAt(ls[0], pos, f);
      ReverseTwice(buf[at..at + ls[0].Width()]);
      GetOnOtherMachine(buf, ls[1..], at + ls[0].Width(), f, g);
    }
  }

  /** What one machine puts, a machine of the other byte order gets with every word in its own order. */
  lemma {:induction false} OtherMachineReadsWords(buf: seq<byte>, ls: seq<Leaf>, ws: seq<seq<byte>>, pos: nat,
      f: Format, g: Format)
    requires Fit(ws, ls) && EndPos(ls, pos, f) <= |buf|
    requires g.gap == f.gap && g.swap != f.swap
    ensures EndPos(ls, pos, g) == EndPos(ls, pos, f)
    ensures Get(Put(buf, ls, ws, pos, f), ls, pos, g) == Reordered(ws, ls)
  {
    GetAfterPut(buf, ls, ws, pos, f);
    GetOnOtherMachine(Put(buf, ls, ws, pos, f), ls, pos, f, g);
  }
}
