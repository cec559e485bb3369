/**
 The in-memory layout of the generated structs against their encoding: when copying the bytes of a
 struct to the wire is the same as encoding it member by member.
 */
module Layout {
  import opened Bytes
  import opened Schema
  import opened Wire
  import opened Sequences

  // ----- where leaves are

  ghost function CdrOffsets(ls: seq<Leaf>, pos: nat, f: Format): (offs: seq<nat>)
    ensures |offs| == |ls|
  {
    if ls == [] then [] else
      [LeafAt(ls[0], pos, f)] + CdrOffsets(ls[1..], LeafAt(ls[0], pos, f) + ls[0].Width(), f)
  }

  ghost function NativeAlign(t: Type): Alignment
    decreases t
  {
    match t
    case Primitive(size) => size
    case CharArray(_) => 1
    case Struct(members) => MembersAlign(members, 0)
  }

  ghost function MembersAlign(members: seq<Type>, i: nat): Alignment
    requires i <= |members|
    decreases members, |members| - i
  {
    if i == |members| then 1 else
      var a, b := NativeAlign(members[i]), MembersAlign(members, i + 1);
      if a > b then a else b
  }

  /** The end of the last leaf of a type laid out at `at`, before the padding a struct ends with. */
  ghost function LeafEnd(t: Type, at: nat): (end: nat)
    ensures end >= at
    decreases t, 0
  {
    match t
    case Primitive(size) => at + size
    case CharArray(length) => at + length
    case Struct(members) => MembersEnd(members, 0, at)
  }

  ghost function NativeEnd(t: Type, at: nat): (end: nat)
    ensures end >= LeafEnd(t, at)
    decreases t, 1
  {
    AlignUp(LeafEnd(t, at), NativeAlign(t))
  }

  ghost function MembersEnd(members: seq<Type>, i: nat, off: nat): (end: nat)
    requires i <= |members|
    ensures end >= off
    decreases members, |members| - i
  {
    if i == |members| then off else
      var at := AlignUp(off, NativeAlign(members[i]));
      if i + 1 == |members| then LeafEnd(members[i], at) else MembersEnd(members, i + 1, NativeEnd(members[i], at))
  }

  ghost function NativeOffsets(t: Type, at: nat): seq<nat>
    decreases t
  {
    match t
    case Primitive(_) => [at]
    case CharArray(_) => [at]
    case Struct(members) => MemberOffsets(members, 0, at)
  }

  ghost function MemberOffsets(members: seq<Type>, i: nat, off: nat): seq<nat>
    requires i <= |members|
    decreases members, |members| - i
  {
    if i == |members| then [] else
      var at := AlignUp(off, NativeAlign(members[i]));
      NativeOffsets(members[i], at) + MemberOffsets(members, i + 1, NativeEnd(members[i], at))
  }

  // ----- structs that are laid out as they are encoded

  /** Every nested struct starts with a word of its own alignment and ends without padding. */
  ghost predicate Plain(t: Type)
    decreases t
  {
    t.Struct? ==> forall m | m in t.members && m.Struct? :: Plain(m) && NestsPlainly(m)
  }

  ghost predicate NestsPlainly(m: Type) {
    && Leaves(m, Whole) != [] && Leaves(m, Whole)[0].WordSize() == NativeAlign(m)
    && Residue(LeafEnd(m, 0), NativeAlign(m)) == 0
  }

  lemma {:induction false} WordsUpToAppend(a: seq<Leaf>, b: seq<Leaf>, cap: nat)
    requires WordsUpTo(a, cap) && WordsUpTo(b, cap)
    ensures WordsUpTo(a + b, cap)
  {
    if a == [] {
      assert a + b == b;
    } else {
      HeadAndTail(a, b);
      WordsUpToAppend(a[1..], b, cap);
    }
  }

  lemma {:induction false} WordsUpToLarger(a: seq<Leaf>, cap: nat, cap': nat)
    requires WordsUpTo(a, cap) && cap <= cap'
    ensures WordsUpTo(a, cap')
  {
    if a != [] { WordsUpToLarger(a[1..], cap, cap'); }
  }

  /** The alignment of a type is at least the word size of each of its leaves. */
  lemma {:induction false} AlignCoversWords(t: Type)
    ensures WordsUpTo(Leaves(t, Whole), NativeAlign(t))
    decreases t
  {
    if t.Struct? {
      AlignCoversMembers(t.members, 0);
    } else {
      assert Leaves(t, Whole)[1..] == [];
    }
  }

  lemma {:induction false} AlignCoversMembers(members: seq<Type>, i: nat)
    requires i <= |members|
    ensures WordsUpTo(LeavesFrom(members, i, Whole), MembersAlign(members, i))
    decreases members, |members| - i
  {
    if i < |members| {
      AlignCoversWords(members[i]);
      AlignCoversMembers(members, i + 1);
      WordsUpToLarger(Leaves(members[i], Whole), NativeAlign(members[i]), MembersAlign(members, i));
      WordsUpToLarger(LeavesFrom(members, i + 1, Whole), MembersAlign(members, i + 1), MembersAlign(members, i));
      WordsUpToAppend(Leaves(members[i], Whole), LeavesFrom(members, i + 1, Whole), MembersAlign(members, i));
    }
  }

  lemma {:induction false} CdrOffsetsAppend(a: seq<Leaf>, b: seq<Leaf>, pos: nat, f: Format)
    ensures CdrOffsets(a + b, pos, f) == CdrOffsets(a, pos, f) + CdrOffsets(b, EndPos(a, pos, f), f)
    decreases |a|
  {
    if a == [] {
      assert a + b == b;
    } else {
      HeadAndTail(a, b);
      var next := LeafAt(a[0], pos, f) + a[0].Width();
      CdrOffsetsAppend(a[1..], b, next, f);
      Associative([LeafAt(a[0], pos, f)], CdrOffsets(a[1..], next, f), CdrOffsets(b, EndPos(a, pos, f), f));
    }
  }

  lemma {:induction false} AlikeRulesPlaceAlike(ls: seq<Leaf>, pos: nat, f: Format, g: Format)
    requires PadAlike(ls, f, g)
    ensures CdrOffsets(ls, pos, f) == CdrOffsets(ls, pos, g)
    decreases |ls|
  {
    if ls != [] { AlikeRulesPlaceAlike(ls[1..], LeafAt(ls[0], pos, f) + ls[0].Width(), f, g); }
  }

  /** Encoding may as well start where the first leaf is placed. */
  lemma StartAtFirstLeaf(ls: seq<Leaf>, pos: nat, at: nat, f: Format)
    requires ls != [] && at == LeafAt(ls[0], pos, f) == LeafAt(ls[0], at, f)
    ensures CdrOffsets(ls, pos, f) == CdrOffsets(ls, at, f) && EndPos(ls, pos, f) == EndPos(ls, at, f)
  {}

  lemma LeafIsAligned(l: Leaf, pos: nat, a: Alignment, cap: Alignment)
    requires l.WordSize() == a <= cap
    ensures LeafAt(l, pos, Xcdr(cap, false, false)) == AlignUp(pos, a)
    ensures LeafAt(l, AlignUp(pos, a), Xcdr(cap, false, false)) == AlignUp(pos, a)
  {
    AlignUpIsAligned(pos, a);
    AlignUpIsAligned(AlignUp(pos, a), a);
  }

  /** The size of a type from any place it may be aligned at. */
  lemma SizeAtAlignedStart(t: Type, at: nat, cap: Alignment)
    requires NativeAlign(t) <= cap && Residue(at, NativeAlign(t)) == 0
    ensures EndPos(Leaves(t, Whole), at, Xcdr(cap, false, false)) - at
      == EndPos(Leaves(t, Whole), 0, Xcdr(cap, false, false))
  {
    var a, ls := NativeAlign(t), Leaves(t, Whole);
    AlignCoversWords(t);
    WordsUpToLarger(ls, a, cap);
    CapAboveWordsIsIrrelevant(ls, a, cap, false, false);
    AlikeRulesEndAlike(ls, at, Xcdr(a, false, false), Xcdr(cap, false, false));
    AlikeRulesEndAlike(ls, 0, Xcdr(a, false, false), Xcdr(cap, false, false));
    SizeIsPeriodic(ls, at, 0, a, false, false);
  }

  lemma PlainLeafIsEncoded(t: Type, off: nat, cap: Alignment)
    requires !t.Struct? && NativeAlign(t) <= cap
    ensures var at, f := AlignUp(off, NativeAlign(t)), Xcdr(cap, false, false);
      && NativeOffsets(t, at) == CdrOffsets(Leaves(t, Whole), off, f)
      && NativeEnd(t, at) == LeafEnd(t, at) == EndPos(Leaves(t, Whole), off, f)
  {
    var ls, a := Leaves(t, Whole), NativeAlign(t);
    LeafIsAligned(ls[0], off, a, cap);
    assert ls[1..] == [];
    AlignUpIsAligned(off, a);
    if t.Primitive? { WordsKeepAlignment(AlignUp(off, a), a, t.size); }
    AlignUpIsAligned(LeafEnd(t, AlignUp(off, a)), a);
  }

  /** Plain layout is the encoding: every leaf of a plain type stands in memory where it stands on the wire. */
  lemma {:induction false} PlainIsEncoded(t: Type, at: nat, cap: Alignment)
    requires Plain(t) && NativeAlign(t) <= cap && Residue(at, NativeAlign(t)) == 0
    ensures NativeOffsets(t, at) == CdrOffsets(Leaves(t, Whole), at, Xcdr(cap, false, false))
    ensures LeafEnd(t, at) == EndPos(Leaves(t, Whole), at, Xcdr(cap, false, false))
    decreases t, 0
  {
    if t.Struct? {
      PlainMembersAreEncoded(t.members, 0, at, cap);
    } else {
      PlainLeafIsEncoded(t, at, cap);
      AlignUpIsAligned(at, NativeAlign(t));
    }
  }

  lemma {:induction false} PlainMembersAreEncoded(members: seq<Type>, i: nat, off: nat, cap: Alignment)
    requires Plain(Struct(members)) && i <= |members| && MembersAlign(members, i) <= cap
    ensures MemberOffsets(members, i, off) == CdrOffsets(LeavesFrom(members, i, Whole), off, Xcdr(cap, false, false))
    ensures MembersEnd(members, i, off) == EndPos(LeavesFrom(members, i, Whole), off, Xcdr(cap, false, false))
    decreases members, |members| - i
  {
    hide AlignUp, LeafAt, Xcdr, NativeAlign, NativeEnd, LeafEnd;
    if i < |members| {
      var m, f := members[i], Xcdr(cap, false, false);
      var ls, rest := Leaves(m, Whole), LeavesFrom(members, i + 1, Whole);
      var at := AlignUp(off, NativeAlign(m));
      if m.Struct? {
        assert m in members;
        NestedIsEncoded(m, off, cap);
      } else {
        PlainLeafIsEncoded(m, off, cap);
      }
      CdrOffsetsAppend(ls, rest, off, f);
      EndPosAppend(ls, rest, off, f);
      PlainMembersAreEncoded(members, i + 1, NativeEnd(m, at), cap);
    }
  }

  lemma {:induction false} NestedIsEncoded(m: Type, off: nat, cap: Alignment)
    requires m.Struct? && Plain(m) && NestsPlainly(m) && NativeAlign(m) <= cap
    ensures var at := AlignUp(off, NativeAlign(m));
      && NativeOffsets(m, at) == CdrOffsets(Leaves(m, Whole), off, Xcdr(cap, false, false))
      && NativeEnd(m, at) == LeafEnd(m, at) == EndPos(Leaves(m, Whole), off, Xcdr(cap, false, false))
    decreases m, 1
  {
    var at := AlignUp(off, NativeAlign(m));
    AlignUpIsAligned(off, NativeAlign(m));
    PlainIsEncoded(m, at, cap);
    PlainIsEncoded(m, 0, cap);
    NestedStart(m, off, cap);
    SizeAtAlignedStart(m, at, cap);
    NestedTail(m, at);
  }

  lemma NestedStart(m: Type, off: nat, cap: Alignment)
    requires NestsPlainly(m) && NativeAlign(m) <= cap
    ensures var at, f := AlignUp(off, NativeAlign(m)), Xcdr(cap, false, false);
      && CdrOffsets(Leaves(m, Whole), off, f) == CdrOffsets(Leaves(m, Whole), at, f)
      && EndPos(Leaves(m, Whole), off, f) == EndPos(Leaves(m, Whole), at, f)
  {
    LeafIsAligned(Leaves(m, Whole)[0], off, NativeAlign(m), cap);
    StartAtFirstLeaf(Leaves(m, Whole), off, AlignUp(off, NativeAlign(m)), Xcdr(cap, false, false));
  }

  lemma NestedTail(m: Type, at: nat)
    requires Residue(LeafEnd(m, 0), NativeAlign(m)) == 0 && Residue(at, NativeAlign(m)) == 0
    requires LeafEnd(m, at) == at + LeafEnd(m, 0)
    ensures NativeEnd(m, at) == LeafEnd(m, at)
  {
    WholeNumberOfAlignments(at, LeafEnd(m, 0), NativeAlign(m));
  }

  lemma WholeNumberOfAlignments(at: nat, size: nat, a: Alignment)
    requires Residue(at, a) == 0 && Residue(size, a) == 0
    ensures AlignUp(at + size, a) == at + size
  {
    ResidueOfSum(at, size, a);
    AlignUpIsAligned(at + size, a);
  }

  // ----- copying memory

  /** Leaves of at least one byte that lie within the first `n` bytes. */
  ghost predicate Within(ls: seq<Leaf>, offs: seq<nat>, n: nat) {
    && |offs| == |ls|
    && (ls != [] ==> ls[0].Width() > 0 && offs[0] + ls[0].Width() <= n && Within(ls[1..], offs[1..], n))
  }

  /** The words a memory image holds for leaves at the given offsets. */
  ghost function Extract(image: seq<byte>, ls: seq<Leaf>, offs: seq<nat>): (ws: seq<seq<byte>>)
    requires Within(ls, offs, |image|)
    ensures |ws| == |ls|
    decreases |ls|
  {
    if ls == [] then [] else
      [image[offs[0]..offs[0] + ls[0].Width()]] + Extract(image, ls[1..], offs[1..])
  }

  lemma {:induction false} ExtractAt(image: seq<byte>, ls: seq<Leaf>, offs: seq<nat>, k: nat)
    requires Within(ls, offs, |image|) && k < |ls|
    ensures ls[k].Width() > 0 && offs[k] + ls[k].Width() <= |image|
    ensures Extract(image, ls, offs)[k] == image[offs[k]..offs[k] + ls[k].Width()]
    decreases k
  {
    if k > 0 { ExtractAt(image, ls[1..], offs[1..], k - 1); }
  }

  lemma {:induction false} GetAt(buf: seq<byte>, ls: seq<Leaf>, pos: nat, f: Format, k: nat)
    requires k < |ls| && EndPos(ls, pos, f) <= |buf|
    ensures CdrOffsets(ls, pos, f)[k] + ls[k].Width() <= |buf|
    ensures |Get(buf, ls, pos, f)| == |ls|
    ensures Get(buf, ls, pos, f)[k]
      == Wired(buf[CdrOffsets(ls, pos, f)[k]..CdrOffsets(ls, pos, f)[k] + ls[k].Width()], ls[k], f)
    decreases k
  {
    if k > 0 { GetAt(buf, ls[1..], LeafAt(ls[0], pos, f) + ls[0].Width(), f, k - 1); }
  }

  /** Decoding any image finds what the image holds if its leaves stand where the encoding puts them. */
  lemma {:induction false} MemcpyDecodes(image: seq<byte>, ls: seq<Leaf>, pos: nat, f: Format)
    requires !f.swap && EndPos(ls, pos, f) <= |image| && Within(ls, CdrOffsets(ls, pos, f), |image|)
    ensures Get(image, ls, pos, f) == Extract(image, ls, CdrOffsets(ls, pos, f))
    decreases |ls|
  {
    if ls != [] {
      var next := LeafAt(ls[0], pos, f) + ls[0].Width();
      assert CdrOffsets(ls, pos, f)[1..] == CdrOffsets(ls[1..], next, f);
      MemcpyDecodes(image, ls[1..], next, f);
    }
  }

  /** A leaf that stands elsewhere is decoded wrongly from the image that holds one at its first byte and zeros. */
  lemma MisplacedLeafIsMisread(ls: seq<Leaf>, offs: seq<nat>, f: Format, n: nat, k: nat) returns (image: seq<byte>)
    requires Within(ls, offs, n) && !f.swap && EndPos(ls, 0, f) <= n
    requires k < |ls| && offs[k] != CdrOffsets(ls, 0, f)[k]
    ensures |image| == n && Get(image, ls, 0, f) != Extract(image, ls, offs)
  {
    image := seq(n, j => if j == offs[k] then 1 else 0);
    ExtractAt(image, ls, offs, k);
    GetAt(image, ls, 0, f, k);
    var at := CdrOffsets(ls, 0, f)[k];
    assert Extract(image, ls, offs)[k][0] == image[offs[k]] == 1;
    assert Get(image, ls, 0, f)[k][0] == image[at] == 0;
  }

  /**
   Copying the memory of a value to the wire is correct for every value exactly when every leaf has
   the same offset in memory and on the wire. Comparing only where the last leaf ends is not enough.
   */
  lemma MemcpyIsExact(ls: seq<Leaf>, offs: seq<nat>, f: Format, n: nat)
    requires Within(ls, offs, n) && !f.swap && EndPos(ls, 0, f) <= n
    ensures (forall image: seq<byte> | |image| == n :: Get(image, ls, 0, f) == Extract(image, ls, offs))
      <==> offs == CdrOffsets(ls, 0, f)
  {
    if offs == CdrOffsets(ls, 0, f) {
      forall image: seq<byte> | |image| == n ensures Get(image, ls, 0, f) == Extract(image, ls, offs) {
        MemcpyDecodes(image, ls, 0, f);
      }
    } else {
      var k :| 0 <= k < |ls| && offs[k] != CdrOffsets(ls, 0, f)[k];
      var image := MisplacedLeafIsMisread(ls, offs, f, n, k);
    }
  }

  /** The test of `is_plain`: where the last leaf ends in memory. */
  ghost predicate EndTest(t: Type, bound: nat) {
    LeafEnd(t, 0) == bound
  }

  const INNER: Type := Struct([CharArray(4), Primitive(4)])
  const OUTER: Type := Struct([Primitive(1), INNER])

  lemma InnerLayout()
    ensures Leaves(INNER, Whole) == [Chars(4), Scalar(4)]
    ensures NativeAlign(INNER) == 4 && LeafEnd(INNER, 4) == 12 && NativeOffsets(INNER, 4) == [4, 8]
  {
    var members := [CharArray(4), Primitive(4)];
    assert LeavesFrom(members, 2, Whole) == [] && LeavesFrom(members, 1, Whole) == [Scalar(4)];
    assert MembersAlign(members, 2) == 1 && MembersAlign(members, 1) == 4;
    assert MembersEnd(members, 1, 8) == 12;
    assert MemberOffsets(members, 1, 8) == [8];
  }

  lemma OuterLayout()
    ensures Leaves(OUTER, Whole) == [Scalar(1), Chars(4), Scalar(4)]
    ensures LeafEnd(OUTER, 0) == 12 && NativeOffsets(OUTER, 0) == [0, 4, 8]
  {
    var members := [Primitive(1), INNER];
    InnerLayout();
    assert LeavesFrom(members, 2, Whole) == [];
    assert LeavesFrom(members, 1, Whole) == [Chars(4), Scalar(4)];
    assert Leaves(members[0], Whole) == [Scalar(1)];
    assert AlignUp(1, 4) == 4;
    assert MembersEnd(members, 1, 1) == 12;
    assert MembersEnd(members, 0, 0) == 12;
    assert MemberOffsets(members, 1, 1) == [4, 8] + MemberOffsets(members, 2, NativeEnd(INNER, 4));
    assert NativeOffsets(members[0], 0) == [0] && NativeEnd(members[0], 0) == 1;
    assert MemberOffsets(members, 0, 0) == [0] + MemberOffsets(members, 1, 1);
  }

  lemma OuterEncoding()
    ensures var f, ls := Xcdr(8, false, false), [Scalar(1), Chars(4), Scalar(4)];
      EndPos(ls, 0, f) == 12 && CdrOffsets(ls, 0, f)[1] == 1
  {
    hide LeafAt, Xcdr;
    var f, ls := Xcdr(8, false, false), [Scalar(1), Chars(4), Scalar(4)];
    OuterPlaces();
    assert ls[1..] == [Chars(4), Scalar(4)] && ls[1..][1..] == [Scalar(4)] && [Scalar(4)][1..] == [];
    EndStep(ls, 0, f);
    EndStep(ls[1..], 1, f);
    EndStep([Scalar(4)], 5, f);
    EndOfNone(12, f);
    assert CdrOffsets(ls[1..], 1, f)[0] == 1;
  }

  lemma OuterPlaces()
    ensures var f := Xcdr(8, false, false);
      LeafAt(Scalar(1), 0, f) == 0 && LeafAt(Chars(4), 1, f) == 1 && LeafAt(Scalar(4), 5, f) == 8
  {}

  /** A struct whose last leaf ends where the encoding ends, although an earlier leaf is elsewhere. */
  lemma EndTestIsNotEnough()
    ensures EndTest(OUTER, EndPos(Leaves(OUTER, Whole), 0, Xcdr(8, false, false)))
    ensures NativeOffsets(OUTER, 0) != CdrOffsets(Leaves(OUTER, Whole), 0, Xcdr(8, false, false))
  {
    OuterLayout();
    OuterEncoding();
  }
}
