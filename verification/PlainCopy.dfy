/**
 Copying the memory of a struct instead of encoding it: for types that are laid out as they are
 encoded, the copy is an encoding, and it decodes to the value in memory.
 */
module PlainCopy {
  import opened Bytes
  import opened Schema
  import opened Wire
  import opened Layout
  import opened InseTypes
  import opened Codec
  import opened Sequences

  // ----- where the leaves of a type lie in memory

  /** No leaf is empty, as the interface definition language requires of arrays. */
  ghost predicate Solid(t: Type)
    decreases t
  {
    match t
    case Primitive(_) => true
    case CharArray(length) => length > 0
    case Struct(members) => forall m | m in members :: Solid(m)
  }

  lemma {:induction false} WithinAppend(a: seq<Leaf>, as': seq<nat>, b: seq<Leaf>, bs: seq<nat>, n: nat)
    requires Within(a, as', n) && Within(b, bs, n)
    ensures Within(a + b, as' + bs, n)
    decreases |a|
  {
    if a == [] {
      assert a + b == b && as' + bs == bs;
    } else {
      HeadAndTail(a, b);
      HeadAndTail(as', bs);
      WithinAppend(a[1..], as'[1..], b, bs, n);
    }
  }

  /** The leaves of a type in memory lie in front of its end. */
  lemma {:induction false} NativeWithin(t: Type, at: nat, n: nat)
    requires Solid(t) && LeafEnd(t, at) <= n
    ensures Within(Leaves(t, Whole), NativeOffsets(t, at), n)
    decreases t, 0
  {
    if t.Struct? {
      NativeMembersWithin(t.members, 0, at, n);
    } else {
      assert Leaves(t, Whole)[1..] == [] && NativeOffsets(t, at)[1..] == [];
    }
  }

  lemma {:induction false} NativeMembersWithin(members: seq<Type>, i: nat, off: nat, n: nat)
    requires (forall m | m in members :: Solid(m)) && i <= |members| && MembersEnd(members, i, off) <= n
    ensures Within(LeavesFrom(members, i, Whole), MemberOffsets(members, i, off), n)
    decreases members, |members| - i
  {
    if i < |members| {
      var m, at := members[i], AlignUp(off, NativeAlign(members[i]));
      var next := NativeEnd(m, at);
      assert m in members;
      EndsInOrder(members, i, off);
      NativeWithin(m, at, n);
      if i + 1 < |members| {
        NativeMembersWithin(members, i + 1, next, n);
      } else {
        assert LeavesFrom(members, i + 1, Whole) == [] && MemberOffsets(members, i + 1, next) == [];
      }
      WithinAppend(Leaves(m, Whole), NativeOffsets(m, at), LeavesFrom(members, i + 1, Whole),
        MemberOffsets(members, i + 1, next), n);
    }
  }

  lemma EndsInOrder(members: seq<Type>, i: nat, off: nat)
    requires i < |members|
    ensures var at := AlignUp(off, NativeAlign(members[i]));
      LeafEnd(members[i], at) <= MembersEnd(members, i, off)
      && (i + 1 < |members| ==> MembersEnd(members, i, off) == MembersEnd(members, i + 1, NativeEnd(members[i], at)))
  {}

  /** The leaves of an encoding lie in front of its end. */
  lemma {:induction false} CdrWithin(ls: seq<Leaf>, pos: nat, f: Format, n: nat)
    requires EndPos(ls, pos, f) <= n && forall l | l in ls :: l.Width() > 0
    ensures Within(ls, CdrOffsets(ls, pos, f), n)
    decreases |ls|
  {
    if ls != [] {
      var next := LeafAt(ls[0], pos, f) + ls[0].Width();
      assert ls[0] in ls;
      forall l | l in ls[1..] ensures l in ls {}
      CdrWithin(ls[1..], next, f, n);
      assert CdrOffsets(ls, pos, f)[1..] == CdrOffsets(ls[1..], next, f);
    }
  }

  // ----- decoding a copy

  /** What the memory of a struct at the start of an image holds. */
  ghost function InMemory(image: seq<byte>, t: Type): seq<seq<byte>>
    requires Solid(t) && LeafEnd(t, 0) <= |image|
  {
    NativeWithin(t, 0, |image|);
    Extract(image, Leaves(t, Whole), NativeOffsets(t, 0))
  }

  /**
   For every type, decoding the memory of a struct as an encoding finds what is in memory, whatever is,
   if and only if every leaf has the same offset in memory and on the wire.
   */
  lemma DecodingMemoryIsRight(t: Type, f: Format, n: nat)
    requires Solid(t) && !f.swap && LeafEnd(t, 0) <= n && EndPos(Leaves(t, Whole), 0, f) <= n
    ensures (forall image: seq<byte> | |image| == n :: Get(image, Leaves(t, Whole), 0, f) == InMemory(image, t))
      <==> NativeOffsets(t, 0) == CdrOffsets(Leaves(t, Whole), 0, f)
  {
    NativeWithin(t, 0, n);
    MemcpyIsExact(Leaves(t, Whole), NativeOffsets(t, 0), f, n);
    var ls, offs := Leaves(t, Whole), NativeOffsets(t, 0);
    if forall image: seq<byte> | |image| == n :: Get(image, ls, 0, f) == InMemory(image, t) {
      forall image: seq<byte> | |image| == n ensures Get(image, ls, 0, f) == Extract(image, ls, offs) {
        assert Get(image, ls, 0, f) == InMemory(image, t);
      }
    }
  }

  // ----- a copy is an encoding

  lemma PutLeafBack(image: seq<byte>, l: Leaf, pos: nat, f: Format)
    requires !f.zeroPadding && LeafAt(l, pos, f) + l.Width() <= |image|
    ensures PutLeaf(image, l, Wired(image[LeafAt(l, pos, f)..LeafAt(l, pos, f) + l.Width()], l, f), pos, f) == image
  {
    WiredTwice(image[LeafAt(l, pos, f)..LeafAt(l, pos, f) + l.Width()], l, f);
  }

  lemma PutStep(buf: seq<byte>, ls: seq<Leaf>, ws: seq<seq<byte>>, pos: nat, f: Format)
    requires ls != [] && Fit(ws, ls) && EndPos(ls, pos, f) <= |buf|
    ensures Fit(ws[1..], ls[1..]) && |ws[0]| == ls[0].Width()
    ensures EndPos(ls[1..], LeafAt(ls[0], pos, f) + ls[0].Width(), f) <= |buf|
    ensures Put(buf, ls, ws, pos, f)
      == Put(PutLeaf(buf, ls[0], ws[0], pos, f), ls[1..], ws[1..], LeafAt(ls[0], pos, f) + ls[0].Width(), f)
  {}

  lemma PutNothing(buf: seq<byte>, ws: seq<seq<byte>>, pos: nat, f: Format)
    requires Fit(ws, []) && pos <= |buf|
    ensures EndPos([], pos, f) <= |buf| && Put(buf, [], ws, pos, f) == buf
  {}

  /** Putting back the words found at the places of the leaves changes nothing, if padding is left alone. */
  lemma {:induction false} PutOfGet(image: seq<byte>, ls: seq<Leaf>, pos: nat, f: Format)
    requires !f.zeroPadding && EndPos(ls, pos, f) <= |image|
    ensures Put(image, ls, Get(image, ls, pos, f), pos, f) == image
    decreases |ls|
  {
    hide *;
    if ls == [] {
      EndOfNone(pos, f);
      PutNothing(image, Get(image, ls, pos, f), pos, f);
    } else {
      GetStep(image, ls, pos, f);
      PutLeafBack(image, ls[0], pos, f);
      PutStep(image, ls, Get(image, ls, pos, f), pos, f);
      PutOfGet(image, ls[1..], LeafAt(ls[0], pos, f) + ls[0].Width(), f);
    }
  }

  /** The memory of a value in front of the bytes of a buffer. */
  ghost function Copied(image: seq<byte>, buf: seq<byte>, n: nat): (r: seq<byte>)
    requires n <= |image| && n <= |buf|
    ensures |r| == |buf|
  {
    image[..n] + buf[n..]
  }

  lemma {:induction false} ExtractIsPrefix(image: seq<byte>, copy: seq<byte>, ls: seq<Leaf>, offs: seq<nat>, n: nat)
    requires Within(ls, offs, n) && n <= |image| && n <= |copy| && copy[..n] == image[..n]
    ensures Within(ls, offs, |image|) && Within(ls, offs, |copy|)
    ensures Extract(copy, ls, offs) == Extract(image, ls, offs)
    decreases |ls|
  {
    if ls != [] {
      ExtractIsPrefix(image, copy, ls[1..], offs[1..], n);
      var a, b := offs[0], offs[0] + ls[0].Width();
      assert copy[a..b] == copy[..n][a..b] == image[..n][a..b] == image[a..b];
    }
  }

  /**
   For every type whose leaves have the same offsets in memory and on the wire, and every value in
   memory: copying the memory up to the end of the last leaf gives an encoding of the value, since
   encoding the value over the copy changes no byte; and reading the copy gives the value.
   */
  lemma {:induction false} CopyIsEncoding(t: Type, v: Value, v0: Value, image: seq<byte>, buf: seq<byte>, f: Format)
    requires Solid(t) && HasType(v, t) && HasType(v0, t) && !f.swap && !f.zeroPadding
    requires NativeOffsets(t, 0) == CdrOffsets(Leaves(t, Whole), 0, f)
      && LeafEnd(t, 0) == EndPos(Leaves(t, Whole), 0, f)
    requires LeafEnd(t, 0) <= |image| && InMemory(image, t) == Words(v, t, Whole) && LeafEnd(t, 0) <= |buf|
    ensures var copy := Copied(image, buf, LeafEnd(t, 0));
      && PutValue(copy, v, t, Whole, 0, f) == copy
      && ReadValue(v0, t, Whole, copy, 0, f) == v
  {
    var n, ls := LeafEnd(t, 0), Leaves(t, Whole);
    var copy := Copied(image, buf, n);
    assert Get(copy, ls, 0, f) == Words(v, t, Whole) by {
      NativeWithin(t, 0, n);
      assert copy[..n] == image[..n];
      ExtractIsPrefix(image, copy, ls, NativeOffsets(t, 0), n);
      MemcpyDecodes(copy, ls, 0, f);
    }
    PutOfGet(copy, ls, 0, f);
    ReadFindsWords(v0, v, t, Whole, copy, 0, f);
    OverlayWhole(v0, v, t);
  }

  /** A copy and any encoding into the same buffer hold the same words, so they differ in padding at most. */
  lemma CopyReadsAsEncoding(t: Type, v: Value, image: seq<byte>, buf: seq<byte>, f: Format)
    requires Solid(t) && HasType(v, t) && !f.swap && !f.zeroPadding
    requires NativeOffsets(t, 0) == CdrOffsets(Leaves(t, Whole), 0, f)
      && LeafEnd(t, 0) == EndPos(Leaves(t, Whole), 0, f)
    requires LeafEnd(t, 0) <= |image| && InMemory(image, t) == Words(v, t, Whole) && LeafEnd(t, 0) <= |buf|
    ensures Get(Copied(image, buf, LeafEnd(t, 0)), Leaves(t, Whole), 0, f)
      == Get(PutValue(buf, v, t, Whole, 0, f), Leaves(t, Whole), 0, f)
  {
    var copy := Copied(image, buf, LeafEnd(t, 0));
    CopyIsEncoding(t, v, v, image, buf, f);
    WordsFit(v, t, Whole);
    GetAfterPut(copy, Leaves(t, Whole), Words(v, t, Whole), 0, f);
    GetAfterPut(buf, Leaves(t, Whole), Words(v, t, Whole), 0, f);
  }

  /** So it is for every type whose nested structs start with a word of their alignment and end without padding. */
  lemma PlainTypesCopy(t: Type, v: Value, v0: Value, image: seq<byte>, buf: seq<byte>, cap: Alignment)
    requires Plain(t) && Solid(t) && NativeAlign(t) <= cap && HasType(v, t) && HasType(v0, t)
    requires LeafEnd(t, 0) <= |image| && InMemory(image, t) == Words(v, t, Whole) && LeafEnd(t, 0) <= |buf|
    ensures var f, copy := Xcdr(cap, false, false), Copied(image, buf, LeafEnd(t, 0));
      && EndPos(Leaves(t, Whole), 0, f) == LeafEnd(t, 0)
      && PutValue(copy, v, t, Whole, 0, f) == copy
      && ReadValue(v0, t, Whole, copy, 0, f) == v
  {
    PlainIsEncoded(t, 0, cap);
    CopyIsEncoding(t, v, v0, image, buf, Xcdr(cap, false, false));
  }

  /** A struct that passes the test on its end although decoding its memory goes wrong. */
  lemma EndTestMisleads()
    ensures EndTest(OUTER, 12) && Solid(OUTER) && EndPos(Leaves(OUTER, Whole), 0, Xcdr(8, false, false)) == 12
    ensures !forall image: seq<byte> | |image| == 12 ::
      Get(image, Leaves(OUTER, Whole), 0, Xcdr(8, false, false)) == InMemory(image, OUTER)
  {
    OuterLayout();
    OuterEncoding();
    EndTestIsNotEnough();
    assert Solid(INNER);
    DecodingMemoryIsRight(OUTER, Xcdr(8, false, false), 12);
  }

  // ----- the types of the interface definition

  lemma SolidTypes()
    ensures Solid(AIR_ENTITY) && Solid(MOVEMENT_AIR_ENTITY) && Solid(ATTITUDE) && Solid(POSITION) && Solid(TARGET)
      && Solid(ENTITY_ID)
  {
    hide Solid;
    MovementIsSolid();
    EntityIdIsSolid();
    SmallTypesAreSolid();
    AirEntityIsSolid();
  }

  lemma MovementIsSolid()
    ensures Solid(MOVEMENT_AIR_ENTITY)
  {
    FlatIsSolid(MOVEMENT_AIR_ENTITY);
  }

  lemma EntityIdIsSolid()
    ensures Solid(ENTITY_ID)
  {
    FlatIsSolid(ENTITY_ID);
  }

  lemma SmallTypesAreSolid()
    ensures Solid(ATTITUDE) && Solid(POSITION) && Solid(TARGET)
  {
    FlatIsSolid(ATTITUDE);
    FlatIsSolid(POSITION);
    FlatIsSolid(TARGET);
  }

  lemma AirEntityIsSolid()
    requires Solid(MOVEMENT_AIR_ENTITY) && Solid(ATTITUDE)
    ensures Solid(AIR_ENTITY)
  {
    assert Solid(LONG) && Solid(CHAR);
    assert forall m | m in AIR_ENTITY.members :: m == LONG || m == CHAR || m == ATTITUDE || m == MOVEMENT_AIR_ENTITY;
  }

  lemma FlatIsSolid(t: Type)
    requires t.Struct? && forall m | m in t.members :: m.Primitive? || (m.CharArray? && m.length > 0)
    ensures Solid(t)
  {}

  /** What copying the first bytes of a type's memory does. */
  ghost predicate CopiesAs(t: Type, size: nat, v: Value, v0: Value, image: seq<byte>, buf: seq<byte>, cap: Alignment)
    requires Solid(t) && HasType(v, t) && HasType(v0, t) && LeafEnd(t, 0) == size <= |image| && size <= |buf|
    requires EndPos(Leaves(t, Whole), 0, Xcdr(cap, false, false)) == size
  {
    var f, copy := Xcdr(cap, false, false), Copied(image, buf, size);
    && Get(image, Leaves(t, Whole), 0, f) == InMemory(image, t)
    && (InMemory(image, t) == Words(v, t, Whole) ==>
          PutValue(copy, v, t, Whole, 0, f) == copy && ReadValue(v0, t, Whole, copy, 0, f) == v)
  }

  lemma LaidOutCopies(t: Type, size: nat, v: Value, v0: Value, image: seq<byte>, buf: seq<byte>, cap: Alignment)
    requires Solid(t) && HasType(v, t) && HasType(v0, t) && size <= |image| && size <= |buf|
    requires LaidOutAsEncoded(t, cap, size) && EndPos(Leaves(t, Whole), 0, Xcdr(cap, false, false)) == size
    ensures LeafEnd(t, 0) == size && CopiesAs(t, size, v, v0, image, buf, cap)
  {
    hide Solid, Leaves, LeafEnd, NativeOffsets, CdrOffsets, EndPos, Xcdr, Words, ReadValue, PutValue, HasType, Within,
      Extract;
    UnswappedRule(cap);
    NativeWithin(t, 0, |image|);
    MemcpyDecodes(image, Leaves(t, Whole), 0, Xcdr(cap, false, false));
    if InMemory(image, t) == Words(v, t, Whole) {
      CopyIsEncoding(t, v, v0, image, buf, Xcdr(cap, false, false));
    }
  }

  /** `AirEntity`, in XCDR1 and XCDR2: copying 133 bytes of memory is encoding. */
  lemma {:induction false} AirEntityCopy(v: Value, v0: Value, image: seq<byte>, buf: seq<byte>, cap: Alignment)
    requires cap >= 4 && HasType(v, AIR_ENTITY) && HasType(v0, AIR_ENTITY) && |image| >= 133 && |buf| >= 133
    ensures Solid(AIR_ENTITY) && LeafEnd(AIR_ENTITY, 0) == 133
    ensures EndPos(Leaves(AIR_ENTITY, Whole), 0, Xcdr(cap, false, false)) == 133
    ensures CopiesAs(AIR_ENTITY, 133, v, v0, image, buf, cap)
  {
    hide *;
    SolidTypes();
    AirEntityIsPlain(cap);
    AirEntityAtZero(cap);
    LaidOutCopies(AIR_ENTITY, 133, v, v0, image, buf, cap);
  }

  lemma AirEntityAtZero(cap: Alignment)
    requires cap >= 4
    ensures EndPos(Leaves(AIR_ENTITY, Whole), 0, Xcdr(cap, false, false)) == 133
  {
    AirEntityEnd(0, cap, false, false);
  }

  /** The other types of the interface definition, with their own sizes. */
  lemma {:induction false} OtherTypesCopy(t: Type, size: nat, v: Value, v0: Value, image: seq<byte>, buf: seq<byte>,
      cap: Alignment)
    requires cap >= 4 && HasType(v, t) && HasType(v0, t) && size <= |image| && size <= |buf|
    requires (t, size) in [(ENTITY_ID, 80), (TARGET, 4), (POSITION, 28), (ATTITUDE, 12), (MOVEMENT_AIR_ENTITY, 104)]
    ensures Solid(t) && LeafEnd(t, 0) == size && EndPos(Leaves(t, Whole), 0, Xcdr(cap, false, false)) == size
    ensures CopiesAs(t, size, v, v0, image, buf, cap)
  {
    hide *;
    SolidTypes();
    OtherTypesArePlain(cap);
    SmallTypesEnd(cap, false, false);
    LaidOutCopies(t, size, v, v0, image, buf, cap);
  }

  lemma UnswappedRule(cap: Alignment)
    ensures !Xcdr(cap, false, false).swap && !Xcdr(cap, false, false).zeroPadding
  {}
}
