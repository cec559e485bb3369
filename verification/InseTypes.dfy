/** The six struct types of the `inse` interface definition, and the sizes the vendors claim for them. */
module InseTypes {
  import opened Bytes
  import opened Schema
  import opened Wire
  import opened Layout
  import opened Sequences

  const CHAR: Type := Primitive(1)
  const BOOLEAN: Type := Primitive(1)
  const LONG: Type := Primitive(4)
  const UNSIGNED_LONG: Type := Primitive(4)
  const FLOAT: Type := Primitive(4)
  const DOUBLE: Type := Primitive(8)

  const ENTITY_ID: Type := Struct([
    LONG, LONG, CharArray(20), CharArray(20), LONG, LONG, LONG, CHAR, UNSIGNED_LONG, CHAR, CHAR, CHAR, CHAR, DOUBLE])

  const TARGET: Type := Struct([LONG])

  const POSITION: Type := Struct([DOUBLE, DOUBLE, FLOAT, FLOAT, FLOAT])

  const ATTITUDE: Type := Struct([FLOAT, FLOAT, FLOAT])

  const MOVEMENT_AIR_ENTITY: Type := Struct([
    FLOAT, FLOAT, FLOAT, FLOAT, FLOAT, CHAR, CHAR, CharArray(32),
    FLOAT, FLOAT, FLOAT, FLOAT, FLOAT, FLOAT, FLOAT, FLOAT, BOOLEAN, FLOAT, FLOAT, FLOAT])

  const AIR_ENTITY: Type := Struct([LONG, ATTITUDE, MOVEMENT_AIR_ENTITY, CHAR, LONG, LONG, CHAR])

  /** The only key of the topic is the first member, `id`. */
  const AIR_ENTITY_KEY: Keys := Part(map[0 := Whole])

  // ----- leaves of structs without nested structs

  ghost function LeafOf(t: Type): Leaf
    requires !t.Struct?
  {
    if t.Primitive? then Scalar(t.size) else Chars(t.length)
  }

  ghost predicate IsFlat(members: seq<Type>) {
    forall m | m in members :: !m.Struct?
  }

  ghost function FlatLeaves(members: seq<Type>): (ls: seq<Leaf>)
    requires IsFlat(members)
    ensures |ls| == |members| && forall k | 0 <= k < |members| :: ls[k] == LeafOf(members[k])
  {
    seq(|members|, k requires 0 <= k < |members| => assert members[k] in members; LeafOf(members[k]))
  }

  lemma {:induction false} LeavesOfFlat(members: seq<Type>, i: nat)
    requires IsFlat(members) && i <= |members|
    ensures LeavesFrom(members, i, Whole) == FlatLeaves(members)[i..]
    decreases |members| - i
  {
    if i < |members| {
      LeavesOfFlat(members, i + 1);
      assert members[i] in members;
    }
  }

  lemma {:induction false} AlignOfMembers(members: seq<Type>, i: nat, a: Alignment)
    requires i <= |members| && forall m | m in members :: NativeAlign(m) <= a
    ensures MembersAlign(members, i) <= a
    ensures forall k | i <= k < |members| :: NativeAlign(members[k]) <= MembersAlign(members, i)
    decreases |members| - i
  {
    if i < |members| {
      assert members[i] in members;
      AlignOfMembers(members, i + 1, a);
    }
  }

  // ----- sizes of runs of leaves

  ghost function Words4(n: nat): (ls: seq<Leaf>)
    ensures |ls| == n && forall k | 0 <= k < n :: ls[k] == Scalar(4)
  {
    if n == 0 then [] else [Scalar(4)] + Words4(n - 1)
  }

  /** Where the cursor stands after the leaves, by arithmetic alone. */
  ghost function End(ls: seq<Leaf>, pos: nat, cap: Alignment): nat {
    if ls == [] then pos else End(ls[1..], AlignUp(pos, Effective(ls[0].WordSize(), cap)) + ls[0].Width(), cap)
  }

  lemma {:induction false} EndIsEndPos(ls: seq<Leaf>, pos: nat, cap: Alignment, swap: bool, zeroPadding: bool)
    ensures EndPos(ls, pos, Xcdr(cap, swap, zeroPadding)) == End(ls, pos, cap)
    decreases |ls|
  {
    if ls != [] {
      EndIsEndPos(ls[1..], AlignUp(pos, Effective(ls[0].WordSize(), cap)) + ls[0].Width(), cap, swap, zeroPadding);
    }
  }

  lemma {:induction false} EndAppend(a: seq<Leaf>, b: seq<Leaf>, pos: nat, cap: Alignment)
    ensures End(a + b, pos, cap) == End(b, End(a, pos, cap), cap)
    decreases |a|
  {
    if a == [] {
      assert a + b == b;
    } else {
      HeadAndTail(a, b);
      EndAppend(a[1..], b, AlignUp(pos, Effective(a[0].WordSize(), cap)) + a[0].Width(), cap);
    }
  }

  lemma OneEnd(l: Leaf, rest: seq<Leaf>, pos: nat, cap: Alignment)
    ensures End([l] + rest, pos, cap) == End(rest, AlignUp(pos, Effective(l.WordSize(), cap)) + l.Width(), cap)
  {
    HeadAndTail([l], rest);
    assert [l][1..] + rest == rest;
  }

  /** Words of four bytes follow each other without padding once the first is aligned. */
  lemma {:induction false} RunEnd(n: nat, rest: seq<Leaf>, pos: nat, cap: Alignment)
    requires cap >= 4 && n > 0
    ensures End(Words4(n) + rest, pos, cap) == End(rest, AlignUp(pos, 4) + 4 * n, cap)
  {
    hide End, AlignUp, Residue;
    var at := AlignUp(pos, 4);
    Associative([Scalar(4)], Words4(n - 1), rest);
    WordEnd(Words4(n - 1) + rest, pos, cap);
    if n == 1 {
      assert Words4(0) + rest == rest;
    } else {
      RunEnd(n - 1, rest, at + 4, cap);
      AlignedAfterWord(pos);
    }
  }

  lemma WordEnd(rest: seq<Leaf>, pos: nat, cap: Alignment)
    requires cap >= 4
    ensures End([Scalar(4)] + rest, pos, cap) == End(rest, AlignUp(pos, 4) + 4, cap)
  {
    OneEnd(Scalar(4), rest, pos, cap);
  }

  lemma AlignedAfterWord(pos: nat)
    ensures AlignUp(AlignUp(pos, 4) + 4, 4) == AlignUp(pos, 4) + 4
  {
    AlignUpIsAligned(pos, 4);
    ResidueOfSum(AlignUp(pos, 4), 4, 4);
    AlignUpIsAligned(AlignUp(pos, 4) + 4, 4);
  }

  ghost const MOVEMENT_TAIL: seq<Leaf> := Words4(8) + ([Scalar(1)] + Words4(3))
  ghost const MOVEMENT_LEAVES: seq<Leaf> := Words4(5) + ([Scalar(1)] + ([Scalar(1)] + ([Chars(32)] + MOVEMENT_TAIL)))

  lemma MovementFront()
    ensures FlatLeaves(MOVEMENT_AIR_ENTITY.members)[..8] == Words4(5) + [Scalar(1), Scalar(1), Chars(32)]
  {}

  lemma MovementBack()
    ensures FlatLeaves(MOVEMENT_AIR_ENTITY.members)[8..] == MOVEMENT_TAIL
  {}

  lemma MovementHasLeaves()
    ensures Leaves(MOVEMENT_AIR_ENTITY, Whole) == MOVEMENT_LEAVES
  {
    MovementFront();
    MovementBack();
    FlatSplit(MOVEMENT_AIR_ENTITY, 8);
  }

  /** The leaves of a struct without nested structs, cut in two. */
  lemma FlatSplit(t: Type, k: nat)
    requires t.Struct? && IsFlat(t.members) && k <= |t.members|
    ensures Leaves(t, Whole) == FlatLeaves(t.members) == FlatLeaves(t.members)[..k] + FlatLeaves(t.members)[k..]
  {
    LeavesOfFlat(t.members, 0);
  }

  lemma {:induction false} ResiduePlusMultiple(pos: nat, n: nat, k: nat)
    requires Residue(pos, 4) == 0
    ensures Residue(pos + 4 * n + k, 4) == Residue(k, 4)
  {
    if n > 0 {
      ResiduePlusMultiple(pos, n - 1, k);
      assert pos + 4 * n + k == pos + 4 * (n - 1) + k + 4;
    } else {
      ResidueOfSum(pos, k, 4);
    }
  }

  lemma NextWord(pos: nat, n: nat, k: nat)
    requires Residue(pos, 4) == 0 && 0 <= k < 4
    ensures AlignUp(pos + 4 * n + k, 4) == pos + 4 * n + if k == 0 then 0 else 4
  {
    ResiduePlusMultiple(pos, n, k);
  }

  lemma MovementTailEnd(pos: nat, cap: Alignment)
    requires cap >= 4 && Residue(pos, 4) == 0
    ensures End(MOVEMENT_TAIL, pos + 54, cap) == pos + 104
  {
    NextWord(pos, 13, 2);
    RunEnd(8, [Scalar(1)] + Words4(3), pos + 54, cap);
    OneEnd(Scalar(1), Words4(3), pos + 88, cap);
    NextWord(pos, 22, 1);
    RunEnd(3, [], pos + 89, cap);
    assert Words4(3) + [] == Words4(3);
  }

  /** `MovementAirEntity` takes 104 bytes from any multiple of four. */
  lemma MovementEnd(rest: seq<Leaf>, pos: nat, cap: Alignment)
    requires cap >= 4 && Residue(pos, 4) == 0
    ensures End(MOVEMENT_LEAVES + rest, pos, cap) == End(rest, pos + 104, cap)
  {
    EndAppend(MOVEMENT_LEAVES, rest, pos, cap);
    NextWord(pos, 0, 0);
    RunEnd(5, [Scalar(1)] + ([Scalar(1)] + ([Chars(32)] + MOVEMENT_TAIL)), pos, cap);
    OneEnd(Scalar(1), [Scalar(1)] + ([Chars(32)] + MOVEMENT_TAIL), pos + 20, cap);
    OneEnd(Scalar(1), [Chars(32)] + MOVEMENT_TAIL, pos + 21, cap);
    OneEnd(Chars(32), MOVEMENT_TAIL, pos + 22, cap);
    MovementTailEnd(pos, cap);
  }

  lemma AttitudeHasLeaves()
    ensures Leaves(ATTITUDE, Whole) == Words4(3)
  {
    LeavesOfFlat(ATTITUDE.members, 0);
  }

  ghost const AIR_ENTITY_TAIL: seq<Leaf> := [Scalar(1)] + (Words4(2) + [Scalar(1)])
  ghost const AIR_ENTITY_LEAVES: seq<Leaf> := Words4(4) + (MOVEMENT_LEAVES + AIR_ENTITY_TAIL)

  lemma AirEntityHasLeaves()
    ensures Leaves(AIR_ENTITY, Whole) == AIR_ENTITY_LEAVES
  {
    var members := AIR_ENTITY.members;
    AttitudeHasLeaves();
    MovementHasLeaves();
    assert LeavesFrom(members, 7, Whole) == [];
    assert LeavesFrom(members, 6, Whole) == [Scalar(1)];
    assert LeavesFrom(members, 5, Whole) == [Scalar(4)] + LeavesFrom(members, 6, Whole);
    assert LeavesFrom(members, 4, Whole) == [Scalar(4)] + LeavesFrom(members, 5, Whole) == Words4(2) + [Scalar(1)];
    assert LeavesFrom(members, 3, Whole) == AIR_ENTITY_TAIL;
    assert LeavesFrom(members, 2, Whole) == MOVEMENT_LEAVES + AIR_ENTITY_TAIL;
    assert LeavesFrom(members, 1, Whole) == Words4(3) + (MOVEMENT_LEAVES + AIR_ENTITY_TAIL);
    assert [Scalar(4)] + Words4(3) == Words4(4);
    Associative([Scalar(4)], Words4(3), MOVEMENT_LEAVES + AIR_ENTITY_TAIL);
  }

  /** The aligned encodings of `AirEntity` take 133 bytes from the first multiple of four. */
  lemma AirEntityEnd(pos: nat, cap: Alignment, swap: bool, zeroPadding: bool)
    requires cap >= 4
    ensures EndPos(Leaves(AIR_ENTITY, Whole), pos, Xcdr(cap, swap, zeroPadding)) == AlignUp(pos, 4) + 133
  {
    hide End, EndPos, Leaves, AlignUp, Residue, Words4, Xcdr;
    var at := AlignUp(pos, 4);
    AirEntityHasLeaves();
    EndIsEndPos(AIR_ENTITY_LEAVES, pos, cap, swap, zeroPadding);
    AlignUpIsAligned(pos, 4);
    RunEnd(4, MOVEMENT_LEAVES + AIR_ENTITY_TAIL, pos, cap);
    FourWordsOn(at);
    MovementEnd(AIR_ENTITY_TAIL, at + 16, cap);
    AirEntityTailEnd(at, cap);
  }

  lemma FourWordsOn(at: nat)
    requires Residue(at, 4) == 0
    ensures Residue(at + 16, 4) == 0
  {
    ResiduePlusMultiple(at, 4, 0);
  }

  lemma AirEntityTailEnd(at: nat, cap: Alignment)
    requires cap >= 4 && Residue(at, 4) == 0
    ensures End(AIR_ENTITY_TAIL, at + 120, cap) == at + 133
  {
    CharEnd(Words4(2) + [Scalar(1)], at + 120, cap);
    NextWord(at, 30, 1);
    RunEnd(2, [Scalar(1)], at + 121, cap);
    assert [Scalar(1)] + [] == [Scalar(1)];
    CharEnd([], at + 132, cap);
  }

  lemma CharEnd(rest: seq<Leaf>, pos: nat, cap: Alignment)
    ensures End([Scalar(1)] + rest, pos, cap) == End(rest, pos + 1, cap)
  {
    OneEnd(Scalar(1), rest, pos, cap);
  }

  ghost const ENTITY_ID_TAIL: seq<Leaf> := [Scalar(1)] + ([Scalar(1)] + ([Scalar(1)] + ([Scalar(1)] + [Scalar(8)])))
  ghost const ENTITY_ID_LEAVES: seq<Leaf> :=
    Words4(2) + ([Chars(20)] + ([Chars(20)] + (Words4(3) + ([Scalar(1)] + (Words4(1) + ENTITY_ID_TAIL)))))

  lemma EntityIdFront()
    ensures FlatLeaves(ENTITY_ID.members)[..4] == Words4(2) + ([Chars(20)] + [Chars(20)])
  {}

  lemma EntityIdMiddle()
    ensures FlatLeaves(ENTITY_ID.members)[4..9] == Words4(3) + ([Scalar(1)] + Words4(1))
  {}

  lemma EntityIdBack()
    ensures FlatLeaves(ENTITY_ID.members)[9..] == ENTITY_ID_TAIL
  {}

  lemma EntityIdHasLeaves()
    ensures Leaves(ENTITY_ID, Whole) == ENTITY_ID_LEAVES
  {
    hide FlatLeaves, Words4;
    var ls := FlatLeaves(ENTITY_ID.members);
    LeavesOfFlat(ENTITY_ID.members, 0);
    EntityIdFront();
    EntityIdMiddle();
    EntityIdBack();
    assert ls[0..] == ls == ls[..4] + (ls[4..9] + ls[9..]);
  }

  lemma EntityIdTailEnd(cap: Alignment)
    requires cap >= 4
    ensures End(ENTITY_ID_TAIL, 68, cap) == 80
  {
    OneEnd(Scalar(1), [Scalar(1)] + ([Scalar(1)] + ([Scalar(1)] + [Scalar(8)])), 68, cap);
    OneEnd(Scalar(1), [Scalar(1)] + ([Scalar(1)] + [Scalar(8)]), 69, cap);
    OneEnd(Scalar(1), [Scalar(1)] + [Scalar(8)], 70, cap);
    OneEnd(Scalar(1), [Scalar(8)], 71, cap);
    assert [Scalar(8)] + [] == [Scalar(8)];
    OneEnd(Scalar(8), [], 72, cap);
    AlignedAt72(cap);
  }

  lemma AlignedAt72(cap: Alignment)
    requires cap >= 4
    ensures AlignUp(72, cap) == 72
  {
    ResidueIsModulo(72, cap);
  }

  lemma EntityIdEnd(cap: Alignment)
    requires cap >= 4
    ensures End(ENTITY_ID_LEAVES, 0, cap) == 80
  {
    RunEnd(2, [Chars(20)] + ([Chars(20)] + (Words4(3) + ([Scalar(1)] + (Words4(1) + ENTITY_ID_TAIL)))), 0, cap);
    OneEnd(Chars(20), [Chars(20)] + (Words4(3) + ([Scalar(1)] + (Words4(1) + ENTITY_ID_TAIL))), 8, cap);
    OneEnd(Chars(20), Words4(3) + ([Scalar(1)] + (Words4(1) + ENTITY_ID_TAIL)), 28, cap);
    NextWord(0, 12, 0);
    RunEnd(3, [Scalar(1)] + (Words4(1) + ENTITY_ID_TAIL), 48, cap);
    OneEnd(Scalar(1), Words4(1) + ENTITY_ID_TAIL, 60, cap);
    NextWord(0, 15, 1);
    RunEnd(1, ENTITY_ID_TAIL, 61, cap);
    EntityIdTailEnd(cap);
  }

  lemma TargetHasLeaves()
    ensures Leaves(TARGET, Whole) == Words4(1)
  {
    LeavesOfFlat(TARGET.members, 0);
  }

  lemma PositionHasLeaves()
    ensures Leaves(POSITION, Whole) == [Scalar(8), Scalar(8)] + Words4(3)
  {
    LeavesOfFlat(POSITION.members, 0);
  }

  // ----- what the vendors claim

  lemma WordsOnlyEnd(n: nat, cap: Alignment, swap: bool, zeroPadding: bool)
    requires cap >= 4 && n > 0
    ensures EndPos(Words4(n), 0, Xcdr(cap, swap, zeroPadding)) == 4 * n
  {
    EndIsEndPos(Words4(n), 0, cap, swap, zeroPadding);
    RunEnd(n, [], 0, cap);
    assert Words4(n) + [] == Words4(n);
  }

  lemma MovementStructEnd(cap: Alignment, swap: bool, zeroPadding: bool)
    requires cap >= 4
    ensures EndPos(Leaves(MOVEMENT_AIR_ENTITY, Whole), 0, Xcdr(cap, swap, zeroPadding)) == 104
  {
    MovementHasLeaves();
    EndIsEndPos(MOVEMENT_LEAVES, 0, cap, swap, zeroPadding);
    MovementEnd([], 0, cap);
    assert MOVEMENT_LEAVES + [] == MOVEMENT_LEAVES;
  }

  /** The maximum sizes Fast DDS states are the exact sizes from offset zero, in XCDR1 and in XCDR2. */
  lemma SmallTypesEnd(cap: Alignment, swap: bool, zeroPadding: bool)
    requires cap >= 4
    ensures var f := Xcdr(cap, swap, zeroPadding);
      && EndPos(Leaves(TARGET, Whole), 0, f) == 4
      && EndPos(Leaves(ATTITUDE, Whole), 0, f) == 12
      && EndPos(Leaves(POSITION, Whole), 0, f) == 28
      && EndPos(Leaves(MOVEMENT_AIR_ENTITY, Whole), 0, f) == 104
      && EndPos(Leaves(ENTITY_ID, Whole), 0, f) == 80
  {
    TargetHasLeaves();
    WordsOnlyEnd(1, cap, swap, zeroPadding);
    AttitudeHasLeaves();
    WordsOnlyEnd(3, cap, swap, zeroPadding);
    PositionHasLeaves();
    EndIsEndPos([Scalar(8), Scalar(8)] + Words4(3), 0, cap, swap, zeroPadding);
    PositionEnd(cap);
    MovementStructEnd(cap, swap, zeroPadding);
    EntityIdHasLeaves();
    EndIsEndPos(ENTITY_ID_LEAVES, 0, cap, swap, zeroPadding);
    EntityIdEnd(cap);
  }

  lemma PositionEnd(cap: Alignment)
    requires cap >= 4
    ensures End([Scalar(8), Scalar(8)] + Words4(3), 0, cap) == 28
  {
    assert [Scalar(8), Scalar(8)] + Words4(3) == [Scalar(8)] + ([Scalar(8)] + Words4(3));
    OneEnd(Scalar(8), [Scalar(8)] + Words4(3), 0, cap);
    OneEnd(Scalar(8), Words4(3), 8, cap);
    RunEnd(3, [], 16, cap);
    assert Words4(3) + [] == Words4(3);
  }

  ghost function TotalWidth(ls: seq<Leaf>): nat {
    if ls == [] then 0 else ls[0].Width() + TotalWidth(ls[1..])
  }

  lemma {:induction false} UnalignedEnd(ls: seq<Leaf>, pos: nat)
    ensures End(ls, pos, 1) == pos + TotalWidth(ls)
    decreases |ls|
  {
    if ls != [] { UnalignedEnd(ls[1..], pos + ls[0].Width()); }
  }

  lemma {:induction false} WidthAppend(a: seq<Leaf>, b: seq<Leaf>)
    ensures TotalWidth(a + b) == TotalWidth(a) + TotalWidth(b)
    decreases |a|
  {
    if a == [] {
      assert a + b == b;
    } else {
      HeadAndTail(a, b);
      WidthAppend(a[1..], b);
    }
  }

  lemma {:induction false} RunWidth(n: nat)
    ensures TotalWidth(Words4(n)) == 4 * n
  {
    if n > 0 {
      assert Words4(n)[1..] == Words4(n - 1);
      RunWidth(n - 1);
    }
  }

  lemma OneWidth(l: Leaf, rest: seq<Leaf>)
    ensures TotalWidth([l] + rest) == l.Width() + TotalWidth(rest)
  {
    WidthAppend([l], rest);
    assert [l][1..] == [];
  }

  lemma MovementWidth()
    ensures TotalWidth(MOVEMENT_LEAVES) == 99
  {
    WidthAppend(Words4(5), [Scalar(1)] + ([Scalar(1)] + ([Chars(32)] + MOVEMENT_TAIL)));
    OneWidth(Scalar(1), [Scalar(1)] + ([Chars(32)] + MOVEMENT_TAIL));
    OneWidth(Scalar(1), [Chars(32)] + MOVEMENT_TAIL);
    OneWidth(Chars(32), MOVEMENT_TAIL);
    WidthAppend(Words4(8), [Scalar(1)] + Words4(3));
    OneWidth(Scalar(1), Words4(3));
    RunWidth(5);
    RunWidth(8);
    RunWidth(3);
  }

  /** The unaligned encoding of `AirEntity` takes 125 bytes from anywhere. */
  lemma AirEntityUnaligned(pos: nat, swap: bool, zeroPadding: bool)
    ensures EndPos(Leaves(AIR_ENTITY, Whole), pos, Xcdr(1, swap, zeroPadding)) == pos + 125
  {
    AirEntityHasLeaves();
    EndIsEndPos(AIR_ENTITY_LEAVES, pos, 1, swap, zeroPadding);
    UnalignedEnd(AIR_ENTITY_LEAVES, pos);
    WidthAppend(Words4(4), MOVEMENT_LEAVES + AIR_ENTITY_TAIL);
    WidthAppend(MOVEMENT_LEAVES, AIR_ENTITY_TAIL);
    MovementWidth();
    OneWidth(Scalar(1), Words4(2) + [Scalar(1)]);
    WidthAppend(Words4(2), [Scalar(1)]);
    assert [Scalar(1)] + [] == [Scalar(1)];
    OneWidth(Scalar(1), []);
    RunWidth(4);
    RunWidth(2);
  }

  datatype Encoding = Xcdr1 | Xcdr2 | UnalignedCdr

  function CapOf(kind: Encoding): Alignment {
    match kind
    case Xcdr1 => 8
    case Xcdr2 => 4
    case UnalignedCdr => 1
  }

  function SerializedSizeBound(kind: Encoding): nat {
    match kind
    case Xcdr1 => 133
    case Xcdr2 => 137
    case UnalignedCdr => 125
  }

  /**
   The bounds OpenDDS states: each covers every encoding from offset zero, that of XCDR2 covers every
   start offset with one byte to spare, that of XCDR1 exactly the offsets that are multiples of four.
   */
  lemma OpenDdsBounds(kind: Encoding, pos: nat, swap: bool, zeroPadding: bool)
    ensures var size := EndPos(Leaves(AIR_ENTITY, Whole), pos, Xcdr(CapOf(kind), swap, zeroPadding)) - pos;
      size <= SerializedSizeBound(kind) <==> (kind == Xcdr1 ==> Residue(pos, 4) == 0)
  {
    if kind == UnalignedCdr {
      AirEntityUnaligned(pos, swap, zeroPadding);
    } else {
      AirEntityEnd(pos, CapOf(kind), swap, zeroPadding);
    }
  }

  // ----- plain layout

  ghost predicate LaidOutAsEncoded(t: Type, cap: Alignment, bound: nat) {
    NativeOffsets(t, 0) == CdrOffsets(Leaves(t, Whole), 0, Xcdr(cap, false, false)) && EndTest(t, bound)
  }

  lemma FlatIsPlain(t: Type)
    requires t.Struct? && IsFlat(t.members)
    ensures Plain(t)
  {}

  lemma AlignOfFloats(t: Type)
    requires t.Struct? && |t.members| > 0 && t.members[0] == Primitive(4)
    requires forall m | m in t.members :: NativeAlign(m) <= 4
    ensures NativeAlign(t) == 4
  {
    AlignOfMembers(t.members, 0, 4);
  }

  /** A struct of words up to four bytes that starts with one and has no padding at its end. */
  lemma FloatStructNests(t: Type, size: nat)
    requires t.Struct? && IsFlat(t.members) && |t.members| > 0 && t.members[0] == Primitive(4)
    requires forall m | m in t.members :: NativeAlign(m) <= 4
    requires EndPos(Leaves(t, Whole), 0, Xcdr(4, false, false)) == size && Residue(size, 4) == 0
    ensures NestsPlainly(t) && NativeAlign(t) == 4
  {
    AlignOfFloats(t);
    PlainIsEncoded(t, 0, 4);
    LeavesOfFlat(t.members, 0);
  }

  lemma NestedTypesNestPlainly()
    ensures NestsPlainly(ATTITUDE) && NestsPlainly(MOVEMENT_AIR_ENTITY)
    ensures NativeAlign(ATTITUDE) == 4 && NativeAlign(MOVEMENT_AIR_ENTITY) == 4
  {
    SmallTypesEnd(4, false, false);
    ResiduePlusMultiple(0, 3, 0);
    ResiduePlusMultiple(0, 26, 0);
    FloatStructNests(ATTITUDE, 12);
    FloatStructNests(MOVEMENT_AIR_ENTITY, 104);
  }

  /** `AirEntity` is laid out in memory as it is encoded, and the test of `is_plain` passes with 133. */
  lemma AirEntityIsPlain(cap: Alignment)
    requires cap >= 4
    ensures LaidOutAsEncoded(AIR_ENTITY, cap, 133)
  {
    NestedTypesNestPlainly();
    FlatIsPlain(ATTITUDE);
    FlatIsPlain(MOVEMENT_AIR_ENTITY);
    assert Plain(AIR_ENTITY);
    AlignOfFloats(AIR_ENTITY);
    PlainIsEncoded(AIR_ENTITY, 0, cap);
    AirEntityEnd(0, cap, false, false);
  }

  /** If only the last leaf is wider than four bytes and both encodings end alike, they are alike. */
  lemma LastLeafDecides(a: seq<Leaf>, l: Leaf)
    requires WordsUpTo(a, 4)
    requires EndPos(a + [l], 0, Xcdr(4, false, false)) == EndPos(a + [l], 0, Xcdr(8, false, false))
    ensures CdrOffsets(a + [l], 0, Xcdr(4, false, false)) == CdrOffsets(a + [l], 0, Xcdr(8, false, false))
  {
    var f, g := Xcdr(4, false, false), Xcdr(8, false, false);
    WordsUpToLarger(a, 4, 8);
    CapAboveWordsIsIrrelevant(a, 4, 8, false, false);
    AlikeRulesPlaceAlike(a, 0, f, g);
    AlikeRulesEndAlike(a, 0, f, g);
    CdrOffsetsAppend(a, [l], 0, f);
    CdrOffsetsAppend(a, [l], 0, g);
    EndPosAppend(a, [l], 0, f);
    EndPosAppend(a, [l], 0, g);
    LastLeafPlaced(l, EndPos(a, 0, f), f, g);
  }

  lemma LastLeafPlaced(l: Leaf, pos: nat, f: Format, g: Format)
    requires EndPos([l], pos, f) == EndPos([l], pos, g)
    ensures CdrOffsets([l], pos, f) == CdrOffsets([l], pos, g)
  {
    assert [l][1..] == [];
  }

  lemma {:induction false} WordsUpToAt(ls: seq<Leaf>, cap: nat)
    requires forall k | 0 <= k < |ls| :: ls[k].WordSize() <= cap
    ensures WordsUpTo(ls, cap)
    decreases |ls|
  {
    if ls != [] {
      assert ls[0].WordSize() <= cap;
      forall k | 0 <= k < |ls[1..]| ensures ls[1..][k].WordSize() <= cap {
        assert ls[1..][k] == ls[k + 1];
      }
      WordsUpToAt(ls[1..], cap);
    }
  }

  lemma EntityIdPlacedAlike()
    ensures CdrOffsets(Leaves(ENTITY_ID, Whole), 0, Xcdr(4, false, false))
      == CdrOffsets(Leaves(ENTITY_ID, Whole), 0, Xcdr(8, false, false))
  {
    hide *;
    SmallTypesEnd(4, false, false);
    SmallTypesEnd(8, false, false);
    EntityIdEndsWide();
    LastLeafDecides(Leaves(ENTITY_ID, Whole)[..13], Scalar(8));
  }

  lemma EntityIdEndsWide()
    ensures |Leaves(ENTITY_ID, Whole)| == 14 && Leaves(ENTITY_ID, Whole) == Leaves(ENTITY_ID, Whole)[..13] + [Scalar(8)]
    ensures WordsUpTo(Leaves(ENTITY_ID, Whole)[..13], 4)
  {
    LeavesOfFlat(ENTITY_ID.members, 0);
    WordsUpToAt(Leaves(ENTITY_ID, Whole)[..13], 4);
  }

  lemma DoubleStaysPut(pos: nat, cap: Alignment)
    requires (pos == 0 || pos == 8) && cap >= 4
    ensures LeafAt(Scalar(8), pos, Xcdr(cap, false, false)) == pos
  {
    ResidueIsModulo(pos, Effective(8, cap));
  }

  lemma OffsetsOfTwo(a: Leaf, b: Leaf, rest: seq<Leaf>, pos: nat, f: Format)
    ensures var next := LeafAt(a, pos, f) + a.Width();
      CdrOffsets([a] + ([b] + rest), pos, f)
        == [LeafAt(a, pos, f), LeafAt(b, next, f)] + CdrOffsets(rest, LeafAt(b, next, f) + b.Width(), f)
  {
    hide *;
    CdrOffsetsAppend([a], [b] + rest, pos, f);
    CdrOffsetsAppend([b], rest, LeafAt(a, pos, f) + a.Width(), f);
    OneOffset(a, pos, f);
    OneOffset(b, LeafAt(a, pos, f) + a.Width(), f);
  }

  lemma OneOffset(l: Leaf, pos: nat, f: Format)
    ensures CdrOffsets([l], pos, f) == [LeafAt(l, pos, f)] && EndPos([l], pos, f) == LeafAt(l, pos, f) + l.Width()
  {
    assert [l][1..] == [];
  }

  lemma PositionPlacedAlike()
    ensures CdrOffsets(Leaves(POSITION, Whole), 0, Xcdr(4, false, false))
      == CdrOffsets(Leaves(POSITION, Whole), 0, Xcdr(8, false, false))
  {
    hide *;
    var f, g, d := Xcdr(4, false, false), Xcdr(8, false, false), Scalar(8);
    PositionHasLeaves();
    assert [d, d] + Words4(3) == [d] + ([d] + Words4(3));
    OffsetsOfTwo(d, d, Words4(3), 0, f);
    OffsetsOfTwo(d, d, Words4(3), 0, g);
    DoubleStaysPut(0, 4);
    DoubleStaysPut(0, 8);
    DoubleIsWide();
    DoubleStaysPut(8, 4);
    DoubleStaysPut(8, 8);
    FloatsUpTo(3);
    WordsUpToLarger(Words4(3), 4, 8);
    CapAboveWordsIsIrrelevant(Words4(3), 4, 8, false, false);
    AlikeRulesPlaceAlike(Words4(3), 16, f, g);
  }

  lemma DoubleIsWide()
    ensures Scalar(8).Width() == 8
  {}

  lemma FloatsUpTo(n: nat)
    ensures WordsUpTo(Words4(n), 4)
  {
    WordsUpToAt(Words4(n), 4);
  }

  lemma WordsPlacedAlike(t: Type)
    requires WordsUpTo(Leaves(t, Whole), 4)
    ensures CdrOffsets(Leaves(t, Whole), 0, Xcdr(4, false, false))
      == CdrOffsets(Leaves(t, Whole), 0, Xcdr(8, false, false))
  {
    WordsUpToLarger(Leaves(t, Whole), 4, 8);
    CapAboveWordsIsIrrelevant(Leaves(t, Whole), 4, 8, false, false);
    AlikeRulesPlaceAlike(Leaves(t, Whole), 0, Xcdr(4, false, false), Xcdr(8, false, false));
  }

  /**
  A plain type is laid out as XCDR1 encodes it, and as XCDR2 does if that places its leaves alike.
   */
  lemma {:induction false} PlainIsLaidOut(t: Type, cap: Alignment, bound: nat)
    requires Plain(t) && cap >= 4
    requires CdrOffsets(Leaves(t, Whole), 0, Xcdr(4, false, false))
      == CdrOffsets(Leaves(t, Whole), 0, Xcdr(8, false, false))
    requires EndPos(Leaves(t, Whole), 0, Xcdr(8, false, false)) == bound
    ensures LaidOutAsEncoded(t, cap, bound)
  {
    PlainIsEncoded(t, 0, 8);
  }

  /** The other types, with the bounds their own `is_plain` compares with. */
  lemma OtherTypesArePlain(cap: Alignment)
    requires cap >= 4
    ensures LaidOutAsEncoded(ENTITY_ID, cap, 80) && LaidOutAsEncoded(TARGET, cap, 4)
      && LaidOutAsEncoded(POSITION, cap, 28)
    ensures LaidOutAsEncoded(ATTITUDE, cap, 12) && LaidOutAsEncoded(MOVEMENT_AIR_ENTITY, cap, 104)
  {
    SmallTypesEnd(8, false, false);
    assert LaidOutAsEncoded(ENTITY_ID, cap, 80) by {
      EntityIdPlacedAlike();
      FlatIsPlain(ENTITY_ID);
      PlainIsLaidOut(ENTITY_ID, cap, 80);
    }
    assert LaidOutAsEncoded(POSITION, cap, 28) by {
      PositionPlacedAlike();
      FlatIsPlain(POSITION);
      PlainIsLaidOut(POSITION, cap, 28);
    }
    assert LaidOutAsEncoded(TARGET, cap, 4) && LaidOutAsEncoded(ATTITUDE, cap, 12) by {
      WordsOnlyArePlain(TARGET, 1, cap);
      WordsOnlyArePlain(ATTITUDE, 3, cap);
    }
    assert LaidOutAsEncoded(MOVEMENT_AIR_ENTITY, cap, 104) by {
      MovementPlacedAlike();
      FlatIsPlain(MOVEMENT_AIR_ENTITY);
      PlainIsLaidOut(MOVEMENT_AIR_ENTITY, cap, 104);
    }
  }

  lemma WordsOnlyArePlain(t: Type, n: nat, cap: Alignment)
    requires t.Struct? && |t.members| == n > 0 && cap >= 4 && forall m | m in t.members :: m == Primitive(4)
    ensures LaidOutAsEncoded(t, cap, 4 * n)
  {
    LeavesOfFlat(t.members, 0);
    var ls := FlatLeaves(t.members);
    forall k | 0 <= k < n ensures ls[k] == Words4(n)[k] {
      assert t.members[k] in t.members;
    }
    assert ls[0..] == ls == Words4(n);
    WordsUpToAt(Words4(n), 4);
    WordsPlacedAlike(t);
    WordsOnlyEnd(n, 8, false, false);
    FlatIsPlain(t);
    PlainIsLaidOut(t, cap, 4 * n);
  }

  lemma OneUpTo(l: Leaf, rest: seq<Leaf>)
    requires l.WordSize() <= 4 && WordsUpTo(rest, 4)
    ensures WordsUpTo([l] + rest, 4)
  {
    assert ([l] + rest)[1..] == rest;
  }

  lemma MovementWordsUpTo()
    ensures WordsUpTo(MOVEMENT_LEAVES, 4)
  {
    hide WordsUpTo, Words4;
    FloatsUpTo(3);
    FloatsUpTo(5);
    FloatsUpTo(8);
    OneUpTo(Scalar(1), Words4(3));
    WordsUpToAppend(Words4(8), [Scalar(1)] + Words4(3), 4);
    OneUpTo(Chars(32), MOVEMENT_TAIL);
    OneUpTo(Scalar(1), [Chars(32)] + MOVEMENT_TAIL);
    OneUpTo(Scalar(1), [Scalar(1)] + ([Chars(32)] + MOVEMENT_TAIL));
    WordsUpToAppend(Words4(5), [Scalar(1)] + ([Scalar(1)] + ([Chars(32)] + MOVEMENT_TAIL)), 4);
  }

  lemma MovementPlacedAlike()
    ensures CdrOffsets(Leaves(MOVEMENT_AIR_ENTITY, Whole), 0, Xcdr(4, false, false))
         == CdrOffsets(Leaves(MOVEMENT_AIR_ENTITY, Whole), 0, Xcdr(8, false, false))
  {
    hide *;
    MovementHasLeaves();
    MovementWordsUpTo();
    WordsPlacedAlike(MOVEMENT_AIR_ENTITY);
  }

  lemma AirEntityWordsUpTo()
    ensures WordsUpTo(Leaves(AIR_ENTITY, Whole), 4)
  {
    hide WordsUpTo, Words4, Leaves;
    AirEntityHasLeaves();
    MovementWordsUpTo();
    FloatsUpTo(2);
    FloatsUpTo(4);
    OneUpTo(Scalar(1), []);
    assert [Scalar(1)] + [] == [Scalar(1)];
    WordsUpToAppend(Words4(2), [Scalar(1)], 4);
    OneUpTo(Scalar(1), Words4(2) + [Scalar(1)]);
    WordsUpToAppend(MOVEMENT_LEAVES, AIR_ENTITY_TAIL, 4);
    WordsUpToAppend(Words4(4), MOVEMENT_LEAVES + AIR_ENTITY_TAIL, 4);
  }

  /** No word of `AirEntity` is wider than four bytes, so XCDR1 and XCDR2 give the same bytes. */
  lemma {:induction false} RepresentationsAgree(buf: seq<byte>, v: Value, pos: nat, swap: bool, zeroPadding: bool)
    requires HasType(v, AIR_ENTITY) && EndPos(Leaves(AIR_ENTITY, Whole), pos, Xcdr(4, swap, zeroPadding)) <= |buf|
    ensures Fit(Words(v, AIR_ENTITY, Whole), Leaves(AIR_ENTITY, Whole))
    ensures EndPos(Leaves(AIR_ENTITY, Whole), pos, Xcdr(8, swap, zeroPadding)) <= |buf|
    ensures Put(buf, Leaves(AIR_ENTITY, Whole), Words(v, AIR_ENTITY, Whole), pos, Xcdr(8, swap, zeroPadding))
         == Put(buf, Leaves(AIR_ENTITY, Whole), Words(v, AIR_ENTITY, Whole), pos, Xcdr(4, swap, zeroPadding))
  {
    var ls, ws := Leaves(AIR_ENTITY, Whole), Words(v, AIR_ENTITY, Whole);
    WordsFit(v, AIR_ENTITY, Whole);
    SameForSmallWords(buf, ls, ws, pos, swap, zeroPadding) by { AirEntityWordsUpTo(); }
  }

  lemma SameForSmallWords(buf: seq<byte>, ls: seq<Leaf>, ws: seq<seq<byte>>, pos: nat, swap: bool, zeroPadding: bool)
    requires Fit(ws, ls) && WordsUpTo(ls, 4)
    ensures EndPos(ls, pos, Xcdr(8, swap, zeroPadding)) == EndPos(ls, pos, Xcdr(4, swap, zeroPadding))
    ensures EndPos(ls, pos, Xcdr(4, swap, zeroPadding)) <= |buf| ==>
      Put(buf, ls, ws, pos, Xcdr(8, swap, zeroPadding)) == Put(buf, ls, ws, pos, Xcdr(4, swap, zeroPadding))
  {
    hide EndPos, Put, Fit, WordsUpTo, PadAlike, LeafAt, CdrGap;
    WordsUpToLarger(ls, 4, 8);
    CapAboveWordsIsIrrelevant(ls, 4, 8, swap, zeroPadding);
    AlikeRulesPutAlike(buf, ls, ws, pos, Xcdr(4, swap, zeroPadding), Xcdr(8, swap, zeroPadding));
  }
}
