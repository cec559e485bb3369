/**
 The byte map of `AirEntity`: at which offset every member stands in an aligned encoding, what writing puts there, and
 what reading finds.
 */
module AirEntityBytes {
  import opened Bytes
  import opened Codec
  import opened FieldPlaces
  import opened InseTypes
  import opened Schema
  import opened Wire

  const ENTITY_PLACES: seq<nat> := [0, 4, 16, 120, 124, 128, 132]
  const ATTITUDE_PLACES: seq<nat> := [4, 8, 12]
  const MOVEMENT_PLACES: seq<nat> :=
    [16, 20, 24, 28, 32, 36, 37, 38, 72, 76, 80, 84, 88, 92, 96, 100, 104, 108, 112, 116]

  /** How many bytes a member takes behind its padding. */
  function Size(t: Type): nat {
    match t
    case Primitive(size) => size
    case CharArray(length) => length
    case Struct(members) => if |members| == 3 then 12 else 104
  }

  /** Where the cursor stands before a member. */
  function Before(places: seq<nat>, members: seq<Type>, j: nat): nat
    requires j <= |places| == |members| && |places| > 0
  {
    if j == 0 then places[0] else places[j - 1] + Size(members[j - 1])
  }

  lemma AlignedFour(p: nat)
    ensures AlignUp(p, 4) == p + (4 - p % 4) % 4
    ensures AlignUp(p, 1) == p
  {
    PaddingFormula(p, 4);
    PaddingFormula(p, 1);
  }

  lemma WordPlace(t: Type, pos: nat, cap: Alignment, swap: bool, z: bool)
    requires cap >= 4 && IsWord(t)
    ensures var f, l := Xcdr(cap, swap, z), WordLeaf(t);
      && LeafAt(l, pos, f) == (if t == Primitive(4) then pos + (4 - pos % 4) % 4 else pos)
      && EndPos(Leaves(t, Whole), pos, f) == LeafAt(l, pos, f) + Size(t)
  {
    AlignedFour(pos);
    EndOfLeaf(t, Whole, pos, Xcdr(cap, swap, z));
  }

  predicate IsWord(t: Type) {
    t == Primitive(1) || t == Primitive(4) || t.CharArray?
  }

  /** Member `j` follows the one before it by size and padding. */
  predicate PlacedAt(places: seq<nat>, members: seq<Type>, j: nat)
    requires j < |places| == |members|
  {
    var p := Before(places, members, j);
    && IsWord(members[j])
    && places[j] == if members[j] == Primitive(4) then p + (4 - p % 4) % 4 else p
  }

  ghost predicate Placed(places: seq<nat>, members: seq<Type>) {
    |places| == |members| > 0 && forall j: nat | j < |members| :: PlacedAt(places, members, j)
  }

  lemma MovementIsPlaced()
    ensures Placed(MOVEMENT_PLACES, MOVEMENT_AIR_ENTITY.members)
    ensures Before(MOVEMENT_PLACES, MOVEMENT_AIR_ENTITY.members, 20) == 120
  {
    forall j: nat | j < 20 ensures PlacedAt(MOVEMENT_PLACES, MOVEMENT_AIR_ENTITY.members, j) {
      if j < 10 { FrontIsPlaced(j); } else { BackIsPlaced(j); }
    }
  }

  lemma FrontIsPlaced(j: nat)
    requires j < 10
    ensures PlacedAt(MOVEMENT_PLACES, MOVEMENT_AIR_ENTITY.members, j)
  {}

  lemma BackIsPlaced(j: nat)
    requires 10 <= j < 20
    ensures PlacedAt(MOVEMENT_PLACES, MOVEMENT_AIR_ENTITY.members, j)
  {}

  lemma AttitudeIsPlaced()
    ensures Placed(ATTITUDE_PLACES, ATTITUDE.members)
    ensures Before(ATTITUDE_PLACES, ATTITUDE.members, 3) == 16
  {}

  lemma {:induction false} FlatPlaces(members: seq<Type>, places: seq<nat>, j: nat, cap: Alignment, swap: bool, z: bool)
    requires cap >= 4 && Placed(places, members) && j <= |members|
    ensures PlaceOf(members, j, places[0], Xcdr(cap, swap, z)) == Before(places, members, j)
  {
    hide PlaceOf, EndPos, LeafAt, Xcdr, Before, PlacedAt, IsWord, Size;
    FirstBefore(places, members);
    if j == 0 {
      if |members| > 0 { NextPlace(members, 0, places[0], Xcdr(cap, swap, z)); }
    } else {
      assert PlacedAt(places, members, j - 1);
      FlatPlaces(members, places, j - 1, cap, swap, z);
      NextPlace(members, j - 1, places[0], Xcdr(cap, swap, z));
      WordAfter(places, members, j - 1, cap, swap, z);
    }
  }

  lemma FirstBefore(places: seq<nat>, members: seq<Type>)
    requires |places| == |members| > 0
    ensures Before(places, members, 0) == places[0]
  {}

  lemma WordAfter(places: seq<nat>, members: seq<Type>, j: nat, cap: Alignment, swap: bool, z: bool)
    requires cap >= 4 && j < |places| == |members| && PlacedAt(places, members, j)
    ensures var f := Xcdr(cap, swap, z);
      && !members[j].Struct?
      && LeafAt(WordLeaf(members[j]), Before(places, members, j), f) == places[j]
      && EndPos(Leaves(members[j], Whole), Before(places, members, j), f) == Before(places, members, j + 1)
  {
    WordPlace(members[j], Before(places, members, j), cap, swap, z);
  }

  lemma StructEnd(t: Type, pos: nat, f: Format)
    requires t.Struct?
    ensures EndPos(Leaves(t, Whole), pos, f) == PlaceOf(t.members, |t.members|, pos, f)
  {
    LeavesSplit(t.members, |t.members|);
    assert LeavesBefore(t.members, |t.members|) + [] == LeavesBefore(t.members, |t.members|);
  }

  lemma EntityMembers()
    ensures AIR_ENTITY.members == [LONG, ATTITUDE, MOVEMENT_AIR_ENTITY, CHAR, LONG, LONG, CHAR]
    ensures |ATTITUDE.members| == 3 && |MOVEMENT_AIR_ENTITY.members| == 20
    ensures ATTITUDE_PLACES[0] == 4 && MOVEMENT_PLACES[0] == 16
  {}

  /** Where the cursor stands before the members of `AirEntity`, and behind the last one. */
  const ENTITY_STARTS: seq<nat> := [0, 4, 16, 120, 121, 128, 132, 133]

  lemma EntityStarts(cap: Alignment, swap: bool, z: bool)
    requires cap >= 4
    ensures var m, f := AIR_ENTITY.members, Xcdr(cap, swap, z);
      && |m| == 7
      && PlaceOf(m, 0, 0, f) == 0 && PlaceOf(m, 1, 0, f) == 4 && PlaceOf(m, 2, 0, f) == 16 && PlaceOf(m, 3, 0, f) == 120
      && PlaceOf(m, 4, 0, f) == 121 && PlaceOf(m, 5, 0, f) == 128 && PlaceOf(m, 6, 0, f) == 132
      && PlaceOf(m, 7, 0, f) == 133
  {
    hide PlaceOf, EndPos, LeafAt, Leaves, Xcdr, Before;
    var m, f := AIR_ENTITY.members, Xcdr(cap, swap, z);
    EntityMembers();
    NextPlace(m, 0, 0, f);
    WordPlace(LONG, 0, cap, swap, z);
    NextPlace(m, 1, 0, f);
    AttitudeIsPlaced();
    FlatPlaces(ATTITUDE.members, ATTITUDE_PLACES, 3, cap, swap, z);
    StructEnd(ATTITUDE, 4, f);
    NextPlace(m, 2, 0, f);
    MovementIsPlaced();
    FlatPlaces(MOVEMENT_AIR_ENTITY.members, MOVEMENT_PLACES, 20, cap, swap, z);
    StructEnd(MOVEMENT_AIR_ENTITY, 16, f);
    NextPlace(m, 3, 0, f);
    WordPlace(CHAR, 120, cap, swap, z);
    NextPlace(m, 4, 0, f);
    WordPlace(LONG, 121, cap, swap, z);
    NextPlace(m, 5, 0, f);
    WordPlace(LONG, 128, cap, swap, z);
    NextPlace(m, 6, 0, f);
    WordPlace(CHAR, 132, cap, swap, z);
  }

  // ----- writing

  /** `f` encodes behind `o` bytes as an aligned representation does from the start of a buffer. */
  ghost predicate Aligned(f: Format, o: nat, cap: Alignment) {
    PadsBehind(o, f, Xcdr(cap, f.swap, f.zeroPadding))
  }

  lemma PlaceBehind(members: seq<Type>, j: nat, pos: nat, f: Format, o: nat, cap: Alignment)
    requires j <= |members| && Aligned(f, o, cap)
    ensures PlaceOf(members, j, o + pos, f) == o + PlaceOf(members, j, pos, Xcdr(cap, f.swap, f.zeroPadding))
  {
    EndBehind(o, LeavesBefore(members, j), pos, f, Xcdr(cap, f.swap, f.zeroPadding));
  }

  lemma LeafBehindHeader(l: Leaf, pos: nat, f: Format, o: nat, cap: Alignment)
    requires Aligned(f, o, cap)
    ensures LeafAt(l, o + pos, f) == o + LeafAt(l, pos, Xcdr(cap, f.swap, f.zeroPadding)) >= o + pos
  {}

  /** A word written somewhere behind the header: padding from `start` to `place`, then the bytes. */
  ghost predicate WordWritten(buf: seq<byte>, r: seq<byte>, w: seq<byte>, start: nat, place: nat, f: Format,
      isScalar: bool)
  {
    && start <= place && Bears(r, place, w, f.swap && isScalar) && |r| == |buf|
    && forall i :: start <= i < place ==> r[i] == if f.zeroPadding then 0 else buf[i]
  }

  lemma WordBehind(buf: seq<byte>, v: Value, t: Type, start: nat, place: nat, f: Format, o: nat, cap: Alignment)
    requires cap >= 4 && Aligned(f, o, cap) && !t.Struct? && HasType(v, t)
    requires LeafAt(WordLeaf(t), start, Xcdr(cap, f.swap, f.zeroPadding)) == place
    requires EndPos(Leaves(t, Whole), o + start, f) <= |buf|
    ensures WordWritten(buf, PutValue(buf, v, t, Whole, o + start, f), v.bytes, o + start, o + place, f, t.Primitive?)
    ensures o + place + |v.bytes| == EndPos(Leaves(t, Whole), o + start, f)
  {
    hide EndPos, Leaves, PutValue, HasType, LeafAt, Aligned, PadsBehind, Xcdr, Bears;
    LeafBehindHeader(WordLeaf(t), start, f, o, cap);
    PutWordAt(buf, v, t, o + start, f);
  }

  /** What is written over `before` is written over `buf`, if both agree from `start` on and the results up to `end`. */
  lemma WrittenOver(before: seq<byte>, inner: seq<byte>, buf: seq<byte>, r: seq<byte>, w: seq<byte>, start: nat,
      place: nat, f: Format, isScalar: bool, end: nat)
    requires WordWritten(before, inner, w, start, place, f, isScalar) && place + |w| <= end <= |r|
    requires |before| == |buf| == |inner| == |r| && forall i :: start <= i < |buf| ==> before[i] == buf[i]
    requires forall i :: 0 <= i < end ==> r[i] == inner[i]
    ensures WordWritten(buf, r, w, start, place, f, isScalar)
  {}

  /** A member of a struct without nested structs. */
  lemma FlatMember(buf: seq<byte>, v: Value, t: Type, places: seq<nat>, j: nat, f: Format, o: nat, cap: Alignment)
    requires cap >= 4 && Aligned(f, o, cap) && t.Struct? && HasType(v, t) && Placed(places, t.members)
      && j < |t.members|
    requires EndPos(Leaves(t, Whole), o + places[0], f) <= |buf|
    ensures FieldsHaveType(v.fields, t.members) && v.fields[j].Word?
    ensures WordWritten(buf, PutValue(buf, v, t, Whole, o + places[0], f), v.fields[j].bytes,
      o + Before(places, t.members, j), o + places[j], f, t.members[j].Primitive?)
    ensures places[0] <= Before(places, t.members, j)
    ensures o + places[j] + |v.fields[j].bytes| <= EndPos(Leaves(t, Whole), o + places[0], f)
  {
    hide EndPos, PlaceOf, LeafAt, Leaves, PutValue, Aligned, Xcdr, PadsBehind, Size, Before;
    assert PlacedAt(places, t.members, j);
    assert FieldsHaveType(v.fields, t.members);
    var z := f.zeroPadding;
    FlatPlaces(t.members, places, j, cap, f.swap, z);
    PlaceBehind(t.members, j, places[0], f, o, cap);
    WordAfter(places, t.members, j, cap, f.swap, z);
    NextPlace(t.members, j, o + places[0], f);
    var before := PutFieldAt(buf, v, t, j, o + places[0], f);
    WordBehind(before, v.fields[j], t.members[j], Before(places, t.members, j), places[j], f, o, cap);
    WrittenOver(before, PutValue(before, v.fields[j], t.members[j], Whole, o + Before(places, t.members, j), f),
      buf, PutValue(buf, v, t, Whole, o + places[0], f), v.fields[j].bytes, o + Before(places, t.members, j),
      o + places[j], f, t.members[j].Primitive?, PlaceOf(t.members, j + 1, o + places[0], f));
  }

  lemma EntityFields(v: Value)
    requires HasType(v, AIR_ENTITY)
    ensures v.Record? && |v.fields| == 7 && FieldsHaveType(v.fields, AIR_ENTITY.members)
    ensures HasType(v.fields[1], ATTITUDE) && HasType(v.fields[2], MOVEMENT_AIR_ENTITY)
    ensures v.fields[1].Record? && FieldsHaveType(v.fields[1].fields, ATTITUDE.members)
    ensures v.fields[2].Record? && FieldsHaveType(v.fields[2].fields, MOVEMENT_AIR_ENTITY.members)
    ensures forall j | j in {0, 3, 4, 5, 6} :: HasType(v.fields[j], AIR_ENTITY.members[j]) && v.fields[j].Word?
  {
    EntityMembers();
    var m := AIR_ENTITY.members;
    assert FieldsHaveType(v.fields, m);
    assert HasType(v.fields[0], m[0]) && HasType(v.fields[1], m[1]) && HasType(v.fields[2], m[2]);
    assert HasType(v.fields[3], m[3]) && HasType(v.fields[4], m[4]) && HasType(v.fields[5], m[5])
      && HasType(v.fields[6], m[6]);
  }

  lemma EntityEnd(f: Format, o: nat, cap: Alignment)
    requires cap >= 4 && Aligned(f, o, cap)
    ensures EndPos(Leaves(AIR_ENTITY, Whole), o, f) == o + 133
    ensures |AIR_ENTITY.members| == 7
    ensures forall j | 0 <= j <= 7 :: PlaceOf(AIR_ENTITY.members, j, o, f) == o + ENTITY_STARTS[j]
  {
    hide PlaceOf, EndPos, Xcdr, PadsBehind;
    EntityMembers();
    EntityStarts(cap, f.swap, f.zeroPadding);
    forall j | 0 <= j <= 7 ensures PlaceOf(AIR_ENTITY.members, j, o, f) == o + ENTITY_STARTS[j] {
      PlaceBehind(AIR_ENTITY.members, j, 0, f, o, cap);
    }
    StructEnd(AIR_ENTITY, o, f);
  }

  /** A member that is a word. */
  lemma EntityMember(buf: seq<byte>, v: Value, j: nat, f: Format, o: nat, cap: Alignment)
    requires cap >= 4 && Aligned(f, o, cap) && HasType(v, AIR_ENTITY) && j in {0, 3, 4, 5, 6}
    requires EndPos(Leaves(AIR_ENTITY, Whole), o, f) <= |buf|
    ensures v.Record? && |v.fields| == 7 && v.fields[j].Word?
    ensures WordWritten(buf, PutValue(buf, v, AIR_ENTITY, Whole, o, f), v.fields[j].bytes,
      o + ENTITY_STARTS[j], o + ENTITY_PLACES[j], f, true)
  {
    hide EndPos, PlaceOf, LeafAt, Leaves, PutValue, Aligned, Xcdr, PadsBehind, WordWritten;
    var m := AIR_ENTITY.members;
    EntityMembers();
    EntityFields(v);
    EntityEnd(f, o, cap);
    var before := PutFieldAt(buf, v, AIR_ENTITY, j, o, f);
    WordPlace(m[j], ENTITY_STARTS[j], cap, f.swap, f.zeroPadding);
    WordBehind(before, v.fields[j], m[j], ENTITY_STARTS[j], ENTITY_PLACES[j], f, o, cap);
    WrittenOver(before, PutValue(before, v.fields[j], m[j], Whole, o + ENTITY_STARTS[j], f),
      buf, PutValue(buf, v, AIR_ENTITY, Whole, o, f), v.fields[j].bytes, o + ENTITY_STARTS[j], o + ENTITY_PLACES[j],
      f, true, PlaceOf(m, j + 1, o, f));
  }

  /** A member of the attitude or the movement. */
  lemma NestedMember(buf: seq<byte>, v: Value, t: Type, places: seq<nat>, i: nat, j: nat, f: Format, o: nat,
      cap: Alignment)
    requires cap >= 4 && Aligned(f, o, cap) && HasType(v, AIR_ENTITY)
    requires (i == 1 && t == ATTITUDE && places == ATTITUDE_PLACES)
      || (i == 2 && t == MOVEMENT_AIR_ENTITY && places == MOVEMENT_PLACES)
    requires EndPos(Leaves(AIR_ENTITY, Whole), o, f) <= |buf| && j < |t.members| == |places|
    ensures v.Record? && |v.fields| == 7 && HasType(v.fields[i], t)
    ensures FieldsHaveType(v.fields[i].fields, t.members) && v.fields[i].fields[j].Word?
    ensures WordWritten(buf, PutValue(buf, v, AIR_ENTITY, Whole, o, f), v.fields[i].fields[j].bytes,
      o + Before(places, t.members, j), o + places[j], f, t.members[j].Primitive?)
  {
    hide EndPos, PlaceOf, LeafAt, Leaves, PutValue, Aligned, Xcdr, PadsBehind, WordWritten, Before;
    EntityMembers();
    EntityFields(v);
    EntityEnd(f, o, cap);
    AttitudeIsPlaced();
    MovementIsPlaced();
    var before := PutFieldAt(buf, v, AIR_ENTITY, i, o, f);
    FlatMember(before, v.fields[i], t, places, j, f, o, cap);
    WrittenOver(before, PutValue(before, v.fields[i], t, Whole, o + places[0], f),
      buf, PutValue(buf, v, AIR_ENTITY, Whole, o, f), v.fields[i].fields[j].bytes, o + Before(places, t.members, j),
      o + places[j], f, t.members[j].Primitive?, PlaceOf(AIR_ENTITY.members, i + 1, o, f));
  }

  const PADDING: set<int> := {70, 71, 105, 106, 107, 121, 122, 123}

  /** The byte map. */
  ghost predicate Map(r: seq<byte>, v: Value, o: nat, swap: bool)
    requires HasType(v, AIR_ENTITY)
  {
    EntityFields(v);
    && Bears(r, o, v.fields[0].bytes, swap)
    && (forall j | 0 <= j < 3 ::
      v.fields[1].fields[j].Word? && Bears(r, o + [4, 8, 12][j], v.fields[1].fields[j].bytes, swap))
    && (forall j | 0 <= j < 20 ::
      v.fields[2].fields[j].Word? && Bears(r, o + MOVEMENT_PLACES[j], v.fields[2].fields[j].bytes, swap && j != 7))
    && Bears(r, o + 120, v.fields[3].bytes, swap) && Bears(r, o + 124, v.fields[4].bytes, swap)
    && Bears(r, o + 128, v.fields[5].bytes, swap) && Bears(r, o + 132, v.fields[6].bytes, swap)
  }

  lemma CharacterRun(j: nat)
    requires j < 20
    ensures MOVEMENT_AIR_ENTITY.members[j].Primitive? <==> j != 7
  {}

  /**
   Writing an instance behind `o` bytes: every member stands at its place of the byte map, the padding in between is
   zeroed or left alone, and nothing else changes.
   */
  lemma {:induction false} EncodedBytes(buf: seq<byte>, v: Value, f: Format, o: nat, cap: Alignment)
    requires cap >= 4 && Aligned(f, o, cap) && HasType(v, AIR_ENTITY) && o + 133 <= |buf|
    ensures EndPos(Leaves(AIR_ENTITY, Whole), o, f) == o + 133
    ensures var r := PutValue(buf, v, AIR_ENTITY, Whole, o, f);
      && Map(r, v, o, f.swap)
      && (forall i :: 0 <= i < |buf| && i - o in PADDING ==> r[i] == if f.zeroPadding then 0 else buf[i])
      && (forall i :: 0 <= i < |buf| && !(o <= i < o + 133) ==> r[i] == buf[i])
  {
    hide EndPos, PlaceOf, LeafAt, Leaves, PutValue, Aligned, Xcdr, PadsBehind, Bears, HasType, Before;
    EntityEnd(f, o, cap);
    EntityFields(v);
    var r := PutValue(buf, v, AIR_ENTITY, Whole, o, f);
    EntityMember(buf, v, 0, f, o, cap);
    forall j | 0 <= j < 3
      ensures v.fields[1].fields[j].Word? && Bears(r, o + [4, 8, 12][j], v.fields[1].fields[j].bytes, f.swap)
    {
      EntityMembers();
      NestedMember(buf, v, ATTITUDE, ATTITUDE_PLACES, 1, j, f, o, cap);
      AttitudeWords(j);
    }
    forall j | 0 <= j < 20
      ensures v.fields[2].fields[j].Word?
        && Bears(r, o + MOVEMENT_PLACES[j], v.fields[2].fields[j].bytes, f.swap && j != 7)
    {
      EntityMembers();
      NestedMember(buf, v, MOVEMENT_AIR_ENTITY, MOVEMENT_PLACES, 2, j, f, o, cap);
      CharacterRun(j);
    }
    EntityMember(buf, v, 3, f, o, cap);
    EntityMember(buf, v, 4, f, o, cap);
    EntityMember(buf, v, 5, f, o, cap);
    EntityMember(buf, v, 6, f, o, cap);
    EncodedPadding(buf, v, f, o, cap);
    RoundTrip(buf, v, v, AIR_ENTITY, Whole, o, f);
  }

  lemma AttitudeWords(j: nat)
    requires j < 3
    ensures ATTITUDE.members[j].Primitive? && ATTITUDE_PLACES[j] == [4, 8, 12][j]
  {}

  lemma EncodedPadding(buf: seq<byte>, v: Value, f: Format, o: nat, cap: Alignment)
    requires cap >= 4 && Aligned(f, o, cap) && HasType(v, AIR_ENTITY) && o + 133 <= |buf|
    requires EndPos(Leaves(AIR_ENTITY, Whole), o, f) == o + 133
    ensures var r := PutValue(buf, v, AIR_ENTITY, Whole, o, f);
      forall i :: 0 <= i < |buf| && i - o in PADDING ==> r[i] == if f.zeroPadding then 0 else buf[i]
  {
    hide EndPos, PlaceOf, LeafAt, Leaves, PutValue, Aligned, Xcdr, PadsBehind, Bears, HasType, Before;
    EntityMembers();
    PaddedMembers();
    NestedMember(buf, v, MOVEMENT_AIR_ENTITY, MOVEMENT_PLACES, 2, 8, f, o, cap);
    NestedMember(buf, v, MOVEMENT_AIR_ENTITY, MOVEMENT_PLACES, 2, 17, f, o, cap);
    EntityMember(buf, v, 4, f, o, cap);
  }

  lemma PaddedMembers()
    ensures |MOVEMENT_AIR_ENTITY.members| == |MOVEMENT_PLACES| == 20
    ensures Before(MOVEMENT_PLACES, MOVEMENT_AIR_ENTITY.members, 8) == 70 && MOVEMENT_PLACES[8] == 72
    ensures Before(MOVEMENT_PLACES, MOVEMENT_AIR_ENTITY.members, 17) == 105 && MOVEMENT_PLACES[17] == 108
    ensures ENTITY_STARTS[4] == 121 && ENTITY_PLACES[4] == 124
  {}

  // ----- reading

  /** The word found at its place. */
  lemma WordFound(buf: seq<byte>, v: Value, t: Type, start: nat, place: nat, f: Format, o: nat, cap: Alignment)
    requires cap >= 4 && Aligned(f, o, cap) && !t.Struct? && HasType(v, t)
    requires LeafAt(WordLeaf(t), start, Xcdr(cap, f.swap, f.zeroPadding)) == place
    requires EndPos(Leaves(t, Whole), o + start, f) <= |buf|
    ensures var r := ReadValue(v, t, Whole, buf, o + start, f);
      r.Word? && Bears(buf, o + place, r.bytes, f.swap && t.Primitive?)
  {
    hide *;
    LeafBehindHeader(WordLeaf(t), start, f, o, cap);
    GetWordAt(buf, v, t, o + start, f);
  }

  lemma FoundEntityMember(buf: seq<byte>, v: Value, j: nat, f: Format, o: nat, cap: Alignment)
    requires cap >= 4 && Aligned(f, o, cap) && HasType(v, AIR_ENTITY) && j in {0, 3, 4, 5, 6} && o + 133 <= |buf|
    ensures var r := ReadValue(v, AIR_ENTITY, Whole, buf, o, f);
      && r.Record? && |r.fields| == 7 && r.fields[j].Word?
      && Bears(buf, o + ENTITY_PLACES[j], r.fields[j].bytes, f.swap)
  {
    hide EndPos, PlaceOf, LeafAt, Leaves, ReadValue, Aligned, Xcdr, PadsBehind, Bears;
    var m := AIR_ENTITY.members;
    EntityMembers();
    EntityFields(v);
    EntityFields(ReadValue(v, AIR_ENTITY, Whole, buf, o, f));
    EntityEnd(f, o, cap);
    NextPlace(m, j, o, f);
    ReadFieldAt(v, AIR_ENTITY, j, buf, o, f);
    WordPlace(m[j], ENTITY_STARTS[j], cap, f.swap, f.zeroPadding);
    WordFound(buf, v.fields[j], m[j], ENTITY_STARTS[j], ENTITY_PLACES[j], f, o, cap);
  }

  lemma FoundNestedMember(buf: seq<byte>, v: Value, t: Type, places: seq<nat>, i: nat, j: nat, f: Format, o: nat,
      cap: Alignment)
    requires cap >= 4 && Aligned(f, o, cap) && HasType(v, AIR_ENTITY) && o + 133 <= |buf|
    requires (i == 1 && t == ATTITUDE && places == ATTITUDE_PLACES)
      || (i == 2 && t == MOVEMENT_AIR_ENTITY && places == MOVEMENT_PLACES)
    requires j < |t.members| == |places|
    ensures var r := ReadValue(v, AIR_ENTITY, Whole, buf, o, f);
      && r.Record? && |r.fields| == 7 && HasType(r.fields[i], t)
      && FieldsHaveType(r.fields[i].fields, t.members) && r.fields[i].fields[j].Word?
      && Bears(buf, o + places[j], r.fields[i].fields[j].bytes, f.swap && t.members[j].Primitive?)
  {
    hide EndPos, PlaceOf, LeafAt, Leaves, ReadValue, Aligned, Xcdr, PadsBehind, Bears, Before, Size;
    EntityMembers();
    EntityFields(v);
    EntityFields(ReadValue(v, AIR_ENTITY, Whole, buf, o, f));
    EntityEnd(f, o, cap);
    AttitudeIsPlaced();
    MovementIsPlaced();
    assert PlacedAt(places, t.members, j);
    ReadFieldAt(v, AIR_ENTITY, i, buf, o, f);
    ReadFieldAt(v.fields[i], t, j, buf, o + places[0], f);
    FlatPlaces(t.members, places, j, cap, f.swap, f.zeroPadding);
    PlaceBehind(t.members, j, places[0], f, o, cap);
    WordAfter(places, t.members, j, cap, f.swap, f.zeroPadding);
    PlaceBehind(t.members, j + 1, places[0], f, o, cap);
    FlatPlaces(t.members, places, j + 1, cap, f.swap, f.zeroPadding);
    NextPlace(t.members, j, o + places[0], f);
    NestedFits(j);
    WordFound(buf, v.fields[i].fields[j], t.members[j], Before(places, t.members, j), places[j], f, o, cap);
  }

  lemma NestedFits(j: nat)
    ensures j < 3 ==> Before(ATTITUDE_PLACES, ATTITUDE.members, j + 1) <= 16
    ensures j < 20 ==> Before(MOVEMENT_PLACES, MOVEMENT_AIR_ENTITY.members, j + 1) <= 120
  {
    if j < 20 {
      if j < 10 { FrontFits(j); } else { BackFits(j); }
    }
  }

  lemma FrontFits(j: nat)
    requires j < 10
    ensures MOVEMENT_PLACES[j] + Size(MOVEMENT_AIR_ENTITY.members[j]) <= 120
  {}

  lemma BackFits(j: nat)
    requires 10 <= j < 20
    ensures MOVEMENT_PLACES[j] + Size(MOVEMENT_AIR_ENTITY.members[j]) <= 120
  {}

  /** Reading an instance from behind `o` bytes finds every member at its place of the byte map. */
  lemma {:induction false} DecodedBytes(buf: seq<byte>, v: Value, f: Format, o: nat, cap: Alignment)
    requires cap >= 4 && Aligned(f, o, cap) && HasType(v, AIR_ENTITY) && o + 133 <= |buf|
    ensures Map(buf, ReadValue(v, AIR_ENTITY, Whole, buf, o, f), o, f.swap)
  {
    hide EndPos, PlaceOf, LeafAt, Leaves, ReadValue, Aligned, Xcdr, PadsBehind, Bears, HasType, Before;
    var r := ReadValue(v, AIR_ENTITY, Whole, buf, o, f);
    EntityMembers();
    EntityFields(r);
    FoundEntityMember(buf, v, 0, f, o, cap);
    forall j | 0 <= j < 3
      ensures r.fields[1].fields[j].Word? && Bears(buf, o + [4, 8, 12][j], r.fields[1].fields[j].bytes, f.swap)
    {
      FoundNestedMember(buf, v, ATTITUDE, ATTITUDE_PLACES, 1, j, f, o, cap);
      AttitudeWords(j);
    }
    forall j | 0 <= j < 20
      ensures r.fields[2].fields[j].Word?
        && Bears(buf, o + MOVEMENT_PLACES[j], r.fields[2].fields[j].bytes, f.swap && j != 7)
    {
      FoundNestedMember(buf, v, MOVEMENT_AIR_ENTITY, MOVEMENT_PLACES, 2, j, f, o, cap);
      CharacterRun(j);
    }
    FoundEntityMember(buf, v, 3, f, o, cap);
    FoundEntityMember(buf, v, 4, f, o, cap);
    FoundEntityMember(buf, v, 5, f, o, cap);
    FoundEntityMember(buf, v, 6, f, o, cap);
  }
}
