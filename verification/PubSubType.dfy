/**
 The Fast DDS type support of `AirEntity`: serialization behind a 4-byte encapsulation, exact sizes,
 and the 16-byte instance key, next to the key coding of Cyclone DDS and the key order of OpenDDS.
 */
module PubSub {
  import opened AirEntityBytes
  import opened Bytes
  import opened Schema
  import opened Wire
  import opened Codec
  import opened FieldPlaces
  import opened InseTypes
  import opened FastCdr
  import opened Sequences

  const AIR_ENTITY_MAX_CDR_TYPESIZE: nat := 133
  const AIR_ENTITY_MAX_KEY_CDR_TYPESIZE: nat := 4
  const ENCAPSULATION: nat := 4

  datatype Representation = XcdrDataRepresentation | Xcdr2DataRepresentation

  function Cap(rep: Representation): Alignment {
    if rep.XcdrDataRepresentation? then 8 else 4
  }

  /** PLAIN_CDR or PLAIN_CDR2, with the byte order in the lowest bit. */
  function EncapsulationKind(rep: Representation, littleEndian: bool): byte {
    (if rep.XcdrDataRepresentation? then 0 else 6) + (if littleEndian then 1 else 0)
  }

  class SerializedPayload {
    const data: array<byte>
    const maxSize: nat
    var length: nat
    var littleEndian: bool

    ghost predicate Valid()
      reads this
    {
      length <= maxSize <= data.Length
    }

    constructor (data: array<byte>)
      ensures Valid() && this.data == data && maxSize == data.Length && length == 0
    {
      this.data, maxSize, length, littleEndian := data, data.Length, 0, true;
    }
  }

  // ----- the bytes of a payload

  ghost function BodyFormat(rep: Representation, swap: bool): Format {
    FromOrigin(ENCAPSULATION, Cap(rep), swap, false)
  }

  lemma BodyEnd(rep: Representation, swap: bool)
    ensures EndPos(Leaves(AIR_ENTITY, Whole), ENCAPSULATION, BodyFormat(rep, swap))
      == ENCAPSULATION + AIR_ENTITY_MAX_CDR_TYPESIZE
  {
    EndFromOrigin(Leaves(AIR_ENTITY, Whole), ENCAPSULATION, 0, Cap(rep), swap, false);
    AirEntityEnd(0, Cap(rep), swap, false);
  }

  /** The last two bytes of the encapsulation; Fast CDR decides them, and nothing here depends on them. */
  type Options = s: seq<byte> | |s| == 2 witness [0, 0]

  ghost function Header(rep: Representation, littleEndian: bool, options: Options): (r: seq<byte>)
    ensures |r| == ENCAPSULATION && r[1] == EncapsulationKind(rep, littleEndian)
  {
    [0, EncapsulationKind(rep, littleEndian)] + options
  }

  ghost function WithHeader(buf: seq<byte>, rep: Representation, littleEndian: bool, options: Options): (r: seq<byte>)
    requires |buf| >= ENCAPSULATION
    ensures |r| == |buf|
  {
    Header(rep, littleEndian, options) + buf[ENCAPSULATION..]
  }

  /** The data of a payload after a value was serialized into it. */
  ghost function Serialized(buf: seq<byte>, v: Value, rep: Representation, littleEndian: bool,
      options: Options): (r: seq<byte>)
    requires HasType(v, AIR_ENTITY) && |buf| >= ENCAPSULATION + AIR_ENTITY_MAX_CDR_TYPESIZE
    ensures |r| == |buf|
  {
    BodyEnd(rep, false);
    PutValue(WithHeader(buf, rep, littleEndian, options), v, AIR_ENTITY, Whole, ENCAPSULATION, BodyFormat(rep, false))
  }

  datatype Option<T> = None | Some(value: T)

  ghost function RepresentationOf(kind: byte): Option<Representation> {
    if kind == 0 || kind == 1 then Some(XcdrDataRepresentation)
    else if kind == 6 || kind == 7 then Some(Xcdr2DataRepresentation)
    else None
  }

  lemma KindIsInvertible(rep: Representation, littleEndian: bool)
    ensures RepresentationOf(EncapsulationKind(rep, littleEndian)) == Some(rep)
    ensures EncapsulationKind(rep, littleEndian) % 2 == 1 <==> littleEndian
  {}

  /** The byte of the boolean member `infiniteFuel` of the movement. */
  function InfiniteFuel(v: Value): byte
    requires HasType(v, AIR_ENTITY)
  {
    InfiniteFuelHasType(v);
    v.fields[2].fields[16].bytes[0]
  }

  lemma InfiniteFuelHasType(v: Value)
    requires HasType(v, AIR_ENTITY)
    ensures v.Record? && |v.fields| == 7 && HasType(v.fields[2], MOVEMENT_AIR_ENTITY)
    ensures v.fields[2].Record? && |v.fields[2].fields| == 20 && HasType(v.fields[2].fields[16], BOOLEAN)
    ensures v.fields[2].fields[16].Word? && |v.fields[2].fields[16].bytes| == 1
  {
    var t := AIR_ENTITY;
    assert FieldsHaveType(v.fields, t.members);
    assert HasType(v.fields[2], t.members[2]) && t.members[2] == MOVEMENT_AIR_ENTITY;
    var m := MOVEMENT_AIR_ENTITY;
    assert FieldsHaveType(v.fields[2].fields, m.members);
    assert HasType(v.fields[2].fields[16], m.members[16]) && m.members[16] == BOOLEAN;
  }

  /** A boolean other than zero and one is refused. */
  function Accepted(v: Value): Option<Value>
    requires HasType(v, AIR_ENTITY)
  {
    if InfiniteFuel(v) <= 1 then Some(v) else None
  }

  /** What a machine finds in the first `length` bytes of a payload. */
  ghost function Deserialized(buf: seq<byte>, length: nat, v: Value, littleEndian: bool): (r: Option<Value>)
    requires HasType(v, AIR_ENTITY) && length <= |buf|
    ensures r.Some? ==> HasType(r.value, AIR_ENTITY)
  {
    if length < ENCAPSULATION + AIR_ENTITY_MAX_CDR_TYPESIZE then None else
      match RepresentationOf(buf[1])
      case None => None
      case Some(rep) =>
        Accepted(ReadValue(v, AIR_ENTITY, Whole, buf, ENCAPSULATION,
          BodyFormat(rep, (buf[1] % 2 == 1) != littleEndian)))
  }

  lemma BodyIsBehindHeader(rep: Representation, swap: bool)
    ensures BodyFormat(rep, swap) == FromOrigin(ENCAPSULATION, Cap(rep), swap, false)
  {}

  lemma NothingToDeserialize(buf: seq<byte>, length: nat, v: Value, littleEndian: bool)
    requires HasType(v, AIR_ENTITY) && length <= |buf|
    ensures length < ENCAPSULATION + AIR_ENTITY_MAX_CDR_TYPESIZE || RepresentationOf(buf[1]).None?
      ==> Deserialized(buf, length, v, littleEndian).None?
  {}

  lemma BodyToDeserialize(buf: seq<byte>, length: nat, v: Value, littleEndian: bool, rep: Representation, r: Value)
    requires HasType(v, AIR_ENTITY) && ENCAPSULATION + AIR_ENTITY_MAX_CDR_TYPESIZE <= length <= |buf|
    requires RepresentationOf(buf[1]) == Some(rep) && HasType(r, AIR_ENTITY)
    requires r == ReadValue(v, AIR_ENTITY, Whole, buf, ENCAPSULATION,
      BodyFormat(rep, (buf[1] % 2 == 1) != littleEndian))
    ensures Deserialized(buf, length, v, littleEndian) == Accepted(r)
  {}

  /** A payload is self-describing: whatever the representation, the value comes back if its boolean is one. */
  lemma DeserializedAfterSerialized(buf: seq<byte>, v: Value, v0: Value, rep: Representation, littleEndian: bool,
      options: Options)
    requires HasType(v, AIR_ENTITY) && HasType(v0, AIR_ENTITY) && |buf| >= ENCAPSULATION + AIR_ENTITY_MAX_CDR_TYPESIZE
    ensures Deserialized(Serialized(buf, v, rep, littleEndian, options),
      ENCAPSULATION + AIR_ENTITY_MAX_CDR_TYPESIZE, v0, littleEndian)
      == Accepted(v)
  {
    var f := BodyFormat(rep, false);
    BodyEnd(rep, false);
    RoundTrip(WithHeader(buf, rep, littleEndian, options), v0, v, AIR_ENTITY, Whole, ENCAPSULATION, f);
    OverlayWhole(v0, v, AIR_ENTITY);
    assert Serialized(buf, v, rep, littleEndian, options)[1] == WithHeader(buf, rep, littleEndian, options)[1];
    KindIsInvertible(rep, littleEndian);
  }

  lemma BodyIsAligned(rep: Representation, swap: bool)
    ensures Aligned(BodyFormat(rep, swap), ENCAPSULATION, Cap(rep)) && Cap(rep) >= 4
    ensures BodyFormat(rep, swap).swap == swap && !BodyFormat(rep, swap).zeroPadding
  {
    var f := BodyFormat(rep, swap);
    forall l: Leaf, p: nat
      ensures LeafAt(l, ENCAPSULATION + p, f) == ENCAPSULATION + LeafAt(l, p, Xcdr(Cap(rep), f.swap, f.zeroPadding))
    {
      GapFromOrigin(l, ENCAPSULATION, p, Cap(rep), swap, false);
    }
  }

  /** A payload by its bytes: the boolean is byte 104 of the body. */
  lemma FuelIsByte(buf: seq<byte>, v: Value, rep: Representation, swap: bool)
    requires HasType(v, AIR_ENTITY) && |buf| >= 137
    ensures var r := ReadValue(v, AIR_ENTITY, Whole, buf, ENCAPSULATION, BodyFormat(rep, swap));
      InfiniteFuel(r) == buf[108] && Map(buf, r, 4, swap)
  {
    hide ReadValue, BodyFormat, HasType, Aligned;
    var f := BodyFormat(rep, swap);
    BodyIsAligned(rep, swap);
    DecodedBytes(buf, v, f, ENCAPSULATION, Cap(rep));
    var r := ReadValue(v, AIR_ENTITY, Whole, buf, ENCAPSULATION, f);
    InfiniteFuelHasType(r);
    assert Bears(buf, 4 + MOVEMENT_PLACES[16], r.fields[2].fields[16].bytes, swap && 16 != 7);
  }

  /** The machine and the payload disagree on the byte order. */
  predicate OtherOrder(buf: seq<byte>, littleEndian: bool)
    requires |buf| > 1
  {
    (buf[1] % 2 == 1) != littleEndian
  }

  /**
   A payload is deserialized if and only if it holds 137 bytes, its encapsulation is plain CDR or plain CDR2 of either
   byte order, and byte 108 is a boolean; then every member is found at its place of the byte map.
   */
  lemma {:induction false} AcceptedPayloads(buf: seq<byte>, length: nat, v: Value, littleEndian: bool)
    requires HasType(v, AIR_ENTITY) && length <= |buf|
    ensures var d := Deserialized(buf, length, v, littleEndian);
      && (d.Some? <==> length >= 137 && buf[1] in {0, 1, 6, 7} && buf[108] <= 1)
      && (d.Some? ==> Map(buf, d.value, 4, OtherOrder(buf, littleEndian)))
  {
    hide ReadValue, BodyFormat, HasType, Map;
    if length >= 137 && RepresentationOf(buf[1]).Some? {
      FuelIsByte(buf, v, RepresentationOf(buf[1]).value, OtherOrder(buf, littleEndian));
    }
  }

  /**
   The bytes of a payload: the encapsulation, then every member at its place of the byte map. Padding, and what is
   behind the body, stays as it was.
   */
  lemma {:induction false} SerializedBytes(buf: seq<byte>, v: Value, rep: Representation, littleEndian: bool,
      options: Options)
    requires HasType(v, AIR_ENTITY) && |buf| >= ENCAPSULATION + AIR_ENTITY_MAX_CDR_TYPESIZE
    ensures var r := Serialized(buf, v, rep, littleEndian, options);
      && r[0] == 0 && r[2..4] == options
      && r[1] == (if rep.XcdrDataRepresentation? then 0 else 6) + (if littleEndian then 1 else 0)
      && Map(r, v, 4, false)
      && (forall i :: 0 <= i < |buf| && (i - 4 in PADDING || i >= 137) ==> r[i] == buf[i])
  {
    hide PutValue, BodyFormat, HasType, Map, Aligned;
    var f, b := BodyFormat(rep, false), WithHeader(buf, rep, littleEndian, options);
    BodyIsAligned(rep, false);
    BodyEnd(rep, false);
    EncodedBytes(b, v, f, ENCAPSULATION, Cap(rep));
    var r := Serialized(buf, v, rep, littleEndian, options);
    assert r == PutValue(b, v, AIR_ENTITY, Whole, ENCAPSULATION, f);
    assert r[2..4] == b[2..4] == options;
  }

  // ----- machines of the other byte order

  /** A value with every word in the other byte order. */
  ghost function Reorder(v: Value, t: Type): (r: Value)
    requires HasType(v, t)
    ensures HasType(r, t)
    decreases t
  {
    match t
    case Primitive(_) => Word(Reverse(v.bytes))
    case CharArray(_) => v
    case Struct(members) => Record(ReorderFrom(v.fields, members, 0))
  }

  ghost function ReorderFrom(fields: seq<Value>, members: seq<Type>, i: nat): (r: seq<Value>)
    requires FieldsHaveType(fields, members) && i <= |members|
    ensures |r| == |members| - i && forall k | 0 <= k < |r| :: HasType(r[k], members[i + k])
    ensures forall k | 0 <= k < |r| :: r[k] == Reorder(fields[i + k], members[i + k])
    decreases members, |members| - i
  {
    if i == |members| then [] else [Reorder(fields[i], members[i])] + ReorderFrom(fields, members, i + 1)
  }

  lemma {:induction false} ReorderedAppend(v: seq<seq<byte>>, a: seq<Leaf>, w: seq<seq<byte>>, b: seq<Leaf>)
    requires Fit(v, a) && Fit(w, b)
    ensures Fit(v + w, a + b) && Reordered(v + w, a + b) == Reordered(v, a) + Reordered(w, b)
    decreases |a|
  {
    FitAppend(v, a, w, b);
    if a == [] {
      assert a + b == b && v + w == w;
    } else {
      HeadAndTail(a, b);
      HeadAndTail(v, w);
      ReorderedAppend(v[1..], a[1..], w, b);
      Associative(Reordered(v, a)[..1], Reordered(v[1..], a[1..]), Reordered(w, b));
    }
  }

  lemma {:induction false} WordsOfReorder(v: Value, t: Type)
    requires HasType(v, t)
    ensures WordsReordered(v, Reorder(v, t), t)
    decreases t
  {
    WordsFit(v, t, Whole);
    if t.Struct? {
      WordsOfReorderFrom(v.fields, Reorder(v, t).fields, t.members, 0);
    } else {
      assert Leaves(t, Whole)[1..] == [] && Words(v, t, Whole)[1..] == [];
    }
  }

  lemma {:induction false} WordsOfReorderFrom(fields: seq<Value>, reordered: seq<Value>, members: seq<Type>, i: nat)
    requires FieldsHaveType(fields, members) && FieldsHaveType(reordered, members) && i <= |members|
    requires forall k | 0 <= k < |members| :: reordered[k] == Reorder(fields[k], members[k])
    ensures FromReordered(fields, reordered, members, i)
    decreases members, |members| - i
  {
    if i < |members| {
      hide Fit, Reordered, Words, WordsFrom, Leaves, LeavesFrom, FromReordered, WordsReordered;
      assert reordered[i] == Reorder(fields[i], members[i]);
      assert WordsReordered(fields[i], reordered[i], members[i]) by { WordsOfReorder(fields[i], members[i]); }
      assert FromReordered(fields, reordered, members, i + 1) by {
        WordsOfReorderFrom(fields, reordered, members, i + 1);
      }
      ReorderedJoin(fields, reordered, members, i);
    }
  }

  ghost predicate WordsReordered(v: Value, r: Value, t: Type)
    requires HasType(v, t) && HasType(r, t)
  {
    && Fit(Words(v, t, Whole), Leaves(t, Whole))
    && Words(r, t, Whole) == Reordered(Words(v, t, Whole), Leaves(t, Whole))
  }

  ghost predicate FromReordered(fields: seq<Value>, reordered: seq<Value>, members: seq<Type>, i: nat)
    requires FieldsHaveType(fields, members) && FieldsHaveType(reordered, members) && i <= |members|
  {
    && Fit(WordsFrom(fields, members, i, Whole), LeavesFrom(members, i, Whole))
    && WordsFrom(reordered, members, i, Whole)
      == Reordered(WordsFrom(fields, members, i, Whole), LeavesFrom(members, i, Whole))
  }

  lemma ReorderedJoin(fields: seq<Value>, reordered: seq<Value>, members: seq<Type>, i: nat)
    requires FieldsHaveType(fields, members) && FieldsHaveType(reordered, members) && i < |members|
    requires WordsReordered(fields[i], reordered[i], members[i])
    requires FromReordered(fields, reordered, members, i + 1)
    ensures FromReordered(fields, reordered, members, i)
  {
    ReorderedAppend(Words(fields[i], members[i], Whole), Leaves(members[i], Whole),
      WordsFrom(fields, members, i + 1, Whole), LeavesFrom(members, i + 1, Whole));
  }

  /** A machine of the other byte order finds the same value, in its own byte order. */
  lemma {:induction false} OtherMachineReads(buf: seq<byte>, v: Value, v0: Value, rep: Representation,
      littleEndian: bool, options: Options)
    requires HasType(v, AIR_ENTITY) && HasType(v0, AIR_ENTITY) && |buf| >= ENCAPSULATION + AIR_ENTITY_MAX_CDR_TYPESIZE
    ensures Deserialized(Serialized(buf, v, rep, littleEndian, options),
      ENCAPSULATION + AIR_ENTITY_MAX_CDR_TYPESIZE, v0, !littleEndian)
      == Accepted(Reorder(v, AIR_ENTITY))
  {
    var f, g := BodyFormat(rep, false), BodyFormat(rep, true);
    var ls, ws := Leaves(AIR_ENTITY, Whole), Words(v, AIR_ENTITY, Whole);
    var r := Serialized(buf, v, rep, littleEndian, options);
    BodyEnd(rep, false);
    WordsOfReorder(v, AIR_ENTITY);
    OtherMachineReadsWords(WithHeader(buf, rep, littleEndian, options), ls, ws, ENCAPSULATION, f, g);
    PutFrame(WithHeader(buf, rep, littleEndian, options), ls, ws, ENCAPSULATION, f);
    assert r[1] == WithHeader(buf, rep, littleEndian, options)[1];
    KindIsInvertible(rep, littleEndian);
    ReadFindsWords(v0, Reorder(v, AIR_ENTITY), AIR_ENTITY, Whole, r, ENCAPSULATION, g);
    OverlayWhole(v0, Reorder(v, AIR_ENTITY), AIR_ENTITY);
  }

  // ----- the key

  /** The key member, `id`. */
  ghost function Id(v: Value): (id: Value)
    requires HasType(v, AIR_ENTITY)
    ensures v.Record? && |v.fields| == 7 && id == v.fields[0] && id.Word? && |id.bytes| == 4
  {
    IdHasType(v);
    v.fields[0]
  }

  lemma IdHasType(v: Value)
    requires HasType(v, AIR_ENTITY)
    ensures v.Record? && |v.fields| == 7 && FieldsHaveType(v.fields, AIR_ENTITY.members)
    ensures v.fields[0].Word? && |v.fields[0].bytes| == 4
  {
    var t := AIR_ENTITY;
    assert FieldsHaveType(v.fields, t.members);
    assert HasType(v.fields[0], t.members[0]) && t.members[0] == LONG;
  }

  /** The bytes of `id` in big endian. */
  ghost function BigEndianId(v: Value, littleEndian: bool): (r: seq<byte>)
    requires HasType(v, AIR_ENTITY)
    ensures |r| == 4
  {
    if littleEndian then Reverse(Id(v).bytes) else Id(v).bytes
  }

  /** A 32-bit two's complement number from its bytes in big endian. */
  function Signed(b: seq<byte>): int
    requires |b| == 4
  {
    var u: int := 16777216 * (b[0] as int) + 65536 * (b[1] as int) + 256 * (b[2] as int) + b[3] as int;
    if b[0] < 128 then u else u - 4294967296
  }

  ghost function IdOf(v: Value, littleEndian: bool): int
    requires HasType(v, AIR_ENTITY)
  {
    Signed(BigEndianId(v, littleEndian))
  }

  ghost predicate KeyLessThan(v: Value, w: Value, littleEndian: bool)
    requires HasType(v, AIR_ENTITY) && HasType(w, AIR_ENTITY)
  {
    IdOf(v, littleEndian) < IdOf(w, littleEndian)
  }

  /** The instance handle when no digest is asked for: the key, then zeros. */
  ghost function KeyHash(v: Value, littleEndian: bool): (r: seq<byte>)
    requires HasType(v, AIR_ENTITY)
    ensures |r| == 16
  {
    BigEndianId(v, littleEndian) + [0, 0, 0, 0, 0, 0, 0, 0, 0, 0, 0, 0]
  }

  lemma SignedIsInjective(a: seq<byte>, b: seq<byte>)
    requires |a| == |b| == 4 && Signed(a) == Signed(b)
    ensures a == b
  {
    assert a[0] == b[0] && a[1] == b[1] && a[2] == b[2] && a[3] == b[3];
  }

  /** The byte of the id that is number `k` from the most significant one. */
  ghost function IdByte(v: Value, littleEndian: bool, k: nat): byte
    requires HasType(v, AIR_ENTITY) && k < 4
  {
    Id(v).bytes[if littleEndian then 3 - k else k]
  }

  /**
   The key order compares ids as signed numbers: byte by byte from the most significant one, of which 128 to 255 come
   before 0 to 127.
   */
  lemma KeyOrderIsSigned(v: Value, w: Value, le: bool)
    requires HasType(v, AIR_ENTITY) && HasType(w, AIR_ENTITY)
    ensures KeyLessThan(v, w, le)
      <==> if IdByte(v, le, 0) != IdByte(w, le, 0) then
             if (IdByte(v, le, 0) < 128) == (IdByte(w, le, 0) < 128) then IdByte(v, le, 0) < IdByte(w, le, 0)
             else IdByte(v, le, 0) >= 128
           else if IdByte(v, le, 1) != IdByte(w, le, 1) then IdByte(v, le, 1) < IdByte(w, le, 1)
           else if IdByte(v, le, 2) != IdByte(w, le, 2) then IdByte(v, le, 2) < IdByte(w, le, 2)
           else IdByte(v, le, 3) < IdByte(w, le, 3)
  {
    hide Signed;
    var a, b := BigEndianId(v, le), BigEndianId(w, le);
    forall k: nat | k < 4 ensures a[k] == IdByte(v, le, k) && b[k] == IdByte(w, le, k) {}
    SignedOrder(a, b);
  }

  lemma SignedOrder(a: seq<byte>, b: seq<byte>)
    requires |a| == |b| == 4
    ensures Signed(a) < Signed(b)
      <==> if a[0] != b[0] then
             if (a[0] < 128) == (b[0] < 128) then a[0] < b[0] else a[0] >= 128
           else if a[1] != b[1] then a[1] < b[1]
           else if a[2] != b[2] then a[2] < b[2]
           else a[3] < b[3]
  {}

  /** Handles are equal exactly when ids are, and exactly when neither value precedes the other. */
  lemma HandlesFollowKeyOrder(v: Value, w: Value, littleEndian: bool)
    requires HasType(v, AIR_ENTITY) && HasType(w, AIR_ENTITY)
    ensures KeyHash(v, littleEndian) == KeyHash(w, littleEndian) <==> IdOf(v, littleEndian) == IdOf(w, littleEndian)
    ensures KeyHash(v, littleEndian) == KeyHash(w, littleEndian)
      <==> !KeyLessThan(v, w, littleEndian) && !KeyLessThan(w, v, littleEndian)
  {
    var a, b := BigEndianId(v, littleEndian), BigEndianId(w, littleEndian);
    assert KeyHash(v, littleEndian)[..4] == a && KeyHash(w, littleEndian)[..4] == b;
    if Signed(a) == Signed(b) { SignedIsInjective(a, b); }
  }

  /** The handle does not depend on the byte order of the machine that computes it. */
  lemma HandleIsPortable(v: Value, littleEndian: bool)
    requires HasType(v, AIR_ENTITY)
    ensures KeyHash(Reorder(v, AIR_ENTITY), !littleEndian) == KeyHash(v, littleEndian)
  {
    assert Id(Reorder(v, AIR_ENTITY)) == Word(Reverse(Id(v).bytes));
    ReverseTwice(Id(v).bytes);
  }

  /** The handle computed from a payload, on a machine of either byte order, is the handle of the value serialized. */
  lemma HandleFromPayload(buf: seq<byte>, v: Value, v0: Value, rep: Representation, writer: bool, reader: bool,
      options: Options)
    requires HasType(v, AIR_ENTITY) && HasType(v0, AIR_ENTITY) && |buf| >= ENCAPSULATION + AIR_ENTITY_MAX_CDR_TYPESIZE
    ensures var d := Deserialized(Serialized(buf, v, rep, writer, options),
        ENCAPSULATION + AIR_ENTITY_MAX_CDR_TYPESIZE, v0, reader);
      (d.Some? <==> InfiniteFuel(v) <= 1) && (d.Some? ==> KeyHash(d.value, reader) == KeyHash(v, writer))
  {
    if reader == writer {
      DeserializedAfterSerialized(buf, v, v0, rep, writer, options);
    } else {
      OtherMachineReads(buf, v, v0, rep, writer, options);
      HandleIsPortable(v, writer);
      BooleanIsPortable(v);
    }
  }

  lemma BooleanIsPortable(v: Value)
    requires HasType(v, AIR_ENTITY)
    ensures InfiniteFuel(Reorder(v, AIR_ENTITY)) == InfiniteFuel(v)
  {
    InfiniteFuelHasType(v);
    var m := v.fields[2];
    assert Reorder(v, AIR_ENTITY).fields[2] == Reorder(m, MOVEMENT_AIR_ENTITY);
    assert Reorder(m, MOVEMENT_AIR_ENTITY).fields[16] == Reorder(m.fields[16], BOOLEAN);
  }

  // ----- key-only coding

  lemma OnlyKeyLeaf()
    ensures Leaves(AIR_ENTITY, AIR_ENTITY_KEY) == [Scalar(4)]
  {
    var t := AIR_ENTITY;
    SkipLeaves(t.members, 1, 7, AIR_ENTITY_KEY);
    assert LeavesFrom(t.members, 0, AIR_ENTITY_KEY) == Leaves(t.members[0], Whole) + [];
  }

  lemma KeyLeaves(v: Value)
    requires HasType(v, AIR_ENTITY)
    ensures Leaves(AIR_ENTITY, AIR_ENTITY_KEY) == [Scalar(4)]
    ensures Words(v, AIR_ENTITY, AIR_ENTITY_KEY) == [Id(v).bytes]
  {
    IdHasType(v);
    var t := AIR_ENTITY;
    OnlyKeyLeaf();
    SkipWords(v.fields, t.members, 1, 7, AIR_ENTITY_KEY);
    assert WordsFrom(v.fields, t.members, 0, AIR_ENTITY_KEY) == Words(v.fields[0], t.members[0], Whole) + [];
  }

  lemma {:induction false} OverlayNothing(vs: seq<Value>, ws: seq<Value>, members: seq<Type>, i: nat, keys: Keys)
    requires FieldsHaveType(vs, members) && FieldsHaveType(ws, members) && i <= |members|
    requires forall k | i <= k < |members| :: !Selects(keys, k)
    ensures OverlayFrom(vs, ws, members, i, keys) == vs[i..]
    decreases |members| - i
  {
    if i < |members| { OverlayNothing(vs, ws, members, i + 1, keys); }
  }

  /** `v` with another id and all other members as they are. */
  ghost function WithId(v: Value, id: Value): Value
    requires HasType(v, AIR_ENTITY)
  {
    IdHasType(v);
    Record(v.fields[0 := id])
  }

  lemma KeyOverlay(v: Value, w: Value)
    requires HasType(v, AIR_ENTITY) && HasType(w, AIR_ENTITY)
    ensures Overlay(v, w, AIR_ENTITY, AIR_ENTITY_KEY) == WithId(v, Id(w))
  {
    IdHasType(v);
    IdHasType(w);
    var t := AIR_ENTITY;
    OverlayNothing(v.fields, w.fields, t.members, 1, AIR_ENTITY_KEY);
    assert Overlay(v.fields[0], w.fields[0], t.members[0], Whole) == w.fields[0];
    assert OverlayFrom(v.fields, w.fields, t.members, 0, AIR_ENTITY_KEY) == [w.fields[0]] + v.fields[1..];
  }

  /**
   Key-only coding takes four bytes from offset zero in every representation, tells two values apart
   exactly by their ids, and restores the id while leaving the other members of the target alone.
   */
  lemma {:induction false} KeyOnlyCoding(buf: seq<byte>, v: Value, w: Value, target: Value, cap: Alignment, swap: bool,
      zeroPadding: bool)
    requires HasType(v, AIR_ENTITY) && HasType(w, AIR_ENTITY) && HasType(target, AIR_ENTITY)
    requires |buf| >= AIR_ENTITY_MAX_KEY_CDR_TYPESIZE
    ensures var f := Xcdr(cap, swap, zeroPadding);
      && EndPos(Leaves(AIR_ENTITY, AIR_ENTITY_KEY), 0, f) == AIR_ENTITY_MAX_KEY_CDR_TYPESIZE
      && (PutValue(buf, v, AIR_ENTITY, AIR_ENTITY_KEY, 0, f) == PutValue(buf, w, AIR_ENTITY, AIR_ENTITY_KEY, 0, f)
        <==> Id(v) == Id(w))
      && ReadValue(target, AIR_ENTITY, AIR_ENTITY_KEY, PutValue(buf, v, AIR_ENTITY, AIR_ENTITY_KEY, 0, f), 0, f)
        == WithId(target, Id(v))
  {
    var f := Xcdr(cap, swap, zeroPadding);
    var ls := Leaves(AIR_ENTITY, AIR_ENTITY_KEY);
    KeyLeaves(v);
    KeyLeaves(w);
    KeyEnd(cap, swap, zeroPadding);
    RoundTrip(buf, target, v, AIR_ENTITY, AIR_ENTITY_KEY, 0, f);
    KeyOverlay(target, v);
    KeyBytesDetermineId(buf, v, w, f);
  }

  lemma KeyEnd(cap: Alignment, swap: bool, zeroPadding: bool)
    ensures EndPos([Scalar(4)], 0, Xcdr(cap, swap, zeroPadding)) == AIR_ENTITY_MAX_KEY_CDR_TYPESIZE
  {
    OneLeaf([], Scalar(4), [0, 0, 0, 0], 0, Xcdr(cap, swap, zeroPadding));
  }

  lemma KeyBytesDetermineId(buf: seq<byte>, v: Value, w: Value, f: Format)
    requires HasType(v, AIR_ENTITY) && HasType(w, AIR_ENTITY)
    requires EndPos(Leaves(AIR_ENTITY, AIR_ENTITY_KEY), 0, f) <= |buf|
    ensures PutValue(buf, v, AIR_ENTITY, AIR_ENTITY_KEY, 0, f) == PutValue(buf, w, AIR_ENTITY, AIR_ENTITY_KEY, 0, f)
      <==> Id(v) == Id(w)
  {
    var ls := Leaves(AIR_ENTITY, AIR_ENTITY_KEY);
    var vs, ws := Words(v, AIR_ENTITY, AIR_ENTITY_KEY), Words(w, AIR_ENTITY, AIR_ENTITY_KEY);
    KeyLeaves(v);
    KeyLeaves(w);
    WordsFit(v, AIR_ENTITY, AIR_ENTITY_KEY);
    WordsFit(w, AIR_ENTITY, AIR_ENTITY_KEY);
    GetAfterPut(buf, ls, vs, 0, f);
    GetAfterPut(buf, ls, ws, 0, f);
    assert Id(v) == Word(vs[0]) && Id(w) == Word(ws[0]);
  }

  // ----- between the vendors

  lemma LeafBehind(buf: seq<byte>, k: nat, l: Leaf, pos: nat, f: Format, g: Format)
    requires PadsBehind(k, f, g)
    ensures LeafAt(l, k + pos, f) == k + LeafAt(l, pos, g)
    ensures var at := LeafAt(l, pos, g);
      k + at + l.Width() <= |buf| ==> buf[k..][at..at + l.Width()] == buf[k + at..k + at + l.Width()]
  {}

  lemma {:induction false} GetBehind(buf: seq<byte>, k: nat, ls: seq<Leaf>, pos: nat, f: Format, g: Format)
    requires PadsBehind(k, f, g) && k + EndPos(ls, pos, g) <= |buf|
    ensures EndPos(ls, k + pos, f) <= |buf|
    ensures Get(buf, ls, k + pos, f) == Get(buf[k..], ls, pos, g)
    decreases |ls|
  {
    hide *;
    EndBehind(k, ls, pos, f, g);
    if ls == [] {
      GetFits(buf, ls, k + pos, f);
      GetFits(buf[k..], ls, pos, g);
    } else {
      LeafBehind(buf, k, ls[0], pos, f, g);
      GetStep(buf, ls, k + pos, f);
      GetStep(buf[k..], ls, pos, g);
      WiredAlike(ls[0], k, f, g);
      GetBehind(buf, k, ls[1..], LeafAt(ls[0], pos, g) + ls[0].Width(), f, g);
    }
  }

  lemma WiredAlike(l: Leaf, k: nat, f: Format, g: Format)
    requires PadsBehind(k, f, g)
    ensures forall w :: Wired(w, l, f) == Wired(w, l, g)
  {}

  /** What stands behind a header reads like a buffer of its own. */
  lemma GetBehindHeader(buf: seq<byte>, ls: seq<Leaf>, pos: nat, cap: Alignment, swap: bool, z: bool, z': bool)
    requires ENCAPSULATION + EndPos(ls, pos, Xcdr(cap, swap, z')) <= |buf|
    ensures EndPos(ls, ENCAPSULATION + pos, FromOrigin(ENCAPSULATION, cap, swap, z))
      == ENCAPSULATION + EndPos(ls, pos, Xcdr(cap, swap, z'))
    ensures Get(buf, ls, ENCAPSULATION + pos, FromOrigin(ENCAPSULATION, cap, swap, z))
         == Get(buf[ENCAPSULATION..], ls, pos, Xcdr(cap, swap, z'))
  {
    hide EndPos, Get;
    var f, g := FromOrigin(ENCAPSULATION, cap, swap, z), Xcdr(cap, swap, z');
    forall l: Leaf, p: nat ensures LeafAt(l, ENCAPSULATION + p, f) == ENCAPSULATION + LeafAt(l, p, g) {
      GapFromOrigin(l, ENCAPSULATION, p, cap, swap, z);
    }
    EndBehind(ENCAPSULATION, ls, pos, f, g);
    GetBehind(buf, ENCAPSULATION, ls, pos, f, g);
  }

  /** For every type: what one coder writes behind a header, the other reads as a buffer of its own. */
  lemma ReadBehindHeader(buf: seq<byte>, v: Value, v0: Value, t: Type, cap: Alignment, swap: bool, z: bool, z': bool)
    requires HasType(v, t) && HasType(v0, t)
    requires ENCAPSULATION + EndPos(Leaves(t, Whole), 0, Xcdr(cap, swap, z')) <= |buf|
    ensures var f := FromOrigin(ENCAPSULATION, cap, swap, z);
      && EndPos(Leaves(t, Whole), ENCAPSULATION, f) <= |buf|
      && v ==
        ReadValue(v0, t, Whole, PutValue(buf, v, t, Whole, ENCAPSULATION, f)[ENCAPSULATION..], 0, Xcdr(cap, swap, z'))
  {
    hide *;
    var ls, f, g := Leaves(t, Whole), FromOrigin(ENCAPSULATION, cap, swap, z), Xcdr(cap, swap, z');
    GetBehindHeader(buf, ls, 0, cap, swap, z, z');
    GetWritten(buf, v, t, ENCAPSULATION, f);
    var r := PutValue(buf, v, t, Whole, ENCAPSULATION, f);
    GetBehindHeader(r, ls, 0, cap, swap, z, z');
    ReadFindsWords(v0, v, t, Whole, r[ENCAPSULATION..], 0, g);
    OverlayWhole(v0, v, t);
  }

  lemma GetWritten(buf: seq<byte>, v: Value, t: Type, pos: nat, f: Format)
    requires HasType(v, t) && EndPos(Leaves(t, Whole), pos, f) <= |buf|
    ensures Get(PutValue(buf, v, t, Whole, pos, f), Leaves(t, Whole), pos, f) == Words(v, t, Whole)
  {
    WordsFit(v, t, Whole);
    GetAfterPut(buf, Leaves(t, Whole), Words(v, t, Whole), pos, f);
  }

  /** Cyclone DDS reads, behind the encapsulation, the value Fast DDS serialized. */
  lemma CycloneReadsFast(buf: seq<byte>, v: Value, v0: Value, rep: Representation, littleEndian: bool, options: Options)
    requires HasType(v, AIR_ENTITY) && HasType(v0, AIR_ENTITY) && |buf| >= ENCAPSULATION + AIR_ENTITY_MAX_CDR_TYPESIZE
    ensures ReadValue(v0, AIR_ENTITY, Whole, Serialized(buf, v, rep, littleEndian, options)[ENCAPSULATION..],
      0, Xcdr(Cap(rep), false, true)) == v
  {
    EndOfCyclone(rep);
    ReadBehindHeader(WithHeader(buf, rep, littleEndian, options), v, v0, AIR_ENTITY, Cap(rep), false, false, true);
  }

  lemma EndOfCyclone(rep: Representation)
    ensures EndPos(Leaves(AIR_ENTITY, Whole), 0, Xcdr(Cap(rep), false, true)) == AIR_ENTITY_MAX_CDR_TYPESIZE
  {
    AirEntityEnd(0, Cap(rep), false, true);
  }

  /** Fast DDS deserializes what Cyclone DDS wrote behind the encapsulation. */
  lemma {:induction false} FastReadsCyclone(body: seq<byte>, v: Value, v0: Value, rep: Representation,
      littleEndian: bool, options: Options)
    requires HasType(v, AIR_ENTITY) && HasType(v0, AIR_ENTITY) && |body| == AIR_ENTITY_MAX_CDR_TYPESIZE
    ensures EndPos(Leaves(AIR_ENTITY, Whole), 0, Xcdr(Cap(rep), false, true)) <= |body|
    ensures Deserialized(
      Header(rep, littleEndian, options) + PutValue(body, v, AIR_ENTITY, Whole, 0, Xcdr(Cap(rep), false, true)),
      ENCAPSULATION + AIR_ENTITY_MAX_CDR_TYPESIZE, v0, littleEndian) == Accepted(v)
  {
    var ls, f := Leaves(AIR_ENTITY, Whole), Xcdr(Cap(rep), false, true);
    EndOfCyclone(rep);
    BodyEnd(rep, false);
    WordsFit(v, AIR_ENTITY, Whole);
    GetAfterPut(body, ls, Words(v, AIR_ENTITY, Whole), 0, f);
    var emitted := PutValue(body, v, AIR_ENTITY, Whole, 0, f);
    var r := Header(rep, littleEndian, options) + emitted;
    assert r[ENCAPSULATION..] == emitted && r[1] == EncapsulationKind(rep, littleEndian);
    KindIsInvertible(rep, littleEndian);
    GetBehindHeader(r, ls, 0, Cap(rep), false, false, true);
    ReadFindsWords(v0, v, AIR_ENTITY, Whole, r, ENCAPSULATION, BodyFormat(rep, false));
    OverlayWhole(v0, v, AIR_ENTITY);
  }

  // ----- the type support

  type Digest = s: seq<byte> | |s| == 16 witness seq(16, _ => 0)

  class AirEntityPubSubType {
    const littleEndianHost: bool
    const maxSerializedTypeSize: nat
    const isComputeKeyProvided: bool
    const keyBuffer: array<byte>

    /** The buffer of the key stays zero behind the key. */
    ghost predicate Valid()
      reads this, keyBuffer
    {
      && isComputeKeyProvided && keyBuffer.Length == 16
      && (forall i :: AIR_ENTITY_MAX_KEY_CDR_TYPESIZE <= i < 16 ==> keyBuffer[i] == 0)
      && ENCAPSULATION + AIR_ENTITY_MAX_CDR_TYPESIZE <= maxSerializedTypeSize
    }

    constructor (littleEndianHost: bool)
      ensures Valid() && fresh(keyBuffer) && this.littleEndianHost == littleEndianHost && maxSerializedTypeSize == 140
    {
      this.littleEndianHost := littleEndianHost;
      var typeSize := AIR_ENTITY_MAX_CDR_TYPESIZE;
      typeSize := typeSize + (4 - typeSize % 4) % 4;
      maxSerializedTypeSize := typeSize + ENCAPSULATION;
      isComputeKeyProvided := true;
      var keyLength := if AIR_ENTITY_MAX_KEY_CDR_TYPESIZE > 16 then AIR_ENTITY_MAX_KEY_CDR_TYPESIZE else 16;
      keyBuffer := new byte[keyLength](_ => 0);
    }

    /** Succeeds exactly when the payload holds the encapsulation and the body. */
    method Serialize(v: Value, payload: SerializedPayload, rep: Representation, options: Options) returns (ok: bool)
      requires HasType(v, AIR_ENTITY) && payload.Valid()
      modifies payload, payload.data
      ensures payload.Valid()
      ensures ok <==> ENCAPSULATION + AIR_ENTITY_MAX_CDR_TYPESIZE <= payload.maxSize
      ensures Valid() && payload.maxSize >= maxSerializedTypeSize ==> ok
      ensures ok ==> payload.length == ENCAPSULATION + AIR_ENTITY_MAX_CDR_TYPESIZE
      ensures ok ==> payload.data[..] == Serialized(old(payload.data[..]), v, rep, littleEndianHost, options)
      ensures !ok ==> payload.length == old(payload.length)
      ensures !ok && payload.maxSize < ENCAPSULATION ==> payload.data[..] == old(payload.data[..])
      ensures !ok && payload.maxSize >= ENCAPSULATION ==>
        payload.data[..ENCAPSULATION] == Header(rep, littleEndianHost, options)
      ensures forall k :: payload.maxSize <= k < payload.data.Length ==> payload.data[k] == old(payload.data[k])
      ensures payload.littleEndian == littleEndianHost
      ensures ok ==> payload.data[0] == 0 && payload.data[2] == options[0] && payload.data[3] == options[1]
      ensures ok ==>
        payload.data[1] == (if rep.XcdrDataRepresentation? then 0 else 6) + (if littleEndianHost then 1 else 0)
      ensures ok ==> Map(payload.data[..], v, 4, false)
      ensures ok ==> forall i :: 0 <= i < payload.data.Length && i - 4 in PADDING ==>
        payload.data[i] == old(payload.data[i])
    {
      payload.littleEndian := littleEndianHost;
      if payload.maxSize < ENCAPSULATION {
        return false;
      }
      SerializeEncapsulation(payload.data, rep, options);
      ghost var header, before := payload.data[..ENCAPSULATION], old(payload.data[..]);
      var ser := new Cdr(payload.data, payload.maxSize, ENCAPSULATION, Cap(rep), false);
      BodyEnd(rep, false);
      ok := ser.Serialize(v, AIR_ENTITY);
      assert payload.data[..ENCAPSULATION] == header;
      if ok {
        payload.length := ser.offset;
        SerializedBytes(before, v, rep, littleEndianHost, options);
      }
    }

    method SerializeEncapsulation(data: array<byte>, rep: Representation, options: Options)
      requires data.Length >= ENCAPSULATION
      modifies data
      ensures data[..] == WithHeader(old(data[..]), rep, littleEndianHost, options)
    {
      data[0] := 0;
      data[1] := EncapsulationKind(rep, littleEndianHost);
      data[2], data[3] := options[0], options[1];
    }

    /**
     Reads the payload into a value. It fails on payloads that are cut short or of another
     encapsulation, and on a boolean that is neither zero nor one.
     */
    method Deserialize(payload: SerializedPayload, v: Value) returns (ok: bool, r: Value)
      requires HasType(v, AIR_ENTITY) && payload.Valid()
      modifies payload`littleEndian
      ensures payload.Valid() && HasType(r, AIR_ENTITY)
      ensures ok <==> Deserialized(payload.data[..], payload.length, v, littleEndianHost).Some?
      ensures ok ==> Deserialized(payload.data[..], payload.length, v, littleEndianHost) == Some(r)
      ensures ok ==> payload.littleEndian == (payload.data[1] % 2 == 1)
      ensures ok <==> payload.length >= 137 && payload.data[1] in {0, 1, 6, 7} && payload.data[108] <= 1
      ensures ok ==> Map(payload.data[..], r, 4, (payload.data[1] % 2 == 1) != littleEndianHost)
    {
      hide Map;
      AcceptedPayloads(payload.data[..], payload.length, v, littleEndianHost);
      hide Deserialized, Leaves, EndPos, ReadValue, HasType, FromOrigin, BodyFormat;
      NothingToDeserialize(payload.data[..], payload.length, v, littleEndianHost);
      if payload.length < ENCAPSULATION {
        return false, v;
      }
      var kind := payload.data[1];
      if kind != 0 && kind != 1 && kind != 6 && kind != 7 {
        return false, v;
      }
      var rep := if kind < 2 then XcdrDataRepresentation else Xcdr2DataRepresentation;
      var littleEndian := kind % 2 == 1;
      payload.littleEndian := littleEndian;
      BodyEnd(rep, littleEndian != littleEndianHost);
      BodyIsBehindHeader(rep, littleEndian != littleEndianHost);
      var deser := new Cdr(payload.data, payload.length, ENCAPSULATION, Cap(rep), littleEndian != littleEndianHost);
      ok, r := deser.Deserialize(v, AIR_ENTITY);
      if ok {
        BodyToDeserialize(payload.data[..], payload.length, v, littleEndianHost, rep, r);
      }
      ok := ok && InfiniteFuel(r) <= 1;
    }

    /** The length `Serialize` would give the payload. */
    method CalculateSerializedSize(v: Value, rep: Representation) returns (size: nat)
      requires HasType(v, AIR_ENTITY)
      ensures size == ENCAPSULATION + AIR_ENTITY_MAX_CDR_TYPESIZE
      ensures size == EndPos(Leaves(AIR_ENTITY, Whole), ENCAPSULATION, BodyFormat(rep, false))
    {
      var body, _ := CalculateSize(AIR_ENTITY, 0, Cap(rep));
      AirEntityEnd(0, Cap(rep), false, false);
      BodyEnd(rep, false);
      size := body + ENCAPSULATION;
    }

    /** The handle of a value: its key, or a digest of the key when one is asked for. */
    method ComputeKey(v: Value, handle: array<byte>, forceMd5: bool, md5: seq<byte> -> Digest) returns (ok: bool)
      requires HasType(v, AIR_ENTITY) && Valid() && handle.Length == 16 && handle != keyBuffer
      modifies keyBuffer, handle
      ensures Valid() && ok
      ensures keyBuffer[..] == KeyHash(v, littleEndianHost)
      ensures handle[..] == if forceMd5 then md5(BigEndianId(v, littleEndianHost)) else KeyHash(v, littleEndianHost)
      ensures v.Record? && |v.fields| == 7 && v.fields[0].Word? && |v.fields[0].bytes| == 4
      ensures forall k :: 0 <= k < 4 ==> keyBuffer[k] == v.fields[0].bytes[if littleEndianHost then 3 - k else k]
      ensures forall k :: 4 <= k < 16 ==> keyBuffer[k] == 0
      ensures handle[..] == if forceMd5 then md5(keyBuffer[..4]) else keyBuffer[..]
    {
      KeyHashBytes(v, littleEndianHost);
      if !isComputeKeyProvided {
        return false;
      }
      var length := SerializeKey(v);
      if forceMd5 || AIR_ENTITY_MAX_KEY_CDR_TYPESIZE > 16 {
        assert keyBuffer[..length] == BigEndianId(v, littleEndianHost);
        var digest := md5(keyBuffer[..length]);
        CopyHandle(handle, digest);
      } else {
        CopyHandle(handle, keyBuffer[..]);
      }
      ok := true;
    }

    method CopyHandle(handle: array<byte>, value: seq<byte>)
      requires handle.Length == 16 == |value|
      modifies handle
      ensures handle[..] == value
    {
      for i := 0 to 16
        invariant handle[..i] == value[..i]
      {
        handle[i] := value[i];
      }
    }

    /** Serializes the key in big endian over the first bytes of the key buffer. */
    method SerializeKey(v: Value) returns (length: nat)
      requires HasType(v, AIR_ENTITY) && Valid()
      modifies keyBuffer
      ensures Valid() && length == AIR_ENTITY_MAX_KEY_CDR_TYPESIZE
      ensures keyBuffer[..] == KeyHash(v, littleEndianHost)
    {
      ghost var before := keyBuffer[..];
      var ser := new Cdr(keyBuffer, AIR_ENTITY_MAX_KEY_CDR_TYPESIZE, 0, 4, littleEndianHost);
      KeyIsPutAtFront(before, v, littleEndianHost, ser.format);
      IdHasType(v);
      var ok := ser.Serialize(v.fields[0], LONG);
      length := ser.offset;
    }

    /** The handle of a serialized value is the handle of the value it deserializes to. */
    method ComputeKeyOfPayload(payload: SerializedPayload, blank: Value, handle: array<byte>, forceMd5: bool,
        md5: seq<byte> -> Digest)
      returns (ok: bool)
      requires HasType(blank, AIR_ENTITY) && Valid() && payload.Valid()
      requires handle.Length == 16 && handle != keyBuffer && payload.data != keyBuffer && payload.data != handle
      modifies payload`littleEndian, keyBuffer, handle
      ensures Valid()
      ensures ok <==> Deserialized(payload.data[..], payload.length, blank, littleEndianHost).Some?
      ensures ok ==> var v := Deserialized(payload.data[..], payload.length, blank, littleEndianHost).value;
        handle[..] == if forceMd5 then md5(BigEndianId(v, littleEndianHost)) else KeyHash(v, littleEndianHost)
      ensures !ok ==> handle[..] == old(handle[..])
      ensures ok <==> payload.length >= 137 && payload.data[1] in {0, 1, 6, 7} && payload.data[108] <= 1
      ensures ok ==> forall k :: 0 <= k < 4 ==>
        keyBuffer[k] == payload.data[if payload.data[1] % 2 == 1 then 7 - k else 4 + k]
      ensures ok ==> forall k :: 4 <= k < 16 ==> keyBuffer[k] == 0
      ensures ok ==> handle[..] == if forceMd5 then md5(keyBuffer[..4]) else keyBuffer[..]
    {
      hide Deserialized, HasType, Map;
      if !isComputeKeyProvided {
        return false;
      }
      var v;
      ok, v := Deserialize(payload, blank);
      if ok {
        ok := ComputeKey(v, handle, forceMd5, md5);
        IdInPayload(payload.data[..], v, littleEndianHost);
      }
    }
  }

  /** The id of the value in a payload, from its most significant byte on. */
  lemma IdInPayload(buf: seq<byte>, v: Value, littleEndian: bool)
    requires HasType(v, AIR_ENTITY) && |buf| >= 137 && Map(buf, v, 4, OtherOrder(buf, littleEndian))
    ensures forall k :: 0 <= k < 4 ==>
      KeyHash(v, littleEndian)[k] == buf[if buf[1] % 2 == 1 then 7 - k else 4 + k]
  {
    KeyHashBytes(v, littleEndian);
    var w, swapped := v.fields[0].bytes, OtherOrder(buf, littleEndian);
    assert Bears(buf, 4, w, swapped);
    assert buf[4] == w[if swapped then 3 else 0] && buf[5] == w[if swapped then 2 else 1];
    assert buf[6] == w[if swapped then 1 else 2] && buf[7] == w[if swapped then 0 else 3];
  }

  lemma KeyHashBytes(v: Value, littleEndian: bool)
    requires HasType(v, AIR_ENTITY)
    ensures v.Record? && |v.fields| == 7 && v.fields[0].Word? && |v.fields[0].bytes| == 4
    ensures KeyHash(v, littleEndian)[..4] == BigEndianId(v, littleEndian)
    ensures forall k :: 0 <= k < 4 ==>
      KeyHash(v, littleEndian)[k] == v.fields[0].bytes[if littleEndian then 3 - k else k]
    ensures forall k :: 4 <= k < 16 ==> KeyHash(v, littleEndian)[k] == 0
  {
    IdHasType(v);
  }

  lemma KeyIsPutAtFront(buf: seq<byte>, v: Value, littleEndian: bool, f: Format)
    requires HasType(v, AIR_ENTITY) && |buf| == 16 && forall i :: 4 <= i < 16 ==> buf[i] == 0
    requires f == FromOrigin(0, 4, littleEndian, false)
    ensures HasType(Id(v), LONG) && EndPos(Leaves(LONG, Whole), 0, f) == 4
    ensures PutValue(buf, Id(v), LONG, Whole, 0, f) == KeyHash(v, littleEndian)
  {
    OneLeaf(buf, Scalar(4), Id(v).bytes, 0, f);
    GapFromOrigin(Scalar(4), 0, 0, 4, littleEndian, false);
    assert PutValue(buf, Id(v), LONG, Whole, 0, f) == PutLeaf(buf, Scalar(4), Id(v).bytes, 0, f);
    assert Wired(Id(v).bytes, Scalar(4), f) == BigEndianId(v, littleEndian);
  }
}
