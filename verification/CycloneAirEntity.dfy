/** The streaming of `AirEntity` by Cyclone DDS, byte by byte. */
module CycloneAirEntity {
  import opened AirEntityBytes
  import opened Bytes
  import opened CdrStreaming
  import opened Codec
  import opened FieldPlaces
  import opened InseTypes
  import opened PubSub
  import opened Schema
  import opened Wire

  lemma AlignedFromStart(cap: Alignment, swap: bool)
    ensures Aligned(Xcdr(cap, swap, true), 0, cap)
  {}

  /** In key mode the id is all there is. */
  lemma KeyBytes(buf: seq<byte>, v: Value, cap: Alignment, swap: bool)
    requires HasType(v, AIR_ENTITY) && |buf| >= 4
    ensures var f := Xcdr(cap, swap, true);
      && EndPos(Leaves(AIR_ENTITY, AIR_ENTITY_KEY), 0, f) == 4
      && v.Record? && |v.fields| == 7 && v.fields[0].Word? && |v.fields[0].bytes| == 4
      && var r := PutValue(buf, v, AIR_ENTITY, AIR_ENTITY_KEY, 0, f);
      && (forall i :: 0 <= i < 4 ==> r[i] == v.fields[0].bytes[if swap then 3 - i else i])
      && (forall i :: 4 <= i < |buf| ==> r[i] == buf[i])
  {
    var f := Xcdr(cap, swap, true);
    KeyLeaves(v);
    KeyEnd(cap, swap, true);
    IdHasType(v);
    PutWordAt(buf, v.fields[0], LONG, 0, f);
    assert PutValue(buf, v, AIR_ENTITY, AIR_ENTITY_KEY, 0, f) == PutValue(buf, v.fields[0], LONG, Whole, 0, f);
  }

  lemma KeyFound(buf: seq<byte>, v: Value, cap: Alignment, swap: bool)
    requires HasType(v, AIR_ENTITY) && |buf| >= 4
    ensures var r := ReadValue(v, AIR_ENTITY, AIR_ENTITY_KEY, buf, 0, Xcdr(cap, swap, true));
      && v.Record? && |v.fields| == 7 && r.Record? && |r.fields| == 7 && r.fields[1..] == v.fields[1..]
      && r.fields[0].Word? && |r.fields[0].bytes| == 4
      && forall i :: 0 <= i < 4 ==> buf[i] == r.fields[0].bytes[if swap then 3 - i else i]
  {
    var f, m := Xcdr(cap, swap, true), AIR_ENTITY.members;
    IdHasType(v);
    var next := EndPos(Leaves(LONG, Whole), 0, f);
    WordPlaceOfKey(cap, swap);
    GetWordAt(buf, v.fields[0], LONG, 0, f);
    assert m[0] == LONG && Below(AIR_ENTITY_KEY, 0) == Whole;
    var id := ReadValue(v.fields[0], LONG, Whole, buf, 0, f);
    SkipRead(v.fields, m, 1, 7, AIR_ENTITY_KEY, buf, next, f);
    assert ReadFrom(v.fields, m, 7, AIR_ENTITY_KEY, buf, next, f) == [];
    assert ReadFrom(v.fields, m, 0, AIR_ENTITY_KEY, buf, 0, f)
      == [id] + ReadFrom(v.fields, m, 1, AIR_ENTITY_KEY, buf, next, f);
  }

  lemma WordPlaceOfKey(cap: Alignment, swap: bool)
    ensures EndPos(Leaves(LONG, Whole), 0, Xcdr(cap, swap, true)) == 4
    ensures LeafAt(Scalar(4), 0, Xcdr(cap, swap, true)) == 0
  {
    EndOfLeaf(LONG, Whole, 0, Xcdr(cap, swap, true));
  }

  /** Writes the id in key mode, and otherwise all 133 bytes of the byte map with zeros in between. */
  method Write(st: CdrStream, v: Value, asKey: bool) returns (ok: bool)
    requires HasType(v, AIR_ENTITY) && st.maxAlignment >= 4
    modifies st, st.buffer
    ensures v.Record? && |v.fields| == 7 && v.fields[0].Word? && |v.fields[0].bytes| == 4
    ensures ok <==> (if asKey then 4 else 133) <= st.buffer.Length
    ensures ok ==> st.position == if asKey then 4 else 133
    ensures ok ==> forall i :: 0 <= i < 4 ==> st.buffer[i] == v.fields[0].bytes[if st.swap then 3 - i else i]
    ensures ok && !asKey ==> Map(st.buffer[..], v, 0, st.swap)
    ensures ok && !asKey ==> forall i | i in {70, 71, 105, 106, 107, 121, 122, 123} :: st.buffer[i] == 0
    ensures ok ==> forall i :: (if asKey then 4 else 133) <= i < st.buffer.Length ==> st.buffer[i] == old(st.buffer[i])
  {
    hide PutValue, Leaves, EndPos, Xcdr, Aligned, PadsBehind, Map, Bears;
    ghost var before := st.buffer[..];
    IdHasType(v);
    ok := WriteInstance(st, v, AIR_ENTITY, AIR_ENTITY_KEY, asKey);
    ghost var after := st.buffer[..];
    if asKey {
      KeyEnds(st.maxAlignment, st.swap);
      if |before| >= 4 {
        KeyBytes(before, v, st.maxAlignment, st.swap);
      }
    } else {
      AlignedFromStart(st.maxAlignment, st.swap);
      EntityEnd(Xcdr(st.maxAlignment, st.swap, true), 0, st.maxAlignment);
      if |before| >= 133 {
        InstanceBytes(before, v, st.maxAlignment, st.swap);
        IdInMap(after, v, st.swap);
      }
    }
    assert forall i :: 0 <= i < 4 <= |after| ==> st.buffer[i] == after[i];
  }

  lemma KeyEnds(cap: Alignment, swap: bool)
    ensures EndPos(Leaves(AIR_ENTITY, AIR_ENTITY_KEY), 0, Xcdr(cap, swap, true)) == 4
  {
    OnlyKeyLeaf();
    KeyEnd(cap, swap, true);
  }

  lemma InstanceBytes(before: seq<byte>, v: Value, cap: Alignment, swap: bool)
    requires HasType(v, AIR_ENTITY) && |before| >= 133 && cap >= 4
    ensures var f := Xcdr(cap, swap, true);
      && EndPos(Leaves(AIR_ENTITY, Whole), 0, f) == 133
      && var r := PutValue(before, v, AIR_ENTITY, Whole, 0, f);
      && Map(r, v, 0, swap)
      && (forall i | i in {70, 71, 105, 106, 107, 121, 122, 123} :: r[i] == 0)
      && (forall i :: 133 <= i < |before| ==> r[i] == before[i])
  {
    hide PutValue, Leaves, EndPos, PadsBehind, Map;
    AlignedFromStart(cap, swap);
    EncodedBytes(before, v, Xcdr(cap, swap, true), 0, cap);
  }

  lemma InstanceFound(buf: seq<byte>, v: Value, cap: Alignment, swap: bool)
    requires HasType(v, AIR_ENTITY) && |buf| >= 133 && cap >= 4
    ensures Map(buf, ReadValue(v, AIR_ENTITY, Whole, buf, 0, Xcdr(cap, swap, true)), 0, swap)
  {
    AlignedFromStart(cap, swap);
    DecodedBytes(buf, v, Xcdr(cap, swap, true), 0, cap);
  }

  /** Reads the id in key mode, and otherwise the member at every place of the byte map. */
  method Read(st: CdrStream, v: Value, asKey: bool) returns (ok: bool, r: Value)
    requires HasType(v, AIR_ENTITY) && st.maxAlignment >= 4
    modifies st
    ensures HasType(r, AIR_ENTITY)
    ensures v.Record? && |v.fields| == 7
    ensures r.Record? && |r.fields| == 7 && r.fields[0].Word? && |r.fields[0].bytes| == 4
    ensures ok <==> (if asKey then 4 else 133) <= st.buffer.Length
    ensures ok ==> st.position == if asKey then 4 else 133
    ensures ok ==> forall i :: 0 <= i < 4 ==> st.buffer[i] == r.fields[0].bytes[if st.swap then 3 - i else i]
    ensures ok && asKey ==> r.fields[1..] == v.fields[1..]
    ensures ok && !asKey ==> Map(st.buffer[..], r, 0, st.swap)
  {
    hide ReadValue, Leaves, EndPos, Xcdr, Aligned, PadsBehind, Map, Bears;
    IdHasType(v);
    ok, r := ReadInstance(st, v, AIR_ENTITY, AIR_ENTITY_KEY, asKey);
    IdHasType(r);
    ghost var buf := st.buffer[..];
    if asKey {
      KeyEnds(st.maxAlignment, st.swap);
      if |buf| >= 4 {
        KeyFound(buf, v, st.maxAlignment, st.swap);
      }
    } else {
      AlignedFromStart(st.maxAlignment, st.swap);
      EntityEnd(Xcdr(st.maxAlignment, st.swap, true), 0, st.maxAlignment);
      if |buf| >= 133 {
        InstanceFound(buf, v, st.maxAlignment, st.swap);
        IdInMap(buf, r, st.swap);
      }
    }
    assert forall i :: 0 <= i < 4 <= |buf| ==> st.buffer[i] == buf[i];
  }

  lemma IdInMap(buf: seq<byte>, r: Value, swap: bool)
    requires HasType(r, AIR_ENTITY) && Map(buf, r, 0, swap)
    ensures r.Record? && |r.fields| == 7 && r.fields[0].Word? && |r.fields[0].bytes| == 4 <= |buf|
    ensures forall i :: 0 <= i < 4 ==> buf[i] == r.fields[0].bytes[if swap then 3 - i else i]
  {
    IdHasType(r);
  }

  /** Counts the id in key mode, and otherwise the whole instance. */
  method Move(st: CdrStream, asKey: bool)
    requires st.maxAlignment >= 4
    modifies st
    ensures st.position == if asKey then 4 else 133
  {
    hide Leaves, EndPos, Xcdr, Aligned, PadsBehind;
    MoveInstance(st, AIR_ENTITY, AIR_ENTITY_KEY, asKey);
    KeyEnds(st.maxAlignment, st.swap);
    AlignedFromStart(st.maxAlignment, st.swap);
    EntityEnd(Xcdr(st.maxAlignment, st.swap, true), 0, st.maxAlignment);
  }
}
