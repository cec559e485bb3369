/**
 The Fast CDR coder: it walks the type itself instead of a table, counts alignment from an origin
 behind the encapsulation, skips the alignment computation after a word at least as large, and
 leaves padding bytes as they were.
 */
module FastCdr {
  import opened Bytes
  import opened Schema
  import opened Wire
  import opened Codec
  import opened InseTypes

  /** The size of the last word, or zero when there was none. */
  type LastSize = n: nat | n == 0 || n == 1 || n == 2 || n == 4 || n == 8

  class Cdr {
    const buffer: array<byte>
    const end: nat
    const align64: Alignment
    const swapBytes: bool
    const origin: nat
    ghost const format: Format
    var offset: nat
    var lastDataSize: LastSize

    /** The cursor is aligned to the size of the last word. */
    ghost predicate Valid()
      reads this
    {
      && origin <= offset <= end <= buffer.Length
      && format == FromOrigin(origin, align64, swapBytes, false)
      && (lastDataSize > 0 ==> Residue(offset - origin, lastDataSize) == 0)
    }

    constructor (buffer: array<byte>, end: nat, origin: nat, align64: Alignment, swapBytes: bool)
      requires origin <= end <= buffer.Length
      ensures Valid() && this.buffer == buffer && this.end == end && this.origin == origin == offset
      ensures this.align64 == align64 && this.swapBytes == swapBytes
    {
      this.buffer, this.end, this.align64, this.swapBytes := buffer, end, align64, swapBytes;
      this.origin, offset, lastDataSize := origin, origin, 0;
      format := FromOrigin(origin, align64, swapBytes, false);
    }

    /** The padding before a word; none is computed after a word at least as large. */
    method Alignment(dataSize: Alignment) returns (n: nat)
      requires Valid()
      ensures offset - origin + n == AlignUp(offset - origin, dataSize)
    {
      AlignUpIsAligned(offset - origin, dataSize);
      if dataSize > lastDataSize {
        PaddingFormula(offset - origin, dataSize);
        return (dataSize - (offset - origin) % dataSize) % dataSize;
      }
      AlignmentDivides(offset - origin, dataSize, lastDataSize);
      return 0;
    }

    /** Where a leaf goes, if there is room for it. */
    method Place(l: Leaf) returns (ok: bool, at: nat)
      requires Valid()
      ensures at == LeafAt(l, offset, format) && (ok <==> at + l.Width() <= end)
      ensures at >= origin && Residue(at - origin, Effective(l.WordSize(), align64)) == 0
    {
      var size := Effective(l.WordSize(), align64);
      var align := Alignment(size);
      GapFromOrigin(l, origin, offset - origin, align64, swapBytes, false);
      AlignUpIsAligned(offset - origin, size);
      at := offset + align;
      ok := at + l.Width() <= end;
    }

    /** Moves behind a leaf. */
    method Pass(l: Leaf, at: nat)
      requires Valid() && at >= origin && Residue(at - origin, Effective(l.WordSize(), align64)) == 0
        && at + l.Width() <= end
      modifies `offset, `lastDataSize
      ensures Valid() && offset == at + l.Width()
    {
      lastDataSize := Effective(l.WordSize(), align64);
      if l.Scalar? { WordsKeepAlignment(at - origin, lastDataSize, l.size); }
      offset := at + l.Width();
    }

    method SerializeLeaf(l: Leaf, w: seq<byte>) returns (ok: bool)
      requires Valid() && |w| == l.Width()
      modifies `offset, `lastDataSize, buffer
      ensures Valid()
      ensures ok <==> LeafAt(l, old(offset), format) + l.Width() <= end
      ensures ok ==> offset == LeafAt(l, old(offset), format) + l.Width()
      ensures ok ==> buffer[..] == PutLeaf(old(buffer[..]), l, w, old(offset), format)
      ensures !ok ==> buffer[..] == old(buffer[..])
      ensures forall k :: 0 <= k < buffer.Length && (k < old(offset) || k >= end) ==> buffer[k] == old(buffer[k])
    {
      var at;
      ok, at := Place(l);
      if ok {
        var wire := if swapBytes && l.Scalar? then Reverse(w) else w;
        assert wire == Wired(w, l, format);
        Copy(at, wire);
        Pass(l, at);
      }
    }

    method Copy(at: nat, w: seq<byte>)
      requires at + |w| <= buffer.Length
      modifies buffer
      ensures forall k :: 0 <= k < buffer.Length ==>
        buffer[k] == if at <= k < at + |w| then w[k - at] else old(buffer[k])
    {
      for i := 0 to |w|
        invariant forall k :: 0 <= k < buffer.Length ==>
          buffer[k] == if at <= k < at + i then w[k - at] else old(buffer[k])
      {
        buffer[at + i] := w[i];
      }
    }

    /** Serializes a value, member by member. Running out of buffer is the exception Fast CDR throws. */
    method Serialize(v: Value, t: Type) returns (ok: bool)
      requires Valid() && HasType(v, t)
      modifies `offset, `lastDataSize, buffer
      ensures Valid()
      ensures ok <==> EndPos(Leaves(t, Whole), old(offset), format) <= end
      ensures ok ==> offset == EndPos(Leaves(t, Whole), old(offset), format)
      ensures ok ==> buffer[..] == PutValue(old(buffer[..]), v, t, Whole, old(offset), format)
      ensures forall k :: 0 <= k < buffer.Length && (k < old(offset) || k >= end) ==> buffer[k] == old(buffer[k])
      decreases t, 1
    {
      match t
      case Primitive(size) =>
        OneLeaf(buffer[..], Scalar(size), v.bytes, offset, format);
        ok := SerializeLeaf(Scalar(size), v.bytes);
      case CharArray(length) =>
        OneLeaf(buffer[..], Chars(length), v.bytes, offset, format);
        ok := SerializeLeaf(Chars(length), v.bytes);
      case Struct(members) =>
        ok := SerializeMembers(v, t);
    }

    method SerializeMembers(v: Value, t: Type) returns (ok: bool)
      requires Valid() && t.Struct? && HasType(v, t)
      modifies `offset, `lastDataSize, buffer
      ensures Valid()
      ensures ok <==> EndPos(Leaves(t, Whole), old(offset), format) <= end
      ensures ok ==> offset == EndPos(Leaves(t, Whole), old(offset), format)
      ensures ok ==> buffer[..] == PutValue(old(buffer[..]), v, t, Whole, old(offset), format)
      ensures forall k :: 0 <= k < buffer.Length && (k < old(offset) || k >= end) ==> buffer[k] == old(buffer[k])
      decreases t, 0, 1
    {
      hide EndPos, LeavesFrom, WordsFrom, Put, PutFrom, PutValue;
      ghost var f, b0, p0 := format, buffer[..], offset;
      WriteStarts(b0, p0, v.fields, t.members, 0, Whole, f);
      for i := 0 to |t.members|
        invariant Valid()
        invariant WriteProgress(b0, p0, buffer[..], offset, v.fields, t.members, i, Whole, f) && p0 <= offset
        invariant forall k :: 0 <= k < buffer.Length && (k < p0 || k >= end) ==> buffer[k] == b0[k]
      {
        ok := SerializeMember(v.fields, t, i, b0, p0);
        if !ok {
          return;
        }
      }
      WriteEnds(b0, p0, buffer[..], offset, v, t, Whole, f);
      ok := true;
    }

    method SerializeMember(fields: seq<Value>, t: Type, i: nat, ghost b0: seq<byte>, ghost p0: nat) returns (ok: bool)
      requires Valid() && t.Struct? && i < |t.members|
      requires WriteProgress(b0, p0, buffer[..], offset, fields, t.members, i, Whole, format) && p0 <= offset
      modifies `offset, `lastDataSize, buffer
      ensures Valid()
      ensures ok ==> WriteProgress(b0, p0, buffer[..], offset, fields, t.members, i + 1, Whole, format)
      ensures !ok ==> EndPos(Leaves(t, Whole), p0, format) > end
      ensures forall k :: 0 <= k < buffer.Length && (k < p0 || k >= end) ==> buffer[k] == old(buffer[k])
      decreases t, 0, 0
    {
      hide EndPos, LeavesFrom, WordsFrom, Put, PutFrom, PutValue;
      ghost var b, pos := buffer[..], offset;
      ok := Serialize(fields[i], t.members[i]);
      if ok {
        WriteProceeds(b0, p0, b, pos, buffer[..], offset, fields, t.members, i, i + 1, Whole, format);
      } else {
        WriteStops(b0, p0, b, pos, fields, t.members, i, Whole, format, end);
      }
    }

    method DeserializeLeaf(l: Leaf, v: Value) returns (ok: bool, r: Value)
      requires Valid() && v.Word? && |v.bytes| == l.Width()
      modifies `offset, `lastDataSize
      ensures Valid()
      ensures ok <==> LeafAt(l, old(offset), format) + l.Width() <= end
      ensures ok ==> offset == LeafAt(l, old(offset), format) + l.Width()
      ensures r.Word? && |r.bytes| == l.Width()
      ensures ok ==> r == ReadLeafAt(v, l, buffer[..], old(offset), format)
    {
      var at;
      ok, at := Place(l);
      if !ok {
        return false, v;
      }
      var raw := buffer[at..at + l.Width()];
      assert raw == buffer[..][at..at + l.Width()];
      r := Word(if swapBytes && l.Scalar? then Reverse(raw) else raw);
      assert r == ReadLeafAt(v, l, buffer[..], offset, format);
      Pass(l, at);
    }

    /** Deserializes into a value. */
    method Deserialize(v: Value, t: Type) returns (ok: bool, r: Value)
      requires Valid() && HasType(v, t)
      modifies `offset, `lastDataSize
      ensures Valid()
      ensures ok <==> EndPos(Leaves(t, Whole), old(offset), format) <= end
      ensures ok ==> offset == EndPos(Leaves(t, Whole), old(offset), format)
      ensures HasType(r, t)
      ensures ok ==> r == ReadValue(v, t, Whole, buffer[..], old(offset), format)
      decreases t, 1
    {
      if t.Struct? {
        ok, r := DeserializeMembers(v, t);
      } else {
        EndOfLeaf(t, Whole, offset, format);
        ok, r := DeserializeLeaf(if t.Primitive? then Scalar(t.size) else Chars(t.length), v);
      }
    }

    method DeserializeMembers(v: Value, t: Type) returns (ok: bool, r: Value)
      requires Valid() && t.Struct? && HasType(v, t)
      modifies `offset, `lastDataSize
      ensures Valid()
      ensures ok <==> EndPos(Leaves(t, Whole), old(offset), format) <= end
      ensures ok ==> offset == EndPos(Leaves(t, Whole), old(offset), format)
      ensures HasType(r, t)
      ensures ok ==> r == ReadValue(v, t, Whole, buffer[..], old(offset), format)
      decreases t, 0
    {
      ghost var f, buf, p0 := format, buffer[..], offset;
      var fields := v.fields;
      ReadStarts(v.fields, p0, t.members, 0, Whole, buf, f);
      for i := 0 to |t.members|
        invariant Valid()
        invariant ReadProgress(v.fields, p0, fields, offset, t.members, i, Whole, buf, f)
      {
        ghost var pos := offset;
        var field;
        ok, field := Deserialize(fields[i], t.members[i]);
        if !ok {
          ReadStops(v.fields, p0, fields, pos, t.members, i, Whole, buf, f, field, end);
          return false, Record(fields[i := field]);
        }
        ReadProceeds(v.fields, p0, fields, pos, offset, t.members, i, i + 1, Whole, buf, f);
        fields := fields[i := field];
      }
      ReadEnds(p0, fields, offset, v, t, Whole, buf, f);
      ok, r := true, Record(fields);
    }
  }

  // ----- the size calculator

  lemma LeafSize(t: Type, pos: nat, align64: Alignment)
    requires !t.Struct?
    ensures EndPos(Leaves(t, Whole), pos, Xcdr(align64, false, false))
      == AlignUp(pos, Effective(LeafOf(t).WordSize(), align64)) + LeafOf(t).Width()
  {
    assert Leaves(t, Whole)[1..] == [];
  }

  /** The size of a type from an alignment on, and the alignment behind it. */
  method CalculateSize(t: Type, currentAlignment: nat, align64: Alignment) returns (size: nat, alignment: nat)
    ensures alignment == EndPos(Leaves(t, Whole), currentAlignment, Xcdr(align64, false, false))
    ensures size == alignment - currentAlignment
    decreases t
  {
    match t
    case Primitive(width) =>
      LeafSize(t, currentAlignment, align64);
      var a := Effective(width, align64);
      PaddingFormula(currentAlignment, a);
      size := width + (a - currentAlignment % a) % a;
      alignment := currentAlignment + size;
    case CharArray(length) =>
      LeafSize(t, currentAlignment, align64);
      AlignUpIsAligned(currentAlignment, 1);
      size := length;
      alignment := currentAlignment + length;
    case Struct(members) =>
      size, alignment := 0, currentAlignment;
      ghost var f := Xcdr(align64, false, false);
      for i := 0 to |members|
        invariant EndPos(LeavesFrom(members, i, Whole), alignment, f)
          == EndPos(LeavesFrom(members, 0, Whole), currentAlignment, f)
        invariant size == alignment - currentAlignment
      {
        EndPosAppend(Leaves(members[i], Whole), LeavesFrom(members, i + 1, Whole), alignment, f);
        var memberSize;
        memberSize, alignment := CalculateSize(members[i], alignment, align64);
        size := size + memberSize;
      }
  }
}
