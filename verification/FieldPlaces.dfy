/** Where the members of a struct stand on the wire, and what writing and reading the struct does there. */
module FieldPlaces {
  import opened Bytes
  import opened Codec
  import opened Schema
  import opened Sequences
  import opened Wire

  /** The leaves of the first `j` members. */
  ghost function LeavesBefore(members: seq<Type>, j: nat): seq<Leaf>
    requires j <= |members|
  {
    if j == 0 then [] else LeavesBefore(members, j - 1) + Leaves(members[j - 1], Whole)
  }

  ghost function WordsBefore(fields: seq<Value>, members: seq<Type>, j: nat): seq<seq<byte>>
    requires FieldsHaveType(fields, members) && j <= |members|
  {
    if j == 0 then [] else WordsBefore(fields, members, j - 1) + Words(fields[j - 1], members[j - 1], Whole)
  }

  lemma {:induction false} LeavesSplit(members: seq<Type>, j: nat)
    requires j <= |members|
    ensures LeavesFrom(members, 0, Whole) == LeavesBefore(members, j) + LeavesFrom(members, j, Whole)
  {
    if j > 0 {
      LeavesSplit(members, j - 1);
      Associative(LeavesBefore(members, j - 1), Leaves(members[j - 1], Whole), LeavesFrom(members, j, Whole));
    }
  }

  lemma {:induction false} WordsSplit(fields: seq<Value>, members: seq<Type>, j: nat)
    requires FieldsHaveType(fields, members) && j <= |members|
    ensures WordsFrom(fields, members, 0, Whole)
      == WordsBefore(fields, members, j) + WordsFrom(fields, members, j, Whole)
    ensures Fit(WordsBefore(fields, members, j), LeavesBefore(members, j))
  {
    hide Fit, Words, Leaves, WordsFrom, HasType;
    if j > 0 {
      FromStep(fields, members, j - 1);
      WordsSplit(fields, members, j - 1);
      WordsFit(fields[j - 1], members[j - 1], Whole);
      FitAppend(WordsBefore(fields, members, j - 1), LeavesBefore(members, j - 1),
        Words(fields[j - 1], members[j - 1], Whole), Leaves(members[j - 1], Whole));
      Associative(WordsBefore(fields, members, j - 1), Words(fields[j - 1], members[j - 1], Whole),
        WordsFrom(fields, members, j, Whole));
    } else {
      NothingFits();
      assert [] + WordsFrom(fields, members, 0, Whole) == WordsFrom(fields, members, 0, Whole);
    }
  }

  lemma NothingFits()
    ensures Fit([], [])
  {}

  /** Where the cursor stands before member `j`, and behind it. */
  ghost function PlaceOf(members: seq<Type>, j: nat, pos: nat, f: Format): nat
    requires j <= |members|
  {
    EndPos(LeavesBefore(members, j), pos, f)
  }

  lemma NextPlace(members: seq<Type>, j: nat, pos: nat, f: Format)
    requires j < |members|
    ensures PlaceOf(members, j + 1, pos, f) == EndPos(Leaves(members[j], Whole), PlaceOf(members, j, pos, f), f)
    ensures PlaceOf(members, 0, pos, f) == pos
  {
    EndPosAppend(LeavesBefore(members, j), Leaves(members[j], Whole), pos, f);
  }

  /** Reading a struct reads each member at its place. */
  lemma ReadFieldAt(v: Value, t: Type, j: nat, buf: seq<byte>, pos: nat, f: Format)
    requires t.Struct? && HasType(v, t) && j < |t.members|
    ensures var r := ReadValue(v, t, Whole, buf, pos, f);
      && FieldsHaveType(v.fields, t.members)
      && r.fields[j] == ReadValue(v.fields[j], t.members[j], Whole, buf, PlaceOf(t.members, j, pos, f), f)
  {
    hide PlaceOf;
    if |t.members| > 0 { NextPlace(t.members, 0, pos, f); }
    ReadFromAt(v.fields, t.members, 0, j, buf, pos, f);
  }

  lemma {:induction false} ReadFromAt(fields: seq<Value>, members: seq<Type>, i: nat, j: nat, buf: seq<byte>, pos: nat,
      f: Format)
    requires FieldsHaveType(fields, members) && i <= j < |members|
    ensures ReadFrom(fields, members, i, Whole, buf, PlaceOf(members, i, pos, f), f)[j - i]
      == ReadValue(fields[j], members[j], Whole, buf, PlaceOf(members, j, pos, f), f)
    decreases j - i
  {
    hide PlaceOf, EndPos, ReadValue;
    if i < j {
      NextPlace(members, i, pos, f);
      ReadFromAt(fields, members, i + 1, j, buf, pos, f);
    }
  }

  /** Writing a struct writes each member at its place, over what was there before. */
  lemma PutFieldAt(buf: seq<byte>, v: Value, t: Type, j: nat, pos: nat, f: Format) returns (before: seq<byte>)
    requires t.Struct? && HasType(v, t) && j < |t.members| && EndPos(Leaves(t, Whole), pos, f) <= |buf|
    ensures var at, end := PlaceOf(t.members, j, pos, f), PlaceOf(t.members, j + 1, pos, f);
      && FieldsHaveType(v.fields, t.members)
      && |before| == |buf| && pos <= at <= end <= EndPos(Leaves(t, Whole), pos, f)
      && end == EndPos(Leaves(t.members[j], Whole), at, f)
      && (forall i :: at <= i < |buf| ==> before[i] == buf[i])
      && forall i :: 0 <= i < end ==>
        PutValue(buf, v, t, Whole, pos, f)[i] == PutValue(before, v.fields[j], t.members[j], Whole, at, f)[i]
  {
    hide Put, Words, WordsFrom, Leaves, LeavesFrom, LeavesBefore, WordsBefore, Fit, EndPos;
    var members, fields := t.members, v.fields;
    StructParts(v, t);
    var a, x := LeavesBefore(members, j), WordsBefore(fields, members, j);
    var l, w := Leaves(members[j], Whole), Words(fields[j], members[j], Whole);
    var b, y := LeavesFrom(members, j + 1, Whole), WordsFrom(fields, members, j + 1, Whole);
    LeavesSplit(members, j);
    WordsSplit(fields, members, j);
    FromStep(fields, members, j);
    WordsFit(fields[j], members[j], Whole);
    WordsFromFit(fields, members, j + 1, Whole);
    WordsFromFit(fields, members, j, Whole);
    NextPlace(members, j, pos, f);
    var at := EndPos(a, pos, f);
    EndPosAppend(a, l + b, pos, f);
    EndPosAppend(l, b, at, f);
    PutAppend(buf, a, x, l + b, w + y, pos, f);
    before := Put(buf, a, x, pos, f);
    PutAppend(before, l, w, b, y, at, f);
    PutFrame(buf, a, x, pos, f);
    PutFrame(Put(before, l, w, at, f), b, y, EndPos(l, at, f), f);
  }

  lemma FromStep(fields: seq<Value>, members: seq<Type>, j: nat)
    requires FieldsHaveType(fields, members) && j < |members|
    ensures LeavesFrom(members, j, Whole) == Leaves(members[j], Whole) + LeavesFrom(members, j + 1, Whole)
    ensures WordsFrom(fields, members, j, Whole)
      == Words(fields[j], members[j], Whole) + WordsFrom(fields, members, j + 1, Whole)
  {}

  lemma StructParts(v: Value, t: Type)
    requires t.Struct? && HasType(v, t)
    ensures Leaves(t, Whole) == LeavesFrom(t.members, 0, Whole)
    ensures Words(v, t, Whole) == WordsFrom(v.fields, t.members, 0, Whole)
  {}

  ghost function WordLeaf(t: Type): Leaf
    requires !t.Struct?
  {
    if t.Primitive? then Scalar(t.size) else Chars(t.length)
  }

  /** The bytes from `at` on are those of the word, or the same from back to front. */
  ghost predicate Bears(r: seq<byte>, at: nat, w: seq<byte>, swapped: bool) {
    && at + |w| <= |r|
    && forall i :: at <= i < at + |w| ==> r[i] == if swapped then w[at + |w| - 1 - i] else w[i - at]
  }

  /** A word at its place: padding in front, zeroed or left alone, then its bytes in wire order. */
  lemma PutWordAt(buf: seq<byte>, v: Value, t: Type, pos: nat, f: Format)
    requires !t.Struct? && HasType(v, t) && EndPos(Leaves(t, Whole), pos, f) <= |buf|
    ensures var r, at := PutValue(buf, v, t, Whole, pos, f), LeafAt(WordLeaf(t), pos, f);
      && at + |v.bytes| == EndPos(Leaves(t, Whole), pos, f)
      && (forall i :: pos <= i < at ==> r[i] == if f.zeroPadding then 0 else buf[i])
      && Bears(r, at, v.bytes, f.swap && t.Primitive?)
      && (forall i :: 0 <= i < |buf| && !(pos <= i < at + |v.bytes|) ==> r[i] == buf[i])
  {
    var l := WordLeaf(t);
    OneLeaf(buf, l, v.bytes, pos, f);
    var r, at := PutValue(buf, v, t, Whole, pos, f), LeafAt(l, pos, f);
    assert r == PutLeaf(buf, l, v.bytes, pos, f);
    forall i | at <= i < at + |v.bytes|
      ensures r[i] == if f.swap && t.Primitive? then v.bytes[at + |v.bytes| - 1 - i] else v.bytes[i - at]
    {
      assert r[i] == Wired(v.bytes, l, f)[i - at];
    }
  }

  /** The bytes of a word, as found at its place. */
  lemma WordOfBytes(raw: seq<byte>, l: Leaf, f: Format, k: nat)
    requires k < |raw|
    ensures raw[k] == if f.swap && l.Scalar? then Wired(raw, l, f)[|raw| - 1 - k] else Wired(raw, l, f)[k]
  {}

  lemma GetWordAt(buf: seq<byte>, v: Value, t: Type, pos: nat, f: Format)
    requires !t.Struct? && HasType(v, t) && EndPos(Leaves(t, Whole), pos, f) <= |buf|
    ensures var r, at := ReadValue(v, t, Whole, buf, pos, f), LeafAt(WordLeaf(t), pos, f);
      && r.Word? && at + |r.bytes| == EndPos(Leaves(t, Whole), pos, f)
      && Bears(buf, at, r.bytes, f.swap && t.Primitive?)
  {
    hide Wired, LeafAt;
    var l := WordLeaf(t);
    var at := LeafAt(l, pos, f);
    EndOfLeaf(t, Whole, pos, f);
    var raw := buf[at..at + l.Width()];
    var r := ReadValue(v, t, Whole, buf, pos, f);
    assert r == Word(Wired(raw, l, f));
    forall i | at <= i < at + l.Width()
      ensures buf[i] == if f.swap && t.Primitive? then r.bytes[at + l.Width() - 1 - i] else r.bytes[i - at]
    {
      WordOfBytes(raw, l, f, i - at);
      assert buf[i] == raw[i - at];
    }
  }
}
