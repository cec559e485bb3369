/**
 The generated `write`, `read`, `move` and `max` of a type: loops over the property table that
 dispatch on the member id and hand the row of a nested struct on as the root of its own loop.
 They are proved against the direct recursion over the type that `Leaves` and `Words` describe.
 */
module Codec {
  import opened Bytes
  import opened Schema
  import opened Wire
  import opened PropTable
  import opened CdrStreaming
  import opened Sequences

  // ----- specification

  /** The buffer after a value was written from `pos` on. */
  ghost function PutValue(buf: seq<byte>, v: Value, t: Type, keys: Keys, pos: nat, f: Format): (r: seq<byte>)
    requires HasType(v, t) && EndPos(Leaves(t, keys), pos, f) <= |buf|
    ensures |r| == |buf|
  {
    WordsFit(v, t, keys);
    Put(buf, Leaves(t, keys), Words(v, t, keys), pos, f)
  }

  ghost function PutFrom(buf: seq<byte>, fields: seq<Value>, members: seq<Type>, i: nat, keys: Keys, pos: nat,
      f: Format): (r: seq<byte>)
    requires FieldsHaveType(fields, members) && i <= |members| && EndPos(LeavesFrom(members, i, keys), pos, f) <= |buf|
    ensures |r| == |buf|
  {
    WordsFromFit(fields, members, i, keys);
    Put(buf, LeavesFrom(members, i, keys), WordsFrom(fields, members, i, keys), pos, f)
  }

  ghost function ReadLeafAt(v: Value, l: Leaf, buf: seq<byte>, pos: nat, f: Format): Value {
    var at := LeafAt(l, pos, f);
    if at + l.Width() <= |buf| then Word(Wired(buf[at..at + l.Width()], l, f)) else v
  }

  /** `v` after its selected leaves were read from `pos` on; leaves beyond the buffer keep their value. */
  ghost function ReadValue(v: Value, t: Type, keys: Keys, buf: seq<byte>, pos: nat, f: Format): (r: Value)
    requires HasType(v, t)
    ensures HasType(r, t)
    decreases t
  {
    match t
    case Primitive(size) => ReadLeafAt(v, Scalar(size), buf, pos, f)
    case CharArray(length) => ReadLeafAt(v, Chars(length), buf, pos, f)
    case Struct(members) => Record(ReadFrom(v.fields, members, 0, keys, buf, pos, f))
  }

  /** The fields from number `i` on after reading them. */
  ghost function ReadFrom(fields: seq<Value>, members: seq<Type>, i: nat, keys: Keys, buf: seq<byte>, pos: nat,
      f: Format): (r: seq<Value>)
    requires FieldsHaveType(fields, members) && i <= |members|
    ensures |r| == |members| - i && forall k | 0 <= k < |r| :: HasType(r[k], members[i + k])
    decreases members, |members| - i
  {
    if i == |members| then [] else
    if !Selects(keys, i) then [fields[i]] + ReadFrom(fields, members, i + 1, keys, buf, pos, f) else
      [ReadValue(fields[i], members[i], Below(keys, i), buf, pos, f)]
      + ReadFrom(fields, members, i + 1, keys, buf, EndPos(Leaves(members[i], Below(keys, i)), pos, f), f)
  }

  // ----- what one member contributes

  lemma MemberEnd(members: seq<Type>, i: nat, j: nat, keys: Keys, pos: nat, f: Format)
    requires i < j <= |members| && Selects(keys, i) && forall k | i < k < j :: !Selects(keys, k)
    ensures EndPos(LeavesFrom(members, j, keys), EndPos(Leaves(members[i], Below(keys, i)), pos, f), f)
         == EndPos(LeavesFrom(members, i, keys), pos, f)
  {
    var first, rest := Leaves(members[i], Below(keys, i)), LeavesFrom(members, i + 1, keys);
    assert LeavesFrom(members, i, keys) == first + rest;
    assert rest == LeavesFrom(members, j, keys) by { SkipLeaves(members, i + 1, j, keys); }
    EndPosAppend(first, rest, pos, f);
  }

  lemma MemberPut(buf: seq<byte>, fields: seq<Value>, members: seq<Type>, i: nat, j: nat, keys: Keys, pos: nat,
      f: Format)
    requires FieldsHaveType(fields, members)
    requires i < j <= |members| && Selects(keys, i) && forall k | i < k < j :: !Selects(keys, k)
    requires EndPos(LeavesFrom(members, i, keys), pos, f) <= |buf|
    ensures var next := EndPos(Leaves(members[i], Below(keys, i)), pos, f);
      && next <= EndPos(LeavesFrom(members, j, keys), next, f) <= |buf|
      && PutFrom(buf, fields, members, i, keys, pos, f)
      == PutFrom(PutValue(buf, fields[i], members[i], Below(keys, i), pos, f), fields, members, j, keys, next, f)
  {
    var a, v := Leaves(members[i], Below(keys, i)), Words(fields[i], members[i], Below(keys, i));
    var b, w := LeavesFrom(members, j, keys), WordsFrom(fields, members, j, keys);
    assert LeavesFrom(members, i, keys) == a + b by { SkipLeaves(members, i + 1, j, keys); }
    assert WordsFrom(fields, members, i, keys) == v + w by { SkipWords(fields, members, i + 1, j, keys); }
    MemberEnd(members, i, j, keys, pos, f);
    WordsFit(fields[i], members[i], Below(keys, i));
    WordsFromFit(fields, members, j, keys);
    PutAppend(buf, a, v, b, w, pos, f);
  }

  /** How far a loop over members has come: what is left to write from here is what was left at the start. */
  ghost predicate WriteProgress(b0: seq<byte>, p0: nat, b: seq<byte>, pos: nat,
      fields: seq<Value>, members: seq<Type>, i: nat, keys: Keys, f: Format) {
    && FieldsHaveType(fields, members) && i <= |members| && |b| == |b0| && p0 <= pos
    && EndPos(LeavesFrom(members, i, keys), pos, f) == EndPos(LeavesFrom(members, 0, keys), p0, f)
    && (EndPos(LeavesFrom(members, 0, keys), p0, f) <= |b0| ==>
         PutFrom(b, fields, members, i, keys, pos, f) == PutFrom(b0, fields, members, 0, keys, p0, f))
  }

  lemma WriteStarts(b0: seq<byte>, p0: nat, fields: seq<Value>, members: seq<Type>, i: nat, keys: Keys, f: Format)
    requires FieldsHaveType(fields, members) && i <= |members| && forall k | 0 <= k < i :: !Selects(keys, k)
    ensures WriteProgress(b0, p0, b0, p0, fields, members, i, keys, f)
  {
    SkipLeaves(members, 0, i, keys);
    SkipWords(fields, members, 0, i, keys);
  }

  lemma WriteProceeds(b0: seq<byte>, p0: nat, b: seq<byte>, pos: nat, b': seq<byte>, pos': nat,
      fields: seq<Value>, members: seq<Type>, i: nat, j: nat, keys: Keys, f: Format)
    requires WriteProgress(b0, p0, b, pos, fields, members, i, keys, f)
    requires i < j <= |members| && Selects(keys, i) && forall k | i < k < j :: !Selects(keys, k)
    requires pos' == EndPos(Leaves(members[i], Below(keys, i)), pos, f) <= |b|
    requires b' == PutValue(b, fields[i], members[i], Below(keys, i), pos, f)
    ensures WriteProgress(b0, p0, b', pos', fields, members, j, keys, f)
  {
    MemberEnd(members, i, j, keys, pos, f);
    if EndPos(LeavesFrom(members, i, keys), pos, f) <= |b| {
      MemberPut(b, fields, members, i, j, keys, pos, f);
    }
  }

  lemma WriteEnds(b0: seq<byte>, p0: nat, b: seq<byte>, pos: nat, v: Value, t: Type, keys: Keys, f: Format)
    requires t.Struct? && HasType(v, t) && pos <= |b|
    requires WriteProgress(b0, p0, b, pos, v.fields, t.members, |t.members|, keys, f)
    ensures pos == EndPos(Leaves(t, keys), p0, f) <= |b0|
    ensures b == PutValue(b0, v, t, keys, p0, f)
  {}

  lemma WriteStops(b0: seq<byte>, p0: nat, b: seq<byte>, pos: nat,
      fields: seq<Value>, members: seq<Type>, i: nat, keys: Keys, f: Format, limit: nat)
    requires WriteProgress(b0, p0, b, pos, fields, members, i, keys, f)
    requires i < |members| && Selects(keys, i)
    requires EndPos(Leaves(members[i], Below(keys, i)), pos, f) > limit
    ensures EndPos(LeavesFrom(members, 0, keys), p0, f) > limit
  {
    MemberEnd(members, i, i + 1, keys, pos, f);
  }

  // ----- write

  method Write(st: CdrStream, v: Value, t: Type, p: Props, root: int, ghost keys: Keys) returns (ok: bool)
    requires t.Struct? && HasType(v, t) && Linked(p) && Describes(p, root, t, keys)
    requires st.Valid() && st.position <= st.buffer.Length
    modifies st`position, st`currentAlignment, st.buffer
    ensures st.Valid() && old(st.position) <= st.position <= st.buffer.Length
    ensures ok <==> EndPos(Leaves(t, Streamed(st.asKey, keys)), old(st.position), st.Format()) <= st.buffer.Length
    ensures ok ==> st.position == EndPos(Leaves(t, Streamed(st.asKey, keys)), old(st.position), st.Format())
    ensures ok ==>
      st.buffer[..] == PutValue(old(st.buffer[..]), v, t, Streamed(st.asKey, keys), old(st.position), st.Format())
    ensures forall k :: 0 <= k < old(st.position) ==> st.buffer[k] == old(st.buffer[k])
    decreases t, 0
  {
    hide EndPos, LeavesFrom, WordsFrom, Put, PutFrom, PutValue;
    ghost var eff, f, b0, p0 := Streamed(st.asKey, keys), st.Format(), st.buffer[..], st.position;
    ghost var members, depth := t.members, p.rows[root].depth + 1;
    var prop;
    ghost var end, i;
    prop, end, i := FirstEntity(p, root, st.asKey, t, keys);
    WriteStarts(b0, p0, v.fields, members, i, eff, f);
    while prop >= 0
      invariant AtMember(p, prop, end, members, i, depth, keys, eff)
      invariant st.Valid() && st.position <= st.buffer.Length
      invariant WriteProgress(b0, p0, st.buffer[..], st.position, v.fields, members, i, eff, f)
      invariant forall k :: 0 <= k < p0 ==> st.buffer[k] == b0[k]
      decreases |members| - i
    {
      CurrentMember(p, prop, end, members, i, depth, keys, eff);
      var id := p.rows[prop].id;
      ghost var b, pos := st.buffer[..], st.position;
      ok := WriteMember(st, v.fields[id], t.members[id], p, prop, Below(keys, id));
      if !ok {
        WriteStops(b0, p0, b, pos, v.fields, members, i, eff, f, |b|);
        return;
      }
      ghost var j;
      var next;
      next, j := NextEntity(p, prop, st.asKey, end, members, i, depth, keys);
      WriteProceeds(b0, p0, b, pos, st.buffer[..], st.position, v.fields, members, i, j, eff, f);
      prop, i := next, j;
    }
    WriteEnds(b0, p0, st.buffer[..], st.position, v, t, eff, f);
    ok := true;
  }

  method WriteMember(st: CdrStream, v: Value, t: Type, p: Props, prop: int, ghost keys: Keys) returns (ok: bool)
    requires HasType(v, t) && Linked(p) && (t.Struct? ==> Describes(p, prop, t, keys))
    requires st.Valid() && st.position <= st.buffer.Length
    modifies st`position, st`currentAlignment, st.buffer
    ensures st.Valid() && old(st.position) <= st.position <= st.buffer.Length
    ensures ok <==> EndPos(Leaves(t, Streamed(st.asKey, keys)), old(st.position), st.Format()) <= st.buffer.Length
    ensures ok ==> st.position == EndPos(Leaves(t, Streamed(st.asKey, keys)), old(st.position), st.Format())
    ensures ok ==>
      st.buffer[..] == PutValue(old(st.buffer[..]), v, t, Streamed(st.asKey, keys), old(st.position), st.Format())
    ensures forall k :: 0 <= k < old(st.position) ==> st.buffer[k] == old(st.buffer[k])
    decreases t, 1
  {
    match t
    case Primitive(size) =>
      OneLeaf(st.buffer[..], Scalar(size), v.bytes, st.position, st.Format());
      ok := st.WriteLeaf(Scalar(size), v.bytes);
    case CharArray(length) =>
      OneLeaf(st.buffer[..], Chars(length), v.bytes, st.position, st.Format());
      ok := st.WriteLeaf(Chars(length), v.bytes);
    case Struct(_) =>
      ok := Write(st, v, t, p, prop, keys);
  }

  // ----- move and max

  /**
   Moves the cursor as writing would, without a buffer. `max` is the same walk: none of these types
   has a member of variable length, and the maximum of a primitive is its size.
   */
  method Move(st: CdrStream, t: Type, p: Props, root: int, ghost keys: Keys)
    requires t.Struct? && Linked(p) && Describes(p, root, t, keys) && st.Valid()
    modifies st`position, st`currentAlignment
    ensures st.Valid()
    ensures st.position == EndPos(Leaves(t, Streamed(st.asKey, keys)), old(st.position), st.Format())
    decreases t, 0
  {
    ghost var eff, f, p0 := Streamed(st.asKey, keys), st.Format(), st.position;
    ghost var members, depth := t.members, p.rows[root].depth + 1;
    var prop;
    ghost var end, i;
    prop, end, i := FirstEntity(p, root, st.asKey, t, keys);
    SkipLeaves(members, 0, i, eff);
    while prop >= 0
      invariant AtMember(p, prop, end, members, i, depth, keys, eff)
      invariant st.Valid()
      invariant EndPos(LeavesFrom(members, i, eff), st.position, f) == EndPos(LeavesFrom(members, 0, eff), p0, f)
      decreases |members| - i
    {
      CurrentMember(p, prop, end, members, i, depth, keys, eff);
      var id := p.rows[prop].id;
      ghost var pos := st.position;
      MoveMember(st, t.members[id], p, prop, Below(keys, id));
      ghost var j;
      var next;
      next, j := NextEntity(p, prop, st.asKey, end, members, i, depth, keys);
      MemberEnd(members, i, j, eff, pos, f);
      prop, i := next, j;
    }
  }

  method MoveMember(st: CdrStream, t: Type, p: Props, prop: int, ghost keys: Keys)
    requires Linked(p) && (t.Struct? ==> Describes(p, prop, t, keys)) && st.Valid()
    modifies st`position, st`currentAlignment
    ensures st.Valid()
    ensures st.position == EndPos(Leaves(t, Streamed(st.asKey, keys)), old(st.position), st.Format())
    decreases t, 1
  {
    if t.Struct? {
      Move(st, t, p, prop, keys);
    } else {
      EndOfLeaf(t, Streamed(st.asKey, keys), st.position, st.Format());
      st.MoveLeaf(if t.Primitive? then Scalar(t.size) else Chars(t.length));
    }
  }

  lemma EndOfLeaf(t: Type, keys: Keys, pos: nat, f: Format)
    requires !t.Struct?
    ensures EndPos(Leaves(t, keys), pos, f) == LeafAt(Leaves(t, keys)[0], pos, f) + Leaves(t, keys)[0].Width()
  {
    OneLeaf([], Leaves(t, keys)[0], seq(Leaves(t, keys)[0].Width(), _ => 0), pos, f);
  }

  // ----- read

  lemma {:induction false} SkipRead(fields: seq<Value>, members: seq<Type>, i: nat, j: nat, keys: Keys, buf: seq<byte>,
      pos: nat, f: Format)
    requires FieldsHaveType(fields, members) && i <= j <= |members|
    requires forall k | i <= k < j :: !Selects(keys, k)
    ensures ReadFrom(fields, members, i, keys, buf, pos, f)
      == fields[i..j] + ReadFrom(fields, members, j, keys, buf, pos, f)
    decreases j - i
  {
    var rest := ReadFrom(fields, members, j, keys, buf, pos, f);
    if i == j {
      assert fields[i..j] == [] && [] + rest == rest;
    } else {
      assert ReadFrom(fields, members, i, keys, buf, pos, f)
        == [fields[i]] + ReadFrom(fields, members, i + 1, keys, buf, pos, f);
      SkipRead(fields, members, i + 1, j, keys, buf, pos, f);
      Associative([fields[i]], fields[i + 1..j], rest);
      assert fields[i..j] == [fields[i]] + fields[i + 1..j];
    }
  }

  ghost predicate ReadProgress(v: seq<Value>, p0: nat, fields: seq<Value>, pos: nat,
      members: seq<Type>, i: nat, keys: Keys, buf: seq<byte>, f: Format) {
    && FieldsHaveType(v, members) && FieldsHaveType(fields, members) && i <= |members| && p0 <= pos
    && fields[i..] == v[i..]
    && fields[..i] + ReadFrom(v, members, i, keys, buf, pos, f) == ReadFrom(v, members, 0, keys, buf, p0, f)
    && EndPos(LeavesFrom(members, i, keys), pos, f) == EndPos(LeavesFrom(members, 0, keys), p0, f)
  }

  lemma ReadStarts(v: seq<Value>, p0: nat, members: seq<Type>, i: nat, keys: Keys, buf: seq<byte>, f: Format)
    requires FieldsHaveType(v, members) && i <= |members| && forall k | 0 <= k < i :: !Selects(keys, k)
    ensures ReadProgress(v, p0, v, p0, members, i, keys, buf, f)
  {
    SkipLeaves(members, 0, i, keys);
    SkipRead(v, members, 0, i, keys, buf, p0, f);
  }

  lemma ReadProceeds(v: seq<Value>, p0: nat, fields: seq<Value>, pos: nat, pos': nat, members: seq<Type>, i: nat,
      j: nat, keys: Keys, buf: seq<byte>, f: Format)
    requires ReadProgress(v, p0, fields, pos, members, i, keys, buf, f)
    requires i < j <= |members| && Selects(keys, i) && forall k | i < k < j :: !Selects(keys, k)
    requires pos' == EndPos(Leaves(members[i], Below(keys, i)), pos, f)
    ensures fields[i] == v[i]
    ensures var r := ReadValue(v[i], members[i], Below(keys, i), buf, pos, f);
      ReadProgress(v, p0, fields[i := r], pos', members, j, keys, buf, f)
  {
    assert fields[i] == fields[i..][0] == v[i..][0] == v[i];
    var r := ReadValue(v[i], members[i], Below(keys, i), buf, pos, f);
    MemberEnd(members, i, j, keys, pos, f);
    SkipRead(v, members, i + 1, j, keys, buf, pos', f);
    SuffixesAgree(fields, v, i, j, r, ReadFrom(v, members, j, keys, buf, pos', f));
  }

  lemma SuffixesAgree<T>(fields: seq<T>, v: seq<T>, i: nat, j: nat, r: T, rest: seq<T>)
    requires i < j <= |fields| == |v| && fields[i..] == v[i..]
    ensures fields[i := r][j..] == v[j..]
    ensures fields[i := r][..j] + rest == fields[..i] + ([r] + (v[i + 1..j] + rest))
  {
    forall k | i <= k < |v| ensures fields[k] == v[k] {
      assert fields[k] == fields[i..][k - i];
    }
    assert fields[i := r][..j] == fields[..i] + [r] + v[i + 1..j];
  }

  lemma ReadEnds(p0: nat, fields: seq<Value>, pos: nat, v: Value, t: Type, keys: Keys, buf: seq<byte>, f: Format)
    requires t.Struct? && HasType(v, t)
    requires ReadProgress(v.fields, p0, fields, pos, t.members, |t.members|, keys, buf, f)
    ensures pos == EndPos(Leaves(t, keys), p0, f) && HasType(Record(fields), t)
    ensures Record(fields) == ReadValue(v, t, keys, buf, p0, f)
  {
    assert fields[..|t.members|] + [] == fields;
  }

  lemma ReadStops(v: seq<Value>, p0: nat, fields: seq<Value>, pos: nat, members: seq<Type>, i: nat, keys: Keys,
      buf: seq<byte>, f: Format, field: Value, limit: nat)
    requires ReadProgress(v, p0, fields, pos, members, i, keys, buf, f)
    requires i < |members| && Selects(keys, i)
    requires EndPos(Leaves(members[i], Below(keys, i)), pos, f) > limit && HasType(field, members[i])
    ensures EndPos(LeavesFrom(members, 0, keys), p0, f) > limit
    ensures HasType(Record(fields[i := field]), Struct(members))
  {
    MemberEnd(members, i, i + 1, keys, pos, f);
  }

  /** Reads the selected members into a value. */
  method Read(st: CdrStream, v: Value, t: Type, p: Props, root: int, ghost keys: Keys) returns (ok: bool, r: Value)
    requires t.Struct? && HasType(v, t) && Linked(p) && Describes(p, root, t, keys)
    requires st.Valid() && st.position <= st.buffer.Length
    modifies st`position, st`currentAlignment
    ensures st.Valid() && st.position <= st.buffer.Length
    ensures ok <==> EndPos(Leaves(t, Streamed(st.asKey, keys)), old(st.position), st.Format()) <= st.buffer.Length
    ensures ok ==> st.position == EndPos(Leaves(t, Streamed(st.asKey, keys)), old(st.position), st.Format())
    ensures HasType(r, t)
    ensures ok ==> r == ReadValue(v, t, Streamed(st.asKey, keys), st.buffer[..], old(st.position), st.Format())
    decreases t, 0, 1
  {
    hide EndPos, LeavesFrom, ReadFrom, ReadValue;
    ghost var eff, f, buf, p0 := Streamed(st.asKey, keys), st.Format(), st.buffer[..], st.position;
    ghost var members, depth := t.members, p.rows[root].depth + 1;
    var prop;
    ghost var end, i;
    prop, end, i := FirstEntity(p, root, st.asKey, t, keys);
    var fields := v.fields;
    ReadStarts(v.fields, p0, members, i, eff, buf, f);
    while prop >= 0
      invariant AtMember(p, prop, end, members, i, depth, keys, eff)
      invariant st.Valid() && st.position <= st.buffer.Length
      invariant ReadProgress(v.fields, p0, fields, st.position, members, i, eff, buf, f)
      decreases |members| - i
    {
      ghost var pos := st.position;
      var id, field;
      ok, id, field := ReadCurrent(st, fields, t, p, prop, end, i, depth, keys);
      if !ok {
        ReadStops(v.fields, p0, fields, pos, members, i, eff, buf, f, field, |buf|);
        return false, Record(fields[id := field]);
      }
      ghost var j;
      var next;
      next, j := NextEntity(p, prop, st.asKey, end, members, i, depth, keys);
      ReadProceeds(v.fields, p0, fields, pos, st.position, members, i, j, eff, buf, f);
      fields := fields[id := field];
      prop, i := next, j;
    }
    ReadEnds(p0, fields, st.position, v, t, eff, buf, f);
    ok, r := true, Record(fields);
  }

  /** Reads the member whose row the loop stands at. */
  method ReadCurrent(st: CdrStream, fields: seq<Value>, t: Type, p: Props, prop: int,
      ghost end: nat, ghost i: nat, ghost depth: nat, ghost keys: Keys)
    returns (ok: bool, id: nat, r: Value)
    requires t.Struct? && FieldsHaveType(fields, t.members) && Linked(p) && prop >= 0
    requires AtMember(p, prop, end, t.members, i, depth, keys, Streamed(st.asKey, keys))
    requires st.Valid() && st.position <= st.buffer.Length
    modifies st`position, st`currentAlignment
    ensures id == i < |t.members| && Selects(Streamed(st.asKey, keys), i)
    ensures st.Valid() && st.position <= st.buffer.Length
    ensures var end := EndPos(Leaves(t.members[i], Below(Streamed(st.asKey, keys), i)), old(st.position), st.Format());
      ok <==> end <= st.buffer.Length
    ensures ok ==>
      st.position == EndPos(Leaves(t.members[i], Below(Streamed(st.asKey, keys), i)), old(st.position), st.Format())
    ensures HasType(r, t.members[i])
    ensures ok ==> r == ReadValue(fields[i], t.members[i], Below(Streamed(st.asKey, keys), i), st.buffer[..],
      old(st.position), st.Format())
    decreases t, 0, 0
  {
    CurrentMember(p, prop, end, t.members, i, depth, keys, Streamed(st.asKey, keys));
    id := p.rows[prop].id;
    ok, r := ReadMember(st, fields[id], t.members[id], p, prop, Below(keys, id));
  }

  method ReadMember(st: CdrStream, v: Value, t: Type, p: Props, prop: int, ghost keys: Keys)
    returns (ok: bool, r: Value)
    requires HasType(v, t) && Linked(p) && (t.Struct? ==> Describes(p, prop, t, keys))
    requires st.Valid() && st.position <= st.buffer.Length
    modifies st`position, st`currentAlignment
    ensures st.Valid() && st.position <= st.buffer.Length
    ensures ok <==> EndPos(Leaves(t, Streamed(st.asKey, keys)), old(st.position), st.Format()) <= st.buffer.Length
    ensures ok ==> st.position == EndPos(Leaves(t, Streamed(st.asKey, keys)), old(st.position), st.Format())
    ensures HasType(r, t)
    ensures ok ==> r == ReadValue(v, t, Streamed(st.asKey, keys), st.buffer[..], old(st.position), st.Format())
    decreases t, 1
  {
    if t.Struct? {
      ok, r := Read(st, v, t, p, prop, keys);
    } else {
      EndOfLeaf(t, Streamed(st.asKey, keys), st.position, st.Format());
      ok, r := ReadWord(st, v, if t.Primitive? then Scalar(t.size) else Chars(t.length));
    }
  }

  method ReadWord(st: CdrStream, v: Value, l: Leaf) returns (ok: bool, r: Value)
    requires st.Valid() && st.position <= st.buffer.Length && v.Word? && |v.bytes| == l.Width()
    modifies st`position, st`currentAlignment
    ensures st.Valid() && st.position <= st.buffer.Length
    ensures ok <==> LeafAt(l, old(st.position), st.Format()) + l.Width() <= st.buffer.Length
    ensures ok ==> st.position == LeafAt(l, old(st.position), st.Format()) + l.Width()
    ensures r.Word? && |r.bytes| == l.Width()
    ensures ok ==> r == ReadLeafAt(v, l, st.buffer[..], old(st.position), st.Format())
  {
    hide AlignUp, Residue, Wired, LeafAt;
    var w;
    ok, w := st.ReadLeaf(l);
    r := if ok then Word(w) else v;
  }

  // ----- whole instances

  /**
   Writes an instance from the start of the stream, over the table of its type: all of it, or the members of the key
   only. The stream zeroes its padding.
   */
  method WriteInstance(st: CdrStream, v: Value, t: Type, keys: Keys, asKey: bool) returns (ok: bool)
    requires t.Struct? && HasType(v, t)
    modifies st, st.buffer
    ensures st.Valid() && st.position <= st.buffer.Length && st.asKey == asKey
    ensures var f, streamed := Xcdr(st.maxAlignment, st.swap, true), if asKey then keys else Whole;
      && (ok <==> EndPos(Leaves(t, streamed), 0, f) <= st.buffer.Length)
      && (ok ==> st.position == EndPos(Leaves(t, streamed), 0, f))
      && (ok ==> st.buffer[..] == PutValue(old(st.buffer[..]), v, t, streamed, 0, f))
  {
    var props := GetTypeProps(t, keys);
    st.SetMode(asKey);
    ok := Write(st, v, t, props, 0, keys);
  }

  method ReadInstance(st: CdrStream, v: Value, t: Type, keys: Keys, asKey: bool) returns (ok: bool, r: Value)
    requires t.Struct? && HasType(v, t)
    modifies st
    ensures st.Valid() && st.position <= st.buffer.Length && st.asKey == asKey
    ensures HasType(r, t)
    ensures var f, streamed := Xcdr(st.maxAlignment, st.swap, true), if asKey then keys else Whole;
      && (ok <==> EndPos(Leaves(t, streamed), 0, f) <= st.buffer.Length)
      && (ok ==> st.position == EndPos(Leaves(t, streamed), 0, f))
      && (ok ==> r == ReadValue(v, t, streamed, st.buffer[..], 0, f))
  {
    var props := GetTypeProps(t, keys);
    st.SetMode(asKey);
    ok, r := Read(st, v, t, props, 0, keys);
  }

  /** Moves to the position that writing the instance would reach. */
  method MoveInstance(st: CdrStream, t: Type, keys: Keys, asKey: bool)
    requires t.Struct?
    modifies st
    ensures st.Valid()
    ensures st.position
      == EndPos(Leaves(t, if asKey then keys else Whole), 0, Xcdr(st.maxAlignment, st.swap, true))
  {
    var props := GetTypeProps(t, keys);
    st.SetMode(asKey);
    Move(st, t, props, 0, keys);
  }

  /** The bytes streamed do not depend on what the buffer held before. */
  lemma StreamedBytesAreDetermined(a: seq<byte>, b: seq<byte>, v: Value, t: Type, keys: Keys, pos: nat, cap: Alignment,
      swap: bool)
    requires HasType(v, t)
    requires var end := EndPos(Leaves(t, keys), pos, Xcdr(cap, swap, true)); end <= |a| && end <= |b|
    ensures var f := Xcdr(cap, swap, true);
      PutValue(a, v, t, keys, pos, f)[pos..EndPos(Leaves(t, keys), pos, f)]
        == PutValue(b, v, t, keys, pos, f)[pos..EndPos(Leaves(t, keys), pos, f)]
  {
    WordsFit(v, t, keys);
    SpanIsDetermined(a, b, Leaves(t, keys), Words(v, t, keys), pos, Xcdr(cap, swap, true));
  }

  // ----- the round trip

  /** Reading a span that holds the words of `w` overlays `v` with the selected leaves of `w`. */
  lemma {:induction false} ReadFindsWords(v: Value, w: Value, t: Type, keys: Keys, buf: seq<byte>, pos: nat, f: Format)
    requires HasType(v, t) && HasType(w, t) && EndPos(Leaves(t, keys), pos, f) <= |buf|
    requires Get(buf, Leaves(t, keys), pos, f) == Words(w, t, keys)
    ensures ReadValue(v, t, keys, buf, pos, f) == Overlay(v, w, t, keys)
    decreases t, 0
  {
    if t.Struct? {
      ReadFromFindsWords(v.fields, w.fields, t.members, 0, keys, buf, pos, f);
    } else {
      EndOfLeaf(t, keys, pos, f);
    }
  }

  lemma {:induction false} ReadFromFindsWords(v: seq<Value>, w: seq<Value>, members: seq<Type>, i: nat,
      keys: Keys, buf: seq<byte>, pos: nat, f: Format)
    requires FieldsHaveType(v, members) && FieldsHaveType(w, members) && i <= |members|
    requires EndPos(LeavesFrom(members, i, keys), pos, f) <= |buf|
    requires Get(buf, LeavesFrom(members, i, keys), pos, f) == WordsFrom(w, members, i, keys)
    ensures ReadFrom(v, members, i, keys, buf, pos, f) == OverlayFrom(v, w, members, i, keys)
    decreases members, |members| - i
  {
    hide Get, EndPos, Leaves, LeavesFrom, Words, WordsFrom, ReadValue, Overlay;
    if i == |members| {
    } else if Selects(keys, i) {
      MemberWords(w, members, i, keys, buf, pos, f);
      var next := EndPos(Leaves(members[i], Below(keys, i)), pos, f);
      assert ReadValue(v[i], members[i], Below(keys, i), buf, pos, f)
        == Overlay(v[i], w[i], members[i], Below(keys, i)) by {
        ReadFindsWords(v[i], w[i], members[i], Below(keys, i), buf, pos, f);
      }
      assert ReadFrom(v, members, i + 1, keys, buf, next, f) == OverlayFrom(v, w, members, i + 1, keys) by {
        ReadFromFindsWords(v, w, members, i + 1, keys, buf, next, f);
      }
    } else {
      SkipLeaves(members, i, i + 1, keys);
      SkipWords(w, members, i, i + 1, keys);
      ReadFromFindsWords(v, w, members, i + 1, keys, buf, pos, f);
    }
  }

  lemma MemberWords(w: seq<Value>, members: seq<Type>, i: nat, keys: Keys, buf: seq<byte>, pos: nat, f: Format)
    requires FieldsHaveType(w, members) && i < |members| && Selects(keys, i)
    requires EndPos(LeavesFrom(members, i, keys), pos, f) <= |buf|
    requires Get(buf, LeavesFrom(members, i, keys), pos, f) == WordsFrom(w, members, i, keys)
    ensures var next := EndPos(Leaves(members[i], Below(keys, i)), pos, f);
      && next <= EndPos(LeavesFrom(members, i + 1, keys), next, f) <= |buf|
      && Get(buf, Leaves(members[i], Below(keys, i)), pos, f) == Words(w[i], members[i], Below(keys, i))
      && Get(buf, LeavesFrom(members, i + 1, keys), next, f) == WordsFrom(w, members, i + 1, keys)
  {
    var leaves, rest := Leaves(members[i], Below(keys, i)), LeavesFrom(members, i + 1, keys);
    var next := EndPos(leaves, pos, f);
    EndPosAppend(leaves, rest, pos, f);
    GetAppend(buf, leaves, rest, pos, f);
    WordsFit(w[i], members[i], Below(keys, i));
    SplitEqual(Get(buf, leaves, pos, f), Get(buf, rest, next, f),
      Words(w[i], members[i], Below(keys, i)), WordsFrom(w, members, i + 1, keys));
  }

  lemma SplitEqual<T>(a: seq<T>, b: seq<T>, c: seq<T>, d: seq<T>)
    requires a + b == c + d && |a| == |c|
    ensures a == c && b == d
  {
    assert a == (a + b)[..|a|] && c == (c + d)[..|c|];
    assert b == (a + b)[|a|..] && d == (c + d)[|c|..];
  }

  /**
   Writing `w` into any buffer at any offset and reading it back into `v` gives `w` on the leaves
   that were streamed and `v` on the others; outside the span the buffer is untouched.
   */
  lemma RoundTrip(buf: seq<byte>, v: Value, w: Value, t: Type, keys: Keys, pos: nat, f: Format)
    requires HasType(v, t) && HasType(w, t) && EndPos(Leaves(t, keys), pos, f) <= |buf|
    ensures ReadValue(v, t, keys, PutValue(buf, w, t, keys, pos, f), pos, f) == Overlay(v, w, t, keys)
    ensures forall i :: 0 <= i < |buf| && !(pos <= i < EndPos(Leaves(t, keys), pos, f)) ==>
      PutValue(buf, w, t, keys, pos, f)[i] == buf[i]
  {
    WordsFit(w, t, keys);
    GetAfterPut(buf, Leaves(t, keys), Words(w, t, keys), pos, f);
    PutFrame(buf, Leaves(t, keys), Words(w, t, keys), pos, f);
    ReadFindsWords(v, w, t, keys, PutValue(buf, w, t, keys, pos, f), pos, f);
  }

  /** Over all members the value itself comes back. */
  lemma FullRoundTrip(buf: seq<byte>, v: Value, w: Value, t: Type, pos: nat, f: Format)
    requires HasType(v, t) && HasType(w, t) && EndPos(Leaves(t, Whole), pos, f) <= |buf|
    ensures ReadValue(v, t, Whole, PutValue(buf, w, t, Whole, pos, f), pos, f) == w
  {
    RoundTrip(buf, v, w, t, Whole, pos, f);
    OverlayWhole(v, w, t);
  }

  /** Different values never share an encoding. */
  lemma EncodingIsInjective(buf: seq<byte>, v: Value, w: Value, t: Type, pos: nat, f: Format)
    requires HasType(v, t) && HasType(w, t) && EndPos(Leaves(t, Whole), pos, f) <= |buf|
    requires PutValue(buf, v, t, Whole, pos, f) == PutValue(buf, w, t, Whole, pos, f)
    ensures v == w
  {
    FullRoundTrip(buf, v, v, t, pos, f);
    FullRoundTrip(buf, v, w, t, pos, f);
  }
}
