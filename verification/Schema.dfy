/**
 The types the IDL compiler works from: FINAL structs whose members are primitives, fixed character
 arrays or nested structs, the values of such types, and the key endpoints of a topic type.
 */
module Schema {
  import opened Bytes

  datatype Type =
    | Primitive(size: Alignment)
    | CharArray(length: nat)
    | Struct(members: seq<Type>)

  /** A value holds every primitive as the bytes of its in-memory form. */
  datatype Value =
    | Word(bytes: seq<byte>)
    | Record(fields: seq<Value>)

  ghost predicate HasType(v: Value, t: Type) {
    match t
    case Primitive(size) => v.Word? && |v.bytes| == size
    case CharArray(length) => v.Word? && |v.bytes| == length
    case Struct(members) => v.Record? && FieldsHaveType(v.fields, members)
  }

  ghost predicate FieldsHaveType(fields: seq<Value>, members: seq<Type>) {
    |fields| == |members| && forall i | 0 <= i < |members| :: HasType(fields[i], members[i])
  }

  /**
   A tree of key endpoints. `Part` names the members that belong to the key, each with the
   endpoints below it; a member named without endpoints of its own belongs to the key `Whole`.
   */
  datatype Keys = Whole | Part(endpoints: map<nat, Keys>)

  predicate Selects(keys: Keys, id: nat) {
    keys.Whole? || id in keys.endpoints
  }

  function Below(keys: Keys, id: nat): Keys {
    if keys.Part? && id in keys.endpoints then keys.endpoints[id] else
      if keys.Whole? then Whole else Part(map[])
  }

  /** What a streamer puts on the wire in one step: one word, or a run of characters. */
  datatype Leaf = Scalar(size: Alignment) | Chars(length: nat) {
    function Width(): nat {
      if Scalar? then size else length
    }

    function WordSize(): Alignment {
      if Scalar? then size else 1
    }
  }

  /** The selected leaves of a type, by direct recursion over its members in declaration order. */
  ghost function Leaves(t: Type, keys: Keys): seq<Leaf>
    decreases t
  {
    match t
    case Primitive(size) => [Scalar(size)]
    case CharArray(length) => [Chars(length)]
    case Struct(members) => LeavesFrom(members, 0, keys)
  }

  ghost function LeavesFrom(members: seq<Type>, i: nat, keys: Keys): seq<Leaf>
    requires i <= |members|
    decreases members, |members| - i
  {
    if i == |members| then [] else
      (if Selects(keys, i) then Leaves(members[i], Below(keys, i)) else [])
      + LeavesFrom(members, i + 1, keys)
  }

  /** The words of a value that stand at the selected leaves of its type. */
  ghost function Words(v: Value, t: Type, keys: Keys): seq<seq<byte>>
    requires HasType(v, t)
    decreases t
  {
    match t
    case Primitive(_) => [v.bytes]
    case CharArray(_) => [v.bytes]
    case Struct(members) => WordsFrom(v.fields, members, 0, keys)
  }

  ghost function WordsFrom(fields: seq<Value>, members: seq<Type>, i: nat, keys: Keys): seq<seq<byte>>
    requires FieldsHaveType(fields, members) && i <= |members|
    decreases members, |members| - i
  {
    if i == |members| then [] else
      (if Selects(keys, i) then Words(fields[i], members[i], Below(keys, i)) else [])
      + WordsFrom(fields, members, i + 1, keys)
  }

  /** Words that fit the leaves they are meant for. */
  ghost predicate Fit(ws: seq<seq<byte>>, ls: seq<Leaf>) {
    |ws| == |ls| && (ls != [] ==> |ws[0]| == ls[0].Width() && Fit(ws[1..], ls[1..]))
  }

  lemma {:induction false} FitAppend(v: seq<seq<byte>>, a: seq<Leaf>, w: seq<seq<byte>>, b: seq<Leaf>)
    requires Fit(v, a) && Fit(w, b)
    ensures Fit(v + w, a + b)
  {
    if a == [] {
      assert a + b == b && v + w == w;
    } else {
      assert (a + b)[1..] == a[1..] + b && (v + w)[1..] == v[1..] + w;
      FitAppend(v[1..], a[1..], w, b);
    }
  }

  lemma {:induction false} WordsFit(v: Value, t: Type, keys: Keys)
    requires HasType(v, t)
    ensures Fit(Words(v, t, keys), Leaves(t, keys))
    decreases t
  {
    match t
    case Struct(members) => WordsFromFit(v.fields, members, 0, keys);
    case _ =>
  }

  lemma {:induction false} WordsFromFit(fields: seq<Value>, members: seq<Type>, i: nat, keys: Keys)
    requires FieldsHaveType(fields, members) && i <= |members|
    ensures Fit(WordsFrom(fields, members, i, keys), LeavesFrom(members, i, keys))
    decreases members, |members| - i
  {
    if i < |members| {
      WordsFromFit(fields, members, i + 1, keys);
      var ws, ls := WordsFrom(fields, members, i + 1, keys), LeavesFrom(members, i + 1, keys);
      if Selects(keys, i) {
        WordsFit(fields[i], members[i], Below(keys, i));
        FitAppend(Words(fields[i], members[i], Below(keys, i)), Leaves(members[i], Below(keys, i)), ws, ls);
      } else {
        assert [] + ws == ws && [] + ls == ls;
      }
    }
  }

  /** Members that are not selected put nothing on the wire. */
  lemma {:induction false} SkipLeaves(members: seq<Type>, i: nat, j: nat, keys: Keys)
    requires i <= j <= |members|
    requires forall k | i <= k < j :: !Selects(keys, k)
    ensures LeavesFrom(members, i, keys) == LeavesFrom(members, j, keys)
    decreases j - i
  {
    if i < j { SkipLeaves(members, i + 1, j, keys); }
  }

  lemma {:induction false} SkipWords(fields: seq<Value>, members: seq<Type>, i: nat, j: nat, keys: Keys)
    requires FieldsHaveType(fields, members) && i <= j <= |members|
    requires forall k | i <= k < j :: !Selects(keys, k)
    ensures WordsFrom(fields, members, i, keys) == WordsFrom(fields, members, j, keys)
    decreases j - i
  {
    if i < j { SkipWords(fields, members, i + 1, j, keys); }
  }

  /** `v` with the selected leaves replaced by those of `w`. */
  ghost function Overlay(v: Value, w: Value, t: Type, keys: Keys): Value
    requires HasType(v, t) && HasType(w, t)
    decreases t
  {
    match t
    case Primitive(_) => w
    case CharArray(_) => w
    case Struct(members) => Record(OverlayFrom(v.fields, w.fields, members, 0, keys))
  }

  ghost function OverlayFrom(vs: seq<Value>, ws: seq<Value>, members: seq<Type>, i: nat, keys: Keys): seq<Value>
    requires FieldsHaveType(vs, members) && FieldsHaveType(ws, members) && i <= |members|
    decreases members, |members| - i
  {
    if i == |members| then [] else
      [if Selects(keys, i) then Overlay(vs[i], ws[i], members[i], Below(keys, i)) else vs[i]]
      + OverlayFrom(vs, ws, members, i + 1, keys)
  }

  /** Replacing every leaf replaces the value. */
  lemma {:induction false} OverlayWhole(v: Value, w: Value, t: Type)
    requires HasType(v, t) && HasType(w, t)
    ensures Overlay(v, w, t, Whole) == w
    decreases t
  {
    match t
    case Struct(members) => OverlayFromWhole(v.fields, w.fields, members, 0);
    case _ =>
  }

  lemma {:induction false} OverlayFromWhole(vs: seq<Value>, ws: seq<Value>, members: seq<Type>, i: nat)
    requires FieldsHaveType(vs, members) && FieldsHaveType(ws, members) && i <= |members|
    ensures OverlayFrom(vs, ws, members, i, Whole) == ws[i..]
    decreases members, |members| - i
  {
    if i < |members| {
      OverlayWhole(vs[i], ws[i], members[i]);
      OverlayFromWhole(vs, ws, members, i + 1);
    }
  }
}
