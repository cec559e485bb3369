/**
 The flat property table of a type: one row per member, nested members below their parent, with the
 depth of every row and links to the next row of a level and to the first member of a struct.
 */
module PropTable {
  import opened Schema
  import opened Sequences

  datatype Entity = Entity(depth: nat, id: nat, isKey: bool)

  /** The table after `finish`: `-1` stands for a null link. */
  datatype Props = Props(rows: seq<Entity>, next: seq<int>, first: seq<int>)

  // ----- what the table holds, by recursion over the type

  ghost function MemberRows(members: seq<Type>, i: nat, depth: nat, keys: Keys): seq<Entity>
    requires i <= |members|
    decreases members, |members| - i
  {
    if i == |members| then [] else
      [Entity(depth, i, Selects(keys, i))]
      + SubRows(members[i], depth + 1, Below(keys, i))
      + MemberRows(members, i + 1, depth, keys)
  }

  ghost function SubRows(t: Type, depth: nat, keys: Keys): seq<Entity>
    decreases t
  {
    if t.Struct? then MemberRows(t.members, 0, depth, keys) else []
  }

  ghost function TableRows(t: Type, keys: Keys): seq<Entity> {
    [Entity(0, 0, false)] + SubRows(t, 1, keys)
  }

  lemma {:induction false} MemberRowsAreDeep(members: seq<Type>, i: nat, depth: nat, keys: Keys)
    requires i <= |members|
    ensures forall e | e in MemberRows(members, i, depth, keys) :: e.depth >= depth
    decreases members, |members| - i
  {
    if i < |members| {
      SubRowsAreDeep(members[i], depth + 1, Below(keys, i));
      MemberRowsAreDeep(members, i + 1, depth, keys);
    }
  }

  lemma {:induction false} SubRowsAreDeep(t: Type, depth: nat, keys: Keys)
    ensures forall e | e in SubRows(t, depth, keys) :: e.depth >= depth
    decreases t
  {
    if t.Struct? { MemberRowsAreDeep(t.members, 0, depth, keys); }
  }

  // ----- building the rows

  ghost function Raised(rows: seq<Entity>, raise: nat): (r: seq<Entity>)
    ensures |r| == |rows|
  {
    seq(|rows|, i requires 0 <= i < |rows| => rows[i].(depth := rows[i].depth + raise))
  }

  lemma RaisedAppend(a: seq<Entity>, b: seq<Entity>, raise: nat)
    ensures Raised(a + b, raise) == Raised(a, raise) + Raised(b, raise)
  {}

  lemma {:induction false} MemberRowsRaised(members: seq<Type>, i: nat, depth: nat, raise: nat, keys: Keys)
    requires i <= |members|
    ensures Raised(MemberRows(members, i, depth, keys), raise) == MemberRows(members, i, depth + raise, keys)
    decreases members, |members| - i
  {
    if i < |members| {
      var head := [Entity(depth, i, Selects(keys, i))];
      var sub := SubRows(members[i], depth + 1, Below(keys, i));
      SubRowsRaised(members[i], depth + 1, raise, Below(keys, i));
      MemberRowsRaised(members, i + 1, depth, raise, keys);
      RaisedAppend(head, sub, raise);
      RaisedAppend(head + sub, MemberRows(members, i + 1, depth, keys), raise);
      assert Raised(head, raise) == [Entity(depth + raise, i, Selects(keys, i))];
    }
  }

  lemma {:induction false} SubRowsRaised(t: Type, depth: nat, raise: nat, keys: Keys)
    ensures Raised(SubRows(t, depth, keys), raise) == SubRows(t, depth + raise, keys)
    decreases t
  {
    if t.Struct? { MemberRowsRaised(t.members, 0, depth, raise, keys); }
  }

  /** Puts the rows of a struct, without its root, below the last row of a table. */
  method AppendStructContents(rows: seq<Entity>, contents: seq<Entity>) returns (r: seq<Entity>)
    requires |rows| > 0 && |contents| > 0
    ensures r == rows + Raised(contents[1..], rows[|rows| - 1].depth)
  {
    var base := rows[|rows| - 1].depth;
    r := rows;
    for i := 1 to |contents|
      invariant r == rows + Raised(contents[1..i], base)
    {
      assert contents[1..i + 1] == contents[1..i] + [contents[i]];
      r := r + [contents[i].(depth := contents[i].depth + base)];
    }
    assert contents[1..|contents|] == contents[1..];
  }

  // ----- links

  /** The first row from `j` on that is not deeper than `depth`, if it has that depth. */
  ghost function Seek(rows: seq<Entity>, j: nat, depth: nat): int
    decreases |rows| - j
  {
    if j >= |rows| || rows[j].depth < depth then -1
    else if rows[j].depth == depth then j
    else Seek(rows, j + 1, depth)
  }

  ghost function NextOnLevel(rows: seq<Entity>, i: nat): int
    requires i < |rows|
  {
    Seek(rows, i + 1, rows[i].depth)
  }

  ghost function FirstMember(rows: seq<Entity>, i: nat): int
    requires i < |rows|
  {
    if i + 1 < |rows| && rows[i + 1].depth == rows[i].depth + 1 then i + 1 else -1
  }

  ghost predicate Linked(p: Props) {
    && |p.next| == |p.first| == |p.rows|
    && forall i | 0 <= i < |p.rows| :: p.next[i] == NextOnLevel(p.rows, i) && p.first[i] == FirstMember(p.rows, i)
  }

  /** Sets the links of every row. */
  method Link(rows: seq<Entity>) returns (p: Props)
    ensures p.rows == rows && Linked(p)
  {
    var next, first: seq<int> := [], [];
    for i := 0 to |rows|
      invariant |next| == |first| == i
      invariant forall k | 0 <= k < i :: next[k] == NextOnLevel(rows, k) && first[k] == FirstMember(rows, k)
    {
      var j := i + 1;
      while j < |rows| && rows[j].depth > rows[i].depth
        invariant i < j <= |rows|
        invariant Seek(rows, j, rows[i].depth) == NextOnLevel(rows, i)
      {
        j := j + 1;
      }
      next := next + [if j < |rows| && rows[j].depth == rows[i].depth then j else -1];
      first := first + [if i + 1 < |rows| && rows[i + 1].depth == rows[i].depth + 1 then i + 1 else -1];
    }
    p := Props(rows, next, first);
  }

  /** The rows from `at` to `end` are those of the members from number `i` on. */
  ghost predicate Tail(p: Props, at: int, end: nat, members: seq<Type>, i: nat, depth: nat, keys: Keys) {
    && 0 <= at <= end <= |p.rows| && i <= |members|
    && p.rows[at..end] == MemberRows(members, i, depth, keys)
    && (end < |p.rows| ==> p.rows[end].depth < depth)
  }

  /** The rows below `root` are those of the members of `t`. */
  ghost predicate Describes(p: Props, root: int, t: Type, keys: Keys) {
    && 0 <= root < |p.rows| && t.Struct?
    && Tail(p, root + 1, root + 1 + |SubRows(t, p.rows[root].depth + 1, keys)|, t.members, 0,
      p.rows[root].depth + 1, keys)
  }

  ghost function AfterMember(at: nat, members: seq<Type>, i: nat, depth: nat, keys: Keys): nat
    requires i < |members|
  {
    at + 1 + |SubRows(members[i], depth + 1, Below(keys, i))|
  }

  lemma {:induction false} SeekSkipsDeeper(rows: seq<Entity>, j: nat, k: nat, depth: nat)
    requires j <= k <= |rows|
    requires forall e | e in rows[j..k] :: e.depth > depth
    ensures Seek(rows, j, depth) == Seek(rows, k, depth)
    decreases k - j
  {
    if j < k {
      assert rows[j] == rows[j..k][0];
      assert rows[j + 1..k] == rows[j..k][1..];
      SeekSkipsDeeper(rows, j + 1, k, depth);
    }
  }

  lemma SliceOfSlice<T>(s: seq<T>, at: nat, end: nat, i: nat, j: nat)
    requires at <= end <= |s| && i <= j <= end - at
    ensures s[at..end][i..j] == s[at + i..at + j]
  {
    var l, r := s[at..end][i..j], s[at + i..at + j];
    forall k | 0 <= k < j - i ensures l[k] == r[k] {
      assert l[k] == s[at..end][i + k];
    }
  }

  lemma SplitSpan<T>(s: seq<T>, at: nat, end: nat, a: seq<T>, b: seq<T>, c: seq<T>)
    requires at <= end <= |s| && s[at..end] == a + b + c
    ensures end == at + |a| + |b| + |c|
    ensures s[at..at + |a|] == a
    ensures s[at + |a|..at + |a| + |b|] == b
    ensures s[at + |a| + |b|..end] == c
  {
    var t := s[at..end];
    assert t[..|a|] == a && t[|a|..|a| + |b|] == b && t[|a| + |b|..] == c;
    SliceOfSlice(s, at, end, 0, |a|);
    SliceOfSlice(s, at, end, |a|, |a| + |b|);
    SliceOfSlice(s, at, end, |a| + |b|, |t|);
  }

  lemma MemberRowsParts(p: Props, at: int, end: nat, members: seq<Type>, i: nat, depth: nat, keys: Keys)
    requires Tail(p, at, end, members, i, depth, keys) && i < |members|
    ensures AfterMember(at, members, i, depth, keys) <= end
    ensures p.rows[at] == Entity(depth, i, Selects(keys, i))
    ensures p.rows[at + 1..AfterMember(at, members, i, depth, keys)] == SubRows(members[i], depth + 1, Below(keys, i))
    ensures p.rows[AfterMember(at, members, i, depth, keys)..end] == MemberRows(members, i + 1, depth, keys)
  {
    var head := [Entity(depth, i, Selects(keys, i))];
    SplitSpan(p.rows, at, end, head, SubRows(members[i], depth + 1, Below(keys, i)),
      MemberRows(members, i + 1, depth, keys));
    assert p.rows[at] == p.rows[at..at + 1][0];
  }

  lemma SubRowsOfStruct(t: Type, depth: nat, keys: Keys)
    requires t.Struct?
    ensures SubRows(t, depth, keys) == MemberRows(t.members, 0, depth, keys)
  {}

  /** Behind the rows of a member comes the row of the next one, or a row above its level, or the end. */
  lemma RowBehind(p: Props, at: int, end: nat, members: seq<Type>, i: nat, depth: nat, keys: Keys)
    requires Tail(p, at, end, members, i, depth, keys) && i < |members|
    ensures var after := AfterMember(at, members, i, depth, keys);
      && after <= end && (i + 1 == |members| <==> after == end)
      && (after < end ==> p.rows[after].depth == depth)
      && (after < |p.rows| ==> p.rows[after].depth <= depth && (after == end ==> p.rows[after].depth < depth))
      && Tail(p, after, end, members, i + 1, depth, keys)
  {
    MemberRowsParts(p, at, end, members, i, depth, keys);
    if i + 1 < |members| {
      MemberRowsParts(p, AfterMember(at, members, i, depth, keys), end, members, i + 1, depth, keys);
    }
  }

  lemma SeekSibling(p: Props, at: int, end: nat, members: seq<Type>, i: nat, depth: nat, keys: Keys)
    requires Tail(p, at, end, members, i, depth, keys) && i < |members|
    ensures Seek(p.rows, at + 1, depth) == if i + 1 < |members| then AfterMember(at, members, i, depth, keys) else -1
  {
    hide MemberRows, SubRows, Tail;
    TailRange(p, at, end, members, i, depth, keys);
    var after := AfterMember(at, members, i, depth, keys);
    RowBehind(p, at, end, members, i, depth, keys);
    MemberRowsParts(p, at, end, members, i, depth, keys);
    SubRowsAreDeep(members[i], depth + 1, Below(keys, i));
    SeekSkipsDeeper(p.rows, at + 1, after, depth);
  }

  lemma TailRange(p: Props, at: int, end: nat, members: seq<Type>, i: nat, depth: nat, keys: Keys)
    requires Tail(p, at, end, members, i, depth, keys)
    ensures 0 <= at <= end <= |p.rows| && i <= |members| && (i == |members| ==> at == end)
  {}

  lemma RowsOfNested(p: Props, at: int, end: nat, members: seq<Type>, i: nat, depth: nat, keys: Keys)
    requires Tail(p, at, end, members, i, depth, keys) && i < |members| && members[i].Struct?
    ensures 0 <= at < |p.rows| && Describes(p, at, members[i], Below(keys, i))
  {
    MemberRowsParts(p, at, end, members, i, depth, keys);
    RowBehind(p, at, end, members, i, depth, keys);
    SubRowsOfStruct(members[i], depth + 1, Below(keys, i));
  }

  lemma LinkOfRow(p: Props, at: int)
    requires Linked(p) && 0 <= at < |p.rows|
    ensures at < |p.next| && p.next[at] == Seek(p.rows, at + 1, p.rows[at].depth)
  {}

  /** What the row of a member says, and where the row of its next sibling is. */
  lemma MemberAt(p: Props, at: int, end: nat, members: seq<Type>, i: nat, depth: nat, keys: Keys)
    requires Linked(p) && Tail(p, at, end, members, i, depth, keys) && i < |members|
    ensures 0 <= at < |p.rows| && p.rows[at] == Entity(depth, i, Selects(keys, i)) && at < |p.next|
    ensures Tail(p, AfterMember(at, members, i, depth, keys), end, members, i + 1, depth, keys)
    ensures p.next[at] == if i + 1 < |members| then AfterMember(at, members, i, depth, keys) else -1
    ensures p.rows[at].isKey <==> keys.Whole? || i in keys.endpoints
    ensures members[i].Struct? ==> Describes(p, at, members[i], Below(keys, i))
    ensures members[i].Struct? && p.rows[at].isKey ==>
      Describes(p, at, members[i], if keys.Whole? then Whole else keys.endpoints[i])
  {
    hide MemberRows, SubRows, Tail, Linked, Describes;
    TailRange(p, at, end, members, i, depth, keys);
    MemberRowsParts(p, at, end, members, i, depth, keys);
    LinkOfRow(p, at);
    SeekSibling(p, at, end, members, i, depth, keys);
    RowBehind(p, at, end, members, i, depth, keys);
    if members[i].Struct? { RowsOfNested(p, at, end, members, i, depth, keys); }
  }

  /** The first row below a root. */
  lemma FirstAt(p: Props, root: int, t: Type, keys: Keys)
    requires Linked(p) && Describes(p, root, t, keys)
    ensures p.first[root] == if |t.members| > 0 then root + 1 else -1
  {
    if |t.members| > 0 {
      MemberAt(p, root + 1, root + 1 + |SubRows(t, p.rows[root].depth + 1, keys)|, t.members, 0,
        p.rows[root].depth + 1, keys);
    }
  }

  // ----- key flags

  /** No key at all. */
  const NO_KEY: Keys := Part(map[])

  ghost function Unflagged(rows: seq<Entity>): (r: seq<Entity>)
    ensures |r| == |rows|
    ensures forall i :: 0 <= i < |rows| ==> r[i].depth == rows[i].depth && r[i].id == rows[i].id && !r[i].isKey
  {
    seq(|rows|, i requires 0 <= i < |rows| => rows[i].(isKey := false))
  }

  lemma UnflaggedAppend(a: seq<Entity>, b: seq<Entity>)
    ensures Unflagged(a + b) == Unflagged(a) + Unflagged(b)
  {}

  lemma {:induction false} MemberRowsUnflagged(members: seq<Type>, i: nat, depth: nat, keys: Keys)
    requires i <= |members|
    ensures Unflagged(MemberRows(members, i, depth, keys)) == MemberRows(members, i, depth, NO_KEY)
    decreases members, |members| - i
  {
    if i < |members| {
      var head := [Entity(depth, i, Selects(keys, i))];
      var sub := SubRows(members[i], depth + 1, Below(keys, i));
      SubRowsUnflagged(members[i], depth + 1, Below(keys, i));
      MemberRowsUnflagged(members, i + 1, depth, keys);
      UnflaggedAppend(head, sub);
      UnflaggedAppend(head + sub, MemberRows(members, i + 1, depth, keys));
      assert Unflagged(head) == [Entity(depth, i, false)];
    }
  }

  lemma {:induction false} SubRowsUnflagged(t: Type, depth: nat, keys: Keys)
    ensures Unflagged(SubRows(t, depth, keys)) == SubRows(t, depth, NO_KEY)
    decreases t
  {
    if t.Struct? { MemberRowsUnflagged(t.members, 0, depth, keys); }
  }

  lemma {:induction false} SeekIgnoresFlags(a: seq<Entity>, b: seq<Entity>, j: nat, depth: nat)
    requires Unflagged(a) == Unflagged(b)
    ensures Seek(a, j, depth) == Seek(b, j, depth)
    decreases |a| - j
  {
    assert |a| == |Unflagged(a)| == |Unflagged(b)| == |b|;
    if j < |a| {
      assert a[j].depth == Unflagged(a)[j].depth == b[j].depth;
      SeekIgnoresFlags(a, b, j + 1, depth);
    }
  }

  /** Links hold whatever the flags are. */
  lemma LinksIgnoreFlags(p: Props, rows: seq<Entity>)
    requires Linked(p) && Unflagged(p.rows) == Unflagged(rows)
    ensures Linked(p.(rows := rows))
  {
    assert |rows| == |Unflagged(rows)| == |p.rows|;
    forall i | 0 <= i < |rows|
      ensures NextOnLevel(p.rows, i) == NextOnLevel(rows, i) && FirstMember(p.rows, i) == FirstMember(rows, i)
    {
      forall k | 0 <= k < |rows| ensures p.rows[k].depth == rows[k].depth {
        assert p.rows[k].depth == Unflagged(p.rows)[k].depth == Unflagged(rows)[k].depth;
      }
      SeekIgnoresFlags(p.rows, rows, i + 1, p.rows[i].depth);
    }
  }

  /** How far flagging the members of one level has come. */
  ghost predicate Flagging(rows: seq<Entity>, r: seq<Entity>, start: nat, at: nat, members: seq<Type>, i: nat,
      depth: nat, keys: Keys)
  {
    && |r| == |rows| && start <= at <= |r| && i <= |members|
    && r[..start] == rows[..start] && r[at..] == rows[at..]
    && r[start..at] + MemberRows(members, i, depth, keys) == MemberRows(members, 0, depth, keys)
  }

  lemma FlagsOne(rows: seq<Entity>, r: seq<Entity>, r': seq<Entity>, start: nat, at: nat, after: nat,
      members: seq<Type>, i: nat, depth: nat, keys: Keys)
    requires Flagging(rows, r, start, at, members, i, depth, keys) && i < |members|
    requires at < after <= |r| == |r'| && r'[..at] == r[..at] && r'[after..] == r[after..]
    requires r'[at..after] == [Entity(depth, i, Selects(keys, i))] + SubRows(members[i], depth + 1, Below(keys, i))
    ensures Flagging(rows, r', start, after, members, i + 1, depth, keys)
  {
    var head := [Entity(depth, i, Selects(keys, i))] + SubRows(members[i], depth + 1, Below(keys, i));
    var tail := MemberRows(members, i + 1, depth, keys);
    assert MemberRows(members, i, depth, keys) == head + tail;
    Associative(r[start..at], head, tail);
    Spliced(r, r', start, at, after);
    assert r'[..start] == r'[..at][..start];
    assert r'[after..] == r[at..][after - at..] == rows[at..][after - at..];
  }

  lemma Spliced<T>(r: seq<T>, r': seq<T>, start: nat, at: nat, after: nat)
    requires start <= at <= after <= |r| == |r'| && r'[..at] == r[..at]
    ensures r'[start..after] == r[start..at] + r'[at..after]
  {
    forall k | start <= k < at ensures r'[k] == r[k] {
      assert r'[k] == r'[..at][k];
    }
  }

  lemma FlagKept(rows: seq<Entity>, at: nat, flag: bool)
    requires at < |rows|
    ensures Unflagged(rows[at := rows[at].(isKey := flag)]) == Unflagged(rows)
  {}

  /** The row of a member, and the rows below it, once they are flagged. */
  lemma MemberFlagged(r: seq<Entity>, at: nat, after: nat, t: Type, i: nat, depth: nat, keys: Keys)
    requires at < after <= |r| && r[at] == Entity(depth, i, Selects(keys, i))
    requires r[at + 1..after] == SubRows(t, depth + 1, Below(keys, i))
    ensures r[at..after] == [Entity(depth, i, Selects(keys, i))] + SubRows(t, depth + 1, Below(keys, i))
  {
    assert r[at..after] == [r[at]] + r[at + 1..after];
  }

  /**
   Sets the flags of the members of one level from its key endpoints, and those of nested members
   from the endpoints below.
   */
  method SetKeyValues(rows: seq<Entity>, next: seq<int>, first: seq<int>, prop: int, keys: Keys,
      ghost q: Props, ghost start: nat, ghost end: nat, ghost members: seq<Type>, ghost depth: nat)
    returns (r: seq<Entity>)
    requires Linked(q) && q == Props(Unflagged(rows), next, first)
    requires Tail(q, start, end, members, 0, depth, NO_KEY)
    requires prop == if |members| > 0 then start else -1
    ensures Unflagged(r) == Unflagged(rows) && |r| == |rows|
    ensures r[..start] == rows[..start] && r[end..] == rows[end..]
    ensures r[start..end] == MemberRows(members, 0, depth, keys)
    decreases members, 1
  {
    hide MemberRows, SubRows, Linked, Tail, Unflagged, Flagging;
    TailFits(q, start, end, members, 0, depth);
    LinksFit(q);
    FlagsNone(rows, start, members, depth, keys);
    r := rows;
    var at := prop;
    ghost var i, pos := 0, start;
    while at >= 0
      invariant i <= |members| && Tail(q, pos, end, members, i, depth, NO_KEY)
      invariant at == if i < |members| then pos else -1
      invariant Flagging(rows, r, start, pos, members, i, depth, keys)
      invariant Unflagged(r) == Unflagged(rows)
      decreases |members| - i
    {
      ghost var before, after := r, AfterMember(pos, members, i, depth, NO_KEY);
      MemberAt(q, pos, end, members, i, depth, NO_KEY);
      r := SetKeyValue(r, next, first, at, keys, q, after, end, members, i, depth);
      FlagsOne(rows, before, r, start, pos, after, members, i, depth, keys);
      at, i, pos := next[at], i + 1, after;
    }
    TailFits(q, pos, end, members, i, depth);
    FlagsAll(rows, r, start, end, members, depth, keys);
  }

  lemma TailFits(p: Props, at: int, end: nat, members: seq<Type>, i: nat, depth: nat)
    requires Tail(p, at, end, members, i, depth, NO_KEY)
    ensures 0 <= at <= end <= |p.rows| && i <= |members| && (i == |members| ==> at == end)
  {}

  lemma FlagsNone(rows: seq<Entity>, start: nat, members: seq<Type>, depth: nat, keys: Keys)
    requires start <= |rows|
    ensures Flagging(rows, rows, start, start, members, 0, depth, keys)
  {
    assert rows[start..start] + MemberRows(members, 0, depth, keys) == MemberRows(members, 0, depth, keys);
  }

  lemma FlagsAll(rows: seq<Entity>, r: seq<Entity>, start: nat, end: nat, members: seq<Type>, depth: nat, keys: Keys)
    requires Flagging(rows, r, start, end, members, |members|, depth, keys)
    ensures |r| == |rows| && start <= end <= |r| && r[..start] == rows[..start] && r[end..] == rows[end..]
    ensures r[start..end] == MemberRows(members, 0, depth, keys)
  {
    assert r[start..end] + [] == r[start..end];
  }

  method SetKeyValue(rows: seq<Entity>, next: seq<int>, first: seq<int>, at: int, keys: Keys,
      ghost q: Props, ghost after: nat, ghost end: nat, ghost members: seq<Type>, ghost i: nat, ghost depth: nat)
    returns (r: seq<Entity>)
    requires Linked(q) && q == Props(Unflagged(rows), next, first)
    requires Tail(q, at, end, members, i, depth, NO_KEY) && i < |members|
      && after == AfterMember(at, members, i, depth, NO_KEY)
    ensures at < after <= |r| == |rows| && Unflagged(r) == Unflagged(rows)
    ensures r[..at] == rows[..at] && r[after..] == rows[after..]
    ensures r[at..after] == [Entity(depth, i, Selects(keys, i))] + SubRows(members[i], depth + 1, Below(keys, i))
    decreases members, 0
  {
    hide MemberRows, SubRows, Linked, Tail, Describes, Unflagged;
    MemberAt(q, at, end, members, i, depth, NO_KEY);
    LinksFit(q);
    var id := rows[at].id;
    var flag := Selects(keys, id);
    FlagKept(rows, at, flag);
    r := rows[at := rows[at].(isKey := flag)];
    SubRowsUnflagged(members[i], depth + 1, Below(keys, i));
    if first[at] >= 0 {
      ghost var flagged := r;
      RowsBelow(q, at, end, members, i, depth);
      r := SetKeyValues(r, next, first, first[at], Below(keys, id), q, at + 1, after, members[i].members, depth + 1);
      SubRowsOfStruct(members[i], depth + 1, Below(keys, i));
      Kept(flagged, r, at);
    } else {
      NothingBelow(q, at, end, members, i, depth);
    }
    MemberFlagged(r, at, after, members[i], i, depth, keys);
  }

  lemma LinksFit(p: Props)
    requires Linked(p)
    ensures |p.next| == |p.first| == |p.rows|
  {}

  lemma Kept<T>(a: seq<T>, b: seq<T>, at: nat)
    requires at < |a| == |b| && b[..at + 1] == a[..at + 1]
    ensures b[at] == a[at] && b[..at] == a[..at]
  {
    assert b[at] == b[..at + 1][at] == a[..at + 1][at];
    assert b[..at] == b[..at + 1][..at] == a[..at + 1][..at];
  }

  /** A row with a first member is that of a struct with members, whose rows follow it. */
  lemma RowsBelow(q: Props, at: nat, end: nat, members: seq<Type>, i: nat, depth: nat)
    requires Linked(q) && Tail(q, at, end, members, i, depth, NO_KEY) && i < |members| && at < |q.first|
      && q.first[at] >= 0
    ensures members[i].Struct? && |members[i].members| > 0 && q.first[at] == at + 1
    ensures Tail(q, at + 1, AfterMember(at, members, i, depth, NO_KEY), members[i].members, 0, depth + 1, NO_KEY)
  {
    var after := AfterMember(at, members, i, depth, NO_KEY);
    MemberAt(q, at, end, members, i, depth, NO_KEY);
    if |SubRows(members[i], depth + 1, NO_KEY)| == 0 && after < end {
      MemberRowsParts(q, at, end, members, i, depth, NO_KEY);
      assert false;
    }
  }

  lemma NothingBelow(q: Props, at: nat, end: nat, members: seq<Type>, i: nat, depth: nat)
    requires Linked(q) && Tail(q, at, end, members, i, depth, NO_KEY) && i < |members| && at < |q.first|
      && q.first[at] < 0
    ensures SubRows(members[i], depth + 1, NO_KEY) == []
  {
    MemberAt(q, at, end, members, i, depth, NO_KEY);
    if members[i].Struct? { FirstAt(q, at, members[i], NO_KEY); }
  }

  // ----- the table of a type

  lemma UnflaggedTwice(rows: seq<Entity>)
    ensures Unflagged(Unflagged(rows)) == Unflagged(rows)
  {}

  lemma TableDescribes(p: Props, t: Type, keys: Keys)
    requires t.Struct? && p.rows == TableRows(t, keys)
    ensures Describes(p, 0, t, keys)
  {
    assert p.rows[1..1 + |SubRows(t, 1, keys)|] == SubRows(t, 1, keys);
  }

  /** Pushes the row of one member, and below it the finished table of its own type. */
  method AppendMember(rows: seq<Entity>, t: Type, id: nat) returns (r: seq<Entity>)
    ensures rows <= r
    ensures Unflagged(r) == Unflagged(rows) + [Entity(1, id, false)] + SubRows(t, 2, NO_KEY)
    decreases t, 1
  {
    hide SubRows, Unflagged, Raised;
    r := rows + [Entity(1, id, false)];
    PlainRow(rows, 1, id);
    if t.Struct? {
      var contents := GetTypeProps(t, Whole);
      RowsOfContents(r, contents.rows, t);
      r := AppendStructContents(r, contents.rows);
    } else {
      NoRowsOfWord(t);
    }
  }

  lemma PlainRow(rows: seq<Entity>, depth: nat, id: nat)
    ensures Unflagged(rows + [Entity(depth, id, false)]) == Unflagged(rows) + [Entity(depth, id, false)]
  {}

  lemma NoRowsOfWord(t: Type)
    requires !t.Struct?
    ensures SubRows(t, 2, NO_KEY) == []
  {}

  /** The rows of a finished table, put below a row of depth one. */
  lemma RowsOfContents(rows: seq<Entity>, contents: seq<Entity>, t: Type)
    requires contents == TableRows(t, Whole)
    ensures Unflagged(rows + Raised(contents[1..], 1)) == Unflagged(rows) + SubRows(t, 2, NO_KEY)
  {
    var below := contents[1..];
    assert below == SubRows(t, 1, Whole);
    UnflaggedAppend(rows, Raised(below, 1));
    SubRowsUnflagged(t, 1, Whole);
    SubRowsRaised(t, 1, 1, NO_KEY);
    assert Unflagged(Raised(below, 1)) == Raised(Unflagged(below), 1);
  }

  /** The rows of a type in declaration order, with whatever flags nested tables brought along. */
  method BuildRows(t: Type) returns (rows: seq<Entity>)
    requires t.Struct?
    ensures Unflagged(rows) == TableRows(t, NO_KEY) && [Entity(0, 0, false)] <= rows
    decreases t, 0, 1
  {
    rows := [Entity(0, 0, false)];
    assert Unflagged(rows) == rows;
    for i := 0 to |t.members|
      invariant Unflagged(rows) + MemberRows(t.members, i, 1, NO_KEY) == TableRows(t, NO_KEY)
        && [Entity(0, 0, false)] <= rows
    {
      ghost var before := rows;
      rows := AppendMember(rows, t.members[i], i);
      ghost var head, sub := [Entity(1, i, false)], SubRows(t.members[i], 2, NO_KEY);
      assert MemberRows(t.members, i, 1, NO_KEY) == head + sub + MemberRows(t.members, i + 1, 1, NO_KEY);
      Associative(Unflagged(before), head + sub, MemberRows(t.members, i + 1, 1, NO_KEY));
      Associative(Unflagged(before), head, sub);
    }
  }

  /** The finished table of a type: rows, links, and flags from its own key endpoints. */
  method GetTypeProps(t: Type, keys: Keys) returns (p: Props)
    requires t.Struct?
    ensures Linked(p) && Describes(p, 0, t, keys) && p.rows == TableRows(t, keys)
    decreases t, 0, 2
  {
    var rows := BuildRows(t);
    var links := Link(rows);
    ghost var q := Props(Unflagged(rows), links.next, links.first);
    UnflaggedTwice(rows);
    LinksIgnoreFlags(links, Unflagged(rows));
    TableDescribes(q, t, NO_KEY);
    FirstAt(q, 0, t, NO_KEY);
    var flagged := SetKeyValues(rows, links.next, links.first, links.first[0], keys, q, 1, |rows|, t.members, 1);
    p := Props(flagged, links.next, links.first);
    LinksIgnoreFlags(links, flagged);
    FinishedRows(rows, flagged, t, keys);
    TableDescribes(p, t, keys);
  }

  lemma FinishedRows(rows: seq<Entity>, flagged: seq<Entity>, t: Type, keys: Keys)
    requires t.Struct? && [Entity(0, 0, false)] <= rows && |flagged| == |rows|
    requires flagged[..1] == rows[..1] && flagged[1..|rows|] == MemberRows(t.members, 0, 1, keys)
    ensures flagged == TableRows(t, keys)
  {
    assert flagged == flagged[..1] + flagged[1..|rows|];
  }

  // ----- iteration

  /** In key mode only the key members are streamed. */
  function Streamed(asKey: bool, keys: Keys): Keys {
    if asKey then keys else Whole
  }

  /** The iteration stands at the row of member `i`, which is streamed, or has come to the end. */
  ghost predicate AtMember(p: Props, prop: int, end: nat, members: seq<Type>, i: nat, depth: nat, keys: Keys,
      streamed: Keys)
  {
    && i <= |members|
    && if i < |members| then Tail(p, prop, end, members, i, depth, keys) && Selects(streamed, i) else prop == -1
  }

  /** What the generated switch needs to know of the row it stands at. */
  lemma CurrentMember(p: Props, prop: int, end: nat, members: seq<Type>, i: nat, depth: nat, keys: Keys, streamed: Keys)
    requires Linked(p) && AtMember(p, prop, end, members, i, depth, keys, streamed) && prop >= 0
    ensures i < |members| && Selects(streamed, i) && prop < |p.rows| && p.rows[prop].id == i
    ensures members[i].Struct? ==> Describes(p, prop, members[i], Below(keys, i))
  {
    MemberAt(p, prop, end, members, i, depth, keys);
  }

  /** A row at which the iteration may stand: that of member `i`, or none behind the last member. */
  ghost predicate RowOf(p: Props, prop: int, end: nat, members: seq<Type>, i: nat, depth: nat, keys: Keys) {
    && i <= |members| && -1 <= prop < |p.rows|
    && (if i < |members| then Tail(p, prop, end, members, i, depth, keys) else prop == -1)
    && (prop >= 0 ==> i < |members| && p.rows[prop].id == i && p.rows[prop].isKey == Selects(keys, i))
  }

  lemma RowOfMember(p: Props, prop: int, end: nat, members: seq<Type>, i: nat, depth: nat, keys: Keys)
    requires Linked(p) && i <= |members|
    requires if i < |members| then Tail(p, prop, end, members, i, depth, keys) else prop == -1
    ensures RowOf(p, prop, end, members, i, depth, keys)
  {
    if i < |members| { MemberAt(p, prop, end, members, i, depth, keys); }
  }

  /** The sibling link leads to the row of the next member. */
  lemma NextRowOf(p: Props, prop: int, end: nat, members: seq<Type>, i: nat, depth: nat, keys: Keys)
    requires Linked(p) && prop >= 0 && RowOf(p, prop, end, members, i, depth, keys)
    ensures i < |members| && prop < |p.next| && RowOf(p, p.next[prop], end, members, i + 1, depth, keys)
  {
    MemberAt(p, prop, end, members, i, depth, keys);
    RowOfMember(p, p.next[prop], end, members, i + 1, depth, keys);
  }

  lemma RowIsAtMember(p: Props, prop: int, end: nat, members: seq<Type>, i: nat, depth: nat, keys: Keys, asKey: bool)
    requires RowOf(p, prop, end, members, i, depth, keys) && (prop >= 0 && asKey ==> p.rows[prop].isKey)
    ensures AtMember(p, prop, end, members, i, depth, keys, Streamed(asKey, keys))
  {}

  /** From row `from` as many sibling links as there are `steps` lead to `to`, over rows outside the key only. */
  ghost predicate Skips(p: Props, from: int, to: int, steps: nat)
    decreases steps
  {
    if steps == 0 then to == from else
      0 <= from < |p.rows| && from < |p.next| && !p.rows[from].isKey && Skips(p, p.next[from], to, steps - 1)
  }

  lemma SkipsNone(p: Props, from: int)
    ensures Skips(p, from, from, 0)
  {}

  lemma {:induction false} SkipOne(p: Props, from: int, to: int, steps: nat)
    requires Skips(p, from, to, steps) && 0 <= to < |p.rows| && to < |p.next| && !p.rows[to].isKey
    ensures Skips(p, from, p.next[to], steps + 1)
    decreases steps
  {
    if steps == 0 {
      assert Skips(p, p.next[from], p.next[to], 0);
    } else {
      SkipOne(p, p.next[from], to, steps - 1);
    }
  }

  /** From the row of member `i`, or from none, the first row of a member that is streamed. */
  method Admit(p: Props, start: int, asKey: bool,
      ghost end: nat, ghost members: seq<Type>, ghost i: nat, ghost depth: nat, ghost keys: Keys)
    returns (prop: int, ghost j: nat)
    requires Linked(p) && RowOf(p, start, end, members, i, depth, keys)
    ensures i <= j && forall k | i <= k < j :: !Selects(Streamed(asKey, keys), k)
    ensures RowOf(p, prop, end, members, j, depth, keys)
    ensures AtMember(p, prop, end, members, j, depth, keys, Streamed(asKey, keys))
    ensures !asKey ==> prop == start
    ensures asKey ==> Skips(p, start, prop, j - i) && (prop >= 0 ==> p.rows[prop].isKey)
  {
    hide Linked, Tail, AtMember, Skips;
    SkipsNone(p, start);
    prop, j := start, i;
    while prop >= 0 && asKey && !p.rows[prop].isKey
      invariant i <= j <= |members| && forall k | i <= k < j :: !Selects(Streamed(asKey, keys), k)
      invariant RowOf(p, prop, end, members, j, depth, keys)
      invariant Skips(p, start, prop, j - i) && (!asKey ==> prop == start)
      decreases |members| - j
    {
      NextRowOf(p, prop, end, members, j, depth, keys);
      SkipOne(p, start, prop, j - i);
      prop, j := p.next[prop], j + 1;
    }
    RowIsAtMember(p, prop, end, members, j, depth, keys, asKey);
  }

  /** After member `i`, or from the start, `j` is the next member that is streamed, or there is none. */
  ghost predicate NextStreamed(streamed: Keys, i: int, count: nat, j: nat) {
    && i < j <= count && (j < count ==> Selects(streamed, j))
    && forall k: nat | i < k < j :: !Selects(streamed, k)
  }

  method FirstEntity(p: Props, root: int, asKey: bool, ghost t: Type, ghost keys: Keys)
    returns (prop: int, ghost end: nat, ghost j: nat)
    requires Linked(p) && Describes(p, root, t, keys)
    ensures prop < |p.rows|
      && NextStreamed(Streamed(asKey, keys), -1, |t.members|, if prop < 0 then |t.members| else p.rows[prop].id)
    ensures forall k | 0 <= k < j :: !Selects(Streamed(asKey, keys), k)
    ensures AtMember(p, prop, end, t.members, j, p.rows[root].depth + 1, keys, Streamed(asKey, keys))
    ensures 0 <= root < |p.first|
    ensures !asKey ==> prop == p.first[root]
    ensures asKey ==> Skips(p, p.first[root], prop, j) && (prop >= 0 ==> p.rows[prop].isKey)
  {
    FirstAt(p, root, t, keys);
    end := root + 1 + |SubRows(t, p.rows[root].depth + 1, keys)|;
    RowOfMember(p, p.first[root], end, t.members, 0, p.rows[root].depth + 1, keys);
    prop, j := Admit(p, p.first[root], asKey, end, t.members, 0, p.rows[root].depth + 1, keys);
  }

  method NextEntity(p: Props, prop: int, asKey: bool,
      ghost end: nat, ghost members: seq<Type>, ghost i: nat, ghost depth: nat, ghost keys: Keys)
    returns (prop': int, ghost j: nat)
    requires Linked(p) && prop >= 0 && AtMember(p, prop, end, members, i, depth, keys, Streamed(asKey, keys))
    ensures prop < |p.rows| && prop' < |p.rows|
    ensures NextStreamed(Streamed(asKey, keys), p.rows[prop].id, |members|,
      if prop' < 0 then |members| else p.rows[prop'].id)
    ensures i < j && forall k | i < k < j :: !Selects(Streamed(asKey, keys), k)
    ensures AtMember(p, prop', end, members, j, depth, keys, Streamed(asKey, keys))
    ensures prop < |p.next|
    ensures !asKey ==> prop' == p.next[prop]
    ensures asKey ==> Skips(p, p.next[prop], prop', j - i - 1) && (prop' >= 0 ==> p.rows[prop'].isKey)
  {
    RowOfMember(p, prop, end, members, i, depth, keys);
    NextRowOf(p, prop, end, members, i, depth, keys);
    prop', j := Admit(p, p.next[prop], asKey, end, members, i + 1, depth, keys);
  }
}
