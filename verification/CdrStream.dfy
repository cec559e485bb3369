/**
 The streamer the generated code drives: a cursor over a buffer that remembers the alignment it
 last moved to, and the primitive operations that align, copy and swap.
 */
module CdrStreaming {
  import opened Bytes
  import opened Schema
  import opened Wire

  /** Reverses a 4-byte word in place: first its halves, then the bytes of each half. */
  method SwapFour(a: array<byte>, at: nat)
    requires at + 4 <= a.Length
    modifies a
    ensures forall k :: at <= k < at + 4 ==> a[k] == old(a[2 * at + 3 - k])
    ensures forall k :: 0 <= k < a.Length && !(at <= k < at + 4) ==> a[k] == old(a[k])
  {
    a[at], a[at + 1], a[at + 2], a[at + 3] := a[at + 2], a[at + 3], a[at], a[at + 1];
    a[at], a[at + 1], a[at + 2], a[at + 3] := a[at + 1], a[at], a[at + 3], a[at + 2];
  }

  /** Exchanges two neighbouring 4-byte words. */
  method ExchangeFours(a: array<byte>, at: nat)
    requires at + 8 <= a.Length
    modifies a
    ensures forall k :: at <= k < at + 4 ==> a[k] == old(a[k + 4])
    ensures forall k :: at + 4 <= k < at + 8 ==> a[k] == old(a[k - 4])
    ensures forall k :: 0 <= k < a.Length && !(at <= k < at + 8) ==> a[k] == old(a[k])
  {
    for i := 0 to 4
      invariant forall k :: at <= k < at + i ==> a[k] == old(a[k + 4])
      invariant forall k :: at + 4 <= k < at + 4 + i ==> a[k] == old(a[k - 4])
      invariant forall k :: 0 <= k < a.Length && !(at <= k < at + i || at + 4 <= k < at + 4 + i) ==> a[k] == old(a[k])
    {
      a[at + i], a[at + 4 + i] := a[at + 4 + i], a[at + i];
    }
  }

  /** Reverses an 8-byte word in place. */
  method SwapEight(a: array<byte>, at: nat)
    requires at + 8 <= a.Length
    modifies a
    ensures forall k :: at <= k < at + 8 ==> a[k] == old(a[2 * at + 7 - k])
    ensures forall k :: 0 <= k < a.Length && !(at <= k < at + 8) ==> a[k] == old(a[k])
  {
    SwapFour(a, at);
    SwapFour(a, at + 4);
    ExchangeFours(a, at);
  }

  /** Reverses a word of any primitive size in place. */
  method ByteSwap(a: array<byte>, at: nat, size: Alignment)
    requires at + size <= a.Length
    modifies a
    ensures forall k :: at <= k < at + size ==> a[k] == old(a[2 * at + size - 1 - k])
    ensures forall k :: 0 <= k < a.Length && !(at <= k < at + size) ==> a[k] == old(a[k])
  {
    if size == 2 {
      a[at], a[at + 1] := a[at + 1], a[at];
    } else if size == 4 {
      SwapFour(a, at);
    } else if size == 8 {
      SwapEight(a, at);
    }
  }

  class CdrStream {
    const buffer: array<byte>
    const maxAlignment: Alignment
    const swap: bool
    var position: nat
    var currentAlignment: nat
    var asKey: bool

    /** The cursor stands at a multiple of the alignment that is remembered. */
    ghost predicate Valid()
      reads this
    {
      currentAlignment > 0 ==> Residue(position, currentAlignment) == 0
    }

    ghost function Format(): Format {
      Xcdr(maxAlignment, swap, true)
    }

    constructor (buffer: array<byte>, maxAlignment: Alignment, swap: bool)
      ensures Valid() && this.buffer == buffer && this.maxAlignment == maxAlignment && this.swap == swap
      ensures position == 0 && !asKey
    {
      this.buffer, this.maxAlignment, this.swap := buffer, maxAlignment, swap;
      position, currentAlignment, asKey := 0, 1, false;
    }

    /** Starts streaming anew, over all members or over the key only. */
    method SetMode(key: bool)
      modifies this
      ensures Valid() && position == 0 && asKey == key
    {
      asKey := key;
      position, currentAlignment := 0, 0;
    }

    /** How far the cursor is from the alignment asked for, under the cap of the stream. */
    method ToMove(alignment: Alignment) returns (n: nat)
      ensures position + n == AlignUp(position, alignment)
    {
      PaddingFormula(position, alignment);
      n := (alignment - position % alignment) % alignment;
    }

    /**
     Moves the cursor to the next multiple of an alignment, capped by that of the stream. Nothing
     is computed when the stream is known to be aligned already.
     */
    method Align(newAlignment: Alignment, addZeroes: bool, bounded: bool) returns (ok: bool)
      requires Valid() && (bounded ==> position <= buffer.Length) && (addZeroes ==> bounded)
      modifies `position, `currentAlignment, if addZeroes then {buffer} else {}
      ensures Valid()
      ensures ok <==> (bounded ==> AlignUp(old(position), Effective(newAlignment, maxAlignment)) <= buffer.Length)
      ensures position == if ok then AlignUp(old(position), Effective(newAlignment, maxAlignment)) else old(position)
      ensures ok ==> currentAlignment == newAlignment || currentAlignment == Effective(newAlignment, maxAlignment)
      ensures forall i :: 0 <= i < buffer.Length ==>
        buffer[i] == if addZeroes && old(position) <= i < position then 0 else old(buffer[i])
    {
      var alignment := Effective(newAlignment, maxAlignment);
      AlignUpIsAligned(position, alignment);
      if currentAlignment == newAlignment {
        AlignmentDivides(position, alignment, newAlignment);
        return true;
      }
      var toMove := ToMove(alignment);
      if bounded && position + toMove > buffer.Length {
        return false;
      }
      if addZeroes {
        Zero(toMove);
      }
      position := position + toMove;
      currentAlignment := alignment;
      return true;
    }

    method Zero(n: nat)
      requires position + n <= buffer.Length
      modifies buffer
      ensures forall k :: 0 <= k < buffer.Length ==>
        buffer[k] == if position <= k < position + n then 0 else old(buffer[k])
    {
      for i := 0 to n
        invariant forall k :: 0 <= k < buffer.Length ==>
          buffer[k] == if position <= k < position + i then 0 else old(buffer[k])
      {
        buffer[position + i] := 0;
      }
    }

    method Copy(w: seq<byte>)
      requires position + |w| <= buffer.Length
      modifies buffer
      ensures forall k :: 0 <= k < buffer.Length ==>
        buffer[k] == if position <= k < position + |w| then w[k - position] else old(buffer[k])
    {
      for i := 0 to |w|
        invariant forall k :: 0 <= k < buffer.Length ==>
          buffer[k] == if position <= k < position + i then w[k - position] else old(buffer[k])
      {
        buffer[position + i] := w[i];
      }
    }

    /** Copies a leaf to the cursor in the byte order of the stream. */
    method CopySwapped(l: Leaf, w: seq<byte>)
      requires |w| == l.Width() && position + |w| <= buffer.Length
      modifies buffer
      ensures forall k :: 0 <= k < buffer.Length ==>
        buffer[k] == if position <= k < position + |w| then Wired(w, l, Format())[k - position] else old(buffer[k])
    {
      Copy(w);
      if l.WordSize() > 1 && swap {
        ByteSwap(buffer, position, l.WordSize());
      }
    }

    /** Moves over a leaf the stream was aligned for. */
    method Advance(l: Leaf)
      requires Valid()
      requires currentAlignment == l.WordSize() || currentAlignment == Effective(l.WordSize(), maxAlignment)
      modifies `position
      ensures Valid() && position == old(position) + l.Width()
    {
      if l.Scalar? { WordsKeepAlignment(position, currentAlignment, l.size); }
      position := position + l.Width();
    }

    lemma LeafPlace(l: Leaf, pos: nat)
      ensures LeafAt(l, pos, Format()) == AlignUp(pos, Effective(l.WordSize(), maxAlignment))
      ensures Effective(l.WordSize(), maxAlignment)
        == if l.WordSize() < maxAlignment then l.WordSize() else maxAlignment
    {}

    /** Writes one leaf. */
    method WriteLeaf(l: Leaf, w: seq<byte>) returns (ok: bool)
      requires Valid() && |w| == l.Width() && position <= buffer.Length
      modifies `position, `currentAlignment, buffer
      ensures Valid() && old(position) <= position <= buffer.Length
      ensures ok <==> LeafAt(l, old(position), Format()) + l.Width() <= buffer.Length
      ensures ok ==> position == LeafAt(l, old(position), Format()) + l.Width()
      ensures ok ==> buffer[..] == PutLeaf(old(buffer[..]), l, w, old(position), Format())
      ensures forall i :: 0 <= i < old(position) ==> buffer[i] == old(buffer[i])
      ensures ok ==>
        position
          == AlignUp(old(position), if l.WordSize() < maxAlignment then l.WordSize() else maxAlignment) + l.Width()
      ensures ok ==> forall i :: old(position) <= i < position - l.Width() ==> buffer[i] == 0
      ensures ok ==> forall i :: position - |w| <= i < position ==>
        buffer[i] == if swap && l.Scalar? then w[position - 1 - i] else w[i - position + |w|]
      ensures ok ==> forall i :: position <= i < buffer.Length ==> buffer[i] == old(buffer[i])
    {
      hide AlignUp, Residue, Wired, PutLeaf, LeafAt, Effective;
      ghost var before := buffer[..];
      LeafPlace(l, position);
      ok := Align(l.WordSize(), true, true);
      if !ok || position + |w| > buffer.Length {
        return false;
      }
      CopySwapped(l, w);
      Advance(l);
      LeafPut(before, buffer[..], l, w, old(position));
    }

    /** The buffer after a leaf, byte by byte. */
    lemma LeafPut(before: seq<byte>, after: seq<byte>, l: Leaf, w: seq<byte>, pos: nat)
      requires |w| == l.Width() && |after| == |before|
      requires var at := LeafAt(l, pos, Format());
        && at + |w| <= |before|
        && forall i :: 0 <= i < |after| ==>
          after[i] == if at <= i < at + |w| then Wired(w, l, Format())[i - at]
            else if pos <= i < at then 0 else before[i]
      ensures after == PutLeaf(before, l, w, pos, Format())
      ensures var at := AlignUp(pos, if l.WordSize() < maxAlignment then l.WordSize() else maxAlignment);
        && at == LeafAt(l, pos, Format())
        && (forall i :: pos <= i < at ==> after[i] == 0)
        && (forall i :: at <= i < at + |w| ==>
          after[i] == if swap && l.Scalar? then w[at + |w| - 1 - i] else w[i - at])
        && (forall i :: at + |w| <= i < |after| ==> after[i] == before[i])
    {
      hide AlignUp, Residue, Wired, LeafAt;
      LeafPlace(l, pos);
      var at := LeafAt(l, pos, Format());
      forall i | at <= i < at + |w|
        ensures after[i] == if swap && l.Scalar? then w[at + |w| - 1 - i] else w[i - at]
      {
        WiredByte(l, w, i - at);
      }
    }

    lemma WiredByte(l: Leaf, w: seq<byte>, k: nat)
      requires k < |w|
      ensures Wired(w, l, Format())[k] == if swap && l.Scalar? then w[|w| - 1 - k] else w[k]
    {}

    /** Copies a leaf from the cursor in the byte order of the machine. */
    method CopyOut(l: Leaf, ghost raw: seq<byte>) returns (w: seq<byte>)
      requires position + l.Width() <= buffer.Length && raw == buffer[position..position + l.Width()]
      ensures w == Wired(raw, l, Format())
    {
      var to := new byte[l.Width()];
      for i := 0 to l.Width()
        invariant to[..i] == raw[..i]
      {
        to[i] := buffer[position + i];
      }
      assert to[..] == raw;
      if l.WordSize() > 1 && swap {
        ByteSwap(to, 0, l.WordSize());
        assert forall k :: 0 <= k < |raw| ==> to[k] == raw[|raw| - 1 - k];
        assert to[..] == Reverse(raw);
      }
      w := to[..];
    }

    /** A leaf that was read, byte by byte. */
    lemma LeafGot(bytes: seq<byte>, l: Leaf, w: seq<byte>, at: nat)
      requires at + l.Width() <= |bytes| && w == Wired(bytes[at..at + l.Width()], l, Format())
      ensures |w| == l.Width()
      ensures forall k :: 0 <= k < |w| ==>
        w[k] == if swap && l.Scalar? then bytes[at + |w| - 1 - k] else bytes[at + k]
    {
      hide Wired;
      var raw := bytes[at..at + l.Width()];
      forall k | 0 <= k < |w| ensures w[k] == if swap && l.Scalar? then bytes[at + |w| - 1 - k] else bytes[at + k] {
        WiredByte(l, raw, k);
      }
    }

    /** Reads one leaf. */
    method ReadLeaf(l: Leaf) returns (ok: bool, w: seq<byte>)
      requires Valid() && position <= buffer.Length
      modifies `position, `currentAlignment
      ensures Valid() && old(position) <= position <= buffer.Length
      ensures ok <==> LeafAt(l, old(position), Format()) + l.Width() <= buffer.Length
      ensures ok ==> position == LeafAt(l, old(position), Format()) + l.Width()
      ensures ok ==> w == Wired(buffer[..][position - l.Width()..position], l, Format())
      ensures ok ==>
        position
          == AlignUp(old(position), if l.WordSize() < maxAlignment then l.WordSize() else maxAlignment) + l.Width()
      ensures ok ==> |w| == l.Width()
      ensures ok ==> forall k :: 0 <= k < |w| ==>
        w[k] == if swap && l.Scalar? then buffer[position - 1 - k] else buffer[position - |w| + k]
    {
      hide AlignUp, LeafAt, Residue, Wired;
      LeafPlace(l, position);
      ghost var bytes := buffer[..];
      ok := Align(l.WordSize(), false, true);
      if !ok || position + l.Width() > buffer.Length {
        return false, [];
      }
      ghost var raw := bytes[position..position + l.Width()];
      assert raw == buffer[position..position + l.Width()];
      w := CopyOut(l, raw);
      LeafGot(bytes, l, w, position);
      Advance(l);
      assert buffer[..] == bytes;
    }

    /** Counts one leaf without a buffer. */
    method MoveLeaf(l: Leaf)
      requires Valid()
      modifies `position, `currentAlignment
      ensures Valid() && position == LeafAt(l, old(position), Format()) + l.Width()
      ensures position ==
        AlignUp(old(position), if l.WordSize() < maxAlignment then l.WordSize() else maxAlignment) + l.Width()
    {
      var _ := Align(l.WordSize(), false, false);
      Advance(l);
    }
  }
}
