/** The block tracker, src/core/block_tracker.c: one record per destination block, a bitmap
    of the unmatched ones and a counter per kind of match. */
module Tracker {
  import opened Bytes
  import opened Matches
  import opened Bitmap

  // ----- counting records

  function CountKind(s: seq<BlockState>, k: Kind): (n: nat)
  {
    if s == [] then 0 else (if s[0].kind == k then 1 else 0) + CountKind(s[1..], k)
  }

  lemma {:induction false} CountUpdate(s: seq<BlockState>, i: nat, x: BlockState, k: Kind)
    requires i < |s|
    ensures CountKind(s[i := x], k)
      == CountKind(s, k) - (if s[i].kind == k then 1 else 0) + (if x.kind == k then 1 else 0)
    decreases i
  {
    if i == 0 {
      assert s[0 := x][1..] == s[1..];
    } else {
      assert s[i := x][1..] == s[1..][i - 1 := x];
      CountUpdate(s[1..], i - 1, x, k);
    }
  }

  /** Every block is counted under exactly one kind. */
  lemma {:induction false} Conservation(s: seq<BlockState>)
    ensures CountKind(s, NoMatch) + CountKind(s, IdentityMatch) + CountKind(s, RelocateMatch)
      + CountKind(s, PartialMatch) + CountKind(s, ZeroMatch) + CountKind(s, OneMatch) == |s|
  {
    if s != [] {
      Conservation(s[1..]);
    }
  }

  lemma {:induction false} CountAllSame(s: seq<BlockState>, k: Kind, j: Kind)
    requires forall i :: 0 <= i < |s| ==> s[i].kind == j
    ensures CountKind(s, k) == if k == j then |s| else 0
  {
    if s != [] {
      CountAllSame(s[1..], k, j);
    }
  }

  // ----- the bitmap as a set of block numbers

  ghost predicate WordOk(w: nat, s: seq<BlockState>, lo: nat)
  {
    w < Shl(1, 64) && forall k :: 0 <= k < 64 ==> (Bit(w, k) <==> Unmatched(s, lo + k))
  }

  predicate Unmatched(s: seq<BlockState>, i: nat)
  {
    i < |s| && s[i].kind == NoMatch
  }

  /** Unmatched blocks among the `n` from `lo` on; numbers past the end count as matched. */
  function CountNone(s: seq<BlockState>, lo: nat, n: nat): (c: nat)
    decreases n
  {
    if n == 0 then 0 else (if Unmatched(s, lo) then 1 else 0) + CountNone(s, lo + 1, n - 1)
  }

  lemma {:induction false} WordCount(w: nat, s: seq<BlockState>, lo: nat, n: nat)
    requires forall k :: 0 <= k < n ==> (Bit(w, k) <==> Unmatched(s, lo + k))
    ensures CountBits(w, n) == CountNone(s, lo, n)
    decreases n
  {
    if n > 0 {
      assert Bit(w, 0) <==> Unmatched(s, lo + 0);
      forall k | 0 <= k < n - 1 ensures Bit(w / 2, k) <==> Unmatched(s, lo + 1 + k) {
        assert Bit(w, k + 1) <==> Unmatched(s, lo + (k + 1));
      }
      WordCount(w / 2, s, lo + 1, n - 1);
    }
  }

  lemma {:induction false} CountNoneSplit(s: seq<BlockState>, lo: nat, a: nat, b: nat)
    ensures CountNone(s, lo, a + b) == CountNone(s, lo, a) + CountNone(s, lo + a, b)
    decreases a
  {
    if a > 0 {
      CountNoneSplit(s, lo + 1, a - 1, b);
    }
  }

  lemma {:induction false} CountNoneAll(s: seq<BlockState>, lo: nat, n: nat)
    requires lo <= |s| <= lo + n
    ensures CountNone(s, lo, n) == CountKind(s[lo..], NoMatch)
    decreases n
  {
    if n > 0 {
      if lo < |s| {
        assert s[lo..][1..] == s[lo + 1..];
        CountNoneAll(s, lo + 1, n - 1);
      } else {
        CountNonePast(s, lo, n);
      }
    }
  }

  lemma {:induction false} CountNonePast(s: seq<BlockState>, lo: nat, n: nat)
    requires lo >= |s|
    ensures CountNone(s, lo, n) == 0
    decreases n
  {
    if n > 0 {
      CountNonePast(s, lo + 1, n - 1);
    }
  }

  /** Clearing bit `i % 64` of word `i / 64` removes exactly block `i`. */
  lemma WordClear(w: nat, s: seq<BlockState>, t: seq<BlockState>, lo: nat, k: nat)
    requires WordOk(w, s, lo) && k < 64 && |t| == |s|
    requires !Unmatched(t, lo + k)
    requires forall i: nat :: i != lo + k ==> (Unmatched(t, i) <==> Unmatched(s, i))
    ensures WordOk(AndNot(w, Shl(1, k)), t, lo)
  {
    hide Bit, Shl, AndNot;
    AndNotBound(w, Shl(1, k));
    forall j | 0 <= j < 64
      ensures Bit(AndNot(w, Shl(1, k)), j) <==> Unmatched(t, lo + j)
    {
      AndNotBit(w, Shl(1, k), j);
      MaskBit(k, j);
    }
  }

  lemma WordSame(w: nat, s: seq<BlockState>, t: seq<BlockState>, lo: nat, i: nat)
    requires WordOk(w, s, lo) && |t| == |s| && !(lo <= i < lo + 64)
    requires forall j: nat :: j != i ==> (Unmatched(t, j) <==> Unmatched(s, j))
    ensures WordOk(w, t, lo)
  {
  }

  /** Later stages only add matches: a matched block's record never changes again. */
  ghost predicate Extends(was: seq<BlockState>, now: seq<BlockState>)
  {
    |was| == |now| && forall i :: 0 <= i < |was| && was[i].kind != NoMatch ==> now[i] == was[i]
  }

  class BlockTracker {
    const blocks: array<BlockState>
    const bitmap: array<nat>
    const blockSize: nat
    var identityCount: nat
    var relocateCount: nat
    var partialCount: nat
    var zeroCount: nat
    var oneCount: nat
    var literalCount: nat

    ghost predicate Counted()
      reads this, blocks
    {
      && identityCount == CountKind(blocks[..], IdentityMatch)
      && relocateCount == CountKind(blocks[..], RelocateMatch)
      && partialCount == CountKind(blocks[..], PartialMatch)
      && zeroCount == CountKind(blocks[..], ZeroMatch)
      && oneCount == CountKind(blocks[..], OneMatch)
    }

    /** Before `Finalize`: a bit is set exactly for the unmatched blocks, the bits past the last
        block are clear, and each counter counts its kind. */
    ghost predicate Valid()
      reads this, blocks, bitmap
    {
      && bitmap.Length == (blocks.Length + 63) / 64
      && (forall w :: 0 <= w < bitmap.Length ==> WordOk(bitmap[w], blocks[..], 64 * w))
      && Counted() && literalCount == 0
    }

    /** After `Finalize`: no bit is set and the literals are counted too. */
    ghost predicate Final()
      reads this, blocks, bitmap
    {
      && bitmap.Length == (blocks.Length + 63) / 64
      && (forall w :: 0 <= w < bitmap.Length ==> bitmap[w] == 0)
      && Counted() && literalCount == CountKind(blocks[..], NoMatch)
    }

    constructor (destBlocks: nat, bs: nat)
      ensures Valid() && fresh(blocks) && fresh(bitmap)
      ensures blocks.Length == destBlocks && blockSize == bs
      ensures forall i :: 0 <= i < destBlocks ==> blocks[i] == UNMATCHED
    {
      blocks := new BlockState[destBlocks](_ => UNMATCHED);
      bitmap := new nat[(destBlocks + 63) / 64](_ => 0);
      blockSize := bs;
      identityCount, relocateCount, partialCount := 0, 0, 0;
      zeroCount, oneCount, literalCount := 0, 0, 0;
      new;
      FillBitmap();
      forall k: Kind | k != NoMatch ensures CountKind(blocks[..], k) == 0 {
        CountAllSame(blocks[..], k, NoMatch);
      }
    }

    /** The initialisation loop: sets the bit of every block. */
    method FillBitmap()
      requires bitmap.Length == (blocks.Length + 63) / 64
      requires forall w :: 0 <= w < bitmap.Length ==> bitmap[w] == 0
      requires forall i :: 0 <= i < blocks.Length ==> blocks[i].kind == NoMatch
      modifies bitmap
      ensures forall w :: 0 <= w < bitmap.Length ==> WordOk(bitmap[w], blocks[..], 64 * w)
    {
      ghost var s := blocks[..];
      forall w | 0 <= w < bitmap.Length ensures WordOk(bitmap[w], s[..0], 64 * w) {
        EmptyWord(s[..0], 64 * w);
      }
      for i := 0 to blocks.Length
        invariant blocks[..] == s
        invariant forall w :: 0 <= w < bitmap.Length ==> WordOk(bitmap[w], s[..i], 64 * w)
      {
        var w, k := i / 64, i % 64;
        forall v | 0 <= v < bitmap.Length && v != w ensures WordOk(bitmap[v], s[..i + 1], 64 * v) {
          WordSame2(bitmap[v], s[..i], s[..i + 1], 64 * v, i);
        }
        WordSet(bitmap[w], s[..i], s[..i + 1], 64 * w, k);
        bitmap[w] := Or(bitmap[w], Shl(1, k));
      }
      assert s[..blocks.Length] == s;
    }

    /** `fsd_block_tracker_is_unmatched`. */
    method IsUnmatched(i: nat) returns (b: bool)
      requires Valid()
      ensures b <==> Unmatched(blocks[..], i)
    {
      if i >= blocks.Length { return false; }
      assert WordOk(bitmap[i / 64], blocks[..], 64 * (i / 64));
      TestIsBit(bitmap[i / 64], i % 64);
      b := And(bitmap[i / 64], Shl(1, i % 64)) != 0;
    }

    /** First writer wins: a block that already has a match keeps it. */
    method SetMatch(i: nat, kind: Kind, srcIndex: nat)
      requires Valid() && kind != NoMatch
      modifies this, blocks, bitmap
      ensures Valid()
      ensures blocks[..] == if Unmatched(old(blocks[..]), i)
        then old(blocks[..])[i := old(blocks[i]).(kind := kind, srcIndex := srcIndex)]
        else old(blocks[..])
    {
      if i >= blocks.Length { return; }
      if blocks[i].kind != NoMatch { return; }
      ghost var s := blocks[..];
      blocks[i] := blocks[i].(kind := kind, srcIndex := srcIndex);
      ghost var t := blocks[..];
      assert t == s[i := blocks[i]];
      forall k: Kind {
        CountUpdate(s, i, blocks[i], k);
      }
      ClearWord(s, i);
      match kind
      case IdentityMatch => identityCount := identityCount + 1;
      case RelocateMatch => relocateCount := relocateCount + 1;
      case PartialMatch => partialCount := partialCount + 1;
      case ZeroMatch => zeroCount := zeroCount + 1;
      case OneMatch => oneCount := oneCount + 1;
    }

    /** `bitmap_clear`, for a block that has just stopped being unmatched. */
    method ClearWord(ghost s: seq<BlockState>, i: nat)
      requires i < blocks.Length && |s| == blocks.Length && bitmap.Length == (blocks.Length + 63) / 64
      requires forall w :: 0 <= w < bitmap.Length ==> WordOk(bitmap[w], s, 64 * w)
      requires blocks[i].kind != NoMatch && blocks[..] == s[i := blocks[i]]
      modifies bitmap
      ensures forall w :: 0 <= w < bitmap.Length ==> WordOk(bitmap[w], blocks[..], 64 * w)
    {
      var w := i / 64;
      ghost var t := blocks[..];
      forall v | 0 <= v < bitmap.Length && v != w ensures WordOk(bitmap[v], t, 64 * v) {
        WordSame(bitmap[v], s, t, 64 * v, i);
      }
      WordClear(bitmap[w], s, t, 64 * w, i % 64);
      bitmap[w] := AndNot(bitmap[w], Shl(1, i % 64));
    }

    method SetCrc(i: nat, crc: nat)
      requires Valid()
      modifies blocks
      ensures Valid()
      ensures blocks[..]
        == if i < blocks.Length then old(blocks[..])[i := old(blocks[i]).(crc := crc)] else old(blocks[..])
    {
      if i >= blocks.Length { return; }
      Patch(i, blocks[i].(crc := crc));
    }

    method SetDelta(i: nat, byteOffset: int, delta: seq<byte>)
      requires Valid()
      modifies blocks
      ensures Valid()
      ensures blocks[..] == if i < blocks.Length
        then old(blocks[..])[i := old(blocks[i]).(byteOffset := byteOffset, delta := Some(delta))]
        else old(blocks[..])
    {
      if i >= blocks.Length { return; }
      Patch(i, blocks[i].(byteOffset := byteOffset, delta := Some(delta)));
    }

    /** Replaces a record without changing its kind. */
    method Patch(i: nat, x: BlockState)
      requires Valid() && i < blocks.Length && x.kind == blocks[i].kind
      modifies blocks
      ensures Valid() && blocks[..] == old(blocks[..])[i := x]
    {
      ghost var s := blocks[..];
      blocks[i] := x;
      assert blocks[..] == s[i := x];
      forall k: Kind {
        CountUpdate(s, i, x, k);
      }
      assert forall j: nat :: Unmatched(blocks[..], j) <==> Unmatched(s, j);
      forall w | 0 <= w < bitmap.Length ensures WordOk(bitmap[w], blocks[..], 64 * w) {
        assert WordOk(bitmap[w], s, 64 * w);
      }
    }

    /** Population count of the bitmap: the number of unmatched blocks. */
    method UnmatchedCount() returns (n: nat)
      requires Valid()
      ensures n == CountKind(blocks[..], NoMatch)
      ensures n + identityCount + relocateCount + partialCount + zeroCount + oneCount == blocks.Length
    {
      hide Bit, Shl, Ones, CountBits, CountNone, CountKind;
      n := 0;
      ghost var s := blocks[..];
      assert CountNone(s, 0, 0) == 0 by { NoneYet(s); }
      for w := 0 to bitmap.Length
        invariant n == CountNone(s, 0, 64 * w)
      {
        var c := PopCount(bitmap[w]);
        WordOnes(bitmap[w], s, 64 * w);
        CountNoneSplit(s, 0, 64 * w, 64);
        n := n + c;
      }
      CountNoneAll(s, 0, 64 * bitmap.Length);
      assert s[0..] == s;
      Conservation(s);
    }

    /** Turns the remaining unmatched blocks into literals. */
    method Finalize()
      requires Valid()
      modifies this, bitmap
      ensures Final() && blocks[..] == old(blocks[..])
      ensures identityCount + relocateCount + partialCount + zeroCount + oneCount + literalCount == blocks.Length
    {
      hide Bit, Shl, And, AndNot;
      ghost var s := blocks[..];
      assert s[0..] == s;
      for i := 0 to blocks.Length
        invariant blocks[..] == s && Counted()
        invariant literalCount + CountKind(s[i..], NoMatch) == CountKind(s, NoMatch)
        invariant forall w :: 0 <= w < bitmap.Length ==> WordFrom(bitmap[w], s, 64 * w, i)
      {
        var w, k := i / 64, i % 64;
        assert s[i..][1..] == s[i + 1..];
        assert WordFrom(bitmap[w], s, 64 * w, i);
        TestIsBit(bitmap[w], k);
        assert Bit(bitmap[w], k) <==> Unmatched(s, 64 * w + k);
        forall v | 0 <= v < bitmap.Length && v != w ensures WordFrom(bitmap[v], s, 64 * v, i + 1) {
          WordFromSame(bitmap[v], s, 64 * v, i);
        }
        WordFromClear(bitmap[w], s, 64 * w, k);
        if And(bitmap[w], Shl(1, k)) != 0 {
          literalCount := literalCount + 1;
          bitmap[w] := AndNot(bitmap[w], Shl(1, k));
        }
      }
      forall w | 0 <= w < bitmap.Length ensures bitmap[w] == 0 {
        assert WordFrom(bitmap[w], s, 64 * w, blocks.Length);
        NoBits(bitmap[w], 64);
      }
      Conservation(s);
    }
  }

  lemma WordOnes(w: nat, s: seq<BlockState>, lo: nat)
    requires WordOk(w, s, lo)
    ensures Ones(w) == CountNone(s, lo, 64)
  {
    hide Shl, Ones;
    OnesIsCount(w, 64);
    WordCount(w, s, lo, 64);
  }

  lemma NoneYet(s: seq<BlockState>)
    ensures CountNone(s, 0, 0) == 0
  {
  }

  // ----- word lemmas for the initialisation and finalisation loops

  lemma EmptyWord(s: seq<BlockState>, lo: nat)
    requires s == []
    ensures WordOk(0, s, lo)
  {
    forall k | 0 <= k < 64 ensures !Bit(0, k) {
      ZeroBits(k);
    }
  }

  lemma WordSame2(w: nat, s: seq<BlockState>, t: seq<BlockState>, lo: nat, i: nat)
    requires WordOk(w, s, lo) && |s| == i && |t| == i + 1 && t[..i] == s && !(lo <= i < lo + 64)
    ensures WordOk(w, t, lo)
  {
    forall k | 0 <= k < 64 ensures Bit(w, k) <==> Unmatched(t, lo + k) {
      if lo + k < i { assert t[lo + k] == t[..i][lo + k]; }
    }
  }

  lemma WordSet(w: nat, s: seq<BlockState>, t: seq<BlockState>, lo: nat, k: nat)
    requires WordOk(w, s, lo) && k < 64 && |s| == lo + k && |t| == lo + k + 1 && t[..lo + k] == s
    requires t[lo + k].kind == NoMatch
    ensures WordOk(Or(w, Shl(1, k)), t, lo)
  {
    MaskMono(k, 64);
    OrBound(w, Shl(1, k), 64);
    forall j | 0 <= j < 64
      ensures Bit(Or(w, Shl(1, k)), j) <==> Unmatched(t, lo + j)
    {
      OrBit(w, Shl(1, k), j);
      MaskBit(k, j);
      if j < k { assert t[lo + j] == t[..lo + k][lo + j]; }
    }
  }

  /** As `WordOk`, with the bits of blocks below `i` already cleared. */
  ghost predicate WordFrom(w: nat, s: seq<BlockState>, lo: nat, i: nat)
  {
    w < Shl(1, 64) && forall k :: 0 <= k < 64 ==> (Bit(w, k) <==> lo + k >= i && Unmatched(s, lo + k))
  }

  lemma WordFromSame(w: nat, s: seq<BlockState>, lo: nat, i: nat)
    requires WordFrom(w, s, lo, i) && !(lo <= i < lo + 64)
    ensures WordFrom(w, s, lo, i + 1)
  {
  }

  lemma WordFromClear(w: nat, s: seq<BlockState>, lo: nat, k: nat)
    requires WordFrom(w, s, lo, lo + k) && k < 64
    ensures WordFrom(AndNot(w, Shl(1, k)), s, lo, lo + k + 1)
    ensures !Bit(w, k) ==> WordFrom(w, s, lo, lo + k + 1)
  {
    AndNotBound(w, Shl(1, k));
    forall j | 0 <= j < 64
      ensures Bit(AndNot(w, Shl(1, k)), j) <==> Bit(w, j) && j != k
    {
      AndNotBit(w, Shl(1, k), j);
      MaskBit(k, j);
    }
  }
}
