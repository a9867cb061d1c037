/** The sparse reader on runs that any writer may have chosen. The description of the patch format says
    that the last operation of a block may be truncated; the reader of src/patch.c does so for add runs
    only. This module says exactly what it accepts. */
module SparseRuns {
  import opened Bytes
  import opened Sparse
  import Varint

  /** Alternating runs: each round adds some deltas and then copies some bytes. */
  datatype Rounds =
    | Last(add: seq<byte>, copy: nat)
    | More(add: seq<byte>, copy: nat, rest: Rounds)

  /** The last round is the one that fills the `n` bytes of the block, or passes their end. */
  ghost predicate Covers(r: Rounds, n: nat)
  {
    match r
    case Last(add, copy) => 0 < n <= |add| + copy
    case More(add, copy, rest) => |add| + copy < n && Covers(rest, n - (|add| + copy))
  }

  /** All lengths are `size_t` values. */
  ghost predicate Sized(r: Rounds)
  {
    |r.add| < TWO64 && r.copy < TWO64 && (r.More? ==> Sized(r.rest))
  }

  /** What the rounds are written as. The last copy is written only when it has something to fill. */
  function Written(r: Rounds, n: nat): (s: seq<byte>)
  {
    match r
    case Last(add, copy) => Varint.Encode(|add|) + (add + (if |add| < n then Varint.Encode(copy) else []))
    case More(add, copy, rest) =>
      var m := if |add| + copy < n then n - (|add| + copy) else 0;
      Varint.Encode(|add|) + (add + (Varint.Encode(copy) + Written(rest, m)))
  }

  /** The last round's copy starts inside the block and ends beyond it. */
  ghost predicate CopyPassesEnd(r: Rounds, n: nat)
  {
    match r
    case Last(add, copy) => |add| < n < |add| + copy
    case More(add, copy, rest) => |add| + copy < n && CopyPassesEnd(rest, n - (|add| + copy))
  }

  /** A round before the last neither adds nor copies. */
  ghost predicate EmptyRound(r: Rounds)
  {
    r.More? && ((r.add == [] && r.copy == 0) || EmptyRound(r.rest))
  }

  /** The delta that the rounds hold for position `k`: that of an add run, or 0 in a copy run. */
  function DeltaAt(r: Rounds, k: nat): (d: byte)
  {
    if k < |r.add| then r.add[k]
    else if k < |r.add| + r.copy || r.Last? then 0
    else DeltaAt(r.rest, k - (|r.add| + r.copy))
  }

  /** `s` is `block` with the rounds' deltas added from `out` on. */
  ghost predicate Patches(s: seq<byte>, block: seq<byte>, r: Rounds, out: nat)
  {
    && |s| == |block|
    && (forall k :: 0 <= k < out && k < |block| ==> s[k] == block[k])
    && (forall k :: out <= k < |block| ==> s[k] == AddByte(block[k], DeltaAt(r, k - out)))
  }

  // ----- one round

  /** The add run of a round, cut at the end of the block. */
  lemma AddRun(block: seq<byte>, out: nat, region: seq<byte>, c: nat, add: seq<byte>, tail: seq<byte>)
    returns (next: nat)
    requires out < |block| && c <= |region| && |add| < TWO64
    requires HasAt(region, c, Varint.Encode(|add|) + (add + tail))
    ensures next == c + |Varint.Encode(|add|)| + |add| <= |region| && HasAt(region, next, tail)
    ensures HasAt(region, next - |add|, add)
    ensures var n := Min(|add|, |block| - out);
      Decode(block, out, region, c)
        == DecodeCopy(AddRange(block, out, region, next - |add|, n), out + n, region, next, |add|)
  {
    hide HasAt, Varint.Encode, Varint.Decode, AddRange, DecodeCopy;
    HasAtSplit(region, c, Varint.Encode(|add|), add + tail);
    HasAtSplit(region, c + |Varint.Encode(|add|)|, add, tail);
    Varint.RoundTrip(region, c, |add|);
    next := c + |Varint.Encode(|add|)| + |add|;
  }

  lemma AddedRange(block: seq<byte>, out: nat, region: seq<byte>, p: nat, r: Rounds, n: nat, k: nat)
    requires out + n <= |block| && n <= |r.add| && HasAt(region, p, r.add) && out <= k < out + n
    ensures p + n <= |region| && AddRange(block, out, region, p, n)[k] == AddByte(block[k], DeltaAt(r, k - out))
  {
    HasAtByte(region, p, r.add, k - out);
  }

  /** The block is full after the add run: whatever else the run held is dropped. */
  lemma FullByAdd(block: seq<byte>, out: nat, region: seq<byte>, p: nat, r: Rounds, n: nat)
    requires out + n == |block| && n <= |r.add| && HasAt(region, p, r.add) && p + n <= |region|
    ensures Patches(AddRange(block, out, region, p, n), block, r, out)
  {
    forall k | out <= k < |block|
      ensures AddRange(block, out, region, p, n)[k] == AddByte(block[k], DeltaAt(r, k - out))
    {
      AddedRange(block, out, region, p, r, n, k);
    }
  }

  /** A whole round, then the deltas of the rest (none, when the block is full). */
  lemma RoundThen(block: seq<byte>, out: nat, region: seq<byte>, p: nat, r: Rounds, s: seq<byte>)
    requires out + |r.add| + r.copy <= |block| && HasAt(region, p, r.add) && p + |r.add| <= |region|
    requires r.Last? ==> out + |r.add| + r.copy == |block| && s == AddRange(block, out, region, p, |r.add|)
    requires r.More? ==> Patches(s, AddRange(block, out, region, p, |r.add|), r.rest, out + |r.add| + r.copy)
    ensures Patches(s, block, r, out)
  {
    forall k | out <= k < |block| ensures s[k] == AddByte(block[k], DeltaAt(r, k - out)) {
      if k < out + |r.add| {
        AddedRange(block, out, region, p, r, |r.add|, k);
      }
    }
  }

  /** The copy run of a round whose add run leaves room. */
  lemma CopyRun(block: seq<byte>, out: nat, region: seq<byte>, c: nat, copy: nat, addLen: nat, tail: seq<byte>)
    returns (next: nat)
    requires out < |block| && c <= |region| && copy < TWO64 && HasAt(region, c, Varint.Encode(copy) + tail)
    ensures next == c + |Varint.Encode(copy)| <= |region| && HasAt(region, next, tail)
    ensures copy > |block| - out || (addLen == 0 && copy == 0) ==>
      DecodeCopy(block, out, region, c, addLen) == Err(CorruptData)
    ensures copy <= |block| - out && (addLen > 0 || copy > 0) ==>
      DecodeCopy(block, out, region, c, addLen) == Decode(block, out + copy, region, next)
  {
    hide HasAt, Varint.Encode, Varint.Decode, Decode;
    HasAtSplit(region, c, Varint.Encode(copy), tail);
    Varint.RoundTrip(region, c, copy);
    next := c + |Varint.Encode(copy)|;
  }

  // ----- all rounds

  /** The outcome of decoding the rounds from position `out` on. */
  ghost predicate Outcome(d: Result<Patched>, block: seq<byte>, out: nat, c: nat, r: Rounds)
    requires out <= |block|
  {
    var n := |block| - out;
    if CopyPassesEnd(r, n) || EmptyRound(r) then d == Err(CorruptData)
    else d.Ok? && Patches(d.value.bytes, block, r, out) && d.value.cursor == c + |Written(r, n)|
  }

  lemma LastRound(block: seq<byte>, out: nat, region: seq<byte>, c: nat, r: Rounds)
    requires out < |block| && c <= |region| && r.Last? && Covers(r, |block| - out) && Sized(r)
    requires HasAt(region, c, Written(r, |block| - out))
    ensures Outcome(Decode(block, out, region, c), block, out, c, r)
  {
    hide HasAt, Varint.Encode, Varint.Decode, AddRange, Patches, DeltaAt, Decode, DecodeCopy;
    var n, a := |block| - out, |r.add|;
    var tail := if a < n then Varint.Encode(r.copy) else [];
    var next := AddRun(block, out, region, c, r.add, tail);
    var m := Min(a, n);
    var mid := AddRange(block, out, region, next - a, m);
    if a >= n {
      DecodeEnd(mid, region, next, a, mid);
      FullByAdd(block, out, region, next - a, r, m);
    } else {
      assert Varint.Encode(r.copy) + [] == Varint.Encode(r.copy);
      var end := CopyRun(mid, out + a, region, next, r.copy, a, []);
      if a + r.copy == n {
        DecodeEnd(mid, region, end, a, mid);
        RoundThen(block, out, region, next - a, r, mid);
      }
    }
  }

  lemma {:induction false} AllRounds(block: seq<byte>, out: nat, region: seq<byte>, c: nat, r: Rounds)
    requires out < |block| && c <= |region| && Covers(r, |block| - out) && Sized(r)
    requires HasAt(region, c, Written(r, |block| - out))
    ensures Outcome(Decode(block, out, region, c), block, out, c, r)
    decreases r
  {
    hide HasAt, Varint.Encode, Varint.Decode, AddRange, Patches, DeltaAt, Decode, DecodeCopy;
    if r.Last? {
      LastRound(block, out, region, c, r);
    } else {
      var n, a := |block| - out, |r.add|;
      var m := n - (a + r.copy);
      var next := AddRun(block, out, region, c, r.add, Varint.Encode(r.copy) + Written(r.rest, m));
      var mid := AddRange(block, out, region, next - a, a);
      var end := CopyRun(mid, out + a, region, next, r.copy, a, Written(r.rest, m));
      if a > 0 || r.copy > 0 {
        AllRounds(mid, out + a + r.copy, region, end, r.rest);
        var d := Decode(mid, out + a + r.copy, region, end);
        if d.Ok? { RoundThen(block, out, region, next - a, r, d.value.bytes); }
      }
    }
  }

  /** What the reader accepts, whatever the writer: it succeeds if and only if no copy run passes the end
      of the block and no round before the last is empty, and otherwise reports corrupt data. On success
      the result is source + deltas, every byte of the rounds is consumed, and what the last add run
      holds beyond the block is dropped. */
  lemma AnyRuns(block: seq<byte>, region: seq<byte>, c: nat, r: Rounds)
    requires c <= |region| && Covers(r, |block|) && Sized(r) && HasAt(region, c, Written(r, |block|))
    ensures var d := Decode(block, 0, region, c);
      && (d.Ok? <==> !CopyPassesEnd(r, |block|) && !EmptyRound(r))
      && (d.Err? ==> d.error == CorruptData)
      && (d.Ok? ==> Patches(d.value.bytes, block, r, 0) && d.value.cursor == c + |Written(r, |block|)|)
  {
    hide HasAt, Decode, Patches, Written, EmptyRound, CopyPassesEnd;
    CoversSome(r, |block|);
    AllRounds(block, 0, region, c, r);
  }

  lemma CoversSome(r: Rounds, n: nat)
    requires Covers(r, n)
    ensures n > 0
  {
  }

  /** So the promise that the last operation may be truncated fails for copies: a block that is to be
      copied as a whole, by a run one byte too long, is rejected. */
  lemma LongCopyRejected(block: seq<byte>)
    requires block != [] && |block| + 1 < TWO64
    ensures Decode(block, 0, Varint.Encode(0) + Varint.Encode(|block| + 1), 0) == Err(CorruptData)
  {
    hide HasAt, Decode, Varint.Encode;
    var r := Last([], |block| + 1);
    var region := Written(r, |block|);
    assert region == Varint.Encode(0) + Varint.Encode(|block| + 1) by {
      assert [] + Varint.Encode(|block| + 1) == Varint.Encode(|block| + 1);
    }
    assert region[0..|region|] == region;
    HasAtSlice(region, 0, region);
    AnyRuns(block, region, 0, r);
  }

  /** For add runs it holds: surplus deltas are read and dropped. */
  lemma LongAddAccepted(block: seq<byte>, add: seq<byte>)
    requires block != [] && |block| <= |add| < TWO64
    ensures var d := Decode(block, 0, Varint.Encode(|add|) + add, 0);
      d == Ok(Patched(AddBytes(block, add[..|block|]), |Varint.Encode(|add|)| + |add|))
  {
    hide HasAt, Decode, Varint.Encode;
    var r := Last(add, 0);
    var region := Written(r, |block|);
    assert region == Varint.Encode(|add|) + add by {
      assert add + [] == add;
    }
    assert region[0..|region|] == region;
    HasAtSlice(region, 0, region);
    AnyRuns(block, region, 0, r);
    var d := Decode(block, 0, region, 0);
    assert d.value.bytes == AddBytes(block, add[..|block|]);
  }
}
