/** The sparse diff format of OP_COPY_ADD: the writer in src/encoding/operation_encoder.c
    and the reader in src/patch.c. One block at a time, alternating copy-add and copy
    runs; a copy-add run ends only at two consecutive zero deltas (or at a zero that is
    the block's last byte). */
module Sparse {
  import opened Bytes
  import Varint

  // ----- specification of the writer

  predicate ZeroPair(d: seq<byte>, p: nat)
    requires p < |d|
  {
    d[p] == 0 && (p + 1 >= |d| || d[p + 1] == 0)
  }

  /** Where the copy-add run that starts at `p` ends. */
  function AddEnd(d: seq<byte>, p: nat): (e: nat)
    requires p <= |d|
    ensures p <= e <= |d|
    ensures e < |d| ==> d[e] == 0
    decreases |d| - p
  {
    if p == |d| || ZeroPair(d, p) then p else AddEnd(d, p + 1)
  }

  /** Where the run of zero deltas that starts at `p` ends. */
  function ZeroEnd(d: seq<byte>, p: nat): (e: nat)
    requires p <= |d|
    ensures p <= e <= |d|
    ensures p < |d| && d[p] == 0 ==> p < e
    ensures forall k :: p <= k < e ==> d[k] == 0
    ensures e < |d| ==> d[e] != 0
    decreases |d| - p
  {
    if p == |d| || d[p] != 0 then p else ZeroEnd(d, p + 1)
  }

  /** The bytes written for `d[p..]`, starting in copy-add mode. */
  function Encode(d: seq<byte>, p: nat): (r: seq<byte>)
    requires p <= |d|
    decreases |d| - p, 1
  {
    if p == |d| then []
    else
      var e := AddEnd(d, p);
      Varint.Encode(e - p) + d[p..e] + EncodeCopy(d, e)
  }

  /** The bytes written for `d[p..]`, starting in copy mode. */
  function EncodeCopy(d: seq<byte>, p: nat): (r: seq<byte>)
    requires p <= |d| && (p < |d| ==> d[p] == 0)
    decreases |d| - p, 0
  {
    if p == |d| then []
    else
      var e := ZeroEnd(d, p);
      Varint.Encode(e - p) + Encode(d, e)
  }

  // ----- worst-case size

  lemma {:induction false} AfterNonZero(d: seq<byte>, p: nat)
    requires p <= |d| && (p < |d| ==> d[p] != 0)
    ensures |Encode(d, p)| <= 2 * (|d| - p)
    decreases |d| - p, 1
  {
    if p < |d| {
      var e := AddEnd(d, p);
      Varint.EncodeShort(e - p);
      CopyBound(d, e);
    }
  }

  lemma {:induction false} CopyBound(d: seq<byte>, p: nat)
    requires p <= |d| && (p < |d| ==> d[p] == 0)
    ensures |EncodeCopy(d, p)| <= 2 * (|d| - p)
    ensures p < |d| ==> |EncodeCopy(d, p)| < 2 * (|d| - p)
    decreases |d| - p, 0
  {
    if p < |d| {
      var e := ZeroEnd(d, p);
      Varint.EncodeShort(e - p);
      AfterNonZero(d, e);
    }
  }

  /** A block of deltas never needs more than two bytes per output byte, so the
      encoder's scratch buffer of `2 * block_size` bytes per block cannot overflow. */
  lemma SizeBound(d: seq<byte>)
    ensures |Encode(d, 0)| <= 2 * |d|
  {
    if d != [] {
      var e := AddEnd(d, 0);
      CopyBound(d, e);
      if e > 0 {
        Varint.EncodeShort(e);
      }
    }
  }

  // ----- the writer

  /** `memcpy(buf + len, data, |data|)`. */
  method Append(buf: array<byte>, len: nat, data: seq<byte>) returns (len': nat)
    requires len + |data| <= buf.Length
    modifies buf
    ensures len' == len + |data|
    ensures buf[..len'] == old(buf[..len]) + data
  {
    forall k | 0 <= k < |data| {
      buf[len + k] := data[k];
    }
    len' := len + |data|;
  }

  /** The inner copy-add scan: stops at two consecutive zeros or at the end. */
  method ScanAdd(delta: seq<byte>, start: nat) returns (pos: nat)
    requires start <= |delta|
    ensures pos == AddEnd(delta, start)
  {
    pos := start;
    while pos < |delta|
      invariant start <= pos <= |delta|
      invariant AddEnd(delta, pos) == AddEnd(delta, start)
    {
      if delta[pos] == 0 && (pos + 1 >= |delta| || delta[pos + 1] == 0) {
        break;
      }
      pos := pos + 1;
    }
  }

  /** The inner copy scan: stops at a nonzero delta or at the end. */
  method ScanZeros(delta: seq<byte>, start: nat) returns (pos: nat)
    requires start <= |delta|
    ensures pos == ZeroEnd(delta, start)
  {
    pos := start;
    while pos < |delta|
      invariant start <= pos <= |delta|
      invariant ZeroEnd(delta, pos) == ZeroEnd(delta, start)
    {
      if delta[pos] != 0 {
        break;
      }
      pos := pos + 1;
    }
  }

  /** The parts of the writer's bytes for `d[p..]`, wherever they stand in a stream. */
  lemma SplitAdd(s: seq<byte>, c: nat, d: seq<byte>, p: nat)
    requires p < |d| && HasAt(s, c, Encode(d, p))
    ensures var e := AddEnd(d, p);
      var v := Varint.Encode(e - p);
      && HasAt(s, c, v + d[p..e]) && HasAt(s, c, v) && HasAt(s, c + |v|, d[p..e])
      && HasAt(s, c + |v| + (e - p), EncodeCopy(d, e))
      && c + |v| + (e - p) <= |s|
      && |Encode(d, p)| == |v| + (e - p) + |EncodeCopy(d, e)|
  {
    var e := AddEnd(d, p);
    var v := Varint.Encode(e - p);
    HasAtSplit(s, c, v + d[p..e], EncodeCopy(d, e));
    HasAtSplit(s, c, v, d[p..e]);
  }

  lemma SplitCopy(s: seq<byte>, c: nat, d: seq<byte>, p: nat)
    requires p < |d| && d[p] == 0 && HasAt(s, c, EncodeCopy(d, p))
    ensures var e := ZeroEnd(d, p);
      var v := Varint.Encode(e - p);
      && HasAt(s, c, v) && HasAt(s, c + |v|, Encode(d, e)) && c + |v| <= |s|
      && |EncodeCopy(d, p)| == |v| + |Encode(d, e)|
  {
    HasAtSplit(s, c, Varint.Encode(ZeroEnd(d, p) - p), Encode(d, ZeroEnd(d, p)));
  }

  lemma EncodeEnd(d: seq<byte>)
    ensures Encode(d, |d|) == [] && EncodeCopy(d, |d|) == []
  {
  }

  /** Appends the next part of `want`. */
  method AppendPart(buf: array<byte>, len: nat, part: seq<byte>, ghost want: seq<byte>) returns (len': nat)
    requires len <= |want| <= buf.Length && buf[..len] == want[..len] && HasAt(want, len, part)
    modifies buf
    ensures len' == len + |part| <= |want| && buf[..len'] == want[..len']
  {
    HasAtSlice(want, len, part);
    len' := Append(buf, len, part);
    assert want[..len'] == want[..len] + part;
  }

  /** `buf[..len]` is what has been written of `want`, and `rest` is exactly what is missing. */
  ghost predicate Writing(buf: array<byte>, len: nat, rest: seq<byte>, want: seq<byte>)
    reads buf
  {
    && len <= |want| <= buf.Length
    && buf[..len] == want[..len]
    && HasAt(want, len, rest) && len + |rest| == |want|
  }

  /** A copy-add run: its length and its deltas. */
  method WriteAdd(delta: seq<byte>, start: nat, buf: array<byte>, len: nat, ghost want: seq<byte>)
    returns (pos: nat, len': nat)
    requires start < |delta| && Writing(buf, len, Encode(delta, start), want)
    modifies buf
    ensures pos == AddEnd(delta, start) && len' >= len
    ensures Writing(buf, len', EncodeCopy(delta, pos), want)
  {
    hide Encode, EncodeCopy, Varint.Encode, HasAt, AddEnd;
    SplitAdd(want, len, delta, start);
    pos := ScanAdd(delta, start);
    var varint := Varint.EncodeVarint(pos - start);
    len' := AppendPart(buf, len, varint + delta[start..pos], want);
  }

  /** A copy run: only its length. */
  method WriteCopy(delta: seq<byte>, start: nat, buf: array<byte>, len: nat, ghost want: seq<byte>)
    returns (pos: nat, len': nat)
    requires start < |delta| && delta[start] == 0 && Writing(buf, len, EncodeCopy(delta, start), want)
    modifies buf
    ensures pos == ZeroEnd(delta, start) && len' >= len
    ensures Writing(buf, len', Encode(delta, pos), want)
  {
    hide Encode, EncodeCopy, Varint.Encode, HasAt, ZeroEnd;
    SplitCopy(want, len, delta, start);
    pos := ScanZeros(delta, start);
    var varint := Varint.EncodeVarint(pos - start);
    len' := AppendPart(buf, len, varint, want);
  }

  lemma StartWriting(buf: array<byte>, start: nat, delta: seq<byte>)
    requires start + |Encode(delta, 0)| <= buf.Length
    ensures Writing(buf, start, Encode(delta, 0), buf[..start] + Encode(delta, 0))
  {
    HasAtSlice(buf[..start] + Encode(delta, 0), start, Encode(delta, 0));
  }

  lemma DoneWriting(buf: array<byte>, len: nat, delta: seq<byte>, want: seq<byte>)
    requires Writing(buf, len, Encode(delta, |delta|), want) || Writing(buf, len, EncodeCopy(delta, |delta|), want)
    ensures len == |want| && buf[..len] == want
  {
  }

  /** Writes one block's deltas at `buf[start..]`; every store is inside the two bytes
      per delta that the caller provides. */
  method EncodeBlock(delta: seq<byte>, buf: array<byte>, start: nat) returns (len: nat)
    requires start + 2 * |delta| <= buf.Length
    modifies buf
    ensures start <= len <= start + 2 * |delta|
    ensures buf[..len] == old(buf[..start]) + Encode(delta, 0)
  {
    hide *;
    SizeBound(delta);
    ghost var want := buf[..start] + Encode(delta, 0);
    StartWriting(buf, start, delta);
    var pos := 0;
    len := start;
    while pos < |delta|
      invariant 0 <= pos <= |delta| && start <= len
      invariant Writing(buf, len, Encode(delta, pos), want)
    {
      pos, len := WriteAdd(delta, pos, buf, len, want);
      if pos >= |delta| {
        break;
      }
      pos, len := WriteCopy(delta, pos, buf, len, want);
    }
    DoneWriting(buf, len, delta, want);
  }

  // ----- specification of the reader

  /** A block after patching and the diff cursor after it. */
  datatype Patched = Patched(bytes: seq<byte>, cursor: nat)

  /** `block` with the `n` diff bytes at `region[c..]` added from position `out` on. */
  function AddRange(block: seq<byte>, out: nat, region: seq<byte>, c: nat, n: nat): (r: seq<byte>)
    requires out + n <= |block| && c + n <= |region|
    ensures |r| == |block|
    ensures forall k :: 0 <= k < out ==> r[k] == block[k]
    ensures forall k :: out + n <= k < |block| ==> r[k] == block[k]
    ensures forall k :: out <= k < out + n ==> r[k] == AddByte(block[k], region[c + (k - out)])
    decreases n
  {
    if n == 0 then block
    else AddRange(block[out := AddByte(block[out], region[c])], out + 1, region, c + 1, n - 1)
  }

  /** The reader's loop: `out` bytes of the block done, the diff cursor at `c`. */
  function Decode(block: seq<byte>, out: nat, region: seq<byte>, c: nat): (r: Result<Patched>)
    requires out <= |block| && c <= |region|
    ensures r.Ok? ==> |r.value.bytes| == |block| && c <= r.value.cursor <= |region|
    decreases |block| - out, 1
  {
    if out == |block| then Ok(Patched(block, c))
    else
      var add :- Varint.Decode(region, c, 0, 0);
      if add.value > |region| - add.next then Err(Truncated)
      else
        var n := Min(add.value, |block| - out);
        DecodeCopy(AddRange(block, out, region, add.next, n), out + n, region, add.next + add.value, add.value)
  }

  /** The rest of a round, after a copy-add run of `addLen` diff bytes. */
  function DecodeCopy(block: seq<byte>, out: nat, region: seq<byte>, c: nat, addLen: nat): (r: Result<Patched>)
    requires out <= |block| && c <= |region|
    ensures r.Ok? ==> |r.value.bytes| == |block| && c <= r.value.cursor <= |region|
    decreases |block| - out, if addLen == 0 then 0 else 2
  {
    if out == |block| then Ok(Patched(block, c))
    else
      var copy :- Varint.Decode(region, c, 0, 0);
      if copy.value > |block| - out then Err(CorruptData)
      else if addLen == 0 && copy.value == 0 then Err(CorruptData)
      else Decode(block, out + copy.value, region, copy.next)
  }

  // ----- the reader

  /** Applies a copy-add run; all its diff bytes are consumed even when the block is full. */
  method ApplyAdd(block: array<byte>, start: nat, region: seq<byte>, c: nat, addLen: nat) returns (out: nat)
    requires start <= block.Length && c + addLen <= |region|
    modifies block
    ensures out == start + Min(addLen, block.Length - start)
    ensures block[..] == AddRange(old(block[..]), start, region, c, out - start)
  {
    out := start;
    ghost var n := Min(addLen, block.Length - start);
    for k := 0 to addLen
      invariant out == start + Min(k, n)
      invariant AddRange(block[..], out, region, c + (out - start), n - (out - start))
        == AddRange(old(block[..]), start, region, c, n)
    {
      if out < block.Length {
        ghost var before := block[..];
        block[out] := AddByte(block[out], region[c + k]);
        assert block[..] == before[out := block[out]];
        out := out + 1;
      }
    }
  }

  /** Patches `block` in place and returns the new diff cursor. */
  method DecodeBlock(block: array<byte>, region: seq<byte>, start: nat) returns (r: Result<nat>)
    requires start <= |region|
    modifies block
    ensures var spec := Decode(old(block[..]), 0, region, start);
      if spec.Ok? then r == Ok(spec.value.cursor) && block[..] == spec.value.bytes
      else r == Err(spec.error)
  {
    hide Varint.Decode, AddRange;
    ghost var spec := Decode(block[..], 0, region, start);
    var out, cursor := 0, start;
    while out < block.Length
      invariant 0 <= out <= block.Length && start <= cursor <= |region|
      invariant spec == Decode(block[..], out, region, cursor)
      decreases block.Length - out
    {
      var add := Varint.ReadVarint(region, cursor);
      if add.Err? { return Err(add.error); }
      cursor := add.value.next;
      var addLen := add.value.value;
      if addLen > |region| - cursor { return Err(Truncated); }
      out := ApplyAdd(block, out, region, cursor, addLen);
      cursor := cursor + addLen;
      if out >= block.Length { break; }
      var copy := Varint.ReadVarint(region, cursor);
      if copy.Err? { return Err(copy.error); }
      cursor := copy.value.next;
      var copyLen := copy.value.value;
      if copyLen > block.Length - out { return Err(CorruptData); }
      out := out + copyLen;
      if addLen == 0 && copyLen == 0 && out < block.Length { return Err(CorruptData); }
    }
    return Ok(cursor);
  }

  // ----- round trip

  /** `r` is `block` with `delta` added from `out` on. */
  ghost predicate Added(r: seq<byte>, block: seq<byte>, delta: seq<byte>, out: nat)
  {
    && |r| == |block| == |delta|
    && (forall k :: 0 <= k < out && k < |block| ==> r[k] == block[k])
    && (forall k :: out <= k < |block| ==> r[k] == AddByte(block[k], delta[k]))
  }

  /** A copy-add run that reads `delta[out..e]`, then the rest of the deltas. */
  lemma AddRangeThen(block: seq<byte>, delta: seq<byte>, out: nat, e: nat, region: seq<byte>, c: nat, r: seq<byte>)
    requires out <= e <= |block| == |delta| && HasAt(region, c, delta[out..e])
    requires Added(r, AddRange(block, out, region, c, e - out), delta, e)
    ensures Added(r, block, delta, out)
  {
    forall k | out <= k < e ensures r[k] == AddByte(block[k], delta[k]) {
      HasAtByte(region, c, delta[out..e], k - out);
    }
  }

  /** The first half of a round of the reader, for a copy-add run that ends at `e`. */
  lemma DecodeStep(block: seq<byte>, out: nat, e: nat, region: seq<byte>, c: nat, next: nat)
    requires out <= e <= |block| && out < |block| && c <= |region|
    requires Varint.Decode(region, c, 0, 0) == Ok(Varint.Read(e - out, next))
    requires next + (e - out) <= |region|
    ensures Decode(block, out, region, c)
      == DecodeCopy(AddRange(block, out, region, next, e - out), e, region, next + (e - out), e - out)
  {
  }

  lemma DecodeEnd(block: seq<byte>, region: seq<byte>, c: nat, addLen: nat, delta: seq<byte>)
    requires c <= |region| && |block| == |delta|
    ensures Decode(block, |block|, region, c) == Ok(Patched(block, c))
    ensures DecodeCopy(block, |block|, region, c, addLen) == Ok(Patched(block, c))
    ensures Added(block, block, delta, |block|)
  {
  }

  /** The second half of a round, for a copy run that ends at `e`. */
  lemma DecodeCopyStep(block: seq<byte>, out: nat, e: nat, region: seq<byte>, c: nat, next: nat, addLen: nat)
    requires out < e <= |block| && c <= |region|
    requires Varint.Decode(region, c, 0, 0) == Ok(Varint.Read(e - out, next))
    ensures DecodeCopy(block, out, region, c, addLen) == Decode(block, e, region, next)
  {
  }

  lemma {:induction false} RoundTripFrom(block: seq<byte>, delta: seq<byte>, out: nat, region: seq<byte>, c: nat)
    returns (r: Patched)
    requires out <= |block| == |delta| < TWO64 && c <= |region|
    requires HasAt(region, c, Encode(delta, out))
    ensures Decode(block, out, region, c) == Ok(r)
    ensures Added(r.bytes, block, delta, out) && r.cursor == c + |Encode(delta, out)|
    decreases |delta| - out, 1
  {
    hide *;
    if out == |delta| {
      EncodeEnd(delta);
      DecodeEnd(block, region, c, 0, delta);
      return Patched(block, c);
    }
    var e := AddEnd(delta, out);
    var next := c + |Varint.Encode(e - out)|;
    SplitAdd(region, c, delta, out);
    Varint.RoundTrip(region, c, e - out);
    DecodeStep(block, out, e, region, c, next);
    r := RoundTripCopy(AddRange(block, out, region, next, e - out), delta, e, region, next + (e - out), e - out);
    AddRangeThen(block, delta, out, e, region, next, r.bytes);
  }

  lemma {:induction false} RoundTripCopy(block: seq<byte>, delta: seq<byte>, out: nat, region: seq<byte>, c: nat,
                                         addLen: nat)
    returns (r: Patched)
    requires out <= |block| == |delta| < TWO64 && c <= |region| && (out < |delta| ==> delta[out] == 0)
    requires HasAt(region, c, EncodeCopy(delta, out))
    ensures DecodeCopy(block, out, region, c, addLen) == Ok(r)
    ensures Added(r.bytes, block, delta, out) && r.cursor == c + |EncodeCopy(delta, out)|
    decreases |delta| - out, 0
  {
    hide *;
    if out == |delta| {
      EncodeEnd(delta);
      DecodeEnd(block, region, c, addLen, delta);
      return Patched(block, c);
    }
    var e := ZeroEnd(delta, out);
    var next := c + |Varint.Encode(e - out)|;
    SplitCopy(region, c, delta, out);
    Varint.RoundTrip(region, c, e - out);
    DecodeCopyStep(block, out, e, region, c, next, addLen);
    r := RoundTripFrom(block, delta, e, region, next);
    AddedZeros(block, delta, out, e, r.bytes);
  }

  lemma AddedZeros(block: seq<byte>, delta: seq<byte>, out: nat, e: nat, r: seq<byte>)
    requires out <= e && Added(r, block, delta, e) && e <= |delta|
    requires forall k :: out <= k < e ==> delta[k] == 0
    ensures Added(r, block, delta, out)
  {
  }

  /** Decoding what the writer wrote for a block restores source + delta, consumes exactly
      the bytes written for that block, and raises none of the reader's errors. */
  lemma RoundTrip(block: seq<byte>, delta: seq<byte>, region: seq<byte>, c: nat)
    requires |block| == |delta| < TWO64
    requires c <= |region| && HasAt(region, c, Encode(delta, 0))
    ensures Decode(block, 0, region, c) == Ok(Patched(AddBytes(block, delta), c + |Encode(delta, 0)|))
  {
    var r := RoundTripFrom(block, delta, 0, region, c);
    assert r.bytes == AddBytes(block, delta);
  }
}
