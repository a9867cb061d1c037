/** What the patcher of src/patch.c accepts, what it produces then, and with which error it refuses
    everything else: for every stream, whoever wrote it. */
module Refusals {
  import opened Bytes
  import opened Ops
  import opened Decoder
  import opened Sparse
  import opened SparseRuns

  // ----- reading one operation

  /** Widths of the fields by their two-bit selectors. */
  function CountWidth(e: nat): (w: nat)
  {
    if e == 0 then 1 else if e == 1 then 2 else if e == 2 then 4 else 0
  }

  function RelocateWidth(e: nat): (w: nat)
  {
    if e == 0 then 1 else if e == 1 then 2 else if e == 2 then 4 else 0
  }

  function ByteOffsetWidth(e: nat): (w: nat)
  {
    if e <= 2 then e + 2 else 0
  }

  /** The count, for a selector and the field that follows. */
  function CountValue(s: seq<byte>, first: byte, p: nat): (n: nat)
    requires p + CountWidth(first / 8 % 4) <= |s|
  {
    var e := first / 8 % 4;
    if e == 3 then first % 8 + 1
    else if e == 2 then Field(s, p, 4)
    else Field(s, p, CountWidth(e)) + 1
  }

  /** Operations 0, 2, 3 and 5 have only a count; 6 and 7 do not exist. */
  lemma ParsePlain(s: seq<byte>, p: nat, remaining: nat)
    requires p < |s| && s[p] / 32 != 1 && s[p] / 32 != 4
    ensures var k, next := s[p] / 32, p + 1 + CountWidth(s[p] / 8 % 4);
      if next > |s| then ParseOp(s, p, remaining) == Err(Truncated)
      else
        var n := CountValue(s, s[p], p + 1);
        if n > remaining then ParseOp(s, p, remaining) == Err(CorruptData)
        else if k == 0 then ParseOp(s, p, remaining) == Ok(Parsed(Identity(n), next))
        else if k == 2 then ParseOp(s, p, remaining) == Ok(Parsed(Zero(n), next))
        else if k == 3 then ParseOp(s, p, remaining) == Ok(Parsed(One(n), next))
        else if k == 5 then ParseOp(s, p, remaining) == Ok(Parsed(Literal(n), next))
        else ParseOp(s, p, remaining) == Err(BadOperation)
  {
    hide Field;
  }

  /** Operation 1 has a count and a block offset as sign and magnitude. */
  lemma ParseRelocate(s: seq<byte>, p: nat, remaining: nat)
    requires p < |s| && s[p] / 32 == 1
    ensures var at, e := p + 1 + CountWidth(s[p] / 8 % 4), s[p] / 2 % 4;
      if at > |s| then ParseOp(s, p, remaining) == Err(Truncated)
      else
        var n := CountValue(s, s[p], p + 1);
        if n > remaining then ParseOp(s, p, remaining) == Err(CorruptData)
        else if at + RelocateWidth(e) > |s| then ParseOp(s, p, remaining) == Err(Truncated)
        else
          var d := if e == 3 then 0 else Field(s, at, RelocateWidth(e));
          ParseOp(s, p, remaining)
          == Ok(Parsed(Relocate(n, if s[p] % 2 == 1 then -d else d), at + RelocateWidth(e)))
  {
    hide Field;
  }

  /** `v` is the two's complement value of the `w`-byte number `raw`. */
  ghost predicate TwosComplement(raw: nat, w: nat, v: int)
  {
    (v == raw || v == raw - Pow256(w)) && 0 - Pow256(w) <= 2 * v < Pow256(w)
  }

  /** Operation 4 has a signed byte offset, a count and the length of its deltas. */
  lemma ParseAdd(s: seq<byte>, p: nat, remaining: nat)
    requires p < |s| && s[p] / 32 == 4
    ensures var at := p + 1 + ByteOffsetWidth(s[p] / 2 % 4);
      var end := at + CountWidth(s[p] / 8 % 4);
      if s[p] / 8 % 4 == 3 then ParseOp(s, p, remaining) == Err(CorruptData)
      else if end > |s| then ParseOp(s, p, remaining) == Err(Truncated)
      else if CountValue(s, s[p], at) > remaining then ParseOp(s, p, remaining) == Err(CorruptData)
      else if end + 4 > |s| then ParseOp(s, p, remaining) == Err(Truncated)
      else AddParsed(s, p, ParseOp(s, p, remaining))
  {
    hide Field, Pow256, Signed;
    var e, w := s[p] / 2 % 4, ByteOffsetWidth(s[p] / 2 % 4);
    var at := p + 1 + w;
    if e < 3 && at <= |s| {
      FieldBelow(s, p + 1, w);
      SignedIs(Field(s, p + 1, w), w);
    }
    assert ReadByteOffset(s, p + 1, e)
      == if at > |s| then Err(Truncated) else Ok(Num(if e == 3 then 0 else Signed(Field(s, p + 1, w), w), at));
    hide ReadByteOffset;
    if at <= |s| {
      assert ReadCount(s, at, s[p])
        == if at + CountWidth(s[p] / 8 % 4) > |s| then Err(Truncated)
           else Ok(Num(CountValue(s, s[p], at), at + CountWidth(s[p] / 8 % 4)));
    }
    hide ReadCount;
  }

  /** A COPY_ADD with the fields that stand at `p`. */
  ghost predicate AddParsed(s: seq<byte>, p: nat, r: Result<Parsed>)
    requires p < |s|
  {
    var e, w := s[p] / 2 % 4, ByteOffsetWidth(s[p] / 2 % 4);
    var end := p + 1 + w + CountWidth(s[p] / 8 % 4);
    && end + 4 <= |s| && r.Ok? && r.value.next == end + 4 && r.value.op.CopyAdd?
    && r.value.op.count == CountValue(s, s[p], p + 1 + w)
    && r.value.op.sparse == (s[p] % 2 == 1) && r.value.op.diffLen == Field(s, end, 4)
    && if e == 3 then r.value.op.byteOffset == 0 else TwosComplement(Field(s, p + 1, w), w, r.value.op.byteOffset)
  }

  lemma FieldBelow(s: seq<byte>, p: nat, w: nat)
    requires p + w <= |s|
    ensures Field(s, p, w) < Pow256(w)
  {
    FromLEBound(s[p..p + w]);
  }

  lemma SignedIs(raw: nat, w: nat)
    requires w >= 1 && raw < Pow256(w)
    ensures TwosComplement(raw, w, Signed(raw, w))
  {
    assert Pow256(w) % 2 == 0;
  }

  // ----- executing one operation

  /** The source has the blocks `first .. first + n`. */
  ghost predicate HasBlocks(x: Input, first: int, n: nat)
  {
    0 <= first && (first + n) * x.bs <= |x.src|
  }

  ghost predicate Ready(x: Input, st: State)
  {
    st.opPos <= |x.ops| && st.diffPos <= |x.diff| && st.litPos <= |x.lit|
  }

  lemma BlocksInside(x: Input, first: nat, n: nat)
    requires HasBlocks(x, first, n)
    ensures 0 <= first * x.bs <= (first + n) * x.bs <= |x.src|
  {
    MulNonNeg(first, x.bs);
    MulLe(first, first + n, x.bs);
  }

  /** Copying `n` blocks succeeds if and only if the source has them all. */
  lemma {:induction false} CopyExact(x: Input, first: int, n: nat, out: seq<byte>)
    requires n >= 1
    ensures if HasBlocks(x, first, n)
      then (BlocksInside(x, first, n);
            CopyBlocks(x.src, x.bs, first, n, out) == Ok(out + x.src[first * x.bs..(first + n) * x.bs]))
      else CopyBlocks(x.src, x.bs, first, n, out) == Err(CorruptData)
    decreases n
  {
    var bs := x.bs;
    MulAdd(first, 1, bs);
    MulAdd(first + 1, n - 1, bs);
    MulNonNeg(n - 1, bs);
    if first < 0 || first * bs + bs > |x.src| {
      assert CopyBlocks(x.src, bs, first, n, out) == Err(CorruptData);
    } else {
      MulNonNeg(first, bs);
      var mid := out + x.src[first * bs..first * bs + bs];
      assert CopyBlocks(x.src, bs, first, n, out) == CopyBlocks(x.src, bs, first + 1, n - 1, mid);
      if n > 1 {
        CopyExact(x, first + 1, n - 1, mid);
        if HasBlocks(x, first, n) {
          BlocksInside(x, first + 1, n - 1);
          JoinRange(x.src, first * bs, (first + 1) * bs, (first + n) * bs, out);
        }
      } else {
        assert (first + n) * bs == first * bs + bs;
      }
    }
  }

  lemma JoinRange(s: seq<byte>, a: nat, b: nat, c: nat, out: seq<byte>)
    requires a <= b <= c <= |s|
    ensures (out + s[a..b]) + s[b..c] == out + s[a..c]
  {
    assert s[a..c] == s[a..b] + s[b..c];
  }

  /** COPY_IDENTITY copies exactly its blocks, or refuses. */
  lemma IdentityExact(x: Input, n: nat, st: State)
    requires Ready(x, st) && n >= 1
    ensures if HasBlocks(x, st.block, n)
      then (BlocksInside(x, st.block, n);
            Exec(x, Identity(n), st) == Ok(st.(block := st.block + n,
              out := st.out + x.src[st.block * x.bs..(st.block + n) * x.bs])))
      else Exec(x, Identity(n), st) == Err(CorruptData)
  {
    hide CopyBlocks;
    CopyExact(x, st.block, n, st.out);
  }

  /** COPY_RELOCATE copies exactly the blocks at its offset, or refuses. */
  lemma RelocateExact(x: Input, n: nat, offset: int, st: State)
    requires Ready(x, st) && n >= 1
    ensures var first := st.block + offset;
      if HasBlocks(x, first, n)
      then (BlocksInside(x, first, n);
            Exec(x, Relocate(n, offset), st) == Ok(st.(block := st.block + n,
              out := st.out + x.src[first * x.bs..(first + n) * x.bs])))
      else Exec(x, Relocate(n, offset), st) == Err(CorruptData)
  {
    hide CopyBlocks;
    CopyExact(x, st.block + offset, n, st.out);
  }

  lemma {:induction false} FillExact(v: byte, bs: nat, n: nat, out: seq<byte>)
    ensures 0 <= n * bs && FillBlocks(v, bs, n, out) == out + Fill(v, n * bs)
    decreases n
  {
    MulNonNeg(n, bs);
    if n > 0 {
      MulNonNeg(n - 1, bs);
      MulAdd(1, n - 1, bs);
      FillExact(v, bs, n - 1, out + Fill(v, bs));
      assert Fill(v, n * bs) == Fill(v, bs) + Fill(v, (n - 1) * bs);
      assert (out + Fill(v, bs)) + Fill(v, (n - 1) * bs) == out + Fill(v, n * bs);
    }
  }

  /** ZERO and ONE write their bytes and cannot fail. */
  lemma FillsExact(x: Input, n: nat, st: State)
    requires Ready(x, st)
    ensures 0 <= n * x.bs
    ensures Exec(x, Zero(n), st) == Ok(st.(block := st.block + n, out := st.out + Fill(0, n * x.bs)))
    ensures Exec(x, One(n), st) == Ok(st.(block := st.block + n, out := st.out + Fill(255, n * x.bs)))
  {
    hide FillBlocks, Fill;
    FillExact(0, x.bs, n, st.out);
    FillExact(255, x.bs, n, st.out);
  }

  lemma {:induction false} TakeExact(lit: seq<byte>, p: nat, bs: nat, n: nat, out: seq<byte>)
    requires p <= |lit|
    ensures 0 <= n * bs
    ensures LiteralBlocks(lit, p, bs, n, out)
      == if p + n * bs <= |lit| then Ok(Taken(out + lit[p..p + n * bs], p + n * bs)) else Err(Truncated)
    decreases n
  {
    MulNonNeg(n, bs);
    if n == 0 {
      assert out + lit[p..p] == out;
    } else {
      MulNonNeg(n - 1, bs);
      MulAdd(1, n - 1, bs);
      if p + bs <= |lit| {
        TakeExact(lit, p + bs, bs, n - 1, out + lit[p..p + bs]);
        if p + n * bs <= |lit| {
          JoinRange(lit, p, p + bs, p + n * bs, out);
        }
      }
    }
  }

  /** LITERAL takes exactly its blocks from the literal stream, or refuses. */
  lemma LiteralExact(x: Input, n: nat, st: State)
    requires Ready(x, st)
    ensures 0 <= n * x.bs
    ensures Exec(x, Literal(n), st)
      == if st.litPos + n * x.bs <= |x.lit|
         then Ok(st.(block := st.block + n, litPos := st.litPos + n * x.bs,
                     out := st.out + x.lit[st.litPos..st.litPos + n * x.bs]))
         else Err(Truncated)
  {
    hide LiteralBlocks;
    TakeExact(x.lit, st.litPos, x.bs, n, st.out);
  }

  // ----- COPY_ADD with dense deltas

  /** How many blocks are looked at before the deltas run out, at most `n`. */
  function Looked(m: nat, bs: nat, n: nat): (k: nat)
    requires bs >= 1
  {
    Min(n, m / bs + 1)
  }

  lemma LookedLess(m: nat, bs: nat, n: nat)
    requires bs >= 1 && m >= bs && n >= 1
    ensures Looked(m, bs, n) == Looked(m - bs, bs, n - 1) + 1
  {
    var q, r := (m - bs) / bs, (m - bs) % bs;
    assert m - bs == q * bs + r;
    MulAdd(q, 1, bs);
    DivModUnique(m, bs, q + 1, r);
  }

  lemma LookedOne(m: nat, bs: nat, n: nat)
    requires bs >= 1 && n >= 1
    ensures Looked(m, bs, n) >= 1 && (m < bs ==> Looked(m, bs, n) == 1)
  {
  }

  lemma DenseBlock(block: seq<byte>, region: seq<byte>, c: nat)
    requires c + |block| <= |region|
    ensures AddRange(block, 0, region, c, |block|) == AddBytes(block, region[c..c + |block|])
  {
  }

  lemma AddJoin(a: seq<byte>, b: seq<byte>, d: seq<byte>, e: seq<byte>)
    requires |a| == |d| && |b| == |e|
    ensures AddBytes(a + b, d + e) == AddBytes(a, d) + AddBytes(b, e)
  {
    hide AddBytes;
    assert forall k :: 0 <= k < |a + b| ==> (a + b)[k] == (if k < |a| then a[k] else b[k - |a|]);
  }

  /** Source and deltas have what `n` blocks need. */
  ghost predicate DenseReady(src: seq<byte>, bs: nat, pos: int, region: seq<byte>, c: nat, n: nat)
  {
    0 <= pos && 0 <= n * bs && pos + n * bs <= |src| && c + n * bs <= |region|
  }

  /** Dense deltas: succeeds if and only if source and deltas have all the bytes; the first block that lacks
      something decides the error, and the source is looked at first. */
  lemma {:induction false} DenseExact(src: seq<byte>, bs: nat, pos: int, region: seq<byte>, c: nat, n: nat,
                                      out: seq<byte>)
    requires bs >= 1 && n >= 1 && c <= |region|
    ensures AddBlocks(src, bs, pos, region, c, false, n, out)
      == if DenseReady(src, bs, pos, region, c, n)
         then Ok(out + AddBytes(src[pos..pos + n * bs], region[c..c + n * bs]))
         else if 0 <= pos && pos + Looked(|region| - c, bs, n) * bs <= |src| then Err(Truncated)
         else Err(CorruptData)
    decreases n
  {
    hide Sparse.AddRange, AddBytes, Sparse.Decode, Looked, AddBlocks;
    var m := |region| - c;
    MulAdd(1, n - 1, bs);
    MulNonNeg(n - 1, bs);
    LookedOne(m, bs, n);
    MulLe(1, Looked(m, bs, n), bs);
    AddUnfold(src, bs, pos, region, c, false, n, out);
    if 0 <= pos && pos + bs <= |src| && c + bs <= |region| {
      var block := src[pos..pos + bs];
      DenseBlock(block, region, c);
      var mid := out + AddBytes(block, region[c..c + bs]);
      LookedLess(m, bs, n);
      MulAdd(Looked(m - bs, bs, n - 1), 1, bs);
      if n > 1 {
        DenseExact(src, bs, pos + bs, region, c + bs, n - 1, mid);
        if DenseReady(src, bs, pos, region, c, n) {
          DenseJoin(src, pos, region, c, bs, n * bs, out);
        }
      } else {
        assert n * bs == bs;
        AddNone(src, bs, pos + bs, region, c + bs, false, mid);
      }
    }
  }

  /** One block, then the others. */
  lemma AddUnfold(src: seq<byte>, bs: nat, pos: int, region: seq<byte>, c: nat, sparse: bool, n: nat, out: seq<byte>)
    requires n >= 1 && c <= |region|
    ensures var r := AddBlocks(src, bs, pos, region, c, sparse, n, out);
      if pos < 0 || pos + bs > |src| then r == Err(CorruptData)
      else
        var d := AddBlock(src[pos..pos + bs], region, c, sparse);
        if d.Err? then r == Err(d.error)
        else r == AddBlocks(src, bs, pos + bs, region, d.value.cursor, sparse, n - 1, out + d.value.bytes)
  {
    hide AddBlock;
  }

  lemma AddNone(src: seq<byte>, bs: nat, pos: int, region: seq<byte>, c: nat, sparse: bool, out: seq<byte>)
    requires c <= |region|
    ensures AddBlocks(src, bs, pos, region, c, sparse, 0, out) == Ok(out)
  {
  }

  lemma DenseJoin(src: seq<byte>, pos: nat, region: seq<byte>, c: nat, a: nat, b: nat, out: seq<byte>)
    requires a <= b && pos + b <= |src| && c + b <= |region|
    ensures (out + AddBytes(src[pos..pos + a], region[c..c + a]))
      + AddBytes(src[pos + a..pos + b], region[c + a..c + b])
      == out + AddBytes(src[pos..pos + b], region[c..c + b])
  {
    hide AddBytes;
    assert src[pos..pos + b] == src[pos..pos + a] + src[pos + a..pos + b];
    assert region[c..c + b] == region[c..c + a] + region[c + a..c + b];
    AddJoin(src[pos..pos + a], src[pos + a..pos + b], region[c..c + a], region[c + a..c + b]);
  }

  // ----- COPY_ADD with sparse deltas

  /** The rounds of the blocks from `j` on, one after the other. */
  function AllWritten(rs: seq<Rounds>, j: nat, bs: nat): (s: seq<byte>)
    requires j <= |rs|
    decreases |rs| - j
  {
    if j == |rs| then [] else Written(rs[j], bs) + AllWritten(rs, j + 1, bs)
  }

  ghost predicate AllCover(rs: seq<Rounds>, bs: nat)
  {
    forall k :: 0 <= k < |rs| ==> Covers(rs[k], bs) && Sized(rs[k])
  }

  /** No copy run passes the end of its block and no round before a block's last is empty. */
  ghost predicate AllProper(rs: seq<Rounds>, j: nat, bs: nat)
  {
    forall k :: j <= k < |rs| ==> !CopyPassesEnd(rs[k], bs) && !EmptyRound(rs[k])
  }

  /** `block` with the rounds' deltas. */
  function PatchBlock(block: seq<byte>, r: Rounds, k: nat): (s: seq<byte>)
    requires k <= |block|
    ensures |s| == |block| - k
    ensures forall q :: 0 <= q < |s| ==> s[q] == AddByte(block[k + q], DeltaAt(r, k + q))
    decreases |block| - k
  {
    if k == |block| then [] else [AddByte(block[k], DeltaAt(r, k))] + PatchBlock(block, r, k + 1)
  }

  lemma PatchesIs(s: seq<byte>, block: seq<byte>, r: Rounds)
    requires Patches(s, block, r, 0)
    ensures s == PatchBlock(block, r, 0)
  {
    hide PatchBlock, DeltaAt;
  }

  /** The source bytes from `pos` on with the deltas of the blocks from `j` on. */
  function PatchAll(src: seq<byte>, bs: nat, pos: nat, rs: seq<Rounds>, j: nat): (s: seq<byte>)
    requires j <= |rs|
    decreases |rs| - j
  {
    if j == |rs| || pos + bs > |src| then []
    else PatchBlock(src[pos..pos + bs], rs[j], 0) + PatchAll(src, bs, pos + bs, rs, j + 1)
  }

  /** Sparse deltas, for any alternating runs that cover the blocks: succeeds if and only if the source has all
      the bytes, no copy run passes the end of its block and no round before a block's last is empty. */
  lemma {:induction false} SparseExact(src: seq<byte>, bs: nat, pos: int, region: seq<byte>, c: nat,
                                       rs: seq<Rounds>, j: nat, out: seq<byte>)
    requires j < |rs| && AllCover(rs, bs) && c <= |region| && HasAt(region, c, AllWritten(rs, j, bs))
    ensures 0 <= (|rs| - j) * bs
    ensures AddBlocks(src, bs, pos, region, c, true, |rs| - j, out)
      == if 0 <= pos && pos + (|rs| - j) * bs <= |src| && AllProper(rs, j, bs)
         then Ok(out + PatchAll(src, bs, pos, rs, j)) else Err(CorruptData)
    decreases |rs| - j
  {
    hide HasAt, Sparse.Decode, Written, Patches, PatchBlock, Covers, Sized, AllProper, AddBlocks, AllWritten;
    var n, r := |rs| - j, rs[j];
    MulAdd(1, n - 1, bs);
    MulNonNeg(n - 1, bs);
    WrittenSplit(rs, j, bs, region, c);
    ProperSplit(rs, j, bs);
    AddUnfold(src, bs, pos, region, c, true, n, out);
    if 0 <= pos && pos + bs <= |src| {
      var block := src[pos..pos + bs];
      AnyRuns(block, region, c, r);
      var d := Sparse.Decode(block, 0, region, c);
      if d.Ok? {
        PatchesIs(d.value.bytes, block, r);
        var mid := out + d.value.bytes;
        assert mid + PatchAll(src, bs, pos + bs, rs, j + 1) == out + PatchAll(src, bs, pos, rs, j);
        if n > 1 {
          SparseExact(src, bs, pos + bs, region, d.value.cursor, rs, j + 1, mid);
        } else {
          AddNone(src, bs, pos + bs, region, d.value.cursor, true, mid);
          assert PatchAll(src, bs, pos + bs, rs, j + 1) == [] && mid + [] == mid;
          NoneProper(rs, bs);
        }
      }
    }
  }

  lemma WrittenSplit(rs: seq<Rounds>, j: nat, bs: nat, region: seq<byte>, c: nat)
    requires j < |rs| && HasAt(region, c, AllWritten(rs, j, bs))
    ensures HasAt(region, c, Written(rs[j], bs)) && HasAt(region, c + |Written(rs[j], bs)|, AllWritten(rs, j + 1, bs))
  {
    hide HasAt, Written;
    HasAtSplit(region, c, Written(rs[j], bs), AllWritten(rs, j + 1, bs));
  }

  lemma ProperSplit(rs: seq<Rounds>, j: nat, bs: nat)
    requires j < |rs|
    ensures AllProper(rs, j, bs) <==>
      !CopyPassesEnd(rs[j], bs) && !EmptyRound(rs[j]) && AllProper(rs, j + 1, bs)
  {
    hide CopyPassesEnd, EmptyRound;
  }

  lemma NoneProper(rs: seq<Rounds>, bs: nat)
    ensures AllProper(rs, |rs|, bs)
  {
  }

  /** COPY_ADD needs its deltas to be there before anything else. */
  lemma AddNeedsDeltas(x: Input, n: nat, offset: int, sparse: bool, diffLen: nat, st: State)
    requires Ready(x, st)
    ensures var r := Exec(x, CopyAdd(n, offset, sparse, diffLen), st);
      if st.diffPos + diffLen > |x.diff| then r == Err(Truncated)
      else
        var region := x.diff[st.diffPos..st.diffPos + diffLen];
        var out := AddBlocks(x.src, x.bs, st.block * x.bs + offset, region, 0, sparse, n, st.out);
        r == if out.Ok? then Ok(st.(block := st.block + n, diffPos := st.diffPos + diffLen, out := out.value))
             else Err(out.error)
  {
    hide AddBlocks;
  }

  /** COPY_ADD with dense deltas, as a whole. */
  lemma AddDenseExact(x: Input, n: nat, offset: int, diffLen: nat, st: State)
    requires Ready(x, st) && x.bs >= 1 && n >= 1 && st.diffPos + diffLen <= |x.diff|
    ensures var pos, r := st.block * x.bs + offset, Exec(x, CopyAdd(n, offset, false, diffLen), st);
      0 <= n * x.bs &&
      if 0 <= pos && pos + n * x.bs <= |x.src| && n * x.bs <= diffLen
      then r == Ok(st.(block := st.block + n, diffPos := st.diffPos + diffLen,
                       out := st.out + AddBytes(x.src[pos..pos + n * x.bs], x.diff[st.diffPos..st.diffPos + n * x.bs])))
      else if 0 <= pos && pos + Looked(diffLen, x.bs, n) * x.bs <= |x.src| then r == Err(Truncated)
      else r == Err(CorruptData)
  {
    hide AddBlocks, AddBytes, Exec, Looked;
    var region := x.diff[st.diffPos..st.diffPos + diffLen];
    MulNonNeg(n, x.bs);
    AddNeedsDeltas(x, n, offset, false, diffLen, st);
    DenseExact(x.src, x.bs, st.block * x.bs + offset, region, 0, n, st.out);
    if n * x.bs <= diffLen {
      assert region[0..0 + n * x.bs] == x.diff[st.diffPos..st.diffPos + n * x.bs];
    }
  }

  /** The stream of operations ends too early. */
  lemma StreamEnds(x: Input, st: State)
    requires Inside(x, st) && st.block < x.destBlocks && st.opPos == |x.ops|
    ensures Run(x, st) == Err(Truncated)
  {
  }
}
