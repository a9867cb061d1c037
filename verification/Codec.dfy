/** The codec theorem: decoding what the encoder writes for a sound tracker gives back the
    destination image, exactly when no run is 2^32 blocks or longer. */
module Codec {
  import opened Bytes
  import opened Ops
  import opened Matches
  import opened Encoder
  import opened Decoder
  import Sparse

  /** The widest count field is 32 bits: every run from block `i` on fits in it. */
  ghost predicate ShortRuns(t: seq<BlockState>, bs: nat, i: nat)
    requires i <= |t| && bs >= 1
    decreases |t| - i
  {
    i == |t| || (RunLength(t, bs, i) < TWO32 && ShortRuns(t, bs, i + RunLength(t, bs, i)))
  }

  /** Fewer than 2^32 destination blocks are always enough. */
  lemma {:induction false} FewBlocks(t: seq<BlockState>, bs: nat, i: nat)
    requires i <= |t| < TWO32 && bs >= 1
    ensures ShortRuns(t, bs, i)
    decreases |t| - i
  {
    if i < |t| {
      FewBlocks(t, bs, i + RunLength(t, bs, i));
    }
  }

  /** The tracker, the images and the block size of one encoding. */
  datatype Job = Job(t: seq<BlockState>, src: seq<byte>, dest: seq<byte>, bs: nat) {
    ghost predicate Valid()
    {
      1 <= bs <= 0x100_0000 && |dest| == |t| * bs && AllSound(t, src, dest, bs)
    }

    /** The destination up to block `i`. */
    ghost function Done(i: nat): (d: seq<byte>)
      requires Valid() && i <= |t|
      ensures |d| == i * bs
    {
      MulNonNeg(i, bs);
      MulLe(i, |t|, bs);
      dest[..i * bs]
    }

    ghost function Enc(i: nat): (s: Streams)
      requires Valid() && i <= |t|
      ensures EncodeFrom(t, bs, dest, i) == Ok(s)
    {
      EncodeSucceeds(t, bs, dest, i);
      EncodeFrom(t, bs, dest, i).value
    }

    ghost function Feed(): (x: Input)
      requires Valid()
    {
      Input(src, bs, |t|, Enc(0).op, Enc(0).diff, Enc(0).lit)
    }
  }

  // ----- one block

  lemma Grow(job: Job, i: nat)
    requires job.Valid() && i < |job.t|
    ensures i * job.bs + job.bs <= |job.dest|
    ensures job.Done(i) + Block(job.dest, job.bs, i) == job.Done(i + 1)
  {
    BlockInside(job.dest, job.bs, |job.t|, i);
    MulAdd(i, 1, job.bs);
  }

  lemma SoundBlock(job: Job, i: nat)
    requires job.Valid() && i < |job.t|
    ensures i * job.bs + job.bs <= |job.dest|
    ensures Sound(job.t[i], i, job.src, job.dest, job.bs)
  {
    BlockInside(job.dest, job.bs, |job.t|, i);
  }

  // ----- one run; `i..e` is the run, `j` the block the decoder has reached inside it

  ghost predicate IsRun(job: Job, i: nat, e: nat)
    requires job.Valid()
  {
    i < e <= |job.t| && forall k :: i <= k < e ==> Joins(job.t, job.bs, i, k)
  }

  lemma {:induction false} CopyRunOk(job: Job, i: nat, j: nat, e: nat, offset: int)
    requires job.Valid() && IsRun(job, i, e) && i <= j <= e
    requires || (job.t[i].kind == IdentityMatch && offset == 0)
             || (job.t[i].kind == RelocateMatch && offset == BlockOffset(job.t, i))
    ensures CopyBlocks(job.src, job.bs, j + offset, e - j, job.Done(j)) == Ok(job.Done(e))
    decreases e - j
  {
    hide Fill, AddBytes, Delta;
    if j < e {
      assert Joins(job.t, job.bs, i, j);
      SoundBlock(job, j);
      Grow(job, j);
      CopyRunOk(job, i, j + 1, e, offset);
      assert Block(job.src, job.bs, j + offset) == Block(job.dest, job.bs, j);
    }
  }

  lemma {:induction false} FillRunOk(job: Job, i: nat, j: nat, e: nat, v: byte)
    requires job.Valid() && IsRun(job, i, e) && i <= j <= e
    requires || (job.t[i].kind == ZeroMatch && v == 0)
             || (job.t[i].kind == OneMatch && v == 255)
    ensures FillBlocks(v, job.bs, e - j, job.Done(j)) == job.Done(e)
    decreases e - j
  {
    hide Fill, AddBytes, Delta;
    if j < e {
      assert Joins(job.t, job.bs, i, j);
      SoundBlock(job, j);
      Grow(job, j);
      FillRunOk(job, i, j + 1, e, v);
    }
  }

  lemma {:induction false} LiteralRunOk(job: Job, j: nat, e: nat, lit: seq<byte>, p: nat)
    requires job.Valid() && j <= e <= |job.t|
    requires HasAt(lit, p, LiteralData(job.dest, job.bs, j, e - j, |job.t|)) && p <= |lit|
    ensures LiteralBlocks(lit, p, job.bs, e - j, job.Done(j)) == Ok(Taken(job.Done(e), p + (e - j) * job.bs))
    decreases e - j
  {
    if j < e {
      Grow(job, j);
      LiteralSplit(job, j, e, lit, p);
      MulAdd(1, e - j - 1, job.bs);
      LiteralRunOk(job, j + 1, e, lit, p + job.bs);
    }
  }

  lemma LiteralSplit(job: Job, j: nat, e: nat, lit: seq<byte>, p: nat)
    requires job.Valid() && j < e <= |job.t|
    requires HasAt(lit, p, LiteralData(job.dest, job.bs, j, e - j, |job.t|))
    requires j * job.bs + job.bs <= |job.dest|
    ensures p + job.bs <= |lit| && lit[p..p + job.bs] == Block(job.dest, job.bs, j)
    ensures HasAt(lit, p + job.bs, LiteralData(job.dest, job.bs, j + 1, e - j - 1, |job.t|))
  {
    hide HasAt;
    var bs := job.bs;
    LiteralHead(job.dest, bs, j, e - j, |job.t|);
    HasAtSplit(lit, p, Block(job.dest, bs, j), LiteralData(job.dest, bs, j + 1, e - j - 1, |job.t|));
    HasAtSlice(lit, p, Block(job.dest, bs, j));
  }

  lemma LiteralHead(dest: seq<byte>, bs: nat, i: nat, n: nat, total: nat)
    requires |dest| == total * bs && n >= 1 && i + n <= total && i * bs + bs <= |dest|
    ensures LiteralData(dest, bs, i, n, total) == Block(dest, bs, i) + LiteralData(dest, bs, i + 1, n - 1, total)
  {
    MulAdd(1, n - 1, bs);
    MulAdd(i, 1, bs);
    MulNonNeg(i, bs);
    MulNonNeg(n - 1, bs);
    var a, b, c := i * bs, (i + 1) * bs, (i + 1) * bs + (n - 1) * bs;
    assert c == i * bs + n * bs;
    assert c <= |dest| by { MulAdd(i, n, bs); MulLe(i + n, total, bs); }
    assert dest[a..c] == dest[a..b] + dest[b..c];
  }

  /** Adding a block's deltas, whichever format they were written in. */
  lemma AddBlockOk(s: BlockState, bs: nat, sparse: bool, block: seq<byte>, region: seq<byte>, c: nat)
    requires |block| == bs < TWO64 && c <= |region|
    requires HasAt(region, c, BlockDiff(s, bs, sparse))
    ensures AddBlock(block, region, c, sparse)
      == Ok(Sparse.Patched(AddBytes(block, Delta(s, bs)), c + |BlockDiff(s, bs, sparse)|))
  {
    hide HasAt, Sparse.Encode, Sparse.Decode, Delta, Sparse.AddRange, AddBytes;
    if sparse {
      Sparse.RoundTrip(block, Delta(s, bs), region, c);
    } else {
      var d := Delta(s, bs);
      HasAtSlice(region, c, d);
      forall k | 0 <= k < bs ensures region[c + (k - 0)] == d[k] {
        HasAtByte(region, c, d, k);
      }
      assert Sparse.AddRange(block, 0, region, c, bs) == AddBytes(block, d);
    }
  }

  lemma {:induction false} AddRunOk(job: Job, i: nat, j: nat, e: nat, sparse: bool, region: seq<byte>, c: nat)
    requires job.Valid() && IsRun(job, i, e) && i <= j <= e && job.t[i].kind == PartialMatch
    requires c <= |region| && HasAt(region, c, DiffBytes(job.t, job.bs, j, e - j, sparse))
    ensures AddBlocks(job.src, job.bs, j * job.bs + ByteOffset(job.t, job.bs, i), region, c, sparse, e - j, job.Done(j))
      == Ok(job.Done(e))
    decreases e - j
  {
    hide HasAt, Fill, AddBytes, Delta, AddBlock, BlockDiff;
    if j < e {
      assert Joins(job.t, job.bs, i, j);
      SoundBlock(job, j);
      Grow(job, j);
      var diff := BlockDiff(job.t[j], job.bs, sparse);
      HasAtSplit(region, c, diff, DiffBytes(job.t, job.bs, j + 1, e - j - 1, sparse));
      var pos := SourcePos(job.t[j], job.bs);
      assert pos == j * job.bs + ByteOffset(job.t, job.bs, i);
      AddBlockOk(job.t[j], job.bs, sparse, job.src[pos..pos + job.bs], region, c);
      MulAdd(j, 1, job.bs);
      AddRunOk(job, i, j + 1, e, sparse, region, c + |diff|);
    }
  }

  // ----- one operation

  /** The decoder stands at block `i`: the blocks before it are written, and each cursor is
      at the first byte that the encoder wrote for block `i`. */
  ghost predicate At(job: Job, x: Input, i: nat, st: State)
    requires job.Valid() && i <= |job.t|
  {
    && st.opPos <= |x.ops| && st.diffPos <= |x.diff| && st.litPos <= |x.lit|
    && st.block == i && st.out == job.Done(i)
    && HasAt(x.ops, st.opPos, job.Enc(i).op) && st.opPos + |job.Enc(i).op| == |x.ops|
    && HasAt(x.diff, st.diffPos, job.Enc(i).diff) && HasAt(x.lit, st.litPos, job.Enc(i).lit)
  }

  /** What the run at `i` contributes, and that the rest follows it. */
  lemma EncStep(job: Job, i: nat) returns (n: nat, op: Op, run: Streams)
    requires job.Valid() && i < |job.t|
    ensures n == RunLength(job.t, job.bs, i) && op == OpAt(job.t, job.bs, i, n)
    ensures IsRun(job, i, i + n) && Encodable(op) && op.count == n
    ensures RunStreams(job.t, job.bs, job.dest, i, n) == Ok(run) && run.op == OpBytes(op)
    ensures job.Enc(i) == Concat(run, job.Enc(i + n))
  {
    n := RunLength(job.t, job.bs, i);
    op := OpAt(job.t, job.bs, i, n);
    EncodeSucceeds(job.t, job.bs, job.dest, i);
    run := RunStreams(job.t, job.bs, job.dest, i, n).value;
  }

  /** The decoder's state after the run at `i`. */
  ghost function After(job: Job, i: nat, n: nat, st: State, run: Streams): (s: State)
    requires job.Valid() && i + n <= |job.t|
  {
    State(st.opPos, st.diffPos + |run.diff|, st.litPos + |run.lit|, i + n, job.Done(i + n))
  }

  lemma ExecOk(job: Job, x: Input, i: nat, n: nat, op: Op, run: Streams, st: State)
    requires job.Valid() && x.src == job.src && x.bs == job.bs
    requires i + n <= |job.t| && n >= 1 && IsRun(job, i, i + n) && op == OpAt(job.t, job.bs, i, n)
    requires RunStreams(job.t, job.bs, job.dest, i, n) == Ok(run)
    requires st.opPos <= |x.ops| && st.diffPos <= |x.diff| && st.litPos <= |x.lit|
    requires st.block == i && st.out == job.Done(i)
    requires HasAt(x.diff, st.diffPos, run.diff) && HasAt(x.lit, st.litPos, run.lit)
    ensures Exec(x, op, st) == Ok(After(job, i, n, st, run))
  {
    hide HasAt, CopyBlocks, FillBlocks, AddBlocks, LiteralBlocks, DiffBytes, UseSparse, OpBytes, LiteralData,
      AllSound, IsRun, Job.Done;
    match op
    case Identity(_) => CopyRunOk(job, i, i, i + n, 0);
    case Relocate(_, offset) => CopyRunOk(job, i, i, i + n, offset);
    case Zero(_) => FillRunOk(job, i, i, i + n, 0);
    case One(_) => FillRunOk(job, i, i, i + n, 255);
    case Literal(_) => LiteralRunOk(job, i, i + n, x.lit, st.litPos);
    case CopyAdd(_, offset, sparse, diffLen) =>
      RegionHas(x.diff, st.diffPos, run.diff);
      AddRunOk(job, i, i, i + n, sparse, x.diff[st.diffPos..st.diffPos + diffLen], 0);
  }

  lemma RegionHas(diff: seq<byte>, p: nat, d: seq<byte>)
    requires HasAt(diff, p, d)
    ensures p + |d| <= |diff| && diff[p..p + |d|] == d && HasAt(diff[p..p + |d|], 0, d)
  {
    hide HasAt;
    HasAtSlice(diff, p, d);
    HasAtSlice(d, 0, d);
  }

  // ----- the whole stream

  lemma RunUnfold(x: Input, st: State, p: Parsed, st': State)
    requires Inside(x, st) && st.block < x.destBlocks && st.opPos < |x.ops|
    requires ParseOp(x.ops, st.opPos, x.destBlocks - st.block) == Ok(p)
    requires Exec(x, p.op, st.(opPos := p.next)) == Ok(st')
    ensures Inside(x, st') && Run(x, st) == Run(x, st')
  {
    hide ParseOp, Exec;
    MulAdd(st.block, p.op.count, x.bs);
  }

  lemma StepOk(job: Job, x: Input, i: nat, st: State) returns (n: nat, st': State)
    requires job.Valid() && x.src == job.src && x.bs == job.bs && x.destBlocks == |job.t|
    requires i < |job.t| && RunLength(job.t, job.bs, i) < TWO32 && At(job, x, i, st)
    ensures n == RunLength(job.t, job.bs, i) && At(job, x, i + n, st')
    ensures Inside(x, st) && Inside(x, st') && Run(x, st) == Run(x, st')
  {
    hide HasAt, OpBytes, OpAt, RunStreams, Exec, ParseOp, Run, EncodeFrom, RunLength;
    var op, run;
    n, op, run := EncStep(job, i);
    var rest := job.Enc(i + n);
    HasAtSplit(x.ops, st.opPos, run.op, rest.op);
    HasAtSplit(x.diff, st.diffPos, run.diff, rest.diff);
    HasAtSplit(x.lit, st.litPos, run.lit, rest.lit);
    OpSize(op);
    assert WireCount(n) == n && OnWire(op) == op;
    Ops.RoundTrip(x.ops, st.opPos, op, |job.t| - i);
    var p := Parsed(op, st.opPos + |run.op|);
    var st1 := st.(opPos := p.next);
    ExecOk(job, x, i, n, op, run, st1);
    st' := After(job, i, n, st1, run);
    RunUnfold(x, st, p, st');
  }

  lemma {:induction false} RunOk(job: Job, x: Input, i: nat, st: State)
    requires job.Valid() && x.src == job.src && x.bs == job.bs && x.destBlocks == |job.t|
    requires i <= |job.t| && ShortRuns(job.t, job.bs, i) && At(job, x, i, st)
    ensures Inside(x, st) && Run(x, st) == Ok(job.dest)
    decreases |job.t| - i
  {
    hide HasAt, RunLength, EncodeFrom, Run;
    if i < |job.t| {
      var n, st' := StepOk(job, x, i, st);
      RunOk(job, x, i + n, st');
    } else {
      assert job.Done(i) == job.dest;
      RunEnds(x, st);
    }
  }

  lemma RunEnds(x: Input, st: State)
    requires Inside(x, st) && st.block == x.destBlocks
    ensures Run(x, st) == Ok(st.out)
  {
  }

  // ----- runs that do not fit the count field

  /** A decoder that has produced fewer blocks than the operations it has read stand for
      never catches up. */
  lemma {:induction false} LagFails(job: Job, x: Input, i: nat, st: State)
    requires job.Valid() && x.bs == job.bs && x.destBlocks == |job.t|
    requires i <= |job.t| && Inside(x, st) && st.block < i
    requires HasAt(x.ops, st.opPos, job.Enc(i).op) && st.opPos + |job.Enc(i).op| == |x.ops|
    ensures Run(x, st).Err?
    decreases |job.t| - i
  {
    hide HasAt, OpBytes, OpAt, RunStreams, Exec, ParseOp, RunLength, EncodeFrom;
    if i < |job.t| {
      var n, op, run := EncStep(job, i);
      HasAtSplit(x.ops, st.opPos, run.op, job.Enc(i + n).op);
      OpSize(op);
      Ops.RoundTrip(x.ops, st.opPos, op, x.destBlocks - st.block);
      var p := Parsed(OnWire(op), st.opPos + |run.op|);
      var r := Exec(x, p.op, st.(opPos := p.next));
      if r.Ok? {
        RunUnfold(x, st, p, r.value);
        LagFails(job, x, i + n, r.value);
      }
    } else {
      EncEnd(job);
    }
  }

  lemma EncEnd(job: Job)
    requires job.Valid()
    ensures job.Enc(|job.t|).op == [] && job.Enc(|job.t|).diff == []
  {
  }

  lemma {:induction false} LongRunFails(job: Job, x: Input, i: nat, st: State)
    requires job.Valid() && x.src == job.src && x.bs == job.bs && x.destBlocks == |job.t|
    requires i <= |job.t| && !ShortRuns(job.t, job.bs, i) && At(job, x, i, st)
    ensures Inside(x, st) && Run(x, st).Err?
    decreases |job.t| - i
  {
    hide HasAt, OpBytes, OpAt, RunStreams, Exec, ParseOp, RunLength, EncodeFrom;
    var n := RunLength(job.t, job.bs, i);
    if n < TWO32 {
      var st';
      n, st' := StepOk(job, x, i, st);
      LongRunFails(job, x, i + n, st');
    } else {
      var n', op, run := EncStep(job, i);
      HasAtSplit(x.ops, st.opPos, run.op, job.Enc(i + n).op);
      OpSize(op);
      assert WireCount(n) < n;
      Ops.RoundTrip(x.ops, st.opPos, op, x.destBlocks - st.block);
      var p := Parsed(OnWire(op), st.opPos + |run.op|);
      var r := Exec(x, p.op, st.(opPos := p.next));
      if r.Ok? {
        RunUnfold(x, st, p, r.value);
        LagFails(job, x, i + n, r.value);
      }
    }
  }

  lemma StartAt(job: Job)
    requires job.Valid()
    ensures At(job, job.Feed(), 0, START) && Inside(job.Feed(), START)
  {
    hide HasAt, EncodeFrom;
    var x := job.Feed();
    HasAtSlice(x.ops, 0, job.Enc(0).op);
    HasAtSlice(x.diff, 0, job.Enc(0).diff);
    HasAtSlice(x.lit, 0, job.Enc(0).lit);
  }

  /** The codec theorem. For every source, destination and sound tracker, encoding succeeds,
      and decoding the three streams yields exactly the destination if every run is shorter
      than 2^32 blocks; otherwise decoding reports an error. */
  lemma RoundTrip(job: Job)
    requires job.Valid()
    ensures ShortRuns(job.t, job.bs, 0) ==> Decode(job.Feed()) == Ok(job.dest)
    ensures !ShortRuns(job.t, job.bs, 0) ==> Decode(job.Feed()).Err?
  {
    hide HasAt, EncodeFrom, ShortRuns, Run;
    StartAt(job);
    if ShortRuns(job.t, job.bs, 0) {
      RunOk(job, job.Feed(), 0, START);
    } else {
      LongRunFails(job, job.Feed(), 0, START);
    }
  }

  // ----- the round trip does fail: 2^32 or more blocks of one kind in a row

  /** Blocks `a` to `a + 2^32` all have this kind, one whose runs join by kind alone. */
  ghost predicate LongKind(t: seq<BlockState>, a: nat, kind: Kind)
  {
    && kind != RelocateMatch && kind != PartialMatch && a + TWO32 <= |t|
    && forall d :: a <= d < a + TWO32 ==> t[d].kind == kind
  }

  /** They end up in one run, which is then too long. */
  lemma {:induction false} LongKindFails(t: seq<BlockState>, bs: nat, i: nat, a: nat, kind: Kind)
    requires bs >= 1 && i <= a && LongKind(t, a, kind)
    ensures !ShortRuns(t, bs, i)
    decreases a - i
  {
    hide RunLength;
    var n := RunLength(t, bs, i);
    if i + n <= a {
      LongKindFails(t, bs, i + n, a, kind);
    } else {
      RunMaximal(t, bs, i);
      assert Joins(t, bs, i, a);
      assert i + n >= a + TWO32;
    }
  }

  function ZeroRecords(n: nat): (t: seq<BlockState>)
    ensures |t| == n && forall i :: 0 <= i < n ==> t[i] == UNMATCHED.(kind := ZeroMatch)
  {
    if n == 0 then [] else [UNMATCHED.(kind := ZeroMatch)] + ZeroRecords(n - 1)
  }

  /** A destination of `n` zero blocks, and any source. */
  ghost function ZeroImage(n: nat, bs: nat, src: seq<byte>): (job: Job)
  {
    MulNonNeg(n, bs);
    Job(ZeroRecords(n), src, Fill(0, n * bs), bs)
  }

  lemma ZeroImageFails(n: nat, bs: nat, src: seq<byte>)
    requires n >= TWO32 && 1 <= bs <= 0x100_0000
    ensures var job := ZeroImage(n, bs, src);
      job.Valid() && Decode(job.Feed()).Err?
  {
    hide EncodeFrom, Run, Fill, ZeroRecords, ShortRuns;
    var job := ZeroImage(n, bs, src);
    forall i | 0 <= i < n
      ensures i * bs + bs <= |job.dest| && Sound(job.t[i], i, job.src, job.dest, bs)
    {
      BlockInside(job.dest, bs, n, i);
      assert Block(job.dest, bs, i) == Fill(0, bs);
    }
    LongKindFails(job.t, bs, 0, 0, ZeroMatch);
    RoundTrip(job);
  }
}
