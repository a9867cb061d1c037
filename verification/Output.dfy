/** What the encoder of src/encoding/operation_encoder.c writes for a tracker, read back from the bytes: which
    operation each run becomes, where runs end, and which blocks are stored as they are. */
module Output {
  import opened Bytes
  import opened Ops
  import opened Matches
  import opened Encoder
  import opened Codec
  import Decoder
  import Sparse

  // ----- which blocks are stored as they are

  /** A block goes to the literal stream when it has no match, or one that is too far away for the format's
      four-byte offsets. */
  ghost predicate Verbatim(t: seq<BlockState>, bs: nat, d: nat)
    requires d < |t|
  {
    match t[d].kind
    case NoMatch => true
    case RelocateMatch => t[d].srcIndex - d > 0xFFFF_FFFF || d - t[d].srcIndex > 0xFFFF_FFFF
    case PartialMatch => !(-0x8000_0000 <= SourcePos(t[d], bs) - d * bs <= 0x7FFF_FFFF)
    case IdentityMatch => false
    case ZeroMatch => false
    case OneMatch => false
  }

  /** Those of the blocks `i .. e`, one after the other. */
  ghost function VerbatimBytes(t: seq<BlockState>, bs: nat, dest: seq<byte>, i: nat, e: nat): (s: seq<byte>)
    requires i <= e <= |t| && |dest| == |t| * bs
    decreases e - i
  {
    if i == e then []
    else
      BlockInside(dest, bs, |t|, i);
      (if Verbatim(t, bs, i) then Block(dest, bs, i) else []) + VerbatimBytes(t, bs, dest, i + 1, e)
  }

  ghost function CountVerbatim(t: seq<BlockState>, bs: nat, i: nat, e: nat): (n: nat)
    requires i <= e <= |t|
    decreases e - i
  {
    if i == e then 0 else (if Verbatim(t, bs, i) then 1 else 0) + CountVerbatim(t, bs, i + 1, e)
  }

  lemma {:induction false} VerbatimSize(t: seq<BlockState>, bs: nat, dest: seq<byte>, i: nat, e: nat)
    requires i <= e <= |t| && |dest| == |t| * bs
    ensures |VerbatimBytes(t, bs, dest, i, e)| == CountVerbatim(t, bs, i, e) * bs
    decreases e - i
  {
    hide Verbatim, Block;
    if i < e {
      BlockInside(dest, bs, |t|, i);
      VerbatimSize(t, bs, dest, i + 1, e);
      MulAdd(1, CountVerbatim(t, bs, i + 1, e), bs);
    }
  }

  lemma {:induction false} VerbatimSplit(t: seq<BlockState>, bs: nat, dest: seq<byte>, i: nat, m: nat, e: nat)
    requires i <= m <= e <= |t| && |dest| == |t| * bs
    ensures VerbatimBytes(t, bs, dest, i, e) == VerbatimBytes(t, bs, dest, i, m) + VerbatimBytes(t, bs, dest, m, e)
    decreases m - i
  {
    hide Verbatim, Block;
    if i < m {
      BlockInside(dest, bs, |t|, i);
      VerbatimSplit(t, bs, dest, i + 1, m, e);
    }
  }

  lemma {:induction false} AllVerbatim(t: seq<BlockState>, bs: nat, dest: seq<byte>, i: nat, n: nat)
    requires i + n <= |t| && |dest| == |t| * bs && forall d :: i <= d < i + n ==> Verbatim(t, bs, d)
    ensures VerbatimBytes(t, bs, dest, i, i + n) == LiteralData(dest, bs, i, n, |t|)
    decreases n
  {
    hide Verbatim;
    if n > 0 {
      BlockInside(dest, bs, |t|, i);
      MulAdd(i, 1, bs);
      MulAdd(1, n - 1, bs);
      MulNonNeg(n - 1, bs);
      AllVerbatim(t, bs, dest, i + 1, n - 1);
      MulAdd(i, n, bs);
      MulLe(i + n, |t|, bs);
      Adjoin(dest, i * bs, i * bs + bs, i * bs + n * bs);
    } else {
      MulNonNeg(i, bs);
    }
  }

  lemma Adjoin(s: seq<byte>, a: nat, b: nat, c: nat)
    requires a <= b <= c <= |s|
    ensures s[a..b] + s[b..c] == s[a..c]
  {
  }

  lemma {:induction false} NoneVerbatim(t: seq<BlockState>, bs: nat, dest: seq<byte>, i: nat, n: nat)
    requires i + n <= |t| && |dest| == |t| * bs && forall d :: i <= d < i + n ==> !Verbatim(t, bs, d)
    ensures VerbatimBytes(t, bs, dest, i, i + n) == []
    decreases n
  {
    hide Verbatim;
    if n > 0 {
      NoneVerbatim(t, bs, dest, i + 1, n - 1);
    }
  }

  // ----- where runs end

  /** Block `j` continues the run that starts at `i`: same kind, same distance to the source; a run of partial
      matches also has to leave room for two diff bytes per output byte in a 32-bit length. */
  ghost predicate SameRun(t: seq<BlockState>, bs: nat, i: nat, j: nat)
    requires i <= j < |t|
  {
    && t[j].kind == t[i].kind
    && (t[i].kind == RelocateMatch ==> t[j].srcIndex - j == t[i].srcIndex - i)
    && (t[i].kind == PartialMatch ==>
          && SourcePos(t[j], bs) - j * bs == SourcePos(t[i], bs) - i * bs
          && (j == i || (j - i + 1) * (bs * 2) <= 0xFFFF_FFFF))
  }

  lemma CapExact(bs: nat, k: nat)
    requires bs >= 1
    ensures k < MaxPartialRun(bs) <==> k == 0 || (k + 1) * (bs * 2) <= UINT32_MAX
  {
    var w := bs * 2;
    var q := UINT32_MAX / w;
    assert UINT32_MAX == q * w + UINT32_MAX % w;
    if k < q {
      MulLe(k + 1, q, w);
    } else {
      MulLe(q + 1, k + 1, w);
      MulAdd(q, 1, w);
    }
  }

  lemma JoinsIsSame(t: seq<BlockState>, bs: nat, i: nat, j: nat)
    requires bs >= 1 && i <= j < |t|
    ensures Joins(t, bs, i, j) <==> SameRun(t, bs, i, j)
  {
    hide MaxPartialRun;
    CapExact(bs, j - i);
  }

  /** The blocks `i .. i + n` are one run, and the next block is not part of it. */
  ghost predicate IsMaximalRun(t: seq<BlockState>, bs: nat, i: nat, n: nat)
  {
    && n >= 1 && i + n <= |t|
    && (forall j :: i <= j < i + n ==> SameRun(t, bs, i, j))
    && (i + n < |t| ==> !SameRun(t, bs, i, i + n))
  }

  lemma RunIsMaximal(t: seq<BlockState>, bs: nat, i: nat)
    requires bs >= 1 && i < |t|
    ensures IsMaximalRun(t, bs, i, RunLength(t, bs, i))
  {
    hide RunLength, Joins, SameRun;
    var n := RunLength(t, bs, i);
    forall j | i <= j < i + n ensures SameRun(t, bs, i, j) {
      JoinsIsSame(t, bs, i, j);
    }
    RunMaximal(t, bs, i);
    if i + n < |t| { JoinsIsSame(t, bs, i, i + n); }
  }

  /** A run is stored as it is as a whole or not at all. */
  lemma RunVerbatim(t: seq<BlockState>, bs: nat, i: nat, j: nat)
    requires i <= j < |t| && SameRun(t, bs, i, j)
    ensures Verbatim(t, bs, j) <==> Verbatim(t, bs, i)
  {
  }

  // ----- counting changed bytes by position

  /** The changed bytes of a run: pairs of block and position. */
  ghost function ChangedBytes(t: seq<BlockState>, bs: nat, i: nat, n: nat): (s: set<(nat, nat)>)
    requires i + n <= |t|
  {
    set d: nat, k: nat | i <= d < i + n && k < bs && Delta(t[d], bs)[k] != 0 :: (d, k)
  }

  ghost function RowFrom(x: seq<byte>, d: nat, p: nat): (s: set<(nat, nat)>)
  {
    set k: nat | p <= k < |x| && x[k] != 0 :: (d, k)
  }

  lemma {:induction false} RowSize(x: seq<byte>, d: nat, p: nat)
    requires p <= |x|
    ensures |RowFrom(x, d, p)| == CountNonZero(x[p..])
    decreases |x| - p
  {
    if p < |x| {
      RowSize(x, d, p + 1);
      assert x[p..][1..] == x[p + 1..];
      assert RowFrom(x, d, p) == (if x[p] != 0 then {(d, p)} else {}) + RowFrom(x, d, p + 1);
    } else {
      assert RowFrom(x, d, p) == {};
    }
  }

  lemma {:induction false} ChangedCount(t: seq<BlockState>, bs: nat, i: nat, n: nat)
    requires i + n <= |t|
    ensures |ChangedBytes(t, bs, i, n)| == NonZero(t, bs, i, n)
    decreases n
  {
    hide Delta, CountNonZero;
    if n > 0 {
      ChangedCount(t, bs, i + 1, n - 1);
      var x := Delta(t[i], bs);
      var row, rest := RowFrom(x, i, 0), ChangedBytes(t, bs, i + 1, n - 1);
      RowSize(x, i, 0);
      assert x[0..] == x;
      assert ChangedBytes(t, bs, i, n) == row + rest;
      assert row !! rest;
    } else {
      assert ChangedBytes(t, bs, i, n) == {};
    }
  }

  // ----- what a run becomes

  /** The deltas of a run, block by block in the chosen format. */
  ghost function RunDeltas(t: seq<BlockState>, bs: nat, i: nat, n: nat, sparse: bool): (s: seq<byte>)
    requires i + n <= |t|
    decreases n
  {
    if n == 0 then []
    else
      (if sparse then Sparse.Encode(Delta(t[i], bs), 0) else Delta(t[i], bs))
      + RunDeltas(t, bs, i + 1, n - 1, sparse)
  }

  lemma {:induction false} DeltasAre(t: seq<BlockState>, bs: nat, i: nat, n: nat, sparse: bool)
    requires i + n <= |t|
    ensures DiffBytes(t, bs, i, n, sparse) == RunDeltas(t, bs, i, n, sparse)
    decreases n
  {
    hide Delta, Sparse.Encode;
    if n > 0 {
      DeltasAre(t, bs, i + 1, n - 1, sparse);
    }
  }

  /** `op` is what the run of `n` blocks at `i` calls for. */
  ghost predicate OpFor(t: seq<BlockState>, bs: nat, i: nat, n: nat, op: Op)
    requires n >= 1 && i + n <= |t|
  {
    if Verbatim(t, bs, i) then op == Literal(n)
    else match t[i].kind
      case NoMatch => false
      case IdentityMatch => op == Identity(n)
      case ZeroMatch => op == Zero(n)
      case OneMatch => op == One(n)
      case RelocateMatch => op == Relocate(n, t[i].srcIndex - i)
      case PartialMatch =>
        && op.CopyAdd? && op.count == n && op.byteOffset == SourcePos(t[i], bs) - i * bs
        && (op.sparse <==> |ChangedBytes(t, bs, i, n)| < 512 * n)
        && op.diffLen == |RunDeltas(t, bs, i, n, op.sparse)|
  }

  lemma OpAtIs(t: seq<BlockState>, bs: nat, i: nat, n: nat)
    requires n >= 1 && i + n <= |t|
    ensures OpFor(t, bs, i, n, OpAt(t, bs, i, n))
  {
    hide DiffBytes, RunDeltas, ChangedBytes, NonZero;
    ChangedCount(t, bs, i, n);
    DeltasAre(t, bs, i, n, true);
    DeltasAre(t, bs, i, n, false);
    assert n * SPARSE_THRESHOLD_PER_BLOCK == 512 * n;
  }

  /** The operations at `ops[p..]` and the deltas at `diff[q..]` are those of the runs from block `i` on. */
  ghost predicate Describes(t: seq<BlockState>, bs: nat, i: nat, ops: seq<byte>, p: nat, diff: seq<byte>, q: nat)
    requires i <= |t|
    decreases |t| - i
  {
    if i == |t| then p == |ops| && q == |diff|
    else
      p < |ops| &&
      var r := ParseOp(ops, p, |t| - i);
      r.Ok? &&
      var n := r.value.op.count;
      && IsMaximalRun(t, bs, i, n) && OpFor(t, bs, i, n, r.value.op)
      && var d := if r.value.op.CopyAdd? then RunDeltas(t, bs, i, n, r.value.op.sparse) else [];
         HasAt(diff, q, d) && Describes(t, bs, i + n, ops, r.value.next, diff, q + |d|)
  }

  /** The run at `i` and what it adds to each stream. */
  lemma RunParts(job: Job, i: nat) returns (n: nat, op: Op, run: Streams)
    requires job.Valid() && i < |job.t|
    ensures n == RunLength(job.t, job.bs, i) && IsMaximalRun(job.t, job.bs, i, n) && OpFor(job.t, job.bs, i, n, op)
    ensures Encodable(op) && op.count == n && run.op == OpBytes(op) && job.Enc(i) == Concat(run, job.Enc(i + n))
    ensures run.diff == if op.CopyAdd? then RunDeltas(job.t, job.bs, i, n, op.sparse) else []
    ensures run.lit == VerbatimBytes(job.t, job.bs, job.dest, i, i + n)
  {
    hide RunLength, OpAt, DiffBytes, RunDeltas, VerbatimBytes, LiteralData, OpBytes, SameRun, Verbatim;
    n, op, run := EncStep(job, i);
    RunIsMaximal(job.t, job.bs, i);
    OpAtIs(job.t, job.bs, i, n);
    if op.CopyAdd? { DeltasAre(job.t, job.bs, i, n, op.sparse); }
    forall d | i <= d < i + n ensures Verbatim(job.t, job.bs, d) <==> Verbatim(job.t, job.bs, i) {
      RunVerbatim(job.t, job.bs, i, d);
    }
    if Verbatim(job.t, job.bs, i) {
      AllVerbatim(job.t, job.bs, job.dest, i, n);
    } else {
      NoneVerbatim(job.t, job.bs, job.dest, i, n);
      NotLiteral(job.t, job.bs, i, n, op);
    }
  }

  lemma NotLiteral(t: seq<BlockState>, bs: nat, i: nat, n: nat, op: Op)
    requires n >= 1 && i + n <= |t| && OpFor(t, bs, i, n, op)
    ensures op.Literal? <==> Verbatim(t, bs, i)
  {
    hide ChangedBytes, RunDeltas;
  }

  /** The literal stream is exactly the blocks that are stored as they are, in order. */
  lemma {:induction false} LiteralStream(job: Job, i: nat)
    requires job.Valid() && i <= |job.t|
    ensures job.Enc(i).lit == VerbatimBytes(job.t, job.bs, job.dest, i, |job.t|)
    decreases |job.t| - i
  {
    hide VerbatimBytes, EncodeFrom, OpFor, IsMaximalRun, OpBytes, RunDeltas;
    if i < |job.t| {
      var n, op, run := RunParts(job, i);
      LiteralStream(job, i + n);
      VerbatimSplit(job.t, job.bs, job.dest, i, i + n, |job.t|);
    } else {
      StreamsEnd(job);
    }
  }

  lemma StreamsEnd(job: Job)
    requires job.Valid()
    ensures job.Enc(|job.t|) == Streams([], [], [])
    ensures VerbatimBytes(job.t, job.bs, job.dest, |job.t|, |job.t|) == []
  {
  }

  /** The operation and diff streams, read back, are the runs of the tracker one by one. */
  lemma {:induction false} StreamsDescribe(job: Job, i: nat, ops: seq<byte>, p: nat, diff: seq<byte>, q: nat)
    requires job.Valid() && i <= |job.t| && ShortRuns(job.t, job.bs, i)
    requires HasAt(ops, p, job.Enc(i).op) && p + |job.Enc(i).op| == |ops|
    requires HasAt(diff, q, job.Enc(i).diff) && q + |job.Enc(i).diff| == |diff|
    ensures Describes(job.t, job.bs, i, ops, p, diff, q)
    decreases |job.t| - i
  {
    hide EncodeFrom, OpFor, IsMaximalRun, OpBytes, RunDeltas, HasAt, ParseOp, RunLength, VerbatimBytes, Describes;
    if i < |job.t| {
      var n, op, run := RunParts(job, i);
      var rest := job.Enc(i + n);
      HasAtSplit(ops, p, run.op, rest.op);
      HasAtSplit(diff, q, run.diff, rest.diff);
      OpSize(op);
      assert WireCount(n) == n && OnWire(op) == op;
      Ops.RoundTrip(ops, p, op, |job.t| - i);
      StreamsDescribe(job, i + n, ops, p + |run.op|, diff, q + |run.diff|);
      DescribeRun(job.t, job.bs, i, ops, p, diff, q, op, p + |run.op|, run.diff);
    } else {
      StreamsEnd(job);
      DescribeEnd(job.t, job.bs, ops, p, diff, q);
    }
  }

  lemma DescribeRun(t: seq<BlockState>, bs: nat, i: nat, ops: seq<byte>, p: nat, diff: seq<byte>, q: nat,
                    op: Op, next: nat, d: seq<byte>)
    requires i + op.count <= |t| && p < |ops| && i < |t| && ParseOp(ops, p, |t| - i) == Ok(Parsed(op, next))
    requires IsMaximalRun(t, bs, i, op.count) && OpFor(t, bs, i, op.count, op) && HasAt(diff, q, d)
    requires d == if op.CopyAdd? then RunDeltas(t, bs, i, op.count, op.sparse) else []
    requires Describes(t, bs, i + op.count, ops, next, diff, q + |d|)
    ensures Describes(t, bs, i, ops, p, diff, q)
  {
    hide OpFor, IsMaximalRun, RunDeltas, HasAt, ParseOp;
  }

  lemma DescribeEnd(t: seq<BlockState>, bs: nat, ops: seq<byte>, p: nat, diff: seq<byte>, q: nat)
    requires p == |ops| && q == |diff|
    ensures Describes(t, bs, |t|, ops, p, diff, q)
  {
  }

  /** Without partial matches that fit the format, nothing is written to the diff stream. */
  lemma {:induction false} NoDeltas(job: Job, i: nat)
    requires job.Valid() && i <= |job.t|
    requires forall d :: i <= d < |job.t| && job.t[d].kind == PartialMatch ==> Verbatim(job.t, job.bs, d)
    ensures job.Enc(i).diff == []
    decreases |job.t| - i
  {
    hide VerbatimBytes, EncodeFrom, IsMaximalRun, OpBytes, RunDeltas, ChangedBytes, RunLength;
    if i < |job.t| {
      var n, op, run := RunParts(job, i);
      NoDeltas(job, i + n);
    } else {
      StreamsEnd(job);
    }
  }

  /** The three streams are what the tracker calls for. */
  ghost predicate WellWritten(t: seq<BlockState>, bs: nat, dest: seq<byte>, x: Decoder.Input)
    requires |dest| == |t| * bs && bs >= 1
  {
    && x.lit == VerbatimBytes(t, bs, dest, 0, |t|) && |x.lit| == CountVerbatim(t, bs, 0, |t|) * bs
    && (ShortRuns(t, bs, 0) ==> Describes(t, bs, 0, x.ops, 0, x.diff, 0))
    && ((forall d :: 0 <= d < |t| && t[d].kind == PartialMatch ==> Verbatim(t, bs, d)) ==> x.diff == [])
  }

  lemma FeedWellWritten(job: Job)
    requires job.Valid()
    ensures WellWritten(job.t, job.bs, job.dest, job.Feed())
  {
    hide EncodeFrom, VerbatimBytes, Describes, HasAt, ShortRuns, Verbatim, CountVerbatim;
    LiteralStream(job, 0);
    VerbatimSize(job.t, job.bs, job.dest, 0, |job.t|);
    if ShortRuns(job.t, job.bs, 0) {
      var s := job.Enc(0);
      assert s.op[0..|s.op|] == s.op && s.diff[0..|s.diff|] == s.diff;
      HasAtSlice(s.op, 0, s.op);
      HasAtSlice(s.diff, 0, s.diff);
      StreamsDescribe(job, 0, s.op, 0, s.diff, 0);
    }
    if forall d :: 0 <= d < |job.t| && job.t[d].kind == PartialMatch ==> Verbatim(job.t, job.bs, d) {
      NoDeltas(job, 0);
    }
  }
}
