/** The operation encoder, src/encoding/operation_encoder.c: coalesces the tracker's
    records into runs and writes each run to the three streams. */
module Encoder {
  import opened Bytes
  import opened Ops
  import opened Matches
  import Sparse

  // ----- runs

  const SPARSE_THRESHOLD_PER_BLOCK := 512

  /** Cap that keeps a COPY_ADD run's worst-case diff length in 32 bits. */
  function MaxPartialRun(bs: nat): (n: nat)
    requires bs >= 1
    ensures n >= 1
  {
    var n := UINT32_MAX / (bs * 2);
    if n == 0 then 1 else n
  }

  function BlockOffset(t: seq<BlockState>, i: nat): (o: int)
    requires i < |t|
  {
    t[i].srcIndex - i
  }

  function ByteOffset(t: seq<BlockState>, bs: nat, i: nat): (o: int)
    requires i < |t|
  {
    SourcePos(t[i], bs) - i * bs
  }

  /** Block `j` continues the run that starts at block `i`. */
  predicate Joins(t: seq<BlockState>, bs: nat, i: nat, j: nat)
    requires i <= j < |t| && bs >= 1
  {
    && t[j].kind == t[i].kind
    && (t[i].kind == RelocateMatch ==> BlockOffset(t, j) == BlockOffset(t, i))
    && (t[i].kind == PartialMatch ==> j - i < MaxPartialRun(bs) && ByteOffset(t, bs, j) == ByteOffset(t, bs, i))
  }

  /** End of the run that starts at `i`, known to reach `j`. */
  function RunEnd(t: seq<BlockState>, bs: nat, i: nat, j: nat): (e: nat)
    requires i <= j <= |t| && bs >= 1
    ensures j <= e <= |t|
    ensures forall k :: j <= k < e ==> Joins(t, bs, i, k)
    decreases |t| - j
  {
    if j < |t| && Joins(t, bs, i, j) then RunEnd(t, bs, i, j + 1) else j
  }

  function RunLength(t: seq<BlockState>, bs: nat, i: nat): (n: nat)
    requires i < |t| && bs >= 1
    ensures n >= 1 && i + n <= |t|
    ensures forall k :: i <= k < i + n ==> Joins(t, bs, i, k)
  {
    RunEnd(t, bs, i, i) - i
  }

  lemma {:induction false} RunEndMaximal(t: seq<BlockState>, bs: nat, i: nat, j: nat)
    requires i <= j <= |t| && bs >= 1
    ensures var e := RunEnd(t, bs, i, j); e == |t| || !Joins(t, bs, i, e)
    decreases |t| - j
  {
    if j < |t| && Joins(t, bs, i, j) {
      RunEndMaximal(t, bs, i, j + 1);
    }
  }

  /** A run ends only where the next block cannot join it. */
  lemma RunMaximal(t: seq<BlockState>, bs: nat, i: nat)
    requires i < |t| && bs >= 1
    ensures var n := RunLength(t, bs, i); i + n == |t| || !Joins(t, bs, i, i + n)
  {
    RunEndMaximal(t, bs, i, i);
  }

  // ----- what a run is written as

  function CountNonZero(d: seq<byte>): (n: nat)
  {
    if d == [] then 0 else (if d[0] != 0 then 1 else 0) + CountNonZero(d[1..])
  }

  function NonZero(t: seq<BlockState>, bs: nat, i: nat, n: nat): (c: nat)
    requires i + n <= |t|
    decreases n
  {
    if n == 0 then 0 else CountNonZero(Delta(t[i], bs)) + NonZero(t, bs, i + 1, n - 1)
  }

  function UseSparse(t: seq<BlockState>, bs: nat, i: nat, n: nat): (b: bool)
    requires i + n <= |t|
  {
    NonZero(t, bs, i, n) < n * SPARSE_THRESHOLD_PER_BLOCK
  }

  function BlockDiff(s: BlockState, bs: nat, sparse: bool): (d: seq<byte>)
    ensures |d| <= 2 * bs
  {
    Sparse.SizeBound(Delta(s, bs));
    if sparse then Sparse.Encode(Delta(s, bs), 0) else Delta(s, bs)
  }

  function DiffBytes(t: seq<BlockState>, bs: nat, i: nat, n: nat, sparse: bool): (d: seq<byte>)
    requires i + n <= |t|
    ensures |d| <= n * (2 * bs)
    decreases n
  {
    if n == 0 then [] else
      assert n * (2 * bs) == 2 * bs + (n - 1) * (2 * bs) by { MulAdd(1, n - 1, 2 * bs); }
      BlockDiff(t[i], bs, sparse) + DiffBytes(t, bs, i + 1, n - 1, sparse)
  }

  /** The operation for the run of `n` blocks at `i`, with the literal fallbacks for offsets
      that the format's 4-byte fields cannot hold. */
  function OpAt(t: seq<BlockState>, bs: nat, i: nat, n: nat): (op: Op)
    requires i + n <= |t| && n >= 1
    ensures op.count == n
  {
    match t[i].kind
    case IdentityMatch => Identity(n)
    case ZeroMatch => Zero(n)
    case OneMatch => One(n)
    case NoMatch => Literal(n)
    case RelocateMatch =>
      if Abs(BlockOffset(t, i)) > UINT32_MAX then Literal(n) else Relocate(n, BlockOffset(t, i))
    case PartialMatch =>
      var offset := ByteOffset(t, bs, i);
      if offset < -0x8000_0000 || offset > 0x7FFF_FFFF then Literal(n)
      else
        var sparse := UseSparse(t, bs, i, n);
        CopyAdd(n, offset, sparse, |DiffBytes(t, bs, i, n, sparse)|)
  }

  datatype Streams = Streams(op: seq<byte>, diff: seq<byte>, lit: seq<byte>)

  function Concat(a: Streams, b: Streams): (c: Streams)
  {
    Streams(a.op + b.op, a.diff + b.diff, a.lit + b.lit)
  }

  /** `a`, then whatever `r` produced. */
  function Then(a: Streams, r: Result<Streams>): (c: Result<Streams>)
  {
    if r.Ok? then Ok(Concat(a, r.value)) else r
  }

  /** What one run appends to each stream. */
  function RunStreams(t: seq<BlockState>, bs: nat, dest: seq<byte>, i: nat, n: nat): (r: Result<Streams>)
    requires i + n <= |t| && n >= 1 && |dest| == |t| * bs
  {
    var op := OpAt(t, bs, i, n);
    if op.CopyAdd? && op.diffLen > UINT32_MAX then Err(OutOfMemory)
    else
      Ok(Streams(
        OpBytes(op),
        if op.CopyAdd? then DiffBytes(t, bs, i, n, op.sparse) else [],
        if op.Literal? then LiteralData(dest, bs, i, n, |t|) else []))
  }

  function LiteralData(dest: seq<byte>, bs: nat, i: nat, n: nat, total: nat): (d: seq<byte>)
    requires |dest| == total * bs && i + n <= total
    ensures |d| == n * bs
  {
    MulNonNeg(i, bs);
    MulNonNeg(n, bs);
    MulAdd(i, n, bs);
    MulLe(i + n, total, bs);
    dest[i * bs..i * bs + n * bs]
  }

  /** The streams for blocks `i` and later. */
  function EncodeFrom(t: seq<BlockState>, bs: nat, dest: seq<byte>, i: nat): (r: Result<Streams>)
    requires i <= |t| && bs >= 1 && |dest| == |t| * bs
    decreases |t| - i
  {
    if i == |t| then Ok(Streams([], [], []))
    else
      var n := RunLength(t, bs, i);
      var run :- RunStreams(t, bs, dest, i, n);
      Then(run, EncodeFrom(t, bs, dest, i + n))
  }

  // ----- the encoder's loops

  method FindRun(t: seq<BlockState>, bs: nat, i: nat) returns (n: nat)
    requires i < |t| && bs >= 1
    ensures n == RunLength(t, bs, i)
  {
    n := 1;
    while i + n < |t|
      invariant 1 <= n && i + n <= |t|
      invariant RunEnd(t, bs, i, i + n) == RunEnd(t, bs, i, i)
    {
      if !Joins(t, bs, i, i + n) { break; }
      n := n + 1;
    }
  }

  method CountDelta(d: seq<byte>) returns (n: nat)
    ensures n == CountNonZero(d)
  {
    n := 0;
    assert d[0..] == d;
    for k := 0 to |d|
      invariant n + CountNonZero(d[k..]) == CountNonZero(d)
    {
      assert d[k..][0] == d[k] && d[k..][1..] == d[k + 1..];
      if d[k] != 0 { n := n + 1; }
    }
  }

  method ChooseFormat(t: seq<BlockState>, bs: nat, i: nat, n: nat) returns (sparse: bool)
    requires i + n <= |t|
    ensures sparse == UseSparse(t, bs, i, n)
  {
    var nonzero := 0;
    for j := 0 to n
      invariant nonzero + NonZero(t, bs, i + j, n - j) == NonZero(t, bs, i, n)
    {
      var c := CountDelta(Delta(t[i + j], bs));
      nonzero := nonzero + c;
    }
    return nonzero < n * SPARSE_THRESHOLD_PER_BLOCK;
  }

  /** One block's diff data, dense or sparse. */
  method AppendDiff(s: BlockState, bs: nat, sparse: bool, buf: array<byte>, len: nat) returns (len': nat)
    requires len + 2 * bs <= buf.Length
    modifies buf
    ensures len <= len' <= len + 2 * bs
    ensures buf[..len'] == old(buf[..len]) + BlockDiff(s, bs, sparse)
  {
    hide Delta, Sparse.Encode;
    if sparse {
      len' := Sparse.EncodeBlock(Delta(s, bs), buf, len);
    } else {
      len' := Sparse.Append(buf, len, Delta(s, bs));
    }
  }

  lemma DiffStep(t: seq<BlockState>, bs: nat, i: nat, n: nat, sparse: bool, done: seq<byte>)
    requires i + n <= |t| && n >= 1
    ensures (done + BlockDiff(t[i], bs, sparse)) + DiffBytes(t, bs, i + 1, n - 1, sparse)
      == done + DiffBytes(t, bs, i, n, sparse)
  {
    hide BlockDiff;
  }

  /** Fills the scratch buffer, two bytes per output byte, with the run's diff data. */
  method BuildDiff(t: seq<BlockState>, bs: nat, i: nat, n: nat, sparse: bool) returns (diff: seq<byte>)
    requires i + n <= |t|
    ensures diff == DiffBytes(t, bs, i, n, sparse)
  {
    hide BlockDiff;
    MulNonNeg(n, 2 * bs);
    var buf := new byte[n * (2 * bs)];
    var len: nat := 0;
    for j := 0 to n
      invariant len <= j * (2 * bs) && len <= buf.Length
      invariant buf[..len] + DiffBytes(t, bs, i + j, n - j, sparse) == DiffBytes(t, bs, i, n, sparse)
    {
      MulAdd(j, 1, 2 * bs);
      MulLe(j + 1, n, 2 * bs);
      DiffStep(t, bs, i + j, n - j, sparse, buf[..len]);
      len := AppendDiff(t[i + j], bs, sparse, buf, len);
    }
    diff := buf[..len];
  }

  method EmitRun(t: seq<BlockState>, bs: nat, dest: seq<byte>, i: nat, n: nat) returns (r: Result<Streams>)
    requires i + n <= |t| && n >= 1 && |dest| == |t| * bs
    ensures r == RunStreams(t, bs, dest, i, n)
  {
    match t[i].kind {
      case IdentityMatch => r := Ok(Streams(OpBytes(Identity(n)), [], []));
      case ZeroMatch => r := Ok(Streams(OpBytes(Zero(n)), [], []));
      case OneMatch => r := Ok(Streams(OpBytes(One(n)), [], []));
      case NoMatch => r := Ok(Streams(OpBytes(Literal(n)), [], LiteralData(dest, bs, i, n, |t|)));
      case RelocateMatch =>
        var offset := BlockOffset(t, i);
        if Abs(offset) > UINT32_MAX {
          r := Ok(Streams(OpBytes(Literal(n)), [], LiteralData(dest, bs, i, n, |t|)));
        } else {
          r := Ok(Streams(OpBytes(Relocate(n, offset)), [], []));
        }
      case PartialMatch =>
        var offset := ByteOffset(t, bs, i);
        if offset < -0x8000_0000 || offset > 0x7FFF_FFFF {
          r := Ok(Streams(OpBytes(Literal(n)), [], LiteralData(dest, bs, i, n, |t|)));
        } else {
          var sparse := ChooseFormat(t, bs, i, n);
          var diff := BuildDiff(t, bs, i, n, sparse);
          if |diff| > UINT32_MAX { return Err(OutOfMemory); }
          r := Ok(Streams(OpBytes(CopyAdd(n, offset, sparse, |diff|)), diff, []));
        }
    }
  }

  lemma ThenAssoc(a: Streams, b: Streams, r: Result<Streams>)
    ensures Then(Concat(a, b), r) == Then(a, Then(b, r))
  {
    if r.Ok? {
      assert (a.op + b.op) + r.value.op == a.op + (b.op + r.value.op);
      assert (a.diff + b.diff) + r.value.diff == a.diff + (b.diff + r.value.diff);
      assert (a.lit + b.lit) + r.value.lit == a.lit + (b.lit + r.value.lit);
    }
  }

  lemma ThenUnits(r: Result<Streams>, a: Streams)
    ensures Then(Streams([], [], []), r) == r
    ensures Then(a, Ok(Streams([], [], []))) == Ok(a)
  {
    if r.Ok? {
      assert [] + r.value.op == r.value.op && [] + r.value.diff == r.value.diff && [] + r.value.lit == r.value.lit;
    }
    assert a.op + [] == a.op && a.diff + [] == a.diff && a.lit + [] == a.lit;
  }

  method Encode(t: seq<BlockState>, bs: nat, dest: seq<byte>) returns (r: Result<Streams>)
    requires bs >= 1 && |dest| == |t| * bs
    ensures r == EncodeFrom(t, bs, dest, 0)
  {
    hide RunStreams, RunLength, Then, Concat;
    ghost var spec := EncodeFrom(t, bs, dest, 0);
    var i, streams := 0, Streams([], [], []);
    ThenUnits(spec, streams);
    while i < |t|
      invariant 0 <= i <= |t|
      invariant spec == Then(streams, EncodeFrom(t, bs, dest, i))
    {
      var n := FindRun(t, bs, i);
      var run := EmitRun(t, bs, dest, i, n);
      if run.Err? {
        ThenErr(streams, run.error);
        return Err(run.error);
      }
      ThenAssoc(streams, run.value, EncodeFrom(t, bs, dest, i + n));
      streams := Concat(streams, run.value);
      i := i + n;
    }
    ThenUnits(spec, streams);
    return Ok(streams);
  }

  lemma ThenErr(a: Streams, e: Error)
    ensures Then(a, Err(e)) == Err(e)
  {
  }

  // ----- the run cap

  /** For every block size the format allows, the cap keeps `diff_len` in its 32-bit field,
      so encoding never fails. */
  lemma DiffFits(t: seq<BlockState>, bs: nat, i: nat, sparse: bool)
    requires i < |t| && 1 <= bs <= 0x100_0000 && t[i].kind == PartialMatch
    ensures |DiffBytes(t, bs, i, RunLength(t, bs, i), sparse)| <= UINT32_MAX
  {
    var n, w := RunLength(t, bs, i), bs * 2;
    var m := UINT32_MAX / w;
    assert m >= 1 && m * w <= UINT32_MAX by { DivMul(UINT32_MAX, w); }
    assert Joins(t, bs, i, i + n - 1);
    MulLe(n, m, w);
  }

  lemma DivMul(a: nat, b: nat)
    requires 1 <= b <= a
    ensures a / b >= 1 && (a / b) * b <= a
  {
    assert a == (a / b) * b + a % b;
  }

  lemma {:induction false} EncodeSucceeds(t: seq<BlockState>, bs: nat, dest: seq<byte>, i: nat)
    requires i <= |t| && 1 <= bs <= 0x100_0000 && |dest| == |t| * bs
    ensures EncodeFrom(t, bs, dest, i).Ok?
    decreases |t| - i
  {
    hide RunLength, DiffBytes, UseSparse, LiteralData, OpBytes;
    if i < |t| {
      var n := RunLength(t, bs, i);
      if t[i].kind == PartialMatch {
        DiffFits(t, bs, i, UseSparse(t, bs, i, n));
      }
      EncodeSucceeds(t, bs, dest, i + n);
    }
  }
}
