/** The decoder loop of src/patch.c (`fsd_patch_apply`): a state machine over the three
    streams of a patch and the source image. */
module Decoder {
  import opened Bytes
  import opened Ops
  import Sparse

  // ----- specification: one function per kind of run, tail-recursive like the loops

  /** OP_COPY_IDENTITY and OP_COPY_RELOCATE: whole source blocks from block `first` on. */
  function CopyBlocks(src: seq<byte>, bs: nat, first: int, count: nat, out: seq<byte>): (r: Result<seq<byte>>)
    ensures r.Ok? ==> |r.value| == |out| + count * bs
    decreases count
  {
    if count == 0 then Ok(out)
    else if first < 0 || first * bs + bs > |src| then Err(CorruptData)
    else
      MulNonNeg(first, bs);
      assert count * bs == bs + (count - 1) * bs by { MulAdd(1, count - 1, bs); }
      CopyBlocks(src, bs, first + 1, count - 1, out + src[first * bs..first * bs + bs])
  }

  /** OP_ZERO and OP_ONE. */
  function FillBlocks(v: byte, bs: nat, count: nat, out: seq<byte>): (r: seq<byte>)
    ensures |r| == |out| + count * bs
    decreases count
  {
    if count == 0 then out
    else
      assert count * bs == bs + (count - 1) * bs by { MulAdd(1, count - 1, bs); }
      FillBlocks(v, bs, count - 1, out + Fill(v, bs))
  }

  datatype Taken = Taken(out: seq<byte>, next: nat)

  /** OP_LITERAL. */
  function LiteralBlocks(lit: seq<byte>, p: nat, bs: nat, count: nat, out: seq<byte>): (r: Result<Taken>)
    requires p <= |lit|
    ensures r.Ok? ==> |r.value.out| == |out| + count * bs && p <= r.value.next <= |lit|
    decreases count
  {
    if count == 0 then Ok(Taken(out, p))
    else if p + bs > |lit| then Err(Truncated)
    else
      assert count * bs == bs + (count - 1) * bs by { MulAdd(1, count - 1, bs); }
      LiteralBlocks(lit, p + bs, bs, count - 1, out + lit[p..p + bs])
  }

  /** One block of OP_COPY_ADD: the source block with its deltas applied. */
  function AddBlock(block: seq<byte>, region: seq<byte>, c: nat, sparse: bool): (r: Result<Sparse.Patched>)
    requires c <= |region|
    ensures r.Ok? ==> |r.value.bytes| == |block| && c <= r.value.cursor <= |region|
  {
    if sparse then Sparse.Decode(block, 0, region, c)
    else if c + |block| > |region| then Err(Truncated)
    else Ok(Sparse.Patched(Sparse.AddRange(block, 0, region, c, |block|), c + |block|))
  }

  /** OP_COPY_ADD: source bytes from position `pos` on, deltas from `region[c..]`. */
  function AddBlocks(src: seq<byte>, bs: nat, pos: int, region: seq<byte>, c: nat, sparse: bool,
                     count: nat, out: seq<byte>): (r: Result<seq<byte>>)
    requires c <= |region|
    ensures r.Ok? ==> |r.value| == |out| + count * bs
    decreases count
  {
    if count == 0 then Ok(out)
    else if pos < 0 || pos + bs > |src| then Err(CorruptData)
    else
      var p :- AddBlock(src[pos..pos + bs], region, c, sparse);
      assert count * bs == bs + (count - 1) * bs by { MulAdd(1, count - 1, bs); }
      AddBlocks(src, bs, pos + bs, region, p.cursor, sparse, count - 1, out + p.bytes)
  }

  /** The inputs of a decode, fixed for the whole run. */
  datatype Input = Input(src: seq<byte>, bs: nat, destBlocks: nat,
                         ops: seq<byte>, diff: seq<byte>, lit: seq<byte>)

  /** Cursors into the three streams, blocks produced and bytes written. */
  datatype State = State(opPos: nat, diffPos: nat, litPos: nat, block: nat, out: seq<byte>)

  ghost predicate Inside(x: Input, st: State)
  {
    && st.opPos <= |x.ops| && st.diffPos <= |x.diff| && st.litPos <= |x.lit|
    && st.block <= x.destBlocks && |st.out| == st.block * x.bs
  }

  /** Executes one operation; `st.opPos` is already past it. */
  function Exec(x: Input, op: Op, st: State): (r: Result<State>)
    requires st.opPos <= |x.ops| && st.diffPos <= |x.diff| && st.litPos <= |x.lit|
    ensures r.Ok? ==>
      && r.value.opPos == st.opPos && r.value.block == st.block + op.count
      && r.value.diffPos <= |x.diff| && r.value.litPos <= |x.lit|
      && |r.value.out| == |st.out| + op.count * x.bs
  {
    match op
    case Identity(n) =>
      var out :- CopyBlocks(x.src, x.bs, st.block, n, st.out);
      Ok(st.(block := st.block + n, out := out))
    case Relocate(n, offset) =>
      var out :- CopyBlocks(x.src, x.bs, st.block + offset, n, st.out);
      Ok(st.(block := st.block + n, out := out))
    case Zero(n) =>
      Ok(st.(block := st.block + n, out := FillBlocks(0, x.bs, n, st.out)))
    case One(n) =>
      Ok(st.(block := st.block + n, out := FillBlocks(255, x.bs, n, st.out)))
    case CopyAdd(n, offset, sparse, diffLen) =>
      if st.diffPos + diffLen > |x.diff| then Err(Truncated)
      else
        var region := x.diff[st.diffPos..st.diffPos + diffLen];
        var out :- AddBlocks(x.src, x.bs, st.block * x.bs + offset, region, 0, sparse, n, st.out);
        Ok(st.(block := st.block + n, diffPos := st.diffPos + diffLen, out := out))
    case Literal(n) =>
      var t :- LiteralBlocks(x.lit, st.litPos, x.bs, n, st.out);
      Ok(st.(block := st.block + n, litPos := t.next, out := t.out))
  }

  /** The decoder loop from state `st` on. It is a total function: it terminates on every
      input, and its well-formedness keeps every cursor inside its stream and every source
      read inside the source. */
  function Run(x: Input, st: State): (r: Result<seq<byte>>)
    requires Inside(x, st)
    ensures r.Ok? ==> |r.value| == x.destBlocks * x.bs
    decreases |x.ops| - st.opPos
  {
    if st.block < x.destBlocks && st.opPos < |x.ops| then
      var p :- ParseOp(x.ops, st.opPos, x.destBlocks - st.block);
      var st' :- Exec(x, p.op, st.(opPos := p.next));
      assert |st'.out| == st'.block * x.bs by { MulAdd(st.block, p.op.count, x.bs); }
      Run(x, st')
    else if st.block != x.destBlocks then Err(Truncated)
    else Ok(st.out)
  }

  const START := State(0, 0, 0, 0, [])

  function Decode(x: Input): (r: Result<seq<byte>>)
    ensures r.Ok? ==> |r.value| == x.destBlocks * x.bs
  {
    Run(x, START)
  }

  /** A relocation whose offset has selector 3 does what an identity copy does. */
  lemma SelectorThreeCopies(x: Input, n: nat, st: State)
    requires st.opPos <= |x.ops| && st.diffPos <= |x.diff| && st.litPos <= |x.lit|
    ensures Exec(x, Relocate(n, 0), st) == Exec(x, Identity(n), st)
  {
  }

  /** So the two bytes 38, 0 are accepted as a patch stream for one block, like the one byte 24. */
  lemma SelectorThreeAccepted(src: seq<byte>, bs: nat)
    requires bs <= |src|
    ensures Decode(Input(src, bs, 1, [38, 0], [], [])) == Ok(src[..bs]) == Decode(Input(src, bs, 1, [24], [], []))
  {
    hide ParseOp, Exec, Decode, CopyBlocks;
    var x, y := Input(src, bs, 1, [38, 0], [], []), Input(src, bs, 1, [24], [], []);
    ParseThree(x.ops);
    ParseInline(y.ops);
    FirstBlock(x, 2);
    FirstBlock(y, 1);
    SelectorThreeCopies(x, 1, START.(opPos := 2));
    RunOne(x, Relocate(1, 0), 2, src[..bs]);
    RunOne(y, Identity(1), 1, src[..bs]);
  }

  lemma ParseThree(s: seq<byte>)
    requires s == [38, 0]
    ensures ParseOp(s, 0, 1) == Ok(Parsed(Relocate(1, 0), 2))
  {
    hide ParseOp;
    var w := s[1..2];
    assert w[0] == 0 && w[1..] == [] && FromLE(w) == 0;
    assert Field(s, 1, 1) == 0;
    SelectorThreeRead(s, 0, 1);
  }

  /** The bytes 56, 1 are a relocation with an inline count, which the format does not have. They are accepted
      for one block and copy the second source block. */
  lemma InlineRelocateAccepted(src: seq<byte>, bs: nat)
    requires bs + bs <= |src|
    ensures Decode(Input(src, bs, 1, [56, 1], [], [])) == Ok(src[bs..bs + bs])
  {
    hide ParseOp, Exec, Decode;
    var x := Input(src, bs, 1, [56, 1], [], []);
    ParseInlineRelocate(x.ops);
    SecondBlock(x, 2);
    RunOne(x, Relocate(1, 1), 2, src[bs..bs + bs]);
  }

  lemma ParseInlineRelocate(s: seq<byte>)
    requires s == [56, 1]
    ensures ParseOp(s, 0, 1) == Ok(Parsed(Relocate(1, 1), 2))
  {
    hide ParseOp;
    var w := s[1..2];
    assert w[0] == 1 && w[1..] == [] && FromLE(w) == 1;
    assert Field(s, 1, 1) == 1;
    InlineRead(s, 0, 1);
  }

  lemma SecondBlock(x: Input, next: nat)
    requires x.bs + x.bs <= |x.src| && next <= |x.ops|
    ensures Exec(x, Relocate(1, 1), START.(opPos := next)) == Ok(State(next, 0, 0, 1, x.src[x.bs..x.bs + x.bs]))
  {
    assert CopyBlocks(x.src, x.bs, 1, 1, []) == CopyBlocks(x.src, x.bs, 2, 0, [] + x.src[x.bs..x.bs + x.bs]);
    assert [] + x.src[x.bs..x.bs + x.bs] == x.src[x.bs..x.bs + x.bs];
  }

  lemma ParseInline(s: seq<byte>)
    requires s == [24]
    ensures ParseOp(s, 0, 1) == Ok(Parsed(Identity(1), 1))
  {
  }

  lemma FirstBlock(x: Input, next: nat)
    requires x.bs <= |x.src| && next <= |x.ops|
    ensures Exec(x, Identity(1), START.(opPos := next)) == Ok(State(next, 0, 0, 1, x.src[..x.bs]))
  {
    assert CopyBlocks(x.src, x.bs, 0, 1, []) == CopyBlocks(x.src, x.bs, 1, 0, [] + x.src[0..x.bs]);
    assert [] + x.src[0..x.bs] == x.src[..x.bs];
  }

  /** A stream of one operation for one block. */
  lemma RunOne(x: Input, op: Op, next: nat, out: seq<byte>)
    requires x.destBlocks == 1 && |x.ops| == next && next > 0 && |out| == x.bs
    requires ParseOp(x.ops, 0, 1) == Ok(Parsed(op, next))
    requires Exec(x, op, START.(opPos := next)) == Ok(State(next, 0, 0, 1, out))
    ensures Decode(x) == Ok(out)
  {
    hide ParseOp, Exec;
    var st' := State(next, 0, 0, 1, out);
    assert Inside(x, START) && Inside(x, st');
    assert Run(x, st') == Ok(out);
    assert Run(x, START) == Run(x, st');
  }

  // ----- the loops

  method CopyRun(src: seq<byte>, bs: nat, first: int, count: nat, out0: seq<byte>) returns (r: Result<seq<byte>>)
    ensures r == CopyBlocks(src, bs, first, count, out0)
  {
    var out := out0;
    for i := 0 to count
      invariant CopyBlocks(src, bs, first + i, count - i, out) == CopyBlocks(src, bs, first, count, out0)
    {
      var block := first + i;
      if block < 0 { return Err(CorruptData); }
      if block * bs + bs > |src| { return Err(CorruptData); }
      MulNonNeg(block, bs);
      out := out + src[block * bs..block * bs + bs];
    }
    return Ok(out);
  }

  method FillRun(v: byte, bs: nat, count: nat, out0: seq<byte>) returns (out: seq<byte>)
    ensures out == FillBlocks(v, bs, count, out0)
  {
    out := out0;
    for i := 0 to count
      invariant FillBlocks(v, bs, count - i, out) == FillBlocks(v, bs, count, out0)
    {
      out := out + Fill(v, bs);
    }
  }

  method LiteralRun(lit: seq<byte>, p0: nat, bs: nat, count: nat, out0: seq<byte>) returns (r: Result<Taken>)
    requires p0 <= |lit|
    ensures r == LiteralBlocks(lit, p0, bs, count, out0)
  {
    var out, p: nat := out0, p0;
    for i := 0 to count
      invariant p <= |lit|
      invariant LiteralBlocks(lit, p, bs, count - i, out) == LiteralBlocks(lit, p0, bs, count, out0)
    {
      if p + bs > |lit| { return Err(Truncated); }
      out := out + lit[p..p + bs];
      p := p + bs;
    }
    return Ok(Taken(out, p));
  }

  /** One block in the decoder's block buffer. */
  method ApplyBlock(buf: array<byte>, region: seq<byte>, c: nat, sparse: bool) returns (r: Result<nat>)
    requires c <= |region|
    modifies buf
    ensures var spec := AddBlock(old(buf[..]), region, c, sparse);
      if spec.Ok? then r == Ok(spec.value.cursor) && buf[..] == spec.value.bytes
      else r == Err(spec.error)
  {
    hide Sparse.Decode, Sparse.AddRange;
    if sparse {
      r := Sparse.DecodeBlock(buf, region, c);
    } else {
      if c + buf.Length > |region| { return Err(Truncated); }
      var end := Sparse.ApplyAdd(buf, 0, region, c, buf.Length);
      r := Ok(c + buf.Length);
    }
  }

  method AddRun(src: seq<byte>, bs: nat, pos0: int, region: seq<byte>, sparse: bool, count: nat, out0: seq<byte>)
    returns (r: Result<seq<byte>>)
    ensures r == AddBlocks(src, bs, pos0, region, 0, sparse, count, out0)
  {
    hide AddBlock;
    var out, c: nat, pos := out0, 0, pos0;
    var buf := new byte[bs];
    for i := 0 to count
      invariant c <= |region|
      invariant AddBlocks(src, bs, pos, region, c, sparse, count - i, out)
        == AddBlocks(src, bs, pos0, region, 0, sparse, count, out0)
    {
      if pos < 0 { return Err(CorruptData); }
      if pos + bs > |src| { return Err(CorruptData); }
      forall k | 0 <= k < bs { buf[k] := src[pos + k]; }
      assert buf[..] == src[pos..pos + bs];
      var cursor := ApplyBlock(buf, region, c, sparse);
      if cursor.Err? { return Err(cursor.error); }
      out := out + buf[..];
      c, pos := cursor.value, pos + bs;
    }
    return Ok(out);
  }

  method ExecOp(x: Input, op: Op, st: State) returns (r: Result<State>)
    requires st.opPos <= |x.ops| && st.diffPos <= |x.diff| && st.litPos <= |x.lit|
    ensures r == Exec(x, op, st)
  {
    hide CopyBlocks, FillBlocks, AddBlocks, LiteralBlocks;
    match op
    case Identity(n) =>
      var out := CopyRun(x.src, x.bs, st.block, n, st.out);
      if out.Err? { return Err(out.error); }
      r := Ok(st.(block := st.block + n, out := out.value));
    case Relocate(n, offset) =>
      var out := CopyRun(x.src, x.bs, st.block + offset, n, st.out);
      if out.Err? { return Err(out.error); }
      r := Ok(st.(block := st.block + n, out := out.value));
    case Zero(n) =>
      var out := FillRun(0, x.bs, n, st.out);
      r := Ok(st.(block := st.block + n, out := out));
    case One(n) =>
      var out := FillRun(255, x.bs, n, st.out);
      r := Ok(st.(block := st.block + n, out := out));
    case CopyAdd(n, offset, sparse, diffLen) =>
      if st.diffPos + diffLen > |x.diff| { return Err(Truncated); }
      var region := x.diff[st.diffPos..st.diffPos + diffLen];
      var out := AddRun(x.src, x.bs, st.block * x.bs + offset, region, sparse, n, st.out);
      if out.Err? { return Err(out.error); }
      r := Ok(st.(block := st.block + n, diffPos := st.diffPos + diffLen, out := out.value));
    case Literal(n) =>
      var t := LiteralRun(x.lit, st.litPos, x.bs, n, st.out);
      if t.Err? { return Err(t.error); }
      r := Ok(st.(block := st.block + n, litPos := t.value.next, out := t.value.out));
  }

  method DecodeStreams(x: Input) returns (r: Result<seq<byte>>)
    ensures r == Decode(x)
  {
    hide ParseOp, Exec;
    var st := START;
    while st.block < x.destBlocks && st.opPos < |x.ops|
      invariant Inside(x, st)
      invariant Run(x, st) == Decode(x)
      decreases |x.ops| - st.opPos
    {
      var p := ParseOp(x.ops, st.opPos, x.destBlocks - st.block);
      if p.Err? { return Err(p.error); }
      ghost var before := st;
      var next := ExecOp(x, p.value.op, st.(opPos := p.value.next));
      if next.Err? { return Err(next.error); }
      st := next.value;
      MulAdd(before.block, p.value.op.count, x.bs);
    }
    if st.block != x.destBlocks { return Err(Truncated); }
    return Ok(st.out);
  }
}
