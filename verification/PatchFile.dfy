/** A whole patch file: how src/diff.c assembles it and how src/patch.c takes it apart. */
module PatchFile {
  import opened Bytes
  import opened Header
  import opened Encoder
  import opened Codec
  import Decoder
  import Ops
  import Varint
  import Writer

  /** `1ULL << block_size_log2`. */
  function BlockSize(log2: nat): (bs: nat)
    ensures bs >= 1
  {
    Shl(1, log2)
  }

  lemma BlockSizeRange(log2: nat)
    requires 5 <= log2 <= 24
    ensures 32 <= BlockSize(log2) <= 0x100_0000
  {
    Varint.ShlMono(1, 1, 5, log2);
    Varint.ShlMono(1, 1, log2, 24);
    assert Shl(1, 5) == 32;
    Varint.ShlStep(1, 17);
    Varint.ShlStep(0x80, 10);
    Varint.ShlStep(0x4000, 3);
  }

  function PatchBytes(log2: byte, destBlocks: nat, s: Streams): (p: seq<byte>)
  {
    HeaderBytes(Fields(log2, destBlocks, |s.op|, |s.diff|)) + s.op + s.diff + s.lit
  }

  // ----- writing

  /** One stream through a buffered writer into its temporary file, then flushed; `size` is
      what the writer reports. */
  method SaveStream(data: seq<byte>, bufferSize: nat, calm: bool) returns (r: Result<seq<byte>>, size: nat)
    ensures r.Ok? ==> r.value == data && size == |data|
    ensures if calm then r.Ok? else r.Err? ==> r.error == IoError
  {
    var w := new Writer.BufferedWriter([], bufferSize, calm);
    size := 0;
    var ok := w.Write(data);
    if !ok { return Err(IoError), 0; }
    ok := w.Flush();
    if !ok { return Err(IoError), 0; }
    size := w.BytesWritten();
    r := Ok(w.file);
  }

  /** The three streams into their files, their sizes into the header, and all of it into the patch file. */
  method SavePatch(log2: byte, destBlocks: nat, s: Streams, bufferSize: nat, calm: bool) returns (r: Result<seq<byte>>)
    ensures r.Ok? ==> r.value == PatchBytes(log2, destBlocks, s)
    ensures if calm then r.Ok? else r.Err? ==> r.error == IoError
  {
    var op, opSize := SaveStream(s.op, bufferSize, calm);
    if op.Err? { return op; }
    var diff, diffSize := SaveStream(s.diff, bufferSize, calm);
    if diff.Err? { return diff; }
    var lit, litSize := SaveStream(s.lit, bufferSize, calm);
    if lit.Err? { return lit; }
    var copied := Attempt(calm);
    if !copied { return Err(IoError); }
    var header := WriteHeader(Fields(log2, destBlocks, opSize, diffSize));
    r := Ok(header + op.value + diff.value + lit.value);
  }

  // ----- reading

  /** Validates the header and locates the three streams. */
  function Locate(src: seq<byte>, patch: seq<byte>): (r: Result<Decoder.Input>)
    ensures r.Ok? ==> r.value.src == src
  {
    var h :- ReadHeader(patch);
    var bs := BlockSize(h.blockSizeLog2);
    if h.destBlocks > INT64_MAX / bs then Err(CorruptData)
    else if h.opLen > |patch| - HEADER_SIZE then Err(CorruptData)
    else if h.diffLen > |patch| - HEADER_SIZE - h.opLen then Err(CorruptData)
    else
      var opEnd := HEADER_SIZE + h.opLen;
      var diffEnd := opEnd + h.diffLen;
      Ok(Decoder.Input(src, bs, h.destBlocks, patch[HEADER_SIZE..opEnd], patch[opEnd..diffEnd], patch[diffEnd..]))
  }

  /** Beyond a good header, a patch is refused exactly when its destination is larger than 2^63 - 1 bytes or
      its operation and diff streams do not fit in the file. */
  lemma LocateExact(src: seq<byte>, patch: seq<byte>)
    ensures ReadHeader(patch).Err? ==> Locate(src, patch) == Err(ReadHeader(patch).error)
    ensures ReadHeader(patch).Ok? ==>
      var h := ReadHeader(patch).value;
      if h.destBlocks * BlockSize(h.blockSizeLog2) <= INT64_MAX && 32 + h.opLen + h.diffLen <= |patch|
      then Locate(src, patch) == Ok(Decoder.Input(src, BlockSize(h.blockSizeLog2), h.destBlocks,
        patch[32..32 + h.opLen], patch[32 + h.opLen..32 + h.opLen + h.diffLen], patch[32 + h.opLen + h.diffLen..]))
      else Locate(src, patch) == Err(CorruptData)
  {
    hide ReadHeader, BlockSize;
    var r := ReadHeader(patch);
    if r.Ok? {
      var bs, n := BlockSize(r.value.blockSizeLog2), r.value.destBlocks;
      var q := INT64_MAX / bs;
      assert INT64_MAX == q * bs + INT64_MAX % bs;
      if n > q {
        MulLe(q + 1, n, bs);
        MulAdd(q, 1, bs);
      } else {
        MulLe(n, q, bs);
      }
    }
  }

  function Apply(src: seq<byte>, patch: seq<byte>): (r: Result<seq<byte>>)
  {
    var x :- Locate(src, patch);
    Decoder.Decode(x)
  }

  method ApplyPatch(src: seq<byte>, patch: seq<byte>) returns (r: Result<seq<byte>>)
    ensures r == Apply(src, patch)
  {
    hide Decoder.Decode;
    var x := Locate(src, patch);
    if x.Err? { return Err(x.error); }
    r := Decoder.DecodeStreams(x.value);
  }

  // ----- layout round trip

  /** A file assembled from three streams parses back into the same fields and slices. */
  lemma LayoutRoundTrip(log2: byte, destBlocks: nat, s: Streams, src: seq<byte>)
    requires 5 <= log2 <= 24 && destBlocks < TWO64 && |s.op| < TWO64 && |s.diff| < TWO64
    requires destBlocks <= INT64_MAX / BlockSize(log2)
    ensures Locate(src, PatchBytes(log2, destBlocks, s))
      == Ok(Decoder.Input(src, BlockSize(log2), destBlocks, s.op, s.diff, s.lit))
  {
    hide HeaderBytes, ReadHeader, BlockSize;
    var h := Fields(log2, destBlocks, |s.op|, |s.diff|);
    var patch := PatchBytes(log2, destBlocks, s);
    Header.RoundTrip(h, s.op + s.diff + s.lit);
    assert patch == HeaderBytes(h) + (s.op + s.diff + s.lit);
    var opEnd := HEADER_SIZE + |s.op|;
    var diffEnd := opEnd + |s.diff|;
    assert patch[HEADER_SIZE..opEnd] == s.op;
    assert patch[opEnd..diffEnd] == s.diff;
    assert patch[diffEnd..] == s.lit;
  }

  lemma {:induction false} StreamSizes(job: Job, i: nat)
    requires job.Valid() && i <= |job.t|
    ensures |job.Enc(i).op| <= 13 * (|job.t| - i)
    ensures |job.Enc(i).diff| <= (|job.t| - i) * (2 * job.bs)
    decreases |job.t| - i
  {
    hide EncodeFrom, Ops.OpBytes, DiffBytes, OpAt, LiteralData;
    if i < |job.t| {
      var n, op, run := EncStep(job, i);
      Ops.OpSize(op);
      assert |run.diff| <= n * (2 * job.bs) by {
        MulNonNeg(n, 2 * job.bs);
      }
      MulAdd(n, |job.t| - i - n, 2 * job.bs);
      StreamSizes(job, i + n);
    } else {
      EncEnd(job);
    }
  }

  lemma DestTooLarge(job: Job)
    requires job.Valid()
    ensures |job.t| > INT64_MAX / job.bs <==> |job.dest| > INT64_MAX
  {
    var q := INT64_MAX / job.bs;
    assert INT64_MAX == q * job.bs + INT64_MAX % job.bs;
    if |job.t| > q {
      MulLe(q + 1, |job.t|, job.bs);
      MulAdd(q, 1, job.bs);
    } else {
      MulLe(|job.t|, q, job.bs);
    }
  }

  /** Patch files undo diffs. For every source, destination (of a size that a 64-bit host can
      map) and sound tracker, applying the patch that the encoder's streams make yields
      exactly the destination if and only if the destination is at most 2^63 - 1 bytes and
      no run reaches 2^32 blocks; when it does not, an error is reported. */
  lemma PatchRoundTrip(job: Job, log2: byte)
    requires job.Valid() && 5 <= log2 <= 24 && job.bs == BlockSize(log2) && |job.dest| < TWO64
    ensures var r := Apply(job.src, PatchBytes(log2, |job.t|, job.Enc(0)));
      if |job.dest| <= INT64_MAX && ShortRuns(job.t, job.bs, 0) then r == Ok(job.dest) else r.Err?
  {
    hide HeaderBytes, ReadHeader, BlockSize, EncodeFrom, ShortRuns, Decoder.Decode, Locate;
    BlockSizeRange(log2);
    DestTooLarge(job);
    MulLe(32, job.bs, |job.t|);
    if |job.dest| <= INT64_MAX {
      StreamSizes(job, 0);
      LayoutRoundTrip(log2, |job.t|, job.Enc(0), job.src);
      Codec.RoundTrip(job);
    } else {
      TooLargeRejected(job, log2);
    }
  }

  /** The streams that the patcher finds are those that the encoder wrote. */
  lemma StreamsFound(job: Job, log2: byte)
    requires job.Valid() && 5 <= log2 <= 24 && job.bs == BlockSize(log2) && |job.dest| <= INT64_MAX
    ensures Locate(job.src, PatchBytes(log2, |job.t|, job.Enc(0))) == Ok(job.Feed())
  {
    hide HeaderBytes, ReadHeader, BlockSize, EncodeFrom, Locate;
    BlockSizeRange(log2);
    DestTooLarge(job);
    MulLe(32, job.bs, |job.t|);
    StreamSizes(job, 0);
    LayoutRoundTrip(log2, |job.t|, job.Enc(0), job.src);
  }

  lemma TooLargeRejected(job: Job, log2: byte)
    requires job.Valid() && 5 <= log2 <= 24 && job.bs == BlockSize(log2)
    requires |job.t| > INT64_MAX / job.bs && |job.t| < TWO64
    ensures Locate(job.src, PatchBytes(log2, |job.t|, job.Enc(0))) == Err(CorruptData)
  {
    hide HeaderBytes, ReadHeader, BlockSize, EncodeFrom;
    var s := job.Enc(0);
    var h := Fields(log2, |job.t|, |s.op| % TWO64, |s.diff| % TWO64);
    Header.RoundTrip(h, s.op + s.diff + s.lit);
    SameHeader(log2, |job.t|, |s.op|, |s.diff|);
    assert PatchBytes(log2, |job.t|, s) == HeaderBytes(h) + (s.op + s.diff + s.lit);
  }

  /** Length fields are written modulo 2^64. */
  lemma SameHeader(log2: byte, destBlocks: nat, opLen: nat, diffLen: nat)
    ensures HeaderBytes(Fields(log2, destBlocks, opLen, diffLen))
      == HeaderBytes(Fields(log2, destBlocks, opLen % TWO64, diffLen % TWO64))
  {
  }
}
