/** What the matching stages record about a destination block (src/core/block_tracker.h),
    and what it means for such a record to be sound. */
module Matches {
  import opened Bytes

  datatype Kind = NoMatch | IdentityMatch | RelocateMatch | PartialMatch | ZeroMatch | OneMatch

  datatype BlockState = BlockState(
    kind: Kind,
    srcIndex: nat,
    byteOffset: int,
    crc: nat,
    delta: Option<seq<byte>>)

  /** A freshly allocated record. */
  const UNMATCHED := BlockState(NoMatch, 0, 0, 0, None)

  /** Block `i` of an image. */
  function Block(image: seq<byte>, bs: nat, i: nat): (b: seq<byte>)
    requires i * bs + bs <= |image|
    ensures |b| == bs
  {
    MulNonNeg(i, bs);
    image[i * bs..i * bs + bs]
  }

  lemma BlockInside(image: seq<byte>, bs: nat, n: nat, i: nat)
    requires |image| == n * bs && i < n
    ensures 0 <= i * bs && i * bs + bs <= |image|
  {
    MulNonNeg(i, bs);
    MulAdd(i, 1, bs);
    MulLe(i + 1, n, bs);
  }

  /** The deltas of a partial match, as the encoder reads them: no delta means all zeros,
      a short one is padded with zeros. */
  function Delta(s: BlockState, bs: nat): (d: seq<byte>)
    ensures |d| == bs
  {
    match s.delta
    case None => Fill(0, bs)
    case Some(d) => if |d| >= bs then d[..bs] else d + Fill(0, bs - |d|)
  }

  /** The `bs` source bytes at byte position `p`, if they exist. */
  ghost predicate InSource(src: seq<byte>, bs: nat, p: int)
  {
    0 <= p && p + bs <= |src|
  }

  /** Byte position in the source of a partial match. */
  function SourcePos(s: BlockState, bs: nat): (p: int)
  {
    s.srcIndex * bs + s.byteOffset
  }

  /** Executing the record of block `i` on the source reproduces the destination block:
      the source range is in bounds and, for a partial match, source + delta is the block. */
  ghost predicate Sound(s: BlockState, i: nat, src: seq<byte>, dest: seq<byte>, bs: nat)
    requires i * bs + bs <= |dest|
  {
    match s.kind
    case NoMatch => true
    case ZeroMatch => Block(dest, bs, i) == Fill(0, bs)
    case OneMatch => Block(dest, bs, i) == Fill(255, bs)
    case IdentityMatch => i * bs + bs <= |src| && Block(src, bs, i) == Block(dest, bs, i)
    case RelocateMatch => s.srcIndex * bs + bs <= |src| && Block(src, bs, s.srcIndex) == Block(dest, bs, i)
    case PartialMatch =>
      var p := SourcePos(s, bs);
      InSource(src, bs, p) && AddBytes(src[p..p + bs], Delta(s, bs)) == Block(dest, bs, i)
  }

  /** Every record of the tracker is sound. */
  ghost predicate AllSound(t: seq<BlockState>, src: seq<byte>, dest: seq<byte>, bs: nat)
    requires |dest| == |t| * bs
  {
    forall i :: 0 <= i < |t| ==> (BlockInside(dest, bs, |t|, i); Sound(t[i], i, src, dest, bs))
  }
}
