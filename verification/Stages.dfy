/** The first two matching stages: src/stages/stage_identity.c and
    src/stages/stage_relocation.c. */
module Stages {
  import opened Bytes
  import opened Matches
  import opened Tracker
  import opened HashTable
  import Scalar

  /** The two images and the block size. The destination is a whole number of blocks; the
      source may have a partial last block, which is not used as a reference. */
  datatype Images = Images(src: seq<byte>, dest: seq<byte>, bs: nat) {
    ghost predicate Valid(n: nat)
    {
      bs >= 1 && |dest| == n * bs
    }

    function SrcBlocks(): (n: nat)
      requires bs >= 1
    {
      |src| / bs
    }
  }

  lemma SrcInside(im: Images, j: nat)
    requires im.bs >= 1 && j < im.SrcBlocks()
    ensures j * im.bs + im.bs <= |im.src|
  {
    var n := im.SrcBlocks();
    assert |im.src| == n * im.bs + |im.src| % im.bs;
    MulLe(j + 1, n, im.bs);
    MulAdd(j, 1, im.bs);
  }

  lemma SrcOutside(im: Images, j: nat)
    requires im.bs >= 1 && j * im.bs + im.bs <= |im.src|
    ensures j < im.SrcBlocks()
  {
    var n := im.SrcBlocks();
    assert |im.src| == n * im.bs + |im.src| % im.bs;
    MulAdd(j, 1, im.bs);
    MulAdd(n, 1, im.bs);
    if j >= n {
      MulLe(n + 1, j + 1, im.bs);
    }
  }

  /** Source block `j` has the same bytes as destination block `d`. */
  predicate SameBlock(im: Images, j: nat, d: nat)
  {
    && j * im.bs + im.bs <= |im.src| && d * im.bs + im.bs <= |im.dest|
    && Block(im.src, im.bs, j) == Block(im.dest, im.bs, d)
  }

  /** First writer wins. */
  function Matched(s: BlockState, kind: Kind, srcIndex: nat): (r: BlockState)
  {
    if s.kind == NoMatch then s.(kind := kind, srcIndex := srcIndex) else s
  }

  // ----- stage 1

  /** What the identity stage does to one record. `crc` is any function of the bytes. */
  function IdentityRecord(im: Images, crc: seq<byte> -> nat, i: nat, s: BlockState): (r: BlockState)
    requires im.bs >= 1 && i * im.bs + im.bs <= |im.dest|
  {
    var block := Block(im.dest, im.bs, i);
    if block == Fill(0, im.bs) then Matched(s, ZeroMatch, 0)
    else if block == Fill(255, im.bs) then Matched(s, OneMatch, 0)
    else if i < im.SrcBlocks() && SameBlock(im, i, i) then Matched(s, IdentityMatch, i)
    else s.(crc := crc(block))
  }

  method IdentityBlock(tr: BlockTracker, im: Images, crc: seq<byte> -> nat, i: nat, common: bool)
    requires tr.Valid() && im.Valid(tr.blocks.Length) && i < tr.blocks.Length
    requires common <==> i < im.SrcBlocks()
    requires i * im.bs + im.bs <= |im.dest|
    modifies tr, tr.blocks, tr.bitmap
    ensures tr.Valid()
    ensures tr.blocks[..] == old(tr.blocks[..])[i := IdentityRecord(im, crc, i, old(tr.blocks[i]))]
  {
    hide Fill;
    var block := Block(im.dest, im.bs, i);
    ghost var was := tr.blocks[..];
    var zero := Scalar.IsConst(block, 0);
    if zero {
      tr.SetMatch(i, ZeroMatch, 0);
      assert tr.blocks[..] == was[i := Matched(was[i], ZeroMatch, 0)];
      return;
    }
    var one := Scalar.IsConst(block, 255);
    if one {
      tr.SetMatch(i, OneMatch, 0);
      assert tr.blocks[..] == was[i := Matched(was[i], OneMatch, 0)];
      return;
    }
    if common {
      SrcInside(im, i);
      if Block(im.src, im.bs, i) == block {
        tr.SetMatch(i, IdentityMatch, i);
        assert tr.blocks[..] == was[i := Matched(was[i], IdentityMatch, i)];
        return;
      }
    }
    tr.SetCrc(i, crc(block));
  }

  ghost predicate IdentityDone(im: Images, crc: seq<byte> -> nat, was: seq<BlockState>, now: seq<BlockState>, m: nat)
    requires im.Valid(|was|)
  {
    && |now| == |was| && m <= |was|
    && (forall i :: 0 <= i < m ==>
          (BlockInside(im.dest, im.bs, |was|, i); now[i] == IdentityRecord(im, crc, i, was[i])))
    && (forall i :: m <= i < |was| ==> now[i] == was[i])
  }

  /** Stage 1 rewrites every record as `IdentityRecord` says. */
  method IdentityRun(tr: BlockTracker, im: Images, crc: seq<byte> -> nat)
    requires tr.Valid() && im.Valid(tr.blocks.Length)
    modifies tr, tr.blocks, tr.bitmap
    ensures tr.Valid()
    ensures IdentityDone(im, crc, old(tr.blocks[..]), tr.blocks[..], tr.blocks.Length)
  {
    hide IdentityRecord;
    ghost var was := tr.blocks[..];
    var n := tr.blocks.Length;
    var common := if im.SrcBlocks() < n then im.SrcBlocks() else n;
    for i := 0 to common
      invariant tr.Valid() && IdentityDone(im, crc, was, tr.blocks[..], i)
    {
      BlockInside(im.dest, im.bs, n, i);
      IdentityBlock(tr, im, crc, i, true);
    }
    for i := common to n
      invariant tr.Valid() && IdentityDone(im, crc, was, tr.blocks[..], i)
    {
      BlockInside(im.dest, im.bs, n, i);
      IdentityBlock(tr, im, crc, i, false);
    }
  }

  /** Soundness does not depend on the stored CRC. */
  lemma SoundCrc(im: Images, i: nat, s: BlockState, c: nat)
    requires i * im.bs + im.bs <= |im.dest| && Sound(s, i, im.src, im.dest, im.bs)
    ensures Sound(s.(crc := c), i, im.src, im.dest, im.bs)
  {
    hide Fill, AddBytes, Block;
  }

  lemma IdentitySound(im: Images, crc: seq<byte> -> nat, i: nat, s: BlockState)
    requires im.bs >= 1 && i * im.bs + im.bs <= |im.dest| && Sound(s, i, im.src, im.dest, im.bs)
    ensures Sound(IdentityRecord(im, crc, i, s), i, im.src, im.dest, im.bs)
  {
    hide Fill, AddBytes, Block, Delta;
    SoundCrc(im, i, s, crc(Block(im.dest, im.bs, i)));
  }

  lemma IdentityStageSound(im: Images, crc: seq<byte> -> nat, was: seq<BlockState>, now: seq<BlockState>)
    requires im.Valid(|was|) && IdentityDone(im, crc, was, now, |was|) && AllSound(was, im.src, im.dest, im.bs)
    ensures AllSound(now, im.src, im.dest, im.bs)
  {
    hide IdentityRecord, Sound;
    forall i | 0 <= i < |now|
      ensures (BlockInside(im.dest, im.bs, |now|, i); Sound(now[i], i, im.src, im.dest, im.bs))
    {
      BlockInside(im.dest, im.bs, |was|, i);
      IdentitySound(im, crc, i, was[i]);
    }
  }

  // ----- stage 2

  /** The insertions of a complete index over the first `m` source blocks: all non-zero blocks,
      in order, under their CRC. */
  function IndexLog(im: Images, crc: seq<byte> -> nat, m: nat): (log: seq<Item>)
    requires im.bs >= 1 && m <= im.SrcBlocks()
  {
    if m == 0 then []
    else
      SrcInside(im, m - 1);
      var block := Block(im.src, im.bs, m - 1);
      IndexLog(im, crc, m - 1) + (if block == Fill(0, im.bs) then [] else [Item(crc(block), m - 1)])
  }

  ghost predicate IndicesInside(im: Images, log: seq<Item>)
    requires im.bs >= 1
  {
    forall k :: 0 <= k < |log| ==> log[k].index < im.SrcBlocks()
  }

  /** Builds the index. An insertion whose allocation fails is silently skipped; `complete`
      reports that none was. Block sizes are powers of two from 32 on, hence multiples of 8. */
  method BuildIndex(im: Images, crc: seq<byte> -> nat, calm: bool) returns (table: Table, complete: bool)
    requires im.bs >= 1 && im.bs % 8 == 0
    ensures fresh(table) && fresh(table.buckets) && table.Valid()
    ensures IndicesInside(im, table.log)
    ensures complete ==> table.log == IndexLog(im, crc, im.SrcBlocks())
    ensures calm ==> complete
  {
    hide Fill, Table.Valid, IndexLog;
    table := new Table(im.SrcBlocks());
    complete := true;
    IndexStart(im, crc);
    for j := 0 to im.SrcBlocks()
      invariant fresh(table) && fresh(table.buckets) && table.Valid()
      invariant IndicesInside(im, table.log)
      invariant complete ==> table.log == IndexLog(im, crc, j)
      invariant calm ==> complete
    {
      SrcInside(im, j);
      var block := Block(im.src, im.bs, j);
      IndexStep(im, crc, j);
      var zero := Scalar.IsZeroQuick(block);
      if !zero {
        var ok := table.Insert(crc(block), j, calm);
        complete := complete && ok;
      }
    }
  }

  lemma IndexStart(im: Images, crc: seq<byte> -> nat)
    requires im.bs >= 1
    ensures IndexLog(im, crc, 0) == []
  {
  }

  lemma IndexStep(im: Images, crc: seq<byte> -> nat, j: nat)
    requires im.bs >= 1 && j < im.SrcBlocks() && j * im.bs + im.bs <= |im.src|
    ensures var block := Block(im.src, im.bs, j);
      IndexLog(im, crc, j + 1) ==
        if block == Fill(0, im.bs) then IndexLog(im, crc, j) else IndexLog(im, crc, j) + [Item(crc(block), j)]
  {
    hide Fill, Block;
    assert IndexLog(im, crc, j) + [] == IndexLog(im, crc, j);
  }

  /** What the stage accepts for destination block `d`: another position with the same bytes. */
  function Wanted(im: Images, d: nat): (want: nat -> bool)
  {
    (j: nat) => j != d && SameBlock(im, j, d)
  }

  /** What the relocation stage does to one record. */
  function RelocateRecord(log: seq<Item>, buckets: nat, im: Images, d: nat, s: BlockState): (r: BlockState)
    requires buckets > 0
  {
    if s.kind != NoMatch then s
    else
      match Find(log, buckets, s.crc, Wanted(im, d))
      case Some(j) => s.(kind := RelocateMatch, srcIndex := j)
      case None => s
  }

  /** Walks the chain of one block, comparing bytes to see through CRC collisions. */
  method WalkChain(im: Images, d: nat, c0: Chain) returns (r: Option<nat>)
    ensures r == FindChain(c0, Wanted(im, d))
  {
    var c := c0;
    while c.Entry?
      invariant FindChain(c, Wanted(im, d)) == FindChain(c0, Wanted(im, d))
      decreases c
    {
      if c.index != d && SameBlock(im, c.index, d) {
        return Some(c.index);
      }
      c := c.next;
    }
    return None;
  }

  ghost predicate RelocationDone(log: seq<Item>, buckets: nat, im: Images, was: seq<BlockState>,
                                 now: seq<BlockState>, m: nat)
    requires buckets > 0
  {
    && |now| == |was| && m <= |was|
    && (forall d :: 0 <= d < m ==> now[d] == RelocateRecord(log, buckets, im, d, was[d]))
    && (forall d :: m <= d < |was| ==> now[d] == was[d])
  }

  /** Stage 2 rewrites every record as `RelocateRecord` says. */
  method RelocationRun(tr: BlockTracker, im: Images, table: Table)
    requires tr.Valid() && im.Valid(tr.blocks.Length) && table.Valid()
    requires table.buckets as object != tr.blocks as object && table.buckets as object != tr.bitmap as object
    modifies tr, tr.blocks, tr.bitmap
    ensures tr.Valid()
    ensures table.Valid() && table.log == old(table.log)
    ensures RelocationDone(table.log, table.buckets.Length, im, old(tr.blocks[..]), tr.blocks[..], tr.blocks.Length)
  {
    hide Find, ChainOf, Skip, FindChain, SameBlock;
    ghost var was := tr.blocks[..];
    for d := 0 to tr.blocks.Length
      invariant tr.Valid() && table.Valid() && table.log == old(table.log)
      invariant RelocationDone(table.log, table.buckets.Length, im, was, tr.blocks[..], d)
    {
      var open := tr.IsUnmatched(d);
      if open {
        var chain := table.Lookup(tr.blocks[d].crc);
        var hit := WalkChain(im, d, chain);
        assert hit == Find(table.log, table.buckets.Length, was[d].crc, Wanted(im, d)) by {
          FindUnfold(table.log, table.buckets.Length, was[d].crc, Wanted(im, d));
        }
        if hit.Some? {
          tr.SetMatch(d, RelocateMatch, hit.value);
        }
      }
    }
  }

  lemma RelocateSound(log: seq<Item>, buckets: nat, im: Images, d: nat, s: BlockState)
    requires buckets > 0 && im.bs >= 1 && d * im.bs + im.bs <= |im.dest| && Sound(s, d, im.src, im.dest, im.bs)
    ensures Sound(RelocateRecord(log, buckets, im, d, s), d, im.src, im.dest, im.bs)
  {
    hide Fill, AddBytes;
    FindWanted(Skip(ChainOf(log, |log|, s.crc % buckets, buckets), s.crc), Wanted(im, d));
  }

  lemma RelocationStageSound(log: seq<Item>, buckets: nat, im: Images, was: seq<BlockState>, now: seq<BlockState>)
    requires buckets > 0 && im.Valid(|was|) && RelocationDone(log, buckets, im, was, now, |was|)
    requires AllSound(was, im.src, im.dest, im.bs)
    ensures AllSound(now, im.src, im.dest, im.bs)
  {
    hide RelocateRecord, Sound;
    forall d | 0 <= d < |now|
      ensures (BlockInside(im.dest, im.bs, |now|, d); Sound(now[d], d, im.src, im.dest, im.bs))
    {
      BlockInside(im.dest, im.bs, |was|, d);
      RelocateSound(log, buckets, im, d, was[d]);
    }
  }

  // ----- completeness of stages 1 and 2

  lemma {:induction false} FindLogPrefix(log: seq<Item>, x: Item, m: nat, want: nat -> bool)
    requires m <= |log|
    ensures FindLog(log + [x], m, want) == FindLog(log, m, want)
  {
    if m > 0 {
      FindLogPrefix(log, x, m - 1, want);
    }
  }

  /** Source block `j` exists and is not all zeros, so a complete index holds it. */
  predicate Indexed(im: Images, j: nat)
    requires im.bs >= 1
  {
    j * im.bs + im.bs <= |im.src| && Block(im.src, im.bs, j) != Fill(0, im.bs)
  }

  /** `r` is the highest indexed block below `m` that `want` accepts, if there is one. */
  ghost predicate Highest(im: Images, m: nat, want: nat -> bool, r: Option<nat>)
    requires im.bs >= 1
  {
    match r
    case Some(v) => v < m && want(v) && forall j :: v < j < m && Indexed(im, j) ==> !want(j)
    case None => forall j :: 0 <= j < m && Indexed(im, j) ==> !want(j)
  }

  lemma HighestStep(im: Images, m: nat, want: nat -> bool, r: Option<nat>)
    requires im.bs >= 1 && Highest(im, m, want, r)
    ensures Highest(im, m + 1, want, if Indexed(im, m) && want(m) then Some(m) else r)
  {
    hide Indexed;
  }

  lemma NewestFirst(log: seq<Item>, x: Item, want: nat -> bool)
    ensures FindLog(log + [x], |log| + 1, want) == if want(x.index) then Some(x.index) else FindLog(log, |log|, want)
  {
    FindLogPrefix(log, x, |log|, want);
  }

  /** Scanning a complete index newest first finds the highest acceptable block. */
  lemma {:induction false} ScanIndex(im: Images, crc: seq<byte> -> nat, m: nat, want: nat -> bool)
    requires im.bs >= 1 && m <= im.SrcBlocks()
    ensures var log := IndexLog(im, crc, m); Highest(im, m, want, FindLog(log, |log|, want))
  {
    hide Fill, Block, FindLog;
    if m == 0 {
      EmptyScan(want);
    } else {
      ScanIndex(im, crc, m - 1, want);
      SrcInside(im, m - 1);
      var log, block := IndexLog(im, crc, m - 1), Block(im.src, im.bs, m - 1);
      HighestStep(im, m - 1, want, FindLog(log, |log|, want));
      NewestFirst(log, Item(crc(block), m - 1), want);
      assert block == Fill(0, im.bs) ==> IndexLog(im, crc, m) == log;
    }
  }

  lemma EmptyScan(want: nat -> bool)
    ensures FindLog([], 0, want) == None
  {
  }

  ghost predicate KeysOk(im: Images, crc: seq<byte> -> nat, log: seq<Item>)
  {
    forall k :: 0 <= k < |log| ==>
      log[k].index * im.bs + im.bs <= |im.src| && log[k].key == crc(Block(im.src, im.bs, log[k].index))
  }

  lemma {:induction false} IndexKeys(im: Images, crc: seq<byte> -> nat, m: nat)
    requires im.bs >= 1 && m <= im.SrcBlocks()
    ensures KeysOk(im, crc, IndexLog(im, crc, m))
  {
    hide Fill;
    if m > 0 {
      IndexKeys(im, crc, m - 1);
      SrcInside(im, m - 1);
      var log, block := IndexLog(im, crc, m - 1), Block(im.src, im.bs, m - 1);
      if block == Fill(0, im.bs) {
        assert IndexLog(im, crc, m) == log;
      } else {
        assert IndexLog(im, crc, m) == log + [Item(crc(block), m - 1)];
      }
    }
  }

  /** Relocation completeness, for any CRC function and any collisions: with stage 1 run on a
      fresh tracker and no insertion lost, a block that is still unmatched after stage 2 equals
      no source block, and a relocated block refers to the highest-numbered equal one. */
  lemma RelocationComplete(im: Images, crc: seq<byte> -> nat, buckets: nat, d: nat, s: BlockState, r: BlockState)
    requires im.bs >= 1 && buckets > 0 && d * im.bs + im.bs <= |im.dest|
    requires s == IdentityRecord(im, crc, d, UNMATCHED)
    requires r == RelocateRecord(IndexLog(im, crc, im.SrcBlocks()), buckets, im, d, s)
    ensures r.kind == NoMatch ==> forall j: nat :: !SameBlock(im, j, d)
    ensures r.kind == RelocateMatch ==>
      SameBlock(im, r.srcIndex, d) && forall j: nat :: SameBlock(im, j, d) ==> j <= r.srcIndex
  {
    if s.kind == NoMatch {
      var log, want := IndexLog(im, crc, im.SrcBlocks()), Wanted(im, d);
      IndexKeys(im, crc, im.SrcBlocks());
      assert KeyDecides(log, s.crc, want);
      LookupIsScan(log, buckets, s.crc, want);
      ScanIndex(im, crc, im.SrcBlocks(), want);
      forall j: nat | SameBlock(im, j, d) ensures want(j) && j < im.SrcBlocks() && Indexed(im, j) {
        SrcOutside(im, j);
      }
    }
  }
}
