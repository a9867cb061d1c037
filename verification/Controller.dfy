/** The stage pipeline of src/stages/stage_controller.c and the whole diff of src/diff.c. */
module Controller {
  import opened Bytes
  import opened Matches
  import opened Tracker
  import opened Stages
  import opened Partial
  import opened Encoder
  import opened Codec
  import opened PatchFile
  import opened ExtImage
  import opened Extents
  import opened ExtWalk
  import Decoder
  import Fsmap
  import HashTable
  import Output
  import Varint

  /** The options that matter here. `threshold` is the byte count that the fraction
      `partial_threshold` stands for; a radius that is not positive means 8 blocks; `direct` says that
      the source is read rather than mapped, and then an empty one is not refused. */
  datatype Options = Options(log2: nat, identity: bool, relocation: bool, fsmap: bool, partial: bool,
                             threshold: nat, radius: int, direct: bool)
  {
    /** Relocation needs the CRCs that only the identity stage computes. */
    predicate Permitted()
    {
      relocation ==> identity
    }

    function Range(bs: nat): (n: nat)
    {
      var r := if radius <= 0 then 8 else radius;
      MulNonNeg(r, bs);
      r * bs
    }

    function Bar(): (n: nat)
      ensures n >= 1
    {
      if threshold == 0 then 1 else threshold
    }
  }

  // ----- what the stages establish together

  /** Every partial match has at least the required number of equal bytes. */
  ghost predicate Quality(im: Images, bar: nat, t: seq<BlockState>)
    requires im.Valid(|t|)
  {
    forall d :: 0 <= d < |t| && t[d].kind == PartialMatch ==>
      (BlockInside(im.dest, im.bs, |t|, d); GoodPartial(im, d, t[d], bar))
  }

  /** No equal source block was overlooked: a block without an exact match has no equal source block,
      and a relocated block refers to the highest-numbered one. */
  ghost predicate TwinsFound(im: Images, d: nat, s: BlockState)
  {
    && (s.kind == NoMatch || s.kind == PartialMatch ==> forall j: nat :: !SameBlock(im, j, d))
    && (s.kind == RelocateMatch ==>
          SameBlock(im, s.srcIndex, d) && forall j: nat :: SameBlock(im, j, d) ==> j <= s.srcIndex)
  }

  ghost predicate AllTwinsFound(im: Images, t: seq<BlockState>)
  {
    forall d :: 0 <= d < |t| ==> TwinsFound(im, d, t[d])
  }

  /** What kind of block can be told from the block itself and the source block at the same place. */
  function PlainKind(im: Images, d: nat): (k: Kind)
    requires d * im.bs + im.bs <= |im.dest|
  {
    var block := Block(im.dest, im.bs, d);
    if block == Fill(0, im.bs) then ZeroMatch
    else if block == Fill(255, im.bs) then OneMatch
    else if SameBlock(im, d, d) then IdentityMatch
    else NoMatch
  }

  /** Blocks of zeros, blocks of ones and unchanged blocks are recognised. */
  ghost predicate PlainFound(im: Images, d: nat, s: BlockState)
    requires d * im.bs + im.bs <= |im.dest|
  {
    PlainKind(im, d) != NoMatch ==> s.kind == PlainKind(im, d)
  }

  ghost predicate AllPlainFound(im: Images, t: seq<BlockState>)
    requires im.Valid(|t|)
  {
    forall d :: 0 <= d < |t| ==> (BlockInside(im.dest, im.bs, |t|, d); PlainFound(im, d, t[d]))
  }

  /** The invariant of the pipeline; `plain` says that stage 1 has run, `exact` that stages 1 and 2 have
      run with a complete index. */
  ghost predicate Inv(im: Images, bar: nat, plain: bool, exact: bool, t: seq<BlockState>)
    requires im.Valid(|t|)
  {
    && AllSound(t, im.src, im.dest, im.bs) && Quality(im, bar, t)
    && (plain ==> AllPlainFound(im, t)) && (exact ==> AllTwinsFound(im, t))
  }

  /** A recognised block has a match, and matches stay. */
  lemma PlainKept(im: Images, was: seq<BlockState>, now: seq<BlockState>)
    requires im.Valid(|was|) && AllPlainFound(im, was) && |now| == |was|
    requires forall d :: 0 <= d < |was| && was[d].kind != NoMatch ==> now[d].kind == was[d].kind
    requires forall d :: 0 <= d < |was| && was[d].kind == NoMatch ==>
      now[d].kind == NoMatch || now[d].kind == PartialMatch || now[d].kind == RelocateMatch
    ensures AllPlainFound(im, now)
  {
    hide PlainKind;
    forall d | 0 <= d < |now| ensures (BlockInside(im.dest, im.bs, |now|, d); PlainFound(im, d, now[d])) {
      BlockInside(im.dest, im.bs, |was|, d);
      assert PlainFound(im, d, was[d]);
    }
  }

  /** Which losses a run was spared: index insertions, paths and files of the filesystem list, and the
      deltas of stages 2b and 3. */
  datatype Spared = Spared(indexed: bool, listed: bool, whole: bool, intact: bool)

  const NOTHING_LOST := Spared(true, true, true, true)

  /** What a successful run leaves behind: every match sound and good; plain blocks recognised; no equal source
      block overlooked; what two files of one path store at the same offsets tried; the search radius
      exhausted. */
  ghost predicate Outcome(im: Images, o: Options, t: seq<BlockState>, l: Spared)
    requires im.Valid(|t|)
  {
    && Inv(im, o.Bar(), o.identity, o.relocation && l.indexed, t)
    && (o.fsmap && l.listed && l.whole ==> FilesTried(im, o, t))
    && (o.partial && l.intact ==> Exhausted(im, o.Range(im.bs), o.Bar(), t, |t|))
  }

  /** For every unmatched block that the source stores at the same offsets of the same path, the lowest such
      position has been tried, and neither it nor any screened one around it reaches the threshold. */
  ghost predicate StoredTried(im: Images, o: Options, t: seq<BlockState>, files: seq<FileEntry>, dest: seq<FileEntry>)
    requires im.Valid(|t|) && Fsmap.BothOpen(im)
  {
    forall b: nat, q: nat ::
      Unmatched(t, b) && Fsmap.LeastStored(Fsmap.CtxOf(im, t), files, dest, b, q) ==>
        (BlockInside(im.dest, im.bs, |t|, b); HypFails(im, b, q, o.Range(im.bs), o.Bar()))
  }

  /** That, for the files of the two images: all of them, and nothing that is not one. */
  ghost predicate FilesTried(im: Images, o: Options, t: seq<BlockState>)
    requires im.Valid(|t|)
  {
    Fsmap.BothOpen(im) ==>
      exists src, dest ::
        && Fsmap.FilesOf(Open(im.src).value, src, true) && Fsmap.FilesOf(Open(im.dest).value, dest, true)
        && StoredTried(im, o, t, Fsmap.Stored(src, |src|), dest)
  }

  ghost predicate Fresh(t: seq<BlockState>)
  {
    forall d :: 0 <= d < |t| ==> t[d] == UNMATCHED
  }

  lemma FreshInv(im: Images, bar: nat, t: seq<BlockState>)
    requires im.Valid(|t|) && Fresh(t)
    ensures Inv(im, bar, false, false, t)
  {
    hide GoodPartial;
    forall i | 0 <= i < |t|
      ensures (BlockInside(im.dest, im.bs, |t|, i); Sound(t[i], i, im.src, im.dest, im.bs))
    {
      BlockInside(im.dest, im.bs, |t|, i);
    }
  }

  lemma IdentityInv(im: Images, bar: nat, crc: seq<byte> -> nat, was: seq<BlockState>, now: seq<BlockState>)
    requires im.Valid(|was|) && Fresh(was) && IdentityDone(im, crc, was, now, |was|)
    ensures Inv(im, bar, true, false, now)
  {
    hide GoodPartial, Sound, AllSound, IdentityRecord, PlainFound;
    FreshInv(im, bar, was);
    IdentityStageSound(im, crc, was, now);
    forall d | 0 <= d < |now|
      ensures now[d].kind != PartialMatch && (BlockInside(im.dest, im.bs, |now|, d); PlainFound(im, d, now[d]))
    {
      BlockInside(im.dest, im.bs, |was|, d);
      IdentityKind(im, crc, d);
    }
  }

  lemma IdentityKind(im: Images, crc: seq<byte> -> nat, d: nat)
    requires im.bs >= 1 && d * im.bs + im.bs <= |im.dest|
    ensures IdentityRecord(im, crc, d, UNMATCHED).kind != PartialMatch
    ensures IdentityRecord(im, crc, d, UNMATCHED).kind != RelocateMatch
    ensures PlainFound(im, d, IdentityRecord(im, crc, d, UNMATCHED))
  {
    hide Block, Fill;
    if SameBlock(im, d, d) { SrcOutside(im, d); }
  }

  lemma RelocationInv(im: Images, bar: nat, log: seq<HashTable.Item>, buckets: nat, was: seq<BlockState>,
                      now: seq<BlockState>)
    requires im.Valid(|was|) && buckets > 0 && Inv(im, bar, true, false, was)
    requires RelocationDone(log, buckets, im, was, now, |was|)
    ensures Inv(im, bar, true, false, now)
  {
    hide GoodPartial, Sound, AllSound, HashTable.Find, AllPlainFound;
    RelocationStageSound(log, buckets, im, was, now);
    PlainKept(im, was, now);
    forall d | 0 <= d < |now| && now[d].kind == PartialMatch
      ensures (BlockInside(im.dest, im.bs, |now|, d); GoodPartial(im, d, now[d], bar))
    {
      BlockInside(im.dest, im.bs, |was|, d);
      assert now[d] == was[d];
    }
  }

  /** Stages 1 and 2 on a fresh tracker with a complete index. */
  lemma ExactStages(im: Images, crc: seq<byte> -> nat, buckets: nat, s0: seq<BlockState>, s1: seq<BlockState>,
                    s2: seq<BlockState>)
    requires im.Valid(|s0|) && Fresh(s0) && IdentityDone(im, crc, s0, s1, |s0|) && buckets > 0
    requires RelocationDone(IndexLog(im, crc, im.SrcBlocks()), buckets, im, s1, s2, |s1|)
    ensures AllTwinsFound(im, s2)
  {
    hide IdentityRecord, RelocateRecord, IndexLog, SameBlock;
    forall d | 0 <= d < |s2| ensures TwinsFound(im, d, s2[d]) {
      BlockInside(im.dest, im.bs, |s0|, d);
      ExactBlock(im, crc, buckets, d, s1[d], s2[d]);
    }
  }

  lemma ExactBlock(im: Images, crc: seq<byte> -> nat, buckets: nat, d: nat, s: BlockState, r: BlockState)
    requires im.bs >= 1 && buckets > 0 && d * im.bs + im.bs <= |im.dest|
    requires s == IdentityRecord(im, crc, d, UNMATCHED)
    requires r == RelocateRecord(IndexLog(im, crc, im.SrcBlocks()), buckets, im, d, s)
    ensures TwinsFound(im, d, r)
  {
    hide IdentityRecord, IndexLog, SameBlock, HashTable.Find;
    RelocationComplete(im, crc, buckets, d, s, r);
    IdentityKind(im, crc, d);
    assert r.kind != PartialMatch;
  }

  /** A partial stage keeps the invariant: an added partial match overlooks no equal block, since the
      unmatched block it replaces had none. */
  lemma PartialInv(im: Images, bar: nat, plain: bool, exact: bool, was: seq<BlockState>, now: seq<BlockState>)
    requires im.Valid(|was|) && Inv(im, bar, plain, exact, was) && PartialStep(im, bar, was, now)
    ensures Inv(im, bar, plain, exact, now)
  {
    hide GoodPartial, AllSound, SameBlock, AllPlainFound;
    PartialStepSound(im, bar, was, now);
    forall d | 0 <= d < |now| && was[d].kind == NoMatch ensures now[d].kind == NoMatch || now[d].kind == PartialMatch {
      BlockInside(im.dest, im.bs, |was|, d);
      if now[d] != was[d] { GoodIsPartial(im, d, now[d], bar); }
    }
    if plain { PlainKept(im, was, now); }
    forall d | 0 <= d < |now| && now[d].kind == PartialMatch
      ensures (BlockInside(im.dest, im.bs, |now|, d); GoodPartial(im, d, now[d], bar))
    {
      BlockInside(im.dest, im.bs, |was|, d);
    }
    if exact {
      forall d | 0 <= d < |now| ensures TwinsFound(im, d, now[d]) {
        BlockInside(im.dest, im.bs, |was|, d);
        assert TwinsFound(im, d, was[d]);
        if now[d] != was[d] { GoodIsPartial(im, d, now[d], bar); }
      }
    }
  }

  lemma GoodIsPartial(im: Images, d: nat, s: BlockState, bar: nat)
    requires d * im.bs + im.bs <= |im.dest| && GoodPartial(im, d, s, bar)
    ensures s.kind == PartialMatch
  {
  }

  // ----- running the stages

  /** `fsd_stage_controller_run`. The invariant holds however the run ends. When it succeeds the tracker is
      final and the outcome is as promised. */
  method RunStages(tr: BlockTracker, im: Images, o: Options, crc: seq<byte> -> nat, calm: bool)
    returns (err: Option<Error>, l: Spared)
    requires tr.Valid() && im.Valid(tr.blocks.Length) && Fresh(tr.blocks[..])
    requires o.Permitted() && o.threshold <= im.bs && im.bs % 8 == 0
    modifies tr, tr.blocks, tr.bitmap
    ensures Inv(im, o.Bar(), false, false, tr.blocks[..])
    ensures im.src == [] && !o.direct ==> err == Some(InvalidArg)
    ensures im.src != [] || o.direct ==> err.None? || err.value == Cancelled || err.value == OutOfMemory
    ensures calm && (im.src != [] || o.direct) ==> err.None? && l == NOTHING_LOST
    ensures err.None? ==> tr.Final() && Outcome(im, o, tr.blocks[..], l)
  {
    hide BlockTracker.Valid, BlockTracker.Final, Inv, Exhausted, PartialStep, AllFollowed, Tried, Fsmap.ListFor,
      Extends, FilesTried;
    l := NOTHING_LOST;
    FreshInv(im, o.Bar(), tr.blocks[..]);
    if im.src == [] && !o.direct { return Some(InvalidArg), l; }
    var indexed;
    err, indexed := ExactPhase(tr, im, o, crc, calm);
    l := l.(indexed := indexed);
    if err.Some? { return; }
    ghost var exact, before := o.relocation && indexed, tr.blocks[..];
    ghost var hyps := [];
    if o.fsmap {
      var listed, whole;
      err, hyps, listed, whole := FsmapPhase(tr, im, o, crc, exact, calm);
      l := l.(listed := listed, whole := whole);
      if err.Some? { InvOff(im, o.Bar(), o.identity, exact, tr.blocks[..]); return; }
    }
    ghost var was := tr.blocks[..];
    if o.partial {
      var goOn := Attempt(calm);
      if !goOn { InvOff(im, o.Bar(), o.identity, exact, tr.blocks[..]); return Some(Cancelled), l; }
      var intact := PartialRun(tr, im, o.Range(im.bs), o.threshold, calm);
      l := l.(intact := intact);
      PartialInv(im, o.Bar(), o.identity, exact, was, tr.blocks[..]);
      StepExtends(im, o.Bar(), was, tr.blocks[..]);
    } else {
      SameExtends(was);
    }
    if o.fsmap && l.listed && l.whole { ListTried(im, o, crc, before, was, tr.blocks[..], hyps); }
    InvOff(im, o.Bar(), o.identity, exact, tr.blocks[..]);
    tr.Finalize();
    err := None;
  }

  lemma InvOff(im: Images, bar: nat, plain: bool, exact: bool, t: seq<BlockState>)
    requires im.Valid(|t|) && Inv(im, bar, plain, exact, t)
    ensures Inv(im, bar, false, false, t)
  {
  }

  lemma SameExtends(t: seq<BlockState>)
    ensures Extends(t, t)
  {
  }

  /** A complete list that has been tried covers all that the files of both images store alike. */
  lemma ListTried(im: Images, o: Options, crc: seq<byte> -> nat, before: seq<BlockState>, was: seq<BlockState>,
                  t: seq<BlockState>, hyps: seq<Hypothesis>)
    requires im.Valid(|t|) && Extends(before, was) && Extends(was, t) && |before| == |was| == |t|
    requires Fsmap.ListFor(im, before, crc, hyps, true) && Tried(im, hyps, |hyps|, o.Range(im.bs), o.Bar(), was)
    ensures FilesTried(im, o, t)
  {
    hide Fsmap.BuiltFrom, Fsmap.FilesOf, Tried, StoredTried, Fsmap.Stored, HypFails;
    if Fsmap.BothOpen(im) {
      var src, dest, log :| Fsmap.BuiltFrom(im, before, crc, hyps, true, src, dest, log);
      BuiltFiles(im, before, crc, hyps, src, dest, log);
      assert forall d: nat :: Unmatched(t, d) ==> Unmatched(was, d);
      TriedKept(im, hyps, |hyps|, o.Range(im.bs), o.Bar(), was, t);
      assert forall d: nat :: Unmatched(was, d) ==> Unmatched(before, d);
      AllStoredTried(im, o, crc, before, t, hyps, src, dest, log);
    }
  }

  lemma BuiltFiles(im: Images, t: seq<BlockState>, crc: seq<byte> -> nat, hyps: seq<Hypothesis>,
                   src: seq<FileEntry>, dest: seq<FileEntry>, log: seq<HashTable.Item>)
    requires Fsmap.BothOpen(im) && Fsmap.BuiltFrom(im, t, crc, hyps, true, src, dest, log)
    ensures Fsmap.FilesOf(Open(im.src).value, src, true) && Fsmap.FilesOf(Open(im.dest).value, dest, true)
  {
    hide Fsmap.FilesOf, Fsmap.Indexes, Fsmap.PathKeys, Fsmap.PathLog, Open;
  }

  lemma AllStoredTried(im: Images, o: Options, crc: seq<byte> -> nat, before: seq<BlockState>, t: seq<BlockState>,
                       hyps: seq<Hypothesis>, src: seq<FileEntry>, dest: seq<FileEntry>, log: seq<HashTable.Item>)
    requires im.Valid(|t|) && |before| == |t| && forall d: nat :: Unmatched(t, d) ==> Unmatched(before, d)
    requires Fsmap.BothOpen(im) && Fsmap.BuiltFrom(im, before, crc, hyps, true, src, dest, log)
    requires Tried(im, hyps, |hyps|, o.Range(im.bs), o.Bar(), t)
    ensures StoredTried(im, o, t, Fsmap.Stored(src, |src|), dest)
  {
    hide Fsmap.BuiltFrom, Fsmap.LeastStored, Fsmap.Stored, Open, Tried, HypFails;
    var files := Fsmap.Stored(src, |src|);
    forall b: nat, q: nat | Unmatched(t, b) && Fsmap.LeastStored(Fsmap.CtxOf(im, t), files, dest, b, q)
      ensures (BlockInside(im.dest, im.bs, |t|, b); HypFails(im, b, q, o.Range(im.bs), o.Bar()))
    {
      BlockInside(im.dest, im.bs, |t|, b);
      OtherTracker(im, before, t, files, dest, b, q);
      Fsmap.CompleteList(im, before, crc, hyps, src, dest, log, Hypothesis(b, q));
      EntryTried(im, o, t, hyps, Hypothesis(b, q));
    }
  }

  /** Where bytes are stored does not depend on the tracker. */
  lemma OtherTracker(im: Images, s: seq<BlockState>, t: seq<BlockState>, files: seq<FileEntry>, dest: seq<FileEntry>,
                     b: nat, q: nat)
    requires Fsmap.BothOpen(im) && Fsmap.LeastStored(Fsmap.CtxOf(im, t), files, dest, b, q)
    ensures Fsmap.LeastStored(Fsmap.CtxOf(im, s), files, dest, b, q)
  {
    hide Open, Fsmap.StoredFor;
    forall p: nat
      ensures Fsmap.StoredFor(Fsmap.CtxOf(im, s), files, dest, b, p)
        <==> Fsmap.StoredFor(Fsmap.CtxOf(im, t), files, dest, b, p)
    {
      SameStorage(im, s, t, files, dest, b, p);
      SameStorage(im, t, s, files, dest, b, p);
    }
  }

  lemma SameStorage(im: Images, s: seq<BlockState>, t: seq<BlockState>, files: seq<FileEntry>, dest: seq<FileEntry>,
                    b: nat, p: nat)
    requires Fsmap.BothOpen(im)
    ensures Fsmap.StoredFor(Fsmap.CtxOf(im, s), files, dest, b, p)
      ==> Fsmap.StoredFor(Fsmap.CtxOf(im, t), files, dest, b, p)
  {
    hide Open, Fsmap.MapRange, Fsmap.LastFile;
    var c, d := Fsmap.CtxOf(im, s), Fsmap.CtxOf(im, t);
    if Fsmap.StoredFor(c, files, dest, b, p) {
      var f, x, i :| f in dest && Fsmap.StoredAt(c, files, f, x, i, b, p);
      assert Fsmap.StoredAt(d, files, f, x, i, b, p);
    }
  }

  lemma EntryTried(im: Images, o: Options, t: seq<BlockState>, hyps: seq<Hypothesis>, h: Hypothesis)
    requires im.Valid(|t|) && h in hyps && Unmatched(t, h.destBlock) && h.destBlock * im.bs + im.bs <= |im.dest|
    requires Tried(im, hyps, |hyps|, o.Range(im.bs), o.Bar(), t)
    ensures HypFails(im, h.destBlock, h.srcPos, o.Range(im.bs), o.Bar())
  {
    hide HypFails;
    var k :| 0 <= k < |hyps| && hyps[k] == h;
    assert Unmatched(t, hyps[k].destBlock);
  }

  /** Stages 1 and 2, each with its look at the two cancel flags; `indexed` says that no index insertion
      failed. */
  method ExactPhase(tr: BlockTracker, im: Images, o: Options, crc: seq<byte> -> nat, calm: bool)
    returns (err: Option<Error>, indexed: bool)
    requires tr.Valid() && im.Valid(tr.blocks.Length) && Fresh(tr.blocks[..])
    requires o.Permitted() && im.bs % 8 == 0
    modifies tr, tr.blocks, tr.bitmap
    ensures tr.Valid() && Inv(im, o.Bar(), err.None? && o.identity, err.None? && o.relocation && indexed, tr.blocks[..])
    ensures err.Some? ==> err.value == Cancelled || err.value == OutOfMemory
    ensures calm ==> err.None? && indexed
  {
    hide BlockTracker.Valid, Inv, AllTwinsFound, IdentityDone, RelocationDone, IndexLog, HashTable.Table.Valid, Fresh;
    ghost var s0, bar := tr.blocks[..], o.Bar();
    FreshInv(im, bar, s0);
    if !o.identity { return None, true; }
    var goOn := Attempt(calm);
    if !goOn { return Some(Cancelled), false; }
    IdentityRun(tr, im, crc);
    ghost var s1 := tr.blocks[..];
    IdentityInv(im, bar, crc, s0, s1);
    if !o.relocation { return None, true; }
    goOn := Attempt(calm);
    if !goOn { InvOff(im, bar, true, false, s1); return Some(Cancelled), false; }
    var room := Attempt(calm);
    if !room { InvOff(im, bar, true, false, s1); return Some(OutOfMemory), false; }
    var table, complete := BuildIndex(im, crc, calm);
    BucketsExist(table);
    RelocationRun(tr, im, table);
    RelocationInv(im, bar, table.log, table.buckets.Length, s1, tr.blocks[..]);
    if complete {
      ExactStages(im, crc, table.buckets.Length, s0, s1, tr.blocks[..]);
      ExactOn(im, bar, tr.blocks[..]);
    }
    return None, complete;
  }

  lemma BucketsExist(table: HashTable.Table)
    requires table.Valid()
    ensures table.buckets.Length > 0
  {
  }

  lemma ExactOn(im: Images, bar: nat, t: seq<BlockState>)
    requires im.Valid(|t|) && Inv(im, bar, true, false, t) && AllTwinsFound(im, t)
    ensures Inv(im, bar, true, true, t)
  {
  }

  /** Stage 2b: builds the list of hypotheses and tries all of them. `listed` says that no file and no path
      was lost on the way to the list, `whole` that no delta allocation failed. */
  method FsmapPhase(tr: BlockTracker, im: Images, o: Options, crc: seq<byte> -> nat, ghost exact: bool, calm: bool)
    returns (err: Option<Error>, ghost hyps: seq<Hypothesis>, listed: bool, whole: bool)
    requires tr.Valid() && im.Valid(tr.blocks.Length) && o.threshold <= im.bs
    requires Inv(im, o.Bar(), o.identity, exact, tr.blocks[..])
    modifies tr, tr.blocks, tr.bitmap
    ensures tr.Valid() && Inv(im, o.Bar(), o.identity, exact, tr.blocks[..])
    ensures err.Some? ==> err.value == Cancelled || err.value == OutOfMemory
    ensures err.None? ==>
      Fsmap.ListFor(im, old(tr.blocks[..]), crc, hyps, listed) && Extends(old(tr.blocks[..]), tr.blocks[..])
    ensures err.None? && whole ==> Tried(im, hyps, |hyps|, o.Range(im.bs), o.Bar(), tr.blocks[..])
    ensures calm ==> err.None? && listed && whole
  {
    hide Fsmap.ListFor, Extends, BlockTracker.Valid, Inv, Plausible, PartialStep, Tried;
    hyps, listed, whole := [], false, false;
    var goOn := Attempt(calm);
    if !goOn { return Some(Cancelled), hyps, listed, whole; }
    ghost var was := tr.blocks[..];
    var list;
    list, listed := Fsmap.BuildHypotheses(tr, im, crc, calm);
    if list.Err? { return Some(OutOfMemory), hyps, listed, whole; }
    hyps := list.value;
    var cancelled;
    cancelled, whole := FsmapRun(tr, im, list.value, o.Range(im.bs), o.threshold, calm);
    PartialInv(im, o.Bar(), o.identity, exact, was, tr.blocks[..]);
    StepExtends(im, o.Bar(), was, tr.blocks[..]);
    err := if cancelled then Some(Cancelled) else None;
  }

  lemma StepExtends(im: Images, bar: nat, was: seq<BlockState>, now: seq<BlockState>)
    requires im.Valid(|was|) && PartialStep(im, bar, was, now)
    ensures Extends(was, now)
  {
  }

  // ----- the whole diff

  lemma BlockSizeWords(log2: nat)
    requires log2 >= 5
    ensures BlockSize(log2) % 8 == 0
  {
    hide Shl;
    Varint.ShlHalf(1, log2);
    Varint.ShlHalf(1, log2 - 1);
    Varint.ShlHalf(1, log2 - 2);
  }

  /** 2^32 or more consecutive blocks that are all zeros, or all ones, or all unchanged (and neither). */
  ghost predicate LongStretch(im: Images, n: nat)
    requires im.Valid(n)
  {
    exists a: nat, k: Kind :: k != NoMatch && a + TWO32 <= n && StretchOf(im, n, a, k)
  }

  ghost predicate StretchOf(im: Images, n: nat, a: nat, k: Kind)
    requires im.Valid(n) && a + TWO32 <= n
  {
    forall d :: a <= d < a + TWO32 ==> (BlockInside(im.dest, im.bs, n, d); PlainKind(im, d) == k)
  }

  /** With the identity stage such a stretch always makes a run that is too long. */
  lemma StretchFails(im: Images, t: seq<BlockState>)
    requires im.Valid(|t|) && AllPlainFound(im, t) && LongStretch(im, |t|)
    ensures !ShortRuns(t, im.bs, 0)
  {
    hide PlainKind, ShortRuns;
    var a: nat, k: Kind :| k != NoMatch && a + TWO32 <= |t| && StretchOf(im, |t|, a, k);
    forall d | a <= d < a + TWO32 ensures t[d].kind == k {
      BlockInside(im.dest, im.bs, |t|, d);
      assert PlainFound(im, d, t[d]);
    }
    BlockInside(im.dest, im.bs, |t|, a);
    PlainKinds(im, a);
    LongKindFails(t, im.bs, 0, a, k);
  }

  lemma PlainKinds(im: Images, d: nat)
    requires d * im.bs + im.bs <= |im.dest|
    ensures PlainKind(im, d) != RelocateMatch && PlainKind(im, d) != PartialMatch
  {
  }

  /** Unchanged images need neither deltas nor literals. */
  lemma NothingStored(im: Images, t: seq<BlockState>, x: Decoder.Input)
    requires im.Valid(|t|) && AllPlainFound(im, t) && im.src == im.dest && Output.WellWritten(t, im.bs, im.dest, x)
    ensures x.lit == [] && x.diff == []
  {
    hide Output.Describes, ShortRuns, PlainKind, Output.CountVerbatim;
    forall d | 0 <= d < |t| ensures t[d].kind != PartialMatch && !Output.Verbatim(t, im.bs, d) {
      BlockInside(im.dest, im.bs, |t|, d);
      assert PlainFound(im, d, t[d]);
      SamePlain(im, d);
    }
    Output.NoneVerbatim(t, im.bs, im.dest, 0, |t|);
  }

  lemma SamePlain(im: Images, d: nat)
    requires d * im.bs + im.bs <= |im.dest| && im.src == im.dest
    ensures var k := PlainKind(im, d); k == ZeroMatch || k == OneMatch || k == IdentityMatch
  {
    hide Fill;
  }

  /** What `fsd_diff_files` accepts. */
  predicate Accepted(src: seq<byte>, dest: seq<byte>, o: Options)
  {
    && 5 <= o.log2 <= 24 && |dest| % BlockSize(o.log2) == 0
    && o.Permitted() && dest != [] && (src != [] || o.direct)
  }

  /** `fsd_diff_files`, from the two images to the bytes of the patch file; `t` is the final tracker.
      Whatever is not accepted is refused with its error code. What is accepted can fail only because the
      run is cancelled, memory runs out (which a missing stream writer reports as an invalid argument) or a
      write fails, and in a calm run it succeeds.

      Applying the patch to the source gives back exactly the destination, if and only if the destination
      is at most 2^63 - 1 bytes and no run reaches 2^32 blocks. Fewer than 2^32 blocks are always enough;
      with the identity stage, 2^32 consecutive blocks that are all zeros, all ones or all unchanged are
      always too many. The tracker is as `Outcome` says, and the patch holds what the tracker calls for and
      nothing else: for two equal images, no delta and no literal byte. All this holds for every permitted combination
      of stages, every CRC function and every pattern of failures, whatever bytes the two images hold. */
  method Diff(src: seq<byte>, dest: seq<byte>, o: Options, crc: seq<byte> -> nat, bufferSize: nat, calm: bool)
    returns (r: Result<seq<byte>>, ghost t: seq<BlockState>, l: Spared)
    requires |dest| < TWO64 && (5 <= o.log2 <= 24 ==> o.threshold <= BlockSize(o.log2))
    ensures !(5 <= o.log2 <= 24) ==> r == Err(BadBlockSize)
    ensures 5 <= o.log2 <= 24 && |dest| % BlockSize(o.log2) != 0 ==> r == Err(SizeMismatch)
    ensures 5 <= o.log2 <= 24 && |dest| % BlockSize(o.log2) == 0 && !o.Permitted() ==> r == Err(InvalidArg)
    ensures 5 <= o.log2 <= 24 && |dest| % BlockSize(o.log2) == 0 && (dest == [] || (src == [] && !o.direct)) ==>
      r == Err(InvalidArg) || (!calm && r == Err(OutOfMemory))
    ensures r.Ok? ==> Accepted(src, dest, o)
    ensures Accepted(src, dest, o) && r.Err? ==>
      r.error == Cancelled || r.error == OutOfMemory || r.error == IoError || r.error == InvalidArg
    ensures Accepted(src, dest, o) && calm ==> r.Ok? && l == NOTHING_LOST
    ensures r.Ok? ==> |dest| == |t| * BlockSize(o.log2)
    ensures r.Ok? ==> Outcome(Images(src, dest, BlockSize(o.log2)), o, t, l)
    ensures r.Ok? && |dest| <= INT64_MAX ==>
      Locate(src, r.value).Ok? && Output.WellWritten(t, BlockSize(o.log2), dest, Locate(src, r.value).value)
    ensures r.Ok? && |dest| <= INT64_MAX && o.identity && src == dest ==>
      Locate(src, r.value).Ok? && Locate(src, r.value).value.lit == [] && Locate(src, r.value).value.diff == []
    ensures r.Ok? && |dest| <= INT64_MAX && ShortRuns(t, BlockSize(o.log2), 0) ==>
      PatchFile.Apply(src, r.value) == Ok(dest)
    ensures r.Ok? && !(|dest| <= INT64_MAX && ShortRuns(t, BlockSize(o.log2), 0)) ==> PatchFile.Apply(src, r.value).Err?
    ensures r.Ok? && |dest| <= INT64_MAX && |t| < TWO32 ==> PatchFile.Apply(src, r.value) == Ok(dest)
    ensures r.Ok? && o.identity && LongStretch(Images(src, dest, BlockSize(o.log2)), |t|) ==>
      PatchFile.Apply(src, r.value).Err?
  {
    hide BlockSize, ShortRuns, PatchFile.Apply, PatchBytes, EncodeFrom, AllSound, AllPlainFound, BlockTracker.Valid,
      BlockTracker.Final;
    hide LongStretch, FilesTried, Exhausted, AllTwinsFound, Quality, Locate, Output.WellWritten;
    t, l := [], NOTHING_LOST;
    if o.log2 < 5 || o.log2 > 24 { return Err(BadBlockSize), t, l; }
    var bs := BlockSize(o.log2);
    if |dest| % bs != 0 { return Err(SizeMismatch), t, l; }
    if !o.Permitted() { return Err(InvalidArg), t, l; }
    var room := Attempt(calm);
    if !room { return Err(OutOfMemory), t, l; }
    var n := |dest| / bs;
    assert |dest| == n * bs + |dest| % bs;
    if n == 0 { return Err(InvalidArg), t, l; }
    MulLe(1, n, bs);
    BlockSizeWords(o.log2);
    BlockSizeRange(o.log2);
    var tr := new BlockTracker(n, bs);
    var im := Images(src, dest, bs);
    var err;
    err, l := RunStages(tr, im, o, crc, calm);
    if err.Some? { return Err(err.value), t, l; }
    t := tr.blocks[..];
    ghost var job := Job(t, src, dest, bs);
    var files := Attempt(calm);
    if !files { return Err(IoError), t, l; }
    var writers := Attempt(calm);
    if !writers { return Err(InvalidArg), t, l; }
    room := Attempt(calm);
    if !room { return Err(OutOfMemory), t, l; }
    var streams := Encode(tr.blocks[..], bs, dest);
    assert streams == Ok(job.Enc(0));
    r := SavePatch(o.log2, n, streams.value, bufferSize, calm);
    if r.Ok? {
      PatchRoundTrip(job, o.log2);
      if |dest| <= INT64_MAX {
        StreamsFound(job, o.log2);
        Output.FeedWellWritten(job);
        if o.identity && src == dest { NothingStored(im, t, job.Feed()); }
      }
      if |t| < TWO32 { FewBlocks(t, bs, 0); }
      if o.identity && LongStretch(im, |t|) { StretchFails(im, t); }
    }
  }
}
