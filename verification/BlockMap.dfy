/** Legacy block maps: `blockmap_indirect` and `blockmap_collect` of src/fs/ext_reader.c,
    against direct and indirect block addressing by index. */
module BlockMap {
  import opened Bytes
  import opened ExtImage
  import opened Extents

  // ----- reference: which block holds file block `n`

  /** A block number as found by indexing: a hole, a block of the filesystem, or a pointer
      that leads outside it. */
  datatype Ptr = Hole | At(block: nat) | Bad

  function PerBlock(fs: Fs): (n: nat)
  {
    fs.blockSize / 4
  }

  /** File blocks covered by a pointer of the given indirection level. */
  function Span(per: nat, level: nat): (n: nat)
    requires per >= 1
    ensures n >= 1
  {
    if level == 0 then 1 else
      MulLe(1, Span(per, level - 1), per);
      per * Span(per, level - 1)
  }

  function Entry(fs: Fs, block: nat, i: nat): (p: nat)
    requires FsBlock(fs, block).Some? && i < PerBlock(fs)
  {
    Rd32(fs.image, FsBlock(fs, block).value + i * 4)
  }

  lemma IndexInside(per: nat, level: nat, k: nat)
    requires per >= 1 && level >= 1 && k < Span(per, level)
    ensures 0 <= k / Span(per, level - 1) < per && 0 <= k % Span(per, level - 1) < Span(per, level - 1)
  {
    var s := Span(per, level - 1);
    assert k == (k / s) * s + k % s;
    if k / s >= per {
      MulLe(per, k / s, s);
    }
  }

  /** The `k`-th file block below a pointer of the given level. */
  function Index(fs: Fs, pointer: nat, level: nat, k: nat): (r: Ptr)
    requires fs.Valid() && k < Span(PerBlock(fs), level)
    ensures r.At? ==> 1 <= r.block < fs.blockCount
    decreases level
  {
    if pointer == 0 then Hole
    else if FsBlock(fs, pointer).None? then Bad
    else if level == 0 then At(pointer)
    else
      var s := Span(PerBlock(fs), level - 1);
      IndexInside(PerBlock(fs), level, k);
      Index(fs, Entry(fs, pointer, k / s), level - 1, k % s)
  }

  /** First file block of the area mapped at the given level. */
  function Base(per: nat, level: nat): (n: nat)
    requires per >= 1
  {
    if level == 0 then 0 else if level == 1 then 12 else Base(per, level - 1) + Span(per, level - 1)
  }

  /** The 60-byte pointer area of an inode, at byte offset `at`. */
  ghost predicate AreaInside(fs: Fs, at: nat)
  {
    fs.Valid() && at + 60 <= |fs.image|
  }

  lemma BaseValues(per: nat)
    requires per >= 1
    ensures Base(per, 1) == 12
    ensures Base(per, 2) == 12 + Span(per, 1) && Base(per, 3) == Base(per, 2) + Span(per, 2)
    ensures Base(per, 4) == Base(per, 3) + Span(per, 3)
  {
  }

  /** Block pointer of file block `n`: 12 direct pointers, then one single, one double and one
      triple indirect pointer; nothing beyond. */
  function Pointer(fs: Fs, at: nat, n: nat): (r: Ptr)
    requires AreaInside(fs, at)
    ensures r.At? ==> 1 <= r.block < fs.blockCount
  {
    var per := PerBlock(fs);
    BaseValues(per);
    if n < 12 then Index(fs, Rd32(fs.image, at + n * 4), 0, 0)
    else if n < Base(per, 2) then Index(fs, Rd32(fs.image, at + 48), 1, n - 12)
    else if n < Base(per, 3) then Index(fs, Rd32(fs.image, at + 52), 2, n - Base(per, 2))
    else if n < Base(per, 4) then Index(fs, Rd32(fs.image, at + 56), 3, n - Base(per, 3))
    else Hole
  }

  /** The mappings of file blocks `lo..hi`, in order, without the holes. */
  ghost function Mapped(fs: Fs, at: nat, lo: nat, hi: nat): (r: seq<Pair>)
    requires AreaInside(fs, at) && lo <= hi
    decreases hi - lo
  {
    if lo == hi then []
    else (if Pointer(fs, at, lo).At? then [Pair(lo, Pointer(fs, at, lo).block)] else [])
         + Mapped(fs, at, lo + 1, hi)
  }

  lemma {:induction false} MappedJoin(fs: Fs, at: nat, a: nat, b: nat, c: nat)
    requires AreaInside(fs, at) && a <= b <= c
    ensures Mapped(fs, at, a, c) == Mapped(fs, at, a, b) + Mapped(fs, at, b, c)
    decreases b - a
  {
    hide Pointer;
    if a < b {
      MappedJoin(fs, at, a + 1, b, c);
    }
  }

  /** No pointer in `lo..hi` leads outside the filesystem. */
  ghost predicate AllGood(fs: Fs, at: nat, lo: nat, hi: nat)
    requires AreaInside(fs, at)
  {
    forall n :: lo <= n < hi ==> !Pointer(fs, at, n).Bad?
  }

  // ----- the collector

  /** Below `pointer`, file block `lo + k` is the `k`-th one: the part of the file that a call
      of the collector stands for. */
  ghost predicate Covers(fs: Fs, at: nat, pointer: nat, level: nat, lo: nat)
    requires AreaInside(fs, at)
  {
    forall k: nat :: k < Span(PerBlock(fs), level) ==> CoversAt(fs, at, pointer, level, lo, k)
  }

  ghost predicate CoversAt(fs: Fs, at: nat, pointer: nat, level: nat, lo: nat, k: nat)
    requires AreaInside(fs, at) && k < Span(PerBlock(fs), level)
  {
    Pointer(fs, at, lo + k) == Index(fs, pointer, level, k)
  }

  lemma SubIndex(fs: Fs, pointer: nat, level: nat, i: nat, k: nat)
    requires fs.Valid() && level >= 1 && i < PerBlock(fs) && FsBlock(fs, pointer).Some?
    requires k < Span(PerBlock(fs), level - 1)
    ensures var s := Span(PerBlock(fs), level - 1);
      && i * s + k < Span(PerBlock(fs), level)
      && Index(fs, pointer, level, i * s + k) == Index(fs, Entry(fs, pointer, i), level - 1, k)
  {
    hide Rd32;
    var s := Span(PerBlock(fs), level - 1);
    MulAdd(i, 1, s);
    MulLe(i + 1, PerBlock(fs), s);
    DivModUnique(i * s + k, s, i, k);
  }

  /** A map block's `i`-th entry covers the `i`-th part of what the map block covers. */
  lemma CoversEntry(fs: Fs, at: nat, pointer: nat, level: nat, lo: nat, i: nat)
    requires AreaInside(fs, at) && level >= 1 && i < PerBlock(fs) && FsBlock(fs, pointer).Some?
    requires Covers(fs, at, pointer, level, lo)
    ensures Covers(fs, at, Entry(fs, pointer, i), level - 1, lo + i * Span(PerBlock(fs), level - 1))
  {
    hide Pointer, Index, Span, Entry, FsBlock;
    var s := Span(PerBlock(fs), level - 1);
    var entry, below, start := Entry(fs, pointer, i), level - 1, lo + i * s;
    forall k: nat | k < s
      ensures CoversAt(fs, at, entry, below, start, k)
    {
      SubIndex(fs, pointer, level, i, k);
      assert CoversAt(fs, at, pointer, level, lo, i * s + k);
      assert lo + (i * s + k) == (lo + i * s) + k;
    }
  }

  lemma {:induction false} HoleMapped(fs: Fs, at: nat, lo: nat, hi: nat)
    requires AreaInside(fs, at) && lo <= hi && forall n :: lo <= n < hi ==> Pointer(fs, at, n).Hole?
    ensures Mapped(fs, at, lo, hi) == []
    decreases hi - lo
  {
    hide Pointer;
    if lo < hi {
      HoleMapped(fs, at, lo + 1, hi);
    }
  }

  lemma HoleCovers(fs: Fs, at: nat, level: nat, lo: nat)
    requires AreaInside(fs, at) && Covers(fs, at, 0, level, lo)
    ensures var hi := lo + Span(PerBlock(fs), level);
      AllGood(fs, at, lo, hi) && forall n :: lo <= n < hi ==> Pointer(fs, at, n).Hole?
  {
    hide Pointer, Span;
    var hi := lo + Span(PerBlock(fs), level);
    forall n | lo <= n < hi ensures Pointer(fs, at, n).Hole? {
      assert CoversAt(fs, at, 0, level, lo, n - lo);
    }
  }

  /** State of a collection that has consumed file blocks up to `logical` of `limit`. */
  ghost predicate Collected(fs: Fs, at: nat, limit: nat, logical: nat, list: seq<Extent>)
    requires AreaInside(fs, at)
  {
    var done := Min(logical, limit);
    && Flatten(list) == Mapped(fs, at, 0, done) && AllGood(fs, at, 0, done)
    && Tidy(list) && EndOf(list) <= done && |list| <= MAX_EXTENTS_PER_FILE
  }

  /** A pointer leads outside the filesystem, or the mapping takes more extents than the cap allows. */
  ghost predicate Rejected(fs: Fs, at: nat, limit: nat)
    requires AreaInside(fs, at)
  {
    !AllGood(fs, at, 0, limit) || Runs(Mapped(fs, at, 0, limit)) > MAX_EXTENTS_PER_FILE
  }

  /** Consuming one direct pointer adds one mapping. */
  lemma MappedOne(fs: Fs, at: nat, limit: nat, pointer: nat, lo: nat, list: seq<Extent>)
    requires AreaInside(fs, at) && Collected(fs, at, limit, lo, list) && Covers(fs, at, pointer, 0, lo) && lo < limit
    requires FsBlock(fs, pointer).Some?
    ensures !Pointer(fs, at, lo).Bad?
    ensures Mapped(fs, at, 0, lo + 1) == Flatten(list) + Pairs(lo, pointer, 1)
  {
    hide Pointer, Flatten, Tidy, EndOf;
    assert CoversAt(fs, at, pointer, 0, lo, 0);
    MappedJoin(fs, at, 0, lo, lo + 1);
    assert Pairs(lo, pointer, 1) == [Pair(lo, pointer)] + Pairs(lo + 1, pointer + 1, 0);
    assert Mapped(fs, at, lo, lo + 1) == [Pair(lo, pointer)] + Mapped(fs, at, lo + 1, lo + 1);
  }

  lemma CapReached(fs: Fs, at: nat, limit: nat, pointer: nat, lo: nat, list: seq<Extent>)
    requires AreaInside(fs, at) && Collected(fs, at, limit, lo, list) && Covers(fs, at, pointer, 0, lo) && lo < limit
    requires FsBlock(fs, pointer).Some?
    requires Runs(Flatten(list) + Pairs(lo, pointer, 1)) > MAX_EXTENTS_PER_FILE
    ensures Rejected(fs, at, limit)
  {
    hide Pointer, Flatten, Runs, Pairs, Mapped, Tidy, EndOf;
    MappedOne(fs, at, limit, pointer, lo, list);
    MappedJoin(fs, at, 0, lo + 1, limit);
    RunsMonotone(Mapped(fs, at, 0, lo + 1), Mapped(fs, at, lo + 1, limit));
  }

  lemma CollectHole(fs: Fs, at: nat, limit: nat, level: nat, lo: nat, list: seq<Extent>)
    requires AreaInside(fs, at) && Collected(fs, at, limit, lo, list) && Covers(fs, at, 0, level, lo) && lo < limit
    ensures Collected(fs, at, limit, lo + Span(PerBlock(fs), level), list)
  {
    hide Pointer, Span, Flatten, Tidy;
    HoleCovers(fs, at, level, lo);
    var done := Min(lo + Span(PerBlock(fs), level), limit);
    HoleMapped(fs, at, lo, done);
    MappedJoin(fs, at, 0, lo, done);
    assert Mapped(fs, at, 0, lo) + [] == Mapped(fs, at, 0, lo);
  }

  lemma CollectOne(fs: Fs, at: nat, limit: nat, pointer: nat, lo: nat, list: seq<Extent>, out: seq<Extent>)
    requires AreaInside(fs, at) && Collected(fs, at, limit, lo, list) && Covers(fs, at, pointer, 0, lo) && lo < limit
    requires FsBlock(fs, pointer).Some? && ExtentAppend(list, lo, pointer, 1) == Some(out)
    ensures Collected(fs, at, limit, lo + 1, out)
  {
    hide Pointer, Flatten, Tidy, EndOf, Pairs;
    MappedOne(fs, at, limit, pointer, lo, list);
    AppendMeaning(list, lo, pointer, 1);
    AppendTidy(list, lo, pointer, 1);
  }

  lemma CoversBad(fs: Fs, at: nat, pointer: nat, level: nat, lo: nat, limit: nat)
    requires AreaInside(fs, at) && Covers(fs, at, pointer, level, lo) && lo < limit
    requires pointer != 0 && FsBlock(fs, pointer).None?
    ensures !AllGood(fs, at, 0, limit)
  {
    hide Pointer;
    assert CoversAt(fs, at, pointer, level, lo, 0);
  }

  /** `blockmap_indirect`, called with `logical < limit`. It consumes the whole span of the
      pointer or stops at the end of the file; a null pointer is a hole over the whole span. */
  method Indirect(fs: Fs, at: nat, pointer: nat, level: nat, lo: nat, limit: nat, list0: seq<Extent>, calm: bool)
    returns (ok: bool, lost: bool, logical: nat, list: seq<Extent>)
    requires AreaInside(fs, at) && Covers(fs, at, pointer, level, lo) && lo < limit
    requires Collected(fs, at, limit, lo, list0)
    ensures ok ==> Collected(fs, at, limit, logical, list)
    ensures ok ==> lo < logical && (logical == lo + Span(PerBlock(fs), level) || logical >= limit)
    ensures !ok && !lost ==> Rejected(fs, at, limit)
    ensures lost ==> !ok && !calm
    decreases level
  {
    hide Pointer, Index, Flatten, Tidy, Collected, Covers, Entry, Span, Runs, Pairs;
    lost, logical, list := false, lo, list0;
    if pointer == 0 {
      CollectHole(fs, at, limit, level, lo, list);
      var span := ComputeSpan(PerBlock(fs), level);
      return true, false, lo + span, list;
    }
    FsBlockDefined(fs, pointer);
    if level == 0 {
      if pointer >= fs.blockCount {
        CoversBad(fs, at, pointer, level, lo, limit);
        return false, false, lo, list;
      }
      SpanZero(PerBlock(fs));
      CollectedHeld(fs, at, limit, lo, list);
      SingleFlatten(Extent(lo, pointer, 1));
      ok, lost, list := Append(list, Extent(lo, pointer, 1), calm);
      if ok {
        CollectOne(fs, at, limit, pointer, lo, list0, list);
      } else if !lost {
        CapReached(fs, at, limit, pointer, lo, list0);
      }
      logical := lo + 1;
      return;
    }
    var block := FsBlock(fs, pointer);
    if block.None? {
      CoversBad(fs, at, pointer, level, lo, limit);
      return false, false, lo, list;
    }
    var per := PerBlock(fs);
    ghost var s := Span(per, level - 1);
    var i := 0;
    while i < per && limit > logical
      invariant 0 <= i <= per && lo <= logical && (i > 0 ==> lo < logical)
      invariant logical == lo + i * s || logical >= limit
      invariant Collected(fs, at, limit, logical, list) && !lost
    {
      CoversEntry(fs, at, pointer, level, lo, i);
      MulAdd(i, 1, s);
      var sub;
      sub, lost, logical, list := Indirect(fs, at, Entry(fs, pointer, i), level - 1, logical, limit, list, calm);
      if !sub { return false, lost, logical, list; }
      lost := false;
      i := i + 1;
    }
    SpanStep(per, level);
    return true, false, logical, list;
  }

  lemma CollectedHeld(fs: Fs, at: nat, limit: nat, lo: nat, list: seq<Extent>)
    requires AreaInside(fs, at) && Collected(fs, at, limit, lo, list)
    ensures Held(list)
  {
    hide Mapped, Flatten, Pointer;
  }

  lemma SpanZero(per: nat)
    requires per >= 1
    ensures Span(per, 0) == 1
  {
  }

  lemma SpanStep(per: nat, level: nat)
    requires per >= 1 && level >= 1
    ensures Span(per, level) == per * Span(per, level - 1)
  {
  }

  /** The span loop of the hole case. */
  method ComputeSpan(per: nat, level: nat) returns (span: nat)
    requires per >= 1
    ensures span == Span(per, level)
  {
    if level == 0 { return 1; }
    span := per;
    for l := 1 to level
      invariant span == Span(per, l)
    {
      span := span * per;
    }
  }

  const MAX_FILE_BLOCKS := 0x1_0000_0000

  lemma CoversDirect(fs: Fs, at: nat, i: nat)
    requires AreaInside(fs, at) && i < 12
    ensures Covers(fs, at, Rd32(fs.image, at + i * 4), 0, i)
  {
  }

  lemma BaseStep(per: nat, level: nat)
    requires per >= 1 && level >= 1
    ensures Base(per, level + 1) == Base(per, level) + Span(per, level) && Base(per, level) >= 12
  {
    if level > 1 {
      BaseStep(per, level - 1);
    }
  }

  lemma CoversLevel(fs: Fs, at: nat, level: nat)
    requires AreaInside(fs, at) && 1 <= level <= 3
    ensures Covers(fs, at, Rd32(fs.image, at + (11 + level) * 4), level, Base(PerBlock(fs), level))
  {
    hide Index, Rd32, Span, Base;
    var per := PerBlock(fs);
    BaseValues(per);
    BaseStep(per, 1);
    BaseStep(per, 2);
    BaseStep(per, 3);
  }

  lemma BeyondTriple(fs: Fs, at: nat, limit: nat, list: seq<Extent>)
    requires AreaInside(fs, at) && Collected(fs, at, limit, Base(PerBlock(fs), 4), list)
    ensures Collected(fs, at, limit, limit, list)
  {
    hide Index, Flatten, Tidy, Span, Base;
    var b := Base(PerBlock(fs), 4);
    if b < limit {
      BaseStep(PerBlock(fs), 1);
      BaseStep(PerBlock(fs), 2);
      BaseStep(PerBlock(fs), 3);
      BaseValues(PerBlock(fs));
      HoleMapped(fs, at, b, limit);
      MappedJoin(fs, at, 0, b, limit);
      assert Mapped(fs, at, 0, b) + [] == Mapped(fs, at, 0, b);
    }
  }

  /** `blockmap_collect`. On success the extents denote exactly the pairs (n, pointer(n)) of the
      mapped file blocks below `fileBlocks`, in order, and are ascending, disjoint and maximally
      coalesced. Without a failed allocation it succeeds if and only if the file is not oversized, no
      pointer leads outside the filesystem and the mapping takes no more than 65536 extents. */
  method Collect(fs: Fs, at: nat, fileBlocks: nat, calm: bool) returns (ok: bool, lost: bool, list: seq<Extent>)
    requires AreaInside(fs, at)
    ensures ok ==> fileBlocks <= MAX_FILE_BLOCKS && AllGood(fs, at, 0, fileBlocks)
    ensures ok ==> Flatten(list) == Mapped(fs, at, 0, fileBlocks) && Tidy(list)
    ensures ok ==> Runs(Flatten(list)) == |list| <= MAX_EXTENTS_PER_FILE
    ensures !lost ==> (ok <==> fileBlocks <= MAX_FILE_BLOCKS && !Rejected(fs, at, fileBlocks))
    ensures lost ==> !ok && !calm
  {
    hide Pointer, Index, Span, Covers, Base, Tidy, Runs;
    lost, list := false, [];
    if fileBlocks > MAX_FILE_BLOCKS { return false, false, list; }
    var logical := 0;
    EmptyTidy();
    for i := 0 to 12
      invariant logical == i || logical >= fileBlocks
      invariant Collected(fs, at, fileBlocks, logical, list) && !lost
    {
      if logical < fileBlocks {
        CoversDirect(fs, at, i);
        SpanZero(PerBlock(fs));
        ok, lost, logical, list := Indirect(fs, at, Rd32(fs.image, at + i * 4), 0, logical, fileBlocks, list, calm);
        if !ok { return; }
        lost := false;
      }
    }
    var per := PerBlock(fs);
    BaseValues(per);
    for level := 1 to 4
      invariant logical == Base(per, level) || logical >= fileBlocks
      invariant Collected(fs, at, fileBlocks, logical, list) && !lost
    {
      if logical < fileBlocks {
        CoversLevel(fs, at, level);
        ok, lost, logical, list := Indirect(fs, at, Rd32(fs.image, at + (11 + level) * 4), level, logical,
          fileBlocks, list, calm);
        if !ok { return; }
        lost := false;
        BaseStep(per, level);
      }
    }
    if logical < fileBlocks {
      BeyondTriple(fs, at, fileBlocks, list);
    }
    CollectedHeld(fs, at, fileBlocks, logical, list);
    RunsCount(list);
    return true, false, list;
  }

  lemma EmptyTidy()
    ensures Tidy([])
  {
  }
}
