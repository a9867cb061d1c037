/** The index of src/stages/stage_fsmap.c: which source position each unmatched destination
    block should come from, judging by the files that both filesystems store. */
module Fsmap {
  import opened Bytes
  import opened Matches
  import opened Tracker
  import opened HashTable
  import opened ExtImage
  import opened Extents
  import opened ExtWalk
  import opened Partial
  import opened Stages

  // ----- the source files by path

  /** The file at index `j` of the table has this path. */
  function PathIs(files: seq<FileEntry>, path: seq<byte>): (want: nat -> bool)
  {
    (j: nat) => j < |files| && files[j].path == path
  }

  ghost predicate PathKeys(log: seq<Item>, files: seq<FileEntry>, crc: seq<byte> -> nat)
  {
    forall k :: 0 <= k < |log| ==> log[k].index < |files| && log[k].key == crc(files[log[k].index].path)
  }

  /** One item per file, in order. */
  ghost predicate PathLog(log: seq<Item>, n: nat)
  {
    |log| == n && forall k :: 0 <= k < n ==> log[k].index == k
  }

  /** The source files that are kept: those of the first `m` walked ones that have blocks. */
  function Stored(walked: seq<FileEntry>, m: nat): (r: seq<FileEntry>)
    requires m <= |walked|
  {
    if m == 0 then []
    else Stored(walked, m - 1) + (if |walked[m - 1].extents| != 0 then [walked[m - 1]] else [])
  }

  /** Exactly the files with blocks are kept. */
  lemma {:induction false} StoredExact(walked: seq<FileEntry>, m: nat, f: FileEntry)
    requires m <= |walked|
    ensures f in Stored(walked, m) <==> |f.extents| != 0 && exists k :: 0 <= k < m && walked[k] == f
  {
    if m > 0 {
      StoredExact(walked, m - 1, f);
    }
  }

  /** `src_walk_cb` over the files of the walk: files without blocks are left out. A lost hash
      insertion is silent; `complete` reports that there was none. */
  method BuildPaths(walked: seq<FileEntry>, crc: seq<byte> -> nat, calm: bool)
    returns (table: Table, files: seq<FileEntry>, complete: bool)
    ensures fresh(table) && fresh(table.buckets) && table.Valid()
    ensures PathKeys(table.log, files, crc) && (complete ==> PathLog(table.log, |files|))
    ensures files == Stored(walked, |walked|)
    ensures calm ==> complete
  {
    hide Table.Valid, PathKeys, PathLog;
    table := new Table(16384);
    files, complete := [], true;
    NoPaths(crc);
    for i := 0 to |walked|
      invariant fresh(table) && fresh(table.buckets) && table.Valid()
      invariant PathKeys(table.log, files, crc) && (complete ==> PathLog(table.log, |files|))
      invariant files == Stored(walked, i) && (calm ==> complete)
    {
      if |walked[i].extents| != 0 {
        var key := crc(walked[i].path);
        PathAdded(table.log, files, crc, walked[i]);
        var ok := table.Insert(key, |files|, calm);
        complete := complete && ok;
        files := files + [walked[i]];
      }
    }
  }

  lemma NoPaths(crc: seq<byte> -> nat)
    ensures PathKeys([], [], crc) && PathLog([], 0)
  {
  }

  lemma PathAdded(log: seq<Item>, files: seq<FileEntry>, crc: seq<byte> -> nat, f: FileEntry)
    requires PathKeys(log, files, crc)
    ensures PathKeys(log, files + [f], crc)
    ensures PathKeys(log + [Item(crc(f.path), |files|)], files + [f], crc)
    ensures PathLog(log, |files|) ==> PathLog(log + [Item(crc(f.path), |files|)], |files| + 1)
  {
  }

  /** The chain walk of `src_file_find`, which also compares keys. */
  function FindKeyed(c: Chain, key: nat, want: nat -> bool): (r: Option<nat>)
  {
    if c.End? then None
    else if c.key == key && want(c.index) then Some(c.index)
    else FindKeyed(c.next, key, want)
  }

  lemma {:induction false} KeyedIsFind(log: seq<Item>, m: nat, b: nat, n: nat, key: nat, want: nat -> bool)
    requires m <= |log| && n > 0 && KeyDecides(log, key, want)
    ensures FindKeyed(ChainOf(log, m, b, n), key, want) == FindChain(ChainOf(log, m, b, n), want)
    ensures FindKeyed(Skip(ChainOf(log, m, b, n), key), key, want) == FindChain(Skip(ChainOf(log, m, b, n), key), want)
  {
    if m > 0 {
      KeyedIsFind(log, m - 1, b, n, key, want);
    }
  }

  /** Reference: a linear search for the path over the stored files, newest first. */
  function SourceOf(log: seq<Item>, files: seq<FileEntry>, path: seq<byte>): (r: Option<nat>)
    ensures r.Some? ==> r.value < |files| && files[r.value].path == path
  {
    FindLog(log, |log|, PathIs(files, path))
  }

  /** Hash lookup of a path agrees with a linear search over the stored paths, newest first. */
  method FindFile(table: Table, files: seq<FileEntry>, crc: seq<byte> -> nat, path: seq<byte>) returns (r: Option<nat>)
    requires table.Valid() && PathKeys(table.log, files, crc)
    ensures r == SourceOf(table.log, files, path)
  {
    hide ChainOf, Skip, FindChain;
    var key, want := crc(path), PathIs(files, path);
    var c := table.Lookup(key);
    ghost var c0 := c;
    r := None;
    while c.Entry?
      invariant FindKeyed(c, key, want) == FindKeyed(c0, key, want)
      decreases c
    {
      if c.key == key && c.index < |files| && files[c.index].path == path {
        r := Some(c.index);
        break;
      }
      c := c.next;
    }
    assert KeyDecides(table.log, key, want);
    KeyedIsFind(table.log, |table.log|, key % table.buckets.Length, table.buckets.Length, key, want);
    ghost var n := table.buckets.Length;
    LookupIsScan(table.log, n, key, want);
    FindUnfold(table.log, n, key, want);
  }

  /** `s` is the newest stored file of this path. */
  ghost predicate LastFile(files: seq<FileEntry>, s: nat, path: seq<byte>)
  {
    && s < |files| && files[s].path == path
    && forall i :: s < i < |files| ==> files[i].path != path
  }

  /** With a complete table the newest stored file of the path is found, and none exactly when no stored
      file has the path. */
  lemma NewestFound(log: seq<Item>, files: seq<FileEntry>, path: seq<byte>)
    requires PathLog(log, |files|)
    ensures match SourceOf(log, files, path)
      case Some(s) => LastFile(files, s, path)
      case None => forall i :: 0 <= i < |files| ==> files[i].path != path
  {
    var r, want := SourceOf(log, files, path), PathIs(files, path);
    if r.Some? {
      var i :| 0 <= i < |log| && log[i].index == r.value && forall j :: i < j < |log| ==> !want(log[j].index);
      forall j | r.value < j < |files| ensures files[j].path != path {
        assert !want(log[j].index);
      }
    } else {
      forall j | 0 <= j < |files| ensures files[j].path != path {
        assert !want(log[j].index);
      }
    }
  }

  // ----- mapping a file range to the source image

  /** The byte range lies in extent `x`, and starts at image byte `p`. */
  ghost predicate RangeIn(x: Extent, fsBs: nat, start: nat, len: nat, p: nat)
  {
    && x.logical * fsBs <= start && start + len <= x.logical * fsBs + x.count * fsBs
    && p == x.physical * fsBs + (start - x.logical * fsBs)
  }

  /** `src_map_range`: the first extent that holds the whole range. */
  function MapRange(list: seq<Extent>, i: nat, fsBs: nat, start: nat, len: nat): (r: Option<nat>)
    requires i <= |list|
    ensures r.Some? ==> exists k :: i <= k < |list| && RangeIn(list[k], fsBs, start, len, r.value)
    ensures r.None? ==> forall k, p :: i <= k < |list| ==> !RangeIn(list[k], fsBs, start, len, p)
    decreases |list| - i
  {
    if i == |list| then None
    else
      var x := list[i];
      MulNonNeg(x.physical, fsBs);
      if start >= x.logical * fsBs && start + len <= x.logical * fsBs + x.count * fsBs
      then
        var p := x.physical * fsBs + (start - x.logical * fsBs);
        assert RangeIn(list[i], fsBs, start, len, p);
        Some(p)
      else MapRange(list, i + 1, fsBs, start, len)
  }

  method SrcMapRange(list: seq<Extent>, fsBs: nat, start: nat, len: nat) returns (r: Option<nat>)
    ensures r == MapRange(list, 0, fsBs, start, len)
  {
    for i := 0 to |list|
      invariant MapRange(list, i, fsBs, start, len) == MapRange(list, 0, fsBs, start, len)
    {
      var lo, bytes := list[i].logical * fsBs, list[i].count * fsBs;
      MulNonNeg(list[i].physical, fsBs);
      if start >= lo && start + len <= lo + bytes {
        return Some(list[i].physical * fsBs + (start - lo));
      }
    }
    return None;
  }

  // ----- the hypotheses of one destination file

  /** What the destination walk knows: the tracker, both filesystem block sizes, the diff's
      block size and the size of the source image. */
  datatype Ctx = Ctx(t: seq<BlockState>, destBs: nat, srcBs: nat, bs: nat, srcSize: nat)

  /** Block `b` lies wholly inside the extent's blocks of the destination image. */
  ghost predicate InsideExtent(c: Ctx, x: Extent, b: nat)
  {
    x.physical * c.destBs <= b * c.bs && b * c.bs + c.bs <= x.physical * c.destBs + x.count * c.destBs
  }

  function First(c: Ctx, x: Extent): (b: nat)
    requires c.bs >= 1
  {
    MulNonNeg(x.physical, c.destBs);
    (x.physical * c.destBs + c.bs - 1) / c.bs
  }

  function Last(c: Ctx, x: Extent): (b: nat)
    requires c.bs >= 1
  {
    MulNonNeg(x.physical, c.destBs);
    MulNonNeg(x.count, c.destBs);
    (x.physical * c.destBs + x.count * c.destBs) / c.bs
  }

  lemma FloorDiv(a: nat, n: nat, b: nat)
    requires n >= 1
    ensures b < a / n <==> b * n + n <= a
  {
    assert a == (a / n) * n + a % n;
    MulAdd(b, 1, n);
    if b < a / n {
      MulLe(b + 1, a / n, n);
    } else {
      MulLe(a / n, b, n);
    }
  }

  lemma RangeExact(c: Ctx, x: Extent, b: nat)
    requires c.bs >= 1
    ensures First(c, x) <= b < Last(c, x) <==> InsideExtent(c, x, b)
  {
    var lo, hi := x.physical * c.destBs, x.physical * c.destBs + x.count * c.destBs;
    MulNonNeg(x.physical, c.destBs);
    MulNonNeg(x.count, c.destBs);
    MulNonNeg(b, c.bs);
    FloorDiv(hi, c.bs, b);
    FloorDiv(lo + c.bs - 1, c.bs, b);
  }

  /** File offset of block `b` in the file that owns the extent. */
  function FileOffset(c: Ctx, x: Extent, b: nat): (o: int)
  {
    x.logical * c.destBs + (b * c.bs - x.physical * c.destBs)
  }

  /** The hypothesis for block `b`, if the source file stores the same offsets contiguously. */
  function HypFor(c: Ctx, src: seq<Extent>, x: Extent, b: nat): (r: Option<Hypothesis>)
  {
    if !Unmatched(c.t, b) || FileOffset(c, x, b) < 0 then None
    else
      match MapRange(src, 0, c.srcBs, FileOffset(c, x, b), c.bs)
      case None => None
      case Some(p) => if p + c.bs > c.srcSize then None else Some(Hypothesis(b, p))
  }

  function AsSeq<T>(x: Option<T>): (s: seq<T>)
  {
    if x.Some? then [x.value] else []
  }

  function ExtentHyps(c: Ctx, src: seq<Extent>, x: Extent, b: nat, last: nat): (r: seq<Hypothesis>)
    decreases if b < last then last - b else 0
  {
    if b >= last then [] else AsSeq(HypFor(c, src, x, b)) + ExtentHyps(c, src, x, b + 1, last)
  }

  function FileHyps(c: Ctx, src: seq<Extent>, list: seq<Extent>, i: nat): (r: seq<Hypothesis>)
    requires c.bs >= 1 && i <= |list|
    decreases |list| - i
  {
    if i == |list| then []
    else ExtentHyps(c, src, list[i], First(c, list[i]), Last(c, list[i])) + FileHyps(c, src, list, i + 1)
  }

  /** All hypotheses of the first `k` destination files. */
  function AllHyps(c: Ctx, files: seq<FileEntry>, log: seq<Item>, dest: seq<FileEntry>, k: nat): (r: seq<Hypothesis>)
    requires c.bs >= 1 && k <= |dest|
  {
    if k == 0 then [] else AllHyps(c, files, log, dest, k - 1) + OneFile(c, files, log, dest[k - 1])
  }

  function OneFile(c: Ctx, files: seq<FileEntry>, log: seq<Item>, f: FileEntry): (r: seq<Hypothesis>)
    requires c.bs >= 1
  {
    match SourceOf(log, files, f.path)
    case None => []
    case Some(s) => FileHyps(c, files[s].extents, f.extents, 0)
  }

  // ----- what the hypotheses mean

  /** The reference for one hypothesis: its block is unmatched and lies wholly inside extent `x` of a
      destination file, and the source file's extents map the same file offsets, in one piece and
      inside the source image, to its position. */
  ghost predicate Supported(c: Ctx, src: seq<Extent>, x: Extent, h: Hypothesis)
  {
    && Unmatched(c.t, h.destBlock) && InsideExtent(c, x, h.destBlock) && h.srcPos + c.bs <= c.srcSize
    && FileOffset(c, x, h.destBlock) >= 0
    && MapRange(src, 0, c.srcBs, FileOffset(c, x, h.destBlock), c.bs) == Some(h.srcPos)
  }

  lemma {:induction false} ExtentHypsExact(c: Ctx, src: seq<Extent>, x: Extent, b: nat, last: nat, h: Hypothesis)
    ensures h in ExtentHyps(c, src, x, b, last) <==>
      b <= h.destBlock < last && HypFor(c, src, x, h.destBlock) == Some(h)
    decreases if b < last then last - b else 0
  {
    hide HypFor;
    if b < last {
      ExtentHypsExact(c, src, x, b + 1, last, h);
      HypForBlock(c, src, x, b);
    }
  }

  lemma HypForBlock(c: Ctx, src: seq<Extent>, x: Extent, b: nat)
    ensures HypFor(c, src, x, b).Some? ==> HypFor(c, src, x, b).value.destBlock == b
  {
  }

  lemma ExtentExact(c: Ctx, src: seq<Extent>, x: Extent, h: Hypothesis)
    requires c.bs >= 1
    ensures h in ExtentHyps(c, src, x, First(c, x), Last(c, x)) <==> Supported(c, src, x, h)
  {
    hide First, Last, ExtentHyps, MapRange;
    ExtentHypsExact(c, src, x, First(c, x), Last(c, x), h);
    RangeExact(c, x, h.destBlock);
  }

  ghost predicate FileSupports(c: Ctx, src: seq<Extent>, list: seq<Extent>, i: nat, h: Hypothesis)
  {
    exists e :: i <= e < |list| && Supported(c, src, list[e], h)
  }

  lemma {:induction false} FileExact(c: Ctx, src: seq<Extent>, list: seq<Extent>, i: nat, h: Hypothesis)
    requires c.bs >= 1 && i <= |list|
    ensures h in FileHyps(c, src, list, i) <==> FileSupports(c, src, list, i, h)
    decreases |list| - i
  {
    hide Supported, ExtentHyps, First, Last;
    if i < |list| {
      FileExact(c, src, list, i + 1, h);
      ExtentExact(c, src, list[i], h);
    }
  }

  /** The source has a file of the same path, and that one supports the hypothesis. */
  ghost predicate SupportedBy(c: Ctx, files: seq<FileEntry>, log: seq<Item>, f: FileEntry, h: Hypothesis)
  {
    match SourceOf(log, files, f.path)
    case None => false
    case Some(s) => FileSupports(c, files[s].extents, f.extents, 0, h)
  }

  /** The hypotheses are exactly the supported ones: none is made up and none is missed. */
  lemma {:induction false} HypothesesExact(c: Ctx, files: seq<FileEntry>, log: seq<Item>, dest: seq<FileEntry>,
                                           k: nat, h: Hypothesis)
    requires c.bs >= 1 && k <= |dest|
    ensures h in AllHyps(c, files, log, dest, k) <==> exists j :: 0 <= j < k && SupportedBy(c, files, log, dest[j], h)
  {
    hide FileSupports, FileHyps, SourceOf;
    if k > 0 {
      HypothesesExact(c, files, log, dest, k - 1, h);
      var s := SourceOf(log, files, dest[k - 1].path);
      if s.Some? {
        FileExact(c, files[s.value].extents, dest[k - 1].extents, 0, h);
      }
      assert h in AllHyps(c, files, log, dest, k) <==>
        h in AllHyps(c, files, log, dest, k - 1) || SupportedBy(c, files, log, dest[k - 1], h);
    }
  }

  // ----- dest_walk_cb

  /** The lazily looked-up source file. */
  datatype Lazy = NotYet | Looked(file: Option<nat>)

  ghost predicate LazyOk(z: Lazy, s: Option<nat>)
  {
    z.Looked? ==> z.file == s
  }

  /** The unmatched blocks of one extent. The file's path is looked up at the first of them. */
  method WalkExtent(tr: BlockTracker, table: Table, files: seq<FileEntry>, crc: seq<byte> -> nat, c: Ctx,
                    path: seq<byte>, x: Extent, z0: Lazy)
    returns (out: seq<Hypothesis>, z: Lazy)
    requires tr.Valid() && c.t == tr.blocks[..] && c.bs >= 1
    requires table.Valid() && PathKeys(table.log, files, crc) && LazyOk(z0, SourceOf(table.log, files, path))
    ensures LazyOk(z, SourceOf(table.log, files, path))
    ensures match SourceOf(table.log, files, path)
      case None => out == []
      case Some(s) => out == ExtentHyps(c, files[s].extents, x, First(c, x), Last(c, x))
  {
    hide BlockTracker.Valid, Table.Valid, PathKeys, HypFor, SourceOf, First, Last, ExtentHyps, AsSeq, Splits;
    out, z := [], z0;
    ghost var s := SourceOf(table.log, files, path);
    ghost var all := if s.Some? then ExtentHyps(c, files[s.value].extents, x, First(c, x), Last(c, x)) else [];
    var b: nat, last := First(c, x), Last(c, x);
    SplitStart(all);
    while b < last
      invariant LazyOk(z, s)
      invariant s.None? ==> out == []
      invariant s.Some? ==> Splits(all, out, ExtentHyps(c, files[s.value].extents, x, b, last))
      decreases last - b
    {
      var open := tr.IsUnmatched(b);
      if open {
        if z.NotYet? {
          var f := FindFile(table, files, crc, path);
          z := Looked(f);
        }
        if z.file.None? { return; }
        var hyp := Locate(c, files[z.file.value].extents, x, b);
        ExtentStep(c, files[s.value].extents, x, b, last, out, all);
        out := out + AsSeq(hyp);
      } else if s.Some? {
        ExtentStep(c, files[s.value].extents, x, b, last, out, all);
      }
      b := b + 1;
    }
    if s.Some? { ExtentEnd(c, files[s.value].extents, x, b, last, out, all); }
  }

  ghost predicate Splits(all: seq<Hypothesis>, done: seq<Hypothesis>, rest: seq<Hypothesis>)
  {
    all == done + rest
  }

  lemma SplitStart(all: seq<Hypothesis>)
    ensures Splits(all, [], all)
  {
  }

  lemma ExtentStep(c: Ctx, src: seq<Extent>, x: Extent, b: nat, last: nat, done: seq<Hypothesis>, all: seq<Hypothesis>)
    requires b < last && Splits(all, done, ExtentHyps(c, src, x, b, last))
    ensures Splits(all, done + AsSeq(HypFor(c, src, x, b)), ExtentHyps(c, src, x, b + 1, last))
    ensures !Unmatched(c.t, b) ==> Splits(all, done, ExtentHyps(c, src, x, b + 1, last))
  {
    hide MapRange;
    var rest := ExtentHyps(c, src, x, b + 1, last);
    assert done + (AsSeq(HypFor(c, src, x, b)) + rest) == (done + AsSeq(HypFor(c, src, x, b))) + rest;
  }

  lemma ExtentEnd(c: Ctx, src: seq<Extent>, x: Extent, b: nat, last: nat, done: seq<Hypothesis>, all: seq<Hypothesis>)
    requires b >= last && Splits(all, done, ExtentHyps(c, src, x, b, last))
    ensures done == all
  {
  }

  method Locate(c: Ctx, src: seq<Extent>, x: Extent, b: nat) returns (r: Option<Hypothesis>)
    requires Unmatched(c.t, b)
    ensures r == HypFor(c, src, x, b)
  {
    hide MapRange;
    var offset := FileOffset(c, x, b);
    if offset < 0 { return None; }
    var p := SrcMapRange(src, c.srcBs, offset, c.bs);
    if p.None? || p.value + c.bs > c.srcSize { return None; }
    return Some(Hypothesis(b, p.value));
  }

  /** `dest_walk_cb` for one file. */
  method WalkFile(tr: BlockTracker, table: Table, files: seq<FileEntry>, crc: seq<byte> -> nat, c: Ctx, f: FileEntry)
    returns (out: seq<Hypothesis>)
    requires tr.Valid() && c.t == tr.blocks[..] && c.bs >= 1
    requires table.Valid() && PathKeys(table.log, files, crc)
    ensures out == OneFile(c, files, table.log, f)
  {
    hide BlockTracker.Valid, Table.Valid, PathKeys, ExtentHyps, SourceOf, FileHyps, First, Last;
    out := [];
    var z := NotYet;
    ghost var s := SourceOf(table.log, files, f.path);
    if s.Some? { FileEnds(c, files[s.value].extents, f.extents); }
    for e := 0 to |f.extents|
      invariant LazyOk(z, s)
      invariant s.None? ==> out == []
      invariant s.Some? ==> out + FileHyps(c, files[s.value].extents, f.extents, e) == OneFile(c, files, table.log, f)
    {
      var more;
      more, z := WalkExtent(tr, table, files, crc, c, f.path, f.extents[e], z);
      if z == Looked(None) { return; }
      if s.Some? { FileStep(c, files[s.value].extents, f.extents, e, out, more); }
      out := out + more;
    }
  }

  lemma FileStep(c: Ctx, src: seq<Extent>, list: seq<Extent>, i: nat, out: seq<Hypothesis>, more: seq<Hypothesis>)
    requires c.bs >= 1 && i < |list| && more == ExtentHyps(c, src, list[i], First(c, list[i]), Last(c, list[i]))
    ensures out + FileHyps(c, src, list, i) == (out + more) + FileHyps(c, src, list, i + 1)
  {
    hide ExtentHyps, First, Last;
    assert out + (more + FileHyps(c, src, list, i + 1)) == (out + more) + FileHyps(c, src, list, i + 1);
  }

  lemma FileEnds(c: Ctx, src: seq<Extent>, list: seq<Extent>)
    requires c.bs >= 1
    ensures [] + FileHyps(c, src, list, 0) == FileHyps(c, src, list, 0)
    ensures FileHyps(c, src, list, |list|) == []
  {
    hide ExtentHyps, First, Last;
  }

  // ----- sorting and removing duplicates

  predicate Le(a: Hypothesis, b: Hypothesis)
  {
    a.destBlock < b.destBlock || (a.destBlock == b.destBlock && a.srcPos <= b.srcPos)
  }

  ghost predicate Sorted(s: seq<Hypothesis>)
  {
    forall i, j :: 0 <= i < j < |s| ==> Le(s[i], s[j])
  }

  /** One concrete stand-in for `qsort` with `hyp_cmp`. */
  function InsertSorted(s: seq<Hypothesis>, h: Hypothesis): (r: seq<Hypothesis>)
    ensures multiset(r) == multiset(s) + multiset{h}
  {
    if s == [] then [h]
    else if Le(h, s[0]) then [h] + s
    else
      assert s == [s[0]] + s[1..];
      [s[0]] + InsertSorted(s[1..], h)
  }

  function Sort(s: seq<Hypothesis>): (r: seq<Hypothesis>)
    ensures multiset(r) == multiset(s)
  {
    if s == [] then []
    else
      assert s == [s[0]] + s[1..];
      InsertSorted(Sort(s[1..]), s[0])
  }

  lemma {:induction false} InsertKeepsSorted(s: seq<Hypothesis>, h: Hypothesis)
    requires Sorted(s)
    ensures Sorted(InsertSorted(s, h))
  {
    if s != [] && !Le(h, s[0]) {
      InsertKeepsSorted(s[1..], h);
      var r := InsertSorted(s[1..], h);
      forall j | 0 <= j < |r| ensures Le(s[0], r[j]) {
        assert r[j] in multiset(r);
      }
    }
  }

  lemma {:induction false} SortSorts(s: seq<Hypothesis>)
    ensures Sorted(Sort(s))
  {
    if s != [] {
      SortSorts(s[1..]);
      InsertKeepsSorted(Sort(s[1..]), s[0]);
    }
  }

  /** `h` is in the list, and no entry for the same block has a lower position. */
  ghost predicate Least(s: seq<Hypothesis>, n: nat, h: Hypothesis)
    requires n <= |s|
  {
    && (exists i :: 0 <= i < n && s[i] == h)
    && (forall i :: 0 <= i < n && s[i].destBlock == h.destBlock ==> h.srcPos <= s[i].srcPos)
  }

  ghost predicate HasBlock(r: seq<Hypothesis>, d: nat)
  {
    exists k :: 0 <= k < |r| && r[k].destBlock == d
  }

  ghost predicate Increasing(r: seq<Hypothesis>)
  {
    forall i, j :: 0 <= i < j < |r| ==> r[i].destBlock < r[j].destBlock
  }

  /** `r` has one entry per block of the first `n` entries of `s`: the one with the least position,
      in order of blocks. */
  ghost predicate Deduped(s: seq<Hypothesis>, n: nat, r: seq<Hypothesis>)
    requires n <= |s|
  {
    && Increasing(r)
    && (forall k :: 0 <= k < |r| ==> Least(s, n, r[k]))
    && (forall i :: 0 <= i < n ==> HasBlock(r, s[i].destBlock))
  }

  lemma KeptLeast(s: seq<Hypothesis>, n: nat, r: seq<Hypothesis>, k: nat)
    requires Sorted(s) && n < |s| && Deduped(s, n, r) && k < |r|
    ensures Least(s, n + 1, r[k])
  {
    hide HasBlock, Increasing;
    assert Least(s, n, r[k]);
    var i :| 0 <= i < n && s[i] == r[k];
    assert Le(s[i], s[n]);
  }

  lemma DedupStep(s: seq<Hypothesis>, n: nat, r: seq<Hypothesis>)
    requires Sorted(s) && 1 <= n < |s| && Deduped(s, n, r) && r != [] && r[|r| - 1].destBlock == s[n - 1].destBlock
    ensures s[n].destBlock == r[|r| - 1].destBlock ==> Deduped(s, n + 1, r)
    ensures s[n].destBlock != r[|r| - 1].destBlock ==> Deduped(s, n + 1, r + [s[n]])
  {
    forall k | 0 <= k < |r| ensures Least(s, n + 1, r[k]) {
      KeptLeast(s, n, r, k);
    }
    if s[n].destBlock == r[|r| - 1].destBlock {
      hide Least, Sorted;
      assert HasBlock(r, s[n].destBlock);
    } else {
      NewBlock(s, n, r);
    }
  }

  lemma NewBlock(s: seq<Hypothesis>, n: nat, r: seq<Hypothesis>)
    requires Sorted(s) && 1 <= n < |s| && Deduped(s, n, r) && r != [] && r[|r| - 1].destBlock == s[n - 1].destBlock
    requires s[n].destBlock != r[|r| - 1].destBlock
    requires forall k :: 0 <= k < |r| ==> Least(s, n + 1, r[k])
    ensures Deduped(s, n + 1, r + [s[n]])
  {
    var r' := r + [s[n]];
    assert Le(s[n - 1], s[n]);
    NewLeast(s, n);
    hide Sorted, Least;
    forall i | 0 <= i < n + 1 ensures HasBlock(r', s[i].destBlock) {
      if i < n {
        var k :| 0 <= k < |r| && r[k].destBlock == s[i].destBlock;
        assert r'[k] == r[k];
      } else {
        assert r'[|r|] == s[n];
      }
    }
  }

  lemma NewLeast(s: seq<Hypothesis>, n: nat)
    requires Sorted(s) && 1 <= n < |s| && s[n - 1].destBlock < s[n].destBlock
    ensures Least(s, n + 1, s[n])
  {
    forall i | 0 <= i < n ensures s[i].destBlock <= s[n - 1].destBlock {
      if i < n - 1 { assert Le(s[i], s[n - 1]); }
    }
  }

  /** The in-place pass over the sorted list. */
  method Dedup(a: array<Hypothesis>) returns (w: nat)
    requires Sorted(a[..])
    modifies a
    ensures w <= a.Length && Deduped(old(a[..]), a.Length, a[..w])
  {
    hide Deduped, Sorted;
    ghost var s := a[..];
    if a.Length <= 1 {
      SingleDeduped(s);
      assert a[..a.Length] == s;
      return a.Length;
    }
    w := 1;
    assert a[..1] == [s[0]];
    FirstDeduped(s);
    for i := 1 to a.Length
      invariant 1 <= w <= i && Deduped(s, i, a[..w]) && a[w - 1].destBlock == s[i - 1].destBlock
      invariant forall k :: i <= k < a.Length ==> a[k] == s[k]
    {
      ghost var r := a[..w];
      DedupStep(s, i, r);
      if a[i].destBlock != a[w - 1].destBlock {
        a[w] := a[i];
        w := w + 1;
        assert a[..w] == r + [s[i]];
      }
    }
  }

  lemma FirstDeduped(s: seq<Hypothesis>)
    requires |s| >= 1
    ensures Deduped(s, 1, [s[0]])
  {
    var r := [s[0]];
    assert r[0].destBlock == s[0].destBlock;
    assert Least(s, 1, s[0]);
  }

  lemma SingleDeduped(s: seq<Hypothesis>)
    requires |s| <= 1
    ensures Deduped(s, |s|, s)
  {
    if |s| == 1 {
      FirstDeduped(s);
      assert s == [s[0]];
    }
  }

  // ----- building the list

  /** What a hypothesis says in terms of the two images: a block inside one extent of a destination
      file, and the same offsets of a source file of the same path inside one source extent. */
  ghost predicate SameFileSameOffset(c: Ctx, f: FileEntry, x: Extent, g: FileEntry, y: Extent, h: Hypothesis)
  {
    && f.path == g.path && x in f.extents && y in g.extents
    && InsideExtent(c, x, h.destBlock) && FileOffset(c, x, h.destBlock) >= 0
    && RangeIn(y, c.srcBs, FileOffset(c, x, h.destBlock), c.bs, h.srcPos)
  }

  lemma SupportMeaning(c: Ctx, files: seq<FileEntry>, log: seq<Item>, f: FileEntry, h: Hypothesis)
    requires SupportedBy(c, files, log, f, h)
    ensures Unmatched(c.t, h.destBlock) && h.srcPos + c.bs <= c.srcSize
    ensures exists x, g, y :: g in files && SameFileSameOffset(c, f, x, g, y, h)
  {
    hide InsideExtent, RangeIn, SourceOf, MapRange;
    var g := files[SourceOf(log, files, f.path).value];
    var e :| 0 <= e < |f.extents| && Supported(c, g.extents, f.extents[e], h);
    var offset := FileOffset(c, f.extents[e], h.destBlock);
    var k :| 0 <= k < |g.extents| && RangeIn(g.extents[k], c.srcBs, offset, c.bs, h.srcPos);
    assert SameFileSameOffset(c, f, f.extents[e], g, g.extents[k], h);
  }

  /** One hypothesis of the finished list. */
  ghost predicate Founded(c: Ctx, src: seq<FileEntry>, dest: seq<FileEntry>, h: Hypothesis)
  {
    && Unmatched(c.t, h.destBlock) && h.srcPos + c.bs <= c.srcSize
    && exists f, x, g, y :: f in dest && g in src && SameFileSameOffset(c, f, x, g, y, h)
  }

  /** Some destination file supports the hypothesis. */
  ghost predicate AnySupports(c: Ctx, src: seq<FileEntry>, log: seq<Item>, dest: seq<FileEntry>, h: Hypothesis)
  {
    exists j :: 0 <= j < |dest| && SupportedBy(c, src, log, dest[j], h)
  }

  /** The finished list: increasing in blocks; each entry is supported, and founded on two files of one path;
      and each supported hypothesis has an entry for its block with a position that is not higher. */
  ghost predicate Indexes(c: Ctx, src: seq<FileEntry>, log: seq<Item>, dest: seq<FileEntry>, hyps: seq<Hypothesis>)
  {
    && Increasing(hyps)
    && (forall k :: 0 <= k < |hyps| ==> Founded(c, src, dest, hyps[k]))
    && (forall k :: 0 <= k < |hyps| ==> AnySupports(c, src, log, dest, hyps[k]))
    && (forall j, h :: 0 <= j < |dest| && SupportedBy(c, src, log, dest[j], h) ==> Beaten(hyps, h))
  }

  ghost predicate Beaten(hyps: seq<Hypothesis>, h: Hypothesis)
  {
    exists k :: 0 <= k < |hyps| && hyps[k].destBlock == h.destBlock && hyps[k].srcPos <= h.srcPos
  }

  lemma DedupedFounded(c: Ctx, src: seq<FileEntry>, log: seq<Item>, dest: seq<FileEntry>, s: seq<Hypothesis>,
                       h: Hypothesis)
    requires c.bs >= 1 && multiset(s) == multiset(AllHyps(c, src, log, dest, |dest|)) && Least(s, |s|, h)
    ensures Founded(c, src, dest, h) && AnySupports(c, src, log, dest, h)
  {
    hide SupportedBy, SameFileSameOffset, AllHyps;
    var all := AllHyps(c, src, log, dest, |dest|);
    assert h in multiset(s);
    assert h in all;
    HypothesesExact(c, src, log, dest, |dest|, h);
    var j :| 0 <= j < |dest| && SupportedBy(c, src, log, dest[j], h);
    SupportMeaning(c, src, log, dest[j], h);
    assert dest[j] in dest;
  }

  lemma DedupedBeats(c: Ctx, src: seq<FileEntry>, log: seq<Item>, dest: seq<FileEntry>, s: seq<Hypothesis>,
                     r: seq<Hypothesis>, j: nat, h: Hypothesis)
    requires c.bs >= 1 && multiset(s) == multiset(AllHyps(c, src, log, dest, |dest|)) && Deduped(s, |s|, r)
    requires j < |dest| && SupportedBy(c, src, log, dest[j], h)
    ensures Beaten(r, h)
  {
    hide SupportedBy, AllHyps, Increasing;
    HypothesesExact(c, src, log, dest, |dest|, h);
    assert h in multiset(s);
    var i :| 0 <= i < |s| && s[i] == h;
    var k :| 0 <= k < |r| && r[k].destBlock == s[i].destBlock;
    assert Least(s, |s|, r[k]);
  }

  lemma DedupedIndexes(c: Ctx, src: seq<FileEntry>, log: seq<Item>, dest: seq<FileEntry>, s: seq<Hypothesis>,
                       r: seq<Hypothesis>)
    requires c.bs >= 1 && multiset(s) == multiset(AllHyps(c, src, log, dest, |dest|)) && Deduped(s, |s|, r)
    ensures Indexes(c, src, log, dest, r)
  {
    hide SupportedBy, AllHyps, Founded, AnySupports, Least, Beaten;
    forall k | 0 <= k < |r| ensures Founded(c, src, dest, r[k]) && AnySupports(c, src, log, dest, r[k]) {
      DedupedFounded(c, src, log, dest, s, r[k]);
    }
    forall j, h | 0 <= j < |dest| && SupportedBy(c, src, log, dest[j], h) ensures Beaten(r, h) {
      DedupedBeats(c, src, log, dest, s, r, j, h);
    }
  }

  /** The destination walk, the sort and the removal of duplicates. */
  method Collect(tr: BlockTracker, table: Table, files: seq<FileEntry>, crc: seq<byte> -> nat, c: Ctx,
                 dest: seq<FileEntry>)
    returns (hyps: seq<Hypothesis>)
    requires tr.Valid() && c.t == tr.blocks[..] && c.bs >= 1
    requires table.Valid() && PathKeys(table.log, files, crc)
    ensures Indexes(c, files, table.log, dest, hyps)
  {
    hide BlockTracker.Valid, Table.Valid, PathKeys, OneFile, Sorted, Deduped, Indexes;
    var all := [];
    for k := 0 to |dest|
      invariant all == AllHyps(c, files, table.log, dest, k)
    {
      var more := WalkFile(tr, table, files, crc, c, dest[k]);
      all := all + more;
    }
    var sorted := Sort(all);
    SortSorts(all);
    var a := new Hypothesis[|sorted|](i requires 0 <= i < |sorted| => sorted[i]);
    assert a[..] == sorted;
    var w := Dedup(a);
    hyps := a[..w];
    DedupedIndexes(c, files, table.log, dest, sorted, hyps);
  }

  /** The files of an opened image: what a sound walk reports; `full` says that it missed nothing. */
  ghost predicate FilesOf(fs: Fs, files: seq<FileEntry>, full: bool)
    requires fs.Valid()
  {
    exists dirs, visited :: WalkOf(fs, files, full, dirs, visited)
  }

  ghost predicate WalkOf(fs: Fs, files: seq<FileEntry>, full: bool, dirs: seq<DirEntry>, visited: set<nat>)
    requires fs.Valid()
  {
    SoundWalk(fs, dirs, files) && (full ==> FullWalk(fs, dirs, visited, files))
  }

  lemma WalkIsFiles(fs: Fs, files: seq<FileEntry>, dirs: seq<DirEntry>, visited: set<nat>, full: bool)
    requires fs.Valid() && SoundWalk(fs, dirs, files) && (full ==> FullWalk(fs, dirs, visited, files))
    ensures FilesOf(fs, files, full)
  {
    hide SoundWalk, FullWalk;
    assert WalkOf(fs, files, full, dirs, visited);
  }

  ghost predicate BothOpen(im: Images)
  {
    Open(im.src).Ok? && Open(im.dest).Ok?
  }

  /** What the destination walk works with when the tracker is `t`. */
  ghost function CtxOf(im: Images, t: seq<BlockState>): (c: Ctx)
    requires BothOpen(im)
  {
    Ctx(t, Open(im.dest).value.blockSize, Open(im.src).value.blockSize, im.bs, |im.src|)
  }

  /** The list was built from these two walks and this hash content; `complete` says that neither walk
      missed a file and that every stored path is in the hash. */
  ghost predicate BuiltFrom(im: Images, t: seq<BlockState>, crc: seq<byte> -> nat, hyps: seq<Hypothesis>,
                            complete: bool, src: seq<FileEntry>, dest: seq<FileEntry>, log: seq<Item>)
    requires BothOpen(im)
  {
    var files := Stored(src, |src|);
    && FilesOf(Open(im.src).value, src, complete) && FilesOf(Open(im.dest).value, dest, complete)
    && PathKeys(log, files, crc) && (complete ==> PathLog(log, |files|))
    && Indexes(CtxOf(im, t), files, log, dest, hyps)
  }

  /** What the stage's list is: nothing when either image is not a filesystem that can be read, and
      otherwise the hypotheses that the files of both images support. */
  ghost predicate ListFor(im: Images, t: seq<BlockState>, crc: seq<byte> -> nat, hyps: seq<Hypothesis>, complete: bool)
  {
    if !BothOpen(im) then hyps == []
    else exists src, dest, log :: BuiltFrom(im, t, crc, hyps, complete, src, dest, log)
  }

  /** `fsd_fsmap_stage_build_index`. */
  method BuildHypotheses(tr: BlockTracker, im: Images, crc: seq<byte> -> nat, calm: bool)
    returns (r: Result<seq<Hypothesis>>, complete: bool)
    requires tr.Valid() && im.Valid(tr.blocks.Length)
    ensures r.Ok? ==> Plausible(im, tr.blocks.Length, r.value)
    ensures r.Ok? ==> ListFor(im, tr.blocks[..], crc, r.value, complete)
    ensures r.Err? ==> r.error == OutOfMemory && BothOpen(im)
    ensures calm ==> r.Ok? && complete
  {
    hide BlockTracker.Valid, Table.Valid, PathKeys, PathLog, Indexes, SoundWalk, FullWalk, Open, Stored;
    var src, dest := Open(im.src), Open(im.dest);
    if src.Err? || dest.Err? { return Ok([]), true; }
    var srcFiles, srcLost, srcDirs, srcVisited := WalkFiles(src.value, calm);
    if srcFiles.Err? { return Err(OutOfMemory), false; }
    var table, files, all := BuildPaths(srcFiles.value, crc, calm);
    var destFiles, destLost, destDirs, destVisited := WalkFiles(dest.value, calm);
    if destFiles.Err? { return Err(OutOfMemory), false; }
    var room := Attempt(calm);
    if !room { return Err(OutOfMemory), false; }
    var c := Ctx(tr.blocks[..], dest.value.blockSize, src.value.blockSize, im.bs, |im.src|);
    var hyps := Collect(tr, table, files, crc, c, destFiles.value);
    IndexPlausible(c, files, table.log, destFiles.value, hyps, im);
    complete := all && !srcLost && !destLost;
    WalkIsFiles(src.value, srcFiles.value, srcDirs, srcVisited, complete);
    WalkIsFiles(dest.value, destFiles.value, destDirs, destVisited, complete);
    assert BuiltFrom(im, tr.blocks[..], crc, hyps, complete, srcFiles.value, destFiles.value, table.log);
    return Ok(hyps), complete;
  }

  // ----- what a complete list covers

  /** Block `b` lies inside extent `x` of destination file `f`, and the first extent of the newest source file
      of the same path that holds the same offsets holds them at `p`, in bounds. */
  ghost predicate StoredAt(c: Ctx, files: seq<FileEntry>, f: FileEntry, x: Extent, s: nat, b: nat, p: nat)
  {
    && x in f.extents && InsideExtent(c, x, b) && LastFile(files, s, f.path) && p + c.bs <= c.srcSize
    && FileOffset(c, x, b) >= 0 && MapRange(files[s].extents, 0, c.srcBs, FileOffset(c, x, b), c.bs) == Some(p)
  }

  /** That, for some destination file and extent. */
  ghost predicate StoredFor(c: Ctx, files: seq<FileEntry>, dest: seq<FileEntry>, b: nat, p: nat)
  {
    exists f, x, s :: f in dest && StoredAt(c, files, f, x, s, b, p)
  }

  /** The lowest position at which the source stores what a destination file has in block `b`. */
  ghost predicate LeastStored(c: Ctx, files: seq<FileEntry>, dest: seq<FileEntry>, b: nat, q: nat)
  {
    StoredFor(c, files, dest, b, q) && forall p: nat :: StoredFor(c, files, dest, b, p) ==> q <= p
  }

  /** There is one whenever the source stores the block at all. */
  lemma {:induction false} LeastExists(c: Ctx, files: seq<FileEntry>, dest: seq<FileEntry>, b: nat, p: nat)
    returns (q: nat)
    requires StoredFor(c, files, dest, b, p)
    ensures LeastStored(c, files, dest, b, q) && q <= p
    decreases p
  {
    hide StoredFor;
    if r: nat :| r < p && StoredFor(c, files, dest, b, r) {
      q := LeastExists(c, files, dest, b, r);
    } else {
      q := p;
    }
  }

  /** With a complete table, support is storage. */
  lemma SupportIsStorage(c: Ctx, files: seq<FileEntry>, log: seq<Item>, dest: seq<FileEntry>, h: Hypothesis)
    requires PathLog(log, |files|)
    ensures AnySupports(c, files, log, dest, h) <==>
      Unmatched(c.t, h.destBlock) && StoredFor(c, files, dest, h.destBlock, h.srcPos)
  {
    hide SupportedBy, StoredAt;
    if AnySupports(c, files, log, dest, h) {
      var j :| 0 <= j < |dest| && SupportedBy(c, files, log, dest[j], h);
      var x, s := SupportStored(c, files, log, dest[j], h);
      assert dest[j] in dest;
    }
    if Unmatched(c.t, h.destBlock) && StoredFor(c, files, dest, h.destBlock, h.srcPos) {
      var f, x, s :| f in dest && StoredAt(c, files, f, x, s, h.destBlock, h.srcPos);
      StoredSupports(c, files, log, f, x, s, h);
      var j :| 0 <= j < |dest| && dest[j] == f;
      assert SupportedBy(c, files, log, dest[j], h);
    }
  }

  lemma SupportStored(c: Ctx, files: seq<FileEntry>, log: seq<Item>, f: FileEntry, h: Hypothesis)
    returns (x: Extent, s: nat)
    requires PathLog(log, |files|) && SupportedBy(c, files, log, f, h)
    ensures Unmatched(c.t, h.destBlock) && StoredAt(c, files, f, x, s, h.destBlock, h.srcPos)
  {
    hide MapRange, FileOffset, InsideExtent, LastFile, SourceOf;
    NewestFound(log, files, f.path);
    s := SourceOf(log, files, f.path).value;
    var e :| 0 <= e < |f.extents| && Supported(c, files[s].extents, f.extents[e], h);
    x := f.extents[e];
  }

  lemma StoredSupports(c: Ctx, files: seq<FileEntry>, log: seq<Item>, f: FileEntry, x: Extent, s: nat, h: Hypothesis)
    requires PathLog(log, |files|) && Unmatched(c.t, h.destBlock)
    requires StoredAt(c, files, f, x, s, h.destBlock, h.srcPos)
    ensures SupportedBy(c, files, log, f, h)
  {
    hide MapRange, FileOffset, InsideExtent, SourceOf;
    NewestFound(log, files, f.path);
    var e :| 0 <= e < |f.extents| && f.extents[e] == x;
    assert Supported(c, files[s].extents, f.extents[e], h);
  }

  /** What a complete list is: exactly one entry for each unmatched block that the source stores at the same
      offsets of the same path, at the lowest such position. */
  lemma CompleteList(im: Images, t: seq<BlockState>, crc: seq<byte> -> nat, hyps: seq<Hypothesis>,
                     src: seq<FileEntry>, dest: seq<FileEntry>, log: seq<Item>, h: Hypothesis)
    requires BothOpen(im) && BuiltFrom(im, t, crc, hyps, true, src, dest, log)
    ensures h in hyps <==>
      Unmatched(t, h.destBlock) && LeastStored(CtxOf(im, t), Stored(src, |src|), dest, h.destBlock, h.srcPos)
  {
    hide Open, FilesOf, PathKeys, PathLog, Stored, StoredFor, AnySupports, SupportedBy, Founded;
    var c, files, b := CtxOf(im, t), Stored(src, |src|), h.destBlock;
    SupportIsStorage(c, files, log, dest, h);
    if h in hyps {
      forall p: nat | StoredFor(c, files, dest, b, p) ensures h.srcPos <= p {
        StoredIsListed(c, files, log, dest, hyps, b, p);
      }
    }
    if Unmatched(t, b) && LeastStored(c, files, dest, b, h.srcPos) {
      StoredIsListed(c, files, log, dest, hyps, b, h.srcPos);
      var k :| 0 <= k < |hyps| && hyps[k].destBlock == b && hyps[k].srcPos <= h.srcPos;
      SupportIsStorage(c, files, log, dest, hyps[k]);
    }
  }

  /** Whatever is stored for an unmatched block has an entry at that position or a lower one. */
  lemma StoredIsListed(c: Ctx, files: seq<FileEntry>, log: seq<Item>, dest: seq<FileEntry>, hyps: seq<Hypothesis>,
                       b: nat, p: nat)
    requires PathLog(log, |files|) && Indexes(c, files, log, dest, hyps)
    requires Unmatched(c.t, b) && StoredFor(c, files, dest, b, p)
    ensures Beaten(hyps, Hypothesis(b, p))
  {
    hide StoredFor, SupportedBy, PathLog, Beaten, Founded, Increasing;
    SupportIsStorage(c, files, log, dest, Hypothesis(b, p));
    var j :| 0 <= j < |dest| && SupportedBy(c, files, log, dest[j], Hypothesis(b, p));
  }

  lemma IndexPlausible(c: Ctx, src: seq<FileEntry>, log: seq<Item>, dest: seq<FileEntry>, hyps: seq<Hypothesis>,
                       im: Images)
    requires Indexes(c, src, log, dest, hyps) && c.bs == im.bs && c.srcSize == |im.src|
    ensures Plausible(im, |c.t|, hyps)
  {
    hide SupportedBy, SameFileSameOffset;
    forall k | 0 <= k < |hyps| ensures hyps[k].destBlock < |c.t| && hyps[k].srcPos + im.bs <= |im.src| {
      assert Founded(c, src, dest, hyps[k]);
    }
  }
}
