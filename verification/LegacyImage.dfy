/** An ext2 image of seventeen 1024-byte blocks in two groups, without type bytes in its directory. Its only file
    has its inode in the second group and one block, behind the single indirect pointer. */
module LegacyImage {
  import opened Bytes
  import opened ExtImage
  import opened Extents
  import opened ExtWalk
  import opened BlockMap
  import opened ExtBytes
  import opened TinyImage
  import Bitmap

  // ----- the bytes

  const SHAPE := Shape(16, 17, 8, 8, 0)

  /** Two descriptors: the inode tables are blocks 3 and 4. */
  function Descriptors(): (s: seq<byte>)
    ensures |s| == 1024
  {
    Fill(0, 8) + LE(3, 4) + Fill(0, 28) + LE(4, 4) + Fill(0, 980)
  }

  function InodeBytes(mode: nat, size: nat, area: seq<byte>): (s: seq<byte>)
    requires |area| == 60
    ensures |s| == 128
  {
    LE(mode, 2) + Fill(0, 2) + LE(size, 4) + Fill(0, 24) + LE(0, 4) + Fill(0, 4) + area + Fill(0, 8) + LE(0, 4)
    + Fill(0, 16)
  }

  /** The root directory is block 5. */
  function RootArea(): (s: seq<byte>)
    ensures |s| == 60
  {
    LE(5, 4) + Fill(0, 56)
  }

  /** Twelve holes, then the indirect block 6. */
  function FileArea(): (s: seq<byte>)
    ensures |s| == 60
  {
    Fill(0, 48) + LE(6, 4) + Fill(0, 8)
  }

  function Table0(): (s: seq<byte>)
    ensures |s| == 1024
  {
    Fill(0, 128) + InodeBytes(0x41ED, 1024, RootArea()) + Fill(0, 768)
  }

  function Table1(): (s: seq<byte>)
    ensures |s| == 1024
  {
    Fill(0, 256) + InodeBytes(0x81A4, 13312, FileArea()) + Fill(0, 640)
  }

  const NAME: seq<byte> := [97]

  /** One record over the whole block: inode 11, named `a`. */
  function RootBlock(): (s: seq<byte>)
    ensures |s| == 1024
  {
    LE(11, 4) + LE(1024, 2) + LE(1, 2) + NAME + Fill(0, 1015)
  }

  /** Word 0 names block 7. */
  function MapBlock(): (s: seq<byte>)
    ensures |s| == 1024
  {
    LE(7, 4) + Fill(0, 1020)
  }

  function Image(): (s: seq<byte>)
    ensures |s| == 17408
  {
    Fill(0, 1024) + Super(SHAPE) + Descriptors() + Table0() + Table1() + RootBlock() + MapBlock() + Fill(0, 10240)
  }

  ghost predicate Laid(s: seq<byte>)
  {
    && |s| == 17408 && HasAt(s, 1024, Super(SHAPE)) && HasAt(s, 2048, Descriptors()) && HasAt(s, 3072, Table0())
    && HasAt(s, 4096, Table1()) && HasAt(s, 5120, RootBlock()) && HasAt(s, 6144, MapBlock())
  }

  lemma ImageLaid()
    ensures Laid(Image())
  {
    hide HasAt, Super, Descriptors, Table0, Table1, RootBlock, MapBlock, Fill;
    var a, b, c, d, e, f, g := Fill(0, 1024), Super(SHAPE), Descriptors(), Table0(), Table1(), RootBlock(), MapBlock();
    var s := Image();
    assert s[0..17408] == s;
    HasAtSlice(s, 0, s);
    HasAtSplit(s, 0, a + b + c + d + e + f + g, Fill(0, 10240));
    HasAtSplit(s, 0, a + b + c + d + e + f, g);
    HasAtSplit(s, 0, a + b + c + d + e, f);
    HasAtSplit(s, 0, a + b + c + d, e);
    HasAtSplit(s, 0, a + b + c, d);
    HasAtSplit(s, 0, a + b, c);
    HasAtSplit(s, 0, a, b);
  }

  // ----- reading them back

  lemma DescriptorReads(s: seq<byte>, p: nat)
    requires HasAt(s, p, Descriptors())
    ensures HasAt(s, p + 8, LE(3, 4)) && HasAt(s, p + 40, LE(4, 4))
  {
    hide LE, HasAt, Fill;
    var a, b, c, d := Fill(0, 8), LE(3, 4), Fill(0, 28), LE(4, 4);
    HasAtSplit(s, p, a + b + c + d, Fill(0, 980));
    HasAtSplit(s, p, a + b + c, d);
    HasAtSplit(s, p, a + b, c);
    HasAtSplit(s, p, a, b);
  }

  lemma InodeReads(s: seq<byte>, p: nat, mode: nat, size: nat, area: seq<byte>)
    requires |area| == 60 && HasAt(s, p, InodeBytes(mode, size, area))
    ensures p + 128 <= |s| && HasAt(s, p, LE(mode, 2)) && HasAt(s, p + 4, LE(size, 4)) && HasAt(s, p + 32, LE(0, 4))
    ensures HasAt(s, p + 40, area) && HasAt(s, p + 108, LE(0, 4))
  {
    hide LE, HasAt, Fill;
    var m, a, z, g, f, h := LE(mode, 2), Fill(0, 2), LE(size, 4), Fill(0, 24), LE(0, 4), Fill(0, 4);
    HasAtSplit(s, p, m + a + z + g + f + h + area + Fill(0, 8) + f, Fill(0, 16));
    HasAtSplit(s, p, m + a + z + g + f + h + area + Fill(0, 8), f);
    HasAtSplit(s, p, m + a + z + g + f + h + area, Fill(0, 8));
    HasAtSplit(s, p, m + a + z + g + f + h, area);
    HasAtSplit(s, p, m + a + z + g + f, h);
    HasAtSplit(s, p, m + a + z + g, f);
    HasAtSplit(s, p, m + a + z, g);
    HasAtSplit(s, p, m + a, z);
    HasAtSplit(s, p, m, a);
  }

  lemma TableReads(s: seq<byte>, p: nat, q: nat)
    requires HasAt(s, p, Table0()) && HasAt(s, q, Table1())
    ensures HasAt(s, p + 128, InodeBytes(0x41ED, 1024, RootArea()))
    ensures HasAt(s, q + 256, InodeBytes(0x81A4, 13312, FileArea()))
  {
    hide HasAt, InodeBytes, Fill, RootArea, FileArea;
    HasAtSplit(s, p, Fill(0, 128) + InodeBytes(0x41ED, 1024, RootArea()), Fill(0, 768));
    HasAtSplit(s, p, Fill(0, 128), InodeBytes(0x41ED, 1024, RootArea()));
    HasAtSplit(s, q, Fill(0, 256) + InodeBytes(0x81A4, 13312, FileArea()), Fill(0, 640));
    HasAtSplit(s, q, Fill(0, 256), InodeBytes(0x81A4, 13312, FileArea()));
  }

  lemma ZeroWord(s: seq<byte>, p: nat, n: nat, k: nat)
    requires HasAt(s, p, Fill(0, n)) && 4 * k + 4 <= n
    ensures HasAt(s, p + 4 * k, LE(0, 4))
  {
    hide HasAt, LE, Fill;
    LittleEndian(0);
    HasAtByte(s, p, Fill(0, n), 4 * k);
    HasAtByte(s, p, Fill(0, n), 4 * k + 1);
    HasAtByte(s, p, Fill(0, n), 4 * k + 2);
    HasAtByte(s, p, Fill(0, n), 4 * k + 3);
    assert s[p + 4 * k..p + 4 * k + 4] == [0, 0, 0, 0] == LE(0, 4);
    HasAtSlice(s, p + 4 * k, LE(0, 4));
  }

  lemma AreaReads(s: seq<byte>, p: nat, q: nat)
    requires HasAt(s, p, RootArea()) && HasAt(s, q, FileArea())
    ensures HasAt(s, p, LE(5, 4)) && HasAt(s, q + 48, LE(6, 4)) && HasAt(s, q, Fill(0, 48))
  {
    hide HasAt, LE, Fill;
    HasAtSplit(s, p, LE(5, 4), Fill(0, 56));
    HasAtSplit(s, q, Fill(0, 48) + LE(6, 4), Fill(0, 8));
    HasAtSplit(s, q, Fill(0, 48), LE(6, 4));
  }

  lemma RecordReads(s: seq<byte>, p: nat)
    requires HasAt(s, p, RootBlock())
    ensures HasAt(s, p, LE(11, 4)) && HasAt(s, p + 4, LE(1024, 2)) && HasAt(s, p + 6, LE(1, 2)) && HasAt(s, p + 8, NAME)
  {
    hide LE, HasAt, Fill;
    var i, r, n := LE(11, 4), LE(1024, 2), LE(1, 2);
    HasAtSplit(s, p, i + r + n + NAME, Fill(0, 1015));
    HasAtSplit(s, p, i + r + n, NAME);
    HasAtSplit(s, p, i + r, n);
    HasAtSplit(s, p, i, r);
  }

  lemma MapReads(s: seq<byte>, p: nat)
    requires HasAt(s, p, MapBlock())
    ensures HasAt(s, p, LE(7, 4))
  {
    hide LE, HasAt, Fill;
    HasAtSplit(s, p, LE(7, 4), Fill(0, 1020));
  }

  // ----- opening and walking it

  function Opened(image: seq<byte>): (fs: Fs)
  {
    Fs(image, 1024, 17, 16, 8, 128, 32, 2048, 2, false)
  }

  ghost predicate Ours(fs: Fs)
  {
    fs == Opened(fs.image) && Laid(fs.image) && fs.Valid()
  }

  /** The image is accepted. */
  lemma Opens(s: seq<byte>)
    requires Laid(s)
    ensures Open(s) == Ok(Opened(s))
  {
    hide Rd16, Rd32, HasAt, Bitmap.And, Bitmap.AndNot, Super, Descriptors, Table0, Table1, RootBlock, MapBlock;
    SuperTail(s, 1024, SHAPE);
    SuperReads(s, 1024, SHAPE);
    FlagValues();
  }

  /** Inode 2 is in the table of group 0, inode 11 in that of group 1. */
  lemma Inodes(fs: Fs)
    requires Ours(fs)
    ensures Inode(fs, 2) == Some(3200) && Inode(fs, 11) == Some(4352)
    ensures HasAt(fs.image, 3200, InodeBytes(0x41ED, 1024, RootArea()))
    ensures HasAt(fs.image, 4352, InodeBytes(0x81A4, 13312, FileArea()))
  {
    hide HasAt, Super, Descriptors, Table0, Table1, RootBlock, MapBlock, InodeBytes, InodeAt, LE;
    DescriptorReads(fs.image, 2048);
    TableReads(fs.image, 3072, 4096);
    InodeExact(fs, 0, 1, 3, 0);
    InodeExact(fs, 1, 2, 4, 0);
  }

  lemma Formats(fs: Fs)
    requires Ours(fs)
    ensures Format(fs, 3200) == MODE_DIRECTORY && Format(fs, 4352) == MODE_REGULAR
    ensures FileSize(fs, 3200) == 1024 && FileSize(fs, 4352) == 13312
    ensures Rd32(fs.image, 3232) == 0 && Rd32(fs.image, 4384) == 0
    ensures HasAt(fs.image, 3240, RootArea()) && HasAt(fs.image, 4392, FileArea())
  {
    hide HasAt, Laid, InodeBytes, InodeAt, LE, Format, FileSize, Rd32, RootArea, FileArea;
    Inodes(fs);
    InodeReads(fs.image, 3200, 0x41ED, 1024, RootArea());
    InodeReads(fs.image, 4352, 0x81A4, 13312, FileArea());
    FormatExact(fs, 3200, 4, 0x1ED);
    FormatExact(fs, 4352, 8, 0x1A4);
    FileSizeExact(fs, 3200, 1024, 0);
    FileSizeExact(fs, 4352, 13312, 0);
    Word32(fs.image, 3232, 0);
    Word32(fs.image, 4384, 0);
  }

  /** The root's map: file block 0 is in block 5. */
  lemma RootMap(fs: Fs)
    requires Ours(fs)
    ensures AreaInside(fs, 3240) && AllGood(fs, 3240, 0, 1) && Mapped(fs, 3240, 0, 1) == [Pair(0, 5)]
  {
    hide HasAt, Laid, LE, Pointer, RootArea, FileArea;
    Formats(fs);
    AreaReads(fs.image, 3240, 4392);
    DirectExact(fs, 3240, 0, 5);
    assert Mapped(fs, 3240, 0, 1) == [Pair(0, 5)] + Mapped(fs, 3240, 1, 1);
  }

  /** The file's map: twelve holes, and file block 12 is in block 7. */
  lemma FileMap(fs: Fs)
    requires Ours(fs)
    ensures AreaInside(fs, 4392) && AllGood(fs, 4392, 0, 13) && Mapped(fs, 4392, 0, 13) == [Pair(12, 7)]
  {
    hide HasAt, Laid, LE, Pointer, RootArea, FileArea, Fill;
    FilePointers(fs);
    HoleMapped(fs, 4392, 0, 12);
    MappedJoin(fs, 4392, 0, 12, 13);
    assert Mapped(fs, 4392, 12, 13) == [Pair(12, 7)] + Mapped(fs, 4392, 13, 13);
  }

  lemma FilePointers(fs: Fs)
    requires Ours(fs)
    ensures AreaInside(fs, 4392) && Pointer(fs, 4392, 12) == At(7)
    ensures forall n :: 0 <= n < 12 ==> Pointer(fs, 4392, n) == Hole
  {
    hide HasAt, LE, Pointer, RootArea, FileArea, Fill, Super, Descriptors, Table0, Table1, RootBlock, MapBlock;
    Formats(fs);
    AreaReads(fs.image, 3240, 4392);
    MapReads(fs.image, 6144);
    assert MapWord(fs, 6, 0, 7);
    SingleExact(fs, 4392, 6, 0, 7);
    forall n | 0 <= n < 12 ensures Pointer(fs, 4392, n) == Hole {
      ZeroWord(fs.image, 4392, 48, n);
      DirectExact(fs, 4392, n, 0);
    }
  }

  /** Both inodes are readable. */
  lemma InodeMaps(fs: Fs)
    requires Ours(fs)
    ensures InodeInside(fs, 3200) && InodeInside(fs, 4352)
    ensures InodePairs(fs, 3200) == Some([Pair(0, 5)]) && Readable(fs, 3200)
    ensures InodePairs(fs, 4352) == Some([Pair(12, 7)]) && Readable(fs, 4352)
  {
    hide HasAt, Laid, RootArea, FileArea, FileSize, Rd32, AllGood, Mapped, Runs, Bitmap.And;
    Formats(fs);
    RootMap(fs);
    FileMap(fs);
    FlagValues();
    OneRun(Pair(0, 5));
    OneRun(Pair(12, 7));
  }

  lemma OneRun(p: Pair)
    ensures Runs([p]) == 1
  {
    assert [p][..0] == [];
  }

  /** The root directory has one record; the inode's mode makes it a regular file. */
  lemma RootRecords(fs: Fs)
    requires Ours(fs)
    ensures FsBlock(fs, 5) == Some(5120) && Records(fs, 5120, 0) == [Dirent(11, NAME, Regular, 1024)]
  {
    hide HasAt, LE, Format, InodeAt, Super, Descriptors, Table0, Table1, RootBlock, MapBlock, RootArea, FileArea;
    Inodes(fs);
    Formats(fs);
    RecordReads(fs.image, 5120);
    UntypedRecord(fs, 5120, 0, 11, 1024, NAME);
    hide ReadDirent;
    LastRecord(fs);
    var de := Dirent(11, NAME, Regular, 1024);
    assert [de] + [] == [de];
  }

  lemma LastRecord(fs: Fs)
    requires fs.Valid() && fs.blockSize == 1024 && 5120 + 1024 <= |fs.image|
    ensures ReadDirent(fs, 5120, 1024) == None
  {
  }

  lemma RootHandled(fs: Fs, dir: DirEntry, visited: set<nat>, files: seq<FileEntry>)
    requires Ours(fs) && dir == DirEntry(ROOT_INODE, []) && DirHandled(fs, dir, visited, files)
    ensures Reported(files, [SLASH] + NAME, 11)
  {
    hide Ours, Records, InodePairs, Format, PathDepth, Readable, Inode;
    assert fs.Valid() by { OursValid(fs); }
    Inodes(fs);
    Formats(fs);
    InodeMaps(fs);
    RootRecords(fs);
    var ps := InodePairs(fs, 3200).value;
    assert ps[0].physical == 5;
    assert BlockHandled(fs, [], 5, visited, files);
    hide Handled;
    var de := Records(fs, 5120, 0)[0];
    assert Handled(fs, [], de, visited, files);
    RecordReported(fs, de, visited, files);
  }

  lemma OursValid(fs: Fs)
    requires Ours(fs)
    ensures fs.Valid()
  {
  }

  lemma RecordReported(fs: Fs, de: Dirent, visited: set<nat>, files: seq<FileEntry>)
    requires fs.Valid() && de == Dirent(11, NAME, Regular, 1024) && Handled(fs, [], de, visited, files)
    requires Inode(fs, 11) == Some(4352) && Format(fs, 4352) == MODE_REGULAR && Readable(fs, 4352)
    ensures Reported(files, [SLASH] + NAME, 11)
  {
    hide InodePairs, Format, PathDepth, Readable, Inode, Reported;
    assert Join([], NAME) == [SLASH] + NAME;
    assert CallsForReport(fs, de);
  }

  ghost predicate IsTheFile(f: FileEntry)
  {
    f.path == [SLASH] + NAME && f.inode == 11 && f.size == 13312 && f.extents == [Extent(12, 7, 1)]
  }

  /** Every full walk of the image reports the file `/a`, with exactly its one block. */
  lemma ReportedWithItsBlock(fs: Fs, dirs: seq<DirEntry>, visited: set<nat>, files: seq<FileEntry>)
    requires fs.Valid() && Open(Image()) == Ok(fs) && SoundWalk(fs, dirs, files) && FullWalk(fs, dirs, visited, files)
    ensures exists i :: 0 <= i < |files| && IsTheFile(files[i])
  {
    hide Image, Laid, Open, Flatten, Runs, InodePairs, Format, FileSize, AllListed, Readable, DirHandled, Listed;
    ImageLaid();
    Opens(Image());
    Inodes(fs);
    Formats(fs);
    InodeMaps(fs);
    assert ExpandedOrNot(fs, dirs, ROOT_INODE);
    var d :| 0 <= d < |dirs| && dirs[d].inode == ROOT_INODE;
    assert Rooted(fs, dirs, dirs[d]);
    RootHandled(fs, dirs[d], visited, files);
    var i :| 0 <= i < |files| && files[i].path == [SLASH] + NAME && files[i].inode == 11;
    assert FileOk(fs, files[i]);
    OneExtent(files[i].extents);
    assert IsTheFile(files[i]);
  }

  lemma OneExtent(list: seq<Extent>)
    requires Coalesced(list) && Flatten(list) == [Pair(12, 7)]
    ensures list == [Extent(12, 7, 1)]
  {
    hide Pairs, Runs;
    RunsCount(list);
    OneRun(Pair(12, 7));
    var x := list[0];
    assert list == [x];
    SingleFlatten(x);
    assert |Pairs(x.logical, x.physical, x.count)| == 1;
    PairsAt(x.logical, x.physical, x.count, 0);
  }

  /** A walk in which nothing goes wrong is one. */
  method WalkImage() returns (files: seq<FileEntry>)
    ensures exists i :: 0 <= i < |files| && IsTheFile(files[i])
  {
    hide Image, Laid, SoundWalk, FullWalk, Open;
    ImageLaid();
    Opens(Image());
    var fs := Open(Image());
    var r, lost, dirs, visited := WalkFiles(fs.value, true);
    ReportedWithItsBlock(fs.value, dirs, visited, r.value);
    return r.value;
  }
}
