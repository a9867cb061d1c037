/** An ext4 image that is opened and walked without complaint, and whose only file is reported with
    mappings that are not ascending. It has eight 1024-byte blocks: an unused one, the superblock, the
    group descriptors, two blocks of inodes, the root directory and two data blocks. */
module OutOfOrder {
  import opened Bytes
  import opened ExtImage
  import opened Extents
  import opened ExtWalk
  import opened ExtentOrder
  import opened TinyImage
  import Bitmap
  import ExtBytes

  // ----- the bytes

  const SHAPE := Shape(16, 8, 8192, 16, 0x42)

  function Descriptors(): (s: seq<byte>)
    ensures |s| == 1024
  {
    Fill(0, 8) + LE(3, 4) + Fill(0, 1012)
  }

  /** A leaf entry on disk. */
  function LeafBytes(x: Extent): (s: seq<byte>)
    ensures |s| == 12
  {
    LE(x.logical, 4) + LE(x.count, 2) + LE(0, 2) + LE(x.physical, 4)
  }

  /** The header of a leaf node with `n` entries. */
  function NodeHeader(n: nat): (s: seq<byte>)
    ensures |s| == 12
  {
    LE(EXTENT_MAGIC, 2) + LE(n, 2) + LE(4, 2) + LE(0, 2) + LE(0, 4)
  }

  const ROOT_DATA := Extent(0, 5, 1)
  const FIRST := Extent(5, 6, 1)
  const SECOND := Extent(0, 7, 1)

  function RootNode(): (s: seq<byte>)
    ensures |s| == 60
  {
    NodeHeader(1) + LeafBytes(ROOT_DATA) + Fill(0, 36)
  }

  /** File block 5 is in block 6, and file block 0 is in block 7. */
  function FileNode(): (s: seq<byte>)
    ensures |s| == 60
  {
    NodeHeader(2) + LeafBytes(FIRST) + LeafBytes(SECOND) + Fill(0, 24)
  }

  function InodeBytes(mode: nat, node: seq<byte>): (s: seq<byte>)
    requires |node| == 60
    ensures |s| == 128
  {
    LE(mode, 2) + Fill(0, 30) + LE(IFLAG_EXTENTS, 4) + Fill(0, 4) + node + Fill(0, 28)
  }

  function InodeTable(): (s: seq<byte>)
    ensures |s| == 2048
  {
    Fill(0, 128) + InodeBytes(MODE_DIRECTORY, RootNode()) + InodeBytes(MODE_REGULAR, FileNode()) + Fill(0, 1664)
  }

  const NAME: seq<byte> := [97]

  /** One record over the whole block: inode 3, a regular file named `a`. */
  function RootBlock(): (s: seq<byte>)
    ensures |s| == 1024
  {
    LE(3, 4) + LE(1024, 2) + [1, 1] + NAME + Fill(0, 1015)
  }

  function Image(): (s: seq<byte>)
    ensures |s| == 8192
  {
    Fill(0, 1024) + Super(SHAPE) + Descriptors() + InodeTable() + RootBlock() + Fill(0, 2048)
  }

  // ----- reading them back

  /** The image has its parts where they belong. */
  ghost predicate Laid(s: seq<byte>)
  {
    && |s| == 8192 && HasAt(s, 1024, Super(SHAPE)) && HasAt(s, 2048, Descriptors())
    && HasAt(s, 3072, InodeTable()) && HasAt(s, 5120, RootBlock())
  }

  lemma ImageLaid()
    ensures Laid(Image())
  {
    hide HasAt, Super, Descriptors, InodeTable, RootBlock, Fill;
    var a, b, c, d, e, z := Fill(0, 1024), Super(SHAPE), Descriptors(), InodeTable(), RootBlock(), Fill(0, 2048);
    var s := Image();
    assert s[0..8192] == s;
    HasAtSlice(s, 0, s);
    HasAtSplit(s, 0, a + b + c + d + e, z);
    HasAtSplit(s, 0, a + b + c + d, e);
    HasAtSplit(s, 0, a + b + c, d);
    HasAtSplit(s, 0, a + b, c);
    HasAtSplit(s, 0, a, b);
  }

  lemma DescriptorReads(s: seq<byte>, p: nat)
    requires HasAt(s, p, Descriptors())
    ensures p + 1024 <= |s| && Rd32(s, p + 8) == 3
  {
    hide LE, HasAt, Field, Pow256, Fill;
    HasAtSplit(s, p, Fill(0, 8) + LE(3, 4), Fill(0, 1012));
    HasAtSplit(s, p, Fill(0, 8), LE(3, 4));
    Pow256Values();
    FieldOf(s, p + 8, 3, 4);
  }

  lemma LeafReads(fs: Fs, e: nat, x: Extent)
    requires HasAt(fs.image, e, LeafBytes(x)) && x.logical < TWO32 && x.count < 0x1_0000 && x.physical < TWO32
    ensures e + 12 <= |fs.image| && Leaf(fs, e) == x
  {
    hide LE, HasAt, Field, Pow256;
    var s, a, b, c, d := fs.image, LE(x.logical, 4), LE(x.count, 2), LE(0, 2), LE(x.physical, 4);
    HasAtSplit(s, e, a + b + c, d);
    HasAtSplit(s, e, a + b, c);
    HasAtSplit(s, e, a, b);
    Pow256Values();
    FieldOf(s, e, x.logical, 4);
    FieldOf(s, e + 4, x.count, 2);
    FieldOf(s, e + 6, 0, 2);
    FieldOf(s, e + 8, x.physical, 4);
  }

  lemma HeaderReads(s: seq<byte>, at: nat, n: nat)
    requires HasAt(s, at, NodeHeader(n)) && n < 0x1_0000
    ensures at + 12 <= |s|
    ensures Rd16(s, at) == EXTENT_MAGIC && Rd16(s, at + 2) == n && Rd16(s, at + 6) == 0
  {
    hide LE, HasAt, Field, Pow256;
    var a, b, c, d := LE(EXTENT_MAGIC, 2), LE(n, 2), LE(4, 2), LE(0, 2);
    HasAtSplit(s, at, a + b + c + d, LE(0, 4));
    HasAtSplit(s, at, a + b + c, d);
    HasAtSplit(s, at, a + b, c);
    HasAtSplit(s, at, a, b);
    Pow256Values();
    FieldOf(s, at, EXTENT_MAGIC, 2);
    FieldOf(s, at + 2, n, 2);
    FieldOf(s, at + 6, 0, 2);
  }

  lemma InodeReads(s: seq<byte>, p: nat, mode: nat, node: seq<byte>)
    requires |node| == 60 && HasAt(s, p, InodeBytes(mode, node)) && mode < 0x1_0000
    ensures p + 128 <= |s| && Rd16(s, p) == mode && Rd32(s, p + 0x20) == IFLAG_EXTENTS && HasAt(s, p + 0x28, node)
  {
    hide LE, HasAt, Field, Pow256, Fill;
    var m, z, f := LE(mode, 2), Fill(0, 30), LE(IFLAG_EXTENTS, 4);
    HasAtSplit(s, p, m + z + f + Fill(0, 4) + node, Fill(0, 28));
    HasAtSplit(s, p, m + z + f + Fill(0, 4), node);
    HasAtSplit(s, p, m + z + f, Fill(0, 4));
    HasAtSplit(s, p, m + z, f);
    HasAtSplit(s, p, m, z);
    Pow256Values();
    FieldOf(s, p, mode, 2);
    FieldOf(s, p + 0x20, IFLAG_EXTENTS, 4);
  }

  lemma TableReads(s: seq<byte>, p: nat)
    requires HasAt(s, p, InodeTable())
    ensures HasAt(s, p + 128, InodeBytes(MODE_DIRECTORY, RootNode()))
    ensures HasAt(s, p + 256, InodeBytes(MODE_REGULAR, FileNode()))
  {
    hide HasAt, InodeBytes, Fill, RootNode, FileNode;
    var z, a, b := Fill(0, 128), InodeBytes(MODE_DIRECTORY, RootNode()), InodeBytes(MODE_REGULAR, FileNode());
    HasAtSplit(s, p, z + a + b, Fill(0, 1664));
    HasAtSplit(s, p, z + a, b);
    HasAtSplit(s, p, z, a);
  }

  lemma RecordReads(s: seq<byte>, p: nat)
    requires HasAt(s, p, RootBlock())
    ensures p + 1024 <= |s| && Rd32(s, p) == 3 && Rd16(s, p + 4) == 1024
    ensures s[p + 6] == 1 && s[p + 7] == 1 && s[p + 8..p + 9] == NAME
  {
    hide LE, HasAt, Field, Pow256, Fill;
    var i, r, t, z := LE(3, 4), LE(1024, 2), [1, 1], Fill(0, 1015);
    HasAtSplit(s, p, i + r + t + NAME, z);
    HasAtSplit(s, p, i + r + t, NAME);
    HasAtSplit(s, p, i + r, t);
    HasAtSplit(s, p, i, r);
    Pow256Values();
    FieldOf(s, p, 3, 4);
    FieldOf(s, p + 4, 1024, 2);
    HasAtByte(s, p + 6, t, 0);
    HasAtByte(s, p + 6, t, 1);
    HasAtSlice(s, p + 8, NAME);
  }

  // ----- opening it

  lemma ExtentFlag()
    ensures !Has(IFLAG_EXTENTS, IFLAG_INLINE_DATA) && Has(IFLAG_EXTENTS, IFLAG_EXTENTS)
  {
    hide Bitmap.And, Bitmap.Bit, Shl;
    Bitmap.AndSelf(IFLAG_EXTENTS);
    assert Shl(1, 19) == IFLAG_EXTENTS && Shl(1, 28) == IFLAG_INLINE_DATA by { ExtBytes.Powers(); }
    Bitmap.TestIsBit(IFLAG_EXTENTS, 28);
    Bitmap.MaskBit(19, 28);
  }

  function Opened(image: seq<byte>): (fs: Fs)
  {
    Fs(image, 1024, 8, 16, 16, 128, 32, 2048, 1, true)
  }

  /** The image is accepted. */
  lemma Opens(s: seq<byte>)
    requires Laid(s)
    ensures Open(s) == Ok(Opened(s))
  {
    hide Rd16, Rd32, HasAt, Bitmap.And, Bitmap.AndNot, Super, Descriptors, InodeTable, RootBlock;
    SuperTail(s, 1024, SHAPE);
    SuperReads(s, 1024, SHAPE);
    FlagValues();
  }

  // ----- walking it

  /** The root inode, the file's inode, and what the two map. */
  lemma Inodes(fs: Fs)
    requires fs == Opened(fs.image) && Laid(fs.image) && fs.Valid()
    ensures Inode(fs, 2) == Some(3200) && Inode(fs, 3) == Some(3328)
    ensures Format(fs, 3200) == MODE_DIRECTORY && Format(fs, 3328) == MODE_REGULAR
    ensures Rd32(fs.image, 3232) == IFLAG_EXTENTS && Rd32(fs.image, 3360) == IFLAG_EXTENTS
    ensures HasAt(fs.image, 3240, RootNode()) && HasAt(fs.image, 3368, FileNode())
  {
    hide Super, Descriptors, InodeTable, RootBlock, Rd16, Rd32, HasAt, RootNode, FileNode;
    var s := fs.image;
    DescriptorReads(s, 2048);
    TableReads(s, 3072);
    InodeReads(s, 3200, MODE_DIRECTORY, RootNode());
    InodeReads(s, 3328, MODE_REGULAR, FileNode());
  }

  lemma RootLeaves(fs: Fs, node: Node)
    requires fs.Valid() && fs.blockCount == 8 && node.space == 60 && NodeInside(fs, node)
    requires HasAt(fs.image, node.at, RootNode())
    ensures TreeLeaves(fs, node, -1) == Some([ROOT_DATA])
  {
    hide Rd16, Rd32, HasAt, Leaf, NodeHeader, LeafBytes, Fill;
    var s := fs.image;
    HasAtSplit(s, node.at, NodeHeader(1) + LeafBytes(ROOT_DATA), Fill(0, 36));
    HasAtSplit(s, node.at, NodeHeader(1), LeafBytes(ROOT_DATA));
    HeaderReads(s, node.at, 1);
    LeafReads(fs, node.at + 12, ROOT_DATA);
    assert Entries(fs, node) == 1 && Depth(fs, node) == 0;
    assert HeaderOk(fs, node, 0) && HeaderOk(fs, node, -1);
    assert EntryLeaves(fs, node, 0, 1) == Some([]);
    assert OneEntry(fs, node, 0, 0) == Some([ROOT_DATA]);
    assert [ROOT_DATA] + [] == [ROOT_DATA];
  }

  lemma FileLeaves(fs: Fs, node: Node)
    requires fs.Valid() && fs.blockCount == 8 && node.space == 60 && NodeInside(fs, node)
    requires HasAt(fs.image, node.at, FileNode())
    ensures TreeLeaves(fs, node, -1) == Some([FIRST, SECOND])
  {
    hide Rd16, Rd32, HasAt, Leaf, NodeHeader, LeafBytes, Fill;
    var s, h, a, b := fs.image, NodeHeader(2), LeafBytes(FIRST), LeafBytes(SECOND);
    HasAtSplit(s, node.at, h + a + b, Fill(0, 24));
    HasAtSplit(s, node.at, h + a, b);
    HasAtSplit(s, node.at, h, a);
    HeaderReads(s, node.at, 2);
    LeafReads(fs, node.at + 12, FIRST);
    LeafReads(fs, node.at + 24, SECOND);
    assert Entries(fs, node) == 2 && Depth(fs, node) == 0;
    assert HeaderOk(fs, node, 0) && HeaderOk(fs, node, -1);
    assert EntryLeaves(fs, node, 0, 2) == Some([]);
    assert OneEntry(fs, node, 0, 1) == Some([SECOND]);
    assert OneEntry(fs, node, 0, 0) == Some([FIRST]);
    assert EntryLeaves(fs, node, 0, 1) == Some([SECOND] + []);
    assert EntryLeaves(fs, node, 0, 0) == Some([FIRST] + ([SECOND] + []));
    assert [FIRST] + ([SECOND] + []) == [FIRST, SECOND];
  }

  /** Both inodes are readable, and the file's mappings are not ascending. */
  lemma InodeMaps(fs: Fs)
    requires fs == Opened(fs.image) && Laid(fs.image) && fs.Valid()
    ensures InodeInside(fs, 3200) && InodeInside(fs, 3328)
    ensures InodePairs(fs, 3200) == Some([Pair(0, 5)]) && Readable(fs, 3200) && Readable(fs, 3328)
    ensures !Ascending(InodePairs(fs, 3328).value)
  {
    hide Super, Descriptors, InodeTable, RootBlock, Rd16, Rd32, HasAt, RootNode, FileNode, Has, TreeLeaves, Inode,
      Ascending, Flatten;
    Inodes(fs);
    ExtentFlag();
    RootLeaves(fs, Node(3240, 60));
    FileLeaves(fs, Node(3368, 60));
    var two := [FIRST, SECOND];
    SingleFlatten(ROOT_DATA);
    assert Pairs(0, 5, 1) == [Pair(0, 5)] + Pairs(1, 6, 0) == [Pair(0, 5)];
    assert Coalesced([ROOT_DATA]);
    RunsCount([ROOT_DATA]);
    assert two[0] == FIRST && two[1] == SECOND;
    assert Coalesced(two);
    RunsCount(two);
    TreeAscending(fs, Node(3368, 60), -1);
  }

  /** The root directory has one record. */
  lemma RootRecords(fs: Fs)
    requires fs == Opened(fs.image) && Laid(fs.image) && fs.Valid()
    ensures FsBlock(fs, 5) == Some(5120) && Records(fs, 5120, 0) == [Dirent(3, NAME, Regular, 1024)]
  {
    hide Super, Descriptors, InodeTable, RootBlock, Rd16, Rd32, HasAt;
    RecordReads(fs.image, 5120);
    var de := Dirent(3, NAME, Regular, 1024);
    assert ReadDirent(fs, 5120, 0) == Some(de);
    assert ReadDirent(fs, 5120, 1024) == None;
    assert [de] + [] == [de];
  }

  /** Whoever handles the root directory reports the file. */
  lemma RootHandled(fs: Fs, dir: DirEntry, visited: set<nat>, files: seq<FileEntry>)
    requires fs == Opened(fs.image) && Laid(fs.image) && fs.Valid()
    requires dir == DirEntry(ROOT_INODE, []) && DirHandled(fs, dir, visited, files)
    ensures Reported(files, [SLASH] + NAME, 3)
  {
    hide Laid, Records, InodePairs, Format, PathDepth, Readable, Inode;
    Inodes(fs);
    InodeMaps(fs);
    RootRecords(fs);
    var ps := InodePairs(fs, 3200).value;
    assert ps[0].physical == 5;
    assert BlockHandled(fs, [], 5, visited, files);
    hide Handled;
    assert Handled(fs, [], Records(fs, 5120, 0)[0], visited, files);
    RecordReported(fs, Records(fs, 5120, 0)[0], visited, files);
  }

  lemma RecordReported(fs: Fs, de: Dirent, visited: set<nat>, files: seq<FileEntry>)
    requires fs.Valid() && de == Dirent(3, NAME, Regular, 1024) && Handled(fs, [], de, visited, files)
    requires Inode(fs, 3) == Some(3328) && Format(fs, 3328) == MODE_REGULAR && Readable(fs, 3328)
    ensures Reported(files, [SLASH] + NAME, 3)
  {
    hide InodePairs, Format, PathDepth, Readable, Inode, Reported;
    assert Join([], NAME) == [SLASH] + NAME;
    assert CallsForReport(fs, de);
  }

  /** Every full walk of the image reports the file under `/a`, with mappings that are not ascending. */
  lemma ReportedOutOfOrder(fs: Fs, dirs: seq<DirEntry>, visited: set<nat>, files: seq<FileEntry>)
    requires fs.Valid() && Open(Image()) == Ok(fs) && SoundWalk(fs, dirs, files) && FullWalk(fs, dirs, visited, files)
    ensures exists i :: 0 <= i < |files| && files[i].path == [SLASH] + NAME && !Ascending(Flatten(files[i].extents))
  {
    hide Image, Laid, Open, Flatten, Ascending, Runs, InodePairs, Format, AllListed, Readable, DirHandled, Listed;
    ImageLaid();
    Opens(Image());
    Inodes(fs);
    InodeMaps(fs);
    assert ExpandedOrNot(fs, dirs, ROOT_INODE);
    var d :| 0 <= d < |dirs| && dirs[d].inode == ROOT_INODE;
    assert Rooted(fs, dirs, dirs[d]);
    RootHandled(fs, dirs[d], visited, files);
    var i :| 0 <= i < |files| && files[i].path == [SLASH] + NAME && files[i].inode == 3;
    assert FileOk(fs, files[i]);
  }

  /** A walk in which nothing goes wrong does it: the promise of ascending mappings is broken. */
  method WalkImage() returns (files: seq<FileEntry>)
    ensures exists i :: 0 <= i < |files| && !Ascending(Flatten(files[i].extents))
  {
    hide Image, Laid, Flatten, Ascending, SoundWalk, FullWalk, Open;
    ImageLaid();
    Opens(Image());
    var fs := Open(Image());
    var r, lost, dirs, visited := WalkFiles(fs.value, true);
    ReportedOutOfOrder(fs.value, dirs, visited, r.value);
    return r.value;
  }
}
