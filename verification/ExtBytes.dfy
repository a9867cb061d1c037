/** Where the ext reader of src/fs/ext_reader.c looks: what it makes of inodes, block maps, extent trees and
    directory records, told from the bytes of the image alone. */
module ExtBytes {
  import opened Bytes
  import opened ExtImage
  import opened Extents
  import opened ExtWalk
  import opened BlockMap
  import Bitmap
  import Varint

  // ----- fields

  lemma Word16(s: seq<byte>, p: nat, v: nat)
    requires HasAt(s, p, LE(v, 2)) && v < 0x1_0000
    ensures p + 2 <= |s| && Rd16(s, p) == v
  {
    hide HasAt, LE, Field, Pow256;
    Pow256Values();
    FieldOf(s, p, v, 2);
  }

  lemma Word32(s: seq<byte>, p: nat, v: nat)
    requires HasAt(s, p, LE(v, 4)) && v < TWO32
    ensures p + 4 <= |s| && Rd32(s, p) == v
  {
    hide HasAt, LE, Field, Pow256;
    Pow256Values();
    FieldOf(s, p, v, 4);
  }

  // ----- inodes

  /** The descriptor of group `g` names this inode table; the upper half is there in large descriptors only. */
  ghost predicate TableOf(fs: Fs, g: nat, lo: nat, hi: nat)
  {
    var gd := fs.gdtStart + g * fs.descSize;
    && gd >= 0 && lo < TWO32 && hi < TWO32 && HasAt(fs.image, gd + 8, LE(lo, 4))
    && (if fs.descSize >= 44 then HasAt(fs.image, gd + 40, LE(hi, 4)) else hi == 0)
  }

  /** Inode `w` of group `g` is the `w`-th slot of that group's table, if the slot is in the image. */
  lemma InodeExact(fs: Fs, g: nat, w: nat, lo: nat, hi: nat)
    requires fs.Valid() && w < fs.inodesPerGroup && 0 <= g * fs.inodesPerGroup
    requires g * fs.inodesPerGroup + w < fs.inodesCount && TableOf(fs, g, lo, hi)
    ensures var table := lo + hi * TWO32;
      var at := table * fs.blockSize + w * fs.inodeSize;
      InodeAt(fs, g * fs.inodesPerGroup + w + 1)
      == if table == 0 || table >= fs.blockCount || at + fs.inodeSize > |fs.image| then None else Some(at)
  {
    hide Rd32, HasAt, LE;
    var index, gd := g * fs.inodesPerGroup + w, fs.gdtStart + g * fs.descSize;
    DivModUnique(index, fs.inodesPerGroup, g, w);
    GroupInside(fs, index);
    Word32(fs.image, gd + 8, lo);
    if fs.descSize >= 44 { Word32(fs.image, gd + 40, hi); }
  }

  /** There is no inode 0 and none past the last. */
  lemma InodeRange(fs: Fs, ino: nat)
    requires fs.Valid() && (ino == 0 || ino > fs.inodesCount)
    ensures InodeAt(fs, ino) == None
  {
  }

  /** Different slots of one table, and slots of tables that do not overlap, have no byte in common. */
  lemma SlotsApart(size: nat, per: nat, a: nat, w: nat, b: nat, v: nat)
    requires w < per && v < per
    requires (a == b && w != v) || a + per * size <= b || b + per * size <= a
    ensures a + w * size + size <= b + v * size || b + v * size + size <= a + w * size
  {
    MulAdd(w, 1, size);
    MulAdd(v, 1, size);
    MulLe(w + 1, per, size);
    MulLe(v + 1, per, size);
    MulNonNeg(w, size);
    MulNonNeg(v, size);
    if a == b && w < v { MulLe(w + 1, v, size); }
    if a == b && v < w { MulLe(v + 1, w, size); }
  }

  /** The upper four bits of the mode. */
  lemma FormatExact(fs: Fs, inode: nat, kind: nat, rest: nat)
    requires inode + 128 <= |fs.image| && kind < 16 && rest < 0x1000
    requires HasAt(fs.image, inode, LE(kind * 0x1000 + rest, 2))
    ensures Format(fs, inode) == kind * 0x1000
  {
    hide HasAt, LE;
    Word16(fs.image, inode, kind * 0x1000 + rest);
  }

  /** Regular files have a 64-bit size, everything else a 32-bit one. */
  lemma FileSizeExact(fs: Fs, inode: nat, lo: nat, hi: nat)
    requires inode + 128 <= |fs.image| && lo < TWO32 && hi < TWO32
    requires HasAt(fs.image, inode + 4, LE(lo, 4)) && HasAt(fs.image, inode + 108, LE(hi, 4))
    ensures FileSize(fs, inode) == lo + (if Format(fs, inode) == 0x8000 then hi * TWO32 else 0)
  {
    hide HasAt, LE, Format;
    Word32(fs.image, inode + 4, lo);
    Word32(fs.image, inode + 108, hi);
  }

  /** The least number of blocks that holds the size. */
  lemma FileBlocksExact(fs: Fs, inode: nat)
    requires InodeInside(fs, inode)
    ensures var n, size := FileBlocks(fs, inode), FileSize(fs, inode);
      size <= n * fs.blockSize && (n > 0 ==> (n - 1) * fs.blockSize < size)
  {
    hide FileSize;
    var n, m := FileBlocks(fs, inode), FileSize(fs, inode) + fs.blockSize - 1;
    assert m == n * fs.blockSize + m % fs.blockSize;
    MulAdd(n - 1, 1, fs.blockSize);
  }

  // ----- block maps

  /** A block number as found: 0 is a hole, and a number past the last block leads nowhere. */
  function PtrOf(fs: Fs, v: nat): (r: Ptr)
  {
    if v == 0 then Hole else if v < fs.blockCount then At(v) else Bad
  }

  /** Word `i` of block `b` is `v`. */
  ghost predicate MapWord(fs: Fs, b: nat, i: nat, v: nat)
  {
    && 1 <= b < fs.blockCount && i < fs.blockSize / 4 && v < TWO32
    && 0 <= b * fs.blockSize && HasAt(fs.image, b * fs.blockSize + 4 * i, LE(v, 4))
  }

  /** Word `i` of the inode's pointer area at `at` is `v`. */
  ghost predicate AreaWord(fs: Fs, at: nat, i: nat, v: nat)
  {
    v < TWO32 && HasAt(fs.image, at + 4 * i, LE(v, 4))
  }

  lemma EntryIs(fs: Fs, b: nat, i: nat, v: nat)
    requires fs.Valid() && MapWord(fs, b, i, v)
    ensures FsBlock(fs, b).Some? && Entry(fs, b, i) == v
  {
    hide Rd32, HasAt, LE;
    FsBlockDefined(fs, b);
    Word32(fs.image, b * fs.blockSize + 4 * i, v);
  }

  /** One level down: the `i`-th word of a map block stands for the `i`-th part of what the block covers. */
  lemma IndexDown(fs: Fs, b: nat, level: nat, i: nat, k: nat, v: nat)
    requires fs.Valid() && level >= 1 && MapWord(fs, b, i, v) && k < Span(PerBlock(fs), level - 1)
    ensures var s := Span(PerBlock(fs), level - 1);
      && i * s + k < Span(PerBlock(fs), level)
      && Index(fs, b, level, i * s + k) == Index(fs, v, level - 1, k)
  {
    hide Span, Index, Entry, HasAt, LE;
    EntryIs(fs, b, i, v);
    SubIndex(fs, b, level, i, k);
  }

  lemma LeafIs(fs: Fs, v: nat)
    requires fs.Valid()
    ensures Span(PerBlock(fs), 0) == 1 && Index(fs, v, 0, 0) == PtrOf(fs, v)
  {
    FsBlockDefined(fs, v);
  }

  lemma Spans(per: nat)
    requires per >= 1
    ensures Span(per, 0) == 1 && Span(per, 1) == per && Span(per, 2) == per * per
    ensures Base(per, 2) == 12 + per && Base(per, 3) == 12 + per + per * per
  {
    assert Span(per, 1) == per * Span(per, 0);
    assert Span(per, 2) == per * Span(per, 1);
    BaseValues(per);
  }

  /** Words 12, 13 and 14 cover the areas mapped by one, two and three levels. */
  lemma AreaLevel(fs: Fs, at: nat, level: nat, b: nat, k: nat)
    requires AreaInside(fs, at) && 1 <= level <= 3 && AreaWord(fs, at, 11 + level, b) && k < Span(PerBlock(fs), level)
    ensures Pointer(fs, at, Base(PerBlock(fs), level) + k) == Index(fs, b, level, k)
  {
    hide Rd32, HasAt, LE, Index, Span, Base;
    Word32(fs.image, at + 4 * (11 + level), b);
    CoversLevel(fs, at, level);
    assert CoversAt(fs, at, b, level, Base(PerBlock(fs), level), k);
  }

  /** The first twelve file blocks are the first twelve words. */
  lemma DirectExact(fs: Fs, at: nat, n: nat, v: nat)
    requires AreaInside(fs, at) && n < 12 && AreaWord(fs, at, n, v)
    ensures Pointer(fs, at, n) == PtrOf(fs, v)
  {
    hide Rd32, HasAt, LE, Index;
    Word32(fs.image, at + 4 * n, v);
    LeafIs(fs, v);
  }

  /** Then come the words of the block that word 12 names. */
  lemma SingleExact(fs: Fs, at: nat, b: nat, i: nat, v: nat)
    requires AreaInside(fs, at) && AreaWord(fs, at, 12, b) && MapWord(fs, b, i, v)
    ensures Pointer(fs, at, 12 + i) == PtrOf(fs, v)
  {
    hide Pointer, HasAt, LE, Index, Span, Base;
    Spans(PerBlock(fs));
    BaseValues(PerBlock(fs));
    LeafIs(fs, v);
    IndexDown(fs, b, 1, i, 0, v);
    AreaLevel(fs, at, 1, b, i);
  }

  /** Then the words of the blocks that the words of the block at word 13 name. */
  lemma DoubleExact(fs: Fs, at: nat, b: nat, i: nat, c: nat, j: nat, v: nat)
    requires AreaInside(fs, at) && AreaWord(fs, at, 13, b) && MapWord(fs, b, i, c) && MapWord(fs, c, j, v)
    ensures var per := fs.blockSize / 4;
      0 <= i * per && Pointer(fs, at, 12 + per + (i * per + j)) == PtrOf(fs, v)
  {
    hide Pointer, HasAt, LE, Index, Span, Base, MapWord;
    assert i < PerBlock(fs) && j < PerBlock(fs) by { WordInside(fs, b, i, c); WordInside(fs, c, j, v); }
    var per := PerBlock(fs);
    Spans(per);
    BaseValues(per);
    LeafIs(fs, v);
    IndexDown(fs, c, 1, j, 0, v);
    IndexDown(fs, b, 2, i, j, c);
    MulNonNeg(i, per);
    AreaLevel(fs, at, 2, b, i * per + j);
  }

  lemma TwoDown(fs: Fs, b: nat, i: nat, c: nat, j: nat, v: nat)
    requires fs.Valid() && MapWord(fs, b, i, c) && MapWord(fs, c, j, v)
    ensures var per := PerBlock(fs);
      && i < per && j < per && 0 <= i * per && i * per + j < Span(per, 2)
      && Index(fs, b, 2, i * per + j) == PtrOf(fs, v)
  {
    hide HasAt, LE, Index, Span, MapWord;
    WordInside(fs, b, i, c);
    WordInside(fs, c, j, v);
    Spans(PerBlock(fs));
    LeafIs(fs, v);
    IndexDown(fs, c, 1, j, 0, v);
    IndexDown(fs, b, 2, i, j, c);
    MulNonNeg(i, PerBlock(fs));
  }

  lemma ThreeDown(fs: Fs, b: nat, h: nat, k: nat, c: nat, s: nat)
    requires fs.Valid() && MapWord(fs, b, h, c) && s == Span(PerBlock(fs), 2) && k < s
    ensures 0 <= h * s && h * s + k < Span(PerBlock(fs), 3) && Index(fs, b, 3, h * s + k) == Index(fs, c, 2, k)
  {
    hide HasAt, LE, Index, Span, MapWord;
    IndexDown(fs, b, 3, h, k, c);
    MulNonNeg(h, s);
  }

  /** And so on once more from word 14. */
  lemma TripleExact(fs: Fs, at: nat, b: nat, h: nat, c: nat, i: nat, d: nat, j: nat, v: nat)
    requires AreaInside(fs, at) && AreaWord(fs, at, 14, b)
    requires MapWord(fs, b, h, c) && MapWord(fs, c, i, d) && MapWord(fs, d, j, v)
    ensures var per := fs.blockSize / 4;
      var square := per * per;
      && 0 <= i * per && 0 <= square && 0 <= h * square
      && Pointer(fs, at, 12 + per + square + (h * square + (i * per + j))) == PtrOf(fs, v)
  {
    hide Pointer, HasAt, LE, Index, Span, Base, MapWord;
    var per := PerBlock(fs);
    var s := Span(per, 2);
    Spans(per);
    TwoDown(fs, c, i, d, j, v);
    ThreeDown(fs, b, h, i * per + j, c, s);
    AreaLevel(fs, at, 3, b, h * s + (i * per + j));
  }

  lemma WordInside(fs: Fs, b: nat, i: nat, v: nat)
    requires MapWord(fs, b, i, v)
    ensures i < PerBlock(fs) && v < TWO32
  {
  }

  // ----- extent trees

  /** A leaf entry: file block, length, and the physical block in a high and a low part. */
  lemma LeafExact(fs: Fs, e: nat, logical: nat, count: nat, hi: nat, lo: nat)
    requires logical < TWO32 && count < 0x1_0000 && hi < 0x1_0000 && lo < TWO32
    requires HasAt(fs.image, e, LE(logical, 4)) && HasAt(fs.image, e + 4, LE(count, 2))
    requires HasAt(fs.image, e + 6, LE(hi, 2)) && HasAt(fs.image, e + 8, LE(lo, 4))
    ensures e + 12 <= |fs.image| && Leaf(fs, e) == Extent(logical, lo + hi * TWO32, count)
  {
    hide HasAt, LE, Rd16, Rd32;
    Word32(fs.image, e, logical);
    Word16(fs.image, e + 4, count);
    Word16(fs.image, e + 6, hi);
    Word32(fs.image, e + 8, lo);
  }

  /** An index entry: the block of the child node, low part first. */
  lemma ChildExact(fs: Fs, e: nat, lo: nat, hi: nat)
    requires lo < TWO32 && hi < 0x1_0000 && e + 12 <= |fs.image|
    requires HasAt(fs.image, e + 4, LE(lo, 4)) && HasAt(fs.image, e + 8, LE(hi, 2))
    ensures ChildBlock(fs, e) == lo + hi * TWO32
  {
    hide HasAt, LE, Rd16, Rd32;
    Word32(fs.image, e + 4, lo);
    Word16(fs.image, e + 8, hi);
  }

  /** The leaf entry number `i` of a node. */
  function EntryAt(node: Node, i: nat): (e: nat)
  {
    node.at + 12 + i * 12
  }

  ghost predicate EntryGood(fs: Fs, node: Node, depth: nat, i: nat)
    requires fs.Valid() && NodeInside(fs, node) && HeaderOk(fs, node, depth) && i < Entries(fs, node)
  {
    if depth == 0 then
      var x := Leaf(fs, EntryAt(node, i));
      1 <= x.count <= 32768 ==> 1 <= x.physical && x.physical + x.count <= fs.blockCount
    else
      var b := ChildBlock(fs, EntryAt(node, i));
      1 <= b < fs.blockCount && (FsBlockDefined(fs, b); TreeLeaves(fs, Child(fs, b), depth - 1).Some?)
  }

  /** The node in block `b`. */
  function Child(fs: Fs, b: nat): (node: Node)
    requires fs.Valid() && FsBlock(fs, b).Some?
    ensures NodeInside(fs, node)
  {
    Node(FsBlock(fs, b).value, fs.blockSize)
  }

  /** `x` is an initialised leaf entry below entry `i`. */
  ghost predicate EntryHas(fs: Fs, node: Node, depth: nat, i: nat, x: Extent)
    requires fs.Valid() && NodeInside(fs, node) && HeaderOk(fs, node, depth) && i < Entries(fs, node)
    requires EntryGood(fs, node, depth, i)
  {
    if depth == 0 then x == Leaf(fs, EntryAt(node, i)) && 1 <= x.count <= 32768
    else
      var b := ChildBlock(fs, EntryAt(node, i));
      FsBlockDefined(fs, b);
      x in TreeLeaves(fs, Child(fs, b), depth - 1).value
  }

  lemma OneExact(fs: Fs, node: Node, depth: nat, i: nat, x: Extent)
    requires fs.Valid() && NodeInside(fs, node) && HeaderOk(fs, node, depth) && i < Entries(fs, node)
    ensures OneEntry(fs, node, depth, i).Some? <==> EntryGood(fs, node, depth, i)
    ensures EntryGood(fs, node, depth, i) ==>
      (x in OneEntry(fs, node, depth, i).value <==> EntryHas(fs, node, depth, i, x))
  {
    hide Rd16, Rd32, TreeLeaves;
    if depth > 0 { FsBlockDefined(fs, ChildBlock(fs, EntryAt(node, i))); }
  }

  /** A node is well-formed exactly when all its entries are, and its leaves are exactly those of its
      entries: of a leaf node the initialised ones, of an index node those of the children. */
  lemma {:induction false} NodeExact(fs: Fs, node: Node, depth: nat, i: nat, x: Extent)
    requires fs.Valid() && NodeInside(fs, node) && HeaderOk(fs, node, depth) && i <= Entries(fs, node)
    ensures EntryLeaves(fs, node, depth, i).Some? <==>
      forall k :: i <= k < Entries(fs, node) ==> EntryGood(fs, node, depth, k)
    ensures EntryLeaves(fs, node, depth, i).Some? ==>
      (x in EntryLeaves(fs, node, depth, i).value <==>
       exists k :: i <= k < Entries(fs, node) && EntryHas(fs, node, depth, k, x))
    decreases Entries(fs, node) - i
  {
    hide Rd16, Rd32, OneEntry, EntryGood, EntryHas;
    if i < Entries(fs, node) {
      OneExact(fs, node, depth, i, x);
      NodeExact(fs, node, depth, i + 1, x);
    }
  }

  // ----- directory records

  /** The fixed part of a record. */
  ghost predicate RecordHead(fs: Fs, de: nat, ino: nat, recLen: nat)
  {
    ino < TWO32 && recLen < 0x1_0000 && HasAt(fs.image, de, LE(ino, 4)) && HasAt(fs.image, de + 4, LE(recLen, 2))
  }

  /** A record that is too short, not a multiple of four or too long ends the block. */
  lemma RecordRefused(fs: Fs, block: nat, pos: nat, ino: nat, recLen: nat)
    requires fs.Valid() && block + fs.blockSize <= |fs.image| && pos + 8 <= fs.blockSize
    requires RecordHead(fs, block + pos, ino, recLen)
    ensures ReadDirent(fs, block, pos).None? <==> recLen < 8 || recLen % 4 != 0 || pos + recLen > fs.blockSize
  {
    hide HasAt, LE, Rd16, Rd32;
    Word16(fs.image, block + pos + 4, recLen);
  }

  /** What the type byte says. */
  function KindOf(b: byte): (k: FileType)
  {
    match b
    case 1 => Regular
    case 2 => Directory
    case 0 => Unknown
    case _ => Other
  }

  /** With type bytes: name length and type are one byte each, and the name follows. */
  lemma TypedRecord(fs: Fs, block: nat, pos: nat, ino: nat, recLen: nat, name: seq<byte>)
    requires fs.Valid() && block + fs.blockSize <= |fs.image| && pos + recLen <= fs.blockSize && fs.hasFiletype
    requires RecordHead(fs, block + pos, ino, recLen) && recLen % 4 == 0 && 8 + |name| <= recLen
    requires ino != 0 && 1 <= |name| <= 255 && fs.image[block + pos + 6] == |name|
    requires HasAt(fs.image, block + pos + 8, name)
    ensures ReadDirent(fs, block, pos) == Some(Dirent(ino, name, KindOf(fs.image[block + pos + 7]), recLen))
  {
    hide HasAt, LE, Rd16, Rd32;
    var de := block + pos;
    Word32(fs.image, de, ino);
    Word16(fs.image, de + 4, recLen);
    HasAtSlice(fs.image, de + 8, name);
  }

  /** Without: the name length has two bytes, and the inode's mode tells the type. */
  lemma UntypedRecord(fs: Fs, block: nat, pos: nat, ino: nat, recLen: nat, name: seq<byte>)
    requires fs.Valid() && block + fs.blockSize <= |fs.image| && pos + recLen <= fs.blockSize && !fs.hasFiletype
    requires RecordHead(fs, block + pos, ino, recLen) && recLen % 4 == 0 && 8 + |name| <= recLen
    requires ino != 0 && 1 <= |name| < 0x1_0000 && HasAt(fs.image, block + pos + 6, LE(|name|, 2))
    requires HasAt(fs.image, block + pos + 8, name)
    ensures var at := InodeAt(fs, ino);
      var kind := if at.None? then Unknown
                  else if Format(fs, at.value) == 0x4000 then Directory
                  else if Format(fs, at.value) == 0x8000 then Regular
                  else Unknown;
      ReadDirent(fs, block, pos) == Some(Dirent(ino, name, kind, recLen))
  {
    hide HasAt, LE, Rd16, Rd32, Format, InodeAt;
    var de := block + pos;
    var at := InodeAt(fs, ino);
    assert ClassifyByMode(fs, ino)
      == if at.None? then Unknown
         else if Format(fs, at.value) == 0x4000 then Directory
         else if Format(fs, at.value) == 0x8000 then Regular
         else Unknown;
    hide ClassifyByMode;
    Word32(fs.image, de, ino);
    Word16(fs.image, de + 4, recLen);
    Word16(fs.image, de + 6, |name|);
    HasAtSlice(fs.image, de + 8, name);
  }

  /** A joined path is one level deeper. */
  lemma {:induction false} DepthGrows(dir: seq<byte>, name: seq<byte>)
    requires SLASH !in name
    ensures PathDepth(Join(dir, name)) == PathDepth(dir) + 1
    decreases dir
  {
    if dir == [] {
      assert Join(dir, name)[1..] == name && Join(dir, name)[0] == SLASH;
      NoSlash(name);
    } else {
      assert Join(dir, name)[1..] == Join(dir[1..], name) && Join(dir, name)[0] == dir[0];
      DepthGrows(dir[1..], name);
    }
  }

  lemma {:induction false} NoSlash(name: seq<byte>)
    requires SLASH !in name
    ensures PathDepth(name) == 0
  {
    if name != [] {
      assert name[0] in name;
      NoSlash(name[1..]);
    }
  }

  // ----- the flags of an inode and the header of a node

  /** Which map an inode has: bit 28 of its flags means data in the inode, bit 19 an extent tree, and otherwise
      the fifteen words are a block map. */
  lemma FlagsExact(fs: Fs, inode: nat, flags: nat)
    requires InodeInside(fs, inode) && flags < TWO32 && HasAt(fs.image, inode + 32, LE(flags, 4))
    ensures Bitmap.Bit(flags, 28) ==> InodePairs(fs, inode) == Some([])
    ensures !Bitmap.Bit(flags, 28) && Bitmap.Bit(flags, 19) ==>
      InodePairs(fs, inode) == TreePairs(fs, Node(inode + 40, 60), -1)
    ensures !Bitmap.Bit(flags, 28) && !Bitmap.Bit(flags, 19) ==>
      var n := FileBlocks(fs, inode);
      InodePairs(fs, inode)
      == if n <= 0x1_0000_0000 && AllGood(fs, inode + 40, 0, n) then Some(Mapped(fs, inode + 40, 0, n)) else None
  {
    hide HasAt, LE, Rd32, TreePairs, Mapped, AllGood, FileBlocks, Bitmap.And, Bitmap.Bit, Shl;
    Word32(fs.image, inode + 32, flags);
    assert Shl(1, 19) == IFLAG_EXTENTS && Shl(1, 28) == IFLAG_INLINE_DATA by { Powers(); }
    Bitmap.TestIsBit(flags, 28);
    Bitmap.TestIsBit(flags, 19);
  }

  lemma Powers()
    ensures Shl(1, 19) == IFLAG_EXTENTS && Shl(1, 28) == IFLAG_INLINE_DATA
  {
    assert Shl(1, 10) == 0x400;
    assert Shl(1, 20) == 0x10_0000;
  }

  /** The header of a node: magic, number of entries, their maximum (not looked at) and depth. */
  lemma NodeHeaderExact(fs: Fs, node: Node, want: int, magic: nat, entries: nat, depth: nat)
    requires NodeInside(fs, node) && magic < 0x1_0000 && entries < 0x1_0000 && depth < 0x1_0000
    requires node.space >= 12 && HasAt(fs.image, node.at, LE(magic, 2)) && HasAt(fs.image, node.at + 2, LE(entries, 2))
    requires HasAt(fs.image, node.at + 6, LE(depth, 2))
    ensures Entries(fs, node) == entries && Depth(fs, node) == depth
    ensures HeaderOk(fs, node, want) <==>
      magic == 0xF30A && depth <= 5 && (want >= 0 ==> depth == want) && 12 + entries * 12 <= node.space
  {
    hide HasAt, LE, Rd16;
    Word16(fs.image, node.at, magic);
    Word16(fs.image, node.at + 2, entries);
    Word16(fs.image, node.at + 6, depth);
  }

  // ----- the superblock

  /** The supported incompatible features: file types, extents, 64-bit, flexible groups, checksum seed and
      inline data. */
  predicate Supported(k: nat)
  {
    k == 1 || k == 6 || k == 7 || k == 9 || k == 13 || k == 15
  }

  datatype Fields = Fields(inodes: nat, blocksLo: nat, blocksHi: nat, firstData: nat, logBs: nat, blocksPerGroup: nat,
                           inodesPerGroup: nat, magic: nat, state: nat, rev: nat, inodeSize: nat, incompat: nat,
                           descSize: nat)
  {
    ghost predicate InRange()
    {
      && inodes < TWO32 && blocksLo < TWO32 && blocksHi < TWO32 && firstData < TWO32 && logBs < TWO32
      && blocksPerGroup < TWO32 && inodesPerGroup < TWO32 && rev < TWO32 && incompat < TWO32
      && magic < 0x1_0000 && state < 0x1_0000 && inodeSize < 0x1_0000 && descSize < 0x1_0000
    }

    /** Bit 7 of the incompatible features: 64-bit block numbers. */
    ghost predicate Wide()
    {
      Bitmap.Bit(incompat, 7)
    }

    function BlockSize(): (n: nat)
    {
      if logBs == 0 then 1024 else if logBs == 1 then 2048 else 4096
    }

    ghost function Blocks(): (n: nat)
    {
      blocksLo + (if Wide() then blocksHi * TWO32 else 0)
    }

    ghost function InodeBytes(): (n: nat)
    {
      if rev >= 1 then inodeSize else 128
    }

    ghost function DescBytes(): (n: nat)
    {
      if Wide() then descSize else 32
    }

    /** The 32-bit group count. */
    ghost function Groups(): (n: nat)
      requires blocksPerGroup > 0 && Blocks() >= firstData
    {
      ((Blocks() - firstData + blocksPerGroup - 1) / blocksPerGroup) % TWO32
    }

    /** A clean ext filesystem with no journal to replay and supported features only. */
    ghost predicate Probed()
    {
      && magic == 0xEF53 && logBs <= 2 && Bitmap.Bit(state, 0)
      && forall k: nat :: Bitmap.Bit(incompat, k) ==> Supported(k)
    }

    /** The geometry makes sense for an image of this size. */
    ghost predicate Sensible(size: nat)
    {
      && inodesPerGroup > 0 && blocksPerGroup > 0 && inodes > 0 && Blocks() > 0
      && 128 <= InodeBytes() <= BlockSize() && Bitmap.Ones(InodeBytes()) == 1
      && 32 <= DescBytes() <= BlockSize() && firstData == (if logBs == 0 then 1 else 0)
      && Blocks() * BlockSize() <= size && Groups() * inodesPerGroup >= inodes
      && (firstData + 1) * BlockSize() + Groups() * DescBytes() <= size
    }
  }

  /** The fields stand where the layout puts them. */
  ghost predicate SuperAt(image: seq<byte>, f: Fields)
  {
    && |image| >= 2048 && f.InRange()
    && HasAt(image, 1024, LE(f.inodes, 4)) && HasAt(image, 1028, LE(f.blocksLo, 4))
    && HasAt(image, 1044, LE(f.firstData, 4)) && HasAt(image, 1048, LE(f.logBs, 4))
    && HasAt(image, 1056, LE(f.blocksPerGroup, 4)) && HasAt(image, 1064, LE(f.inodesPerGroup, 4))
    && HasAt(image, 1080, LE(f.magic, 2)) && HasAt(image, 1082, LE(f.state, 2)) && HasAt(image, 1100, LE(f.rev, 4))
    && HasAt(image, 1112, LE(f.inodeSize, 2)) && HasAt(image, 1120, LE(f.incompat, 4))
    && HasAt(image, 1278, LE(f.descSize, 2)) && HasAt(image, 1360, LE(f.blocksHi, 4))
  }

  lemma SuperFields(image: seq<byte>, f: Fields)
    requires SuperAt(image, f)
    ensures Rd32(image, SB) == f.inodes && Rd32(image, SB + 0x04) == f.blocksLo && Rd32(image, SB + 0x14) == f.firstData
    ensures Rd32(image, SB + 0x18) == f.logBs && Rd32(image, SB + 0x20) == f.blocksPerGroup
    ensures Rd32(image, SB + 0x28) == f.inodesPerGroup && Rd16(image, SB + 0x38) == f.magic
    ensures Rd16(image, SB + 0x3A) == f.state && Rd32(image, SB + 0x4C) == f.rev
    ensures Rd16(image, SB + 0x58) == f.inodeSize && Rd32(image, SB + 0x60) == f.incompat
    ensures Rd16(image, SB + 0xFE) == f.descSize && Rd32(image, SB + 0x150) == f.blocksHi
  {
    hide HasAt, LE, Rd16, Rd32;
    Word32(image, 1024, f.inodes);
    Word32(image, 1028, f.blocksLo);
    Word32(image, 1044, f.firstData);
    Word32(image, 1048, f.logBs);
    Word32(image, 1056, f.blocksPerGroup);
    Word32(image, 1064, f.inodesPerGroup);
    Word16(image, 1080, f.magic);
    Word16(image, 1082, f.state);
    Word32(image, 1100, f.rev);
    Word16(image, 1112, f.inodeSize);
    Word32(image, 1120, f.incompat);
    Word16(image, 1278, f.descSize);
    Word32(image, 1360, f.blocksHi);
  }

  /** The bits of the allowed features. */
  lemma {:induction false} AllowedBits(k: nat)
    ensures Bitmap.Bit(INCOMPAT_ALLOWED, k) <==> Supported(k)
  {
    if k >= 16 {
      assert Shl(1, 8) == 0x100;
      assert Shl(1, 16) == 0x1_0000;
      Varint.ShlMono(1, 1, 16, k);
      HighBits(INCOMPAT_ALLOWED, k);
    } else {
      SmallBits(k);
    }
  }

  lemma SmallBits(k: nat)
    requires k < 16
    ensures Bitmap.Bit(INCOMPAT_ALLOWED, k) <==> Supported(k)
  {
    BitDown(0xA2C2, 0x5161, k);
    BitDown(0x5161, 0x28B0, k - 1);
    BitDown(0x28B0, 0x1458, k - 2);
    BitDown(0x1458, 0xA2C, k - 3);
    BitDown(0xA2C, 0x516, k - 4);
    BitDown(0x516, 0x28B, k - 5);
    BitDown(0x28B, 0x145, k - 6);
    BitDown(0x145, 0xA2, k - 7);
    BitDown(0xA2, 0x51, k - 8);
    BitDown(0x51, 0x28, k - 9);
    BitDown(0x28, 0x14, k - 10);
    BitDown(0x14, 0xA, k - 11);
    BitDown(0xA, 0x5, k - 12);
    BitDown(0x5, 0x2, k - 13);
    BitDown(0x2, 0x1, k - 14);
    BitDown(0x1, 0x0, k - 15);
  }

  lemma BitDown(w: nat, half: nat, k: int)
    requires half == w / 2
    ensures k == 0 ==> Bitmap.Bit(w, 0) == (w % 2 == 1)
    ensures k > 0 ==> Bitmap.Bit(w, k) == Bitmap.Bit(half, k - 1)
  {
  }

  lemma {:induction false} HighBits(w: nat, k: nat)
    requires w < Shl(1, k)
    ensures !Bitmap.Bit(w, k)
    decreases k
  {
    if k > 0 {
      HighBits(w / 2, k - 1);
    }
  }

  /** No set bit outside the allowed ones: the mask test is the bit-by-bit condition. */
  lemma OnlyAllowed(w: nat)
    requires w < TWO32
    ensures Bitmap.AndNot(w, INCOMPAT_ALLOWED) == 0 <==> forall k: nat :: Bitmap.Bit(w, k) ==> Supported(k)
  {
    hide Bitmap.AndNot, Bitmap.Bit, Shl, Supported;
    var r := Bitmap.AndNot(w, INCOMPAT_ALLOWED);
    if r == 0 {
      forall k: nat | Bitmap.Bit(w, k) ensures Supported(k) {
        OneAllowed(w, k);
        Bitmap.ZeroBits(k);
      }
    }
    if forall k: nat :: Bitmap.Bit(w, k) ==> Supported(k) {
      forall k: nat ensures !Bitmap.Bit(r, k) {
        OneAllowed(w, k);
      }
      Bitmap.AndNotBound(w, INCOMPAT_ALLOWED);
      assert TWO32 == Shl(1, 32) by { TwoTo32(); }
      Bitmap.NoBits(r, 32);
    }
  }

  lemma OneAllowed(w: nat, k: nat)
    ensures Bitmap.Bit(Bitmap.AndNot(w, INCOMPAT_ALLOWED), k) <==> Bitmap.Bit(w, k) && !Supported(k)
  {
    hide Bitmap.AndNot, Bitmap.Bit;
    Bitmap.AndNotBit(w, INCOMPAT_ALLOWED, k);
    AllowedBits(k);
  }

  lemma TwoTo32()
    ensures TWO32 == Shl(1, 32)
  {
    assert Shl(1, 10) == 0x400;
    assert Shl(1, 20) == 0x10_0000;
    assert Shl(1, 30) == 0x4000_0000;
  }

  lemma {:induction false} NoOnesIsZero(w: nat)
    ensures Bitmap.Ones(w) == 0 <==> w == 0
  {
    if w > 0 {
      NoOnesIsZero(w / 2);
    }
  }

  lemma PowerTest(w: nat)
    requires w > 0
    ensures Bitmap.And(w, w - 1) == 0 <==> Bitmap.Ones(w) == 1
  {
    hide Bitmap.And, Bitmap.Ones;
    Bitmap.DropLowest(w);
    NoOnesIsZero(Bitmap.And(w, w - 1));
  }

  lemma ProbeExact(image: seq<byte>, f: Fields)
    requires SuperAt(image, f)
    ensures Open(image) == if f.Probed() then Geometry(image, f.BlockSize(), f.incompat) else Err(BadMagic)
  {
    hide Rd16, Rd32, HasAt, LE, Bitmap.And, Bitmap.AndNot, Bitmap.Bit, Geometry, Shl;
    SuperFields(image, f);
    FlagBits();
    OnlyAllowed(f.incompat);
    Bitmap.TestIsBit(f.incompat, 2);
    Bitmap.TestIsBit(f.state, 0);
    assert Bitmap.Bit(f.incompat, 2) ==> !f.Probed();
  }

  lemma GeometryExact(image: seq<byte>, f: Fields)
    requires SuperAt(image, f) && f.logBs <= 2
    ensures Geometry(image, f.BlockSize(), f.incompat)
      == if f.Sensible(|image|)
         then Ok(Fs(image, f.BlockSize(), f.Blocks(), f.inodes, f.inodesPerGroup, f.InodeBytes(), f.DescBytes(),
                    (f.firstData + 1) * f.BlockSize(), f.Groups(), Bitmap.Bit(f.incompat, 1)))
         else Err(CorruptData)
  {
    hide Rd16, Rd32, HasAt, LE, Bitmap.And, Bitmap.Bit, Bitmap.Ones, Shl;
    SuperFields(image, f);
    FlagBits();
    assert Shl(1, 7) == INCOMPAT_64BIT by { SevenUp(); }
    Bitmap.TestIsBit(f.incompat, 1);
    Bitmap.TestIsBit(f.incompat, 7);
    if f.InodeBytes() > 0 { PowerTest(f.InodeBytes()); }
    var n, bs := f.Blocks(), f.BlockSize();
    var q := |image| / bs;
    assert |image| == q * bs + |image| % bs;
    if n <= q {
      MulLe(n, q, bs);
    } else {
      MulLe(q + 1, n, bs);
      MulAdd(q, 1, bs);
    }
  }

  lemma SevenUp()
    ensures Shl(1, 7) == INCOMPAT_64BIT
  {
  }

  /** What is opened, from the bytes of the superblock: refused as no filesystem exactly when the probe fails,
      as corrupt exactly when the geometry makes no sense, and otherwise opened with these values. */
  lemma OpenExact(image: seq<byte>, f: Fields)
    requires SuperAt(image, f)
    ensures Open(image)
      == if !f.Probed() then Err(BadMagic)
         else if !f.Sensible(|image|) then Err(CorruptData)
         else Ok(Fs(image, f.BlockSize(), f.Blocks(), f.inodes, f.inodesPerGroup, f.InodeBytes(), f.DescBytes(),
                    (f.firstData + 1) * f.BlockSize(), f.Groups(), Bitmap.Bit(f.incompat, 1)))
  {
    hide SuperAt, Open, Geometry, Bitmap.Bit, Bitmap.Ones;
    ProbeExact(image, f);
    if f.logBs <= 2 { GeometryExact(image, f); }
  }

  /** An image without room for a superblock is none. */
  lemma TooSmall(image: seq<byte>)
    requires |image| < 2048
    ensures Open(image) == Err(BadMagic)
  {
  }
}
