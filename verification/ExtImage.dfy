/** A bare ext2/3/4 image and its geometry: the first half of src/fs/ext_reader.c. Every
    field is read at an explicit byte offset; that each read lies inside the image is part
    of the well-formedness of the functions below. */
module ExtImage {
  import opened Bytes
  import Bitmap

  datatype Fs = Fs(
    image: seq<byte>,
    blockSize: nat,
    blockCount: nat,
    inodesCount: nat,
    inodesPerGroup: nat,
    inodeSize: nat,
    descSize: nat,
    gdtStart: nat,
    groupCount: nat,
    hasFiletype: bool)
  {
    /** What the checks at open establish. */
    ghost predicate Valid()
    {
      && (blockSize == 1024 || blockSize == 2048 || blockSize == 4096)
      && 1 <= blockCount && blockCount * blockSize <= |image|
      && 1 <= inodesCount <= groupCount * inodesPerGroup && inodesPerGroup >= 1
      && 128 <= inodeSize <= blockSize && 32 <= descSize <= blockSize
      && gdtStart + groupCount * descSize <= |image|
    }
  }

  function Rd16(s: seq<byte>, p: nat): (v: nat)
    requires p + 2 <= |s|
    ensures v < 0x1_0000
  {
    FromLEBound(s[p..p + 2]);
    Pow256Values();
    Field(s, p, 2)
  }

  function Rd32(s: seq<byte>, p: nat): (v: nat)
    requires p + 4 <= |s|
    ensures v < TWO32
  {
    FromLEBound(s[p..p + 4]);
    Pow256Values();
    Field(s, p, 4)
  }

  const SB := 1024                         // superblock offset
  const EXT_MAGIC := 0xEF53
  const INCOMPAT_FILETYPE := 0x2
  const INCOMPAT_RECOVER := 0x4
  const INCOMPAT_64BIT := 0x80
  const INCOMPAT_ALLOWED := 0xA2C2

  predicate Has(flags: nat, bit: nat)
  {
    Bitmap.And(flags, bit) != 0
  }

  /** `fsd_extfs_open`: probe first, geometry second. */
  function Open(image: seq<byte>): (r: Result<Fs>)
    ensures r.Ok? ==> r.value.Valid() && r.value.image == image
  {
    if |image| < SB + 1024 then Err(BadMagic)
    else if Rd16(image, SB + 0x38) != EXT_MAGIC then Err(BadMagic)
    else
      var logBs := Rd32(image, SB + 0x18);
      var incompat := Rd32(image, SB + 0x60);
      if logBs > 2 then Err(BadMagic)
      else if Has(incompat, INCOMPAT_RECOVER) then Err(BadMagic)
      else if Bitmap.AndNot(incompat, INCOMPAT_ALLOWED) != 0 then Err(BadMagic)
      else if !Has(Rd16(image, SB + 0x3A), 1) then Err(BadMagic)
      else Geometry(image, if logBs == 0 then 1024 else if logBs == 1 then 2048 else 4096, incompat)
  }

  function Geometry(image: seq<byte>, blockSize: nat, incompat: nat): (r: Result<Fs>)
    requires |image| >= SB + 1024 && (blockSize == 1024 || blockSize == 2048 || blockSize == 4096)
    ensures r.Ok? ==> r.value.Valid() && r.value.image == image
  {
    var is64 := Has(incompat, INCOMPAT_64BIT);
    var blockCount := Rd32(image, SB + 0x04) + (if is64 then Rd32(image, SB + 0x150) * TWO32 else 0);
    var inodesCount, blocksPerGroup := Rd32(image, SB), Rd32(image, SB + 0x20);
    var inodesPerGroup, firstData := Rd32(image, SB + 0x28), Rd32(image, SB + 0x14);
    var inodeSize := if Rd32(image, SB + 0x4C) >= 1 then Rd16(image, SB + 0x58) else 128;
    var descSize := if is64 then Rd16(image, SB + 0xFE) else 32;
    if inodesPerGroup == 0 || blocksPerGroup == 0 || inodesCount == 0 || blockCount == 0 then Err(CorruptData)
    else if inodeSize < 128 || inodeSize > blockSize || Bitmap.And(inodeSize, inodeSize - 1) != 0 then Err(CorruptData)
    else if descSize < 32 || descSize > blockSize then Err(CorruptData)
    else if firstData != (if blockSize == 1024 then 1 else 0) then Err(CorruptData)
    else if blockCount > |image| / blockSize then Err(CorruptData)
    else
      // `(uint32_t)` truncates the group count; the two checks below are on the truncated value
      var groupCount := ((blockCount - firstData + blocksPerGroup - 1) / blocksPerGroup) % TWO32;
      var gdtStart := (firstData + 1) * blockSize;
      if groupCount * inodesPerGroup < inodesCount then Err(CorruptData)
      else if gdtStart + groupCount * descSize > |image| then Err(CorruptData)
      else
        FitsImage(blockCount, blockSize, |image|);
        Ok(Fs(image, blockSize, blockCount, inodesCount, inodesPerGroup, inodeSize, descSize,
              gdtStart, groupCount, Has(incompat, INCOMPAT_FILETYPE)))
  }

  /** What an accepted image promises: an ext superblock that was cleanly unmounted, with no journal to
      replay and no feature beyond the supported ones, and inodes whose size is a power of two. */
  lemma OpenGuarantees(image: seq<byte>)
    requires Open(image).Ok?
    ensures |image| >= SB + 1024 && Rd16(image, SB + 0x38) == EXT_MAGIC
    ensures Bitmap.Bit(Rd16(image, SB + 0x3A), 0)
    ensures !Bitmap.Bit(Rd32(image, SB + 0x60), 2)
    ensures forall k: nat :: Bitmap.Bit(Rd32(image, SB + 0x60), k) ==> Bitmap.Bit(INCOMPAT_ALLOWED, k)
    ensures Bitmap.Ones(Open(image).value.inodeSize) == 1
    ensures Open(image).value.hasFiletype <==> Bitmap.Bit(Rd32(image, SB + 0x60), 1)
  {
    hide Rd16, Rd32, Bitmap.Bit, Bitmap.And, Bitmap.AndNot, Bitmap.Ones, Shl;
    var state, incompat := Rd16(image, SB + 0x3A), Rd32(image, SB + 0x60);
    FlagBits();
    Bitmap.TestIsBit(state, 0);
    Bitmap.TestIsBit(incompat, 1);
    Bitmap.TestIsBit(incompat, 2);
    forall k: nat | Bitmap.Bit(incompat, k) ensures Bitmap.Bit(INCOMPAT_ALLOWED, k) {
      Bitmap.AndNotBit(incompat, INCOMPAT_ALLOWED, k);
      Bitmap.ZeroBits(k);
    }
    Bitmap.DropLowest(Open(image).value.inodeSize);
    NoOnes();
  }

  lemma FlagBits()
    ensures Shl(1, 0) == 1 && Shl(1, 1) == INCOMPAT_FILETYPE && Shl(1, 2) == INCOMPAT_RECOVER
  {
  }

  lemma NoOnes()
    ensures Bitmap.Ones(0) == 0
  {
  }

  lemma FitsImage(count: nat, size: nat, len: nat)
    requires size > 0 && count <= len / size
    ensures count * size <= len
  {
    MulLe(count, len / size, size);
    assert len == (len / size) * size + len % size;
  }

  /** `fs_block`: byte offset of filesystem block `b`, if it is inside the image. */
  function FsBlock(fs: Fs, b: nat): (r: Option<nat>)
    ensures r.Some? ==> r.value + fs.blockSize <= |fs.image| && 1 <= b < fs.blockCount
  {
    if b == 0 || b >= fs.blockCount then None
    else if b * fs.blockSize + fs.blockSize > |fs.image| then None
    else Some(b * fs.blockSize)
  }

  /** For an opened image the block range check already implies containment. */
  lemma FsBlockDefined(fs: Fs, b: nat)
    requires fs.Valid()
    ensures FsBlock(fs, b).Some? <==> 1 <= b < fs.blockCount
  {
    if 1 <= b < fs.blockCount {
      MulAdd(b, 1, fs.blockSize);
      MulLe(b + 1, fs.blockCount, fs.blockSize);
    }
  }

  lemma GroupInside(fs: Fs, index: nat)
    requires fs.Valid() && index < fs.inodesCount
    ensures index / fs.inodesPerGroup < fs.groupCount
    ensures fs.gdtStart + (index / fs.inodesPerGroup) * fs.descSize + fs.descSize <= |fs.image|
  {
    var g, n := index / fs.inodesPerGroup, fs.inodesPerGroup;
    assert index == g * n + index % n;
    if g >= fs.groupCount {
      MulLe(fs.groupCount, g, n);
    }
    MulAdd(g, 1, fs.descSize);
    MulLe(g + 1, fs.groupCount, fs.descSize);
  }

  /** `inode_ptr`: byte offset of inode `ino` (1-based). */
  function InodeAt(fs: Fs, ino: nat): (r: Option<nat>)
    requires fs.Valid()
    ensures r.Some? ==> r.value + fs.inodeSize <= |fs.image| && 1 <= ino <= fs.inodesCount
  {
    if ino == 0 || ino > fs.inodesCount then None
    else
      var index := ino - 1;
      GroupInside(fs, index);
      var gd := fs.gdtStart + (index / fs.inodesPerGroup) * fs.descSize;
      MulNonNeg(index / fs.inodesPerGroup, fs.descSize);
      var table := Rd32(fs.image, gd + 0x08)
                   + (if fs.descSize >= 0x2C then Rd32(fs.image, gd + 0x28) * TWO32 else 0);
      var off := table * fs.blockSize + (index % fs.inodesPerGroup) * fs.inodeSize;
      MulNonNeg(table, fs.blockSize);
      MulNonNeg(index % fs.inodesPerGroup, fs.inodeSize);
      if table == 0 || table >= fs.blockCount || off + fs.inodeSize > |fs.image| then None else Some(off)
  }

  const MODE_DIRECTORY := 0x4000
  const MODE_REGULAR := 0x8000

  /** `mode & 0xF000`. */
  function Format(fs: Fs, inode: nat): (f: nat)
    requires inode + 128 <= |fs.image|
  {
    Rd16(fs.image, inode) / 0x1000 * 0x1000
  }

  function FileSize(fs: Fs, inode: nat): (n: nat)
    requires inode + 128 <= |fs.image|
  {
    Rd32(fs.image, inode + 0x04)
    + (if Format(fs, inode) == MODE_REGULAR then Rd32(fs.image, inode + 0x6C) * TWO32 else 0)
  }
}
