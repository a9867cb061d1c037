/** The superblock of a small example image with 1024-byte blocks and 128-byte inodes, and the bits of the flags
    that such images use. */
module TinyImage {
  import opened Bytes
  import opened ExtImage
  import Bitmap

  datatype Shape = Shape(inodes: nat, blocks: nat, blocksPerGroup: nat, inodesPerGroup: nat, incompat: nat) {
    ghost predicate Small()
    {
      inodes < TWO32 && blocks < TWO32 && blocksPerGroup < TWO32 && inodesPerGroup < TWO32 && incompat < TWO32
    }
  }

  function SuperHead(h: Shape): (s: seq<byte>)
    ensures |s| == 0x2C
  {
    LE(h.inodes, 4) + LE(h.blocks, 4) + Fill(0, 12) + LE(1, 4) + LE(0, 4) + Fill(0, 4) + LE(h.blocksPerGroup, 4)
    + Fill(0, 4) + LE(h.inodesPerGroup, 4)
  }

  function Super(h: Shape): (s: seq<byte>)
    ensures |s| == 1024
  {
    SuperHead(h) + Fill(0, 12) + LE(EXT_MAGIC, 2) + LE(1, 2) + Fill(0, 16) + LE(0, 4) + Fill(0, 16)
    + LE(h.incompat, 4) + Fill(0, 924)
  }

  lemma SuperTail(s: seq<byte>, p: nat, h: Shape)
    requires HasAt(s, p, Super(h)) && h.Small()
    ensures HasAt(s, p, SuperHead(h)) && p + 1024 <= |s|
    ensures Rd16(s, p + 0x38) == EXT_MAGIC && Rd16(s, p + 0x3A) == 1
    ensures Rd32(s, p + 0x4C) == 0 && Rd32(s, p + 0x60) == h.incompat
  {
    hide LE, HasAt, Field, Pow256, Fill, SuperHead;
    var a, g, m, c, k, r := SuperHead(h), Fill(0, 12), LE(EXT_MAGIC, 2), LE(1, 2), Fill(0, 16), LE(0, 4);
    HasAtSplit(s, p, a + g + m + c + k + r + k + LE(h.incompat, 4), Fill(0, 924));
    HasAtSplit(s, p, a + g + m + c + k + r + k, LE(h.incompat, 4));
    HasAtSplit(s, p, a + g + m + c + k + r, k);
    HasAtSplit(s, p, a + g + m + c + k, r);
    HasAtSplit(s, p, a + g + m + c, k);
    HasAtSplit(s, p, a + g + m, c);
    HasAtSplit(s, p, a + g, m);
    HasAtSplit(s, p, a, g);
    Pow256Values();
    FieldOf(s, p + 0x38, EXT_MAGIC, 2);
    FieldOf(s, p + 0x3A, 1, 2);
    FieldOf(s, p + 0x4C, 0, 4);
    FieldOf(s, p + 0x60, h.incompat, 4);
  }

  lemma SuperReads(s: seq<byte>, p: nat, h: Shape)
    requires HasAt(s, p, SuperHead(h)) && h.Small()
    ensures p + 0x2C <= |s|
    ensures Rd32(s, p) == h.inodes && Rd32(s, p + 0x04) == h.blocks && Rd32(s, p + 0x14) == 1 && Rd32(s, p + 0x18) == 0
    ensures Rd32(s, p + 0x20) == h.blocksPerGroup && Rd32(s, p + 0x28) == h.inodesPerGroup
  {
    hide LE, HasAt, Field, Pow256, Fill;
    var n, b, z, f, l, g := LE(h.inodes, 4), LE(h.blocks, 4), Fill(0, 12), LE(1, 4), LE(0, 4), Fill(0, 4);
    var c, i := LE(h.blocksPerGroup, 4), LE(h.inodesPerGroup, 4);
    HasAtSplit(s, p, n + b + z + f + l + g + c + g, i);
    HasAtSplit(s, p, n + b + z + f + l + g + c, g);
    HasAtSplit(s, p, n + b + z + f + l + g, c);
    HasAtSplit(s, p, n + b + z + f + l, g);
    HasAtSplit(s, p, n + b + z + f, l);
    HasAtSplit(s, p, n + b + z, f);
    HasAtSplit(s, p, n + b, z);
    HasAtSplit(s, p, n, b);
    Pow256Values();
    FieldOf(s, p, h.inodes, 4);
    FieldOf(s, p + 0x04, h.blocks, 4);
    FieldOf(s, p + 0x14, 1, 4);
    FieldOf(s, p + 0x18, 0, 4);
    FieldOf(s, p + 0x20, h.blocksPerGroup, 4);
    FieldOf(s, p + 0x28, h.inodesPerGroup, 4);
  }

  lemma FlagValues()
    ensures Bitmap.And(0x42, INCOMPAT_RECOVER) == 0 && Bitmap.AndNot(0x42, INCOMPAT_ALLOWED) == 0
    ensures Bitmap.And(0x42, INCOMPAT_64BIT) == 0 && Bitmap.And(0x42, INCOMPAT_FILETYPE) != 0
    ensures Bitmap.And(1, 1) == 1 && Bitmap.And(128, 127) == 0
    ensures Bitmap.AndNot(0, INCOMPAT_ALLOWED) == 0 && forall k: nat :: Bitmap.And(0, k) == 0
  {
  }
}
