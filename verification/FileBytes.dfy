/** What the hypotheses of src/stages/stage_fsmap.c mean, byte by byte. */
module FileBytes {
  import opened Bytes
  import opened Extents
  import opened ExtWalk
  import opened Partial
  import opened Fsmap

  /** Byte `o` of the file is byte `a` of the image: one of the file's blocks holds it. */
  ghost predicate ByteOf(list: seq<Extent>, fsBs: nat, o: int, a: int)
  {
    exists k, r :: InBlock(list, fsBs, o, a, k, r)
  }

  /** Mapping `k` holds it, at position `r` of the block. */
  ghost predicate InBlock(list: seq<Extent>, fsBs: nat, o: int, a: int, k: int, r: int)
  {
    && 0 <= k < |Flatten(list)| && 0 <= r < fsBs
    && o == Flatten(list)[k].logical * fsBs + r && a == Flatten(list)[k].physical * fsBs + r
  }

  /** Inside an extent, file and image run in parallel. */
  lemma ExtentByte(list: seq<Extent>, e: nat, fsBs: nat, off: nat)
    requires e < |list| && fsBs >= 1 && off < list[e].count * fsBs
    ensures ByteOf(list, fsBs, list[e].logical * fsBs + off, list[e].physical * fsBs + off)
  {
    hide Flatten;
    var x, b, r := list[e], off / fsBs, off % fsBs;
    assert off == b * fsBs + r;
    if b >= x.count { MulLe(x.count, b, fsBs); }
    var k := FlattenHas(list, e, b);
    MulAdd(x.logical, b, fsBs);
    MulAdd(x.physical, b, fsBs);
    assert InBlock(list, fsBs, x.logical * fsBs + off, x.physical * fsBs + off, k, r);
  }

  /** Every byte of the hypothesis' block and the byte expected for it in the source are the same byte of
      files of the same path. */
  lemma SameByte(c: Ctx, f: FileEntry, x: Extent, g: FileEntry, y: Extent, h: Hypothesis, k: nat) returns (o: int)
    requires c.destBs >= 1 && c.srcBs >= 1 && k < c.bs && SameFileSameOffset(c, f, x, g, y, h)
    ensures f.path == g.path
    ensures ByteOf(f.extents, c.destBs, o, h.destBlock * c.bs + k) && ByteOf(g.extents, c.srcBs, o, h.srcPos + k)
  {
    hide ByteOf;
    var e :| 0 <= e < |f.extents| && f.extents[e] == x;
    var d :| 0 <= d < |g.extents| && g.extents[d] == y;
    o := FileOffset(c, x, h.destBlock) + k;
    ExtentByte(f.extents, e, c.destBs, h.destBlock * c.bs + k - x.physical * c.destBs);
    ExtentByte(g.extents, d, c.srcBs, o - y.logical * c.srcBs);
  }
}
