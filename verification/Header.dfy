/** The 32-byte BKDF header: src/encoding/bkdf_header.c. */
module Header {
  import opened Bytes

  const HEADER_SIZE := 32
  const VERSION: byte := 1

  /** "BKDF". */
  const MAGIC: seq<byte> := [0x42, 0x4B, 0x44, 0x46]

  datatype Fields = Fields(blockSizeLog2: byte, destBlocks: nat, opLen: nat, diffLen: nat)

  /** The three length fields are `uint64_t`. */
  predicate InRange(h: Fields)
  {
    h.destBlocks < TWO64 && h.opLen < TWO64 && h.diffLen < TWO64
  }

  function HeaderBytes(h: Fields): (r: seq<byte>)
    ensures |r| == HEADER_SIZE
  {
    MAGIC + [VERSION, h.blockSizeLog2, 0, 0]
    + LE(h.destBlocks % TWO64, 8) + LE(h.opLen % TWO64, 8) + LE(h.diffLen % TWO64, 8)
  }

  lemma LEStep(done: seq<byte>, v: nat, n: nat)
    ensures n > 0 ==> done + LE(v, n) == (done + [v % 256]) + LE(v / 256, n - 1)
    ensures LE(v, 0) == []
  {
    if n > 0 {
      assert done + ([v % 256] + LE(v / 256, n - 1)) == (done + [v % 256]) + LE(v / 256, n - 1);
    }
  }

  method WriteU64LE(buf: array<byte>, p: nat, v: nat)
    requires p + 8 <= buf.Length
    modifies buf
    ensures buf[..p] == old(buf[..p]) && buf[p..p + 8] == LE(v, 8) && buf[p + 8..] == old(buf[p + 8..])
  {
    hide LE;
    var rest := v;
    assert buf[p..p] + LE(v, 8) == LE(v, 8);
    for k := 0 to 8
      invariant 0 <= rest
      invariant buf[p..p + k] + LE(rest, 8 - k) == LE(v, 8)
      invariant buf[..p] == old(buf[..p]) && buf[p + 8..] == old(buf[p + 8..])
    {
      ghost var was := buf[p..p + k];
      LEStep(was, rest, 8 - k);
      buf[p + k] := rest % 256;
      rest := rest / 256;
      assert buf[p..p + k + 1] == was + [buf[p + k]];
    }
    LEStep([], rest, 0);
    assert buf[p..p + 8] + [] == buf[p..p + 8];
  }

  /** `fsd_header_write`: fills the buffer field by field. */
  method WriteHeader(h: Fields) returns (bytes: seq<byte>)
    ensures bytes == HeaderBytes(h)
  {
    hide LE;
    var buf := new byte[32](i => 0);
    buf[0], buf[1], buf[2], buf[3] := 0x42, 0x4B, 0x44, 0x46;
    buf[4] := VERSION;
    buf[5] := h.blockSizeLog2;
    assert buf[..8] == MAGIC + [VERSION, h.blockSizeLog2, 0, 0];
    WriteU64LE(buf, 8, h.destBlocks % TWO64);
    assert buf[..16] == buf[..8] + buf[8..16];
    WriteU64LE(buf, 16, h.opLen % TWO64);
    assert buf[..24] == buf[..16] + buf[16..24];
    WriteU64LE(buf, 24, h.diffLen % TWO64);
    assert buf[..] == buf[..24] + buf[24..32];
    bytes := buf[..];
  }

  /** `fsd_header_read_memory`. */
  function ReadHeader(data: seq<byte>): (r: Result<Fields>)
    ensures r.Ok? ==> |data| >= HEADER_SIZE && InRange(r.value) && 5 <= r.value.blockSizeLog2 <= 24
  {
    if |data| < HEADER_SIZE then Err(InvalidArg)
    else if data[..4] != MAGIC then Err(BadMagic)
    else if data[4] != VERSION then Err(BadVersion)
    else if data[5] < 5 || data[5] > 24 then Err(BadBlockSize)
    else if data[6] != 0 || data[7] != 0 then Err(CorruptData)
    else
      FieldBound(data, 8);
      FieldBound(data, 16);
      FieldBound(data, 24);
      Ok(Fields(data[5], Field(data, 8, 8), Field(data, 16, 8), Field(data, 24, 8)))
  }

  lemma FieldBound(s: seq<byte>, p: nat)
    requires p + 8 <= |s|
    ensures Field(s, p, 8) < TWO64
  {
    Pow256Values();
    FromLEBound(s[p..p + 8]);
  }

  /** A header whose fields fit reads back as itself exactly when its block size is one the
      format allows, whatever follows it. */
  lemma RoundTrip(h: Fields, rest: seq<byte>)
    requires InRange(h)
    ensures 5 <= h.blockSizeLog2 <= 24 ==> ReadHeader(HeaderBytes(h) + rest) == Ok(h)
    ensures !(5 <= h.blockSizeLog2 <= 24) ==> ReadHeader(HeaderBytes(h) + rest) == Err(BadBlockSize)
  {
    hide LE, HasAt, Field, Pow256;
    var data := HeaderBytes(h) + rest;
    var a, b, c := LE(h.destBlocks, 8), LE(h.opLen, 8), LE(h.diffLen, 8);
    var head := MAGIC + [VERSION, h.blockSizeLog2, 0, 0];
    HasAtSlice(data, 0, HeaderBytes(h));
    HasAtSplit(data, 0, head + a + b, c);
    HasAtSplit(data, 0, head + a, b);
    HasAtSplit(data, 0, head, a);
    assert data[..4] == MAGIC;
    Pow256Values();
    FieldOf(data, 8, h.destBlocks, 8);
    FieldOf(data, 16, h.opLen, 8);
    FieldOf(data, 24, h.diffLen, 8);
  }

  /** What is a header: four magic bytes, version 1, a block size of 2^5 to 2^24 and two zero bytes. The first
      thing that is wrong decides the error. */
  lemma ReadExact(data: seq<byte>)
    ensures ReadHeader(data).Ok? <==>
      && |data| >= 32 && data[0] == 0x42 && data[1] == 0x4B && data[2] == 0x44 && data[3] == 0x46
      && data[4] == 1 && 5 <= data[5] <= 24 && data[6] == 0 && data[7] == 0
    ensures |data| < 32 ==> ReadHeader(data) == Err(InvalidArg)
    ensures |data| >= 32 && data[..4] != [0x42, 0x4B, 0x44, 0x46] ==> ReadHeader(data) == Err(BadMagic)
    ensures |data| >= 32 && data[..4] == [0x42, 0x4B, 0x44, 0x46] ==>
      && (data[4] != 1 ==> ReadHeader(data) == Err(BadVersion))
      && (data[4] == 1 && !(5 <= data[5] <= 24) ==> ReadHeader(data) == Err(BadBlockSize))
      && (data[4] == 1 && 5 <= data[5] <= 24 && (data[6] != 0 || data[7] != 0) ==> ReadHeader(data) == Err(CorruptData))
  {
    hide Field;
    if |data| >= 32 {
      assert data[..4] == MAGIC <==> data[0] == 0x42 && data[1] == 0x4B && data[2] == 0x44 && data[3] == 0x46;
    }
  }

  /** Where the fields are: the exponent is byte 5, and the three numbers stand at 8, 16 and 24. */
  lemma ReadValues(data: seq<byte>, h: Fields)
    requires ReadHeader(data).Ok? && InRange(h) && h.blockSizeLog2 == data[5]
    requires HasAt(data, 8, LE(h.destBlocks, 8)) && HasAt(data, 16, LE(h.opLen, 8)) && HasAt(data, 24, LE(h.diffLen, 8))
    ensures ReadHeader(data) == Ok(h)
  {
    hide LE, HasAt, Field, Pow256;
    Pow256Values();
    FieldOf(data, 8, h.destBlocks, 8);
    FieldOf(data, 16, h.opLen, 8);
    FieldOf(data, 24, h.diffLen, 8);
  }
}
