/** The operation stream of a BKDF patch, byte for byte: what
    src/encoding/operation_encoder.c writes for one operation and how src/patch.c
    reads it back. Bit fields that the code ORs together are disjoint and are
    written here as sums. */
module Ops {
  import opened Bytes

  datatype Op =
    | Identity(count: nat)
    | Relocate(count: nat, offset: int)                              // offset in blocks
    | Zero(count: nat)
    | One(count: nat)
    | CopyAdd(count: nat, byteOffset: int, sparse: bool, diffLen: nat)
    | Literal(count: nat)

  // ----- writer

  /** The widest count field holds `(uint32_t)count`. */
  function WireCount(count: nat): (c: nat)
  {
    if count <= 65536 then count else count % TWO32
  }

  /** Selector of the counted (not inline) forms: 1, 2 or 4 bytes. */
  function CountEnc(count: nat): (e: nat)
    ensures e <= 2
  {
    if count <= 256 then 0 else if count <= 65536 then 1 else 2
  }

  function CountField(count: nat): (r: seq<byte>)
    requires count >= 1
  {
    if count <= 256 then LE(count - 1, 1)
    else if count <= 65536 then LE(count - 1, 2)
    else LE(count % TWO32, 4)
  }

  /** `encode_count`. */
  function CountBytes(kind: nat, count: nat): (r: seq<byte>)
    requires kind < 8 && count >= 1
  {
    if count <= 8 then [kind * 32 + 24 + (count - 1)]
    else [kind * 32 + CountEnc(count) * 8] + CountField(count)
  }

  function Abs(x: int): (a: nat)
  {
    if x < 0 then -x else x
  }

  /** Magnitude of a relocation in 1, 2 or 4 bytes. */
  function BlockOffsetEnc(offset: int): (e: nat)
    ensures e <= 2
  {
    if Abs(offset) <= 0xFF then 0 else if Abs(offset) <= 0xFFFF then 1 else 2
  }

  /** Two's complement byte offset in 2, 3 or 4 bytes. */
  function ByteOffsetEnc(offset: int): (e: nat)
    ensures e <= 2
  {
    if Abs(offset) <= 0x7FFF then 0 else if Abs(offset) <= 0x7F_FFFF then 1 else 2
  }

  function BlockOffsetWidth(enc: nat): (w: nat)
  {
    if enc == 0 then 1 else if enc == 1 then 2 else 4
  }

  /** `v` modulo 2^(8w), for `v` of a w-byte signed range. */
  function Unsigned(v: int, w: nat): (u: nat)
    requires 0 <= v + Pow256(w)
  {
    if v < 0 then v + Pow256(w) else v
  }

  /** An operation that the format can represent. */
  predicate Encodable(op: Op)
  {
    && op.count >= 1
    && (op.Relocate? ==> Abs(op.offset) <= UINT32_MAX)
    && (op.CopyAdd? ==> -0x8000_0000 <= op.byteOffset <= 0x7FFF_FFFF && op.diffLen <= UINT32_MAX)
  }

  lemma UnsignedRange(offset: int)
    requires -0x8000_0000 <= offset <= 0x7FFF_FFFF
    ensures var w := ByteOffsetEnc(offset) + 2;
      0 <= offset + Pow256(w) && Unsigned(offset, w) < Pow256(w)
      && 2 * Abs(offset) <= Pow256(w) && (offset >= 0 ==> 2 * offset < Pow256(w))
  {
    Pow256Values();
  }

  function OpBytes(op: Op): (r: seq<byte>)
    requires Encodable(op)
  {
    match op
    case Identity(n) => CountBytes(0, n)
    case Zero(n) => CountBytes(2, n)
    case One(n) => CountBytes(3, n)
    case Literal(n) => CountBytes(5, n)
    case Relocate(n, offset) =>
      var enc := BlockOffsetEnc(offset);
      [32 + CountEnc(n) * 8 + enc * 2 + (if offset < 0 then 1 else 0)]
      + CountField(n) + LE(Abs(offset), BlockOffsetWidth(enc))
    case CopyAdd(n, offset, sparse, diffLen) =>
      var enc := ByteOffsetEnc(offset);
      UnsignedRange(offset);
      [128 + CountEnc(n) * 8 + enc * 2 + (if sparse then 1 else 0)]
      + LE(Unsigned(offset, enc + 2), enc + 2) + CountField(n) + LE(diffLen, 4)
  }

  // ----- reader

  datatype Num = Num(value: int, next: nat)
  datatype Parsed = Parsed(op: Op, next: nat)

  /** An unsigned little-endian field of `w` bytes, plus `bias`. */
  function ReadField(s: seq<byte>, p: nat, w: nat, bias: nat): (r: Result<Num>)
    requires p <= |s|
    ensures r.Ok? ==> r.value.next == p + w <= |s| && r.value.value >= 0
  {
    if p + w > |s| then Err(Truncated) else Ok(Num(Field(s, p, w) + bias, p + w))
  }

  /** `read_count`: the count of the operation whose first byte is `first`. */
  function ReadCount(s: seq<byte>, p: nat, first: byte): (r: Result<Num>)
    requires p <= |s|
    ensures r.Ok? ==> p <= r.value.next <= |s| && r.value.value >= 0
  {
    match first / 8 % 4
    case 0 => ReadField(s, p, 1, 1)
    case 1 => ReadField(s, p, 2, 1)
    case 2 => ReadField(s, p, 4, 0)
    case _ => Ok(Num(first % 8 + 1, p))
  }

  /** Selector 3 is not written by the encoder; the decoder reads nothing and uses 0. */
  function ReadBlockOffset(s: seq<byte>, p: nat, enc: nat): (r: Result<Num>)
    requires p <= |s|
    ensures r.Ok? ==> p <= r.value.next <= |s|
  {
    if enc <= 2 then ReadField(s, p, BlockOffsetWidth(enc), 0) else Ok(Num(0, p))
  }

  function Signed(raw: nat, w: nat): (v: int)
  {
    if 2 * raw >= Pow256(w) then raw - Pow256(w) else raw
  }

  function ReadByteOffset(s: seq<byte>, p: nat, enc: nat): (r: Result<Num>)
    requires p <= |s|
    ensures r.Ok? ==> p <= r.value.next <= |s|
  {
    if enc > 2 then Ok(Num(0, p))
    else
      var raw :- ReadField(s, p, enc + 2, 0);
      Ok(Num(Signed(raw.value, enc + 2), raw.next))
  }

  /** Decodes the operation at `p`, with `remaining` destination blocks still to produce.
      Checks come in the order in which the decoder makes them. */
  function ParseOp(s: seq<byte>, p: nat, remaining: nat): (r: Result<Parsed>)
    requires p < |s|
    ensures r.Ok? ==> p < r.value.next <= |s| && r.value.op.count <= remaining
  {
    var first := s[p];
    if first / 32 == 4 then ParseCopyAdd(s, p, remaining)
    else
      var count :- ReadCount(s, p + 1, first);
      if count.value > remaining then Err(CorruptData)
      else
        match first / 32
        case 0 => Ok(Parsed(Identity(count.value), count.next))
        case 1 =>
          var offset :- ReadBlockOffset(s, count.next, first / 2 % 4);
          Ok(Parsed(Relocate(count.value, if first % 2 == 1 then -offset.value else offset.value), offset.next))
        case 2 => Ok(Parsed(Zero(count.value), count.next))
        case 3 => Ok(Parsed(One(count.value), count.next))
        case 5 => Ok(Parsed(Literal(count.value), count.next))
        case _ => Err(BadOperation)
  }

  function ParseCopyAdd(s: seq<byte>, p: nat, remaining: nat): (r: Result<Parsed>)
    requires p < |s|
    ensures r.Ok? ==> p < r.value.next <= |s| && r.value.op.count <= remaining && r.value.op.CopyAdd?
  {
    var first := s[p];
    if first / 8 % 4 == 3 then Err(CorruptData)
    else
      var offset :- ReadByteOffset(s, p + 1, first / 2 % 4);
      var count :- ReadCount(s, offset.next, first);
      if count.value > remaining then Err(CorruptData)
      else
        var diffLen :- ReadField(s, count.next, 4, 0);
        Ok(Parsed(CopyAdd(count.value, offset.value, first % 2 == 1, diffLen.value), diffLen.next))
  }

  // ----- round trip

  /** `op` with the count that its count field can carry. */
  function OnWire(op: Op): (r: Op)
  {
    var n := WireCount(op.count);
    match op
    case Identity(_) => Identity(n)
    case Zero(_) => Zero(n)
    case One(_) => One(n)
    case Literal(_) => Literal(n)
    case Relocate(_, offset) => Relocate(n, offset)
    case CopyAdd(_, offset, sparse, diffLen) => CopyAdd(n, offset, sparse, diffLen)
  }

  lemma FieldRoundTrip(s: seq<byte>, p: nat, v: nat, w: nat, bias: nat)
    requires v < Pow256(w) && HasAt(s, p, LE(v, w)) && p <= |s|
    ensures ReadField(s, p, w, bias) == Ok(Num(v + bias, p + w))
  {
    FieldOf(s, p, v, w);
  }

  lemma CountRoundTrip(s: seq<byte>, p: nat, count: nat, first: byte)
    requires count >= 1 && p <= |s| && HasAt(s, p, CountField(count)) && first / 8 % 4 == CountEnc(count)
    ensures ReadCount(s, p, first) == Ok(Num(WireCount(count), p + |CountField(count)|))
  {
    Pow256Values();
    if count <= 256 {
      FieldRoundTrip(s, p, count - 1, 1, 1);
    } else if count <= 65536 {
      FieldRoundTrip(s, p, count - 1, 2, 1);
    } else {
      FieldRoundTrip(s, p, count % TWO32, 4, 0);
    }
  }

  lemma CountBytesRoundTrip(s: seq<byte>, p: nat, kind: nat, count: nat)
    requires kind < 8 && count >= 1 && HasAt(s, p, CountBytes(kind, count))
    ensures p < |s| && s[p] / 32 == kind
    ensures ReadCount(s, p + 1, s[p]) == Ok(Num(WireCount(count), p + |CountBytes(kind, count)|))
  {
    hide HasAt, LE, Field, Pow256;
    HasAtByte(s, p, CountBytes(kind, count), 0);
    if count > 8 {
      HasAtSplit(s, p, [kind * 32 + CountEnc(count) * 8], CountField(count));
      CountRoundTrip(s, p + 1, count, s[p]);
    }
  }

  lemma RelocateRoundTrip(s: seq<byte>, p: nat, op: Op, remaining: nat)
    requires op.Relocate? && Encodable(op) && HasAt(s, p, OpBytes(op)) && WireCount(op.count) <= remaining
    ensures p < |s|
    ensures ParseOp(s, p, remaining) == Ok(Parsed(OnWire(op), p + |OpBytes(op)|))
  {
    hide HasAt, LE, Field, Pow256, ReadCount, ReadField, CountField, CountEnc, WireCount;
    var enc := BlockOffsetEnc(op.offset);
    var first := 32 + CountEnc(op.count) * 8 + enc * 2 + (if op.offset < 0 then 1 else 0);
    var field := LE(Abs(op.offset), BlockOffsetWidth(enc));
    HasAtSplit(s, p, [first] + CountField(op.count), field);
    HasAtSplit(s, p, [first], CountField(op.count));
    HasAtByte(s, p, [first], 0);
    assert first / 32 == 1 && first / 8 % 4 == CountEnc(op.count) && first / 2 % 4 == enc;
    CountRoundTrip(s, p + 1, op.count, first);
    Pow256Values();
    FieldRoundTrip(s, p + 1 + |CountField(op.count)|, Abs(op.offset), BlockOffsetWidth(enc), 0);
  }

  lemma ByteOffsetRoundTrip(s: seq<byte>, p: nat, offset: int)
    requires -0x8000_0000 <= offset <= 0x7FFF_FFFF && p <= |s|
    requires (UnsignedRange(offset); var w := ByteOffsetEnc(offset) + 2; HasAt(s, p, LE(Unsigned(offset, w), w)))
    ensures ReadByteOffset(s, p, ByteOffsetEnc(offset)) == Ok(Num(offset, p + ByteOffsetEnc(offset) + 2))
  {
    UnsignedRange(offset);
    var w := ByteOffsetEnc(offset) + 2;
    FieldRoundTrip(s, p, Unsigned(offset, w), w, 0);
  }

  lemma ParseCopyAddOk(s: seq<byte>, p: nat, remaining: nat, offset: Num, count: Num, diffLen: Num)
    requires p < |s| && s[p] / 32 == 4 && s[p] / 8 % 4 != 3
    requires ReadByteOffset(s, p + 1, s[p] / 2 % 4) == Ok(offset)
    requires ReadCount(s, offset.next, s[p]) == Ok(count) && count.value <= remaining
    requires ReadField(s, count.next, 4, 0) == Ok(diffLen)
    ensures ParseOp(s, p, remaining)
      == Ok(Parsed(CopyAdd(count.value, offset.value, s[p] % 2 == 1, diffLen.value), diffLen.next))
  {
    hide ReadByteOffset, ReadCount, ReadField;
  }

  lemma CopyAddRoundTrip(s: seq<byte>, p: nat, op: Op, remaining: nat)
    requires op.CopyAdd? && Encodable(op) && HasAt(s, p, OpBytes(op)) && WireCount(op.count) <= remaining
    ensures p < |s|
    ensures ParseOp(s, p, remaining) == Ok(Parsed(OnWire(op), p + |OpBytes(op)|))
  {
    hide HasAt, LE, Field, Pow256, ReadCount, ReadField, ReadByteOffset, ParseOp, CountField, WireCount, Unsigned;
    var enc, n := ByteOffsetEnc(op.byteOffset), op.count;
    var first := 128 + CountEnc(n) * 8 + enc * 2 + (if op.sparse then 1 else 0);
    UnsignedRange(op.byteOffset);
    var offset := LE(Unsigned(op.byteOffset, enc + 2), enc + 2);
    HasAtSplit(s, p, [first] + offset + CountField(n), LE(op.diffLen, 4));
    HasAtSplit(s, p, [first] + offset, CountField(n));
    HasAtSplit(s, p, [first], offset);
    HasAtByte(s, p, [first], 0);
    var p1 := p + 1 + (enc + 2);
    var p2 := p1 + |CountField(n)|;
    ByteOffsetRoundTrip(s, p + 1, op.byteOffset);
    CountRoundTrip(s, p1, n, first);
    Pow256Values();
    FieldRoundTrip(s, p2, op.diffLen, 4, 0);
    ParseCopyAddOk(s, p, remaining, Num(op.byteOffset, p1), Num(WireCount(n), p2), Num(op.diffLen, p2 + 4));
  }

  /** Every representable operation reads back as itself, whatever surrounds it, except that
      a count of 2^32 or more comes back modulo 2^32. */
  lemma RoundTrip(s: seq<byte>, p: nat, op: Op, remaining: nat)
    requires Encodable(op) && HasAt(s, p, OpBytes(op)) && WireCount(op.count) <= remaining
    ensures p < |s|
    ensures ParseOp(s, p, remaining) == Ok(Parsed(OnWire(op), p + |OpBytes(op)|))
  {
    match op
    case Identity(n) => CountBytesRoundTrip(s, p, 0, n);
    case Zero(n) => CountBytesRoundTrip(s, p, 2, n);
    case One(n) => CountBytesRoundTrip(s, p, 3, n);
    case Literal(n) => CountBytesRoundTrip(s, p, 5, n);
    case Relocate(_, _) => RelocateRoundTrip(s, p, op, remaining);
    case CopyAdd(_, _, _, _) => CopyAddRoundTrip(s, p, op, remaining);
  }

  /** No operation takes more than 13 bytes. */
  lemma OpSize(op: Op)
    requires Encodable(op)
    ensures 1 <= |OpBytes(op)| <= 13
  {
  }

  /** The writer uses the narrowest fields that its rules allow. */
  lemma OpLength(op: Op)
    requires Encodable(op)
    ensures var n := op.count;
      var c := if n <= 256 then 1 else if n <= 65536 then 2 else 4;
      match op
      case Relocate(_, d) =>
        |OpBytes(op)| == 1 + c + (if -0xFF <= d <= 0xFF then 1 else if -0xFFFF <= d <= 0xFFFF then 2 else 4)
      case CopyAdd(_, d, _, _) =>
        |OpBytes(op)| == 5 + c + (if -0x7FFF <= d <= 0x7FFF then 2 else if -0x7F_FFFF <= d <= 0x7F_FFFF then 3 else 4)
      case _ => |OpBytes(op)| == if n <= 8 then 1 else 1 + c
  {
    hide LE;
  }

  // ----- forms that are never written

  /** The count selector; 3 is the inline form, whose count shares its bits with the offset selector and the
      sign or format bit. */
  function CountSelector(first: byte): (e: nat)
    ensures e < 4
  {
    first / 8 % 4
  }

  /** The writer never uses the inline count for a relocation or a COPY_ADD. */
  lemma InlineUnwritten(op: Op)
    requires Encodable(op) && (op.Relocate? || op.CopyAdd?)
    ensures OpBytes(op) != [] && CountSelector(OpBytes(op)[0]) != 3
  {
    hide LE, CountField;
  }

  /** The reader rejects it for COPY_ADD but takes it for a relocation, where bits 2 to 0 are the count, and bits
      2 to 1 the offset selector, and bit 0 the sign as well: accepted exactly when the count fits and
      the offset field is there. */
  lemma InlineRead(s: seq<byte>, p: nat, remaining: nat)
    requires p < |s| && CountSelector(s[p]) == 3
    ensures s[p] / 32 == 4 ==> ParseOp(s, p, remaining) == Err(CorruptData)
    ensures s[p] / 32 == 1 ==>
      var n, e := s[p] % 8 + 1, Selector(s[p]);
      var w := if e == 3 then 0 else BlockOffsetWidth(e);
      if n <= remaining && p + 1 + w <= |s| then
        var d := if e == 3 then 0 else Field(s, p + 1, w);
        ParseOp(s, p, remaining) == Ok(Parsed(Relocate(n, if s[p] % 2 == 1 then -d else d), p + 1 + w))
      else ParseOp(s, p, remaining).Err?
  {
    hide Field;
  }

  /** The selector of the offset field of a relocation or a COPY_ADD. */
  function Selector(first: byte): (e: nat)
    ensures e < 4
  {
    first / 2 % 4
  }

  /** The writer has no offset field with selector 3. */
  lemma SelectorThreeUnwritten(op: Op)
    requires Encodable(op) && (op.Relocate? || op.CopyAdd?)
    ensures OpBytes(op) != [] && Selector(OpBytes(op)[0]) != 3
  {
    hide LE, CountField;
  }

  /** The reader takes it all the same: the offset is 0 and no byte is read for it. A relocation with it is
      accepted exactly when its count can be read and is not too large. */
  lemma SelectorThreeRead(s: seq<byte>, p: nat, remaining: nat)
    requires p < |s| && Selector(s[p]) == 3
    ensures var count := ReadCount(s, p + 1, s[p]);
      s[p] / 32 == 1 ==>
        if count.Ok? && count.value.value <= remaining
        then ParseOp(s, p, remaining) == Ok(Parsed(Relocate(count.value.value, 0), count.value.next))
        else ParseOp(s, p, remaining).Err?
    ensures s[p] / 32 == 4 && s[p] / 8 % 4 != 3 ==>
      var count := ReadCount(s, p + 1, s[p]);
      if count.Ok? && count.value.value <= remaining && count.value.next + 4 <= |s|
      then ParseOp(s, p, remaining) == Ok(Parsed(
        CopyAdd(count.value.value, 0, s[p] % 2 == 1, Field(s, count.value.next, 4)), count.value.next + 4))
      else ParseOp(s, p, remaining).Err?
  {
    hide Field;
  }
}
