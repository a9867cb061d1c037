/** The buffered stream writer: src/io/buffered_writer.c. */
module Writer {
  import opened Bytes

  function Flatten(writes: seq<seq<byte>>): (r: seq<byte>)
  {
    if writes == [] then [] else writes[0] + Flatten(writes[1..])
  }

  class BufferedWriter {
    var file: seq<byte>            // what `fwrite` has put in the file
    var buffer: array<byte>
    var pos: nat                   // buffer_pos
    var total: nat                 // total_written
    ghost var base: nat            // size of the file when the writer was created
    const calm: bool               // no write of this run fails

    ghost predicate Valid()
      reads this
    {
      pos <= buffer.Length && buffer.Length >= 1 && |file| == base + total
    }

    /** Everything written so far: flushed bytes followed by buffered bytes. */
    ghost function Contents(): (s: seq<byte>)
      reads this, buffer
      requires Valid()
    {
      file + buffer[..pos]
    }

    constructor (existing: seq<byte>, size: nat, calm: bool)
      ensures Valid() && fresh(buffer) && Contents() == existing && base == |existing|
      ensures pos == 0 && file == existing && this.calm == calm
    {
      this.calm := calm;
      file := existing;
      buffer := new byte[if size == 0 then 65536 else size];
      pos, total, base := 0, 0, |existing|;
    }

    /** `fwrite` may store any prefix of what it is given. */
    method Flush() returns (ok: bool)
      requires Valid()
      modifies this
      ensures buffer == old(buffer) && base == old(base)
      ensures ok ==> Valid() && pos == 0 && Contents() == old(Contents()) && file == Contents()
      ensures !ok ==> pos == old(pos) && total == old(total) && old(file) <= file
      ensures calm ==> ok
    {
      if pos == 0 { return true; }
      var some :| 0 <= some <= pos;
      var written := if calm then pos else some;
      file := file + buffer[..written];
      if written != pos { return false; }
      total := total + pos;
      pos := 0;
      return true;
    }

    method Write(data: seq<byte>) returns (ok: bool)
      requires Valid()
      modifies this, buffer
      ensures buffer == old(buffer) && base == old(base)
      ensures ok ==> Valid() && Contents() == old(Contents()) + data
      ensures calm ==> ok
    {
      var i := 0;
      while i < |data|
        invariant 0 <= i <= |data| && Valid() && buffer == old(buffer) && base == old(base)
        invariant Contents() == old(Contents()) + data[..i]
        decreases |data| - i, pos
      {
        var space := buffer.Length - pos;
        ghost var before := Contents();
        if |data| - i <= space {
          Store(data[i..]);
          assert before + data[i..] == old(Contents()) + data;
          return true;
        }
        Store(data[i..i + space]);
        i := i + space;
        assert data[..i] == data[..i - space] + data[i - space..i];
        assert Contents() == old(Contents()) + data[..i];
        var flushed := Flush();
        if !flushed { return false; }
      }
      assert data[..i] == data;
      return true;
    }

    /** `memcpy` into the free part of the buffer. */
    method Store(part: seq<byte>)
      requires Valid() && pos + |part| <= buffer.Length
      modifies this`pos, buffer
      ensures Valid() && Contents() == old(Contents()) + part && pos == old(pos) + |part|
    {
      forall k | 0 <= k < |part| {
        buffer[pos + k] := part[k];
      }
      pos := pos + |part|;
      assert buffer[..pos] == old(buffer[..pos]) + part;
    }

    method WriteByte(b: byte) returns (ok: bool)
      requires Valid()
      modifies this, buffer
      ensures buffer == old(buffer) && base == old(base)
      ensures ok ==> Valid() && Contents() == old(Contents()) + [b]
      ensures calm ==> ok
    {
      if pos >= buffer.Length {
        var flushed := Flush();
        if !flushed { return false; }
      }
      Store([b]);
      return true;
    }

    /** `fsd_writer_write_u16_le`, `_u32_le` and `_u64_le`. */
    method WriteLE(v: nat, n: nat) returns (ok: bool)
      requires Valid()
      modifies this, buffer
      ensures buffer == old(buffer) && base == old(base)
      ensures ok ==> Valid() && Contents() == old(Contents()) + LE(v, n)
      ensures calm ==> ok
    {
      ok := Write(LE(v, n));
    }

    /** Any sequence of writes, with any buffer size, amounts to their concatenation. */
    method WriteAll(writes: seq<seq<byte>>) returns (ok: bool)
      requires Valid()
      modifies this, buffer
      ensures buffer == old(buffer) && base == old(base)
      ensures ok ==> Valid() && Contents() == old(Contents()) + Flatten(writes)
      ensures calm ==> ok
    {
      assert writes[0..] == writes;
      for i := 0 to |writes|
        invariant Valid() && buffer == old(buffer) && base == old(base)
        invariant Contents() + Flatten(writes[i..]) == old(Contents()) + Flatten(writes)
      {
        assert writes[i..][1..] == writes[i + 1..];
        ghost var before, rest := Contents(), Flatten(writes[i + 1..]);
        ok := Write(writes[i]);
        if !ok { return; }
        assert (before + writes[i]) + rest == before + (writes[i] + rest);
      }
      return true;
    }

    /** `fsd_writer_bytes_written`: exactly the number of bytes written, flushed or not. */
    method BytesWritten() returns (n: nat)
      requires Valid()
      ensures n == |Contents()| - base
    {
      n := total + pos;
    }
  }
}
