/** The direct backend of src/io/source_reader.c: an aligned scratch buffer that caches a window of
    the file. The file is a byte sequence; `pread` may return any short count at any time. */
module SourceReader {
  import opened Bytes
  import opened Bitmap

  // ----- alignment, with the source's mask arithmetic

  /** `v & ~(align - 1)`, for `align == 1 << k`. */
  function AlignDown(v: nat, k: nat): (r: nat)
  {
    AndNot(v, Shl(1, k) - 1)
  }

  /** `round_up_pow2`. */
  function AlignUp(v: nat, k: nat): (r: nat)
  {
    AndNot(v + Shl(1, k) - 1, Shl(1, k) - 1)
  }

  /** The low `k` bits are zero. */
  ghost predicate Aligned(x: nat, k: nat)
    decreases k
  {
    k == 0 || (x % 2 == 0 && Aligned(x / 2, k - 1))
  }

  lemma {:induction false} ZeroAligned(k: nat)
    ensures Aligned(0, k)
  {
    if k > 0 {
      ZeroAligned(k - 1);
    }
  }

  lemma {:induction false} AndNotZero(v: nat)
    ensures AndNot(v, 0) == v
  {
    if v > 0 {
      AndNotZero(v / 2);
    }
  }

  /** Masking rounds down to the next multiple. */
  lemma {:induction false} MaskRoundsDown(v: nat, k: nat)
    ensures Aligned(AlignDown(v, k), k) && AlignDown(v, k) <= v < AlignDown(v, k) + Shl(1, k)
    decreases k
  {
    if k == 0 {
      AndNotZero(v);
    } else if v == 0 {
      ZeroAligned(k);
    } else {
      hide AlignDown, Shl;
      MaskRoundsDown(v / 2, k - 1);
      AlignHalf(v, k);
    }
  }

  lemma AlignHalf(v: nat, k: nat)
    requires v > 0 && k > 0
    ensures AlignDown(v, k) == 2 * AlignDown(v / 2, k - 1) && Shl(1, k) == 2 * Shl(1, k - 1)
  {
    var m := Shl(1, k - 1);
    assert (2 * m - 1) / 2 == m - 1 && (2 * m - 1) % 2 == 1;
  }

  lemma RoundsUp(v: nat, k: nat)
    ensures Aligned(AlignUp(v, k), k) && v <= AlignUp(v, k) < v + Shl(1, k)
  {
    MaskRoundsDown(v + Shl(1, k) - 1, k);
  }

  lemma {:induction false} AlignedDifference(a: nat, b: nat, k: nat)
    requires b <= a && Aligned(a, k) && Aligned(b, k)
    ensures Aligned(a - b, k)
    decreases k
  {
    if k > 0 {
      AlignedDifference(a / 2, b / 2, k - 1);
      assert (a - b) / 2 == a / 2 - b / 2;
    }
  }

  // ----- the file

  /** Byte `i` of the file followed by zeros for ever. */
  function Padded(file: seq<byte>, i: nat): (b: byte)
  {
    if i < |file| then file[i] else 0
  }

  ghost predicate Window(file: seq<byte>, off: nat, s: seq<byte>)
  {
    forall i :: 0 <= i < |s| ==> s[i] == Padded(file, off + i)
  }

  /** One `pread` of up to `want` bytes at file offset `off`: an error, or any number of bytes that the
      file can provide, zero included. */
  method Pread(file: seq<byte>, buf: array<byte>, at: nat, want: nat, off: nat) returns (n: int)
    requires at + want <= buf.Length
    modifies buf
    ensures -1 <= n <= want && (n > 0 ==> off + n <= |file|)
    ensures forall i :: at <= i < at + n ==> buf[i] == Padded(file, off + (i - at))
    ensures forall i :: 0 <= i < buf.Length && !(at <= i < at + n) ==> buf[i] == old(buf[i])
  {
    n := *;
    var room := if off >= |file| then 0 else |file| - off;
    if n < -1 { n := -1; }
    if n > want { n := want; }
    if n > room { n := room; }
    if n < 0 { return; }
    for k := 0 to n
      invariant forall i :: at <= i < at + k ==> buf[i] == Padded(file, off + (i - at))
      invariant forall i :: 0 <= i < buf.Length && !(at <= i < at + k) ==> buf[i] == old(buf[i])
    {
      buf[at + k] := file[off + k];
    }
  }

  /** `pread_full`: exactly `len` bytes, with zeros past the end of the file. A read interrupted by a
      signal is tried again. Interruptions come at any time and any finite number of times: at most
      `interrupts` in this call, so once they are used up a failing read is a real error. */
  method PreadFull(file: seq<byte>, buf: array<byte>, len: nat, offset: nat, interrupts: nat)
    returns (err: Option<Error>)
    requires len <= buf.Length
    modifies buf
    ensures err.None? ==> Window(file, offset, buf[..len])
    ensures err.Some? ==> err.value == IoError
  {
    var total, budget := 0, interrupts;
    while total < len
      invariant 0 <= total <= len && Window(file, offset, buf[..total])
      decreases len - total, budget
    {
      ghost var done := buf[..total];
      var n := Pread(file, buf, total, len - total, offset + total);
      if n < 0 {
        var eintr: bool := *;
        if eintr && budget > 0 {
          budget := budget - 1;
          assert buf[..total] == done;
          continue;
        }
        return Some(IoError);
      }
      if n == 0 {
        if offset + total < |file| { return Some(IoError); }
        forall i | total <= i < len { buf[i] := 0; }
        assert buf[..len][..total] == done;
        NextBytes(file, offset, total, buf[..len]);
        return None;
      }
      assert buf[..total] == done && buf[..total + n][..total] == done;
      NextBytes(file, offset, total, buf[..total + n]);
      total := total + n;
    }
    return None;
  }

  lemma NextBytes(file: seq<byte>, offset: nat, total: nat, s: seq<byte>)
    requires total <= |s| && Window(file, offset, s[..total])
    requires forall i :: total <= i < |s| ==> s[i] == Padded(file, offset + total + (i - total))
    ensures Window(file, offset, s)
  {
    forall i | 0 <= i < |s| ensures s[i] == Padded(file, offset + i) {
      if i < total {
        assert s[..total][i] == s[i];
      } else {
        assert offset + total + (i - total) == offset + i;
      }
    }
  }

  lemma Joined(d: seq<byte>, f: seq<byte>, o: nat, a: nat, n: nat)
    requires a + n <= |d| && o + a + n <= |f| && d[..a] == f[o..o + a]
    requires d[a..a + n] == f[o + a..o + a + n]
    ensures d[..a + n] == f[o..o + (a + n)]
  {
    assert d[..a + n] == d[..a] + d[a..a + n];
    assert f[o..o + (a + n)] == f[o..o + a] + f[o + a..o + a + n];
  }

  lemma SameSlice(d: seq<byte>, o: nat, n: nat, f: seq<byte>, p: nat)
    requires o + n <= |d| && p + n <= |f| && forall i :: o <= i < o + n ==> d[i] == f[p + (i - o)]
    ensures d[o..o + n] == f[p..p + n]
  {
  }

  const SCRATCH_SIZE := 1024 * 1024

  class DirectReader {
    const file: seq<byte>
    const log: nat                     // the alignment is 1 << log
    const scratch: array<byte>
    var scratchOff: nat
    var scratchValid: nat

    /** The scratch buffer holds what it claims: an aligned window of the zero-padded file. */
    ghost predicate Valid()
      reads this, scratch
    {
      && scratch.Length >= Shl(1, log) && Aligned(scratch.Length, log)
      && scratchValid <= scratch.Length && Aligned(scratchOff, log) && Aligned(scratchValid, log)
      && Window(file, scratchOff, scratch[..scratchValid])
    }

    constructor (file: seq<byte>, log: nat)
      ensures Valid() && this.file == file && this.log == log && scratchValid == 0 && fresh(scratch)
    {
      this.file, this.log := file, log;
      var size := if SCRATCH_SIZE < Shl(1, log) then Shl(1, log) else SCRATCH_SIZE;
      RoundsUp(size, log);
      ZeroAligned(log);
      scratch := new byte[AlignUp(size, log)];
      scratchOff, scratchValid := 0, 0;
    }

    /** The request starts inside the cached window. */
    predicate Hit(offset: nat)
      reads this
    {
      scratchValid > 0 && scratchOff <= offset < scratchOff + scratchValid
    }

    /** Loads the aligned window that contains `offset`. The read is aligned in both offset and length.
        The cache is empty when the read fails, and has the byte at `offset` when it succeeds. */
    method Refill(offset: nat, interrupts: nat) returns (err: Option<Error>)
      requires Valid() && offset < |file|
      modifies this, scratch
      ensures Valid()
      ensures err.None? ==> Hit(offset)
      ensures err.Some? ==> err.value == IoError && scratchValid == 0
    {
      hide Aligned, Shl, AlignDown, AlignUp;
      MaskRoundsDown(offset, log);
      RoundsUp(|file|, log);
      ZeroAligned(log);
      var alignedOff, maxAligned := AlignDown(offset, log), AlignUp(|file|, log);
      var chunk := scratch.Length;
      if alignedOff + chunk > maxAligned {
        chunk := maxAligned - alignedOff;
        AlignedDifference(maxAligned, alignedOff, log);
      }
      scratchValid := 0;
      err := PreadFull(file, scratch, chunk, alignedOff, interrupts);
      if err.Some? { return; }
      scratchOff, scratchValid := alignedOff, chunk;
    }

    /** `direct_read_at`. A successful read returns exactly the file's bytes, whatever was read before
        and however short the reads of the system were; it fails with `Truncated` exactly when the
        range is not in the file. Every miss is followed by a hit, which makes progress. */
    method ReadAt(offset0: nat, len0: nat, dst: array<byte>, interrupts: nat) returns (err: Option<Error>)
      requires Valid() && len0 <= dst.Length && dst != scratch
      modifies this, scratch, dst
      ensures Valid()
      ensures err == Some(Truncated) <==> len0 > 0 && offset0 + len0 > |file|
      ensures err.None? && len0 > 0 ==> dst[..len0] == file[offset0..offset0 + len0]
      ensures err.Some? && err != Some(Truncated) ==> err == Some(IoError) && scratchValid == 0
    {
      hide Aligned, Shl, Window;
      if len0 == 0 { return None; }
      if offset0 > |file| || len0 > |file| - offset0 { return Some(Truncated); }
      var out: nat := 0;
      while out < len0
        invariant Valid() && out <= len0
        invariant dst[..out] == file[offset0..offset0 + out]
        decreases len0 - out, if Hit(offset0 + out) then 0 else 1
      {
        var offset := offset0 + out;
        if Hit(offset) {
          var at := offset - scratchOff;
          var available := scratchValid - at;
          var copy := if len0 - out < available then len0 - out else available;
          CopyOut(at, copy, dst, out);
          Joined(dst[..], file, offset0, out, copy);
          out := out + copy;
        } else {
          err := Refill(offset, interrupts);
          if err.Some? { return; }
        }
      }
      return None;
    }

    /** The `memcpy` out of the cache. */
    method CopyOut(at: nat, n: nat, dst: array<byte>, out: nat)
      requires Valid() && at + n <= scratchValid && out + n <= dst.Length && dst != scratch
      requires scratchOff + at + n <= |file|
      modifies dst
      ensures Valid()
      ensures dst[out..out + n] == file[scratchOff + at..scratchOff + at + n]
      ensures dst[..out] == old(dst[..out])
    {
      hide Aligned, Shl;
      ghost var was := dst[..out];
      forall i | out <= i < out + n { dst[i] := scratch[at + (i - out)]; }
      forall i | out <= i < out + n ensures dst[i] == file[scratchOff + at + (i - out)] {
        assert scratch[..scratchValid][at + (i - out)] == Padded(file, scratchOff + (at + (i - out)));
      }
      SameSlice(dst[..], out, n, file, scratchOff + at);
    }

    /** `direct_materialize`: the whole file in one buffer. */
    method Materialize(interrupts: nat, calm: bool) returns (r: Result<seq<byte>>)
      ensures r.Ok? ==> r.value == file
      ensures r.Err? ==> r.error == IoError || (!calm && r.error == OutOfMemory)
      ensures file == [] ==> r == Ok([])
    {
      if file == [] { return Ok([]); }
      var room := Attempt(calm);
      if !room { return Err(OutOfMemory); }
      RoundsUp(|file|, log);
      var buf := new byte[AlignUp(|file|, log)];
      var err := PreadFull(file, buf, buf.Length, 0, interrupts);
      if err.Some? { return Err(err.value); }
      forall i | 0 <= i < |file| ensures buf[i] == file[i] {
        assert buf[..buf.Length][i] == Padded(file, 0 + i);
      }
      return Ok(buf[..|file|]);
    }
  }
}
