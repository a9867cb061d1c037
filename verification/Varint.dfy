/** Base-128 varints: src/encoding/operation_encoder.c (`encode_varint`) and
    src/patch.c (`read_varint`). The encoding is that of unsigned LEB128. */
module Varint {
  import opened Bytes

  lemma ShlHalf(x: nat, n: nat)
    requires n > 0
    ensures Shl(x, n) == 2 * Shl(x, n - 1)
  {
  }

  lemma {:induction false} ShlAdd(a: nat, b: nat, n: nat)
    ensures Shl(a + b, n) == Shl(a, n) + Shl(b, n)
  {
    if n > 0 {
      ShlAdd(a, b, n - 1);
    }
  }

  lemma {:induction false} ShlShl(x: nat, m: nat, n: nat)
    ensures Shl(x, m + n) == Shl(Shl(x, m), n)
  {
    if n > 0 {
      ShlShl(x, m, n - 1);
    }
  }

  lemma {:induction false} ShlMono(a: nat, b: nat, m: nat, n: nat)
    requires a <= b && m <= n
    ensures Shl(a, m) <= Shl(b, n)
    decreases n
  {
    if m < n {
      ShlMono(a, b, m, n - 1);
    } else if n > 0 {
      ShlMono(a, b, m - 1, n - 1);
    }
  }

  lemma Shl7(x: nat)
    ensures Shl(x, 7) == 128 * x
  {
    assert Shl(x, 1) == 2 * Shl(x, 0);
    assert Shl(x, 3) == 2 * Shl(x, 2) == 4 * Shl(x, 1);
    assert Shl(x, 5) == 2 * Shl(x, 4) == 4 * Shl(x, 3);
    assert Shl(x, 7) == 2 * Shl(x, 6) == 4 * Shl(x, 5);
  }

  /** Seven more bits: `x << (n + 7)` is `(128 * x) << n`. */
  lemma ShlStep(x: nat, n: nat)
    ensures Shl(x, n + 7) == Shl(128 * x, n)
  {
    ShlShl(x, 7, n);
    Shl7(x);
    assert 7 + n == n + 7;
  }

  lemma ShlAt64()
    ensures Shl(1, 64) == TWO64
  {
    ShlStep(1, 57);
    ShlStep(0x80, 50);
    ShlStep(0x4000, 43);
    ShlStep(0x20_0000, 36);
    ShlStep(0x1000_0000, 29);
    ShlStep(0x8_0000_0000, 22);
    ShlStep(0x400_0000_0000, 15);
    ShlStep(0x2_0000_0000_0000, 8);
    ShlStep(0x100_0000_0000_0000, 1);
  }

  // ----- encoder

  function Encode(v: nat): (r: seq<byte>)
    ensures |r| >= 1
  {
    if v < 128 then [v] else [v % 128 + 128] + Encode(v / 128)
  }

  method EncodeVarint(value: nat) returns (buf: seq<byte>)
    ensures buf == Encode(value)
  {
    buf := [];
    var v := value;
    while v >= 128
      invariant buf + Encode(v) == Encode(value)
    {
      buf := buf + [v % 128 + 128];
      v := v / 128;
    }
    buf := buf + [v];
  }

  /** A nonzero length never costs more bytes than the length itself. */
  /** The value of base-128 digits, least significant first. */
  function Value(s: seq<byte>): (v: nat)
  {
    if s == [] then 0 else s[0] % 128 + 128 * Value(s[1..])
  }

  /** The digits of the encoding make up the value, and exactly the bytes before the last have the
      continuation bit. */
  lemma {:induction false} EncodeDigits(v: nat)
    ensures Value(Encode(v)) == v
    ensures forall k :: 0 <= k < |Encode(v)| ==> (Encode(v)[k] >= 128 <==> k + 1 < |Encode(v)|)
    ensures |Encode(v)| > 1 ==> Encode(v)[|Encode(v)| - 1] > 0
  {
    if v >= 128 {
      EncodeDigits(v / 128);
      var rest := Encode(v / 128);
      assert Encode(v)[1..] == rest;
      forall k | 0 <= k < |Encode(v)| ensures Encode(v)[k] >= 128 <==> k + 1 < |Encode(v)| {
        if k > 0 { assert Encode(v)[k] == rest[k - 1]; }
      }
    } else {
      assert Encode(v)[1..] == [];
    }
  }

  lemma {:induction false} EncodeShort(v: nat)
    requires v >= 1
    ensures |Encode(v)| <= v
  {
    if v >= 128 {
      EncodeShort(v / 128);
    }
  }

  lemma {:induction false} EncodeFits(v: nat, n: nat)
    requires v < Shl(128, 7 * n)
    ensures |Encode(v)| <= n + 1
    decreases n
  {
    if v >= 128 && n > 0 {
      ShlStep(128, 7 * (n - 1));
      ShlDouble(128, 7 * (n - 1));
      EncodeFits(v / 128, n - 1);
    }
  }

  lemma {:induction false} ShlDouble(x: nat, n: nat)
    ensures Shl(128 * x, n) == 128 * Shl(x, n)
  {
    if n > 0 {
      ShlDouble(x, n - 1);
    }
  }

  /** A 64-bit value needs at most ten bytes, the size of the encoder's scratch buffer. */
  lemma TenBytesSuffice(v: nat)
    requires v < TWO64
    ensures |Encode(v)| <= 10
  {
    ShlAt64();
    ShlStep(1, 63);
    ShlMono(1, 1, 64, 70);
    EncodeFits(v, 9);
  }

  // ----- decoder

  /** A value and the position just after it. */
  datatype Read = Read(value: nat, next: nat)

  /** Truncation to 64 bits. */
  function Wrap(x: nat): (y: nat)
    ensures y < TWO64 && y <= x && (x < TWO64 ==> y == x)
  {
    x % TWO64
  }

  /** `value |= (size_t)(b & 0x7F) << shift` on a 64-bit `size_t`. `acc < 2^shift`, so the
      bits ORed in are disjoint from the ones already there and the OR is a sum;
      whatever is shifted past bit 63 is dropped. */
  function Accumulate(acc: nat, b: byte, shift: nat): (v: nat)
    requires acc < Shl(1, shift)
    ensures v < TWO64 && v < Shl(1, shift + 7)
    ensures acc + Shl(b % 128, shift) < TWO64 ==> v == acc + Shl(b % 128, shift)
  {
    assert acc + Shl(b % 128, shift) < Shl(1, shift + 7) by {
      ShlStep(1, shift);
      ShlAdd(127, 1, shift);
      ShlMono(b % 128, 127, shift, shift);
    }
    Wrap(acc + Shl(b % 128, shift))
  }

  /** The decoder's loop: at stream position `p` and bit position `shift`. */
  function Decode(s: seq<byte>, p: nat, shift: nat, acc: nat): (r: Result<Read>)
    requires p <= |s| && acc < Shl(1, shift)
    ensures r.Ok? ==> p < r.value.next <= |s| && r.value.value < TWO64
    decreases |s| - p
  {
    if p == |s| then Err(Truncated)
    else
      var v := Accumulate(acc, s[p], shift);
      if s[p] < 128 then Ok(Read(v, p + 1))
      else if shift + 7 >= 64 then Err(CorruptData)
      else Decode(s, p + 1, shift + 7, v)
  }

  method ReadVarint(s: seq<byte>, start: nat) returns (r: Result<Read>)
    requires start <= |s|
    ensures r == Decode(s, start, 0, 0)
  {
    var value: nat, shift: nat, p := 0, 0, start;
    while p < |s|
      invariant start <= p <= |s|
      invariant value < Shl(1, shift)
      invariant Decode(s, p, shift, value) == Decode(s, start, 0, 0)
    {
      var b := s[p];
      value := Accumulate(value, b, shift);
      p := p + 1;
      if b < 128 {
        return Ok(Read(value, p));
      }
      shift := shift + 7;
      if shift >= 64 {
        return Err(CorruptData);
      }
    }
    return Err(Truncated);
  }

  lemma {:induction false} DecodeEncode(s: seq<byte>, p: nat, v: nat, shift: nat, acc: nat)
    requires HasAt(s, p, Encode(v))
    requires acc < Shl(1, shift)
    requires acc + Shl(v, shift) < TWO64
    ensures Decode(s, p, shift, acc) == Ok(Read(acc + Shl(v, shift), p + |Encode(v)|))
    decreases v
  {
    hide HasAt, Accumulate, Wrap, Shl;
    HasAtByte(s, p, Encode(v), 0);
    if v >= 128 {
      var lo, hi := v % 128, v / 128;
      HasAtSplit(s, p, [lo + 128], Encode(hi));
      assert Shl(v, shift) == Shl(lo, shift) + Shl(hi, shift + 7) by {
        ShlAdd(lo, 128 * hi, shift);
        ShlStep(hi, shift);
      }
      if shift + 7 >= 64 {
        ShlAt64();
        ShlMono(1, hi, 64, shift + 7);
      }
      DecodeEncode(s, p + 1, hi, shift + 7, Accumulate(acc, s[p], shift));
    }
  }

  /** Every `size_t` round-trips, wherever it stands in a stream, and exactly its own
      bytes are consumed. */
  lemma RoundTrip(s: seq<byte>, p: nat, v: nat)
    requires HasAt(s, p, Encode(v)) && v < TWO64
    ensures Decode(s, p, 0, 0) == Ok(Read(v, p + |Encode(v)|))
  {
    DecodeEncode(s, p, v, 0, 0);
  }

  /** `k` bytes with the continuation bit stand at `p`. */
  ghost predicate Continued(s: seq<byte>, p: nat, k: nat)
  {
    p + k <= |s| && forall j :: p <= j < p + k ==> s[j] >= 128
  }

  lemma {:induction false} DecodeFrom(s: seq<byte>, p: nat, k: nat, shift: nat, acc: nat)
    requires Continued(s, p, k) && shift <= 63 && acc < Shl(1, shift)
    ensures shift + 7 * k >= 64 ==> Decode(s, p, shift, acc) == Err(CorruptData)
    ensures shift + 7 * k < 64 && p + k == |s| ==> Decode(s, p, shift, acc) == Err(Truncated)
    ensures shift + 7 * k < 64 && p + k < |s| && s[p + k] < 128 ==>
      Decode(s, p, shift, acc) == Ok(Read((acc + Shl(Value(s[p..p + k + 1]), shift)) % TWO64, p + k + 1))
    decreases k
  {
    hide Shl, Value;
    if k == 0 {
      if p < |s| {
        OneDigit(s[p..p + 1]);
      }
    } else if shift + 7 < 64 {
      NoWrap(acc, s[p], shift);
      DecodeFrom(s, p + 1, k - 1, shift + 7, Accumulate(acc, s[p], shift));
      if p + k < |s| {
        FirstDigit(s[p..p + k + 1], shift);
        assert s[p..p + k + 1][1..] == s[p + 1..p + 1 + (k - 1) + 1];
      }
    }
  }

  lemma OneDigit(s: seq<byte>)
    requires |s| == 1
    ensures Value(s) == s[0] % 128
  {
    assert s[1..] == [];
  }

  lemma FirstDigit(s: seq<byte>, shift: nat)
    requires s != []
    ensures Shl(Value(s), shift) == Shl(s[0] % 128, shift) + Shl(Value(s[1..]), shift + 7)
  {
    hide Shl;
    ShlAdd(s[0] % 128, 128 * Value(s[1..]), shift);
    ShlStep(Value(s[1..]), shift);
  }

  /** Before the last digit nothing is lost. */
  lemma NoWrap(acc: nat, b: byte, shift: nat)
    requires acc < Shl(1, shift) && shift + 7 < 64
    ensures Accumulate(acc, b, shift) == acc + Shl(b % 128, shift)
  {
    hide Shl;
    ShlStep(1, shift);
    ShlAdd(127, 1, shift);
    ShlMono(b % 128, 127, shift, shift);
    ShlMono(1, 1, shift + 7, 64);
    ShlAt64();
  }

  /** What the reader does with any bytes: ten in a row with the continuation bit are corrupt data, fewer at the
      end of the stream are a truncation, and otherwise the value is what the digits make up, modulo 2^64. */
  lemma DecodeExact(s: seq<byte>, p: nat, k: nat)
    requires Continued(s, p, k)
    ensures k >= 10 ==> Decode(s, p, 0, 0) == Err(CorruptData)
    ensures k < 10 && p + k == |s| ==> Decode(s, p, 0, 0) == Err(Truncated)
    ensures k < 10 && p + k < |s| && s[p + k] < 128 ==>
      Decode(s, p, 0, 0) == Ok(Read(Value(s[p..p + k + 1]) % TWO64, p + k + 1))
  {
    DecodeFrom(s, p, k, 0, 0);
  }
}
