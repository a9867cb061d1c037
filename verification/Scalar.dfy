/** The scalar block primitives, src/simd/simd_scalar.c, and the quick zero test of
    src/stages/stage_relocation.c: eight bytes at a time, with a byte-wise tail. A word is
    the little-endian value of its eight bytes. */
module Scalar {
  import opened Bytes

  function Word(s: seq<byte>, p: nat): (w: nat)
    requires p + 8 <= |s|
  {
    FromLE(s[p..p + 8])
  }

  ghost predicate AllAre(s: seq<byte>, lo: nat, hi: nat, v: byte)
    requires hi <= |s|
  {
    forall k :: lo <= k < hi ==> s[k] == v
  }

  /** A word of equal bytes 0x00 or 0xFF has exactly one value. */
  lemma {:induction false} ConstWord(s: seq<byte>, v: byte)
    requires v == 0 || v == 255
    ensures FromLE(s) == (if v == 0 then 0 else Pow256(|s|) - 1) <==> forall k :: 0 <= k < |s| ==> s[k] == v
  {
    if s != [] {
      ConstWord(s[1..], v);
      FromLEBound(s[1..]);
      if forall k :: 0 <= k < |s| ==> s[k] == v {
        assert forall k :: 0 <= k < |s[1..]| ==> s[1..][k] == s[k + 1];
      } else if s[0] == v {
        var k :| 0 <= k < |s| && s[k] != v;
        assert s[1..][k - 1] == s[k];
      }
    }
  }

  lemma WordIsConst(s: seq<byte>, p: nat, v: byte)
    requires p + 8 <= |s| && (v == 0 || v == 255)
    ensures Word(s, p) == (if v == 0 then 0 else 0xFFFF_FFFF_FFFF_FFFF) <==> AllAre(s, p, p + 8, v)
  {
    Pow256Values();
    ConstWord(s[p..p + 8], v);
    assert forall k :: p <= k < p + 8 ==> s[k] == s[p..p + 8][k - p];
  }

  /** `fsd_scalar_is_zero` (`v == 0`) and `fsd_scalar_is_one` (`v == 255`). */
  method IsConst(s: seq<byte>, v: byte) returns (b: bool)
    requires v == 0 || v == 255
    ensures b <==> s == Fill(v, |s|)
  {
    hide Fill, FromLE, Word;
    var words := |s| / 8;
    for i := 0 to words
      invariant AllAre(s, 0, 8 * i, v)
    {
      WordIsConst(s, 8 * i, v);
      if Word(s, 8 * i) != (if v == 0 then 0 else 0xFFFF_FFFF_FFFF_FFFF) { return false; }
    }
    for i := 8 * words to |s|
      invariant AllAre(s, 0, i, v)
    {
      if s[i] != v { return false; }
    }
    return true;
  }

  /** `is_zero_block_quick`: first and last word, then every word. Bytes past the last whole
      word are not looked at. */
  method IsZeroQuick(s: seq<byte>) returns (b: bool)
    ensures b <==> AllAre(s, 0, |s| / 8 * 8, 0)
    ensures |s| % 8 == 0 ==> (b <==> s == Fill(0, |s|))
  {
    hide Fill, FromLE, Word;
    var words := |s| / 8;
    if |s| >= 16 {
      WordIsConst(s, 0, 0);
      if Word(s, 0) != 0 { return false; }
      WordIsConst(s, 8 * (words - 1), 0);
      if Word(s, 8 * (words - 1)) != 0 { return false; }
    }
    for i := 0 to words
      invariant AllAre(s, 0, 8 * i, 0)
    {
      WordIsConst(s, 8 * i, 0);
      if Word(s, 8 * i) != 0 { return false; }
    }
    return true;
  }

  // ----- counting equal bytes with an exclusive or

  /** Positions `k < n` at which `src[p + k] == block[q + k]`: the reference for `count_fn`. */
  function CountAt(src: seq<byte>, p: nat, block: seq<byte>, q: nat, n: nat): (c: nat)
    requires p + n <= |src| && q + n <= |block|
    ensures c <= n
  {
    if n == 0 then 0
    else CountAt(src, p, block, q, n - 1) + (if src[p + (n - 1)] == block[q + (n - 1)] then 1 else 0)
  }

  lemma {:induction false} CountSplit(src: seq<byte>, p: nat, block: seq<byte>, q: nat, a: nat, b: nat)
    requires p + a + b <= |src| && q + a + b <= |block|
    ensures CountAt(src, p, block, q, a + b) == CountAt(src, p, block, q, a) + CountAt(src, p + a, block, q + a, b)
    decreases b
  {
    if b > 0 {
      CountSplit(src, p, block, q, a, b - 1);
      assert p + (a + b - 1) == p + a + (b - 1) && q + (a + b - 1) == q + a + (b - 1);
    }
  }

  function Xor(a: nat, b: nat): (r: nat)
    decreases a + b
  {
    if a == 0 then b else if b == 0 then a
    else 2 * Xor(a / 2, b / 2) + (if a % 2 != b % 2 then 1 else 0)
  }

  lemma XorHalf(a: nat, b: nat)
    ensures Xor(a, b) / 2 == Xor(a / 2, b / 2) && (Xor(a, b) % 2 == 0 <==> a % 2 == b % 2)
  {
  }

  lemma XorQuarter(a: nat, b: nat)
    ensures Xor(a, b) / 4 == Xor(a / 4, b / 4) && (Xor(a, b) % 4 == 0 <==> a % 4 == b % 4)
  {
    hide Xor;
    XorHalf(a, b);
    XorHalf(a / 2, b / 2);
    assert a / 2 / 2 == a / 4 && b / 2 / 2 == b / 4;
  }

  lemma XorNibble(a: nat, b: nat)
    ensures Xor(a, b) / 16 == Xor(a / 16, b / 16) && (Xor(a, b) % 16 == 0 <==> a % 16 == b % 16)
  {
    hide Xor;
    XorQuarter(a, b);
    XorQuarter(a / 4, b / 4);
    assert a / 4 / 4 == a / 16 && b / 4 / 4 == b / 16;
  }

  /** The low byte of an exclusive or is zero exactly when the low bytes are equal. */
  lemma XorByte(a: nat, b: nat)
    ensures Xor(a, b) / 256 == Xor(a / 256, b / 256)
    ensures Xor(a, b) % 256 == 0 <==> a % 256 == b % 256
  {
    hide Xor;
    XorNibble(a, b);
    XorNibble(a / 16, b / 16);
    assert a / 16 / 16 == a / 256 && b / 16 / 16 == b / 256;
  }

  /** Equal low bytes among the first `n` of two words, as the inner loop counts them. */
  function EqualBytes(a: nat, b: nat, n: nat): (c: nat)
    decreases n
  {
    if n == 0 then 0 else (if a % 256 == b % 256 then 1 else 0) + EqualBytes(a / 256, b / 256, n - 1)
  }

  lemma {:induction false} EqualBytesSame(a: nat, n: nat)
    ensures EqualBytes(a, a, n) == n
  {
    if n > 0 {
      EqualBytesSame(a / 256, n - 1);
    }
  }

  lemma {:induction false} XorZero(a: nat, b: nat)
    ensures Xor(a, b) == 0 <==> a == b
    decreases a + b
  {
    if a != 0 && b != 0 {
      XorZero(a / 2, b / 2);
    }
  }

  /** The eight-byte inner loop. */
  method CountWord(a: nat, b: nat) returns (c: nat)
    ensures c == EqualBytes(a, b, 8)
  {
    var diff := Xor(a, b);
    XorZero(a, b);
    if diff == 0 {
      EqualBytesSame(a, 8);
      return 8;
    }
    c := 0;
    ghost var x, y := a, b;
    for j := 0 to 8
      invariant diff == Xor(x, y)
      invariant c + EqualBytes(x, y, 8 - j) == EqualBytes(a, b, 8)
    {
      XorByte(x, y);
      if diff % 256 == 0 { c := c + 1; }
      diff := diff / 256;
      x, y := x / 256, y / 256;
    }
  }

  /** Byte-wise meaning of `EqualBytes` on two loaded words. */
  lemma {:induction false} EqualBytesCount(src: seq<byte>, p: nat, block: seq<byte>, q: nat, n: nat)
    requires p + n <= |src| && q + n <= |block|
    ensures EqualBytes(FromLE(src[p..p + n]), FromLE(block[q..q + n]), n) == CountAt(src, p, block, q, n)
    decreases n
  {
    if n > 0 {
      FrontByte(src, p, n);
      FrontByte(block, q, n);
      EqualBytesCount(src, p + 1, block, q + 1, n - 1);
      CountSplit(src, p, block, q, 1, n - 1);
      assert CountAt(src, p, block, q, 1) == if src[p + 0] == block[q + 0] then 1 else 0;
    }
  }

  lemma FrontByte(s: seq<byte>, p: nat, n: nat)
    requires n > 0 && p + n <= |s|
    ensures FromLE(s[p..p + n]) % 256 == s[p] && FromLE(s[p..p + n]) / 256 == FromLE(s[p + 1..p + 1 + (n - 1)])
  {
    assert s[p..p + n][1..] == s[p + 1..p + n];
  }

  lemma WordStep(src: seq<byte>, p: nat, block: seq<byte>, q: nat, i: nat)
    requires p + 8 * i + 8 <= |src| && q + 8 * i + 8 <= |block|
    ensures CountAt(src, p, block, q, 8 * i) + EqualBytes(Word(src, p + 8 * i), Word(block, q + 8 * i), 8)
      == CountAt(src, p, block, q, 8 * (i + 1))
  {
    hide EqualBytes, FromLE, CountAt;
    EqualBytesCount(src, p + 8 * i, block, q + 8 * i, 8);
    CountSplit(src, p, block, q, 8 * i, 8);
  }

  lemma ByteStep(src: seq<byte>, p: nat, block: seq<byte>, q: nat, i: nat)
    requires p + i < |src| && q + i < |block|
    ensures CountAt(src, p, block, q, i + 1)
      == CountAt(src, p, block, q, i) + (if src[p + i] == block[q + i] then 1 else 0)
  {
  }

  /** `fsd_scalar_count_matches` refines the byte-wise count. */
  method CountMatches(src: seq<byte>, p: nat, block: seq<byte>, q: nat, n: nat) returns (count: nat)
    requires p + n <= |src| && q + n <= |block|
    ensures count == CountAt(src, p, block, q, n)
  {
    hide EqualBytes, Word, CountAt;
    count := 0;
    var words := n / 8;
    assert CountAt(src, p, block, q, 0) == 0 by { NothingCounted(src, p, block, q); }
    for i := 0 to words
      invariant count == CountAt(src, p, block, q, 8 * i)
    {
      var c := CountWord(Word(src, p + 8 * i), Word(block, q + 8 * i));
      WordStep(src, p, block, q, i);
      count := count + c;
    }
    for i := 8 * words to n
      invariant count == CountAt(src, p, block, q, i)
    {
      ByteStep(src, p, block, q, i);
      if src[p + i] == block[q + i] { count := count + 1; }
    }
  }

  lemma NothingCounted(src: seq<byte>, p: nat, block: seq<byte>, q: nat)
    requires p <= |src| && q <= |block|
    ensures CountAt(src, p, block, q, 0) == 0
  {
  }
}
