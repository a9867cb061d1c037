/** Bytes, little-endian integers and the arithmetic of block positions that every
    other module of the model shares. */
module Bytes {

  type byte = x: int | 0 <= x < 256

  /** The error codes of the library that the modelled paths can return. */
  datatype Error =
    | InvalidArg | OutOfMemory | IoError | CorruptData | BadMagic | BadVersion
    | BadBlockSize | SizeMismatch | NotInitialized | Cancelled | Truncated | BadOperation

  datatype Result<+T> = Ok(value: T) | Err(error: Error) {
    predicate IsFailure() { Err? }
    function PropagateFailure<U>(): Result<U>
      requires Err?
    { Err(error) }
    function Extract(): T
      requires Ok?
    { value }
  }

  datatype Option<+T> = None | Some(value: T)

  const UINT32_MAX: int := 0xFFFF_FFFF
  const TWO32: int := 0x1_0000_0000
  const TWO64: int := 0x1_0000_0000_0000_0000
  const INT64_MAX: int := 0x7FFF_FFFF_FFFF_FFFF

  function Min(a: nat, b: nat): (m: nat)
  {
    if a < b then a else b
  }

  /** `x << n` on unbounded integers. */
  function Shl(x: nat, n: nat): (y: nat)
    ensures y >= x
  {
    if n == 0 then x else 2 * Shl(x, n - 1)
  }

  /** Something that may go wrong at any time: an allocation, a write, a run that is not cancelled.
      A calm run is one in which nothing of the kind goes wrong. */
  method Attempt(calm: bool) returns (ok: bool)
    ensures calm ==> ok
  {
    ok := *;
    ok := ok || calm;
  }

  // ----- little-endian fields

  function Pow256(n: nat): (p: nat)
    ensures p >= 1
  {
    if n == 0 then 1 else 256 * Pow256(n - 1)
  }

  /** The low `n` bytes of `v`, least significant first. */
  function LE(v: nat, n: nat): (r: seq<byte>)
    ensures |r| == n
  {
    if n == 0 then [] else [v % 256] + LE(v / 256, n - 1)
  }

  function FromLE(s: seq<byte>): (v: nat)
  {
    if s == [] then 0 else s[0] + 256 * FromLE(s[1..])
  }

  lemma {:induction false} LERoundTrip(v: nat, n: nat)
    requires v < Pow256(n)
    ensures FromLE(LE(v, n)) == v
  {
    if n > 0 {
      LERoundTrip(v / 256, n - 1);
      assert LE(v, n)[1..] == LE(v / 256, n - 1);
    }
  }

  lemma {:induction false} FromLEBound(s: seq<byte>)
    ensures FromLE(s) < Pow256(|s|)
  {
    if s != [] {
      FromLEBound(s[1..]);
    }
  }

  lemma Pow256Values()
    ensures Pow256(1) == 0x100 && Pow256(2) == 0x1_0000 && Pow256(3) == 0x100_0000
    ensures Pow256(4) == TWO32 && Pow256(8) == TWO64
  {
    assert Pow256(4) == 256 * Pow256(3);
    assert Pow256(6) == 256 * Pow256(5) == 0x10000 * Pow256(4);
    assert Pow256(8) == 256 * Pow256(7) == 0x10000 * Pow256(6);
  }

  // ----- streams

  /** The bytes `b` stand in `s` at position `p`. */
  ghost predicate HasAt(s: seq<byte>, p: nat, b: seq<byte>)
    decreases |b|
  {
    p + |b| <= |s| && (b != [] ==> s[p] == b[0] && HasAt(s, p + 1, b[1..]))
  }

  lemma {:induction false} HasAtSlice(s: seq<byte>, p: nat, b: seq<byte>)
    ensures HasAt(s, p, b) <==> p + |b| <= |s| && s[p..p + |b|] == b
    decreases |b|
  {
    if b != [] && p + |b| <= |s| {
      HasAtSlice(s, p + 1, b[1..]);
      assert s[p..p + |b|] == [s[p]] + s[p + 1..p + |b|];
      assert b == [b[0]] + b[1..];
    }
  }

  lemma {:induction false} HasAtSplit(s: seq<byte>, p: nat, a: seq<byte>, b: seq<byte>)
    requires HasAt(s, p, a + b)
    ensures HasAt(s, p, a) && HasAt(s, p + |a|, b) && p + |a| + |b| <= |s|
    decreases |a|
  {
    if a == [] {
      assert a + b == b;
    } else {
      assert (a + b)[1..] == a[1..] + b;
      HasAtSplit(s, p + 1, a[1..], b);
    }
  }

  lemma {:induction false} HasAtByte(s: seq<byte>, p: nat, b: seq<byte>, k: nat)
    requires HasAt(s, p, b) && k < |b|
    ensures p + |b| <= |s| && s[p + k] == b[k]
    decreases k
  {
    if k > 0 {
      HasAtByte(s, p + 1, b[1..], k - 1);
    }
  }

  /** `n` bytes at `p` as a little-endian number. */
  function Field(s: seq<byte>, p: nat, n: nat): (v: nat)
    requires p + n <= |s|
  {
    FromLE(s[p..p + n])
  }

  lemma FieldOf(s: seq<byte>, p: nat, v: nat, n: nat)
    requires v < Pow256(n) && HasAt(s, p, LE(v, n))
    ensures p + n <= |s| && Field(s, p, n) == v
  {
    HasAtSlice(s, p, LE(v, n));
    LERoundTrip(v, n);
  }

  /** The byte order, written out. */
  lemma LittleEndian(v: nat)
    ensures LE(v, 2) == [v % 256, v / 256 % 256]
    ensures LE(v, 4) == [v % 256, v / 256 % 256, v / 0x1_0000 % 256, v / 0x100_0000 % 256]
  {
    var a := v / 256;
    var b := a / 256;
    var c := b / 256;
    assert b == v / 0x1_0000 && c == v / 0x100_0000;
    assert LE(c, 1) == [c % 256] + LE(c / 256, 0);
    assert LE(b, 2) == [b % 256] + LE(c, 1);
    assert LE(b, 1) == [b % 256] + LE(c, 0);
    assert LE(a, 3) == [a % 256] + LE(b, 2);
    assert LE(a, 1) == [a % 256] + LE(b, 0);
  }

  // ----- byte-wise addition modulo 256

  function AddByte(a: byte, b: byte): (c: byte)
  {
    if a + b < 256 then a + b else a + b - 256
  }

  /** The delta byte a stage stores: `d - s` as an unsigned char. */
  function SubByte(d: byte, s: byte): (c: byte)
    ensures AddByte(s, c) == d
  {
    if d >= s then d - s else d - s + 256
  }

  function AddBytes(a: seq<byte>, b: seq<byte>): (c: seq<byte>)
    requires |a| == |b|
    ensures |c| == |a|
    ensures forall k :: 0 <= k < |a| ==> c[k] == AddByte(a[k], b[k])
  {
    if a == [] then [] else [AddByte(a[0], b[0])] + AddBytes(a[1..], b[1..])
  }

  function Fill(v: byte, n: nat): (r: seq<byte>)
    ensures |r| == n
    ensures forall k :: 0 <= k < n ==> r[k] == v
  {
    if n == 0 then [] else [v] + Fill(v, n - 1)
  }

  // ----- positions

  lemma MulLe(a: int, b: int, c: int)
    requires a <= b && 0 <= c
    ensures a * c <= b * c
  {
  }

  lemma MulAdd(a: int, b: int, c: int)
    ensures (a + b) * c == a * c + b * c
  {
  }

  lemma MulNonNeg(a: int, b: int)
    requires 0 <= a && 0 <= b
    ensures 0 <= a * b
  {
  }

  lemma DivModUnique(x: nat, d: nat, q: nat, r: nat)
    requires d > 0 && x == q * d + r && r < d
    ensures x / d == q && x % d == r
  {
    var q', r' := x / d, x % d;
    assert x == q' * d + r';
    if q' < q {
      MulLe(q' + 1, q, d);
      MulAdd(q', 1, d);
    } else if q' > q {
      MulLe(q + 1, q', d);
      MulAdd(q, 1, d);
    }
  }
}
