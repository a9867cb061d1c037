/** Bitmap words: the bit operations and the population count of src/core/block_tracker.c.
    A word is its value as an unsigned integer, and `&`, `|` and `& ~` are defined digit by
    digit on the binary representation. */
module Bitmap {
  import opened Bytes

  function Or(a: nat, b: nat): (r: nat)
    decreases a + b
  {
    if a == 0 then b else if b == 0 then a
    else 2 * Or(a / 2, b / 2) + (if a % 2 == 1 || b % 2 == 1 then 1 else 0)
  }

  function And(a: nat, b: nat): (r: nat)
  {
    if a == 0 || b == 0 then 0
    else 2 * And(a / 2, b / 2) + (if a % 2 == 1 && b % 2 == 1 then 1 else 0)
  }

  /** `a & ~b`. */
  function AndNot(a: nat, b: nat): (r: nat)
  {
    if a == 0 then 0
    else 2 * AndNot(a / 2, b / 2) + (if a % 2 == 1 && b % 2 == 0 then 1 else 0)
  }

  /** Binary digit `k` of `w`: the specification that the operators are measured against. */
  predicate Bit(w: nat, k: nat)
  {
    if k == 0 then w % 2 == 1 else Bit(w / 2, k - 1)
  }

  // ----- the operators, bit by bit

  lemma {:induction false} ZeroBits(k: nat)
    ensures !Bit(0, k)
  {
    if k > 0 {
      ZeroBits(k - 1);
    }
  }

  lemma {:induction false} OrBit(a: nat, b: nat, k: nat)
    ensures Bit(Or(a, b), k) <==> Bit(a, k) || Bit(b, k)
    decreases k
  {
    ZeroBits(k);
    if a != 0 && b != 0 && k > 0 {
      OrBit(a / 2, b / 2, k - 1);
      assert Or(a, b) / 2 == Or(a / 2, b / 2);
    }
  }

  lemma {:induction false} AndNotBit(a: nat, b: nat, k: nat)
    ensures Bit(AndNot(a, b), k) <==> Bit(a, k) && !Bit(b, k)
    decreases k
  {
    ZeroBits(k);
    if a != 0 && k > 0 {
      AndNotBit(a / 2, b / 2, k - 1);
      assert AndNot(a, b) / 2 == AndNot(a / 2, b / 2);
    }
  }

  lemma {:induction false} MaskBit(k: nat, j: nat)
    ensures Bit(Shl(1, k), j) <==> j == k
    decreases k
  {
    if k == 0 {
      if j > 0 { ZeroBits(j - 1); }
    } else if j > 0 {
      MaskBit(k - 1, j - 1);
    }
  }

  /** `(w & (1 << k)) != 0` tests exactly bit `k`. */
  lemma {:induction false} TestIsBit(w: nat, k: nat)
    ensures And(w, Shl(1, k)) != 0 <==> Bit(w, k)
    decreases k
  {
    if w == 0 {
      ZeroBits(k);
    } else if k > 0 {
      TestIsBit(w / 2, k - 1);
    } else {
      assert And(w / 2, 0) == 0;
    }
  }

  // ----- population count

  function Ones(w: nat): (c: nat)
  {
    if w == 0 then 0 else w % 2 + Ones(w / 2)
  }

  /** `w & (w - 1)` drops exactly the lowest set bit. */
  lemma {:induction false} DropLowest(w: nat)
    requires w > 0
    ensures And(w, w - 1) < w
    ensures Ones(And(w, w - 1)) == Ones(w) - 1
    decreases w
  {
    if w == 1 {
    } else if w % 2 == 1 {
      AndSelf(w / 2);
      assert (w - 1) / 2 == w / 2;
      assert And(w, w - 1) == 2 * (w / 2);
    } else {
      var h := w / 2;
      assert (w - 1) / 2 == h - 1 && (w - 1) % 2 == 1;
      DropLowest(h);
      assert And(w, w - 1) == 2 * And(h, h - 1);
    }
  }

  lemma {:induction false} AndSelf(w: nat)
    ensures And(w, w) == w
  {
    if w > 0 {
      AndSelf(w / 2);
    }
  }

  /** Brian Kernighan's loop. */
  method PopCount(w0: nat) returns (count: nat)
    ensures count == Ones(w0)
  {
    count := 0;
    var w := w0;
    while w != 0
      invariant count + Ones(w) == Ones(w0)
    {
      DropLowest(w);
      w := And(w, w - 1);
      count := count + 1;
    }
  }

  /** `Ones` counts the set digits among the first `n`, when no higher one is set. */
  function CountBits(w: nat, n: nat): (c: nat)
    decreases n
  {
    if n == 0 then 0 else (if Bit(w, 0) then 1 else 0) + CountBits(w / 2, n - 1)
  }

  lemma {:induction false} OnesIsCount(w: nat, n: nat)
    requires w < Shl(1, n)
    ensures Ones(w) == CountBits(w, n)
    decreases n
  {
    if n > 0 {
      OnesIsCount(w / 2, n - 1);
      if w == 0 {
        assert w / 2 == 0;
      }
    }
  }

  /** Words stay words: setting or clearing a bit below `n` keeps the value below `1 << n`. */
  lemma {:induction false} OrBound(a: nat, b: nat, n: nat)
    requires a < Shl(1, n) && b < Shl(1, n)
    ensures Or(a, b) < Shl(1, n)
    decreases n
  {
    if a != 0 && b != 0 && n > 0 {
      OrBound(a / 2, b / 2, n - 1);
    }
  }

  lemma {:induction false} AndNotBound(a: nat, b: nat)
    ensures AndNot(a, b) <= a
  {
    if a > 0 {
      AndNotBound(a / 2, b / 2);
    }
  }

  lemma {:induction false} MaskMono(k: nat, n: nat)
    requires k < n
    ensures Shl(1, k) < Shl(1, n)
  {
    if k + 1 < n {
      MaskMono(k, n - 1);
    }
  }

  /** A word with no set bit below `n` and nothing from `n` on is zero. */
  lemma {:induction false} NoBits(w: nat, n: nat)
    requires w < Shl(1, n) && forall k :: 0 <= k < n ==> !Bit(w, k)
    ensures w == 0
    decreases n
  {
    if n > 0 {
      assert !Bit(w, 0);
      forall k | 0 <= k < n - 1 ensures !Bit(w / 2, k) {
        assert !Bit(w, k + 1);
      }
      NoBits(w / 2, n - 1);
    }
  }
}
