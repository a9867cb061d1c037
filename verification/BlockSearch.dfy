/** The byte-granular block search, src/stages/block_search.c: sweeps a range of source
    offsets for the one that agrees with a destination block in the most bytes. */
module BlockSearch {
  import opened Bytes
  import opened Scalar

  /** A search: around source position `center`, offsets `lo..hi`, at least `threshold` equal bytes. */
  datatype Query = Query(src: seq<byte>, block: seq<byte>, center: int, lo: int, hi: int, threshold: nat) {

    /** Offset `o` names a whole source block. */
    predicate InBounds(o: int)
    {
      0 <= center + o && center + o + |block| <= |src|
    }

    function Score(o: int): (c: nat)
      requires InBounds(o)
      ensures c <= |block|
    {
      CountAt(src, center + o, block, 0, |block|)
    }

    /** Equal bytes that the sample needs; 0 means that nothing is screened out. */
    function ScreenMin(): (m: nat)
      ensures |block| < 1024 ==> m == 0
      ensures threshold <= |block| ==> m <= 128
    {
      if |block| < 1024 then 0 else
        assert threshold <= |block| ==> (threshold * 128) / |block| <= 128 by {
          if threshold <= |block| { DivLe(threshold * 128, 128, |block|); }
        }
        (threshold * 128) / |block|
    }

    /** Agreement of two 128-byte windows, at the start and in the middle. */
    function Sample(o: int): (c: nat)
      requires InBounds(o) && |block| >= 1024
      ensures c <= 256
    {
      var mid := |block| / 2;
      CountAt(src, center + o, block, 0, 128) + CountAt(src, center + o + mid, block, mid, 128)
    }

    predicate Passes(o: int)
      requires InBounds(o)
    {
      ScreenMin() == 0 || Sample(o) >= ScreenMin()
    }

    /** The offsets a sweep scores, with or without the prescreen. */
    predicate Candidate(o: int, screened: bool)
    {
      lo <= o <= hi && InBounds(o) && (screened ==> Passes(o))
    }

    /** The count a sweep starts from, one below the threshold. */
    function Floor(): (c: nat)
    {
      if threshold > 0 then threshold - 1 else 0
    }

    /** `(o, c)` is the outcome of a sweep over `from..to`: the leftmost candidate with the most
        equal bytes if one beats the floor, and the sentinel offset -1 with the floor if none does. */
    ghost predicate BestOf(screened: bool, to: int, o: int, c: nat)
    {
      && (forall j :: j < to && Candidate(j, screened) ==> Score(j) <= c)
      && c >= Floor()
      && (c == Floor() ==> o == -1)
      && (c > Floor() ==>
            && o < to && Candidate(o, screened) && Score(o) == c
            && forall j :: j < o && Candidate(j, screened) ==> Score(j) < c)
    }

    ghost predicate Best(screened: bool, o: int, c: nat)
    {
      BestOf(screened, hi + 1, o, c)
    }
  }

  lemma DivLe(a: nat, k: nat, b: nat)
    requires b > 0 && a <= k * b
    ensures a / b <= k
  {
    assert a == (a / b) * b + a % b;
    MulAdd(k, 1, b);
    if a / b > k {
      MulLe(k + 1, a / b, b);
    }
  }

  /** The prescreen of one candidate. */
  method Screen(q: Query, o: int) returns (pass: bool)
    requires q.InBounds(o)
    ensures pass == q.Passes(o)
  {
    var min := q.ScreenMin();
    if min == 0 { return true; }
    var mid := |q.block| / 2;
    var a := CountMatches(q.src, q.center + o, q.block, 0, 128);
    var b := CountMatches(q.src, q.center + o + mid, q.block, mid, 128);
    return a + b >= min;
  }

  /** The sweep: prescreen, count, keep strictly better, stop at a perfect match. */
  method SearchBest(q: Query) returns (offset: int, count: nat)
    ensures q.Best(true, offset, count)
  {
    hide CountAt;
    offset, count := -1, q.Floor();
    var o := q.lo;
    while o <= q.hi
      invariant q.lo <= o
      invariant q.BestOf(true, o, offset, count)
    {
      var ok := q.InBounds(o);
      if ok {
        ok := Screen(q, o);
      }
      if ok {
        var c := CountMatches(q.src, q.center + o, q.block, 0, |q.block|);
        if c > count {
          count, offset := c, o;
          if count == |q.block| {
            return;
          }
        }
      }
      o := o + 1;
    }
  }

  /** A sweep has one outcome. */
  lemma BestUnique(q: Query, screened: bool, o: int, c: nat, o': int, c': nat)
    requires q.Best(screened, o, c) && q.Best(screened, o', c')
    ensures o == o' && c == c'
  {
    hide CountAt;
  }

  /** The prescreen changes the result exactly when it rejects the offset that the full sweep
      would return. */
  lemma ScreenExact(q: Query, o: int, c: nat)
    requires q.Best(false, o, c)
    ensures q.Best(true, o, c) <==> c == q.Floor() || q.Passes(o)
  {
    hide CountAt;
  }

  /** An offset whose block differs in at most `256 - ScreenMin` bytes passes the prescreen. */
  lemma CloseMatchPasses(q: Query, o: int)
    requires q.InBounds(o) && q.ScreenMin() <= 256
    requires |q.block| - q.Score(o) <= 256 - q.ScreenMin()
    ensures q.Passes(o)
  {
    if q.ScreenMin() != 0 {
      var bs, p := |q.block|, q.center + o;
      var mid := bs / 2;
      CountSplit(q.src, p, q.block, 0, 128, bs - 128);
      CountSplit(q.src, p + 128, q.block, 128, mid - 128, bs - mid);
      CountSplit(q.src, p + mid, q.block, mid, 128, bs - mid - 128);
    }
  }

  /** Search optimality: when the full sweep finds a block that reaches the threshold and
      differs in at most `256 - ScreenMin` bytes (or the prescreen is off), the screened sweep
      returns the same leftmost maximum. */
  lemma SearchOptimal(q: Query, o: int, c: nat)
    requires q.Best(false, o, c) && c > q.Floor()
    requires q.ScreenMin() == 0 || |q.block| - c <= 256 - q.ScreenMin()
    ensures q.Best(true, o, c)
  {
    hide CountAt;
    if q.ScreenMin() != 0 {
      CloseMatchPasses(q, o);
    }
    ScreenExact(q, o, c);
  }

  /** A perfect match is never screened out. */
  lemma PerfectPasses(q: Query, o: int)
    requires q.InBounds(o) && q.Score(o) == |q.block| && q.threshold <= |q.block|
    ensures q.Passes(o)
  {
    hide CountAt;
    CloseMatchPasses(q, o);
  }

  // ----- the prescreen can lose a match: both windows changed, the rest equal

  lemma {:induction false} CountSame(src: seq<byte>, block: seq<byte>, p: nat, n: nat, same: bool)
    requires p + n <= |src| && p + n <= |block|
    requires forall i :: p <= i < p + n ==> (src[i] == block[i] <==> same)
    ensures CountAt(src, p, block, p, n) == if same then n else 0
    decreases n
  {
    if n > 0 {
      CountSame(src, block, p, n - 1, same);
    }
  }

  /** 1024 zero bytes against a source block that differs exactly in the two sampled windows:
      768 equal bytes, well above the threshold of 512, and still "no match". */
  lemma ScreenedOut()
    ensures var q := Query(Fill(1, 128) + Fill(0, 384) + Fill(1, 128) + Fill(0, 384), Fill(0, 1024), 0, 0, 0, 512);
      && q.Best(false, 0, 768)
      && q.Best(true, -1, 511)
  {
    hide Fill, CountAt;
    var src := Fill(1, 128) + Fill(0, 384) + Fill(1, 128) + Fill(0, 384);
    var block := Fill(0, 1024);
    var q := Query(src, block, 0, 0, 0, 512);
    CountSame(src, block, 0, 128, false);
    CountSame(src, block, 128, 384, true);
    CountSame(src, block, 512, 128, false);
    CountSame(src, block, 640, 384, true);
    CountSplit(src, 0, block, 0, 128, 384);
    CountSplit(src, 0, block, 0, 512, 128);
    CountSplit(src, 0, block, 0, 640, 384);
    assert q.Score(0) == 768;
    assert q.Sample(0) == 0 && q.ScreenMin() == 64;
    forall j | q.Candidate(j, true) ensures false { }
    forall j | q.Candidate(j, false) ensures j == 0 { }
  }
}
