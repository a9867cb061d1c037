/** The chained hash table, src/core/hash_table.c. An entry is never changed once it is
    linked in, so a bucket's chain is a value. */
module HashTable {
  import opened Bytes

  datatype Chain = End | Entry(key: nat, index: nat, next: Chain)

  /** One insertion: a key (a CRC) and what it refers to. */
  datatype Item = Item(key: nat, index: nat)

  /** Bucket `b` of `n` after the first `m` insertions of `log`: newest first. */
  function ChainOf(log: seq<Item>, m: nat, b: nat, n: nat): (c: Chain)
    requires m <= |log| && n > 0
  {
    if m == 0 then End
    else
      var rest := ChainOf(log, m - 1, b, n);
      if log[m - 1].key % n == b then Entry(log[m - 1].key, log[m - 1].index, rest) else rest
  }

  lemma {:induction false} ChainPrefix(log: seq<Item>, x: Item, m: nat, b: nat, n: nat)
    requires m <= |log| && n > 0
    ensures ChainOf(log + [x], m, b, n) == ChainOf(log, m, b, n)
  {
    if m > 0 {
      ChainPrefix(log, x, m - 1, b, n);
    }
  }

  /** The chain from its first entry with this key on. */
  function Skip(c: Chain, key: nat): (r: Chain)
  {
    if c.End? || c.key == key then c else Skip(c.next, key)
  }

  /** The first entry of a chain that the caller accepts. */
  function FindChain(c: Chain, want: nat -> bool): (r: Option<nat>)
  {
    if c.End? then None else if want(c.index) then Some(c.index) else FindChain(c.next, want)
  }

  /** Reference: a linear scan over the insertions, newest first. */
  function FindLog(log: seq<Item>, m: nat, want: nat -> bool): (r: Option<nat>)
    requires m <= |log|
    ensures r.Some? ==> want(r.value)
    ensures r.None? ==> forall i :: 0 <= i < m ==> !want(log[i].index)
    ensures r.Some? ==>
      exists i :: 0 <= i < m && log[i].index == r.value && forall j :: i < j < m ==> !want(log[j].index)
  {
    if m == 0 then None
    else if want(log[m - 1].index) then Some(log[m - 1].index)
    else FindLog(log, m - 1, want)
  }

  /** What a lookup followed by a walk of the chain finds. */
  function Find(log: seq<Item>, n: nat, key: nat, want: nat -> bool): (r: Option<nat>)
    requires n > 0
  {
    FindChain(Skip(ChainOf(log, |log|, key % n, n), key), want)
  }

  lemma FindUnfold(log: seq<Item>, n: nat, key: nat, want: nat -> bool)
    requires n > 0
    ensures Find(log, n, key, want) == FindChain(Skip(ChainOf(log, |log|, key % n, n), key), want)
  {
  }

  lemma {:induction false} FindWanted(c: Chain, want: nat -> bool)
    ensures FindChain(c, want).Some? ==> want(FindChain(c, want).value)
  {
    if c.Entry? && !want(c.index) {
      FindWanted(c.next, want);
    }
  }

  /** Entries that the caller accepts all have the key: none of them is in another bucket. */
  ghost predicate KeyDecides(log: seq<Item>, key: nat, want: nat -> bool)
  {
    forall i :: 0 <= i < |log| && want(log[i].index) ==> log[i].key == key
  }

  lemma {:induction false} ChainIsScan(log: seq<Item>, m: nat, n: nat, key: nat, want: nat -> bool)
    requires m <= |log| && n > 0 && KeyDecides(log, key, want)
    ensures FindChain(ChainOf(log, m, key % n, n), want) == FindLog(log, m, want)
    ensures FindChain(Skip(ChainOf(log, m, key % n, n), key), want) == FindLog(log, m, want)
  {
    if m > 0 {
      ChainIsScan(log, m - 1, n, key, want);
    }
  }

  /** For any hash function, any number of buckets and any collisions, looking up a key and
      walking the chain finds what a linear scan over all insertions, newest first, finds,
      provided only that acceptable entries carry the key. */
  lemma LookupIsScan(log: seq<Item>, n: nat, key: nat, want: nat -> bool)
    requires n > 0 && KeyDecides(log, key, want)
    ensures Find(log, n, key, want) == FindLog(log, |log|, want)
  {
    ChainIsScan(log, |log|, n, key, want);
  }

  // ----- sizing

  const MIN_BUCKETS := 1024

  /** The exponent of the least power of two that is at least `n`, from `1 << k` on. */
  function CeilLog2(n: nat, k: nat): (r: nat)
    ensures r >= k && Shl(1, r) >= n && (r > k ==> Shl(1, r - 1) < n)
    decreases n - Shl(1, k)
  {
    if Shl(1, k) >= n then k else CeilLog2(n, k + 1)
  }

  /** Room for the expected entries at a load factor of at most 3/4. */
  function BucketCount(expected: nat): (n: nat)
    ensures n >= MIN_BUCKETS && 3 * n >= 4 * expected
    ensures exists k :: n == Shl(1, k)
  {
    var least := (expected * 4) / 3;
    var k := CeilLog2(if least < MIN_BUCKETS then MIN_BUCKETS else least, 0);
    MultipleOfFour(k);
    LoadFactor(Shl(1, k), expected);
    Shl(1, k)
  }

  /** A multiple of four that is at least 4e/3, rounded down, is at least 4e/3. */
  lemma LoadFactor(n: nat, e: nat)
    requires n % 4 == 0 && n >= (e * 4) / 3
    ensures 3 * n >= 4 * e
  {
    var q, m := n / 4, (e * 4) / 3;
    assert n == 4 * q;
    assert 3 * m + 2 >= 4 * e;
    assert 12 * q + 2 >= 4 * e;
    assert 3 * q >= e;
  }

  lemma MultipleOfFour(k: nat)
    requires Shl(1, k) >= 4
    ensures Shl(1, k) % 4 == 0
  {
    if k >= 2 {
      assert Shl(1, k) == 2 * Shl(1, k - 1) == 4 * Shl(1, k - 2);
    }
  }

  class Table {
    const buckets: array<Chain>
    var entryCount: nat
    ghost var log: seq<Item>

    ghost predicate Valid()
      reads this, buckets
    {
      && buckets.Length > 0 && entryCount == |log|
      && forall b :: 0 <= b < buckets.Length ==> buckets[b] == ChainOf(log, |log|, b, buckets.Length)
    }

    constructor (expected: nat)
      ensures Valid() && fresh(buckets) && log == []
    {
      buckets := new Chain[BucketCount(expected)](_ => End);
      entryCount, log := 0, [];
    }

    /** Head insertion. The pool allocation may fail, and then nothing is inserted. */
    method Insert(key: nat, index: nat, calm: bool) returns (ok: bool)
      requires Valid()
      modifies this, buckets
      ensures Valid()
      ensures log == if ok then old(log) + [Item(key, index)] else old(log)
      ensures calm ==> ok
    {
      ok := Attempt(calm);
      if !ok { return; }
      var b := key % buckets.Length;
      forall c | 0 <= c < buckets.Length
        ensures ChainOf(log + [Item(key, index)], |log|, c, buckets.Length) == buckets[c]
      {
        ChainPrefix(log, Item(key, index), |log|, c, buckets.Length);
      }
      buckets[b] := Entry(key, index, buckets[b]);
      entryCount := entryCount + 1;
      log := log + [Item(key, index)];
    }

    /** `fsd_hash_table_lookup`: the first entry with the key, and its chain. */
    method Lookup(key: nat) returns (c: Chain)
      requires Valid()
      ensures c == Skip(ChainOf(log, |log|, key % buckets.Length, buckets.Length), key)
    {
      c := buckets[key % buckets.Length];
      while c.Entry? && c.key != key
        invariant Skip(c, key) == Skip(buckets[key % buckets.Length], key)
        decreases c
      {
        c := c.next;
      }
    }
  }
}
