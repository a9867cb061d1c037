/** Which runs the sparse writer of src/encoding/operation_encoder.c chooses, and what they cost. The
    two-zeros rule is stated position by position, without the writer's own scans. */
module SparseWriter {
  import opened Bytes
  import opened Sparse
  import opened SparseRuns
  import Varint

  /** The byte belongs in an add run: it is changed, or the next one is. */
  ghost predicate Changed(d: seq<byte>, k: nat)
    requires k < |d|
  {
    d[k] != 0 || (k + 1 < |d| && d[k + 1] != 0)
  }

  /** The rounds follow the rule from position `p` on: an add run takes bytes as long as they belong in one and
      stops at the first that does not; a copy run takes all the zeros that follow. */
  ghost predicate TwoZeros(r: Rounds, d: seq<byte>, p: nat)
    requires p < |d|
    decreases r
  {
    var e := p + |r.add|;
    var f := e + r.copy;
    && f <= |d| && r.add == d[p..e]
    && (forall k :: p <= k < e ==> Changed(d, k))
    && (e < |d| ==> !Changed(d, e))
    && (forall k :: e <= k < f ==> d[k] == 0)
    && (r.Last? <==> f == |d|)
    && (f < |d| ==> d[f] != 0)
    && (r.More? ==> TwoZeros(r.rest, d, f))
  }

  lemma {:induction false} AddEndRule(d: seq<byte>, p: nat)
    requires p <= |d|
    ensures var e := AddEnd(d, p);
      (forall k :: p <= k < e ==> Changed(d, k)) && (e < |d| ==> !Changed(d, e))
    decreases |d| - p
  {
    if p < |d| && !ZeroPair(d, p) {
      AddEndRule(d, p + 1);
    }
  }

  /** The writer follows the two-zeros rule. */
  lemma {:induction false} WriterRule(d: seq<byte>, p: nat) returns (r: Rounds)
    requires p < |d|
    ensures Encode(d, p) == Written(r, |d| - p) && Covers(r, |d| - p) && TwoZeros(r, d, p)
    decreases |d| - p
  {
    hide Varint.Encode, AddEnd, ZeroEnd, Encode, EncodeCopy, Changed;
    var e := AddEnd(d, p);
    AddEndRule(d, p);
    EncodeEnd(d);
    var add := d[p..e];
    if e == |d| {
      r := Last(add, 0);
      EncodeParts(d, p, []);
    } else {
      var f := ZeroEnd(d, e);
      CopyParts(d, e);
      EncodeParts(d, p, Varint.Encode(f - e) + Encode(d, f));
      if f == |d| {
        r := Last(add, f - e);
        assert Varint.Encode(f - e) + [] == Varint.Encode(f - e);
      } else {
        var rest := WriterRule(d, f);
        r := More(add, f - e, rest);
      }
    }
  }

  lemma CopyParts(d: seq<byte>, e: nat)
    requires e < |d| && d[e] == 0
    ensures var f := ZeroEnd(d, e); EncodeCopy(d, e) == Varint.Encode(f - e) + Encode(d, f)
  {
    hide Varint.Encode;
  }

  lemma EncodeParts(d: seq<byte>, p: nat, tail: seq<byte>)
    requires p < |d| && EncodeCopy(d, AddEnd(d, p)) == tail
    ensures var e := AddEnd(d, p); Encode(d, p) == Varint.Encode(e - p) + (d[p..e] + tail)
  {
    hide Varint.Encode, AddEnd, EncodeCopy;
    var e := AddEnd(d, p);
    assert Varint.Encode(e - p) + d[p..e] + tail == Varint.Encode(e - p) + (d[p..e] + tail);
  }

  /** The rule leaves no choice. */
  lemma {:induction false} RuleUnique(r: Rounds, s: Rounds, d: seq<byte>, p: nat)
    requires p < |d| && TwoZeros(r, d, p) && TwoZeros(s, d, p)
    ensures r == s
    decreases r
  {
    var e, g := p + |r.add|, p + |s.add|;
    hide Changed;
    assert e == g;
    var f, h := e + r.copy, g + s.copy;
    assert f == h;
    if r.More? {
      RuleUnique(r.rest, s.rest, d, f);
    }
  }

  /** The rounds hold the deltas. */
  lemma {:induction false} RuleDeltas(r: Rounds, d: seq<byte>, p: nat, k: nat)
    requires p < |d| && TwoZeros(r, d, p) && p <= k < |d|
    ensures DeltaAt(r, k - p) == d[k]
    decreases r
  {
    var f := p + |r.add| + r.copy;
    if k >= f {
      RuleDeltas(r.rest, d, f, k);
    }
  }

  // ----- cost by content

  /** The number of changed bytes in `d[p..e]`. */
  function Nonzero(d: seq<byte>, p: nat, e: nat): (n: nat)
    requires p <= e <= |d|
    decreases e - p
  {
    if p == e then 0 else (if d[p] != 0 then 1 else 0) + Nonzero(d, p + 1, e)
  }

  lemma {:induction false} NonzeroSplit(d: seq<byte>, p: nat, m: nat, e: nat)
    requires p <= m <= e <= |d|
    ensures Nonzero(d, p, e) == Nonzero(d, p, m) + Nonzero(d, m, e)
    decreases m - p
  {
    if p < m {
      NonzeroSplit(d, p + 1, m, e);
    }
  }

  /** At least every other byte of an add run is changed. */
  lemma {:induction false} AddRunDense(d: seq<byte>, p: nat, e: nat)
    requires p <= e <= |d| && (forall k :: p <= k < e ==> Changed(d, k)) && (e < |d| ==> d[e] == 0)
    ensures e - p <= 2 * Nonzero(d, p, e)
    decreases e - p
  {
    if p < e {
      assert Changed(d, p);
      if d[p] != 0 {
        AddRunDense(d, p + 1, e);
      } else {
        assert p + 1 < e;
        AddRunDense(d, p + 2, e);
      }
    }
  }

  lemma Unchanged(d: seq<byte>, k: nat)
    ensures k < |d| && !Changed(d, k) ==> d[k] == 0
  {
  }

  lemma ChangedHere(d: seq<byte>, k: nat)
    requires k < |d| && d[k] != 0
    ensures Changed(d, k)
  {
  }

  lemma WrittenSize(r: Rounds, n: nat)
    requires |r.add| < TWO64 && r.copy < TWO64
    ensures r.Last? ==> |Written(r, n)| <= 20 + |r.add|
    ensures r.More? && |r.add| + r.copy < n ==>
      |Written(r, n)| <= 20 + |r.add| + |Written(r.rest, n - (|r.add| + r.copy))|
  {
    hide Varint.Encode;
    Varint.TenBytesSuffice(|r.add|);
    Varint.TenBytesSuffice(r.copy);
  }

  /** Each round costs two lengths of at most ten bytes and its deltas. */
  lemma {:induction false} RoundsCost(r: Rounds, d: seq<byte>, p: nat)
    requires p < |d| < TWO64 && TwoZeros(r, d, p)
    ensures |Written(r, |d| - p)| <= 22 * Nonzero(d, p, |d|) + (if d[p] == 0 then 20 else 0)
    decreases r
  {
    hide Written, Changed;
    var e := p + |r.add|;
    var f := e + r.copy;
    assert e < |d| ==> d[e] == 0 by { Unchanged(d, e); }
    AddRunDense(d, p, e);
    WrittenSize(r, |d| - p);
    NonzeroSplit(d, p, e, |d|);
    NonzeroSplit(d, e, f, |d|);
    if d[p] != 0 {
      assert p < e by { assert Changed(d, p) by { ChangedHere(d, p); } }
      assert Nonzero(d, p, e) >= 1;
    }
    if r.More? {
      RoundsCost(r.rest, d, f);
    }
  }

  /** A block is cheap when little has changed, whatever its size. */
  lemma ContentBound(d: seq<byte>)
    requires |d| < TWO64
    ensures |Encode(d, 0)| <= 22 * Nonzero(d, 0, |d|) + 20
  {
    if d != [] {
      var r := WriterRule(d, 0);
      RoundsCost(r, d, 0);
    }
  }

  /** An unchanged block is one empty add run and one copy run. */
  lemma ZeroBlock(n: nat)
    requires n >= 1
    ensures Encode(Fill(0, n), 0) == [0] + Varint.Encode(n)
  {
    assert Varint.Encode(0) == [0];
    hide Varint.Encode, Encode, Fill;
    var d := Fill(0, n);
    var r := WriterRule(d, 0);
    var s := Last([], n);
    assert TwoZeros(s, d, 0);
    RuleUnique(r, s, d, 0);
    assert [] + Varint.Encode(n) == Varint.Encode(n);
  }
}
