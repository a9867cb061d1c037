/** Extent lists and extent trees: `extent_append` and `extents_from_node` of
    src/fs/ext_reader.c. */
module Extents {
  import opened Bytes
  import opened ExtImage

  /** `count` file blocks from `logical` on, stored from block `physical` on. */
  datatype Extent = Extent(logical: nat, physical: nat, count: nat)

  /** File block `logical` is stored in filesystem block `physical`. */
  datatype Pair = Pair(logical: nat, physical: nat)

  function Pairs(logical: nat, physical: nat, count: nat): (r: seq<Pair>)
    ensures |r| == count
    decreases count
  {
    if count == 0 then [] else [Pair(logical, physical)] + Pairs(logical + 1, physical + 1, count - 1)
  }

  /** What an extent list means: its block mappings in order. */
  function Flatten(list: seq<Extent>): (r: seq<Pair>)
  {
    if list == [] then []
    else
      var last := list[|list| - 1];
      Flatten(list[..|list| - 1]) + Pairs(last.logical, last.physical, last.count)
  }

  lemma {:induction false} PairsJoin(l: nat, p: nat, a: nat, b: nat)
    ensures Pairs(l, p, a) + Pairs(l + a, p + a, b) == Pairs(l, p, a + b)
    decreases a
  {
    if a > 0 {
      PairsJoin(l + 1, p + 1, a - 1, b);
    }
  }

  const MAX_EXTENTS_PER_FILE := 65536

  /** The new mapping continues the list's last extent. */
  predicate Continues(list: seq<Extent>, logical: nat, physical: nat)
  {
    list != [] &&
    var last := list[|list| - 1];
    last.logical + last.count == logical && last.physical + last.count == physical
  }

  /** `extent_append`: `None` when the per-file cap is reached. */
  function ExtentAppend(list: seq<Extent>, logical: nat, physical: nat, count: nat): (r: Option<seq<Extent>>)
    ensures r.None? ==> |list| >= MAX_EXTENTS_PER_FILE
  {
    if count == 0 then Some(list)
    else if Continues(list, logical, physical) then
      var last := list[|list| - 1];
      Some(list[|list| - 1 := last.(count := last.count + count)])
    else if |list| >= MAX_EXTENTS_PER_FILE then None
    else Some(list + [Extent(logical, physical, count)])
  }

  lemma FlattenSnoc(list: seq<Extent>, x: Extent)
    ensures Flatten(list + [x]) == Flatten(list) + Pairs(x.logical, x.physical, x.count)
  {
    hide Pairs;
    assert (list + [x])[..|list|] == list;
  }

  /** Coalescing never changes the mapping. */
  lemma AppendMeaning(list: seq<Extent>, logical: nat, physical: nat, count: nat)
    ensures var r := ExtentAppend(list, logical, physical, count);
      r.Some? ==> Flatten(r.value) == Flatten(list) + Pairs(logical, physical, count)
  {
    if count == 0 {
    } else if Continues(list, logical, physical) {
      GrowMeaning(list, logical, physical, count);
    } else {
      hide Pairs, Flatten;
      FlattenSnoc(list, Extent(logical, physical, count));
    }
  }

  lemma GrowMeaning(list: seq<Extent>, logical: nat, physical: nat, count: nat)
    requires Continues(list, logical, physical)
    ensures var last := list[|list| - 1];
      Flatten(list[|list| - 1 := last.(count := last.count + count)]) == Flatten(list) + Pairs(logical, physical, count)
  {
    hide Pairs, Flatten;
    var n := |list|;
    var front, last := list[..n - 1], list[n - 1];
    var grown := last.(count := last.count + count);
    FlattenSnoc(front, last);
    FlattenSnoc(front, grown);
    assert list == front + [last] && list[n - 1 := grown] == front + [grown];
    PairsJoin(last.logical, last.physical, last.count, count);
    assert Flatten(front) + (Pairs(last.logical, last.physical, last.count) + Pairs(logical, physical, count))
      == Flatten(front) + Pairs(last.logical, last.physical, last.count) + Pairs(logical, physical, count);
  }

  // ----- how many extents a mapping takes

  /** `q` continues `p` in the file and on disk. */
  predicate Steps(p: Pair, q: Pair)
  {
    p.logical + 1 == q.logical && p.physical + 1 == q.physical
  }

  /** The number of maximal runs of consecutive mappings: the number of extents it takes to write them. */
  function Runs(ps: seq<Pair>): (n: nat)
  {
    var k := |ps| - 1;
    if ps == [] then 0
    else Runs(ps[..k]) + (if k > 0 && Steps(ps[k - 1], ps[k]) then 0 else 1)
  }

  lemma RunsSnoc(ps: seq<Pair>, q: Pair)
    ensures Runs(ps + [q]) == Runs(ps) + (if ps != [] && Steps(ps[|ps| - 1], q) then 0 else 1)
  {
    assert (ps + [q])[..|ps|] == ps;
  }

  lemma {:induction false} RunsMonotone(ps: seq<Pair>, qs: seq<Pair>)
    ensures Runs(ps) <= Runs(ps + qs)
    decreases |qs|
  {
    if qs == [] {
      assert ps + qs == ps;
    } else {
      var n := |qs| - 1;
      RunsMonotone(ps, qs[..n]);
      RunsSnoc(ps + qs[..n], qs[n]);
      assert ps + qs == (ps + qs[..n]) + [qs[n]];
    }
  }

  /** One more extent is one more run, unless it continues what is there. */
  lemma {:induction false} RunsPairs(ps: seq<Pair>, l: nat, p: nat, c: nat)
    requires c >= 1
    ensures Runs(ps + Pairs(l, p, c)) == Runs(ps) + (if ps != [] && Steps(ps[|ps| - 1], Pair(l, p)) then 0 else 1)
    decreases c
  {
    hide Runs;
    if c == 1 {
      assert Pairs(l, p, 1) == [Pair(l, p)] + Pairs(l + 1, p + 1, 0) == [Pair(l, p)];
      RunsSnoc(ps, Pair(l, p));
    } else {
      RunsPairs(ps, l, p, c - 1);
      PairsJoin(l, p, c - 1, 1);
      var front, last := Pairs(l, p, c - 1), Pair(l + c - 1, p + c - 1);
      assert Pairs(l + (c - 1), p + (c - 1), 1) == [last] + Pairs(l + c, p + c, 0);
      assert Pairs(l, p, c) == front + [last];
      PairsAt(l, p, c - 1, c - 2);
      RunsSnoc(ps + front, last);
      assert ps + (front + [last]) == (ps + front) + [last];
      assert (ps + front)[|ps + front| - 1] == front[c - 2];
    }
  }

  /** No extent could have been merged into the one before. */
  ghost predicate Coalesced(list: seq<Extent>)
  {
    NonEmpty(list) && forall i :: 0 < i < |list| ==> !Follows(list[i - 1], list[i])
  }

  /** The last mapping of a list. */
  lemma FlattenLast(list: seq<Extent>)
    requires NonEmpty(list) && list != []
    ensures var ps, x := Flatten(list), list[|list| - 1];
      |ps| >= 1 && ps[|ps| - 1] == Pair(x.logical + x.count - 1, x.physical + x.count - 1)
  {
    hide Pairs;
    var x := list[|list| - 1];
    PairsAt(x.logical, x.physical, x.count, x.count - 1);
  }

  /** A list that is coalesced has exactly as many extents as its mapping has runs. */
  lemma {:induction false} RunsCount(list: seq<Extent>)
    requires Coalesced(list)
    ensures Runs(Flatten(list)) == |list|
  {
    hide Runs, Pairs, Flatten;
    if list == [] {
      EmptyRuns();
    } else {
      var n := |list| - 1;
      var front, x := list[..n], list[n];
      RunsCount(front);
      assert list == front + [x];
      FlattenSnoc(front, x);
      RunsPairs(Flatten(front), x.logical, x.physical, x.count);
      if n > 0 {
        FlattenLast(front);
        assert !Follows(list[n - 1], x);
      } else {
        EmptyRuns();
      }
    }
  }

  lemma EmptyRuns()
    ensures Flatten([]) == [] && Runs([]) == 0
  {
  }

  /** Appending keeps a list coalesced. */
  lemma AppendCoalesced(list: seq<Extent>, logical: nat, physical: nat, count: nat)
    requires Coalesced(list)
    ensures var r := ExtentAppend(list, logical, physical, count); r.Some? ==> Coalesced(r.value)
  {
    var r := ExtentAppend(list, logical, physical, count);
    if count > 0 && r.Some? {
      forall i | 0 < i < |r.value| ensures !Follows(r.value[i - 1], r.value[i]) {
        if i < |list| { assert !Follows(list[i - 1], list[i]); }
      }
    }
  }

  /** The cap refuses an extent exactly when one run more than the cap would be needed. */
  lemma AppendRefused(list: seq<Extent>, logical: nat, physical: nat, count: nat)
    requires Coalesced(list) && |list| <= MAX_EXTENTS_PER_FILE && count >= 1
    ensures ExtentAppend(list, logical, physical, count).None? <==>
      Runs(Flatten(list) + Pairs(logical, physical, count)) > MAX_EXTENTS_PER_FILE
  {
    hide Runs, Pairs, Flatten;
    RunsCount(list);
    RunsPairs(Flatten(list), logical, physical, count);
    if list != [] {
      FlattenLast(list);
    } else {
      EmptyRuns();
    }
  }

  ghost predicate NonEmpty(list: seq<Extent>)
  {
    forall i :: 0 <= i < |list| ==> list[i].count >= 1
  }

  /** A list's mappings are the blocks of its extents. */
  lemma {:induction false} FlattenMember(list: seq<Extent>, k: nat) returns (e: nat, b: nat)
    requires k < |Flatten(list)|
    ensures e < |list| && b < list[e].count
    ensures Flatten(list)[k] == Pair(list[e].logical + b, list[e].physical + b)
  {
    var n := |list| - 1;
    var front := Flatten(list[..n]);
    if k < |front| {
      e, b := FlattenMember(list[..n], k);
    } else {
      e, b := n, k - |front|;
      PairsAt(list[n].logical, list[n].physical, list[n].count, b);
    }
  }

  /** Every block of every extent is among the mappings. */
  lemma {:induction false} FlattenHas(list: seq<Extent>, e: nat, b: nat) returns (k: nat)
    requires e < |list| && b < list[e].count
    ensures k < |Flatten(list)| && Flatten(list)[k] == Pair(list[e].logical + b, list[e].physical + b)
  {
    var n := |list| - 1;
    if e < n {
      k := FlattenHas(list[..n], e, b);
    } else {
      k := |Flatten(list[..n])| + b;
      PairsAt(list[n].logical, list[n].physical, list[n].count, b);
    }
  }

  lemma {:induction false} PairsAt(l: nat, p: nat, c: nat, b: nat)
    requires b < c
    ensures Pairs(l, p, c)[b] == Pair(l + b, p + b)
    decreases b
  {
    if b > 0 {
      PairsAt(l + 1, p + 1, c - 1, b - 1);
    }
  }

  /** `y` could have been merged into `x`. */
  predicate Follows(x: Extent, y: Extent)
  {
    x.logical + x.count == y.logical && x.physical + x.count == y.physical
  }

  /** Each extent starts at or after the end of the one before it. */
  ghost predicate Ordered(list: seq<Extent>)
  {
    forall i :: 0 < i < |list| ==> list[i - 1].logical + list[i - 1].count <= list[i].logical
  }

  /** Ascending, disjoint and maximally coalesced, with no empty extent. */
  ghost predicate Tidy(list: seq<Extent>)
  {
    Coalesced(list) && Ordered(list)
  }

  /** The first file block after the list. */
  function EndOf(list: seq<Extent>): (e: nat)
  {
    if list == [] then 0 else list[|list| - 1].logical + list[|list| - 1].count
  }

  /** Appending in ascending order keeps a list tidy. */
  lemma AppendTidy(list: seq<Extent>, logical: nat, physical: nat, count: nat)
    requires Tidy(list) && EndOf(list) <= logical && count >= 1
    ensures var r := ExtentAppend(list, logical, physical, count);
      r.Some? ==> Tidy(r.value) && EndOf(r.value) == logical + count
  {
    if Continues(list, logical, physical) {
      var n := |list| - 1;
      GrowTidy(list, list[n := list[n].(count := list[n].count + count)]);
    } else {
      AddTidy(list, Extent(logical, physical, count));
    }
  }

  lemma AddTidy(list: seq<Extent>, x: Extent)
    requires Tidy(list) && EndOf(list) <= x.logical && x.count >= 1 && !Continues(list, x.logical, x.physical)
    ensures Tidy(list + [x])
  {
    var r := list + [x];
    forall i | 0 < i < |r|
      ensures r[i - 1].logical + r[i - 1].count <= r[i].logical && !Follows(r[i - 1], r[i])
    {
      if i < |list| { assert r[i] == list[i]; }
    }
  }

  lemma GrowTidy(list: seq<Extent>, grown: seq<Extent>)
    requires Tidy(list) && |grown| == |list| > 0 && grown[|list| - 1].count >= list[|list| - 1].count
    requires grown == list[|list| - 1 := list[|list| - 1].(count := grown[|list| - 1].count)]
    ensures Tidy(grown)
  {
    hide Follows;
    var n := |list| - 1;
    forall i | 0 < i < |grown| ensures !Follows(grown[i - 1], grown[i]) {
      assert !Follows(list[i - 1], list[i]);
      if i == n { SameStart(list[i - 1], list[i], grown[i]); }
    }
  }

  lemma SameStart(x: Extent, y: Extent, z: Extent)
    requires y.logical == z.logical && y.physical == z.physical
    ensures Follows(x, y) <==> Follows(x, z)
  {
  }

  // ----- extent trees

  const EXTENT_MAGIC := 0xF30A
  const EXTENT_MAX_DEPTH := 5
  const EXT_INIT_MAX_LEN := 32768

  /** An extent-tree node of `space` bytes at byte offset `at`. */
  datatype Node = Node(at: nat, space: nat)

  ghost predicate NodeInside(fs: Fs, node: Node)
  {
    node.at + node.space <= |fs.image|
  }

  function Entries(fs: Fs, node: Node): (n: nat)
    requires NodeInside(fs, node) && node.space >= 12
  {
    Rd16(fs.image, node.at + 2)
  }

  function Depth(fs: Fs, node: Node): (n: nat)
    requires NodeInside(fs, node) && node.space >= 12
  {
    Rd16(fs.image, node.at + 6)
  }

  /** The header checks; `want < 0` accepts any depth (the root in the inode). */
  predicate HeaderOk(fs: Fs, node: Node, want: int)
    requires NodeInside(fs, node)
  {
    && node.space >= 12 && Rd16(fs.image, node.at) == EXTENT_MAGIC
    && Depth(fs, node) <= EXTENT_MAX_DEPTH && (want >= 0 ==> Depth(fs, node) == want)
    && 12 + Entries(fs, node) * 12 <= node.space
  }

  /** A leaf entry as (first file block, length, physical block). */
  function Leaf(fs: Fs, e: nat): (x: Extent)
    requires e + 12 <= |fs.image|
  {
    Extent(Rd32(fs.image, e), Rd32(fs.image, e + 8) + Rd16(fs.image, e + 6) * TWO32, Rd16(fs.image, e + 4))
  }

  /** Initialised entries have a length of 1 to 32768; longer ones are unwritten. */
  predicate Initialised(x: Extent)
  {
    1 <= x.count <= EXT_INIT_MAX_LEN
  }

  function ChildBlock(fs: Fs, e: nat): (b: nat)
    requires e + 12 <= |fs.image|
  {
    Rd32(fs.image, e + 4) + Rd16(fs.image, e + 8) * TWO32
  }

  /** Reference: the initialised leaf entries below a node, in tree order; `None` when the tree is
      malformed. The depth strictly decreases. */
  ghost function TreeLeaves(fs: Fs, node: Node, want: int): (r: Option<seq<Extent>>)
    requires fs.Valid() && NodeInside(fs, node)
    decreases if want < 0 then EXTENT_MAX_DEPTH + 1 else want, 1, 0
  {
    if !HeaderOk(fs, node, want) then None else EntryLeaves(fs, node, Depth(fs, node), 0)
  }

  ghost function EntryLeaves(fs: Fs, node: Node, depth: nat, i: nat): (r: Option<seq<Extent>>)
    requires fs.Valid() && NodeInside(fs, node) && HeaderOk(fs, node, depth) && i <= Entries(fs, node)
    decreases depth, 0, Entries(fs, node) - i
  {
    if i == Entries(fs, node) then Some([])
    else
      var first, rest := OneEntry(fs, node, depth, i), EntryLeaves(fs, node, depth, i + 1);
      if first.None? || rest.None? then None else Some(first.value + rest.value)
  }

  ghost function OneEntry(fs: Fs, node: Node, depth: nat, i: nat): (r: Option<seq<Extent>>)
    requires fs.Valid() && NodeInside(fs, node) && HeaderOk(fs, node, depth) && i < Entries(fs, node)
    decreases depth, 0, 0
  {
    var e := node.at + 12 + i * 12;
    if depth == 0 then
      var x := Leaf(fs, e);
      if !Initialised(x) then Some([])
      else if x.physical == 0 || x.physical + x.count > fs.blockCount then None
      else Some([x])
    else
      match FsBlock(fs, ChildBlock(fs, e))
      case None => None
      case Some(off) => TreeLeaves(fs, Node(off, fs.blockSize), depth - 1)
  }

  /** The mappings of a tree. */
  ghost function TreePairs(fs: Fs, node: Node, want: int): (r: Option<seq<Pair>>)
    requires fs.Valid() && NodeInside(fs, node)
  {
    match TreeLeaves(fs, node, want)
    case None => None
    case Some(leaves) => Some(Flatten(leaves))
  }

  // ----- the traversal

  /** A list that the traversal may hold: coalesced, within the cap. */
  ghost predicate Held(list: seq<Extent>)
  {
    Coalesced(list) && |list| <= MAX_EXTENTS_PER_FILE
  }

  /** The outcome of appending `leaves` to `list0`. Success means that they are all there. A failure that
      is not a failed allocation means that the tree is malformed or that one run more than the cap
      would be needed. */
  ghost predicate Appended(list0: seq<Extent>, leaves: Option<seq<Extent>>, ok: bool, lost: bool, list: seq<Extent>)
  {
    && (ok ==> leaves.Some? && Held(list) && Flatten(list) == Flatten(list0) + Flatten(leaves.value))
    && (!ok && !lost && leaves.Some? ==> Runs(Flatten(list0) + Flatten(leaves.value)) > MAX_EXTENTS_PER_FILE)
  }

  lemma {:induction false} FlattenConcat(a: seq<Extent>, b: seq<Extent>)
    ensures Flatten(a + b) == Flatten(a) + Flatten(b)
  {
    hide Pairs;
    if b == [] {
      assert a + b == a;
    } else {
      var n := |b| - 1;
      FlattenConcat(a, b[..n]);
      assert a + b == (a + b[..n]) + [b[n]] && b == b[..n] + [b[n]];
      FlattenSnoc(a + b[..n], b[n]);
      FlattenSnoc(b[..n], b[n]);
    }
  }

  /** First one part, then the rest. */
  lemma AppendedThen(list0: seq<Extent>, a: Option<seq<Extent>>, mid: seq<Extent>, b: Option<seq<Extent>>,
                     ok: bool, lost: bool, list: seq<Extent>)
    requires Appended(list0, a, true, false, mid) && Appended(mid, b, ok, lost, list)
    ensures Appended(list0, if a.None? || b.None? then None else Some(a.value + b.value), ok, lost, list)
  {
    hide Flatten, Runs, Held;
    if b.Some? {
      FlattenConcat(a.value, b.value);
      assert Flatten(list0) + (Flatten(a.value) + Flatten(b.value))
        == (Flatten(list0) + Flatten(a.value)) + Flatten(b.value);
    }
  }

  /** A failure in one part is a failure of the whole. */
  lemma AppendedFails(list0: seq<Extent>, a: Option<seq<Extent>>, b: Option<seq<Extent>>, lost: bool, list: seq<Extent>)
    requires Appended(list0, a, false, lost, list)
    ensures Appended(list0, if a.None? || b.None? then None else Some(a.value + b.value), false, lost, list)
  {
    hide Flatten, Runs, Held;
    if a.Some? && b.Some? {
      FlattenConcat(a.value, b.value);
      RunsMonotone(Flatten(list0) + Flatten(a.value), Flatten(b.value));
      assert Flatten(list0) + (Flatten(a.value) + Flatten(b.value))
        == (Flatten(list0) + Flatten(a.value)) + Flatten(b.value);
    }
  }

  lemma AppendedNothing(list: seq<Extent>)
    requires Held(list)
    ensures Appended(list, Some([]), true, false, list) && forall lost :: Appended(list, None, false, lost, list)
  {
    assert Flatten(list) + Flatten([]) == Flatten(list);
  }

  /** `extent_append` of one entry. Growing the list may run out of memory, and then the file is given
      up without a word; `lost` reports it. */
  method Append(list0: seq<Extent>, x: Extent, calm: bool) returns (ok: bool, lost: bool, list: seq<Extent>)
    requires Held(list0) && x.count >= 1
    ensures Appended(list0, Some([x]), ok, lost, list)
    ensures ok ==> ExtentAppend(list0, x.logical, x.physical, x.count) == Some(list)
    ensures lost ==> !ok && !calm
  {
    hide Flatten, Runs, Pairs;
    list, lost := list0, false;
    AppendMeaning(list, x.logical, x.physical, x.count);
    AppendCoalesced(list, x.logical, x.physical, x.count);
    AppendRefused(list, x.logical, x.physical, x.count);
    SingleFlatten(x);
    var r := ExtentAppend(list, x.logical, x.physical, x.count);
    if r.None? { return false, false, list; }
    if |r.value| > |list| {
      var grown := Attempt(calm);
      if !grown { return false, true, list; }
    }
    return true, false, r.value;
  }

  lemma SingleFlatten(x: Extent)
    ensures Flatten([x]) == Pairs(x.logical, x.physical, x.count)
  {
    hide Pairs;
    FlattenSnoc([], x);
    assert [] + [x] == [x] && Flatten([]) + Pairs(x.logical, x.physical, x.count)
      == Pairs(x.logical, x.physical, x.count);
  }

  /** One entry of a node. */
  method AppendEntry(fs: Fs, node: Node, depth: nat, i: nat, list0: seq<Extent>, calm: bool)
    returns (ok: bool, lost: bool, list: seq<Extent>)
    requires fs.Valid() && NodeInside(fs, node) && HeaderOk(fs, node, depth) && i < Entries(fs, node) && Held(list0)
    ensures Appended(list0, OneEntry(fs, node, depth, i), ok, lost, list)
    ensures lost ==> !ok && !calm
    decreases depth, 0
  {
    hide Flatten, Rd16, Rd32, Held, Appended;
    AppendedNothing(list0);
    var e := node.at + 12 + i * 12;
    if depth == 0 {
      var x := Leaf(fs, e);
      if !Initialised(x) { return true, false, list0; }
      if x.physical == 0 || x.physical + x.count > fs.blockCount { return false, false, list0; }
      ok, lost, list := Append(list0, x, calm);
    } else {
      var child := FsBlock(fs, ChildBlock(fs, e));
      if child.None? { return false, false, list0; }
      ok, lost, list := ExtentsFromNode(fs, Node(child.value, fs.blockSize), depth - 1, list0, calm);
    }
  }

  /** `extents_from_node`: appends a subtree's extents to `list0`. */
  method ExtentsFromNode(fs: Fs, node: Node, want: int, list0: seq<Extent>, calm: bool)
    returns (ok: bool, lost: bool, list: seq<Extent>)
    requires fs.Valid() && NodeInside(fs, node) && Held(list0)
    ensures Appended(list0, TreeLeaves(fs, node, want), ok, lost, list)
    ensures lost ==> !ok && !calm
    decreases if want < 0 then EXTENT_MAX_DEPTH + 1 else want, 2
  {
    hide Flatten, Rd16, Rd32, Held, Appended, OneEntry;
    list, lost := list0, false;
    AppendedNothing(list0);
    if !HeaderOk(fs, node, want) { return false, false, list; }
    var depth := Depth(fs, node);
    ok, lost, list := AppendEntries(fs, node, depth, list0, calm);
  }

  /** The loop over a node's entries. */
  method AppendEntries(fs: Fs, node: Node, depth: nat, list0: seq<Extent>, calm: bool)
    returns (ok: bool, lost: bool, list: seq<Extent>)
    requires fs.Valid() && NodeInside(fs, node) && HeaderOk(fs, node, depth) && Held(list0)
    ensures Appended(list0, EntryLeaves(fs, node, depth, 0), ok, lost, list)
    ensures lost ==> !ok && !calm
    decreases depth, 1
  {
    hide Flatten, Rd16, Rd32, Appended, OneEntry, Runs, Coalesced;
    list, lost := list0, false;
    ghost var all := EntryLeaves(fs, node, depth, 0);
    ghost var done: seq<Extent> := [];
    AppendedNothing(list0);
    StartContinued(all);
    for i := 0 to Entries(fs, node)
      invariant Appended(list0, Some(done), true, false, list) && Held(list)
      invariant Continued(all, done, EntryLeaves(fs, node, depth, i))
      invariant !lost
    {
      ghost var first, rest, before := OneEntry(fs, node, depth, i), EntryLeaves(fs, node, depth, i + 1), list;
      ok, lost, list := AppendEntry(fs, node, depth, i, list, calm);
      if !ok {
        AppendedThen(list0, Some(done), before, first, false, lost, list);
        AppendedFails(list0, if first.None? then None else Some(done + first.value), rest, lost, list);
        if first.Some? && rest.Some? { assert done + (first.value + rest.value) == (done + first.value) + rest.value; }
        return;
      }
      AppendedHeld(before, first, lost, list);
      AppendedThen(list0, Some(done), before, first, true, false, list);
      ContinueOne(all, done, first.value, rest);
      done := done + first.value;
      lost := false;
    }
    assert done + [] == done;
    return true, false, list;
  }

  lemma AppendedHeld(list0: seq<Extent>, leaves: Option<seq<Extent>>, lost: bool, list: seq<Extent>)
    requires Appended(list0, leaves, true, lost, list)
    ensures leaves.Some? && Held(list) && Appended(list0, leaves, true, false, list)
  {
  }

  /** `all` is `done` followed by what is still to come. */
  ghost predicate Continued(all: Option<seq<Extent>>, done: seq<Extent>, rest: Option<seq<Extent>>)
  {
    all == if rest.None? then None else Some(done + rest.value)
  }

  lemma StartContinued(all: Option<seq<Extent>>)
    ensures Continued(all, [], all)
  {
    if all.Some? {
      assert [] + all.value == all.value;
    }
  }

  lemma ContinueOne(all: Option<seq<Extent>>, done: seq<Extent>, first: seq<Extent>, rest: Option<seq<Extent>>)
    requires Continued(all, done, if rest.None? then None else Some(first + rest.value))
    ensures Continued(all, done + first, rest)
  {
    if rest.Some? {
      assert done + (first + rest.value) == (done + first) + rest.value;
    }
  }

  /** Reading a whole tree: in a run without failed allocations it succeeds if and only if the tree is
      well-formed and its mapping takes no more than 65536 extents, and the list is that mapping. */
  method ReadTree(fs: Fs, node: Node, want: int, calm: bool) returns (ok: bool, lost: bool, list: seq<Extent>)
    requires fs.Valid() && NodeInside(fs, node)
    ensures ok ==> TreePairs(fs, node, want) == Some(Flatten(list)) && Coalesced(list)
    ensures ok ==> Runs(Flatten(list)) == |list| <= MAX_EXTENTS_PER_FILE
    ensures !lost ==>
      (ok <==> TreePairs(fs, node, want).Some? && Runs(TreePairs(fs, node, want).value) <= MAX_EXTENTS_PER_FILE)
    ensures lost ==> !ok && !calm
  {
    hide Flatten, Runs, TreeLeaves;
    EmptyRuns();
    ok, lost, list := ExtentsFromNode(fs, node, want, [], calm);
    ghost var leaves := TreeLeaves(fs, node, want);
    if leaves.Some? {
      assert [] + Flatten(leaves.value) == Flatten(leaves.value);
    }
    if ok { RunsCount(list); }
  }

  // ----- the blocks of a well-formed tree

  ghost predicate LeafInRange(fs: Fs, x: Extent)
  {
    Initialised(x) && 1 <= x.physical && x.physical + x.count <= fs.blockCount
  }

  ghost predicate LeavesInRange(fs: Fs, leaves: seq<Extent>)
  {
    forall k :: 0 <= k < |leaves| ==> LeafInRange(fs, leaves[k])
  }

  /** Every leaf entry of a well-formed tree has a length of 1 to 32768 and lies in the filesystem. */
  lemma {:induction false} TreeInRange(fs: Fs, node: Node, want: int)
    requires fs.Valid() && NodeInside(fs, node)
    ensures TreeLeaves(fs, node, want).Some? ==> LeavesInRange(fs, TreeLeaves(fs, node, want).value)
    decreases if want < 0 then EXTENT_MAX_DEPTH + 1 else want, 1, 0
  {
    if HeaderOk(fs, node, want) {
      EntriesInRange(fs, node, Depth(fs, node), 0);
    }
  }

  lemma {:induction false} EntriesInRange(fs: Fs, node: Node, depth: nat, i: nat)
    requires fs.Valid() && NodeInside(fs, node) && HeaderOk(fs, node, depth) && i <= Entries(fs, node)
    ensures EntryLeaves(fs, node, depth, i).Some? ==> LeavesInRange(fs, EntryLeaves(fs, node, depth, i).value)
    decreases depth, 0, Entries(fs, node) - i
  {
    hide Rd16, Rd32;
    if i < Entries(fs, node) {
      var e := node.at + 12 + i * 12;
      if depth > 0 {
        var child := FsBlock(fs, ChildBlock(fs, e));
        if child.Some? {
          TreeInRange(fs, Node(child.value, fs.blockSize), depth - 1);
        }
      }
      EntriesInRange(fs, node, depth, i + 1);
    }
  }

  /** So every block that a well-formed tree maps is a block of the filesystem. */
  lemma TreeBlocks(fs: Fs, node: Node, want: int, k: nat)
    requires fs.Valid() && NodeInside(fs, node) && TreePairs(fs, node, want).Some?
    requires k < |TreePairs(fs, node, want).value|
    ensures 1 <= TreePairs(fs, node, want).value[k].physical < fs.blockCount
  {
    hide TreeLeaves, Flatten;
    TreeInRange(fs, node, want);
    var leaves := TreeLeaves(fs, node, want).value;
    var e, b := FlattenMember(leaves, k);
    assert LeafInRange(fs, leaves[e]);
  }
}
