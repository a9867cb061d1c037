/** Order of the mappings in extent trees. The interface comment at src/fs/ext_reader.h:55 promises
    ascending file blocks; the traversal does not check it. This module says exactly when it holds, and
    `OutOfOrder` has an image for which it does not. */
module ExtentOrder {
  import opened Bytes
  import opened ExtImage
  import opened Extents

  /** Strictly ascending by file block. */
  ghost predicate Ascending(ps: seq<Pair>)
  {
    forall i, j :: 0 <= i < j < |ps| ==> ps[i].logical < ps[j].logical
  }

  // ----- when the order holds

  lemma PairsAscending(l: nat, p: nat, c: nat)
    ensures Ascending(Pairs(l, p, c)) && forall i :: 0 <= i < c ==> Pairs(l, p, c)[i].logical == l + i
  {
    hide Pairs;
    var ps := Pairs(l, p, c);
    forall i | 0 <= i < c ensures ps[i].logical == l + i {
      PairsAt(l, p, c, i);
    }
  }

  lemma AscendingConcat(a: seq<Pair>, b: seq<Pair>)
    requires a != [] && b != []
    ensures Ascending(a + b) <==> Ascending(a) && Ascending(b) && a[|a| - 1].logical < b[0].logical
  {
    var s := a + b;
    if Ascending(s) {
      forall i, j | 0 <= i < j < |a| ensures a[i].logical < a[j].logical {
        assert s[i] == a[i] && s[j] == a[j];
      }
      forall i, j | 0 <= i < j < |b| ensures b[i].logical < b[j].logical {
        assert s[|a| + i] == b[i] && s[|a| + j] == b[j];
      }
      assert s[|a| - 1].logical < s[|a|].logical;
    }
  }

  lemma {:induction false} FlattenAscending(s: seq<Extent>)
    requires NonEmpty(s)
    ensures Ascending(Flatten(s)) <==> Ordered(s)
  {
    if s != [] {
      hide Pairs, Ascending;
      var n := |s| - 1;
      var front, last := s[..n], s[n];
      var tail := Pairs(last.logical, last.physical, last.count);
      FlattenAscending(front);
      PairsAscending(last.logical, last.physical, last.count);
      assert Flatten(s) == Flatten(front) + tail;
      if n == 0 {
        assert Flatten(s) == tail;
      } else {
        FlattenLast(front);
        AscendingConcat(Flatten(front), tail);
        assert EndOf(front) == s[n - 1].logical + s[n - 1].count;
        OrderedSnoc(s);
      }
    }
  }

  lemma OrderedSnoc(s: seq<Extent>)
    requires |s| >= 2
    ensures Ordered(s) <==>
      Ordered(s[..|s| - 1]) && s[|s| - 2].logical + s[|s| - 2].count <= s[|s| - 1].logical
  {
    var front := s[..|s| - 1];
    if Ordered(front) && s[|s| - 2].logical + s[|s| - 2].count <= s[|s| - 1].logical {
      forall i | 0 < i < |s| ensures s[i - 1].logical + s[i - 1].count <= s[i].logical {
        if i < |front| { assert front[i] == s[i]; }
      }
    }
  }

  /** A well-formed tree gives ascending mappings if and only if its initialised leaf entries, in tree
      order, each start at or after the end of the entry before. */
  lemma TreeAscending(fs: Fs, node: Node, want: int)
    requires fs.Valid() && NodeInside(fs, node) && TreePairs(fs, node, want).Some?
    ensures Ascending(TreePairs(fs, node, want).value) <==> Ordered(TreeLeaves(fs, node, want).value)
  {
    hide TreeLeaves, Ascending, Ordered;
    TreeInRange(fs, node, want);
    var leaves := TreeLeaves(fs, node, want).value;
    forall i | 0 <= i < |leaves| ensures leaves[i].count >= 1 {
      assert LeafInRange(fs, leaves[i]);
    }
    FlattenAscending(leaves);
  }
}
