/** The two stages that make partial matches: the local search of
    src/stages/stage_partial.c and the verification of filesystem hypotheses in
    src/stages/stage_fsmap.c (`fsd_fsmap_stage_run`). */
module Partial {
  import opened Bytes
  import opened Matches
  import opened Tracker
  import opened Stages
  import opened Scalar
  import opened BlockSearch

  // ----- recording a partial match

  ghost predicate IsDelta(delta: seq<byte>, src: seq<byte>, p: nat, block: seq<byte>)
  {
    p + |block| <= |src| && |delta| == |block| && AddBytes(src[p..p + |block|], delta) == block
  }

  method ComputeDelta(src: seq<byte>, p: nat, block: seq<byte>) returns (delta: seq<byte>)
    requires p + |block| <= |src|
    ensures IsDelta(delta, src, p, block)
  {
    hide AddBytes;
    delta := [];
    for k := 0 to |block|
      invariant |delta| == k
      invariant forall j :: 0 <= j < k ==> AddByte(src[p + j], delta[j]) == block[j]
    {
      delta := delta + [SubByte(block[k], src[p + k])];
    }
    assert AddBytes(src[p..p + |block|], delta) == block;
  }

  /** `s` is a partial match of destination block `d` with the source bytes at `p`. */
  ghost predicate PartialAt(im: Images, d: nat, s: BlockState, p: nat)
    requires d * im.bs + im.bs <= |im.dest|
  {
    && s.kind == PartialMatch && SourcePos(s, im.bs) == p && s.delta.Some?
    && IsDelta(s.delta.value, im.src, p, Block(im.dest, im.bs, d))
  }

  lemma PartialSound(im: Images, d: nat, s: BlockState, p: nat)
    requires d * im.bs + im.bs <= |im.dest| && PartialAt(im, d, s, p)
    ensures Sound(s, d, im.src, im.dest, im.bs)
  {
    assert s.delta.value[..im.bs] == s.delta.value;
  }

  /** At least `threshold` bytes of the block at source position `p` are equal. */
  ghost predicate Reaches(im: Images, d: nat, p: nat, threshold: nat)
    requires d * im.bs + im.bs <= |im.dest|
  {
    p + im.bs <= |im.src| && CountAt(im.src, p, Block(im.dest, im.bs, d), 0, im.bs) >= threshold
  }

  /** A record made by either of the two stages, with the promised quality. */
  ghost predicate GoodPartial(im: Images, d: nat, s: BlockState, threshold: nat)
    requires d * im.bs + im.bs <= |im.dest|
  {
    exists p: nat :: PartialAt(im, d, s, p) && Reaches(im, d, p, threshold)
  }

  /** What a partial stage may do: matched records stay, new ones are good partial matches. */
  ghost predicate PartialStep(im: Images, threshold: nat, was: seq<BlockState>, now: seq<BlockState>)
    requires im.Valid(|was|)
  {
    && Extends(was, now)
    && forall d :: 0 <= d < |was| && was[d].kind == NoMatch ==>
         now[d] == was[d] || (BlockInside(im.dest, im.bs, |was|, d); GoodPartial(im, d, now[d], threshold))
  }

  lemma PartialStepSound(im: Images, threshold: nat, was: seq<BlockState>, now: seq<BlockState>)
    requires im.Valid(|was|) && PartialStep(im, threshold, was, now) && AllSound(was, im.src, im.dest, im.bs)
    ensures AllSound(now, im.src, im.dest, im.bs)
  {
    hide Sound, PartialAt, Reaches;
    forall d | 0 <= d < |now|
      ensures (BlockInside(im.dest, im.bs, |now|, d); Sound(now[d], d, im.src, im.dest, im.bs))
    {
      BlockInside(im.dest, im.bs, |was|, d);
      if now[d] != was[d] {
        var p: nat :| PartialAt(im, d, now[d], p) && Reaches(im, d, p, threshold);
        PartialSound(im, d, now[d], p);
      }
    }
  }

  lemma PartialStepNext(im: Images, threshold: nat, was: seq<BlockState>, mid: seq<BlockState>, now: seq<BlockState>,
                        d: nat)
    requires im.Valid(|was|) && PartialStep(im, threshold, was, mid)
    requires d < |was| && mid[d].kind == NoMatch && |now| == |mid| && now == mid[d := now[d]]
    requires d * im.bs + im.bs <= |im.dest| && GoodPartial(im, d, now[d], threshold)
    ensures PartialStep(im, threshold, was, now)
  {
    hide GoodPartial;
  }

  /** Computes the delta and records the match; the caller has checked that the block is
      unmatched. The delta's allocation may fail, and then nothing is recorded. */
  method Record(tr: BlockTracker, im: Images, d: nat, p: nat, ghost threshold: nat, ghost was: seq<BlockState>,
                calm: bool)
    returns (ok: bool)
    requires tr.Valid() && im.Valid(tr.blocks.Length) && Unmatched(tr.blocks[..], d)
    requires |was| == tr.blocks.Length && PartialStep(im, threshold, was, tr.blocks[..])
    requires d * im.bs + im.bs <= |im.dest| && Reaches(im, d, p, threshold)
    modifies tr, tr.blocks, tr.bitmap
    ensures tr.Valid() && PartialStep(im, threshold, was, tr.blocks[..])
    ensures !ok ==> tr.blocks[..] == old(tr.blocks[..])
    ensures ok ==> tr.blocks[..] == old(tr.blocks[..])[d := tr.blocks[d]] && PartialAt(im, d, tr.blocks[d], p)
    ensures calm ==> ok
  {
    hide Extends, IsDelta, PartialStep, CountAt, GoodPartial, BlockTracker.Valid;
    ok := Attempt(calm);
    if !ok { return; }
    ghost var before := tr.blocks[..];
    var delta := ComputeDelta(im.src, p, Block(im.dest, im.bs, d));
    tr.SetMatch(d, PartialMatch, p / im.bs);
    tr.SetDelta(d, p % im.bs, delta);
    ghost var s := tr.blocks[d];
    Position(p, im.bs);
    assert PartialAt(im, d, s, p);
    assert tr.blocks[..] == before[d := s];
    GoodOne(im, d, s, p, threshold);
    PartialStepNext(im, threshold, was, before, tr.blocks[..], d);
  }

  lemma Position(p: nat, bs: nat)
    requires bs >= 1
    ensures (p / bs) * bs + p % bs == p
  {
  }

  lemma GoodOne(im: Images, d: nat, s: BlockState, p: nat, threshold: nat)
    requires d * im.bs + im.bs <= |im.dest| && PartialAt(im, d, s, p) && Reaches(im, d, p, threshold)
    ensures GoodPartial(im, d, s, threshold)
  {
    hide PartialAt, Reaches;
  }

  // ----- stage 3: finding the best offset for one block

  /** The part of the source that the local search looks at: whole blocks only. */
  function Usable(im: Images): (s: seq<byte>)
    requires im.bs >= 1
    ensures |s| == im.SrcBlocks() * im.bs && s <= im.src
  {
    MulNonNeg(im.SrcBlocks(), im.bs);
    assert |im.src| == im.SrcBlocks() * im.bs + |im.src| % im.bs;
    im.src[..im.SrcBlocks() * im.bs]
  }

  lemma {:induction false} CountPrefix(s: seq<byte>, t: seq<byte>, p: nat, block: seq<byte>, n: nat)
    requires s <= t && p + n <= |s| && n <= |block|
    ensures CountAt(s, p, block, 0, n) == CountAt(t, p, block, 0, n)
  {
    if n > 0 {
      CountPrefix(s, t, p, block, n - 1);
    }
  }

  /** The sweep around the block's own position. */
  function Around(im: Images, d: nat, range: nat, threshold: nat): (q: Query)
    requires im.bs >= 1 && d * im.bs + im.bs <= |im.dest|
  {
    Query(Usable(im), Block(im.dest, im.bs, d), d * im.bs, 0 - range, range, threshold)
  }

  /** No in-bounds offset within the radius that passes the prescreen reaches the threshold. */
  ghost predicate NothingAround(im: Images, d: nat, range: nat, threshold: nat)
    requires im.bs >= 1 && d * im.bs + im.bs <= |im.dest|
  {
    var q := Around(im, d, range, threshold);
    forall o :: q.Candidate(o, true) ==> q.Score(o) < threshold
  }

  /** No screened offset of 0 to `range` from source position `base` reaches the threshold. */
  ghost predicate NothingAfter(im: Images, d: nat, base: int, range: nat, threshold: nat)
    requires im.bs >= 1 && d * im.bs + im.bs <= |im.dest|
  {
    var q := After(im, d, base, range, threshold);
    forall o :: q.Candidate(o, true) ==> q.Score(o) < threshold
  }

  /** The sweep from where the previous block's match leads. */
  function After(im: Images, d: nat, base: int, range: nat, threshold: nat): (q: Query)
    requires im.bs >= 1 && d * im.bs + im.bs <= |im.dest|
  {
    Query(Usable(im), Block(im.dest, im.bs, d), base, 0, range, threshold)
  }

  /** No screened offset within the radius has more than `count` equal bytes. */
  ghost predicate NoneBetterAround(im: Images, d: nat, range: nat, threshold: nat, count: nat)
    requires im.bs >= 1 && d * im.bs + im.bs <= |im.dest|
  {
    var q := Around(im, d, range, threshold);
    forall o :: q.Candidate(o, true) ==> q.Score(o) <= count
  }

  /** Nine tenths of the block, rounded up, but not less than the threshold. */
  function QuickAccept(bs: nat, threshold: nat): (n: nat)
    ensures n >= threshold && 10 * n >= 9 * bs
    ensures n > threshold ==> 10 * (n - 1) < 9 * bs
  {
    var n := (bs * 9 + 9) / 10;
    if n < threshold then threshold else n
  }

  /** The position is in bounds and has at least `accept` equal bytes. */
  ghost predicate Accepts(src: seq<byte>, block: seq<byte>, pos: int, accept: nat)
  {
    0 <= pos && pos + |block| <= |src| && CountAt(src, pos, block, 0, |block|) >= accept
  }

  /** One exact count at a likely position. */
  method Probe(src: seq<byte>, block: seq<byte>, pos: int, accept: nat) returns (hit: bool, count: nat)
    ensures hit <==> Accepts(src, block, pos, accept)
    ensures hit ==> CountAt(src, pos, block, 0, |block|) == count
  {
    if pos < 0 || pos + |block| > |src| { return false, 0; }
    count := CountMatches(src, pos, block, 0, |block|);
    hit := count >= accept;
  }

  /** Probes, sweep, and relocation-relative sweep. The result is a real position whenever its count
      reaches the threshold; the sweep's -1 is never one. Unless a probe was good enough to be taken at
      once, nothing around the block is better. The continuation of the previous match is probed before the
      block's own position. */
  method FindBest(im: Images, d: nat, range: nat, threshold: nat, prevRelocated: bool, prevPos: int)
    returns (offset: int, count: nat)
    requires im.bs >= 1 && d * im.bs + im.bs <= |im.dest| && threshold >= 1
    ensures count >= threshold ==> d * im.bs + offset >= 0 && Reaches(im, d, d * im.bs + offset, threshold)
    ensures count >= threshold ==> Reaches(im, d, d * im.bs + offset, count)
    ensures threshold <= count < QuickAccept(im.bs, threshold) ==> NoneBetterAround(im, d, range, threshold, count)
    ensures count < threshold ==> NothingAround(im, d, range, threshold)
    ensures count < threshold && prevRelocated ==> NothingAfter(im, d, prevPos + im.bs, range, threshold)
    ensures var block, accept := Block(im.dest, im.bs, d), QuickAccept(im.bs, threshold);
      if prevRelocated && Accepts(Usable(im), block, prevPos + im.bs, accept)
      then offset == prevPos + im.bs - d * im.bs
      else Accepts(Usable(im), block, d * im.bs, accept) ==> offset == 0
  {
    hide CountAt, Usable, Block;
    var src, block, destPos := Usable(im), Block(im.dest, im.bs, d), d * im.bs;
    var accept := QuickAccept(im.bs, threshold);
    if prevRelocated {
      var hit, c := Probe(src, block, prevPos + im.bs, accept);
      if hit {
        CountPrefix(src, im.src, prevPos + im.bs, block, im.bs);
        return prevPos + im.bs - destPos, c;
      }
    }
    var hit, c := Probe(src, block, destPos, accept);
    if hit {
      CountPrefix(src, im.src, destPos, block, im.bs);
      return 0, c;
    }
    var q := Around(im, d, range, threshold);
    offset, count := SearchBest(q);
    if count >= threshold {
      CountPrefix(src, im.src, destPos + offset, block, im.bs);
    } else if prevRelocated {
      var base := prevPos + im.bs;
      var q' := After(im, d, base, range, threshold);
      var o, c' := SearchBest(q');
      if c' >= threshold && c' > count {
        offset, count := base + o - destPos, c';
        CountPrefix(src, im.src, base + o, block, im.bs);
      }
    }
  }

  /** Block `e` could be matched at `offset` too. */
  ghost predicate Extendable(im: Images, e: nat, offset: int, threshold: nat)
    requires im.bs >= 1 && e * im.bs + im.bs <= |im.dest|
  {
    var src, pos := Usable(im), e * im.bs + offset;
    0 <= pos && pos + im.bs <= |src| && CountAt(src, pos, Block(im.dest, im.bs, e), 0, im.bs) >= threshold
  }

  /** Block `k` has been matched at `offset`. */
  ghost predicate ExtendedTo(im: Images, s: seq<BlockState>, k: nat, offset: int)
    requires im.Valid(|s|) && k < |s|
  {
    BlockInside(im.dest, im.bs, |s|, k);
    k * im.bs + offset >= 0 && PartialAt(im, k, s[k], k * im.bs + offset)
  }

  /** The extension may end before block `e`: there is no such block, it is matched already, or it
      cannot be matched at this offset. */
  ghost predicate StopsAt(im: Images, s: seq<BlockState>, e: nat, offset: int, threshold: nat)
    requires im.Valid(|s|) && e <= |s|
  {
    e == |s| || s[e].kind != NoMatch || (BlockInside(im.dest, im.bs, |s|, e); !Extendable(im, e, offset, threshold))
  }

  /** The records of `d + 1 .. e` are new matches at `offset`, the others are as they were. */
  ghost predicate Extended(im: Images, start: seq<BlockState>, now: seq<BlockState>, d: nat, e: nat, offset: int)
    requires im.Valid(|now|) && e <= |now|
  {
    && |now| == |start|
    && (forall k :: d < k < e ==> start[k].kind == NoMatch && ExtendedTo(im, now, k, offset))
    && (forall k :: 0 <= k < |now| && !(d < k < e) ==> now[k] == start[k])
  }

  lemma ExtendedNext(im: Images, start: seq<BlockState>, mid: seq<BlockState>, now: seq<BlockState>, d: nat, e: nat,
                     offset: int)
    requires im.Valid(|now|) && d < e < |now| == |mid|
    requires Extended(im, start, mid, d, e, offset) && mid[e].kind == NoMatch
    requires now == mid[e := now[e]] && ExtendedTo(im, now, e, offset)
    ensures Extended(im, start, now, d, e + 1, offset)
  {
    hide PartialAt;
    forall k | d < k < e + 1 ensures start[k].kind == NoMatch && ExtendedTo(im, now, k, offset) {
      if k < e { assert ExtendedTo(im, mid, k, offset); }
    }
  }

  /** Extends a match at `offset` to the following unmatched blocks, as far as it goes: up to `e`. */
  method ExtendMatch(tr: BlockTracker, im: Images, d: nat, offset: int, threshold: nat, ghost was: seq<BlockState>,
                     calm: bool)
    returns (e: nat, intact: bool)
    requires tr.Valid() && im.Valid(tr.blocks.Length) && d < tr.blocks.Length
    requires |was| == tr.blocks.Length && PartialStep(im, threshold, was, tr.blocks[..])
    modifies tr, tr.blocks, tr.bitmap
    ensures tr.Valid() && PartialStep(im, threshold, was, tr.blocks[..])
    ensures d < e <= tr.blocks.Length && Extended(im, old(tr.blocks[..]), tr.blocks[..], d, e, offset)
    ensures intact ==> StopsAt(im, tr.blocks[..], e, offset, threshold)
    ensures calm ==> intact
  {
    hide CountAt, PartialStep, Extended, ExtendedTo, BlockTracker.Valid, PartialAt, Usable;
    var src := Usable(im);
    ghost var start := tr.blocks[..];
    e, intact := d + 1, true;
    NotExtended(im, start, d, offset);
    while e < tr.blocks.Length
      invariant d < e <= tr.blocks.Length && tr.Valid() && intact
      invariant PartialStep(im, threshold, was, tr.blocks[..])
      invariant Extended(im, start, tr.blocks[..], d, e, offset)
    {
      ghost var mid := tr.blocks[..];
      var open := tr.IsUnmatched(e);
      if !open { return; }
      BlockInside(im.dest, im.bs, tr.blocks.Length, e);
      var block, pos := Block(im.dest, im.bs, e), e * im.bs + offset;
      if pos < 0 || pos + im.bs > |src| { return; }
      var c := CountMatches(src, pos, block, 0, im.bs);
      if c < threshold { return; }
      CountPrefix(src, im.src, pos, block, im.bs);
      var ok := Record(tr, im, e, pos, threshold, was, calm);
      if !ok { return e, false; }
      AtOffset(im, tr.blocks[..], e, offset);
      ExtendedNext(im, start, mid, tr.blocks[..], d, e, offset);
      e := e + 1;
    }
  }

  lemma NotExtended(im: Images, s: seq<BlockState>, d: nat, offset: int)
    requires im.Valid(|s|) && d < |s|
    ensures Extended(im, s, s, d, d + 1, offset)
  {
  }

  lemma AtOffset(im: Images, s: seq<BlockState>, e: nat, offset: int)
    requires im.Valid(|s|) && e < |s| && e * im.bs + im.bs <= |im.dest|
    requires e * im.bs + offset >= 0 && PartialAt(im, e, s[e], e * im.bs + offset)
    ensures ExtendedTo(im, s, e, offset)
  {
    hide PartialAt;
  }

  lemma ExtendedBefore(im: Images, start: seq<BlockState>, now: seq<BlockState>, d: nat, e: nat, offset: int)
    requires im.Valid(|now|) && d < e <= |now| && Extended(im, start, now, d, e, offset)
    ensures |start| == |now| && forall k :: 0 <= k <= d ==> now[k] == start[k]
  {
    hide ExtendedTo;
  }

  // ----- matches are extended

  /** If block `k` has been matched and block `k + 1` was free, then `k + 1` is matched at the same offset
      or cannot be. */
  ghost predicate Followed(im: Images, threshold: nat, was: seq<BlockState>, now: seq<BlockState>, k: nat)
    requires im.Valid(|was|) && |now| == |was| && k + 1 < |was|
  {
    BlockInside(im.dest, im.bs, |was|, k + 1);
    was[k].kind == NoMatch && now[k].kind != NoMatch && was[k + 1].kind == NoMatch ==>
      exists o: int :: ExtendedTo(im, now, k, o) &&
                       (ExtendedTo(im, now, k + 1, o) || !Extendable(im, k + 1, o, threshold))
  }

  /** Every match is followed up, and no block from `f` on has been touched. */
  ghost predicate AllFollowed(im: Images, threshold: nat, was: seq<BlockState>, now: seq<BlockState>, f: nat)
    requires im.Valid(|was|)
  {
    && |now| == |was|
    && (forall k :: f <= k < |was| ==> now[k] == was[k])
    && (forall k: nat :: k + 1 < |was| ==> Followed(im, threshold, was, now, k))
  }

  lemma SameExtended(im: Images, s: seq<BlockState>, t: seq<BlockState>, k: nat, o: int)
    requires im.Valid(|s|) && |s| == |t| && k < |s| && s[k] == t[k]
    ensures ExtendedTo(im, s, k, o) <==> ExtendedTo(im, t, k, o)
  {
    hide PartialAt;
  }

  lemma ExtendedKind(im: Images, s: seq<BlockState>, k: nat, o: int)
    requires im.Valid(|s|) && k < |s| && ExtendedTo(im, s, k, o)
    ensures s[k].kind == PartialMatch
  {
  }

  /** Blocks before the new match. */
  lemma FollowedBefore(im: Images, threshold: nat, was: seq<BlockState>, s: seq<BlockState>, now: seq<BlockState>,
                       k: nat)
    requires im.Valid(|was|) && |s| == |now| == |was| && k + 1 < |was| && Followed(im, threshold, was, s, k)
    requires s[k] == now[k] && (s[k + 1] == now[k + 1] || s[k + 1].kind == NoMatch)
    ensures Followed(im, threshold, was, now, k)
  {
    hide ExtendedTo, Extendable;
    BlockInside(im.dest, im.bs, |was|, k + 1);
    if was[k].kind == NoMatch && now[k].kind != NoMatch && was[k + 1].kind == NoMatch {
      var o: int :| ExtendedTo(im, s, k, o) && (ExtendedTo(im, s, k + 1, o) || !Extendable(im, k + 1, o, threshold));
      SameExtended(im, s, now, k, o);
      if ExtendedTo(im, s, k + 1, o) {
        ExtendedKind(im, s, k + 1, o);
        SameExtended(im, s, now, k + 1, o);
      }
    }
  }

  lemma FollowedHere(im: Images, threshold: nat, was: seq<BlockState>, now: seq<BlockState>, k: nat, o: int)
    requires im.Valid(|was|) && |now| == |was| && k + 1 < |was| && ExtendedTo(im, now, k, o)
    requires || ExtendedTo(im, now, k + 1, o)
             || (StopsAt(im, now, k + 1, o, threshold) && now[k + 1] == was[k + 1])
    ensures Followed(im, threshold, was, now, k)
  {
    hide ExtendedTo, Extendable;
  }

  /** A search match at `d` that was extended to `e`. */
  lemma FollowedNext(im: Images, threshold: nat, was: seq<BlockState>, s: seq<BlockState>, mid: seq<BlockState>,
                     now: seq<BlockState>, d: nat, e: nat, offset: int, f: nat)
    requires im.Valid(|was|) && AllFollowed(im, threshold, was, s, f) && |mid| == |now| == |was|
    requires f <= d < e <= |was| && s[d].kind == NoMatch && mid == s[d := mid[d]] && ExtendedTo(im, mid, d, offset)
    requires Extended(im, mid, now, d, e, offset) && StopsAt(im, now, e, offset, threshold)
    ensures AllFollowed(im, threshold, was, now, e)
  {
    hide ExtendedTo, StopsAt, Followed;
    SameExtended(im, mid, now, d, offset);
    forall k: nat | k + 1 < |was| ensures Followed(im, threshold, was, now, k) {
      assert Followed(im, threshold, was, s, k);
      if k < d {
        FollowedBefore(im, threshold, was, s, now, k);
      } else if k < e {
        FollowedHere(im, threshold, was, now, k, offset);
      } else {
        Untouched(im, threshold, was, now, k);
      }
    }
  }

  lemma Untouched(im: Images, threshold: nat, was: seq<BlockState>, now: seq<BlockState>, k: nat)
    requires im.Valid(|was|) && |now| == |was| && k + 1 < |was| && now[k] == was[k]
    ensures Followed(im, threshold, was, now, k)
  {
  }

  lemma NoneFollowed(im: Images, threshold: nat, was: seq<BlockState>)
    requires im.Valid(|was|)
    ensures AllFollowed(im, threshold, was, was, 0)
  {
    hide Followed;
    forall k: nat | k + 1 < |was| ensures Followed(im, threshold, was, was, k) {
      Untouched(im, threshold, was, was, k);
    }
  }

  /** The blocks that a match was extended to are matched. */
  lemma ExtendedMatched(im: Images, s: seq<BlockState>, now: seq<BlockState>, d: nat, e: nat, offset: int)
    requires im.Valid(|now|) && e <= |now| && Extended(im, s, now, d, e, offset)
    ensures forall k :: d < k < e ==> now[k].kind != NoMatch
  {
    hide ExtendedTo;
    forall k | d < k < e ensures now[k].kind != NoMatch {
      ExtendedKind(im, now, k, offset);
    }
  }

  /** The block comes from another place in the source. */
  predicate Displaced(s: BlockState)
  {
    s.kind == RelocateMatch || s.kind == PartialMatch
  }

  /** Neither the neighbourhood of block `d` nor the continuation of the match before it has anything. */
  ghost predicate NothingFor(im: Images, range: nat, threshold: nat, s: seq<BlockState>, d: nat)
    requires im.Valid(|s|) && d < |s|
  {
    BlockInside(im.dest, im.bs, |s|, d);
    && NothingAround(im, d, range, threshold)
    && (d > 0 && Displaced(s[d - 1]) ==> NothingAfter(im, d, SourcePos(s[d - 1], im.bs) + im.bs, range, threshold))
  }

  /** Blocks below `m` that are still unmatched have nothing to match. */
  ghost predicate Exhausted(im: Images, range: nat, threshold: nat, s: seq<BlockState>, m: nat)
    requires im.Valid(|s|) && m <= |s|
  {
    forall d :: 0 <= d < m && s[d].kind == NoMatch ==> NothingFor(im, range, threshold, s, d)
  }

  lemma ExhaustedKept(im: Images, range: nat, threshold: nat, s: seq<BlockState>, t: seq<BlockState>, m: nat)
    requires im.Valid(|s|) && m <= |s| == |t| && Exhausted(im, range, threshold, s, m)
    requires forall k :: 0 <= k < m ==> t[k] == s[k]
    ensures Exhausted(im, range, threshold, t, m)
  {
    hide NothingAround, NothingAfter;
    forall d | 0 <= d < m && t[d].kind == NoMatch ensures NothingFor(im, range, threshold, t, d) {
      assert NothingFor(im, range, threshold, s, d);
    }
  }

  lemma ExhaustedNext(im: Images, range: nat, threshold: nat, s: seq<BlockState>, m: nat)
    requires im.Valid(|s|) && m < |s| && Exhausted(im, range, threshold, s, m)
    requires s[m].kind == NoMatch ==> NothingFor(im, range, threshold, s, m)
    ensures Exhausted(im, range, threshold, s, m + 1)
  {
    hide NothingFor;
  }

  /** Stage 3. New matches have the promised quality; when no delta allocation failed, a block left
      unmatched has no acceptable neighbour, and every match is extended as far as it goes. A threshold
      of 0 is raised to 1. */
  method PartialRun(tr: BlockTracker, im: Images, range: nat, threshold0: nat, calm: bool) returns (intact: bool)
    requires tr.Valid() && im.Valid(tr.blocks.Length)
    modifies tr, tr.blocks, tr.bitmap
    ensures tr.Valid()
    ensures var threshold := if threshold0 == 0 then 1 else threshold0;
      && PartialStep(im, threshold, old(tr.blocks[..]), tr.blocks[..])
      && (intact ==> Exhausted(im, range, threshold, tr.blocks[..], tr.blocks.Length))
      && (intact ==> AllFollowed(im, threshold, old(tr.blocks[..]), tr.blocks[..], tr.blocks.Length))
    ensures calm ==> intact
  {
    hide NothingAround, NothingAfter, Exhausted, NoneBetterAround, Accepts, Reaches, GoodPartial, CountAt,
      AllFollowed, BlockTracker.Valid, Extended, ExtendedTo, StopsAt, PartialAt;
    var threshold := if threshold0 == 0 then 1 else threshold0;
    ghost var was := tr.blocks[..];
    intact := true;
    var prevRelocated, prevPos := false, 0;
    PartialNothing(im, threshold, was);
    NoneFollowed(im, threshold, was);
    NoneExhausted(im, range, threshold, was);
    hide PartialStep;
    ghost var f: nat := 0;
    for d := 0 to tr.blocks.Length
      invariant tr.Valid() && PartialStep(im, threshold, was, tr.blocks[..]) && f <= tr.blocks.Length
      invariant calm ==> intact
      invariant intact ==> Exhausted(im, range, threshold, tr.blocks[..], d)
      invariant intact ==> AllFollowed(im, threshold, was, tr.blocks[..], f)
      invariant intact ==> forall k :: d <= k < f ==> tr.blocks[k].kind != NoMatch
    {
      if d > 0 {
        var prev := tr.blocks[d - 1];
        prevRelocated := Displaced(prev);
        if prevRelocated { prevPos := SourcePos(prev, im.bs); }
      }
      var open := tr.IsUnmatched(d);
      if open {
        BlockInside(im.dest, im.bs, tr.blocks.Length, d);
        var offset, count := FindBest(im, d, range, threshold, prevRelocated, prevPos);
        if count >= threshold {
          ghost var s0 := tr.blocks[..];
          var ok := Record(tr, im, d, d * im.bs + offset, threshold, was, calm);
          if ok {
            ghost var s1 := tr.blocks[..];
            RecordedKind(im, d, s1[d], d * im.bs + offset);
            AtOffset(im, s1, d, offset);
            var e, all := ExtendMatch(tr, im, d, offset, threshold, was, calm);
            ExtendedBefore(im, s1, tr.blocks[..], d, e, offset);
            ExtendedMatched(im, s1, tr.blocks[..], d, e, offset);
            intact := intact && all;
            if intact {
              ExhaustedKept(im, range, threshold, s0, tr.blocks[..], d);
              FollowedNext(im, threshold, was, s0, s1, tr.blocks[..], d, e, offset, f);
            }
            f := e;
          } else {
            intact := false;
          }
        }
      }
      if intact { ExhaustedNext(im, range, threshold, tr.blocks[..], d); }
    }
    if intact { AllFollowedEnd(im, threshold, was, tr.blocks[..], f); }
  }

  lemma NoneExhausted(im: Images, range: nat, threshold: nat, s: seq<BlockState>)
    requires im.Valid(|s|)
    ensures Exhausted(im, range, threshold, s, 0)
  {
  }

  lemma AllFollowedEnd(im: Images, threshold: nat, was: seq<BlockState>, now: seq<BlockState>, f: nat)
    requires im.Valid(|was|) && f <= |was| && AllFollowed(im, threshold, was, now, f)
    ensures AllFollowed(im, threshold, was, now, |was|)
  {
    hide Followed;
  }

  /** With blocks under 1024 bytes the prescreen is off, and "acceptable" is just in bounds. */
  lemma SmallBlocksUnscreened(im: Images, d: nat, range: nat, threshold: nat)
    requires 1 <= im.bs < 1024 && d * im.bs + im.bs <= |im.dest| && NothingAround(im, d, range, threshold)
    ensures var q := Around(im, d, range, threshold);
      forall o :: 0 - range <= o <= range && q.InBounds(o) ==> q.Score(o) < threshold
  {
    hide CountAt;
    var q := Around(im, d, range, threshold);
    forall o | 0 - range <= o <= range && q.InBounds(o) ensures q.Score(o) < threshold {
      assert q.Candidate(o, true);
    }
  }

  /** The same for the sweep after the previous match: offsets 0 to `range`. */
  lemma SmallBlocksAfter(im: Images, d: nat, base: int, range: nat, threshold: nat, o: int)
    requires 1 <= im.bs < 1024 && d * im.bs + im.bs <= |im.dest| && NothingAfter(im, d, base, range, threshold)
    requires 0 <= o <= range && 0 <= base + o && base + o + im.bs <= |Usable(im)|
    ensures CountAt(Usable(im), base + o, Block(im.dest, im.bs, d), 0, im.bs) < threshold
  {
    hide CountAt;
    assert After(im, d, base, range, threshold).Candidate(o, true);
  }

  // ----- stage 2b: verifying filesystem hypotheses

  /** Destination block `destBlock` is expected at source byte `srcPos`. */
  datatype Hypothesis = Hypothesis(destBlock: nat, srcPos: nat)

  ghost predicate Plausible(im: Images, n: nat, hyps: seq<Hypothesis>)
  {
    forall h :: 0 <= h < |hyps| ==> hyps[h].destBlock < n && hyps[h].srcPos + im.bs <= |im.src|
  }

  /** The sweep around a hypothesis. */
  function Near(im: Images, d: nat, hyp: nat, range: nat, threshold: nat): (q: Query)
    requires d * im.bs + im.bs <= |im.dest|
  {
    Query(im.src, Block(im.dest, im.bs, d), hyp, 0 - range, range, threshold)
  }

  /** Neither the hypothesis nor a screened position around it reaches the threshold. */
  ghost predicate HypFails(im: Images, d: nat, hyp: nat, range: nat, threshold: nat)
    requires d * im.bs + im.bs <= |im.dest|
  {
    var q := Near(im, d, hyp, range, threshold);
    !Reaches(im, d, hyp, threshold) && forall o :: q.Candidate(o, true) ==> q.Score(o) < threshold
  }

  /** No screened position around the hypothesis has more equal bytes. */
  ghost predicate NoneBetter(im: Images, d: nat, hyp: nat, range: nat, threshold: nat, count: nat)
    requires d * im.bs + im.bs <= |im.dest|
  {
    var q := Near(im, d, hyp, range, threshold);
    forall o :: q.Candidate(o, true) ==> q.Score(o) <= count
  }

  /** The exact position first, then a directed sweep around it; the best of both. The sweep's sentinel
      can be taken over as a position, but only together with a count below the threshold. */
  method VerifyHypothesis(im: Images, d: nat, hyp: nat, range: nat, threshold: nat) returns (pos: nat, count: nat)
    requires im.bs >= 1 && d * im.bs + im.bs <= |im.dest| && hyp + im.bs <= |im.src|
    requires 1 <= threshold <= im.bs
    ensures count >= threshold ==> Reaches(im, d, pos, threshold) && Reaches(im, d, pos, count)
    ensures count >= threshold ==>
      && NoneBetter(im, d, hyp, range, threshold, count)
      && CountAt(im.src, hyp, Block(im.dest, im.bs, d), 0, im.bs) <= count
    ensures count < threshold ==> HypFails(im, d, hyp, range, threshold)
  {
    hide CountAt;
    var block := Block(im.dest, im.bs, d);
    pos := hyp;
    count := CountMatches(im.src, hyp, block, 0, im.bs);
    if count < im.bs {
      var q := Near(im, d, hyp, range, threshold);
      var o, c := SearchBest(q);
      if c > count && o != 0 {
        var cand := hyp + o;
        if cand >= 0 && cand + im.bs <= |im.src| {
          pos, count := cand, c;
        }
      }
    }
  }

  /** For blocks under 1024 bytes a failed hypothesis means that no position up to `range` bytes away reaches
      the threshold. */
  lemma SmallBlocksNear(im: Images, d: nat, hyp: nat, range: nat, threshold: nat, p: nat)
    requires 1 <= im.bs < 1024 && d * im.bs + im.bs <= |im.dest| && HypFails(im, d, hyp, range, threshold)
    requires hyp - range <= p <= hyp + range && p + im.bs <= |im.src|
    ensures !Reaches(im, d, p, threshold)
  {
    hide CountAt;
    assert Near(im, d, hyp, range, threshold).Candidate(p - hyp, true);
  }

  const CANCEL_CHECK_INTERVAL := 256

  /** Of the first `m` hypotheses, those whose block is still unmatched have failed. */
  ghost predicate Tried(im: Images, hyps: seq<Hypothesis>, m: nat, range: nat, threshold: nat, s: seq<BlockState>)
    requires im.Valid(|s|) && m <= |hyps|
  {
    forall h :: 0 <= h < m && Unmatched(s, hyps[h].destBlock) ==>
      (BlockInside(im.dest, im.bs, |s|, hyps[h].destBlock);
       HypFails(im, hyps[h].destBlock, hyps[h].srcPos, range, threshold))
  }

  lemma TriedKept(im: Images, hyps: seq<Hypothesis>, m: nat, range: nat, threshold: nat, s: seq<BlockState>,
                  t: seq<BlockState>)
    requires im.Valid(|s|) && m <= |hyps| && Tried(im, hyps, m, range, threshold, s)
    requires |s| == |t| && forall d: nat :: Unmatched(t, d) ==> Unmatched(s, d)
    ensures Tried(im, hyps, m, range, threshold, t)
  {
    hide HypFails;
  }

  lemma TriedNext(im: Images, hyps: seq<Hypothesis>, m: nat, range: nat, threshold: nat, s: seq<BlockState>)
    requires im.Valid(|s|) && m < |hyps| && Tried(im, hyps, m, range, threshold, s)
    requires Unmatched(s, hyps[m].destBlock) ==>
      (BlockInside(im.dest, im.bs, |s|, hyps[m].destBlock);
       HypFails(im, hyps[m].destBlock, hyps[m].srcPos, range, threshold))
    ensures Tried(im, hyps, m + 1, range, threshold, s)
  {
    hide HypFails;
  }

  /** Stage 2b over a list of hypotheses. Cancellation is noticed every 256 of them. When no delta
      allocation failed, a block that has a hypothesis and is left unmatched has no acceptable position
      there. */
  method FsmapRun(tr: BlockTracker, im: Images, hyps: seq<Hypothesis>, range: nat, threshold0: nat, calm: bool)
    returns (cancelled: bool, intact: bool)
    requires tr.Valid() && im.Valid(tr.blocks.Length) && Plausible(im, tr.blocks.Length, hyps)
    requires threshold0 <= im.bs
    modifies tr, tr.blocks, tr.bitmap
    ensures tr.Valid()
    ensures var threshold := if threshold0 == 0 then 1 else threshold0;
      && PartialStep(im, threshold, old(tr.blocks[..]), tr.blocks[..])
      && (!cancelled && intact ==> Tried(im, hyps, |hyps|, range, threshold, tr.blocks[..]))
    ensures calm ==> !cancelled && intact
  {
    hide Reaches, GoodPartial, HypFails, Tried, PartialAt, BlockTracker.Valid, NoneBetter, CountAt;
    var threshold := if threshold0 == 0 then 1 else threshold0;
    ghost var was := tr.blocks[..];
    PartialNothing(im, threshold, was);
    NothingTried(im, hyps, range, threshold, was);
    hide PartialStep;
    cancelled, intact := false, true;
    for h := 0 to |hyps|
      invariant tr.Valid() && PartialStep(im, threshold, was, tr.blocks[..]) && !cancelled
      invariant intact ==> Tried(im, hyps, h, range, threshold, tr.blocks[..])
      invariant calm ==> intact
    {
      if h % CANCEL_CHECK_INTERVAL == 0 {
        var goOn := Attempt(calm);
        if !goOn { return true, intact; }
      }
      var d := hyps[h].destBlock;
      var open := tr.IsUnmatched(d);
      if open {
        BlockInside(im.dest, im.bs, tr.blocks.Length, d);
        var pos, count := VerifyHypothesis(im, d, hyps[h].srcPos, range, threshold);
        if count >= threshold {
          ghost var s := tr.blocks[..];
          var ok := Record(tr, im, d, pos, threshold, was, calm);
          if ok {
            RecordedKind(im, d, tr.blocks[d], pos);
            if intact { TriedKept(im, hyps, h, range, threshold, s, tr.blocks[..]); }
          }
          intact := intact && ok;
        }
      }
      if intact { TriedNext(im, hyps, h, range, threshold, tr.blocks[..]); }
    }
  }

  lemma RecordedKind(im: Images, d: nat, s: BlockState, p: nat)
    requires d * im.bs + im.bs <= |im.dest| && PartialAt(im, d, s, p)
    ensures s.kind == PartialMatch
  {
  }

  lemma PartialNothing(im: Images, threshold: nat, s: seq<BlockState>)
    requires im.Valid(|s|)
    ensures PartialStep(im, threshold, s, s)
  {
  }

  lemma NothingTried(im: Images, hyps: seq<Hypothesis>, range: nat, threshold: nat, s: seq<BlockState>)
    requires im.Valid(|s|)
    ensures Tried(im, hyps, 0, range, threshold, s)
  {
  }
}
