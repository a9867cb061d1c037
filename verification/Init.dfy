/** The three-state initialisation of src/patch.c (`fsd_init`) as a state machine: any number of threads,
    any number of calls, one atomic step at a time in any order. `fsd_cleanup` is not among the steps. */
module Init {

  /** Where a thread is in `fsd_init`. */
  datatype Pc =
    | Idle             // not in a call, and no call has returned yet
    | Load             // about to test the state
    | Cas              // about to try 0 -> 1
    | Working          // won: inside fsd_simd_init
    | Publish          // about to store 2
    | Spin             // lost: waiting to read 2
    | Returned

  /** `flag` is `g_init_state`; `written` of the `total` stores to the dispatch table have been made;
      `winners` are the threads that have started `fsd_simd_init`, in order. */
  datatype State = State(flag: int, threads: seq<Pc>, written: nat, total: nat, winners: seq<nat>)

  ghost predicate Initial(s: State)
  {
    && s.flag == 0 && s.written == 0 && s.winners == []
    && forall t :: 0 <= t < |s.threads| ==> s.threads[t] == Idle
  }

  function Moved(s: State, t: nat, pc: Pc): (r: State)
    requires t < |s.threads|
  {
    s.(threads := s.threads[t := pc])
  }

  /** What thread `t` does next inside a call. */
  function After(s: State, t: nat): (r: State)
    requires t < |s.threads| && !s.threads[t].Idle? && !s.threads[t].Returned?
  {
    match s.threads[t]
    case Load => Moved(s, t, if s.flag == 2 then Returned else Cas)
    case Cas =>
      if s.flag == 0 then Moved(s, t, Working).(flag := 1, winners := s.winners + [t]) else Moved(s, t, Spin)
    case Working => if s.written < s.total then s.(written := s.written + 1) else Moved(s, t, Publish)
    case Publish => Moved(s, t, Returned).(flag := 2)
    case Spin => if s.flag == 2 then Moved(s, t, Returned) else s
  }

  predicate Busy(s: State, t: nat)
  {
    t < |s.threads| && !s.threads[t].Idle? && !s.threads[t].Returned?
  }

  /** One step of one thread: inside a call, or entering a call. */
  ghost predicate Step(s: State, s': State, t: nat)
  {
    if Busy(s, t) then s' == After(s, t) else t < |s.threads| && s' == Moved(s, t, Load)
  }

  ghost predicate Next(s: State, s': State)
  {
    exists t :: Step(s, s', t)
  }

  /** A run: any interleaving, of any length. */
  ghost predicate Run(r: seq<State>)
  {
    |r| > 0 && Initial(r[0]) && forall i: nat :: 0 < i < |r| ==> Follows(r, i)
  }

  ghost predicate Follows(r: seq<State>, i: nat)
    requires 0 < i < |r|
  {
    Next(r[i - 1], r[i])
  }

  predicate Holds(pc: Pc)
  {
    pc == Working || pc == Publish
  }

  /** The invariant, by the value of the flag. */
  ghost predicate Inv(s: State)
  {
    && 0 <= s.flag <= 2 && s.written <= s.total
    && (s.flag == 0 ==> s.written == 0 && s.winners == [])
    && (s.flag != 0 ==> |s.winners| == 1 && s.winners[0] < |s.threads|)
    && (s.flag == 1 ==> Holds(s.threads[s.winners[0]]))
    && (s.flag == 2 ==> s.written == s.total)
    && forall t :: 0 <= t < |s.threads| ==>
         && (Holds(s.threads[t]) ==> s.flag == 1 && t == s.winners[0])
         && (s.threads[t] == Publish ==> s.written == s.total)
         && (s.threads[t] == Returned ==> s.flag == 2)
         && (s.threads[t] == Spin ==> s.flag != 0)
  }

  lemma StepKeepsInv(s: State, s': State, t: nat)
    requires Inv(s) && Step(s, s', t)
    ensures Inv(s') && s'.total == s.total && |s'.threads| == |s.threads|
    ensures s.winners != [] ==> s'.winners == s.winners
    ensures s.flag == 2 ==> s'.flag == 2 && s'.written == s'.total && s'.winners == s.winners
  {
  }

  lemma {:induction false} RunInv(r: seq<State>, i: nat)
    requires Run(r) && i < |r|
    ensures Inv(r[i])
  {
    if i > 0 {
      RunInv(r, i - 1);
      assert Follows(r, i);
      var t :| Step(r[i - 1], r[i], t);
      StepKeepsInv(r[i - 1], r[i], t);
    }
  }

  /** Once the flag is 2 nothing is written any more and nobody starts again. */
  lemma {:induction false} Settled(r: seq<State>, i: nat, j: nat)
    requires Run(r) && i <= j < |r| && r[i].flag == 2
    ensures r[j].flag == 2 && r[j].written == r[j].total == r[i].total && r[j].winners == r[i].winners
    decreases j - i
  {
    if i == j {
      RunInv(r, j);
    } else {
      hide Inv, Step;
      Settled(r, i, j - 1);
      RunInv(r, j - 1);
      assert Follows(r, j);
      var t :| Step(r[j - 1], r[j], t);
      StepKeepsInv(r[j - 1], r[j], t);
    }
  }

  /** Safety, over every run: when a thread has returned, exactly one thread has run the initialisation,
      all of its stores have been made and published, and from then on the table is never written. */
  lemma ReturnMeansInitialised(r: seq<State>, i: nat, t: nat)
    requires Run(r) && i < |r| && t < |r[i].threads| && r[i].threads[t] == Returned
    ensures |r[i].winners| == 1 && r[i].flag == 2 && r[i].written == r[i].total
    ensures forall j :: i <= j < |r| ==> r[j].written == r[i].written == r[j].total && r[j].winners == r[i].winners
  {
    RunInv(r, i);
    forall j | i <= j < |r| ensures r[j].written == r[i].written == r[j].total && r[j].winners == r[i].winners {
      Settled(r, i, j);
    }
  }

  /** Mutual exclusion, over every run: never two threads inside the initialisation, and never a second. */
  lemma OneInitialiser(r: seq<State>, i: nat, t: nat, u: nat)
    requires Run(r) && i < |r| && t < |r[i].threads| && u < |r[i].threads|
    requires Holds(r[i].threads[t]) && Holds(r[i].threads[u])
    ensures t == u && r[i].winners == [t]
  {
    RunInv(r, i);
  }

  // ----- progress

  function Rank(pc: Pc): (n: nat)
  {
    match pc
    case Load => 5
    case Cas => 4
    case Working => 3
    case Publish => 2
    case Spin => 1
    case Idle => 0
    case Returned => 0
  }

  function Ranks(threads: seq<Pc>): (n: nat)
  {
    if threads == [] then 0 else Rank(threads[0]) + Ranks(threads[1..])
  }

  lemma {:induction false} RankUpdate(threads: seq<Pc>, t: nat, pc: Pc)
    requires t < |threads|
    ensures Ranks(threads[t := pc]) == Ranks(threads) - Rank(threads[t]) + Rank(pc)
  {
    if t == 0 {
      assert threads[0 := pc][1..] == threads[1..];
    } else {
      RankUpdate(threads[1..], t - 1, pc);
      assert threads[t := pc][1..] == threads[1..][t - 1 := pc];
    }
  }

  /** Steps left until every call has returned, not counting turns of the spin loop. */
  function Left(s: State): (n: int)
  {
    Ranks(s.threads) + (s.total - s.written)
  }

  /** A step inside a call brings the calls nearer to their end, unless it is a turn of the spin loop,
      which changes nothing and happens only while the flag is not 2. */
  lemma StepAdvances(s: State, t: nat)
    requires Inv(s) && Busy(s, t)
    ensures if s.threads[t] == Spin && s.flag != 2 then After(s, t) == s else Left(After(s, t)) < Left(s)
  {
    hide Ranks;
    var s' := After(s, t);
    RankUpdate(s.threads, t, s'.threads[t]);
    assert s'.threads == s.threads[t := s'.threads[t]];
  }

  /** No reachable state is stuck: while a call has not returned, some thread's next step advances. A
      spinning thread waits only for a winner that can move. */
  lemma NeverStuck(s: State, t: nat) returns (u: nat)
    requires Inv(s) && Busy(s, t)
    ensures Busy(s, u) && Left(After(s, u)) < Left(s)
  {
    u := if s.threads[t] == Spin && s.flag == 1 then s.winners[0] else t;
    StepAdvances(s, u);
  }
}
