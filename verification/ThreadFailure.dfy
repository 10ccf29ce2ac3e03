/** The clean-up of `fill_memory_blocks_mt` when a thread cannot be created: it joins the threads of all
    lanes before the one that failed. */
module ThreadFailure {
  import opened Words
  import opened Indexing
  import opened Recurrence
  import opened Threads

  /** The calling thread is at `argon2_thread_create`. */
  predicate Creating<B>(inst: Instance, s: State<B>) {
    s.main.Spawn? && s.main.l < inst.lanes && (s.main.l >= inst.threads ==> s.main.reaped)
  }

  /** How often each lane has been joined once the threads of the first `l` lanes are joined, once more. */
  function CleanUpJoins(joins: seq<nat>, l: nat): (r: seq<nat>)
    ensures |r| == |joins|
  {
    seq(|joins|, m requires 0 <= m < |joins| => joins[m] + (if m < l then 1 else 0))
  }

  /** Every live thread is among those joined, so that none outlives the memory that is freed next. */
  lemma CleanUpReachesLive<B>(inst: Instance, s: State<B>, m: nat)
    requires WellFormed(inst, s) && WindowInv(inst, s) && Creating(inst, s)
    requires m < inst.lanes && Live(s.threads[m])
    ensures m < s.main.l && CleanUpJoins(s.joins, s.main.l)[m] == s.joins[m] + 1
  {
  }

  /** Every thread created is joined exactly once, if and only if the limit on live threads has not been
      reached in this slice; after that the clean-up joins some threads for the second time. */
  lemma CleanUpJoinsOnce<B>(inst: Instance, s: State<B>)
    requires WellFormed(inst, s) && WindowInv(inst, s) && Creating(inst, s)
    ensures CleanUpJoins(s.joins, s.main.l) == s.creations <==> s.main.l < inst.threads
  {
    hide Times;
    var after := CleanUpJoins(s.joins, s.main.l);
    if s.main.l < inst.threads {
      assert Reaped(inst, s.main) == 0;
      assert forall m :: 0 <= m < inst.lanes ==> after[m] == s.creations[m];
    } else {
      assert Reaped(inst, s.main) > 0 && after[0] == s.creations[0] + 1;
    }
  }

  /** The calling thread has not yet joined a thread, or has just joined the first. */
  predicate UpToLimit(inst: Instance, main: Main) {
    main.Spawn? && main.seg == 0 && main.l <= inst.threads
  }

  lemma StaysUpToLimit<B>(inst: Instance, s: State<B>, s': State<B>)
    requires WellFormed(inst, s) && WindowInv(inst, s) && inst.threads < inst.lanes
    requires UpToLimit(inst, s.main) && !s.main.reaped && ApplyMain(inst, s) == Some(s')
    ensures UpToLimit(inst, s'.main)
  {
    hide Times;
  }

  lemma {:induction false} LimitReached<B>(k: Kernel<B>, inst: Instance, first: seq<B>, s: State<B>, junk: B)
    returns (schedule: seq<Action<B>>, s': State<B>)
    requires WellFormed(inst, s) && |first| == inst.memoryBlocks && inst.threads < inst.lanes
    requires WindowInv(inst, s) && MemoryInv(k, inst, first, s) && UpToLimit(inst, s.main)
    ensures Run(k, inst, s, schedule) == Some(s')
    ensures WindowInv(inst, s') && UpToLimit(inst, s'.main) && s'.main.reaped
    decreases MainRank(inst, s.main), TotalWork(inst, s.threads)
  {
    hide Consistent, Value, MemoryInv, TotalWork, MainRank, Times, WindowInv, Apply;
    if s.main.reaped {
      schedule, s' := [], s;
    } else {
      var a := NeverStuck(k, inst, first, s, junk);
      var next := Apply(k, inst, s, a).value;
      StepsDescend(k, inst, first, s, a, next);
      MemoryKept(k, inst, first, s, a, next);
      WindowKept(k, inst, s, a, next);
      if a.MainStep? {
        MainStepApplies(k, inst, s, next);
        StaysUpToLimit(inst, s, next);
      }
      var rest;
      rest, s' := LimitReached(k, inst, first, next, junk);
      schedule := [a] + rest;
      assert schedule[1..] == rest;
    }
  }

  /** With fewer threads than lanes there is a run to a creation whose failure joins lane 0 twice, although
      its thread was created once. */
  lemma JoinedTwice<B>(k: Kernel<B>, inst: Instance, mem: seq<B>, junk: B)
    returns (schedule: seq<Action<B>>, s: State<B>)
    requires inst.Valid() && |mem| == inst.memoryBlocks && inst.threads < inst.lanes
    ensures WellFormed(inst, Init(inst, mem)) && Run(k, inst, Init(inst, mem), schedule) == Some(s)
    ensures Creating(inst, s) && s.creations[0] == 1 && CleanUpJoins(s.joins, s.main.l)[0] == 2
  {
    hide MemoryInv, Times, Run;
    WindowInitially(inst, mem);
    MemoryInitially(k, inst, mem);
    schedule, s := LimitReached(k, inst, mem, Init(inst, mem), junk);
  }
}
