/** `fill_memory_blocks_mt` as a state machine: the calling thread creates and joins one thread per lane
    and slice, at most `threads` at a time, and the lane threads run `fill_segment` interleaved at the
    grain of single block reads and unfinished block writes. */
module Threads {
  import opened Words
  import opened Indexing
  import opened Recurrence
  import opened FillMemory

  /** Where a lane thread is inside one iteration of `fill_segment`. */
  datatype Stage<B> =
    | Top
    | Drawn(rand: nat)                 // the pseudo-random value is known
    | GotRef(ref: B)                   // the reference block is copied
    | GotBoth(ref: B, prev: B)         // and the previous block xored in
    | Ready(block: B)                  // the new block is computed (with the old one, when xoring)
    | Writing(block: B)                // the cell is being overwritten, word by word

  datatype Thread<B> = Absent | Running(idx: nat, stage: Stage<B>) | Exited | Joined

  /** The calling thread: about to create the thread of lane `l` (having joined lane `l - threads`, if
      the limit is reached, once `reaped`), collecting the rest, or through. */
  datatype Main =
    | Spawn(seg: nat, l: nat, reaped: bool)
    | Collect(seg: nat, l: nat)
    | Done

  /** `creations` and `joins` only count, per lane. */
  datatype State<B> = State(main: Main, mem: seq<B>, threads: seq<Thread<B>>, creations: seq<nat>, joins: seq<nat>)

  /** What the scheduler lets happen next. A write in progress leaves arbitrary contents behind. */
  datatype Action<B> = MainStep | LaneStep(lane: nat) | BeginWrite(lane: nat, junk: B) | Scribble(lane: nat, junk: B)

  function Init<B>(inst: Instance, mem: seq<B>): State<B> {
    State(Spawn(0, 0, false), mem, seq(inst.lanes, l => Absent), seq(inst.lanes, l => 0), seq(inst.lanes, l => 0))
  }

  // ---- steps ----

  function Create<B>(s: State<B>, seg: nat, l: nat): State<B>
    requires l < |s.threads| == |s.creations|
  {
    s.(threads := s.threads[l := Running(Start(seg).idx, Top)], creations := s.creations[l := s.creations[l] + 1])
  }

  /** Joining waits for the thread to exit. */
  function Join<B>(s: State<B>, l: nat): Option<State<B>>
    requires l < |s.threads| == |s.joins|
  {
    if s.threads[l].Exited? then
      Some(s.(threads := s.threads[l := Joined], joins := s.joins[l := s.joins[l] + 1]))
    else None
  }

  predicate WellFormed<B>(inst: Instance, s: State<B>) {
    && inst.Valid()
    && |s.mem| == inst.memoryBlocks
    && |s.threads| == |s.creations| == |s.joins| == inst.lanes
    && (s.main.Spawn? ==> s.main.l <= inst.lanes && s.main.seg < 4 * inst.passes)
    && (s.main.Collect? ==> s.main.l <= inst.lanes && s.main.seg < 4 * inst.passes)
  }

  function ApplyMain<B>(inst: Instance, s: State<B>): (r: Option<State<B>>)
    requires WellFormed(inst, s)
    ensures r.Some? ==> WellFormed(inst, r.value)
  {
    match s.main
    case Spawn(seg, l, reaped) =>
      if l == inst.lanes then Some(s.(main := Collect(seg, inst.lanes - inst.threads)))
      else if l >= inst.threads && !reaped then
        match Join(s, l - inst.threads)
        case None => None
        case Some(s') => Some(s'.(main := Spawn(seg, l, true)))
      else Some(Create(s, seg, l).(main := Spawn(seg, l + 1, false)))
    case Collect(seg, l) =>
      if l < inst.lanes then
        match Join(s, l)
        case None => None
        case Some(s') => Some(s'.(main := Collect(seg, l + 1)))
      else if seg + 1 < 4 * inst.passes then Some(s.(main := Spawn(seg + 1, 0, false)))
      else Some(s.(main := Done))
    case Done => None
  }

  function Segment(inst: Instance, main: Main): nat
    requires inst.Valid()
  {
    if main.Done? then 4 * inst.passes - 1 else main.seg
  }

  /** A lane thread in the middle of an iteration. */
  predicate Active<B>(inst: Instance, s: State<B>, lane: nat)
    requires inst.Valid()
  {
    && lane < |s.threads| && s.threads[lane].Running?
    && s.threads[lane].idx < inst.segmentLength
    && !ReadyMade(Time(Segment(inst, s.main), s.threads[lane].idx))
  }

  function At<B>(inst: Instance, s: State<B>, lane: nat): Time
    requires inst.Valid() && Active(inst, s, lane)
  {
    Time(Segment(inst, s.main), s.threads[lane].idx)
  }

  function SetStage<B>(s: State<B>, lane: nat, stage: Stage<B>): State<B>
    requires lane < |s.threads| && s.threads[lane].Running?
  {
    s.(threads := s.threads[lane := Running(s.threads[lane].idx, stage)])
  }

  function SetCell<B>(inst: Instance, s: State<B>, lane: nat, x: B): (s': State<B>)
    requires WellFormed(inst, s) && Active(inst, s, lane)
    ensures WellFormed(inst, s') && s' == s.(mem := s'.mem)
  {
    OffsetInRange(inst, lane, At(inst, s, lane));
    s.(mem := s.mem[CurrOffset(inst, lane, At(inst, s, lane)) := x])
  }

  /** One step of the thread of `lane`: it reads, computes, or finishes its write. */
  function ApplyLane<B>(k: Kernel<B>, inst: Instance, s: State<B>, lane: nat): (r: Option<State<B>>)
    requires WellFormed(inst, s)
    ensures r.Some? ==> WellFormed(inst, r.value) && r.value.main == s.main
  {
    if Active(inst, s, lane) then
      var t := At(inst, s, lane);
      OffsetInRange(inst, lane, t);
      OffsetInRange(inst, lane, Pred(inst.segmentLength, t));
      match s.threads[lane].stage
      case Top =>
        Some(SetStage(s, lane, Drawn(PseudoRand(k, inst, lane, t, s.mem[PrevOffset(inst, lane, t)]))))
      case Drawn(rand) =>
        RefOffsetInRange(inst, lane, t, rand);
        Some(SetStage(s, lane, GotRef(s.mem[RefOffset(inst, lane, t, rand)])))
      case GotRef(ref) =>
        Some(SetStage(s, lane, GotBoth(ref, s.mem[PrevOffset(inst, lane, t)])))
      case GotBoth(ref, prev) =>
        var filled := k.compress(prev, ref);
        Some(SetStage(s, lane, Ready(
          if WithXor(inst, t) then k.xor(filled, s.mem[CurrOffset(inst, lane, t)]) else filled)))
      case Ready(_) => None
      case Writing(block) =>
        var s' := SetCell(inst, s, lane, block);
        Some(s'.(threads := s'.threads[lane := Running(t.idx + 1, Top)]))
    else if lane < inst.lanes && s.threads[lane] == Running(inst.segmentLength, Top) then
      Some(s.(threads := s.threads[lane := Exited]))
    else None
  }

  lemma RefOffsetInRange(inst: Instance, lane: nat, t: Time, rand: nat)
    requires inst.Valid() && lane < inst.lanes && t.idx < inst.segmentLength && !ReadyMade(t)
    ensures RefOffset(inst, lane, t, rand) < inst.memoryBlocks
  {
    LaneFits(inst);
    RefOffsetExact(inst, lane, t, rand);
    var refLane := RefLane(inst, lane, t, rand);
    OffsetInRange(inst, refLane, RefTime(inst.segmentLength, t, refLane == lane, rand % 0x1_0000_0000));
  }

  function Apply<B>(k: Kernel<B>, inst: Instance, s: State<B>, a: Action<B>): (r: Option<State<B>>)
    requires WellFormed(inst, s)
    ensures r.Some? ==> WellFormed(inst, r.value)
  {
    match a
    case MainStep => ApplyMain(inst, s)
    case LaneStep(lane) => ApplyLane(k, inst, s, lane)
    case BeginWrite(lane, junk) =>
      if Active(inst, s, lane) && s.threads[lane].stage.Ready? then
        Some(SetStage(SetCell(inst, s, lane, junk), lane, Writing(s.threads[lane].stage.block)))
      else None
    case Scribble(lane, junk) =>
      if Active(inst, s, lane) && s.threads[lane].stage.Writing? then Some(SetCell(inst, s, lane, junk))
      else None
  }

  /** The state a schedule leads to, if every one of its steps is possible. */
  function Run<B>(k: Kernel<B>, inst: Instance, s: State<B>, schedule: seq<Action<B>>): (r: Option<State<B>>)
    requires WellFormed(inst, s)
    ensures r.Some? ==> WellFormed(inst, r.value)
    decreases |schedule|
  {
    if schedule == [] then Some(s)
    else
      match Apply(k, inst, s, schedule[0])
      case None => None
      case Some(s') => Run(k, inst, s', schedule[1..])
  }

  // ---- the thread window ----

  /** Lanes whose thread of the running slice has been created, and joined. */
  function Created(inst: Instance, main: Main): nat {
    match main
    case Spawn(_, l, _) => l
    case Collect(_, _) => inst.lanes
    case Done => inst.lanes
  }

  function Reaped(inst: Instance, main: Main): nat {
    match main
    case Spawn(_, l, reaped) => (if l <= inst.threads then 0 else l - inst.threads) + (if reaped then 1 else 0)
    case Collect(_, l) => l
    case Done => inst.lanes
  }

  predicate Live<B>(t: Thread<B>) { t.Running? || t.Exited? }

  predicate WindowInv<B>(inst: Instance, s: State<B>)
    requires WellFormed(inst, s)
  {
    && (s.main.Spawn? && s.main.reaped ==> inst.threads <= s.main.l < inst.lanes)
    && (s.main.Collect? ==> inst.lanes - inst.threads <= s.main.l)
    && (forall m :: 0 <= m < inst.lanes ==>
         && (m < Reaped(inst, s.main) ==> s.threads[m].Joined?)
         && (Reaped(inst, s.main) <= m < Created(inst, s.main) ==> Live(s.threads[m]))
         && (Created(inst, s.main) <= m ==> !Live(s.threads[m]))
         && s.creations[m] == Segment(inst, s.main) + (if m < Created(inst, s.main) then 1 else 0)
         && s.joins[m] == Segment(inst, s.main) + (if m < Reaped(inst, s.main) then 1 else 0))
  }

  lemma WindowKeptByMain<B>(inst: Instance, s: State<B>, s': State<B>)
    requires WellFormed(inst, s) && WindowInv(inst, s)
    requires ApplyMain(inst, s) == Some(s')
    ensures WindowInv(inst, s')
  {
    hide WindowInv, ApplyMain;
    if s.main.Spawn? {
      WindowKeptBySpawn(inst, s, s');
    } else {
      WindowKeptByCollect(inst, s, s');
    }
  }

  lemma WindowKeptBySpawn<B>(inst: Instance, s: State<B>, s': State<B>)
    requires WellFormed(inst, s) && WindowInv(inst, s) && s.main.Spawn?
    requires ApplyMain(inst, s) == Some(s')
    ensures WindowInv(inst, s')
  {
    ThreadsAndLanes(inst);
    hide Times, Instance.Valid;
  }

  lemma WindowKeptByCollect<B>(inst: Instance, s: State<B>, s': State<B>)
    requires WellFormed(inst, s) && WindowInv(inst, s) && !s.main.Spawn?
    requires ApplyMain(inst, s) == Some(s')
    ensures WindowInv(inst, s')
  {
    ThreadsAndLanes(inst);
    hide Times, Instance.Valid;
  }

  lemma ThreadsAndLanes(inst: Instance)
    requires inst.Valid()
    ensures 1 <= inst.threads <= inst.lanes && 1 <= inst.passes
  {
  }

  lemma WindowKeptByLane<B>(k: Kernel<B>, inst: Instance, s: State<B>, a: Action<B>, s': State<B>)
    requires WellFormed(inst, s) && WindowInv(inst, s) && !a.MainStep?
    requires Apply(k, inst, s, a) == Some(s')
    ensures s'.main == s.main && WindowInv(inst, s')
  {
    hide Apply, Instance.Valid;
    LaneStaysLive(k, inst, s, a, s');
  }

  /** A step of a lane thread changes only that thread, which was live and stays so. */
  lemma LaneStaysLive<B>(k: Kernel<B>, inst: Instance, s: State<B>, a: Action<B>, s': State<B>)
    requires WellFormed(inst, s) && !a.MainStep? && Apply(k, inst, s, a) == Some(s')
    ensures s'.main == s.main && s'.creations == s.creations && s'.joins == s.joins
    ensures WellFormed(inst, s') && a.lane < inst.lanes && Live(s.threads[a.lane]) && Live(s'.threads[a.lane])
    ensures forall m :: 0 <= m < inst.lanes && m != a.lane ==> s'.threads[m] == s.threads[m]
  {
    hide Times, Value, CurrOffset, PrevOffset, RefOffset, PseudoRand, Instance.Valid, WithXor, Pred;
  }

  lemma WindowKept<B>(k: Kernel<B>, inst: Instance, s: State<B>, a: Action<B>, s': State<B>)
    requires WellFormed(inst, s) && WindowInv(inst, s)
    requires Apply(k, inst, s, a) == Some(s')
    ensures WindowInv(inst, s')
  {
    hide WindowInv, ApplyLane, Times;
    if a.MainStep? {
      WindowKeptByMain(inst, s, s');
    } else {
      WindowKeptByLane(k, inst, s, a, s');
    }
  }

  /** In every reachable state the live threads are those of an interval of at most `threads` lanes, and
      every lane has been created and joined once per finished slice. */
  lemma {:induction false} WindowAlways<B>(k: Kernel<B>, inst: Instance, s: State<B>, schedule: seq<Action<B>>,
      s': State<B>)
    requires WellFormed(inst, s) && WindowInv(inst, s)
    requires Run(k, inst, s, schedule) == Some(s')
    ensures WindowInv(inst, s')
    decreases |schedule|
  {
    if schedule != [] {
      var next := Apply(k, inst, s, schedule[0]).value;
      WindowKept(k, inst, s, schedule[0], next);
      WindowAlways(k, inst, next, schedule[1..], s');
    }
  }

  lemma WindowInitially<B>(inst: Instance, mem: seq<B>)
    requires inst.Valid() && |mem| == inst.memoryBlocks
    ensures WellFormed(inst, Init(inst, mem)) && WindowInv(inst, Init(inst, mem))
  {
  }

  /** The lanes whose thread is live. */
  function LiveLanes<B>(s: State<B>): set<nat> {
    set m: nat | m < |s.threads| && Live(s.threads[m])
  }

  lemma {:induction false} IntervalSize(lo: nat, hi: nat, xs: set<nat>)
    requires lo <= hi && forall x :: x in xs ==> lo <= x < hi
    ensures |xs| <= hi - lo
    decreases hi - lo
  {
    if lo < hi {
      IntervalSize(lo + 1, hi, xs - {lo});
    }
  }

  /** At most `threads` threads are live at any moment of any run; `lanes - threads` does not underflow;
      when the run is complete every thread created has been joined, once per slice and lane. */
  lemma ThreadWindow<B>(k: Kernel<B>, inst: Instance, mem: seq<B>, schedule: seq<Action<B>>, s: State<B>)
    requires inst.Valid() && |mem| == inst.memoryBlocks
    requires WellFormed(inst, Init(inst, mem)) && Run(k, inst, Init(inst, mem), schedule) == Some(s)
    ensures |LiveLanes(s)| <= inst.threads <= inst.lanes
    ensures s.main.Done? ==> LiveLanes(s) == {}
    ensures s.main.Done? ==>
      forall m :: 0 <= m < inst.lanes ==> s.creations[m] == s.joins[m] == 4 * inst.passes
    ensures s.main.Spawn? && s.main.l == 0 ==>
      forall m :: 0 <= m < inst.lanes ==> s.creations[m] == s.joins[m] == s.main.seg
  {
    WindowInitially(inst, mem);
    WindowAlways(k, inst, Init(inst, mem), schedule, s);
    IntervalSize(Reaped(inst, s.main), Created(inst, s.main), LiveLanes(s));
  }

  // ---- what the memory holds meanwhile ----

  function ProgressOf<B>(inst: Instance, s: State<B>, lane: nat): Progress
    requires WellFormed(inst, s) && lane < inst.lanes
  {
    var seg := Segment(inst, s.main);
    if lane >= Created(inst, s.main) then Progress(Start(seg), false)
    else match s.threads[lane]
      case Running(idx, stage) => Progress(Time(seg, idx), stage.Writing? && idx < inst.segmentLength)
      case _ => Progress(Time(seg, inst.segmentLength), false)
  }

  function Progresses<B>(inst: Instance, s: State<B>): (prog: seq<Progress>)
    requires WellFormed(inst, s)
    ensures |prog| == inst.lanes
  {
    seq(inst.lanes, lane requires 0 <= lane < inst.lanes => ProgressOf(inst, s, lane))
  }

  /** What a lane thread has read so far is what the recurrence says, whatever the other lanes did. */
  ghost predicate StageInv<B>(k: Kernel<B>, inst: Instance, first: seq<B>, lane: nat, t: Time, stage: Stage<B>)
    requires inst.Valid() && lane < inst.lanes && |first| == inst.memoryBlocks
  {
    && NotAfter(Start(t.seg), t) && t.idx <= inst.segmentLength
    && (t.idx == inst.segmentLength ==> stage.Top?)
    && (t.idx < inst.segmentLength ==>
         match stage
         case Top => true
         case Drawn(rand) => rand == RandValue(k, inst, first, lane, t)
         case GotRef(ref) => ref == RefValue(k, inst, first, lane, t)
         case GotBoth(ref, prev) =>
           ref == RefValue(k, inst, first, lane, t) && prev == PredValue(k, inst, first, lane, t)
         case Ready(block) => block == Value(k, inst, first, lane, t)
         case Writing(block) => block == Value(k, inst, first, lane, t))
  }

  ghost predicate MemoryInv<B>(k: Kernel<B>, inst: Instance, first: seq<B>, s: State<B>)
    requires WellFormed(inst, s) && |first| == inst.memoryBlocks
  {
    && Consistent(k, inst, first, s.mem, Progresses(inst, s))
    && forall m :: 0 <= m < inst.lanes && s.threads[m].Running? ==>
         StageInv(k, inst, first, m, Time(Segment(inst, s.main), s.threads[m].idx), s.threads[m].stage)
  }

  lemma AllInSegment<B>(k: Kernel<B>, inst: Instance, first: seq<B>, s: State<B>)
    requires WellFormed(inst, s) && |first| == inst.memoryBlocks
    requires MemoryInv(k, inst, first, s)
    ensures InSegment(inst, Progresses(inst, s), Segment(inst, s.main))
  {
    hide Consistent, Value;
    forall m | 0 <= m < inst.lanes
      ensures var p := Progresses(inst, s)[m];
        && p.at.seg == Segment(inst, s.main) && p.at.idx <= inst.segmentLength
        && (p.writing ==> p.at.idx < inst.segmentLength)
        && NotAfter(Start(Segment(inst, s.main)), p.at)
    {
    }
  }

  /** Creating, joining and moving on to the next slice do not disturb the memory. */
  lemma MemoryKeptByMain<B>(k: Kernel<B>, inst: Instance, first: seq<B>, s: State<B>, s': State<B>)
    requires WellFormed(inst, s) && |first| == inst.memoryBlocks
    requires WindowInv(inst, s) && MemoryInv(k, inst, first, s)
    requires ApplyMain(inst, s) == Some(s')
    ensures MemoryInv(k, inst, first, s')
  {
    hide Value, Times, Consistent;
    if s.main.Collect? && s.main.l == inst.lanes && s.main.seg + 1 < 4 * inst.passes {
      ProgressesTurn(inst, s, s');
      NextSegment(k, inst, first, s.mem, s.main.seg);
    } else {
      ProgressesStay(inst, s, s');
    }
  }

  lemma ProgressesTurn<B>(inst: Instance, s: State<B>, s': State<B>)
    requires WellFormed(inst, s) && WindowInv(inst, s) && ApplyMain(inst, s) == Some(s')
    requires s.main.Collect? && s.main.l == inst.lanes && s.main.seg + 1 < 4 * inst.passes
    ensures Progresses(inst, s) == AllAt(inst, Time(s.main.seg, inst.segmentLength))
    ensures Progresses(inst, s') == AllAt(inst, Start(s.main.seg + 1))
  {
  }

  lemma ProgressesStay<B>(inst: Instance, s: State<B>, s': State<B>)
    requires WellFormed(inst, s) && WindowInv(inst, s) && ApplyMain(inst, s) == Some(s')
    requires !(s.main.Collect? && s.main.l == inst.lanes && s.main.seg + 1 < 4 * inst.passes)
    ensures Progresses(inst, s') == Progresses(inst, s)
  {
  }

  /** Every read of an iteration finds the block the recurrence asks for. */
  lemma ReadsRight<B>(k: Kernel<B>, inst: Instance, first: seq<B>, s: State<B>, lane: nat)
    requires WellFormed(inst, s) && |first| == inst.memoryBlocks
    requires MemoryInv(k, inst, first, s) && Active(inst, s, lane) && lane < Created(inst, s.main)
    ensures var t := At(inst, s, lane);
      && Cell(inst, s.mem, lane, Pred(inst.segmentLength, t)) == PredValue(k, inst, first, lane, t)
      && RefOffset(inst, lane, t, RandValue(k, inst, first, lane, t)) < |s.mem|
      && s.mem[RefOffset(inst, lane, t, RandValue(k, inst, first, lane, t))] == RefValue(k, inst, first, lane, t)
      && (WithXor(inst, t) && !s.threads[lane].stage.Writing? ==>
           Cell(inst, s.mem, lane, t) == Value(k, inst, first, lane, Time(t.seg - 4, t.idx)))
  {
    hide Times, PseudoRand, Column, RefTime, Value, RefOffset, RandValue, RefValue, StageInv, Offset;
    var t := At(inst, s, lane);
    var prog := Progresses(inst, s);
    AllInSegment(k, inst, first, s);
    PredHolds(inst, prog[lane]);
    RefRight(k, inst, first, s.mem, prog, lane, t);
    if WithXor(inst, t) && !s.threads[lane].stage.Writing? {
      OldHolds(prog[lane]);
      OldCell(inst, s.mem, lane, t);
    }
  }

  lemma RefRight<B>(k: Kernel<B>, inst: Instance, first: seq<B>, mem: seq<B>, prog: seq<Progress>, lane: nat, t: Time)
    requires inst.Valid() && |first| == inst.memoryBlocks
    requires Consistent(k, inst, first, mem, prog) && InSegment(inst, prog, t.seg)
    requires lane < inst.lanes && prog[lane].at == t && t.idx < inst.segmentLength && !ReadyMade(t)
    ensures var off := RefOffset(inst, lane, t, RandValue(k, inst, first, lane, t));
      off < |mem| && mem[off] == RefValue(k, inst, first, lane, t)
  {
    hide Times, PseudoRand, Column, RefTime, IndexAlpha, RefOffset;
    var rand := RandValue(k, inst, first, lane, t);
    var refLane := RefLane(inst, lane, t, rand);
    RefHolds(inst, prog, lane, t, refLane, rand % 0x1_0000_0000);
    RefOffsetExact(inst, lane, t, rand);
    RefOffsetInRange(inst, lane, t, rand);
  }

  lemma OthersKeepStage<B>(k: Kernel<B>, inst: Instance, first: seq<B>, s: State<B>, s': State<B>, lane: nat)
    requires WellFormed(inst, s) && WellFormed(inst, s') && |first| == inst.memoryBlocks
    requires lane < inst.lanes && s'.main == s.main
    requires forall m :: 0 <= m < inst.lanes && m != lane ==> s'.threads[m] == s.threads[m]
    requires MemoryInv(k, inst, first, s)
    requires Consistent(k, inst, first, s'.mem, Progresses(inst, s'))
    requires s'.threads[lane].Running? ==> StageInv(k, inst, first, lane,
      Time(Segment(inst, s.main), s'.threads[lane].idx), s'.threads[lane].stage)
    ensures MemoryInv(k, inst, first, s')
  {
    hide Consistent, StageInv;
  }

  lemma MemoryKeptByRead<B>(k: Kernel<B>, inst: Instance, first: seq<B>, s: State<B>, lane: nat, s': State<B>)
    requires WellFormed(inst, s) && |first| == inst.memoryBlocks
    requires WindowInv(inst, s) && MemoryInv(k, inst, first, s)
    requires lane < inst.lanes && s.threads[lane].Running? && !s.threads[lane].stage.Writing?
    requires ApplyLane(k, inst, s, lane) == Some(s')
    ensures MemoryInv(k, inst, first, s')
  {
    hide Consistent, Times, Column, Offset, PseudoRand, RefOffset, Pred, WithXor, Value;
    assert s'.mem == s.mem && s'.main == s.main;
    assert Progresses(inst, s') == Progresses(inst, s);
    if Active(inst, s, lane) {
      ReadsRight(k, inst, first, s, lane);
      ValueUnfolds(k, inst, first, lane, At(inst, s, lane));
    }
    OthersKeepStage(k, inst, first, s, s', lane);
  }

  /** A half-written cell may hold anything. */
  lemma MemoryKeptByScribble<B>(k: Kernel<B>, inst: Instance, first: seq<B>, s: State<B>, lane: nat, x: B, s': State<B>)
    requires WellFormed(inst, s) && |first| == inst.memoryBlocks
    requires WindowInv(inst, s) && MemoryInv(k, inst, first, s)
    requires Active(inst, s, lane) && (s.threads[lane].stage.Ready? || s.threads[lane].stage.Writing?)
    requires s' == SetStage(SetCell(inst, s, lane, x), lane, Writing(s.threads[lane].stage.block))
    ensures WellFormed(inst, s') && MemoryInv(k, inst, first, s')
  {
    hide Consistent, Times, Column, Value;
    Overwrite(k, inst, first, s.mem, Progresses(inst, s), lane, x);
    assert Progresses(inst, s') == Progresses(inst, s)[lane := Progress(At(inst, s, lane), true)];
    OthersKeepStage(k, inst, first, s, s', lane);
  }

  /** The finished write completes the block. */
  lemma MemoryKeptByWrite<B>(k: Kernel<B>, inst: Instance, first: seq<B>, s: State<B>, lane: nat, s': State<B>)
    requires WellFormed(inst, s) && |first| == inst.memoryBlocks
    requires WindowInv(inst, s) && MemoryInv(k, inst, first, s)
    requires Active(inst, s, lane) && s.threads[lane].stage.Writing?
    requires ApplyLane(k, inst, s, lane) == Some(s')
    ensures MemoryInv(k, inst, first, s')
  {
    hide Consistent, Times, Column, Value;
    var block := s.threads[lane].stage.block;
    var prog := Progresses(inst, s);
    Overwrite(k, inst, first, s.mem, prog, lane, block);
    assert prog[lane := Progress(At(inst, s, lane), true)] == prog;
    OffsetInRange(inst, lane, At(inst, s, lane));
    Complete(k, inst, first, s'.mem, prog, lane);
    assert Progresses(inst, s') == prog[lane := Advance(prog[lane])];
    OthersKeepStage(k, inst, first, s, s', lane);
  }

  lemma MemoryKept<B>(k: Kernel<B>, inst: Instance, first: seq<B>, s: State<B>, a: Action<B>, s': State<B>)
    requires WellFormed(inst, s) && |first| == inst.memoryBlocks
    requires WindowInv(inst, s) && MemoryInv(k, inst, first, s)
    requires Apply(k, inst, s, a) == Some(s')
    ensures MemoryInv(k, inst, first, s')
  {
    hide Consistent, Value, StageInv, MemoryInv, WindowInv, Times;
    match a
    case MainStep => MemoryKeptByMain(k, inst, first, s, s');
    case LaneStep(lane) =>
      if s.threads[lane].stage.Writing? && Active(inst, s, lane) {
        MemoryKeptByWrite(k, inst, first, s, lane, s');
      } else {
        MemoryKeptByRead(k, inst, first, s, lane, s');
      }
    case BeginWrite(lane, junk) => MemoryKeptByScribble(k, inst, first, s, lane, junk, s');
    case Scribble(lane, junk) =>
      assert s' == SetStage(s', lane, s.threads[lane].stage);
      MemoryKeptByScribble(k, inst, first, s, lane, junk, s');
  }

  lemma {:induction false} MemoryAlways<B>(k: Kernel<B>, inst: Instance, first: seq<B>, s: State<B>,
                                           schedule: seq<Action<B>>, s': State<B>)
    requires WellFormed(inst, s) && |first| == inst.memoryBlocks
    requires WindowInv(inst, s) && MemoryInv(k, inst, first, s)
    requires Run(k, inst, s, schedule) == Some(s')
    ensures WindowInv(inst, s') && MemoryInv(k, inst, first, s')
    decreases |schedule|
  {
    hide Consistent, Value, StageInv, MemoryInv, WindowInv, Times, ApplyMain, ApplyLane;
    if schedule != [] {
      var next := Apply(k, inst, s, schedule[0]).value;
      WindowKept(k, inst, s, schedule[0], next);
      MemoryKept(k, inst, first, s, schedule[0], next);
      MemoryAlways(k, inst, first, next, schedule[1..], s');
    }
  }

  lemma MemoryInitially<B>(k: Kernel<B>, inst: Instance, mem: seq<B>)
    requires inst.Valid() && |mem| == inst.memoryBlocks
    ensures WellFormed(inst, Init(inst, mem)) && WindowInv(inst, Init(inst, mem))
    ensures MemoryInv(k, inst, mem, Init(inst, mem))
  {
    hide Value, Times;
    Initially(k, inst, mem);
    assert Progresses(inst, Init(inst, mem)) == AllAt(inst, Start(0));
  }

  /** Schedule independence: whatever the number of threads and however their reads and half-done writes
      interleave, a complete run of the multi-threaded fill leaves the memory of the recurrence, which
      is the one `FillMemoryBlocksSt` computes, and hence the same final block. */
  lemma ScheduleIndependence<B>(k: Kernel<B>, inst: Instance, mem: seq<B>, schedule: seq<Action<B>>, s: State<B>)
    requires inst.Valid() && |mem| == inst.memoryBlocks
    requires WellFormed(inst, Init(inst, mem)) && Run(k, inst, Init(inst, mem), schedule) == Some(s)
    requires s.main.Done?
    ensures s.mem == FinalMemory(k, inst, mem)
  {
    hide Consistent, Value, Times, FinalMemory;
    MemoryInitially(k, inst, mem);
    MemoryAlways(k, inst, mem, Init(inst, mem), schedule, s);
    var last := 4 * inst.passes - 1;
    assert Progresses(inst, s) == AllAt(inst, Time(last, inst.segmentLength));
    NextSegment(k, inst, mem, s.mem, last);
    Finally(k, inst, mem, s.mem);
  }

  // ---- no data races, no deadlock, no endless run ----

  /** The cell a lane is writing in this iteration is not read or written by any other lane's iteration,
      whatever random value that one draws. */
  lemma NoRace<B>(inst: Instance, s: State<B>, a: nat, b: nat, rand: nat)
    requires WellFormed(inst, s) && a != b
    requires Active(inst, s, a) && Active(inst, s, b)
    ensures var mine, theirs := At(inst, s, a), At(inst, s, b);
      CurrOffset(inst, a, mine) !in {CurrOffset(inst, b, theirs), PrevOffset(inst, b, theirs),
        RefOffset(inst, b, theirs, rand)}
  {
    hide Times, Column, RefTime, RefOffset;
    var mine, theirs := At(inst, s, a), At(inst, s, b);
    RefOffsetExact(inst, b, theirs, rand);
    var refLane := RefLane(inst, b, theirs, rand);
    var w := RefTime(inst.segmentLength, theirs, refLane == b, rand % 0x1_0000_0000);
    if CurrOffset(inst, a, mine) == CurrOffset(inst, b, theirs) {
      CellsDiffer(inst, a, mine, b, theirs);
    }
    if CurrOffset(inst, a, mine) == PrevOffset(inst, b, theirs) {
      CellsDiffer(inst, a, mine, b, Pred(inst.segmentLength, theirs));
    }
    if CurrOffset(inst, a, mine) == CurrOffset(inst, refLane, w) {
      CellsDiffer(inst, a, mine, refLane, w);
    }
  }

  /** The thread the calling thread is about to join, if any. */
  function JoinTarget(inst: Instance, main: Main): Option<int> {
    match main
    case Spawn(_, l, reaped) => if l < inst.lanes && l >= inst.threads && !reaped then Some(l - inst.threads) else None
    case Collect(_, l) => if l < inst.lanes then Some(l) else None
    case Done => None
  }

  /** Some step is possible in every reachable state but the last: the calling thread only ever waits for
      a thread that is live, and that thread can go on. */
  lemma NeverStuck<B>(k: Kernel<B>, inst: Instance, first: seq<B>, s: State<B>, junk: B) returns (a: Action<B>)
    requires WellFormed(inst, s) && |first| == inst.memoryBlocks
    requires WindowInv(inst, s) && MemoryInv(k, inst, first, s) && !s.main.Done?
    ensures Apply(k, inst, s, a).Some? && !a.Scribble?
  {
    hide Consistent, Value, Times, PseudoRand, RefOffset, RandValue, RefValue, PredValue, CurrOffset, PrevOffset;
    var target := JoinTarget(inst, s.main);
    if target == None || s.threads[target.value].Exited? {
      a := MainStep;
    } else {
      var lane := target.value;
      assert s.threads[lane].Running?;
      if s.threads[lane].idx < inst.segmentLength && s.threads[lane].stage.Ready? {
        a := BeginWrite(lane, junk);
      } else {
        a := LaneStep(lane);
      }
    }
  }

  function StageRank<B>(stage: Stage<B>): nat {
    match stage
    case Top => 0
    case Drawn(_) => 1
    case GotRef(_) => 2
    case GotBoth(_, _) => 3
    case Ready(_) => 4
    case Writing(_) => 5
  }

  function ThreadWork<B>(inst: Instance, t: Thread<B>): int {
    if t.Running? then 6 * (inst.segmentLength - t.idx) + 1 - StageRank(t.stage) else 0
  }

  function TotalWork<B>(inst: Instance, threads: seq<Thread<B>>): int {
    if threads == [] then 0 else ThreadWork(inst, threads[0]) + TotalWork(inst, threads[1..])
  }

  lemma {:induction false} OneThreadWorks<B>(inst: Instance, threads: seq<Thread<B>>, l: nat, t: Thread<B>)
    requires l < |threads|
    ensures TotalWork(inst, threads[l := t]) == TotalWork(inst, threads) - ThreadWork(inst, threads[l])
      + ThreadWork(inst, t)
  {
    if l > 0 {
      OneThreadWorks(inst, threads[1..], l - 1, t);
      assert threads[l := t][1..] == threads[1..][l - 1 := t];
    } else {
      assert threads[l := t][1..] == threads[1..];
    }
  }

  lemma {:induction false} WorkNonNegative<B>(inst: Instance, threads: seq<Thread<B>>)
    requires forall l :: 0 <= l < |threads| ==> ThreadWork(inst, threads[l]) >= 0
    ensures TotalWork(inst, threads) >= 0
  {
    if threads != [] {
      WorkNonNegative(inst, threads[1..]);
    }
  }

  /** The steps the calling thread has still to take. */
  function MainRank(inst: Instance, main: Main): nat
    requires inst.Valid()
    requires (main.Spawn? || main.Collect?) ==> main.l <= inst.lanes && main.seg < 4 * inst.passes
  {
    match main
    case Spawn(seg, l, reaped) =>
      Times(4 * inst.passes - seg - 1, 3 * inst.lanes + 2) + 2 * (inst.lanes - l) + (if reaped then 0 else 1) +
        inst.lanes + 1
    case Collect(seg, l) => Times(4 * inst.passes - seg - 1, 3 * inst.lanes + 2) + (inst.lanes - l) + 1
    case Done => 0
  }

  lemma MainDescends<B>(inst: Instance, s: State<B>, s': State<B>)
    requires WellFormed(inst, s) && WindowInv(inst, s) && ApplyMain(inst, s) == Some(s')
    ensures 0 <= MainRank(inst, s'.main) < MainRank(inst, s.main)
  {
    hide Join, Create;
  }

  lemma LaneDescends<B>(k: Kernel<B>, inst: Instance, s: State<B>, a: Action<B>, s': State<B>)
    requires WellFormed(inst, s) && Apply(k, inst, s, a) == Some(s')
    requires a.LaneStep? || a.BeginWrite?
    ensures s'.main == s.main && TotalWork(inst, s'.threads) < TotalWork(inst, s.threads)
  {
    hide Value, PseudoRand, RefOffset, CurrOffset, PrevOffset, Column, Offset, TotalWork, Times, ApplyMain;
    OneThreadWorks(inst, s.threads, a.lane, s'.threads[a.lane]);
  }

  /** A run makes progress: every step of the calling thread lowers its rank, and every step of a lane
      other than more scribbling over a half-written cell lowers the work left. Both are bounded below. */
  lemma StepsDescend<B>(k: Kernel<B>, inst: Instance, first: seq<B>, s: State<B>, a: Action<B>, s': State<B>)
    requires WellFormed(inst, s) && |first| == inst.memoryBlocks
    requires WindowInv(inst, s) && MemoryInv(k, inst, first, s)
    requires Apply(k, inst, s, a) == Some(s') && !a.Scribble?
    ensures if a.MainStep? then MainRank(inst, s'.main) < MainRank(inst, s.main)
            else s'.main == s.main && TotalWork(inst, s'.threads) < TotalWork(inst, s.threads)
    ensures 0 <= MainRank(inst, s'.main) && 0 <= TotalWork(inst, s.threads)
  {
    hide Consistent, Value, MemoryInv, TotalWork, MainRank, Times, WindowInv;
    WorkBounded(k, inst, first, s);
    if a.MainStep? {
      MainDescends(inst, s, s');
    } else {
      LaneDescends(k, inst, s, a, s');
    }
  }

  lemma WorkBounded<B>(k: Kernel<B>, inst: Instance, first: seq<B>, s: State<B>)
    requires WellFormed(inst, s) && |first| == inst.memoryBlocks && MemoryInv(k, inst, first, s)
    ensures TotalWork(inst, s.threads) >= 0
  {
    hide Consistent, Value, Times, RandValue, RefValue, PredValue;
    WorkNonNegative(inst, s.threads);
  }

  /** A created thread adds the work of one segment at most. */
  lemma MainAddsWork<B>(inst: Instance, s: State<B>, s': State<B>)
    requires WellFormed(inst, s) && WindowInv(inst, s) && ApplyMain(inst, s) == Some(s')
    ensures TotalWork(inst, s'.threads) <= TotalWork(inst, s.threads) + 6 * inst.segmentLength + 1
  {
    hide TotalWork, Times;
    var target := JoinTarget(inst, s.main);
    if target.Some? {
      OneThreadWorks(inst, s.threads, target.value, Joined);
    } else if s.main.Spawn? && s.main.l < inst.lanes {
      OneThreadWorks(inst, s.threads, s.main.l, Running(Start(s.main.seg).idx, Top));
    }
  }

  /** The steps a state leaves room for. */
  function Budget<B>(inst: Instance, s: State<B>): int
    requires WellFormed(inst, s)
  {
    Times(MainRank(inst, s.main), 6 * inst.segmentLength + 2) + TotalWork(inst, s.threads)
  }

  lemma BudgetSpent<B>(k: Kernel<B>, inst: Instance, first: seq<B>, s: State<B>, a: Action<B>, s': State<B>)
    requires WellFormed(inst, s) && |first| == inst.memoryBlocks
    requires WindowInv(inst, s) && MemoryInv(k, inst, first, s)
    requires Apply(k, inst, s, a) == Some(s')
    ensures Budget(inst, s') <= Budget(inst, s) - (if a.Scribble? then 0 else 1)
  {
    if a.Scribble? {
      ScribbleKeepsThreads(k, inst, s, a, s');
    } else {
      hide Consistent, Value, MemoryInv, TotalWork, MainRank, Times, WindowInv, Apply;
      StepsDescend(k, inst, first, s, a, s');
      if a.MainStep? {
        MainStepApplies(k, inst, s, s');
        MainAddsWork(inst, s, s');
        NextRow(MainRank(inst, s'.main), MainRank(inst, s.main), 6 * inst.segmentLength + 2);
      }
    }
  }

  lemma MainStepApplies<B>(k: Kernel<B>, inst: Instance, s: State<B>, s': State<B>)
    requires WellFormed(inst, s) && Apply(k, inst, s, MainStep) == Some(s')
    ensures ApplyMain(inst, s) == Some(s')
  {
  }

  lemma ScribbleKeepsThreads<B>(k: Kernel<B>, inst: Instance, s: State<B>, a: Action<B>, s': State<B>)
    requires WellFormed(inst, s) && a.Scribble? && Apply(k, inst, s, a) == Some(s')
    ensures s'.main == s.main && s'.threads == s.threads
  {
    hide Times;
  }

  lemma NextRow(a: nat, b: nat, m: nat)
    requires a < b
    ensures Times(a, m) + m <= Times(b, m)
  {
    TimesMono(a + 1, b, m);
  }

  /** The steps of a schedule, not counting scribbles over a half-written cell. */
  function Steps<B>(schedule: seq<Action<B>>): nat {
    if schedule == [] then 0 else (if schedule[0].Scribble? then 0 else 1) + Steps(schedule[1..])
  }

  lemma {:induction false} StepsWithinBudget<B>(k: Kernel<B>, inst: Instance, first: seq<B>, s: State<B>,
                                                schedule: seq<Action<B>>, s': State<B>)
    requires WellFormed(inst, s) && |first| == inst.memoryBlocks
    requires WindowInv(inst, s) && MemoryInv(k, inst, first, s)
    requires Run(k, inst, s, schedule) == Some(s')
    ensures Steps(schedule) <= Budget(inst, s)
    decreases |schedule|
  {
    hide Consistent, Value, MemoryInv, WindowInv, Times, Apply, Budget;
    if schedule == [] {
      BudgetLeft(k, inst, first, s);
    } else {
      var next := Apply(k, inst, s, schedule[0]).value;
      WindowKept(k, inst, s, schedule[0], next);
      MemoryKept(k, inst, first, s, schedule[0], next);
      BudgetSpent(k, inst, first, s, schedule[0], next);
      StepsWithinBudget(k, inst, first, next, schedule[1..], s');
    }
  }

  lemma BudgetLeft<B>(k: Kernel<B>, inst: Instance, first: seq<B>, s: State<B>)
    requires WellFormed(inst, s) && |first| == inst.memoryBlocks && MemoryInv(k, inst, first, s)
    ensures Budget(inst, s) >= 0
  {
    hide MemoryInv, TotalWork, MainRank;
    WorkBounded(k, inst, first, s);
  }

  lemma {:induction false} NoWorkYet<B>(inst: Instance, threads: seq<Thread<B>>)
    requires forall l :: 0 <= l < |threads| ==> threads[l] == Absent
    ensures TotalWork(inst, threads) == 0
  {
    if threads != [] {
      NoWorkYet(inst, threads[1..]);
    }
  }

  /** No run is endless: whatever the schedule, there are at most (4 passes)(3 lanes + 2)(6 segmentLength + 2)
      steps that are not scribbles over a half-written cell. */
  lemma RunsAreBounded<B>(k: Kernel<B>, inst: Instance, mem: seq<B>, schedule: seq<Action<B>>, s: State<B>)
    requires inst.Valid() && |mem| == inst.memoryBlocks
    requires WellFormed(inst, Init(inst, mem)) && Run(k, inst, Init(inst, mem), schedule) == Some(s)
    ensures Steps(schedule) <= Times(Times(4 * inst.passes, 3 * inst.lanes + 2), 6 * inst.segmentLength + 2)
  {
    hide Consistent, Value, MemoryInv, WindowInv, Run, TotalWork;
    MemoryInitially(k, inst, mem);
    StepsWithinBudget(k, inst, mem, Init(inst, mem), schedule, s);
    NoWorkYet(inst, Init(inst, mem).threads);
    assert MainRank(inst, Init(inst, mem).main) == Times(4 * inst.passes, 3 * inst.lanes + 2);
  }

  /** From every reachable state the fill can be completed. */
  lemma {:induction false} CanFinish<B>(k: Kernel<B>, inst: Instance, first: seq<B>, s: State<B>, junk: B)
    returns (schedule: seq<Action<B>>, s': State<B>)
    requires WellFormed(inst, s) && |first| == inst.memoryBlocks
    requires WindowInv(inst, s) && MemoryInv(k, inst, first, s)
    ensures Run(k, inst, s, schedule) == Some(s') && s'.main.Done?
    decreases MainRank(inst, s.main), TotalWork(inst, s.threads)
  {
    hide Consistent, Value, MemoryInv, TotalWork, MainRank, Times, WindowInv, Apply;
    if s.main.Done? {
      schedule, s' := [], s;
    } else {
      var a := NeverStuck(k, inst, first, s, junk);
      var next := Apply(k, inst, s, a).value;
      StepsDescend(k, inst, first, s, a, next);
      MemoryKept(k, inst, first, s, a, next);
      WindowKept(k, inst, s, a, next);
      var rest;
      rest, s' := CanFinish(k, inst, first, next, junk);
      schedule := [a] + rest;
      assert schedule[1..] == rest;
    }
  }
}
