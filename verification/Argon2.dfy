/** `argon2_ctx` and the parts of core.c it calls, end to end: the bytes written are the tag. */
module Argon2 {
  import opened Words
  import opened Indexing
  import opened Recurrence
  import opened FillMemory
  import opened Threads
  import opened Context
  import opened Blake2b
  import opened Blake2bLong
  import opened InitialHash
  import opened FillBlock
  import opened FirstBlocks
  import opened Tag

  // ---- fill_memory_blocks ----

  /** The operating system: for every memory it picks the order of all steps. */
  datatype Scheduler<!B> = Scheduler(order: (Instance, seq<B>) -> seq<Action<B>>)

  ghost predicate IsCompleteRun<B(!new)>(k: Kernel<B>, inst: Instance, mem: seq<B>, schedule: seq<Action<B>>) {
    WellFormed(inst, Init(inst, mem)) ==>
      var s := Run(k, inst, Init(inst, mem), schedule); s.Some? && s.value.main.Done?
  }

  /** Every thread can be created and joined, and every fill comes to its end. */
  ghost predicate Completes<B(!new)>(k: Kernel<B>, os: Scheduler<B>) {
    forall inst: Instance, mem: seq<B> {:trigger os.order(inst, mem)} ::
      IsCompleteRun(k, inst, mem, os.order(inst, mem))
  }

  lemma SomeRunCompletes<B(!new)>(k: Kernel<B>, inst: Instance, mem: seq<B>) returns (schedule: seq<Action<B>>)
    ensures IsCompleteRun(k, inst, mem, schedule)
  {
    schedule := [];
    if WellFormed(inst, Init(inst, mem)) {
      hide Consistent, Value, MemoryInv, WindowInv, Run, Times;
      MemoryInitially(k, inst, mem);
      SomeCell(inst);
      var s;
      schedule, s := CanFinish(k, inst, mem, Init(inst, mem), mem[0]);
    }
  }

  lemma SomeCell(inst: Instance)
    requires inst.Valid()
    ensures inst.memoryBlocks > 0
  {
    TimesMono(1, inst.lanes, inst.laneLength);
    TimesSmall(1, inst.laneLength);
  }

  lemma SomeRunExists<B(!new)>(k: Kernel<B>, inst: Instance, mem: seq<B>)
    ensures exists schedule :: IsCompleteRun(k, inst, mem, schedule)
  {
    var schedule := SomeRunCompletes(k, inst, mem);
  }

  /** Such an operating system exists. */
  lemma SomeSchedulerCompletes<B(!new)>(k: Kernel<B>) returns (os: Scheduler<B>)
    ensures Completes(k, os)
  {
    hide Run, Init, WellFormed;
    os := Scheduler((inst, mem) => ChosenRun(k, inst, mem));
  }

  ghost function ChosenRun<B(!new)>(k: Kernel<B>, inst: Instance, mem: seq<B>): (schedule: seq<Action<B>>)
    ensures IsCompleteRun(k, inst, mem, schedule)
  {
    SomeRunExists(k, inst, mem);
    var schedule :| IsCompleteRun(k, inst, mem, schedule);
    schedule
  }

  /** `fill_memory_blocks_mt`, its threads interleaved as the operating system pleases. */
  method FillMemoryBlocksMt<B(!new)>(k: Kernel<B>, inst: Instance, memory: array<B>, os: Scheduler<B>)
    requires inst.Valid() && memory.Length == inst.memoryBlocks && Completes(k, os)
    modifies memory
    ensures memory[..] == FinalMemory(k, inst, old(memory[..]))
  {
    hide FinalMemory, Run, Times;
    var order := os.order(inst, memory[..]);
    WindowInitially(inst, memory[..]);
    var s := Run(k, inst, Init(inst, memory[..]), order).value;
    ScheduleIndependence(k, inst, memory[..], order, s);
    forall i | 0 <= i < memory.Length { memory[i] := s.mem[i]; }
    assert memory[..] == s.mem;
  }

  /** `fill_memory_blocks`. */
  method FillMemoryBlocks<B(!new)>(k: Kernel<B>, inst: Instance, memory: array<B>, os: Scheduler<B>)
    returns (code: Code)
    requires inst.lanes > 0 ==> inst.Valid() && memory.Length == inst.memoryBlocks
    requires Completes(k, os)
    modifies memory
    ensures code == if inst.lanes == 0 then IncorrectParameter else Ok
    ensures code == Ok ==> memory[..] == FinalMemory(k, inst, old(memory[..]))
    ensures code != Ok ==> memory[..] == old(memory[..])
  {
    hide FinalMemory, Completes, Times;
    if inst.lanes == 0 {
      return IncorrectParameter;
    }
    if inst.threads == 1 {
      FillMemoryBlocksSt(k, inst, memory);
    } else {
      FillMemoryBlocksMt(k, inst, memory, os);
    }
    code := Ok;
  }

  // ---- initialize and finalize ----

  /** `initialize`: memory with arbitrary contents, but for the first two blocks of every lane. */
  method Initialize<H(!new)>(alg: Alg<H>, inst: Instance, ctx: Context, ty: nat) returns (memory: array<Block>)
    requires alg.Valid() && inst.Valid() && Sized(ctx) && NullsEmpty(ctx.View())
    modifies ctx`pwdlen, ctx`secretlen, ctx.pwd, ctx.secret
    ensures fresh(memory) && memory.Length == inst.memoryBlocks
    ensures SameStart(inst, memory[..], FirstMemory(alg, inst, H0(alg, old(AsHashed(ctx)), ty)))
    ensures FieldsWiped(ctx)
  {
    hide FirstMemory, SameStart, Digest, Preimage, Times, AsHashed, AfterSecret, AfterPassword, HashOfInputs, ParamsOf,
      Rem, NullsEmpty, Instance.Valid;
    memory := new Block[inst.memoryBlocks];
    var hash := InitialHash.InitialHash(alg, ctx, ty);
    var blockhash := new byte[72](i requires 0 <= i < 72 => if i < 64 then hash[i] else 0);
    assert blockhash[..64] == hash;
    FillFirstBlocks(alg, blockhash, inst, memory);
  }

  /** `finalize`. */
  method Finalize<H(!new)>(alg: Alg<H>, inst: Instance, ctx: Context, memory: array<Block>, ghost first: seq<Block>)
    requires alg.Valid() && inst.Valid() && memory.Length == |first| == inst.memoryBlocks
    requires memory[..] == FinalMemory(Argon2Kernel(), inst, first)
    requires ctx.out != null && 1 <= ctx.outlen <= ctx.out.Length
    modifies ctx.out
    ensures ctx.out[..ctx.outlen]
      == HPrime(alg, ctx.outlen, ToBytes(LastBlocks(Argon2Kernel(), inst, first, inst.lanes)))
    ensures forall j :: ctx.outlen <= j < ctx.out.Length ==> ctx.out[j] == old(ctx.out[j])
  {
    hide HPrime, LastBlocks, FinalMemory, ToBytes, Times;
    var blockhash := FinalBlock(Argon2Kernel(), inst, memory, first);
    var blockhashBytes := StoreBlock(blockhash);
    var _ := Blake2bLong.Blake2bLong(alg, ctx.out, ctx.outlen, blockhashBytes);
  }

  // ---- argon2_ctx ----

  predicate KnownType(ty: int) { ty == ARGON2_D || ty == ARGON2_I || ty == ARGON2_ID }

  function CtxCode(c: Inputs, ty: int): Code {
    if ValidateInputs(c) != Ok then ValidateInputs(c) else if !KnownType(ty) then IncorrectType else Ok
  }

  predicate OutputIs(ctx: Context, tag: seq<byte>)
    reads ctx, ctx.out
  {
    ctx.out != null && ctx.outlen <= ctx.out.Length && ctx.out[..ctx.outlen] == tag
  }

  lemma HashedInRange(ctx: Context, ty: int)
    requires Sized(ctx) && InRange(ctx.View())
    ensures InRange(AsHashed(ctx)) && MakeInstance(AsHashed(ctx), ty) == MakeInstance(ctx.View(), ty)
  {
  }

  /** Steps 3 to 5 of `argon2_ctx`. */
  method Compute<H(!new)>(alg: Alg<H>, os: Scheduler<Block>, ctx: Context, inst: Instance, ty: nat) returns (code: Code)
    requires alg.Valid() && Completes(Argon2Kernel(), os) && Sized(ctx)
    requires InRange(ctx.View()) && InRange(AsHashed(ctx)) && inst == MakeInstance(AsHashed(ctx), ty)
    modifies ctx`pwdlen, ctx`secretlen, ctx.pwd, ctx.secret, ctx.out
    ensures code == Ok && OutputIs(ctx, TagOf(alg, old(AsHashed(ctx)), ty))
    ensures ctx.out !in {ctx.pwd, ctx.secret} ==> FieldsWiped(ctx)
  {
    hide FirstMemory, SameStart, H0, Preimage, Times, Completes, FinalMemory, LastBlocks, HPrime, MakeInstance,
         AfterSecret, AfterPassword;
    ghost var c := AsHashed(ctx);
    InstanceValid(c, ty);
    var memory := Initialize(alg, inst, ctx, ty);
    ghost var first := memory[..];
    code := FillMemoryBlocks(Argon2Kernel(), inst, memory, os);
    LastFromStart(Argon2Kernel(), inst, first, FirstMemory(alg, inst, H0(alg, c, ty)), inst.lanes);
    Finalize(alg, inst, ctx, memory, first);
  }

  /** `argon2_ctx`: either an error and nothing changed, or the tag in the output buffer, for every
      schedule of the threads. */
  method Argon2Ctx<H(!new)>(alg: Alg<H>, os: Scheduler<Block>, ctx: Context, ty: int) returns (code: Code)
    requires alg.Valid() && Completes(Argon2Kernel(), os) && Sized(ctx)
    modifies ctx`pwdlen, ctx`secretlen, ctx.pwd, ctx.secret, ctx.out
    ensures code == CtxCode(old(ctx.View()), ty)
    ensures code != Ok ==> ctx.View() == old(ctx.View())
    ensures code == Ok ==> InRange(old(AsHashed(ctx))) && OutputIs(ctx, TagOf(alg, old(AsHashed(ctx)), ty))
    ensures code == Ok && ctx.out !in {ctx.pwd, ctx.secret} ==> FieldsWiped(ctx)
  {
    hide ValidateInputs, TagOf, Completes, InRange, AsHashed, AfterSecret, AfterPassword;
    code := ValidateInputs(ctx.View());
    if code != Ok {
      return;
    }
    if !KnownType(ty) {
      return IncorrectType;
    }
    ValidateIffInRange(ctx.View());
    HashedInRange(ctx, ty);
    var inst := InstanceOf(ctx.View(), ty);
    code := Compute(alg, os, ctx, inst, ty);
  }

  /** The instance of validated inputs. */
  method InstanceOf(c: Inputs, ty: int) returns (inst: Instance)
    requires InRange(c)
    ensures inst == MakeInstance(c, ty) && inst.Valid()
  {
    InstanceValid(c, ty);
    inst := MakeInstance(c, ty);
  }
}
