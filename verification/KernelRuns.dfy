/** Every run of the kernel's memory operations over all loaded processes. */
module KernelRuns {
  import opened Words
  import opened HeapTable
  import opened Paging
  import opened KernelMemory
  import opened PageDirectories
  import opened ProcessSpace
  import ElfMapping
  import Heap
  import Loading
  import Processes

  /** The live allocations, memory, and the loaded processes by id. */
  datatype Sys = Sys(a: Allocs, m: Ram, procs: map<int, Proc>)

  /** Every process is in order and no two hold the same allocation. */
  ghost predicate SysOk(s: Sys) {
    && Disjoint(s.a)
    && (forall i :: i in s.procs ==> ProcOk(s.a, s.m, s.procs[i]))
    && (forall i, j :: i in s.procs && j in s.procs && i != j ==>
          Holdings(s.m, s.procs[i]) !! Holdings(s.m, s.procs[j]))
  }

  datatype Op = Malloc(id: int, size: u32, ptr: u32) | Free(id: int, ptr: u32) | Terminate(id: int)
              | Load(id: int) | FailedLoad(id: int)

  /** A successful load, as the loader guarantees it. */
  ghost predicate LoadStep(s: Sys, id: int, s': Sys) {
    && id !in s.procs && id in s'.procs && s'.procs == s.procs[id := s'.procs[id]]
    && Loaded(s.a, s.m, s'.a, s'.m, s'.procs[id])
  }

  /** A load that ends with an error code: there is no new process, but what was granted may stay allocated. */
  ghost predicate FailedLoadStep(s: Sys, id: int, s': Sys) {
    id !in s.procs && s'.procs == s.procs && Alongside(s.a, s.m, s'.a, s'.m)
  }

  /** One kernel operation on behalf of process `id`, exactly as its method guarantees it. */
  ghost predicate Step(s: Sys, op: Op, s': Sys)
    requires SysOk(s)
  {
    match op
    case Malloc(id, size, ptr) =>
      id in s.procs && s'.procs.Keys == s.procs.Keys
      && s'.procs == s.procs[id := s'.procs[id]]
      && MallocStep(s.a, s.m, s.procs[id], size, ptr, s'.a, s'.m, s'.procs[id])
    case Free(id, ptr) =>
      id in s.procs && s'.procs.Keys == s.procs.Keys
      && s'.procs == s.procs[id := s'.procs[id]]
      && FreeStep(s.a, s.m, s.procs[id], ptr, s'.a, s'.m, s'.procs[id])
    case Terminate(id) =>
      id in s.procs && s'.procs == s.procs - {id}
      && TerminateStep(s.a, s.m, s.procs[id], s'.a, s'.m)
    case Load(id) => LoadStep(s, id, s')
    case FailedLoad(id) => FailedLoadStep(s, id, s')
  }

  /** What an operation that acts for someone else leaves alone. */
  ghost predicate Untouched(m: Ram, m': Ram, q: Proc)
    requires ChunkOk(m, q.chunk) && |q.slots| == MAX_ALLOCATIONS
  {
    SameChunk(m, m', q.chunk, FlatMap(m, q.chunk)) && Holdings(m', q) == Holdings(m, q)
  }

  /** The process is in order after the operation, and untouched by it. */
  ghost predicate StillThere(m: Ram, a': Allocs, m': Ram, q: Proc)
    requires ChunkOk(m, q.chunk) && |q.slots| == MAX_ALLOCATIONS
  {
    ProcOk(a', m', q) && Untouched(m, m', q)
  }

  lemma BystanderKept(a: Allocs, m: Ram, a': Allocs, m': Ram, q: Proc, frames: iset<int>)
    requires ProcOk(a, m, q) && AgreeOutside(m, m', frames) && frames !! OwnedFrames(m, q.chunk)
    requires forall f :: f in Holdings(m, q) ==> f in a' && a'[f] == a[f]
    ensures StillThere(m, a', m', q)
  {
    assert q.chunk in OwnedFrames(m, q.chunk) && DirFrame(m, q.chunk) in OwnedFrames(m, q.chunk);
    assert Tables(m, q.chunk) <= OwnedFrames(m, q.chunk);
    ChunkUnaffected(m, m', q.chunk, frames);
    forall i | 0 <= i < MAX_ALLOCATIONS && q.slots[i].ptr != 0 ensures SlotHeld(a', m', q, q.slots[i]) {
      assert SlotHeld(a, m, q, q.slots[i]);
      assert InSlots(q.slots, MAX_ALLOCATIONS, PageNo(q.slots[i]));
    }
  }

  /** The frames an operation for p may write are none of q's page-table frames. */
  lemma WritesMissBystander(a: Allocs, m: Ram, p: Proc, q: Proc)
    requires ApartProcs(a, m, p, q)
    ensures (FreeFrames(a) + Tables(m, p.chunk)) !! OwnedFrames(m, q.chunk)
  {
    assert Tables(m, p.chunk) <= Holdings(m, p) && OwnedFrames(m, q.chunk) <= Holdings(m, q);
    forall f | f in OwnedFrames(m, q.chunk) ensures f !in FreeFrames(a) {
      LiveFrameIsNotFree(a, f);
    }
  }

  lemma MallocKeepsDisjoint(a: Allocs, m: Ram, p: Proc, size: u32, ptr: u32, a': Allocs, m': Ram, p': Proc)
    requires Disjoint(a) && ChunkOk(m, p.chunk) && MallocStep(a, m, p, size, ptr, a', m', p')
    ensures Disjoint(a')
    ensures forall f :: f in a ==> f in a' && a'[f] == a[f]
  {
    if ptr != 0 {
      var pg, n := ptr / PAGE_SIZE, BlocksFor(size);
      FreshStart(a, pg, n);
      forall x, y, k | Covers(a', x, k) && Covers(a', y, k) ensures x == y {
        assert x != pg ==> Covers(a, x, k);
        assert y != pg ==> Covers(a, y, k);
        assert x == pg || y == pg ==> InSpan(pg, n, k);
      }
    }
  }

  lemma WithoutKeepsDisjoint(a: Allocs, gone: iset<int>)
    requires Disjoint(a)
    ensures Disjoint(Without(a, gone))
  {
    var a' := Without(a, gone);
    forall x, y, k | Covers(a', x, k) && Covers(a', y, k) ensures x == y {
      assert Covers(a, x, k) && Covers(a, y, k);
    }
  }

  /** After a malloc the process holds what it held and, on success, the new run. */
  lemma MallocHoldings(a: Allocs, m: Ram, p: Proc, size: u32, ptr: u32, a': Allocs, m': Ram, p': Proc)
    requires Disjoint(a) && ProcOk(a, m, p) && MallocStep(a, m, p, size, ptr, a', m', p')
    requires OwnedFrames(m', p'.chunk) == OwnedFrames(m, p.chunk)
    ensures ptr == 0 ==> Holdings(m', p') == Holdings(m, p)
    ensures ptr != 0 ==> ptr / PAGE_SIZE !in a && Holdings(m', p') == Holdings(m, p) + iset{ptr / PAGE_SIZE}
  {
    if ptr != 0 {
      var i :| IsFreeSlot(p.slots, i) && p' == p.(slots := p.slots[i := Slot(ptr, size)]);
      FreshStart(a, ptr / PAGE_SIZE, BlocksFor(size));
      FillSlot(p.slots, i, Slot(ptr, size));
    }
  }

  /** After a free it holds one run less. */
  lemma FreeHoldings(a: Allocs, m: Ram, p: Proc, i: int, a': Allocs, m': Ram, p': Proc)
    requires Disjoint(a) && ProcOk(a, m, p) && 0 <= i < MAX_ALLOCATIONS && p.slots[i].ptr != 0
    requires SlotFreed(a, m, p, i, a', m', p') && OwnedFrames(m', p'.chunk) == OwnedFrames(m, p.chunk)
    ensures PageNo(p.slots[i]) in Holdings(m, p)
    ensures Holdings(m', p') == Holdings(m, p) - iset{PageNo(p.slots[i])}
  {
    assert SlotHeld(a, m, p, p.slots[i]);
    forall j | 0 <= j < MAX_ALLOCATIONS && j != i && p.slots[j].ptr != 0
      ensures PageNo(p.slots[j]) != PageNo(p.slots[i])
    {
      assert SlotHeld(a, m, p, p.slots[j]);
    }
    EmptySlot(p.slots, i);
  }

  // ---- bystanders, one operation at a time ----

  lemma MallocBystander(a: Allocs, m: Ram, p: Proc, size: u32, ptr: u32, a': Allocs, m': Ram, p': Proc, q: Proc)
    requires ApartProcs(a, m, p, q)
    requires MallocStep(a, m, p, size, ptr, a', m', p')
    ensures StillThere(m, a', m', q)
    ensures ProcOk(a', m', p') && Holdings(m', p') !! Holdings(m, q)
  {
    MallocKeepsDisjoint(a, m, p, size, ptr, a', m', p');
    MallocKeepsProc(a, m, p, size, ptr, a', m', p');
    HoldingsAreLive(a, m, q);
    WritesMissBystander(a, m, p, q);
    BystanderKept(a, m, a', m', q, FreeFrames(a) + Tables(m, p.chunk));
    MallocHoldings(a, m, p, size, ptr, a', m', p');
  }

  lemma SlotFreedBystander(a: Allocs, m: Ram, p: Proc, i: int, a': Allocs, m': Ram, p': Proc, q: Proc)
    requires ApartProcs(a, m, p, q)
    requires 0 <= i < MAX_ALLOCATIONS && p.slots[i].ptr != 0 && SlotFreed(a, m, p, i, a', m', p')
    ensures StillThere(m, a', m', q)
    ensures ProcOk(a', m', p') && Holdings(m', p') !! Holdings(m, q)
  {
    FreeKeepsProc(a, m, p, i, a', m', p');
    FreeHoldings(a, m, p, i, a', m', p');
    HoldingsAreLive(a, m, q);
    WritesMissBystander(a, m, p, q);
    BystanderKept(a, m, a', m', q, Tables(m, p.chunk));
  }

  lemma FreeBystander(a: Allocs, m: Ram, p: Proc, ptr: u32, a': Allocs, m': Ram, p': Proc, q: Proc)
    requires ApartProcs(a, m, p, q)
    requires FreeStep(a, m, p, ptr, a', m', p')
    ensures StillThere(m, a', m', q)
    ensures ProcOk(a', m', p') && Holdings(m', p') !! Holdings(m, q)
  {
    if ptr != 0 && exists i :: 0 <= i < |p.slots| && p.slots[i].ptr == ptr {
      var i :| 0 <= i < |p.slots| && p.slots[i].ptr == ptr && SlotFreed(a, m, p, i, a', m', p');
      SlotFreedBystander(a, m, p, i, a', m', p', q);
    }
  }

  lemma TerminateBystander(a: Allocs, m: Ram, p: Proc, a': Allocs, m': Ram, q: Proc)
    requires ApartProcs(a, m, p, q)
    requires TerminateStep(a, m, p, a', m')
    ensures StillThere(m, a', m', q)
  {
    HoldingsAreLive(a, m, q);
    WritesMissBystander(a, m, p, q);
    BystanderKept(a, m, a', m', q, Tables(m, p.chunk));
  }

  lemma AlongsideBystander(a: Allocs, m: Ram, a': Allocs, m': Ram, q: Proc)
    requires Disjoint(a) && ProcOk(a, m, q) && Alongside(a, m, a', m')
    ensures StillThere(m, a', m', q)
  {
    HoldingsAreLive(a, m, q);
    forall f | f in OwnedFrames(m, q.chunk) ensures f !in FreeFrames(a) {
      LiveFrameIsNotFree(a, f);
    }
    BystanderKept(a, m, a', m', q, FreeFrames(a));
  }

  lemma LoadBystander(s: Sys, id: int, s': Sys, q: Proc)
    requires Disjoint(s.a) && ProcOk(s.a, s.m, q) && LoadStep(s, id, s')
    ensures StillThere(s.m, s'.a, s'.m, q)
    ensures ProcOk(s'.a, s'.m, s'.procs[id]) && Holdings(s'.m, s'.procs[id]) !! Holdings(s.m, q)
  {
    LoadedIsOk(s.a, s.m, s'.a, s'.m, s'.procs[id]);
    HoldingsAreLive(s.a, s.m, q);
    AlongsideBystander(s.a, s.m, s'.a, s'.m, q);
  }

  // ---- the system as a whole ----

  /** Every process but `id` is still there, in order, with its holdings and translations intact. */
  ghost predicate OthersKept(s: Sys, id: int, s': Sys)
    requires SysOk(s)
  {
    forall j :: j in s.procs && j != id ==> OneKept(s, j, s')
  }

  ghost predicate OneKept(s: Sys, j: int, s': Sys)
    requires SysOk(s) && j in s.procs
  {
    && j in s'.procs && s'.procs[j] == s.procs[j]
    && StillThere(s.m, s'.a, s'.m, s.procs[j])
  }

  lemma OthersMakeSys(s: Sys, id: int, s': Sys)
    requires SysOk(s) && Disjoint(s'.a) && OthersKept(s, id, s')
    requires forall j :: j in s'.procs && j != id ==> j in s.procs
    requires id in s'.procs ==> ProcOk(s'.a, s'.m, s'.procs[id])
    requires forall j :: id in s'.procs && j in s.procs && j != id ==>
               Holdings(s'.m, s'.procs[id]) !! Holdings(s.m, s.procs[j])
    ensures SysOk(s')
  {
    forall i | i in s'.procs ensures ProcOk(s'.a, s'.m, s'.procs[i]) {
      if i != id { assert OneKept(s, i, s'); }
    }
    forall i, j | i in s'.procs && j in s'.procs && i != j
      ensures Holdings(s'.m, s'.procs[i]) !! Holdings(s'.m, s'.procs[j])
    {
      if i != id { assert OneKept(s, i, s'); }
      if j != id { assert OneKept(s, j, s'); }
    }
  }

  lemma MallocKeepsSys(s: Sys, id: int, size: u32, ptr: u32, s': Sys)
    requires SysOk(s) && Step(s, Malloc(id, size, ptr), s')
    ensures SysOk(s') && OthersKept(s, id, s')
  {
    MallocKeepsDisjoint(s.a, s.m, s.procs[id], size, ptr, s'.a, s'.m, s'.procs[id]);
    MallocKeepsProc(s.a, s.m, s.procs[id], size, ptr, s'.a, s'.m, s'.procs[id]);
    forall j | j in s.procs && j != id
      ensures OneKept(s, j, s') && Holdings(s'.m, s'.procs[id]) !! Holdings(s.m, s.procs[j])
    {
      MallocKeepsOne(s, id, size, ptr, s', j);
    }
    OthersMakeSys(s, id, s');
  }

  lemma MallocKeepsOne(s: Sys, id: int, size: u32, ptr: u32, s': Sys, j: int)
    requires SysOk(s) && Step(s, Malloc(id, size, ptr), s') && j in s.procs && j != id
    requires ProcOk(s'.a, s'.m, s'.procs[id])
    ensures OneKept(s, j, s') && Holdings(s'.m, s'.procs[id]) !! Holdings(s.m, s.procs[j])
  {
    ApartInSys(s, id, j);
    MallocBystander(s.a, s.m, s.procs[id], size, ptr, s'.a, s'.m, s'.procs[id], s.procs[j]);
  }

  lemma FreeKeepsDisjoint(a: Allocs, m: Ram, p: Proc, ptr: u32, a': Allocs, m': Ram, p': Proc)
    requires Disjoint(a) && ProcOk(a, m, p) && FreeStep(a, m, p, ptr, a', m', p')
    ensures Disjoint(a') && ProcOk(a', m', p')
  {
    if ptr != 0 && exists i :: 0 <= i < |p.slots| && p.slots[i].ptr == ptr {
      var i :| 0 <= i < |p.slots| && p.slots[i].ptr == ptr && SlotFreed(a, m, p, i, a', m', p');
      FreeKeepsProc(a, m, p, i, a', m', p');
      WithoutKeepsDisjoint(a, iset{PageNo(p.slots[i])});
    }
  }

  lemma FreeKeepsSys(s: Sys, id: int, ptr: u32, s': Sys)
    requires SysOk(s) && Step(s, Free(id, ptr), s')
    ensures SysOk(s') && OthersKept(s, id, s')
  {
    FreeKeepsDisjoint(s.a, s.m, s.procs[id], ptr, s'.a, s'.m, s'.procs[id]);
    forall j | j in s.procs && j != id
      ensures OneKept(s, j, s') && Holdings(s'.m, s'.procs[id]) !! Holdings(s.m, s.procs[j])
    {
      FreeKeepsOne(s, id, ptr, s', j);
    }
    OthersMakeSys(s, id, s');
  }

  lemma FreeKeepsOne(s: Sys, id: int, ptr: u32, s': Sys, j: int)
    requires SysOk(s) && Step(s, Free(id, ptr), s') && j in s.procs && j != id
    ensures ProcOk(s'.a, s'.m, s'.procs[id]) && OneKept(s, j, s')
    ensures Holdings(s'.m, s'.procs[id]) !! Holdings(s.m, s.procs[j])
  {
    var (p, p', q) := (s.procs[id], s'.procs[id], s.procs[j]);
    assert ApartProcs(s.a, s.m, p, q) by {
      ApartInSys(s, id, j);
    }
    FreeBystander(s.a, s.m, p, ptr, s'.a, s'.m, p', q);
  }

  lemma TerminateKeepsSys(s: Sys, id: int, s': Sys)
    requires SysOk(s) && Step(s, Terminate(id), s')
    ensures SysOk(s') && OthersKept(s, id, s')
  {
    WithoutKeepsDisjoint(s.a, Holdings(s.m, s.procs[id]));
    forall j | j in s.procs && j != id ensures OneKept(s, j, s') {
      TerminateKeepsOne(s, id, s', j);
    }
    OthersMakeSys(s, id, s');
  }

  lemma TerminateKeepsOne(s: Sys, id: int, s': Sys, j: int)
    requires SysOk(s) && Step(s, Terminate(id), s') && j in s.procs && j != id
    ensures OneKept(s, j, s')
  {
    ApartInSys(s, id, j);
    OthersRemain(s.procs, id, j);
    TerminateBystander(s.a, s.m, s.procs[id], s'.a, s'.m, s.procs[j]);
  }

  lemma OthersRemain(procs: map<int, Proc>, id: int, j: int)
    requires j in procs && j != id
    ensures j in procs - {id} && (procs - {id})[j] == procs[j]
  {
  }

  /** Two processes of a system. */
  ghost predicate ApartProcs(a: Allocs, m: Ram, p: Proc, q: Proc) {
    Disjoint(a) && ProcOk(a, m, p) && ProcOk(a, m, q) && Holdings(m, p) !! Holdings(m, q)
  }

  lemma ApartInSys(s: Sys, i: int, j: int)
    requires SysOk(s) && i in s.procs && j in s.procs && i != j
    ensures ApartProcs(s.a, s.m, s.procs[i], s.procs[j])
  {
  }

  lemma LoadKeepsSys(s: Sys, id: int, s': Sys)
    requires SysOk(s) && Step(s, Load(id), s')
    ensures SysOk(s') && OthersKept(s, id, s')
  {
    LoadedIsOk(s.a, s.m, s'.a, s'.m, s'.procs[id]);
    forall j | j in s.procs && j != id
      ensures OneKept(s, j, s') && Holdings(s'.m, s'.procs[id]) !! Holdings(s.m, s.procs[j])
    {
      LoadKeepsOne(s, id, s', j);
    }
    OthersMakeSys(s, id, s');
  }

  lemma LoadKeepsOne(s: Sys, id: int, s': Sys, j: int)
    requires SysOk(s) && Step(s, Load(id), s') && j in s.procs && j != id && ProcOk(s'.a, s'.m, s'.procs[id])
    ensures OneKept(s, j, s') && Holdings(s'.m, s'.procs[id]) !! Holdings(s.m, s.procs[j])
  {
    LoadBystander(s, id, s', s.procs[j]);
  }

  lemma FailedLoadKeepsSys(s: Sys, id: int, s': Sys)
    requires SysOk(s) && Step(s, FailedLoad(id), s')
    ensures SysOk(s') && OthersKept(s, id, s')
  {
    forall j | j in s.procs && j != id ensures OneKept(s, j, s') {
      AlongsideBystander(s.a, s.m, s'.a, s'.m, s.procs[j]);
    }
    OthersMakeSys(s, id, s');
  }

  /** Every load of an ELF file that does not follow a null pointer is one of these steps. */
  lemma LoadIsStep(s: Sys, h: Heap.BlockHeap, mem: array<Frame>, id: nat, phdrs: seq<ElfMapping.Phdr>,
                   image: seq<Frame>, start: Loading.Start, res: int, process: Processes.Process?) returns (s': Sys)
    requires SysOk(s) && id !in s.procs && start.Linked() && |start.requests| == 5
    requires start.allocs == s.a && start.ram == s.m
    requires Loading.LoadEnded(h, mem, id, phdrs, image, start, res, process, false)
    ensures HeapOk(h) && s'.a == Live(h) && s'.m == mem[..]
    ensures Step(s, if res == 0 then Load(id) else FailedLoad(id), s')
    ensures process != null ==> s'.procs == s.procs[id := process.Val()]
  {
    s' := Sys(Live(h), mem[..], if process == null then s.procs else s.procs[id := process.Val()]);
  }

  lemma StepKeepsSys(s: Sys, op: Op, s': Sys)
    requires SysOk(s) && Step(s, op, s')
    ensures SysOk(s') && OthersKept(s, op.id, s')
  {
    match op
    case Malloc(id, size, ptr) => MallocKeepsSys(s, id, size, ptr, s');
    case Free(id, ptr) => FreeKeepsSys(s, id, ptr, s');
    case Terminate(id) => TerminateKeepsSys(s, id, s');
    case Load(id) => LoadKeepsSys(s, id, s');
    case FailedLoad(id) => FailedLoadKeepsSys(s, id, s');
  }

  /** A run: each operation is carried out as its method guarantees. */
  ghost predicate Run(states: seq<Sys>, ops: seq<Op>) {
    && |states| == |ops| + 1 && SysOk(states[0])
    && forall i :: 0 <= i < |ops| ==> StepAt(states, ops, i)
  }

  ghost predicate StepAt(states: seq<Sys>, ops: seq<Op>, i: int)
    requires |states| == |ops| + 1 && 0 <= i < |ops|
  {
    SysOk(states[i]) ==> Step(states[i], ops[i], states[i + 1])
  }

  /** Operation i kept the system in order and left every other process alone. */
  ghost predicate KeptAt(states: seq<Sys>, ops: seq<Op>, i: int)
    requires |states| == |ops| + 1 && 0 <= i < |ops|
  {
    SysOk(states[i]) && SysOk(states[i + 1]) && OthersKept(states[i], ops[i].id, states[i + 1])
  }

  lemma {:induction false} RunStaysOk(states: seq<Sys>, ops: seq<Op>, k: nat)
    requires Run(states, ops) && k <= |ops|
    ensures SysOk(states[k])
  {
    if k > 0 {
      RunStaysOk(states, ops, k - 1);
      StaysOkAt(states, ops, k - 1);
    }
  }

  lemma StaysOkAt(states: seq<Sys>, ops: seq<Op>, i: nat)
    requires |states| == |ops| + 1 && i < |ops| && StepAt(states, ops, i) && SysOk(states[i])
    ensures KeptAt(states, ops, i)
  {
    StepKeepsSys(states[i], ops[i], states[i + 1]);
  }

  /** In every run of mallocs, frees, terminations and loads, failing ones included unless they follow a null
      pointer (`Loading.FollowsNull`), by any processes in any order: every
      occupied slot names a distinct live allocation whose pages are exactly those mapped for it,
      to themselves, user-accessible and writable; processes share nothing; and an operation for
      one process leaves every other process's slots, page tables and translations as they were. */
  lemma EveryRunKeepsProcesses(states: seq<Sys>, ops: seq<Op>)
    requires Run(states, ops)
    ensures forall i :: 0 <= i < |ops| ==> KeptAt(states, ops, i)
  {
    forall i | 0 <= i < |ops| ensures KeptAt(states, ops, i) {
      RunStaysOk(states, ops, i);
      StaysOkAt(states, ops, i);
    }
  }

  // ---- conservation ----

  /** The allocations the process does not hold. */
  ghost function Rest(a: Allocs, m: Ram, p: Proc): Allocs
    requires ChunkOk(m, p.chunk) && |p.slots| == MAX_ALLOCATIONS
  {
    Without(a, Holdings(m, p))
  }

  lemma MallocRest(a: Allocs, m: Ram, p: Proc, size: u32, ptr: u32, a': Allocs, m': Ram, p': Proc)
    requires Disjoint(a) && ProcOk(a, m, p) && MallocStep(a, m, p, size, ptr, a', m', p')
    ensures ProcOk(a', m', p') && Rest(a', m', p') == Rest(a, m, p)
  {
    MallocKeepsProc(a, m, p, size, ptr, a', m', p');
    MallocHoldings(a, m, p, size, ptr, a', m', p');
  }

  lemma SlotFreedRest(a: Allocs, m: Ram, p: Proc, i: int, a': Allocs, m': Ram, p': Proc)
    requires Disjoint(a) && ProcOk(a, m, p) && 0 <= i < MAX_ALLOCATIONS && p.slots[i].ptr != 0
    requires SlotFreed(a, m, p, i, a', m', p')
    ensures ProcOk(a', m', p') && Rest(a', m', p') == Rest(a, m, p)
  {
    FreeKeepsProc(a, m, p, i, a', m', p');
    FreeHoldings(a, m, p, i, a', m', p');
    assert Without(Without(a, iset{PageNo(p.slots[i])}), Holdings(m', p')) == Without(a, Holdings(m, p));
  }

  lemma FreeRest(a: Allocs, m: Ram, p: Proc, ptr: u32, a': Allocs, m': Ram, p': Proc)
    requires Disjoint(a) && ProcOk(a, m, p) && FreeStep(a, m, p, ptr, a', m', p')
    ensures ProcOk(a', m', p') && Rest(a', m', p') == Rest(a, m, p)
  {
    if ptr != 0 && exists i :: 0 <= i < |p.slots| && p.slots[i].ptr == ptr {
      var i :| 0 <= i < |p.slots| && p.slots[i].ptr == ptr && SlotFreed(a, m, p, i, a', m', p');
      SlotFreedRest(a, m, p, i, a', m', p');
    }
  }

  lemma OwnStepRest(s: Sys, op: Op, s': Sys)
    requires SysOk(s) && Step(s, op, s') && (op.Malloc? || op.Free?)
    ensures SysOk(s') && op.id in s'.procs
    ensures Rest(s'.a, s'.m, s'.procs[op.id]) == Rest(s.a, s.m, s.procs[op.id])
  {
    StepKeepsSys(s, op, s');
    match op
    case Malloc(id, size, ptr) => MallocRest(s.a, s.m, s.procs[id], size, ptr, s'.a, s'.m, s'.procs[id]);
    case Free(id, ptr) => FreeRest(s.a, s.m, s.procs[id], ptr, s'.a, s'.m, s'.procs[id]);
  }

  /** An account brought up to date with what changed from a to a'. */
  ghost function Updated(x: Allocs, a: Allocs, a': Allocs): Allocs {
    imap f | f in a' && (f in x || f !in a) :: a'[f]
  }

  lemma OtherStepRest(s: Sys, op: Op, s': Sys, id: int)
    requires SysOk(s) && SysOk(s') && op.id != id && id in s.procs && OthersKept(s, op.id, s')
    ensures id in s'.procs && s'.procs[id] == s.procs[id]
    ensures Rest(s'.a, s'.m, s'.procs[id]) == Updated(Rest(s.a, s.m, s.procs[id]), s.a, s'.a)
  {
    assert OneKept(s, id, s');
    HoldingsAreLive(s.a, s.m, s.procs[id]);
  }

  /** The allocations of everybody but process `id` after the first k operations: those it did not hold
      at the beginning, with the changes that others' operations made. */
  ghost function Ledger(start: Allocs, states: seq<Sys>, ops: seq<Op>, id: int, k: nat): Allocs
    requires |states| == |ops| + 1 && k <= |ops|
  {
    if k == 0 then start
    else
      var earlier := Ledger(start, states, ops, id, k - 1);
      if ops[k - 1].id == id then earlier else Updated(earlier, states[k - 1].a, states[k].a)
  }

  /** What the process does not hold, in a state where it is present. */
  ghost function RestAt(s: Sys, id: int): Allocs {
    if SysOk(s) && id in s.procs then Rest(s.a, s.m, s.procs[id]) else imap[]
  }

  ghost predicate BookedAt(rests: seq<Allocs>, states: seq<Sys>, ops: seq<Op>, id: int, i: int)
    requires |states| == |rests| == |ops| + 1 && 0 <= i < |ops|
  {
    rests[i + 1] == if ops[i].id == id then rests[i] else Updated(rests[i], states[i].a, states[i + 1].a)
  }

  lemma {:induction false} BookedIsLedger(rests: seq<Allocs>, states: seq<Sys>, ops: seq<Op>, id: int, k: nat)
    requires |states| == |rests| == |ops| + 1 && k <= |ops|
    requires forall i :: 0 <= i < |ops| ==> BookedAt(rests, states, ops, id, i)
    ensures rests[k] == Ledger(rests[0], states, ops, id, k)
  {
    if k > 0 {
      BookedIsLedger(rests, states, ops, id, k - 1);
      assert BookedAt(rests, states, ops, id, k - 1);
    }
  }

  /** The process itself only allocates and frees; what the others do is not restricted. */
  predicate LivesOn(ops: seq<Op>, id: int) {
    forall i :: 0 <= i < |ops| ==> LivesThrough(ops[i], id)
  }

  predicate LivesThrough(op: Op, id: int) {
    op.id == id ==> op.Malloc? || op.Free?
  }

  lemma PresentNext(s: Sys, op: Op, s': Sys, id: int)
    requires SysOk(s) && Step(s, op, s') && LivesThrough(op, id) && id in s.procs
    ensures id in s'.procs
  {
  }

  lemma RestNext(s: Sys, op: Op, s': Sys, id: int)
    requires SysOk(s) && SysOk(s') && Step(s, op, s') && LivesThrough(op, id) && id in s.procs
    ensures RestAt(s', id) == if op.id == id then RestAt(s, id) else Updated(RestAt(s, id), s.a, s'.a)
  {
    if op.id == id {
      OwnStepRest(s, op, s');
    } else {
      StepKeepsSys(s, op, s');
      OtherStepRest(s, op, s', id);
    }
  }

  ghost predicate PresentAt(states: seq<Sys>, id: int, k: int)
    requires 0 <= k < |states|
  {
    SysOk(states[k]) && id in states[k].procs
  }

  lemma PresentAfter(states: seq<Sys>, ops: seq<Op>, id: int, i: nat)
    requires |states| == |ops| + 1 && i < |ops| && PresentAt(states, id, i)
    requires StepAt(states, ops, i) && LivesThrough(ops[i], id)
    ensures PresentAt(states, id, i + 1)
  {
    StaysOkAt(states, ops, i);
    PresentNext(states[i], ops[i], states[i + 1], id);
  }

  lemma {:induction false} IsPresent(states: seq<Sys>, ops: seq<Op>, id: int, k: nat)
    requires |states| == |ops| + 1 && PresentAt(states, id, 0) && k <= |ops|
    requires forall i :: 0 <= i < |ops| ==> StepAt(states, ops, i)
    requires LivesOn(ops, id)
    ensures PresentAt(states, id, k)
  {
    if k > 0 {
      IsPresent(states, ops, id, k - 1);
      assert StepAt(states, ops, k - 1) && LivesThrough(ops[k - 1], id);
      PresentAfter(states, ops, id, k - 1);
    }
  }

  lemma BookOne(rests: seq<Allocs>, states: seq<Sys>, ops: seq<Op>, id: int, i: nat)
    requires |states| == |rests| == |ops| + 1 && i < |ops| && PresentAt(states, id, i)
    requires StepAt(states, ops, i) && LivesThrough(ops[i], id)
    requires rests[i] == RestAt(states[i], id) && rests[i + 1] == RestAt(states[i + 1], id)
    ensures BookedAt(rests, states, ops, id, i)
  {
    PresentAfter(states, ops, id, i);
    RestNext(states[i], ops[i], states[i + 1], id);
  }

  /** Whatever a process allocated and freed while it lived, and whatever other processes did meanwhile,
      terminating it gives all of it back: what stays allocated is exactly what it did not hold when
      it was loaded, with the changes that the others made. */
  lemma TerminationConserves(states: seq<Sys>, ops: seq<Op>, id: int, s': Sys)
    requires Run(states, ops) && id in states[0].procs && LivesOn(ops, id)
    requires SysOk(states[|ops|]) && Step(states[|ops|], Terminate(id), s')
    ensures s'.a == Ledger(RestAt(states[0], id), states, ops, id, |ops|)
  {
    var rests := RestsOf(states, id);
    forall i | 0 <= i < |ops| ensures BookedAt(rests, states, ops, id, i) {
      BookAt(rests, states, ops, id, i);
    }
    assert IsRest(rests, states, id, 0) && IsRest(rests, states, id, |ops|);
    BookedIsLedger(rests, states, ops, id, |ops|);
    TerminateLeavesRest(states[|ops|], id, s');
  }

  ghost predicate IsRest(rests: seq<Allocs>, states: seq<Sys>, id: int, k: int)
    requires |rests| == |states| && 0 <= k < |states|
  {
    rests[k] == RestAt(states[k], id)
  }

  lemma RestsOf(states: seq<Sys>, id: int) returns (rests: seq<Allocs>)
    ensures |rests| == |states| && forall k :: 0 <= k < |states| ==> IsRest(rests, states, id, k)
  {
    rests := seq(|states|, k requires 0 <= k < |states| => RestAt(states[k], id));
  }

  lemma BookAt(rests: seq<Allocs>, states: seq<Sys>, ops: seq<Op>, id: int, i: nat)
    requires |states| == |rests| == |ops| + 1 && PresentAt(states, id, 0) && LivesOn(ops, id) && i < |ops|
    requires forall j :: 0 <= j < |ops| ==> StepAt(states, ops, j)
    requires forall k :: 0 <= k < |states| ==> IsRest(rests, states, id, k)
    ensures BookedAt(rests, states, ops, id, i)
  {
    IsPresent(states, ops, id, i);
    assert StepAt(states, ops, i) && LivesThrough(ops[i], id);
    assert IsRest(rests, states, id, i) && IsRest(rests, states, id, i + 1);
    BookOne(rests, states, ops, id, i);
  }

  lemma TerminateLeavesRest(s: Sys, id: int, s': Sys)
    requires SysOk(s) && Step(s, Terminate(id), s')
    ensures s'.a == RestAt(s, id)
  {
  }

  /** What a process that has just been loaded does not hold is what was allocated before its load, and its own
      process record, which is therefore all that its life leaves behind. */
  lemma LoadedRest(start: Loading.Start, base: int, a: Allocs, m: Ram, p: Proc, image: seq<Frame>)
    requires start.Linked() && |start.requests| == 5 && Loading.LoadedFrom(start, base, a, m, p, image)
    ensures Rest(a, m, p) == start.allocs[base + start.blocks[0] := start.requests[0]]
  {
    var record := base + start.blocks[0];
    LoadedIsOk(start.allocs, start.ram, a, m, p);
    LoadedPages(start, base, p);
    forall f ensures f in Rest(a, m, p) <==> f in start.allocs || f == record {
    }
  }

  /** The five pages of a load are the record and what the process holds for good. */
  lemma LoadedPages(start: Loading.Start, base: int, p: Proc)
    requires start.Linked() && |start.requests| == 5 && p.filetype.Elf? && Loading.AtPages(start, base, p)
    ensures Loading.PagesOf(start, base, 5) == iset{base + start.blocks[0]} + Fixed(p)
  {
    forall f ensures f in Loading.PagesOf(start, base, 5) <==> f == base + start.blocks[0] || f in Fixed(p) {
      PageIsOneOf(start, base, f);
    }
  }

  lemma PageIsOneOf(start: Loading.Start, base: int, f: int)
    requires |start.blocks| == 5
    ensures f in Loading.PagesOf(start, base, 5) <==> exists k :: 0 <= k < 5 && start.blocks[k] == f - base
    ensures (exists k :: 0 <= k < 5 && start.blocks[k] == f - base) <==>
              f - base == start.blocks[0] || f - base == start.blocks[1] || f - base == start.blocks[2]
              || f - base == start.blocks[3] || f - base == start.blocks[4]
  {
  }

  lemma {:induction false} AloneLedger(start: Allocs, states: seq<Sys>, ops: seq<Op>, id: int, k: nat)
    requires |states| == |ops| + 1 && k <= |ops|
    requires forall i :: 0 <= i < |ops| ==> ops[i].id == id
    ensures Ledger(start, states, ops, id, k) == start
  {
    if k > 0 {
      AloneLedger(start, states, ops, id, k - 1);
    }
  }
}
