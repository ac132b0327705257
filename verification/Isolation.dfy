/** Who can write what: the pages that a process may write translate into its own image, stack and
    allocations, from its load through every run. */
module Isolation {
  import opened Words
  import opened HeapTable
  import opened Paging
  import opened KernelMemory
  import opened PageDirectories
  import opened ProcessSpace
  import opened KernelRuns
  import opened ElfMapping
  import Heap
  import Loading
  import opened Mmu
  import Processes
  import Tasks
  import opened UserText

  // ---- the property ----

  predicate IsWritable(e: u32) {
    Bit(e, 1)
  }

  function FrameOf(e: u32): int {
    e / PAGE_SIZE
  }

  function ImagePage(p: Proc): int {
    if p.filetype.Elf? then p.elfMemory else p.program
  }

  /** Frame f belongs to the allocation that starts at page p. */
  ghost predicate InAllocation(a: Allocs, p: int, f: int) {
    p in a && InSpan(p, a[p], f)
  }

  ghost predicate InSlot(p: Proc, k: int) {
    exists i :: 0 <= i < |p.slots| && SlotCovers(p.slots[i], k)
  }

  predicate SlotCovers(s: Slot, k: int) {
    s.ptr != 0 && InSpan(PageNo(s), BlocksFor(s.size), k)
  }

  /** Page k of the process may point to frame f: one of its image or stack, or the page itself when
      process_malloc handed it out. */
  ghost predicate MayWrite(a: Allocs, p: Proc, k: int, f: int) {
    InAllocation(a, ImagePage(p), f) || InAllocation(a, p.stack, f) || (f == k && InSlot(p, k))
  }

  /** Every writable page of the process points to memory that the process itself holds. */
  ghost predicate Confined(a: Allocs, m: Ram, p: Proc)
    requires ChunkOk(m, p.chunk)
  {
    forall k :: 0 <= k < PAGES ==> PageConfined(a, FlatMap(m, p.chunk), p, k)
  }

  ghost predicate PageConfined(a: Allocs, flat: seq<u32>, p: Proc, k: int)
    requires |flat| == PAGES && 0 <= k < PAGES
  {
    IsWritable(flat[k]) ==> MayWrite(a, p, k, FrameOf(flat[k]))
  }

  // ---- what a load makes of it ----

  /** The last call among the first n that covers a page, or -1. */
  function LastCover(calls: seq<MapCall>, n: nat, k: int): (i: int)
    requires n <= |calls|
    ensures -1 <= i < n && (i >= 0 ==> CoversPage(calls[i], k))
    ensures forall j :: i < j < n ==> !CoversPage(calls[j], k)
  {
    if n == 0 then -1 else if CoversPage(calls[n - 1], k) then n - 1 else LastCover(calls, n - 1, k)
  }

  /** The frame that a covering call gives to page k. */
  function CallFrame(call: MapCall, k: int): int {
    call.phys / PAGE_SIZE + Distance(call.virt / PAGE_SIZE, k)
  }

  /** If a writable segment decides what page k points to, then that is a page of the image, which has n, or of
      the stack. */
  ghost predicate PageStays(elfMemory: int, n: nat, phdrs: seq<Phdr>, stack: int, k: int)
    requires 0 < elfMemory < PAGES && 0 < stack < PAGES && 0 <= k < PAGES
  {
    var calls := LoadCalls(elfMemory * PAGE_SIZE, phdrs, stack * PAGE_SIZE);
    var i := LastCover(calls, |calls|, k);
    0 <= i < |phdrs| && phdrs[i].writable ==>
      InSpan(elfMemory, n, CallFrame(calls[i], k)) || InSpan(stack, 4, CallFrame(calls[i], k))
  }

  ghost predicate SegmentsStay(elfMemory: int, n: nat, phdrs: seq<Phdr>, stack: int)
    requires 0 < elfMemory < PAGES && 0 < stack < PAGES
  {
    forall k :: 0 <= k < PAGES ==> PageStays(elfMemory, n, phdrs, stack, k)
  }

  lemma WritableBit(b: nat, flags: u32)
    requires b < PAGES && (flags == USER_RO || flags == USER_RW || flags == 0)
    ensures IsWritable(b * PAGE_SIZE + flags) <==> flags == USER_RW
    ensures UserMay(b * PAGE_SIZE + flags, false) <==> flags != 0
    ensures FrameOf(b * PAGE_SIZE + flags) == b
  {
    AlignedBits(b * PAGE_SIZE, flags, 1);
    FlagsAlone(b * PAGE_SIZE, flags, false);
    FlagBits(flags);
  }

  lemma FlagBits(flags: u32)
    requires flags == USER_RO || flags == USER_RW || flags == 0
    ensures (Bit(flags, 1) <==> flags == USER_RW) && (UserMay(flags, false) <==> flags != 0)
  {
    LowBits(flags);
  }

  lemma FlagsOf(elfMemory: u32, phdrs: seq<Phdr>, stack: u32, i: nat)
    requires i <= |phdrs|
    ensures var call := LoadCalls(elfMemory, phdrs, stack)[i];
            call.flags == if i == |phdrs| || phdrs[i].writable then USER_RW else USER_RO
  {
    var call := LoadCalls(elfMemory, phdrs, stack)[i];
    if i < |phdrs| {
      assert call == SegmentCall(elfMemory, phdrs[i]);
    } else {
      assert call == StackCall(stack);
    }
  }

  /** The entry of a page in a new address space, by the last call that covers it. */
  lemma EntryAfterLoad(elfMemory: u32, phdrs: seq<Phdr>, stack: u32, k: int)
    requires 0 <= k < PAGES
    ensures var (calls, e) := (LoadCalls(elfMemory, phdrs, stack),
                               FlatAfterAll(IdentityMap(USER_RO), LoadCalls(elfMemory, phdrs, stack))[k]);
            var i := LastCover(calls, |calls|, k);
            && (IsWritable(e) <==> i >= 0 && (i == |phdrs| || phdrs[i].writable)) && UserMay(e, false)
            && (i >= 0 ==> FrameOf(e) == CallFrame(calls[i], k))
  {
    var calls := LoadCalls(elfMemory, phdrs, stack);
    var i := LastCover(calls, |calls|, k);
    LastMappingWins(IdentityMap(USER_RO), calls, |calls|, k, i);
    if i < 0 {
      WritableBit(k, USER_RO);
    } else {
      FlagsOf(elfMemory, phdrs, stack, i);
      CoveredEntryIs(calls[i], k);
    }
  }

  lemma CoveredEntryIs(call: MapCall, k: int)
    requires 0 <= k < PAGES && CoversPage(call, k) && (call.flags == USER_RO || call.flags == USER_RW)
    ensures var e := OrWord(call.phys + Distance(call.virt / PAGE_SIZE, k) * PAGE_SIZE, call.flags);
            && FrameOf(e) == CallFrame(call, k) && UserMay(e, false)
            && (IsWritable(e) <==> call.flags == USER_RW)
  {
    var e := OrWord(call.phys + Distance(call.virt / PAGE_SIZE, k) * PAGE_SIZE, call.flags);
    CoveredEntry(call, k, e);
    assert call.phys == call.phys / PAGE_SIZE * PAGE_SIZE;
    WritableBit(CallFrame(call, k), call.flags);
  }

  /** The pages that the stack's call covers are the stack's. */
  lemma StackStays(stack: int, k: int)
    requires 0 < stack && stack + 4 < PAGES && 0 <= k < PAGES && CoversPage(StackCall(stack * PAGE_SIZE), k)
    ensures InSpan(stack, 4, CallFrame(StackCall(stack * PAGE_SIZE), k))
  {
    StackCallFields(stack * PAGE_SIZE);
  }

  /** A new process is confined exactly when its headers keep every writable segment in the image. */
  lemma NewIsConfined(a: Allocs, m: Ram, p: Proc, phdrs: seq<Phdr>)
    requires ChunkOk(m, p.chunk) && NoneRecorded(p.slots) && p.filetype.Elf?
    requires 0 < p.elfMemory < PAGES && 0 < p.stack && p.stack + 4 < PAGES
    requires p.elfMemory in a && p.stack in a && a[p.stack] == 4
    requires FlatMap(m, p.chunk) == Loading.AddressSpace(p.elfMemory, phdrs, p.stack)
    ensures Confined(a, m, p) <==> SegmentsStay(p.elfMemory, a[p.elfMemory], phdrs, p.stack)
  {
    var flat := FlatMap(m, p.chunk);
    forall k | 0 <= k < PAGES
      ensures PageConfined(a, flat, p, k) <==> PageStays(p.elfMemory, a[p.elfMemory], phdrs, p.stack, k)
    {
      NewPage(a, flat, p, phdrs, k);
    }
  }

  lemma NewPage(a: Allocs, flat: seq<u32>, p: Proc, phdrs: seq<Phdr>, k: int)
    requires NoneRecorded(p.slots) && p.filetype.Elf? && 0 <= k < PAGES
    requires 0 < p.elfMemory < PAGES && 0 < p.stack && p.stack + 4 < PAGES
    requires p.elfMemory in a && p.stack in a && a[p.stack] == 4
    requires flat == Loading.AddressSpace(p.elfMemory, phdrs, p.stack)
    ensures PageConfined(a, flat, p, k) <==> PageStays(p.elfMemory, a[p.elfMemory], phdrs, p.stack, k)
  {
    var calls := LoadCalls(p.elfMemory * PAGE_SIZE, phdrs, p.stack * PAGE_SIZE);
    EntryAfterLoad(p.elfMemory * PAGE_SIZE, phdrs, p.stack * PAGE_SIZE, k);
    assert !InSlot(p, k);
    if LastCover(calls, |calls|, k) == |phdrs| {
      assert calls[|phdrs|] == StackCall(p.stack * PAGE_SIZE);
      StackStays(p.stack, k);
    }
  }

  /** No writable segment reaches beyond the image's n pages. */
  predicate ImageHolds(phdrs: seq<Phdr>, n: nat) {
    forall i :: 0 <= i < |phdrs| ==> HeldInImage(phdrs[i], n)
  }

  predicate HeldInImage(ph: Phdr, n: nat) {
    ph.writable ==> ph.offset + ph.memsz <= n * PAGE_SIZE
  }

  lemma SegmentFrames(elfMemory: int, n: nat, ph: Phdr, k: int)
    requires 0 < elfMemory && elfMemory + n < PAGES && 0 <= k < PAGES
    requires ph.writable && HeldInImage(ph, n) && CoversPage(SegmentCall(elfMemory * PAGE_SIZE, ph), k)
    ensures InSpan(elfMemory, n, CallFrame(SegmentCall(elfMemory * PAGE_SIZE, ph), k))
  {
    SegmentBounds(elfMemory, n, ph);
    FrameWithin(SegmentCall(elfMemory * PAGE_SIZE, ph), elfMemory, elfMemory + n, k);
  }

  lemma SegmentBounds(elfMemory: int, n: nat, ph: Phdr)
    requires 0 < elfMemory && elfMemory + n < PAGES && ph.writable && HeldInImage(ph, n)
    ensures var call := SegmentCall(elfMemory * PAGE_SIZE, ph);
            elfMemory * PAGE_SIZE <= call.phys && call.physEnd <= (elfMemory + n) * PAGE_SIZE
  {
    var phys := elfMemory * PAGE_SIZE + ph.offset;
    NoWrap(phys);
    NoWrap(phys + ph.memsz);
    AlignedWithin(phys, phys + ph.memsz, elfMemory, elfMemory + n);
  }

  lemma NoWrap(x: nat)
    requires x < WORD_LIMIT
    ensures Wrap(x) == x
  {
  }

  lemma AlignedWithin(x: u32, y: u32, low: int, high: int)
    requires low * PAGE_SIZE <= x && y <= high * PAGE_SIZE < WORD_LIMIT
    ensures low * PAGE_SIZE <= AlignToLowerPage(x) && AlignAddress(y) <= high * PAGE_SIZE
  {
  }

  lemma FrameWithin(call: MapCall, low: int, high: int, k: int)
    requires CoversPage(call, k) && 0 <= k < PAGES && low * PAGE_SIZE <= call.phys && call.physEnd <= high * PAGE_SIZE
    ensures low <= CallFrame(call, k) < high
  {
  }

  /** When the image holds every writable segment, the process is confined. */
  lemma HeldSegmentsStay(elfMemory: int, n: nat, phdrs: seq<Phdr>, stack: int)
    requires 0 < elfMemory && elfMemory + n < PAGES && 0 < stack < PAGES && ImageHolds(phdrs, n)
    ensures SegmentsStay(elfMemory, n, phdrs, stack)
  {
    var calls := LoadCalls(elfMemory * PAGE_SIZE, phdrs, stack * PAGE_SIZE);
    forall k | 0 <= k < PAGES ensures PageStays(elfMemory, n, phdrs, stack, k) {
      var i := LastCover(calls, |calls|, k);
      if 0 <= i < |phdrs| && phdrs[i].writable {
        assert HeldInImage(phdrs[i], n);
        SegmentFrames(elfMemory, n, phdrs[i], k);
      }
    }
  }

  /** A writable segment of two pages, of which the file has one: the second lies behind the image. */
  lemma OverhangExample()
    ensures var phdrs := [Phdr(0x40_0000, 0, 0x2000, true)];
            !ImageHolds(phdrs, 1) && !SegmentsStay(0x1000, 1, phdrs, 0x2000)
  {
    var phdrs := [Phdr(0x40_0000, 0, 0x2000, true)];
    var calls := LoadCalls(0x100_0000, phdrs, 0x200_0000);
    assert calls[0] == SegmentCall(0x100_0000, phdrs[0]) == MapCall(0x40_0000, 0x100_0000, 0x100_2000, USER_RW);
    assert calls[1] == StackCall(0x200_0000) == MapCall(STACK_END, 0x200_0000, 0x200_4000, USER_RW);
    assert !CoversPage(calls[1], 0x401) && CoversPage(calls[0], 0x401);
    assert !HeldInImage(phdrs[0], 1);
    assert !PageStays(0x1000, 1, phdrs, 0x2000, 0x401);
  }

  // ---- what each operation keeps ----

  /** The allocations of image and stack are what they were. */
  ghost predicate SameRegions(a: Allocs, a': Allocs, p: Proc) {
    && (ImagePage(p) in a ==> ImagePage(p) in a' && a'[ImagePage(p)] == a[ImagePage(p)])
    && (p.stack in a ==> p.stack in a' && a'[p.stack] == a[p.stack])
  }

  lemma StillConfined(a: Allocs, m: Ram, a': Allocs, m': Ram, p: Proc)
    requires ChunkOk(m, p.chunk) && ChunkOk(m', p.chunk) && FlatMap(m', p.chunk) == FlatMap(m, p.chunk)
    requires Confined(a, m, p) && SameRegions(a, a', p)
    ensures Confined(a', m', p)
  {
    forall k | 0 <= k < PAGES ensures PageConfined(a', FlatMap(m', p.chunk), p, k) {
      assert PageConfined(a, FlatMap(m, p.chunk), p, k);
    }
  }

  lemma MallocKeepsConfined(a: Allocs, m: Ram, p: Proc, size: u32, ptr: u32, a': Allocs, m': Ram, p': Proc)
    requires Disjoint(a) && ProcOk(a, m, p) && MallocStep(a, m, p, size, ptr, a', m', p') && Confined(a, m, p)
    requires ProcOk(a', m', p')
    ensures Confined(a', m', p')
  {
    if ptr == 0 {
      StillConfined(a, m, a', m', p);
    } else {
      var pg, n := ptr / PAGE_SIZE, BlocksFor(size);
      var i :| IsFreeSlot(p.slots, i) && p' == p.(slots := p.slots[i := Slot(ptr, size)]);
      FreshStart(a, pg, n);
      forall k | 0 <= k < PAGES ensures PageConfined(a', FlatMap(m', p.chunk), p', k) {
        assert PageConfined(a, FlatMap(m, p.chunk), p, k);
        MapsElsewhere(FlatMap(m, p.chunk), pg, n, USER_RW, k);
        MallocedPage(a, a', FlatMap(m, p.chunk), FlatMap(m', p.chunk), p, p', i, Slot(ptr, size), k);
      }
    }
  }

  lemma MallocedPage(a: Allocs, a': Allocs, flat: seq<u32>, flat': seq<u32>, p: Proc, p': Proc, i: int, s: Slot, k: int)
    requires |flat| == |flat'| == PAGES && 0 <= k < PAGES && PageConfined(a, flat, p, k)
    requires IsFreeSlot(p.slots, i) && p' == p.(slots := p.slots[i := s]) && s.ptr != 0
    requires PageNo(s) !in a && a' == a[PageNo(s) := BlocksFor(s.size)]
    requires flat'[k] == if InSpan(PageNo(s), BlocksFor(s.size), k) then OrWord(k * PAGE_SIZE, USER_RW) else flat[k]
    ensures PageConfined(a', flat', p', k)
  {
    if InSpan(PageNo(s), BlocksFor(s.size), k) {
      WritableBit(k, USER_RW);
      assert SlotCovers(p'.slots[i], k);
    } else {
      SlotsStay(p.slots, i, s, k);
    }
  }

  /** Changing an empty slot loses no covered page. */
  lemma SlotsStay(slots: seq<Slot>, i: int, s: Slot, k: int)
    requires 0 <= i < |slots| && !SlotCovers(slots[i], k)
    ensures forall j :: 0 <= j < |slots| && SlotCovers(slots[j], k) ==> SlotCovers(slots[i := s][j], k)
  {
  }

  lemma FreeKeepsConfined(a: Allocs, m: Ram, p: Proc, i: int, a': Allocs, m': Ram, p': Proc)
    requires Disjoint(a) && ProcOk(a, m, p) && 0 <= i < MAX_ALLOCATIONS && p.slots[i].ptr != 0 && Confined(a, m, p)
    requires SlotFreed(a, m, p, i, a', m', p') && ProcOk(a', m', p')
    ensures Confined(a', m', p')
  {
    var pg, n := PageNo(p.slots[i]), BlocksFor(p.slots[i].size);
    assert SlotHeld(a, m, p, p.slots[i]);
    forall k | 0 <= k < PAGES ensures PageConfined(a', FlatMap(m', p.chunk), p', k) {
      assert PageConfined(a, FlatMap(m, p.chunk), p, k);
      MapsElsewhere(FlatMap(m, p.chunk), pg, n, 0, k);
      FreedPage(a, a', FlatMap(m, p.chunk), FlatMap(m', p.chunk), p, p', i, k);
    }
  }

  lemma FreedPage(a: Allocs, a': Allocs, flat: seq<u32>, flat': seq<u32>, p: Proc, p': Proc, i: int, k: int)
    requires |flat| == |flat'| == PAGES && 0 <= k < PAGES && PageConfined(a, flat, p, k)
    requires 0 <= i < |p.slots| && p' == p.(slots := p.slots[i := EMPTY])
    requires var pg := PageNo(p.slots[i]); a' == Without(a, iset{pg}) && pg != ImagePage(p) && pg != p.stack
    requires flat'[k] == if InSpan(PageNo(p.slots[i]), BlocksFor(p.slots[i].size), k) then OrWord(k * PAGE_SIZE, 0)
                         else flat[k]
    ensures PageConfined(a', flat', p', k)
  {
    if InSpan(PageNo(p.slots[i]), BlocksFor(p.slots[i].size), k) {
      WritableBit(k, 0);
    } else {
      SlotsStay(p.slots, i, EMPTY, k);
    }
  }

  // ---- the whole system ----

  ghost predicate ConfinedIn(s: Sys, id: int) {
    id in s.procs && ChunkOk(s.m, s.procs[id].chunk) && Confined(s.a, s.m, s.procs[id])
  }

  ghost predicate AllConfined(s: Sys) {
    forall id :: id in s.procs ==> ConfinedIn(s, id)
  }

  /** Another process's operation leaves image and stack allocated. */
  lemma RegionsKept(s: Sys, op: Op, s': Sys, j: int)
    requires SysOk(s) && Step(s, op, s') && j in s.procs && j != op.id
    ensures SameRegions(s.a, s'.a, s.procs[j])
  {
    var q := s.procs[j];
    assert ProcOk(s.a, s.m, q);
    assert ImagePage(q) in Fixed(q) && q.stack in Fixed(q);
    match op
    case Malloc(id, size, ptr) => MallocKeepsDisjoint(s.a, s.m, s.procs[id], size, ptr, s'.a, s'.m, s'.procs[id]);
    case Free(id, ptr) => FreeKeepsRegions(s.a, s.m, s.procs[id], ptr, s'.a, s'.m, s'.procs[id], q);
    case Terminate(id) => assert Holdings(s.m, s.procs[id]) !! Holdings(s.m, q);
    case Load(_) =>
    case FailedLoad(_) =>
  }

  lemma FreeKeepsRegions(a: Allocs, m: Ram, p: Proc, ptr: u32, a': Allocs, m': Ram, p': Proc, q: Proc)
    requires ProcOk(a, m, p) && ProcOk(a, m, q) && Holdings(m, p) !! Holdings(m, q)
    requires FreeStep(a, m, p, ptr, a', m', p')
    ensures SameRegions(a, a', q)
  {
    assert ImagePage(q) in Fixed(q) && q.stack in Fixed(q);
    if ptr != 0 && exists i :: 0 <= i < |p.slots| && p.slots[i].ptr == ptr {
      var i :| 0 <= i < |p.slots| && p.slots[i].ptr == ptr && SlotFreed(a, m, p, i, a', m', p');
      assert InSlots(p.slots, MAX_ALLOCATIONS, PageNo(p.slots[i]));
    }
  }

  lemma OwnStepConfined(s: Sys, op: Op, s': Sys)
    requires SysOk(s) && SysOk(s') && Step(s, op, s') && (op.Malloc? || op.Free?) && ConfinedIn(s, op.id)
    ensures ConfinedIn(s', op.id)
  {
    var p, p' := s.procs[op.id], s'.procs[op.id];
    match op
    case Malloc(_, size, ptr) => MallocKeepsConfined(s.a, s.m, p, size, ptr, s'.a, s'.m, p');
    case Free(_, ptr) => FreeStepConfined(s.a, s.m, p, ptr, s'.a, s'.m, p');
  }

  lemma FreeStepConfined(a: Allocs, m: Ram, p: Proc, ptr: u32, a': Allocs, m': Ram, p': Proc)
    requires Disjoint(a) && ProcOk(a, m, p) && FreeStep(a, m, p, ptr, a', m', p') && Confined(a, m, p)
    requires ProcOk(a', m', p')
    ensures Confined(a', m', p')
  {
    if ptr != 0 && exists i :: 0 <= i < |p.slots| && p.slots[i].ptr == ptr {
      var i :| 0 <= i < |p.slots| && p.slots[i].ptr == ptr && SlotFreed(a, m, p, i, a', m', p');
      FreeKeepsConfined(a, m, p, i, a', m', p');
    }
  }

  lemma OtherStepConfined(s: Sys, op: Op, s': Sys, j: int)
    requires SysOk(s) && Step(s, op, s') && OthersKept(s, op.id, s') && j != op.id && ConfinedIn(s, j)
    ensures ConfinedIn(s', j)
  {
    assert OneKept(s, j, s');
    RegionsKept(s, op, s', j);
    StillConfined(s.a, s.m, s'.a, s'.m, s.procs[j]);
  }

  lemma StepKeepsConfined(s: Sys, op: Op, s': Sys)
    requires SysOk(s) && Step(s, op, s') && AllConfined(s) && (op.Load? ==> ConfinedIn(s', op.id))
    ensures SysOk(s') && AllConfined(s')
  {
    StepKeepsSys(s, op, s');
    forall j | j in s'.procs ensures ConfinedIn(s', j) {
      if j != op.id {
        assert ConfinedIn(s, j);
        OtherStepConfined(s, op, s', j);
      } else if !op.Load? {
        assert ConfinedIn(s, j);
        OwnStepConfined(s, op, s');
      }
    }
  }

  /** If operation i is a load, its process starts confined. */
  ghost predicate LoadsConfinedAt(states: seq<Sys>, ops: seq<Op>, i: int)
    requires |states| == |ops| + 1 && 0 <= i < |ops|
  {
    ops[i].Load? ==> ConfinedIn(states[i + 1], ops[i].id)
  }

  /** The system is in order and every process confined after k operations. */
  ghost predicate ConfinedAt(states: seq<Sys>, k: int)
    requires 0 <= k < |states|
  {
    SysOk(states[k]) && AllConfined(states[k])
  }

  lemma StaysConfinedAt(states: seq<Sys>, ops: seq<Op>, i: nat)
    requires |states| == |ops| + 1 && i < |ops| && ConfinedAt(states, i)
    requires StepAt(states, ops, i) && LoadsConfinedAt(states, ops, i)
    ensures ConfinedAt(states, i + 1)
  {
    StepKeepsConfined(states[i], ops[i], states[i + 1]);
  }

  /** Processes that are confined when they are loaded stay confined, whatever they and others do. */
  lemma {:induction false} EveryRunStaysConfined(states: seq<Sys>, ops: seq<Op>, k: nat)
    requires Run(states, ops) && AllConfined(states[0]) && k <= |ops|
    requires forall i :: 0 <= i < |ops| ==> LoadsConfinedAt(states, ops, i)
    ensures ConfinedAt(states, k)
  {
    if k > 0 {
      EveryRunStaysConfined(states, ops, k - 1);
      assert StepAt(states, ops, k - 1) && LoadsConfinedAt(states, ops, k - 1);
      StaysConfinedAt(states, ops, k - 1);
    }
  }

  /** The allocation of the process that a writable page points to. */
  lemma WritableHolding(a: Allocs, m: Ram, p: Proc, k: int) returns (x: int)
    requires Disjoint(a) && ProcOk(a, m, p) && Confined(a, m, p)
    requires 0 <= k < PAGES && IsWritable(FlatMap(m, p.chunk)[k])
    ensures x in Holdings(m, p) && x !in OwnedFrames(m, p.chunk) && Covers(a, x, FrameOf(FlatMap(m, p.chunk)[k]))
  {
    var f := FrameOf(FlatMap(m, p.chunk)[k]);
    assert PageConfined(a, FlatMap(m, p.chunk), p, k);
    assert ImagePage(p) in Fixed(p) && p.stack in Fixed(p);
    if InAllocation(a, ImagePage(p), f) {
      x := ImagePage(p);
    } else if InAllocation(a, p.stack, f) {
      x := p.stack;
    } else {
      var i :| 0 <= i < |p.slots| && SlotCovers(p.slots[i], k);
      assert SlotHeld(a, m, p, p.slots[i]);
      x := PageNo(p.slots[i]);
      assert InSlots(p.slots, MAX_ALLOCATIONS, x);
    }
  }

  lemma WritablePageStaysHome(s: Sys, id: int, k: int)
    requires SysOk(s) && AllConfined(s) && id in s.procs && 0 <= k < PAGES
    requires IsWritable(FlatMap(s.m, s.procs[id].chunk)[k])
    ensures var f := FrameOf(FlatMap(s.m, s.procs[id].chunk)[k]);
            && f !in FreeFrames(s.a) && f !in OwnedFrames(s.m, s.procs[id].chunk)
            && forall j, y :: j in s.procs && j != id && y in Holdings(s.m, s.procs[j]) ==> !Covers(s.a, y, f)
  {
    assert ConfinedIn(s, id);
    var p := s.procs[id];
    var f := FrameOf(FlatMap(s.m, p.chunk)[k]);
    var x := WritableHolding(s.a, s.m, p, k);
    if f in OwnedFrames(s.m, p.chunk) {
      assert Covers(s.a, f, f);
    }
    forall j, y | j in s.procs && j != id && y in Holdings(s.m, s.procs[j]) ensures !Covers(s.a, y, f) {
      assert Holdings(s.m, p) !! Holdings(s.m, s.procs[j]);
    }
  }

  /** The page and the frame of a user's write that goes through. */
  lemma WriteThroughPage(m: Ram, c: int, v: u32)
    requires ChunkOk(m, c) && UserWalk(m, DirFrame(m, c), v, true).At?
    ensures var e := FlatMap(m, c)[v / PAGE_SIZE];
            IsWritable(e) && UserWalk(m, DirFrame(m, c), v, true).phys / PAGE_SIZE == FrameOf(e)
  {
    WalkWithinFlat(m, DirFrame(m, c), v, true);
    var e := FlatMap(m, c)[v / PAGE_SIZE];
    BaseIsFrame(e);
  }

  /** Whatever address a process writes to, the write reaches neither what another process holds, nor a page table or
      directory, its own included, nor memory that nobody holds. */
  lemma WritesStayHome(s: Sys, id: int, v: u32)
    requires SysOk(s) && AllConfined(s) && id in s.procs
    requires UserWalk(s.m, DirFrame(s.m, s.procs[id].chunk), v, true).At?
    ensures var f := UserWalk(s.m, DirFrame(s.m, s.procs[id].chunk), v, true).phys / PAGE_SIZE;
            && f !in FreeFrames(s.a) && f !in OwnedFrames(s.m, s.procs[id].chunk)
            && forall j, y :: j in s.procs && j != id && y in Holdings(s.m, s.procs[j]) ==> !Covers(s.a, y, f)
  {
    WriteThroughPage(s.m, s.procs[id].chunk, v);
    WritablePageStaysHome(s, id, v / PAGE_SIZE);
  }

  // ---- what it can reach ----

  /** The allocation that a page of a slot lies in. */
  lemma SlotPage(a: Allocs, m: Ram, p: Proc, k: int) returns (q: int)
    requires ProcOk(a, m, p) && 0 <= k < PAGES && InSlot(p, k)
    ensures Covers(a, q, k) && q !in OwnedFrames(m, p.chunk) && FlatMap(m, p.chunk)[k] == k * PAGE_SIZE + USER_RW
  {
    var i :| 0 <= i < |p.slots| && SlotCovers(p.slots[i], k);
    q := PageNo(p.slots[i]);
    assert SlotHeld(a, m, p, p.slots[i]);
  }

  /** A user program reads and writes the pages that process_malloc gave it, at their own addresses. */
  lemma AllocationIsUsable(a: Allocs, m: Ram, p: Proc, v: u32, write: bool)
    requires ProcOk(a, m, p) && InSlot(p, v / PAGE_SIZE)
    ensures UserWalk(m, DirFrame(m, p.chunk), v, write) == At(v)
  {
    var q := SlotPage(a, m, p, v / PAGE_SIZE);
    SelfMapped(FlatMap(m, p.chunk), v, USER_RW, write);
    KernelFlags(write);
    WalkIsFlat(m, DirFrame(m, p.chunk), v, write);
  }

  lemma FreedEntry(a: Allocs, m: Ram, p: Proc, i: int, a': Allocs, m': Ram, p': Proc, k: int)
    requires Disjoint(a) && ProcOk(a, m, p) && 0 <= i < MAX_ALLOCATIONS && SlotCovers(p.slots[i], k)
    requires 0 <= k < PAGES && SlotFreed(a, m, p, i, a', m', p')
    ensures ChunkOk(m', p.chunk) && OpenChunk(m', p.chunk) && FlatMap(m', p.chunk)[k] == k * PAGE_SIZE
  {
    FreeKeepsProc(a, m, p, i, a', m', p');
  }

  /** And no longer any page that process_free took back, which is not present either. */
  lemma FreedIsGone(a: Allocs, m: Ram, p: Proc, i: int, a': Allocs, m': Ram, p': Proc, v: u32, write: bool)
    requires Disjoint(a) && ProcOk(a, m, p) && 0 <= i < MAX_ALLOCATIONS && SlotCovers(p.slots[i], v / PAGE_SIZE)
    requires SlotFreed(a, m, p, i, a', m', p')
    ensures ChunkOk(m', p.chunk) && UserWalk(m', DirFrame(m', p.chunk), v, write) == Fault
    ensures !IsPresentAt(FlatMap(m', p.chunk), v)
  {
    FreedEntry(a, m, p, i, a', m', p', v / PAGE_SIZE);
    BareEntryFaults(m', p.chunk, v, write);
  }

  lemma BareEntryFaults(m: Ram, c: int, v: u32, write: bool)
    requires ChunkOk(m, c) && OpenChunk(m, c) && FlatMap(m, c)[v / PAGE_SIZE] == v / PAGE_SIZE * PAGE_SIZE
    ensures UserWalk(m, DirFrame(m, c), v, write) == Fault && !IsPresentAt(FlatMap(m, c), v)
  {
    SelfMapped(FlatMap(m, c), v, 0, write);
    KernelFlags(write);
    AlignedBits(v / PAGE_SIZE * PAGE_SIZE, 0, 0);
    WalkIsFlat(m, DirFrame(m, c), v, write);
  }

  /** Every page of a new address space is present and readable. */
  lemma NewPagesArePresent(elfMemory: int, phdrs: seq<Phdr>, stack: int, v: u32)
    requires 0 < elfMemory < PAGES && 0 < stack < PAGES
    ensures var flat := Loading.AddressSpace(elfMemory, phdrs, stack);
            IsPresentAt(flat, v) && FlatAccess(flat, v, false) == At(Translate(flat, v))
  {
    EntryAfterLoad(elfMemory * PAGE_SIZE, phdrs, stack * PAGE_SIZE, v / PAGE_SIZE);
  }

  /** So a loaded program reads at every address what its address space says. */
  lemma LoadedReads(h: Heap.BlockHeap, mem: array<Frame>, id: nat, phdrs: seq<Phdr>, image: seq<Frame>,
                    start: Loading.Start, process: Processes.Process, v: u32)
    requires start.Linked() && |start.requests| == 5
    requires Loading.IsLoaded(h, mem, id, phdrs, image, start, process)
    ensures UserWalk(mem[..], DirFrame(mem[..], process.chunk), v, false)
         == At(Translate(Loading.AddressSpace(process.elfMemory, phdrs, process.stack), v))
  {
    WalkIsFlat(mem[..], DirFrame(mem[..], process.chunk), v, false);
    NewPagesArePresent(process.elfMemory, phdrs, process.stack, v);
  }

  /** What a program pushes from its first stack pointer on lands in its stack pages, top down, for all their
      bytes. */
  lemma StackIsUsable(m: Ram, p: Proc, phdrs: seq<Phdr>, entry: u32, k: nat, write: bool)
    requires ChunkOk(m, p.chunk) && OpenChunk(m, p.chunk)
    requires 0 < p.elfMemory < PAGES && 0 < p.stack && p.stack + 4 < PAGES && 0 < k <= STACK_SIZE
    requires FlatMap(m, p.chunk) == Loading.AddressSpace(p.elfMemory, phdrs, p.stack)
    ensures UserWalk(m, DirFrame(m, p.chunk), Tasks.InitialRegisters(entry).esp - k, write)
         == At((p.stack + 4) * PAGE_SIZE - k)
  {
    var v := Tasks.InitialRegisters(entry).esp - k;
    var e := FlatMap(m, p.chunk)[v / PAGE_SIZE];
    StackTranslates(IdentityMap(USER_RO), p.elfMemory * PAGE_SIZE, phdrs, p.stack * PAGE_SIZE, v);
    FlagsAlone(PageBase(e), USER_RW, write);
    KernelFlags(write);
    WalkIsFlat(m, DirFrame(m, p.chunk), v, write);
  }

  /** A frame of a live allocation that is no page table is neither free nor a page table. */
  lemma HeldIsApart(a: Allocs, m: Ram, c: int, q: int, f: int)
    requires Disjoint(a) && DirOwned(a, m, c) && Covers(a, q, f) && q !in OwnedFrames(m, c)
    ensures f !in FreeFrames(a) && f !in Tables(m, c)
  {
    if f in Tables(m, c) {
      assert f in OwnedFrames(m, c);
      assert Covers(a, f, f);
    }
  }

  /** The byte at v lies in one of the process's allocations, or away from page pg in its image or stack. */
  ghost predicate OwnByte(a: Allocs, p: Proc, flat: seq<u32>, v: u32, pg: int)
    requires |flat| == PAGES
  {
    var f := Translate(flat, v) / PAGE_SIZE;
    || InSlot(p, v / PAGE_SIZE)
    || (v / PAGE_SIZE != pg && (InAllocation(a, ImagePage(p), f) || InAllocation(a, p.stack, f)))
  }

  ghost predicate NthOwn(a: Allocs, p: Proc, flat: seq<u32>, v: u32, j: nat, pg: int)
    requires |flat| == PAGES
  {
    OwnByte(a, p, flat, Wrap(v + j), pg)
  }

  ghost predicate OwnText(a: Allocs, p: Proc, flat: seq<u32>, v: u32, n: nat, pg: int)
    requires |flat| == PAGES
  {
    forall j :: 0 <= j < n ==> NthOwn(a, p, flat, v, j, pg)
  }

  /** The allocation that a frame of image or stack lies in. */
  lemma RegionPage(a: Allocs, m: Ram, p: Proc, f: int) returns (q: int)
    requires ProcOk(a, m, p) && (InAllocation(a, ImagePage(p), f) || InAllocation(a, p.stack, f))
    ensures Covers(a, q, f) && q !in OwnedFrames(m, p.chunk)
  {
    assert ImagePage(p) in Fixed(p) && p.stack in Fixed(p);
    q := if InAllocation(a, ImagePage(p), f) then ImagePage(p) else p.stack;
  }

  lemma SelfTranslated(flat: seq<u32>, v: u32)
    requires |flat| == PAGES && flat[v / PAGE_SIZE] == v / PAGE_SIZE * PAGE_SIZE + USER_RW
    ensures Translate(flat, v) == v
  {
    AddedLow(v / PAGE_SIZE * PAGE_SIZE, USER_RW);
  }

  lemma OwnByteIsApart(a: Allocs, m: Ram, p: Proc, v: u32, pg: int)
    requires Disjoint(a) && ProcOk(a, m, p) && pg in FreeFrames(a) && OwnByte(a, p, FlatMap(m, p.chunk), v, pg)
    ensures v / PAGE_SIZE != pg && Translate(FlatMap(m, p.chunk), v) / PAGE_SIZE !in iset{pg} + Tables(m, p.chunk)
  {
    var k, f := v / PAGE_SIZE, Translate(FlatMap(m, p.chunk), v) / PAGE_SIZE;
    var q;
    if InSlot(p, k) {
      q := SlotPage(a, m, p, k);
      SelfTranslated(FlatMap(m, p.chunk), v);
    } else {
      q := RegionPage(a, m, p, f);
    }
    HeldIsApart(a, m, p.chunk, q, f);
  }

  /** So a string of the process's own reaches the kernel whole: it stays clear of whatever free page is borrowed
      to copy it, and of the page tables. */
  lemma OwnTextAvoids(a: Allocs, m: Ram, p: Proc, v: u32, n: nat, pg: int)
    requires Disjoint(a) && ProcOk(a, m, p) && pg in FreeFrames(a)
    requires OwnText(a, p, FlatMap(m, p.chunk), v, n, pg)
    ensures Avoids(m, FlatMap(m, p.chunk), v, n, pg, iset{pg} + Tables(m, p.chunk))
  {
    var flat := FlatMap(m, p.chunk);
    forall j | 0 <= j < n ensures !Touches(flat, v, j, pg, iset{pg} + Tables(m, p.chunk)) {
      assert NthOwn(a, p, flat, v, j, pg);
      OwnByteIsApart(a, m, p, Wrap(v + j), pg);
    }
  }

  /** So a process that `LoadForSlot` loads is confined exactly when its headers keep every writable segment in
      the image. */
  lemma LoadedIsConfined(h: Heap.BlockHeap, mem: array<Frame>, id: nat, phdrs: seq<Phdr>, image: seq<Frame>,
                         start: Loading.Start, process: Processes.Process)
    requires start.Linked() && |start.requests| == 5
    requires Loading.IsLoaded(h, mem, id, phdrs, image, start, process)
    ensures Confined(Live(h), mem[..], process.Val())
            <==> SegmentsStay(process.elfMemory, |image|, phdrs, process.stack)
  {
    NewIsConfined(Live(h), mem[..], process.Val(), phdrs);
  }
}
