/** process.c: a process object whose slots are updated in place, together with the heap and the
    page tables. */
module Processes {
  import opened Words
  import opened HeapTable
  import opened Heap
  import opened Paging
  import opened KernelMemory
  import opened PageDirectories
  import opened ProcessSpace

  ghost predicate NoFreeSlot(slots: seq<Slot>) {
    forall i :: 0 <= i < |slots| ==> slots[i].ptr != 0
  }

  lemma AlignedEnd(pg: int, size: u32)
    requires 0 <= pg && BlocksFor(size) >= 1 && pg + BlocksFor(size) < PAGES
    ensures pg * PAGE_SIZE + size < WORD_LIMIT
    ensures AlignAddress(pg * PAGE_SIZE + size) == (pg + BlocksFor(size)) * PAGE_SIZE
  {
    BlocksForIsCeiling(size);
  }

  class Process {
    const id: nat
    const allocations: array<Slot>
    const filetype: FileType
    const program: int
    const elfMemory: int
    const stack: int
    const task: int
    const chunk: int

    constructor (id: nat, filetype: FileType, program: int, elfMemory: int, stack: int, task: int, chunk: int)
      ensures Val() == Proc(seq(MAX_ALLOCATIONS, _ => EMPTY), filetype, program, elfMemory, stack, task, chunk)
      ensures this.id == id && fresh(allocations)
    {
      this.id := id;
      this.filetype, this.program, this.elfMemory := filetype, program, elfMemory;
      this.stack, this.task, this.chunk := stack, task, chunk;
      allocations := new Slot[MAX_ALLOCATIONS](_ => EMPTY);
      new;
      assert allocations[..] == seq(MAX_ALLOCATIONS, _ => EMPTY);
    }

    /** The slots and the heap's table are different memory. */
    ghost predicate ApartFrom(h: BlockHeap) {
      h.entries as object != allocations
    }

    ghost function Val(): Proc
      reads allocations
    {
      Proc(allocations[..], filetype, program, elfMemory, stack, task, chunk)
    }

    method FindFreeAllocationIndex() returns (res: int)
      ensures res >= 0 ==>
                && res < allocations.Length && allocations[res].ptr == 0
                && forall j :: 0 <= j < res ==> allocations[j].ptr != 0
      ensures res < 0 ==> res == -ENOMEM && forall j :: 0 <= j < allocations.Length ==> allocations[j].ptr != 0
    {
      for i := 0 to allocations.Length
        invariant forall j :: 0 <= j < i ==> allocations[j].ptr != 0
      {
        if allocations[i].ptr == 0 {
          return i;
        }
      }
      return -ENOMEM;
    }

    method GetAllocationByAddr(addr: u32) returns (index: int)
      ensures index >= 0 ==> index < allocations.Length && allocations[index].ptr == addr
      ensures index < 0 ==> forall i :: 0 <= i < allocations.Length ==> allocations[i].ptr != addr
    {
      for i := 0 to allocations.Length
        invariant forall j :: 0 <= j < i ==> allocations[j].ptr != addr
      {
        if allocations[i].ptr == addr {
          return i;
        }
      }
      return -1;
    }

    method AllocationUnjoin(ptr: u32)
      modifies allocations
      ensures forall i :: 0 <= i < allocations.Length ==>
                allocations[i] == if old(allocations[i]).ptr == ptr then EMPTY else old(allocations[i])
    {
      for i := 0 to allocations.Length
        invariant forall j :: 0 <= j < i ==>
                    allocations[j] == if old(allocations[j]).ptr == ptr then EMPTY else old(allocations[j])
        invariant forall j :: i <= j < allocations.Length ==> allocations[j] == old(allocations[j])
      {
        if allocations[i].ptr == ptr {
          allocations[i] := EMPTY;
        }
      }
    }

    /** The middle of process_malloc: find a slot, map the pages, record the allocation. */
    method MapAndRecord(mem: array<Frame>, ptr: u32, ghost pg: int, size: u32) returns (ok: bool)
      requires ChunkOk(mem[..], chunk) && ptr == pg * PAGE_SIZE && 0 < pg
      requires 1 <= BlocksFor(size) && pg + BlocksFor(size) < PAGES
      modifies mem, allocations
      ensures ok <==> !NoFreeSlot(old(allocations[..]))
      ensures !ok ==> mem[..] == old(mem[..]) && allocations[..] == old(allocations[..])
      ensures ok ==>
                && (exists i :: IsFreeSlot(old(allocations[..]), i)
                                && allocations[..] == old(allocations[..])[i := Slot(ptr, size)])
                && Remapped(old(mem[..]), mem[..], chunk,
                            MapPages(old(FlatMap(mem[..], chunk)), pg, pg, BlocksFor(size), USER_RW))
    {
      ghost var slots := allocations[..];
      var index := FindFreeAllocationIndex();
      if index < 0 {
        return false;
      }
      AlignedEnd(pg, size);
      var res := MapTo(mem, chunk, ptr, ptr, AlignAddress(Wrap(ptr + size)), USER_RW);
      if res < 0 {
        return false;
      }
      allocations[index] := Slot(ptr, size);
      assert IsFreeSlot(slots, index) && allocations[..] == slots[index := Slot(ptr, size)];
      return true;
    }

    /** The first step of process_malloc: kzalloc, which leaves the page directory alone. */
    method Reserve(h: BlockHeap, mem: array<Frame>, size: u32) returns (ptr: u32, ghost pg: int)
      requires HeapOk(h) && DirOwned(Live(h), mem[..], chunk) && SafeRequest(h.Table(), BlocksFor(size))
      modifies h.entries, mem
      ensures HeapOk(h) && Disjoint(old(Live(h)))
      ensures ptr == 0 <==> !HasFit(old(h.Table()), BlocksFor(size))
      ensures ptr == 0 ==> h.Table() == old(h.Table()) && mem[..] == old(mem[..])
      ensures ptr != 0 ==>
                && ptr == pg * PAGE_SIZE
                && Granted(old(Live(h)), old(mem[..]), Live(h), mem[..], pg, BlocksFor(size))
                && SameChunk(old(mem[..]), mem[..], chunk, old(FlatMap(mem[..], chunk)))
                && AgreeOutside(old(mem[..]), mem[..], FreeFrames(old(Live(h))))
    {
      ghost var a, m := Live(h), mem[..];
      LiveIsDisjoint(h);
      ptr, pg := SafeKzalloc(h, mem, size);
      if ptr != 0 {
        GrantKeepsChunk(a, m, Live(h), mem[..], pg, BlocksFor(size), chunk);
      }
    }

    /** The error exit of process_malloc: the run goes back and the heap is as it was. */
    method GiveBack(h: BlockHeap, ptr: u32, ghost pg: int, ghost n: nat, ghost t: Table, ghost a: Allocs, ghost m: Ram,
                    ghost m1: Ram)
      requires HeapOk(h) && ptr == pg * PAGE_SIZE && Disjoint(a) && Granted(a, m, Live(h), m1, pg, n)
      requires WellFormed(t) && |t| == h.entries.Length && a == ByPage(h.base, LiveRuns(t))
      modifies h.entries
      ensures h.Table() == t
    {
      GrantUndone(a, m, Live(h), m1, pg, n);
      Kfree(h, ptr, pg);
      LiveDeterminesTable(h.base, h.Table(), t);
    }

    /** process_malloc: every exit after a successful kzalloc that records nothing frees the run. */
    method Malloc(h: BlockHeap, mem: array<Frame>, size: u32) returns (ptr: u32)
      requires HeapOk(h) && ApartFrom(h) && ProcOk(Live(h), mem[..], Val()) && SafeRequest(h.Table(), BlocksFor(size))
      modifies h.entries, mem, allocations
      ensures HeapOk(h)
      ensures MallocStep(old(Live(h)), old(mem[..]), old(Val()), size, ptr, Live(h), mem[..], Val())
      ensures ptr == 0 ==> h.Table() == old(h.Table())
      ensures ptr == 0 <==> !HasFit(old(h.Table()), BlocksFor(size)) || NoFreeSlot(old(allocations[..]))
    {
      ghost var a, m, p, t := Live(h), mem[..], Val(), h.Table();
      ghost var pg;
      ptr, pg := Reserve(h, mem, size);
      if ptr == 0 {
        return 0;
      }
      ghost var a1, m1 := Live(h), mem[..];
      var ok := MapAndRecord(mem, ptr, pg, size);
      if !ok {
        GiveBack(h, ptr, pg, BlocksFor(size), t, a, m, m1);
        return 0;
      }
      MallocComposes(a, m, p, size, ptr, pg, a1, m1, mem[..], Val());
    }

    /** The middle of process_free: unmap the pages of slot `index` and empty it. */
    method UnmapAndUnjoin(mem: array<Frame>, ptr: u32, index: nat, ghost pg: int)
      requires ChunkOk(mem[..], chunk) && index < allocations.Length && allocations[index].ptr == ptr
      requires ptr != 0 && ptr == pg * PAGE_SIZE
      requires 1 <= BlocksFor(allocations[index].size) && pg + BlocksFor(allocations[index].size) < PAGES
      requires forall i :: 0 <= i < allocations.Length && i != index ==> allocations[i].ptr != ptr
      modifies mem, allocations
      ensures allocations[..] == old(allocations[..])[index := EMPTY]
      ensures Remapped(old(mem[..]), mem[..], chunk,
                       MapPages(old(FlatMap(mem[..], chunk)), pg, pg, BlocksFor(old(allocations[index]).size), 0))
    {
      ghost var slots := allocations[..];
      var slot := allocations[index];
      AlignedEnd(pg, slot.size);
      var res := MapTo(mem, chunk, slot.ptr, slot.ptr, AlignAddress(Wrap(slot.ptr + slot.size)), 0);
      if res < 0 {
        return;
      }
      AllocationUnjoin(ptr);
      assert allocations[..] == slots[index := EMPTY];
    }

    /** The same for the null pointer: an empty slot is found, no page is mapped, and clearing the
        empty slots changes nothing. */
    method UnjoinNull(mem: array<Frame>, index: nat)
      requires ChunkOk(mem[..], chunk) && index < allocations.Length && allocations[index].ptr == 0
      requires forall i :: 0 <= i < allocations.Length && allocations[i].ptr == 0 ==> allocations[i] == EMPTY
      modifies mem, allocations
      ensures mem[..] == old(mem[..]) && allocations[..] == old(allocations[..])
    {
      var slot := allocations[index];
      var res := MapTo(mem, chunk, slot.ptr, slot.ptr, AlignAddress(Wrap(slot.ptr + slot.size)), 0);
      if res < 0 {
        return;
      }
      AllocationUnjoin(0);
      assert allocations[..] == old(allocations[..]);
    }

    method FreeSlot(h: BlockHeap, mem: array<Frame>, ptr: u32, index: nat)
      requires HeapOk(h) && ApartFrom(h) && ProcOk(Live(h), mem[..], Val()) && ptr != 0
      requires index < allocations.Length && allocations[index].ptr == ptr
      modifies h.entries, mem, allocations
      ensures HeapOk(h)
      ensures SlotFreed(old(Live(h)), old(mem[..]), old(Val()), index, Live(h), mem[..], Val())
    {
      ghost var a, m, p := Live(h), mem[..], Val();
      LiveIsDisjoint(h);
      ghost var pg, n := SlotFacts(a, m, p, index);
      UnmapAndUnjoin(mem, ptr, index, pg);
      Kfree(h, ptr, pg);
    }

    /** process_free. */
    method Free(h: BlockHeap, mem: array<Frame>, ptr: u32)
      requires HeapOk(h) && ApartFrom(h) && ProcOk(Live(h), mem[..], Val())
      modifies h.entries, mem, allocations
      ensures HeapOk(h)
      ensures FreeStep(old(Live(h)), old(mem[..]), old(Val()), ptr, Live(h), mem[..], Val())
    {
      var index := GetAllocationByAddr(ptr);
      if index < 0 {
        return;
      }
      if ptr == 0 {
        UnjoinNull(mem, index);
        Kfree(h, ptr, 0);
        return;
      }
      FreeSlot(h, mem, ptr, index);
    }
  
    /** process_terminate_allocations: every recorded allocation is freed and every slot emptied. */
    method TerminateAllocations(h: BlockHeap, mem: array<Frame>)
      requires HeapOk(h) && ApartFrom(h) && ProcOk(Live(h), mem[..], Val())
      modifies h.entries, mem, allocations
      ensures HeapOk(h)
      ensures FirstReleased(old(Live(h)), old(mem[..]), old(Val()), MAX_ALLOCATIONS, Live(h), mem[..], Val())
    {
      ghost var a, m, p := Live(h), mem[..], Val();
      assert Without(a, SlotPages(p.slots, 0)) == a;
      var i := 0;
      while i < allocations.Length
        invariant 0 <= i <= allocations.Length && HeapOk(h)
        invariant FirstReleased(a, m, p, i, Live(h), mem[..], Val())
      {
        ghost var a1, m1, p1 := Live(h), mem[..], Val();
        TerminateAllocation(h, mem, i);
        ReleaseOneMore(a, m, p, i, a1, m1, p1, Live(h), mem[..], Val());
        i := i + 1;
      }
    }

    /** One round of that loop. */
    method TerminateAllocation(h: BlockHeap, mem: array<Frame>, i: nat)
      requires HeapOk(h) && ApartFrom(h) && ProcOk(Live(h), mem[..], Val()) && i < allocations.Length
      modifies h.entries, mem, allocations
      ensures HeapOk(h)
      ensures OneReleased(old(Live(h)), old(mem[..]), old(Val()), i, Live(h), mem[..], Val())
    {
      ghost var a, m, p := Live(h), mem[..], Val();
      LiveIsDisjoint(h);
      Free(h, mem, allocations[i].ptr);
      FreeReleasesOne(a, m, p, i, Live(h), mem[..], Val());
    }

    /** process_free_program_data. */
    method FreeProgramData(h: BlockHeap)
      requires HeapOk(h) && program in Live(h) && 0 < program < PAGES
      requires filetype.Elf? ==> elfMemory in Live(h) && elfMemory != program && 0 < elfMemory < PAGES
      modifies h.entries
      ensures HeapOk(h)
      ensures Live(h) == Without(old(Live(h)), Image(old(Val())))
    {
      ghost var a := Live(h);
      match filetype
      case Binary =>
        Kfree(h, program * PAGE_SIZE, program);
      case Elf =>
        Kfree(h, elfMemory * PAGE_SIZE, elfMemory);
        Kfree(h, program * PAGE_SIZE, program);
        WithoutTwice(a, iset{elfMemory}, iset{program});
        assert iset{elfMemory} + iset{program} == iset{elfMemory, program};
    }

    /** task_free, but for the list removal: the page tables go first, then the task record. */
    method TaskFree(h: BlockHeap, mem: array<Frame>)
      requires HeapOk(h) && DirOwned(Live(h), mem[..], chunk)
      requires task in Live(h) && task !in OwnedFrames(mem[..], chunk) && 0 < task < PAGES && 0 < chunk < PAGES
      modifies h.entries
      ensures HeapOk(h)
      ensures Live(h) == Without(old(Live(h)), OwnedFrames(mem[..], chunk) + iset{task})
    {
      ghost var a := Live(h);
      PagingFree(h, mem, chunk * PAGE_SIZE, chunk);
      Kfree(h, task * PAGE_SIZE, task);
      WithoutTwice(a, OwnedFrames(mem[..], chunk), iset{task});
    }

    /** process_terminate, but for unlinking the process from the table. */
    method Terminate(h: BlockHeap, mem: array<Frame>)
      requires HeapOk(h) && ApartFrom(h) && ProcOk(Live(h), mem[..], Val())
      modifies h.entries, mem, allocations
      ensures HeapOk(h)
      ensures TerminateStep(old(Live(h)), old(mem[..]), old(Val()), Live(h), mem[..])
    {
      ghost var a, m, p := Live(h), mem[..], Val();
      TerminateAllocations(h, mem);
      ghost var a1 := Live(h);
      FreeFixed(h, mem);
      WithoutHoldings(a, m, p, a1, Live(h));
    }

    /** The rest of process_terminate: program, stack, page tables and task. */
    method FreeFixed(h: BlockHeap, mem: array<Frame>)
      requires HeapOk(h) && ApartFrom(h) && ProcOk(Live(h), mem[..], Val())
      modifies h.entries
      ensures HeapOk(h)
      ensures Live(h) == Without(Without(Without(old(Live(h)), Image(Val())), iset{stack}),
                                 OwnedFrames(mem[..], chunk) + iset{task})
    {
      ghost var a, m, p := Live(h), mem[..], Val();
      LiveIsDisjoint(h);
      FixedFacts(a, m, p);
      FreeProgramData(h);
      Kfree(h, stack * PAGE_SIZE, stack);
      DirOutlivesImage(a, m, p, Live(h));
      TaskFree(h, mem);
    }
  }

  lemma WithoutTwice(a: Allocs, x: iset<int>, y: iset<int>)
    ensures Without(Without(a, x), y) == Without(a, x + y)
  {
  }

  lemma FixedFacts(a: Allocs, m: Ram, p: Proc)
    requires Disjoint(a) && ProcOk(a, m, p)
    ensures p.program in a && p.stack in a && p.task in a && (p.filetype.Elf? ==> p.elfMemory in a)
    ensures 0 < p.program < PAGES && 0 < p.stack < PAGES && 0 < p.task < PAGES && 0 < p.chunk < PAGES
    ensures p.filetype.Elf? ==> 0 < p.elfMemory < PAGES && p.elfMemory != p.program
    ensures p.stack !in Image(p)
  {
    assert p.program in Fixed(p) && p.stack in Fixed(p) && p.task in Fixed(p);
    assert p.filetype.Elf? ==> p.elfMemory in Fixed(p);
    assert p.chunk in OwnedFrames(m, p.chunk);
  }

  lemma DirOutlivesImage(a: Allocs, m: Ram, p: Proc, a': Allocs)
    requires ProcOk(a, m, p) && a' == Without(Without(a, Image(p)), iset{p.stack})
    ensures DirOwned(a', m, p.chunk) && p.task in a' && p.task !in OwnedFrames(m, p.chunk)
  {
    assert p.task in Fixed(p);
    assert forall f :: f in Image(p) || f == p.stack ==> f in Fixed(p);
  }

  ghost predicate OneReleased(a: Allocs, m: Ram, p: Proc, i: int, a': Allocs, m': Ram, p': Proc)
    requires ProcOk(a, m, p) && 0 <= i < MAX_ALLOCATIONS
  {
    && ProcOk(a', m', p')
    && a' == (if p.slots[i].ptr == 0 then a else Without(a, iset{PageNo(p.slots[i])}))
    && p' == p.(slots := p.slots[i := EMPTY])
    && AgreeOutside(m, m', Tables(m, p.chunk))
    && Tables(m', p.chunk) == Tables(m, p.chunk) && OwnedFrames(m', p.chunk) == OwnedFrames(m, p.chunk)
  }

  /** The first i slots have been emptied and what they held released; the rest is as it was. */
  ghost predicate FirstReleased(a: Allocs, m: Ram, p: Proc, i: int, a': Allocs, m': Ram, p': Proc)
    requires ProcOk(a, m, p) && 0 <= i <= MAX_ALLOCATIONS
  {
    && ProcOk(a', m', p')
    && a' == Without(a, SlotPages(p.slots, i))
    && p' == p.(slots := seq(i, _ => EMPTY) + p.slots[i..])
    && AgreeOutside(m, m', Tables(m, p.chunk))
    && Tables(m', p.chunk) == Tables(m, p.chunk) && OwnedFrames(m', p.chunk) == OwnedFrames(m, p.chunk)
  }

  lemma FreeReleasesOne(a: Allocs, m: Ram, p: Proc, i: int, a': Allocs, m': Ram, p': Proc)
    requires Disjoint(a) && ProcOk(a, m, p) && 0 <= i < MAX_ALLOCATIONS
    requires FreeStep(a, m, p, p.slots[i].ptr, a', m', p')
    ensures OneReleased(a, m, p, i, a', m', p')
  {
    if p.slots[i].ptr != 0 {
      var j :| 0 <= j < |p.slots| && p.slots[j].ptr == p.slots[i].ptr && SlotFreed(a, m, p, j, a', m', p');
      var _, _ := SlotFacts(a, m, p, i);
      assert j == i;
      FreeKeepsProc(a, m, p, i, a', m', p');
    } else {
      assert p.slots[i] == EMPTY;
    }
  }

  lemma ReleaseOneMore(a: Allocs, m: Ram, p: Proc, i: int, a1: Allocs, m1: Ram, p1: Proc, a2: Allocs, m2: Ram, p2: Proc)
    requires ProcOk(a, m, p) && 0 <= i < MAX_ALLOCATIONS
    requires FirstReleased(a, m, p, i, a1, m1, p1) && OneReleased(a1, m1, p1, i, a2, m2, p2)
    ensures FirstReleased(a, m, p, i + 1, a2, m2, p2)
  {
    SlotPagesOneMore(a, p.slots, i);
    assert p1.slots[i] == p.slots[i];
    assert p1.slots[i := EMPTY] == seq(i + 1, _ => EMPTY) + p.slots[i + 1..];
  }

  lemma SlotPagesOneMore(a: Allocs, slots: seq<Slot>, i: nat)
    requires i < |slots|
    ensures Without(a, SlotPages(slots, i + 1))
         == if slots[i].ptr == 0 then Without(a, SlotPages(slots, i))
            else Without(Without(a, SlotPages(slots, i)), iset{PageNo(slots[i])})
  {
    forall f
      ensures InSlots(slots, i + 1, f) <==> InSlots(slots, i, f) || (slots[i].ptr != 0 && PageNo(slots[i]) == f)
    {
    }
  }

  lemma WithoutHoldings(a: Allocs, m: Ram, p: Proc, a1: Allocs, a2: Allocs)
    requires ChunkOk(m, p.chunk) && |p.slots| == MAX_ALLOCATIONS
    requires a1 == Without(a, SlotPages(p.slots, MAX_ALLOCATIONS))
    requires a2 == Without(Without(Without(a1, Image(p)), iset{p.stack}), OwnedFrames(m, p.chunk) + iset{p.task})
    ensures a2 == Without(a, Holdings(m, p))
  {
  }

  lemma SlotFacts(a: Allocs, m: Ram, p: Proc, i: int) returns (pg: int, n: nat)
    requires Disjoint(a) && ProcOk(a, m, p) && 0 <= i < MAX_ALLOCATIONS && p.slots[i].ptr != 0
    ensures pg == PageNo(p.slots[i]) && n == BlocksFor(p.slots[i].size)
    ensures p.slots[i].ptr == pg * PAGE_SIZE && pg in a && 1 <= n && 0 < pg && pg + n < PAGES
    ensures forall j :: 0 <= j < MAX_ALLOCATIONS && j != i ==> p.slots[j].ptr != p.slots[i].ptr
  {
    assert SlotHeld(a, m, p, p.slots[i]);
    pg, n := PageNo(p.slots[i]), BlocksFor(p.slots[i].size);
  }

  lemma MallocComposes(a: Allocs, m: Ram, p: Proc, size: u32, ptr: u32, pg: int, a1: Allocs, m1: Ram, m2: Ram, p': Proc)
    requires ChunkOk(m, p.chunk) && ptr == pg * PAGE_SIZE && Granted(a, m, a1, m1, pg, BlocksFor(size))
    requires SameChunk(m, m1, p.chunk, FlatMap(m, p.chunk)) && AgreeOutside(m, m1, FreeFrames(a))
    requires Remapped(m1, m2, p.chunk, MapPages(FlatMap(m1, p.chunk), pg, pg, BlocksFor(size), USER_RW))
    requires exists i :: IsFreeSlot(p.slots, i) && p' == p.(slots := p.slots[i := Slot(ptr, size)])
    ensures MallocStep(a, m, p, size, ptr, a1, m2, p')
  {
    assert ptr / PAGE_SIZE == pg;
  }

  /** A granted run lies outside the directory's frames, so the directory is untouched. */
  lemma GrantKeepsChunk(a: Allocs, m: Ram, a': Allocs, m': Ram, pg: int, n: nat, c: int)
    requires DirOwned(a, m, c) && Disjoint(a) && Granted(a, m, a', m', pg, n)
    ensures SameChunk(m, m', c, FlatMap(m, c))
    ensures AgreeOutside(m, m', FreeFrames(a))
  {
    AllocationKeepsDirectory(a, m, a', m', pg, n, c);
    GrantWritesFree(a, m, a', m', pg, n);
  }

  lemma GrantWritesFree(a: Allocs, m: Ram, a': Allocs, m': Ram, pg: int, n: nat)
    requires Granted(a, m, a', m', pg, n)
    ensures AgreeOutside(m, m', FreeFrames(a))
  {
    forall f | 0 <= f < PAGES && f !in FreeFrames(a) ensures m'[f] == m[f] {
      var q :| Covers(a, q, f);
      assert !InSpan(pg, n, f);
    }
  }

  lemma GrantUndone(a: Allocs, m: Ram, a': Allocs, m': Ram, pg: int, n: nat)
    requires Disjoint(a) && Granted(a, m, a', m', pg, n)
    ensures Without(a', iset{pg}) == a
  {
    FreshStart(a, pg, n);
  }
}
