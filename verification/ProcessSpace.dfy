/** What a process holds: its allocation slots, its program image, stack, task and page directory,
    and what process_malloc, process_free and process_terminate do to them. */
module ProcessSpace {
  import opened Words
  import opened HeapTable
  import opened Paging
  import opened KernelMemory
  import opened Mmu
  import opened PageDirectories

  const MAX_ALLOCATIONS := 1024

  datatype Slot = Slot(ptr: u32, size: u32)

  const EMPTY := Slot(0, 0)

  datatype FileType = Elf | Binary

  /** The fields of a process that name memory. `program` is the union's pointer (the ELF record,
      or the image itself for a flat binary), `elfMemory` the image an ELF record points to;
      these and `stack`, `task` and `chunk` (the wrapper of the page directory) are page numbers. */
  datatype Proc = Proc(slots: seq<Slot>, filetype: FileType, program: int, elfMemory: int, stack: int, task: int,
                       chunk: int)

  function PageNo(s: Slot): int {
    s.ptr / PAGE_SIZE
  }

  /** The pages of the loaded program. */
  ghost function Image(p: Proc): iset<int> {
    if p.filetype.Elf? then iset{p.elfMemory, p.program} else iset{p.program}
  }

  /** The pages of process data other than slots and page tables. */
  ghost function Fixed(p: Proc): iset<int> {
    Image(p) + iset{p.stack} + iset{p.task}
  }

  ghost predicate FixedOk(a: Allocs, m: Ram, p: Proc)
    requires ChunkOk(m, p.chunk)
  {
    && p.program != p.stack && p.program != p.task && p.stack != p.task
    && (p.filetype.Elf? ==> p.elfMemory != p.program && p.elfMemory != p.stack && p.elfMemory != p.task)
    && (forall f :: f in Fixed(p) ==> f in a)
    && Fixed(p) !! OwnedFrames(m, p.chunk)
  }

  /** The n pages from pg are mapped to themselves with the given flag bits. */
  ghost predicate MapsTo(flat: seq<u32>, pg: int, n: int, flags: u32)
    requires |flat| == PAGES
  {
    forall k :: InSpan(pg, n, k) && 0 <= k < PAGES ==> flat[k] == k * PAGE_SIZE + flags
  }

  /** An occupied slot names a live allocation of the recorded size, held for nothing else. */
  ghost predicate SlotHeld(a: Allocs, m: Ram, p: Proc, s: Slot)
    requires ChunkOk(m, p.chunk)
  {
    && s.ptr == PageNo(s) * PAGE_SIZE
    && PageNo(s) in a && a[PageNo(s)] == BlocksFor(s.size)
    && PageNo(s) !in Fixed(p) && PageNo(s) !in OwnedFrames(m, p.chunk)
  }

  ghost predicate SlotsHeld(a: Allocs, m: Ram, p: Proc)
    requires ChunkOk(m, p.chunk)
  {
    && |p.slots| == MAX_ALLOCATIONS
    && (forall i :: 0 <= i < MAX_ALLOCATIONS && p.slots[i].ptr != 0 ==> SlotHeld(a, m, p, p.slots[i]))
    && (forall i :: 0 <= i < MAX_ALLOCATIONS && p.slots[i].ptr == 0 ==> p.slots[i] == EMPTY)
    && (forall i, j :: 0 <= i < j < MAX_ALLOCATIONS && p.slots[i].ptr != 0 ==> p.slots[i].ptr != p.slots[j].ptr)
  }

  /** The pages of every occupied slot are mapped, identically, for the user, writable. */
  ghost predicate SlotsMapped(m: Ram, p: Proc)
    requires ChunkOk(m, p.chunk) && |p.slots| == MAX_ALLOCATIONS
  {
    forall i :: 0 <= i < MAX_ALLOCATIONS && p.slots[i].ptr != 0 ==>
      MapsTo(FlatMap(m, p.chunk), PageNo(p.slots[i]), BlocksFor(p.slots[i].size), USER_RW)
  }

  /** The invariant of a loaded process. */
  ghost predicate ProcOk(a: Allocs, m: Ram, p: Proc) {
    DirOwned(a, m, p.chunk) && OpenChunk(m, p.chunk) && FixedOk(a, m, p) && SlotsHeld(a, m, p) && SlotsMapped(m, p)
  }

  // ---- everything a process holds ----

  /** The pages at which the first i slots' allocations start. */
  ghost function SlotPages(slots: seq<Slot>, i: int): iset<int>
    requires i <= |slots|
  {
    iset f | InSlots(slots, i, f)
  }

  ghost predicate InSlots(slots: seq<Slot>, i: int, f: int)
    requires i <= |slots|
  {
    exists j :: 0 <= j < i && slots[j].ptr != 0 && PageNo(slots[j]) == f
  }

  lemma FillSlot(slots: seq<Slot>, i: int, s: Slot)
    requires 0 <= i < |slots| && slots[i].ptr == 0 && s.ptr != 0
    ensures SlotPages(slots[i := s], |slots|) == SlotPages(slots, |slots|) + iset{PageNo(s)}
  {
    var slots' := slots[i := s];
    forall f ensures InSlots(slots', |slots|, f) <==> InSlots(slots, |slots|, f) || f == PageNo(s) {
      if InSlots(slots, |slots|, f) {
        var j :| 0 <= j < |slots| && slots[j].ptr != 0 && PageNo(slots[j]) == f;
        assert slots'[j] == slots[j];
      }
      assert slots'[i] == s;
    }
  }

  lemma EmptySlot(slots: seq<Slot>, i: int)
    requires 0 <= i < |slots| && slots[i].ptr != 0
    requires forall j :: 0 <= j < |slots| && j != i && slots[j].ptr != 0 ==> PageNo(slots[j]) != PageNo(slots[i])
    ensures SlotPages(slots[i := EMPTY], |slots|) == SlotPages(slots, |slots|) - iset{PageNo(slots[i])}
    ensures PageNo(slots[i]) in SlotPages(slots, |slots|)
  {
    var slots' := slots[i := EMPTY];
    forall f ensures InSlots(slots', |slots|, f) <==> InSlots(slots, |slots|, f) && f != PageNo(slots[i]) {
      if InSlots(slots, |slots|, f) && f != PageNo(slots[i]) {
        var j :| 0 <= j < |slots| && slots[j].ptr != 0 && PageNo(slots[j]) == f;
        assert slots'[j] == slots[j];
      }
    }
  }

  ghost function Holdings(m: Ram, p: Proc): iset<int>
    requires ChunkOk(m, p.chunk) && |p.slots| == MAX_ALLOCATIONS
  {
    SlotPages(p.slots, MAX_ALLOCATIONS) + Fixed(p) + OwnedFrames(m, p.chunk)
  }

  lemma HoldingsAreLive(a: Allocs, m: Ram, p: Proc)
    requires ProcOk(a, m, p)
    ensures forall f :: f in Holdings(m, p) ==> f in a
  {
  }

  /** The frames no allocation covers: all that a request that fails may have written. */
  ghost function FreeFrames(a: Allocs): iset<int> {
    iset f | !IsCovered(a, f)
  }

  ghost predicate IsCovered(a: Allocs, f: int) {
    exists p :: Covers(a, p, f)
  }

  // ---- a process's life, as relations ----

  /** All of a's allocations are still there in a'. */
  ghost predicate Extends(a: Allocs, a': Allocs) {
    forall f :: f in a ==> f in a' && a'[f] == a[f]
  }

  /** All of a's allocations are still there in a', and nothing outside frames that were free was written. */
  ghost predicate Alongside(a: Allocs, m: Ram, a': Allocs, m': Ram) {
    Disjoint(a') && Extends(a, a') && AgreeOutside(m, m', FreeFrames(a))
  }

  /** A successful process_load_for_slot: a process without recorded allocations appears; its program, stack,
      task and page directory are new. */
  ghost predicate Loaded(a: Allocs, m: Ram, a': Allocs, m': Ram, p: Proc) {
    && Alongside(a, m, a', m')
    && DirOwned(a', m', p.chunk) && OpenChunk(m', p.chunk) && FixedOk(a', m', p)
    && NoneRecorded(p.slots)
    && forall f :: f in Fixed(p) || f in OwnedFrames(m', p.chunk) ==> f !in a
  }

  ghost predicate NoneRecorded(slots: seq<Slot>) {
    |slots| == MAX_ALLOCATIONS && forall i :: 0 <= i < MAX_ALLOCATIONS ==> slots[i] == EMPTY
  }

  /** The base case of the invariant. */
  lemma LoadedIsOk(a: Allocs, m: Ram, a': Allocs, m': Ram, p: Proc)
    requires Loaded(a, m, a', m', p)
    ensures ProcOk(a', m', p) && Holdings(m', p) == Fixed(p) + OwnedFrames(m', p.chunk)
  {
    assert forall f :: !InSlots(p.slots, MAX_ALLOCATIONS, f);
  }


  /** The first empty slot, or -1. */
  ghost predicate IsFreeSlot(slots: seq<Slot>, i: int) {
    0 <= i < |slots| && slots[i].ptr == 0 && forall j :: 0 <= j < i ==> slots[j].ptr != 0
  }

  /** process_malloc: either it returns null and allocations, slots and mappings are untouched, or
      it records a fresh run in the first empty slot and maps exactly its pages. */
  ghost predicate MallocStep(a: Allocs, m: Ram, p: Proc, size: u32, ptr: u32, a': Allocs, m': Ram, p': Proc)
    requires ChunkOk(m, p.chunk)
  {
    && AgreeOutside(m, m', FreeFrames(a) + Tables(m, p.chunk))
    && if ptr == 0 then
         a' == a && p' == p && SameChunk(m, m', p.chunk, FlatMap(m, p.chunk))
       else
         var pg, n := ptr / PAGE_SIZE, BlocksFor(size);
         && ptr == pg * PAGE_SIZE && 0 < pg && 1 <= n && pg + n < PAGES
         && FreshPages(a, pg, n) && a' == a[pg := n]
         && (exists i :: IsFreeSlot(p.slots, i) && p' == p.(slots := p.slots[i := Slot(ptr, size)]))
         && SameChunk(m, m', p.chunk, MapPages(FlatMap(m, p.chunk), pg, pg, n, USER_RW))
  }

  /** process_free: of a recorded pointer it releases that allocation, empties its slot and marks
      exactly its pages not present; of anything else, null included, it changes nothing. */
  ghost predicate FreeStep(a: Allocs, m: Ram, p: Proc, ptr: u32, a': Allocs, m': Ram, p': Proc)
    requires ChunkOk(m, p.chunk)
  {
    if ptr != 0 && exists i :: 0 <= i < |p.slots| && p.slots[i].ptr == ptr then
      exists i :: 0 <= i < |p.slots| && p.slots[i].ptr == ptr && SlotFreed(a, m, p, i, a', m', p')
    else
      a' == a && m' == m && p' == p
  }

  ghost predicate SlotFreed(a: Allocs, m: Ram, p: Proc, i: int, a': Allocs, m': Ram, p': Proc)
    requires ChunkOk(m, p.chunk) && 0 <= i < |p.slots|
  {
    var pg, n := PageNo(p.slots[i]), BlocksFor(p.slots[i].size);
    && pg + n < PAGES
    && a' == Without(a, iset{pg})
    && p' == p.(slots := p.slots[i := EMPTY])
    && Remapped(m, m', p.chunk, MapPages(FlatMap(m, p.chunk), pg, pg, n, 0))
  }

  /** process_terminate: everything the process holds is released, and nothing else. */
  ghost predicate TerminateStep(a: Allocs, m: Ram, p: Proc, a': Allocs, m': Ram)
    requires ChunkOk(m, p.chunk) && |p.slots| == MAX_ALLOCATIONS
  {
    a' == Without(a, Holdings(m, p)) && AgreeOutside(m, m', Tables(m, p.chunk))
  }

  // ---- what each operation keeps ----

  lemma LiveFrameIsNotFree(a: Allocs, f: int)
    requires Disjoint(a) && f in a
    ensures f !in FreeFrames(a)
  {
    assert Covers(a, f, f);
  }

  lemma SpansApart(a: Allocs, p: int, q: int, n: nat, k: int)
    requires Disjoint(a) && p in a && FreshPages(a, q, n) && InSpan(p, a[p], k)
    ensures !InSpan(q, n, k)
  {
    assert Covers(a, p, k);
  }

  /** Mapping a run of pages to themselves leaves every other page's entry alone. */
  lemma MapsElsewhere(flat: seq<u32>, pg: int, n: int, flags: u32, k: int)
    requires |flat| == PAGES && 0 <= pg && 0 <= n && pg + n < PAGES && 0 <= k < PAGES
    ensures MapPages(flat, pg, pg, n, flags)[k] ==
              if InSpan(pg, n, k) then OrWord(k * PAGE_SIZE, flags) else flat[k]
  {
    if k < pg {
      assert Distance(pg, k) >= n;
    }
  }

  lemma MallocKeepsSlots(a: Allocs, m: Ram, p: Proc, size: u32, ptr: u32, a': Allocs, m': Ram, p': Proc, i: int)
    requires Disjoint(a) && ProcOk(a, m, p) && MallocStep(a, m, p, size, ptr, a', m', p') && ptr != 0
    requires IsFreeSlot(p.slots, i) && p' == p.(slots := p.slots[i := Slot(ptr, size)])
    requires OwnedFrames(m', p.chunk) == OwnedFrames(m, p.chunk)
    ensures SlotsHeld(a', m', p')
  {
    var pg, n := ptr / PAGE_SIZE, BlocksFor(size);
    FreshStart(a, pg, n);
    forall j | 0 <= j < MAX_ALLOCATIONS && p'.slots[j].ptr != 0 ensures SlotHeld(a', m', p', p'.slots[j]) {
      if j != i {
        assert SlotHeld(a, m, p, p.slots[j]);
      }
    }
    forall j | 0 <= j < MAX_ALLOCATIONS && j != i ensures p.slots[j].ptr != ptr {
      if p.slots[j].ptr != 0 {
        assert SlotHeld(a, m, p, p.slots[j]);
      }
    }
  }

  lemma MallocMapsSlots(a: Allocs, m: Ram, p: Proc, size: u32, ptr: u32, a': Allocs, m': Ram, p': Proc, i: int)
    requires Disjoint(a) && ProcOk(a, m, p) && MallocStep(a, m, p, size, ptr, a', m', p') && ptr != 0
    requires IsFreeSlot(p.slots, i) && p' == p.(slots := p.slots[i := Slot(ptr, size)])
    ensures SlotsMapped(m', p')
  {
    var pg, n := ptr / PAGE_SIZE, BlocksFor(size);
    var flat, flat' := FlatMap(m, p.chunk), FlatMap(m', p.chunk);
    forall j, k | 0 <= j < MAX_ALLOCATIONS && p'.slots[j].ptr != 0 && 0 <= k < PAGES
                  && InSpan(PageNo(p'.slots[j]), BlocksFor(p'.slots[j].size), k)
      ensures flat'[k] == k * PAGE_SIZE + USER_RW
    {
      MapsElsewhere(flat, pg, n, USER_RW, k);
      if j != i {
        assert SlotHeld(a, m, p, p.slots[j]);
        SpansApart(a, PageNo(p.slots[j]), pg, n, k);
      }
    }
  }

  lemma MallocKeepsProc(a: Allocs, m: Ram, p: Proc, size: u32, ptr: u32, a': Allocs, m': Ram, p': Proc)
    requires Disjoint(a) && ProcOk(a, m, p) && MallocStep(a, m, p, size, ptr, a', m', p')
    ensures ProcOk(a', m', p') && OwnedFrames(m', p'.chunk) == OwnedFrames(m, p.chunk)
  {
    if ptr != 0 {
      var i :| IsFreeSlot(p.slots, i) && p' == p.(slots := p.slots[i := Slot(ptr, size)]);
      var pg, n := ptr / PAGE_SIZE, BlocksFor(size);
      FreshStart(a, pg, n);
      MallocKeepsSlots(a, m, p, size, ptr, a', m', p', i);
      MallocMapsSlots(a, m, p, size, ptr, a', m', p', i);
    }
  }

  lemma FreeKeepsSlots(a: Allocs, m: Ram, p: Proc, i: int, a': Allocs, m': Ram, p': Proc)
    requires Disjoint(a) && ProcOk(a, m, p) && 0 <= i < MAX_ALLOCATIONS && p.slots[i].ptr != 0
    requires SlotFreed(a, m, p, i, a', m', p') && OwnedFrames(m', p.chunk) == OwnedFrames(m, p.chunk)
    ensures SlotsHeld(a', m', p')
  {
    assert SlotHeld(a, m, p, p.slots[i]);
    forall j | 0 <= j < MAX_ALLOCATIONS && p'.slots[j].ptr != 0 ensures SlotHeld(a', m', p', p'.slots[j]) {
      assert SlotHeld(a, m, p, p.slots[j]);
    }
  }

  lemma FreeMapsSlots(a: Allocs, m: Ram, p: Proc, i: int, a': Allocs, m': Ram, p': Proc)
    requires Disjoint(a) && ProcOk(a, m, p) && 0 <= i < MAX_ALLOCATIONS && p.slots[i].ptr != 0
    requires SlotFreed(a, m, p, i, a', m', p')
    ensures SlotsMapped(m', p')
  {
    var pg, n := PageNo(p.slots[i]), BlocksFor(p.slots[i].size);
    assert SlotHeld(a, m, p, p.slots[i]);
    forall j, k | 0 <= j < MAX_ALLOCATIONS && p'.slots[j].ptr != 0 && 0 <= k < PAGES
                  && InSpan(PageNo(p'.slots[j]), BlocksFor(p'.slots[j].size), k)
      ensures FlatMap(m', p.chunk)[k] == k * PAGE_SIZE + USER_RW
    {
      assert SlotHeld(a, m, p, p.slots[j]);
      assert Covers(a, PageNo(p.slots[j]), k);
      assert InSpan(pg, n, k) ==> Covers(a, pg, k);
      MapsElsewhere(FlatMap(m, p.chunk), pg, n, 0, k);
    }
  }

  lemma FreeKeepsProc(a: Allocs, m: Ram, p: Proc, i: int, a': Allocs, m': Ram, p': Proc)
    requires Disjoint(a) && ProcOk(a, m, p) && 0 <= i < MAX_ALLOCATIONS && p.slots[i].ptr != 0
    requires SlotFreed(a, m, p, i, a', m', p')
    ensures ProcOk(a', m', p') && OwnedFrames(m', p'.chunk) == OwnedFrames(m, p.chunk)
    ensures MapsTo(FlatMap(m', p.chunk), PageNo(p.slots[i]), BlocksFor(p.slots[i].size), 0)
  {
    var pg, n := PageNo(p.slots[i]), BlocksFor(p.slots[i].size);
    assert SlotHeld(a, m, p, p.slots[i]);
    FreeKeepsSlots(a, m, p, i, a', m', p');
    FreeMapsSlots(a, m, p, i, a', m', p');
    forall k | InSpan(pg, n, k) && 0 <= k < PAGES ensures FlatMap(m', p.chunk)[k] == k * PAGE_SIZE {
      MapsElsewhere(FlatMap(m, p.chunk), pg, n, 0, k);
    }
  }
}
