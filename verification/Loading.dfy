/** process_load_for_slot for an ELF file, from its first allocation to the mapped process: the one way
    into the process invariant. */
module Loading {
  import opened Words
  import opened HeapTable
  import opened Heap
  import opened Paging
  import opened KernelMemory
  import opened Mmu
  import opened PageDirectories
  import opened ProcessSpace
  import opened Processes
  import ElfMapping

  const PROCESS_RECORD: u32 := 9364
  const ELF_RECORD: u32 := 132
  const TASK_RECORD: u32 := 64
  const TASK_FLAGS: u32 := 5  // present, accessible from every ring

  // ---- what has been acquired between two moments ----

  /** The allocations that are new start at the pages of `got`, the old ones are still there, and only
      frames that were free have been written. */
  ghost predicate Acquired(a: Allocs, m: Ram, a': Allocs, m': Ram, got: iset<int>) {
    && Alongside(a, m, a', m')
    && forall f :: f in a' && f !in a <==> f in got
  }

  /** The frames of new allocations were free before. */
  lemma AcquiredWereFree(a: Allocs, m: Ram, a': Allocs, m': Ram, got: iset<int>, p: int, k: int)
    requires Acquired(a, m, a', m', got) && p in got && InSpan(p, a'[p], k)
    ensures k in FreeFrames(a)
  {
    assert Covers(a', p, k);
    assert forall q :: Covers(a, q, k) ==> Covers(a', q, k);
  }

  lemma GrantAcquired(a: Allocs, m: Ram, a': Allocs, m': Ram, p: int, n: nat)
    requires Disjoint(a) && Granted(a, m, a', m', p, n) && Disjoint(a')
    ensures Acquired(a, m, a', m', iset{p}) && a'[p] == n
  {
    FreshStart(a, p, n);
    forall k | k in Span(p, n) ensures k in FreeFrames(a) {
      assert InSpan(p, n, k);
    }
  }

  /** One stretch of work after another. */
  lemma AcquiredInTwo(a: Allocs, m: Ram, a1: Allocs, m1: Ram, got1: iset<int>, a2: Allocs, m2: Ram, got2: iset<int>)
    requires Acquired(a, m, a1, m1, got1) && Acquired(a1, m1, a2, m2, got2)
    ensures Acquired(a, m, a2, m2, got1 + got2) && got1 !! got2
  {
    forall f | 0 <= f < PAGES && f !in FreeFrames(a) ensures m2[f] == m[f] {
      var q :| Covers(a, q, f);
      assert Covers(a1, q, f);
    }
    forall f | f in got1 ensures f !in got2 {
    }
  }

  lemma DirectoryAcquired(a: Allocs, m: Ram, a': Allocs, m': Ram, c: int, flags: u32)
    requires Disjoint(a') && flags < 0x100 && NewChunk(a, m, a', m', c, flags)
    ensures Acquired(a, m, a', m', OwnedFrames(m', c))
  {
    var own := OwnedFrames(m', c);
    forall k | k in own ensures k in FreeFrames(a) {
      assert Covers(a', k, k);
      assert forall q :: Covers(a, q, k) ==> Covers(a', q, k);
    }
    assert Extends(a, a');
  }

  /** Mapping calls write only the directory's own tables. */
  lemma MappingAcquired(a: Allocs, m: Ram, a': Allocs, m1: Ram, m2: Ram, got: iset<int>, c: int, flat: seq<u32>)
    requires Acquired(a, m, a', m1, got) && DirOwned(a', m1, c) && OwnedFrames(m1, c) <= got
    requires Remapped(m1, m2, c, flat)
    ensures Acquired(a, m, a', m2, got) && DirOwned(a', m2, c) && OwnedFrames(m2, c) == OwnedFrames(m1, c)
  {
    forall k | k in Tables(m1, c) ensures k in FreeFrames(a) {
      assert k in OwnedFrames(m1, c);
      AcquiredWereFree(a, m, a', m1, got, k, k);
    }
  }

  // ---- requests, one after the other ----

  /** The course that a row of requests takes from a table on: the numbers of blocks asked for, the tables that
      the requests leave one after the other, the blocks they get, and how many are granted before the
      first that finds no room; with the allocations and memory it begins with. */
  datatype Start = Start(requests: seq<nat>, tables: seq<Table>, blocks: seq<nat>, granted: nat,
                         allocs: Allocs, ram: Ram) {
    predicate Linked() {
      && |tables| == |requests| + 1 && |blocks| == |requests| && granted <= |requests|
      && (forall k :: 0 <= k < |requests| ==> LinkedAt(k))
      && (forall k :: 0 <= k < granted ==> HasRoom(k))
      && (granted < |requests| ==> !HasRoom(granted))
    }

    predicate LinkedAt(k: nat)
      requires k < |requests| == |blocks| < |tables|
    {
      match Place(tables[k], requests[k])
      case Placed(b, t) => blocks[k] == b && tables[k + 1] == t
      case _ => blocks[k] == 0 && tables[k + 1] == tables[k]
    }

    /** Request k finds a run that is long enough. */
    predicate HasRoom(k: nat)
      requires k < |requests| < |tables|
    {
      HasFit(tables[k], requests[k])
    }

    /** Every request up to the first that finds no room is safe. */
    predicate Safe() {
      Linked() && forall k :: 0 <= k < |requests| && k <= granted ==> SafeAt(k)
    }

    predicate SafeAt(k: nat)
      requires k < |requests| < |tables|
    {
      SafeRequest(tables[k], requests[k])
    }
  }

  /** Every row of requests takes exactly one course from a table on. */
  lemma {:induction false} CourseOf(t: Table, requests: seq<nat>, a: Allocs, m: Ram) returns (s: Start)
    ensures s.Linked() && s.requests == requests && s.tables[0] == t && s.allocs == a && s.ram == m
    decreases |requests|
  {
    if requests == [] {
      s := Start([], [t], [], 0, a, m);
    } else {
      var last := requests[|requests| - 1];
      var s0 := CourseOf(t, requests[..|requests| - 1], a, m);
      var end := s0.tables[|requests| - 1];
      var (b, t') := match Place(end, last) case Placed(b, t') => (b, t') case _ => (0, end);
      s := Start(requests, s0.tables + [t'], s0.blocks + [b],
                 if s0.granted == |requests| - 1 && HasFit(end, last) then |requests| else s0.granted, a, m);
      forall k | 0 <= k < |requests| ensures s.LinkedAt(k) && (k < |requests| - 1 ==> s.HasRoom(k) == s0.HasRoom(k)) {
        assert k < |requests| - 1 ==> s0.LinkedAt(k);
      }
      forall k | 0 <= k < s.granted ensures s.HasRoom(k) {
        assert k < s0.granted ==> s0.HasRoom(k);
      }
    }
  }

  lemma {:induction false} SameTablesAt(s1: Start, s2: Start, k: nat)
    requires s1.Linked() && s2.Linked() && s1.requests == s2.requests && s1.tables[0] == s2.tables[0]
    requires k <= |s1.requests|
    ensures s1.tables[k] == s2.tables[k]
  {
    if k > 0 {
      SameTablesAt(s1, s2, k - 1);
      assert s1.LinkedAt(k - 1) && s2.LinkedAt(k - 1);
    }
  }

  lemma OneCourse(s1: Start, s2: Start)
    requires s1.Linked() && s2.Linked() && s1.requests == s2.requests && s1.tables[0] == s2.tables[0]
    ensures s1.tables == s2.tables && s1.blocks == s2.blocks && s1.granted == s2.granted
  {
    forall k | 0 <= k <= |s1.requests| ensures s1.tables[k] == s2.tables[k] {
      SameTablesAt(s1, s2, k);
    }
    forall k | 0 <= k < |s1.requests| ensures s1.blocks[k] == s2.blocks[k] && s1.HasRoom(k) == s2.HasRoom(k) {
      assert s1.LinkedAt(k) && s2.LinkedAt(k);
    }
  }

  /** The pages that the first i requests got. */
  ghost function PagesOf(s: Start, base: int, i: nat): iset<int>
    requires i <= |s.blocks|
  {
    iset f | IsPage(s, base, i, f)
  }

  ghost predicate IsPage(s: Start, base: int, i: nat, f: int)
    requires i <= |s.blocks|
  {
    exists k :: 0 <= k < i && base + s.blocks[k] == f
  }

  /** What request k got is an allocation of the size asked for. */
  ghost predicate Held(s: Start, base: int, a: Allocs, k: nat)
    requires k < |s.requests| == |s.blocks|
  {
    var p := base + s.blocks[k];
    0 < p && p + s.requests[k] < PAGES && p in a && a[p] == s.requests[k]
  }

  ghost predicate Differ(s: Start, j: nat, k: nat)
    requires j < |s.blocks| && k < |s.blocks|
  {
    s.blocks[j] != s.blocks[k]
  }

  /** The first i requests have been granted, and nothing else has been acquired. */
  ghost predicate Gained(s: Start, base: int, t: Table, a: Allocs, m: Ram, i: nat) {
    && s.Safe() && i <= s.granted && t == s.tables[i]
    && Acquired(s.allocs, s.ram, a, m, PagesOf(s, base, i))
    && (forall k :: 0 <= k < i ==> Held(s, base, a, k))
    && (forall j, k :: 0 <= j < k < i ==> Differ(s, j, k))
  }

  /** Request i was granted page p: `Gained` has moved on by one. */
  ghost predicate MovedOn(s: Start, base: int, a: Allocs, m: Ram, i: nat, t': Table, a': Allocs, m': Ram, p: int) {
    && i < |s.blocks| && p == base + s.blocks[i]
    && Gained(s, base, t', a', m', i + 1) && Acquired(a, m, a', m', iset{p})
  }

  lemma GainedOneMore(s: Start, base: int, t: Table, a: Allocs, m: Ram, i: nat, t': Table, a': Allocs, m': Ram, p: int)
    requires Gained(s, base, t, a, m, i) && i < |s.requests| && Disjoint(a) && Disjoint(a')
    requires Granted(a, m, a', m', p, s.requests[i]) && p >= base && HasFit(t, s.requests[i])
    requires Place(t, s.requests[i]) == Placed(p - base, t')
    ensures MovedOn(s, base, a, m, i, t', a', m', p)
  {
    GrantAcquired(a, m, a', m', p, s.requests[i]);
    AcquiredInTwo(s.allocs, s.ram, a, m, PagesOf(s, base, i), a', m', iset{p});
    assert s.LinkedAt(i);
    OnePageMore(s, base, i, p);
    forall k | 0 <= k < i ensures Held(s, base, a', k) && Differ(s, k, i) {
      assert Held(s, base, a, k);
    }
  }

  lemma OnePageMore(s: Start, base: int, i: nat, p: int)
    requires i < |s.blocks| && p == base + s.blocks[i]
    ensures PagesOf(s, base, i) + iset{p} == PagesOf(s, base, i + 1)
  {
    forall f ensures f in PagesOf(s, base, i) + iset{p} <==> f in PagesOf(s, base, i + 1) {
      if IsPage(s, base, i + 1, f) {
        var k :| 0 <= k < i + 1 && base + s.blocks[k] == f;
        assert k < i ==> IsPage(s, base, i, f);
      }
    }
  }

  lemma RoomIff(s: Start, i: nat)
    requires s.Linked() && i <= s.granted && i < |s.requests|
    ensures HasFit(s.tables[i], s.requests[i]) <==> i < s.granted
  {
    assert i < s.granted ==> s.HasRoom(i);
  }

  /** One kzalloc of the loader; 0 when the heap has no room. */
  method Acquire(h: BlockHeap, mem: array<Frame>, size: u32, ghost s: Start, ghost i: nat) returns (page: int)
    requires HeapOk(h) && Gained(s, h.base, h.Table(), Live(h), mem[..], i)
    requires i < |s.requests| && s.requests[i] == BlocksFor(size)
    modifies h.entries, mem
    ensures HeapOk(h)
    ensures page == 0 <==> s.granted == i
    ensures page == 0 ==> mem[..] == old(mem[..]) && h.Table() == old(h.Table())
    ensures page != 0 ==> MovedOn(s, h.base, old(Live(h)), old(mem[..]), i, h.Table(), Live(h), mem[..], page)
  {
    ghost var t, a, m := h.Table(), Live(h), mem[..];
    LiveIsDisjoint(h);
    assert s.SafeAt(i);
    RoomIff(s, i);
    var ptr;
    ghost var p;
    ptr, p := SafeKzalloc(h, mem, size);
    if ptr == 0 {
      return 0;
    }
    LiveIsDisjoint(h);
    GainedOneMore(s, h.base, t, a, m, i, h.Table(), Live(h), mem[..], p);
    page := ptr / PAGE_SIZE;
    assert page == p;
  }

  /** The loader's requests before paging_new, whose own are always safe: the records of process and file,
      the image, the stack and the task. */
  function LoaderRequests(fileSize: u32): seq<nat> {
    [BlocksFor(PROCESS_RECORD), BlocksFor(ELF_RECORD), BlocksFor(fileSize), BlocksFor(ElfMapping.STACK_SIZE),
     BlocksFor(TASK_RECORD)]
  }

  /** A load of a file of this size begins. */
  ghost predicate Begins(s: Start, fileSize: u32) {
    s.Safe() && s.requests == LoaderRequests(fileSize)
  }

  /** fread of the file into its image. */
  method ReadImage(mem: array<Frame>, page: int, image: seq<Frame>)
    requires IsRam(mem[..]) && 0 < page && page + |image| < PAGES
    modifies mem
    ensures AgreeOutside(old(mem[..]), mem[..], Span(page, |image|)) && HoldsImage(mem[..], page, image)
  {
    var i := 0;
    while i < |image|
      invariant 0 <= i <= |image|
      invariant forall k :: 0 <= k < i ==> mem[page + k] == image[k]
      invariant forall f :: 0 <= f < PAGES && !InSpan(page, |image|, f) ==> mem[f] == old(mem[f])
    {
      mem[page + i] := image[i];
      i := i + 1;
    }
  }

  ghost predicate HoldsImage(m: Ram, page: int, image: seq<Frame>) {
    IsRam(m) && 0 < page && page + |image| < PAGES && forall k :: 0 <= k < |image| ==> m[page + k] == image[k]
  }

  /** The file is in its image, which is the third page granted. */
  ghost predicate ImageRead(s: Start, base: int, m: Ram, image: seq<Frame>)
    requires 2 < |s.blocks|
  {
    HoldsImage(m, base + s.blocks[2], image)
  }

  lemma ImageGained(s: Start, base: int, t: Table, a: Allocs, m1: Ram, m2: Ram, image: seq<Frame>)
    requires Gained(s, base, t, a, m1, 3) && |image| == s.requests[2] && IsRam(m2)
    requires AgreeOutside(m1, m2, Span(base + s.blocks[2], |image|))
    ensures Gained(s, base, t, a, m2, 3)
  {
    assert Held(s, base, a, 2);
    assert IsPage(s, base, 3, base + s.blocks[2]);
    ImageAcquired(s.allocs, s.ram, a, m1, m2, PagesOf(s, base, 3), base + s.blocks[2]);
  }

  lemma ImageAcquired(a: Allocs, m: Ram, a': Allocs, m1: Ram, m2: Ram, got: iset<int>, page: int)
    requires Acquired(a, m, a', m1, got) && page in got && AgreeOutside(m1, m2, Span(page, a'[page]))
    ensures Acquired(a, m, a', m2, got)
  {
    forall k | k in Span(page, a'[page]) ensures k in FreeFrames(a) {
      AcquiredWereFree(a, m, a', m1, got, page, k);
    }
  }

  /** Later work leaves the image alone. */
  lemma ImageStays(a: Allocs, m: Ram, a': Allocs, m': Ram, got: iset<int>, page: int, image: seq<Frame>)
    requires Acquired(a, m, a', m', got) && page in a && a[page] == |image| && HoldsImage(m, page, image)
    ensures HoldsImage(m', page, image)
  {
    forall k | 0 <= k < |image| ensures m'[page + k] == image[k] {
      assert Covers(a, page, page + k);
    }
  }

  method ReadFile(mem: array<Frame>, page: int, image: seq<Frame>, ghost s: Start, ghost base: int, ghost t: Table,
                  ghost a: Allocs)
    requires Gained(s, base, t, a, mem[..], 3) && |image| == s.requests[2] && page == base + s.blocks[2]
    modifies mem
    ensures Gained(s, base, t, a, mem[..], 3) && ImageRead(s, base, mem[..], image)
  {
    ghost var m := mem[..];
    assert Held(s, base, a, 2);
    ReadImage(mem, page, image);
    ImageGained(s, base, t, a, m, mem[..], image);
  }

  /** elf_load of a file that opens and reads without an error. Neither of its kzallocs is checked: when the
      first finds no room the pointer to the image is written through a null pointer, when the second
      does the whole file is. `fault` tells so. */
  method ElfLoad(h: BlockHeap, mem: array<Frame>, fileSize: u32, image: seq<Frame>, ghost s: Start)
    returns (program: int, elfMemory: int, fault: bool)
    requires HeapOk(h) && Gained(s, h.base, h.Table(), Live(h), mem[..], 1)
    requires Begins(s, fileSize) && |image| == BlocksFor(fileSize)
    modifies h.entries, mem
    ensures fault <==> s.granted < 3
    ensures !fault ==>
              && HeapOk(h) && Gained(s, h.base, h.Table(), Live(h), mem[..], 3)
              && program == h.base + s.blocks[1] && elfMemory == h.base + s.blocks[2]
              && ImageRead(s, h.base, mem[..], image)
  {
    elfMemory := 0;
    program := Acquire(h, mem, ELF_RECORD, s, 1);
    if program == 0 {
      return 0, 0, true;
    }
    elfMemory := Acquire(h, mem, fileSize, s, 2);
    if elfMemory == 0 {
      return program, 0, true;
    }
    ReadFile(mem, elfMemory, image, s, h.base, h.Table(), Live(h));
    return program, elfMemory, false;
  }

  // ---- the task and its page directory ----

  /** paging_new in task_init; 0 when one of its allocations finds no room. */
  method NewIdentity(h: BlockHeap, mem: array<Frame>) returns (c: int)
    requires HeapOk(h) && IsRam(mem[..])
    modifies h.entries, mem
    ensures c == 0 <==> FreeBlocks(old(h.Table())) < CHUNK_PAGES
    ensures c != 0 ==>
              && HeapOk(h) && DirOwned(Live(h), mem[..], c) && OpenChunk(mem[..], c)
              && FlatMap(mem[..], c) == IdentityMap(TASK_FLAGS)
              && Acquired(old(Live(h)), old(mem[..]), Live(h), mem[..], OwnedFrames(mem[..], c))
  {
    ghost var a, m := Live(h), mem[..];
    var chunk;
    ghost var g;
    chunk, g := PagingNew(h, mem, TASK_FLAGS);
    c := chunk / PAGE_SIZE;
    if chunk != 0 {
      LiveIsDisjoint(h);
      DirectoryAcquired(a, m, Live(h), mem[..], c, TASK_FLAGS);
      LowBits(TASK_FLAGS);
      OpenWhenCarried(mem[..], DirFrame(mem[..], c), TASK_FLAGS);
    }
  }

  /** A task whose page directory maps the identity, both made since the allocations were a. */
  ghost predicate NewTask(a: Allocs, m: Ram, a': Allocs, m': Ram, task: int, c: int) {
    && 0 < task < PAGES && DirOwned(a', m', c) && OpenChunk(m', c) && task !in OwnedFrames(m', c)
    && Acquired(a, m, a', m', OwnedFrames(m', c) + iset{task})
  }

  /** task_new, but for the list. If its kzalloc finds no room, the task that was not made is freed through the
      null pointer; if one of paging_new's finds none, that one is written through. `fault` tells so. */
  method TaskNew(h: BlockHeap, mem: array<Frame>, ghost s: Start) returns (task: int, c: int, fault: bool)
    requires HeapOk(h) && Gained(s, h.base, h.Table(), Live(h), mem[..], 4)
    requires |s.requests| == 5 && s.requests[4] == BlocksFor(TASK_RECORD)
    modifies h.entries, mem
    ensures fault <==> s.granted == 4 || FreeBlocks(s.tables[5]) < CHUNK_PAGES
    ensures !fault ==> HeapOk(h) && task == h.base + s.blocks[4]
                       && NewTask(old(Live(h)), old(mem[..]), Live(h), mem[..], task, c)
                       && FlatMap(mem[..], c) == IdentityMap(TASK_FLAGS)
  {
    ghost var a, m := Live(h), mem[..];
    c := 0;
    task := Acquire(h, mem, TASK_RECORD, s, 4);
    if task == 0 {
      return 0, 0, true;
    }
    ghost var t1, a1, m1 := h.Table(), Live(h), mem[..];
    c := NewIdentity(h, mem);
    if c == 0 {
      return task, 0, true;
    }
    IsNewTask(s, h.base, a, m, t1, a1, m1, Live(h), mem[..], task, c);
    return task, c, false;
  }

  lemma IsNewTask(s: Start, base: int, a: Allocs, m: Ram, t1: Table, a1: Allocs, m1: Ram, a2: Allocs, m2: Ram,
                  task: int, c: int)
    requires MovedOn(s, base, a, m, 4, t1, a1, m1, task)
    requires DirOwned(a2, m2, c) && OpenChunk(m2, c) && Acquired(a1, m1, a2, m2, OwnedFrames(m2, c))
    ensures NewTask(a, m, a2, m2, task, c)
  {
    assert Held(s, base, a1, 4);
    AcquiredInTwo(a, m, a1, m1, iset{task}, a2, m2, OwnedFrames(m2, c));
  }

  // ---- the whole load ----

  /** The address space of a new process: the identity, with the segments and the stack mapped. */
  ghost function AddressSpace(elfMemory: int, phdrs: seq<ElfMapping.Phdr>, stack: int): (flat: seq<u32>)
    requires 0 < elfMemory < PAGES && 0 < stack < PAGES
    ensures |flat| == PAGES
  {
    FlatAfterAll(IdentityMap(TASK_FLAGS), ElfMapping.LoadCalls(elfMemory * PAGE_SIZE, phdrs, stack * PAGE_SIZE))
  }

  predicate SegmentsAccepted(elfMemory: int, phdrs: seq<ElfMapping.Phdr>)
    requires 0 < elfMemory < PAGES
  {
    ElfMapping.AllAccepted(ElfMapping.SegmentCalls(elfMemory * PAGE_SIZE, phdrs))
  }

  /** process_map_memory for a new process: accepted or not, only its own tables are written. */
  method MapProcess(mem: array<Frame>, c: int, elfMemory: int, phdrs: seq<ElfMapping.Phdr>, stack: int,
                    ghost a: Allocs, ghost m: Ram, ghost a': Allocs, ghost task: int)
    returns (res: int)
    requires NewTask(a, m, a', mem[..], task, c) && FlatMap(mem[..], c) == IdentityMap(TASK_FLAGS)
    requires 0 < elfMemory < PAGES && 0 < stack < PAGES
    modifies mem
    ensures res == if SegmentsAccepted(elfMemory, phdrs) then 0 else -EINVARG
    ensures NewTask(a, m, a', mem[..], task, c)
    ensures res == 0 ==> FlatMap(mem[..], c) == AddressSpace(elfMemory, phdrs, stack)
  {
    ghost var m1 := mem[..];
    res := ElfMapping.MapMemory(mem, c, elfMemory * PAGE_SIZE, phdrs, stack * PAGE_SIZE);
    MappingAcquired(a, m, a', m1, mem[..], OwnedFrames(m1, c) + iset{task}, c, FlatMap(mem[..], c));
  }

  /** Without the task and its page directory the allocations are what they were. */
  lemma TaskUndone(a: Allocs, m: Ram, a': Allocs, m': Ram, task: int, c: int)
    requires NewTask(a, m, a', m', task, c)
    ensures Without(a', OwnedFrames(m', c) + iset{task}) == a
  {
    var got := OwnedFrames(m', c) + iset{task};
    forall f ensures f in a' && f !in got <==> f in a {
    }
  }

  /** The loads in which the code goes on with a null pointer it has not checked: no room for the ELF record,
      the image, the task, or one of the 1026 pages of the page directory. */
  predicate FollowsNull(s: Start)
    requires s.Linked() && |s.requests| == 5
  {
    || s.granted in {1, 2, 4}
    || (s.granted == 5 && FreeBlocks(s.tables[5]) < CHUNK_PAGES)
  }

  /** The process is in order, built from the pages its requests got and from pages for its page directory,
      all of which nobody held; its image holds the file. */
  ghost predicate LoadedFrom(s: Start, base: int, a: Allocs, m: Ram, p: Proc, image: seq<Frame>)
    requires s.Linked() && |s.requests| == 5
  {
    && Loaded(s.allocs, s.ram, a, m, p) && ProcOk(a, m, p) && p.filetype.Elf? && AtPages(s, base, p)
    && ImageRead(s, base, m, image)
    && Acquired(s.allocs, s.ram, a, m, PagesOf(s, base, 5) + OwnedFrames(m, p.chunk))
    && SizedAs(a, p.elfMemory, |image|) && SizedAs(a, p.stack, ElfMapping.STACK_SIZE / PAGE_SIZE)
    && RecordApart(a, m, p, base + s.blocks[0], s.requests[0])
  }

  /** The process record is an allocation of n pages that the process does not hold. */
  ghost predicate RecordApart(a: Allocs, m: Ram, p: Proc, record: int, n: nat) {
    SizedAs(a, record, n) && record !in Fixed(p) && ChunkOk(m, p.chunk) && record !in OwnedFrames(m, p.chunk)
  }

  ghost predicate AtPages(s: Start, base: int, p: Proc)
    requires s.Linked() && |s.requests| == 5
  {
    && p.program == base + s.blocks[1] && p.elfMemory == base + s.blocks[2]
    && p.stack == base + s.blocks[3] && p.task == base + s.blocks[4]
  }

  /** The allocation at page p has n pages, inside memory. */
  ghost predicate SizedAs(a: Allocs, p: int, n: nat) {
    0 < p && p + n < PAGES && p in a && a[p] == n
  }

  /** process_load_for_slot up to the task: `res` is negative when the process record or the stack finds no
      room, and what was granted before the stack then stays allocated. */
  method LoadPages(h: BlockHeap, mem: array<Frame>, fileSize: u32, image: seq<Frame>, ghost s: Start)
    returns (res: int, program: int, elfMemory: int, stack: int, fault: bool)
    requires HeapOk(h) && IsRam(mem[..]) && Begins(s, fileSize) && |image| == BlocksFor(fileSize)
    requires s.tables[0] == h.Table() && s.allocs == Live(h) && s.ram == mem[..]
    modifies h.entries, mem
    ensures fault <==> s.granted in {1, 2}
    ensures !fault ==> HeapOk(h) && res == if s.granted >= 4 then 0 else -ENOMEM
    ensures !fault && res < 0 ==> h.Table() == s.tables[s.granted] && Alongside(s.allocs, s.ram, Live(h), mem[..])
    ensures !fault && res == 0 ==>
              && Gained(s, h.base, h.Table(), Live(h), mem[..], 4) && ImageRead(s, h.base, mem[..], image)
              && program == h.base + s.blocks[1] && elfMemory == h.base + s.blocks[2] && stack == h.base + s.blocks[3]
  {
    program, elfMemory, stack, fault := 0, 0, 0, false;
    NothingGained(h, mem, s);
    var record := Acquire(h, mem, PROCESS_RECORD, s, 0);
    if record == 0 {
      res := -ENOMEM;
      return;
    }
    program, elfMemory, fault := ElfLoad(h, mem, fileSize, image, s);
    if fault {
      res := 0;
      return;
    }
    stack := AcquireStack(h, mem, image, s);
    res := if stack == 0 then -ENOMEM else 0;
  }

  method AcquireStack(h: BlockHeap, mem: array<Frame>, ghost image: seq<Frame>, ghost s: Start) returns (stack: int)
    requires HeapOk(h) && Gained(s, h.base, h.Table(), Live(h), mem[..], 3) && ImageRead(s, h.base, mem[..], image)
    requires |s.requests| == 5 && s.requests[3] == BlocksFor(ElfMapping.STACK_SIZE) && |image| == s.requests[2]
    modifies h.entries, mem
    ensures HeapOk(h)
    ensures stack == 0 <==> s.granted == 3
    ensures stack == 0 ==> Gained(s, h.base, h.Table(), Live(h), mem[..], 3)
    ensures stack != 0 ==>
              && Gained(s, h.base, h.Table(), Live(h), mem[..], 4) && ImageRead(s, h.base, mem[..], image)
              && stack == h.base + s.blocks[3]
  {
    ghost var t, a, m := h.Table(), Live(h), mem[..];
    stack := Acquire(h, mem, ElfMapping.STACK_SIZE, s, 3);
    if stack != 0 {
      ImageStaysRead(s, h.base, t, a, m, h.Table(), Live(h), mem[..], stack, image);
    }
  }

  lemma ImageStaysRead(s: Start, base: int, t: Table, a: Allocs, m: Ram, t': Table, a': Allocs, m': Ram, stack: int,
                       image: seq<Frame>)
    requires Gained(s, base, t, a, m, 3) && |image| == s.requests[2] && ImageRead(s, base, m, image)
    requires MovedOn(s, base, a, m, 3, t', a', m', stack)
    ensures ImageRead(s, base, m', image)
  {
    assert Held(s, base, a, 2);
    ImageStays(a, m, a', m', iset{stack}, base + s.blocks[2], image);
  }

  /** The process in this slot is the one that was loaded, and its address space is as the headers say. */
  ghost predicate IsLoaded(h: BlockHeap, mem: array<Frame>, id: nat, phdrs: seq<ElfMapping.Phdr>, image: seq<Frame>,
                           s: Start, process: Process)
    requires s.Linked() && |s.requests| == 5
    reads h.entries, mem, process.allocations
  {
    && HeapOk(h) && process.id == id && LoadedFrom(s, h.base, Live(h), mem[..], process.Val(), image)
    && FlatMap(mem[..], process.chunk) == AddressSpace(process.elfMemory, phdrs, process.stack)
  }

  /** How a load ends. Either a null pointer is followed; or the process record or the stack finds no room, and
      what was granted stays allocated; or a segment is refused and the task is freed again; or the process is
      loaded. Unless a null pointer was followed, what the load took lies apart from what was allocated. */
  ghost predicate LoadEnded(h: BlockHeap, mem: array<Frame>, id: nat, phdrs: seq<ElfMapping.Phdr>, image: seq<Frame>,
                            s: Start, res: int, process: Process?, fault: bool)
    requires s.Linked() && |s.requests| == 5
    reads h.entries, mem, if process == null then {} else {process.allocations}
  {
    && (fault <==> FollowsNull(s))
    && (!fault ==> HeapOk(h) && Alongside(s.allocs, s.ram, Live(h), mem[..]))
    && (!fault && s.granted < 5 ==> res == -ENOMEM && h.Table() == s.tables[s.granted])
    && (!fault && s.granted == 5 ==> MappingDecides(h.base + s.blocks[2], phdrs, res))
    && (!fault && res == -EINVARG ==> h.Table() == s.tables[4])
    && (process != null <==> !fault && res == 0)
    && (process != null ==> IsLoaded(h, mem, id, phdrs, image, s, process))
  }

  predicate MappingDecides(elfMemory: int, phdrs: seq<ElfMapping.Phdr>, res: int) {
    0 < elfMemory < PAGES && res == if SegmentsAccepted(elfMemory, phdrs) then 0 else -EINVARG
  }

  /** process_load_for_slot of an ELF file whose headers have been read. */
  method LoadForSlot(h: BlockHeap, mem: array<Frame>, id: nat, fileSize: u32, image: seq<Frame>,
                     phdrs: seq<ElfMapping.Phdr>, ghost s: Start)
    returns (res: int, process: Process?, fault: bool)
    requires HeapOk(h) && IsRam(mem[..]) && Begins(s, fileSize) && |image| == BlocksFor(fileSize)
    requires s.tables[0] == h.Table() && s.allocs == Live(h) && s.ram == mem[..]
    modifies h.entries, mem
    ensures LoadEnded(h, mem, id, phdrs, image, s, res, process, fault)
    ensures process != null ==> fresh(process)
  {
    var program, elfMemory, stack;
    res, program, elfMemory, stack, fault := LoadPages(h, mem, fileSize, image, s);
    if fault || res < 0 {
      process := null;
      EndedEarly(h, mem, id, phdrs, image, s, res, fault);
      return;
    }
    res, process, fault := StartTask(h, mem, id, program, elfMemory, stack, phdrs, image, s);
  }

  lemma EndedEarly(h: BlockHeap, mem: array<Frame>, id: nat, phdrs: seq<ElfMapping.Phdr>, image: seq<Frame>, s: Start,
                   res: int, fault: bool)
    requires s.Linked() && |s.requests| == 5 && (fault <==> s.granted in {1, 2}) && s.granted < 4
    requires !fault ==> HeapOk(h) && Alongside(s.allocs, s.ram, Live(h), mem[..])
    requires !fault ==> res == -ENOMEM && h.Table() == s.tables[s.granted]
    ensures LoadEnded(h, mem, id, phdrs, image, s, res, null, fault)
  {
  }

  /** The rest of process_load_for_slot, from task_new on. */
  method StartTask(h: BlockHeap, mem: array<Frame>, id: nat, program: int, elfMemory: int, stack: int,
                   phdrs: seq<ElfMapping.Phdr>, ghost image: seq<Frame>, ghost s: Start)
    returns (res: int, process: Process?, fault: bool)
    requires HeapOk(h) && Gained(s, h.base, h.Table(), Live(h), mem[..], 4) && ImageRead(s, h.base, mem[..], image)
    requires |s.requests| == 5 && |image| == s.requests[2] && s.requests[3] == BlocksFor(ElfMapping.STACK_SIZE)
    requires s.requests[4] == BlocksFor(TASK_RECORD)
    requires program == h.base + s.blocks[1] && elfMemory == h.base + s.blocks[2] && stack == h.base + s.blocks[3]
    modifies h.entries, mem
    ensures LoadEnded(h, mem, id, phdrs, image, s, res, process, fault)
    ensures process != null ==> fresh(process)
  {
    ghost var a, m, t := Live(h), mem[..], h.Table();
    var task, c;
    task, c, fault := TaskNew(h, mem, s);
    if fault {
      return 0, null, true;
    }
    res, process := MapOrUndo(h, mem, id, program, elfMemory, stack, task, c, phdrs, image, s, t, a, m);
  }

  method MapOrUndo(h: BlockHeap, mem: array<Frame>, id: nat, program: int, elfMemory: int, stack: int, task: int,
                   c: int, phdrs: seq<ElfMapping.Phdr>, ghost image: seq<Frame>, ghost s: Start, ghost t: Table,
                   ghost a: Allocs, ghost m: Ram)
    returns (res: int, process: Process?)
    requires |s.requests| == 5 && Gained(s, h.base, t, a, m, 4) && ImageRead(s, h.base, m, image)
    requires s.granted == 5 && FreeBlocks(s.tables[5]) >= CHUNK_PAGES
    requires s.requests[3] == BlocksFor(ElfMapping.STACK_SIZE)
    requires |image| == s.requests[2] && WellFormed(t) && |t| == h.entries.Length && a == ByPage(h.base, LiveRuns(t))
    requires program == h.base + s.blocks[1] && elfMemory == h.base + s.blocks[2]
    requires stack == h.base + s.blocks[3] && task == h.base + s.blocks[4]
    requires HeapOk(h) && NewTask(a, m, Live(h), mem[..], task, c)
    requires FlatMap(mem[..], c) == IdentityMap(TASK_FLAGS)
    modifies h.entries, mem
    ensures LoadEnded(h, mem, id, phdrs, image, s, res, process, false)
    ensures process != null ==> fresh(process)
  {
    PagesInRange(s, h.base, t, a, m);
    process := new Process(id, Elf, program, elfMemory, stack, task, c);
    res := MapProcess(mem, c, elfMemory, phdrs, stack, a, m, Live(h), task);
    if res < 0 {
      Undo(h, mem, process, t, a, m);
      EndedUndone(h, mem, id, phdrs, image, s, t, a, m, res);
      process := null;
      return;
    }
    NowLoaded(s, h.base, t, a, m, Live(h), mem[..], process.Val(), image);
    EndedLoaded(h, mem, id, phdrs, image, s, process);
  }

  lemma PagesInRange(s: Start, base: int, t: Table, a: Allocs, m: Ram)
    requires |s.requests| == 5 && Gained(s, base, t, a, m, 4)
    ensures 0 < base + s.blocks[2] < PAGES && 0 < base + s.blocks[3] < PAGES
  {
    assert Held(s, base, a, 2) && Held(s, base, a, 3);
  }

  lemma EndedLoaded(h: BlockHeap, mem: array<Frame>, id: nat, phdrs: seq<ElfMapping.Phdr>, image: seq<Frame>, s: Start,
                    process: Process)
    requires s.Linked() && |s.requests| == 5 && s.granted == 5 && FreeBlocks(s.tables[5]) >= CHUNK_PAGES
    requires IsLoaded(h, mem, id, phdrs, image, s, process) && SegmentsAccepted(process.elfMemory, phdrs)
    ensures LoadEnded(h, mem, id, phdrs, image, s, 0, process, false)
  {
  }

  lemma EndedUndone(h: BlockHeap, mem: array<Frame>, id: nat, phdrs: seq<ElfMapping.Phdr>, image: seq<Frame>, s: Start,
                    t: Table, a: Allocs, m: Ram, res: int)
    requires |s.requests| == 5 && s.granted == 5 && Gained(s, h.base, t, a, m, 4)
    requires FreeBlocks(s.tables[5]) >= CHUNK_PAGES && MappingDecides(h.base + s.blocks[2], phdrs, res) && res < 0
    requires HeapOk(h) && h.Table() == t && Live(h) == a && OnlyFreeWritten(a, m, mem[..])
    ensures LoadEnded(h, mem, id, phdrs, image, s, res, null, false)
  {
    AcquiredInTwo(s.allocs, s.ram, a, m, PagesOf(s, h.base, 4), a, mem[..], iset{});
  }

  /** The error exit, task_free: the heap is as it was before task_new. */
  method Undo(h: BlockHeap, mem: array<Frame>, process: Process, ghost t: Table, ghost a: Allocs, ghost m: Ram)
    requires HeapOk(h) && NewTask(a, m, Live(h), mem[..], process.task, process.chunk)
    requires WellFormed(t) && |t| == h.entries.Length && a == ByPage(h.base, LiveRuns(t)) && Disjoint(a)
    modifies h.entries
    ensures HeapOk(h) && h.Table() == t && OnlyFreeWritten(a, m, mem[..])
  {
    TaskUndone(a, m, Live(h), mem[..], process.task, process.chunk);
    process.TaskFree(h, mem);
    LiveDeterminesTable(h.base, h.Table(), t);
  }

  ghost predicate OnlyFreeWritten(a: Allocs, m: Ram, m': Ram) {
    Alongside(a, m, a, m')
  }

  lemma NothingGained(h: BlockHeap, mem: array<Frame>, s: Start)
    requires HeapOk(h) && IsRam(mem[..]) && s.Safe()
    requires s.tables[0] == h.Table() && s.allocs == Live(h) && s.ram == mem[..]
    ensures Gained(s, h.base, h.Table(), Live(h), mem[..], 0)
  {
    LiveIsDisjoint(h);
  }

  /** What the requests and paging_new got is what a new process holds. */
  lemma NowLoaded(s: Start, base: int, t: Table, a: Allocs, m: Ram, a': Allocs, m': Ram, p: Proc, image: seq<Frame>)
    requires s.Linked() && |s.requests| == 5 && Gained(s, base, t, a, m, 4) && ImageRead(s, base, m, image)
    requires |image| == s.requests[2] && s.requests[3] == BlocksFor(ElfMapping.STACK_SIZE)
    requires NewTask(a, m, a', m', p.task, p.chunk)
    requires p.filetype.Elf? && AtPages(s, base, p) && NoneRecorded(p.slots)
    ensures LoadedFrom(s, base, a', m', p, image)
  {
    var got, own := PagesOf(s, base, 4), OwnedFrames(m', p.chunk);
    AcquiredInTwo(s.allocs, s.ram, a, m, got, a', m', own + iset{p.task});
    NowSized(s, base, t, a, m, a', m', p, image);
    OnePageMore(s, base, 4, p.task);
    assert got + (own + iset{p.task}) == PagesOf(s, base, 5) + own;
    PagesApart(s, base, t, a, m, p);
    RecordIsApart(s, base, t, a, m, a', m', p);
    FixedAcquired(s.allocs, s.ram, a', m', p, got);
    LoadedIsOk(s.allocs, s.ram, a', m', p);
  }

  lemma NowSized(s: Start, base: int, t: Table, a: Allocs, m: Ram, a': Allocs, m': Ram, p: Proc, image: seq<Frame>)
    requires s.Linked() && |s.requests| == 5 && Gained(s, base, t, a, m, 4) && ImageRead(s, base, m, image)
    requires |image| == s.requests[2] && s.requests[3] == BlocksFor(ElfMapping.STACK_SIZE)
    requires NewTask(a, m, a', m', p.task, p.chunk) && AtPages(s, base, p)
    ensures ImageRead(s, base, m', image)
    ensures SizedAs(a', p.elfMemory, |image|) && SizedAs(a', p.stack, ElfMapping.STACK_SIZE / PAGE_SIZE)
  {
    assert Held(s, base, a, 2) && Held(s, base, a, 3);
    StillSized(a, m, a', m', p.elfMemory, |image|);
    StillSized(a, m, a', m', p.stack, ElfMapping.STACK_SIZE / PAGE_SIZE);
    ImageStays(a, m, a', m', OwnedFrames(m', p.chunk) + iset{p.task}, p.elfMemory, image);
  }

  lemma StillSized(a: Allocs, m: Ram, a': Allocs, m': Ram, p: int, n: nat)
    requires SizedAs(a, p, n) && Alongside(a, m, a', m')
    ensures SizedAs(a', p, n)
  {
  }

  lemma RecordIsApart(s: Start, base: int, t: Table, a: Allocs, m: Ram, a': Allocs, m': Ram, p: Proc)
    requires s.Linked() && |s.requests| == 5 && Gained(s, base, t, a, m, 4) && AtPages(s, base, p)
    requires p.filetype.Elf? && NewTask(a, m, a', m', p.task, p.chunk)
    ensures RecordApart(a', m', p, base + s.blocks[0], s.requests[0])
  {
    var record := base + s.blocks[0];
    assert Held(s, base, a, 0);
    StillSized(a, m, a', m', record, s.requests[0]);
    assert Differ(s, 0, 1) && Differ(s, 0, 2) && Differ(s, 0, 3);
    assert record in a;
  }

  lemma PagesApart(s: Start, base: int, t: Table, a: Allocs, m: Ram, p: Proc)
    requires s.Linked() && |s.requests| == 5 && Gained(s, base, t, a, m, 4) && AtPages(s, base, p)
    ensures var got := PagesOf(s, base, 4); p.program in got && p.elfMemory in got && p.stack in got
    ensures p.program != p.elfMemory && p.program != p.stack && p.elfMemory != p.stack
  {
    assert IsPage(s, base, 4, p.program) && IsPage(s, base, 4, p.elfMemory) && IsPage(s, base, 4, p.stack);
    assert Differ(s, 1, 2) && Differ(s, 1, 3) && Differ(s, 2, 3);
  }

  lemma FixedAcquired(a: Allocs, m: Ram, a': Allocs, m': Ram, p: Proc, got: iset<int>)
    requires p.filetype.Elf? && NoneRecorded(p.slots) && DirOwned(a', m', p.chunk) && OpenChunk(m', p.chunk)
    requires p.program in got && p.elfMemory in got && p.stack in got && got !! OwnedFrames(m', p.chunk) + iset{p.task}
    requires p.program != p.elfMemory && p.program != p.stack && p.elfMemory != p.stack
    requires p.task !in OwnedFrames(m', p.chunk)
    requires Acquired(a, m, a', m', got + (OwnedFrames(m', p.chunk) + iset{p.task}))
    ensures Loaded(a, m, a', m', p)
  {
    var all := got + (OwnedFrames(m', p.chunk) + iset{p.task});
    assert forall f :: f in Fixed(p) || f in OwnedFrames(m', p.chunk) ==> f in all;
  }

  lemma FirstFitIs(t: Table, n: nat, b: nat)
    requires Fits(t, b, n) && forall r :: 0 <= r < b ==> !IsFree(t[r])
    ensures HasFit(t, n) && Place(t, n) == Placed(b, Marked(t, b, n))
  {
    forall r | 0 <= r < b ensures !Fits(t, r, n) {
      assert !IsFree(t[r]);
    }
  }

  /** Eight free blocks, then one taken, and the tables after the records of the process and of the file. */
  const EIGHT_FREE: Table := [0, 0, 0, 0, 0, 0, 0, 0, 0x41]
  const FIVE_FREE: Table := [0xC1, 0x81, 0x01, 0, 0, 0, 0, 0, 0x41]
  const FOUR_FREE: Table := [0xC1, 0x81, 0x01, 0x41, 0, 0, 0, 0, 0x41]

  lemma RecordsGranted()
    ensures HasFit(EIGHT_FREE, 3) && Place(EIGHT_FREE, 3) == Placed(0, FIVE_FREE)
    ensures HasFit(FIVE_FREE, 1) && Place(FIVE_FREE, 1) == Placed(3, FOUR_FREE)
  {
    FirstFitIs(EIGHT_FREE, 3, 0);
    FirstFitIs(FIVE_FREE, 1, 3);
    assert Marked(EIGHT_FREE, 0, 3) == FIVE_FREE && Marked(FIVE_FREE, 3, 1) == FOUR_FREE;
  }

  lemma ImageRefused()
    ensures !HasFit(FOUR_FREE, 5) && SafeRequest(FOUR_FREE, 5) && HasFit(FOUR_FREE, 4)
  {
    assert Fits(FOUR_FREE, 4, 4);
    assert !IsFree(FOUR_FREE[3]) && !IsFree(FOUR_FREE[8]);
  }

  lemma ExampleEncodes()
    ensures Encodes(EIGHT_FREE, map[8 := 1])
  {
    assert InRun(map[8 := 1], 8, 8);
  }

  /** The records of the process and of the file are granted, a file of five blocks finds no room in the four
      that are left, and yet the stack would: the code goes on, and reads the file to address 0. */
  lemma NullImageExample(s: Start)
    requires s.Linked() && s.requests == LoaderRequests(20480) && s.tables[0] == EIGHT_FREE
    ensures Encodes(EIGHT_FREE, map[8 := 1]) && Begins(s, 20480)
    ensures s.granted == 2 && FollowsNull(s) && HasFit(s.tables[2], s.requests[3])
  {
    ExampleEncodes();
    RecordsGranted();
    ImageRefused();
    ExampleRequests();
    TwoGranted(s, 0, FIVE_FREE, 3, FOUR_FREE);
  }

  lemma ExampleRequests()
    ensures LoaderRequests(20480) == [3, 1, 5, 4, 1]
  {
  }

  lemma TwoGranted(s: Start, b0: nat, t1: Table, b1: nat, t2: Table)
    requires s.Linked() && |s.requests| == 5
    requires HasFit(s.tables[0], s.requests[0]) && Place(s.tables[0], s.requests[0]) == Placed(b0, t1)
    requires HasFit(t1, s.requests[1]) && Place(t1, s.requests[1]) == Placed(b1, t2)
    requires !HasFit(t2, s.requests[2]) && SafeRequest(t2, s.requests[2])
    ensures s.granted == 2 && s.tables[2] == t2 && s.Safe()
  {
    assert s.LinkedAt(0) && s.LinkedAt(1);
    assert s.HasRoom(0) && s.HasRoom(1) && !s.HasRoom(2);
  }

  /** What the loaded program finds at byte k of a congruent segment, on a page that no later mapping
      touches, is byte p_offset + k of its file: same frame of the image, same place in it. */
  lemma ProgramSeesFile(m: Ram, elfMemory: int, stack: int, image: seq<Frame>, phdrs: seq<ElfMapping.Phdr>, i: nat,
                        k: nat)
    requires HoldsImage(m, elfMemory, image) && elfMemory < PAGES && 0 < stack < PAGES
    requires i < |phdrs| && k < phdrs[i].memsz && phdrs[i].offset + k < |image| * PAGE_SIZE
    requires ElfMapping.Congruent(elfMemory * PAGE_SIZE, phdrs[i])
    requires var (calls, page) := (ElfMapping.LoadCalls(elfMemory * PAGE_SIZE, phdrs, stack * PAGE_SIZE),
                                   ElfMapping.PageOfByte(phdrs[i], k));
             CoversPage(calls[i], page) && forall j :: i < j < |calls| ==> !CoversPage(calls[j], page)
    ensures var (phys, byte) :=
              (Translate(AddressSpace(elfMemory, phdrs, stack), Wrap(phdrs[i].vaddr + k)), phdrs[i].offset + k);
            && phys == elfMemory * PAGE_SIZE + byte
            && m[phys / PAGE_SIZE] == image[byte / PAGE_SIZE] && phys % PAGE_SIZE == byte % PAGE_SIZE
  {
    ElfMapping.SegmentTranslates(IdentityMap(TASK_FLAGS), elfMemory * PAGE_SIZE, phdrs, stack * PAGE_SIZE, i, k);
    InsideImage(elfMemory, phdrs[i].offset + k, |image|);
  }

  lemma InsideImage(page: int, byte: nat, n: nat)
    requires 0 < page && page + n < PAGES && byte < n * PAGE_SIZE
    ensures Wrap(page * PAGE_SIZE + byte) == page * PAGE_SIZE + byte
    ensures (page * PAGE_SIZE + byte) / PAGE_SIZE == page + byte / PAGE_SIZE && byte / PAGE_SIZE < n
    ensures (page * PAGE_SIZE + byte) % PAGE_SIZE == byte % PAGE_SIZE
  {
  }
}
