/** copy_string_from_task: borrowing one page of a task's address space to read its memory. */
module TaskPages {
  import opened Words
  import opened HeapTable
  import opened Heap
  import opened Paging
  import opened KernelMemory
  import opened PageDirectories
  import opened ProcessSpace
  import opened Bytes
  import opened UserText

  /** A directory frame and the map it stands for determine every word of its tables. */
  lemma FlatDeterminesTables(m: Ram, m': Ram, d: int)
    requires DirOk(m, d) && IsRam(m') && m'[d] == m[d] && FlatOf(m', d) == FlatOf(m, d)
    ensures forall f :: f in TableFrames(m, d) ==> m'[f] == m[f]
  {
    SameTables(m, m', d);
    forall f | f in TableFrames(m, d) ensures m'[f] == m[f] {
      var i :| 0 <= i < ENTRIES && TableFrame(m, d, i) == f;
      forall k | 0 <= k < ENTRIES ensures m'[f][k] == m[f][k] {
        var page := i * ENTRIES + k;
        assert page / ENTRIES == i && page % ENTRIES == k;
        assert FlatOf(m', d)[page] == FlatOf(m, d)[page];
        assert EntryOf(m', d, page) == EntryOf(m, d, page);
      }
    }
  }

  /** The borrowed page mapped, and the user's string copied to it while the task's tables are loaded. */
  method MapAndCopy(mem: array<Frame>, c: int, tmp: u32, ghost p: int, virt: u32, n: nat)
    returns (oldEntry: u32, fault: bool, ghost m1: Ram)
    requires ChunkOk(mem[..], c) && tmp == p * PAGE_SIZE && 0 < p < PAGES && n < PAGE_SIZE
    requires p != c && p != DirFrame(mem[..], c) && p !in Tables(mem[..], c)
    modifies mem
    ensures oldEntry == old(FlatMap(mem[..], c))[p]
    ensures Remapped(old(mem[..]), m1, c, old(FlatMap(mem[..], c))[p := OrWord(tmp, USER_RW)])
    ensures SameChunk(m1, mem[..], c, FlatMap(m1, c)) && AgreeOutside(m1, mem[..], iset{p})
    ensures CopyEnded(m1, mem[..], FlatMap(m1, c), virt, n, p, fault)
  {
    assert tmp / PAGE_SIZE == p;
    ghost var m := mem[..];
    oldEntry := MapBorrowed(mem, c, tmp, p);
    m1 := mem[..];
    assert Tables(m1, c) == Tables(m, c) && m1[c] == m[c];
    fault := CopyThrough(mem, c, mem[c][0] / PAGE_SIZE, virt, tmp / PAGE_SIZE, n);
  }

  method MapBorrowed(mem: array<Frame>, c: int, tmp: u32, ghost p: int) returns (oldEntry: u32)
    requires ChunkOk(mem[..], c) && tmp == p * PAGE_SIZE && 0 < p < PAGES
    modifies mem
    ensures oldEntry == old(FlatMap(mem[..], c))[p]
    ensures Remapped(old(mem[..]), mem[..], c, old(FlatMap(mem[..], c))[p := OrWord(tmp, USER_RW)])
  {
    assert tmp / PAGE_SIZE == p && IsAligned(tmp);
    oldEntry := Get(mem, mem[c][0] / PAGE_SIZE, tmp);
    var status := Map(mem, c, tmp, tmp, USER_RW);
  }

  method PutBack(mem: array<Frame>, c: int, tmp: u32, ghost p: int, oldEntry: u32) returns (res: int)
    requires ChunkOk(mem[..], c) && tmp == p * PAGE_SIZE && 0 < p < PAGES
    modifies mem
    ensures res == 0 && Remapped(old(mem[..]), mem[..], c, old(FlatMap(mem[..], c))[p := oldEntry])
  {
    ghost var m := mem[..];
    SetRemaps(m, c, p, oldEntry);
    assert tmp / PAGE_SIZE == p && IsAligned(tmp);
    res := Set(mem, mem[c][0] / PAGE_SIZE, tmp, oldEntry);
    assert mem[..] == WithEntry(m, DirFrame(m, c), p, oldEntry);
  }

  /** And the old entry put back. `fault` tells that a page was not present; then the entry stays as it is. m0 is
      memory before the page was cleared. */
  method BorrowPage(mem: array<Frame>, c: int, tmp: u32, ghost p: int, virt: u32, n: nat, ghost a: Allocs,
                    ghost m0: Ram)
    returns (res: int, fault: bool)
    requires ChunkOk(m0, c) && PageTaken(a, m0, mem[..], c, p) && tmp == p * PAGE_SIZE && n < PAGE_SIZE
    modifies mem
    ensures PageBorrowed(a, m0, mem[..], c, virt, n, p, res, fault)
  {
    ghost var m, flat := mem[..], FlatMap(m0, c);
    var oldEntry;
    ghost var m1;
    oldEntry, fault, m1 := MapAndCopy(mem, c, tmp, p, virt, n);
    ghost var m2 := mem[..];
    ThroughIsBorrowed(m0, m, m1, m2, c, flat, OrWord(tmp, USER_RW), virt, n, p, fault);
    if fault {
      return 0, true;
    }
    res := PutBack(mem, c, tmp, p, oldEntry);
    RestoredEntry(m, m1, m2, mem[..], c, p, OrWord(tmp, USER_RW), oldEntry);
    RestoredFrom(a, m0, m, mem[..], c, p);
    BorrowedText(m0, m2, mem[..], c, flat, virt, n, p, fault);
    if res < 0 {
      res := -EIO;
    }
  }

  /** What frame p receives, unless the string touches the borrowed page or the task's own page tables: the text
      at `virt` as the task sees it, or a fault at a page that is not present. */
  ghost predicate TextBorrowed(m: Ram, m': Ram, c: int, flat: seq<u32>, virt: u32, n: nat, p: int, fault: bool)
    requires ChunkOk(m, c) && IsRam(m') && |flat| == PAGES && 0 <= p < PAGES && n < PAGE_SIZE
  {
    Avoids(m, flat, virt, n, p, iset{p} + Tables(m, c)) ==>
      var k := TextEnd(m, flat, virt, n);
      (fault <==> FaultsAt(flat, virt, n, k)) && (!fault ==> HoldsText(m'[p], m, flat, virt, k))
  }

  /** How borrowing a page ends. */
  ghost predicate PageBorrowed(a: Allocs, m: Ram, m': Ram, c: int, virt: u32, n: nat, p: int, res: int, fault: bool)
    requires ChunkOk(m, c) && IsRam(m') && 0 <= p < PAGES && n < PAGE_SIZE
  {
    TextBorrowed(m, m', c, FlatMap(m, c), virt, n, p, fault) && (!fault ==> res == 0 && Restored(a, m, m', c))
  }

  /** The copy runs on the tables with the borrowed page cleared and mapped; what it reads is what the task sees. */
  lemma ThroughIsBorrowed(m0: Ram, m: Ram, m1: Ram, m2: Ram, c: int, flat: seq<u32>, e: u32, virt: u32, n: nat,
                          p: int, fault: bool)
    requires ChunkOk(m0, c) && ChunkOk(m, c) && flat == FlatMap(m, c) && 0 <= p < PAGES && n < PAGE_SIZE
    requires AgreeOutside(m0, m, iset{p}) && Tables(m, c) == Tables(m0, c)
    requires Remapped(m, m1, c, flat[p := e]) && IsRam(m2) && CopyEnded(m1, m2, flat[p := e], virt, n, p, fault)
    ensures TextBorrowed(m0, m2, c, flat, virt, n, p, fault)
  {
    var frames, k := iset{p} + Tables(m0, c), TextEnd(m0, flat, virt, n);
    if Avoids(m0, flat, virt, n, p, frames) {
      SameText(m0, m1, flat, e, virt, n, p, frames);
      FewerFrames(m1, flat[p := e], virt, n, p, frames);
      if !fault {
        SameHeld(m2[p], m0, m1, flat, flat[p := e], virt, k);
      }
    }
  }

  lemma FewerFrames(m: Ram, flat: seq<u32>, virt: u32, n: nat, p: int, frames: iset<int>)
    requires IsRam(m) && |flat| == PAGES && p in frames && Avoids(m, flat, virt, n, p, frames)
    ensures Avoids(m, flat, virt, n, p, iset{p})
  {
    forall j | 0 <= j <= TextEnd(m, flat, virt, n) && j < n ensures !Touches(flat, virt, j, p, iset{p}) {
      assert !Touches(flat, virt, j, p, frames);
    }
  }

  lemma SameHeld(f: Frame, m: Ram, m1: Ram, flat: seq<u32>, flat1: seq<u32>, virt: u32, k: nat)
    requires IsRam(m) && IsRam(m1) && |flat| == |flat1| == PAGES && k < PAGE_SIZE
    requires forall j :: 0 <= j < k ==> NthByte(m1, flat1, virt, j) == NthByte(m, flat, virt, j)
    requires HoldsText(f, m1, flat1, virt, k)
    ensures HoldsText(f, m, flat, virt, k)
  {
  }

  /** Putting the entry back leaves the frame alone. */
  lemma BorrowedText(m: Ram, m2: Ram, m3: Ram, c: int, flat: seq<u32>, virt: u32, n: nat, p: int, fault: bool)
    requires ChunkOk(m, c) && IsRam(m2) && IsRam(m3) && |flat| == PAGES && 0 <= p < PAGES && n < PAGE_SIZE
    requires TextBorrowed(m, m2, c, flat, virt, n, p, fault) && m3[p] == m2[p]
    ensures TextBorrowed(m, m3, c, flat, virt, n, p, fault)
  {
  }

  lemma RestoredEntry(m: Ram, m1: Ram, m2: Ram, m3: Ram, c: int, p: int, val: u32, oldEntry: u32)
    requires ChunkOk(m, c) && 0 < p < PAGES && oldEntry == FlatMap(m, c)[p] && p !in Tables(m, c)
    requires Remapped(m, m1, c, FlatMap(m, c)[p := val])
    requires SameChunk(m1, m2, c, FlatMap(m1, c)) && AgreeOutside(m1, m2, iset{p})
    requires Remapped(m2, m3, c, FlatMap(m2, c)[p := oldEntry])
    ensures SameChunk(m, m3, c, FlatMap(m, c)) && AgreeOutside(m, m3, iset{p}) && m3[p] == m2[p]
  {
    assert FlatMap(m3, c) == FlatMap(m, c);
    FlatDeterminesTables(m, m3, DirFrame(m, c));
  }

  /** Page p, which was free, has been cleared; it is none of the directory's. */
  ghost predicate PageTaken(a: Allocs, m: Ram, m1: Ram, c: int, p: int)
    requires ChunkOk(m, c)
  {
    && Restored(a, m, m1, c) && AgreeOutside(m, m1, iset{p}) && p in FreeFrames(a)
    && 0 < p < PAGES && p != c && p != DirFrame(m1, c) && p !in Tables(m1, c)
  }

  predicate IsFull(t: Table) {
    FreeBlocks(t) == 0
  }

  /** The page to borrow. */
  method TakePage(h: BlockHeap, mem: array<Frame>, ghost c: int, max: int) returns (tmp: u32, ghost p: int)
    requires HeapOk(h) && DirOwned(Live(h), mem[..], c) && 1 <= max < PAGE_SIZE
    modifies h.entries, mem
    ensures tmp == p * PAGE_SIZE && 0 <= p < PAGES && HeapOk(h) && IsRam(mem[..])
    ensures tmp == 0 <==> IsFull(old(h.Table()))
    ensures tmp == 0 ==> mem[..] == old(mem[..]) && h.Table() == old(h.Table())
    ensures tmp != 0 ==>
              Borrowed(old(Live(h)), Live(h), p) && PageTaken(old(Live(h)), old(mem[..]), mem[..], c, p)
  {
    ghost var a, m := Live(h), mem[..];
    tmp, p := KzallocPage(h, mem, max);
    if tmp != 0 {
      BorrowedIsApart(a, m, Live(h), mem[..], p, c);
    }
  }

  /** copy_string_from_task up to the borrowed page: tmp is null when no block is free. */
  method Borrow(h: BlockHeap, mem: array<Frame>, c: int, virt: u32, max: int)
    returns (tmp: u32, res: int, fault: bool, ghost p: int)
    requires HeapOk(h) && DirOwned(Live(h), mem[..], c) && 1 <= max < PAGE_SIZE
    modifies h.entries, mem
    ensures tmp == p * PAGE_SIZE && 0 <= p < PAGES && HeapOk(h) && IsRam(mem[..])
    ensures tmp == 0 <==> IsFull(old(h.Table()))
    ensures tmp == 0 ==> !fault && mem[..] == old(mem[..]) && h.Table() == old(h.Table())
    ensures tmp != 0 ==> Borrowed(old(Live(h)), Live(h), p)
    ensures tmp != 0 ==> PageBorrowed(old(Live(h)), old(mem[..]), mem[..], c, virt, max - 1, p, res, fault)
  {
    hide TextBorrowed;
    ghost var a, m := Live(h), mem[..];
    res, fault := 0, false;
    tmp, p := TakePage(h, mem, c, max);
    if tmp != 0 {
      ghost var t := h.Table();
      res, fault := BorrowPage(mem, c, tmp, p, virt, max - 1, a, m);
      assert h.Table() == t;
    }
  }

  lemma RestoredFrom(a: Allocs, m: Ram, m1: Ram, m2: Ram, c: int, p: int)
    requires ChunkOk(m, c) && Restored(a, m, m1, c) && p in FreeFrames(a)
    requires SameChunk(m1, m2, c, FlatMap(m1, c)) && AgreeOutside(m1, m2, iset{p})
    ensures Restored(a, m, m2, c)
  {
  }

  /** Page p has been allocated in addition. */
  ghost predicate Borrowed(a: Allocs, a1: Allocs, p: int) {
    p in FreeFrames(a) && p in a1 && Without(a1, iset{p}) == a
  }

  /** The page tables are as they were, and only free frames have been written. */
  ghost predicate Restored(a: Allocs, m: Ram, m': Ram, c: int)
    requires ChunkOk(m, c)
  {
    SameChunk(m, m', c, FlatMap(m, c)) && AgreeOutside(m, m', FreeFrames(a))
  }

  /** Different memory. */
  ghost predicate BufferApart(h: BlockHeap, mem: array<Frame>, buffer: array<Byte>) {
    buffer as object != h.entries && buffer as object != mem
  }

  /** The kernel's buffer holds the first k bytes of the string and a terminator, and is otherwise as before. */
  ghost predicate Delivered(before: seq<Byte>, after: seq<Byte>, m: Ram, flat: seq<u32>, virt: u32, k: nat)
    requires IsRam(m) && |flat| == PAGES
  {
    && |after| == |before| && k < |after| && after[k] == 0
    && (forall j :: 0 <= j < k ==> after[j] == NthByte(m, flat, virt, j))
    && (forall j :: k < j < |after| ==> after[j] == before[j])
  }

  /** copy_string_from_task. The kernel's buffer receives the string at `virt` as the task's own page tables
      translate it, cut to max - 1 bytes, with its terminator, provided that no byte of it lies in the borrowed page,
      which was free, or in those tables; a page that is not present is a fault in the kernel. Without a
      fault the task's page tables end up word for word as they were, whatever the string is, and
      the heap table too. */
  method CopyStringFromTask(h: BlockHeap, mem: array<Frame>, c: int, virt: u32, buffer: array<Byte>, max: int)
    returns (res: int, fault: bool, ghost p: int)
    requires HeapOk(h) && DirOwned(Live(h), mem[..], c) && 1 <= max < 0x8000_0000 && max <= buffer.Length
    requires BufferApart(h, mem, buffer)
    modifies h.entries, mem, buffer
    ensures !fault ==> HeapOk(h) && h.Table() == old(h.Table()) && Restored(old(Live(h)), old(mem[..]), mem[..], c)
    ensures !fault ==> res == if max >= PAGE_SIZE then -EINVARG
                              else if FreeBlocks(old(h.Table())) == 0 then -ENOMEM else 0
    ensures fault || res == 0 ==> max < PAGE_SIZE && 0 <= p < PAGES && p in FreeFrames(old(Live(h)))
    ensures !fault && res != 0 ==> buffer[..] == old(buffer[..])
    ensures fault || res == 0 ==>
              TextCopied(old(buffer[..]), buffer[..], old(mem[..]), c, old(FlatMap(mem[..], c)), virt, max - 1, p,
                         fault)
  {
    p := 0;
    if max >= PAGE_SIZE {
      return -EINVARG, false, p;
    }
    ghost var a, m, flat, t := Live(h), mem[..], FlatMap(mem[..], c), h.Table();
    var tmp;
    tmp, res, fault, p := Borrow(h, mem, c, virt, max);
    if tmp == 0 {
      return -ENOMEM, false, p;
    }
    if fault {
      NothingCopied(buffer[..], m, mem[..], c, flat, virt, max - 1, p);
      return;
    }
    Finish(h, mem, c, virt, tmp, buffer, max, p, a, m, flat, t);
  }

  /** The second copy, and giving the page back, which restores the heap table. */
  method Finish(h: BlockHeap, mem: array<Frame>, ghost c: int, ghost virt: u32, tmp: u32, buffer: array<Byte>, max: int,
                ghost p: int, ghost a: Allocs, ghost m: Ram, ghost flat: seq<u32>, ghost t: Table)
    requires HeapOk(h) && IsRam(mem[..]) && ChunkOk(m, c) && |flat| == PAGES && 1 <= max < PAGE_SIZE
    requires tmp == p * PAGE_SIZE && 0 <= p < PAGES && max <= buffer.Length && BufferApart(h, mem, buffer)
    requires Borrowed(a, Live(h), p) && TextBorrowed(m, mem[..], c, flat, virt, max - 1, p, false)
    requires WellFormed(t) && |t| == h.entries.Length && a == ByPage(h.base, LiveRuns(t))
    modifies h.entries, buffer
    ensures HeapOk(h) && h.Table() == t
    ensures TextCopied(old(buffer[..]), buffer[..], m, c, flat, virt, max - 1, p, false)
  {
    var end := CopyToKernel(mem, tmp / PAGE_SIZE, buffer, max - 1);
    Deliver(old(buffer[..]), buffer[..], m, mem[..], c, flat, virt, max - 1, p, end);
    Kfree(h, tmp, p);
    LiveDeterminesTable(h.base, h.Table(), t);
  }

  /** How the copy ends, unless the string touches the borrowed page or the task's own page tables. */
  ghost predicate TextCopied(before: seq<Byte>, after: seq<Byte>, m: Ram, c: int, flat: seq<u32>, virt: u32, n: nat,
                             p: int, fault: bool)
    requires ChunkOk(m, c) && |flat| == PAGES
  {
    Avoids(m, flat, virt, n, p, iset{p} + Tables(m, c)) ==>
      var k := TextEnd(m, flat, virt, n);
      (fault <==> FaultsAt(flat, virt, n, k)) && (!fault ==> Delivered(before, after, m, flat, virt, k))
  }

  lemma NothingCopied(buffer: seq<Byte>, m: Ram, m2: Ram, c: int, flat: seq<u32>, virt: u32, n: nat, p: int)
    requires ChunkOk(m, c) && IsRam(m2) && |flat| == PAGES && 0 <= p < PAGES && n < PAGE_SIZE
    requires TextBorrowed(m, m2, c, flat, virt, n, p, true)
    ensures TextCopied(buffer, buffer, m, c, flat, virt, n, p, true)
  {
  }

  /** The second copy finds the same end. */
  lemma Deliver(before: seq<Byte>, after: seq<Byte>, m: Ram, m2: Ram, c: int, flat: seq<u32>, virt: u32, n: nat, p: int,
                end: nat)
    requires ChunkOk(m, c) && IsRam(m2) && |flat| == PAGES && 0 <= p < PAGES && n < PAGE_SIZE
    requires TextBorrowed(m, m2, c, flat, virt, n, p, false)
    requires |before| == |after| && end <= n < |after| && (end < n ==> FrameByte(m2[p], end) == 0) && after[end] == 0
    requires forall j :: 0 <= j < end ==> FrameByte(m2[p], j) != 0 && after[j] == FrameByte(m2[p], j)
    requires forall j :: end < j < |after| ==> after[j] == before[j]
    ensures TextCopied(before, after, m, c, flat, virt, n, p, false)
  {
    if Avoids(m, flat, virt, n, p, iset{p} + Tables(m, c)) {
      var k := TextEnd(m, flat, virt, n);
      assert forall j :: 0 <= j < k ==> GoesOn(m, flat, virt, j) && FrameByte(m2[p], j) == NthByte(m, flat, virt, j);
      assert end == k;
    }
  }

  lemma BorrowedIsApart(a: Allocs, m: Ram, a1: Allocs, m1: Ram, p: int, c: int)
    requires DirOwned(a, m, c) && Disjoint(a) && Granted(a, m, a1, m1, p, 1)
    ensures Borrowed(a, a1, p) && PageTaken(a, m, m1, c, p)
  {
    GrantedIsNew(a, m, a1, m1, p);
    GrantedThenFreed(a, m, a1, m1, p);
    AllocationKeepsDirectory(a, m, a1, m1, p, 1, c);
    assert forall q :: Covers(a, q, p) ==> !InSpan(p, 1, p);
    assert c in OwnedFrames(m, c) && DirFrame(m, c) in OwnedFrames(m, c);
    assert Tables(m, c) <= OwnedFrames(m, c);
  }

  lemma GrantedThenFreed(a: Allocs, m: Ram, a1: Allocs, m1: Ram, p: int)
    requires Disjoint(a) && Granted(a, m, a1, m1, p, 1)
    ensures Without(a1, iset{p}) == a
  {
    FreshStart(a, p, 1);
  }
}
