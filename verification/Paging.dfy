/** Two-level page tables (section 4.3 of the Intel SDM, volume 3A) living in physical memory,
    and the flat map from page number to entry that they refine. */
module Paging {
  import opened Words

  const ENTRIES := 1024
  const PAGES := 0x10_0000

  const IS_PRESENT := 1
  const IS_WRITEABLE := 2
  const ACCESS_FROM_ALL := 4

  const USER_RO: u32 := 5  // present, accessible from every ring
  const USER_RW: u32 := 7  // and writable

  /** A page frame as its 1024 words, and physical memory as its 2^20 frames: the word at
      address a is word a % 4096 / 4 of frame a / 4096. */
  type Frame = s: seq<u32> | |s| == 1024 witness seq(1024, _ => 0)

  type Ram = seq<Frame>

  predicate IsRam(m: Ram) {
    |m| == PAGES
  }

  ghost predicate AgreeOutside(m: Ram, m': Ram, frames: iset<int>) {
    IsRam(m) && IsRam(m') && forall f :: 0 <= f < PAGES && f !in frames ==> m'[f] == m[f]
  }

  // ---- a page directory and the map it stands for ----

  /** The frame of the i-th table, recovered from the directory entry by masking. */
  function TableFrame(m: Ram, d: int, i: int): (f: int)
    requires IsRam(m) && 0 <= d < PAGES && 0 <= i < ENTRIES
    ensures 0 <= f < PAGES
  {
    PageBase(m[d][i]) / PAGE_SIZE
  }

  ghost function TableFrames(m: Ram, d: int): iset<int>
    requires IsRam(m) && 0 <= d < PAGES
  {
    iset f | IsTable(m, d, f)
  }

  ghost predicate IsTable(m: Ram, d: int, f: int)
    requires IsRam(m) && 0 <= d < PAGES
  {
    exists i :: 0 <= i < ENTRIES && TableFrame(m, d, i) == f
  }

  /** The directory is a frame of its own and its 1024 tables are 1024 different other frames. */
  ghost predicate DirOk(m: Ram, d: int) {
    && IsRam(m) && 0 <= d < PAGES
    && (forall i, j :: 0 <= i < j < ENTRIES ==> TableFrame(m, d, i) != TableFrame(m, d, j))
    && (forall i :: 0 <= i < ENTRIES ==> TableFrame(m, d, i) != d)
  }

  /** The entry of a page: one word of one table. */
  function EntryOf(m: Ram, d: int, page: int): u32
    requires IsRam(m) && 0 <= d < PAGES && 0 <= page < PAGES
  {
    m[TableFrame(m, d, page / ENTRIES)][page % ENTRIES]
  }

  /** The map from page number to entry that a directory stands for. */
  ghost function FlatOf(m: Ram, d: int): (flat: seq<u32>)
    requires IsRam(m) && 0 <= d < PAGES
    ensures |flat| == PAGES
  {
    seq(PAGES, p requires 0 <= p < PAGES => EntryOf(m, d, p))
  }

  /** The page k pages after v, around the end of the 32-bit space. */
  function Ahead(v: int, k: int): int {
    if v + k < PAGES then v + k else v + k - PAGES
  }

  /** How many pages p lies after v, around the end of the 32-bit space. */
  function Distance(v: int, p: int): int {
    if p >= v then p - v else p - v + PAGES
  }

  /** The effect of mapping n pages from page v linearly onto the frames from f. */
  ghost function MapPages(flat: seq<u32>, v: int, f: int, n: int, flags: u32): (r: seq<u32>)
    requires |flat| == PAGES && 0 <= v < PAGES && 0 <= f < PAGES && n <= PAGES
    ensures |r| == PAGES
  {
    seq(PAGES, p requires 0 <= p < PAGES => MappedEntry(flat, v, f, n, flags, p))
  }

  ghost function MappedEntry(flat: seq<u32>, v: int, f: int, n: int, flags: u32, p: int): u32
    requires |flat| == PAGES && 0 <= v < PAGES && 0 <= f < PAGES && n <= PAGES && 0 <= p < PAGES
  {
    var k := Distance(v, p);
    if k < n then OrWord(Ahead(f, k) * PAGE_SIZE, flags) else flat[p]
  }

  lemma MapPagesNone(flat: seq<u32>, v: int, f: int, n: int, flags: u32)
    requires |flat| == PAGES && n <= 0 && 0 <= v < PAGES && 0 <= f < PAGES
    ensures MapPages(flat, v, f, n, flags) == flat
  {
  }

  /** Mapping n + 1 pages is mapping n pages and then the next one. */
  lemma MapPagesOneMore(flat: seq<u32>, v: int, f: int, n: int, flags: u32)
    requires |flat| == PAGES && 0 <= n < PAGES && 0 <= v < PAGES && 0 <= f < PAGES
    ensures MapPages(flat, v, f, n + 1, flags)
         == MapPages(flat, v, f, n, flags)[Ahead(v, n) := OrWord(Ahead(f, n) * PAGE_SIZE, flags)]
  {
    var l := MapPages(flat, v, f, n + 1, flags);
    var r := MapPages(flat, v, f, n, flags)[Ahead(v, n) := OrWord(Ahead(f, n) * PAGE_SIZE, flags)];
    forall p | 0 <= p < PAGES ensures l[p] == r[p] {
      assert Distance(v, p) == n <==> p == Ahead(v, n);
    }
  }

  lemma SameTables(m: Ram, m': Ram, d: int)
    requires DirOk(m, d) && IsRam(m') && m'[d] == m[d]
    ensures DirOk(m', d) && TableFrames(m', d) == TableFrames(m, d)
    ensures forall i :: 0 <= i < ENTRIES ==> TableFrame(m', d, i) == TableFrame(m, d, i)
  {
    assert forall i :: 0 <= i < ENTRIES ==> TableFrame(m', d, i) == TableFrame(m, d, i);
  }

  /** Memory after writing one table entry. */
  function WithEntry(m: Ram, d: int, page: int, val: u32): (r: Ram)
    requires IsRam(m) && 0 <= d < PAGES && 0 <= page < PAGES
    ensures IsRam(r)
  {
    var f := TableFrame(m, d, page / ENTRIES);
    m[f := m[f][page % ENTRIES := val]]
  }

  /** Writing one table entry changes exactly one entry of the flat map and no directory entry;
      this is where the tables being different frames matters. */
  lemma SetRefinesFlat(m: Ram, d: int, page: int, val: u32)
    requires DirOk(m, d) && 0 <= page < PAGES
    ensures var m' := WithEntry(m, d, page, val);
            && m'[d] == m[d]
            && DirOk(m', d)
            && FlatOf(m', d) == FlatOf(m, d)[page := val]
            && AgreeOutside(m, m', TableFrames(m, d))
  {
    var m' := WithEntry(m, d, page, val);
    assert TableFrame(m, d, page / ENTRIES) in TableFrames(m, d);
    SameTables(m, m', d);
    forall p | 0 <= p < PAGES
      ensures EntryOf(m', d, p) == if p == page then val else EntryOf(m, d, p)
    {
      if p / ENTRIES != page / ENTRIES {
        assert TableFrame(m, d, p / ENTRIES) != TableFrame(m, d, page / ENTRIES);
      }
    }
  }

  /** Writes elsewhere leave the directory and everything it maps alone. */
  lemma FlatUnaffected(m: Ram, m': Ram, d: int, frames: iset<int>)
    requires DirOk(m, d) && AgreeOutside(m, m', frames)
    requires d !in frames && frames !! TableFrames(m, d)
    ensures m'[d] == m[d] && DirOk(m', d)
    ensures TableFrames(m', d) == TableFrames(m, d) && FlatOf(m', d) == FlatOf(m, d)
  {
    SameTables(m, m', d);
    forall p | 0 <= p < PAGES ensures EntryOf(m', d, p) == EntryOf(m, d, p) {
      assert TableFrame(m, d, p / ENTRIES) in TableFrames(m, d);
    }
  }

  // ---- the wrapper structure, whose only field points to the directory ----

  /** The frame of the directory that the wrapper in frame c points to. */
  function DirFrame(m: Ram, c: int): (d: int)
    requires IsRam(m) && 0 <= c < PAGES
    ensures 0 <= d < PAGES
  {
    m[c][0] / PAGE_SIZE
  }

  /** A wrapper at the start of frame c that points to a good directory, apart from its tables. */
  ghost predicate ChunkOk(m: Ram, c: int) {
    && IsRam(m) && 0 <= c < PAGES
    && m[c][0] == DirFrame(m, c) * PAGE_SIZE
    && DirOk(m, DirFrame(m, c))
    && c !in TableFrames(m, DirFrame(m, c))
  }

  ghost function Tables(m: Ram, c: int): iset<int>
    requires ChunkOk(m, c)
  {
    TableFrames(m, DirFrame(m, c))
  }

  ghost function FlatMap(m: Ram, c: int): (flat: seq<u32>)
    requires ChunkOk(m, c)
    ensures |flat| == PAGES
  {
    FlatOf(m, DirFrame(m, c))
  }

  /** In m' the wrapper in frame c has the same directory and tables, now standing for `flat`. */
  ghost predicate SameChunk(m: Ram, m': Ram, c: int, flat: seq<u32>)
    requires ChunkOk(m, c)
  {
    && ChunkOk(m', c)
    && m'[c] == m[c]
    && m'[DirFrame(m, c)] == m[DirFrame(m, c)]
    && Tables(m', c) == Tables(m, c)
    && FlatMap(m', c) == flat
  }

  /** A mapping call: only table frames are written and the flat map becomes `flat`. */
  ghost predicate Remapped(m: Ram, m': Ram, c: int, flat: seq<u32>)
    requires ChunkOk(m, c)
  {
    AgreeOutside(m, m', Tables(m, c)) && SameChunk(m, m', c, flat)
  }

  lemma RemappedTrans(m: Ram, m1: Ram, m2: Ram, c: int, flat1: seq<u32>, flat2: seq<u32>)
    requires ChunkOk(m, c) && Remapped(m, m1, c, flat1) && Remapped(m1, m2, c, flat2)
    ensures Remapped(m, m2, c, flat2)
  {
  }

  lemma SetRemaps(m: Ram, c: int, page: int, val: u32)
    requires ChunkOk(m, c) && 0 <= page < PAGES
    ensures Remapped(m, WithEntry(m, DirFrame(m, c), page, val), c, FlatMap(m, c)[page := val])
  {
    var d := DirFrame(m, c);
    SetRefinesFlat(m, d, page, val);
    SameTables(m, WithEntry(m, d, page, val), d);
  }

  /** A wrapper none of whose frames is written keeps its whole map. */
  lemma ChunkUnaffected(m: Ram, m': Ram, c: int, frames: iset<int>)
    requires ChunkOk(m, c) && AgreeOutside(m, m', frames)
    requires c !in frames && DirFrame(m, c) !in frames && frames !! Tables(m, c)
    ensures SameChunk(m, m', c, FlatMap(m, c))
  {
    FlatUnaffected(m, m', DirFrame(m, c), frames);
  }

  // ---- paging.c ----

  predicate IsAligned(addr: u32) {
    addr % PAGE_SIZE == 0
  }

  function AlignAddress(ptr: u32): u32 {
    if ptr % PAGE_SIZE != 0 then Wrap(ptr + PAGE_SIZE - ptr % PAGE_SIZE) else ptr
  }

  function AlignToLowerPage(addr: u32): u32 {
    addr - addr % PAGE_SIZE
  }

  method GetIndexes(virt: u32) returns (res: int, directoryIndex: u32, tableIndex: u32)
    ensures virt % 4096 == 0 ==> res == 0 && directoryIndex == virt / PAGE_SIZE / ENTRIES
                                 && tableIndex == virt / PAGE_SIZE % ENTRIES
    ensures virt % 4096 != 0 ==> res == -EINVARG && directoryIndex == 0 && tableIndex == 0
  {
    if !IsAligned(virt) {
      return -EINVARG, 0, 0;
    }
    return 0, virt / (ENTRIES * PAGE_SIZE), virt % (ENTRIES * PAGE_SIZE) / PAGE_SIZE;
  }

  /** paging_set on the directory in frame d. */
  method Set(mem: array<Frame>, d: int, virt: u32, val: u32) returns (res: int)
    requires IsRam(mem[..]) && 0 <= d < PAGES
    modifies mem
    ensures res == if IsAligned(virt) then 0 else -EINVARG
    ensures mem[..] == if IsAligned(virt) then WithEntry(old(mem[..]), d, virt / PAGE_SIZE, val) else old(mem[..])
  {
    if !IsAligned(virt) {
      return -EINVARG;
    }
    var status, directoryIndex, tableIndex := GetIndexes(virt);
    if status < 0 {
      return status;
    }
    var entry := mem[d][directoryIndex];
    var table := PageBase(entry) / PAGE_SIZE;
    mem[table] := mem[table][tableIndex := val];
    return 0;
  }

  /** paging_get: the entry of a page; an unaligned address reads the entry of page 0. */
  method Get(mem: array<Frame>, d: int, virt: u32) returns (entry: u32)
    requires IsRam(mem[..]) && 0 <= d < PAGES
    ensures entry == FlatOf(mem[..], d)[if IsAligned(virt) then virt / PAGE_SIZE else 0]
  {
    var _, directoryIndex, tableIndex := GetIndexes(virt);
    var table := PageBase(mem[d][directoryIndex]) / PAGE_SIZE;
    entry := mem[table][tableIndex];
  }

  /** The translation a flat map gives to an address. */
  ghost function Translate(flat: seq<u32>, virt: u32): u32
    requires |flat| == PAGES
  {
    PageBase(flat[virt / PAGE_SIZE]) + virt % PAGE_SIZE
  }

  method GetPhysicalAddress(mem: array<Frame>, d: int, virt: u32) returns (phys: u32)
    requires IsRam(mem[..]) && 0 <= d < PAGES
    ensures phys == Translate(FlatOf(mem[..], d), virt)
  {
    var page := AlignToLowerPage(virt);
    var difference := Wrap(virt - page);
    var entry := Get(mem, d, page);
    phys := Wrap(PageBase(entry) + difference);
  }

  method Map(mem: array<Frame>, c: int, virt: u32, phys: u32, flags: u32) returns (res: int)
    requires ChunkOk(mem[..], c)
    modifies mem
    ensures res == if virt % 4096 == 0 && phys % 4096 == 0 then 0 else -EINVARG
    ensures res < 0 ==> mem[..] == old(mem[..])
    ensures res == 0 ==> Remapped(old(mem[..]), mem[..], c,
                                  old(FlatMap(mem[..], c))[virt / PAGE_SIZE := OrWord(phys, flags)])
  {
    if virt % PAGE_SIZE != 0 || phys % PAGE_SIZE != 0 {
      return -EINVARG;
    }
    SetRemaps(mem[..], c, virt / PAGE_SIZE, OrWord(phys, flags));
    res := Set(mem, mem[c][0] / PAGE_SIZE, virt, OrWord(phys, flags));
  }

  lemma MapRangeStep(m: Ram, m1: Ram, m2: Ram, c: int, v: int, f: int, n: int, flags: u32)
    requires ChunkOk(m, c) && 0 <= n < PAGES && 0 <= v < PAGES && 0 <= f < PAGES
    requires Remapped(m, m1, c, MapPages(FlatMap(m, c), v, f, n, flags))
    requires Remapped(m1, m2, c, FlatMap(m1, c)[Ahead(v, n) := OrWord(Ahead(f, n) * PAGE_SIZE, flags)])
    ensures Remapped(m, m2, c, MapPages(FlatMap(m, c), v, f, n + 1, flags))
  {
    MapPagesOneMore(FlatMap(m, c), v, f, n, flags);
  }

  lemma NextPage(addr: u32, v: int, i: nat)
    requires i < PAGES && 0 <= v < PAGES && addr == Ahead(v, i) * PAGE_SIZE
    ensures Wrap(addr + PAGE_SIZE) == Ahead(v, i + 1) * PAGE_SIZE
  {
  }

  method MapRange(mem: array<Frame>, c: int, virt: u32, phys: u32, count: int, flags: u32) returns (res: int)
    requires ChunkOk(mem[..], c) && count <= PAGES
    modifies mem
    ensures res == if count > 0 && !(IsAligned(virt) && IsAligned(phys)) then -EINVARG else 0
    ensures res < 0 || count <= 0 ==> mem[..] == old(mem[..])
    ensures res == 0 ==>
              Remapped(old(mem[..]), mem[..], c,
                       MapPages(old(FlatMap(mem[..], c)), virt / PAGE_SIZE, phys / PAGE_SIZE, count, flags))
  {
    res := 0;
    ghost var m, v0, f0 := mem[..], virt / PAGE_SIZE, phys / PAGE_SIZE;
    MapPagesNone(FlatMap(m, c), v0, f0, if count < 0 then count else 0, flags);
    if count <= 0 {
      return;
    }
    if !(IsAligned(virt) && IsAligned(phys)) {
      res := Map(mem, c, virt, phys, flags);
      return;
    }
    var v, p := virt, phys;
    var i := 0;
    while i < count
      invariant 0 <= i <= count && res == 0
      invariant v == Ahead(v0, i) * PAGE_SIZE && p == Ahead(f0, i) * PAGE_SIZE
      invariant Remapped(m, mem[..], c, MapPages(FlatMap(m, c), v0, f0, i, flags))
    {
      ghost var before := mem[..];
      res := Map(mem, c, v, p, flags);
      if res < 0 {
        break;
      }
      MapRangeStep(m, before, mem[..], c, v0, f0, i, flags);
      NextPage(v, v0, i);
      NextPage(p, f0, i);
      v := Wrap(v + PAGE_SIZE);
      p := Wrap(p + PAGE_SIZE);
      i := i + 1;
    }
  }

  /** What paging_map_to accepts: aligned addresses in order. */
  predicate MapToAccepts(virt: u32, phys: u32, physEnd: u32) {
    IsAligned(virt) && IsAligned(phys) && IsAligned(physEnd) && phys <= physEnd
  }

  /** Changes exactly the (physEnd - phys) / 4096 pages from virt, or nothing at all. */
  method MapTo(mem: array<Frame>, c: int, virt: u32, phys: u32, physEnd: u32, flags: u32) returns (res: int)
    requires ChunkOk(mem[..], c)
    modifies mem
    ensures res == if MapToAccepts(virt, phys, physEnd) then 0 else -EINVARG
    ensures res == 0 <==> virt % 4096 == 0 && phys % 4096 == 0 && physEnd % 4096 == 0 && phys <= physEnd
    ensures res < 0 || phys == physEnd ==> mem[..] == old(mem[..])
    ensures res == 0 ==>
              Remapped(old(mem[..]), mem[..], c,
                       MapPages(old(FlatMap(mem[..], c)), virt / PAGE_SIZE, phys / PAGE_SIZE,
                                (physEnd - phys) / PAGE_SIZE, flags))
  {
    if virt % PAGE_SIZE != 0 {
      return -EINVARG;
    }
    if phys % PAGE_SIZE != 0 {
      return -EINVARG;
    }
    if physEnd % PAGE_SIZE != 0 {
      return -EINVARG;
    }
    if physEnd < phys {
      return -EINVARG;
    }
    var totalBytes := physEnd - phys;
    var totalPages := totalBytes / PAGE_SIZE;
    res := MapRange(mem, c, virt, phys, totalPages, flags);
  }

  // ---- every sequence of mapping calls ----

  datatype MapCall = MapCall(virt: u32, phys: u32, physEnd: u32, flags: u32) {
    predicate Accepted() {
      MapToAccepts(virt, phys, physEnd)
    }
  }

  /** The flat map after a call, by the mapping law alone. */
  ghost function FlatAfter(flat: seq<u32>, call: MapCall): (r: seq<u32>)
    requires |flat| == PAGES
    ensures |r| == PAGES
  {
    if call.Accepted() then
      MapPages(flat, call.virt / PAGE_SIZE, call.phys / PAGE_SIZE, (call.physEnd - call.phys) / PAGE_SIZE, call.flags)
    else flat
  }

  /** The flat map after the first n calls. */
  ghost function FlatAfterFirst(flat: seq<u32>, calls: seq<MapCall>, n: nat): (r: seq<u32>)
    requires |flat| == PAGES && n <= |calls|
    ensures |r| == PAGES
  {
    if n == 0 then flat else FlatAfter(FlatAfterFirst(flat, calls, n - 1), calls[n - 1])
  }

  ghost function FlatAfterAll(flat: seq<u32>, calls: seq<MapCall>): (r: seq<u32>)
    requires |flat| == PAGES
    ensures |r| == PAGES
  {
    FlatAfterFirst(flat, calls, |calls|)
  }

  lemma {:induction false} SameFirstCalls(flat: seq<u32>, calls: seq<MapCall>, calls': seq<MapCall>, n: nat)
    requires |flat| == PAGES && n <= |calls| && n <= |calls'|
    requires forall i :: 0 <= i < n ==> calls[i] == calls'[i]
    ensures FlatAfterFirst(flat, calls, n) == FlatAfterFirst(flat, calls', n)
  {
    if n > 0 {
      SameFirstCalls(flat, calls, calls', n - 1);
    }
  }

  /** What MapTo guarantees of one call, as a relation between memories. */
  ghost predicate MapStep(m: Ram, c: int, call: MapCall, m': Ram) {
    && ChunkOk(m, c)
    && (if call.Accepted() then Remapped(m, m', c, FlatAfter(FlatMap(m, c), call)) else m' == m)
  }

  /** The i-th call of a run of mapping calls. */
  ghost predicate MapStepAt(states: seq<Ram>, c: int, calls: seq<MapCall>, i: int)
    requires |states| == |calls| + 1 && 0 <= i < |calls|
  {
    MapStep(states[i], c, calls[i], states[i + 1])
  }

  /** Whatever mapping calls are made, in whatever order, the two-level tables stand for the flat
      map with those calls applied to it, the wrapper and directory never change, and nothing
      outside the tables is written. */
  lemma {:induction false} EveryMappingRunIsFlat(states: seq<Ram>, c: int, calls: seq<MapCall>, k: nat)
    requires |states| == |calls| + 1 && ChunkOk(states[0], c) && k <= |calls|
    requires forall i :: 0 <= i < |calls| ==> MapStepAt(states, c, calls, i)
    ensures Remapped(states[0], states[k], c, FlatAfterFirst(FlatMap(states[0], c), calls, k))
  {
    if k > 0 {
      EveryMappingRunIsFlat(states, c, calls, k - 1);
      assert MapStepAt(states, c, calls, k - 1);
      OneMoreCall(states[0], states[k - 1], states[k], c, calls, k - 1);
    }
  }

  lemma OneMoreCall(m: Ram, m1: Ram, m2: Ram, c: int, calls: seq<MapCall>, n: nat)
    requires ChunkOk(m, c) && n < |calls|
    requires Remapped(m, m1, c, FlatAfterFirst(FlatMap(m, c), calls, n)) && MapStep(m1, c, calls[n], m2)
    ensures Remapped(m, m2, c, FlatAfterFirst(FlatMap(m, c), calls, n + 1))
  {
    var flat := FlatAfterFirst(FlatMap(m, c), calls, n);
    assert FlatAfterFirst(FlatMap(m, c), calls, n + 1) == FlatAfter(flat, calls[n]);
    if calls[n].Accepted() {
      RemappedTrans(m, m1, m2, c, flat, FlatAfter(flat, calls[n]));
    }
  }

  /** The pages an accepted call covers. */
  predicate CoversPage(call: MapCall, page: int) {
    call.Accepted() && Distance(call.virt / PAGE_SIZE, page) < (call.physEnd - call.phys) / PAGE_SIZE
  }

  /** The last call to cover a page decides its entry, linearly from the call's first page; a page
      that no call covers keeps the entry it had. */
  lemma {:induction false} LastMappingWins(flat: seq<u32>, calls: seq<MapCall>, n: nat, page: int, i: int)
    requires |flat| == PAGES && n <= |calls| && 0 <= page < PAGES && -1 <= i < n
    requires i >= 0 ==> CoversPage(calls[i], page)
    requires forall j :: i < j < n ==> !CoversPage(calls[j], page)
    ensures FlatAfterFirst(flat, calls, n)[page] ==
              if i < 0 then flat[page]
              else OrWord(calls[i].phys + Distance(calls[i].virt / PAGE_SIZE, page) * PAGE_SIZE, calls[i].flags)
  {
    if n > 0 && i < n - 1 {
      assert !CoversPage(calls[n - 1], page);
      LastMappingWins(flat, calls, n - 1, page, i);
    }
  }
}
