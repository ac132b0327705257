/** The life of a page directory: paging_new takes 1026 pages from the heap, mapping calls and
    other people's allocations leave them in place, and paging_free gives back exactly those. */
module PageDirectories {
  import opened Words
  import opened HeapTable
  import opened Heap
  import opened Paging
  import opened KernelMemory
  import opened Mmu

  /** The frames of the wrapper, the directory and the tables. */
  ghost function OwnedFrames(m: Ram, c: int): iset<int>
    requires ChunkOk(m, c)
  {
    iset{c, DirFrame(m, c)} + Tables(m, c)
  }

  /** Wrapper, directory and the 1024 tables are one-page allocations of their own. */
  ghost predicate DirOwned(a: Allocs, m: Ram, c: int) {
    && ChunkOk(m, c) && c != DirFrame(m, c)
    && forall f :: f in OwnedFrames(m, c) ==> f in a && a[f] == 1
  }

  // ---- paging_new ----

  /** The i-th table of the identity map. */
  ghost function IdentityTable(i: int, flags: u32): Frame
    requires 0 <= i < ENTRIES && flags < 0x100
  {
    seq(1024, j requires 0 <= j < 1024 => (i * ENTRIES + j) * PAGE_SIZE + flags)
  }

  ghost function IdentityMap(flags: u32): (flat: seq<u32>)
    requires flags < 0x100
    ensures |flat| == PAGES
  {
    seq(PAGES, p requires 0 <= p < PAGES => p * PAGE_SIZE + flags)
  }

  /** Every one of the 2^32 addresses translates to itself, whatever the flags byte. */
  lemma IdentityTranslates(flags: u32, virt: u32)
    requires flags < 0x100
    ensures Translate(IdentityMap(flags), virt) == virt
  {
  }

  /** The running `int offset`: i * 4 MiB, negative from the 2 GiB line on. */
  function OffsetAt(i: int): int
    requires 0 <= i <= ENTRIES
  {
    if i < 512 then i * 0x40_0000 else i * 0x40_0000 - WORD_LIMIT
  }

  lemma OffsetStep(i: int)
    requires 0 <= i < ENTRIES
    ensures OffsetAt(i + 1) == Signed(Wrap(OffsetAt(i) + PAGE_SIZE * ENTRIES))
  {
  }

  method FillTable(mem: array<Frame>, table: int, offset: int, flags: u32, ghost i: int)
    requires IsRam(mem[..]) && 0 <= table < PAGES && flags < 0x100
    requires 0 <= i < ENTRIES && offset == OffsetAt(i)
    modifies mem
    ensures mem[..] == old(mem[..])[table := IdentityTable(i, flags)]
  {
    var j := 0;
    while j < ENTRIES
      invariant 0 <= j <= ENTRIES
      invariant forall f :: 0 <= f < PAGES && f != table ==> mem[f] == old(mem[f])
      invariant forall k :: 0 <= k < j ==> mem[table][k] == (i * ENTRIES + k) * PAGE_SIZE + flags
    {
      var entry := Wrap(offset + OrWord(j * PAGE_SIZE, flags));
      mem[table] := mem[table][j := entry];
      j := j + 1;
    }
    assert mem[table] == IdentityTable(i, flags);
  }

  /** The heap after the directory d and some tables were taken from it. */
  ghost function WithPages(a: Allocs, frames: iset<int>): Allocs {
    imap f | f in a || f in frames :: if f in frames then 1 else a[f]
  }

  ghost function FramesOf(d: int, tables: seq<int>): iset<int> {
    iset f | f == d || f in tables
  }

  /** The directory entry for the table in frame f. */
  function DirEntry(f: int, flags: u32): (e: u32)
    requires 0 <= f < PAGES && flags < 0x100
    ensures PageBase(e) == f * PAGE_SIZE && Carries(e, flags)
  {
    OrWritable(f * PAGE_SIZE, flags);
    OrKeepsBase(f * PAGE_SIZE, flags, IS_WRITEABLE);
    OrWord(OrWord(f * PAGE_SIZE, flags), IS_WRITEABLE)
  }

  /** The frames d and tables[0], tables[1], ... are distinct and were free. */
  ghost predicate NewFrames(a: Allocs, d: int, tables: seq<int>) {
    && 0 < d < PAGES && d !in a
    && (forall k :: 0 <= k < |tables| ==> 0 < tables[k] < PAGES && tables[k] != d && tables[k] !in a)
    && (forall k, l :: 0 <= k < l < |tables| ==> tables[k] != tables[l])
  }

  /** The directory points to the tables built so far, which hold the identity map. */
  ghost predicate Filled(m: Ram, d: int, tables: seq<int>, flags: u32)
    requires IsRam(m) && 0 <= d < PAGES && flags < 0x100 && |tables| <= ENTRIES
    requires forall k :: 0 <= k < |tables| ==> 0 < tables[k] < PAGES
  {
    forall k :: 0 <= k < |tables| ==>
      m[d][k] == DirEntry(tables[k], flags) && m[tables[k]] == IdentityTable(k, flags)
  }

  /** What has been built after the first |tables| rounds of the loop. */
  ghost predicate Built(a: Allocs, m: Ram, a': Allocs, m': Ram, d: int, tables: seq<int>, flags: u32)
    requires flags < 0x100 && |tables| <= ENTRIES
  {
    && NewFrames(a, d, tables)
    && a' == WithPages(a, FramesOf(d, tables))
    && AgreeOutside(m, m', FramesOf(d, tables))
    && Filled(m', d, tables, flags)
  }

  lemma GrantedIsNew(a: Allocs, m: Ram, a': Allocs, m': Ram, p: int)
    requires Granted(a, m, a', m', p, 1) && Disjoint(a)
    ensures p !in a && a' == a[p := 1]
    ensures forall f :: 0 <= f < PAGES && f != p ==> m'[f] == m[f]
  {
    FreshStart(a, p, 1);
    forall f | 0 <= f < PAGES && f != p ensures m'[f] == m[f] {
      assert !InSpan(p, 1, f);
    }
  }

  lemma OneMoreFrame(a: Allocs, a1: Allocs, a2: Allocs, d: int, tables: seq<int>, p: int)
    requires NewFrames(a, d, tables) && a1 == WithPages(a, FramesOf(d, tables))
    requires p !in a1 && a2 == a1[p := 1] && 0 < p < PAGES
    ensures NewFrames(a, d, tables + [p]) && a2 == WithPages(a, FramesOf(d, tables + [p]))
  {
    assert d in FramesOf(d, tables);
    forall k | 0 <= k < |tables| ensures tables[k] != p {
      assert tables[k] in FramesOf(d, tables);
    }
    assert forall f :: f in FramesOf(d, tables + [p]) <==> f in FramesOf(d, tables) || f == p;
  }

  lemma OneMoreFilled(m1: Ram, m2: Ram, d: int, tables: seq<int>, p: int, flags: u32)
    requires IsRam(m1) && IsRam(m2) && 0 < d < PAGES && 0 < p < PAGES && p != d && flags < 0x100 && |tables| < ENTRIES
    requires forall k :: 0 <= k < |tables| ==> 0 < tables[k] < PAGES && tables[k] != d && tables[k] != p
    requires Filled(m1, d, tables, flags)
    requires m2[p] == IdentityTable(|tables|, flags) && m2[d] == m1[d][|tables| := DirEntry(p, flags)]
    requires forall f :: 0 <= f < PAGES && f != p && f != d ==> m2[f] == m1[f]
    ensures Filled(m2, d, tables + [p], flags)
  {
  }

  lemma BuiltOneMore(a: Allocs, m: Ram, a1: Allocs, m1: Ram, a2: Allocs, m2: Ram,
                     d: int, tables: seq<int>, p: int, flags: u32)
    requires flags < 0x100 && |tables| < ENTRIES && Built(a, m, a1, m1, d, tables, flags)
    requires p !in a1 && a2 == a1[p := 1] && 0 < p < PAGES && IsRam(m2)
    requires m2[p] == IdentityTable(|tables|, flags) && m2[d] == m1[d][|tables| := DirEntry(p, flags)]
    requires forall f :: 0 <= f < PAGES && f != p && f != d ==> m2[f] == m1[f]
    ensures Built(a, m, a2, m2, d, tables + [p], flags)
  {
    OneMoreFrame(a, a1, a2, d, tables, p);
    assert forall k :: 0 <= k < |tables| ==> tables[k] == (tables + [p])[k];
    assert p == (tables + [p])[|tables|];
    OneMoreFilled(m1, m2, d, tables, p, flags);
  }

  lemma BuiltFrame(m: Ram, d: int, tables: seq<int>, flags: u32, k: int)
    requires IsRam(m) && 0 <= d < PAGES && flags < 0x100 && |tables| == ENTRIES && 0 <= k < ENTRIES
    requires forall i :: 0 <= i < |tables| ==> 0 < tables[i] < PAGES
    requires Filled(m, d, tables, flags)
    ensures TableFrame(m, d, k) == tables[k]
  {
    assert m[d][k] == DirEntry(tables[k], flags);
  }

  lemma BuiltEntry(m: Ram, d: int, tables: seq<int>, flags: u32, p: int)
    requires IsRam(m) && 0 <= d < PAGES && flags < 0x100 && |tables| == ENTRIES && 0 <= p < PAGES
    requires forall i :: 0 <= i < |tables| ==> 0 < tables[i] < PAGES
    requires Filled(m, d, tables, flags)
    ensures EntryOf(m, d, p) == p * PAGE_SIZE + flags
  {
    BuiltFrame(m, d, tables, flags, p / ENTRIES);
    assert m[tables[p / ENTRIES]] == IdentityTable(p / ENTRIES, flags);
  }

  lemma BuiltCarries(m: Ram, d: int, tables: seq<int>, flags: u32)
    requires IsRam(m) && 0 <= d < PAGES && flags < 0x100 && |tables| == ENTRIES
    requires forall i :: 0 <= i < |tables| ==> 0 < tables[i] < PAGES
    requires Filled(m, d, tables, flags)
    ensures DirCarries(m, d, flags)
  {
    forall k | 0 <= k < ENTRIES ensures Carries(m[d][k], flags) {
      assert m[d][k] == DirEntry(tables[k], flags);
    }
  }

  lemma BuiltTables(m: Ram, d: int, tables: seq<int>)
    requires IsRam(m) && 0 <= d < PAGES && |tables| == ENTRIES
    requires forall k :: 0 <= k < ENTRIES ==> TableFrame(m, d, k) == tables[k]
    ensures TableFrames(m, d) == (iset f | f in tables)
  {
    forall f ensures f in TableFrames(m, d) <==> f in tables {
      if f in tables {
        var k :| 0 <= k < ENTRIES && tables[k] == f;
        assert TableFrame(m, d, k) == f;
      }
    }
  }

  /** Once all 1024 tables stand, the directory maps the identity and owns its frames. */
  lemma BuiltIsIdentity(a: Allocs, m: Ram, a': Allocs, m': Ram, d: int, tables: seq<int>, flags: u32)
    requires flags < 0x100 && |tables| == ENTRIES && Built(a, m, a', m', d, tables, flags)
    ensures DirOk(m', d) && TableFrames(m', d) == (iset f | f in tables)
    ensures FlatOf(m', d) == IdentityMap(flags)
  {
    forall k | 0 <= k < ENTRIES ensures TableFrame(m', d, k) == tables[k] {
      BuiltFrame(m', d, tables, flags, k);
    }
    BuiltTables(m', d, tables);
    forall p | 0 <= p < PAGES ensures EntryOf(m', d, p) == p * PAGE_SIZE + flags {
      BuiltEntry(m', d, tables, flags, p);
    }
  }

  lemma WrapperFrames(a: Allocs, a1: Allocs, d: int, tables: seq<int>, c: int)
    requires NewFrames(a, d, tables) && a1 == WithPages(a, FramesOf(d, tables)) && c !in a1
    ensures a1[c := 1] == WithPages(a, FramesOf(d, tables) + iset{c})
    ensures c !in a && c != d && forall f :: f in tables ==> f != c
  {
    assert d in FramesOf(d, tables);
    forall f | f in tables ensures f != c { assert f in FramesOf(d, tables); }
  }

  lemma WrapperPointsToDirectory(m1: Ram, m2: Ram, d: int, tables: seq<int>, c: int, flags: u32)
    requires flags < 0x100 && DirOk(m1, d) && TableFrames(m1, d) == (iset f | f in tables)
    requires 0 < c < PAGES && c != d && c !in tables && IsRam(m2) && m2[c][0] == d * PAGE_SIZE
    requires forall f :: 0 <= f < PAGES && f != c ==> m2[f] == m1[f]
    ensures ChunkOk(m2, c) && DirFrame(m2, c) == d && FlatMap(m2, c) == FlatOf(m1, d)
    ensures OwnedFrames(m2, c) == FramesOf(d, tables) + iset{c}
  {
    FlatUnaffected(m1, m2, d, iset{c});
  }

  /** The wrapper comes last: it points to the directory and lies apart from everything built. */
  lemma WrapperCompletes(a: Allocs, m: Ram, a1: Allocs, m1: Ram, m2: Ram,
                         d: int, tables: seq<int>, c: int, flags: u32)
    requires flags < 0x100 && |tables| == ENTRIES && Built(a, m, a1, m1, d, tables, flags)
    requires c !in a1 && 0 < c < PAGES && IsRam(m2) && m2[c][0] == d * PAGE_SIZE
    requires forall f :: 0 <= f < PAGES && f != c ==> m2[f] == m1[f]
    ensures NewChunk(a, m, a1[c := 1], m2, c, flags)
  {
    BuiltIsIdentity(a, m, a1, m1, d, tables, flags);
    BuiltCarries(m1, d, tables, flags);
    WrapperFrames(a, a1, d, tables, c);
    WrapperPointsToDirectory(m1, m2, d, tables, c, flags);
  }

  /** The free blocks after `used` requests for one block each: `ok` as long as none has failed. */
  predicate Drawn(free: nat, used: nat, ok: bool, left: nat) {
    if ok then left + used == free else left == 0 && free < used
  }

  /** What the first `used` requests of paging_new have left of the heap. */
  ghost predicate Underway(h: BlockHeap, mem: array<Frame>, free: nat, used: nat, ok: bool)
    reads h.entries, mem
  {
    HeapOk(h) && IsRam(mem[..]) && Drawn(free, used, ok, FreeBlocks(h.Table()))
  }

  /** Fill the table and point the directory to it. */
  method InstallTable(mem: array<Frame>, entry: u32, ghost p: int, directory: u32, ghost d: int, offset: int,
                      flags: u32, i: int)
    requires IsRam(mem[..]) && entry == p * PAGE_SIZE && 0 <= p < PAGES && directory == d * PAGE_SIZE && 0 <= d < PAGES
    requires flags < 0x100 && 0 <= i < ENTRIES && offset == OffsetAt(i)
    modifies mem
    ensures var m1 := old(mem[..])[p := IdentityTable(i, flags)];
            mem[..] == m1[d := m1[d][i := DirEntry(p, flags)]]
  {
    FillTable(mem, entry / PAGE_SIZE, offset, flags, i);
    mem[directory / PAGE_SIZE] := mem[directory / PAGE_SIZE][i := OrWord(OrWord(entry, flags), IS_WRITEABLE)];
  }

  /** One round of paging_new's loop: allocate a table, fill it, and point the directory to it.
      `ok` records that no allocation has failed so far. */
  method AddTable(h: BlockHeap, mem: array<Frame>, directory: u32, flags: u32, i: int, offset: int, ghost free: nat,
                  ghost a: Allocs, ghost m: Ram, ghost d: int, ghost tables: seq<int>, ghost ok: bool)
    returns (ghost tables': seq<int>, ghost ok': bool)
    requires flags < 0x100 && 0 <= i < ENTRIES && offset == OffsetAt(i) && Underway(h, mem, free, i + 1, ok)
    requires directory == d * PAGE_SIZE && 0 <= d < PAGES
    requires ok ==> |tables| == i && Built(a, m, Live(h), mem[..], d, tables, flags)
    modifies h.entries, mem
    ensures Underway(h, mem, free, i + 2, ok')
    ensures ok' ==> ok && |tables'| == i + 1 && Built(a, m, Live(h), mem[..], d, tables', flags)
  {
    ghost var a1, m1 := Live(h), mem[..];
    var entry;
    ghost var p;
    entry, p := KzallocPage(h, mem, 4 * ENTRIES);
    ok' := ok && entry != 0;
    tables' := tables;
    if ok' {
      GrantedIsNew(a1, m1, Live(h), mem[..], p);
      assert d in FramesOf(d, tables);
    }
    InstallTable(mem, entry, p, directory, d, offset, flags, i);
    if ok' {
      BuiltOneMore(a, m, a1, m1, Live(h), mem[..], d, tables, p, flags);
      tables' := tables + [p];
    }
  }

  /** The loop of paging_new. */
  method AddTables(h: BlockHeap, mem: array<Frame>, directory: u32, flags: u32, ghost free: nat, ghost a: Allocs,
                   ghost m: Ram, ghost d: int, ghost first: bool)
    returns (ghost tables: seq<int>, ghost ok: bool)
    requires flags < 0x100 && Underway(h, mem, free, 1, first) && directory == d * PAGE_SIZE && 0 <= d < PAGES
    requires first ==> Built(a, m, Live(h), mem[..], d, [], flags)
    modifies h.entries, mem
    ensures Underway(h, mem, free, ENTRIES + 1, ok)
    ensures ok ==> |tables| == ENTRIES && Built(a, m, Live(h), mem[..], d, tables, flags)
  {
    tables, ok := [], first;
    var offset := 0;
    var i := 0;
    while i < ENTRIES
      invariant 0 <= i <= ENTRIES && offset == OffsetAt(i) && Underway(h, mem, free, i + 1, ok)
      invariant ok ==> |tables| == i && Built(a, m, Live(h), mem[..], d, tables, flags)
    {
      tables, ok := AddTable(h, mem, directory, flags, i, offset, free, a, m, d, tables, ok);
      OffsetStep(i);
      offset := Signed(Wrap(offset + PAGE_SIZE * ENTRIES));
      i := i + 1;
    }
  }

  /** A directory of fresh pages that maps every page to itself with the given flags, in the table's entry and,
      with the writable bit, in the directory's. */
  ghost predicate NewChunk(a: Allocs, m: Ram, a': Allocs, m': Ram, c: int, flags: u32)
    requires flags < 0x100
  {
    && DirOwned(a', m', c)
    && FlatMap(m', c) == IdentityMap(flags) && DirCarries(m', DirFrame(m', c), flags)
    && a' == WithPages(a, OwnedFrames(m', c))
    && AgreeOutside(m, m', OwnedFrames(m', c))
    && forall f :: f in OwnedFrames(m', c) ==> f !in a
  }

  const CHUNK_PAGES := ENTRIES + 2

  /** paging_new: with 1026 free blocks it returns a new directory of fresh pages that maps every page to
      itself; with fewer some allocation fails, the code writes through the null pointer, and the result
      is null. */
  method PagingNew(h: BlockHeap, mem: array<Frame>, flags: u32) returns (chunk: u32, ghost c: int)
    requires HeapOk(h) && IsRam(mem[..]) && flags < 0x100
    modifies h.entries, mem
    ensures HeapOk(h) && chunk == c * PAGE_SIZE
    ensures chunk != 0 <==> FreeBlocks(old(h.Table())) >= CHUNK_PAGES
    ensures chunk == 0 ==> FreeBlocks(h.Table()) == 0
    ensures chunk != 0 ==> NewChunk(old(Live(h)), old(mem[..]), Live(h), mem[..], c, flags)
  {
    ghost var a, m, free := Live(h), mem[..], FreeBlocks(h.Table());
    var directory;
    ghost var d, ok, tables;
    directory, d, ok := NewDirectory(h, mem, flags);
    tables, ok := AddTables(h, mem, directory, flags, free, a, m, d, ok);
    chunk, c := NewWrapper(h, mem, flags, directory, free, a, m, d, tables, ok);
  }

  method NewDirectory(h: BlockHeap, mem: array<Frame>, ghost flags: u32)
    returns (directory: u32, ghost d: int, ghost ok: bool)
    requires HeapOk(h) && IsRam(mem[..]) && flags < 0x100
    modifies h.entries, mem
    ensures directory == d * PAGE_SIZE && 0 <= d < PAGES
    ensures Underway(h, mem, FreeBlocks(old(h.Table())), 1, ok)
    ensures ok ==> Built(old(Live(h)), old(mem[..]), Live(h), mem[..], d, [], flags)
  {
    ghost var a, m := Live(h), mem[..];
    directory, d := KzallocPage(h, mem, 4 * ENTRIES);
    ok := directory != 0;
    if ok {
      GrantedIsNew(a, m, Live(h), mem[..], d);
      assert Live(h) == WithPages(a, FramesOf(d, []));
    }
  }

  method NewWrapper(h: BlockHeap, mem: array<Frame>, ghost flags: u32, directory: u32, ghost free: nat,
                    ghost a: Allocs, ghost m: Ram, ghost d: int, ghost tables: seq<int>, ghost ok: bool)
    returns (chunk: u32, ghost c: int)
    requires flags < 0x100 && directory == d * PAGE_SIZE && Underway(h, mem, free, ENTRIES + 1, ok)
    requires ok ==> |tables| == ENTRIES && Built(a, m, Live(h), mem[..], d, tables, flags)
    modifies h.entries, mem
    ensures HeapOk(h) && chunk == c * PAGE_SIZE
    ensures chunk != 0 <==> free >= CHUNK_PAGES
    ensures chunk == 0 ==> FreeBlocks(h.Table()) == 0
    ensures chunk != 0 ==> NewChunk(a, m, Live(h), mem[..], c, flags)
  {
    ghost var a1, m1 := Live(h), mem[..];
    chunk, c := KzallocPage(h, mem, 4);
    if chunk != 0 {
      GrantedIsNew(a1, m1, Live(h), mem[..], c);
    }
    mem[chunk / PAGE_SIZE] := mem[chunk / PAGE_SIZE][0 := directory];
    if chunk != 0 {
      WrapperCompletes(a, m, a1, m1, mem[..], d, tables, c, flags);
    }
  }

  // ---- paging_free ----

  /** The frames of the first i tables. */
  ghost function FirstTables(m: Ram, d: int, i: int): iset<int>
    requires IsRam(m) && 0 <= d < PAGES && i <= ENTRIES
  {
    iset f | IsFirstTable(m, d, i, f)
  }

  ghost predicate IsFirstTable(m: Ram, d: int, i: int, f: int)
    requires IsRam(m) && 0 <= d < PAGES && i <= ENTRIES
  {
    exists k :: 0 <= k < i && TableFrame(m, d, k) == f
  }

  lemma OneMoreTable(a: Allocs, m: Ram, d: int, i: int)
    requires DirOk(m, d) && 0 <= i < ENTRIES
    ensures TableFrame(m, d, i) !in FirstTables(m, d, i)
    ensures Without(Without(a, FirstTables(m, d, i)), iset{TableFrame(m, d, i)}) == Without(a, FirstTables(m, d, i + 1))
  {
    forall f ensures f in FirstTables(m, d, i + 1) <==> f in FirstTables(m, d, i) || f == TableFrame(m, d, i) {
    }
  }

  method FreeTable(h: BlockHeap, mem: array<Frame>, d: int, i: int, ghost a: Allocs)
    requires HeapOk(h) && DirOk(mem[..], d) && 0 <= i < ENTRIES
    requires Live(h) == Without(a, FirstTables(mem[..], d, i)) && TableFrame(mem[..], d, i) in a
    modifies h.entries
    ensures HeapOk(h) && Live(h) == Without(a, FirstTables(mem[..], d, i + 1))
  {
    ghost var m := mem[..];
    var entry := mem[d][i];
    OneMoreTable(a, m, d, i);
    Kfree(h, PageBase(entry), TableFrame(m, d, i));
  }

  /** The loop of paging_free, which reads each table's frame back from its directory entry. */
  method FreeTables(h: BlockHeap, mem: array<Frame>, d: int)
    requires HeapOk(h) && DirOk(mem[..], d) && forall f :: f in TableFrames(mem[..], d) ==> f in Live(h)
    modifies h.entries
    ensures HeapOk(h) && Live(h) == Without(old(Live(h)), TableFrames(mem[..], d))
  {
    ghost var a, m := Live(h), mem[..];
    assert Without(a, FirstTables(m, d, 0)) == a;
    var i := 0;
    while i < ENTRIES
      invariant 0 <= i <= ENTRIES && HeapOk(h)
      invariant Live(h) == Without(a, FirstTables(m, d, i))
    {
      assert TableFrame(m, d, i) in TableFrames(m, d);
      FreeTable(h, mem, d, i, a);
      i := i + 1;
    }
    assert FirstTables(m, d, ENTRIES) == TableFrames(m, d);
  }

  /** paging_free releases the tables, the directory and the wrapper, and nothing else. */
  method PagingFree(h: BlockHeap, mem: array<Frame>, chunk: u32, ghost c: int)
    requires HeapOk(h) && chunk == c * PAGE_SIZE && DirOwned(Live(h), mem[..], c)
    modifies h.entries
    ensures HeapOk(h)
    ensures Live(h) == Without(old(Live(h)), OwnedFrames(mem[..], c))
  {
    ghost var a, m := Live(h), mem[..];
    ghost var d := DirParts(a, m, c);
    var directory := mem[chunk / PAGE_SIZE][0];
    FreeTables(h, mem, directory / PAGE_SIZE);
    Kfree(h, directory, d);
    Kfree(h, chunk, c);
    WithoutAll(a, Tables(m, c), d, c);
  }

  /** The directory outlives its tables, and the wrapper outlives both. */
  lemma DirParts(a: Allocs, m: Ram, c: int) returns (d: int)
    requires DirOwned(a, m, c)
    ensures m[c][0] == d * PAGE_SIZE && 0 <= d < PAGES && DirOk(m, d) && d == DirFrame(m, c)
    ensures forall f :: f in TableFrames(m, d) ==> f in a
    ensures d in Without(a, TableFrames(m, d)) && c in Without(Without(a, TableFrames(m, d)), iset{d})
  {
    d := DirFrame(m, c);
    assert d in OwnedFrames(m, c) && c in OwnedFrames(m, c);
    assert forall f :: f in Tables(m, c) ==> f in OwnedFrames(m, c);
    forall i | 0 <= i < ENTRIES ensures TableFrame(m, d, i) != d {
    }
  }

  lemma WithoutAll(a: Allocs, tables: iset<int>, d: int, c: int)
    ensures Without(Without(Without(a, tables), iset{d}), iset{c}) == Without(a, iset{c, d} + tables)
  {
  }

  // ---- between paging_new and paging_free ----

  /** Something else happening in the kernel: a mapping call on some directory, a granted
      allocation, or the release of a page that this directory does not own. */
  datatype Event = Mapped(chunk: int, call: MapCall) | Allocated(page: int, pages: nat) | Released(page: int)

  datatype Snapshot = Snapshot(a: Allocs, m: Ram)

  /** Directories in use are wholly apart from each other. */
  ghost predicate Apart(m: Ram, c: int, c': int) {
    ChunkOk(m, c) && ChunkOk(m, c') && (c == c' || OwnedFrames(m, c) !! OwnedFrames(m, c'))
  }

  ghost predicate Happens(s: Snapshot, c: int, e: Event, s': Snapshot)
    requires ChunkOk(s.m, c)
  {
    match e
    case Mapped(c', call) => Apart(s.m, c, c') && MapStep(s.m, c', call, s'.m) && s'.a == s.a
    case Allocated(p, n) => Disjoint(s.a) && Granted(s.a, s.m, s'.a, s'.m, p, n)
    case Released(p) => p !in OwnedFrames(s.m, c) && s' == Snapshot(Without(s.a, iset{p}), s.m)
  }

  lemma AllocationKeepsDirectory(a: Allocs, m: Ram, a': Allocs, m': Ram, p: int, n: nat, c: int)
    requires DirOwned(a, m, c) && Disjoint(a) && Granted(a, m, a', m', p, n)
    ensures DirOwned(a', m', c) && SameChunk(m, m', c, FlatMap(m, c))
    ensures OwnedFrames(m', c) == OwnedFrames(m, c)
  {
    FreshStart(a, p, n);
    forall f | f in OwnedFrames(m, c) ensures f !in Span(p, n) {
      assert Covers(a, f, f);
    }
    assert c in OwnedFrames(m, c) && DirFrame(m, c) in OwnedFrames(m, c);
    ChunkUnaffected(m, m', c, Span(p, n));
  }

  lemma OtherTablesKeepDirectory(a: Allocs, m: Ram, m': Ram, c: int, c': int)
    requires DirOwned(a, m, c) && Apart(m, c, c') && c != c' && AgreeOutside(m, m', Tables(m, c'))
    ensures DirOwned(a, m', c) && SameChunk(m, m', c, FlatMap(m, c))
    ensures OwnedFrames(m', c) == OwnedFrames(m, c)
  {
    assert c in OwnedFrames(m, c) && DirFrame(m, c) in OwnedFrames(m, c);
    assert Tables(m, c') <= OwnedFrames(m, c') && Tables(m, c) <= OwnedFrames(m, c);
    ChunkUnaffected(m, m', c, Tables(m, c'));
  }

  lemma MappingKeepsDirectory(a: Allocs, m: Ram, m': Ram, c: int, c': int, call: MapCall)
    requires DirOwned(a, m, c) && Apart(m, c, c') && MapStep(m, c', call, m')
    ensures DirOwned(a, m', c) && OwnedFrames(m', c) == OwnedFrames(m, c) && SameDirectory(m, m', c)
    ensures FlatMap(m', c) == if c' == c then FlatAfter(FlatMap(m, c), call) else FlatMap(m, c)
  {
    if c' != c && call.Accepted() {
      OtherTablesKeepDirectory(a, m, m', c, c');
    }
  }

  /** The wrapper points to the same directory, which has the same words. */
  ghost predicate SameDirectory(m: Ram, m': Ram, c: int)
    requires ChunkOk(m, c) && ChunkOk(m', c)
  {
    DirFrame(m', c) == DirFrame(m, c) && m'[DirFrame(m', c)] == m[DirFrame(m, c)]
  }

  lemma EventKeepsDirectory(s: Snapshot, c: int, e: Event, s': Snapshot)
    requires DirOwned(s.a, s.m, c) && Happens(s, c, e, s')
    ensures DirOwned(s'.a, s'.m, c) && SameDirectory(s.m, s'.m, c)
    ensures OwnedFrames(s'.m, c) == OwnedFrames(s.m, c)
    ensures FlatMap(s'.m, c)
         == if e.Mapped? && e.chunk == c then FlatAfter(FlatMap(s.m, c), e.call) else FlatMap(s.m, c)
  {
    match e
    case Mapped(c', call) => MappingKeepsDirectory(s.a, s.m, s'.m, c, c', call);
    case Allocated(p, n) => AllocationKeepsDirectory(s.a, s.m, s'.a, s'.m, p, n, c);
    case Released(p) =>
  }

  ghost predicate History(states: seq<Snapshot>, c: int, events: seq<Event>) {
    && |states| == |events| + 1
    && forall i :: 0 <= i < |events| ==> HappensAt(states, c, events, i)
  }

  ghost predicate HappensAt(states: seq<Snapshot>, c: int, events: seq<Event>, i: int)
    requires |states| == |events| + 1 && 0 <= i < |events|
  {
    ChunkOk(states[i].m, c) && Happens(states[i], c, events[i], states[i + 1])
  }

  /** The mapping calls among the events that were made on this directory, in order. */
  function OwnCalls(events: seq<Event>, c: int, k: nat): seq<MapCall>
    requires k <= |events|
  {
    if k == 0 then []
    else
      var e, earlier := events[k - 1], OwnCalls(events, c, k - 1);
      if e.Mapped? && e.chunk == c then earlier + [e.call] else earlier
  }

  /** From paging_new to paging_free, whatever else happens: the directory keeps owning exactly the
      frames it was built from, and stands for its first map with its own mapping calls applied. */
  lemma {:induction false} DirectoryLifetime(states: seq<Snapshot>, c: int, events: seq<Event>, k: nat)
    requires History(states, c, events) && DirOwned(states[0].a, states[0].m, c) && k <= |events|
    ensures DirOwned(states[k].a, states[k].m, c) && SameDirectory(states[0].m, states[k].m, c)
    ensures OwnedFrames(states[k].m, c) == OwnedFrames(states[0].m, c)
    ensures FlatMap(states[k].m, c) == FlatAfterAll(FlatMap(states[0].m, c), OwnCalls(events, c, k))
  {
    if k > 0 {
      DirectoryLifetime(states, c, events, k - 1);
      assert HappensAt(states, c, events, k - 1);
      EventKeepsDirectory(states[k - 1], c, events[k - 1], states[k]);
      if events[k - 1].Mapped? && events[k - 1].chunk == c {
        FlatAfterOneMore(FlatMap(states[0].m, c), OwnCalls(events, c, k - 1), events[k - 1].call);
      }
    }
  }

  /** What user programs can reach through a directory made with the present and user flags is at every moment of
      its life decided by its first map and its own mapping calls alone. */
  lemma LifetimeAccess(a: Allocs, m: Ram, states: seq<Snapshot>, c: int, flags: u32, events: seq<Event>, k: nat, v: u32,
                       write: bool)
    requires flags < 0x100 && Bit(flags, 0) && Bit(flags, 2)
    requires History(states, c, events) && NewChunk(a, m, states[0].a, states[0].m, c, flags) && k <= |events|
    ensures ChunkOk(states[k].m, c)
    ensures UserWalk(states[k].m, DirFrame(states[k].m, c), v, write)
         == FlatAccess(FlatAfterAll(IdentityMap(flags), OwnCalls(events, c, k)), v, write)
  {
    DirectoryLifetime(states, c, events, k);
    var (m0, mk) := (states[0].m, states[k].m);
    OpenWhenCarried(m0, DirFrame(m0, c), flags);
    SameOpen(m0, mk, c);
    WalkIsFlat(mk, DirFrame(mk, c), v, write);
  }

  lemma SameOpen(m: Ram, m': Ram, c: int)
    requires ChunkOk(m, c) && ChunkOk(m', c) && SameDirectory(m, m', c) && OpenChunk(m, c)
    ensures OpenChunk(m', c)
  {
  }

  lemma FlatAfterOneMore(flat: seq<u32>, calls: seq<MapCall>, call: MapCall)
    requires |flat| == PAGES
    ensures FlatAfterAll(flat, calls + [call]) == FlatAfter(FlatAfterAll(flat, calls), call)
  {
    SameFirstCalls(flat, calls, calls + [call], |calls|);
  }

  /** So freeing a directory that was only ever mapped through restores the allocations as they
      were before paging_new. */
  lemma {:induction false} MappedOnlyThenFreed(a: Allocs, states: seq<Snapshot>, c: int, events: seq<Event>)
    requires History(states, c, events) && DirOwned(states[0].a, states[0].m, c)
    requires states[0].a == WithPages(a, OwnedFrames(states[0].m, c))
    requires forall f :: f in OwnedFrames(states[0].m, c) ==> f !in a
    requires forall i :: 0 <= i < |events| ==> events[i].Mapped?
    ensures Without(states[|events|].a, OwnedFrames(states[0].m, c)) == a
  {
    var i := 0;
    while i < |events|
      invariant 0 <= i <= |events| && states[i].a == states[0].a
    {
      assert HappensAt(states, c, events, i);
      i := i + 1;
    }
  }
}
