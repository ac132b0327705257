/** kmalloc, kzalloc and kfree: the block heap acting on physical memory, seen page by page. */
module KernelMemory {
  import opened Words
  import opened HeapTable
  import opened Heap
  import opened Paging
  import opened Bytes

  /** The allocations by page number: where each starts and how many pages it has. */
  type Allocs = imap<int, nat>

  ghost predicate StartsAt(base: int, live: map<nat, nat>, p: int) {
    p >= base && p - base in live
  }

  ghost function ByPage(base: int, live: map<nat, nat>): Allocs {
    imap p: int | StartsAt(base, live, p) :: live[p - base]
  }

  ghost function Without(a: Allocs, gone: iset<int>): Allocs {
    imap p | p in a && p !in gone :: a[p]
  }

  lemma ByPageAdd(base: int, live: map<nat, nat>, s: nat, n: nat)
    ensures ByPage(base, live[s := n]) == ByPage(base, live)[base + s := n]
  {
  }

  lemma ByPageRemove(base: int, live: map<nat, nat>, s: nat)
    ensures ByPage(base, live - {s}) == Without(ByPage(base, live), iset{base + s})
  {
  }

  ghost predicate Covers(a: Allocs, p: int, k: int) {
    p in a && p <= k < p + a[p]
  }

  /** The pages p, p + 1, ..., p + n - 1. */
  ghost function Span(p: int, n: int): iset<int> {
    iset k | InSpan(p, n, k)
  }

  predicate InSpan(p: int, n: int, k: int) {
    p <= k < p + n
  }

  ghost predicate HeapOk(h: BlockHeap)
    reads h.entries
  {
    h.Valid() && WellFormed(h.Table())
  }

  ghost function Live(h: BlockHeap): Allocs
    requires HeapOk(h)
    reads h.entries
  {
    ByPage(h.base, LiveRuns(h.Table()))
  }

  /** Allocations whose runs are non-empty, inside memory, clear of page 0 and pairwise disjoint. */
  ghost predicate Disjoint(a: Allocs) {
    && (forall p :: p in a ==> 1 <= a[p] && 0 < p && p + a[p] < PAGES)
    && (forall p, q, k :: Covers(a, p, k) && Covers(a, q, k) ==> p == q)
  }

  lemma CoveredIsInRun(base: int, live: map<nat, nat>, p: int, k: int)
    requires Covers(ByPage(base, live), p, k)
    ensures p >= base && InRun(live, p - base, k - base)
  {
  }

  lemma LiveIsDisjoint(h: BlockHeap)
    requires HeapOk(h)
    ensures Disjoint(Live(h))
  {
    var a, base, t := Live(h), h.base, h.Table();
    forall p, q, k | Covers(a, p, k) && Covers(a, q, k) ensures p == q {
      CoveredIsInRun(base, LiveRuns(t), p, k);
      CoveredIsInRun(base, LiveRuns(t), q, k);
      RunsDisjoint(t, LiveRuns(t), p - base, q - base, k - base);
    }
  }

  // ---- clearing memory ----

  /** memset(ptr, 0, size) for ptr at the start of page p: exactly the bytes of [ptr, ptr + size) become zero. */
  ghost predicate ClearedFrom(m: Ram, m': Ram, p: int, size: u32) {
    && IsRam(m) && IsRam(m')
    && forall f, k :: 0 <= f < PAGES && 0 <= k < PAGE_SIZE ==> ByteCleared(m, m', p, size, f, k)
  }

  ghost predicate ByteCleared(m: Ram, m': Ram, p: int, size: u32, f: int, k: int)
    requires IsRam(m) && IsRam(m') && 0 <= f < PAGES && 0 <= k < PAGE_SIZE
  {
    FrameByte(m'[f], k)
    == if p * PAGE_SIZE <= f * PAGE_SIZE + k < p * PAGE_SIZE + size then 0 else FrameByte(m[f], k)
  }

  /** A word of which the n lowest bytes are set to zero, one after the other. */
  function ClearedWord(w: u32, n: nat): u32
    requires n <= 4
  {
    if n == 0 then w else StoreByte(ClearedWord(w, n - 1), n - 1, 0)
  }

  lemma {:induction false} ClearedWordBytes(w: u32, n: nat, b: int)
    requires n <= 4 && 0 <= b < 4
    ensures ByteOf(ClearedWord(w, n), b) == if b < n then 0 else ByteOf(w, b)
  {
    if n > 0 {
      ClearedWordBytes(w, n - 1, b);
      StoreByteIs(ClearedWord(w, n - 1), n - 1, 0, b);
    }
  }

  /** How many bytes of word k are among the first `left` of a frame. */
  function BytesOfWord(left: int, k: nat): (n: nat)
    ensures n <= 4
  {
    if left <= 4 * k then 0 else if left >= 4 * k + 4 then 4 else left - 4 * k
  }

  /** A frame of which the first `left` bytes are set to zero. */
  function ClearedFrame(f: Frame, left: int): Frame {
    seq(1024, k requires 0 <= k < 1024 => ClearedWord(f[k], BytesOfWord(left, k)))
  }

  lemma ClearedFrameByte(f: Frame, left: int, k: int)
    requires 0 <= k < PAGE_SIZE
    ensures FrameByte(ClearedFrame(f, left), k) == if k < left then 0 else FrameByte(f, k)
  {
    ClearedWordBytes(f[k / 4], BytesOfWord(left, k / 4), k % 4);
  }

  method ClearMemory(mem: array<Frame>, ptr: u32, ghost p: int, size: u32)
    requires IsRam(mem[..]) && 0 <= p && ptr == p * PAGE_SIZE && ptr + size <= WORD_LIMIT
    modifies mem
    ensures ClearedFrom(old(mem[..]), mem[..], p, size)
  {
    ghost var m := mem[..];
    var f := ptr / PAGE_SIZE;
    var left: int := size;
    while left > 0
      invariant p <= f <= PAGES && left == size - (f - p) * PAGE_SIZE
      invariant left > 0 ==> f < PAGES
      invariant forall g :: 0 <= g < p || f <= g < PAGES ==> mem[g] == m[g]
      invariant forall g :: p <= g < f ==> mem[g] == ClearedFrame(m[g], size - (g - p) * PAGE_SIZE)
      decreases left
    {
      mem[f] := ClearedFrame(mem[f], left);
      left := left - PAGE_SIZE;
      f := f + 1;
    }
    forall g, k | 0 <= g < PAGES && 0 <= k < PAGE_SIZE ensures ByteCleared(m, mem[..], p, size, g, k) {
      if p <= g < f {
        ClearedFrameByte(m[g], size - (g - p) * PAGE_SIZE, k);
      }
    }
  }

  lemma ClearedStaysInSpan(m: Ram, m': Ram, p: int, size: u32, n: int)
    requires ClearedFrom(m, m', p, size) && size <= n * PAGE_SIZE
    ensures AgreeOutside(m, m', Span(p, n))
  {
    forall f | 0 <= f < PAGES && f !in Span(p, n) ensures m'[f] == m[f] {
      assert !InSpan(p, n, f);
      forall k | 0 <= k < PAGE_SIZE ensures FrameByte(m'[f], k) == FrameByte(m[f], k) {
        assert ByteCleared(m, m', p, size, f, k);
      }
      SameBytes(m'[f], m[f]);
    }
  }

  // ---- kzalloc and kfree ----

  /** No allocation covers any of the n pages from p. */
  ghost predicate FreshPages(a: Allocs, p: int, n: nat) {
    forall q, k :: Covers(a, q, k) ==> !InSpan(p, n, k)
  }

  lemma FreshStart(a: Allocs, p: int, n: nat)
    requires Disjoint(a) && FreshPages(a, p, n) && n >= 1
    ensures p !in a
  {
    assert p in a ==> Covers(a, p, p);
    assert InSpan(p, n, p);
  }

  /** A granted request: a run of n fresh pages from p is added and nothing outside it is written. */
  ghost predicate Granted(a: Allocs, m: Ram, a': Allocs, m': Ram, p: int, n: nat) {
    && n >= 1 && 0 < p && p + n < PAGES
    && a' == a[p := n]
    && FreshPages(a, p, n)
    && AgreeOutside(m, m', Span(p, n))
  }

  /** When the C code of kzalloc would write outside the table or past the end of memory. */
  ghost predicate Overruns(h: BlockHeap, t: Table, size: u32)
    requires h.Valid() && |t| == h.entries.Length
  {
    match Place(t, BlocksFor(size))
    case NoMemory => false
    case Overrun => true
    case Placed(s, _) => (h.base + s) * PAGE_SIZE + size > WORD_LIMIT
  }

  method Kzalloc(h: BlockHeap, mem: array<Frame>, size: u32) returns (ptr: u32, overrun: bool)
    requires h.Valid() && IsRam(mem[..])
    modifies h.entries, mem
    ensures overrun <==> Overruns(h, old(h.Table()), size)
    ensures !overrun ==>
              match Place(old(h.Table()), BlocksFor(size))
              case NoMemory => ptr == 0 && h.Table() == old(h.Table()) && mem[..] == old(mem[..])
              case Overrun => false
              case Placed(s, t) => ptr == (h.base + s) * PAGE_SIZE && h.Table() == t
                                   && ClearedFrom(old(mem[..]), mem[..], h.base + s, size)
  {
    ghost var placed := Place(h.Table(), BlocksFor(size));
    ptr, overrun := h.Malloc(size);
    if overrun || ptr == 0 {
      return;
    }
    if ptr + size > WORD_LIMIT {
      overrun := true;
      return;
    }
    ClearMemory(mem, ptr, h.base + placed.block, size);
  }

  /** On a well-formed heap every safe request either leaves everything as it was, because no
      run is long enough, or is granted fresh, cleared pages. */
  method SafeKzalloc(h: BlockHeap, mem: array<Frame>, size: u32) returns (ptr: u32, ghost p: int)
    requires HeapOk(h) && IsRam(mem[..]) && SafeRequest(h.Table(), BlocksFor(size))
    modifies h.entries, mem
    ensures HeapOk(h) && IsRam(mem[..])
    ensures ptr == 0 <==> !HasFit(old(h.Table()), BlocksFor(size))
    ensures ptr == 0 ==> h.Table() == old(h.Table()) && mem[..] == old(mem[..])
    ensures ptr != 0 ==>
              && ptr == p * PAGE_SIZE
              && Granted(old(Live(h)), old(mem[..]), Live(h), mem[..], p, BlocksFor(size))
              && ClearedFrom(old(mem[..]), mem[..], p, size)
              && p >= h.base && Place(old(h.Table()), BlocksFor(size)) == Placed(p - h.base, h.Table())
  {
    ghost var m, t0 := mem[..], h.Table();
    ghost var s, t := SafeOutcome(h, h.Table(), size);
    p := h.base + s;
    var overrun;
    ptr, overrun := Kzalloc(h, mem, size);
    if ptr != 0 {
      assert h.Table() == t;
      ClearedStaysInSpan(m, mem[..], p, size, BlocksFor(size));
      RunGranted(h, t0, t, m, mem[..], s, BlocksFor(size));
    }
  }

  lemma RunGranted(h: BlockHeap, t: Table, t': Table, m: Ram, m': Ram, s: nat, n: nat)
    requires h.Valid() && |t| == h.entries.Length && RunAdded(h.base, t, t', s, n) && 1 <= n && s + n <= |t|
    requires AgreeOutside(m, m', Span(h.base + s, n))
    ensures Granted(ByPage(h.base, LiveRuns(t)), m, ByPage(h.base, LiveRuns(t')), m', h.base + s, n)
  {
  }

  lemma SizeFits(size: u32)
    ensures BlocksFor(size) >= 1 ==> size <= BlocksFor(size) * PAGE_SIZE
  {
    BlocksForIsCeiling(size);
  }

  lemma SafePlace(t: Table, n: nat)
    requires SafeRequest(t, n)
    ensures HasFit(t, n) ==> Place(t, n) == Placed(FirstFit(t, n, 0), Marked(t, FirstFit(t, n, 0), n))
    ensures HasFit(t, n) ==> 1 <= n && FirstFit(t, n, 0) + n <= |t|
    ensures !HasFit(t, n) ==> Place(t, n) == NoMemory
  {
    TrailingStartAtEnd(t);
  }

  /** What a safe request does to the table: the block it takes, if any, and the table afterwards. */
  lemma SafeOutcome(h: BlockHeap, t: Table, size: u32) returns (s: int, t': Table)
    requires h.Valid() && |t| == h.entries.Length && WellFormed(t) && SafeRequest(t, BlocksFor(size))
    ensures !Overruns(h, t, size)
    ensures s < 0 ==> !HasFit(t, BlocksFor(size)) && Place(t, BlocksFor(size)) == NoMemory
    ensures s >= 0 ==>
              && HasFit(t, BlocksFor(size)) && Place(t, BlocksFor(size)) == Placed(s, t')
              && 1 <= BlocksFor(size) && s + BlocksFor(size) <= |t| && size <= BlocksFor(size) * PAGE_SIZE
              && RunAdded(h.base, t, t', s, BlocksFor(size))
  {
    s, t' := -1, t;
    if HasFit(t, BlocksFor(size)) {
      s, t' := FitOutcome(h, t, size);
    } else {
      SafePlace(t, BlocksFor(size));
    }
  }

  /** Going from t to t' adds a live run of n fresh blocks from s. */
  ghost predicate RunAdded(base: int, t: Table, t': Table, s: nat, n: nat) {
    && WellFormed(t) && WellFormed(t')
    && ByPage(base, LiveRuns(t')) == ByPage(base, LiveRuns(t))[base + s := n]
    && FreshPages(ByPage(base, LiveRuns(t)), base + s, n)
  }

  lemma FitOutcome(h: BlockHeap, t: Table, size: u32) returns (s: nat, t': Table)
    requires h.Valid() && |t| == h.entries.Length && WellFormed(t) && HasFit(t, BlocksFor(size))
    ensures !Overruns(h, t, size) && Place(t, BlocksFor(size)) == Placed(s, t')
    ensures 1 <= BlocksFor(size) && s + BlocksFor(size) <= |t| && size <= BlocksFor(size) * PAGE_SIZE
    ensures RunAdded(h.base, t, t', s, BlocksFor(size))
  {
    var n := BlocksFor(size);
    SafePlace(t, n);
    s := FirstFit(t, n, 0);
    t' := Marked(t, s, n);
    SizeFits(size);
    NoOverrun(h, t, size, s, t');
    PlacedAllocs(h.base, t, s, n);
  }

  lemma NoOverrun(h: BlockHeap, t: Table, size: u32, s: nat, t': Table)
    requires h.Valid() && |t| == h.entries.Length && Place(t, BlocksFor(size)) == Placed(s, t')
    requires s + BlocksFor(size) <= |t| && size <= BlocksFor(size) * PAGE_SIZE
    ensures !Overruns(h, t, size)
  {
  }

  lemma FreshRuns(base: int, t: Table, s: nat, n: nat)
    requires WellFormed(t) && Fits(t, s, n)
    ensures FreshPages(ByPage(base, LiveRuns(t)), base + s, n)
  {
    forall q, k | Covers(ByPage(base, LiveRuns(t)), q, k) ensures !InSpan(base + s, n, k) {
      CoveredIsInRun(base, LiveRuns(t), q, k);
      MarkedEncodes(t, LiveRuns(t), s, n);
    }
  }

  lemma PlacedAllocs(base: int, t: Table, s: nat, n: nat)
    requires WellFormed(t) && HasFit(t, n) && s == FirstFit(t, n, 0)
    ensures RunAdded(base, t, Marked(t, s, n), s, n)
  {
    SafePlacement(t, n);
    ByPageAdd(base, LiveRuns(t), s, n);
    FreshRuns(base, t, s, n);
  }

  /** Two heaps with the same live pages have the same table. */
  lemma LiveDeterminesTable(base: int, t1: Table, t2: Table)
    requires WellFormed(t1) && WellFormed(t2) && |t1| == |t2|
    requires ByPage(base, LiveRuns(t1)) == ByPage(base, LiveRuns(t2))
    ensures t1 == t2
  {
    ByPageInjective(base, LiveRuns(t1), LiveRuns(t2));
    EncodingDeterminesTable(t1, t2, LiveRuns(t1));
  }

  lemma ByPageInjective(base: int, l1: map<nat, nat>, l2: map<nat, nat>)
    requires ByPage(base, l1) == ByPage(base, l2)
    ensures l1 == l2
  {
    forall s: nat ensures s in l1 <==> s in l2 {
      assert base + s in ByPage(base, l1) <==> base + s in ByPage(base, l2);
    }
    forall s: nat | s in l1 ensures l1[s] == l2[s] {
      assert ByPage(base, l1)[base + s] == ByPage(base, l2)[base + s];
    }
  }

  /** kfree of a live pointer removes exactly that allocation, kfree of null changes nothing, and of any
      other pointer it clears the chain of flags that starts at its block. */
  method Kfree(h: BlockHeap, ptr: u32, ghost p: int)
    requires h.Valid()
    modifies h.entries
    ensures h.Table() == Cleared(old(h.Table()), h.AddressToBlock(ptr))
    ensures ptr == 0 ==> h.Table() == old(h.Table())
    ensures old(HeapOk(h)) && ptr == p * PAGE_SIZE && p in old(Live(h)) ==>
              HeapOk(h) && Live(h) == Without(old(Live(h)), iset{p})
  {
    ghost var t := h.Table();
    h.Free(ptr);
    h.NullIsNoBlock();
    if WellFormed(t) && ptr == p * PAGE_SIZE && p in ByPage(h.base, LiveRuns(t)) {
      FreeIsExact(h, t, p);
    }
  }

  lemma FreeIsExact(h: BlockHeap, t: Table, p: int)
    requires h.Valid() && WellFormed(t) && |t| == h.entries.Length && p in ByPage(h.base, LiveRuns(t))
    ensures 0 < p < PAGES
    ensures var t' := Cleared(t, h.AddressToBlock(p * PAGE_SIZE));
            WellFormed(t') && ByPage(h.base, LiveRuns(t')) == Without(ByPage(h.base, LiveRuns(t)), iset{p})
  {
    var b := p - h.base;
    assert b in LiveRuns(t) && b < |t|;
    h.AddressRoundTrip(b);
    ReleaseOfLive(t, b);
    ByPageRemove(h.base, LiveRuns(t), b);
  }

  /** A request for one block never runs into a short trailing run. */
  lemma OneBlockIsSafe(t: Table)
    ensures SafeRequest(t, 1)
  {
    if |t| > 0 && IsFree(t[|t| - 1]) {
      assert Fits(t, |t| - 1, 1);
    }
  }

  lemma PlacedOne(t: Table, s: nat, t': Table)
    requires HasFit(t, 1) && Place(t, 1) == Placed(s, t')
    ensures FreeBlocks(t') == FreeBlocks(t) - 1
  {
    MarkedOne(t, FirstFit(t, 1, 0));
  }

  /** kzalloc of a structure that fits one page: safe on every well-formed heap. */
  method KzallocPage(h: BlockHeap, mem: array<Frame>, size: u32) returns (ptr: u32, ghost p: int)
    requires HeapOk(h) && IsRam(mem[..]) && 1 <= size <= PAGE_SIZE
    modifies h.entries, mem
    ensures HeapOk(h) && IsRam(mem[..]) && Disjoint(old(Live(h)))
    ensures ptr == 0 <==> FreeBlocks(old(h.Table())) == 0
    ensures ptr == 0 ==> p == 0 && h.Table() == old(h.Table()) && mem[..] == old(mem[..])
    ensures ptr == p * PAGE_SIZE && 0 <= p < PAGES
    ensures ptr != 0 ==> FreeBlocks(h.Table()) == FreeBlocks(old(h.Table())) - 1
    ensures ptr != 0 ==> Granted(old(Live(h)), old(mem[..]), Live(h), mem[..], p, 1)
                         && ClearedFrom(old(mem[..]), mem[..], p, size)
  {
    ghost var t := h.Table();
    OneBlockIsSafe(t);
    OneBlockFits(t);
    LiveIsDisjoint(h);
    ptr, p := SafeKzalloc(h, mem, size);
    if ptr == 0 {
      p := 0;
    } else {
      PlacedOne(t, p - h.base, h.Table());
    }
  }
}
