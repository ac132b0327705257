/** process_map_memory for an ELF process: its program headers and its stack become mapping calls
    on the fresh identity map, and the bytes of a segment appear where the file says. */
module ElfMapping {
  import opened Words
  import opened Paging

  const STACK_SIZE := 1024 * 16
  const STACK_END := 0x3F_F000 - STACK_SIZE  // lowest address of the user stack

  /** The fields of a program header that the mapping reads; `writable` is p_flags & PF_W. */
  datatype Phdr = Phdr(vaddr: u32, offset: u32, memsz: u32, writable: bool)

  /** Where the segment's bytes lie in the loaded file. */
  function PhysAddress(elfMemory: u32, ph: Phdr): u32 {
    Wrap(elfMemory + ph.offset)
  }

  function SegmentFlags(ph: Phdr): u32 {
    OrWord(IS_PRESENT + ACCESS_FROM_ALL, if ph.writable then IS_WRITEABLE else 0)
  }

  lemma SegmentFlagsAre(ph: Phdr)
    ensures SegmentFlags(ph) == if ph.writable then USER_RW else USER_RO
  {
    OrUnfold(5, 2);
    OrUnfold(2, 1);
    OrWordIsOr(5, if ph.writable then 2 else 0);
  }

  function SegmentCall(elfMemory: u32, ph: Phdr): MapCall {
    var phys := PhysAddress(elfMemory, ph);
    MapCall(AlignToLowerPage(ph.vaddr), AlignToLowerPage(phys), AlignAddress(Wrap(phys + ph.memsz)),
            if ph.writable then USER_RW else USER_RO)
  }

  function SegmentCalls(elfMemory: u32, phdrs: seq<Phdr>): (calls: seq<MapCall>)
    ensures |calls| == |phdrs|
  {
    seq(|phdrs|, i requires 0 <= i < |phdrs| => SegmentCall(elfMemory, phdrs[i]))
  }

  function StackCall(stack: u32): MapCall {
    MapCall(STACK_END, stack, AlignAddress(Wrap(stack + STACK_SIZE)), USER_RW)
  }

  /** All calls of a load: the segments in order, and then the stack. */
  function LoadCalls(elfMemory: u32, phdrs: seq<Phdr>, stack: u32): (calls: seq<MapCall>)
    ensures |calls| == |phdrs| + 1
  {
    seq(|phdrs| + 1, i requires 0 <= i < |phdrs| + 1 =>
      if i < |phdrs| then SegmentCall(elfMemory, phdrs[i]) else StackCall(stack))
  }

  predicate AllAccepted(calls: seq<MapCall>) {
    forall i :: 0 <= i < |calls| ==> calls[i].Accepted()
  }

  /** Call n is the first one that paging_map_to refuses. */
  predicate FirstRefused(calls: seq<MapCall>, n: nat) {
    n < |calls| && !calls[n].Accepted() && forall i :: 0 <= i < n ==> calls[i].Accepted()
  }

  /** The calls up to the first refused one have been made. */
  ghost predicate MappedUntilRefused(m: Ram, m': Ram, c: int, calls: seq<MapCall>)
    requires ChunkOk(m, c)
  {
    exists n :: FirstRefused(calls, n) && Remapped(m, m', c, FlatAfterFirst(FlatMap(m, c), calls, n))
  }

  /** paging_map_to with these arguments. */
  method Perform(mem: array<Frame>, c: int, call: MapCall) returns (res: int)
    requires ChunkOk(mem[..], c)
    modifies mem
    ensures res == if call.Accepted() then 0 else -EINVARG
    ensures MapStep(old(mem[..]), c, call, mem[..]) && ChunkOk(mem[..], c)
  {
    res := MapTo(mem, c, call.virt, call.phys, call.physEnd, call.flags);
  }

  /** process_map_elf: the segments are mapped in order, up to the first one that is refused. */
  method MapElf(mem: array<Frame>, c: int, elfMemory: u32, phdrs: seq<Phdr>) returns (res: int)
    requires ChunkOk(mem[..], c)
    modifies mem
    ensures res == if AllAccepted(SegmentCalls(elfMemory, phdrs)) then 0 else -EINVARG
    ensures res < 0 ==> MappedUntilRefused(old(mem[..]), mem[..], c, SegmentCalls(elfMemory, phdrs))
    ensures res == 0 ==>
              Remapped(old(mem[..]), mem[..], c,
                       FlatAfterAll(old(FlatMap(mem[..], c)), SegmentCalls(elfMemory, phdrs)))
  {
    res := 0;
    ghost var m, calls := mem[..], SegmentCalls(elfMemory, phdrs);
    var i := 0;
    while i < |phdrs|
      invariant 0 <= i <= |phdrs| && res == 0
      invariant forall j :: 0 <= j < i ==> calls[j].Accepted()
      invariant Remapped(m, mem[..], c, FlatAfterFirst(FlatMap(m, c), calls, i))
    {
      var phys := PhysAddress(elfMemory, phdrs[i]);
      SegmentFlagsAre(phdrs[i]);
      ghost var m1 := mem[..];
      res := Perform(mem, c, MapCall(AlignToLowerPage(phdrs[i].vaddr), AlignToLowerPage(phys),
                                     AlignAddress(Wrap(phys + phdrs[i].memsz)), SegmentFlags(phdrs[i])));
      if res < 0 {
        assert FirstRefused(calls, i);
        break;
      }
      OneMoreCall(m, m1, mem[..], c, calls, i);
      i := i + 1;
    }
  }

  /** process_map_memory for an ELF process; the result of mapping the stack is not checked. */
  method MapMemory(mem: array<Frame>, c: int, elfMemory: u32, phdrs: seq<Phdr>, stack: u32) returns (res: int)
    requires ChunkOk(mem[..], c)
    modifies mem
    ensures res == if AllAccepted(SegmentCalls(elfMemory, phdrs)) then 0 else -EINVARG
    ensures res < 0 ==> MappedUntilRefused(old(mem[..]), mem[..], c, SegmentCalls(elfMemory, phdrs))
    ensures res == 0 ==>
              Remapped(old(mem[..]), mem[..], c,
                       FlatAfterAll(old(FlatMap(mem[..], c)), LoadCalls(elfMemory, phdrs, stack)))
  {
    ghost var m, calls := mem[..], LoadCalls(elfMemory, phdrs, stack);
    res := MapElf(mem, c, elfMemory, phdrs);
    if res < 0 {
      return;
    }
    ghost var m1 := mem[..];
    SameFirstCalls(FlatMap(m, c), SegmentCalls(elfMemory, phdrs), calls, |phdrs|);
    var _ := Perform(mem, c, MapCall(STACK_END, stack, AlignAddress(Wrap(stack + STACK_SIZE)), USER_RW));
    assert calls[|phdrs|] == StackCall(stack);
    OneMoreCall(m, m1, mem[..], c, calls, |phdrs|);
  }

  // ---- what the mappings mean ----

  /** The whole image of the segment lies below the last page of memory. */
  predicate Fits(elfMemory: u32, ph: Phdr) {
    PhysAddress(elfMemory, ph) + ph.memsz <= WORD_LIMIT - PAGE_SIZE
  }

  /** What the ABI asks of a loadable segment (System V ABI, chapter 5, "Program Header"), for an
      image that starts on a page. */
  predicate Congruent(elfMemory: u32, ph: Phdr) {
    ph.vaddr % PAGE_SIZE == PhysAddress(elfMemory, ph) % PAGE_SIZE
  }

  function PageOfByte(ph: Phdr, k: int): int {
    Wrap(ph.vaddr + k) / PAGE_SIZE
  }

  /** Byte k of the segment is the (vaddr % 4096 + k)-th byte from the first mapped page. */
  lemma ByteDistance(ph: Phdr, k: nat)
    requires k < ph.memsz
    ensures Distance(ph.vaddr / PAGE_SIZE, PageOfByte(ph, k)) == (ph.vaddr % PAGE_SIZE + k) / PAGE_SIZE
                || (ph.vaddr % PAGE_SIZE + k) / PAGE_SIZE == PAGES
    ensures Wrap(ph.vaddr + k) % PAGE_SIZE == (ph.vaddr % PAGE_SIZE + k) % PAGE_SIZE
  {
    var pv, x := ph.vaddr / PAGE_SIZE, ph.vaddr % PAGE_SIZE + k;
    var j, r := x / PAGE_SIZE, x % PAGE_SIZE;
    assert ph.vaddr + k == (pv + j) * PAGE_SIZE + r;
    if pv + j < PAGES {
      assert Wrap(ph.vaddr + k) == (pv + j) * PAGE_SIZE + r;
    } else {
      assert Wrap(ph.vaddr + k) == (pv + j - PAGES) * PAGE_SIZE + r;
    }
  }

  lemma SegmentPages(elfMemory: u32, ph: Phdr)
    requires Fits(elfMemory, ph)
    ensures var call, phys := SegmentCall(elfMemory, ph), PhysAddress(elfMemory, ph);
            && call.Accepted()
            && call.phys == phys - phys % PAGE_SIZE && phys + ph.memsz <= call.physEnd
            && call.physEnd - call.phys <= (PAGES - 1) * PAGE_SIZE
  {
    var phys := PhysAddress(elfMemory, ph);
    assert Wrap(phys + ph.memsz) == phys + ph.memsz;
    AlignedUp(phys + ph.memsz);
  }

  lemma AlignedUp(x: u32)
    requires x <= WORD_LIMIT - PAGE_SIZE
    ensures x <= AlignAddress(x) <= WORD_LIMIT - PAGE_SIZE && IsAligned(AlignAddress(x))
  {
  }

  /** Under the ABI's condition the segment's pages cover all of its bytes exactly when its image ends below the
      last page of memory. */
  lemma CongruentCovers(elfMemory: u32, ph: Phdr)
    requires Congruent(elfMemory, ph) && ph.memsz > 0
    ensures (forall k :: 0 <= k < ph.memsz ==> CoversByte(elfMemory, ph, k)) <==> Fits(elfMemory, ph)
  {
    if Fits(elfMemory, ph) {
      forall k | 0 <= k < ph.memsz ensures CoversByte(elfMemory, ph, k) {
        FittingCovers(elfMemory, ph, k);
      }
    } else {
      var k := OverflowingMisses(elfMemory, ph);
    }
  }

  predicate CoversByte(elfMemory: u32, ph: Phdr, k: int) {
    CoversPage(SegmentCall(elfMemory, ph), PageOfByte(ph, k))
  }

  /** When the end of the image wraps round, at most one page is mapped. */
  lemma OverflowingMisses(elfMemory: u32, ph: Phdr) returns (k: nat)
    requires Congruent(elfMemory, ph) && ph.memsz > 0 && !Fits(elfMemory, ph)
    ensures k < ph.memsz && !CoversByte(elfMemory, ph, k)
  {
    var call, phys := SegmentCall(elfMemory, ph), PhysAddress(elfMemory, ph);
    k := 0;
    if CoversByte(elfMemory, ph, 0) {
      WrappedEnd(phys, ph.memsz);
      k := PAGE_SIZE;
      SegmentCallFields(elfMemory, ph);
      ByteDistance(ph, k);
    }
  }

  lemma WrappedEnd(phys: u32, memsz: u32)
    requires phys + memsz > WORD_LIMIT - PAGE_SIZE && AlignToLowerPage(phys) < AlignAddress(Wrap(phys + memsz))
    ensures AlignAddress(Wrap(phys + memsz)) == AlignToLowerPage(phys) + PAGE_SIZE && memsz > PAGE_SIZE
  {
    var w := Wrap(phys + memsz);
    if phys + memsz >= WORD_LIMIT {
      assert w == phys + memsz - WORD_LIMIT;
    }
  }

  lemma FittingCovers(elfMemory: u32, ph: Phdr, k: nat)
    requires Fits(elfMemory, ph) && Congruent(elfMemory, ph) && k < ph.memsz
    ensures CoversByte(elfMemory, ph, k)
  {
    SegmentPages(elfMemory, ph);
    SegmentCallFields(elfMemory, ph);
    ByteDistance(ph, k);
    CoversWhen(SegmentCall(elfMemory, ph), PageOfByte(ph, k), ph.vaddr % PAGE_SIZE + k);
  }

  lemma CoversWhen(call: MapCall, page: int, x: nat)
    requires call.Accepted() && x < call.physEnd - call.phys <= (PAGES - 1) * PAGE_SIZE
    requires Distance(call.virt / PAGE_SIZE, page) == x / PAGE_SIZE || x / PAGE_SIZE == PAGES
    ensures CoversPage(call, page)
  {
    WholePages(x, call.physEnd - call.phys);
  }

  lemma WholePages(x: nat, size: nat)
    requires x < size && size % PAGE_SIZE == 0
    ensures x / PAGE_SIZE < size / PAGE_SIZE
  {
  }

  /** The arithmetic of one byte: it lies in frame number d of the image, at byte r of the page. */
  lemma ByteOfImage(phys: u32, over: int, k: nat, d: int, j: int, r: int, e: u32, flags: u32)
    requires 0 <= over < PAGE_SIZE && over + k == j * PAGE_SIZE + r && 0 <= r < PAGE_SIZE && flags < 8
    requires d == j || j == d + PAGES
    requires e == phys - phys % PAGE_SIZE + d * PAGE_SIZE + flags
    ensures PageBase(e) + r == Wrap(phys + k) <==> over == phys % PAGE_SIZE
    ensures e % PAGE_SIZE == flags
  {
    assert e == (phys / PAGE_SIZE + d) * PAGE_SIZE + flags;
    assert PageBase(e) + r == phys - phys % PAGE_SIZE + d * PAGE_SIZE + r;
    var byte := PageBase(e) + r;
    assert byte == phys + k + (over - phys % PAGE_SIZE) - (j - d) * PAGE_SIZE;
    assert 0 <= byte < WORD_LIMIT;
    WrapShifted(phys + k, byte, over - phys % PAGE_SIZE, if d == j then 0 else 1);
  }

  lemma WrapShifted(x: int, byte: u32, shift: int, turns: int)
    requires byte == x + shift - turns * WORD_LIMIT && -PAGE_SIZE < shift < PAGE_SIZE
    ensures byte == Wrap(x) <==> shift == 0
  {
    var q := x / WORD_LIMIT;
    assert x == q * WORD_LIMIT + Wrap(x);
    assert byte - Wrap(x) == (q - turns) * WORD_LIMIT + shift;
  }

  /** Byte k of segment i, on a page that no later mapping touches, translates to byte
      elfMemory + p_offset + k of the file exactly when the ABI's condition holds, and its page is
      writable exactly when the segment is. */
  lemma SegmentTranslates(flat: seq<u32>, elfMemory: u32, phdrs: seq<Phdr>, stack: u32, i: nat, k: nat)
    requires |flat| == PAGES && i < |phdrs| && k < phdrs[i].memsz
    requires var (calls, page) := (LoadCalls(elfMemory, phdrs, stack), PageOfByte(phdrs[i], k));
             CoversPage(calls[i], page) && forall j :: i < j < |calls| ==> !CoversPage(calls[j], page)
    ensures var flat' := FlatAfterAll(flat, LoadCalls(elfMemory, phdrs, stack));
            && (Translate(flat', Wrap(phdrs[i].vaddr + k)) == Wrap(elfMemory + phdrs[i].offset + k)
                <==> Congruent(elfMemory, phdrs[i]))
            && flat'[PageOfByte(phdrs[i], k)] % PAGE_SIZE == if phdrs[i].writable then USER_RW else USER_RO
  {
    var ph, page := phdrs[i], PageOfByte(phdrs[i], k);
    var calls := LoadCalls(elfMemory, phdrs, stack);
    LastMappingWins(flat, calls, |calls|, page, i);
    assert calls[i] == SegmentCall(elfMemory, ph);
    EntryOfByte(elfMemory, ph, k, FlatAfterAll(flat, calls)[page]);
  }

  lemma EntryOfByte(elfMemory: u32, ph: Phdr, k: nat, e: u32)
    requires k < ph.memsz
    requires var call := SegmentCall(elfMemory, ph);
             && CoversPage(call, PageOfByte(ph, k))
             && e == OrWord(call.phys + Distance(call.virt / PAGE_SIZE, PageOfByte(ph, k)) * PAGE_SIZE, call.flags)
    ensures PageBase(e) + Wrap(ph.vaddr + k) % PAGE_SIZE == Wrap(elfMemory + ph.offset + k)
            <==> Congruent(elfMemory, ph)
    ensures e % PAGE_SIZE == if ph.writable then USER_RW else USER_RO
  {
    SegmentCallFields(elfMemory, ph);
    CoveredEntry(SegmentCall(elfMemory, ph), PageOfByte(ph, k), e);
    TranslatedByte(ph, PhysAddress(elfMemory, ph), k, e, if ph.writable then USER_RW else USER_RO);
    WrapTwice(elfMemory + ph.offset, k);
  }

  lemma TranslatedByte(ph: Phdr, phys: u32, k: nat, e: u32, flags: u32)
    requires k < ph.memsz && flags < 8
    requires e == phys - phys % PAGE_SIZE + Distance(ph.vaddr / PAGE_SIZE, PageOfByte(ph, k)) * PAGE_SIZE + flags
    ensures PageBase(e) + Wrap(ph.vaddr + k) % PAGE_SIZE == Wrap(phys + k) <==> ph.vaddr % PAGE_SIZE == phys % PAGE_SIZE
    ensures e % PAGE_SIZE == flags
  {
    var over := ph.vaddr % PAGE_SIZE;
    ByteDistance(ph, k);
    ByteOfImage(phys, over, k, Distance(ph.vaddr / PAGE_SIZE, PageOfByte(ph, k)), (over + k) / PAGE_SIZE,
                (over + k) % PAGE_SIZE, e, flags);
  }

  lemma SegmentCallFields(elfMemory: u32, ph: Phdr)
    ensures var call, phys := SegmentCall(elfMemory, ph), PhysAddress(elfMemory, ph);
            && call.virt / PAGE_SIZE == ph.vaddr / PAGE_SIZE && call.phys == phys - phys % PAGE_SIZE
            && call.flags == if ph.writable then USER_RW else USER_RO
  {
  }

  lemma CoveredEntry(call: MapCall, page: int, e: u32)
    requires 0 <= page < PAGES && CoversPage(call, page) && call.flags < 8
    requires e == OrWord(call.phys + Distance(call.virt / PAGE_SIZE, page) * PAGE_SIZE, call.flags)
    ensures e == call.phys + Distance(call.virt / PAGE_SIZE, page) * PAGE_SIZE + call.flags
  {
  }

  lemma WrapTwice(x: int, k: int)
    ensures Wrap(Wrap(x) + k) == Wrap(x + k)
  {
  }

  /** A segment at 0x400010 whose bytes lie at offset 0x20 of an image at 1 MiB: the two addresses are
      not congruent, and its first byte appears 16 bytes before where it lies. */
  lemma MisalignedSegmentExample(flat: seq<u32>)
    requires |flat| == PAGES
    ensures var ph := Phdr(0x40_0010, 0x20, 0x10, false);
            && !Congruent(0x10_0000, ph)
            && Translate(FlatAfterAll(flat, LoadCalls(0x10_0000, [ph], 0x20_0000)), 0x40_0010) == 0x10_0010
  {
    var ph := Phdr(0x40_0010, 0x20, 0x10, false);
    var calls := LoadCalls(0x10_0000, [ph], 0x20_0000);
    assert calls[0] == SegmentCall(0x10_0000, ph) == MapCall(0x40_0000, 0x10_0000, 0x10_1000, USER_RO);
    assert calls[1] == StackCall(0x20_0000) == MapCall(STACK_END, 0x20_0000, 0x20_4000, USER_RW);
    LastMappingWins(flat, calls, 2, 0x400, 0);
  }

  /** The 16 KiB below 0x3FF000 are the process's stack, byte for byte, whatever the segments. */
  lemma StackTranslates(flat: seq<u32>, elfMemory: u32, phdrs: seq<Phdr>, stack: u32, v: u32)
    requires |flat| == PAGES && IsAligned(stack) && stack + STACK_SIZE < WORD_LIMIT
    requires STACK_END <= v < STACK_END + STACK_SIZE
    ensures var flat' := FlatAfterAll(flat, LoadCalls(elfMemory, phdrs, stack));
            && Translate(flat', v) == stack + (v - STACK_END)
            && flat'[v / PAGE_SIZE] % PAGE_SIZE == USER_RW
  {
    var calls := LoadCalls(elfMemory, phdrs, stack);
    StackDistance(stack, v);
    LastMappingWins(flat, calls, |calls|, v / PAGE_SIZE, |phdrs|);
    StackEntry(stack, v, FlatAfterAll(flat, calls)[v / PAGE_SIZE]);
  }

  lemma StackEntry(stack: u32, v: u32, e: u32)
    requires IsAligned(stack) && stack + STACK_SIZE < WORD_LIMIT && STACK_END <= v < STACK_END + STACK_SIZE
    requires e == OrWord(stack + Distance(STACK_END / PAGE_SIZE, v / PAGE_SIZE) * PAGE_SIZE, USER_RW)
    ensures PageBase(e) + v % PAGE_SIZE == stack + (v - STACK_END) && e % PAGE_SIZE == USER_RW
  {
    var x := v / PAGE_SIZE - STACK_END / PAGE_SIZE;
    assert 0 <= x < 4 && STACK_END == (STACK_END / PAGE_SIZE) * PAGE_SIZE;
    assert (stack + x * PAGE_SIZE) % PAGE_SIZE == 0;
    assert v - v % PAGE_SIZE == STACK_END + x * PAGE_SIZE;
  }

  lemma StackDistance(stack: u32, v: u32)
    requires IsAligned(stack) && stack + STACK_SIZE < WORD_LIMIT && STACK_END <= v < STACK_END + STACK_SIZE
    ensures CoversPage(StackCall(stack), v / PAGE_SIZE)
  {
    StackCallFields(stack);
    StackPage(v);
  }

  lemma StackPage(v: u32)
    requires STACK_END <= v < STACK_END + STACK_SIZE
    ensures 0 <= v / PAGE_SIZE - STACK_END / PAGE_SIZE < 4
  {
  }

  lemma StackCallFields(stack: u32)
    requires IsAligned(stack) && stack + STACK_SIZE < WORD_LIMIT
    ensures var call := StackCall(stack);
            call.Accepted() && (call.physEnd - call.phys) / PAGE_SIZE == 4 && call.virt == STACK_END
  {
    assert (stack + STACK_SIZE) % PAGE_SIZE == 0;
    assert Wrap(stack + STACK_SIZE) == stack + STACK_SIZE;
  }
}
