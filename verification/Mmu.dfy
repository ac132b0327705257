/** What a user program can reach through two-level page tables: the processor's walk (sections 4.3 and 4.6 of
    the Intel SDM, volume 3A), on the bits of both entries. */
module Mmu {
  import opened Words
  import opened Paging

  /** What an access ends in. */
  datatype Reach = Fault | At(phys: u32)

  /** The entry lets a user program read or, if asked, write: the present bit, the user bit and, for a write, the
      writable bit are set. */
  predicate UserMay(e: u32, write: bool) {
    Bit(e, 0) && Bit(e, 2) && (write ==> Bit(e, 1))
  }

  /** The physical address that a user access to v gets from the directory in frame d, or a page fault. */
  ghost function UserWalk(m: Ram, d: int, v: u32, write: bool): Reach
    requires IsRam(m) && 0 <= d < PAGES
  {
    var pde := m[d][v / 0x40_0000];
    if !UserMay(pde, write) then Fault
    else
      var pte := m[pde / 0x1000][v / 0x1000 % 0x400];
      if !UserMay(pte, write) then Fault else At(pte / 0x1000 * 0x1000 + v % 0x1000)
  }

  /** Every directory entry lets user programs through, so that the tables alone decide. */
  ghost predicate OpenDir(m: Ram, d: int)
    requires IsRam(m) && 0 <= d < PAGES
  {
    forall i :: 0 <= i < ENTRIES ==> UserMay(m[d][i], true)
  }

  ghost predicate OpenChunk(m: Ram, c: int)
    requires ChunkOk(m, c)
  {
    OpenDir(m, DirFrame(m, c))
  }

  /** What a flat map grants. */
  ghost function FlatAccess(flat: seq<u32>, v: u32, write: bool): Reach
    requires |flat| == PAGES
  {
    if UserMay(flat[v / PAGE_SIZE], write) then At(Translate(flat, v)) else Fault
  }

  lemma SplitAddress(v: u32)
    ensures v / 0x40_0000 == v / PAGE_SIZE / ENTRIES && v / 0x1000 % 0x400 == v / PAGE_SIZE % ENTRIES
  {
  }

  lemma BaseIsFrame(e: u32)
    ensures PageBase(e) == e / 0x1000 * 0x1000 && PageBase(e) / PAGE_SIZE == e / 0x1000
  {
  }

  /** Through an open directory the walk is the flat map: its translation, with its entry's access. */
  lemma WalkIsFlat(m: Ram, d: int, v: u32, write: bool)
    requires IsRam(m) && 0 <= d < PAGES && OpenDir(m, d)
    ensures UserWalk(m, d, v, write) == FlatAccess(FlatOf(m, d), v, write)
  {
    SplitAddress(v);
    BaseIsFrame(m[d][v / 0x40_0000]);
    BaseIsFrame(FlatOf(m, d)[v / PAGE_SIZE]);
    assert UserMay(m[d][v / 0x40_0000], true);
  }

  /** Through any directory it is at most that. */
  lemma WalkWithinFlat(m: Ram, d: int, v: u32, write: bool)
    requires IsRam(m) && 0 <= d < PAGES && UserWalk(m, d, v, write).At?
    ensures UserWalk(m, d, v, write) == FlatAccess(FlatOf(m, d), v, write)
  {
    SplitAddress(v);
    BaseIsFrame(m[d][v / 0x40_0000]);
    BaseIsFrame(FlatOf(m, d)[v / PAGE_SIZE]);
  }

  /** An aligned address does not disturb the flags below it. */
  lemma FlagsAlone(base: u32, flags: u32, write: bool)
    requires base % PAGE_SIZE == 0 && flags < PAGE_SIZE && base + flags < WORD_LIMIT
    ensures UserMay(base + flags, write) <==> UserMay(flags, write)
  {
    AlignedBits(base, flags, 0);
    AlignedBits(base, flags, 1);
    AlignedBits(base, flags, 2);
  }

  lemma AlignedBits(base: u32, low: nat, b: nat)
    requires base % PAGE_SIZE == 0 && b < 12
    ensures Bit(base + low, b) <==> Bit(low, b)
  {
    ShlValues(base / PAGE_SIZE);
    BitBelow(base / PAGE_SIZE, low, 12, b);
  }

  /** The low twelve bits of the entry are the flags and the writable bit. */
  ghost predicate Carries(e: u32, flags: u32) {
    forall b :: 0 <= b < 12 ==> (Bit(e, b) <==> Bit(flags, b) || b == 1)
  }

  /** All entries of the directory in frame d do. */
  ghost predicate DirCarries(m: Ram, d: int, flags: u32)
    requires IsRam(m) && 0 <= d < PAGES
  {
    forall i :: 0 <= i < ENTRIES ==> Carries(m[d][i], flags)
  }

  lemma OrWritable(base: u32, flags: u32)
    requires base % PAGE_SIZE == 0 && flags < PAGE_SIZE
    ensures base + flags < WORD_LIMIT && Carries(OrWord(base + flags, IS_WRITEABLE), flags)
  {
    BelowNextPage(base);
    var e := OrWord(base + flags, IS_WRITEABLE);
    OrWordIsOr(base + flags, IS_WRITEABLE);
    forall b | 0 <= b < 12 ensures Bit(e, b) <==> Bit(flags, b) || b == 1 {
      OrBits(base + flags, IS_WRITEABLE, b);
      AlignedBits(base, flags, b);
      WritableBitIs(b);
    }
  }

  lemma BelowNextPage(base: u32)
    requires base % PAGE_SIZE == 0
    ensures base + PAGE_SIZE <= WORD_LIMIT
  {
  }

  lemma WritableBitIs(b: nat)
    ensures Bit(IS_WRITEABLE, b) <==> b == 1
  {
    if b >= 2 {
      assert Bit(IS_WRITEABLE, b) == Bit(1, b - 1) == Bit(0, b - 2);
      ZeroBits(b - 2);
    }
  }

  /** With the present and the user flag the directory is open. */
  lemma OpenWhenCarried(m: Ram, d: int, flags: u32)
    requires IsRam(m) && 0 <= d < PAGES && Bit(flags, 0) && Bit(flags, 2) && DirCarries(m, d, flags)
    ensures OpenDir(m, d)
  {
    forall i | 0 <= i < ENTRIES ensures UserMay(m[d][i], true) {
      assert Carries(m[d][i], flags);
    }
  }

  /** A page mapped to itself with some flags. */
  lemma SelfMapped(flat: seq<u32>, v: u32, flags: u32, write: bool)
    requires |flat| == PAGES && flags < 8 && flat[v / PAGE_SIZE] == v / PAGE_SIZE * PAGE_SIZE + flags
    ensures FlatAccess(flat, v, write) == if UserMay(flags, write) then At(v) else Fault
  {
    FlagsAlone(v / PAGE_SIZE * PAGE_SIZE, flags, write);
    AddedLow(v / PAGE_SIZE * PAGE_SIZE, flags);
  }

  /** The flags that the kernel maps with: read and write, read only, and none after process_free. */
  lemma KernelFlags(write: bool)
    ensures UserMay(USER_RW, write) && (UserMay(USER_RO, write) <==> !write) && !UserMay(0, write)
  {
    LowBits(USER_RW);
    LowBits(USER_RO);
    LowBits(0);
  }
}
