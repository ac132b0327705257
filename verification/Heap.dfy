/** The kernel heap itself: one byte per block, updated in place. */
module Heap {
  import opened Words
  import opened HeapTable

  class BlockHeap {
    const entries: array<Entry>
    const base: nat  // the page number of block 0

    /** The start address of heap memory. */
    function Saddr(): int {
      base * BLOCK_SIZE
    }

    /** A heap of non-null addresses that ends below the top of the 32-bit space. */
    ghost predicate Valid() {
      0 < base && base + entries.Length < 0x10_0000 && entries.Length < 0x8_0000
    }

    ghost function Table(): (t: Table)
      reads entries
    {
      entries[..]
    }

    constructor (start: nat, blocks: nat)
      ensures base == start && entries.Length == blocks && fresh(entries)
      ensures WellFormed(Table()) && LiveRuns(Table()) == map[]
    {
      entries := new Entry[blocks](_ => ENTRY_FREE);
      base := start;
      new;
      assert Encodes(entries[..], map[]);
      LiveRunsAre(entries[..], map[]);
    }

    /** heap_create: misaligned ends and a table of the wrong size are refused; otherwise every
        entry is cleared and the heap holds nothing. */
    static method Create(ptr: u32, end: u32, totalEntries: nat) returns (res: int, heap: BlockHeap?)
      requires totalEntries < WORD_LIMIT
      ensures res == 0 <==>
                && ptr % BLOCK_SIZE == 0 && end % BLOCK_SIZE == 0
                && Wrap(TruncDiv(Signed(Wrap(end - ptr)), BLOCK_SIZE)) == totalEntries
      ensures res != 0 ==> res == -EINVARG && heap == null
      ensures res == 0 ==> heap != null && fresh(heap) && fresh(heap.entries)
                           && WellFormed(heap.Table()) && LiveRuns(heap.Table()) == map[]
      ensures res == 0 && 0 < ptr <= end && end - ptr < 0x8000_0000 ==>
                heap.Valid() && heap.Saddr() == ptr && end == ptr + heap.entries.Length * BLOCK_SIZE
    {
      heap := null;
      if ptr % BLOCK_SIZE != 0 || end % BLOCK_SIZE != 0 {
        return -EINVARG, null;
      }
      var tableSize := Signed(Wrap(end - ptr));
      var totalBlocks := TruncDiv(tableSize, BLOCK_SIZE);
      if Wrap(totalBlocks) != totalEntries {
        return -EINVARG, null;
      }
      heap := new BlockHeap(ptr / BLOCK_SIZE, totalEntries);
      res := 0;
    }

    function BlockToAddress(block: nat): (a: u32)
      requires Valid() && block < entries.Length
      ensures a == (base + block) * BLOCK_SIZE && a > 0
    {
      Saddr() + block * BLOCK_SIZE
    }

    /** The block index heap_free computes: a signed 32-bit difference divided with truncation
        toward zero, then read as an unsigned index. */
    function AddressToBlock(address: u32): u32
      requires Valid()
    {
      var d := address - Saddr();
      var signed := if d >= 0x8000_0000 then d - WORD_LIMIT else if d < -0x8000_0000 then d + WORD_LIMIT else d;
      if signed >= 0 then signed / BLOCK_SIZE
      else if signed > -BLOCK_SIZE then 0
      else WORD_LIMIT - (-signed) / BLOCK_SIZE
    }

    lemma AddressToBlockIsC(address: u32)
      requires Valid()
      ensures AddressToBlock(address) == Wrap(TruncDiv(Signed(Wrap(address - Saddr())), BLOCK_SIZE))
    {
    }

    /** Addresses and blocks convert back and forth. */
    lemma AddressRoundTrip(block: nat)
      requires Valid() && block < entries.Length
      ensures AddressToBlock(BlockToAddress(block)) == block
    {
    }

    /** The null pointer becomes an index beyond every table, so freeing it clears nothing. */
    lemma NullIsNoBlock()
      requires Valid()
      ensures AddressToBlock(0) >= entries.Length
    {
    }

    /** One pass over the table computes the first-fit specification, for every table. */
    method GetStartBlock(totalBlocks: u32) returns (start: int)
      requires entries.Length < 0x8000_0000
      ensures start == StartBlock(Table(), totalBlocks)
    {
      ghost var t := entries[..];
      var blockCount := 0;
      var blockStart := -1;
      var i := 0;
      while i < entries.Length
        invariant 0 <= i <= entries.Length
        invariant forall s :: Fits(t, s, totalBlocks) ==> s + totalBlocks > i
        invariant blockStart == -1 ==> blockCount == 0 && (i > 0 ==> !IsFree(t[i - 1]))
        invariant blockStart != -1 ==>
                    && 0 <= blockStart && blockCount > 0 && blockStart + blockCount == i
                    && (forall k :: blockStart <= k < i ==> IsFree(t[k]))
                    && (blockStart > 0 ==> !IsFree(t[blockStart - 1]))
        invariant totalBlocks > 0 ==> blockCount < totalBlocks
      {
        if !IsFree(entries[i]) {
          blockCount := 0;
          blockStart := -1;
          i := i + 1;
          continue;
        }
        if blockStart == -1 {
          blockStart := i;
        }
        blockCount := blockCount + 1;
        if blockCount == totalBlocks {
          assert Fits(t, blockStart, totalBlocks);
          break;
        }
        i := i + 1;
      }
      if blockStart == -1 {
        return -ENOMEM;
      }
      return blockStart;
    }

    /** Marks the run; reports instead when the C code would write outside the table. */
    method MarkBlocksTaken(startBlock: nat, totalBlocks: u32) returns (overrun: bool)
      requires startBlock < entries.Length < 0x8000_0000 && totalBlocks <= 0x10_0000
      modifies entries
      ensures overrun <==> startBlock + totalBlocks > entries.Length || startBlock + totalBlocks == 0
      ensures overrun ==> Table() == old(Table())
      ensures !overrun ==> Table() == Marked(old(Table()), startBlock, totalBlocks)
    {
      var endBlock := Wrap(startBlock + totalBlocks - 1);
      if endBlock >= entries.Length {
        return true;
      }
      ghost var t := entries[..];
      entries[startBlock] := IS_FIRST;
      var i := startBlock;
      while i < endBlock
        invariant startBlock <= i && (totalBlocks > 0 ==> i <= endBlock)
        invariant totalBlocks == 0 ==> i == startBlock
        invariant entries[startBlock] == if i == startBlock then IS_FIRST else IS_FIRST | ENTRY_TAKEN | HAS_NEXT
        invariant forall k :: startBlock < k < i ==> entries[k] == t[k] | ENTRY_TAKEN | HAS_NEXT
        invariant forall k :: 0 <= k < entries.Length && (k < startBlock || (k > startBlock && k >= i)) ==>
                    entries[k] == t[k]
      {
        entries[i] := entries[i] | (ENTRY_TAKEN | HAS_NEXT);
        i := i + 1;
      }
      entries[endBlock] := entries[endBlock] | ENTRY_TAKEN;
      assert entries[..] == Marked(t, startBlock, totalBlocks);
      return false;
    }

    /** heap_malloc: the address of the placed run, or 0 when the scan finds nothing. */
    method Malloc(totalSize: u32) returns (address: u32, overrun: bool)
      requires Valid()
      modifies entries
      ensures overrun <==> Place(old(Table()), BlocksFor(totalSize)) == Overrun
      ensures overrun || address == 0 ==> Table() == old(Table())
      ensures !overrun ==>
                match Place(old(Table()), BlocksFor(totalSize))
                case NoMemory => address == 0
                case Overrun => false
                case Placed(s, t) => s < entries.Length && address == BlockToAddress(s) && Table() == t
    {
      var alignedSize := AlignToUpper(totalSize);
      var totalBlocks := alignedSize / BLOCK_SIZE;
      BlocksForIsCeiling(totalSize);
      var startBlock := GetStartBlock(totalBlocks);
      if startBlock < 0 {
        return 0, false;
      }
      address := BlockToAddress(startBlock);
      overrun := MarkBlocksTaken(startBlock, totalBlocks);
    }

    method MarkBlocksFree(startingBlock: u32)
      modifies entries
      ensures Table() == Cleared(old(Table()), startingBlock)
    {
      ghost var t := entries[..];
      var i := startingBlock;
      while i < entries.Length
        invariant startingBlock <= i
        invariant startingBlock < entries.Length ==> i <= entries.Length
        invariant startingBlock < entries.Length && i < entries.Length ==> RunEnd(t, startingBlock) == RunEnd(t, i)
        invariant startingBlock < entries.Length && i == entries.Length ==> RunEnd(t, startingBlock) == i
        invariant forall k :: 0 <= k < entries.Length ==>
                    entries[k] == if startingBlock <= k < i then ENTRY_FREE else t[k]
      {
        var entry := entries[i];
        entries[i] := ENTRY_FREE;
        if !HasNext(entry) {
          break;
        }
        i := i + 1;
      }
      assert entries[..] == Cleared(t, startingBlock);
    }

    method Free(ptr: u32)
      requires Valid()
      modifies entries
      ensures Table() == Cleared(old(Table()), AddressToBlock(ptr))
    {
      MarkBlocksFree(AddressToBlock(ptr));
    }
  }

  // ---- every run of the heap ----

  datatype HeapOp = Malloc(size: u32) | Free(ptr: u32)

  /** A table together with the allocations its clients believe they hold, by start block. */
  datatype HeapState = HeapState(table: Table, held: map<nat, nat>)

  /** One call. The client's book is kept from the answers alone: a successful request adds the
      run it was given, and a release of a held run removes it. */
  ghost predicate Step(h: BlockHeap, s: HeapState, op: HeapOp, s': HeapState)
    requires h.Valid()
  {
    match op
    case Malloc(size) =>
      var n := BlocksFor(size);
      && SafeRequest(s.table, n)
      && (match Place(s.table, n)
          case NoMemory => s' == s
          case Overrun => false
          case Placed(b, t) => s' == HeapState(t, s.held[b := n]))
    case Free(ptr) =>
      var b := h.AddressToBlock(ptr);
      b in s.held && s' == HeapState(Cleared(s.table, b), s.held - {b})
  }

  ghost predicate Run(h: BlockHeap, states: seq<HeapState>, ops: seq<HeapOp>)
    requires h.Valid()
  {
    && |states| == |ops| + 1
    && (forall i :: 0 <= i < |ops| ==> StepAt(h, states, ops, i))
  }

  ghost predicate StepAt(h: BlockHeap, states: seq<HeapState>, ops: seq<HeapOp>, i: int)
    requires h.Valid() && |states| == |ops| + 1 && 0 <= i < |ops|
  {
    Step(h, states[i], ops[i], states[i + 1])
  }

  lemma StepKeepsEncoding(h: BlockHeap, s: HeapState, op: HeapOp, s': HeapState)
    requires h.Valid() && Encodes(s.table, s.held) && Step(h, s, op, s')
    ensures Encodes(s'.table, s'.held) && |s'.table| == |s.table|
    ensures forall b :: b in s.held && !(op.Free? && h.AddressToBlock(op.ptr) == b) ==>
              b in s'.held && s'.held[b] == s.held[b]
  {
    match op
    case Malloc(size) =>
      var n := BlocksFor(size);
      TrailingStartAtEnd(s.table);
      if HasFit(s.table, n) {
        MarkedEncodes(s.table, s.held, FirstFit(s.table, n, 0), n);
      }
    case Free(ptr) =>
      ClearedEncodes(s.table, s.held, h.AddressToBlock(ptr));
  }

  /** In every run from a cleared heap the table is exactly the picture of what clients hold:
      decoding it gives their book back, and no two holdings share a block. */
  lemma {:induction false} EveryRunDecodes(h: BlockHeap, states: seq<HeapState>, ops: seq<HeapOp>)
    requires h.Valid() && Run(h, states, ops) && Encodes(states[0].table, states[0].held)
    ensures forall i :: 0 <= i < |states| ==>
              && Encodes(states[i].table, states[i].held)
              && Decode(states[i].table) == states[i].held
    ensures forall i, a, b, k ::
              0 <= i < |states| && InRun(states[i].held, a, k) && InRun(states[i].held, b, k) ==> a == b
  {
    var i := 0;
    while i < |ops|
      invariant 0 <= i <= |ops|
      invariant forall j :: 0 <= j <= i ==> Encodes(states[j].table, states[j].held)
    {
      assert StepAt(h, states, ops, i);
      StepKeepsEncoding(h, states[i], ops[i], states[i + 1]);
      i := i + 1;
    }
    forall i | 0 <= i < |states| ensures Decode(states[i].table) == states[i].held {
      EncodingIsUnique(states[i].table, states[i].held);
    }
    forall i, a, b, k | 0 <= i < |states| && InRun(states[i].held, a, k) && InRun(states[i].held, b, k) ensures a == b {
      RunsDisjoint(states[i].table, states[i].held, a, b, k);
    }
  }

  /** Between one allocation and its release, any run of calls that leaves the block alone
      cannot disturb it: the run is still there, still of the same length. */
  lemma {:induction false} HeldUntilFreed(h: BlockHeap, states: seq<HeapState>, ops: seq<HeapOp>, b: nat)
    requires h.Valid() && Run(h, states, ops) && Encodes(states[0].table, states[0].held) && b in states[0].held
    requires forall i :: 0 <= i < |ops| ==> !(ops[i].Free? && h.AddressToBlock(ops[i].ptr) == b)
    ensures forall i :: 0 <= i < |states| ==> b in states[i].held && states[i].held[b] == states[0].held[b]
  {
    var i := 0;
    while i < |ops|
      invariant 0 <= i <= |ops|
      invariant Encodes(states[i].table, states[i].held)
      invariant forall j :: 0 <= j <= i ==> b in states[j].held && states[j].held[b] == states[0].held[b]
    {
      assert StepAt(h, states, ops, i);
      StepKeepsEncoding(h, states[i], ops[i], states[i + 1]);
      i := i + 1;
    }
  }
}
