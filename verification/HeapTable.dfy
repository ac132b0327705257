/** The block table of the first-fit heap, as a value: what a scan finds, what marking and
    clearing write, and which live allocations a table stands for. */
module HeapTable {
  import opened Words

  const BLOCK_SIZE := 4096

  const ENTRY_FREE: Entry := 0x00
  const ENTRY_TAKEN: Entry := 0x01
  const HAS_NEXT: Entry := 0x80
  const IS_FIRST: Entry := 0x40

  type Entry = bv8
  type Table = seq<Entry>

  predicate IsFree(e: Entry) {
    e & 0x0f == ENTRY_FREE
  }

  predicate HasNext(e: Entry) {
    e & HAS_NEXT != 0
  }

  predicate IsFirst(e: Entry) {
    e & IS_FIRST != 0
  }

  // ---- first fit, stated without the scan ----

  predicate Fits(t: Table, s: int, n: int) {
    n >= 1 && 0 <= s && s + n <= |t| && forall i :: s <= i < s + n ==> IsFree(t[i])
  }

  predicate HasFit(t: Table, n: int) {
    exists s :: 0 <= s < |t| && Fits(t, s, n)
  }

  /** The least start of n consecutive free blocks at or after `from`. */
  function FirstFit(t: Table, n: int, from: nat): (r: nat)
    requires exists s :: from <= s < |t| && Fits(t, s, n)
    ensures from <= r && Fits(t, r, n)
    ensures forall s :: from <= s < r ==> !Fits(t, s, n)
    decreases |t| - from
  {
    if Fits(t, from, n) then from else FirstFit(t, n, from + 1)
  }

  /** Where the run of free blocks that ends just before block k starts. */
  function FreeRunStart(t: Table, k: nat): (r: nat)
    requires k <= |t|
    ensures r <= k
    ensures forall i :: r <= i < k ==> IsFree(t[i])
    ensures r > 0 ==> !IsFree(t[r - 1])
  {
    if k == 0 || !IsFree(t[k - 1]) then k else FreeRunStart(t, k - 1)
  }

  /** Where the free run that ends the table starts; |t| when the last entry is not free. */
  function TrailingStart(t: Table): (r: nat)
    ensures r <= |t|
  {
    FreeRunStart(t, |t|)
  }

  /** What the single-pass scan answers: first fit, else a too-short trailing run, else -ENOMEM. */
  function StartBlock(t: Table, n: int): int {
    if HasFit(t, n) then FirstFit(t, n, 0)
    else if TrailingStart(t) < |t| then TrailingStart(t)
    else -ENOMEM
  }

  // ---- sizes ----

  /** Rounding up to a whole number of blocks, in 32-bit arithmetic. */
  function AlignToUpper(size: u32): u32 {
    if size % BLOCK_SIZE == 0 then size else Wrap(size - size % BLOCK_SIZE + BLOCK_SIZE)
  }

  /** The number of blocks a request rounds to: none for the sizes above 0xFFFFF000, where the
      rounding wraps to zero. */
  function BlocksFor(size: u32): (n: u32)
    ensures n <= 0x10_0000
  {
    if size > 0xffff_f000 then 0 else (size + (BLOCK_SIZE - 1)) / BLOCK_SIZE
  }

  /** That is what dividing the rounded size computes, and it is the least number of blocks that
      holds the request. */
  lemma BlocksForIsCeiling(size: u32)
    ensures BlocksFor(size) == AlignToUpper(size) / BLOCK_SIZE
    ensures BlocksFor(size) == 0 <==> size == 0 || size > 0xffff_f000
    ensures BlocksFor(size) >= 1 ==>
              (BlocksFor(size) - 1) * BLOCK_SIZE < size <= BlocksFor(size) * BLOCK_SIZE
  {
  }

  // ---- marking and clearing ----

  /** The table after marking n blocks from s as taken; n = 0 tags block s and takes block s - 1. */
  function Marked(t: Table, s: nat, n: nat): (r: Table)
    requires s < |t| && s + n <= |t| && (n == 0 ==> s > 0)
    ensures |r| == |t|
  {
    if n == 0 then t[s := IS_FIRST][s - 1 := t[s - 1] | ENTRY_TAKEN]
    else
      seq(|t|, i requires 0 <= i < |t| =>
        if s <= i < s + n then
          (if i == s then IS_FIRST else t[i]) | ENTRY_TAKEN | (if i < s + n - 1 then HAS_NEXT else 0)
        else t[i])
  }

  /** One past the last block of the chain of HAS_NEXT flags that starts at s. */
  function RunEnd(t: Table, s: nat): (e: nat)
    requires s <= |t|
    ensures s <= e <= |t| && (s < |t| ==> s < e)
    ensures forall i :: s <= i < e - 1 ==> HasNext(t[i])
    ensures s < |t| && HasNext(t[e - 1]) ==> e == |t|
    decreases |t| - s
  {
    if s == |t| then s
    else if !HasNext(t[s]) then s + 1
    else if s + 1 == |t| then |t|
    else RunEnd(t, s + 1)
  }

  function Cleared(t: Table, b: nat): (r: Table)
    ensures |r| == |t|
  {
    if b >= |t| then t
    else seq(|t|, i requires 0 <= i < |t| => if b <= i < RunEnd(t, b) then ENTRY_FREE else t[i])
  }

  /** Clearing starts at block b, stops behind the first entry without HAS_NEXT, or at the end of the table, and
      touches nothing else; a block beyond the table clears nothing. */
  lemma ClearedIs(t: Table, b: nat)
    ensures b >= |t| ==> Cleared(t, b) == t
    ensures b < |t| ==>
              var e := RunEnd(t, b);
              && b < e <= |t| && (forall i :: b <= i < e - 1 ==> t[i] & 0x80 != 0) && (e < |t| ==> t[e - 1] & 0x80 == 0)
              && forall i :: 0 <= i < |t| ==> Cleared(t, b)[i] == if b <= i < e then 0x00 else t[i]
  {
  }

  /** The outcome of a request for n blocks. `Overrun` means that marking would write outside
      the table, where C leaves the behaviour undefined. */
  datatype Placement = NoMemory | Overrun | Placed(block: nat, table: Table)

  function Place(t: Table, n: nat): Placement {
    var s := StartBlock(t, n);
    if s < 0 then NoMemory
    else if s + n > |t| || s + n == 0 then Overrun
    else Placed(s, Marked(t, s, n))
  }

  // ---- what a table stands for ----

  predicate InRun(live: map<nat, nat>, s: nat, i: int) {
    s in live && s <= i < s + live[s]
  }

  /** The byte of block i in a run of n blocks from s. */
  function RunByte(s: nat, n: nat, i: int): (e: Entry)
    ensures !IsFree(e)
    ensures IsFirst(e) <==> i == s
    ensures HasNext(e) <==> i < s + n - 1
  {
    if i == s then (if i < s + n - 1 then 0xC1 else 0x41)
    else (if i < s + n - 1 then 0x81 else 0x01)
  }

  predicate Occupied(t: Table, i: int) {
    0 <= i < |t| && t[i] != ENTRY_FREE
  }

  ghost predicate Covered(live: map<nat, nat>, i: int) {
    exists s :: InRun(live, s, i)
  }

  /** t is exactly the picture of the live allocations (start block to number of blocks). */
  ghost predicate Encodes(t: Table, live: map<nat, nat>) {
    && (forall s :: s in live ==> live[s] >= 1 && s + live[s] <= |t|)
    && (forall s, i {:trigger InRun(live, s, i)} :: InRun(live, s, i) ==> t[i] == RunByte(s, live[s], i))
    && (forall i :: Occupied(t, i) ==> Covered(live, i))
  }

  /** Reading the live allocations back from the flags alone. */
  function Decode(t: Table): map<nat, nat> {
    map s | 0 <= s < |t| && IsFirst(t[s]) :: RunEnd(t, s) - s
  }

  ghost predicate WellFormed(t: Table) {
    exists live :: Encodes(t, live)
  }

  /** The live allocations a well-formed table stands for. */
  ghost function LiveRuns(t: Table): map<nat, nat>
    requires WellFormed(t)
  {
    var live :| Encodes(t, live); live
  }

  /** Two different live runs share no block: the flags rule out an overlap. */
  lemma RunsDisjoint(t: Table, live: map<nat, nat>, s1: nat, s2: nat, i: int)
    requires Encodes(t, live) && InRun(live, s1, i) && InRun(live, s2, i)
    ensures s1 == s2
  {
    if s1 < s2 {
      assert InRun(live, s1, s2) && InRun(live, s2, s2);
    } else if s2 < s1 {
      assert InRun(live, s2, s1) && InRun(live, s1, s1);
    }
  }

  lemma {:induction false} RunEndIs(t: Table, s: nat, e: nat)
    requires s < e <= |t| && !HasNext(t[e - 1])
    requires forall i :: s <= i < e - 1 ==> HasNext(t[i])
    ensures RunEnd(t, s) == e
    decreases e - s
  {
    if s < e - 1 {
      RunEndIs(t, s + 1, e);
    }
  }

  lemma LiveRunEnd(t: Table, live: map<nat, nat>, s: nat)
    requires Encodes(t, live) && s in live
    ensures RunEnd(t, s) == s + live[s]
  {
    assert InRun(live, s, s + live[s] - 1);
    forall i | s <= i < s + live[s] - 1 ensures HasNext(t[i]) {
      assert InRun(live, s, i);
    }
    RunEndIs(t, s, s + live[s]);
  }

  lemma FirstByteStartsRun(t: Table, live: map<nat, nat>, s: nat)
    requires Encodes(t, live) && s < |t|
    ensures IsFirst(t[s]) <==> s in live
  {
    if s in live {
      assert InRun(live, s, s);
    }
    if IsFirst(t[s]) {
      assert Occupied(t, s);
      var s0 :| InRun(live, s0, s);
      assert t[s] == RunByte(s0, live[s0], s);
    }
  }

  /** A table stands for at most one set of live allocations, and Decode finds it. */
  lemma EncodingIsUnique(t: Table, live: map<nat, nat>)
    requires Encodes(t, live)
    ensures live == Decode(t)
  {
    forall s: nat | s < |t|
      ensures s in live <==> s in Decode(t)
      ensures s in live ==> Decode(t)[s] == live[s]
    {
      FirstByteStartsRun(t, live, s);
      if s in live {
        LiveRunEnd(t, live, s);
      }
    }
  }

  lemma LiveRunsAre(t: Table, live: map<nat, nat>)
    requires Encodes(t, live)
    ensures WellFormed(t) && LiveRuns(t) == live == Decode(t)
  {
    EncodingIsUnique(t, live);
    EncodingIsUnique(t, LiveRuns(t));
  }

  /** Conversely the live allocations determine the table byte for byte. */
  lemma EncodingDeterminesTable(t1: Table, t2: Table, live: map<nat, nat>)
    requires |t1| == |t2| && Encodes(t1, live) && Encodes(t2, live)
    ensures t1 == t2
  {
    forall i | 0 <= i < |t1| ensures t1[i] == t2[i] {
      if Covered(live, i) {
        var s :| InRun(live, s, i);
        assert t1[i] == RunByte(s, live[s], i) == t2[i];
      } else {
        assert !Occupied(t1, i) && !Occupied(t2, i);
      }
    }
  }

  /** An entry counts as free for the scan exactly when no live run covers it. */
  lemma FreeIsUncovered(t: Table, live: map<nat, nat>, i: nat)
    requires Encodes(t, live) && i < |t|
    ensures IsFree(t[i]) <==> t[i] == ENTRY_FREE
    ensures IsFree(t[i]) <==> !Covered(live, i)
  {
    if Occupied(t, i) {
      var s :| InRun(live, s, i);
      assert t[i] == RunByte(s, live[s], i);
    }
  }

  // ---- allocation and release on well-formed tables ----

  lemma MarkedEncodes(t: Table, live: map<nat, nat>, s: nat, n: nat)
    requires Encodes(t, live) && Fits(t, s, n)
    ensures s !in live
    ensures forall s', i :: InRun(live, s', i) ==> !(s <= i < s + n)
    ensures Encodes(Marked(t, s, n), live[s := n])
  {
    var t', live' := Marked(t, s, n), live[s := n];
    forall i | s <= i < s + n
      ensures t[i] == ENTRY_FREE && !Covered(live, i)
    {
      FreeIsUncovered(t, live, i);
    }
    assert s in live ==> InRun(live, s, s) && Covered(live, s);
    forall s', i | InRun(live, s', i)
      ensures !(s <= i < s + n)
    {
      assert Covered(live, i);
    }
    forall s', i | InRun(live', s', i)
      ensures t'[i] == RunByte(s', live'[s'], i)
    {
      if s' != s {
        assert InRun(live, s', i);
      }
    }
    forall i | Occupied(t', i)
      ensures Covered(live', i)
    {
      if s <= i < s + n {
        assert InRun(live', s, i);
      } else {
        assert Occupied(t, i);
        var s' :| InRun(live, s', i);
        assert InRun(live', s', i);
      }
    }
  }

  lemma ClearedEncodes(t: Table, live: map<nat, nat>, s: nat)
    requires Encodes(t, live) && s in live
    ensures Encodes(Cleared(t, s), live - {s})
    ensures forall i :: 0 <= i < |t| ==>
              Cleared(t, s)[i] == if InRun(live, s, i) then ENTRY_FREE else t[i]
  {
    LiveRunEnd(t, live, s);
    var t', live' := Cleared(t, s), live - {s};
    forall s', i | InRun(live', s', i)
      ensures t'[i] == RunByte(s', live'[s'], i)
    {
      assert InRun(live, s', i);
      if s <= i < s + live[s] {
        assert InRun(live, s, i);
        RunsDisjoint(t, live, s, s', i);
      }
    }
    forall i | Occupied(t', i)
      ensures Covered(live', i)
    {
      assert Occupied(t, i);
      var s' :| InRun(live, s', i);
      assert InRun(live', s', i);
    }
  }

  /** Freeing what was just allocated restores the table byte for byte. */
  lemma ClearedUndoesMarked(t: Table, live: map<nat, nat>, s: nat, n: nat)
    requires Encodes(t, live) && Fits(t, s, n)
    ensures Cleared(Marked(t, s, n), s) == t
  {
    MarkedEncodes(t, live, s, n);
    var t', live' := Marked(t, s, n), live[s := n];
    ClearedEncodes(t', live', s);
    forall i | 0 <= i < |t|
      ensures Cleared(t', s)[i] == t[i]
    {
      if s <= i < s + n {
        FreeIsUncovered(t, live, i);
        assert InRun(live', s, i);
      }
    }
  }

  // ---- counting what is left ----

  /** The number of free blocks among the first k. */
  function FreeBelow(t: Table, k: nat): nat
    requires k <= |t|
  {
    if k == 0 then 0 else FreeBelow(t, k - 1) + if IsFree(t[k - 1]) then 1 else 0
  }

  function FreeBlocks(t: Table): nat {
    FreeBelow(t, |t|)
  }

  lemma {:induction false} NoneBelow(t: Table, k: nat)
    requires k <= |t|
    ensures FreeBelow(t, k) == 0 <==> forall i :: 0 <= i < k ==> !IsFree(t[i])
  {
    if k > 0 {
      NoneBelow(t, k - 1);
    }
  }

  /** A request for one block finds room exactly while a block is free. */
  lemma OneBlockFits(t: Table)
    ensures HasFit(t, 1) <==> FreeBlocks(t) > 0
  {
    NoneBelow(t, |t|);
    forall s | 0 <= s < |t| ensures IsFree(t[s]) <==> Fits(t, s, 1) {
    }
  }

  lemma {:induction false} OneTaken(t: Table, t': Table, s: nat, k: nat)
    requires s < |t| == |t'| && k <= |t| && IsFree(t[s]) && !IsFree(t'[s])
    requires forall i :: 0 <= i < |t| && i != s ==> t'[i] == t[i]
    ensures FreeBelow(t', k) == FreeBelow(t, k) - if s < k then 1 else 0
  {
    if k > 0 {
      OneTaken(t, t', s, k - 1);
    }
  }

  /** Marking one free block leaves one free block less. */
  lemma MarkedOne(t: Table, s: nat)
    requires Fits(t, s, 1)
    ensures FreeBlocks(Marked(t, s, 1)) == FreeBlocks(t) - 1
  {
    assert Marked(t, s, 1)[s] == IS_FIRST | ENTRY_TAKEN | 0;
    OneTaken(t, Marked(t, s, 1), s, |t|);
  }

  // ---- when a request is served safely ----

  /** A request is safe when the scan has no short trailing run to hand out by mistake. */
  predicate SafeRequest(t: Table, n: nat) {
    HasFit(t, n) || |t| == 0 || !IsFree(t[|t| - 1])
  }

  lemma TrailingStartAtEnd(t: Table)
    ensures TrailingStart(t) < |t| <==> |t| > 0 && IsFree(t[|t| - 1])
  {
  }

  /** The exact condition: a request keeps the table the picture of some set of allocations,
      without touching memory outside it, if and only if it is safe. */
  lemma SafeRequestIsExact(t: Table, n: nat)
    requires WellFormed(t)
    ensures SafeRequest(t, n) <==>
              match Place(t, n)
              case NoMemory => true
              case Overrun => false
              case Placed(_, t') => WellFormed(t')
  {
    TrailingStartAtEnd(t);
    if HasFit(t, n) {
      var s := FirstFit(t, n, 0);
      MarkedEncodes(t, LiveRuns(t), s, n);
    } else if TrailingStart(t) < |t| {
      var s := TrailingStart(t);
      if n == 0 && s > 0 {
        var t' := Marked(t, s, n);
        assert t'[s] == IS_FIRST;
        if WellFormed(t') {
          FreeIsUncovered(t', LiveRuns(t'), s);
        }
      }
      assert n >= 1 && s + n <= |t| ==> Fits(t, s, n);
    }
  }

  /** A safe request of at least one block takes the first fit, or reports that none exists. */
  lemma SafePlacement(t: Table, n: nat)
    requires WellFormed(t) && SafeRequest(t, n)
    ensures HasFit(t, n) ==>
              var s := FirstFit(t, n, 0);
              && Place(t, n) == Placed(s, Marked(t, s, n))
              && WellFormed(Marked(t, s, n))
              && s !in LiveRuns(t)
              && LiveRuns(Marked(t, s, n)) == LiveRuns(t)[s := n]
              && Cleared(Marked(t, s, n), s) == t
    ensures !HasFit(t, n) ==> Place(t, n) == NoMemory
  {
    TrailingStartAtEnd(t);
    if HasFit(t, n) {
      var s := FirstFit(t, n, 0);
      MarkedEncodes(t, LiveRuns(t), s, n);
      LiveRunsAre(Marked(t, s, n), LiveRuns(t)[s := n]);
      ClearedUndoesMarked(t, LiveRuns(t), s, n);
    }
  }

  lemma ReleaseOfLive(t: Table, s: nat)
    requires WellFormed(t) && s in LiveRuns(t)
    ensures WellFormed(Cleared(t, s))
    ensures LiveRuns(Cleared(t, s)) == LiveRuns(t) - {s}
  {
    ClearedEncodes(t, LiveRuns(t), s);
    LiveRunsAre(Cleared(t, s), LiveRuns(t) - {s});
  }

  /** Two blocks free at the end cannot hold three, yet the scan answers with their start, and
      a request for no block tags one entry and takes none. */
  lemma UnsafeRequestExample()
    ensures var t: Table := [0x41, 0, 0];
            && Encodes(t, map[0 := 1])
            && StartBlock(t, 3) == 1
            && Place(t, 3) == Overrun
            && Place(t, 0) == Placed(1, [0x41, 0x40, 0])
  {
    var t: Table := [0x41, 0, 0];
    assert InRun(map[0 := 1], 0, 0);
    assert !IsFree(t[0]);
    assert TrailingStart(t) == 1;
    assert !HasFit(t, 3) && !HasFit(t, 0);
    assert Marked(t, 1, 0) == [0x41, 0x40, 0];
  }
}
