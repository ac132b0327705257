/** Reading a string through a task's page tables. */
module UserText {
  import opened Words
  import opened Paging
  import opened Bytes

  // ---- the string at a virtual address ----

  /** The byte that an address space shows at a virtual address. */
  ghost function ReadByte(m: Ram, flat: seq<u32>, v: u32): Byte
    requires IsRam(m) && |flat| == PAGES
  {
    var phys := Translate(flat, v);
    FrameByte(m[phys / PAGE_SIZE], phys % PAGE_SIZE)
  }

  predicate IsPresentAt(flat: seq<u32>, v: u32)
    requires |flat| == PAGES
  {
    Bit(flat[v / PAGE_SIZE], 0)
  }

  /** Byte j of the string at v. */
  ghost function NthByte(m: Ram, flat: seq<u32>, v: u32, j: nat): Byte
    requires IsRam(m) && |flat| == PAGES
  {
    ReadByte(m, flat, Wrap(v + j))
  }

  predicate NthPresent(flat: seq<u32>, v: u32, j: nat)
    requires |flat| == PAGES
  {
    IsPresentAt(flat, Wrap(v + j))
  }

  /** The string at v goes on past its j-th byte. */
  ghost predicate GoesOn(m: Ram, flat: seq<u32>, v: u32, j: nat)
    requires IsRam(m) && |flat| == PAGES
  {
    NthPresent(flat, v, j) && NthByte(m, flat, v, j) != 0
  }

  /** Where reading at most n bytes of the string stops: at its terminator, at a page that is not present, or
      after n bytes. */
  ghost function TextEnd(m: Ram, flat: seq<u32>, v: u32, n: nat): (k: nat)
    requires IsRam(m) && |flat| == PAGES
    ensures k <= n && (k < n ==> !GoesOn(m, flat, v, k))
    ensures forall j :: 0 <= j < k ==> GoesOn(m, flat, v, j)
  {
    EndFrom(m, flat, v, n, 0)
  }

  ghost function EndFrom(m: Ram, flat: seq<u32>, v: u32, n: nat, i: nat): (k: nat)
    requires IsRam(m) && |flat| == PAGES && i <= n
    ensures i <= k <= n && (k < n ==> !GoesOn(m, flat, v, k))
    ensures forall j :: i <= j < k ==> GoesOn(m, flat, v, j)
    decreases n - i
  {
    if i == n || !GoesOn(m, flat, v, i) then i else EndFrom(m, flat, v, n, i + 1)
  }

  ghost predicate FaultsAt(flat: seq<u32>, v: u32, n: nat, k: nat)
    requires |flat| == PAGES
  {
    k < n && !NthPresent(flat, v, k)
  }

  /** Byte j of the string lies on page p or translates into one of the frames. */
  ghost predicate Touches(flat: seq<u32>, v: u32, j: nat, p: int, frames: iset<int>)
    requires |flat| == PAGES
  {
    Wrap(v + j) / PAGE_SIZE == p || Translate(flat, Wrap(v + j)) / PAGE_SIZE in frames
  }

  /** No byte read on the way touches page p or the frames. */
  ghost predicate Avoids(m: Ram, flat: seq<u32>, v: u32, n: nat, p: int, frames: iset<int>)
    requires IsRam(m) && |flat| == PAGES
  {
    forall j :: 0 <= j <= TextEnd(m, flat, v, n) && j < n ==> !Touches(flat, v, j, p, frames)
  }

  lemma TextEndIs(m: Ram, flat: seq<u32>, v: u32, n: nat, k: nat)
    requires IsRam(m) && |flat| == PAGES && k <= n && (k < n ==> !GoesOn(m, flat, v, k))
    requires forall j :: 0 <= j < k ==> GoesOn(m, flat, v, j)
    ensures TextEnd(m, flat, v, n) == k
  {
  }

  /** What is read away from page p and the frames does not depend on them. */
  lemma SameByte(m: Ram, m': Ram, flat: seq<u32>, e: u32, v: u32, j: nat, p: int, frames: iset<int>)
    requires |flat| == PAGES && 0 <= p < PAGES && AgreeOutside(m, m', frames) && !Touches(flat, v, j, p, frames)
    ensures NthPresent(flat[p := e], v, j) == NthPresent(flat, v, j)
    ensures NthByte(m', flat[p := e], v, j) == NthByte(m, flat, v, j)
    ensures !Touches(flat[p := e], v, j, p, frames)
  {
  }

  lemma SameText(m: Ram, m': Ram, flat: seq<u32>, e: u32, v: u32, n: nat, p: int, frames: iset<int>)
    requires |flat| == PAGES && 0 <= p < PAGES && AgreeOutside(m, m', frames) && Avoids(m, flat, v, n, p, frames)
    ensures var (flat', k) := (flat[p := e], TextEnd(m, flat, v, n));
            && TextEnd(m', flat', v, n) == k && Avoids(m', flat', v, n, p, frames)
            && FaultsAt(flat', v, n, k) == FaultsAt(flat, v, n, k)
            && forall j :: 0 <= j < k ==> NthByte(m', flat', v, j) == NthByte(m, flat, v, j)
  {
    var flat', k := flat[p := e], TextEnd(m, flat, v, n);
    forall j | 0 <= j <= k && j < n
      ensures NthByte(m', flat', v, j) == NthByte(m, flat, v, j)
      ensures NthPresent(flat', v, j) == NthPresent(flat, v, j) && !Touches(flat', v, j, p, frames)
    {
      SameByte(m, m', flat, e, v, j, p, frames);
    }
    forall j | 0 <= j < k ensures GoesOn(m', flat', v, j) {
      assert GoesOn(m, flat, v, j);
    }
    TextEndIs(m', flat', v, n, k);
  }

  // ---- strncpy through the task's page tables, and out of the frame ----

  /** The frame begins with the first k bytes of the string at v. */
  ghost predicate BeginsWith(f: Frame, m: Ram, flat: seq<u32>, v: u32, k: nat)
    requires IsRam(m) && |flat| == PAGES && k <= PAGE_SIZE
  {
    forall j :: 0 <= j < k ==> FrameByte(f, j) == NthByte(m, flat, v, j)
  }

  /** And then comes the terminator. */
  ghost predicate HoldsText(f: Frame, m: Ram, flat: seq<u32>, v: u32, k: nat)
    requires IsRam(m) && |flat| == PAGES && k < PAGE_SIZE
  {
    BeginsWith(f, m, flat, v, k) && FrameByte(f, k) == 0
  }

  lemma OneMoreByte(m: Ram, f: Frame, flat: seq<u32>, v: u32, i: nat, byte: Byte)
    requires IsRam(m) && |flat| == PAGES && i < PAGE_SIZE && BeginsWith(f, m, flat, v, i)
    ensures FrameByte(WithByte(f, i, byte), i) == byte && BeginsWith(WithByte(f, i, byte), m, flat, v, i)
    ensures byte == NthByte(m, flat, v, i) ==> BeginsWith(WithByte(f, i, byte), m, flat, v, i + 1)
  {
    WithByteIs(f, i, byte, i);
    forall j | 0 <= j < i ensures FrameByte(WithByte(f, i, byte), j) == NthByte(m, flat, v, j) {
      WithByteIs(f, i, byte, j);
    }
  }

  /** One read of the copy, through the tables as they stand. */
  method ReadUser(mem: array<Frame>, ghost c: int, d: int, addr: u32) returns (present: bool, byte: Byte)
    requires ChunkOk(mem[..], c) && d == DirFrame(mem[..], c)
    ensures present == IsPresentAt(FlatMap(mem[..], c), addr)
    ensures byte == ReadByte(mem[..], FlatMap(mem[..], c), addr)
  {
    var entry := Get(mem, d, AlignToLowerPage(addr));
    assert AlignToLowerPage(addr) / PAGE_SIZE == addr / PAGE_SIZE;
    LowBits(entry);
    present := entry % 2 == 1;
    var phys := GetPhysicalAddress(mem, d, addr);
    byte := FrameByte(mem[phys / PAGE_SIZE], phys % PAGE_SIZE);
  }

  /** How far the copy is: i bytes, all of the string's if it stays clear of the frame written. */
  ghost predicate Copying(m: Ram, m': Ram, flat: seq<u32>, v: u32, n: nat, p: int, i: nat)
    requires |flat| == PAGES && 0 <= p < PAGES && i <= n < PAGE_SIZE
  {
    && AgreeOutside(m, m', iset{p})
    && (Avoids(m, flat, v, n, p, iset{p}) ==> i <= TextEnd(m, flat, v, n) && BeginsWith(m'[p], m, flat, v, i))
  }

  /** How the copy ends: with a fault, or with the text and its terminator in the frame. */
  ghost predicate CopyEnded(m: Ram, m': Ram, flat: seq<u32>, v: u32, n: nat, p: int, fault: bool)
    requires IsRam(m) && IsRam(m') && |flat| == PAGES && 0 <= p < PAGES && n < PAGE_SIZE
  {
    Avoids(m, flat, v, n, p, iset{p}) ==>
      var k := TextEnd(m, flat, v, n);
      (fault <==> FaultsAt(flat, v, n, k)) && (!fault ==> HoldsText(m'[p], m, flat, v, k))
  }

  lemma CopyStep(m: Ram, m': Ram, flat: seq<u32>, v: u32, n: nat, p: int, i: nat, present: bool, byte: Byte)
    requires |flat| == PAGES && 0 <= p < PAGES && i < n < PAGE_SIZE && Copying(m, m', flat, v, n, p, i)
    requires present == NthPresent(flat, v, i) && byte == NthByte(m', flat, v, i)
    ensures !present ==> CopyEnded(m, m', flat, v, n, p, true)
    ensures present && byte == 0 ==> CopyEnded(m, m'[p := WithByte(m'[p], i, 0)], flat, v, n, p, false)
    ensures present && byte != 0 ==> Copying(m, m'[p := WithByte(m'[p], i, byte)], flat, v, n, p, i + 1)
  {
    if Avoids(m, flat, v, n, p, iset{p}) {
      assert !Touches(flat, v, i, p, iset{p});
      SameByte(m, m', flat, flat[p], v, i, p, iset{p});
      assert flat[p := flat[p]] == flat;
      assert GoesOn(m, flat, v, i) <==> present && byte != 0;
      OneMoreByte(m, m'[p], flat, v, i, byte);
    }
  }

  lemma CopyFull(m: Ram, m': Ram, flat: seq<u32>, v: u32, n: nat, p: int)
    requires |flat| == PAGES && 0 <= p < PAGES && n < PAGE_SIZE && Copying(m, m', flat, v, n, p, n)
    ensures CopyEnded(m, m'[p := WithByte(m'[p], n, 0)], flat, v, n, p, false)
  {
    if Avoids(m, flat, v, n, p, iset{p}) {
      OneMoreByte(m, m'[p], flat, v, n, 0);
    }
  }

  /** strncpy(tmp, virtual, n + 1) while the task's page directory is loaded; tmp is frame p. `fault` tells that
      a page was not present. */
  method CopyThrough(mem: array<Frame>, ghost c: int, d: int, virt: u32, p: int, n: nat) returns (fault: bool)
    requires ChunkOk(mem[..], c) && d == DirFrame(mem[..], c) && n < PAGE_SIZE && 0 <= p < PAGES
    requires p != c && p != d && p !in Tables(mem[..], c)
    modifies mem
    ensures SameChunk(old(mem[..]), mem[..], c, old(FlatMap(mem[..], c)))
    ensures AgreeOutside(old(mem[..]), mem[..], iset{p})
    ensures CopyEnded(old(mem[..]), mem[..], old(FlatMap(mem[..], c)), virt, n, p, fault)
  {
    ghost var m, flat := mem[..], FlatMap(mem[..], c);
    var i := 0;
    while i < n
      invariant 0 <= i <= n && Copying(m, mem[..], flat, virt, n, p, i) && SameChunk(m, mem[..], c, flat)
    {
      var present, byte := ReadUser(mem, c, d, Wrap(virt + i));
      CopyStep(m, mem[..], flat, virt, n, p, i, present, byte);
      if !present {
        return true;
      }
      if byte == 0 {
        break;
      }
      ghost var m' := mem[..];
      mem[p] := WithByte(mem[p], i, byte);
      assert mem[..] == m'[p := WithByte(m'[p], i, byte)];
      ChunkUnaffected(m, mem[..], c, iset{p});
      i := i + 1;
    }
    ghost var m' := mem[..];
    if i == n {
      CopyFull(m, m', flat, virt, n, p);
    }
    mem[p] := WithByte(mem[p], i, 0);
    assert mem[..] == m'[p := WithByte(m'[p], i, 0)];
    ChunkUnaffected(m, mem[..], c, iset{p});
    return false;
  }

  /** strncpy(phys, tmp, n + 1): out of frame p into a buffer of the kernel. */
  method CopyToKernel(mem: array<Frame>, p: int, buffer: array<Byte>, n: nat) returns (end: nat)
    requires IsRam(mem[..]) && 0 <= p < PAGES && n < PAGE_SIZE && n < buffer.Length
    modifies buffer
    ensures end <= n && (end < n ==> FrameByte(mem[p], end) == 0)
    ensures forall j :: 0 <= j < end ==> FrameByte(mem[p], j) != 0 && buffer[j] == FrameByte(mem[p], j)
    ensures buffer[end] == 0 && forall j :: end < j < buffer.Length ==> buffer[j] == old(buffer[j])
  {
    end := 0;
    while end < n
      invariant end <= n
      invariant forall j :: 0 <= j < end ==> FrameByte(mem[p], j) != 0 && buffer[j] == FrameByte(mem[p], j)
      invariant forall j :: end <= j < buffer.Length ==> buffer[j] == old(buffer[j])
    {
      if FrameByte(mem[p], end) == 0 {
        break;
      }
      buffer[end] := FrameByte(mem[p], end);
      end := end + 1;
    }
    buffer[end] := 0;
  }
}
