/** The sector streamer: any byte range of the disk, read one 512-byte sector at a time. */
module Streamer {
  import opened Words

  const SECTOR_SIZE := 512

  type byte = x: int | 0 <= x < 256

  /** The sectors from `first` to `last`, each once, in order. */
  function Sectors(first: int, last: int): seq<int> {
    seq(if first <= last then last - first + 1 else 0, i => first + i)
  }

  lemma SectorsCons(seen: seq<int>, first: int, last: int)
    requires first < last
    ensures seen + [first] + Sectors(first + 1, last) == seen + Sectors(first, last)
  {
    assert [first] + Sectors(first + 1, last) == Sectors(first, last);
  }

  predicate OnDisk(disk: seq<byte>, sector: int) {
    (sector + 1) * SECTOR_SIZE <= |disk|
  }

  /** The sector that holds a position. */
  function SectorOf(pos: nat): nat {
    if pos < SECTOR_SIZE then 0 else SectorOf(pos - SECTOR_SIZE) + 1
  }

  lemma {:induction false} SectorOfIsQuotient(pos: nat)
    ensures SectorOf(pos) == pos / SECTOR_SIZE
  {
    if pos >= SECTOR_SIZE {
      SectorOfIsQuotient(pos - SECTOR_SIZE);
    }
  }

  /** How a request of `total` bytes at pos splits at the end of its first sector. */
  lemma FirstSector(disk: seq<byte>, pos: nat, total: nat)
    ensures var s, last, k := SectorOf(pos), SectorOf(pos + total), SECTOR_SIZE - pos % SECTOR_SIZE;
            && (OnDisk(disk, last) ==> OnDisk(disk, s))
            && (total < k ==> last == s && Sectors(s, last) == [s])
            && (total >= k ==> SectorOf(pos + k) == s + 1 && s + 1 <= last)
  {
    SectorOfIsQuotient(pos);
    SectorOfIsQuotient(pos + total);
    SectorOfIsQuotient(pos + SECTOR_SIZE - pos % SECTOR_SIZE);
  }

  /** The n disk bytes from pos have been copied to memory at `at`, and nothing else changed. */
  ghost predicate Copied(before: seq<byte>, after: seq<byte>, at: nat, disk: seq<byte>, pos: nat, n: nat) {
    && |after| == |before| && at + n <= |before| && pos + n <= |disk|
    && forall i :: 0 <= i < |before| ==> after[i] == if at <= i < at + n then disk[pos + (i - at)] else before[i]
  }

  lemma CopiedIsFlatSlice(before: seq<byte>, after: seq<byte>, at: nat, disk: seq<byte>, pos: nat, n: nat)
    requires Copied(before, after, at, disk, pos, n)
    ensures after == before[..at] + disk[pos..pos + n] + before[at + n..]
  {
  }

  lemma CopiedInTwo(before: seq<byte>, middle: seq<byte>, after: seq<byte>, at: nat, disk: seq<byte>, pos: nat,
                    k: nat, n: nat)
    requires k <= n && Copied(before, middle, at, disk, pos, k) && Copied(middle, after, at + k, disk, pos + k, n - k)
    ensures Copied(before, after, at, disk, pos, n)
  {
  }

  class DiskStream {
    var pos: int
    const disk: seq<byte>
    // the sectors read so far
    ghost var log: seq<int>

    constructor (disk: seq<byte>)
      ensures pos == 0 && this.disk == disk && log == []
    {
      pos := 0;
      this.disk := disk;
      log := [];
    }

    method Seek(newPos: int)
      modifies `pos
      ensures pos == newPos
    {
      pos := newPos;
    }

    /** disk_read_block for one sector; a sector that does not exist is a read error. */
    method ReadBlock(lba: int) returns (res: int, buff: seq<byte>)
      modifies `log
      ensures log == old(log) + [lba]
      ensures res == if 0 <= lba && OnDisk(disk, lba) then 0 else -EIO
      ensures res == 0 ==> buff == disk[lba * SECTOR_SIZE..(lba + 1) * SECTOR_SIZE]
    {
      log := log + [lba];
      if 0 <= lba && OnDisk(disk, lba) {
        return 0, disk[lba * SECTOR_SIZE..(lba + 1) * SECTOR_SIZE];
      }
      return -EIO, [];
    }

    /** The copy loop: `total` bytes of the sector buffer from `offset` go to out[at..]. */
    method CopyOut(buff: seq<byte>, offset: nat, total: nat, out: array<byte>, at: nat)
      requires offset + total <= |buff| && at + total <= out.Length
      modifies out
      ensures Copied(old(out[..]), out[..], at, buff, offset, total)
    {
      var i := 0;
      while i < total
        invariant 0 <= i <= total
        invariant forall k :: at <= k < at + i ==> out[k] == buff[offset + (k - at)]
        invariant forall k :: 0 <= k < at || at + i <= k < out.Length ==> out[k] == old(out[k])
      {
        out[at + i] := buff[offset + i];
        i := i + 1;
      }
    }

    /** One level of diskstreamer_read: the part of the request that lies in its first sector. */
    method ReadSector(out: array<byte>, at: nat, totalToRead: nat) returns (res: int)
      requires 0 <= pos && pos % SECTOR_SIZE + totalToRead <= SECTOR_SIZE && at + totalToRead <= out.Length
      modifies this, out
      ensures log == old(log) + [SectorOf(old(pos))]
      ensures res == if OnDisk(disk, SectorOf(old(pos))) then 0 else -EIO
      ensures res == 0 ==>
                pos == old(pos) + totalToRead && Copied(old(out[..]), out[..], at, disk, old(pos), totalToRead)
      ensures res != 0 ==> out[..] == old(out[..])
    {
      SectorOfIsQuotient(pos);
      var sector := pos / SECTOR_SIZE;
      var offset := pos % SECTOR_SIZE;
      var buff;
      res, buff := ReadBlock(sector);
      if res < 0 {
        return;
      }
      ghost var before := out[..];
      CopyOut(buff, offset, totalToRead, out, at);
      CopiedFromSector(before, out[..], at, disk, sector, offset, totalToRead);
      pos := pos + totalToRead;
    }

    /** diskstreamer_read: on a large enough disk the buffer receives exactly disk[pos..pos + total),
        the position advances by total, and every sector from pos / 512 to (pos + total) / 512 is
        read exactly once, in order. It succeeds exactly when the last of these sectors exists: a
        range that ends on a sector boundary also needs the sector behind it. */
    method Read(out: array<byte>, at: nat, total: nat) returns (res: int)
      requires 0 <= pos && pos + total < 0x8000_0000 && at + total <= out.Length
      modifies this, out
      ensures res == if OnDisk(disk, SectorOf(old(pos) + total)) then 0 else -EIO
      ensures res == 0 <==> ((old(pos) + total) / 512 + 1) * 512 <= |disk|
      ensures res == 0 ==>
                && pos == old(pos) + total && Copied(old(out[..]), out[..], at, disk, old(pos), total)
                && log == old(log) + Sectors(SectorOf(old(pos)), SectorOf(old(pos) + total))
      ensures forall i :: 0 <= i < at || at + total <= i < out.Length ==> out[i] == old(out[i])
      decreases total
    {
      var offset := pos % SECTOR_SIZE;
      var totalToRead := total;
      var overflow := offset + totalToRead >= SECTOR_SIZE;
      if overflow {
        totalToRead := totalToRead - ((offset + totalToRead) - SECTOR_SIZE);
      }
      ghost var before, middle, start, seen := out[..], out[..], pos, log;
      FirstSector(disk, start, total);
      SectorOfIsQuotient(start + total);
      res := ReadSector(out, at, totalToRead);
      if res < 0 {
        return;
      }
      if overflow {
        middle := out[..];
        res := Read(out, at + totalToRead, total - totalToRead);
        if res == 0 {
          CopiedInTwo(before, middle, out[..], at, disk, start, totalToRead, total);
          SectorsCons(seen, SectorOf(start), SectorOf(start + total));
        }
      }
    }
  }

  lemma CopiedFromSector(before: seq<byte>, after: seq<byte>, at: nat, disk: seq<byte>, sector: nat, offset: nat,
                         n: nat)
    requires OnDisk(disk, sector) && offset + n <= SECTOR_SIZE
    requires Copied(before, after, at, disk[sector * SECTOR_SIZE..(sector + 1) * SECTOR_SIZE], offset, n)
    ensures Copied(before, after, at, disk, sector * SECTOR_SIZE + offset, n)
  {
  }
}
