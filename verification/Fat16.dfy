/** Reading a file through its FAT16 cluster chain. The table lookup is a successor function. */
module Fat16 {
  import opened Words
  import opened Streamer

  const BAD_SECTOR := 0xFF7
  const UNUSED := 0x00

  // ---- whole clusters and what is left over ----

  /** How many times c goes into x. */
  function Quot(x: nat, c: nat): nat
    requires c > 0
  {
    if x < c then 0 else 1 + Quot(x - c, c)
  }

  function Rem(x: nat, c: nat): (r: nat)
    requires c > 0
    ensures r < c
  {
    if x < c then x else Rem(x - c, c)
  }

  lemma {:induction false} QuotRem(x: nat, c: nat)
    requires c > 0
    ensures x == Quot(x, c) * c + Rem(x, c)
  {
    if x >= c {
      QuotRem(x - c, c);
      var q := Quot(x - c, c);
      assert (1 + q) * c == c + q * c;
    }
  }

  lemma AtLeastOnce(d: int, c: int)
    requires c > 0 && d >= 1
    ensures d * c >= c
  {
    assert (d - 1) * c >= 0;
  }

  /** C's `/` and `%` on non-negative numbers. */
  lemma QuotIsDiv(x: nat, c: nat)
    requires c > 0
    ensures x / c == Quot(x, c) && x % c == Rem(x, c)
  {
    QuotRem(x, c);
    var q, r, d, e := Quot(x, c), Rem(x, c), x / c, x % c;
    assert x == d * c + e;
    assert (q - d) * c == q * c - d * c;
    assert (d - q) * c == d * c - q * c;
    if q > d { AtLeastOnce(q - d, c); }
    if d > q { AtLeastOnce(d - q, c); }
  }

  lemma {:induction false} QuotRemAdd(x: nat, y: nat, c: nat)
    requires c > 0
    ensures var r := Rem(x, c) + Rem(y, c);
            && Quot(x + y, c) == Quot(x, c) + Quot(y, c) + (if r < c then 0 else 1)
            && Rem(x + y, c) == if r < c then r else r - c
    decreases x + y
  {
    if x >= c {
      QuotRemAdd(x - c, y, c);
      assert x + y - c == (x - c) + y;
    } else if y >= c {
      QuotRemAdd(x, y - c, c);
      assert x + y - c == x + (y - c);
    }
  }

  // ---- the volume ----

  /** The entries at which the walk gives up: the 12-bit end, bad and reserved markers, and free. */
  predicate StopsWalk(entry: int) {
    || entry == 0xFF8 || entry == 0xFFF
    || entry == BAD_SECTOR
    || entry == 0xFF0 || entry == 0xFF6
    || entry == UNUSED
  }

  /** What is fixed while files are read: the disk, the lookup, and where cluster 2 starts. */
  datatype Volume = Volume(disk: seq<byte>, fat: int -> int, rootEnd: int, sectorsPerCluster: int) {
    ghost predicate Valid() {
      1 <= sectorsPerCluster <= 255
    }

    /** size_of_cluster_bytes */
    function ClusterBytes(): (c: nat)
      requires Valid()
      ensures c >= SECTOR_SIZE
    {
      sectorsPerCluster * SECTOR_SIZE
    }

    function ClusterToSector(cluster: int): int {
      rootEnd + (cluster - 2) * sectorsPerCluster
    }

    /** The disk position of a cluster's first byte. */
    function Position(cluster: int): int {
      ClusterToSector(cluster) * SECTOR_SIZE
    }

    /** The cluster n steps along the chain, or a negative number when the chain ends before. */
    function Walk(cluster: int, n: nat): int
      decreases n
    {
      if n == 0 then cluster
      else if StopsWalk(fat(cluster)) then -EIO
      else Walk(fat(cluster), n - 1)
    }

    // ---- where bytes are read from, and where they belong ----

    /** Where the code reads byte k of a request at `offset` from. */
    function ReadPosition(cluster: int, offset: nat, k: nat): int
      requires Valid()
    {
      var c := ClusterBytes();
      Position(Walk(cluster, Quot(offset, c) + Quot(k, c))) + Rem(offset, c) + Rem(k, c)
    }

    /** Where byte i of the file lies. */
    function FilePosition(cluster: int, i: nat): int
      requires Valid()
    {
      Position(Walk(cluster, Quot(i, ClusterBytes()))) + Rem(i, ClusterBytes())
    }

    /** Number of clusters a request is served from, one piece each; an empty request looks at one. */
    function Pieces(total: nat): nat
      requires Valid()
    {
      if total <= ClusterBytes() then 1 else 1 + Pieces(total - ClusterBytes())
    }

    /** How many bytes the j-th piece reads: a cluster's worth, or what is left. */
    function PieceBytes(total: nat, j: nat): nat
      requires Valid()
    {
      if total <= ClusterBytes() then total
      else if j == 0 then ClusterBytes()
      else PieceBytes(total - ClusterBytes(), j - 1)
    }

    /** The cluster that the j-th piece is read from, negative when the chain does not reach it. */
    function PieceCluster(cluster: int, offset: nat, j: nat): int
      requires Valid()
    {
      Walk(cluster, Quot(offset, ClusterBytes()) + j)
    }

    /** The disk position where the j-th piece starts. */
    function PieceStart(cluster: int, offset: nat, j: nat): int
      requires Valid()
    {
      Position(PieceCluster(cluster, offset, j)) + Rem(offset, ClusterBytes())
    }

    /** The positions of the request's own pieces are non-negative `int`s. */
    ghost predicate Addressable(cluster: int, offset: nat, total: nat)
      requires Valid()
    {
      forall j :: 0 <= j < Pieces(total) ==> AddressablePiece(cluster, offset, total, j)
    }

    ghost predicate AddressablePiece(cluster: int, offset: nat, total: nat, j: nat)
      requires Valid()
    {
      PieceCluster(cluster, offset, j) >= 0 ==>
        0 <= PieceStart(cluster, offset, j)
        && PieceStart(cluster, offset, j) + PieceBytes(total, j) < 0x8000_0000
    }

    /** All clusters of the request are in the chain and all its sectors on the disk. */
    ghost predicate Reaches(cluster: int, offset: nat, total: nat)
      requires Valid()
    {
      forall j :: 0 <= j < Pieces(total) ==> ReachesPiece(cluster, offset, total, j)
    }

    ghost predicate ReachesPiece(cluster: int, offset: nat, total: nat, j: nat)
      requires Valid()
    {
      && PieceCluster(cluster, offset, j) >= 0 && PieceStart(cluster, offset, j) >= 0
      && OnDisk(disk, SectorOf(PieceStart(cluster, offset, j) + PieceBytes(total, j)))
    }
  }

  // ---- where clusters lie ----

  /** The first data cluster, number 2, starts behind the root directory, and every next cluster behind the one
      before it. */
  lemma ClustersInRow(v: Volume, c: int)
    requires v.Valid()
    ensures v.Position(2) == v.rootEnd * SECTOR_SIZE
    ensures v.Position(c + 1) == v.Position(c) + v.ClusterBytes()
  {
    var s := v.sectorsPerCluster;
    assert (c + 1 - 2) * s == (c - 2) * s + s;
  }

  lemma {:induction false} PositionOf(v: Volume, q: nat)
    requires v.Valid()
    ensures v.Position(2 + q) == v.rootEnd * SECTOR_SIZE + q * v.ClusterBytes()
  {
    if q > 0 {
      PositionOf(v, q - 1);
      ClustersInRow(v, 2 + q - 1);
      var c := v.ClusterBytes();
      assert q * c == (q - 1) * c + c;
    } else {
      ClustersInRow(v, 2);
    }
  }

  /** So the clusters from 2 on tile the data area: every byte behind the root directory belongs to exactly one of
      them, at exactly one place. */
  lemma ClustersTile(v: Volume, x: nat) returns (cluster: int, at: nat)
    requires v.Valid()
    ensures cluster >= 2 && at < v.ClusterBytes() && v.Position(cluster) + at == v.rootEnd * SECTOR_SIZE + x
    ensures forall q: nat, r: nat :: InCluster(v, q, r, x) ==> q == cluster && r == at
  {
    var c := v.ClusterBytes();
    cluster, at := 2 + Quot(x, c), Rem(x, c);
    QuotRem(x, c);
    PositionOf(v, Quot(x, c));
    forall q: nat, r: nat | InCluster(v, q, r, x) ensures q == cluster && r == at {
      PositionOf(v, q - 2);
      OnlyQuotient(q - 2, r, Quot(x, c), Rem(x, c), c);
    }
  }

  /** Byte x of the data area is byte r of cluster q. */
  ghost predicate InCluster(v: Volume, q: nat, r: nat, x: nat)
    requires v.Valid()
  {
    q >= 2 && r < v.ClusterBytes() && v.Position(q) + r == v.rootEnd * SECTOR_SIZE + x
  }

  lemma OnlyQuotient(q: nat, r: nat, d: nat, e: nat, c: nat)
    requires r < c && e < c && q * c + r == d * c + e
    ensures q == d && r == e
  {
    assert (q - d) * c == q * c - d * c;
    assert (d - q) * c == d * c - q * c;
    if q > d { AtLeastOnce(q - d, c); }
    if d > q { AtLeastOnce(d - q, c); }
  }

  /** A request has a piece for every cluster's worth that its bytes reach into, of the bytes that lie there; an
      empty request has one empty piece. */
  lemma {:induction false} PiecesAre(v: Volume, total: nat, j: nat)
    requires v.Valid()
    ensures j < v.Pieces(total) <==> j == 0 || j * v.ClusterBytes() < total
    ensures j < v.Pieces(total) ==>
              var left := total - j * v.ClusterBytes();
              v.PieceBytes(total, j) == if left <= v.ClusterBytes() then left else v.ClusterBytes()
    decreases j
  {
    var c := v.ClusterBytes();
    if j > 0 {
      assert j * c == (j - 1) * c + c;
      if total > c {
        PiecesAre(v, total - c, j - 1);
      } else {
        AtLeastOnce(j, c);
      }
    }
  }

  /** The entries that end the walk, by number. */
  lemma StopsAtMarkers(entry: int)
    ensures StopsWalk(entry) <==> entry in {0x000, 0xFF0, 0xFF6, 0xFF7, 0xFF8, 0xFFF}
  {
  }

  /** The walk follows a chain of clusters, each the table's entry of the one before, for as long as no entry is a
      marker, and is an error from the first marker on. */
  lemma {:induction false} WalkFollowsChain(v: Volume, chain: seq<int>, n: nat)
    requires |chain| > 0
    requires forall j :: 0 <= j < |chain| - 1 ==> chain[j + 1] == v.fat(chain[j])
    requires forall j :: 0 <= j < |chain| - 1 ==> v.fat(chain[j]) !in {0x000, 0xFF0, 0xFF6, 0xFF7, 0xFF8, 0xFFF}
    ensures n < |chain| ==> v.Walk(chain[0], n) == chain[n]
    ensures n >= |chain| && v.fat(chain[|chain| - 1]) in {0x000, 0xFF0, 0xFF6, 0xFF7, 0xFF8, 0xFFF} ==>
              v.Walk(chain[0], n) == -EIO
    decreases |chain|
  {
    StopsAtMarkers(v.fat(chain[0]));
    if n > 0 && |chain| > 1 {
      WalkFollowsChain(v, chain[1..], n - 1);
    }
  }

  /** fat16_get_cluster_for_offset */
  method GetClusterForOffset(v: Volume, startingCluster: int, offset: nat) returns (res: int)
    requires v.Valid()
    ensures res == v.Walk(startingCluster, Quot(offset, v.ClusterBytes()))
  {
    var clustersAhead := offset / v.ClusterBytes();
    QuotIsDiv(offset, v.ClusterBytes());
    var clusterToUse := startingCluster;
    var i := 0;
    while i < clustersAhead
      invariant 0 <= i <= clustersAhead
      invariant v.Walk(startingCluster, clustersAhead) == v.Walk(clusterToUse, clustersAhead - i)
    {
      var entry := v.fat(clusterToUse);
      if entry == 0xFF8 || entry == 0xFFF {
        return -EIO;
      }
      if entry == BAD_SECTOR {
        return -EIO;
      }
      if entry == 0xFF0 || entry == 0xFF6 {
        return -EIO;
      }
      if entry == UNUSED {
        return -EIO;
      }
      clusterToUse := entry;
      i := i + 1;
    }
    res := clusterToUse;
  }

  /** Byte k of the request has been delivered to its place in the buffer. */
  ghost predicate Delivered(v: Volume, cluster: int, offset: nat, out: seq<byte>, at: nat, k: nat)
    requires v.Valid()
  {
    var p := v.ReadPosition(cluster, offset, k);
    at + k < |out| && 0 <= p < |v.disk| && out[at + k] == v.disk[p]
  }

  ghost predicate AllDelivered(v: Volume, cluster: int, offset: nat, out: seq<byte>, at: nat, total: nat)
    requires v.Valid()
  {
    forall k :: 0 <= k < total ==> Delivered(v, cluster, offset, out, at, k)
  }

  /** One piece: find the cluster, seek, and read up to a cluster's worth of bytes. */
  method ReadPiece(v: Volume, stream: DiskStream, cluster: int, offset: nat, total: nat, out: array<byte>, at: nat)
    returns (res: int)
    requires v.Valid() && v.AddressablePiece(cluster, offset, total, 0) && stream.disk == v.disk
    requires total <= v.ClusterBytes() && at + total <= out.Length
    modifies stream, out
    ensures res == 0 || res < 0
    ensures res == 0 <==> v.ReachesPiece(cluster, offset, total, 0)
    ensures res == 0 ==> AllDelivered(v, cluster, offset, out[..], at, total)
    ensures forall i :: 0 <= i < at || at + total <= i < out.Length ==> out[i] == old(out[i])
  {
    var c := v.ClusterBytes();
    var clusterToUse := GetClusterForOffset(v, cluster, offset);
    if clusterToUse < 0 {
      return clusterToUse;
    }
    QuotIsDiv(offset, c);
    var startingPos := v.ClusterToSector(clusterToUse) * SECTOR_SIZE + offset % c;
    assert startingPos == v.PieceStart(cluster, offset, 0);
    stream.Seek(startingPos);
    ghost var before := out[..];
    res := stream.Read(out, at, total);
    if res == 0 {
      assert Copied(before, out[..], at, v.disk, startingPos, total);
      forall k | 0 <= k < total ensures Delivered(v, cluster, offset, out[..], at, k) {
        assert v.ReadPosition(cluster, offset, k) == startingPos + k;
      }
    }
  }

  /** fat16_read_internal_from_stream: which disk byte each buffer byte comes from, at any offset,
      and exactly when the read succeeds. Each recursive step walks from the first cluster again. */
  method ReadInternal(v: Volume, stream: DiskStream, cluster: int, offset: nat, total: nat, out: array<byte>, at: nat)
    returns (res: int)
    requires v.Valid() && v.Addressable(cluster, offset, total) && stream.disk == v.disk && at + total <= out.Length
    modifies stream, out
    ensures res == 0 || res < 0
    ensures res == 0 <==> v.Reaches(cluster, offset, total)
    ensures res == 0 ==> AllDelivered(v, cluster, offset, out[..], at, total)
    ensures forall i :: 0 <= i < at || at + total <= i < out.Length ==> out[i] == old(out[i])
    decreases total
  {
    var c := v.ClusterBytes();
    var totalToRead := if total > c then c else total;
    FirstPiece(v, cluster, offset, total);
    res := ReadPiece(v, stream, cluster, offset, totalToRead, out, at);
    if res != 0 {
      return;
    }
    var left := total - totalToRead;
    if left > 0 {
      ghost var middle := out[..];
      res := ReadInternal(v, stream, cluster, offset + totalToRead, left, out, at + totalToRead);
      if res == 0 {
        BothDelivered(v, cluster, offset, middle, out[..], at, total);
      }
    }
  }

  lemma BothDelivered(v: Volume, cluster: int, offset: nat, middle: seq<byte>, out: seq<byte>, at: nat, total: nat)
    requires v.Valid() && total > v.ClusterBytes() && |middle| == |out|
    requires AllDelivered(v, cluster, offset, middle, at, v.ClusterBytes())
    requires AllDelivered(v, cluster, offset + v.ClusterBytes(), out, at + v.ClusterBytes(), total - v.ClusterBytes())
    requires forall i :: 0 <= i < at + v.ClusterBytes() && i < |out| ==> out[i] == middle[i]
    ensures AllDelivered(v, cluster, offset, out, at, total)
  {
    var c := v.ClusterBytes();
    forall k | 0 <= k < total ensures Delivered(v, cluster, offset, out, at, k) {
      if k < c {
        assert Delivered(v, cluster, offset, middle, at, k);
      } else {
        assert Delivered(v, cluster, offset + c, out, at + c, k - c);
        LaterPiece(v, cluster, offset, k);
      }
    }
  }

  lemma LaterPiece(v: Volume, cluster: int, offset: nat, k: nat)
    requires v.Valid() && k >= v.ClusterBytes()
    ensures v.ReadPosition(cluster, offset, k)
         == v.ReadPosition(cluster, offset + v.ClusterBytes(), k - v.ClusterBytes())
  {
    var c := v.ClusterBytes();
    assert Quot(offset + c, c) == Quot(offset, c) + 1 && Rem(offset + c, c) == Rem(offset, c);
  }

  lemma NextPiece(v: Volume, cluster: int, offset: nat, total: nat, j: nat)
    requires v.Valid() && total > v.ClusterBytes()
    ensures var c := v.ClusterBytes();
            && v.PieceStart(cluster, offset + c, j) == v.PieceStart(cluster, offset, j + 1)
            && v.PieceCluster(cluster, offset + c, j) == v.PieceCluster(cluster, offset, j + 1)
            && v.PieceBytes(total - c, j) == v.PieceBytes(total, j + 1)
  {
    var c := v.ClusterBytes();
    assert Quot(offset + c, c) == Quot(offset, c) + 1 && Rem(offset + c, c) == Rem(offset, c);
  }

  /** A request is its first piece and, beyond a cluster's worth, the request for the rest. */
  lemma FirstPiece(v: Volume, cluster: int, offset: nat, total: nat)
    requires v.Valid()
    ensures var c := v.ClusterBytes();
            var first := if total > c then c else total;
            && (v.AddressablePiece(cluster, offset, total, 0) ==> v.AddressablePiece(cluster, offset, first, 0))
            && (v.ReachesPiece(cluster, offset, first, 0) <==> v.ReachesPiece(cluster, offset, total, 0))
            && (total <= c ==> (v.Reaches(cluster, offset, total) <==> v.ReachesPiece(cluster, offset, first, 0)))
            && (v.Addressable(cluster, offset, total) ==> v.AddressablePiece(cluster, offset, total, 0))
            && (total > c ==>
                  && (v.Addressable(cluster, offset, total) ==> v.Addressable(cluster, offset + c, total - c))
                  && (v.Reaches(cluster, offset, total)
                      <==> v.ReachesPiece(cluster, offset, first, 0) && v.Reaches(cluster, offset + c, total - c)))
  {
    var c := v.ClusterBytes();
    if total > c {
      var next: nat, left: nat := offset + c, total - c;
      if v.Addressable(cluster, offset, total) {
        forall j | 0 <= j < v.Pieces(left) ensures v.AddressablePiece(cluster, next, left, j) {
          NextPiece(v, cluster, offset, total, j);
          assert v.AddressablePiece(cluster, offset, total, j + 1);
        }
      }
      if v.Reaches(cluster, offset, total) {
        forall j | 0 <= j < v.Pieces(left) ensures v.ReachesPiece(cluster, next, left, j) {
          NextPiece(v, cluster, offset, total, j);
          assert v.ReachesPiece(cluster, offset, total, j + 1);
        }
      }
      if v.ReachesPiece(cluster, offset, c, 0) && v.Reaches(cluster, offset + c, total - c) {
        forall j | 0 <= j < v.Pieces(total) ensures v.ReachesPiece(cluster, offset, total, j) {
          if j > 0 {
            NextPiece(v, cluster, offset, total, j - 1);
            assert v.ReachesPiece(cluster, offset + c, total - c, j - 1);
          }
        }
      }
    }
  }

  // ---- when the bytes are the file's ----

  /** Byte k of a request is read from where it belongs if and only if it does not run over the end
      of its cluster, or the chain's next cluster happens to be the next one on the disk. */
  lemma ReadIsExact(v: Volume, cluster: int, offset: nat, k: nat)
    requires v.Valid()
    ensures var c := v.ClusterBytes();
            var j := Quot(offset, c) + Quot(k, c);
            v.ReadPosition(cluster, offset, k) == v.FilePosition(cluster, offset + k)
            <==> Rem(offset, c) + Rem(k, c) < c || v.Walk(cluster, j + 1) == v.Walk(cluster, j) + 1
  {
    var c := v.ClusterBytes();
    var j := Quot(offset, c) + Quot(k, c);
    QuotRemAdd(offset, k, c);
    PositionsApart(v, v.Walk(cluster, j), v.Walk(cluster, j + 1));
  }

  lemma PositionsApart(v: Volume, a: int, b: int)
    requires v.Valid()
    ensures v.Position(b) == v.Position(a) + v.ClusterBytes() <==> b == a + 1
  {
    var s := v.sectorsPerCluster;
    assert v.ClusterToSector(b) - v.ClusterToSector(a) == (b - a) * s by {
      assert (b - 2) * s - (a - 2) * s == ((b - 2) - (a - 2)) * s;
    }
    if b > a + 1 {
      AtLeastOnce(b - a - 1, s);
      assert (b - a) * s == (b - a - 1) * s + s;
    }
    if b < a + 1 {
      assert (a - b) * s >= 0;
      assert (b - a) * s == -((a - b) * s);
    }
  }

  /** Byte k of the buffer is byte offset + k of the file. */
  ghost predicate IsFileByte(v: Volume, cluster: int, offset: nat, out: seq<byte>, at: nat, k: nat)
    requires v.Valid()
  {
    var p := v.FilePosition(cluster, offset + k);
    at + k < |out| && 0 <= p < |v.disk| && out[at + k] == v.disk[p]
  }

  /** So a request that starts on a cluster boundary, or stays inside one cluster, delivers exactly
      that slice of the file, however the clusters are scattered over the disk. */
  lemma AlignedReadIsFileSlice(v: Volume, cluster: int, offset: nat, total: nat, out: seq<byte>, at: nat)
    requires v.Valid()
    requires Rem(offset, v.ClusterBytes()) == 0 || Rem(offset, v.ClusterBytes()) + total <= v.ClusterBytes()
    requires AllDelivered(v, cluster, offset, out, at, total)
    ensures forall k :: 0 <= k < total ==> IsFileByte(v, cluster, offset, out, at, k)
  {
    forall k: nat | k < total ensures IsFileByte(v, cluster, offset, out, at, k) {
      assert Delivered(v, cluster, offset, out, at, k);
      ReadIsExact(v, cluster, offset, k);
    }
  }

  // ---- whole files ----

  function Times(i: nat, size: nat): nat {
    if i == 0 then 0 else Times(i - 1, size) + size
  }

  lemma {:induction false} TimesIsProduct(i: nat, size: nat)
    ensures Times(i, size) == i * size
  {
    if i > 0 {
      TimesIsProduct(i - 1, size);
    }
  }

  lemma {:induction false} TimesMonotone(i: nat, j: nat, size: nat)
    requires i <= j
    ensures Times(i, size) <= Times(j, size)
  {
    if i < j {
      TimesMonotone(i, j - 1, size);
    }
  }

  /** Record i is in the buffer. */
  ghost predicate RecordDelivered(v: Volume, cluster: int, pos: nat, size: nat, out: seq<byte>, i: nat)
    requires v.Valid()
  {
    AllDelivered(v, cluster, pos + Times(i, size), out, Times(i, size), size)
  }

  lemma RecordsKept(v: Volume, cluster: int, pos: nat, size: nat, before: seq<byte>, after: seq<byte>, i: nat, j: nat)
    requires v.Valid() && j < i && |before| == |after| && RecordDelivered(v, cluster, pos, size, before, j)
    requires forall k :: 0 <= k < Times(i, size) && k < |before| ==> after[k] == before[k]
    ensures RecordDelivered(v, cluster, pos, size, after, j)
  {
    TimesMonotone(j + 1, i, size);
    var at, offset := Times(j, size), pos + Times(j, size);
    forall k | 0 <= k < size ensures Delivered(v, cluster, offset, after, at, k) {
      assert Delivered(v, cluster, offset, before, at, k);
    }
  }

  /** fat16_read: `nmemb` records of `size` bytes from the descriptor's position, delivered one
      behind the other. */
  method Read(v: Volume, stream: DiskStream, firstCluster: int, pos: nat, size: nat, nmemb: nat, out: array<byte>)
    returns (res: int)
    requires v.Valid() && stream.disk == v.disk && Times(nmemb, size) <= out.Length
    requires forall i :: 0 <= i < nmemb ==> v.Addressable(firstCluster, pos + Times(i, size), size)
    modifies stream, out
    ensures res == nmemb || res < 0
    ensures res >= 0 <==> forall i :: 0 <= i < nmemb ==> v.Reaches(firstCluster, pos + Times(i, size), size)
    ensures res >= 0 ==> forall i :: 0 <= i < nmemb ==> RecordDelivered(v, firstCluster, pos, size, out[..], i)
  {
    var i, offset, at := 0, pos, 0;
    while i < nmemb
      invariant 0 <= i <= nmemb && offset == pos + Times(i, size) && at == Times(i, size)
      invariant forall j :: 0 <= j < i ==> v.Reaches(firstCluster, pos + Times(j, size), size)
      invariant forall j :: 0 <= j < i ==> RecordDelivered(v, firstCluster, pos, size, out[..], j)
    {
      TimesMonotone(i + 1, nmemb, size);
      ghost var before := out[..];
      res := ReadInternal(v, stream, firstCluster, offset, size, out, at);
      if res < 0 {
        return;
      }
      forall j | 0 <= j < i ensures RecordDelivered(v, firstCluster, pos, size, out[..], j) {
        RecordsKept(v, firstCluster, pos, size, before, out[..], i, j);
      }
      at := at + size;
      offset := offset + size;
      i := i + 1;
    }
    res := nmemb;
  }

  /** The loader's single whole-file read is the file, byte for byte. */
  lemma WholeFileRead(v: Volume, cluster: int, size: nat, out: seq<byte>)
    requires v.Valid() && RecordDelivered(v, cluster, 0, size, out, 0)
    ensures forall k :: 0 <= k < size ==> IsFileByte(v, cluster, 0, out, 0, k)
  {
    assert Times(0, size) == 0;
    AlignedReadIsFileSlice(v, cluster, 0, size, out, 0);
  }

  /** A delivered file that fits the first data cluster is the beginning of the data area. */
  lemma FirstClusterFile(v: Volume, size: nat, out: seq<byte>)
    requires v.Valid() && v.rootEnd >= 0 && 0 < size <= v.ClusterBytes() && RecordDelivered(v, 2, 0, size, out, 0)
    ensures size <= |out| && v.rootEnd * SECTOR_SIZE + size <= |v.disk|
    ensures out[..size] == v.disk[v.rootEnd * SECTOR_SIZE..v.rootEnd * SECTOR_SIZE + size]
  {
    FirstClusterByte(v, size, out, size - 1);
    forall k | 0 <= k < size ensures out[..size][k] == v.disk[v.rootEnd * SECTOR_SIZE + k] {
      FirstClusterByte(v, size, out, k);
    }
  }

  lemma FirstClusterByte(v: Volume, size: nat, out: seq<byte>, k: nat)
    requires v.Valid() && v.rootEnd >= 0 && k < size <= v.ClusterBytes() && RecordDelivered(v, 2, 0, size, out, 0)
    ensures k < |out| && v.rootEnd * SECTOR_SIZE + k < |v.disk| && out[k] == v.disk[v.rootEnd * SECTOR_SIZE + k]
  {
    WholeFileRead(v, 2, size, out);
    ClustersInRow(v, 2);
    assert IsFileByte(v, 2, 0, out, 0, k);
    assert Quot(k, v.ClusterBytes()) == 0 && Rem(k, v.ClusterBytes()) == k;
  }

  /** A file whose second cluster is not the next one on the disk: 512 bytes read from offset 256
      run over the end of cluster 2 into cluster 3, while the file goes on in cluster 5. */
  lemma CrossingReadExample(v: Volume)
    requires v.sectorsPerCluster == 1 && v.fat(2) == 5
    ensures v.ReadPosition(2, 256, 256) == v.Position(3)
    ensures v.FilePosition(2, 256 + 256) == v.Position(5) == v.Position(3) + 1024
  {
    assert Quot(512, 512) == 1 + Quot(0, 512);
    assert v.Walk(2, 1) == v.Walk(5, 0);
  }
}
