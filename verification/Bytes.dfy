/** Memory byte by byte: the four bytes of a little-endian word, and the 4096 bytes of a frame. */
module Bytes {
  import opened Words
  import opened Paging

  type Byte = b: int | 0 <= b < 256

  function Power(b: int): int
    requires 0 <= b < 4
  {
    if b == 0 then 1 else if b == 1 then 0x100 else if b == 2 then 0x1_0000 else 0x100_0000
  }

  function ByteOf(w: u32, b: int): Byte
    requires 0 <= b < 4
  {
    w / Power(b) % 256
  }

  /** A word is its four bytes, the lowest first. */
  lemma ByteSum(w: u32)
    ensures w == ByteOf(w, 0) + ByteOf(w, 1) * 0x100 + ByteOf(w, 2) * 0x1_0000 + ByteOf(w, 3) * 0x100_0000
  {
    assert w / 0x1_0000 == w / 0x100 / 0x100;
    assert w / 0x100_0000 == w / 0x1_0000 / 0x100;
  }

  /** The word made of four bytes. */
  function WordOf(b0: Byte, b1: Byte, b2: Byte, b3: Byte): (w: u32)
    ensures ByteOf(w, 0) == b0 && ByteOf(w, 1) == b1 && ByteOf(w, 2) == b2 && ByteOf(w, 3) == b3
  {
    var w := b0 + b1 * 0x100 + b2 * 0x1_0000 + b3 * 0x100_0000;
    assert w / 0x100 == b1 + b2 * 0x100 + b3 * 0x1_0000;
    assert w / 0x1_0000 == b2 + b3 * 0x100;
    assert w / 0x100_0000 == b3;
    w
  }

  /** The word with one byte replaced. */
  function StoreByte(w: u32, b: int, v: Byte): (r: u32)
    requires 0 <= b < 4
  {
    WordOf(if b == 0 then v else ByteOf(w, 0), if b == 1 then v else ByteOf(w, 1),
           if b == 2 then v else ByteOf(w, 2), if b == 3 then v else ByteOf(w, 3))
  }

  lemma StoreByteIs(w: u32, b: int, v: Byte, k: int)
    requires 0 <= b < 4 && 0 <= k < 4
    ensures ByteOf(StoreByte(w, b, v), k) == if k == b then v else ByteOf(w, k)
  {
  }

  function FrameByte(f: Frame, k: int): Byte
    requires 0 <= k < PAGE_SIZE
  {
    ByteOf(f[k / 4], k % 4)
  }

  function WithByte(f: Frame, k: int, v: Byte): (r: Frame)
    requires 0 <= k < PAGE_SIZE
  {
    f[k / 4 := StoreByte(f[k / 4], k % 4, v)]
  }

  lemma WithByteIs(f: Frame, k: int, v: Byte, j: int)
    requires 0 <= k < PAGE_SIZE && 0 <= j < PAGE_SIZE
    ensures FrameByte(WithByte(f, k, v), j) == if j == k then v else FrameByte(f, j)
  {
    assert j == j / 4 * 4 + j % 4 && k == k / 4 * 4 + k % 4;
    if j / 4 == k / 4 {
      StoreByteIs(f[k / 4], k % 4, v, j % 4);
    }
  }

  /** Frames with the same bytes are the same. */
  lemma SameBytes(f: Frame, g: Frame)
    requires forall k :: 0 <= k < PAGE_SIZE ==> FrameByte(f, k) == FrameByte(g, k)
    ensures f == g
  {
    forall i | 0 <= i < ENTRIES ensures f[i] == g[i] {
      forall b | 0 <= b < 4 ensures ByteOf(f[i], b) == ByteOf(g[i], b) {
        assert FrameByte(f, 4 * i + b) == FrameByte(g, 4 * i + b);
      }
      ByteSum(f[i]);
      ByteSum(g[i]);
    }
  }
}
