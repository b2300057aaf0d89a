/** filesystem.c: reads through an inode's block list, against the flat view of a file. */
module FileSystem {
  import opened Bytes

  const BLOCK: nat := 4096
  const INODE_BLOCKS: nat := 1023

  datatype Inode = Inode(length: uint32, blocks: seq<uint32>)

  datatype Image = Image(inodes: seq<Inode>, data: seq<seq<byte>>)

  predicate Formed(img: Image) {
    && (forall i :: 0 <= i < |img.inodes| ==> |img.inodes[i].blocks| == INODE_BLOCKS)
    && (forall b :: 0 <= b < |img.data| ==> |img.data[b]| == BLOCK)
  }

  /** The block that holds byte k of the file exists. */
  predicate ByteMapped(img: Image, ino: Inode, k: nat) {
    |ino.blocks| == INODE_BLOCKS && k / BLOCK < INODE_BLOCKS && ino.blocks[k / BLOCK] < |img.data|
  }

  ghost predicate Mapped(img: Image, ino: Inode, from: nat, to: nat) {
    Formed(img) && forall k :: from <= k < to ==> ByteMapped(img, ino, k)
  }

  /** What a read of `length` bytes from `offset` needs: the blocks it copies from, and a
      place in the inode for the block after them, which is looked up when the read ends at
      a block's edge. */
  ghost predicate Readable(img: Image, ino: Inode, offset: nat, length: nat) {
    (offset + length) / BLOCK < INODE_BLOCKS && |ino.blocks| == INODE_BLOCKS &&
      Mapped(img, ino, offset, offset + length)
  }

  /** Byte k of the file that the block list describes. */
  function FlatByte(img: Image, ino: Inode, k: nat): byte
    requires Formed(img) && ByteMapped(img, ino, k)
  {
    img.data[ino.blocks[k / BLOCK]][k % BLOCK]
  }

  ghost function Flat(img: Image, ino: Inode, from: nat, to: nat): (s: seq<byte>)
    requires from <= to && Mapped(img, ino, from, to)
    ensures |s| == to - from
    ensures forall i :: 0 <= i < |s| ==> s[i] == FlatByte(img, ino, from + i)
  {
    seq<byte>(to - from, i requires 0 <= i < to - from && Formed(img) && ByteMapped(img, ino, from + i) =>
      FlatByte(img, ino, from + i))
  }

  /** Byte k of a file is byte k modulo 4096 of the block that its list names at k / 4096. */
  lemma FlatAt(img: Image, ino: Inode, from: nat, to: nat, k: nat)
    requires Mapped(img, ino, from, to) && from <= k < to
    ensures |ino.blocks| == 1023 && k / 4096 < 1023 && ino.blocks[k / 4096] < |img.data|
    ensures |img.data[ino.blocks[k / 4096]]| == 4096
    ensures Flat(img, ino, from, to)[k - from] == img.data[ino.blocks[k / 4096]][k % 4096]
  {
    assert ByteMapped(img, ino, k) && Flat(img, ino, from, to)[k - from] == FlatByte(img, ino, from + (k - from));
  }

  /** Within one block the flat view is that block. */
  lemma FlatBlock(img: Image, ino: Inode, offset: nat, length: nat, dest: nat, index: nat, from: nat, n: nat,
                  flat: seq<byte>)
    requires Readable(img, ino, offset, length) && flat == Flat(img, ino, offset, offset + length)
    requires dest + n <= length && 0 < n && from + n <= BLOCK && index * BLOCK + from == offset + dest
    ensures index < INODE_BLOCKS && ino.blocks[index] < |img.data| && |img.data[ino.blocks[index]]| == BLOCK
    ensures from + n == BLOCK ==> index + 1 < INODE_BLOCKS
    ensures forall k :: dest <= k < dest + n ==> flat[k] == img.data[ino.blocks[index]][from + (k - dest)]
  {
    assert (offset + dest) / BLOCK == index && ByteMapped(img, ino, offset + dest);
    forall k | dest <= k < dest + n
      ensures flat[k] == img.data[ino.blocks[index]][from + (k - dest)]
    {
      assert flat[k] == FlatByte(img, ino, offset + k);
      assert (offset + k) / BLOCK == index && (offset + k) % BLOCK == from + (k - dest);
    }
  }

  method Memcpy(dst: array<byte>, at: nat, src: seq<byte>, from: nat, n: nat)
    requires at + n <= dst.Length && from + n <= |src|
    modifies dst
    ensures forall k :: 0 <= k < dst.Length ==> dst[k] == if at <= k < at + n then src[from + (k - at)] else old(dst[k])
  {
    forall k | 0 <= k < n {
      dst[at + k] := src[from + k];
    }
  }

  /** read_data. A length of the file is looked at only to refuse offsets in blocks behind
      the last one. */
  method ReadData(img: Image, inode: uint32, offset: uint32, buf: array<byte>, length: uint32) returns (r: int)
    requires Formed(img) && length <= buf.Length
    requires inode < |img.inodes| && offset / BLOCK <= img.inodes[inode].length / BLOCK ==>
      Readable(img, img.inodes[inode], offset, length)
    modifies buf
    ensures inode >= |img.inodes| || offset / BLOCK > img.inodes[inode].length / BLOCK ==>
      r == -1 && buf[..] == old(buf[..])
    ensures inode < |img.inodes| && offset / BLOCK <= img.inodes[inode].length / BLOCK ==>
      r == length && buf[..] == Flat(img, img.inodes[inode], offset, offset + length) + old(buf[length..])
  {
    if inode >= |img.inodes| {
      return -1;
    }
    var ino := img.inodes[inode];
    var lastIndex, index := ino.length / BLOCK, offset / BLOCK;
    if index > lastIndex {
      return -1;
    }
    var from: nat, dest: nat, left: nat := offset % BLOCK, 0, length;
    var block := ino.blocks[index];
    var tillEnd := (index + 1) * BLOCK - offset;
    ghost var flat := Flat(img, ino, offset, offset + length);
    while left > 0
      invariant left <= length
      invariant left > 0 ==> dest == length - left && index < INODE_BLOCKS && block == ino.blocks[index]
      invariant left > 0 ==> index * BLOCK + from == offset + dest && tillEnd == BLOCK - from > 0
      invariant forall k :: 0 <= k < buf.Length ==> buf[k] == if k < length - left then flat[k] else old(buf[k])
    {
      FlatBlock(img, ino, offset, length, dest, index, from, Min(tillEnd, left), flat);
      if tillEnd <= left {
        Memcpy(buf, dest, img.data[block], from, tillEnd);
        index := index + 1;
        block := ino.blocks[index];
        from, dest, left := 0, dest + tillEnd, left - tillEnd;
        tillEnd := BLOCK;
      } else {
        Memcpy(buf, dest, img.data[block], from, left);
        left := 0;
      }
    }
    assert buf[..] == flat + old(buf[length..]);
    return length;
  }

  // ----- the descriptor

  /** An open regular file: the descriptor's inode number and position. */
  class OpenFile {
    const img: Image
    const inode: uint32
    var pos: uint32

    constructor (img: Image, inode: uint32)
      ensures this.img == img && this.inode == inode && pos == 0
    {
      this.img, this.inode, pos := img, inode, 0;
    }

    /** filesystem_read. The count is not cut down to what is left of the file. */
    method Read(buf: array<byte>, nbytes: uint32) returns (r: int)
      requires inode < |img.inodes| && Formed(img) && nbytes <= buf.Length && pos + nbytes < 0x1_0000_0000
      requires pos < img.inodes[inode].length ==> Readable(img, img.inodes[inode], pos, nbytes)
      modifies this, buf
      ensures r == ReadCount(img.inodes[inode], old(pos), nbytes) && pos == old(pos) + r
      ensures buf[..] == ReadBytes(img, img.inodes[inode], old(pos), nbytes) + old(buf[r..])
    {
      if pos >= img.inodes[inode].length {
        return 0;
      }
      r := ReadData(img, inode, pos, buf, nbytes);
      pos := pos + r;
    }
  }

  function ReadCount(ino: Inode, pos: nat, n: nat): nat {
    if pos >= ino.length then 0 else n
  }

  ghost function ReadBytes(img: Image, ino: Inode, pos: nat, n: nat): (s: seq<byte>)
    requires pos < ino.length ==> Readable(img, ino, pos, n)
    ensures |s| == ReadCount(ino, pos, n)
  {
    if pos >= ino.length then [] else Flat(img, ino, pos, pos + n)
  }

  /** A read returns what a POSIX read would, the smaller of the count and what is left,
      exactly when it does not pass the end of the file. */
  lemma ReadClipsIff(ino: Inode, pos: nat, n: nat)
    requires n > 0
    ensures ReadCount(ino, pos, n) == Min(n, Max(ino.length - pos, 0)) <==> pos >= ino.length || pos + n <= ino.length
  {
  }

  /** Position after a run of reads. */
  function PosAfter(ino: Inode, pos: nat, sizes: seq<nat>): nat
    decreases |sizes|
  {
    if sizes == [] then pos else PosAfter(ino, pos + ReadCount(ino, pos, sizes[0]), sizes[1..])
  }

  ghost predicate RunReadable(img: Image, ino: Inode, pos: nat, sizes: seq<nat>)
    decreases |sizes|
  {
    sizes == [] || (
      (pos < ino.length ==> Readable(img, ino, pos, sizes[0])) &&
      RunReadable(img, ino, pos + ReadCount(ino, pos, sizes[0]), sizes[1..]))
  }

  /** What a run of reads returns, end to end. */
  ghost function OutputOf(img: Image, ino: Inode, pos: nat, sizes: seq<nat>): seq<byte>
    requires RunReadable(img, ino, pos, sizes)
    decreases |sizes|
  {
    if sizes == [] then []
    else ReadBytes(img, ino, pos, sizes[0]) + OutputOf(img, ino, pos + ReadCount(ino, pos, sizes[0]), sizes[1..])
  }

  function Sum(sizes: seq<nat>): nat { if sizes == [] then 0 else sizes[0] + Sum(sizes[1..]) }

  /** Every read of a run starts before the end of the file, so none returns 0. */
  predicate NoZeroRead(ino: Inode, pos: nat, sizes: seq<nat>)
    decreases |sizes|
  {
    sizes == [] ||
    (ReadCount(ino, pos, sizes[0]) > 0 && NoZeroRead(ino, pos + ReadCount(ino, pos, sizes[0]), sizes[1..]))
  }

  /** Until a read returns 0 the position is the sum of the sizes, the read that passes the
      end of the file included. */
  lemma {:induction false} PositionIsSum(ino: Inode, pos: nat, sizes: seq<nat>)
    requires forall i :: 0 <= i < |sizes| ==> sizes[i] > 0
    ensures NoZeroRead(ino, pos, sizes) ==> PosAfter(ino, pos, sizes) == pos + Sum(sizes)
    ensures NoZeroRead(ino, pos, sizes) <==> sizes == [] || pos + Sum(sizes[..|sizes| - 1]) < ino.length
    decreases |sizes|
  {
    if sizes != [] {
      var next, rest := pos + ReadCount(ino, pos, sizes[0]), sizes[1..];
      PositionIsSum(ino, next, rest);
      SumFirst(sizes);
    }
  }

  /** The sizes but the last, added up from the front. */
  lemma SumFirst(sizes: seq<nat>)
    requires sizes != []
    ensures |sizes| == 1 ==> Sum(sizes[..|sizes| - 1]) == 0
    ensures |sizes| > 1 ==> Sum(sizes[..|sizes| - 1]) == sizes[0] + Sum(sizes[1..][..|sizes| - 2])
  {
    var front := sizes[..|sizes| - 1];
    if |sizes| > 1 {
      assert front[0] == sizes[0] && front[1..] == sizes[1..][..|sizes| - 2];
    }
  }

  /** The position never passes the sum of the sizes, and reaches the end when the sum does. */
  lemma {:induction false} PositionWithin(ino: Inode, pos: nat, sizes: seq<nat>)
    ensures pos <= PosAfter(ino, pos, sizes) <= pos + Sum(sizes)
    ensures pos + Sum(sizes) >= ino.length ==> PosAfter(ino, pos, sizes) >= ino.length
    decreases |sizes|
  {
    if sizes != [] {
      PositionWithin(ino, pos + ReadCount(ino, pos, sizes[0]), sizes[1..]);
    }
  }

  /** The next read returns 0 exactly when the sizes so far add up to the file's length. */
  lemma ZeroAtEndIff(ino: Inode, sizes: seq<nat>, n: nat)
    requires n > 0
    ensures ReadCount(ino, PosAfter(ino, 0, sizes), n) == 0 <==> Sum(sizes) >= ino.length
  {
    PositionWithin(ino, 0, sizes);
  }

  /** The output of a run is the flat file from the start up to the position reached. */
  lemma {:induction false} OutputIsFile(img: Image, ino: Inode, pos: nat, sizes: seq<nat>)
    requires Formed(img) && RunReadable(img, ino, pos, sizes)
    ensures pos <= PosAfter(ino, pos, sizes)
    ensures Mapped(img, ino, pos, PosAfter(ino, pos, sizes))
    ensures OutputOf(img, ino, pos, sizes) == Flat(img, ino, pos, PosAfter(ino, pos, sizes))
    decreases |sizes|
  {
    if sizes != [] {
      var next, end := pos + ReadCount(ino, pos, sizes[0]), PosAfter(ino, pos, sizes);
      OutputIsFile(img, ino, next, sizes[1..]);
      OneRead(img, ino, pos, sizes[0]);
      hide Mapped, Flat, ReadBytes, ReadCount, Readable, Formed;
      FlatSplit(img, ino, pos, next, end);
    }
  }

  /** One read is the stretch of the flat file it moves over. */
  lemma OneRead(img: Image, ino: Inode, pos: nat, n: nat)
    requires Formed(img) && (pos < ino.length ==> Readable(img, ino, pos, n))
    ensures Mapped(img, ino, pos, pos + ReadCount(ino, pos, n))
    ensures ReadBytes(img, ino, pos, n) == Flat(img, ino, pos, pos + ReadCount(ino, pos, n))
  {
  }

  lemma FlatSplit(img: Image, ino: Inode, a: nat, b: nat, c: nat)
    requires a <= b <= c && Mapped(img, ino, a, b) && Mapped(img, ino, b, c)
    ensures Mapped(img, ino, a, c)
    ensures Flat(img, ino, a, b) + Flat(img, ino, b, c) == Flat(img, ino, a, c)
  {
  }

  /** The bytes of a file: its first `length` bytes in the flat view. */
  ghost function Contents(img: Image, ino: Inode): seq<byte>
    requires Mapped(img, ino, 0, ino.length)
  {
    Flat(img, ino, 0, ino.length)
  }

  /** A run of reads from the start that uses a file up returns the file, and after it
      whatever else the last count covers. */
  lemma WholeFileIsRead(img: Image, ino: Inode, sizes: seq<nat>)
    requires Formed(img) && RunReadable(img, ino, 0, sizes) && Sum(sizes) >= ino.length
    ensures Mapped(img, ino, 0, ino.length) && Contents(img, ino) <= OutputOf(img, ino, 0, sizes)
  {
    PositionWithin(ino, 0, sizes);
    OutputIsFile(img, ino, 0, sizes);
    FlatSplit(img, ino, 0, ino.length, PosAfter(ino, 0, sizes));
  }
}
