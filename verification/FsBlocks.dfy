/**
 Files as chains of encrypted blocks on a flat device (fs.rs, metadata.rs): the
 bytes of a file, and what overwriting single blocks does to them.
*/
module FsBlocks {
  import opened Bytes

  const BLOCK_SIZE: nat := 4096

  /** Blocks 0..255 hold the superblock and the metadata. */
  const RESERVED: nat := 256

  /** Per-block encryption; decryption undoes it, and both keep the block size. */
  datatype Cipher = Cipher(encrypt: (nat, seq<byte>) -> seq<byte>, decrypt: (nat, seq<byte>) -> seq<byte>)

  ghost predicate IsCipher(c: Cipher) {
    && (forall b: nat, d: seq<byte> :: |d| == BLOCK_SIZE ==> |c.encrypt(b, d)| == BLOCK_SIZE)
    && (forall b: nat, d: seq<byte> :: |d| == BLOCK_SIZE ==> |c.decrypt(b, d)| == BLOCK_SIZE)
    && (forall b: nat, d: seq<byte> :: |d| == BLOCK_SIZE ==> c.decrypt(b, c.encrypt(b, d)) == d)
  }

  function Block(device: seq<byte>, b: nat): (r: seq<byte>)
    requires (b + 1) * BLOCK_SIZE <= |device|
    ensures |r| == BLOCK_SIZE
  {
    device[b * BLOCK_SIZE..(b + 1) * BLOCK_SIZE]
  }

  lemma BlockOverwrite(device: seq<byte>, b: nat, e: seq<byte>, other: nat)
    requires |e| == BLOCK_SIZE && (b + 1) * BLOCK_SIZE <= |device| && (other + 1) * BLOCK_SIZE <= |device|
    ensures Block(Overwrite(device, b * BLOCK_SIZE, e), other) == if other == b then e else Block(device, other)
  {
    if other == b {
      OverwriteReads(device, b * BLOCK_SIZE, e);
    } else {
      OverwriteKeeps(device, b * BLOCK_SIZE, e, other * BLOCK_SIZE, (other + 1) * BLOCK_SIZE);
    }
  }

  /** Every block lies on the device. */
  ghost predicate InRange(device: seq<byte>, blocks: seq<nat>) {
    forall i :: 0 <= i < |blocks| ==> (blocks[i] + 1) * BLOCK_SIZE <= |device|
  }

  /** The decrypted contents of a block. */
  function Plain(c: Cipher, device: seq<byte>, b: nat): seq<byte>
    requires (b + 1) * BLOCK_SIZE <= |device|
  {
    c.decrypt(b, Block(device, b))
  }

  function Plains(c: Cipher, device: seq<byte>, blocks: seq<nat>): (r: seq<seq<byte>>)
    requires InRange(device, blocks)
    ensures |r| == |blocks| && forall i :: 0 <= i < |r| ==> r[i] == Plain(c, device, blocks[i])
  {
    if blocks == [] then []
    else Plains(c, device, blocks[..|blocks| - 1]) + [Plain(c, device, blocks[|blocks| - 1])]
  }

  /** All bytes in a chain of blocks, also those past the end of the file. */
  function Raw(c: Cipher, device: seq<byte>, blocks: seq<nat>): seq<byte>
    requires InRange(device, blocks)
  {
    Concat(Plains(c, device, blocks))
  }

  lemma {:induction false} UniformOffset(ss: seq<seq<byte>>, k: nat)
    requires k <= |ss| && forall i :: 0 <= i < |ss| ==> |ss[i]| == BLOCK_SIZE
    ensures Offset(ss, k) == k * BLOCK_SIZE
  {
    if k > 0 {
      UniformOffset(ss, k - 1);
      OffsetStep(ss, k - 1);
    }
  }

  lemma PlainLength(c: Cipher, device: seq<byte>, b: nat)
    requires IsCipher(c) && (b + 1) * BLOCK_SIZE <= |device|
    ensures |Plain(c, device, b)| == BLOCK_SIZE
  {
  }

  lemma RawLength(c: Cipher, device: seq<byte>, blocks: seq<nat>)
    requires IsCipher(c) && InRange(device, blocks)
    ensures |Raw(c, device, blocks)| == |blocks| * BLOCK_SIZE
    ensures forall i :: 0 <= i < |blocks| ==> |Plains(c, device, blocks)[i]| == BLOCK_SIZE
  {
    forall i | 0 <= i < |blocks| ensures |Plains(c, device, blocks)[i]| == BLOCK_SIZE {
      PlainLength(c, device, blocks[i]);
    }
    UniformOffset(Plains(c, device, blocks), |blocks|);
    assert Plains(c, device, blocks)[..|blocks|] == Plains(c, device, blocks);
  }

  /** The bytes of block i of a chain. */
  lemma RawBlock(c: Cipher, device: seq<byte>, blocks: seq<nat>, i: nat)
    requires IsCipher(c) && InRange(device, blocks) && i < |blocks|
    ensures (i + 1) * BLOCK_SIZE <= |Raw(c, device, blocks)|
    ensures Raw(c, device, blocks)[i * BLOCK_SIZE..(i + 1) * BLOCK_SIZE] == Plain(c, device, blocks[i])
  {
    hide Concat;
    RawLength(c, device, blocks);
    var ss := Plains(c, device, blocks);
    UniformOffset(ss, i);
    UniformOffset(ss, i + 1);
    OffsetStep(ss, i);
    ConcatSplit(ss[..i + 1], ss[i + 1..]);
    assert ss[..i + 1] + ss[i + 1..] == ss;
  }

  lemma PlainsAppend(c: Cipher, device: seq<byte>, blocks: seq<nat>, more: seq<nat>)
    requires InRange(device, blocks) && InRange(device, more)
    ensures InRange(device, blocks + more)
    ensures Plains(c, device, blocks + more) == Plains(c, device, blocks) + Plains(c, device, more)
  {
  }

  lemma RawAppend(c: Cipher, device: seq<byte>, blocks: seq<nat>, more: seq<nat>)
    requires InRange(device, blocks) && InRange(device, more)
    ensures InRange(device, blocks + more)
    ensures Raw(c, device, blocks + more) == Raw(c, device, blocks) + Raw(c, device, more)
  {
    PlainsAppend(c, device, blocks, more);
    ConcatSplit(Plains(c, device, blocks), Plains(c, device, more));
  }

  /** Devices that agree on a chain's blocks hold the same bytes in it. */
  lemma RawFrame(c: Cipher, before: seq<byte>, after: seq<byte>, blocks: seq<nat>)
    requires InRange(before, blocks) && |after| == |before|
    requires forall i :: 0 <= i < |blocks| ==> Block(after, blocks[i]) == Block(before, blocks[i])
    ensures Raw(c, after, blocks) == Raw(c, before, blocks)
  {
    assert Plains(c, after, blocks) == Plains(c, before, blocks);
  }

  /** The first k blocks of the chain have been overwritten, and no other block of the device. */
  ghost predicate ChainWritten(c: Cipher, before: seq<byte>, after: seq<byte>, blocks: seq<nat>, k: nat,
                               start: nat, data: seq<byte>)
    requires InRange(before, blocks)
  {
    |after| == |before| && k <= |blocks|
    && (forall i :: 0 <= i < k ==>
      Plain(c, after, blocks[i]) == Overwrite(Plain(c, before, blocks[i]), start - i * BLOCK_SIZE, data))
    && (forall b: nat :: (b + 1) * BLOCK_SIZE <= |before| && b !in blocks[..k] ==> Block(after, b) == Block(before, b))
  }

  ghost predicate NoDuplicates(s: seq<nat>) {
    forall i, j :: 0 <= i < j < |s| ==> s[i] != s[j]
  }

  lemma PlainOverwrite(c: Cipher, device: seq<byte>, b: nat, e: seq<byte>, other: nat)
    requires |e| == BLOCK_SIZE && (b + 1) * BLOCK_SIZE <= |device| && (other + 1) * BLOCK_SIZE <= |device|
    ensures Plain(c, Overwrite(device, b * BLOCK_SIZE, e), other) == if other == b then c.decrypt(b, e) else Plain(c, device, other)
  {
    BlockOverwrite(device, b, e, other);
  }

  /** One more block of the chain. */
  lemma ChainStep(c: Cipher, before: seq<byte>, middle: seq<byte>, e: seq<byte>, blocks: seq<nat>, k: nat,
                  start: nat, data: seq<byte>)
    requires IsCipher(c) && InRange(before, blocks) && NoDuplicates(blocks) && k < |blocks|
    requires ChainWritten(c, before, middle, blocks, k, start, data)
    requires |e| == BLOCK_SIZE
    requires c.decrypt(blocks[k], e) == Overwrite(Plain(c, before, blocks[k]), start - k * BLOCK_SIZE, data)
    ensures ChainWritten(c, before, Overwrite(middle, blocks[k] * BLOCK_SIZE, e), blocks, k + 1, start, data)
  {
    var after := Overwrite(middle, blocks[k] * BLOCK_SIZE, e);
    forall i | 0 <= i < k + 1
      ensures Plain(c, after, blocks[i]) == Overwrite(Plain(c, before, blocks[i]), start - i * BLOCK_SIZE, data)
    {
      PlainOverwrite(c, middle, blocks[k], e, blocks[i]);
    }
    forall b: nat | (b + 1) * BLOCK_SIZE <= |before| && b !in blocks[..k + 1]
      ensures Block(after, b) == Block(before, b)
    {
      assert blocks[..k + 1] == blocks[..k] + [blocks[k]];
      BlockOverwrite(middle, blocks[k], e, b);
    }
  }

  /** These blocks of the chain hold nothing but ciphertext of their contents. */
  ghost predicate Sealed(c: Cipher, device: seq<byte>, blocks: seq<nat>, from: nat, to: nat) {
    to <= |blocks| && forall i :: from <= i < to ==>
      (blocks[i] + 1) * BLOCK_SIZE <= |device|
      && Block(device, blocks[i]) == c.encrypt(blocks[i], Plain(c, device, blocks[i]))
  }

  lemma SealedStep(c: Cipher, device: seq<byte>, plain: seq<byte>, blocks: seq<nat>, from: nat, k: nat)
    requires IsCipher(c) && NoDuplicates(blocks) && Sealed(c, device, blocks, from, k) && |plain| == BLOCK_SIZE
    requires k < |blocks| && (blocks[k] + 1) * BLOCK_SIZE <= |device|
    ensures Sealed(c, Overwrite(device, blocks[k] * BLOCK_SIZE, c.encrypt(blocks[k], plain)), blocks, from, k + 1)
  {
    var after := Overwrite(device, blocks[k] * BLOCK_SIZE, c.encrypt(blocks[k], plain));
    forall i | from <= i < k + 1 ensures Block(after, blocks[i]) == c.encrypt(blocks[i], Plain(c, after, blocks[i])) {
      BlockOverwrite(device, blocks[k], c.encrypt(blocks[k], plain), blocks[i]);
    }
  }

  lemma SealedFrame(c: Cipher, before: seq<byte>, after: seq<byte>, blocks: seq<nat>, from: nat, to: nat)
    requires Sealed(c, before, blocks, from, to) && |after| == |before|
    requires forall i :: 0 <= i < |blocks| && (blocks[i] + 1) * BLOCK_SIZE <= |before| ==> Block(after, blocks[i]) == Block(before, blocks[i])
    ensures Sealed(c, after, blocks, from, to)
  {
  }

  /** When the written range lies in the blocks from `first` up to k, the chain's bytes are overwritten. */
  lemma ChainDone(c: Cipher, before: seq<byte>, after: seq<byte>, blocks: seq<nat>, k: nat, start: nat, data: seq<byte>)
    requires IsCipher(c) && InRange(before, blocks) && NoDuplicates(blocks)
    requires ChainWritten(c, before, after, blocks, k, start, data) && start + |data| <= k * BLOCK_SIZE
    ensures Raw(c, after, blocks) == Overwrite(Raw(c, before, blocks), start, data)
  {
    hide Concat, Plains, Plain, NoDuplicates, IsCipher, Block, Overwrite, Offset;
    var olds, news := Plains(c, before, blocks), Plains(c, after, blocks);
    RawLength(c, before, blocks);
    forall i | 0 <= i < |blocks|
      ensures news[i] == Overwrite(olds[i], start - Offset(olds, i), data)
    {
      UniformOffset(olds, i);
      ChainPiece(c, before, after, blocks, k, start, data, i);
    }
    ConcatOverwrite(olds, news, start, data);
  }

  lemma ChainPiece(c: Cipher, before: seq<byte>, after: seq<byte>, blocks: seq<nat>, k: nat, start: nat, data: seq<byte>, i: nat)
    requires IsCipher(c) && InRange(before, blocks) && NoDuplicates(blocks) && i < |blocks|
    requires ChainWritten(c, before, after, blocks, k, start, data) && start + |data| <= k * BLOCK_SIZE
    ensures Plain(c, after, blocks[i]) == Overwrite(Plain(c, before, blocks[i]), start - i * BLOCK_SIZE, data)
  {
    if i >= k {
      NotInPrefix(blocks, k, i);
      PlainLength(c, before, blocks[i]);
      OverwriteOutside(Plain(c, before, blocks[i]), start - i * BLOCK_SIZE, data);
    }
  }

  lemma NotInPrefix(blocks: seq<nat>, k: nat, i: nat)
    requires NoDuplicates(blocks) && k <= i < |blocks|
    ensures blocks[i] !in blocks[..k]
  {
  }

  /** A write that starts no later than the end of a file splices the data in. */
  function Splice(f: seq<byte>, at: nat, data: seq<byte>): seq<byte>
    requires at <= |f|
  {
    f[..at] + data + if at + |data| <= |f| then f[at + |data|..] else []
  }

  lemma WriteSplices(raw: seq<byte>, stale: seq<byte>, size: nat, at: nat, data: seq<byte>)
    requires at <= size <= |raw| && at + |data| <= |raw + stale|
    ensures var newSize := if at + |data| > size then at + |data| else size;
      Overwrite(raw + stale, at, data)[..newSize] == Splice(raw[..size], at, data)
  {
  }

  /** The stretch of the data that falls in block i. */
  lemma ChunkOverwrite(f: seq<byte>, i: nat, start: nat, data: seq<byte>, lo: nat, hi: nat, from: nat)
    requires |f| == BLOCK_SIZE && i >= start / BLOCK_SIZE && i * BLOCK_SIZE < start + |data|
    requires lo == (if start > i * BLOCK_SIZE then start - i * BLOCK_SIZE else 0)
    requires hi == (if start + |data| < i * BLOCK_SIZE + BLOCK_SIZE then start + |data| - i * BLOCK_SIZE else BLOCK_SIZE)
    requires from == (if start > i * BLOCK_SIZE then 0 else i * BLOCK_SIZE - start)
    ensures lo <= hi <= BLOCK_SIZE && from + (hi - lo) <= |data|
    ensures f[..lo] + data[from..from + (hi - lo)] + f[hi..] == Overwrite(f, start - i * BLOCK_SIZE, data)
  {
  }
}
