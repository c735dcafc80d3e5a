/**
 The file layer of fs.rs over the hidden device: create, write, read and unlink.
 `saved` parameters hold the ciphertext blocks that the metadata serialise to.
*/
module GhostFs {
  import opened Bytes
  import opened CarrierPool
  import opened FsAllocation
  import opened FsBlocks
  import opened Wrappers

  datatype Errno = ENOENT | ENOTDIR | ENOSPC | EIO

  const ROOT: nat := 1

  function BlocksFor(end: nat): nat {
    (end + BLOCK_SIZE - 1) / BLOCK_SIZE
  }

  ghost predicate SavedImage(saved: seq<seq<byte>>) {
    |saved| <= RESERVED && forall i :: 0 <= i < |saved| ==> |saved[i]| == BLOCK_SIZE
  }

  /** The data blocks of two devices agree. */
  ghost predicate SameData(before: seq<byte>, after: seq<byte>) {
    |after| == |before|
    && forall b: nat :: b >= RESERVED && (b + 1) * BLOCK_SIZE <= |before| ==> Block(after, b) == Block(before, b)
  }

  function Max(a: nat, b: nat): nat {
    if a < b then b else a
  }

  function NewFile(id: nat): Inode {
    Inode(id, 0, File, [])
  }

  type Directories = map<nat, map<string, nat>>

  function Link(tree: Directories, parent: nat, name: string, id: nat): Directories
    requires parent in tree
  {
    var children: map<string, nat> := tree[parent];
    tree[parent := children[name := id]]
  }

  /** The inode that a directory has under a name. */
  function Entry(tree: Directories, parent: nat, name: string): Option<nat> {
    if parent in tree && name in tree[parent] then Some(tree[parent][name]) else None
  }

  /** The entry is now this one, and no other entry of any directory has changed. */
  ghost predicate OnlyEntry(before: Directories, after: Directories, parent: nat, name: string, id: Option<nat>) {
    after.Keys == before.Keys
    && forall p: nat, n: string ::
         Entry(after, p, n) == if p == parent && n == name then id else Entry(before, p, n)
  }

  lemma LinkEntries(tree: Directories, parent: nat, name: string, id: nat)
    requires parent in tree
    ensures OnlyEntry(tree, Link(tree, parent, name, id), parent, name, Some(id))
  {
  }

  lemma UnlinkedEntries(tree: Directories, parent: nat, name: string)
    requires parent in tree
    ensures OnlyEntry(tree, Unlinked(tree, parent, name), parent, name, None)
  {
  }

  predicate HasEntry(tree: Directories, parent: nat, name: string) {
    parent in tree && name in tree[parent]
  }

  function Unlinked(tree: Directories, parent: nat, name: string): Directories
    requires parent in tree
  {
    var children: map<string, nat> := tree[parent];
    tree[parent := children - {name}]
  }

  /** The loop of `MetadataManager::init` over the data blocks. */
  method InitialFree(total: nat) returns (free: seq<nat>)
    ensures NoDuplicates(free) && forall b :: b in free <==> DataBlock(b, total)
  {
    free := [];
    var i := RESERVED;
    while i < total
      invariant RESERVED <= i && (i <= total || i == RESERVED)
      invariant |free| == i - RESERVED && forall k :: 0 <= k < |free| ==> free[k] == RESERVED + k
    {
      free := free + [i];
      i := i + 1;
    }
    forall b: nat | DataBlock(b, total) ensures b in free {
      assert free[b - RESERVED] == b;
    }
  }

  class GhostFs {
    const pool: CarrierPool
    const cipher: Cipher
    const totalBlocks: nat
    var inodes: map<nat, Inode>
    var nextInodeId: nat
    var directoryTree: Directories
    var freeBlocks: seq<nat>

    /** The carriers' whole bytes cover every block. */
    ghost predicate Mounted() {
      pool.WellFormed() && IsCipher(cipher)
      && totalBlocks == pool.totalCapacityBytes / BLOCK_SIZE
      && totalBlocks * BLOCK_SIZE <= TotalBytes(pool.carriers)
    }

    ghost predicate SoundInodes()
      reads this
    {
      forall id :: id in inodes ==>
        inodes[id].id == id && id < nextInodeId && inodes[id].size <= |inodes[id].blocks| * BLOCK_SIZE
    }

    ghost predicate Valid()
      reads this
    {
      Mounted() && SoundInodes() && Partition(inodes, freeBlocks, totalBlocks)
    }

    ghost function Device(): seq<byte>
      reads pool.Arrays()
    {
      pool.Device()
    }

    lemma DeviceCovers()
      requires Mounted()
      ensures totalBlocks * BLOCK_SIZE <= |Device()| <= pool.totalCapacityBytes
    {
      pool.DeviceIsTotalBytes();
    }

    /** The bytes of a file. */
    ghost function Content(id: nat): seq<byte>
      requires id in inodes
      reads this, pool.Arrays()
    {
      FileBytes(cipher, Device(), inodes[id])
    }

    lemma ChainsAreOnData()
      requires Valid()
      ensures OnData(inodes, |Device()|)
    {
      DeviceCovers();
      forall id, i | id in inodes && 0 <= i < |inodes[id].blocks|
        ensures RESERVED <= inodes[id].blocks[i] && (inodes[id].blocks[i] + 1) * BLOCK_SIZE <= |Device()|
      {
        assert Owns(inodes, id, inodes[id].blocks[i]);
      }
    }

    lemma BlockNumber(id: nat, i: nat)
      requires Valid() && id in inodes && i < |inodes[id].blocks|
      ensures RESERVED <= inodes[id].blocks[i] < totalBlocks
    {
      assert Owns(inodes, id, inodes[id].blocks[i]);
    }

    lemma Apart(ino: nat)
      requires Valid() && ino in inodes
      ensures ChainsApart(inodes, ino)
    {
      forall id, i | id in inodes && id != ino && 0 <= i < |inodes[id].blocks|
        ensures inodes[id].blocks[i] !in inodes[ino].blocks
      {
        assert Owns(inodes, id, inodes[id].blocks[i]) && !Owns(inodes, ino, inodes[id].blocks[i]);
      }
    }

    /** Files have as many bytes as their size says. */
    lemma ContentLength(id: nat)
      requires Valid() && id in inodes
      ensures |Content(id)| == inodes[id].size
    {
      ChainsAreOnData();
      FileBytesIs(cipher, Device(), inodes[id]);
    }

    /** A fresh file system: blocks 0..255 are reserved, the others free. */
    constructor (carriers: CarrierPool, c: Cipher)
      requires carriers.WellFormed() && IsCipher(c)
      requires carriers.totalCapacityBytes / BLOCK_SIZE * BLOCK_SIZE <= TotalBytes(carriers.carriers)
      ensures Valid() && pool == carriers && cipher == c
      ensures inodes == map[ROOT := Inode(ROOT, 0, Directory, [])] && directoryTree == map[ROOT := map[]]
      ensures forall b :: b in freeBlocks <==> DataBlock(b, totalBlocks)
    {
      pool := carriers;
      cipher := c;
      totalBlocks := carriers.totalCapacityBytes / BLOCK_SIZE;
      inodes := map[ROOT := Inode(ROOT, 0, Directory, [])];
      nextInodeId := 2;
      directoryTree := map[ROOT := map[]];
      freeBlocks := [];
      new;
      freeBlocks := InitialFree(totalBlocks);
    }

    /** `save`: writes the superblock and the metadata blocks, nothing else. */
    method Save(saved: seq<seq<byte>>) returns (ok: bool)
      requires Mounted() && SavedImage(saved)
      modifies pool.Arrays()
      ensures SameData(old(Device()), Device())
      ensures ok ==> HoldsImage(Device(), saved, |saved|)
    {
      ok := true;
      for i := 0 to |saved|
        invariant ok && SameData(old(Device()), Device()) && HoldsImage(Device(), saved, i)
      {
        label Before:
        ok := SaveBlock(i, saved[i]);
        SameDataChain(old(Device()), old@Before(Device()), Device());
        if !ok { return; }
        ImageGrows(old@Before(Device()), saved, i);
      }
    }

    method SaveBlock(i: nat, e: seq<byte>) returns (ok: bool)
      requires Mounted() && i < RESERVED && |e| == BLOCK_SIZE
      modifies pool.Arrays()
      ensures SameData(old(Device()), Device())
      ensures ok ==> (i + 1) * BLOCK_SIZE <= |Device()| && Device() == Overwrite(old(Device()), i * BLOCK_SIZE, e)
    {
      hide SameData, Overwrite, IsCipher;
      DeviceCovers();
      ok := pool.WriteBytes(i * BLOCK_SIZE, e);
      if ok {
        WholeBlock(i, pool.totalCapacityBytes, totalBlocks);
        SaveKeepsData(old(Device()), i, e);
      } else {
        SameDataSelf(Device());
      }
    }

    // ---------- lookup and create ----------

    /** `lookup`: the inode of an entry. */
    method Lookup(parent: nat, name: string) returns (r: Result<Inode, Errno>)
      ensures r.Ok? <==> Entry(directoryTree, parent, name).Some? && Entry(directoryTree, parent, name).value in inodes
      ensures r.Ok? ==> r.value == inodes[Entry(directoryTree, parent, name).value]
      ensures r.Err? ==> r.error == ENOENT
    {
      if parent in directoryTree && name in directoryTree[parent] {
        var child := directoryTree[parent][name];
        if child in inodes { return Ok(inodes[child]); }
      }
      return Err(ENOENT);
    }

    /** `create`: a new empty file under the name; an old entry of that name is replaced. */
    method Create(parent: nat, name: string, saved: seq<seq<byte>>) returns (r: Result<nat, Errno>)
      requires Valid() && SavedImage(saved)
      modifies this, pool.Arrays()
      ensures Valid()
      ensures r == Err(ENOTDIR) <==> parent !in old(directoryTree)
      ensures r.Err? ==> r.error == ENOTDIR || r.error == EIO
      ensures r == Err(ENOTDIR) ==> inodes == old(inodes) && directoryTree == old(directoryTree) && Device() == old(Device())
      ensures r != Err(ENOTDIR) ==> old(nextInodeId) !in old(inodes)
      ensures r != Err(ENOTDIR) ==> inodes == old(inodes)[old(nextInodeId) := Inode(old(nextInodeId), 0, File, [])]
      ensures r != Err(ENOTDIR) ==> OnlyEntry(old(directoryTree), directoryTree, parent, name, Some(old(nextInodeId)))
      ensures r.Ok? ==> r.value == old(nextInodeId)
      ensures freeBlocks == old(freeBlocks)
      ensures FilesKept(cipher, old(inodes), old(Device()), inodes, Device(), {})
    {
      hide Partition, IsCipher, FileBytes, SameData, Link, OnlyEntry;
      if parent !in directoryTree { return Err(ENOTDIR); }
      var id := nextInodeId;
      AddInode(id);
      LinkEntries(directoryTree, parent, name, id);
      directoryTree := Link(directoryTree, parent, name, id);
      var saveOk := SaveMetadata(saved);
      KeptFrom(cipher, old(inodes), old(Device()), inodes, Device(), {});
      return if saveOk then Ok(id) else Err(EIO);
    }

    method AddInode(id: nat)
      requires Valid() && id == nextInodeId
      modifies `inodes, `nextInodeId
      ensures Valid() && nextInodeId == id + 1 && id !in old(inodes) && inodes == old(inodes)[id := NewFile(id)]
    {
      CreateKeeps(inodes, freeBlocks, totalBlocks, id, NewFile(id));
      nextInodeId := nextInodeId + 1;
      inodes := inodes[id := NewFile(id)];
    }

    /** `save`, as the operations see it: no file changes. */
    method SaveMetadata(saved: seq<seq<byte>>) returns (ok: bool)
      requires Valid() && SavedImage(saved)
      modifies pool.Arrays()
      ensures Valid() && SameData(old(Device()), Device())
      ensures ok ==> HoldsImage(Device(), saved, |saved|)
      ensures FilesKept(cipher, inodes, old(Device()), inodes, Device(), {})
    {
      ChainsAreOnData();
      ok := Save(saved);
      KeptBySave(cipher, inodes, old(Device()), inodes, Device(), {});
    }

    // ---------- write ----------

    /** Pops `needed` blocks off the free list, or puts back what it popped. */
    method Allocate(needed: nat) returns (ok: bool, newBlocks: seq<nat>)
      modifies `freeBlocks
      ensures ok <==> needed <= |old(freeBlocks)|
      ensures ok ==> |newBlocks| == needed && old(freeBlocks) == freeBlocks + Reversed(newBlocks)
      ensures !ok ==> freeBlocks == Reversed(old(freeBlocks))
    {
      hide Reversed;
      newBlocks := [];
      for k := 0 to needed
        invariant |newBlocks| == k && old(freeBlocks) == freeBlocks + Reversed(newBlocks)
      {
        if |freeBlocks| == 0 {
          freeBlocks := freeBlocks + newBlocks;
          assert Reversed(Reversed(newBlocks)) == newBlocks;
          return false, [];
        }
        var free := freeBlocks[|freeBlocks| - 1];
        assert Reversed(newBlocks + [free]) == [free] + Reversed(newBlocks);
        freeBlocks := freeBlocks[..|freeBlocks| - 1];
        newBlocks := newBlocks + [free];
      }
      return true, newBlocks;
    }

    /** Read, modify and write one block; a block that is replaced whole is not read. */
    method PatchBlock(b: nat, lo: nat, hi: nat, chunk: seq<byte>) returns (ok: bool, ghost e: seq<byte>)
      requires Mounted() && b < totalBlocks && lo <= hi <= BLOCK_SIZE && |chunk| == hi - lo
      modifies pool.Arrays()
      ensures ok && |e| == BLOCK_SIZE && Device() == Overwrite(old(Device()), b * BLOCK_SIZE, e)
      ensures (b + 1) * BLOCK_SIZE <= |old(Device())| && |Plain(cipher, old(Device()), b)| == BLOCK_SIZE
      ensures var was := Plain(cipher, old(Device()), b); var plain := was[..lo] + chunk + was[hi..];
        |plain| == BLOCK_SIZE && e == cipher.encrypt(b, plain) && cipher.decrypt(b, e) == plain
    {
      DeviceCovers();
      PlainLength(cipher, Device(), b);
      ghost var was := Plain(cipher, Device(), b);
      var plain := ReadPlain(b, lo == 0 && hi == BLOCK_SIZE);
      Patched(was, plain, lo, hi, chunk);
      plain := plain[..lo] + chunk + plain[hi..];
      Decrypts(cipher, b, plain);
      var encrypted := cipher.encrypt(b, plain);
      e := encrypted;
      ok := pool.WriteBytes(b * BLOCK_SIZE, encrypted);
    }

    /** The old contents of a block, or zeros when they are not needed. */
    method ReadPlain(b: nat, skip: bool) returns (plain: seq<byte>)
      requires Mounted() && b < totalBlocks
      ensures |plain| == BLOCK_SIZE && (b + 1) * BLOCK_SIZE <= |Device()|
      ensures !skip ==> plain == Plain(cipher, Device(), b)
      ensures Device() == old(Device())
    {
      DeviceCovers();
      if skip {
        plain := seq(BLOCK_SIZE, _ => 0);
      } else {
        var block := ReadBlock(b);
        PlainLength(cipher, Device(), b);
        plain := cipher.decrypt(b, block);
      }
    }

    method ReadBlock(b: nat) returns (block: seq<byte>)
      requires Mounted() && b < totalBlocks
      ensures (b + 1) * BLOCK_SIZE <= |Device()| && block == Block(Device(), b)
      ensures Device() == old(Device())
    {
      DeviceCovers();
      var buf := new byte[BLOCK_SIZE](_ => 0);
      ghost var was := buf[..];
      var ok := pool.ReadBytes(b * BLOCK_SIZE, buf);
      BlockFilled(buf[..], was, b, Device());
      block := buf[..];
    }

    /** One turn of the loop of `write`. */
    method WriteChunk(blocks: seq<nat>, i: nat, start: nat, data: seq<byte>, bytesWritten: nat, ghost before: seq<byte>)
      returns (n: nat)
      requires Mounted() && NoDuplicates(blocks) && i < |blocks| && blocks[i] < totalBlocks && InRange(before, blocks)
      requires start / BLOCK_SIZE <= i < BlocksFor(start + |data|)
      requires ChainWritten(cipher, before, Device(), blocks, i, start, data)
      requires bytesWritten == Covered(start, |data|, i * BLOCK_SIZE)
      requires Sealed(cipher, Device(), blocks, start / BLOCK_SIZE, i)
      modifies pool.Arrays()
      ensures ChainWritten(cipher, before, Device(), blocks, i + 1, start, data)
      ensures Sealed(cipher, Device(), blocks, start / BLOCK_SIZE, i + 1)
      ensures bytesWritten + n == Covered(start, |data|, (i + 1) * BLOCK_SIZE)
    {
      hide IsCipher, Overwrite, Covered, Device, Sealed;
      var (lo, hi) := ChunkBounds(i, start, start + |data|);
      n := hi - lo;
      ghost var middle := Device();
      ghost var was := Plain(cipher, before, blocks[i]);
      PlainLength(cipher, before, blocks[i]);
      ChunkStep(was, i, start, data, bytesWritten);
      ChainUntouched(cipher, before, middle, blocks, i, start, data);
      var ok, e := PatchBlock(blocks[i], lo, hi, data[bytesWritten..bytesWritten + n]);
      ChainStep(cipher, before, middle, e, blocks, i, start, data);
      SealedStep(cipher, middle, cipher.decrypt(blocks[i], e), blocks, start / BLOCK_SIZE, i);
    }

    /** The loop of `write` over the blocks that the data touch. */
    method WriteChain(blocks: seq<nat>, start: nat, data: seq<byte>) returns (ok: bool, bytesWritten: nat)
      requires Mounted() && NoDuplicates(blocks) && forall i :: 0 <= i < |blocks| ==> blocks[i] < totalBlocks
      requires BlocksFor(start + |data|) <= |blocks|
      modifies pool.Arrays()
      ensures ok && bytesWritten == |data|
      ensures InRange(old(Device()), blocks) && |Device()| == |old(Device())|
      ensures Raw(cipher, Device(), blocks) == Overwrite(Raw(cipher, old(Device()), blocks), start, data)
      ensures OnlyBlocks(old(Device()), Device(), blocks)
      ensures Sealed(cipher, Device(), blocks, start / BLOCK_SIZE, BlocksFor(start + |data|))
    {
      hide Device;
      DeviceCovers();
      var startBlock, endBlock := start / BLOCK_SIZE, BlocksFor(start + |data|);
      ghost var before := Device();
      bytesWritten := 0;
      ChainStart(cipher, before, blocks, startBlock, start, data);
      for i := startBlock to endBlock
        invariant ChainWritten(cipher, before, Device(), blocks, i, start, data)
        invariant Sealed(cipher, Device(), blocks, startBlock, i)
        invariant bytesWritten == Covered(start, |data|, i * BLOCK_SIZE)
      {
        var n := WriteChunk(blocks, i, start, data, bytesWritten, before);
        bytesWritten := bytesWritten + n;
      }
      ok := true;
      ChainDone(cipher, before, Device(), blocks, endBlock, start, data);
    }

    /** The first half of `write`: the file gets blocks for everything up to `end`. */
    method Extend(ino: nat, end: nat) returns (ok: bool)
      requires Valid() && ino in inodes
      modifies `inodes, `freeBlocks
      ensures Valid()
      ensures ok <==> BlocksFor(end) <= |old(inodes)[ino].blocks| + |old(freeBlocks)|
      ensures !ok ==> inodes == old(inodes) && freeBlocks == Reversed(old(freeBlocks))
      ensures ok ==> ino in inodes && old(inodes)[ino].blocks <= inodes[ino].blocks
      ensures ok ==> inodes == old(inodes)[ino := old(inodes)[ino].(blocks := inodes[ino].blocks)]
      ensures ok ==> |inodes[ino].blocks| == Max(|old(inodes)[ino].blocks|, BlocksFor(end))
    {
      var inode := inodes[ino];
      if |inode.blocks| < BlocksFor(end) {
        var newBlocks;
        ghost var free := freeBlocks;
        ok, newBlocks := Allocate(BlocksFor(end) - |inode.blocks|);
        if !ok {
          ReverseKeeps(inodes, free, totalBlocks);
          return false;
        }
        TakeKeeps(inodes, freeBlocks, newBlocks, totalBlocks, ino, inode.(blocks := inode.blocks + newBlocks));
        inodes := inodes[ino := inode.(blocks := inode.blocks + newBlocks)];
      } else {
        assert inodes[ino := inode.(blocks := inode.blocks)] == inodes;
      }
      return true;
    }

    /** `write`. The reply counts the bytes in a u32. */
    method Write(ino: nat, offset: nat, data: seq<byte>, saved: seq<seq<byte>>) returns (r: Result<nat, Errno>)
      requires Valid() && SavedImage(saved)
      modifies this, pool.Arrays()
      ensures Valid() && nextInodeId == old(nextInodeId) && directoryTree == old(directoryTree)
      ensures inodes.Keys == old(inodes).Keys
      ensures r == Err(ENOENT) <==> ino !in old(inodes)
      ensures r == Err(ENOSPC) <==>
        (ino in old(inodes) && BlocksFor(offset + |data|) > |old(inodes)[ino].blocks| + |old(freeBlocks)|)
      ensures r == Err(ENOENT) || r == Err(ENOSPC) || r == Ok(|data| % 0x1_0000_0000)
      ensures r.Err? ==> inodes == old(inodes) && Device() == old(Device())
      ensures r.Err? ==> freeBlocks == old(freeBlocks) || freeBlocks == Reversed(old(freeBlocks))
      ensures r.Ok? ==> IsWrite(cipher, old(inodes), old(Device()), inodes, Device(), ino, offset, data)
      ensures r.Ok? ==> FilesKept(cipher, old(inodes), old(Device()), inodes, Device(), {ino})
      ensures r.Ok? ==> Sealed(cipher, Device(), inodes[ino].blocks, offset / BLOCK_SIZE, BlocksFor(offset + |data|))
      ensures r.Ok? && offset <= old(inodes)[ino].size ==>
        IsSplice(old(Content(ino)), Content(ino), offset, data)
    {
      hide Partition, IsCipher, FileBytes, OnData, ChainsApart, OnlyBlocks, RawBytes, IsSplice, FilesKept, Sealed, Device;
      if ino !in inodes { return Err(ENOENT); }
      ghost var size := inodes[ino].size;
      var ok := Extend(ino, offset + |data|);
      if !ok { return Err(ENOSPC); }
      var bytesWritten;
      ok, bytesWritten := Fill(ino, offset, data, saved);
      if !ok { return Err(EIO); }
      WriteIsDone(cipher, old(inodes), old(Device()), inodes, Device(), ino, offset, data);
      return Ok(bytesWritten % 0x1_0000_0000);
    }

    /** The second half of `write`: the data, the size and the metadata. */
    method Fill(ino: nat, offset: nat, data: seq<byte>, saved: seq<seq<byte>>) returns (ok: bool, bytesWritten: nat)
      requires Valid() && SavedImage(saved)
      requires ino in inodes && BlocksFor(offset + |data|) <= |inodes[ino].blocks|
      modifies `inodes, pool.Arrays()
      ensures Valid() && ok && bytesWritten == |data|
      ensures inodes == old(inodes)[ino := old(inodes)[ino].(size := Max(old(inodes)[ino].size, offset + |data|))]
      ensures OnData(inodes, |old(Device())|) && ChainsApart(inodes, ino)
      ensures OnlyBlocks(old(Device()), Device(), inodes[ino].blocks)
      ensures RawBytes(cipher, Device(), inodes[ino].blocks) ==
        Overwrite(RawBytes(cipher, old(Device()), inodes[ino].blocks), offset, data)
      ensures Sealed(cipher, Device(), inodes[ino].blocks, offset / BLOCK_SIZE, BlocksFor(offset + |data|))
    {
      hide Partition, IsCipher, FileBytes, FilesKept, ChainsApart, Sealed;
      ok, bytesWritten := WriteFile(ino, offset, data);
      if !ok { return; }
      ghost var device1 := Device();
      Resize(ino, Max(inodes[ino].size, offset + |data|));
      var _ := SaveMetadata(saved);
      ChainsAreOnData();
      Apart(ino);
      ThenSaved(cipher, old(Device()), device1, Device(), inodes[ino].blocks);
      SavedSealed(cipher, device1, Device(), inodes[ino].blocks, offset / BLOCK_SIZE, BlocksFor(offset + |data|));
    }

    method WriteFile(ino: nat, offset: nat, data: seq<byte>) returns (ok: bool, bytesWritten: nat)
      requires Valid() && ino in inodes && BlocksFor(offset + |data|) <= |inodes[ino].blocks|
      modifies pool.Arrays()
      ensures Valid() && ok && bytesWritten == |data|
      ensures RawBytes(cipher, Device(), inodes[ino].blocks) ==
        Overwrite(RawBytes(cipher, old(Device()), inodes[ino].blocks), offset, data)
      ensures OnlyBlocks(old(Device()), Device(), inodes[ino].blocks)
      ensures Sealed(cipher, Device(), inodes[ino].blocks, offset / BLOCK_SIZE, BlocksFor(offset + |data|))
    {
      forall i | 0 <= i < |inodes[ino].blocks| ensures inodes[ino].blocks[i] < totalBlocks {
        BlockNumber(ino, i);
      }
      ok, bytesWritten := WriteChain(inodes[ino].blocks, offset, data);
    }

    method Resize(ino: nat, size: nat)
      requires Valid() && ino in inodes && size <= |inodes[ino].blocks| * BLOCK_SIZE
      modifies `inodes
      ensures Valid() && inodes == old(inodes)[ino := old(inodes)[ino].(size := size)]
    {
      ResizeKeeps(inodes, freeBlocks, totalBlocks, ino, inodes[ino].(size := size));
      inodes := inodes[ino := inodes[ino].(size := size)];
    }

    // ---------- read ----------

    /** `read`: the file's bytes from the offset on, at most `size` of them. */
    method Read(ino: nat, offset: nat, size: nat) returns (r: Result<seq<byte>, Errno>)
      requires Valid()
      ensures r == Err(ENOENT) <==> ino !in inodes
      ensures r.Ok? && offset >= inodes[ino].size ==> r.value == []
      ensures r.Ok? && offset < inodes[ino].size ==>
        |r.value| == Min(size, inodes[ino].size - offset) && offset + |r.value| <= |Content(ino)|
      ensures r.Ok? ==> forall k :: 0 <= k < |r.value| ==> r.value[k] == Content(ino)[offset + k]
      ensures r.Err? ==> r.error == ENOENT
    {
      hide Partition, IsCipher, FileBytes, Raw;
      if ino !in inodes { return Err(ENOENT); }
      var inode := inodes[ino];
      ChainsAreOnData();
      FileBytesIs(cipher, Device(), inode);
      if offset >= inode.size { return Ok([]); }
      var data := ReadChain(ino, offset, Min(size, inode.size - offset));
      return Ok(data);
    }

    /** The loop of `read` over the blocks. */
    method ReadChain(ino: nat, start: nat, len: nat) returns (data: seq<byte>)
      requires Valid() && ino in inodes && start + len <= inodes[ino].size
      ensures |Content(ino)| == inodes[ino].size && data == Content(ino)[start..start + len]
    {
      hide Valid, FileBytes, ReadSoFar, BlocksFor;
      ContentLength(ino);
      BlockCount(ino, start + len);
      ghost var content := Content(ino);
      data := [];
      ReadNothing(content, start, len);
      var endBlock := BlocksFor(start + len);
      for i := start / BLOCK_SIZE to endBlock
        invariant ReadSoFar(content, data, start, len, i) && Device() == old(Device())
      {
        if i >= |inodes[ino].blocks| { break; }
        var chunk := ReadChunk(ino, i, start, len, content, data);
        data := data + chunk;
      }
      ReadAll(content, data, start, len);
    }

    lemma BlockCount(ino: nat, end: nat)
      requires Valid() && ino in inodes && end <= inodes[ino].size
      ensures BlocksFor(end) <= |inodes[ino].blocks|
    {
      EnoughBlocks(end, |inodes[ino].blocks|);
    }

    /** One turn of the loop of `read`. */
    method ReadChunk(ino: nat, i: nat, start: nat, len: nat, ghost content: seq<byte>, ghost data: seq<byte>)
      returns (chunk: seq<byte>)
      requires Valid() && ino in inodes && start + len <= inodes[ino].size == |content| && content == Content(ino)
      requires start / BLOCK_SIZE <= i < BlocksFor(start + len) && i < |inodes[ino].blocks|
      requires ReadSoFar(content, data, start, len, i)
      ensures ReadSoFar(content, data + chunk, start, len, i + 1)
      ensures Device() == old(Device())
    {
      hide Partition, IsCipher, FileBytes, Raw, ReadSoFar, IsChunk;
      BlockNumber(ino, i);
      var decrypted := ReadPlain(inodes[ino].blocks[i], false);
      var (lo, hi) := ChunkBounds(i, start, start + len);
      ChunkOfFile(ino, i, start, len, content, decrypted);
      ReadMore(content, data, decrypted, i, start, len);
      chunk := decrypted[lo..hi];
    }

    lemma ChunkOfFile(ino: nat, i: nat, start: nat, len: nat, content: seq<byte>, block: seq<byte>)
      requires Valid() && ino in inodes && start + len <= inodes[ino].size == |content| && content == Content(ino)
      requires start / BLOCK_SIZE <= i < BlocksFor(start + len) && i < |inodes[ino].blocks|
      requires (inodes[ino].blocks[i] + 1) * BLOCK_SIZE <= |Device()|
      requires block == Plain(cipher, Device(), inodes[ino].blocks[i]) && |block| == BLOCK_SIZE
      ensures IsChunk(content, block, i, start, len)
    {
      hide Partition, IsCipher, FileBytes, Raw, IsChunk;
      ChainsAreOnData();
      FileBytesIs(cipher, Device(), inodes[ino]);
      RawBlock(cipher, Device(), inodes[ino].blocks, i);
      ChunkOfRaw(Raw(cipher, Device(), inodes[ino].blocks), block, inodes[ino].size, i, start, len);
    }

    // ---------- unlink ----------

    /** `unlink`: removes the entry and the file, and frees its blocks. An entry whose
        inode is missing is removed too, but reported as ENOENT. */
    method Unlink(parent: nat, name: string, saved: seq<seq<byte>>) returns (r: Result<(), Errno>)
      requires Valid() && SavedImage(saved)
      modifies this, pool.Arrays()
      ensures Valid() && nextInodeId == old(nextInodeId)
      ensures !HasEntry(old(directoryTree), parent, name) ==> inodes == old(inodes) && directoryTree == old(directoryTree)
      ensures HasEntry(old(directoryTree), parent, name) ==>
        OnlyEntry(old(directoryTree), directoryTree, parent, name, None)
      ensures HasEntry(old(directoryTree), parent, name) ==>
        inodes == old(inodes) - {old(directoryTree)[parent][name]}
      ensures r.Ok? <==> HasEntry(old(directoryTree), parent, name) && old(directoryTree)[parent][name] in old(inodes)
      ensures r.Ok? ==> freeBlocks == old(freeBlocks) + old(inodes)[old(directoryTree)[parent][name]].blocks
      ensures r.Err? ==> r == Err(ENOENT) && freeBlocks == old(freeBlocks)
      ensures FilesKept(cipher, old(inodes), old(Device()), inodes, Device(), old(inodes).Keys - inodes.Keys)
    {
      hide Partition, IsCipher, FileBytes, SameData, Device, Unlinked, OnlyEntry;
      if parent !in directoryTree { return Err(ENOENT); }
      if name !in directoryTree[parent] { return Err(ENOENT); }
      var ino := directoryTree[parent][name];
      UnlinkedEntries(directoryTree, parent, name);
      directoryTree := Unlinked(directoryTree, parent, name);
      if ino !in inodes {
        assert inodes - {ino} == inodes;
        return Err(ENOENT);
      }
      RemoveInode(ino);
      var ok := SaveMetadata(saved);
      KeptFrom(cipher, old(inodes), old(Device()), inodes, Device(), old(inodes).Keys - inodes.Keys);
      return Ok(());
    }

    method RemoveInode(ino: nat)
      requires Valid() && ino in inodes
      modifies `inodes, `freeBlocks
      ensures Valid() && inodes == old(inodes) - {ino} && freeBlocks == old(freeBlocks) + old(inodes)[ino].blocks
    {
      FreeKeeps(inodes, freeBlocks, totalBlocks, ino);
      FreeBlocks(inodes[ino].blocks);
      inodes := inodes - {ino};
    }

    method FreeBlocks(blocks: seq<nat>)
      modifies `freeBlocks
      ensures freeBlocks == old(freeBlocks) + blocks
    {
      for i := 0 to |blocks|
        invariant freeBlocks == old(freeBlocks) + blocks[..i]
      {
        freeBlocks := freeBlocks + [blocks[i]];
      }
    }
  }

  /** r is what reading at most len bytes of f from `at` on gives. */
  ghost predicate ReadsAs(f: seq<byte>, at: nat, len: nat, r: seq<byte>) {
    |r| == (if at >= |f| then 0 else Min(len, |f| - at)) && forall k :: 0 <= k < |r| ==> r[k] == f[at + k]
  }

  lemma ReadsOnce(f: seq<byte>, at: nat, len: nat, r: seq<byte>, r': seq<byte>)
    requires ReadsAs(f, at, len, r) && ReadsAs(f, at, len, r')
    ensures r == r'
  {
  }

  lemma ReadsBack(f: seq<byte>, g: seq<byte>, at: nat, data: seq<byte>, r: seq<byte>)
    requires IsSplice(f, g, at, data) && ReadsAs(g, at, |data|, r)
    ensures r == data
  {
  }

  lemma ReadsOutside(f: seq<byte>, g: seq<byte>, offset: nat, data: seq<byte>, at: nat, len: nat, r: seq<byte>, r': seq<byte>)
    requires IsSplice(f, g, offset, data) && ReadsAs(f, at, len, r) && ReadsAs(g, at, len, r')
    requires at + len <= offset || at >= offset + |data|
    ensures r == r'
  {
  }

  /** Read after write. What a write at an offset up to the file's size has written is read back,
      and a read of any other file, or of the same file before or after the data, is what it was. */
  method WriteThenRead(fs: GhostFs, ino: nat, offset: nat, data: seq<byte>, saved: seq<seq<byte>>, file: nat, at: nat, len: nat)
    returns (written: Result<nat, Errno>, back: Result<seq<byte>, Errno>, was: Result<seq<byte>, Errno>, now: Result<seq<byte>, Errno>)
    requires fs.Valid() && SavedImage(saved)
    modifies fs, fs.pool.Arrays()
    ensures fs.Valid() && (written.Ok? ==> ino in old(fs.inodes))
    ensures written.Ok? && offset <= old(fs.inodes)[ino].size ==> back == Ok(data)
    ensures file != ino || written.Err? ==> now == was
    ensures written.Ok? && offset <= old(fs.inodes)[ino].size && (at + len <= offset || at >= offset + |data|) ==> now == was
  {
    hide Splice, FileBytes, IsSplice, ReadsAs, Partition, IsCipher, IsWrite;
    was := ReadFile(fs, file, at, len);
    written := fs.Write(ino, offset, data, saved);
    back := ReadFile(fs, ino, offset, |data|);
    now := ReadFile(fs, file, at, len);
    if written.Ok? && offset <= old(fs.inodes)[ino].size {
      ReadsBack(old(fs.Content(ino)), fs.Content(ino), offset, data, back.value);
      if file == ino && (at + len <= offset || at >= offset + |data|) {
        ReadsOutside(old(fs.Content(ino)), fs.Content(ino), offset, data, at, len, was.value, now.value);
      }
    }
    if (file != ino || written.Err?) && was.Ok? {
      ReadsOnce(fs.Content(file), at, len, was.value, now.value);
    }
  }

  method ReadFile(fs: GhostFs, ino: nat, at: nat, len: nat) returns (r: Result<seq<byte>, Errno>)
    requires fs.Valid()
    ensures r == Err(ENOENT) <==> ino !in fs.inodes
    ensures r.Err? ==> r.error == ENOENT
    ensures r.Ok? ==> ReadsAs(fs.Content(ino), at, len, r.value)
  {
    hide Raw;
    if ino in fs.inodes { fs.ContentLength(ino); }
    hide fs.Valid, fs.Content;
    r := fs.Read(ino, at, len);
  }

  /** The range of block i that the data cover. */
  function ChunkBounds(i: nat, start: nat, end: nat): (r: (nat, nat))
    requires start / BLOCK_SIZE <= i < BlocksFor(end) && start <= end
    ensures r.0 <= r.1 <= BLOCK_SIZE
  {
    var at := i * BLOCK_SIZE;
    (if start > at then start - at else 0, if end < at + BLOCK_SIZE then end - at else BLOCK_SIZE)
  }

  lemma ChunkStep(f: seq<byte>, i: nat, start: nat, data: seq<byte>, from: nat)
    requires |f| == BLOCK_SIZE && start / BLOCK_SIZE <= i < BlocksFor(start + |data|)
    requires from == Covered(start, |data|, i * BLOCK_SIZE)
    ensures var (lo, hi) := ChunkBounds(i, start, start + |data|);
      from + (hi - lo) <= |data|
      && f[..lo] + data[from..from + (hi - lo)] + f[hi..] == Overwrite(f, start - i * BLOCK_SIZE, data)
      && from + (hi - lo) == Covered(start, |data|, (i + 1) * BLOCK_SIZE)
  {
    var (lo, hi) := ChunkBounds(i, start, start + |data|);
    ChunkOverwrite(f, i, start, data, lo, hi, from);
  }

  lemma BlockFilled(now: seq<byte>, was: seq<byte>, b: nat, device: seq<byte>)
    requires |now| == BLOCK_SIZE && (b + 1) * BLOCK_SIZE <= |device| && Filled(now, was, b * BLOCK_SIZE, device)
    ensures now == Block(device, b)
  {
  }

  lemma Patched(was: seq<byte>, plain: seq<byte>, lo: nat, hi: nat, chunk: seq<byte>)
    requires |was| == |plain| == BLOCK_SIZE && lo <= hi <= BLOCK_SIZE && |chunk| == hi - lo
    requires plain == was || (lo == 0 && hi == BLOCK_SIZE)
    ensures |plain[..lo] + chunk + plain[hi..]| == BLOCK_SIZE
    ensures plain[..lo] + chunk + plain[hi..] == was[..lo] + chunk + was[hi..]
  {
  }

  lemma Decrypts(c: Cipher, b: nat, plain: seq<byte>)
    requires IsCipher(c) && |plain| == BLOCK_SIZE
    ensures |c.encrypt(b, plain)| == BLOCK_SIZE && c.decrypt(b, c.encrypt(b, plain)) == plain
  {
  }

  /** No data blocks but these changed. */
  ghost predicate OnlyBlocks(before: seq<byte>, after: seq<byte>, blocks: seq<nat>) {
    |after| == |before|
    && forall b: nat :: b >= RESERVED && (b + 1) * BLOCK_SIZE <= |before| && b !in blocks ==> Block(after, b) == Block(before, b)
  }

  lemma ThenSaved(c: Cipher, device0: seq<byte>, device1: seq<byte>, device2: seq<byte>, blocks: seq<nat>)
    requires OnlyBlocks(device0, device1, blocks) && SameData(device1, device2)
    requires InRange(device0, blocks) && forall i :: 0 <= i < |blocks| ==> blocks[i] >= RESERVED
    ensures OnlyBlocks(device0, device2, blocks)
    ensures RawBytes(c, device2, blocks) == RawBytes(c, device1, blocks)
  {
    RawFrame(c, device1, device2, blocks);
  }

  lemma SavedSealed(c: Cipher, device1: seq<byte>, device2: seq<byte>, blocks: seq<nat>, from: nat, to: nat)
    requires SameData(device1, device2) && Sealed(c, device1, blocks, from, to)
    requires forall i :: 0 <= i < |blocks| ==> blocks[i] >= RESERVED
    ensures Sealed(c, device2, blocks, from, to)
  {
    SealedFrame(c, device1, device2, blocks, from, to);
  }

  lemma SliceAppend(f: seq<byte>, at: nat, m: nat, n: nat)
    requires at + m + n <= |f|
    ensures f[at..at + m] + f[at + m..at + m + n] == f[at..at + m + n]
  {
  }

  /** The part of block i that the request covers is a stretch of the file. */
  ghost predicate IsChunk(content: seq<byte>, block: seq<byte>, i: nat, start: nat, len: nat)
    requires start / BLOCK_SIZE <= i < BlocksFor(start + len) && |block| == BLOCK_SIZE
  {
    var (lo, hi) := ChunkBounds(i, start, start + len);
    var from := start + Covered(start, len, i * BLOCK_SIZE);
    from + (hi - lo) == start + Covered(start, len, (i + 1) * BLOCK_SIZE) <= |content|
    && block[lo..hi] == content[from..from + (hi - lo)]
  }

  ghost predicate ReadSoFar(content: seq<byte>, data: seq<byte>, start: nat, len: nat, i: nat) {
    |data| == Covered(start, len, i * BLOCK_SIZE) && start + |data| <= |content| && data == content[start..start + |data|]
  }

  lemma ReadNothing(content: seq<byte>, start: nat, len: nat)
    requires start + len <= |content|
    ensures ReadSoFar(content, [], start, len, start / BLOCK_SIZE) && start / BLOCK_SIZE <= BlocksFor(start + len)
  {
  }

  lemma ReadAll(content: seq<byte>, data: seq<byte>, start: nat, len: nat)
    requires ReadSoFar(content, data, start, len, BlocksFor(start + len)) && start + len <= |content|
    ensures data == content[start..start + len]
  {
  }

  lemma ReadMore(content: seq<byte>, data: seq<byte>, block: seq<byte>, i: nat, start: nat, len: nat)
    requires ReadSoFar(content, data, start, len, i)
    requires start / BLOCK_SIZE <= i < BlocksFor(start + len) && |block| == BLOCK_SIZE && IsChunk(content, block, i, start, len)
    ensures var (lo, hi) := ChunkBounds(i, start, start + len); ReadSoFar(content, data + block[lo..hi], start, len, i + 1)
  {
    var (lo, hi) := ChunkBounds(i, start, start + len);
    SliceAppend(content, start, |data|, hi - lo);
  }

  lemma ChunkPlace(i: nat, start: nat, len: nat)
    requires start / BLOCK_SIZE <= i < BlocksFor(start + len)
    ensures var (lo, hi) := ChunkBounds(i, start, start + len);
      start + Covered(start, len, i * BLOCK_SIZE) == i * BLOCK_SIZE + lo
      && start + Covered(start, len, (i + 1) * BLOCK_SIZE) == i * BLOCK_SIZE + hi
  {
    assert (i + 1) * BLOCK_SIZE <= start + len + BLOCK_SIZE - 1;
  }

  lemma SliceOfTake(f: seq<byte>, size: nat, a: nat, b: nat)
    requires a <= b <= size <= |f|
    ensures f[..size][a..b] == f[a..b]
  {
  }

  lemma SliceOfSlice(f: seq<byte>, a: nat, b: nat, lo: nat, hi: nat)
    requires lo <= hi && a + hi <= b <= |f|
    ensures f[a..b][lo..hi] == f[a + lo..a + hi]
  {
    forall k | 0 <= k < hi - lo ensures f[a..b][lo..hi][k] == f[a + lo..a + hi][k] {
      assert f[a..b][lo + k] == f[a + lo + k];
    }
  }

  lemma EnoughBlocks(end: nat, blocks: nat)
    requires end <= blocks * BLOCK_SIZE
    ensures BlocksFor(end) <= blocks
  {
  }

  lemma ChunkOfRaw(raw: seq<byte>, block: seq<byte>, size: nat, i: nat, start: nat, len: nat)
    requires start / BLOCK_SIZE <= i < BlocksFor(start + len) && start + len <= size <= |raw|
    requires |block| == BLOCK_SIZE && (i + 1) * BLOCK_SIZE <= |raw| && raw[i * BLOCK_SIZE..(i + 1) * BLOCK_SIZE] == block
    ensures IsChunk(raw[..size], block, i, start, len)
  {
    ChunkPlace(i, start, len);
    var (lo, hi) := ChunkBounds(i, start, start + len);
    SliceOfSlice(raw, i * BLOCK_SIZE, (i + 1) * BLOCK_SIZE, lo, hi);
    SliceOfTake(raw, size, i * BLOCK_SIZE + lo, i * BLOCK_SIZE + hi);
    var from := start + Covered(start, len, i * BLOCK_SIZE);
    assert from + (hi - lo) == start + Covered(start, len, (i + 1) * BLOCK_SIZE);
    assert from + (hi - lo) <= size;
    assert block[lo..hi] == raw[..size][from..from + (hi - lo)];
  }

  lemma ChainStart(c: Cipher, device: seq<byte>, blocks: seq<nat>, k: nat, start: nat, data: seq<byte>)
    requires IsCipher(c) && InRange(device, blocks) && k <= |blocks| && k == start / BLOCK_SIZE
    ensures ChainWritten(c, device, device, blocks, k, start, data)
    ensures Covered(start, |data|, k * BLOCK_SIZE) == 0
  {
    forall i | 0 <= i < k
      ensures Plain(c, device, blocks[i]) == Overwrite(Plain(c, device, blocks[i]), start - i * BLOCK_SIZE, data)
    {
      PlainLength(c, device, blocks[i]);
      OverwriteOutside(Plain(c, device, blocks[i]), start - i * BLOCK_SIZE, data);
    }
  }

  lemma ChainUntouched(c: Cipher, before: seq<byte>, after: seq<byte>, blocks: seq<nat>, k: nat, start: nat, data: seq<byte>)
    requires InRange(before, blocks) && NoDuplicates(blocks) && k < |blocks|
    requires ChainWritten(c, before, after, blocks, k, start, data)
    ensures (blocks[k] + 1) * BLOCK_SIZE <= |before| && Block(after, blocks[k]) == Block(before, blocks[k])
  {
    NotInPrefix(blocks, k, k);
  }

  /** The bytes of a file on a device: its blocks, decrypted, up to its size. */
  ghost function FileBytes(c: Cipher, device: seq<byte>, inode: Inode): seq<byte> {
    if InRange(device, inode.blocks) && inode.size <= |Raw(c, device, inode.blocks)|
    then Raw(c, device, inode.blocks)[..inode.size] else []
  }

  lemma FileBytesIs(c: Cipher, device: seq<byte>, inode: Inode)
    requires IsCipher(c) && InRange(device, inode.blocks) && inode.size <= |inode.blocks| * BLOCK_SIZE
    ensures |Raw(c, device, inode.blocks)| == |inode.blocks| * BLOCK_SIZE
    ensures FileBytes(c, device, inode) == Raw(c, device, inode.blocks)[..inode.size]
  {
    RawLength(c, device, inode.blocks);
  }

  /** Every block of a file is a data block on the device. */
  ghost predicate OnData(inodes: map<nat, Inode>, length: nat) {
    forall id, i :: id in inodes && 0 <= i < |inodes[id].blocks| ==>
      RESERVED <= inodes[id].blocks[i] && (inodes[id].blocks[i] + 1) * BLOCK_SIZE <= length
  }

  /** No file but the excepted ones changed, neither its inode nor its bytes. */
  ghost predicate FilesKept(c: Cipher, before: map<nat, Inode>, device0: seq<byte>,
                            after: map<nat, Inode>, device1: seq<byte>, except: set<nat>)
  {
    forall id :: id in before && id !in except ==>
      id in after && after[id] == before[id] && FileBytes(c, device1, after[id]) == FileBytes(c, device0, before[id])
  }

  /** Files that a step on the inodes alone kept, and a save kept. */
  lemma KeptFrom(c: Cipher, before: map<nat, Inode>, device0: seq<byte>,
                 after: map<nat, Inode>, device1: seq<byte>, except: set<nat>)
    requires FilesKept(c, after, device0, after, device1, {})
    requires forall id :: id in before && id !in except ==> id in after && after[id] == before[id]
    ensures FilesKept(c, before, device0, after, device1, except)
  {
  }

  lemma KeptBySave(c: Cipher, before: map<nat, Inode>, device0: seq<byte>,
                   after: map<nat, Inode>, device1: seq<byte>, except: set<nat>)
    requires OnData(before, |device0|) && SameData(device0, device1)
    requires forall id :: id in before && id !in except ==> id in after && after[id] == before[id]
    ensures FilesKept(c, before, device0, after, device1, except)
  {
    forall id | id in before && id !in except ensures FileBytes(c, device1, before[id]) == FileBytes(c, device0, before[id]) {
      RawFrame(c, device0, device1, before[id].blocks);
    }
  }

  /** The first k reserved blocks hold the saved ciphertext. */
  ghost predicate HoldsImage(device: seq<byte>, saved: seq<seq<byte>>, k: nat)
    requires k <= |saved|
  {
    forall i: nat :: i < k ==> (i + 1) * BLOCK_SIZE <= |device| && Block(device, i) == saved[i]
  }

  lemma ImageGrows(device: seq<byte>, saved: seq<seq<byte>>, k: nat)
    requires SavedImage(saved) && k < |saved| && HoldsImage(device, saved, k) && (k + 1) * BLOCK_SIZE <= |device|
    ensures HoldsImage(Overwrite(device, k * BLOCK_SIZE, saved[k]), saved, k + 1)
  {
    var after := Overwrite(device, k * BLOCK_SIZE, saved[k]);
    forall i: nat | i < k + 1 ensures (i + 1) * BLOCK_SIZE <= |after| && Block(after, i) == saved[i] {
      BlockOverwrite(device, k, saved[k], i);
    }
  }

  lemma SameDataChain(a: seq<byte>, b: seq<byte>, c: seq<byte>)
    requires SameData(a, b) && SameData(b, c)
    ensures SameData(a, c)
  {
  }

  /** A block that fits into the capacity is one of the whole blocks. */
  lemma WholeBlock(i: nat, capacity: nat, blocks: nat)
    requires blocks == capacity / BLOCK_SIZE && i * BLOCK_SIZE + BLOCK_SIZE <= capacity
    ensures (i + 1) * BLOCK_SIZE <= blocks * BLOCK_SIZE
  {
  }

  lemma SameDataSelf(device: seq<byte>)
    ensures SameData(device, device)
  {
  }

  lemma SaveKeepsData(device: seq<byte>, i: nat, e: seq<byte>)
    requires i < RESERVED && |e| == BLOCK_SIZE
    ensures SameData(device, Overwrite(device, i * BLOCK_SIZE, e))
  {
    forall b: nat | b >= RESERVED && (b + 1) * BLOCK_SIZE <= |device|
      ensures Block(Overwrite(device, i * BLOCK_SIZE, e), b) == Block(device, b)
    {
      OverwriteKeeps(device, i * BLOCK_SIZE, e, b * BLOCK_SIZE, (b + 1) * BLOCK_SIZE);
    }
  }

  ghost function RawBytes(c: Cipher, device: seq<byte>, blocks: seq<nat>): seq<byte> {
    if InRange(device, blocks) then Raw(c, device, blocks) else []
  }

  /** No other file has a block of this one. */
  ghost predicate ChainsApart(inodes: map<nat, Inode>, ino: nat) {
    ino in inodes && forall id, i :: id in inodes && id != ino && 0 <= i < |inodes[id].blocks| ==>
      inodes[id].blocks[i] !in inodes[ino].blocks
  }

  /** What a successful write does to its file: the old blocks stay and new ones
      follow, and the chain's bytes, old and stale, are overwritten with the data. */
  ghost predicate IsWrite(c: Cipher, before: map<nat, Inode>, device0: seq<byte>, after: map<nat, Inode>, device1: seq<byte>,
                          ino: nat, offset: nat, data: seq<byte>)
  {
    ino in before && ino in after
    && before[ino].blocks <= after[ino].blocks
    && |after[ino].blocks| == Max(|before[ino].blocks|, BlocksFor(offset + |data|))
    && after[ino].size == Max(before[ino].size, offset + |data|)
    && after[ino].id == before[ino].id && after[ino].kind == before[ino].kind
    && RawBytes(c, device1, after[ino].blocks) == Overwrite(RawBytes(c, device0, after[ino].blocks), offset, data)
  }

  ghost predicate IsSplice(before: seq<byte>, after: seq<byte>, at: nat, data: seq<byte>) {
    at <= |before| && after == Splice(before, at, data)
  }

  lemma WriteIsDone(c: Cipher, before: map<nat, Inode>, device0: seq<byte>, after: map<nat, Inode>, device2: seq<byte>,
                    ino: nat, offset: nat, data: seq<byte>)
    requires IsCipher(c) && ino in before && ino in after && ChainsApart(after, ino)
    requires forall id :: id in before && id != ino ==> id in after && after[id] == before[id]
    requires OnData(after, |device0|) && OnlyBlocks(device0, device2, after[ino].blocks)
    requires before[ino].size <= |before[ino].blocks| * BLOCK_SIZE
    requires IsWrite(c, before, device0, after, device2, ino, offset, data)
    ensures FilesKept(c, before, device0, after, device2, {ino})
    ensures offset <= before[ino].size ==>
      IsSplice(FileBytes(c, device0, before[ino]), FileBytes(c, device2, after[ino]), offset, data)
  {
    hide IsCipher, FileBytes, IsSplice, OnlyBlocks;
    forall id | id in before && id != ino ensures FileBytes(c, device2, after[id]) == FileBytes(c, device0, before[id]) {
      OtherFileKept(c, after, device0, device2, ino, id);
    }
    ChainPresent(after, device0, device2, ino);
    if offset <= before[ino].size { SpliceInFile(c, before[ino], after[ino], device0, device2, offset, data); }
  }

  lemma ChainPresent(inodes: map<nat, Inode>, device0: seq<byte>, device1: seq<byte>, ino: nat)
    requires ino in inodes && OnData(inodes, |device0|) && OnlyBlocks(device0, device1, inodes[ino].blocks)
    ensures InRange(device0, inodes[ino].blocks) && InRange(device1, inodes[ino].blocks)
  {
  }

  lemma OtherFileKept(c: Cipher, inodes: map<nat, Inode>, device0: seq<byte>, device1: seq<byte>, ino: nat, id: nat)
    requires id in inodes && id != ino && ChainsApart(inodes, ino) && OnData(inodes, |device0|)
    requires OnlyBlocks(device0, device1, inodes[ino].blocks)
    ensures FileBytes(c, device1, inodes[id]) == FileBytes(c, device0, inodes[id])
  {
    RawFrame(c, device0, device1, inodes[id].blocks);
  }

  lemma InRangeSplit(device: seq<byte>, blocks: seq<nat>, k: nat)
    requires InRange(device, blocks) && k <= |blocks|
    ensures InRange(device, blocks[..k]) && InRange(device, blocks[k..])
  {
  }

  lemma SpliceInFile(c: Cipher, before: Inode, after: Inode, device0: seq<byte>, device2: seq<byte>, offset: nat, data: seq<byte>)
    requires IsCipher(c) && InRange(device0, after.blocks) && InRange(device2, after.blocks)
    requires before.blocks <= after.blocks && offset <= before.size <= |before.blocks| * BLOCK_SIZE
    requires |after.blocks| >= BlocksFor(offset + |data|) && after.size == Max(before.size, offset + |data|)
    requires Raw(c, device2, after.blocks) == Overwrite(Raw(c, device0, after.blocks), offset, data)
    ensures IsSplice(FileBytes(c, device0, before), FileBytes(c, device2, after), offset, data)
  {
    hide IsCipher, FileBytes, Raw, Splice;
    var k := |before.blocks|;
    var more := after.blocks[k..];
    assert after.blocks[..k] == before.blocks && after.blocks == before.blocks + more;
    InRangeSplit(device0, after.blocks, k);
    RawAppend(c, device0, before.blocks, more);
    FileBytesIs(c, device0, before);
    FileBytesIs(c, device2, after);
    RawLength(c, device0, after.blocks);
    WriteSplices(Raw(c, device0, before.blocks), Raw(c, device0, more), before.size, offset, data);
  }
}
