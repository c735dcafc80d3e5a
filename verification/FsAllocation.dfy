/**
 The block allocator of fs.rs and metadata.rs: the free list and the inode
 blocks are always a partition of the data blocks.
*/
module FsAllocation {
  import opened FsBlocks

  datatype Kind = File | Directory

  datatype Inode = Inode(id: nat, size: nat, kind: Kind, blocks: seq<nat>)

  ghost predicate DataBlock(b: nat, total: nat) {
    RESERVED <= b < total
  }

  ghost predicate Owns(inodes: map<nat, Inode>, id: nat, b: nat) {
    id in inodes && b in inodes[id].blocks
  }

  /** Every data block is either free, once, or in one inode, once; nothing else
      is free or in an inode. */
  ghost predicate Partition(inodes: map<nat, Inode>, free: seq<nat>, total: nat) {
    && NoDuplicates(free)
    && (forall b :: b in free ==> DataBlock(b, total))
    && (forall id :: id in inodes ==> NoDuplicates(inodes[id].blocks))
    && (forall id, b :: Owns(inodes, id, b) ==> DataBlock(b, total) && b !in free)
    && (forall id, id2, b :: Owns(inodes, id, b) && Owns(inodes, id2, b) ==> id == id2)
    && (forall b :: DataBlock(b, total) ==> b in free || exists id :: Owns(inodes, id, b))
  }

  function Reversed(s: seq<nat>): (r: seq<nat>)
    ensures |r| == |s| && forall i :: 0 <= i < |s| ==> r[i] == s[|s| - 1 - i]
  {
    if s == [] then [] else [s[|s| - 1]] + Reversed(s[..|s| - 1])
  }

  lemma ReversedHolds(s: seq<nat>)
    ensures forall b :: b in Reversed(s) <==> b in s
    ensures NoDuplicates(s) ==> NoDuplicates(Reversed(s))
  {
    forall b ensures b in Reversed(s) <==> b in s {
      if b in s {
        var i :| 0 <= i < |s| && s[i] == b;
        assert Reversed(s)[|s| - 1 - i] == b;
      }
    }
  }

  /** Failing puts the popped blocks back, in the other order. */
  lemma ReverseKeeps(inodes: map<nat, Inode>, free: seq<nat>, total: nat)
    requires Partition(inodes, free, total)
    ensures Partition(inodes, Reversed(free), total)
  {
    ReversedHolds(free);
  }

  lemma SplitFree(rest: seq<nat>, taken: seq<nat>)
    requires NoDuplicates(rest + taken)
    ensures NoDuplicates(rest) && NoDuplicates(taken)
    ensures forall b :: b in taken ==> b !in rest
    ensures forall b :: b in rest + taken <==> b in rest || b in taken
  {
    var s := rest + taken;
    forall i, j | 0 <= i < j < |rest| ensures rest[i] != rest[j] {
      assert s[i] != s[j];
    }
    forall i, j | 0 <= i < j < |taken| ensures taken[i] != taken[j] {
      assert s[|rest| + i] != s[|rest| + j];
    }
    forall i, j | 0 <= i < |rest| && 0 <= j < |taken| ensures rest[i] != taken[j] {
      assert s[i] != s[|rest| + j];
    }
  }

  lemma JoinDistinct(a: seq<nat>, b: seq<nat>)
    requires NoDuplicates(a) && NoDuplicates(b) && forall x :: x in b ==> x !in a
    ensures NoDuplicates(a + b)
  {
    forall i, j | 0 <= i < j < |a + b| ensures (a + b)[i] != (a + b)[j] {
      if j >= |a| { assert (a + b)[j] in b; }
    }
  }

  /** The free list before its last blocks were popped, one by one. */
  lemma FreeSplit(rest: seq<nat>, taken: seq<nat>)
    requires NoDuplicates(rest + Reversed(taken))
    ensures NoDuplicates(rest) && NoDuplicates(taken)
    ensures forall b :: b in taken ==> b !in rest
    ensures forall b :: b in rest + Reversed(taken) <==> b in rest || b in taken
  {
    SplitFree(rest, Reversed(taken));
    ReversedHolds(taken);
    ReversedHolds(Reversed(taken));
    assert Reversed(Reversed(taken)) == taken;
  }

  /** Moving blocks from the end of the free list to the end of a file. */
  lemma TakeKeeps(inodes: map<nat, Inode>, rest: seq<nat>, taken: seq<nat>, total: nat, id: nat, inode: Inode)
    requires id in inodes && Partition(inodes, rest + Reversed(taken), total)
    requires inode.blocks == inodes[id].blocks + taken
    ensures Partition(inodes[id := inode], rest, total)
    ensures forall b :: b in taken ==> DataBlock(b, total)
  {
    FreeSplit(rest, taken);
    MoveBlocks(inodes, rest + Reversed(taken), rest, taken, total, id, inode);
  }

  lemma MoveBlocks(inodes: map<nat, Inode>, free: seq<nat>, rest: seq<nat>, taken: seq<nat>, total: nat, id: nat, inode: Inode)
    requires id in inodes && Partition(inodes, free, total) && NoDuplicates(rest) && NoDuplicates(taken)
    requires forall b :: b in taken ==> b !in rest
    requires forall b :: b in free <==> b in rest || b in taken
    requires inode.blocks == inodes[id].blocks + taken
    ensures Partition(inodes[id := inode], rest, total)
    ensures forall b :: b in taken ==> DataBlock(b, total)
  {
    forall b | b in taken ensures b !in inodes[id].blocks {
      assert b in inodes[id].blocks ==> Owns(inodes, id, b);
    }
    JoinDistinct(inodes[id].blocks, taken);
    var inodes' := inodes[id := inode];
    OwnsAfter(inodes, taken, id, inode);
    forall b | b in taken ensures DataBlock(b, total) && forall i :: !Owns(inodes, i, b) {
      assert b in free;
    }
    forall i, b | Owns(inodes', i, b) ensures DataBlock(b, total) && b !in rest {
      if Owns(inodes, i, b) { assert b !in free; }
    }
    forall b | DataBlock(b, total) && b !in rest ensures exists i :: Owns(inodes', i, b) {
      if b in taken {
        assert Owns(inodes', id, b);
      } else {
        var i :| Owns(inodes, i, b);
        assert Owns(inodes', i, b);
      }
    }
    forall i1: nat, i2: nat, b: nat | Owns(inodes', i1, b) && Owns(inodes', i2, b) ensures i1 == i2 {
      if b in taken {
        assert b in free && !Owns(inodes, i1, b) && !Owns(inodes, i2, b);
      } else {
        assert Owns(inodes, i1, b) && Owns(inodes, i2, b);
      }
    }
  }

  lemma OwnsAfter(inodes: map<nat, Inode>, taken: seq<nat>, id: nat, inode: Inode)
    requires id in inodes && inode.blocks == inodes[id].blocks + taken
    ensures forall i, b :: Owns(inodes[id := inode], i, b) <==> Owns(inodes, i, b) || (i == id && b in taken)
  {
    var before, after := inodes[id].blocks, inode.blocks;
    forall b ensures b in after <==> b in before || b in taken {
      assert after == before + taken;
    }
    forall i, b ensures Owns(inodes[id := inode], i, b) <==> Owns(inodes, i, b) || (i == id && b in taken) {
    }
  }

  /** Freeing a removed file's blocks. */
  lemma FreeKeeps(inodes: map<nat, Inode>, free: seq<nat>, total: nat, id: nat)
    requires id in inodes && Partition(inodes, free, total)
    ensures Partition(inodes - {id}, free + inodes[id].blocks, total)
  {
    forall b | b in inodes[id].blocks ensures DataBlock(b, total) && b !in free {
      assert Owns(inodes, id, b);
    }
    JoinDistinct(free, inodes[id].blocks);
    forall b | DataBlock(b, total) && b !in free + inodes[id].blocks ensures exists i :: Owns(inodes - {id}, i, b) {
      var i :| Owns(inodes, i, b);
      assert Owns(inodes - {id}, i, b);
    }
    forall i, b | Owns(inodes - {id}, i, b) ensures Owns(inodes, i, b) && b !in inodes[id].blocks {
      assert Owns(inodes, i, b);
      assert b in inodes[id].blocks ==> Owns(inodes, id, b);
    }
  }

  /** A new file has no blocks. */
  lemma CreateKeeps(inodes: map<nat, Inode>, free: seq<nat>, total: nat, id: nat, inode: Inode)
    requires id !in inodes && inode.blocks == [] && Partition(inodes, free, total)
    ensures Partition(inodes[id := inode], free, total)
  {
    var inodes' := inodes[id := inode];
    forall b | DataBlock(b, total) && b !in free ensures exists i :: Owns(inodes', i, b) {
      var i :| Owns(inodes, i, b);
      assert Owns(inodes', i, b);
    }
    forall i, b | Owns(inodes', i, b) ensures Owns(inodes, i, b) {
    }
  }

  /** A change of size only. */
  lemma ResizeKeeps(inodes: map<nat, Inode>, free: seq<nat>, total: nat, id: nat, inode: Inode)
    requires id in inodes && inode.blocks == inodes[id].blocks && Partition(inodes, free, total)
    ensures Partition(inodes[id := inode], free, total)
  {
    var inodes' := inodes[id := inode];
    forall b | DataBlock(b, total) && b !in free ensures exists i :: Owns(inodes', i, b) {
      var i :| Owns(inodes, i, b);
      assert Owns(inodes', i, b);
    }
    forall i, b | Owns(inodes', i, b) ensures Owns(inodes, i, b) {
    }
  }
}
