/**
 Byte strings laid end to end, and overwriting a stretch of them: the common
 view of carrier images, the hidden device and the blocks of a file.
*/
module Bytes {

  type byte = bv8

  /** f with data written from position `at` on. What falls outside f is dropped;
      `at` may be negative, for data that began in an earlier piece. */
  function Overwrite(f: seq<byte>, at: int, data: seq<byte>): (r: seq<byte>)
    ensures |r| == |f|
    ensures forall i :: 0 <= i < |f| ==> r[i] == if at <= i < at + |data| then data[i - at] else f[i]
  {
    seq(|f|, i requires 0 <= i < |f| => if at <= i < at + |data| then data[i - at] else f[i])
  }

  lemma OverwriteAppend(f: seq<byte>, g: seq<byte>, at: int, data: seq<byte>)
    ensures Overwrite(f + g, at, data) == Overwrite(f, at, data) + Overwrite(g, at - |f|, data)
  {
  }

  lemma OverwriteOutside(f: seq<byte>, at: int, data: seq<byte>)
    requires at >= |f| || at + |data| <= 0 || data == []
    ensures Overwrite(f, at, data) == f
  {
  }

  /** Reading back what was written. */
  lemma OverwriteReads(f: seq<byte>, at: nat, data: seq<byte>)
    requires at + |data| <= |f|
    ensures Overwrite(f, at, data)[at..at + |data|] == data
  {
  }

  /** A stretch that does not meet the written one keeps its bytes. */
  lemma OverwriteKeeps(f: seq<byte>, at: nat, data: seq<byte>, lo: nat, hi: nat)
    requires lo <= hi <= |f| && (hi <= at || at + |data| <= lo)
    ensures Overwrite(f, at, data)[lo..hi] == f[lo..hi]
  {
  }

  function Concat(ss: seq<seq<byte>>): seq<byte> {
    if ss == [] then [] else Concat(ss[..|ss| - 1]) + ss[|ss| - 1]
  }

  /** Where piece c begins. */
  function Offset(ss: seq<seq<byte>>, c: nat): nat
    requires c <= |ss|
  {
    |Concat(ss[..c])|
  }

  lemma OffsetStep(ss: seq<seq<byte>>, c: nat)
    requires c < |ss|
    ensures Offset(ss, c + 1) == Offset(ss, c) + |ss[c]|
    ensures Concat(ss[..c + 1]) == Concat(ss[..c]) + ss[c]
  {
    assert ss[..c + 1][..c] == ss[..c];
  }

  lemma {:induction false} ConcatSplit(ss: seq<seq<byte>>, ts: seq<seq<byte>>)
    ensures Concat(ss + ts) == Concat(ss) + Concat(ts)
  {
    if ts == [] {
      assert ss + ts == ss;
    } else {
      ConcatSplit(ss, ts[..|ts| - 1]);
      assert (ss + ts)[..|ss + ts| - 1] == ss + ts[..|ts| - 1];
    }
  }

  /** Piece by piece, news is olds overwritten. */
  ghost predicate PiecesOverwritten(olds: seq<seq<byte>>, news: seq<seq<byte>>, at: int, data: seq<byte>) {
    |olds| == |news| && forall c :: 0 <= c < |olds| ==> news[c] == Overwrite(olds[c], at - Offset(olds, c), data)
  }

  lemma PiecesPrefix(olds: seq<seq<byte>>, news: seq<seq<byte>>, at: int, data: seq<byte>, k: nat)
    requires PiecesOverwritten(olds, news, at, data) && k <= |olds|
    ensures PiecesOverwritten(olds[..k], news[..k], at, data)
  {
    forall c | 0 <= c < k ensures news[..k][c] == Overwrite(olds[..k][c], at - Offset(olds[..k], c), data) {
      assert olds[..k][..c] == olds[..c];
    }
  }

  /** Overwriting piece by piece overwrites the whole. */
  lemma {:induction false} ConcatOverwrite(olds: seq<seq<byte>>, news: seq<seq<byte>>, at: int, data: seq<byte>)
    requires PiecesOverwritten(olds, news, at, data)
    ensures Concat(news) == Overwrite(Concat(olds), at, data)
  {
    if olds != [] {
      var k := |olds| - 1;
      PiecesPrefix(olds, news, at, data, k);
      ConcatOverwrite(olds[..k], news[..k], at, data);
      assert news[k] == Overwrite(olds[k], at - Offset(olds, k), data);
      OverwriteAppend(Concat(olds[..k]), olds[k], at, data);
    }
  }
}
