/**
 A pool of carriers as one flat device (carrier.rs): addresses run through the
 images in order, each image giving its whole bytes.
*/
module CarrierPool {
  import opened Bytes
  import opened Carrier

  function TotalBits(carriers: seq<Carrier>): nat {
    if carriers == [] then 0 else TotalBits(carriers[..|carriers| - 1]) + carriers[|carriers| - 1].capacityBits
  }

  /** How many of the bytes [addr, addr + len) lie before `current`. */
  function Covered(addr: nat, len: nat, current: nat): nat {
    if current <= addr then 0 else if current - addr < len then current - addr else len
  }

  function Min(a: nat, b: nat): nat {
    if a < b then a else b
  }

  lemma {:induction false} OffsetGrows(ss: seq<seq<byte>>, c: nat, e: nat)
    requires c <= e <= |ss|
    ensures Offset(ss, c) <= Offset(ss, e) <= |Concat(ss)|
    decreases |ss| - c
  {
    if c < e {
      OffsetStep(ss, c);
      OffsetGrows(ss, c + 1, e);
    } else if c < |ss| {
      OffsetStep(ss, c);
      OffsetGrows(ss, c + 1, |ss|);
    } else {
      assert ss[..c] == ss;
    }
  }

  lemma OffsetNext(ss: seq<seq<byte>>, c: nat)
    requires c < |ss|
    ensures Offset(ss, c + 1) == Offset(ss, c) + |ss[c]|
  {
    OffsetStep(ss, c);
  }

  /** Each carrier gets the slice of the data that falls on it. */
  lemma SliceOverwrite(piece: seq<byte>, addr: nat, current: nat, data: seq<byte>)
    requires addr < current + |piece| && Covered(addr, |data|, current) < |data|
    ensures var start := if addr > current then addr - current else 0;
      var from := Covered(addr, |data|, current);
      var n := Min(|data| - from, |piece| - start);
      Overwrite(piece, start, data[from..from + n]) == Overwrite(piece, addr - current, data)
  {
  }

  class CarrierPool {
    const carriers: seq<Carrier>
    const totalCapacityBytes: nat

    ghost predicate WellFormed() {
      && (forall i :: 0 <= i < |carriers| ==> IsCarrier(carriers[i]))
      && (forall i, j :: 0 <= i < j < |carriers| ==> carriers[i].image != carriers[j].image)
      && totalCapacityBytes == TotalBits(carriers) / 8
    }

    ghost function Arrays(): set<array<byte>> {
      set i | 0 <= i < |carriers| :: carriers[i].image
    }

    /** The channel bytes of every image. */
    ghost function Pixels(): (r: seq<seq<byte>>)
      reads Arrays()
      ensures |r| == |carriers| && forall i :: 0 <= i < |r| ==> r[i] == carriers[i].image[..]
    {
      seq(|carriers|, i requires 0 <= i < |carriers| reads Arrays() => carriers[i].image[..])
    }

    /** The hidden bytes of every image. */
    ghost function Pieces(): (r: seq<seq<byte>>)
      reads Arrays()
      ensures |r| == |carriers| && forall i :: 0 <= i < |r| ==> r[i] == Hidden(carriers[i].image[..])
    {
      seq(|carriers|, i requires 0 <= i < |carriers| reads Arrays() => Hidden(carriers[i].image[..]))
    }

    /** The flat device. */
    ghost function Device(): seq<byte>
      reads Arrays()
    {
      Concat(Pieces())
    }

    lemma DeviceIsTotalBytes()
      requires WellFormed()
      ensures |Device()| == TotalBytes(carriers) <= totalCapacityBytes
    {
      forall i | 0 <= i < |carriers| ensures |Pieces()[i]| == carriers[i].capacityBits / 8 {
        CarrierSizes(carriers[i]);
      }
      DeviceLength(carriers, Pieces());
      CapacityIsExact(carriers);
    }

    /** The pool over the carriers found, in path order. */
    constructor (found: seq<Carrier>)
      requires forall i :: 0 <= i < |found| ==> IsCarrier(found[i])
      requires forall i, j :: 0 <= i < j < |found| ==> found[i].image != found[j].image
      ensures WellFormed() && carriers == found
    {
      var totalBits := 0;
      for i := 0 to |found|
        invariant totalBits == TotalBits(found[..i])
      {
        assert found[..i + 1][..i] == found[..i];
        totalBits := totalBits + found[i].capacityBits;
      }
      assert found[..|found|] == found;
      carriers := found;
      totalCapacityBytes := totalBits / 8;
    }

    /** One turn of the loop of `read_bytes`: the part of the request that lies in
        carrier c, whose bytes begin at `current`. */
    method ReadPart(c: nat, current: nat, addr: nat, buf: array<byte>, bufOffset: nat) returns (n: nat)
      requires WellFormed() && buf !in Arrays() && c < |carriers|
      requires bufOffset == Covered(addr, buf.Length, current) < buf.Length
      modifies buf
      ensures bufOffset + n == Covered(addr, buf.Length, current + carriers[c].capacityBytes)
      ensures |Hidden(carriers[c].image[..])| == carriers[c].capacityBytes
      ensures PartFilled(buf[..], old(buf[..]), addr, current, Hidden(carriers[c].image[..]))
      ensures Pixels() == old(Pixels())
    {
      hide ByteAt;
      CarrierSizes(carriers[c]);
      n := 0;
      assert buf != carriers[c].image by { assert carriers[c].image in Arrays(); }
      var carrierEnd := current + carriers[c].capacityBytes;
      if addr < carrierEnd {
        var start := if addr > current then addr - current else 0;
        var available := carriers[c].capacityBytes - start;
        n := Min(buf.Length - bufOffset, available);
        ReadFromCarrier(carriers[c], start, buf, bufOffset, n);
      }
      PartIsFilled(buf[..], old(buf[..]), addr, current, Hidden(carriers[c].image[..]), bufOffset, n);
    }

    /** `read_bytes`: fills the buffer from the device, as far as the device goes. */
    method ReadBytes(addr: nat, buf: array<byte>) returns (ok: bool)
      requires WellFormed() && buf !in Arrays()
      modifies buf
      ensures ok <==> addr + buf.Length <= totalCapacityBytes
      ensures !ok ==> buf[..] == old(buf[..])
      ensures ok ==> Filled(buf[..], old(buf[..]), addr, Device())
    {
      if addr + buf.Length > totalCapacityBytes { return false; }
      var current, bufOffset, remaining := 0, 0, buf.Length;
      ghost var pieces := Pieces();
      var c := 0;
      while c < |carriers|
        invariant 0 <= c <= |carriers| && Pieces() == pieces && current == |Concat(pieces[..c])|
        invariant bufOffset == Covered(addr, buf.Length, current) && remaining == buf.Length - bufOffset
        invariant Filled(buf[..], old(buf[..]), addr, Concat(pieces[..c]))
      {
        if remaining == 0 { break; }
        label Before:
        var n := ReadPart(c, current, addr, buf, bufOffset);
        FilledStep(old(buf[..]), old@Before(buf[..]), buf[..], addr, pieces, c);
        bufOffset := bufOffset + n;
        remaining := remaining - n;
        current := current + carriers[c].capacityBytes;
        c := c + 1;
      }
      FilledAll(buf[..], old(buf[..]), addr, pieces, c);
      return true;
    }

    /** One turn of the loop of `write_bytes`. */
    method WritePart(c: nat, current: nat, addr: nat, data: seq<byte>, bufOffset: nat) returns (n: nat)
      requires WellFormed() && c < |carriers|
      requires bufOffset == Covered(addr, |data|, current) < |data|
      modifies carriers[c].image
      ensures bufOffset + n == Covered(addr, |data|, current + carriers[c].capacityBytes)
      ensures |Hidden(old(carriers[c].image[..]))| == carriers[c].capacityBytes
      ensures Hidden(carriers[c].image[..]) == Overwrite(Hidden(old(carriers[c].image[..])), addr - current, data)
      ensures OnlyLowBits(old(carriers[c].image[..]), carriers[c].image[..])
      ensures Pixels() == old(Pixels())[c := carriers[c].image[..]]
    {
      hide Overwrite, Arrays, TotalBits, Hidden, Bits, ByteAt, Pixels;
      CarrierSizes(carriers[c]);
      n := 0;
      ghost var piece := Hidden(carriers[c].image[..]);
      var carrierEnd := current + carriers[c].capacityBytes;
      if addr < carrierEnd {
        SliceOverwrite(piece, addr, current, data);
        var start := if addr > current then addr - current else 0;
        var available := carriers[c].capacityBytes - start;
        n := Min(|data| - bufOffset, available);
        WriteToCarrier(carriers[c], start, data[bufOffset..bufOffset + n]);
      } else {
        OverwriteOutside(piece, addr - current, data);
      }
    }

    /** `write_bytes`: overwrites the device, as far as it goes, and touches nothing
        but low bits of colour channels. */
    method WriteBytes(addr: nat, data: seq<byte>) returns (ok: bool)
      requires WellFormed()
      modifies Arrays()
      ensures ok <==> addr + |data| <= totalCapacityBytes
      ensures !ok ==> Pixels() == old(Pixels()) && Device() == old(Device())
      ensures ok ==> Device() == Overwrite(old(Device()), addr, data)
      ensures forall i :: 0 <= i < |carriers| ==> OnlyLowBits(old(Pixels())[i], Pixels()[i])
    {
      hide WrittenUpTo, TotalBits, Usable;
      if addr + |data| > totalCapacityBytes { return false; }
      var current, bufOffset, remaining := 0, 0, |data|;
      ghost var pieces := Pieces();
      ghost var pixels := Pixels();
      WrittenNone(pixels, pieces, addr, data);
      var c := 0;
      while c < |carriers|
        invariant 0 <= c <= |carriers| && current == Offset(pieces, c)
        invariant bufOffset == Covered(addr, |data|, current) && remaining == |data| - bufOffset
        invariant WrittenUpTo(pixels, Pixels(), pieces, c, addr, data)
      {
        if remaining == 0 { break; }
        OffsetNext(pieces, c);
        label Before:
        NextUnwritten(pixels, Pixels(), pieces, c, addr, data);
        var n := WritePart(c, current, addr, data, bufOffset);
        WrittenStep(pixels, old@Before(Pixels()), Pixels(), pieces, c, addr, data);
        bufOffset := bufOffset + n;
        remaining := remaining - n;
        current := current + carriers[c].capacityBytes;
        c := c + 1;
      }
      WriteDone(pixels, Pixels(), pieces, Pieces(), addr, data, c);
      return true;
    }
  }

  /** The buffer holds the device's bytes from addr on, as far as the device goes. */
  ghost predicate Filled(now: seq<byte>, was: seq<byte>, addr: nat, device: seq<byte>) {
    |now| == |was| && forall k :: 0 <= k < |now| ==>
      now[k] == if addr + k < |device| then device[addr + k] else was[k]
  }

  ghost predicate PartFilled(now: seq<byte>, was: seq<byte>, addr: nat, current: nat, piece: seq<byte>) {
    |now| == |was| && forall k :: 0 <= k < |now| ==>
      now[k] == if current <= addr + k < current + |piece| then piece[addr + k - current] else was[k]
  }

  lemma PartIsFilled(now: seq<byte>, was: seq<byte>, addr: nat, current: nat, piece: seq<byte>, from: nat, n: nat)
    requires |now| == |was| && from == Covered(addr, |now|, current)
    requires from + n == Covered(addr, |now|, current + |piece|)
    requires forall k :: 0 <= k < |now| ==>
      now[k] == if from <= k < from + n then piece[addr + k - current] else was[k]
    ensures PartFilled(now, was, addr, current, piece)
  {
  }

  lemma FilledAppend(start: seq<byte>, before: seq<byte>, after: seq<byte>, addr: nat, prefix: seq<byte>, piece: seq<byte>)
    requires Filled(before, start, addr, prefix) && PartFilled(after, before, addr, |prefix|, piece)
    ensures Filled(after, start, addr, prefix + piece)
  {
  }

  lemma FilledStep(start: seq<byte>, before: seq<byte>, after: seq<byte>, addr: nat, pieces: seq<seq<byte>>, c: nat)
    requires c < |pieces| && Filled(before, start, addr, Concat(pieces[..c]))
    requires PartFilled(after, before, addr, |Concat(pieces[..c])|, pieces[c])
    ensures Filled(after, start, addr, Concat(pieces[..c + 1]))
    ensures |Concat(pieces[..c + 1])| == |Concat(pieces[..c])| + |pieces[c]|
  {
    OffsetStep(pieces, c);
    FilledAppend(start, before, after, addr, Concat(pieces[..c]), pieces[c]);
  }

  lemma FilledAll(now: seq<byte>, was: seq<byte>, addr: nat, pieces: seq<seq<byte>>, c: nat)
    requires c <= |pieces| && Filled(now, was, addr, Concat(pieces[..c]))
    requires c == |pieces| || Covered(addr, |now|, |Concat(pieces[..c])|) == |now|
    ensures Filled(now, was, addr, Concat(pieces))
  {
    PrefixBytes(pieces, c);
    assert c == |pieces| ==> pieces[..c] == pieces;
  }

  /** The first c images have been written, the others not yet. */
  ghost predicate WrittenUpTo(before: seq<seq<byte>>, after: seq<seq<byte>>, pieces: seq<seq<byte>>, c: nat, addr: nat,
                              data: seq<byte>)
  {
    |before| == |after| == |pieces| && c <= |before|
    && (forall i :: 0 <= i < c ==> Hidden(after[i]) == Overwrite(pieces[i], addr - Offset(pieces, i), data))
    && (forall i :: 0 <= i < c ==> OnlyLowBits(before[i], after[i]))
    && (forall i :: c <= i < |before| ==> after[i] == before[i])
  }

  lemma WrittenNone(pixels: seq<seq<byte>>, pieces: seq<seq<byte>>, addr: nat, data: seq<byte>)
    requires |pieces| == |pixels|
    ensures WrittenUpTo(pixels, pixels, pieces, 0, addr, data) && Offset(pieces, 0) == 0
  {
  }

  lemma NextUnwritten(before: seq<seq<byte>>, after: seq<seq<byte>>, pieces: seq<seq<byte>>, c: nat, addr: nat, data: seq<byte>)
    requires c < |before| && WrittenUpTo(before, after, pieces, c, addr, data)
    ensures |before| == |after| == |pieces| && after[c] == before[c]
  {
  }

  lemma WrittenStep(before: seq<seq<byte>>, middle: seq<seq<byte>>, after: seq<seq<byte>>, pieces: seq<seq<byte>>,
                    c: nat, addr: nat, data: seq<byte>)
    requires c < |before| && WrittenUpTo(before, middle, pieces, c, addr, data)
    requires |after| == |middle| && after == middle[c := after[c]]
    requires Hidden(after[c]) == Overwrite(pieces[c], addr - Offset(pieces, c), data)
    requires OnlyLowBits(before[c], after[c])
    ensures WrittenUpTo(before, after, pieces, c + 1, addr, data)
  {
    hide Concat;
  }

  lemma PrefixBytes(pieces: seq<seq<byte>>, c: nat)
    requires c <= |pieces|
    ensures Concat(pieces[..c]) <= Concat(pieces)
  {
    hide Concat;
    ConcatSplit(pieces[..c], pieces[c..]);
    assert pieces[..c] + pieces[c..] == pieces;
  }

  /** When the loop stops, either every carrier was visited or all data are written. */
  lemma RestUntouched(before: seq<seq<byte>>, after: seq<seq<byte>>, pieces: seq<seq<byte>>, addr: nat, data: seq<byte>, c: nat)
    requires WrittenUpTo(before, after, pieces, c, addr, data)
    requires forall i :: 0 <= i < |before| ==> Hidden(before[i]) == pieces[i]
    requires c == |pieces| || Covered(addr, |data|, Offset(pieces, c)) == |data|
    ensures WrittenUpTo(before, after, pieces, |before|, addr, data)
  {
    forall i | c <= i < |before|
      ensures Hidden(after[i]) == Overwrite(pieces[i], addr - Offset(pieces, i), data)
      ensures OnlyLowBits(before[i], after[i])
    {
      OffsetGrows(pieces, c, i);
      OverwriteOutside(pieces[i], addr - Offset(pieces, i), data);
    }
  }

  lemma WriteDone(before: seq<seq<byte>>, after: seq<seq<byte>>, olds: seq<seq<byte>>, news: seq<seq<byte>>,
                  addr: nat, data: seq<byte>, c: nat)
    requires WrittenUpTo(before, after, olds, c, addr, data) && |news| == |after|
    requires forall i :: 0 <= i < |before| ==> Hidden(before[i]) == olds[i]
    requires forall i :: 0 <= i < |after| ==> Hidden(after[i]) == news[i]
    requires c == |olds| || Covered(addr, |data|, Offset(olds, c)) == |data|
    ensures Concat(news) == Overwrite(Concat(olds), addr, data)
    ensures forall i :: 0 <= i < |before| ==> OnlyLowBits(before[i], after[i])
  {
    RestUntouched(before, after, olds, addr, data, c);
    assert PiecesOverwritten(olds, news, addr, data);
    ConcatOverwrite(olds, news, addr, data);
  }

  // ---------- what users of the pool see ----------

  /** Reading back a write gives the data; what is written past the device's end is
      lost without an error, so the buffer keeps what it held there. */
  lemma ReadBack(device: seq<byte>, addr: nat, data: seq<byte>, was: seq<byte>, got: seq<byte>)
    requires |was| == |data| > 0 && was[|data| - 1] != data[|data| - 1]
    requires Filled(got, was, addr, Overwrite(device, addr, data))
    ensures got == data <==> addr + |data| <= |device|
  {
  }

  /** The whole bytes of the carriers, and their bits that make no whole byte. */
  function TotalBytes(carriers: seq<Carrier>): nat {
    if carriers == [] then 0 else TotalBytes(carriers[..|carriers| - 1]) + carriers[|carriers| - 1].capacityBits / 8
  }

  function SpareBits(carriers: seq<Carrier>): nat {
    if carriers == [] then 0 else SpareBits(carriers[..|carriers| - 1]) + carriers[|carriers| - 1].capacityBits % 8
  }

  lemma {:induction false} BitsSplit(carriers: seq<Carrier>)
    ensures TotalBits(carriers) == 8 * TotalBytes(carriers) + SpareBits(carriers)
  {
    if carriers != [] { BitsSplit(carriers[..|carriers| - 1]); }
  }

  /** The pool's stated capacity is the device's length exactly when the bits left
      over in the images make no byte together. */
  lemma CapacityIsExact(carriers: seq<Carrier>)
    ensures TotalBytes(carriers) <= TotalBits(carriers) / 8
    ensures TotalBytes(carriers) == TotalBits(carriers) / 8 <==> SpareBits(carriers) < 8
  {
    BitsSplit(carriers);
  }

  lemma {:induction false} DeviceLength(carriers: seq<Carrier>, pieces: seq<seq<byte>>)
    requires |pieces| == |carriers|
    requires forall i :: 0 <= i < |carriers| ==> |pieces[i]| == carriers[i].capacityBits / 8
    ensures |Concat(pieces)| == TotalBytes(carriers)
  {
    if carriers != [] { DeviceLength(carriers[..|carriers| - 1], pieces[..|pieces| - 1]); }
  }
}
