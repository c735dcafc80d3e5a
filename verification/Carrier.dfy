/**
 Bytes hidden in the low bits of image pixels (carrier.rs). An RGBA image is a
 buffer of four channel bytes per pixel; bit g of the hidden bytes is the low bit
 of channel g % 3 of pixel g / 3, and alpha is never used.
*/
module Carrier {
  import opened Bytes
  import opened NumberTheory

  // ---------- bits of a byte ----------

  /** 1 << k */
  function Mask(k: nat): byte
    requires k < 8
  {
    if k == 0 then 1 else if k == 1 then 2 else if k == 2 then 4 else if k == 3 then 8
    else if k == 4 then 16 else if k == 5 then 32 else if k == 6 then 64 else 128
  }

  predicate TestBit(b: byte, k: nat)
    requires k < 8
  {
    b & Mask(k) != 0
  }

  predicate LowBit(b: byte) {
    b & 1 != 0
  }

  function SetLow(b: byte, on: bool): byte {
    if on then (b & 0xFE) | 1 else b & 0xFE
  }

  lemma SetLowSets(b: byte, on: bool)
    ensures LowBit(SetLow(b, on)) == on && SetLow(b, on) & 0xFE == b & 0xFE
  {
  }

  lemma ByteExtensional(a: byte, b: byte)
    requires forall k :: 0 <= k < 8 ==> TestBit(a, k) == TestBit(b, k)
    ensures a == b
  {
    assert TestBit(a, 0) == TestBit(b, 0) && TestBit(a, 1) == TestBit(b, 1);
    assert TestBit(a, 2) == TestBit(b, 2) && TestBit(a, 3) == TestBit(b, 3);
    assert TestBit(a, 4) == TestBit(b, 4) && TestBit(a, 5) == TestBit(b, 5);
    assert TestBit(a, 6) == TestBit(b, 6) && TestBit(a, 7) == TestBit(b, 7);
  }

  lemma TestOr(b: byte, m: nat, k: nat)
    requires m < 8 && k < 8
    ensures TestBit(b | Mask(m), k) == (TestBit(b, k) || m == k)
  {
    assert (b | Mask(m)) & Mask(k) == (b & Mask(k)) | (Mask(m) & Mask(k));
  }

  // ---------- bits of an image ----------

  /** The channel that holds hidden bit g. */
  function Channel(g: nat): nat {
    g / 3 * 4 + g % 3
  }

  /** The hidden bit of channel j, when it is not an alpha channel. */
  function BitOf(j: nat): nat {
    j / 4 * 3 + j % 4
  }

  lemma ChannelOfBit(g: nat)
    ensures Channel(g) % 4 != 3 && BitOf(Channel(g)) == g
  {
    DivModUnique(Channel(g), 4, g / 3, g % 3);
  }

  /** The number of usable bits: three a pixel. */
  function Bits(image: seq<byte>): nat {
    |image| / 4 * 3
  }

  lemma ChannelInRange(image: seq<byte>, g: nat)
    requires g < Bits(image)
    ensures Channel(g) < |image|
  {
  }

  /** The first n bits from bit s on, packed low bit first. */
  function PackBits(image: seq<byte>, s: nat, n: nat): byte
    requires n <= 8 && s + n <= Bits(image)
  {
    if n == 0 then 0
    else
      ChannelInRange(image, s + n - 1);
      if LowBit(image[Channel(s + n - 1)]) then PackBits(image, s, n - 1) | Mask(n - 1) else PackBits(image, s, n - 1)
  }

  lemma {:induction false} PackedBit(image: seq<byte>, s: nat, n: nat, k: nat)
    requires n <= 8 && s + n <= Bits(image) && k < 8
    ensures k < n ==> Channel(s + k) < |image|
    ensures TestBit(PackBits(image, s, n), k) == (k < n && LowBit(image[Channel(s + k)]))
  {
    if k < n { ChannelInRange(image, s + k); }
    if n > 0 {
      PackedBit(image, s, n - 1, k);
      TestOr(PackBits(image, s, n - 1), n - 1, k);
    }
  }

  /** The number of whole bytes an image can hide. */
  function Usable(image: seq<byte>): nat {
    Bits(image) / 8
  }

  function ByteAt(image: seq<byte>, i: nat): byte
    requires i < Usable(image)
  {
    PackBits(image, 8 * i, 8)
  }

  /** The hidden bytes of an image. */
  function Hidden(image: seq<byte>): (r: seq<byte>)
    ensures |r| == Usable(image)
    ensures forall i :: 0 <= i < |r| ==> r[i] == ByteAt(image, i)
  {
    seq(Usable(image), i requires 0 <= i < Usable(image) => ByteAt(image, i))
  }

  /** Only the low bits of colour channels differ. */
  ghost predicate OnlyLowBits(before: seq<byte>, after: seq<byte>) {
    |before| == |after| && forall j :: 0 <= j < |before| ==>
      after[j] & 0xFE == before[j] & 0xFE && (j % 4 == 3 ==> after[j] == before[j])
  }

  /** The channel j after `data` has been written from bit g0 on. */
  function Written(was: byte, j: nat, g0: nat, data: seq<byte>): byte {
    var g := BitOf(j);
    if j % 4 != 3 && g0 <= g < g0 + 8 * |data| then SetLow(was, TestBit(data[(g - g0) / 8], (g - g0) % 8)) else was
  }

  ghost predicate IsWritten(before: seq<byte>, after: seq<byte>, g0: nat, data: seq<byte>) {
    |before| == |after| && forall j :: 0 <= j < |before| ==> after[j] == Written(before[j], j, g0, data)
  }

  lemma WrittenLow(before: seq<byte>, after: seq<byte>, g0: nat, data: seq<byte>)
    requires IsWritten(before, after, g0, data)
    ensures OnlyLowBits(before, after)
  {
    forall j | 0 <= j < |before| ensures after[j] & 0xFE == before[j] & 0xFE {
      var g := BitOf(j);
      if j % 4 != 3 && g0 <= g < g0 + 8 * |data| {
        SetLowSets(before[j], TestBit(data[(g - g0) / 8], (g - g0) % 8));
      }
    }
  }

  lemma WrittenBit(before: seq<byte>, after: seq<byte>, start: nat, data: seq<byte>, i: nat, k: nat)
    requires IsWritten(before, after, 8 * start, data) && i < Usable(before) && k < 8
    ensures Channel(8 * i + k) < |before|
    ensures LowBit(after[Channel(8 * i + k)]) ==
      if start <= i < start + |data| then TestBit(data[i - start], k) else LowBit(before[Channel(8 * i + k)])
  {
    hide LowBit, TestBit, SetLow, Usable, Bits, Channel, BitOf, Written;
    var g := 8 * i + k;
    BitInRange(before, i, k);
    ChannelInRange(before, g);
    ChannelOfBit(g);
    WrittenChannel(before[Channel(g)], Channel(g), start, data, i, k);
  }

  lemma BitInRange(image: seq<byte>, i: nat, k: nat)
    requires i < Usable(image) && k < 8
    ensures 8 * i + k < Bits(image)
  {
  }

  lemma WrittenChannel(was: byte, j: nat, start: nat, data: seq<byte>, i: nat, k: nat)
    requires k < 8 && j % 4 != 3 && BitOf(j) == 8 * i + k
    ensures LowBit(Written(was, j, 8 * start, data)) ==
      if start <= i < start + |data| then TestBit(data[i - start], k) else LowBit(was)
  {
    hide LowBit, TestBit, SetLow, BitOf;
    if start <= i < start + |data| {
      DivModUnique(8 * i + k - 8 * start, 8, i - start, k);
      SetLowSets(was, TestBit(data[i - start], k));
    }
  }

  lemma WrittenByte(before: seq<byte>, after: seq<byte>, start: nat, data: seq<byte>, i: nat)
    requires IsWritten(before, after, 8 * start, data) && i < Usable(before)
    ensures ByteAt(after, i) == if start <= i < start + |data| then data[i - start] else ByteAt(before, i)
  {
    hide TestBit, LowBit, PackBits, Channel, Written;
    var want := if start <= i < start + |data| then data[i - start] else ByteAt(before, i);
    forall k | 0 <= k < 8 ensures TestBit(ByteAt(after, i), k) == TestBit(want, k) {
      PackedBit(after, 8 * i, 8, k);
      PackedBit(before, 8 * i, 8, k);
      WrittenBit(before, after, start, data, i, k);
    }
    ByteExtensional(ByteAt(after, i), want);
  }

  /** Writing bits overwrites the hidden bytes. */
  lemma WrittenHidden(before: seq<byte>, after: seq<byte>, start: nat, data: seq<byte>)
    requires IsWritten(before, after, 8 * start, data)
    ensures Hidden(after) == Overwrite(Hidden(before), start, data)
  {
    forall i | 0 <= i < Usable(before) ensures Hidden(after)[i] == Overwrite(Hidden(before), start, data)[i] {
      WrittenByte(before, after, start, data, i);
    }
  }

  // ---------- one carrier ----------

  datatype Carrier = Carrier(width: nat, height: nat, capacityBits: nat, capacityBytes: nat, image: array<byte>)

  ghost predicate IsCarrier(c: Carrier) {
    c.capacityBits == c.width * c.height * 3
    && c.image.Length == c.width * c.height * 4
    && c.capacityBytes == c.capacityBits / 8
  }

  lemma CarrierSizes(c: Carrier)
    requires IsCarrier(c)
    ensures c.image.Length / 4 * 3 == c.capacityBits && Usable(c.image[..]) == c.capacityBytes
    ensures c.image.Length > 0 ==> c.width > 0
  {
    var pixels := c.width * c.height;
    DivModUnique(c.image.Length, 4, pixels, 0);
  }

  /** Bit g's channel, as `get_pixel(x, y)` finds it. */
  function ChannelByPixel(width: nat, g: nat): nat
    requires width > 0
  {
    var pixel := g / 3;
    var x, y := pixel % width, pixel / width;
    (y * width + x) * 4 + g % 3
  }

  lemma PixelOrder(width: nat, g: nat)
    requires width > 0
    ensures ChannelByPixel(width, g) == Channel(g)
  {
    var pixel := g / 3;
    assert pixel == (pixel / width) * width + pixel % width;
  }

  /** The inner loop of `read_from_carrier`: one byte from its eight bits. */
  method ReadByte(c: Carrier, g0: nat) returns (val: byte)
    requires IsCarrier(c) && g0 + 8 <= c.capacityBits
    ensures g0 + 8 <= Bits(c.image[..]) && val == PackBits(c.image[..], g0, 8)
  {
    CarrierSizes(c);
    hide IsCarrier, Mask, Channel, ChannelByPixel;
    val := 0;
    for bit := 0 to 8
      invariant val == PackBits(c.image[..], g0, bit)
    {
      var g := g0 + bit;
      ChannelInRange(c.image[..], g);
      PixelOrder(c.width, g);
      if c.image[ChannelByPixel(c.width, g)] & 1 != 0 {
        val := val | Mask(bit);
      }
    }
  }

  /** `read_from_carrier`, into buf[off..off + n]. */
  method ReadFromCarrier(c: Carrier, start: nat, buf: array<byte>, off: nat, n: nat)
    requires IsCarrier(c) && start + n <= c.capacityBytes && off + n <= buf.Length && buf != c.image
    modifies buf
    ensures start + n <= Usable(c.image[..])
    ensures forall k :: 0 <= k < buf.Length ==>
      buf[k] == if off <= k < off + n then Hidden(c.image[..])[start + k - off] else old(buf[k])
  {
    hide PackBits;
    CarrierSizes(c);
    ghost var hidden := Hidden(c.image[..]);
    for i := 0 to n
      invariant Hidden(c.image[..]) == hidden
      invariant forall k :: 0 <= k < buf.Length ==>
        buf[k] == if off <= k < off + i then hidden[start + k - off] else old(buf[k])
    {
      var val := ReadByte(c, start * 8 + i * 8);
      assert val == ByteAt(c.image[..], start + i) == hidden[start + i];
      buf[off + i] := val;
    }
  }

  /** The inner loop of `write_to_carrier`: the eight bits of one byte. */
  method WriteByte(c: Carrier, g0: nat, b: byte)
    requires IsCarrier(c) && g0 + 8 <= c.capacityBits
    modifies c.image
    ensures IsWritten(old(c.image[..]), c.image[..], g0, [b])
  {
    CarrierSizes(c);
    hide IsCarrier, IsWritten, Mask, TestBit, SetLow, Channel, ChannelByPixel, BitsWritten;
    ghost var before := c.image[..];
    NoBitWritten(before, g0, b);
    for bit := 0 to 8
      invariant BitsWritten(before, c.image[..], g0, b, bit)
    {
      var g := g0 + bit;
      ChannelInRange(c.image[..], g);
      PixelOrder(c.width, g);
      var at := ChannelByPixel(c.width, g);
      BitAdded(before, c.image[..], g0, b, bit);
      ghost var now := c.image[..];
      c.image[at] := SetLow(c.image[at], TestBit(b, bit));
      assert c.image[..] == now[at := SetLow(now[at], TestBit(b, bit))];
    }
    AllBitsWritten(before, c.image[..], g0, b);
  }

  /** The first n bits of b have been written from bit g0 on. */
  ghost predicate BitsWritten(before: seq<byte>, after: seq<byte>, g0: nat, b: byte, n: nat) {
    |before| == |after| && n <= 8 && forall j :: 0 <= j < |before| ==>
      after[j] == if j % 4 != 3 && g0 <= BitOf(j) < g0 + n then SetLow(before[j], TestBit(b, BitOf(j) - g0)) else before[j]
  }

  lemma NoBitWritten(before: seq<byte>, g0: nat, b: byte)
    ensures BitsWritten(before, before, g0, b, 0)
  {
  }

  lemma BitAdded(before: seq<byte>, now: seq<byte>, g0: nat, b: byte, n: nat)
    requires BitsWritten(before, now, g0, b, n) && n < 8 && Channel(g0 + n) < |now|
    ensures var at := Channel(g0 + n); BitsWritten(before, now[at := SetLow(now[at], TestBit(b, n))], g0, b, n + 1)
  {
    hide Channel, BitOf, SetLow, TestBit;
    ChannelOfBit(g0 + n);
    BitsApart(|now|, g0 + n);
  }

  lemma AllBitsWritten(before: seq<byte>, after: seq<byte>, g0: nat, b: byte)
    requires BitsWritten(before, after, g0, b, 8)
    ensures IsWritten(before, after, g0, [b])
  {
    hide BitOf, SetLow, TestBit;
  }

  lemma BitsApart(n: nat, g: nat)
    ensures forall j: nat :: j < n && j % 4 != 3 && BitOf(j) == g ==> j == Channel(g)
  {
    forall j: nat | j < n && j % 4 != 3 && BitOf(j) == g ensures j == Channel(g) {
      DivModUnique(g, 3, j / 4, j % 4);
    }
  }

  lemma WrittenMore(a: seq<byte>, b: seq<byte>, c: seq<byte>, g0: nat, data: seq<byte>, x: byte)
    requires IsWritten(a, b, g0, data) && IsWritten(b, c, g0 + 8 * |data|, [x])
    ensures IsWritten(a, c, g0, data + [x])
  {
    forall j | 0 <= j < |a| ensures c[j] == Written(a[j], j, g0, data + [x]) {
      assert b[j] == Written(a[j], j, g0, data);
      var g := BitOf(j);
      if g0 + 8 * |data| <= g < g0 + 8 * |data| + 8 {
        DivModUnique(g - g0, 8, |data|, g - g0 - 8 * |data|);
      }
    }
  }

  /** `write_to_carrier`. */
  method WriteToCarrier(c: Carrier, start: nat, data: seq<byte>)
    requires IsCarrier(c) && start + |data| <= c.capacityBytes
    modifies c.image
    ensures Hidden(c.image[..]) == Overwrite(Hidden(old(c.image[..])), start, data)
    ensures OnlyLowBits(old(c.image[..]), c.image[..])
  {
    hide SetLow;
    for i := 0 to |data|
      invariant IsWritten(old(c.image[..]), c.image[..], 8 * start, data[..i])
    {
      label Before:
      WriteByte(c, start * 8 + i * 8, data[i]);
      WrittenMore(old(c.image[..]), old@Before(c.image[..]), c.image[..], 8 * start, data[..i], data[i]);
      assert data[..i] + [data[i]] == data[..i + 1];
    }
    assert data[..|data|] == data;
    WrittenLow(old(c.image[..]), c.image[..], 8 * start, data);
    WrittenHidden(old(c.image[..]), c.image[..], start, data);
  }
}
