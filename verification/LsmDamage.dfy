/**
 The storage engine's files byte by byte, and what reading a damaged one does.
*/
module LsmDamage {
  import opened Wrappers
  import opened LsmFormat

  /** Byte j of a number, the lowest first. */
  function ByteOf(n: nat, j: nat): nat {
    if j == 0 then n % 256 else ByteOf(n / 256, j - 1)
  }

  /** Lengths are stored lowest byte first. */
  lemma LittleEndian(n: nat, j: nat)
    requires j < 4
    ensures Le32(n)[j] == ByteOf(n, j)
  {
    assert n / 65536 == n / 256 / 256 && n / 16777216 == n / 256 / 256 / 256;
    assert ByteOf(n, 1) == n / 256 % 256;
    assert ByteOf(n / 256, 1) == n / 256 / 256 % 256;
    assert ByteOf(n / 256 / 256, 1) == n / 256 / 256 / 256 % 256;
  }

  /** An entry is its key's length, its key, its value's length and its value. */
  lemma EntryLayout(e: Entry)
    ensures var b, k := Encode(e), |e.key|;
      && |b| == 8 + k + |e.value| && b[4..4 + k] == e.key && b[8 + k..] == e.value
      && (forall j :: 0 <= j < 4 ==> b[j] == ByteOf(k, j) && b[4 + k + j] == ByteOf(|e.value|, j))
  {
    forall j | 0 <= j < 4 ensures Encode(e)[j] == ByteOf(|e.key|, j) && Encode(e)[4 + |e.key| + j] == ByteOf(|e.value|, j) {
      LittleEndian(|e.key|, j);
      LittleEndian(|e.value|, j);
    }
  }

  /** Replay stops with an error at the first key that is not UTF-8, whatever follows. */
  lemma BadKey(es: seq<Entry>, e: Entry, tail: seq<u8>, utf8: seq<u8> -> bool)
    requires AllFit(es) && forall i :: 0 <= i < |es| ==> utf8(es[i].key)
    requires Fits(e) && !utf8(e.key)
    ensures Parse(EncodeAll(es) + (Encode(e) + tail), utf8) == Err(InvalidData)
  {
    hide Encode, ReadField, Field;
    ParsePrefix(es, Encode(e) + tail, utf8);
    EncodeIsFields(e, tail);
    FieldRead(e.key, Field(e.value, tail));
    assert |Encode(e) + tail| >= 4;
  }

  // ---------- a table cut short ----------

  /** Reading n bytes of an entry: a key that is not all there, and a value asked for, end the
      scan; a value not asked for is skipped, past the end of the file. */
  lemma TornScan(e: Entry, n: nat, count: nat, key: seq<u8>)
    requires Fits(e) && n < |Encode(e)| && count > 0
    ensures Scan(Encode(e)[..n], count, key) ==
      if n < 8 + |e.key| || e.key == key || count > 1 then Err(UnexpectedEof) else Ok(None)
  {
    hide Scan, Encode, Skip;
    EncodeIsFields(e, []);
    assert Encode(e) + [] == Encode(e);
    var value, b := Field(e.value, []), Encode(e)[..n];
    ScanStep(b, count, key);
    if n < 4 + |e.key| {
      TornField(e.key, value, n);
    } else {
      var m := n - 4 - |e.key|;
      FieldPrefix(e.key, value, n);
      FieldRead(e.key, value[..m]);
      TornField(e.value, [], m);
      if m >= 4 {
        SkipTorn(e.value, m);
        if count > 1 { ScanStep([], count - 1, key); } else { ScanNone([], key); }
      }
    }
  }

  lemma SkipTorn(x: seq<u8>, m: nat)
    requires |x| < TWO32 && 4 <= m < 4 + |x|
    ensures Skip(Field(x, [])[..m]) == []
  {
    hide Field, FromLe32;
    FieldLength(x, []);
    assert Field(x, [])[..m][..4] == Field(x, [])[..4];
  }

  /** Entries with other keys are passed over. */
  lemma {:induction false} ScanPasses(data: seq<Entry>, tail: seq<u8>, count: nat, key: seq<u8>)
    requires AllFit(data) && |data| <= count && forall j :: 0 <= j < |data| ==> data[j].key != key
    ensures Scan(EncodeAll(data) + tail, count, key) == Scan(tail, count - |data|, key)
  {
    hide Scan, Encode, EncodeAll, AllFit;
    if data == [] {
      EncodeNone();
      assert [] + tail == tail;
    } else {
      EncodeHead(data);
      TailFits(data);
      var rest := EncodeAll(data[1..]) + tail;
      assert EncodeAll(data) + tail == Encode(data[0]) + rest;
      ScanEncoded(data[0], rest, count, key);
      ScanPasses(data[1..], tail, count - 1, key);
    }
  }

  /** A table cut off n bytes into entry i: a key found before is found still; any other lookup
      fails, except that of a key found nowhere when only the last value is cut. */
  lemma TornTable(data: seq<Entry>, i: nat, n: nat, key: seq<u8>)
    requires AllFit(data) && |data| < TWO32 && i < |data| && n < |Encode(data[i])|
    requires forall j :: 0 <= j < i ==> data[j].key != key
    ensures var file := MAGIC + Le32(|data|) + (EncodeAll(data[..i]) + Encode(data[i])[..n]);
      && file <= TableBytes(data)
      && TableGet(file, key) ==
           if n < 8 + |data[i].key| || data[i].key == key || i + 1 < |data| then Err(UnexpectedEof) else Ok(None)
  {
    hide Scan, Encode, EncodeAll, AllFit, FromLe32, Le32;
    var body := EncodeAll(data[..i]) + Encode(data[i])[..n];
    var file := MAGIC + Le32(|data|) + body;
    assert file[..4] == MAGIC && file[4..8] == Le32(|data|) && file[8..] == body;
    EncodeSplit(data, i, n);
    LengthRoundTrip(|data|);
    SomeFit(data, i);
    ScanPasses(data[..i], Encode(data[i])[..n], |data|, key);
    TornScan(data[i], n, |data| - i, key);
  }

  lemma SomeFit(data: seq<Entry>, i: nat)
    requires AllFit(data) && i < |data|
    ensures AllFit(data[..i]) && Fits(data[i])
  {
  }

  /** The bytes up to and into entry i. */
  lemma EncodeSplit(data: seq<Entry>, i: nat, n: nat)
    requires i < |data| && n < |Encode(data[i])|
    ensures EncodeAll(data[..i]) + Encode(data[i])[..n] <= EncodeAll(data)
  {
    hide Encode, EncodeAll;
    var _ := EncodeFrom(data, i);
  }

  lemma {:induction false} EncodeFrom(data: seq<Entry>, i: nat) returns (tail: seq<u8>)
    requires i < |data|
    ensures EncodeAll(data) == EncodeAll(data[..i]) + Encode(data[i]) + tail
    decreases |data|
  {
    hide Encode, EncodeAll;
    var init := data[..|data| - 1];
    EncodeLast(data);
    if i == |init| {
      tail := [];
    } else {
      var more := EncodeFrom(init, i);
      assert init[..i] == data[..i];
      tail := more + Encode(data[|data| - 1]);
    }
  }
}
