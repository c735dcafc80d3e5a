/**
 The byte formats of the storage engine (prog2/libhydra/src/wal.rs, sstable.rs):
 length-prefixed entries with 32-bit little-endian lengths.
*/
module LsmFormat {
  import opened Wrappers

  type u8 = x: int | 0 <= x < 256

  const TWO32: nat := 0x1_0000_0000

  datatype Entry = Entry(key: seq<u8>, value: seq<u8>)

  datatype Error = UnexpectedEof | InvalidData

  function LowByte(n: nat): u8 {
    var low: nat := n % 256;
    low
  }

  /** `(n as u32).to_le_bytes()` */
  function Le32(n: nat): (b: seq<u8>)
    ensures |b| == 4
  {
    [LowByte(n), LowByte(n / 256), LowByte(n / 65536), LowByte(n / 16777216)]
  }

  /** `u32::from_le_bytes` */
  function FromLe32(b: seq<u8>): (n: nat)
    requires |b| == 4
    ensures n < TWO32
  {
    var b0: nat, b1: nat, b2: nat, b3: nat := b[0], b[1], b[2], b[3];
    b0 + 256 * b1 + 65536 * b2 + 16777216 * b3
  }

  /** A length survives modulo 2^32. */
  lemma LengthRoundTrip(n: nat)
    ensures FromLe32(Le32(n)) == n % TWO32
  {
    var q1, q2, q3 := n / 256, n / 65536, n / 16777216;
    assert q2 == q1 / 256 && q3 == q2 / 256;
    assert n == 256 * q1 + n % 256 && q1 == 256 * q2 + q1 % 256 && q2 == 256 * q3 + q2 % 256;
    assert q3 == 256 * (q3 / 256) + q3 % 256;
    assert n == TWO32 * (q3 / 256) + FromLe32(Le32(n));
  }

  function Encode(e: Entry): seq<u8> {
    Le32(|e.key|) + e.key + Le32(|e.value|) + e.value
  }

  function EncodeAll(es: seq<Entry>): seq<u8> {
    if es == [] then [] else EncodeAll(es[..|es| - 1]) + Encode(es[|es| - 1])
  }

  /** Both lengths fit in 32 bits. */
  predicate Fits(e: Entry) {
    |e.key| < TWO32 && |e.value| < TWO32
  }

  /** A length and that many bytes, and what follows them. */
  function ReadField(b: seq<u8>): (r: Result<(seq<u8>, seq<u8>), Error>)
    ensures r.Ok? ==> |r.value.1| < |b|
  {
    if |b| < 4 then Err(UnexpectedEof)
    else
      var n, rest := FromLe32(b[..4]), b[4..];
      if |rest| < n then Err(UnexpectedEof) else Ok((rest[..n], rest[n..]))
  }

  /** The two `read_exact` calls for a field. */
  method ReadExact(b: seq<u8>) returns (r: Result<(seq<u8>, seq<u8>), Error>)
    ensures r == ReadField(b)
  {
    if |b| < 4 { return Err(UnexpectedEof); }
    var n := FromLe32(b[..4]);
    if |b[4..]| < n { return Err(UnexpectedEof); }
    return Ok((b[4..][..n], b[4..][n..]));
  }

  /** One turn of the loop of `recover`, on the bytes from the cursor on. */
  datatype Item = End | Bad(error: Error) | Got(entry: Entry, rest: seq<u8>)

  function ReadItem(b: seq<u8>, utf8: seq<u8> -> bool): (r: Item)
    ensures r.Got? ==> |r.rest| < |b|
  {
    if |b| < 4 then End
    else
      match ReadField(b)
      case Err(e) => Bad(e)
      case Ok((key, b2)) =>
        if !utf8(key) then Bad(InvalidData)
        else
          match ReadField(b2)
          case Err(e) => Bad(e)
          case Ok((value, rest)) => Got(Entry(key, value), rest)
  }

  /** `recover`: the entries handed to the callback, or the error it ends with. */
  function Parse(b: seq<u8>, utf8: seq<u8> -> bool): Result<seq<Entry>, Error>
    decreases |b|
  {
    match ReadItem(b, utf8)
    case End => Ok([])
    case Bad(e) => Err(e)
    case Got(entry, rest) => Prepend([entry], Parse(rest, utf8))
  }

  function Prepend(es: seq<Entry>, r: Result<seq<Entry>, Error>): Result<seq<Entry>, Error> {
    match r
    case Ok(more) => Ok(es + more)
    case Err(e) => Err(e)
  }

  /** The loop of `recover`. */
  method Recover(file: seq<u8>, utf8: seq<u8> -> bool) returns (r: Result<seq<Entry>, Error>)
    ensures r == Parse(file, utf8)
  {
    var entries: seq<Entry> := [];
    var rest := file;
    PrependNothing(Parse(file, utf8));
    while true
      invariant Parse(file, utf8) == Prepend(entries, Parse(rest, utf8))
      decreases |rest|
    {
      if |rest| < 4 {
        assert entries + [] == entries;
        return Ok(entries);
      }
      var key := ReadExact(rest);
      if key.Err? { return Err(key.error); }
      if !utf8(key.value.0) { return Err(InvalidData); }
      var value := ReadExact(key.value.1);
      if value.Err? { return Err(value.error); }
      var entry := Entry(key.value.0, value.value.0);
      assert ReadItem(rest, utf8) == Got(entry, value.value.1);
      PrependTwice(entries, [entry], Parse(value.value.1, utf8));
      entries := entries + [entry];
      rest := value.value.1;
    }
  }

  lemma PrependNothing(r: Result<seq<Entry>, Error>)
    ensures Prepend([], r) == r
  {
    if r.Ok? { assert [] + r.value == r.value; }
  }

  lemma PrependTwice(a: seq<Entry>, b: seq<Entry>, r: Result<seq<Entry>, Error>)
    ensures Prepend(a, Prepend(b, r)) == Prepend(a + b, r)
  {
    match r {
      case Ok(more) => assert a + (b + more) == (a + b) + more;
      case Err(_) =>
    }
  }

  // ---------- round trip ----------

  lemma HeadTail(a: seq<u8>, b: seq<u8>)
    ensures (a + b)[..|a|] == a && (a + b)[|a|..] == b
  {
  }

  /** An encoded field, and what follows it. */
  function Field(x: seq<u8>, tail: seq<u8>): (b: seq<u8>)
    ensures |b| == 4 + |x| + |tail|
  {
    Le32(|x|) + (x + tail)
  }

  lemma EncodeIsFields(e: Entry, tail: seq<u8>)
    ensures Encode(e) + tail == Field(e.key, Field(e.value, tail))
  {
    assert Encode(e) + tail == Le32(|e.key|) + (e.key + (Le32(|e.value|) + (e.value + tail)));
  }

  /** The length read is the length written, modulo 2^32. */
  lemma FieldLength(x: seq<u8>, tail: seq<u8>)
    ensures FromLe32(Field(x, tail)[..4]) == |x| % TWO32 && Field(x, tail)[4..] == x + tail
  {
    HeadTail(Le32(|x|), x + tail);
    LengthRoundTrip(|x|);
  }

  lemma FieldRead(x: seq<u8>, tail: seq<u8>)
    ensures |x| < TWO32 ==> ReadField(Field(x, tail)) == Ok((x, tail))
    ensures |x| >= TWO32 ==> ReadField(Field(x, tail)).Ok? && |ReadField(Field(x, tail)).value.0| < TWO32
  {
    hide Field;
    FieldLength(x, tail);
    HeadTail(x, tail);
  }

  lemma ReadEncoded(e: Entry, tail: seq<u8>, utf8: seq<u8> -> bool)
    requires Fits(e) && utf8(e.key)
    ensures ReadItem(Encode(e) + tail, utf8) == Got(e, tail)
  {
    hide Field, ReadField, Encode;
    EncodeIsFields(e, tail);
    FieldRead(e.key, Field(e.value, tail));
    FieldRead(e.value, tail);
  }

  /** An entry with a length of 2^32 or more is never read back. */
  lemma MisreadLarge(e: Entry, tail: seq<u8>, utf8: seq<u8> -> bool)
    requires !Fits(e)
    ensures var r := ReadItem(Encode(e) + tail, utf8); !r.End? && (r.Got? ==> r.entry != e)
  {
    hide Field, ReadField, Encode;
    EncodeIsFields(e, tail);
    FieldRead(e.key, Field(e.value, tail));
    FieldRead(e.value, tail);
  }

  ghost predicate AllFit(es: seq<Entry>) {
    forall i :: 0 <= i < |es| ==> Fits(es[i])
  }

  lemma EncodeLast(es: seq<Entry>)
    requires es != []
    ensures EncodeAll(es) == EncodeAll(es[..|es| - 1]) + Encode(es[|es| - 1])
  {
  }

  lemma EncodeNone()
    ensures EncodeAll([]) == []
  {
  }

  lemma {:induction false} EncodeHead(es: seq<Entry>)
    requires es != []
    ensures EncodeAll(es) == Encode(es[0]) + EncodeAll(es[1..])
  {
    hide Encode, EncodeAll;
    var k := |es| - 1;
    EncodeLast(es);
    if k == 0 {
      EncodeNone();
      assert es[..0] == [] && es[1..] == [];
    } else {
      EncodeHead(es[..k]);
      EncodeLast(es[1..]);
      assert es[..k][1..] == es[1..][..k - 1];
    }
  }

  lemma TailFits(es: seq<Entry>)
    requires es != []
    ensures AllFit(es) <==> Fits(es[0]) && AllFit(es[1..])
  {
    assert es == [es[0]] + es[1..];
  }

  lemma ParseStep(b: seq<u8>, utf8: seq<u8> -> bool)
    ensures match ReadItem(b, utf8)
      case End => Parse(b, utf8) == Ok([])
      case Bad(e) => Parse(b, utf8) == Err(e)
      case Got(e, rest) => Parse(b, utf8) == Prepend([e], Parse(rest, utf8))
  {
  }

  lemma PrependIs(e: Entry, r: Result<seq<Entry>, Error>, es: seq<Entry>)
    requires es != []
    ensures Prepend([e], r) == Ok(es) <==> e == es[0] && r == Ok(es[1..])
  {
    if r.Ok? {
      assert ([e] + r.value)[1..] == r.value;
      assert es == [es[0]] + es[1..];
    }
  }

  /** Replaying the log gives back exactly what was appended, if and only if every
      key and value is shorter than 2^32 bytes. */
  lemma {:induction false} LogRoundTrip(es: seq<Entry>, utf8: seq<u8> -> bool)
    requires forall i :: 0 <= i < |es| ==> utf8(es[i].key)
    ensures Parse(EncodeAll(es), utf8) == Ok(es) <==> AllFit(es)
  {
    hide Encode, ReadItem, Parse, Prepend;
    ParseStep(EncodeAll(es), utf8);
    if es == [] {
      ParseNothing(utf8);
    } else {
      EncodeHead(es);
      TailFits(es);
      var tail := EncodeAll(es[1..]);
      if Fits(es[0]) {
        ReadEncoded(es[0], tail, utf8);
        LogRoundTrip(es[1..], utf8);
        PrependIs(es[0], Parse(tail, utf8), es);
      } else {
        MisreadLarge(es[0], tail, utf8);
        var r := ReadItem(Encode(es[0]) + tail, utf8);
        if r.Got? { PrependIs(r.entry, Parse(r.rest, utf8), es); }
      }
    }
  }

  lemma ParseNothing(utf8: seq<u8> -> bool)
    ensures Parse([], utf8) == Ok([])
  {
  }

  /** The log is read back in front of whatever follows it. */
  lemma {:induction false} ParsePrefix(es: seq<Entry>, tail: seq<u8>, utf8: seq<u8> -> bool)
    requires AllFit(es) && forall i :: 0 <= i < |es| ==> utf8(es[i].key)
    ensures Parse(EncodeAll(es) + tail, utf8) == Prepend(es, Parse(tail, utf8))
  {
    hide Encode, ReadItem, Parse;
    if es == [] {
      EncodeNone();
      assert [] + tail == tail;
      PrependNothing(Parse(tail, utf8));
    } else {
      EncodeHead(es);
      TailFits(es);
      var rest := EncodeAll(es[1..]) + tail;
      assert EncodeAll(es) + tail == Encode(es[0]) + rest;
      ReadEncoded(es[0], rest, utf8);
      ParseStep(EncodeAll(es) + tail, utf8);
      ParsePrefix(es[1..], tail, utf8);
      PrependTwice([es[0]], es[1..], Parse(tail, utf8));
      assert [es[0]] + es[1..] == es;
    }
  }

  /** A field cut short cannot be read. */
  lemma TornField(x: seq<u8>, tail: seq<u8>, n: nat)
    requires |x| < TWO32 && n < 4 + |x|
    ensures ReadField(Field(x, tail)[..n]) == Err(UnexpectedEof)
  {
    if n >= 4 {
      assert Field(x, tail)[..n][..4] == Le32(|x|);
      LengthRoundTrip(|x|);
    }
  }

  lemma FieldPrefix(x: seq<u8>, tail: seq<u8>, n: nat)
    requires 4 + |x| <= n <= 4 + |x| + |tail|
    ensures Field(x, tail)[..n] == Field(x, tail[..n - 4 - |x|])
  {
  }

  lemma TornItem(e: Entry, n: nat, utf8: seq<u8> -> bool)
    requires Fits(e) && utf8(e.key) && n < |Encode(e)|
    ensures ReadItem(Encode(e)[..n], utf8) == if n < 4 then End else Bad(UnexpectedEof)
  {
    EncodeIsFields(e, []);
    assert Encode(e) + [] == Encode(e);
    var value := Field(e.value, []);
    if n < 4 + |e.key| {
      TornField(e.key, value, n);
    } else {
      var m := n - 4 - |e.key|;
      FieldPrefix(e.key, value, n);
      FieldRead(e.key, value[..m]);
      TornField(e.value, [], m);
    }
  }

  /** After a crash in the middle of an append, the log can be replayed if and only if
      fewer than four bytes of the append reached the file. */
  lemma TornAppend(es: seq<Entry>, e: Entry, n: nat, utf8: seq<u8> -> bool)
    requires AllFit(es) && Fits(e) && utf8(e.key) && forall i :: 0 <= i < |es| ==> utf8(es[i].key)
    requires n < |Encode(e)|
    ensures Parse(EncodeAll(es) + Encode(e)[..n], utf8) == if n < 4 then Ok(es) else Err(UnexpectedEof)
  {
    hide Encode, ReadItem, Parse;
    var tail := Encode(e)[..n];
    ParsePrefix(es, tail, utf8);
    TornItem(e, n, utf8);
    ParseStep(tail, utf8);
    assert es + [] == es;
  }

  // ---------- SSTables ----------

  const MAGIC: seq<u8> := [72, 89, 68, 82]

  /** `SSTable::create`. */
  method CreateTable(data: seq<Entry>) returns (file: seq<u8>)
    ensures |file| >= 8 && file[..4] == [72, 89, 68, 82] && FromLe32(file[4..8]) == |data| % TWO32
    ensures file[8..] == EncodeAll(data)
    ensures file == TableBytes(data)
  {
    file := MAGIC;
    file := file + Le32(|data|);
    for i := 0 to |data|
      invariant file == MAGIC + Le32(|data|) + EncodeAll(data[..i])
    {
      assert data[..i + 1][..i] == data[..i];
      file := file + Le32(|data[i].key|);
      file := file + data[i].key;
      file := file + Le32(|data[i].value|);
      file := file + data[i].value;
      assert file == MAGIC + Le32(|data|) + (EncodeAll(data[..i]) + Encode(data[i]));
    }
    assert data[..|data|] == data;
    assert file[4..8] == Le32(|data|);
    LengthRoundTrip(|data|);
  }

  function TableBytes(data: seq<Entry>): seq<u8> {
    MAGIC + Le32(|data|) + EncodeAll(data)
  }

  /** What follows a field that is not read. */
  function Skip(b: seq<u8>): seq<u8>
    requires |b| >= 4
  {
    var n, rest := FromLe32(b[..4]), b[4..];
    if n <= |rest| then rest[n..] else []
  }

  /** The scan of `SSTable::get` over `count` entries: a value that does not match is
      skipped with a seek, which may pass the end of the file. */
  function Scan(b: seq<u8>, count: nat, key: seq<u8>): Result<Option<seq<u8>>, Error>
    decreases count
  {
    if count == 0 then Ok(None)
    else if |b| < 4 then Err(UnexpectedEof)
    else
      match ReadField(b)
      case Err(e) => Err(e)
      case Ok((found, b2)) =>
        if |b2| < 4 then Err(UnexpectedEof)
        else if found == key then
          match ReadField(b2) { case Err(e) => Err(e) case Ok((value, _)) => Ok(Some(value)) }
        else Scan(Skip(b2), count - 1, key)
  }

  function TableGet(file: seq<u8>, key: seq<u8>): Result<Option<seq<u8>>, Error> {
    if |file| < 4 then Err(UnexpectedEof)
    else if file[..4] != MAGIC then Err(InvalidData)
    else if |file| < 8 then Err(UnexpectedEof)
    else Scan(file[8..], FromLe32(file[4..8]), key)
  }

  /** One turn of the scan. */
  lemma ScanStep(b: seq<u8>, count: nat, key: seq<u8>)
    requires count > 0
    ensures var field := ReadField(b);
      if field.Err? then Scan(b, count, key) == Err(UnexpectedEof)
      else if |field.value.1| < 4 then Scan(b, count, key) == Err(UnexpectedEof)
      else if field.value.0 != key then Scan(b, count, key) == Scan(Skip(field.value.1), count - 1, key)
      else if ReadField(field.value.1).Err? then Scan(b, count, key) == Err(UnexpectedEof)
      else Scan(b, count, key) == Ok(Some(ReadField(field.value.1).value.0))
  {
  }

  /** `SSTable::get`, with its file cursor. */
  method Get(file: seq<u8>, key: seq<u8>) returns (r: Result<Option<seq<u8>>, Error>)
    ensures |file| < 4 || (|file| < 8 && file[..4] == [72, 89, 68, 82]) ==> r == Err(UnexpectedEof)
    ensures |file| >= 4 && file[..4] != [72, 89, 68, 82] ==> r == Err(InvalidData)
    ensures r == TableGet(file, key)
  {
    hide Scan, Skip, FromLe32;
    if |file| < 4 { return Err(UnexpectedEof); }
    if file[..4] != MAGIC { return Err(InvalidData); }
    if |file| < 8 { return Err(UnexpectedEof); }
    var count := FromLe32(file[4..8]);
    var rest := file[8..];
    for i := 0 to count
      invariant TableGet(file, key) == Scan(rest, count - i, key)
    {
      ScanStep(rest, count - i, key);
      var found := ReadExact(rest);
      if found.Err? { return Err(found.error); }
      var b2 := found.value.1;
      if |b2| < 4 { return Err(UnexpectedEof); }
      if found.value.0 == key {
        var value := ReadExact(b2);
        if value.Err? { return Err(value.error); }
        return Ok(Some(value.value.0));
      }
      rest := Skip(b2);
    }
    ScanNone(rest, key);
    return Ok(None);
  }

  /** The value of the first entry with the key, among the first `count`. */
  function Find(data: seq<Entry>, count: nat, key: seq<u8>): Option<seq<u8>>
    requires count <= |data|
  {
    if count == 0 then None
    else if data[0].key == key then Some(data[0].value)
    else Find(data[1..], count - 1, key)
  }

  lemma ScanEncoded(e: Entry, tail: seq<u8>, count: nat, key: seq<u8>)
    requires Fits(e) && count > 0
    ensures Scan(Encode(e) + tail, count, key) == if e.key == key then Ok(Some(e.value)) else Scan(tail, count - 1, key)
  {
    hide Field, ReadField, Encode, Skip;
    EncodeIsFields(e, tail);
    FieldRead(e.key, Field(e.value, tail));
    FieldRead(e.value, tail);
    FieldSkipped(e.value, tail);
  }

  lemma FieldSkipped(x: seq<u8>, tail: seq<u8>)
    requires |x| < TWO32
    ensures Skip(Field(x, tail)) == tail
  {
    hide Field;
    FieldLength(x, tail);
    HeadTail(x, tail);
  }

  lemma {:induction false} ScanFinds(data: seq<Entry>, count: nat, key: seq<u8>)
    requires AllFit(data) && count <= |data|
    ensures Scan(EncodeAll(data), count, key) == Ok(Find(data, count, key))
  {
    hide Scan, Encode, EncodeAll, AllFit, Find;
    FindStep(data, count, key);
    if count == 0 {
      ScanNone(EncodeAll(data), key);
    } else {
      EncodeHead(data);
      TailFits(data);
      ScanEncoded(data[0], EncodeAll(data[1..]), count, key);
      ScanFinds(data[1..], count - 1, key);
    }
  }

  lemma FindStep(data: seq<Entry>, count: nat, key: seq<u8>)
    requires count <= |data|
    ensures count == 0 ==> Find(data, count, key) == None
    ensures count > 0 && data[0].key == key ==> Find(data, count, key) == Some(data[0].value)
    ensures count > 0 && data[0].key != key ==> Find(data, count, key) == Find(data[1..], count - 1, key)
  {
  }

  lemma ScanNone(b: seq<u8>, key: seq<u8>)
    ensures Scan(b, 0, key) == Ok(None)
  {
  }

  /** A lookup agrees with the flushed list, as far as the 32-bit count reaches. */
  lemma TableAgrees(data: seq<Entry>, key: seq<u8>)
    requires AllFit(data)
    ensures |data| % TWO32 <= |data|
    ensures TableGet(TableBytes(data), key) == Ok(Find(data, |data| % TWO32, key))
  {
    hide Scan, Find, EncodeAll, AllFit;
    var file := TableBytes(data);
    assert file[..4] == MAGIC && file[4..8] == Le32(|data|) && file[8..] == EncodeAll(data);
    LengthRoundTrip(|data|);
    ScanFinds(data, |data| % TWO32, key);
  }
}
