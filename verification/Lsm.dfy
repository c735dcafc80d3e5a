/**
 The storage engine (prog2/libhydra/src/engine.rs, memtable.rs): a write-ahead
 log, a memtable and flushed tables that together always hold the newest values.
*/
module Lsm {
  import opened LsmFormat
  import opened Wrappers

  type Table = map<seq<u8>, seq<u8>>

  const FLUSH_LIMIT: nat := 1048576

  /** The map that a list of entries writes, later ones over earlier ones. */
  function MapOf(es: seq<Entry>): Table {
    if es == [] then map[] else MapOf(es[..|es| - 1])[es[|es| - 1].key := es[|es| - 1].value]
  }

  /** Tables laid over one another, oldest first. */
  function Overlay(tables: seq<seq<Entry>>): Table {
    if tables == [] then map[] else Overlay(tables[..|tables| - 1]) + MapOf(tables[|tables| - 1])
  }

  function Lookup(m: Table, key: seq<u8>): Option<seq<u8>> {
    if key in m then Some(m[key]) else None
  }

  // ---------- the order of keys ----------

  /** A proper prefix comes first, otherwise the first byte that differs decides. */
  predicate Precedes(a: seq<u8>, b: seq<u8>) {
    b != [] && (a == [] || a[0] < b[0] || (a[0] == b[0] && Precedes(a[1..], b[1..])))
  }

  lemma {:induction false} PrecedesOrder(a: seq<u8>, b: seq<u8>)
    ensures Precedes(a, b) || Precedes(b, a) || a == b
    ensures Precedes(a, b) ==> a != b && !Precedes(b, a)
  {
    if a != [] && b != [] {
      PrecedesOrder(a[1..], b[1..]);
      assert a[0] == b[0] && a[1..] == b[1..] ==> a == [a[0]] + a[1..] == b;
    }
  }

  lemma {:induction false} PrecedesTransitive(a: seq<u8>, b: seq<u8>, c: seq<u8>)
    requires Precedes(a, b) && Precedes(b, c)
    ensures Precedes(a, c)
  {
    if a != [] && a[0] == b[0] == c[0] { PrecedesTransitive(a[1..], b[1..], c[1..]); }
  }

  predicate IsLeast(s: set<seq<u8>>, k: seq<u8>) {
    forall j :: j in s ==> j == k || Precedes(k, j)
  }

  lemma {:induction false} HasLeast(s: set<seq<u8>>)
    requires s != {}
    ensures exists k :: k in s && IsLeast(s, k)
  {
    var x :| x in s;
    var rest := s - {x};
    if rest == {} {
      assert s == {x} && IsLeast(s, x);
    } else {
      HasLeast(rest);
      var k :| k in rest && IsLeast(rest, k);
      PrecedesOrder(x, k);
      if Precedes(x, k) {
        forall j | j in s && j != x ensures Precedes(x, j) {
          if j != k { PrecedesTransitive(x, k, j); }
        }
        assert IsLeast(s, x);
      } else {
        assert IsLeast(s, k);
      }
    }
  }

  /** Strictly ascending keys. */
  ghost predicate Ascending(es: seq<Entry>) {
    forall i, j :: 0 <= i < j < |es| ==> Precedes(es[i].key, es[j].key)
  }

  ghost predicate DistinctKeys(es: seq<Entry>) {
    forall i, j :: 0 <= i < j < |es| ==> es[i].key != es[j].key
  }

  lemma AscendingDistinct(es: seq<Entry>)
    requires Ascending(es)
    ensures DistinctKeys(es)
  {
    forall i, j | 0 <= i < j < |es| ensures es[i].key != es[j].key {
      PrecedesOrder(es[i].key, es[j].key);
    }
  }

  // ---------- the size of a table ----------

  /** The summed lengths of keys and values. */
  ghost function Total(m: Table): nat {
    if m == map[] then 0
    else
      SomeKey(m);
      var k :| k in m;
      |k| + |m[k]| + Total(m - {k})
  }

  lemma SomeKey(m: Table)
    requires m != map[]
    ensures exists k :: k in m
  {
    assert (forall k :: k !in m) ==> m == map[];
  }

  lemma {:induction false} TotalWithout(m: Table, k: seq<u8>)
    requires k in m
    ensures Total(m) == |k| + |m[k]| + Total(m - {k})
    decreases |m|
  {
    SomeKey(m);
    var j :| j in m && Total(m) == |j| + |m[j]| + Total(m - {j});
    if j != k {
      TotalWithout(m - {j}, k);
      TotalWithout(m - {k}, j);
      assert m - {j} - {k} == m - {k} - {j};
    }
  }

  lemma TotalUpdate(m: Table, k: seq<u8>, v: seq<u8>)
    ensures k in m ==> Total(m) >= |m[k]|
    ensures Total(m[k := v]) == (if k in m then Total(m) - |m[k]| else Total(m) + |k|) + |v|
  {
    TotalWithout(m[k := v], k);
    if k in m {
      TotalWithout(m, k);
      assert m[k := v] - {k} == m - {k};
    } else {
      assert m[k := v] - {k} == m;
    }
  }

  lemma TotalOfNothing()
    ensures Total(map[]) == 0
  {
  }

  class MemTable {
    var entries: Table
    var size: nat

    ghost predicate Valid()
      reads this
    {
      size == Total(entries)
    }

    constructor ()
      ensures Valid() && entries == map[]
    {
      entries := map[];
      size := 0;
    }

    method Put(key: seq<u8>, value: seq<u8>)
      requires Valid()
      modifies this
      ensures Valid() && entries == old(entries)[key := value]
    {
      TotalUpdate(entries, key, value);
      if key in entries {
        size := size - |entries[key]|;
      } else {
        size := size + |key|;
      }
      entries := entries[key := value];
      size := size + |value|;
    }

    method Get(key: seq<u8>) returns (r: Option<seq<u8>>)
      ensures r == Lookup(entries, key)
    {
      return Lookup(entries, key);
    }

    method Clear()
      modifies this
      ensures Valid() && entries == map[]
    {
      entries := map[];
      size := 0;
    }

    /** `iter`: all entries, in the map's order. */
    method Iter() returns (data: seq<Entry>)
      ensures MapOf(data) == entries && Ascending(data)
    {
      data := [];
      var todo := entries.Keys;
      while todo != {}
        invariant Listed(entries, data, todo)
        decreases todo
      {
        hide Listed, IsLeast;
        HasLeast(todo);
        var k :| k in todo && IsLeast(todo, k);
        AddLeast(entries, data, todo, k);
        data := data + [Entry(k, entries[k])];
        todo := todo - {k};
      }
      assert entries - {} == entries;
    }
  }

  /** The entries listed so far: all but those still to do, which come later. */
  ghost predicate Listed(m: Table, data: seq<Entry>, todo: set<seq<u8>>) {
    todo <= m.Keys && MapOf(data) == m - todo && Ascending(data)
    && forall i, j :: 0 <= i < |data| && j in todo ==> Precedes(data[i].key, j)
  }

  lemma AddLeast(m: Table, data: seq<Entry>, todo: set<seq<u8>>, k: seq<u8>)
    requires Listed(m, data, todo) && k in todo && IsLeast(todo, k) && k in m
    ensures Listed(m, data + [Entry(k, m[k])], todo - {k})
  {
    hide Precedes;
    var after := data + [Entry(k, m[k])];
    assert after[..|data|] == data;
    assert MapOf(after) == m - (todo - {k});
  }

  // ---------- the engine ----------

  /** One more table, which holds the map. */
  ghost predicate IsFlush(before: seq<seq<Entry>>, after: seq<seq<Entry>>, m: Table) {
    |after| == |before| + 1 && after[..|before|] == before && MapOf(after[|before|]) == m
  }

  class Engine {
    const memtable: MemTable
    const utf8: seq<u8> -> bool
    var wal: seq<u8>
    var sstables: seq<seq<u8>>
    /** Everything put since the log was begun, and the flushed lists. */
    ghost var log: seq<Entry>
    ghost var tables: seq<seq<Entry>>

    /** The log's bytes are the puts'; the files are the flushed lists', keys ascending; and
        the flushed lists overlaid oldest to newest, then the memtable, are the puts' map. */
    ghost predicate Valid()
      reads this, memtable
    {
      memtable.Valid()
      && wal == EncodeAll(log)
      && (forall i :: 0 <= i < |log| ==> utf8(log[i].key))
      && |sstables| == |tables|
      && (forall i :: 0 <= i < |tables| ==> sstables[i] == TableBytes(tables[i]) && Ascending(tables[i]))
      && Overlay(tables) + memtable.entries == MapOf(log)
    }

    constructor (file: seq<u8>, isUtf8: seq<u8> -> bool)
      ensures memtable.Valid() && fresh(memtable) && memtable.entries == map[]
      ensures wal == file && utf8 == isUtf8 && sstables == [] && log == [] && tables == []
    {
      memtable := new MemTable();
      wal, utf8, sstables, log, tables := file, isUtf8, [], [], [];
    }

    method Put(key: seq<u8>, value: seq<u8>)
      requires Valid() && utf8(key)
      modifies this, memtable
      ensures Valid() && log == old(log) + [Entry(key, value)]
      ensures memtable.size <= FLUSH_LIMIT
      ensures var m := old(memtable.entries)[key := value];
        if Total(m) > FLUSH_LIMIT then memtable.entries == map[] && IsFlush(old(tables), tables, m)
        else memtable.entries == m && tables == old(tables)
    {
      hide EncodeAll, TableBytes, Overlay, MapOf, Encode, Total, Ascending;
      var e := Entry(key, value);
      PutOverlays(tables, memtable.entries, log, e);
      AppendEncodes(log, e);
      Append(key, value);
      memtable.Put(key, value);
      log := log + [e];
      if memtable.size > FLUSH_LIMIT {
        Flush();
      }
    }

    /** `WAL::append`. */
    method Append(key: seq<u8>, value: seq<u8>)
      modifies `wal
      ensures wal == old(wal) + Encode(Entry(key, value))
    {
      wal := wal + Le32(|key|);
      wal := wal + key;
      wal := wal + Le32(|value|);
      wal := wal + value;
    }

    method Flush()
      requires Valid()
      modifies this, memtable
      ensures Valid() && log == old(log) && wal == old(wal) && memtable.entries == map[] && memtable.size == 0
      ensures old(memtable.entries) == map[] ==> sstables == old(sstables) && tables == old(tables)
      ensures old(memtable.entries) != map[] ==> IsFlush(old(tables), tables, old(memtable.entries))
    {
      hide EncodeAll, TableBytes, Encode, Total, Overlay, Ascending;
      var data := memtable.Iter();
      TotalOfNothing();
      if |data| == 0 { return; }
      var file := CreateTable(data);
      FlushOverlays(tables, data);
      assert old(memtable.entries) != map[] by { assert data[|data| - 1].key in MapOf(data); }
      sstables := sstables + [file];
      tables := tables + [data];
      memtable.Clear();
      assert Overlay(tables) + map[] == Overlay(tables);
    }

    /** `get` looks in the memtable only. A value it returns is the newest; it misses a
        key that was put exactly when only flushed tables have it. */
    method Get(key: seq<u8>) returns (r: Option<seq<u8>>)
      requires Valid()
      ensures r.Some? ==> r == Lookup(MapOf(log), key)
      ensures r == Lookup(MapOf(log), key) <==> key in memtable.entries || key !in Overlay(tables)
    {
      r := memtable.Get(key);
    }

    lemma NewestByTable(key: seq<u8>)
      requires Valid() && forall i :: 0 <= i < |tables| ==> AllFit(tables[i]) && |tables[i]| < TWO32
      ensures Search(memtable.entries, sstables, key) == Ok(Lookup(MapOf(log), key))
    {
      forall i | 0 <= i < |tables| ensures DistinctKeys(tables[i]) {
        AscendingDistinct(tables[i]);
      }
      SearchOverlay(sstables, tables, key);
    }
  }

  /** `Engine::open` on an existing log file: replays it into an empty memtable. */
  method Open(file: seq<u8>, utf8: seq<u8> -> bool, ghost log: seq<Entry>) returns (r: Result<Engine, Error>)
    ensures r.Ok? <==> Parse(file, utf8).Ok?
    ensures r.Err? ==> r.error == Parse(file, utf8).error
    ensures r.Ok? ==> fresh(r.value) && fresh(r.value.memtable) && r.value.wal == file && r.value.sstables == []
    ensures r.Ok? ==> r.value.memtable.Valid() && r.value.memtable.entries == MapOf(Parse(file, utf8).value)
    ensures IsLog(file, utf8, log) ==> r.Ok? && r.value.Valid() && r.value.log == log && r.value.tables == []
  {
    hide Parse, EncodeAll, AllFit, Total;
    if IsLog(file, utf8, log) { LogRoundTrip(log, utf8); }
    var parsed := Recover(file, utf8);
    if parsed.Err? { return Err(parsed.error); }
    var engine := new Engine(file, utf8);
    for i := 0 to |parsed.value|
      invariant engine.memtable.Valid() && engine.memtable.entries == MapOf(parsed.value[..i])
      invariant engine.wal == file && engine.sstables == [] && engine.log == [] && engine.tables == []
    {
      assert parsed.value[..i + 1][..i] == parsed.value[..i];
      engine.memtable.Put(parsed.value[i].key, parsed.value[i].value);
    }
    assert parsed.value[..|parsed.value|] == parsed.value;
    engine.log := parsed.value;
    assert map[] + engine.memtable.entries == engine.memtable.entries;
    return Ok(engine);
  }

  ghost predicate IsLog(file: seq<u8>, utf8: seq<u8> -> bool, log: seq<Entry>) {
    file == EncodeAll(log) && AllFit(log) && forall i :: 0 <= i < |log| ==> utf8(log[i].key)
  }

  /** A clean reopen keeps every value: the new engine answers for the same log, and
      finds every key that was ever put. */
  method Reopen(engine: Engine) returns (r: Result<Engine, Error>)
    requires engine.Valid() && AllFit(engine.log)
    ensures r.Ok? && fresh(r.value) && r.value.Valid() && r.value.log == engine.log
    ensures r.value.memtable.entries == MapOf(engine.log)
  {
    hide Parse, EncodeAll, AllFit, Total, MapOf;
    r := Open(engine.wal, engine.utf8, engine.log);
    OverlayStep(r.value.tables);
    assert map[] + r.value.memtable.entries == r.value.memtable.entries;
  }

  // ---------- overlays ----------

  lemma PutOverlays(tables: seq<seq<Entry>>, mem: Table, log: seq<Entry>, e: Entry)
    requires Overlay(tables) + mem == MapOf(log)
    ensures Overlay(tables) + mem[e.key := e.value] == MapOf(log + [e])
  {
    assert (log + [e])[..|log|] == log;
    assert Overlay(tables) + mem[e.key := e.value] == (Overlay(tables) + mem)[e.key := e.value];
  }

  lemma AppendEncodes(log: seq<Entry>, e: Entry)
    ensures EncodeAll(log + [e]) == EncodeAll(log) + Encode(e)
  {
    assert (log + [e])[..|log|] == log;
  }

  lemma FlushOverlays(tables: seq<seq<Entry>>, data: seq<Entry>)
    ensures Overlay(tables + [data]) == Overlay(tables) + MapOf(data)
  {
    assert (tables + [data])[..|tables|] == tables;
  }

  lemma {:induction false} MapHead(es: seq<Entry>)
    requires es != []
    ensures MapOf(es) == map[es[0].key := es[0].value] + MapOf(es[1..])
  {
    var k := |es| - 1;
    if k > 0 {
      MapHead(es[..k]);
      assert es[..k][1..] == es[1..][..k - 1];
    } else {
      assert es[..0] == [];
    }
  }

  lemma {:induction false} MapKeys(es: seq<Entry>, key: seq<u8>)
    ensures key in MapOf(es) <==> exists i :: 0 <= i < |es| && es[i].key == key
  {
    if es != [] {
      MapKeys(es[..|es| - 1], key);
    }
  }

  /** With distinct keys, the scan's answer is the map's. */
  lemma {:induction false} FindIsLookup(es: seq<Entry>, key: seq<u8>)
    requires DistinctKeys(es)
    ensures Find(es, |es|, key) == Lookup(MapOf(es), key)
  {
    if es != [] {
      MapHead(es);
      FindIsLookup(es[1..], key);
      if es[0].key == key { MapKeys(es[1..], key); }
    }
  }

  /** A lookup newest first: the memtable, then the tables from the last one back. */
  function Search(mem: Table, sstables: seq<seq<u8>>, key: seq<u8>): Result<Option<seq<u8>>, Error> {
    if key in mem then Ok(Some(mem[key])) else SearchTables(sstables, key)
  }

  function SearchTables(sstables: seq<seq<u8>>, key: seq<u8>): Result<Option<seq<u8>>, Error> {
    if sstables == [] then Ok(None)
    else
      match TableGet(sstables[|sstables| - 1], key)
      case Err(e) => Err(e)
      case Ok(Some(v)) => Ok(Some(v))
      case Ok(None) => SearchTables(sstables[..|sstables| - 1], key)
  }

  /** The bytes of the flushed tables hold the overlay: looking a key up in them,
      newest first, gives the overlay's value. */
  lemma {:induction false} SearchOverlay(sstables: seq<seq<u8>>, tables: seq<seq<Entry>>, key: seq<u8>)
    requires |sstables| == |tables|
    requires forall i :: 0 <= i < |tables| ==> sstables[i] == TableBytes(tables[i]) && DistinctKeys(tables[i])
    requires forall i :: 0 <= i < |tables| ==> AllFit(tables[i]) && |tables[i]| < TWO32
    ensures SearchTables(sstables, key) == Ok(Lookup(Overlay(tables), key))
  {
    hide TableBytes, TableGet, AllFit, Find, MapOf, DistinctKeys, Overlay;
    OverlayStep(tables);
    if tables != [] {
      var k := |tables| - 1;
      TableAgrees(tables[k], key);
      assert |tables[k]| % TWO32 == |tables[k]|;
      FindIsLookup(tables[k], key);
      SearchOverlay(sstables[..k], tables[..k], key);
    }
  }

  lemma OverlayStep(tables: seq<seq<Entry>>)
    ensures tables == [] ==> Overlay(tables) == map[]
    ensures tables != [] ==> Overlay(tables) == Overlay(tables[..|tables| - 1]) + MapOf(tables[|tables| - 1])
  {
  }
}
