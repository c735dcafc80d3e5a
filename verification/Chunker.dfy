/**
 Content-defined chunking (prog8/src/storage/chunker.rs): where the cuts fall,
 and why a common stretch of two files is cut alike after a common cut.
*/
module Chunker {
  import opened RollingHash

  const MIN_CHUNK_SIZE: nat := 16384
  const MAX_CHUNK_SIZE: nat := 262144
  const BUFFER_SIZE: nat := 8192

  /** Whether the chunk that began at `start` ends after the first k bytes. */
  predicate IsCut(data: seq<u8>, start: nat, k: nat)
    requires start < k <= |data|
  {
    (Boundary(data[..k]) && k - start >= MIN_CHUNK_SIZE) || k - start >= MAX_CHUNK_SIZE
  }

  /** The last cut in the first k bytes, or 0. */
  function LastCut(data: seq<u8>, k: nat): (c: nat)
    requires k <= |data|
    ensures c <= k
  {
    if k == 0 then 0
    else
      var start := LastCut(data, k - 1);
      if IsCut(data, start, k) then k else start
  }

  /** The chunks completed by the first k bytes. */
  function Chunks(data: seq<u8>, k: nat): seq<seq<u8>>
    requires k <= |data|
  {
    if k == 0 then []
    else if LastCut(data, k) == k then Chunks(data, k - 1) + [data[LastCut(data, k - 1)..k]]
    else Chunks(data, k - 1)
  }

  /** The bytes after the last cut make a last, shorter chunk. */
  function Rest(data: seq<u8>): seq<seq<u8>> {
    var start := LastCut(data, |data|);
    if start < |data| then [data[start..]] else []
  }

  function AllChunks(data: seq<u8>): seq<seq<u8>> {
    Chunks(data, |data|) + Rest(data)
  }

  function Flatten(ss: seq<seq<u8>>): seq<u8> {
    if ss == [] then [] else Flatten(ss[..|ss| - 1]) + ss[|ss| - 1]
  }

  // ---------- cuts look back only ----------

  /** Bytes further on do not move earlier cuts. */
  lemma {:induction false} CutsLookBack(data: seq<u8>, more: seq<u8>, k: nat)
    requires k <= |data|
    ensures LastCut(data + more, k) == LastCut(data, k)
    ensures Chunks(data + more, k) == Chunks(data, k)
  {
    if k > 0 {
      CutsLookBack(data, more, k - 1);
      assert (data + more)[..k] == data[..k];
      assert (data + more)[LastCut(data, k - 1)..k] == data[LastCut(data, k - 1)..k];
    }
  }

  /** The loop's variables after a history of bytes. */
  ghost predicate Reading(history: seq<u8>, chunks: seq<seq<u8>>, buffer: seq<u8>) {
    chunks == Chunks(history, |history|) && buffer == history[LastCut(history, |history|)..]
  }

  lemma ReadByte(history: seq<u8>, chunks: seq<seq<u8>>, buffer: seq<u8>, b: u8)
    requires Reading(history, chunks, buffer)
    ensures var full := buffer + [b];
      if (Boundary(history + [b]) && |full| >= MIN_CHUNK_SIZE) || |full| >= MAX_CHUNK_SIZE
      then Reading(history + [b], chunks + [full], []) else Reading(history + [b], chunks, full)
  {
    hide Boundary;
    var k := |history|;
    var data := history + [b];
    CutsLookBack(history, [b], k);
    assert data[..k + 1] == data;
    assert data[LastCut(history, k)..k + 1] == buffer + [b];
  }

  // ---------- the loops ----------

  /** `chunk_reader`, over what the successive reads return. */
  method ChunkReader(blocks: seq<seq<u8>>) returns (chunks: seq<seq<u8>>)
    requires forall i :: 0 <= i < |blocks| ==> 0 < |blocks[i]| <= BUFFER_SIZE
    ensures chunks == AllChunks(Flatten(blocks))
  {
    hide Reading, Boundary, Chunks, LastCut, Flatten, Hash, Poly, LastWindow, AllChunks, Rest, Zeros, IsCut;
    NoBlocks();
    var chunker := new RabinChunker();
    var chunkBuffer: seq<u8> := [];
    chunks := [];
    ReadNothing();
    for i := 0 to |blocks|
      invariant Fresh(chunker) && chunker.history == Flatten(blocks[..i])
      invariant Reading(chunker.history, chunks, chunkBuffer)
    {
      NextBlock(blocks, i);
      for j := 0 to |blocks[i]|
        invariant Fresh(chunker) && chunker.history == Flatten(blocks[..i]) + blocks[i][..j]
        invariant Reading(chunker.history, chunks, chunkBuffer)
      {
        var b := blocks[i][j];
        ReadByte(chunker.history, chunks, chunkBuffer, b);
        chunkBuffer := chunkBuffer + [b];
        var boundary := chunker.PushByte(b);
        if boundary && |chunkBuffer| >= MIN_CHUNK_SIZE {
          chunks := chunks + [chunkBuffer];
          chunkBuffer := [];
        } else if |chunkBuffer| >= MAX_CHUNK_SIZE {
          chunks := chunks + [chunkBuffer];
          chunkBuffer := [];
        }
      }
    }
    assert blocks[..|blocks|] == blocks;
    ReadAll(Flatten(blocks), chunks, chunkBuffer);
    if chunkBuffer != [] {
      chunks := chunks + [chunkBuffer];
    }
  }

  lemma NoBlocks()
    ensures Flatten([]) == []
  {
  }

  lemma NextBlock(blocks: seq<seq<u8>>, i: nat)
    requires i < |blocks|
    ensures Flatten(blocks[..i + 1]) == Flatten(blocks[..i]) + blocks[i]
  {
    assert blocks[..i + 1][..i] == blocks[..i];
  }

  twostate predicate Fresh(new chunker: RabinChunker)
    reads chunker, chunker.window, chunker.powTable
  {
    chunker.Valid() && fresh(chunker) && fresh(chunker.window) && fresh(chunker.powTable)
  }

  lemma ReadNothing()
    ensures Reading([], [], [])
  {
  }

  lemma ReadAll(data: seq<u8>, chunks: seq<seq<u8>>, buffer: seq<u8>)
    requires Reading(data, chunks, buffer)
    ensures AllChunks(data) == if buffer != [] then chunks + [buffer] else chunks
  {
  }

  /** The hash, offset and length that `chunk_file_metadata` records for each chunk. */
  datatype Entry<H> = Entry(hash: H, offset: nat, length: nat)

  function Describe<H>(chunks: seq<seq<u8>>, hash: seq<u8> -> H): (r: seq<Entry<H>>)
    ensures |r| == |chunks|
  {
    if chunks == [] then []
    else
      var init, last := chunks[..|chunks| - 1], chunks[|chunks| - 1];
      Describe(init, hash) + [Entry(hash(last), |Flatten(init)|, |last|)]
  }

  lemma DescribesNothing<H>(hash: seq<u8> -> H)
    ensures Describe([], hash) == []
  {
  }

  lemma DescribeLast<H>(chunks: seq<seq<u8>>, x: seq<u8>, hash: seq<u8> -> H)
    ensures Describe(chunks + [x], hash) == Describe(chunks, hash) + [Entry(hash(x), |Flatten(chunks)|, |x|)]
    ensures |Flatten(chunks + [x])| == |Flatten(chunks)| + |x|
  {
    FlattenLast(chunks, x);
    assert (chunks + [x])[..|chunks|] == chunks;
  }

  /** `chunk_file_metadata`: the same chunks, described. */
  method ChunkFileMetadata<H>(blocks: seq<seq<u8>>, hash: seq<u8> -> H) returns (metadata: seq<Entry<H>>)
    requires forall i :: 0 <= i < |blocks| ==> 0 < |blocks[i]| <= BUFFER_SIZE
    ensures metadata == Describe(AllChunks(Flatten(blocks)), hash)
  {
    hide Reading, Boundary, Chunks, LastCut, Flatten, Describe, Hash, Poly, LastWindow, AllChunks, Rest, Zeros, IsCut;
    NoBlocks();
    DescribesNothing(hash);
    var chunker := new RabinChunker();
    var chunkBuffer: seq<u8> := [];
    metadata := [];
    var currentOffset := 0;
    ghost var chunks: seq<seq<u8>> := [];
    ReadNothing();
    for i := 0 to |blocks|
      invariant Fresh(chunker) && chunker.history == Flatten(blocks[..i])
      invariant Reading(chunker.history, chunks, chunkBuffer)
      invariant metadata == Describe(chunks, hash) && currentOffset == |Flatten(chunks)|
    {
      NextBlock(blocks, i);
      for j := 0 to |blocks[i]|
        invariant Fresh(chunker) && chunker.history == Flatten(blocks[..i]) + blocks[i][..j]
        invariant Reading(chunker.history, chunks, chunkBuffer)
        invariant metadata == Describe(chunks, hash) && currentOffset == |Flatten(chunks)|
      {
        var b := blocks[i][j];
        ReadByte(chunker.history, chunks, chunkBuffer, b);
        chunkBuffer := chunkBuffer + [b];
        var boundary := chunker.PushByte(b);
        var len := |chunkBuffer|;
        if (boundary && len >= MIN_CHUNK_SIZE) || len >= MAX_CHUNK_SIZE {
          DescribeLast(chunks, chunkBuffer, hash);
          metadata := metadata + [Entry(hash(chunkBuffer), currentOffset, len)];
          currentOffset := currentOffset + len;
          chunks := chunks + [chunkBuffer];
          chunkBuffer := [];
        }
      }
    }
    assert blocks[..|blocks|] == blocks;
    ReadAll(Flatten(blocks), chunks, chunkBuffer);
    if chunkBuffer != [] {
      DescribeLast(chunks, chunkBuffer, hash);
      metadata := metadata + [Entry(hash(chunkBuffer), currentOffset, |chunkBuffer|)];
    }
  }

  // ---------- what the chunks are ----------

  lemma {:induction false} ChunksFlatten(data: seq<u8>, k: nat)
    requires k <= |data|
    ensures Flatten(Chunks(data, k)) == data[..LastCut(data, k)]
  {
    hide IsCut;
    if k > 0 {
      ChunksFlatten(data, k - 1);
      if LastCut(data, k) == k {
        var start := LastCut(data, k - 1);
        assert data[..start] + data[start..k] == data[..k];
        assert Chunks(data, k)[..|Chunks(data, k)| - 1] == Chunks(data, k - 1);
      }
    }
  }

  lemma FlattenLast(ss: seq<seq<u8>>, x: seq<u8>)
    ensures Flatten(ss + [x]) == Flatten(ss) + x
  {
    assert (ss + [x])[..|ss|] == ss;
  }

  /** The chunks, laid end to end, are the input. */
  lemma ChunksCover(data: seq<u8>)
    ensures Flatten(AllChunks(data)) == data
  {
    hide Chunks, LastCut, Flatten;
    var start := LastCut(data, |data|);
    ChunksFlatten(data, |data|);
    if start < |data| {
      FlattenLast(Chunks(data, |data|), data[start..]);
      assert data[..start] + data[start..] == data;
    } else {
      assert data[..start] == data;
      assert AllChunks(data) == Chunks(data, |data|);
    }
  }

  /** No chunk outgrows the maximum before it is cut. */
  lemma {:induction false} OpenChunkIsShort(data: seq<u8>, k: nat)
    requires k <= |data|
    ensures k - LastCut(data, k) < MAX_CHUNK_SIZE
  {
    if k > 0 { OpenChunkIsShort(data, k - 1); }
  }

  lemma {:induction false} CompletedSizes(data: seq<u8>, k: nat)
    requires k <= |data|
    ensures forall c :: c in Chunks(data, k) ==> MIN_CHUNK_SIZE <= |c| <= MAX_CHUNK_SIZE
  {
    if k > 0 {
      CompletedSizes(data, k - 1);
      OpenChunkIsShort(data, k - 1);
    }
  }

  /** Every chunk but the last has between 16 KiB and 256 KiB; the last may be shorter. */
  lemma ChunkSizes(data: seq<u8>)
    ensures forall i :: 0 <= i < |AllChunks(data)| - 1 ==> MIN_CHUNK_SIZE <= |AllChunks(data)[i]| <= MAX_CHUNK_SIZE
    ensures forall i :: 0 <= i < |AllChunks(data)| ==> 0 < |AllChunks(data)[i]| <= MAX_CHUNK_SIZE
  {
    CompletedSizes(data, |data|);
    OpenChunkIsShort(data, |data|);
    forall i | 0 <= i < |Chunks(data, |data|)| ensures MIN_CHUNK_SIZE <= |Chunks(data, |data|)[i]| <= MAX_CHUNK_SIZE {
      assert Chunks(data, |data|)[i] in Chunks(data, |data|);
    }
  }

  // ---------- where the cuts are ----------

  /** Before `end`, nowhere at or above the minimum size from `start`, is there a place to cut. */
  ghost predicate NoPlace(data: seq<u8>, start: nat, end: nat)
    requires end <= |data| + 1
  {
    forall j: nat :: start + 16384 <= j < end ==> !CutPlace(data[..j])
  }

  /** A completed chunk ends at the first place to cut at or above the minimum size, or, when
      there is none, at the maximum size. */
  ghost predicate EndsRight(data: seq<u8>, start: nat, end: nat) {
    && start + 16384 <= end <= start + 262144 && end <= |data|
    && NoPlace(data, start, end)
    && (end < start + 262144 ==> CutPlace(data[..end]))
  }

  lemma {:induction false} OpenChunk(data: seq<u8>, k: nat)
    requires k <= |data|
    ensures NoPlace(data, LastCut(data, k), k + 1)
  {
    if k > 0 {
      OpenChunk(data, k - 1);
      BoundaryIsCutPlace(data[..k]);
    }
  }

  lemma CutEndsRight(data: seq<u8>, k: nat)
    requires 0 < k <= |data| && LastCut(data, k) == k
    ensures EndsRight(data, LastCut(data, k - 1), k)
  {
    OpenChunk(data, k - 1);
    OpenChunkIsShort(data, k - 1);
    BoundaryIsCutPlace(data[..k]);
  }

  /** The stretch of the input that chunk i covers. */
  function StartOf(chunks: seq<seq<u8>>, i: nat): nat
    requires i <= |chunks|
  {
    |Flatten(chunks[..i])|
  }

  lemma StartOfNext(chunks: seq<seq<u8>>, i: nat)
    requires i < |chunks|
    ensures StartOf(chunks, i + 1) == StartOf(chunks, i) + |chunks[i]|
  {
    assert chunks[..i + 1] == chunks[..i] + [chunks[i]];
    FlattenLast(chunks[..i], chunks[i]);
  }

  lemma {:induction false} CompletedEnds(data: seq<u8>, k: nat, i: nat)
    requires k <= |data| && i < |Chunks(data, k)|
    ensures EndsRight(data, StartOf(Chunks(data, k), i), StartOf(Chunks(data, k), i + 1))
  {
    hide EndsRight, Flatten, IsCut;
    var chunks := Chunks(data, k);
    var before := Chunks(data, k - 1);
    ChunksStep(data, k);
    if i < |before| {
      CompletedEnds(data, k - 1, i);
      assert chunks[..i] == before[..i] && chunks[..i + 1] == before[..i + 1];
    } else {
      ChunksFlatten(data, k - 1);
      assert chunks[..i] == before && chunks[..i + 1] == chunks;
      StartOfNext(chunks, i);
      CutEndsRight(data, k);
    }
  }

  /** Where the chunks of an input end. Every chunk but the last is completed: it ends at the
      first place to cut at or above 16 KiB, and at 256 KiB if there is none. The last one is
      completed too, or runs to the end of the input without a place to cut. */
  lemma ChunkEnds(data: seq<u8>, i: nat)
    requires i < |AllChunks(data)|
    ensures var chunks := AllChunks(data); var start, end := StartOf(chunks, i), StartOf(chunks, i + 1);
      EndsRight(data, start, end) || (i == |chunks| - 1 && end == |data| && NoPlace(data, start, |data| + 1))
  {
    hide EndsRight, NoPlace, Flatten, LastCut, Chunks;
    var chunks, completed := AllChunks(data), Chunks(data, |data|);
    if i < |completed| {
      CompletedEnds(data, |data|, i);
      assert chunks[..i] == completed[..i] && chunks[..i + 1] == completed[..i + 1];
    } else {
      ChunksFlatten(data, |data|);
      ChunksCover(data);
      OpenChunk(data, |data|);
      assert chunks[..i] == completed && chunks[..i + 1] == chunks;
    }
  }

  lemma {:induction false} DescribesChunk<H>(chunks: seq<seq<u8>>, hash: seq<u8> -> H, i: nat)
    requires i < |chunks|
    ensures Describe(chunks, hash)[i] == Entry(hash(chunks[i]), StartOf(chunks, i), |chunks[i]|)
  {
    var init := chunks[..|chunks| - 1];
    if i < |init| {
      DescribesChunk(init, hash, i);
      assert init[..i] == chunks[..i];
    }
  }

  lemma ChunkInFlat(chunks: seq<seq<u8>>, i: nat)
    requires i < |chunks|
    ensures StartOf(chunks, i) + |chunks[i]| <= |Flatten(chunks)|
    ensures Flatten(chunks)[StartOf(chunks, i)..StartOf(chunks, i) + |chunks[i]|] == chunks[i]
  {
    hide Flatten;
    assert chunks == chunks[..i] + [chunks[i]] + chunks[i + 1..];
    FlattenSplit(chunks[..i] + [chunks[i]], chunks[i + 1..]);
    FlattenLast(chunks[..i], chunks[i]);
  }

  /** Entry i of the metadata names the stretch of the input that is chunk i, and its hash. */
  lemma MetadataLocates<H>(data: seq<u8>, hash: seq<u8> -> H, i: nat)
    requires i < |AllChunks(data)|
    ensures var e := Describe(AllChunks(data), hash)[i];
      && e.offset + e.length <= |data| && data[e.offset..e.offset + e.length] == AllChunks(data)[i]
      && e.hash == hash(data[e.offset..e.offset + e.length])
  {
    hide AllChunks, Describe, StartOf;
    DescribesChunk(AllChunks(data), hash, i);
    ChunkInFlat(AllChunks(data), i);
    ChunksCover(data);
  }

  /** Zeros are cut at the maximum size only. */
  lemma ZerosAreCutAtMaximum(n: nat, i: nat)
    requires i < |AllChunks(Zeros(n))|
    ensures i < |AllChunks(Zeros(n))| - 1 ==> |AllChunks(Zeros(n))[i]| == 262144
    ensures |AllChunks(Zeros(n))[i]| <= 262144
  {
    hide AllChunks, Chunks, LastCut, Flatten;
    var data := Zeros(n);
    ChunkSizes(data);
    ChunkEnds(data, i);
    StartOfNext(AllChunks(data), i);
    var end := StartOf(AllChunks(data), i + 1);
    if end <= |data| { SumOfZeros(data[..end], 64); }
  }

  // ---------- resynchronisation ----------

  /** Inside a common stretch, a chunk that began in it is cut at the same place. */
  lemma SameCut(p: seq<u8>, q: seq<u8>, s: seq<u8>, start: nat, k: nat)
    requires start < k <= |s|
    ensures IsCut(p + s, |p| + start, |p| + k) == IsCut(q + s, |q| + start, |q| + k)
  {
    if k - start >= MIN_CHUNK_SIZE {
      WindowInSuffix(p, s, k);
      WindowInSuffix(q, s, k);
    }
  }

  lemma WindowInSuffix(p: seq<u8>, s: seq<u8>, k: nat)
    requires WINDOW_SIZE <= k <= |s|
    ensures LastWindow((p + s)[..|p| + k]) == s[k - WINDOW_SIZE..k]
  {
    LastWindowInside((p + s)[..|p| + k]);
  }

  lemma ChunksStep(data: seq<u8>, k: nat)
    requires 0 < k <= |data|
    ensures var start := LastCut(data, k - 1);
      LastCut(data, k) == (if IsCut(data, start, k) then k else start)
      && Chunks(data, k) == Chunks(data, k - 1) + if IsCut(data, start, k) then [data[start..k]] else []
  {
  }

  lemma SuffixSlice(p: seq<u8>, s: seq<u8>, a: nat, b: nat)
    requires a <= b <= |s|
    ensures (p + s)[|p| + a..|p| + b] == s[a..b]
  {
  }

  /** When both inputs start a chunk where the common suffix begins, the last cuts
      stay aligned, and the chunks from there on are the same. */
  lemma {:induction false} Resynchronise(p: seq<u8>, q: seq<u8>, s: seq<u8>, k: nat) returns (common: seq<seq<u8>>)
    requires k <= |s| && LastCut(p + s, |p|) == |p| && LastCut(q + s, |q|) == |q|
    ensures LastCut(p + s, |p| + k) >= |p|
    ensures LastCut(p + s, |p| + k) - |p| == LastCut(q + s, |q| + k) - |q|
    ensures Chunks(p + s, |p| + k) == Chunks(p + s, |p|) + common
    ensures Chunks(q + s, |q| + k) == Chunks(q + s, |q|) + common
  {
    hide LastCut, Chunks, IsCut;
    if k == 0 {
      common := [];
    } else {
      common := Resynchronise(p, q, s, k - 1);
      var start := LastCut(p + s, |p| + k - 1) - |p|;
      SameCut(p, q, s, start, k);
      ChunksStep(p + s, |p| + k);
      ChunksStep(q + s, |q| + k);
      SuffixSlice(p, s, start, k);
      SuffixSlice(q, s, start, k);
      if IsCut(p + s, |p| + start, |p| + k) { common := common + [s[start..k]]; }
    }
  }

  /** Two inputs that both cut where a common suffix begins have the same chunks from there on. */
  lemma CommonSuffix(p: seq<u8>, q: seq<u8>, s: seq<u8>) returns (common: seq<seq<u8>>)
    requires LastCut(p, |p|) == |p| && LastCut(q, |q|) == |q|
    ensures AllChunks(p + s) == AllChunks(p) + common
    ensures AllChunks(q + s) == AllChunks(q) + common
    ensures Flatten(common) == s
  {
    hide LastCut, Chunks, IsCut, AllChunks, Rest, Flatten;
    CutsLookBack(p, s, |p|);
    CutsLookBack(q, s, |q|);
    var chunks := Resynchronise(p, q, s, |s|);
    var start := LastCut(p + s, |p| + |s|) - |p|;
    common := chunks + Tail(s, start);
    EndsWith(p, s, start, chunks);
    EndsWith(q, s, start, chunks);
    CoversSuffix(p, s, common);
  }

  function Tail(s: seq<u8>, start: nat): seq<seq<u8>>
    requires start <= |s|
  {
    if start < |s| then [s[start..]] else []
  }

  lemma TailShift(p: seq<u8>, s: seq<u8>, start: nat)
    requires start <= |s|
    ensures Tail(p + s, |p| + start) == Tail(s, start)
  {
    if start < |s| { assert (p + s)[|p| + start..] == s[start..]; }
  }

  lemma AllChunksIs(data: seq<u8>, chunks: seq<seq<u8>>, start: nat)
    requires LastCut(data, |data|) == start && Chunks(data, |data|) == chunks
    ensures AllChunks(data) == chunks + Tail(data, start)
  {
    hide LastCut, Chunks;
  }

  lemma EndsWith(p: seq<u8>, s: seq<u8>, start: nat, chunks: seq<seq<u8>>)
    requires LastCut(p, |p|) == |p| && start <= |s| && LastCut(p + s, |p| + |s|) == |p| + start
    requires Chunks(p + s, |p| + |s|) == Chunks(p, |p|) + chunks
    ensures AllChunks(p + s) == AllChunks(p) + (chunks + Tail(s, start))
  {
    hide LastCut, Chunks, AllChunks;
    AllChunksIs(p, Chunks(p, |p|), |p|);
    AllChunksIs(p + s, Chunks(p, |p|) + chunks, |p| + start);
    TailShift(p, s, start);
    Rejoin(Chunks(p, |p|), chunks, Tail(s, start), AllChunks(p));
  }

  lemma Rejoin(a: seq<seq<u8>>, b: seq<seq<u8>>, c: seq<seq<u8>>, whole: seq<seq<u8>>)
    requires whole == a + []
    ensures (a + b) + c == whole + (b + c)
  {
  }

  lemma CoversSuffix(p: seq<u8>, s: seq<u8>, common: seq<seq<u8>>)
    requires AllChunks(p + s) == AllChunks(p) + common
    ensures Flatten(common) == s
  {
    hide AllChunks, Flatten;
    ChunksCover(p + s);
    ChunksCover(p);
    FlattenSplit(AllChunks(p), common);
    SameSuffix(p, Flatten(common), s);
  }

  lemma SameSuffix(p: seq<u8>, a: seq<u8>, b: seq<u8>)
    requires p + a == p + b
    ensures a == b
  {
    assert (p + a)[|p|..] == a && (p + b)[|p|..] == b;
  }

  lemma {:induction false} FlattenSplit(ss: seq<seq<u8>>, ts: seq<seq<u8>>)
    ensures Flatten(ss + ts) == Flatten(ss) + Flatten(ts)
  {
    if ts == [] {
      assert ss + ts == ss;
    } else {
      FlattenSplit(ss, ts[..|ts| - 1]);
      assert (ss + ts)[..|ss + ts| - 1] == ss + ts[..|ts| - 1];
    }
  }
}
