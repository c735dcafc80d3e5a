/**
 The rolling hash of prog8/src/storage/chunker.rs: a circular window of 64 bytes
 whose 32-bit hash, updated a byte at a time in wrapping 64-bit arithmetic, is
 the polynomial hash of the last 64 bytes.
*/
module RollingHash {
  import opened NumberTheory

  type u8 = x: int | 0 <= x < 256

  const WINDOW_SIZE: nat := 64
  const POLYNOMIAL: nat := 0x3DA3358B4DC173
  const MODULUS: nat := 65536
  const TWO32: nat := 0x1_0000_0000
  const TWO64: nat := 0x1_0000_0000_0000_0000

  function Wrap64(x: int): (r: nat)
    ensures r < TWO64
  {
    x % TWO64
  }

  /** `& 0xFFFFFFFF` */
  function Low32(x: nat): (r: nat)
    ensures r < TWO32
  {
    x % TWO32
  }

  // ---------- the polynomial hash ----------

  /** w[0] p^(n-1) + ... + w[n-1] */
  function Poly(w: seq<u8>, p: nat): int {
    if w == [] then 0 else Poly(w[..|w| - 1], p) * p + w[|w| - 1]
  }

  /** The hash of a window, computed directly. */
  function Hash(w: seq<u8>): (h: nat)
    ensures h < TWO32
  {
    Poly(w, POLYNOMIAL) % TWO32
  }

  lemma ScaleUp(a: int, q: int, r: int, x: int, p: int)
    ensures (a * q + r) * p + x == a * (q * p) + (r * p + x)
  {
    assert (a * q + r) * p == (a * q) * p + r * p;
  }

  lemma {:induction false} PolyHead(a: u8, r: seq<u8>, p: nat)
    ensures Poly([a] + r, p) == a * Pow(p, |r|) + Poly(r, p)
  {
    if r == [] {
      assert Poly([a], p) == Poly([a][..0], p) * p + a;
    } else {
      var init, last := r[..|r| - 1], r[|r| - 1];
      assert ([a] + r)[..|r|] == [a] + init;
      PolyHead(a, init, p);
      ScaleUp(a, Pow(p, |init|), Poly(init, p), last, p);
      assert Pow(p, |r|) == p * Pow(p, |init|);
    }
  }

  lemma Slide(h: int, a: int, q: int, r: int, p: int, b: int)
    requires h == a * q + r
    ensures (h - a * q) * p + b == r * p + b
  {
  }

  /** Dropping the first byte and adding one at the end. */
  lemma PolySlides(w: seq<u8>, b: u8, p: nat)
    requires |w| > 0
    ensures Poly(w[1..] + [b], p) == (Poly(w, p) - w[0] * Pow(p, |w| - 1)) * p + b
  {
    assert w == [w[0]] + w[1..];
    PolyHead(w[0], w[1..], p);
    assert (w[1..] + [b])[..|w| - 1] == w[1..];
    Slide(Poly(w, p), w[0], Pow(p, |w| - 1), Poly(w[1..], p), p, b);
  }

  // ---------- wrapping arithmetic modulo 2^32 ----------

  lemma Wrap64Cong(x: int)
    ensures Cong(Wrap64(x), x, TWO32)
  {
    assert x == (x / TWO64) * TWO64 + x % TWO64;
    CongFromMultiple(Wrap64(x), x, TWO32, -(x / TWO64) * TWO32);
  }

  lemma Low32Cong(x: nat)
    ensures Cong(Low32(x), x, TWO32)
  {
    CongMod(x, TWO32);
  }

  /** One turn of the loop of `calc_pow`. */
  lemma PowStep(h: nat, a: int, p: int)
    requires Cong(h, a, TWO32)
    ensures Cong(Low32(Wrap64(h * p)), a * p, TWO32)
  {
    Wrap64Cong(h * p);
    Low32Cong(Wrap64(h * p));
    CongMul(h, a, p, p, TWO32);
  }

  /** The four statements of `push_byte` that update the hash. */
  lemma PushStep(h: nat, pow: nat, hh: int, pp: int, p: int, b: u8)
    requires Cong(h, hh, TWO32) && Cong(pow, pp, TWO32)
    ensures Low32(Wrap64(Wrap64(Wrap64(h - pow) * p) + b)) == ((hh - pp) * p + b) % TWO32
  {
    var x1 := Wrap64(h - pow);
    var x2 := Wrap64(x1 * p);
    var x3 := Wrap64(x2 + b);
    Wrap64Cong(h - pow);
    Difference(h, hh, pow, pp);
    CongMul(x1, hh - pp, p, p, TWO32);
    Wrap64Cong(x1 * p);
    CongAdd(x2, (hh - pp) * p, b, b, TWO32);
    Wrap64Cong(x2 + b);
    Low32Cong(x3);
  }

  lemma Difference(a: int, b: int, c: int, d: int)
    requires Cong(a, b, TWO32) && Cong(c, d, TWO32)
    ensures Cong(a - c, b - d, TWO32)
  {
    var j := MultipleFromCong(a, b, TWO32);
    var k := MultipleFromCong(c, d, TWO32);
    assert a - c == b - d + (j - k) * TWO32;
    CongFromMultiple(a - c, b - d, TWO32, j - k);
  }

  // ---------- the window ----------

  function Zeros(n: nat): (s: seq<u8>)
    ensures |s| == n && forall i :: 0 <= i < n ==> s[i] == 0
  {
    seq(n, _ => 0)
  }

  /** The last 64 bytes of a history, with zeros before its first byte. */
  function LastWindow(history: seq<u8>): (w: seq<u8>)
    ensures |w| == WINDOW_SIZE
  {
    (Zeros(WINDOW_SIZE) + history)[|history|..]
  }

  lemma LastWindowSlides(history: seq<u8>, b: u8)
    ensures LastWindow(history + [b]) == LastWindow(history)[1..] + [b]
  {
  }

  /** A window that lies inside the history does not see the zeros. */
  lemma LastWindowInside(history: seq<u8>)
    requires |history| >= WINDOW_SIZE
    ensures LastWindow(history) == history[|history| - WINDOW_SIZE..]
  {
  }

  // ---------- the hash as one sum ----------

  /** Byte j counted from the end, or 0 before the first. */
  function ByteBack(history: seq<u8>, j: nat): u8 {
    if j < |history| then history[|history| - 1 - j] else 0
  }

  /** b0 + b1 p + ... over the last n bytes, the last byte first. */
  function SumBack(history: seq<u8>, n: nat): int {
    if n == 0 then 0 else SumBack(history, n - 1) + ByteBack(history, n - 1) * Pow(POLYNOMIAL, n - 1)
  }

  function Tail(history: seq<u8>, n: nat): (w: seq<u8>)
    ensures |w| == n
  {
    (Zeros(n) + history)[|history|..]
  }

  lemma {:induction false} PolyIsSum(history: seq<u8>, n: nat)
    ensures Poly(Tail(history, n), POLYNOMIAL) == SumBack(history, n)
  {
    if n > 0 {
      PolyIsSum(history, n - 1);
      assert Tail(history, n) == [ByteBack(history, n - 1)] + Tail(history, n - 1);
      PolyHead(ByteBack(history, n - 1), Tail(history, n - 1), POLYNOMIAL);
    }
  }

  /** The sum over the last 64 bytes, modulo 2^32, is 1 more than a multiple of 65536. */
  predicate CutPlace(history: seq<u8>) {
    (SumBack(history, 64) % 0x1_0000_0000) % 65536 == 1
  }

  lemma BoundaryIsCutPlace(history: seq<u8>)
    ensures Boundary(history) <==> CutPlace(history)
  {
    PolyIsSum(history, WINDOW_SIZE);
    assert LastWindow(history) == Tail(history, WINDOW_SIZE);
  }

  lemma {:induction false} SumOfZeros(history: seq<u8>, n: nat)
    requires forall i :: 0 <= i < |history| ==> history[i] == 0
    ensures SumBack(history, n) == 0
  {
    if n > 0 { SumOfZeros(history, n - 1); }
  }

  /** Whether the chunker may cut after this history. */
  predicate Boundary(history: seq<u8>) {
    Hash(LastWindow(history)) % MODULUS == 1
  }

  /** The update of `push_byte` hashes the window that has slid by one byte. */
  lemma HashSlides(w: seq<u8>, b: u8, h: nat, pow: nat)
    requires |w| == WINDOW_SIZE && h == Hash(w) && Cong(pow, w[0] * Pow(POLYNOMIAL, WINDOW_SIZE - 1), TWO32)
    ensures Low32(Wrap64(Wrap64(Wrap64(h - pow) * POLYNOMIAL) + b)) == Hash(w[1..] + [b])
  {
    hide Poly, Pow, Wrap64, Low32;
    CongMod(Poly(w, POLYNOMIAL), TWO32);
    PushStep(h, pow, Poly(w, POLYNOMIAL), w[0] * Pow(POLYNOMIAL, WINDOW_SIZE - 1), POLYNOMIAL, b);
    PolySlides(w, b, POLYNOMIAL);
  }

  class RabinChunker {
    const window: array<u8>
    const powTable: array<nat>
    var windowPos: nat
    var hash: nat
    ghost var history: seq<u8>

    ghost function Window(): seq<u8>
      requires window.Length == WINDOW_SIZE && windowPos < WINDOW_SIZE
      reads this, window
    {
      window[windowPos..] + window[..windowPos]
    }

    ghost predicate Valid()
      reads this, window, powTable
    {
      window.Length == WINDOW_SIZE && powTable.Length == 256 && windowPos < WINDOW_SIZE
      && (forall i :: 0 <= i < 256 ==> Cong(powTable[i], i * Pow(POLYNOMIAL, WINDOW_SIZE - 1), TWO32))
      && Window() == LastWindow(history) && hash == Hash(LastWindow(history))
    }

    constructor ()
      ensures Valid() && history == [] && fresh(window) && fresh(powTable)
    {
      window := new u8[WINDOW_SIZE](_ => 0);
      powTable := new nat[256](_ => 0);
      windowPos := 0;
      hash := 0;
      history := [];
      new;
      for i := 0 to 256
        invariant forall k :: 0 <= k < i ==> Cong(powTable[k], k * Pow(POLYNOMIAL, WINDOW_SIZE - 1), TWO32)
        invariant forall k :: 0 <= k < WINDOW_SIZE ==> window[k] == 0
        invariant windowPos == 0 && hash == 0 && history == []
      {
        powTable[i] := CalcPow(i);
      }
      HashOfZeros(WINDOW_SIZE);
      assert window[0..] + window[..0] == Zeros(WINDOW_SIZE) == LastWindow([]);
    }

    /** `push_byte`: whether the polynomial hash of the last 64 bytes pushed, in 32 bits, is 1
        modulo 65536. */
    method PushByte(b: u8) returns (cut: bool)
      requires Valid()
      modifies this, window
      ensures Valid() && history == old(history) + [b]
      ensures cut <==> (SumBack(history, 64) % 0x1_0000_0000) % 65536 == 1
      ensures cut <==> Boundary(history)
    {
      hide Hash, Pow, Wrap64, Low32, LastWindow, SumBack;
      ghost var w := Window();
      var oldByte := window[windowPos];
      assert oldByte == w[0];
      window[windowPos] := b;
      windowPos := (windowPos + 1) % WINDOW_SIZE;
      assert Window() == w[1..] + [b];
      HashSlides(w, b, hash, powTable[oldByte]);
      LastWindowSlides(history, b);
      hash := Wrap64(hash - powTable[oldByte]);
      hash := Wrap64(hash * POLYNOMIAL);
      hash := Wrap64(hash + b);
      hash := Low32(hash);
      history := history + [b];
      cut := hash % MODULUS == 1;
      BoundaryIsCutPlace(history);
    }
  }

  lemma {:induction false} HashOfZeros(n: nat)
    ensures Poly(Zeros(n), POLYNOMIAL) == 0
  {
    if n > 0 {
      assert Zeros(n)[..n - 1] == Zeros(n - 1);
      HashOfZeros(n - 1);
      assert 0 * POLYNOMIAL == 0;
    }
  }

  /** `calc_pow`: the byte's share in the hash when it is the oldest of the window. */
  method CalcPow(b: u8) returns (h: nat)
    ensures h < TWO32 && Cong(h, b * Pow(POLYNOMIAL, WINDOW_SIZE - 1), TWO32)
  {
    h := b;
    assert Pow(POLYNOMIAL, 0) == 1;
    for i := 0 to WINDOW_SIZE - 1
      invariant h < TWO32 && Cong(h, b * Pow(POLYNOMIAL, i), TWO32)
    {
      PowStep(h, b * Pow(POLYNOMIAL, i), POLYNOMIAL);
      OneMore(b, Pow(POLYNOMIAL, i), POLYNOMIAL);
      assert Pow(POLYNOMIAL, i + 1) == POLYNOMIAL * Pow(POLYNOMIAL, i);
      h := Low32(Wrap64(h * POLYNOMIAL));
    }
  }

  lemma OneMore(b: int, q: int, p: int)
    ensures (b * q) * p == b * (p * q)
  {
  }
}
