/**
 Counting encrypted votes: the running tally and the ballots of
 prog3/homomorphic.py, and the fold of the voting server (prog3/server.py).
*/
module Tally {
  import opened Wrappers
  import opened NumberTheory
  import opened Paillier

  // ---------- the fold and what it encrypts ----------

  /** The product of the ciphertexts, from the left. */
  function Fold(pk: PublicKey, cs: seq<nat>): nat
    requires pk.nSquared > 0 && |cs| > 0
  {
    if |cs| == 1 then cs[0] else AddEncrypted(pk, Fold(pk, cs[..|cs| - 1]), cs[|cs| - 1])
  }

  function Sum(ms: seq<nat>): nat {
    if ms == [] then 0 else Sum(ms[..|ms| - 1]) + ms[|ms| - 1]
  }

  /** cs are ciphertexts of ms, one by one. */
  ghost predicate EncryptsEach(pk: PublicKey, cs: seq<nat>, ms: seq<nat>)
    requires pk.nSquared > 0
  {
    |cs| == |ms| && forall i :: 0 <= i < |cs| ==> Encrypts(pk, cs[i], ms[i])
  }

  /** A fold of ciphertexts is a ciphertext of the sum. */
  lemma {:induction false} FoldEncryptsSum(pk: PublicKey, cs: seq<nat>, ms: seq<nat>)
    requires pk.nSquared > 0 && |cs| > 0 && EncryptsEach(pk, cs, ms)
    ensures Encrypts(pk, Fold(pk, cs), Sum(ms))
  {
    var k := |cs| - 1;
    if k == 0 {
      assert Sum(ms) == Sum(ms[..0]) + ms[0] == ms[0];
    } else {
      FoldEncryptsSum(pk, cs[..k], ms[..k]);
      AddEncryptedAdds(pk, Fold(pk, cs[..k]), Sum(ms[..k]), cs[k], ms[k]);
      assert Fold(pk, cs) == AddEncrypted(pk, Fold(pk, cs[..k]), cs[k]);
      assert Sum(ms) == Sum(ms[..k]) + ms[k];
    }
  }

  class HomomorphicTally {
    const publicKey: PublicKey
    var encryptedVotes: seq<nat>

    constructor (pk: PublicKey)
      ensures publicKey == pk && encryptedVotes == []
    {
      publicKey := pk;
      encryptedVotes := [];
    }

    method AddVote(c: nat)
      modifies this
      ensures encryptedVotes == old(encryptedVotes) + [c]
    {
      encryptedVotes := encryptedVotes + [c];
    }

    /** The product of the votes, or a fresh encryption of zero when there are none. */
    method ComputeTally(draws: seq<nat>) returns (c: nat)
      requires publicKey.nSquared > 0 && publicKey.n > 0
      requires encryptedVotes == [] ==> exists i :: 0 <= i < |draws| && Gcd(draws[i], publicKey.n) == 1
      ensures encryptedVotes == [] ==> Encrypts(publicKey, c, 0)
      ensures encryptedVotes != [] ==> c == Fold(publicKey, encryptedVotes)
    {
      if |encryptedVotes| == 0 {
        var r := Encrypt(publicKey, 0, draws);
        return r.value;
      }
      c := encryptedVotes[0];
      assert encryptedVotes[..1] == [c];
      for k := 1 to |encryptedVotes|
        invariant c == Fold(publicKey, encryptedVotes[..k])
      {
        assert encryptedVotes[..k + 1][..k] == encryptedVotes[..k];
        c := AddEncrypted(publicKey, c, encryptedVotes[k]);
      }
      assert encryptedVotes[..|encryptedVotes|] == encryptedVotes;
    }

    /** Decrypting the tally gives the sum of the votes, none included. */
    method DecryptTally(sk: PrivateKey, draws: seq<nat>, ghost p: nat, ghost q: nat, ghost votes: seq<nat>)
      returns (total: int)
      requires KeysOf(p, q, publicKey, sk) && EncryptsEach(publicKey, encryptedVotes, votes)
      requires encryptedVotes == [] ==> exists i :: 0 <= i < |draws| && Gcd(draws[i], publicKey.n) == 1
      ensures total == Sum(votes) % publicKey.n
    {
      var c := ComputeTally(draws);
      if encryptedVotes != [] { FoldEncryptsSum(publicKey, encryptedVotes, votes); }
      DecryptsExactly(p, q, publicKey, sk, c, Sum(votes));
      total := Decrypt(sk, c);
    }
  }

  // ---------- ballots ----------

  datatype BallotError = InvalidOption | IndexError

  function Mark(i: int, option: int): nat {
    if i == option then 1 else 0
  }

  /** The ballot encrypts a 1 for the chosen option and a 0 for every other. */
  ghost predicate IsBallot(pk: PublicKey, ballot: seq<nat>, options: nat, option: int)
    requires pk.nSquared > 0
  {
    0 <= option < options && |ballot| == options
    && forall i :: 0 <= i < options ==> Encrypts(pk, ballot[i], Mark(i, option))
  }

  /** `encode_vote`, with one list of blinding draws per option. */
  method EncodeVote(pk: PublicKey, options: nat, option: int, draws: seq<seq<nat>>) returns (r: Result<seq<nat>, BallotError>)
    requires pk.n > 1 && pk.nSquared > 0 && |draws| == options
    requires forall k :: 0 <= option < options && 0 <= k < options ==> exists i :: 0 <= i < |draws[k]| && Gcd(draws[k][i], pk.n) == 1
    ensures r.Err? <==> option < 0 || option >= options
    ensures r.Ok? ==> IsBallot(pk, r.value, options, option)
    ensures r.Ok? ==> forall k :: 0 <= k < options ==> EncryptedFrom(pk, draws[k], r.value[k], Mark(k, option))
  {
    hide EncryptedFrom, Encrypts;
    if option < 0 || option >= options { return Err(InvalidOption); }
    var ballot: seq<nat> := [];
    for i := 0 to options
      invariant |ballot| == i
      invariant forall k :: 0 <= k < i ==> Encrypts(pk, ballot[k], Mark(k, option))
      invariant forall k :: 0 <= k < i ==> EncryptedFrom(pk, draws[k], ballot[k], Mark(k, option))
    {
      var c := Encrypt(pk, Mark(i, option), draws[i]);
      ballot := ballot + [c.value];
    }
    return Ok(ballot);
  }

  /** The i-th entries of all ballots. */
  function Column(ballots: seq<seq<nat>>, i: nat): (c: seq<nat>)
    requires forall b :: 0 <= b < |ballots| ==> i < |ballots[b]|
    ensures |c| == |ballots| && forall b :: 0 <= b < |c| ==> c[b] == ballots[b][i]
  {
    if ballots == [] then [] else Column(ballots[..|ballots| - 1], i) + [ballots[|ballots| - 1][i]]
  }

  /** Some ballot has fewer than `options` votes. */
  ghost predicate SomeShort(ballots: seq<seq<nat>>, options: nat) {
    exists b :: 0 <= b < |ballots| && |ballots[b]| < options
  }

  /** The inner loop of `tally_multi_option`: all votes for option i, or Python's
      IndexError when a ballot has no such vote. */
  method Collect(ballots: seq<seq<nat>>, pk: PublicKey, i: nat) returns (r: Result<HomomorphicTally, BallotError>)
    ensures r.Err? <==> SomeShort(ballots, i + 1)
    ensures r.Err? ==> r.error == IndexError
    ensures r.Ok? ==> fresh(r.value) && r.value.publicKey == pk && r.value.encryptedVotes == Column(ballots, i)
  {
    var tally := new HomomorphicTally(pk);
    for b := 0 to |ballots|
      invariant tally.publicKey == pk && fresh(tally)
      invariant forall k :: 0 <= k < b ==> i < |ballots[k]|
      invariant tally.encryptedVotes == Column(ballots[..b], i)
    {
      if |ballots[b]| <= i {
        assert |ballots[b]| < i + 1;
        return Err(IndexError);
      }
      assert ballots[..b + 1][..b] == ballots[..b];
      tally.AddVote(ballots[b][i]);
    }
    assert ballots[..|ballots|] == ballots;
    return Ok(tally);
  }

  /** `tally_multi_option`: one tally per option of the first ballot; a shorter ballot
      after it raises. */
  method TallyMultiOption(ballots: seq<seq<nat>>, pk: PublicKey) returns (r: Result<seq<nat>, BallotError>)
    requires pk.nSquared > 0 && pk.n > 0
    ensures r.Err? <==> ballots != [] && SomeShort(ballots, |ballots[0]|)
    ensures r.Ok? ==> |r.value| == if ballots == [] then 0 else |ballots[0]|
    ensures r.Ok? ==> forall i :: 0 <= i < |r.value| ==> r.value[i] == Fold(pk, Column(ballots, i))
  {
    var tallies: seq<nat> := [];
    if |ballots| == 0 { return Ok(tallies); }
    for i := 0 to |ballots[0]|
      invariant |tallies| == i && !SomeShort(ballots, i)
      invariant forall k :: 0 <= k < i ==> tallies[k] == Fold(pk, Column(ballots, k))
    {
      var tally := Collect(ballots, pk, i);
      if tally.Err? {
        ShortForMore(ballots, i + 1, |ballots[0]|);
        return Err(tally.error);
      }
      var c := tally.value.ComputeTally([]);
      tallies := tallies + [c];
    }
    return Ok(tallies);
  }

  lemma ShortForMore(ballots: seq<seq<nat>>, few: nat, more: nat)
    requires SomeShort(ballots, few) && few <= more
    ensures SomeShort(ballots, more)
  {
    var b :| 0 <= b < |ballots| && |ballots[b]| < few;
    assert |ballots[b]| < more;
  }

  // ---------- the server's fold ----------

  /** The product of all ciphertexts. */
  function Product(cs: seq<nat>): nat {
    if cs == [] then 1 else Times(Product(cs[..|cs| - 1]), cs[|cs| - 1])
  }

  function Times(a: nat, b: nat): nat {
    MulLe(0, a, b);
    a * b
  }

  /** Folding multiplies all ciphertexts modulo n^2, and does nothing else. */
  lemma {:induction false} FoldIsProduct(pk: PublicKey, cs: seq<nat>)
    requires pk.nSquared > 0 && cs != []
    ensures Cong(Fold(pk, cs), Product(cs), pk.nSquared)
  {
    var init, last := cs[..|cs| - 1], cs[|cs| - 1];
    if init == [] {
      assert Product(cs) == Product([]) * last;
    } else {
      FoldIsProduct(pk, init);
      CongMul(Fold(pk, init), Product(init), last, last, pk.nSquared);
      CongMod(Fold(pk, init) * last, pk.nSquared);
    }
  }

  /** A running value of 0 means that nothing was added yet. */
  function Merge(pk: PublicKey, before: nat, c: nat): nat
    requires pk.nSquared > 0
  {
    if before == 0 then c else AddEncrypted(pk, before, c)
  }

  function SentinelFold(pk: PublicKey, cs: seq<nat>): nat
    requires pk.nSquared > 0
  {
    if cs == [] then 0 else Merge(pk, SentinelFold(pk, cs[..|cs| - 1]), cs[|cs| - 1])
  }

  lemma FoldStep(pk: PublicKey, ballots: seq<seq<nat>>, i: nat, b: nat)
    requires pk.nSquared > 0 && b < |ballots|
    requires forall k :: 0 <= k <= b ==> i < |ballots[k]|
    ensures SentinelFold(pk, Column(ballots[..b + 1], i)) == Merge(pk, SentinelFold(pk, Column(ballots[..b], i)), ballots[b][i])
  {
    var c := Column(ballots[..b + 1], i);
    assert ballots[..b + 1][..b] == ballots[..b];
    assert c[..|c| - 1] == Column(ballots[..b], i);
  }

  /** Each tally is the fold of its column. */
  ghost predicate Folded(pk: PublicKey, ballots: seq<seq<nat>>, tallies: seq<nat>)
    requires pk.nSquared > 0
  {
    !SomeShort(ballots, |tallies|)
    && forall i :: 0 <= i < |tallies| ==> tallies[i] == SentinelFold(pk, Column(ballots, i))
  }

  lemma AllFolded(pk: PublicKey, ballots: seq<seq<nat>>, b: nat, before: seq<nat>, after: seq<nat>)
    requires pk.nSquared > 0 && b < |ballots| && Folded(pk, ballots[..b], before)
    requires |before| == |after| <= |ballots[b]|
    requires forall i :: 0 <= i < |after| ==> after[i] == Merge(pk, before[i], ballots[b][i])
    ensures Folded(pk, ballots[..b + 1], after)
  {
    hide Merge, SentinelFold;
    forall k | 0 <= k <= b ensures |ballots[k]| >= |after| {
      assert k < b ==> ballots[..b][k] == ballots[k];
    }
    forall i | 0 <= i < |after| ensures after[i] == SentinelFold(pk, Column(ballots[..b + 1], i)) {
      FoldStep(pk, ballots, i, b);
    }
  }

  /** The inner loop of `get_tally`: one ballot into all tallies, in place. */
  method AddBallot(tallies: array<nat>, ballot: seq<nat>, pk: PublicKey) returns (ok: bool)
    requires pk.nSquared > 0
    modifies tallies
    ensures ok <==> |ballot| >= tallies.Length
    ensures ok ==> forall i :: 0 <= i < tallies.Length ==> tallies[i] == Merge(pk, old(tallies[i]), ballot[i])
  {
    for i := 0 to tallies.Length
      invariant i <= |ballot|
      invariant forall k :: 0 <= k < i ==> tallies[k] == Merge(pk, old(tallies[k]), ballot[k])
      invariant forall k :: i <= k < tallies.Length ==> tallies[k] == old(tallies[k])
    {
      if i >= |ballot| { return false; }
      if tallies[i] == 0 {
        tallies[i] := ballot[i];
      } else {
        tallies[i] := AddEncrypted(pk, tallies[i], ballot[i]);
      }
    }
    return true;
  }

  /** `get_tally`, up to the decryption; a ballot with too few votes raises. */
  method FoldBallots(ballots: seq<seq<nat>>, options: nat, pk: PublicKey) returns (r: Result<array<nat>, BallotError>)
    requires pk.nSquared > 0
    ensures r.Err? <==> SomeShort(ballots, options)
    ensures r.Ok? ==> fresh(r.value) && r.value.Length == options
    ensures r.Ok? ==> forall i :: 0 <= i < options ==> r.value[i] == SentinelFold(pk, Column(ballots, i))
  {
    var tallies := new nat[options](_ => 0);
    for b := 0 to |ballots|
      invariant fresh(tallies) && Folded(pk, ballots[..b], tallies[..])
    {
      hide Folded, Merge;
      ghost var before := tallies[..];
      var added := AddBallot(tallies, ballots[b], pk);
      if !added { return Err(IndexError); }
      AllFolded(pk, ballots, b, before, tallies[..]);
    }
    assert ballots[..|ballots|] == ballots;
    return Ok(tallies);
  }

  /** On ciphertexts the sentinel is never mistaken for a running tally: the
      server's fold is the plain product. */
  lemma {:induction false} SentinelIsSafe(p: nat, q: nat, pk: PublicKey, cs: seq<nat>, ms: seq<nat>)
    requires PublicKeyOf(p, q, pk) && |cs| > 0 && EncryptsEach(pk, cs, ms)
    ensures SentinelFold(pk, cs) == Fold(pk, cs) != 0
  {
    var k := |cs| - 1;
    if k == 0 {
      assert cs[..0] == [];
    } else {
      SentinelIsSafe(p, q, pk, cs[..k], ms[..k]);
    }
    FoldEncryptsSum(pk, cs, ms);
    CiphertextNotZero(p, q, pk, Fold(pk, cs), Sum(ms));
  }

  // ---------- the count ----------

  /** How many voters chose option i. */
  function Count(choices: seq<nat>, i: nat): nat {
    if choices == [] then 0 else Count(choices[..|choices| - 1], i) + Mark(i, choices[|choices| - 1])
  }

  /** The marks for option i on all ballots. */
  function Marks(choices: seq<nat>, i: nat): (m: seq<nat>)
    ensures |m| == |choices| && forall b :: 0 <= b < |m| ==> m[b] == Mark(i, choices[b])
  {
    if choices == [] then [] else Marks(choices[..|choices| - 1], i) + [Mark(i, choices[|choices| - 1])]
  }

  lemma {:induction false} SumOfMarks(choices: seq<nat>, i: nat)
    ensures Sum(Marks(choices, i)) == Count(choices, i) <= |choices|
  {
    if choices != [] {
      SumOfMarks(choices[..|choices| - 1], i);
      assert Marks(choices, i)[..|choices| - 1] == Marks(choices[..|choices| - 1], i);
    }
  }

  /** Count(choices, 0) + ... + Count(choices, options - 1) */
  function Total(choices: seq<nat>, options: nat): nat {
    if options == 0 then 0 else Total(choices, options - 1) + Count(choices, options - 1)
  }

  lemma {:induction false} TotalStep(choices: seq<nat>, options: nat)
    requires choices != []
    ensures Total(choices, options) ==
      Total(choices[..|choices| - 1], options) + if choices[|choices| - 1] < options then 1 else 0
  {
    if options > 0 { TotalStep(choices, options - 1); }
  }

  lemma {:induction false} TotalOfNone(options: nat)
    ensures Total([], options) == 0
  {
    if options > 0 { TotalOfNone(options - 1); }
  }

  /** The counts add up to the number of ballots. */
  lemma {:induction false} CountsAddUp(choices: seq<nat>, options: nat)
    requires forall b :: 0 <= b < |choices| ==> choices[b] < options
    ensures Total(choices, options) == |choices|
  {
    if choices == [] {
      TotalOfNone(options);
    } else {
      CountsAddUp(choices[..|choices| - 1], options);
      TotalStep(choices, options);
    }
  }

  /** Ballot b is a ballot for choices[b]. */
  ghost predicate BallotsFor(pk: PublicKey, ballots: seq<seq<nat>>, options: nat, choices: seq<nat>)
    requires pk.nSquared > 0
  {
    |ballots| == |choices| && forall b :: 0 <= b < |ballots| ==> IsBallot(pk, ballots[b], options, choices[b])
  }

  lemma ColumnEncryptsMarks(pk: PublicKey, ballots: seq<seq<nat>>, options: nat, choices: seq<nat>, i: nat)
    requires pk.nSquared > 0 && BallotsFor(pk, ballots, options, choices) && i < options
    ensures EncryptsEach(pk, Column(ballots, i), Marks(choices, i))
  {
    forall b | 0 <= b < |ballots| ensures Encrypts(pk, Column(ballots, i)[b], Marks(choices, i)[b]) {
      assert IsBallot(pk, ballots[b], options, choices[b]);
    }
  }

  /** Both tallies of well-formed ballots, the library's and the server's, decrypt
      to the number of voters who chose option i, modulo n. */
  lemma ColumnIsCounted(p: nat, q: nat, pk: PublicKey, sk: PrivateKey, ballots: seq<seq<nat>>, options: nat,
                        choices: seq<nat>, i: nat)
    requires KeysOf(p, q, pk, sk) && BallotsFor(pk, ballots, options, choices)
    requires 0 < |ballots| && i < options
    ensures forall b :: 0 <= b < |ballots| ==> i < |ballots[b]|
    ensures Decrypt(sk, Fold(pk, Column(ballots, i))) == Count(choices, i) % pk.n
    ensures SentinelFold(pk, Column(ballots, i)) == Fold(pk, Column(ballots, i))
    ensures Encrypts(pk, Fold(pk, Column(ballots, i)), Count(choices, i))
  {
    ColumnEncryptsMarks(pk, ballots, options, choices, i);
    var cs := Column(ballots, i);
    FoldEncryptsSum(pk, cs, Marks(choices, i));
    SumOfMarks(choices, i);
    DecryptsExactly(p, q, pk, sk, Fold(pk, cs), Count(choices, i));
    SentinelIsSafe(p, q, pk, cs, Marks(choices, i));
  }

  lemma ChoicesInRange(pk: PublicKey, ballots: seq<seq<nat>>, options: nat, choices: seq<nat>)
    requires pk.nSquared > 0 && BallotsFor(pk, ballots, options, choices)
    ensures forall b :: 0 <= b < |choices| ==> choices[b] < options
  {
    forall b | 0 <= b < |choices| ensures choices[b] < options {
      assert IsBallot(pk, ballots[b], options, choices[b]);
    }
  }

  /** With fewer ballots than n the counts come out exact, and they add up to the
      number of ballots. */
  lemma TallyIsTrue(p: nat, q: nat, pk: PublicKey, sk: PrivateKey, ballots: seq<seq<nat>>, options: nat, choices: seq<nat>)
    requires KeysOf(p, q, pk, sk) && BallotsFor(pk, ballots, options, choices)
    requires 0 < |ballots| < pk.n
    ensures forall i :: 0 <= i < options ==>
      Decrypt(sk, Fold(pk, Column(ballots, i))) == Count(choices, i)
    ensures Total(choices, options) == |ballots|
  {
    forall i | 0 <= i < options
      ensures Decrypt(sk, Fold(pk, Column(ballots, i))) == Count(choices, i)
    {
      ColumnIsCounted(p, q, pk, sk, ballots, options, choices, i);
      SumOfMarks(choices, i);
      DivModUnique(Count(choices, i), pk.n, 0, Count(choices, i));
    }
    ChoicesInRange(pk, ballots, options, choices);
    CountsAddUp(choices, options);
  }

  /** The last loop of `get_tally`. */
  method DecryptTallies(tallies: seq<nat>, sk: PrivateKey) returns (ms: seq<int>)
    requires sk.publicKey.n > 0 && sk.publicKey.nSquared > 0
    ensures |ms| == |tallies| && forall i :: 0 <= i < |ms| ==> ms[i] == Decrypt(sk, tallies[i])
  {
    ms := [];
    for i := 0 to |tallies|
      invariant |ms| == i && forall k :: 0 <= k < i ==> ms[k] == Decrypt(sk, tallies[k])
    {
      ms := ms + [Decrypt(sk, tallies[i])];
    }
  }

  lemma BallotsCover(pk: PublicKey, ballots: seq<seq<nat>>, options: nat, choices: seq<nat>)
    requires pk.nSquared > 0 && BallotsFor(pk, ballots, options, choices)
    ensures forall b :: 0 <= b < |ballots| ==> |ballots[b]| >= options
  {
    forall b | 0 <= b < |ballots| ensures |ballots[b]| >= options {
      assert IsBallot(pk, ballots[b], options, choices[b]);
    }
  }

  /** The response of `get_tally`. */
  datatype TallyResponse = TallyResponse(encryptedTally: seq<nat>, decryptedTally: seq<int>, totalVotes: nat)

  /** `get_tally`: the encrypted and decrypted tallies and the number of votes. */
  method GetTally(ballots: seq<seq<nat>>, options: nat, pk: PublicKey, sk: PrivateKey)
    returns (r: Result<TallyResponse, BallotError>)
    requires pk.nSquared > 0 && sk.publicKey.n > 0 && sk.publicKey.nSquared > 0
    ensures r.Err? <==> SomeShort(ballots, options)
    ensures r.Ok? ==> r.value.totalVotes == |ballots|
    ensures r.Ok? ==> |r.value.encryptedTally| == |r.value.decryptedTally| == if ballots == [] then 0 else options
    ensures r.Ok? ==> forall i :: 0 <= i < |r.value.encryptedTally| ==>
      r.value.encryptedTally[i] == SentinelFold(pk, Column(ballots, i))
      && r.value.decryptedTally[i] == Decrypt(sk, r.value.encryptedTally[i])
  {
    if |ballots| == 0 { return Ok(TallyResponse([], [], 0)); }
    var tallies := FoldBallots(ballots, options, pk);
    if tallies.Err? { return Err(tallies.error); }
    var decrypted := DecryptTallies(tallies.value[..], sk);
    return Ok(TallyResponse(tallies.value[..], decrypted, |ballots|));
  }

  /** What the server answers for well-formed ballots: for every option a ciphertext of
      the number of voters who chose it, and that number, exact when there are fewer
      ballots than n; the numbers add up to the votes. */
  method CountVotes(ballots: seq<seq<nat>>, options: nat, pk: PublicKey, sk: PrivateKey,
                    ghost p: nat, ghost q: nat, ghost choices: seq<nat>)
    returns (response: TallyResponse)
    requires KeysOf(p, q, pk, sk) && BallotsFor(pk, ballots, options, choices)
    ensures response.totalVotes == |ballots| == Total(choices, options)
    ensures |response.encryptedTally| == |response.decryptedTally| == if ballots == [] then 0 else options
    ensures forall i :: 0 <= i < |response.decryptedTally| ==>
      Encrypts(pk, response.encryptedTally[i], Count(choices, i))
      && response.decryptedTally[i] == Count(choices, i) % pk.n
    ensures |ballots| < pk.n ==> forall i :: 0 <= i < |response.decryptedTally| ==> response.decryptedTally[i] == Count(choices, i)
  {
    ChoicesInRange(pk, ballots, options, choices);
    CountsAddUp(choices, options);
    BallotsCover(pk, ballots, options, choices);
    var r := GetTally(ballots, options, pk, sk);
    response := r.value;
    forall i | 0 <= i < |response.decryptedTally|
      ensures Encrypts(pk, response.encryptedTally[i], Count(choices, i))
      ensures response.decryptedTally[i] == Count(choices, i) % pk.n
      ensures |ballots| < pk.n ==> response.decryptedTally[i] == Count(choices, i)
    {
      ColumnIsCounted(p, q, pk, sk, ballots, options, choices, i);
      SumOfMarks(choices, i);
      if |ballots| < pk.n { DivModUnique(Count(choices, i), pk.n, 0, Count(choices, i)); }
    }
  }
}
