# Models of the repository's hard algorithms

This project models the algorithmic core of nine prototypes and proves what each
is for; `dafny verify dfyconfig.toml` checks all of it.

- **Raft** (`Raft*.dfy`). `RaftProtocol` gives each handler as a function on node
  values, `RaftNode` the class whose methods update the fields in place and call
  their peers in loops, proved against those functions. `RaftCluster` lets rounds
  of different nodes interleave call by call, a call waiting for the peer's lock.
  `RaftInvariant`, `RaftSteps`, `RaftLogSteps` and `RaftSafety` carry a history of
  ballots, leader logs and acknowledgements through every step and derive the
  properties of Figure 3 of the Raft paper, across any two moments of a run.
  `RaftRepair`, `RaftProgress`, `RaftElection` and `RaftConvergence` prove what
  uninterrupted exchanges, rounds and elections achieve, up to a cluster that never gets
  stuck. `RaftLateReplicate` shows what the unlocked check in `replicate` costs, and which
  runs it does not hurt.
- **Voting** (`NumberTheory`, `Fermat`, `MillerRabin`, `Paillier`, `Polynomials`,
  `Threshold`, `Tally`). From the extended Euclidean algorithm and the binomial
  theorem to exact decryption, integer Lagrange interpolation and true tallies.
- **Timing wheel** (`WheelLayout`, `WheelTicks`, `WheelSchedule`, `TimingWheel`).
  The class keeps, as a ghost plan, the simple scheduler it implements; the plan's
  own properties are proved over runs.
- **GhostFS** (`Bytes`, `Carrier`, `CarrierPool`, `FsBlocks`, `FsAllocation`,
  `GhostFs`). Files over encrypted blocks over a flat device over pixel bits, each
  layer proved against the one below.
- **Locking** (`Deadlock`, `Redlock`, `RedlockProgress`), **chunking** (`RollingHash`,
  `Chunker`), **Merkle trees** (`Merkle`, `MerkleBinding`), **consistent hashing**
  (`SortedHashes`, `RingWalk`, `Ring`) and the **LSM engine** (`LsmFormat`,
  `LsmDamage`, `Lsm`).

Inputs stand for what the programs draw or look up: random bases, blinding factors
and polynomial coefficients, the clock, hash functions, the per-block cipher, and
what a reader returns. Results that need collision-free hashing are stated as "or
here is a collision". Where code and documentation differ the code is modelled: the
type annotation of `combine_shares` names partial decryptions, but its body and its
caller use key shares.

## Model
| member | source | states |
|---|---|---|
| RaftNode.RaftNode.RequestVote | prog3/consensus.py:196-217 | the vote handler, field by field, does what `HandleVote` says: a higher term steps the node down, at most one candidate per term gets the vote, and only one whose log is at least as up to date |
| RaftNode.RaftNode.AppendEntries | prog3/consensus.py:219-254 | the append handler does what `HandleAppend` says: stale terms and missing or conflicting predecessors are refused, the entries are merged, the commit index is clamped to the log and the committed commands are applied |
| RaftNode.RaftNode.MergeEntries | prog3/consensus.py:241-248 | the merge loop truncates at the first conflicting term and appends what is missing; the result is the value `Merge` describes |
| RaftNode.RaftNode.ApplyLogs | prog3/consensus.py:189-194 | every entry up to the commit index is applied once and in order |
| RaftNode.RaftNode.UpdateCommitIndex | prog3/consensus.py:172-187 | commits the highest entry of the current term that a majority holds, and applies up to it; otherwise changes nothing |
| RaftNode.RaftNode.CountHolders | prog3/consensus.py:177-182 | the counting loop over the peers gives one plus the number of other nodes whose match index reaches the entry |
| RaftNode.RaftNode.Replicate | prog3/consensus.py:256-263 | appends the command in the current term and raises the own match index on a leader, and answers False with no change elsewhere |
| RaftNode.RaftNode.PollPeers | prog3/consensus.py:111-125 | the poll loop asks the peers one after the other, counts the granted votes, and stops and steps down on a higher term |
| RaftNode.RaftNode.StartElection | prog3/consensus.py:95-128 | a whole election, mutating the node and its peers in place, equals `ElectionRound` on the nodes as values |
| RaftNode.RaftNode.TakeOffice | prog3/consensus.py:130-136 | a winner becomes leader, resets next and match indices for all peers and sends its first heartbeats |
| RaftNode.RaftNode.SendToPeer | prog3/consensus.py:143-168 | one append call sends the whole suffix from the next index, and the reply moves next and match index; a refusal from a peer whose term is not newer moves the next index back by one, as `LogRepair` needs it |
| RaftNode.RaftNode.SendHeartbeats | prog3/consensus.py:138-170 | a whole heartbeat round, in place, equals `HeartbeatRound`, with the commit index advanced only when no reply ended the term |
| RaftRounds.ElectionRoundRuns | prog3/consensus.py:86-136 | an uninterrupted election is a run of the cluster, so what holds of every run holds of the method |
| RaftRounds.HeartbeatRoundRuns | prog3/consensus.py:138-170 | an uninterrupted heartbeat round is a run of the cluster |
| RaftSafety.NextKeeps | prog3/consensus.py:86-263 | every single step of every node, interleaved freely with rounds of other nodes, keeps the whole invariant and only extends the history of ballots, leader logs and acknowledgements |
| RaftSafety.RunKeeps | prog3/consensus.py:86-263 | so does every run |
| RaftSafety.ElectionSafety | prog3/consensus.py:95-136 | two leaders of one term, at any two moments of a run, are the same node (section 5.2 of the Raft paper) |
| RaftSafety.LeaderAppendOnly | prog3/consensus.py:138-170 | while a node leads a term, its log only grows |
| RaftSafety.LogMatching | prog3/consensus.py:138-168 | two logs, at any two moments of a run, that hold an entry of one term at one index are identical up to it (section 5.3) |
| RaftSafety.LeaderCompleteness | prog3/consensus.py:172-187 | what a node has committed is in the log of every leader of its term or a later one (section 5.4) |
| RaftSafety.StateMachineSafety | prog3/consensus.py:172-254 | the command sequences that any two nodes have applied, at any two moments of a run, are prefixes of one another |
| RaftSafety.CommitBookkeeping | prog3/consensus.py:189-194 | -1 <= last_applied = commit_index < len(log) after every step; the applied commands are exactly the log up to last_applied; neither index and not the applied sequence ever goes back |
| RaftSafety.RoundsNeverRaise | prog3/consensus.py:143-145 | a leader's round never reads a missing next index or a log position that does not exist |
| RaftRepair.Answer | prog3/consensus.py:219-254 | what one append does to a peer whose term is not newer: accepted exactly when the logs agree just before the next index, conflicting entries cut otherwise, and the commit index follows the leader |
| RaftRepair.MergeRepairs | prog3/consensus.py:241-248 | merging from a point of agreement keeps a log that extends the leader's and makes every other one the leader's |
| RaftRepair.LogRepair | prog3/consensus.py:138-168 | log repair: of k exchanges in a row with a peer, those before the meeting point each move the next index back by one and cut what conflicts; from the first one at the meeting point on, the match index is the end of the leader's log and, with Log Matching, the peer has that log or an extension of it; next index + 1 exchanges are always enough |
| RaftProgress.StaysInOffice | prog3/consensus.py:158-162 | a leader is still leader after a heartbeat round if and only if no peer is in a newer term |
| RaftProgress.HeartbeatsRepair | prog3/consensus.py:138-170 | heartbeat rounds repair every peer, in one round per refusal and one more |
| RaftProgress.HeartbeatsCommit | prog3/consensus.py:172-187 | once a majority with the leader is repaired, a log that ends in the leader's term is committed to its end |
| RaftProgress.HeartbeatsCommitPeers | prog3/consensus.py:250-252 | one round later a repaired peer has committed it, too |
| RaftElection.ElectionOutcome | prog3/consensus.py:95-136 | an uninterrupted election, exactly: a newer term anywhere ends it; otherwise the candidate leads if and only if more than half of the nodes, itself included, support it, that is, have not voted for another in this term and hold no more recent log; a new leader starts from the end of its log |
| RaftElection.RecentLogWins | prog3/consensus.py:206-215 | a candidate whose term no node has passed wins if a majority holds nothing more recent |
| RaftConvergence.CommandIsApplied | prog3/consensus.py:138-263 | from any reachable state with no round under way: after a leader that no node has outrun takes a command, log length + 3 heartbeat rounds give all nodes its log, all of it applied |
| RaftConvergence.LeaderToBeHad | prog3/consensus.py:95-136 | from any such state one or two elections lead to a leader that no node has outrun |
| RaftConvergence.NeverStuck | prog3/consensus.py:86-263 | so the cluster never gets stuck: for every command there is a run after which all nodes have the same log, ending in the command, and have applied all of it |
| RaftLateReplicate.LateAppendInOffice | prog3/consensus.py:256-263 | `replicate` split in two, its check of the state before the lock and its append after, is the atomic step if and only if the node still leads |
| RaftLateReplicate.InOfficeIsSafe | prog3/consensus.py:256-263 | over every run with split appends: as long as each late append happens while its node leads, State Machine Safety and Log Matching hold, at any two moments |
| RaftLateReplicate.LateAppendMayBeHarmless | prog3/consensus.py:257-263 | the converse fails over runs: an append out of office, in a term without a leader, leaves the applied commands of all nodes comparable |
| RaftLateReplicate.LateReplicateBreaksSafety | prog3/consensus.py:257-263 | with a step-down between check and append the claim fails: an explicit run of two nodes ends with different commands applied at the same index |
| MillerRabin.IsPrime | prog3/homomorphic.py:7-34 | for every choice of bases: a prime is never rejected, an even number above 2 and everything below 2 is, and an odd n above 3 is accepted if and only if it passes the strong test for each base |
| MillerRabin.PrimesPass | prog3/homomorphic.py:20-34 | completeness: a prime passes the test for every base below it |
| MillerRabin.Split | prog3/homomorphic.py:15-18 | the halving loop writes n - 1 as 2^r d with d odd |
| MillerRabin.Passes | prog3/homomorphic.py:22-32 | the squaring loop with its for-else decides the strong test for one base |
| MillerRabin.SplitIsUnique | prog3/homomorphic.py:15-18 | that decomposition is unique, so the verdict does not depend on it |
| MillerRabin.StrongTestExactly | prog3/homomorphic.py:20-34 | an independent account of the test: a base passes if and only if a^(n-1) = 1 and no square root of 1 other than 1 and -1 turns up in the chain of squares |
| MillerRabin.GeneratePrime | prog3/homomorphic.py:37-42 | the result has exactly the requested bits, is odd and passes the test, and no earlier draw was prime: the loop ends no later than at the first prime draw |
| MillerRabin.ForceBits | prog3/homomorphic.py:39-40 | forcing the top and lowest bit gives an odd number of exactly `bits` bits |
| MillerRabin.ForcedBitsOnly | prog3/homomorphic.py:39-40 | all bits between the top and the lowest are the draw's |
| Fermat.LittleTheorem | prog3/homomorphic.py:20-24 | a^(p-1) = 1 modulo a prime p that does not divide a |
| Fermat.SquareRootsOfOne | prog3/homomorphic.py:27-32 | modulo a prime only 1 and -1 square to 1, which is what the squaring loop relies on |
| NumberTheory.GcdIsGreatest | prog3/homomorphic.py:50-56 | the recursive `extended_gcd` returns a common divisor that every common divisor divides |
| NumberTheory.ExtendedGcd | prog3/homomorphic.py:50-56 | its coefficients satisfy Bezout's identity |
| Paillier.LcmIsLeast | prog3/homomorphic.py:45-46 | `lcm` is a positive common multiple that divides every common multiple |
| Paillier.ModInverseCorrect | prog3/homomorphic.py:49-61 | `mod_inverse` raises if and only if there is no inverse, and otherwise returns one in [0, m) |
| Paillier.LambdaCoprime | prog3/homomorphic.py:110-125 | for two distinct odd primes of equal bit length lambda is coprime to n |
| Paillier.GenerateKeypair | prog3/homomorphic.py:110-133 | key generation redraws q until it differs from p, taking the first that does, never raises, and returns keys whose mu is the inverse of lambda modulo n |
| Paillier.OnePlusPow | prog3/homomorphic.py:78-78 | (1 + kn)^e = 1 + ekn modulo n^2 |
| Paillier.LambdaKills | prog3/homomorphic.py:94-101 | r^lambda = 1 modulo n for every r coprime to n (Carmichael), by Fermat modulo p and q and recombination |
| Paillier.NthPowerLifts | prog3/homomorphic.py:94-101 | what is 1 modulo n has an n-th power that is 1 modulo n^2 |
| Paillier.LambdaPower | prog3/homomorphic.py:98-99 | every ciphertext of m raised to lambda is 1 + (m lambda mod n) n modulo n^2, whatever the blinding factor |
| Paillier.Encrypt | prog3/homomorphic.py:70-79 | raises exactly on a plaintext outside [0, n); otherwise the result is g^m r^n modulo n^2 for the first draw r coprime to n, a ciphertext of the plaintext |
| Paillier.DecryptsExactly | prog3/homomorphic.py:94-101 | decryption of any ciphertext of m, however it was formed, is m mod n |
| Paillier.RoundTrip | prog3/homomorphic.py:70-101 | decrypt(encrypt(m)) = m for all 0 <= m < n and all r coprime to n |
| Paillier.AddEncryptedAdds | prog3/homomorphic.py:81-82 | the product of ciphertexts of m1 and m2 is a ciphertext of m1 + m2 |
| Paillier.CiphertextInverse | prog3/homomorphic.py:84-85 | every ciphertext is invertible modulo n^2, and its inverse is a ciphertext of m (n - 1), which is -m modulo n |
| Paillier.MultiplyScales | prog3/homomorphic.py:84-85 | multiplying a ciphertext of m by any integer constant k, for negative k through the inverse that pow takes, never raises and gives a ciphertext of a number congruent to m k modulo n |
| Paillier.HomomorphicLaws | prog3/homomorphic.py:81-85 | adding and scaling ciphertexts, by constants of either sign, adds and scales the plaintexts modulo n |
| Paillier.CiphertextNotZero | prog3/server.py:73-74 | no ciphertext is 0, so 0 can stand for "nothing added yet" |
| Threshold.DealShares | prog3/threshold_crypto.py:62-72 | the nested loops give participant i the value at i of the polynomial whose constant term is lambda |
| Polynomials.PowerSumIsEval | prog3/threshold_crypto.py:67-69 | the sum of coeff * i**exp is the polynomial's value (Horner) |
| Threshold.CombineShares | prog3/threshold_crypto.py:80-123 | raises for too few shares exactly when there are fewer than t; otherwise for the integer exactly when no integer k has final_num = k final_den for the first t; otherwise, with that k, exactly when k has no inverse modulo n, or k is negative and the ciphertext has none; what it returns times k is L(c^k) modulo n |
| Threshold.PowSignedIs | prog3/threshold_crypto.py:118-118 | a power with a negative exponent is the number that cancels the opposite power, and exists exactly when the base is invertible |
| Threshold.Interpolation | prog3/threshold_crypto.py:87-115 | for any t shares with distinct indices of a polynomial with t coefficients, final_num equals the secret times final_den exactly |
| Threshold.CofactorExact | prog3/threshold_crypto.py:106-109 | the floor division by each denominator is exact |
| Threshold.CombineDecrypts | prog3/threshold_crypto.py:80-123 | combining any t shares of lambda with distinct indices on a ciphertext of m returns m mod n, and nothing raises |
| Threshold.DealThenCombine | prog3/demo_advanced.py:74-87 | dealing and then combining any t dealt shares, in any order, returns the encrypted plaintext |
| Tally.FoldEncryptsSum | prog3/homomorphic.py:144-152 | the product of ciphertexts encrypts the sum of their plaintexts |
| Tally.HomomorphicTally.AddVote | prog3/homomorphic.py:141-142 | appends the ciphertext |
| Tally.HomomorphicTally.ComputeTally | prog3/homomorphic.py:144-152 | the loop multiplies all votes; without votes it encrypts zero |
| Tally.HomomorphicTally.DecryptTally | prog3/homomorphic.py:154-156 | the decrypted tally is the sum of the votes mod n, also for no votes |
| Tally.EncodeVote | prog3/homomorphic.py:164-173 | raises exactly on an option out of range; otherwise encrypts 1 for the chosen option and 0 for every other, each with its first usable draw |
| Tally.TallyMultiOption | prog3/homomorphic.py:175-189 | one product per option of the first ballot; raises exactly when a later ballot is shorter than the first; no tallies for no ballots |
| Tally.FoldBallots | prog3/server.py:69-79 | the nested loops over ballots and options leave in each place the fold that treats 0 as "nothing yet", and raise exactly when some ballot has fewer votes than options |
| Tally.FoldIsProduct | prog3/homomorphic.py:144-152 | folding gives the product of all ciphertexts modulo n^2 |
| Tally.SentinelIsSafe | prog3/server.py:73-79 | on ciphertexts that fold is the plain product and is never 0 |
| Tally.ColumnIsCounted | prog3/server.py:69-81 | both tallies of well-formed ballots are equal, encrypt the number of voters per option and decrypt to it, modulo n |
| Tally.TallyIsTrue | prog3/homomorphic.py:175-193 | with fewer ballots than n the decrypted tallies are the true counts and add up to the number of ballots |
| Tally.GetTally | prog3/server.py:58-87 | the answer holds the encrypted tallies, the decryption of each, and the number of votes; raises exactly when some ballot is short |
| Tally.CountVotes | prog3/server.py:58-87 | for well-formed ballots, fewer than n, the encrypted tallies of the answer encrypt the true counts, the decrypted ones are those counts, and they add up to the votes |
| TimingWheel.TimingWheel.constructor | prog9/src/main/java/com/chronos/timingwheel/TimingWheel.java:27-53 | four empty wheels of 60, 60, 24 and 7 buckets; no duration overflows for ticks of 1 to 24855 seconds |
| TimingWheel.TimingWheel.DetermineWheelLevel | prog9/src/main/java/com/chronos/timingwheel/TimingWheel.java:121-128 | the level is the one whose range the delay in ticks falls in, in 32-bit arithmetic |
| TimingWheel.TimingWheel.AddJob | prog9/src/main/java/com/chronos/timingwheel/TimingWheel.java:55-74 | files a fresh job so that the plan gains exactly this job with its fire tick, and the index and buckets stay consistent |
| TimingWheel.TimingWheel.Tick | prog9/src/main/java/com/chronos/timingwheel/TimingWheel.java:76-101 | returns exactly the jobs the plan fires at this tick, each once, and leaves the plan otherwise unchanged |
| TimingWheel.TimingWheel.Cascade | prog9/src/main/java/com/chronos/timingwheel/TimingWheel.java:103-119 | moving a bucket down, and recursively the levels above, changes no job's fire tick |
| TimingWheel.TimingWheel.RemoveJob | prog9/src/main/java/com/chronos/timingwheel/TimingWheel.java:130-142 | removes the job from its bucket and the index if it is scheduled, and says whether it was |
| TimingWheel.TimingWheel.Size | prog9/src/main/java/com/chronos/timingwheel/TimingWheel.java:144-151 | the number of scheduled jobs |
| WheelLayout.AddKeeps | prog9/src/main/java/com/chronos/timingwheel/TimingWheel.java:64-67 | adding keeps: `jobPositions` names exactly the bucket that holds each job, no bucket holds an id twice, every job is where its fire tick will find it |
| WheelLayout.DrainKeeps | prog9/src/main/java/com/chronos/timingwheel/TimingWheel.java:179-183 | draining a bucket keeps that for the jobs left |
| WheelLayout.RemoveKeeps | prog9/src/main/java/com/chronos/timingwheel/TimingWheel.java:130-142 | so does removing one job |
| WheelTicks.NewPlace | prog9/src/main/java/com/chronos/timingwheel/TimingWheel.java:62-64 | wherever a job is put, its last cascade is still ahead, or it is in the level-0 bucket of its fire tick |
| WheelTicks.DelayToTicks | prog9/src/main/java/com/chronos/timingwheel/TimingWheel.java:58-62 | current tick plus delay in ticks is the tick its time falls in, or the current one when that is past |
| WheelTicks.CascadeReaches | prog9/src/main/java/com/chronos/timingwheel/TimingWheel.java:103-109 | the bucket a cascade drains holds every job for which this cascade is the last, although level 3 is indexed by steps of 60^3 ticks |
| WheelTicks.NextCascade | prog9/src/main/java/com/chronos/timingwheel/TimingWheel.java:116-118 | the test at the end of a cascade is the next level's period, 7200 ticks for level 3 |
| WheelTicks.CascadeKeepsDue | prog9/src/main/java/com/chronos/timingwheel/TimingWheel.java:111-114 | a job put back by a cascade keeps its fire tick |
| WheelTicks.DrainedAreDue | prog9/src/main/java/com/chronos/timingwheel/TimingWheel.java:80-84 | the current bucket of level 0 is exactly what is due now |
| WheelTicks.SpanIsPower | prog9/src/main/java/com/chronos/timingwheel/TimingWheel.java:64-64 | the divisor of a level is the wheel size to the power of the level |
| WheelSchedule.FiresNearTarget | prog9/src/main/java/com/chronos/timingwheel/TimingWheel.java:76-119 | the fire tick is the target tick, or exactly 60 later; the latter if and only if the job was added at least 60 ticks ahead of a target that is a multiple of 60 |
| WheelSchedule.FiresOnTime | prog9/src/main/java/com/chronos/timingwheel/TimingWheel.java:55-119 | in seconds: a job whose time is past fires at once; any other fires in the tick during which its time falls, or exactly 60 ticks later, if and only if that tick is at least 60 ahead and a multiple of 60 |
| WheelSchedule.FiresExactlyOnce | prog9/src/main/java/com/chronos/timingwheel/TimingWheel.java:55-119 | over any run, a job that is not removed is returned by the tick at its fire tick and by no other, and that tick comes if the run is long enough |
| WheelSchedule.RemovedNeverFires | prog9/src/main/java/com/chronos/timingwheel/TimingWheel.java:130-142 | a removed job is never returned |
| Carrier.ReadFromCarrier | prog7/ghostfs_rs/src/carrier.rs:137-160 | fills the slice with the hidden bytes of the image, low bit first over R, G, B |
| Carrier.WriteToCarrier | prog7/ghostfs_rs/src/carrier.rs:162-189 | overwrites the hidden bytes and changes nothing but low bits of colour channels |
| Carrier.WriteByte | prog7/ghostfs_rs/src/carrier.rs:167-187 | the eight bits of one byte go to their channels; every other channel is unchanged |
| Carrier.WrittenHidden | prog7/ghostfs_rs/src/carrier.rs:162-189 | setting the low bits of a range of channels overwrites exactly that range of hidden bytes |
| Carrier.PackedBit | prog7/ghostfs_rs/src/carrier.rs:141-158 | bit k of a packed byte is the low bit of its k-th channel |
| Carrier.PixelOrder | prog7/ghostfs_rs/src/carrier.rs:148-149 | the pixel coordinates x and y address the pixels in row order |
| CarrierPool.CarrierPool.constructor | prog7/ghostfs_rs/src/carrier.rs:53-66 | the stated capacity is the summed bits over 8 |
| CarrierPool.CarrierPool.ReadBytes | prog7/ghostfs_rs/src/carrier.rs:69-101 | refused exactly beyond the stated capacity; otherwise the buffer holds the device's bytes from the address on, across image boundaries, as far as the device goes |
| CarrierPool.CarrierPool.WriteBytes | prog7/ghostfs_rs/src/carrier.rs:103-135 | refused exactly beyond the stated capacity; otherwise the device is overwritten, as far as it goes, and only low bits of colour channels change |
| CarrierPool.ReadBack | prog7/ghostfs_rs/src/carrier.rs:69-135 | reading back a write gives the data if and only if the write ends within the device |
| CarrierPool.CapacityIsExact | prog7/ghostfs_rs/src/carrier.rs:25-65 | the stated capacity is the device's length if and only if the bits left over in the images are fewer than 8 together |
| CarrierPool.CarrierPool.DeviceIsTotalBytes | prog7/ghostfs_rs/src/carrier.rs:25-65 | the device has the whole bytes of every image, never more than the stated capacity |
| FsAllocation.TakeKeeps | prog7/ghostfs_rs/src/fs.rs:213-227 | moving blocks from the free list to a file keeps the free list and the inode blocks a duplicate-free partition of the data blocks |
| FsAllocation.FreeKeeps | prog7/ghostfs_rs/src/fs.rs:374-378 | so does freeing a removed file's blocks |
| FsAllocation.ReverseKeeps | prog7/ghostfs_rs/src/fs.rs:216-222 | so does putting popped blocks back when space runs out |
| FsBlocks.ChainDone | prog7/ghostfs_rs/src/fs.rs:236-287 | overwriting the blocks a range touches, one by one, overwrites the range in the file's chain |
| FsBlocks.WriteSplices | prog7/ghostfs_rs/src/fs.rs:201-289 | a write at an offset up to the size replaces that range of the contents and extends them |
| GhostFs.GhostFs.constructor | prog7/ghostfs_rs/src/metadata.rs:94-114 | blocks 0..255 are reserved, the others free, and the root directory is the only inode |
| GhostFs.GhostFs.Save | prog7/ghostfs_rs/src/metadata.rs:218-249 | a successful save leaves in the reserved blocks exactly the saved image, block by block; whether it succeeds or not, every data block keeps its ciphertext |
| GhostFs.GhostFs.Create | prog7/ghostfs_rs/src/fs.rs:114-178 | ENOTDIR exactly for an unknown parent; otherwise a fresh empty file, even when saving fails; the name leads to it, every other entry of every directory leads where it did, and all other files keep their bytes |
| GhostFs.GhostFs.Lookup | prog7/ghostfs_rs/src/fs.rs:49-68 | finds exactly the entries whose inode exists |
| GhostFs.GhostFs.Allocate | prog7/ghostfs_rs/src/fs.rs:211-224 | pops blocks from the end of the free list, or puts all of them back, reversed |
| GhostFs.GhostFs.PatchBlock | prog7/ghostfs_rs/src/fs.rs:249-284 | read-modify-write of one block, without the read when it is replaced whole; what is stored is its encryption |
| GhostFs.GhostFs.WriteChain | prog7/ghostfs_rs/src/fs.rs:233-287 | the loop over the blocks overwrites the data's range in the chain and leaves every other data block alone |
| GhostFs.GhostFs.Write | prog7/ghostfs_rs/src/fs.rs:180-300 | ENOENT and ENOSPC exactly in their cases, with files and device unchanged; otherwise the chain, stale bytes included, is overwritten with the data, a write at an offset up to the size splices the contents, every block touched holds ciphertext of its contents, and every other file keeps its inode and bytes |
| GhostFs.GhostFs.Read | prog7/ghostfs_rs/src/fs.rs:302-366 | ENOENT exactly for an unknown inode; otherwise byte k of the reply is byte offset + k of the contents, and there are as many as asked for and the size allows |
| GhostFs.WriteThenRead | prog7/ghostfs_rs/src/fs.rs:180-366 | read after write: what a successful write at an offset up to the size has written is read back, and any read of another file, or of the file outside that range, gives what it gave before |
| GhostFs.GhostFs.Unlink | prog7/ghostfs_rs/src/fs.rs:368-390 | removes this entry, no other, and the inode, frees its blocks, and leaves every other file's bytes alone; ENOENT otherwise |
| Deadlock.DeadlockDetector.AddWaitEdge | prog6/src/concurrency/locking.py:146-150 | adds exactly this edge |
| Deadlock.DeadlockDetector.RemoveWaitEdge | prog6/src/concurrency/locking.py:152-154 | removes exactly this edge |
| Deadlock.DeadlockDetector.DetectCycle | prog6/src/concurrency/locking.py:156-169 | True only if there is a cycle; otherwise the stack is restored and every visited node off it is on no cycle; terminates |
| Deadlock.DeadlockDetector.HasDeadlock | prog6/src/concurrency/locking.py:171-180 | True if and only if the wait-for graph has a directed cycle, for every finite graph |
| Deadlock.Finish | prog6/src/concurrency/locking.py:160-169 | a node all of whose waits lead to finished nodes is on no cycle |
| Redlock.StepKeeps | prog6/src/concurrency/locking.py:65-139 | every step of every client, and the passing of time, keeps the invariant: a client's acquired instances hold its value until timeout after its attempt began |
| Redlock.MutualExclusion | prog6/src/concurrency/locking.py:65-105 | in every run, at every moment, at most one lock value is held within timeout - 100 ms of the start of its winning attempt, before its release begins |
| Redlock.QuorumsMeet | prog6/src/concurrency/locking.py:68-68 | two quorums share an instance |
| Redlock.ReleaseClears | prog6/src/concurrency/locking.py:125-139 | once every command of a release has arrived no live key with its value is left, after a failed attempt as after a held lock |
| RedlockProgress.MajorityWins | prog6/src/concurrency/locking.py:90-99 | an attempt wins if and only if more than half of the instances are acquired and more than 100 ms of the timeout are left |
| RedlockProgress.AttemptOutcome | prog6/src/concurrency/locking.py:74-101 | an attempt whose commands all arrive and are answered holds the lock exactly when more than half of the keys were free and there is time left |
| RedlockProgress.CallWins | prog6/src/concurrency/locking.py:70-101 | a call or a retry made when more than half of the keys are free, with a timeout above 100 ms and answered at once, holds the lock from then on |
| RedlockProgress.GivesUpAfterRetries | prog6/src/concurrency/locking.py:74-105 | in every run a failing call gives up after attempt number retry_count and sleeps after every earlier one |
| Redlock.CountAcquired | prog6/src/concurrency/locking.py:90-92 | counts the replies that are True |
| Redlock.AcquireLock | prog6/src/concurrency/locking.py:70-105 | returns the first attempt in which more than half of the instances said True with more than 100 ms left, if one of the first `retry_count` does, and releases every earlier one |
| RollingHash.CalcPow | prog8/src/storage/chunker.rs:43-49 | the byte times POLYNOMIAL^63, modulo 2^32 |
| RollingHash.RabinChunker.constructor | prog8/src/storage/chunker.rs:27-41 | the table holds these powers for all bytes, and the zero window hashes to 0 |
| RollingHash.RabinChunker.PushByte | prog8/src/storage/chunker.rs:151-164 | after any history True exactly when the sum of the last 64 bytes times the powers of POLYNOMIAL, modulo 2^32, is 1 modulo 65536 |
| RollingHash.HashSlides | prog8/src/storage/chunker.rs:156-159 | the wrapping 64-bit update is the hash of the window moved by one byte |
| Chunker.ChunkReader | prog8/src/storage/chunker.rs:75-105 | the chunks are those of the concatenated input, however the reader splits it |
| Chunker.ChunkFileMetadata | prog8/src/storage/chunker.rs:107-149 | records hash, offset and length of the same chunks |
| Chunker.ChunksCover | prog8/src/storage/chunker.rs:75-105 | the chunks laid end to end are the input |
| Chunker.ChunkSizes | prog8/src/storage/chunker.rs:10-12 | every chunk but the last has between MIN_CHUNK_SIZE and MAX_CHUNK_SIZE bytes; the last at least one and at most the maximum |
| Chunker.ChunkEnds | prog8/src/storage/chunker.rs:87-103 | every completed chunk ends at the first such place at or above 16384 bytes, or at 262144 bytes when there is none; the last one may run to the end of the input without one |
| Chunker.ZerosAreCutAtMaximum | prog8/src/storage/chunker.rs:163-163 | input of zeros is cut at 262144 bytes only |
| Chunker.MetadataLocates | prog8/src/storage/chunker.rs:107-149 | entry i names the stretch of the input that is chunk i, and its hash |
| Chunker.CutsLookBack | prog8/src/storage/chunker.rs:87-97 | bytes further on never move an earlier cut |
| Chunker.SameCut | prog8/src/storage/chunker.rs:90-96 | within a common stretch a chunk that began in it is cut at the same place, since the window lies inside it |
| Chunker.Resynchronise | prog8/src/storage/chunker.rs:116-141 | when both inputs start a chunk where a common suffix begins, their cuts stay aligned |
| Chunker.CommonSuffix | prog8/src/storage/chunker.rs:75-105 | then their chunk lists are those before, followed by the same chunks, which make up the suffix |
| Ring.Ring.AddNode | prog2/pkg/cluster/ring.go:34-52 | the new node, its points and the sorted hashes; the ring stays well formed for a fresh id without colliding points |
| Ring.Ring.RemoveNode | prog2/pkg/cluster/ring.go:54-74 | removes exactly the node and its points; an unknown id changes nothing |
| Ring.Ring.Search | prog2/pkg/cluster/ring.go:88-90 | the binary search finds the first hash at or above the key |
| Ring.Ring.GetNodes | prog2/pkg/cluster/ring.go:77-114 | the first node owns the least hash at or above the key, or the least of all; the others follow in the order of their nearest points, each once; every node left out is further than every node found; there are min(replication, nodes) of them, one for replication 0 |
| RingWalk.AheadIsNearer | prog2/pkg/cluster/ring.go:88-100 | that order is the clockwise distance of 32-bit hashes |
| Ring.ChosenCount | prog2/pkg/cluster/ring.go:92-113 | that is min(replication, number of nodes) distinct nodes, when nodes have points and replication is not 0 |
| Ring.AddKeepsRing | prog2/pkg/cluster/ring.go:34-52 | adding keeps the ring well formed: hashes strictly sorted, every point owned, every node on all its points |
| Ring.AddOnlyInserts | prog2/pkg/cluster/ring.go:77-114 | without the added node the new order of preference is the old one, and the new choice is a prefix of the old choice |
| Ring.AddThenRemove | prog2/pkg/cluster/ring.go:34-74 | adding a fresh node and removing it restores nodes, points and hashes |
| LsmFormat.LengthRoundTrip | prog2/libhydra/src/wal.rs:26-31 | a length written as u32 little-endian reads back modulo 2^32 |
| LsmFormat.Recover | prog2/libhydra/src/wal.rs:39-77 | the loop hands over the entries that `Parse` describes, or ends with its error |
| LsmFormat.LogRoundTrip | prog2/libhydra/src/wal.rs:23-77 | replaying the appended bytes gives the appended entries if and only if every key and value is shorter than 2^32 bytes |
| LsmFormat.TornAppend | prog2/libhydra/src/wal.rs:45-52 | after an append cut short, replay succeeds if and only if fewer than four bytes of it reached the file |
| LsmDamage.EntryLayout | prog2/libhydra/src/wal.rs:23-34 | an entry is the key length, lowest byte first, the key, the value length and the value |
| LsmDamage.BadKey | prog2/libhydra/src/wal.rs:58-60 | replay fails at the first key that is not UTF-8, whatever follows |
| LsmFormat.CreateTable | prog2/libhydra/src/sstable.rs:10-38 | writes the bytes HYDR, the count modulo 2^32 and the entries |
| LsmFormat.Get | prog2/libhydra/src/sstable.rs:46-83 | the scan with its file cursor equals the specification `TableGet`; a file without the magic bytes, or too short, is refused |
| LsmFormat.TableAgrees | prog2/libhydra/src/sstable.rs:10-83 | a lookup in a written table finds what the list holds, within the first count mod 2^32 entries |
| LsmDamage.TornTable | prog2/libhydra/src/sstable.rs:46-83 | every lookup in a table cut off anywhere: what lies before the cut is found, anything else fails, except a key found nowhere when only the last value is cut |
| Lsm.MemTable.Put | prog2/libhydra/src/memtable.rs:17-30 | inserts or replaces, and the size stays the summed key and value lengths |
| Lsm.MemTable.Clear | prog2/libhydra/src/memtable.rs:41-46 | empty, size 0 |
| Lsm.MemTable.Iter | prog2/libhydra/src/memtable.rs:48-51 | lists every entry once, keys ascending byte by byte, which makes every flushed table sorted |
| Lsm.Engine.Put | prog2/libhydra/src/engine.rs:41-51 | appends to the log and the memtable, flushes when the size exceeds 1 MiB, and keeps: tables overlaid oldest to newest, then the memtable, are the map of all puts |
| Lsm.Engine.Flush | prog2/libhydra/src/engine.rs:66-92 | turns a non-empty memtable into one more table and keeps that; an empty one changes nothing |
| Lsm.Engine.Get | prog2/libhydra/src/engine.rs:53-64 | a returned value is the newest one put; it misses a key exactly when only flushed tables hold it |
| Lsm.Open | prog2/libhydra/src/engine.rs:18-39 | fails exactly when the log does not parse; otherwise the memtable is the replay of the log |
| Lsm.Reopen | prog2/libhydra/src/engine.rs:18-39 | after a clean reopen the engine answers for the same puts and finds every key |
| Lsm.SearchOverlay | prog2/libhydra/src/sstable.rs:46-83 | looking a key up in the table files, newest first, gives the value of the overlay |
| Merkle.Create | prog3/crypto_primitives.py:19-26 | rejects exactly the empty list |
| Merkle.BuildTree | prog3/crypto_primitives.py:34-47 | the loops build the levels, the last node of an odd level paired with itself |
| Merkle.RootOfLevels | prog3/crypto_primitives.py:26-26 | the first level's only node is the root |
| Merkle.GetProof | prog3/crypto_primitives.py:49-78 | raises exactly on an index out of range; otherwise siblings and sides from leaf to root |
| Merkle.PathEntry | prog3/crypto_primitives.py:52-76 | entry k of the proof of leaf i is what stands beside the node above leaf i on the k-th level, whose number is i halved k times, and that node is on the right if the number is odd |
| Merkle.VerifyProof | prog3/crypto_primitives.py:80-93 | rejects every proof with another leaf hash; otherwise accepts if and only if hashing up along the siblings, each on its side, ends in the root |
| Merkle.ProofsVerify | prog3/crypto_primitives.py:49-93 | the proof of every leaf of every tree is accepted |
| Merkle.RootBinds | prog3/crypto_primitives.py:34-47 | two different leaf lists of one length with one root yield an explicit hash collision |
| Merkle.AcceptedAtIndex | prog3/crypto_primitives.py:80-93 | data accepted under a tree's root along the path of index i are leaf i itself, or there is an explicit collision |
| MerkleBinding.SameRootExactly | prog3/crypto_primitives.py:34-47 | two lists of any lengths, no leaf as long as two digests, have one root if and only if they pair up into the same tree, or else here is a collision |
| MerkleBinding.SameLengthSameTree | prog3/crypto_primitives.py:34-47 | lists of one length have the same tree only if they are equal |
| MerkleBinding.RepeatedLeafSameRoot | prog3/crypto_primitives.py:41-43 | the tree does not fix the length: repeating the last leaf of any odd list longer than one keeps tree and root |
| MerkleBinding.NodeAsLeafSameRoot | prog3/crypto_primitives.py:31-47 | the length of the leaves matters: two leaves, and the one leaf made of their two digests, have one root and different trees |
| MerkleBinding.TreeIsPerfect | prog3/crypto_primitives.py:34-47 | every leaf lies as deep as the stored levels say |
| MerkleBinding.AcceptedIsLeaf | prog3/crypto_primitives.py:80-93 | a proof accepted under a tree's root, with siblings of digest size on any sides and any index, is of data that are some leaf, or there is an explicit collision, provided it has as many siblings as the tree is high or neither data nor leaves are as long as two digests |
| MerkleBinding.NodeIsAccepted | prog3/crypto_primitives.py:80-93 | `verify_proof` does not count the siblings, so a caller must: with none, the two digests below the root of two leaves are accepted though they are no leaf |

## Left out
- Raft timers, threads, stopping and liveness: two simultaneous candidates can wait for each other's locks, so nothing is claimed about what must happen: `NeverStuck` is about what can happen once no round is under way.
- Raft node ids are 0..N-1, the peers are the whole cluster including the node itself, and a call of a peer happens while that peer's lock is free.
- RaftNode.RaftNode.Replicate: models check and append as one step, because the properties fail otherwise, as `RaftLateReplicate` shows.
- Randomness and secrecy: no probability of error of the primality test, no security of encryption, sharing or proofs.
- Paillier.GenerateKeypair: takes the two primes as given, because whether a probable prime is prime is not decided by the code.
- The ThresholdPaillier fields that are never used (delta, verification keys, `partial_decrypt`).
- Timing wheel: a wheel size other than 60 (bucket indices then use the wrong powers), tick durations above 24855 s (32-bit overflow), re-adding an id already scheduled, a clock that is not aligned with the ticks, and `clear`, which resets the tick but not the base time.
- GhostFS: scanning a directory for images, and refusing one without any; inode mode, owner and times; the serialised form of the metadata, which is any list of at most 256 blocks; loading, whose superblock does not decrypt back once the salt is written over it; the C version; negative offsets.
- GhostFs.GhostFs.Write: a write past the end of the file exposes the stale bytes of its new blocks, as stated by its clause on the whole chain.
- Redlock commands still in flight when their gather returns, clock drift between instances, and the asynchronous calls themselves: they are the steps of the state machine.
- Redlock.AcquireLock: the replies and durations of the attempts are inputs; how attempts of different clients interleave is in the state machine.
- Chunker: I/O errors of the reader, and `chunk_data`, which cuts without a maximum size.
- Ring: removal and lookup with colliding points, an id added twice, and the CRC itself.
- LSM: I/O errors, the unused list of table paths after reopening, and searching tables in `get`, which the engine does not do.
- Lsm.Engine.Put: its key is UTF-8, which the source's string type guarantees.
- Vector clocks, circuit breaker, token bucket, Bloom filter, bulletin board and transfer bookkeeping: they would only add easy members.
- FUSE, PNG, QUIC, HTTP, SQL, Redis clients, cgroups, FFI, ML and TLS, and the mock zero-knowledge circuit.
