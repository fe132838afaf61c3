# Verification of the vanity-address search

Dafny models of the search for Algorand vanity addresses, post-quantum (Falcon-1024) and classic
(ed25519), on the CPU and on the GPU, with proofs about them. `dafny verify dfyconfig.toml` checks
everything.

Machine words are integers with an explicit bound, those of SHA-512 bit vectors; where the code wraps, truncates or compares as signed,
the model does. Arrays and structs that the code updates in place are arrays and classes here, and its
loops over them are loops with invariants, proved against a specification. Folds and iterator chains of
the code are functions.

- **Falcon public half** (`Montgomery`, `ModQ`, `Twiddles`, `Negacyclic`, `Ntt`, `NttLoops`,
  `FalconPublic`, `ModqEncode`; `Rows`, `TableRows`, `GmbTable`, `IgmbTable`): from the Montgomery product to
  `f·h = g` in Z_q[x]/(x^1024 + 1), through Fermat's little theorem, the in-place transforms and the 14-bit
  packing; and the 2048 shipped table entries, each proved to be the one that the transforms need.
- **Sampling and the whole device pipeline** (`Sampler`, `PublicKey`): the SHAKE pool, the branch-free
  Gaussian table walk, and from a seed to the bytes of its public key.
- **SHA-512/256** (`Sha512Spec`, `Sha512`, `Sha512Constants`, `ZeroKey`): the streaming struct against
  FIPS 180-4, its constants against the cube roots they are made of, and a known answer.
- **Addresses and targets** (`Base32`, `Address`, `Targets`, `DeviceMatch`, `TargetSet`): bit masks,
  lazy encodings and plain string matching on the 58-character display string agree.
- **Classic keys** (`Ed25519Scalar`, `Ed25519Search`): signed radix-16 recoding, the two-pass schedule
  in any abelian group, batched inversion in any field.
- **Concurrency** (`HitProtocol`, `HitBuffer`, `VerifyHits`): state machines with one transition per
  atomic operation, and inductive invariants over every interleaving.
- **Mnemonics** (`Repack`, `Words`, `Mnemonic`): the 25-word codec, both directions.
- **The two searches** (`SaltSearch`, `GpuSearch`, `GpuRun`, `ClassicSearch`, `Emissions`): the kernel's
  hit, the host's check and the CPU's record for one entropy, and the batch loops over whole runs.
- **End to end** (`Launches`, `KernelHits`, `ClassicKernel`): for either key type, from the threads through
  the hit buffer, the host's copy and its check to what a run emits.

`Bits`, `Digits`, `Sequences` and `Wrappers` hold what the others share.

## Where the code and its promises differ

- The GPU search finds nothing that the CPU would not find, but it can miss: the kernel stops at the first
  matching salt even when that salt is not compliant, and the host then drops the key
  (`cuda/pq_vanity.cu:938-950`). `SaltSearch.NotComplete` gives such a case for every
  curve test, `GpuSearch.GpuResultExactly` the exact condition for one entropy, and
  `KernelHits.BatchFindsExactly` what a batch finds.
- Both kernels compare slots as signed numbers (`cuda/pq_vanity.cu:943`, `cuda/ed25519_vanity.cu:276`): the
  writes stay in the buffer exactly up to 2^31 matches (`HitBuffer.WritesInRange`,
  `HitBuffer.WritesOutOfRange`).
- The hit counter is 32 bits wide, and the post-quantum host clamps it as a signed number
  (`cuda/pq_vanity.cu:1083-1087`), the classic one as unsigned (`cuda/ed25519_vanity.cu:409-413`). For n matches
  the copied count is the minimum of n and the capacity exactly when n < 2^31 or capacity <= n mod 2^32 < 2^31,
  and exactly when n < 2^32 or capacity <= n mod 2^32, respectively: `HitBuffer.CopiedCount`, with
  finished kernels beyond those bounds in `HitBuffer.WrongCount` and `HitBuffer.NothingCopied`.
- `--max-salt` of the GPU search is an unchecked 32-bit number. At 2^32 - 1 the counter wraps before the
  kernel's loop guard fails, so the loop ends exactly when some salt matches: `SaltSearch.LoopEndsExactly`,
  and `SaltSearch.EveryKeyCanHang` for targets at which it does not.

## Model

| member | source | states |
|---|---|---|
| Montgomery.MaskedBy | cuda/pq_vanity.cu:300-310 | the bitwise `x & (0 - b)` on 32 bits keeps x for b = 1 and gives 0 for b = 0 |
| Montgomery.MqConvSmall | cuda/pq_vanity.cu:293-297 | a signed byte becomes its residue mod 12289 |
| Montgomery.MqAdd | cuda/pq_vanity.cu:298-302 | the reduced sum, through the wrapped difference and its sign bit |
| Montgomery.MqSub | cuda/pq_vanity.cu:303-307 | the reduced difference |
| Montgomery.MqRshift1 | cuda/pq_vanity.cu:308-311 | the residue whose double is the argument |
| Montgomery.MqMontymul | cuda/pq_vanity.cu:312-319 | reduced, and 2^16 times it is congruent to the product of the factors; no 32-bit step overflows |
| Montgomery.DivisionChain | cuda/pq_vanity.cu:323-344 | the nineteen products reach exponent exactly q - 2: the result is x·y^(q-2) mod q |
| ModQ.QIsPrime | cuda/pq_vanity.cu:322-323 | 12289 has no divisor between 2 and itself |
| ModQ.Fermat | cuda/pq_vanity.cu:322-323 | y^(q-1) is 1 mod q for every y that q does not divide, from the binomial theorem |
| Montgomery.MqDivIsDivision | cuda/pq_vanity.cu:323-344 | for reduced x and reduced y ≠ 0, quotient times y is congruent to x |
| Twiddles.SevenTo1024 | cuda/falcon_ntt_tables.h:2 | 7^1024 = -1 mod q, so 7 is a primitive 2048-th root of unity |
| Twiddles.ZetaSquare | cuda/falcon_ntt_tables.h:2 | with the factor R removed, s_1² = -1, s_2k² = s_k and s_(2k+1)² = -s_k, for every entry of the table |
| Twiddles.ZetaInverse | cuda/falcon_ntt_tables.h:2 | the two tables hold inverses of each other |
| Twiddles.MontyTwiddle | cuda/pq_vanity.cu:351-356 | a Montgomery product with an entry of the forward table multiplies by the twiddle itself |
| Twiddles.MontyInverseTwiddle | cuda/pq_vanity.cu:371-379 | the same for the inverse table |
| TableRows.EntryUp | cuda/falcon_ntt_tables.h:2 | entry k + 2^j of a table is entry k times the base to the power 2^(9-j), for k below 2^j |
| TableRows.EntriesFollow | cuda/falcon_ntt_tables.h:2 | a table that begins with R and grows by the ten factors of a base holds R times the base to the reversed index, at every index |
| GmbTable.Shipped | cuda/falcon_ntt_tables.h:6-135 | each of the 1024 shipped literals of the forward table is the entry built from 7 |
| IgmbTable.Shipped | cuda/falcon_ntt_tables.h:136-265 | each of the 1024 shipped literals of the inverse table is the entry built from 1/7 |
| Negacyclic.NegMulIsConvolution | cuda/pq_vanity.cu:407-409 | the ring product used here is coefficient by coefficient the negacyclic convolution |
| Negacyclic.EvalNegMul | cuda/pq_vanity.cu:405-409 | evaluating a ring product at a root of x^n + 1 multiplies the values |
| Ntt.LeafPower | cuda/pq_vanity.cu:346-363 | climbing from a leaf of the CRT tree, squaring the leaf value level by level, arrives at the value of the node: every leaf is a root of its block modulus |
| Ntt.ForwardEvaluates | cuda/pq_vanity.cu:346-363 | below every node, output j is the input evaluated at the j-th leaf of that node, so block i holds the input mod (x^(n/m) - c) |
| Ntt.BackwardOfForward | cuda/pq_vanity.cu:365-385 | the inverse butterflies after the forward ones multiply by the length |
| Ntt.ForwardOfBackward | cuda/pq_vanity.cu:365-385 | and in the other order too |
| NttLoops.NttBlock | cuda/pq_vanity.cu:352-359 | the inner loop turns one block in place into its two halves, reduced, and touches nothing else |
| NttLoops.NttStage | cuda/pq_vanity.cu:348-361 | one stage: the transforms of the m blocks before it equal those of the 2m half-size blocks after it |
| NttLoops.MqNTT | cuda/pq_vanity.cu:346-363 | for every reduced array and every logn up to 10 the array becomes the recursive transform of its old contents |
| NttLoops.INttBlock | cuda/pq_vanity.cu:371-380 | the inner loop of the inverse joins two neighbouring blocks in place |
| NttLoops.INttStage | cuda/pq_vanity.cu:368-381 | one inverse stage on all pairs of blocks |
| NttLoops.INttMerge | cuda/pq_vanity.cu:365-384 | all stages of the inverse, before the division by the length |
| NttLoops.InverseLength | cuda/pq_vanity.cu:385-385 | halving R once per level gives the Montgomery form of 1/n |
| NttLoops.ScaleInPlace | cuda/pq_vanity.cu:386-386 | the last loop divides every entry by the length |
| NttLoops.MqINTT | cuda/pq_vanity.cu:365-387 | the array becomes the inverse transform of its old contents, reduced |
| NttLoops.InverseAfterForward | cuda/pq_vanity.cu:346-387 | the inverse transform undoes the transform on every reduced array, for every logn up to 10 |
| NttLoops.ForwardAfterInverse | cuda/pq_vanity.cu:346-387 | and the transform undoes the inverse |
| FalconPublic.RootOfUnity | cuda/pq_vanity.cu:346-363 | every evaluation point is a root of x^n + 1 |
| FalconPublic.TransformEvaluates | cuda/pq_vanity.cu:346-363 | output j is the polynomial evaluated at the j-th root |
| FalconPublic.RootsDiffer | cuda/pq_vanity.cu:346-363 | the roots are pairwise different mod q |
| FalconPublic.TransformOfProduct | cuda/pq_vanity.cu:405-409 | the transform of a ring product is the pointwise product |
| FalconPublic.TransformInjective | cuda/pq_vanity.cu:346-363 | equal transforms mean equal polynomials mod q |
| FalconPublic.ProductIffPointwise | cuda/pq_vanity.cu:400-405 | f·h = g in the ring if and only if the transforms multiply pointwise |
| FalconPublic.UnitIffNoZero | cuda/pq_vanity.cu:389-397 | f has an inverse in the ring if and only if no entry of its transform is zero |
| FalconPublic.QuotientExists | cuda/pq_vanity.cu:400-405 | pointwise division and the inverse transform solve f·h = g |
| FalconPublic.QuotientUnique | cuda/pq_vanity.cu:407-409 | f·h = g has at most one solution mod q when no entry of the transform of f is zero |
| FalconPublic.LoadSmall | cuda/pq_vanity.cu:392-401 | loading small signed coefficients as residues |
| FalconPublic.DevNttFCheck | cuda/pq_vanity.cu:391-397 | leaves the transform of f and reports whether it has no zero |
| FalconPublic.DivideInPlace | cuda/pq_vanity.cu:403-403 | pointwise division in place |
| FalconPublic.DevPubFromNttF | cuda/pq_vanity.cu:400-405 | h becomes the inverse transform of the pointwise quotient |
| FalconPublic.DevComputePublic | cuda/pq_vanity.cu:409-413 | succeeds if and only if f is a unit of Z_q[x]/(x^1024 + 1); then h is reduced and is the one polynomial with f·h = g; otherwise h is untouched |
| ModqEncode.TakeCoefficient | cuda/pq_vanity.cu:497-499 | shifting a coefficient into the 32-bit accumulator keeps every pending bit although older bits fall off the top |
| ModqEncode.WriteByte | cuda/pq_vanity.cu:500-503 | writing the top eight pending bits keeps the number |
| ModqEncode.DevModqEncode | cuda/pq_vanity.cu:494-507 | the header byte, then 1792 bytes whose big-endian value is the polynomial read in base 2^14, and nothing left over |
| ModqEncode.EncodingIsInjective | cuda/pq_vanity.cu:494-507 | two public keys are equal if and only if their polynomials are |
| Sampler.LoadLe64 | cuda/pq_vanity.cu:171-184 | eight bytes, least significant first, by shifts |
| Sampler.FillState | cuda/pq_vanity.cu:171-184 | the 25 lanes hold the padded 136-byte block of a 32-byte seed in SHAKE256, and zeros |
| Sampler.Shake.constructor | cuda/pq_vanity.cu:171-184 | a fresh pool on the absorbed seed, with no word squeezed |
| Sampler.Refill | cuda/pq_vanity.cu:186-194 | one permutation, then the seventeen rate lanes into the pool |
| Sampler.Shake.Squeeze | cuda/pq_vanity.cu:186-194 | the k-th word squeezed is lane k mod 17 of the state after k/17 + 1 permutations |
| Sampler.WalkTable | cuda/pq_vanity.cu:204-213 | the branch-free walk finds the first table index not above the draw, or 0 when the first draw said so |
| Sampler.DevMkGauss | cuda/pq_vanity.cu:197-217 | the sign is the top bit of the first of two words; the sample is zero if and only if the rest of that word is below entry 0; otherwise its magnitude is one more than the number of later entries above the rest of the second word; it lies in -26..26 |
| Sampler.TableFalls | cuda/pq_vanity.cu:204-213 | from entry 1 on the table falls strictly |
| Sampler.FillBody | cuda/pq_vanity.cu:221-232 | the first 1023 coefficients are consecutive samples, none ever rejected, and the parity is tracked |
| Sampler.DevPolySmallMkgauss | cuda/pq_vanity.cu:221-232 | 1023 consecutive samples; then, after so many draws of the loop for the last coefficient: still drawing if and only if each of them made the sum even, and once left, the polynomial ends with the first that made it odd |
| Sampler.PolySamples | cuda/pq_vanity.cu:221-232 | coefficient u of such a polynomial is the sample of words 2u and 2u + 1 of its stretch, the last one of the words that ended the loop, and the coefficients sum to an odd number |
| PublicKey.DevSampleFg | cuda/pq_vanity.cu:237-243 | f and then g are the first two polynomials of the seed's stream; it fails only if no sample fits the allowed number of draws |
| PublicKey.FirstSampleUnique | cuda/pq_vanity.cu:234-243 | a seed determines its first sample |
| PublicKey.StreamBeginsWithF | cuda/pq_vanity.cu:237-243 | the first words of the stream make f, two a coefficient |
| PublicKey.PublicKeyUnique | cuda/pq_vanity.cu:511-518 | a pair of polynomials has one encoded public key |
| PublicKey.PublicKeyExists | cuda/pq_vanity.cu:511-518 | a pair whose f is invertible has one |
| PublicKey.DevSeedFromEntropy | cuda/pq_vanity.cu:722-731 | the keygen seed is the hash of the tag and the entropy |
| PublicKey.DevPubkeyFromSeed | cuda/pq_vanity.cu:511-518 | from seed to bytes: the encoding of the unique quotient of the seed's first sample, or the report that f has no inverse, or that no sample fits the allowed number of draws |
| Sha512.DeviceBigSigma0 | cuda/pq_vanity.cu:653-653 | the S0 made of shifts and ors is the standard's |
| Sha512.DeviceBigSigma1 | cuda/pq_vanity.cu:650-650 | the S1 made of shifts and ors is the standard's |
| Sha512.DeviceSmallSigma0 | cuda/pq_vanity.cu:645-645 | the s0 made of shifts and ors is the standard's |
| Sha512.DeviceSmallSigma1 | cuda/pq_vanity.cu:646-646 | the s1 made of shifts and ors is the standard's |
| Sha512.DeviceLoad | cuda/pq_vanity.cu:629-635 | eight bytes shifted into place and or-ed together are the big-endian word |
| Sha512.ScheduleStep | cuda/pq_vanity.cu:644-648 | the device's schedule word, summed in its own order, is the standard's |
| Sha512.RingAdvances | cuda/pq_vanity.cu:626-648 | overwriting the oldest of the sixteen ring slots keeps the ring on the 80-word schedule |
| Sha512.NextWord | cuda/pq_vanity.cu:640-649 | the word of round i |
| Sha512.AddInto | cuda/pq_vanity.cu:658-659 | the working variables added into the chaining value |
| Sha512.Sha512Compress | cuda/pq_vanity.cu:626-660 | eighty rounds over the ring are the compression of section 6.4.2 of FIPS 180-4 |
| Sha512.Hasher.constructor | cuda/pq_vanity.cu:610-621 | the struct stands for the empty message |
| Sha512.Hasher.CopyIn | cuda/pq_vanity.cu:667-668 | the buffer takes the next bytes |
| Sha512.Hasher.TopUp | cuda/pq_vanity.cu:664-678 | the partial block is completed as far as the data goes |
| Sha512.Hasher.AbsorbBlocks | cuda/pq_vanity.cu:679-685 | whole blocks straight from the data, then the remainder into the buffer |
| Sha512.Hasher.Update | cuda/pq_vanity.cu:662-686 | the struct now stands for the old message followed by the data; the buffered length stays below 128 |
| Sha512.PadShort | cuda/pq_vanity.cu:690-702 | a tail with room for the length pads to one block |
| Sha512.PadLong | cuda/pq_vanity.cu:693-698 | a tail without room pads to two |
| Sha512.LengthBytes | cuda/pq_vanity.cu:701-701 | the shifted length bytes are the big-endian bit length |
| Sha512.Hasher.FinishBlocks | cuda/pq_vanity.cu:690-702 | the padded message is hashed |
| Sha512.Hasher.Final | cuda/pq_vanity.cu:689-708 | the output is SHA-512/256, as FIPS 180-4 defines it, of everything absorbed, below 2^61 bytes |
| Sha512.HashPieces | cuda/pq_vanity.cu:610-708 | however the message is cut into update calls, the result is the hash of the whole |
| Sha512.PadLaw | cuda/pq_vanity.cu:689-702 | the padded message is the message, 0x80, the fewest zeros that complete a block, and sixteen bytes whose value is the length in bits |
| Sha512Constants.FirstPrimes | cuda/pq_vanity.cu:569-597 | the list of eighty holds exactly the primes up to 409, in increasing order |
| Sha512Constants.ConstantIsCubeRoot | cuda/pq_vanity.cu:569-597 | the t-th constant is the first 64 bits of the fractional part of the cube root of the t-th prime |
| ZeroKey.ZeroHash | cuda/pq_vanity.cu:610-708 | the SHA-512/256 of 32 zero bytes, all eighty rounds worked out |
| ZeroKey.ZeroAddress | crates/pq-core/src/address.rs:62-88 | the zero address is displayed as 52 letters A and Y5HFKQ |
| ZeroKey.ZeroMnemonic | crates/pq-core/src/mnemonic.rs:116-123 | the zero key is printed as the first word and a space 24 times and then word 943 |
| Address.CommonHead | crates/pq-core/src/address.rs:78-88 | the first 51 characters of the display string do not depend on the checksum |
| Address.LastCharacter | crates/pq-core/src/address.rs:62-69 | the last character always has two zero bits |
| Address.DevPqAddr32 | cuda/pq_vanity.cu:711-718 | the device's address is the host's |
| Base32.GroupsValue | crates/pq-core/src/address.rs:64-69 | regrouping eight-bit bytes as five-bit characters keeps the number |
| Base32.IndicesValue | crates/pq-core/src/address.rs:64-69 | the encoding read in base 32 is the number of the bytes, shifted by the padding bits |
| Base32.EncodePrefix | crates/pq-core/src/address.rs:81-85 | characters wholly inside the first bytes do not depend on what follows |
| Targets.ImpossibleSuffix | crates/pq-vanity/src/targets.rs:36-40 | a suffix that ends in another character can never match any address |
| Targets.OwnPattern | crates/pq-vanity/src/targets.rs:170-186 | every cut of an address's own display string into prefix and suffix is a valid pattern and matches that address |
| Targets.FoldBitsValue | crates/pq-vanity/src/targets.rs:76-95 | the 128-bit shift-and-or fold is the pattern read as a base-32 number |
| Targets.PrefixMask | crates/pq-vanity/src/targets.rs:76-95 | the prefix mask test holds if and only if the display string starts with the prefix |
| Targets.SuffixMask | crates/pq-vanity/src/targets.rs:76-95 | the suffix mask test holds if and only if the display string ends with the suffix, padding bits included |
| Targets.MaskIsDisplayMatch | crates/pq-vanity/src/targets.rs:70-95 | for every address and every target that fits the device, the mask form agrees with string matching |
| DeviceMatch.Be64 | cuda/pq_vanity.cu:794-799 | eight bytes, most significant first |
| DeviceMatch.LowWord | cuda/pq_vanity.cu:812-820 | the low word is the last eight bytes of address and checksum |
| DeviceMatch.MatchTargets | cuda/pq_vanity.cu:804-826 | the lazy loop returns 1 if and only if some row accepts the address |
| DeviceMatch.RowIsDisplayMatch | cuda/ed25519_vanity.cu:79-95 | a row without suffix mask, which skips the checksum, still agrees with string matching |
| DeviceMatch.MatchDisplayOnDevice | cuda/ed25519_vanity.cu:79-95 | on the device an address is a hit if and only if its display string matches some target of the table |
| TargetSet.Complaint | crates/pq-vanity/src/targets.rs:165-184 | no complaint if and only if the pattern is valid |
| TargetSet.Dedup | crates/pq-vanity/src/targets.rs:185-187 | the same patterns, each once |
| TargetSet.DedupKeepsOrder | crates/pq-vanity/src/targets.rs:185-187 | in the order of their first occurrences |
| TargetSet.ProductAt | crates/pq-vanity/src/targets.rs:156-162 | prefix i with suffix j stands at i times the number of suffixes plus j |
| TargetSet.ProductHas | crates/pq-vanity/src/targets.rs:156-162 | the expansion holds exactly the combinations of a given prefix and a given suffix |
| TargetSet.Expand | crates/pq-vanity/src/targets.rs:156-162 | the two loops build the expansion that the two rows above describe |
| TargetSet.CheckAll | crates/pq-vanity/src/targets.rs:164-188 | succeeds if and only if every pattern is valid, and returns the first occurrences in order; an error is the first complaint about the first bad pattern |
| TargetSet.Validate | crates/pq-vanity/src/targets.rs:164-197 | accepts exactly non-empty lists of valid patterns with at most 1024 different ones; sets the longest prefix and the retirement mode; an error names the first complaint, or that there are no targets, or too many |
| TargetSet.ParseLists | crates/pq-vanity/src/targets.rs:152-198 | from a prefix list and a suffix list: the targets are exactly the combinations, each once in the order of first occurrence, and it succeeds if and only if there is one, all are valid and at most 1024 are different; longest prefix, retirement mode and error as in the row above |
| TargetSet.LongestPrefix | crates/pq-vanity/src/targets.rs:195-195 | the maximum of the prefix lengths |
| TargetSet.TargetSet.Claim | crates/pq-vanity/src/targets.rs:227-234 | in retiring mode only an active target can be claimed and it is retired; nothing else changes |
| TargetSet.TargetSet.AnyActive | crates/pq-vanity/src/targets.rs:221-223 | whether some flag is set |
| TargetSet.TargetSet.FirstMatchDisplay | crates/pq-vanity/src/targets.rs:285-287 | the first active target that the display string matches |
| TargetSet.HeadDecidesPrefix | crates/pq-vanity/src/targets.rs:252-266 | a prefix can be checked on the encoding of enough leading bytes |
| TargetSet.TargetSet.FirstMatch | crates/pq-vanity/src/targets.rs:255-282 | the lazy matcher returns the same index as the matcher on the full display string |
| HitProtocol.ReachableInv | crates/pq-vanity/src/search.rs:144-183 | every step of every interleaving keeps the invariant: hits are the winners plus the over-counts not yet undone, and those exist only when the budget is spent |
| HitProtocol.BudgetKept | crates/pq-vanity/src/search.rs:157-163 | no step breaks the accounting of hits against winners and pending undos |
| HitProtocol.NumbersKept | crates/pq-vanity/src/search.rs:157-174 | every number stays with exactly one worker or at one place of the output |
| HitProtocol.RetiredKept | crates/pq-vanity/src/targets.rs:227-234 | claimed and won targets stay retired and pairwise different |
| HitProtocol.ExclusiveKept | crates/pq-vanity/src/search.rs:171-183 | the lock is held by exactly the worker inside it |
| HitProtocol.WindingKept | crates/pq-vanity/src/search.rs:175-177 | when the budget is spent or no target is left, stop is set or some worker is about to set it |
| HitProtocol.PhasesKept | crates/pq-vanity/src/search.rs:157-183 | a worker that undoes an over-count has seen the budget met, a scan has passed no active target, and one about to store stop has it due |
| HitProtocol.NeverTooMany | crates/pq-vanity/src/search.rs:157-174 | in every interleaving at most `count` records are printed, under different numbers |
| HitProtocol.NoTargetTwice | crates/pq-vanity/src/classic.rs:162-183 | in retiring mode no target is printed twice |
| HitProtocol.LockExcludes | crates/pq-vanity/src/search.rs:171-183 | two workers are never inside the lock together |
| HitProtocol.QuietState | crates/pq-vanity/src/search.rs:144-183 | with no worker mid-record, hits is the number printed, the numbers are exactly 1..hits, and stop is set if the budget is met or no target is left |
| HitProtocol.RunReturns | crates/pq-vanity/src/search.rs:95-99 | what the run returns is the number of records printed |
| HitProtocol.StopOnlyWhenDue | crates/pq-vanity/src/search.rs:101-183 | stop is stored only when entropy fails, the budget is met or no target is left |
| HitProtocol.HitIsPrinted | crates/pq-vanity/src/search.rs:157-183 | a worker with a match of an active target, while the budget is open and the lock free, prints exactly it under the next number, retires its target when retiring, goes on searching, and stores stop if and only if the budget is then met or no target is left |
| HitProtocol.LateHit | crates/pq-vanity/src/search.rs:157-166 | a match after the budget is spent leaves hits and output as they were and stores stop |
| HitProtocol.LostRace | crates/pq-vanity/src/search.rs:154-156 | a match of a retired target changes nothing |
| HitProtocol.NeverBlocked | crates/pq-vanity/src/search.rs:157-183 | in every reachable state a worker inside `record_hit` has a step unless it waits for the lock: no undo underflows |
| HitProtocol.NoDeadlock | crates/pq-vanity/src/search.rs:101-183 | while some worker has not exited, some worker has a step |
| HitBuffer.ReachableInv | cuda/pq_vanity.cu:941-948 | every interleaving of device threads keeps grants distinct and each grant pending, dropped or written once |
| HitBuffer.FinishedBuffer | cuda/pq_vanity.cu:941-948 | with at most 2^31 matches each slot below the minimum of matches and capacity is written exactly once, with the record of another matching key, and no other slot |
| HitBuffer.NeverStuck | cuda/pq_vanity.cu:939-949 | in every reachable state each unfinished thread has a step |
| HitBuffer.CanFinish | cuda/pq_vanity.cu:909-951 | whatever the threads find, the kernel can finish |
| HitBuffer.NothingLost | cuda/ed25519_vanity.cu:256-282 | when everything fits, some slot holds the record of every matching key |
| HitBuffer.WritesInRange | cuda/pq_vanity.cu:941-943 | the signed slot comparison keeps all writes inside the buffer if and only if there are at most 2^31 matches |
| HitBuffer.CopiedCount | cuda/pq_vanity.cu:1083-1087 | for n matches, n of any size, the signed clamp gives the minimum if and only if n < 2^31 or the capacity is at most n mod 2^32 < 2^31; the unsigned one of the classic host if and only if n < 2^32 or the capacity is at most n mod 2^32 |
| HitBuffer.WritesOutOfRange | cuda/pq_vanity.cu:941-943 | with 2^31 + 1 matches a kernel can finish having written outside the buffer, whatever its capacity |
| HitBuffer.WrongCount | cuda/pq_vanity.cu:1083-1087 | with 2^31 matches a kernel can finish so that the signed clamp copies a wrong number of records, whatever the capacity |
| HitBuffer.NothingCopied | cuda/ed25519_vanity.cu:407-413 | with 2^32 matches a kernel can finish so that either host copies nothing |
| HitBuffer.WriteEntropy | cuda/pq_vanity.cu:81-88 | the two loops write the base's first 24 bytes and then eight bytes whose little-endian value is the counter |
| HitBuffer.EntropiesDiffer | cuda/pq_vanity.cu:81-88 | with the wrapping 64-bit counter, all entropies of a batch of up to 2^64 keys differ |
| HitBuffer.KeyEntropyParts | cuda/pq_vanity.cu:81-88 | key i has the base's first 24 bytes and, in its last eight, the counter start + i modulo 2^64 |
| HitBuffer.FirstKeyIsBase | crates/pq-vanity/src/classic.rs:39-49 | the run that starts at the base's own counter begins with the base itself |
| Launches.CopiedIsResult | cuda/pq_vanity.cu:939-949 | every record that a host copies is the result of some key |
| Launches.CopiedApart | cuda/pq_vanity.cu:939-949 | two copied records are the results of two different keys |
| Launches.CopyIsComplete | cuda/ed25519_vanity.cu:407-413 | when everything fits, a full copy holds the result of every key that has one |
| Launches.EdCanRead | cuda/ed25519_vanity.cu:407-413 | all records that the unsigned clamp makes the host copy have been written, whatever the number of matches |
| Launches.PqCanRead | cuda/pq_vanity.cu:1083-1087 | for the signed clamp that holds if and only if the number of matches mod 2^32 is below 2^31 |
| Ed25519Scalar.LoadNibbles | cuda/ed25519_vanity.cu:149-152 | two base-16 digits per byte |
| Ed25519Scalar.PropagateCarry | cuda/ed25519_vanity.cu:153-160 | the digits keep their weighted sum, and no signed char overflows |
| Ed25519Scalar.Recode | cuda/ed25519_vanity.cu:148-160 | for every scalar with the top bit clear, 64 digits in -8..8 whose weighted sum is the scalar |
| Ed25519Search.TimesAdd | cuda/ed25519_vanity.cu:144-184 | in an abelian group (m + n)·p = m·p + n·p, for all integers |
| Ed25519Search.SelectIsMultiple | cuda/ed25519_vanity.cu:121-143 | the selection is digit·256^pos·B; the table index is always in range |
| Ed25519Search.HalvesMakeWhole | cuda/ed25519_vanity.cu:166-183 | even digits plus sixteen times the odd ones make the scalar |
| Ed25519Search.Pass | cuda/ed25519_vanity.cu:166-170 | one pass adds the multiples for all digits of one parity |
| Ed25519Search.ScalarMultBase | cuda/ed25519_vanity.cu:146-184 | odd pass, four doublings, even pass: the result is a·B in any abelian group |
| Ed25519Search.PrefixProducts | cuda/ed25519_vanity.cu:218-224 | acc[k] is the product of the first k + 1 coordinates |
| Ed25519Search.BatchInvert | cuda/ed25519_vanity.cu:225-236 | every key gets the inverse of its own Z from one inversion |
| Ed25519Search.EncodeBatch | cuda/ed25519_vanity.cu:187-237 | the batch's encodings are those of its points one by one |
| Repack.TakeDigit | crates/pq-core/src/mnemonic.rs:31-33 | or-ing in an input digit at the fill level keeps the number, for either packing |
| Repack.ToUint11Array | crates/pq-core/src/mnemonic.rs:27-44 | the little-endian number of the bytes, in base 2048 |
| Repack.ToByteArray | crates/pq-core/src/mnemonic.rs:47-64 | the little-endian number of the values, in base 256 |
| Repack.UnpackedOfPacked | crates/pq-core/src/mnemonic.rs:27-64 | for every byte string, packing then unpacking gives it back followed only by zero bytes |
| Repack.PackedOfUnpacked | crates/pq-core/src/mnemonic.rs:99-105 | 24 values whose 33rd byte is zero are recovered from the 32 bytes |
| Words.SplitWs | crates/pq-core/src/mnemonic.rs:87-87 | the parts of a split are never empty and hold no white space |
| Words.SplitKeepsText | crates/pq-core/src/mnemonic.rs:87-87 | splitting loses nothing but white space |
| Words.SplitOfJoin | crates/pq-core/src/mnemonic.rs:73-87 | splitting undoes joining with single spaces |
| Words.JoinLength | crates/pq-core/src/mnemonic.rs:73-82 | the joined text is as long as its words and one character between each two |
| Words.JoinKeepsText | crates/pq-core/src/mnemonic.rs:73-82 | without its white space the joined text is the words put together |
| Words.JoinIsOnly | crates/pq-core/src/mnemonic.rs:73-87 | the joined text is the one text that splits into these words, has no white space but plain spaces, and no character to spare |
| Mnemonic.ChecksumWord | crates/pq-core/src/mnemonic.rs:67-70 | the word at the first eleven bits of the hash |
| Mnemonic.KeyToMnemonic | crates/pq-core/src/mnemonic.rs:73-82 | the 24 data words and the checksum word, joined with single spaces |
| Mnemonic.Position | crates/pq-core/src/mnemonic.rs:94-96 | the first place of the word, if it has one |
| Mnemonic.OnlyKey | crates/pq-core/src/mnemonic.rs:99-109 | 25 known words are a key's mnemonic if and only if they unpack to that key and a zero byte and the checksum word is right |
| Mnemonic.MnemonicToKey | crates/pq-core/src/mnemonic.rs:86-110 | returns key k if and only if the words of the text are those of the mnemonic of k; wrong count and unknown word exactly in their cases, anything else being the checksum error; so printing k gives the words of the text joined by single spaces |
| Mnemonic.RoundTrip | crates/pq-core/src/mnemonic.rs:126-138 | every key survives printing and parsing |
| SaltSearch.CanonicalFrom | crates/pq-core/src/address.rs:154-160 | the lowest salt with a compliant address, if any |
| SaltSearch.WorkerKey | crates/pq-vanity/src/search.rs:114-138 | the CPU records the canonical salt's address if it matches, or in the other mode the lowest salt in range that matches and is compliant; nothing otherwise |
| SaltSearch.CpuFindsOne | crates/pq-vanity/src/search.rs:114-138 | a key has at most one record |
| SaltSearch.TableAgrees | crates/pq-vanity/src/targets.rs:237-242 | the device table of active targets matches an address if and only if the host finds an active target for it |
| SaltSearch.TrySalt | cuda/pq_vanity.cu:939-940 | one iteration hits if and only if the address at that salt matches an active target |
| SaltSearch.SaltLoop | cuda/pq_vanity.cu:938-950 | for any 32-bit bound, after so many iterations of the wrapping counter: still running if and only if none of them leaves the loop; once left, the hit is the lowest matching salt in range, or there is none |
| SaltSearch.LoopEndsExactly | cuda/pq_vanity.cu:938-938 | some iteration leaves the loop if and only if the bound is below 2^32 - 1 or some salt matches, and 2^32 iterations decide it |
| SaltSearch.StepsTell | cuda/pq_vanity.cu:938-950 | a left loop ends, and one that runs for 2^32 iterations never does |
| SaltSearch.EveryKeyCanHang | crates/pq-vanity/src/main.rs:189-190 | for every key there is a valid two-character target for which, at the bound 2^32 - 1, the loop never ends |
| SaltSearch.GpuFindsExactly | cuda/pq_vanity.cu:938-950 | the GPU finds what the CPU finds if and only if the salt is in range and no lower salt matches, compliant or not |
| SaltSearch.NotComplete | cuda/pq_vanity.cu:938-950 | for every key and curve test that rejects the address at salt 0 and accepts that at salt 1 there are two targets for which the CPU records salt 1 and the GPU nothing |
| GpuSearch.KeygenStopsAtOnce | crates/pq-core/src/fast.rs:160-168 | when the first attempt is accepted, key generation uses it |
| GpuSearch.SameKey | crates/pq-core/src/fast.rs:101-129 | the device and the generator agree on the first attempt, and on the public key when it is accepted |
| GpuSearch.FaithfulExists | crates/pq-core/src/fast.rs:160-170 | generators that meet the assumptions exist, with an accepted attempt for every seed |
| GpuSearch.KernelThread | cuda/pq_vanity.cu:909-951 | one thread, for any 32-bit salt bound: the encoded quotient of the entropy's first sample, the state of its salt loop, and with 2^32 iterations whether it ends; no hit without a key |
| GpuSearch.Verdict | crates/pq-vanity/src/main.rs:544-583 | the verdict on a hit is v if and only if the first attempt is accepted, its address at that salt is compliant and matches v's target first, and the salt is the canonical one when asked |
| GpuSearch.VerifyOne | crates/pq-vanity/src/main.rs:544-583 | accepts exactly a compliant match of an active target by the accepted first attempt, at the canonical salt when asked |
| GpuSearch.GpuResultExactly | crates/pq-vanity/src/main.rs:544-583 | for every entropy, a hit that the host accepts is exactly the (salt, address, target) that the CPU records, in both modes, and there is one if and only if the CPU has one, the first attempt is accepted, the salt is in range and no lower salt matches |
| KernelHits.WholeThread | cuda/pq_vanity.cu:920-950 | a finished thread's record is its key's entropy and lowest matching salt, or it has none and no salt matches; a thread is unfinished only if no sample fits the draws or its salt loop runs for all the iterations |
| KernelHits.ThreadHitUnique | cuda/pq_vanity.cu:938-950 | an entropy has one hit at most |
| KernelHits.BufferRecords | cuda/pq_vanity.cu:939-949 | slot i holds the entropy and the lowest matching salt of the i-th key granted a slot, and no two records have the same entropy |
| KernelHits.EveryHitIsRecorded | cuda/pq_vanity.cu:939-949 | when everything fits, every key that hits has its record, at its lowest matching salt |
| KernelHits.LaunchExists | cuda/pq_vanity.cu:1083-1087 | all the records that the host wants to copy from a finished kernel have been written if and only if the number of matches mod 2^32 is below 2^31 |
| KernelHits.CheckHits | crates/pq-vanity/src/main.rs:587-610 | verify_hits over verify_one, its threads in any order, gives for each copied record exactly the host's verdict |
| KernelHits.HitIsCpuResult | crates/pq-vanity/src/main.rs:544-583 | a thread's hit that the host accepts is the CPU's record for that entropy |
| KernelHits.CheckedMatches | crates/pq-vanity/src/main.rs:700-702 | the host's verdicts on the copied records meet what the batch loop assumes of them |
| KernelHits.FindableIsGpuResult | crates/pq-vanity/src/main.rs:544-583 | for one entropy, device hit and host acceptance together mean: the CPU's record, by the first attempt, in the salt range, below no other matching salt |
| KernelHits.BatchFindsExactly | crates/pq-vanity/src/main.rs:663-702 | a batch with room for its hits: the verdicts are exactly what the CPU records for its keys by their first attempts, in the salt range, with no lower matching salt |
| KernelHits.EmissionIsVerdict | crates/pq-vanity/src/main.rs:698-736 | every emission of a run is a verdict of its own batch |
| KernelHits.RunEmitsCpuResults | crates/pq-vanity/src/main.rs:663-752 | every address that a run emits is what the CPU search, with the targets active when the batch was launched, records for the entropy of some key of that batch |
| VerifyHits.StepThread | crates/pq-vanity/src/main.rs:600-604 | one thread fills its next slot and keeps all others |
| VerifyHits.VerifyHits | crates/pq-vanity/src/main.rs:587-610 | with the chunk threads interleaved in any order, slot i gets exactly the verdict on hit i |
| VerifyHits.ChunkSize | crates/pq-vanity/src/main.rs:597-598 | at least one hit per chunk and no more chunks than workers |
| GpuRun.CheckIsFresh | crates/pq-vanity/src/main.rs:703-711 | the checks at emission time come to a condition on the flags at the start of the batch |
| GpuRun.EmitBatch | crates/pq-vanity/src/main.rs:698-736 | a batch emits, in order and up to the remaining count, exactly the hits with no earlier live hit that rules them out |
| GpuRun.DueIsGood | crates/pq-vanity/src/main.rs:698-736 | what a batch emits is consecutively numbered, for matching targets active when it began, none twice when retiring, one at most without siblings |
| GpuRun.NothingWithheld | crates/pq-vanity/src/main.rs:698-736 | a live hit is emitted itself when siblings are allowed and targets stay, its target is hit when siblings are allowed, and some hit is emitted in any case, room permitting |
| Emissions.GoodLogExtends | crates/pq-vanity/src/main.rs:698-752 | a good batch after a good run is a good run |
| Emissions.FlagsNext | crates/pq-vanity/src/targets.rs:227-234 | one more emission retires its target and no other |
| Emissions.FlagsJoin | crates/pq-vanity/src/main.rs:668-747 | the flags after two runs of emissions are those after both |
| GpuRun.CmdGpu | crates/pq-vanity/src/main.rs:663-752 | over every sequence of verified batches: at most `count` emissions, exactly those due batch by batch, a good log, the flags that remain; never more batches than the limit, no batch after one that met the count or retired the last target, and a stop only for one of these three reasons |
| GpuRun.UsableMatches | crates/pq-vanity/src/main.rs:560-563 | what the host's check accepts matches an active target |
| ClassicSearch.CpuRun | crates/pq-vanity/src/classic.rs:132-160 | consecutive seeds from the base; the first seed whose own address matches a target active by then ends the run, under the first such target; every seed tried is counted once; the stop flag is obeyed at every 1024th seed |
| ClassicSearch.RunSeeds | crates/pq-vanity/src/classic.rs:39-49 | the seeds of a run differ and the first is the base |
| ClassicSearch.EmitClassicBatch | crates/pq-vanity/src/classic.rs:273-300 | each emission has the next number and is for the first target still active that the hit matches; nothing is passed over that could have been emitted; the flags are those that remain |
| ClassicSearch.EntryIsActive | crates/pq-vanity/src/classic.rs:278-293 | an emission's target was active when the batch began, no earlier emission of the batch retired it, and the hit matches it |
| ClassicSearch.GreedyIsGood | crates/pq-vanity/src/classic.rs:273-300 | a batch's emissions are for different targets when retiring, and one at most without siblings |
| ClassicSearch.CmdGpuClassic | crates/pq-vanity/src/classic.rs:260-311 | over every sequence of batches: at most `count` emissions numbered from 1, each batch greedy on the flags that the emissions before it left, each target active at the start and matched, none twice when retiring, one batch each without siblings; never more batches than the limit, no batch after one that met the count or retired the last target, and a stop only for one of these three reasons |
| ClassicKernel.PubkeysBatch | cuda/ed25519_vanity.cu:213-238 | each key's encoding is that of its own seed's multiple of the base point, for any abelian group and any field, whatever projective coordinates the arithmetic arrives at |
| ClassicKernel.DeriveSeeds | cuda/ed25519_vanity.cu:271-271 | the seeds of consecutive keys |
| ClassicKernel.SearchThread | cuda/ed25519_vanity.cu:256-282 | one thread finds, among its at most eight keys, exactly the seeds whose own addresses match some target of the table |
| ClassicKernel.SearchKernel | cuda/ed25519_vanity.cu:256-282 | the threads of a launch find exactly those of all its keys |
| ClassicKernel.SeedRecords | cuda/ed25519_vanity.cu:274-280 | the buffer holds only matching seeds of the batch, each once, however many there are |
| ClassicKernel.NoSeedLost | cuda/ed25519_vanity.cu:274-280 | when everything fits, it holds all of them |
| ClassicKernel.LaunchExists | cuda/ed25519_vanity.cu:407-413 | the records that the host wants to copy from a finished kernel have always been written |
| ClassicKernel.HitIsMatchingSeed | cuda/ed25519_vanity.cu:376-413 | every seed that the host gets is one of the batch's and matches |
| ClassicKernel.HitsDiffer | cuda/ed25519_vanity.cu:376-413 | no seed comes twice |
| ClassicKernel.HitsExactly | cuda/ed25519_vanity.cu:376-413 | when everything fits, the host gets exactly the matching seeds of the batch |
| ClassicKernel.FoundIfMatching | crates/pq-vanity/src/targets.rs:237-242 | the table of active targets matches an address if and only if the host's matcher finds a target |
| ClassicKernel.HostAgrees | crates/pq-vanity/src/classic.rs:276-287 | the host's check never discards a device hit: its address matches a target that was active when the batch was launched |
| ClassicKernel.EmissionIsSeed | crates/pq-vanity/src/classic.rs:260-311 | every address that a run emits is that of a seed of its own batch and matches the target it is emitted for |
| ClassicKernel.EmitsExactly | crates/pq-vanity/src/classic.rs:260-311 | while addresses are wanted, a batch emits one if and only if its hit counter has not come back to zero: below 2^32 matches, if and only if some seed of it matches a target active at its launch |

## Left out

- Sampler.DevPolySmallMkgauss: takes a number of draws for the last coefficient, which the code repeats without bound; whether some number is enough depends on the stream and is not claimed.
- GpuSearch.KernelThread: takes a number of salt-loop iterations and a number of draws, since at one salt bound the loop need not end; 2^32 iterations are always enough to tell.
- GpuSearch.GpuResultExactly: the reference key generator is a stream of attempts with an acceptance test; `GpuSearch.FaithfulExists` shows that the assumptions can be met, but that an accepted attempt's public key is the encoded quotient, and that its first attempt is the device's first sample, are assumptions about vendored C that is not part of this model.
- Sampler.FillBody: the rejection loop of the first 1023 coefficients is not written out, since every sample lies in -26..26 and none can be rejected.
- HitProtocol: sequentially consistent atomics and an unbounded hit counter (the code's is 64 bits wide); drawing entropy, signing and writing files between the steps are not modelled.
- HitBuffer: sequentially consistent `atomicAdd`, and one step for the copy of a record.
- The Keccak permutation and the curve test are parameters; nothing proved depends on what they compute.
- The word list is a parameter: 2048 different words without white space.
- The floating-point norm filter and the in-seed retry kernel, NTRU solving, and Gram-Schmidt norms.
- Ed25519 field limbs, point formulas and decompression: an abstract field and an abstract group stand for them; a seed's clamped scalar is a parameter.
- Splitting and upper-casing the command-line patterns, labels, hit-rate estimates and progress output.
- Entropy sources, files, printing, benchmarks, CUDA grids (their block count is truncated to 32 bits) and memory copies.
- Sign-and-verify round trips of emitted keys: their outcome is only printed.
