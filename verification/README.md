# Verified model of the zeratul core

A Dafny model of the deterministic core of the repository and proofs of what it promises:

- **Additive FFT and Reed-Solomon code** (`reed-solomon/`). The twiddle table that `compute_twiddles` fills in one reused buffer is the heap of normalised subspace polynomials. The in-place butterflies evaluate in the novel polynomial basis. The encoder is systematic and is a maximum-distance code.
- **Merkle trees** (`merkle-tree/`, `crates/ligerito-escrow`). Batched openings are complete exactly for non-empty strictly increasing index lists. They bind the leaf to the position of its index in a block of the size of the tree, for every index list, because the verifier never compares an index with that size. Single paths are binding at full length.
- **Threshold sharing** (`crates/ligerito-escrow`, `crates/ghettobox`). Shamir reconstruction, hiding, the threshold OPRF "in the exponent", its DLEQ proofs and its misbehaviour reports, and the two-of-three byte sharing.
- **Binary fields** (`binary-fields/`, `vss.rs`). Both multiplication algorithms and long division are one reduction. An irreducible modulus gives a field, inversion by exponentiation is correct there, and `from_bits` is injective. A criterion for irreducibility is proved in general and carried out for the moduli of `gf256_mul`, `BinaryElem16` and `BinaryElem32`, by computing with polynomials as numbers.
- **Multilinear folding** (`ligerito/src/utils.rs`). The in-place fold is the weighting by the explicit Lagrange basis.
- **Staked ballot** (`crates/narsil`). A state machine over all runs: sealed votes are frozen, every reveal opens its commitment, and delegated stake is never counted twice exactly when no key can use two nullifiers.
- **Guess-limited vault** (`crates/ghettobox-vault-guest`). A state machine over packed byte records and all runs of requests.

Fields are values: `Field<T>` with the predicates `IsField` and `IsBinary` (characteristic 2), so the results hold for every field. `GaloisField` builds these fields from polynomials over GF(2), which are sets of exponents. `Vss.Gf256`, `BinaryElements.Field16` and `BinaryElements.Field32` are instances without hypotheses. Hashes, the curve, sealing and signing are arbitrary functions. No hash is assumed to be injective: the binding results assume that no two of the values hashed in the tree and in the opening at hand collide. `Instances` shows that the hypotheses on fields, groups and hashes can be met. Random numbers, clocks and host calls are parameters. Loops over buffers are methods on arrays or sequences, and objects with state are classes whose methods are tied to functions on values; the run-level results are about those functions.

## What the proofs found

- `verify_batch` accepts the output of `prove_batch` if and only if the index list is non-empty and strictly increasing (`MerkleBatch.Completeness`). For a tree of a single leaf it ignores the sibling list, so that list is canonical only from depth 1 on (`MerkleBinding.SingleLeafIgnoresProof`).
- `verify_batch` does not check that an index is within the tree. From depth 1 on it accepts a list exactly when all indices lie in one block of the size of the tree and their positions in that block are accepted (`MerkleBinding.AcceptedByBlock`), so every honest opening is also accepted at indices moved by whole blocks (`MerkleBinding.BeyondTheTree`).
- `verify_share` of the escrow does not look at the length of the path. A share that verifies is the dealt one if and only if that length is the exponent of the number of shares rounded up to a power of two (`Escrow.VerifiedShareIsDealt`). Leaves and inner nodes are hashed alike, so every dealing has a share that verifies with a path shorter by one (`Escrow.ShortPathVerifies`).
- `deal` stores the index of an OPRF share in a byte. All shares of all dealings are usable if and only if the threshold is 1, there are at most 255 shares, or 256 is zero among the scalars (`Oprf.DealtUsable`).
- A misbehaviour report made by the client convinces a third party exactly when the accused server's key was known and either the response does not decode or that key does (`VerifiedOprf.ReportConvinces`). In the other direction, a convincing report shows a bad response for one kind only: reports of a bad proof are sound, reports of a malformed response or of a wrong server index are not (`VerifiedOprf.EvidenceSound`).
- `pow` maps zero to zero even for the exponent 0 (`FieldInverse.PowBySquaring`).
- `combine_shares` over GF(256) does not reject a repeated share; it then answers all zeros (`Vss.CombineExactly`).
- `StakedBallot::commit` does not tie a key to one secret. The tally of every election and every run of the methods of `StakedBallot` stays within the elected stake if and only if no key can vote under two nullifiers (`StakeConservation.StakeBoundExactly`).
- More power voting no can make a proposal pass. It can do so if and only if some power is registered and the tally, with just the power that the quorum lacks added as no, is not slashed and reaches the pass threshold (`Ballots.NoHelpsExactly`; an instance is `Ballots.NoMakesQuorum`). Once the quorum is met it never does (`Ballots.NoNeverHelps`).
- The point of an escrow share is a 32-bit word, so a dealing of 2^32 shares ends with one at the point 0, which shows the secret (`Escrow.LastPointIsZero`). All other shares hide it (`Escrow.DealingHides`).
- The vault never releases an empty share, because an empty result of the host means failure (`Vault.ReleasedShare`). `register` reports its errors through the returned length and writes no output, unlike its comment.

## Model

| member | source | states |
|---|---|---|
| SubspacePolynomials.FromBits | binary-fields/src/lib.rs:27-41 | the 64-round loop yields the linear combination of powers of the generator selected by the bits |
| SubspacePolynomials.SAdd | reed-solomon/src/fft.rs:87-90 | the subspace polynomials built by `next_s` are additive |
| SubspacePolynomials.SIsRootProduct | reed-solomon/src/fft.rs:87-90 | the k-fold recurrence equals the product of (x + u) over all 2^k points u of the subspace |
| SubspacePolynomials.SZero | reed-solomon/src/fft.rs:87-90 | s_k(x) is zero if and only if x is one of the 2^k points |
| SubspacePolynomials.RegularIffDistinct | reed-solomon/src/fft.rs:45-56 | no normaliser s_b(v_b) vanishes, so the early exit is unreachable, if and only if the points are distinct |
| Twiddles.InitialLayer | reed-solomon/src/fft.rs:5-85 | the first layer holds beta plus the even points |
| Twiddles.AdvanceLayer | reed-solomon/src/fft.rs:5-85 | one layer step in the reused buffer maps entry 2i to entry i by `next_s` without overwriting entries still needed |
| Twiddles.ComputeTwiddles | reed-solomon/src/fft.rs:5-85 | for every log_n and beta the table holds at every heap position the normalised subspace polynomial of its level at its base point, and zero from the first vanishing level on |
| Twiddles.TableIsTree | reed-solomon/src/fft.rs:5-85 | at every node the table is the tree the recursive transform walks |
| Twiddles.TableUnique | reed-solomon/src/fft.rs:5-85 | the table is determined by log_n and beta |
| Twiddles.ShortFromLong | reed-solomon/src/lib.rs:114-141 | the copied rows are the leftmost parts of the long table's rows |
| Twiddles.ShortTable | reed-solomon/src/lib.rs:114-141 | shortening the table for n gives the table for k, for all k up to n |
| AdditiveFft.FftMul | reed-solomon/src/fft.rs:93-102 | the butterfly in place on both halves of a block, nothing else changed |
| AdditiveFft.IfftMul | reed-solomon/src/fft.rs:135-144 | the inverse butterfly in place, nothing else changed |
| AdditiveFft.FftRecursive | reed-solomon/src/fft.rs:115-132 | the in-place recursion computes the transform of its block and keeps the rest |
| AdditiveFft.IfftRecursive | reed-solomon/src/fft.rs:157-174 | the in-place recursion computes the inverse transform of its block and keeps the rest |
| AdditiveFft.FftInPlace | reed-solomon/src/fft.rs:105-113 | the whole buffer becomes its transform |
| AdditiveFft.IfftInPlace | reed-solomon/src/fft.rs:147-155 | the leading part becomes its inverse transform, the rest is kept |
| AdditiveFft.IfftFft | reed-solomon/src/fft.rs:93-174 | the inverse transform undoes the transform for every twiddle table |
| AdditiveFft.FftIfft | reed-solomon/src/fft.rs:93-174 | the transform undoes the inverse transform for every twiddle table |
| NovelBasis.FftEvaluates | reed-solomon/src/fft.rs:93-132 | at every node position t gets the combination of the coefficients with the products of normalised subspace polynomials at the node's base plus point t |
| ReedSolomon.FftEvaluatesAll | reed-solomon/src/fft.rs:5-132 | with the computed table, output j is the sum of v[i] X_i(beta + from_bits(j)) |
| ReedSolomon.EncodeInPlace | reed-solomon/src/encode.rs:15-28 | a buffer of any power-of-two length from the message length on becomes the transform of the inverse-transformed message part and the tail |
| ReedSolomon.EncodeSystematic | reed-solomon/src/encode.rs:15-28 | with beta = 0 the first message_length symbols of the codeword are the message |
| ReedSolomon.EncodeEvaluates | reed-solomon/src/encode.rs:6-28 | symbol j is the message polynomial, of message_length basis terms, at point j |
| ReedSolomon.LowDegree | reed-solomon/src/encode.rs:6-28 | a combination of 2^k basis terms is a polynomial of degree below 2^k |
| ReedSolomon.PositionsDetermine | reed-solomon/src/encode.rs:6-28 | agreement on any message_length distinct positions determines the message |
| ReedSolomon.MinimumDistance | reed-solomon/src/encode.rs:6-28 | codewords of different messages agree in fewer than message_length positions |
| ReedSolomon.DistanceIsTight | reed-solomon/src/encode.rs:6-28 | changing one message symbol leaves exactly message_length - 1 agreements |
| ReedSolomon.SkRound | reed-solomon/src/lib.rs:60-93 | one round of the layered loop records the next value and shifts the layer by one |
| ReedSolomon.EvalSkAtVks | reed-solomon/src/lib.rs:60-93 | the layered in-place loop yields s_k(v_k) for every k |
| ReedSolomon.SRootIsProduct | reed-solomon/src/lib.rs:60-93 | s_k(v_k) is the product of v_k + u over all 2^k subset sums u, and zero if and only if v_k is one of them |
| ReedSolomon.ComputePis | reed-solomon/src/lib.rs:96-111 | entry i is the product of the values at the set bits of i |
| ReedSolomon.New | reed-solomon/src/lib.rs:19-40 | lengths, twiddle table and products of a code belong together |
| ReedSolomon.Encode | reed-solomon/src/encode.rs:6-12 | the message is zero-padded and encoded; for a full message it is the code's encoding |
| ReedSolomon.EncodeNonSystematic | reed-solomon/src/encode.rs:31-45 | the first part is scaled by the products and the block transformed, in place |
| ReedSolomon.NonSystematicEvaluates | reed-solomon/src/encode.rs:31-45 | on a zero-padded message, symbol j is the message in the unnormalised basis at point j |
| MerkleTree.Build | merkle-tree/src/lib.rs:47-73 | the layers are the hashed leaves and each layer the pairwise hashes of the one below, up to one node |
| MerkleBatch.IthLayer | merkle-tree/src/batch.rs:93-128 | the in-place compaction leaves the parents of the queries and appends exactly the missing siblings |
| MerkleBatch.ProveBatch | merkle-tree/src/batch.rs:18-41 | the proof lists the missing siblings layer by layer |
| MerkleBatch.VerifyIthLayer | merkle-tree/src/batch.rs:130-177 | queries and hashes are compacted in place to the parents and their hashes, and the cursor advances by the missing siblings |
| MerkleBatch.VerifyBatch | merkle-tree/src/batch.rs:44-91 | the verdict is that of folding the leaf hashes up to the root |
| MerkleBatch.FoldHonest | merkle-tree/src/batch.rs:130-177 | on the honest siblings, one verifier layer yields the tree's next layer at the parents |
| MerkleBatch.ClimbHonest | merkle-tree/src/batch.rs:93-177 | after every layer prover and verifier hold the same queries and the verifier has read what the prover wrote |
| MerkleBatch.Completeness | merkle-tree/src/batch.rs:18-91 | for every tree and every in-range list, the honest proof is accepted if and only if the list is non-empty and strictly increasing |
| MerkleBinding.FoldBinding | merkle-tree/src/batch.rs:130-177 | unless two of the pairs hashed collide, a layer that folds to the tree's parents held the tree's nodes and siblings |
| MerkleBinding.AcceptedByBlock | merkle-tree/src/batch.rs:44-91 | for every index list and depth from 1 on, acceptance means one block for all indices and acceptance of their positions in it, and both ways hash the same pairs |
| MerkleBinding.Binding | merkle-tree/src/batch.rs:44-91 | for every index list, acceptance without collisions means every supplied leaf is the tree's leaf at the position of its index, and from depth 1 on the sibling list is the one `prove_batch` produces |
| MerkleBinding.BeyondTheTree | merkle-tree/src/batch.rs:44-91 | every honest opening is accepted at indices moved by any number of whole blocks |
| MerkleBinding.SingleLeafIgnoresProof | merkle-tree/src/batch.rs:44-91 | at depth 0 every sibling list is accepted |
| MerkleBinding.DepthZeroExactly | merkle-tree/src/batch.rs:44-66 | at depth 0 exactly the one leaf at index 0 under its own hash is accepted, and without a root nothing is |
| MerklePath.ComputeRoot | crates/ligerito-escrow/src/shares.rs:287-310 | the loop computes the root from leaf, index and path |
| MerklePath.BuildTree | crates/ligerito-escrow/src/shares.rs:233-284 | the root of the zero-padded tree and for every leaf the siblings on its way up |
| MerklePath.PathRoot | crates/ligerito-escrow/src/shares.rs:233-310 | every honest path leads to the root |
| MerklePath.PathBinding | crates/ligerito-escrow/src/shares.rs:287-310 | unless two of the pairs hashed collide, a full-length path to the root carries the tree's leaf and is the honest path |
| MerklePath.PaddedDepth | crates/ligerito-escrow/src/shares.rs:233-284 | the depth of the padded tree is the exponent of the number of leaves rounded up to a power of two |
| MerklePath.PaddedLeaves | crates/ligerito-escrow/src/shares.rs:240-248 | the bottom layer is the leaves filled up with blanks to that power of two, which is less than twice their number |
| Bytes.WordRoundTrip | crates/ligerito-escrow/src/shares.rs:192-210 | little-endian writing and reading of a 32-bit word is the identity |
| Bytes.BytesRoundTrip | crates/ligerito-escrow/src/shares.rs:192-210 | little-endian reading and writing of four bytes is the identity |
| Bytes.LittleEndian | crates/ligerito-escrow/src/shares.rs:192-210 | a word is its four bytes as digits in base 256, lowest first |
| Polynomials.EvaluateByPowers | crates/ghettobox/src/vss.rs:63-72 | the running-power loop computes the value of the polynomial |
| Interpolation.LagrangeAtZero | crates/ligerito-escrow/src/reconstruct.rs:79-106 | the double loop computes the Lagrange interpolation at zero |
| Interpolation.BasisAtZero | crates/ligerito-escrow/src/reconstruct.rs:83-99 | numerator and denominator give basis polynomial i at zero |
| Interpolation.InterpolationExact | crates/ligerito-escrow/src/reconstruct.rs:79-106 | interpolating as many distinct points as a polynomial has coefficients recovers the polynomial and its value everywhere |
| Escrow.ElementsRoundTrip | crates/ligerito-escrow/src/shares.rs:192-210 | bytes to field elements and back is the identity |
| Escrow.ElementAt | crates/ligerito-escrow/src/shares.rs:192-210 | element e is made of bytes 4e to 4e + 3 |
| Escrow.EvaluatePolynomial | crates/ligerito-escrow/src/shares.rs:213-221 | Horner's rule computes the value of the polynomial |
| Escrow.NewSharer | crates/ligerito-escrow/src/shares.rs:111-120 | exactly the thresholds from 2 to the number of shares are accepted |
| Escrow.ShareSecret | crates/ligerito-escrow/src/shares.rs:128-188 | share i holds the eight polynomials at i + 1 and its path in the tree of share hashes, whose root is the commitment |
| Escrow.ReconstructSecret | crates/ligerito-escrow/src/reconstruct.rs:21-66 | too few shares and repeated indices are rejected; otherwise the first k shares are interpolated element by element |
| Escrow.ReconstructRefuses | crates/ligerito-escrow/src/reconstruct.rs:21-37 | fewer shares than the threshold, and otherwise exactly the lists with an index twice anywhere, are refused, each with its error |
| Escrow.SharesReconstruct | crates/ligerito-escrow/src/reconstruct.rs:21-66 | any list of at least k dealt shares with distinct indices, in any order, gives back the 32 bytes, for every secret and all randomness |
| Escrow.VerifyShare | crates/ligerito-escrow/src/shares.rs:72-93 | out-of-range index, failing path and success are told apart |
| Escrow.EveryShareVerifies | crates/ligerito-escrow/src/shares.rs:72-188 | every dealt share passes `verify_share` |
| Escrow.VerifiedShareIsDealt | crates/ligerito-escrow/src/shares.rs:72-93 | unless two of the values hashed collide, a share that verifies is the dealt one if and only if its path has the length that the number of shares determines |
| Escrow.VerifiedSharesReconstruct | crates/ligerito-escrow/src/reconstruct.rs:21-66 | unless two of the values hashed collide, at least k shares with distinct indices that pass `verify_share` with paths of that length reconstruct the secret, whoever sent them |
| Escrow.ShortPathVerifies | crates/ligerito-escrow/src/shares.rs:72-93 | in every dealing the two hashes below an inner node, read as 16 values, verify with a path shorter by one |
| Escrow.ThresholdHiding | crates/ligerito-escrow/src/shares.rs:136-157 | for any k - 1 distinct shares, any values and any candidate secret exactly one choice of random words produces those values |
| Escrow.DealingHides | crates/ligerito-escrow/src/shares.rs:128-188 | for any k - 1 shares of a dealing with points other than 0, any values and any 32-byte secret, exactly one choice of all eight lists of random words makes a dealing show those values |
| Escrow.LastPointIsZero | crates/ligerito-escrow/src/shares.rs:153-157 | in a dealing of 2^32 shares the point of the last wraps to 0 and its values are the elements of the secret |
| Oprf.Deal | crates/ghettobox/src/oprf.rs:404-441 | bad thresholds are rejected; share i is the polynomial at i with its public key, and the public key belongs to the constant coefficient |
| Oprf.DealtUsable | crates/ghettobox/src/oprf.rs:404-441 | every share of every dealing is the polynomial at its own index if and only if the threshold is 1, there are at most 255 shares, or 256 is zero among the scalars |
| Oprf.LagrangeCoefficient | crates/ghettobox/src/oprf.rs:475-488 | the loop computes the Lagrange coefficient at zero |
| Oprf.InterpolatePoints | crates/ghettobox/src/oprf.rs:458-472 | the loop computes the combination of points with Lagrange coefficients |
| Oprf.CombineInExponent | crates/ghettobox/src/oprf.rs:458-472 | combining multiples of one point multiplies it by the interpolated scalar |
| Oprf.Finalize | crates/ghettobox/src/oprf.rs:208-246 | too few responses and undecodable points are errors; otherwise the unblinded combination of the first responses is hashed to the key |
| Oprf.FinalizeFails | crates/ghettobox/src/oprf.rs:208-230 | it fails exactly on too few responses or a bad encoding among those it uses, each with its error |
| Oprf.DealtIsHonest | crates/ghettobox/src/oprf.rs:361-441 | every usable share, so each of the first 255, answers honestly under its index |
| Oprf.KeyIsDetermined | crates/ghettobox/src/oprf.rs:180-246 | for every non-zero blinding, if the first threshold-many responses come from distinct honest servers the key is that of the input times the constant coefficient, whatever follows them |
| Oprf.HonestDleqVerifies | crates/ghettobox/src/oprf.rs:70-117 | a proof made with the right secret verifies, for every nonce |
| Oprf.DleqAccepts | crates/ghettobox/src/oprf.rs:95-117 | a proof is accepted exactly when it answers some commitments at the challenge hashed from the whole claim and them |
| Oprf.DleqSound | crates/ghettobox/src/oprf.rs:95-117 | if no scalar takes base to key and blinded to response, any commitments can be answered at one challenge at most |
| VerifiedOprf.ReportConvinces | crates/ghettobox/src/zoda_oprf.rs:79-120 | a report made by the client convinces a third party if and only if the server's key is known and either the response does not decode or the key does |
| VerifiedOprf.KeyFound | crates/ghettobox/src/zoda_oprf.rs:288-305 | the search finds exactly the key of the first entry with the index, and nothing exactly when there is none |
| VerifiedOprf.ReportSays | crates/ghettobox/src/zoda_oprf.rs:278-372 | a report carries time, request, response and key on record, and its kind names the first check that failed |
| VerifiedOprf.ReportedIsBad | crates/ghettobox/src/zoda_oprf.rs:79-120 | a report of a bad proof that verifies, whoever made it, shows a response that fails the client's check |
| VerifiedOprf.EvidenceSound | crates/ghettobox/src/zoda_oprf.rs:79-120 | verified reports of a kind always show a bad response if and only if the kind is a bad proof |
| VerifiedOprf.FinalizeWithReports | crates/ghettobox/src/zoda_oprf.rs:392-420 | the passing responses are finalised and every failing one is reported, in order |
| VerifiedOprf.FailingResponseIsHarmless | crates/ghettobox/src/zoda_oprf.rs:392-420 | a failing response anywhere in the list changes neither key nor error and adds exactly one report |
| VerifiedOprf.HonestResponsePasses | crates/ghettobox/src/zoda_oprf.rs:278-372 | the response of an honest server passes the check if its key is anywhere among the keys on record, one a server |
| VerifiedOprf.DealtPasses | crates/ghettobox/src/zoda_oprf.rs:278-372 | under the keys of a dealing, the answer of a dealt share passes and is the request times the polynomial at its index |
| VerifiedOprf.ServersPass | crates/ghettobox/src/zoda_oprf.rs:392-420 | exactly the answers of the servers pass, in order, and exactly the others are reported |
| VerifiedOprf.ServersDetermineKey | crates/ghettobox/src/zoda_oprf.rs:392-420 | with answers of threshold-many distinct servers of a dealing anywhere in the list and failing responses otherwise, the key comes out and every other response is reported |
| VerifiedOprf.VerifiedKeyIsDetermined | crates/ghettobox/src/zoda_oprf.rs:392-420 | if enough responses pass and the first of those are honest, the key is determined whatever else was received |
| BinaryElem.PolyMul | binary-fields/src/poly.rs:64-78 | the shift-and-add loop computes the carryless product truncated to the word |
| BinaryElem.DivRem | binary-fields/src/poly.rs:80-101 | long division ends with a = q b + r and deg r < deg b |
| BinaryElem.DivisionUnique | binary-fields/src/poly.rs:80-101 | quotient and remainder are unique |
| BinaryElem.ModIrreducibleWide | binary-fields/src/elem.rs:20-52 | the reduction loop ends with that remainder |
| BinaryElem.ElemMul | binary-fields/src/elem.rs:79-87 | the wide product followed by the reduction is the product modulo the modulus |
| BinaryElem.InterleavedMul | binary-fields/src/elem.rs:200-229 | interleaved shift-and-reduce computes the same product |
| BinaryElem.Gf256Mul | crates/ghettobox/src/vss.rs:24-41 | so does the variant that stops when the multiplier runs out |
| BinaryElem.MulModCommutes | binary-fields/src/elem.rs:79-87 | multiplication is commutative, for every modulus |
| BinaryElem.MulModAssociates | binary-fields/src/elem.rs:79-87 | multiplication is associative, for every modulus |
| BinaryElem.MulModDistributes | binary-fields/src/elem.rs:79-87 | multiplication distributes over addition, for every modulus |
| FieldInverse.PowBySquaring | binary-fields/src/elem.rs:117-134 | square-and-multiply computes the power, and zero for a zero base |
| FieldInverse.InvByChain | binary-fields/src/elem.rs:231-253 | the chain of squarings computes a^(2^n - 2) |
| FieldInverse.InvByPow | binary-fields/src/elem.rs:89-99 | the short-word inversion computes a^(2^n - 2) |
| FieldInverse.InvByRounds | crates/ghettobox/src/vss.rs:44-55 | the rounds compute a^(2^n - 2), and zero for zero |
| FieldInverse.InverseCorrect | binary-fields/src/elem.rs:89-115 | in a field of 2^n elements that power is the inverse of every non-zero element |
| FiniteOrder.OrderTheorem | binary-fields/src/elem.rs:89-115 | a to the number of units is 1 |
| GaloisField.InverseExists | binary-fields/src/elem.rs:89-115 | modulo an irreducible polynomial every non-zero residue has an inverse |
| GaloisField.ResidueFieldIsBinary | binary-fields/src/elem.rs:55-87 | n-bit words with exclusive or and reduced product are a field of characteristic 2 |
| GaloisField.InverseIsPower | binary-fields/src/elem.rs:231-253 | a times a^(2^n - 2) is 1 there, for every non-zero word |
| GaloisField.PointIsBits | binary-fields/src/lib.rs:27-41 | `from_bits` reads a word below 2^n as the polynomial with those bits |
| GaloisField.PointsAreDistinct | binary-fields/src/lib.rs:27-41 | so the evaluation points of every block up to 2^n are distinct |
| Irreducibility.Frobenius | binary-fields/src/elem.rs:89-115 | modulo an irreducible polynomial of degree d, squaring d times is the identity |
| Irreducibility.IrreducibleByScreening | binary-fields/src/elem.rs:4-7 | a modulus of degree n is irreducible if every d up to n / 2 has a multiple e such that x^(2^e) + x is invertible modulo it |
| AesField.AesIrreducible | crates/ghettobox/src/vss.rs:23-37 | the modulus of `gf256_mul` is irreducible |
| ElemField16.Elem16Irreducible | binary-fields/src/elem.rs:5-5 | 0x1002D is irreducible |
| ElemField32.Elem32Irreducible | binary-fields/src/elem.rs:6-6 | x^32 + x^15 + x^9 + x^7 + x^4 + x^3 + 1 is irreducible |
| BinaryElements.Elem16IsField | binary-fields/src/elem.rs:55-151 | 16-bit words with exclusive or and the reduced product are a field, and a^(2^16 - 2) inverts every non-zero word, without hypotheses |
| BinaryElements.Elem32IsField | binary-fields/src/elem.rs:55-152 | the same for 32-bit words |
| BinaryElements.CodeOverElem16 | reed-solomon/src/encode.rs:6-28 | over `BinaryElem16`, for every block up to 2^16 symbols, the code is systematic and different messages agree in fewer than message_length symbols |
| BinaryElements.CodeOverElem32 | reed-solomon/src/encode.rs:6-28 | the same over `BinaryElem32` for every block up to 2^32 symbols |
| Instances.EscrowHypotheses | crates/ligerito-escrow/src/shares.rs:192-210 | `BinaryElem32` is a field whose elements are the 32-bit words, as the escrow results assume |
| Vss.Gf256IsBinary | crates/ghettobox/src/vss.rs:23-60 | bytes are a field of characteristic 2, without hypotheses |
| Vss.Gf256Operations | crates/ghettobox/src/vss.rs:24-41 | its product is the one `gf256_mul` computes, its sum exclusive or |
| Vss.Gf256Inverse | crates/ghettobox/src/vss.rs:44-55 | a times `gf256_inv(a)` is 1 for every byte from 1 to 255 |
| Vss.SplitSecret | crates/ghettobox/src/vss.rs:97-123 | a secret that is not 32 bytes is rejected; otherwise shares 1, 2, 3 hold the lines at 1, 2, 3 |
| Vss.CombineShares | crates/ghettobox/src/vss.rs:126-149 | fewer than two shares are rejected; otherwise the first two are interpolated byte by byte |
| Vss.CombineExactly | crates/ghettobox/src/vss.rs:97-149 | two of the three shares give back every secret if and only if they are different, or the secret is all zero |
| Vss.SharesAreLines | crates/ghettobox/src/vss.rs:97-123 | the shares have the indices 1, 2, 3 and each byte is s + c, s + x c or s + (x + 1) c in the byte field |
| Vss.OneShareHides | crates/ghettobox/src/vss.rs:97-123 | whatever one share holds, every secret is consistent with it, through exactly one choice of the random bytes |
| Multilinear.EvaluateLagrangeBasis | ligerito/src/utils.rs:6-29 | entry j is the product of r or 1 + r selected by the bits of j, first challenge at the top bit |
| Multilinear.PartialEvalMultilinear | ligerito/src/utils.rs:122-139 | the in-place loops and the truncation leave the table folded by each challenge in turn |
| Multilinear.FoldedLength | ligerito/src/utils.rs:122-139 | m challenges leave the quotient of the length by 2^m, for every length |
| Multilinear.FoldedIsBlend | ligerito/src/utils.rs:122-139 | entry i is block i of 2^m entries weighted by the Lagrange basis of the reversed challenges |
| Multilinear.BasisSumsToOne | ligerito/src/utils.rs:6-29 | the basis is a partition of unity |
| Multilinear.CornerSelects | ligerito/src/utils.rs:6-29 | at a Boolean point the basis is its indicator |
| Multilinear.FoldedAtCorner | ligerito/src/utils.rs:122-139 | folding a full table at a Boolean point reads the table there |
| Ballots.Ballot.constructor | crates/narsil/src/ballot.rs:278-288 | a new ballot is committing and empty |
| Ballots.Ballot.Commit | crates/narsil/src/ballot.rs:291-306 | the new state and the errors in their order |
| Ballots.Ballot.StartReveal | crates/narsil/src/ballot.rs:309-313 | only a committing ballot moves to revealing |
| Ballots.Ballot.Reveal | crates/narsil/src/ballot.rs:316-333 | the new state and the errors in their order |
| Ballots.Ballot.Finalize | crates/narsil/src/ballot.rs:336-348 | each choice gets the summed sealed power of the reveals for it, whatever the order of iteration |
| Ballots.CountedTotal | crates/narsil/src/ballot.rs:154-166 | the three counts together are the power of everyone who revealed |
| Ballots.Refusals | crates/narsil/src/ballot.rs:291-333 | which votes and openings are refused with which error, and that nothing changes then |
| Ballots.RevealAdds | crates/narsil/src/ballot.rs:316-348 | a valid first reveal adds the sealed power to its choice and to nothing else |
| Ballots.TalliedIsFinal | crates/narsil/src/ballot.rs:291-348 | after the tally no operation changes anything |
| Ballots.OutcomeExactly | crates/narsil/src/ballot.rs:168-216 | when the outcome is Slash and when it is Pass, in yes, no, abstain and the thresholds |
| Ballots.YesNeverHurts | crates/narsil/src/ballot.rs:168-216 | more power voting yes never turns a passed proposal, for all thresholds |
| Ballots.NoNeverHelps | crates/narsil/src/ballot.rs:168-216 | once the quorum is met, more power voting no never makes a proposal pass, for all thresholds |
| Ballots.NoHelpsExactly | crates/narsil/src/ballot.rs:168-216 | for every tally and all thresholds, some amount of no power makes the proposal pass if and only if it passes with just the quorum's shortfall added as no |
| Ballots.NoMakesQuorum | crates/narsil/src/ballot.rs:168-216 | an instance in which it does |
| Ballots.RunIsSound | crates/narsil/src/ballot.rs:276-348 | in every run every recorded reveal opens its commitment and a tallied ballot shows the count |
| Ballots.SealedNeverChanges | crates/narsil/src/ballot.rs:291-313 | in every run a sealed vote is never replaced, and none is added after the commit phase |
| Ballots.RevealedKeys | crates/narsil/src/ballot.rs:316-333 | a run of reveals records exactly the nullifiers of the valid openings |
| Ballots.TallyIgnoresOrder | crates/narsil/src/ballot.rs:316-348 | unless two of the openings at hand show different votes for one commitment, the tally is the same for any order and repetition of the reveals |
| Ballots.TallyTotals | crates/narsil/src/ballot.rs:276-348 | in every run the tally totals the sealed power of the revealed nullifiers, and only committed ones are counted |
| StakedBallots.FromElection | crates/narsil/src/ballot.rs:389-414 | no result gives no ballot; otherwise the stakes are collected with later backers replacing earlier ones |
| StakedBallots.RollLists | crates/narsil/src/ballot.rs:389-426 | for every result: the validators are the elected keys, the nominators are the listed backers with stake and validator of their last listing, and the power of every key follows |
| StakedBallots.CastTakesBack | crates/narsil/src/ballot.rs:428-490 | an accepted cast of a nominator lowers the weight of its validator by its stake at once and changes no other sealed vote |
| StakedBallots.StakedBallot.Commit | crates/narsil/src/ballot.rs:428-455 | the vote is sealed with the power of its key and the key is recorded, or nothing changes |
| StakedBallots.StakedBallot.Reveal | crates/narsil/src/ballot.rs:458-460 | the inner ballot's reveal |
| StakedBallots.StakedBallot.Overrides | crates/narsil/src/ballot.rs:470-476 | for every validator the summed stake of its nominators who committed |
| StakedBallots.StakedBallot.Recount | crates/narsil/src/ballot.rs:478-497 | the count with validators reduced by their overrides |
| StakedBallots.StakedBallot.Finalize | crates/narsil/src/ballot.rs:464-501 | the ballot is tallied with that count |
| StakeConservation.RollCovered | crates/narsil/src/ballot.rs:389-414 | a well-formed election gives a roll in which no validator has more behind it than its stake and the stakes add up |
| StakeConservation.RunKeeps | crates/narsil/src/ballot.rs:428-501 | in every run each sealed vote carries the power of its key under the one nullifier of that key |
| StakeConservation.CastCanBeOpened | crates/narsil/src/ballot.rs:428-460 | when a cast is accepted, and that whatever happens in between its own vote and blinding open it once reveals are open |
| StakeConservation.StakedIsFinal | crates/narsil/src/ballot.rs:428-501 | after the tally no operation changes anything |
| StakeConservation.TakenTotal | crates/narsil/src/ballot.rs:470-490 | what nominators vote directly is exactly what the validators lose |
| StakeConservation.StakeCountedOnce | crates/narsil/src/ballot.rs:389-501 | in every run with one nullifier per key the tally is at most the elected stake, and all of it at full turnout with disjoint keys |
| StakeConservation.QuorumReached | crates/narsil/src/ballot.rs:178-186 | no run meets a quorum above 100%, and full turnout meets every other |
| StakeConservation.TwoSecretsCountTwice | crates/narsil/src/ballot.rs:428-455 | for any key and any two secrets with different nullifiers there is an election and a run that counts the key twice |
| StakeConservation.StakeBoundExactly | crates/narsil/src/ballot.rs:389-501 | for every set of allowed key and secret pairs, all runs of all well-formed elections stay within the elected stake if and only if the secrets allowed for one key derive one nullifier |
| Vault.UnpackPack | crates/ghettobox-vault-guest/lib.rs:430-448 | unpacking a packed record gives it back |
| Vault.PackUnpack | crates/ghettobox-vault-guest/lib.rs:430-448 | packing what was unpacked gives the bytes back |
| Vault.Guest.Register | crates/ghettobox-vault-guest/lib.rs:456-498 | the new store and the reply, with every error case |
| Vault.Guest.Recover | crates/ghettobox-vault-guest/lib.rs:504-576 | the new store and the reply, with every error case |
| Vault.OneAnswer | crates/ghettobox-vault-guest/lib.rs:504-576 | only a wrong tag changes a record, only a lock-out removes it, only the stored tag before the limit gets the share |
| Vault.RecordCounts | crates/ghettobox-vault-guest/lib.rs:504-576 | in every run the packed record counts the wrong answers exactly and never past the limit |
| Vault.GuessLimit | crates/ghettobox-vault-guest/lib.rs:456-607 | from a registration to its deletion at most min(allowed, 10) wrong tags are answered, `status` reports what is left, and the next answer is decided by tag and count |
| Vault.ReleasedShare | crates/ghettobox-vault-guest/lib.rs:553-576 | the bytes of a released share are the registered ones at offset 13, after their length, the node and the exact number of attempts left; a wrong tag is told what is left after it |
| Vault.GoneStaysGone | crates/ghettobox-vault-guest/lib.rs:504-520 | after a deletion every attempt is told that nothing is there, until a new registration |
| Vault.WireProtocol | crates/ghettobox-vault-guest/lib.rs:456-576 | for a registration message and an attempt built field by field, the bytes of both replies after any run in between |
| Vault.Refusals | crates/ghettobox-vault-guest/lib.rs:456-607 | the replies to incomplete messages, repeated registrations, missing and damaged records, and that nothing changes then |

## Left out

- The Ligerito prover and verifier, transcripts, query sampling and the sumcheck: external hash and random state.
- The irreducibility of the 128-bit modulus of `binary-fields`: `GaloisField.IsModulus` is a hypothesis for it. `Irreducibility.IrreducibleByScreening` reduces it to 64 squarings and 32 inverses, and Rabin's test would need 128 squarings and one inverse. `Certificates` is made for words of 32 bits.
- `BinaryPoly64`, the double-width type of `BinaryElem32::mul`, as a type of its own: its portable loops are those that `BinaryElem.PolyMul` and `BinaryElem.DivRem` model for every width; the SIMD branch is not modelled.
- `BinaryPoly128::mul`: no field multiplication calls it.
- `BinaryElem64`: its product is cut to the word and never reduced, so it is not one of the fields.
- `BinaryElem128::mod_irreducible` and the conversions between word sizes: the 128-bit product is computed by the interleaved loop of `BinaryElem.InterleavedMul` and calls neither.
- Sampling of field elements: random numbers are parameters here.
- `evaluate_scaled_basis_inplace` and `ligerito/src/utils.rs:eval_sk_at_vks`: the first is the basis with one repeated challenge, the second repeats `ReedSolomon.EvalSkAtVks`.
- Rayon, SIMD and the parallel variants of the encoder and of the tree: the same results by other schedules.
- The curve, SHA-256, AEAD, argon2 and serialisation. `Oprf.DleqSound` is about one pair of commitments; no probability is modelled.
- `finalize_verified` and `reconstruct_from_indexed_shares`: the same interpolation behind other argument types.
- `election.rs`: an election result is an input, well-formed in the sense of `StakeConservation.WellFormed`.
- The network, HTTP, chain, poker, PolkaVM host and probe code: input and output.
- Calls of the inner ballot's own methods through the public field `ballot` of `StakedBallot`, except `start_reveal`: the runs of `StakeConservation` are made of `start_reveal` and the methods of `StakedBallot`.
- Ballots.Ballot.Finalize: does not model overflow of the 64-bit counters; powers are natural numbers.
- StakedBallots.StakedBallot.Finalize: does not model overflow of the 64-bit sums.
- Vault.Guest.Register: does not model the 4096-byte host buffers, nor a 32-bit overflow of the announced share length.
- Vault.Guest.Recover: does not model the 4096-byte host buffers, nor that the comparison takes constant time.
- MerkleBinding.Binding: says nothing about siblings left over at depth 0, where the code ignores them.
- Escrow.EveryShareVerifies: covers at most 2^32 shares, because an index is a 32-bit word.
- ReedSolomon.Encode: the block length is below 2^64, as machine words demand.
