# Verification of monero-oxide

A model of the libraries of monero-oxide, and proofs about it. `dafny verify dfyconfig.toml` checks all of it.

| files | what they model |
|---|---|
| `Ed25519.dfy`, `Vectors.dfy`, `Arithmetic.dfy` | scalars, points, encodings; vectors; powers of two and bytes |
| `Accumulator.dfy`, `InnerProduct.dfy`, `WeightedInnerProduct.dfy` | the batch verifier, and the two inner-product arguments |
| `RangeAlgebra.dfy`, `OriginalRangeProof.dfy`, `PlusRangeProof.dfy`, `Bulletproofs.dfy` | Bulletproofs and Bulletproofs+ |
| `Pieces.dfy`, `RangeProofBinding.dfy`, `RangeProofAnswers.dfy` | what their transcripts and their answers are bound to |
| `Decoys.dfy`, `Clsag.dfy`, `ClsagBinding.dfy`, `ClsagMultisig.dfy`, `SendMultisig.dfy` | rings, CLSAGs, what they are bound to, and CLSAGs by a group |
| `UnreducedScalar.dfy` | the recoding of ref10's `slide` |
| `EpeeStack.dfy`, `EpeeIo.dfy`, `EpeeParser.dfy`, `Epee.dfy`, `EpeeDocument.dfy` | the EPEE decoder, and the documents which it decodes |
| `VarInt.dfy`, `Codec.dfy`, `Transaction.dfy`, `TransactionIo.dfy` | transactions as bytes: a codec for each part, and the source's own sequences of reads and writes |
| `TransactionSize.dfy`, `TransactionHash.dfy`, `Layout.dfy` | pruning, sizes, and the hashes of transactions; their bytes, written out |
| `Fee.dfy`, `SendAmounts.dfy`, `SignedTransaction.dfy`, `GroupTransaction.dfy` | fees, the validation of a transaction to sign, its balance, and its signing by one or by a group |
| `TransactionProofs.dfy`, `SignedReading.dfy` | what was signed, as it is read |
| `WalletKeys.dfy`, `WalletSecrets.dfy`, `Extra.dfy`, `Scan.dfy`, `ScanFindings.dfy` | what the sender derives and writes, what its secrets are bound to, and what the receiver finds |
| `Delivery.dfy`, `Shuffling.dfy`, `Sending.dfy` | paying, from the payments to what the receivers find |
| `DecoySelection.dfy`, `Merkle.dfy`, `Base58.dfy` | choosing a ring; Merkle roots; base 58 |

## How it is modelled

Scalars are integers, equal modulo the order L of the prime-order subgroup (`Eq`); they are reduced where the code
compares or encodes them. A point of the prime-order subgroup is its discrete logarithm, equal modulo L; a point of
the whole curve is one modulo 8 L (`EqPoint`), so that torsion is there where the code deals with it. That the curve's
group is cyclic of order 8 L, with L five modulo eight, is all that is used of it, so L is any such number, and the one
of Ed25519 among them. Encoding, decoding, inversion and the hash functions are the fields of a `Curve`, of which
`Curve.Valid` says what is used: what is encoded decodes to itself, only what is encoded decodes, the bytes of a scalar
are its little-endian ones, hashes to scalars are not zero, and a scalar which is not zero has an inverse; `Ed25519.ValidCurve` makes such functions for every prime order whose points fit in
thirty-two bytes, as those of Ed25519 do (`Ed25519.PointsFit`). Every statement is for all of them, so for every
challenge a proof may meet. Random numbers, the nonces, masks and weights drawn, and the answers of a node are
parameters.

What the code does step by step is a method here, of a class where the code has an object which it updates. Its contract
states the result by a definition which is not that of the code: a verifier which folds as the paper does, a parser
by recursive descent, a tree, a walk around a ring. The lemmas then say what the definitions are for: completeness,
agreement, round trips, conservation.

The main results:

- A Bulletproof or Bulletproof+ is accepted exactly if it is well-formed and what it adds to the batch cancels
  (`Bulletproofs.Verify`). An honest one adds nothing, for any number of proofs and any weights; one which is not valid
  cancels for weights on one line at most (`Bulletproofs.InvalidOnOneLine`). The batch verifier's single sum is what the
  papers' verifiers check, and a proof is made of what was drawn for it.
- A CLSAG of one signer is answered as it must be for every ring; so is one of a group, each of whom has a machine of
  its own, if they go through the participants in one order. One signature accepted for two messages, two rings or two
  pseudo-outs is a collision of the hash (`ClsagBinding.OneStatement`), and so are two range proofs with one last
  challenge (`RangeProofBinding.KeysBind`, `RangeProofBinding.PlusBinds`).
- The recoding loses a carry exactly when it has to.
- The EPEE machine is the recursive parser, and walks through an encoding cannot lead it astray; of every document, of
  whatever values and nested to any depth, each value is reached and read as it was written (`EpeeDocument`).
- Transactions, base 58 and integers have one encoding each; what the source reads of a transaction is exactly what it
  writes, and the message which is signed binds all else, as far as Keccak does.
- From the payments to the receivers: paying (`Sending.Pay`) makes a transaction with the fee and the weight validated,
  a valid range proof, commitments which balance, and signatures which verify for the transaction's own message; a
  group makes the same (`GroupTransactions.Sign`). What is made is read from its bytes, its proofs are valid as they are
  read (`Sending.PaidIsRead`), and every payment arrives at whom it was made to, with its amount, subaddress and payment
  ID (`Sending.PaymentsArrive`). Of any block, whoever made it, all that is reported can be spent and is worth what is
  reported (`ScanFindings.ReportedIsOwned`).

Where code and comments disagree, the model follows the code:

- `Extra::write` followed by `Extra::read` is not always the identity; `Extra.ExtraRoundTripIff` says when it is.
- Arbitrary data is only looked for in the first 1060 bytes of an extra, so that `Extra::arbitrary_data` misses what
  lies beyond; `Extra.SenderDataUnderstood` says when it finds all.
- Recoding does not stand for every 256-bit number: `UnreducedScalar.RecodesExactly` and
  `UnreducedScalar.AllOnesHasNoForm` say for which it does not.
- What is signed of a Bulletproof does not say where the first of its lists ends: `TransactionHashes.SplitIsNotSigned`;
  `TransactionHashes.SignedAlike` says exactly what it does.
- A Merkle root binds the leaves exactly if their number is known: `Merkle.BindsIffCounted`. Every list has the root of
  some list of each smaller number of leaves: `Merkle.FewerLeaves`.
- The machines of a group come to the same incomplete signature exactly if they process the addendums in the same order,
  since the decoy responses are drawn from a transcript of them, but for what such a draw may have in common by chance:
  `ClsagMultisig.CoresAgreeIffOrdersDo`.
- No sample of decoys hits the last output which is unlocked if it is the only one of its block: `DecoySelection.HitIff`
  says which outputs can be hit.

## Model

| member | source | states |
|---|---|---|
| `Ed25519.TransmitReceive` | monero-oxide/ringct/bulletproofs/src/original/mod.rs:315-325 | A point of the prime-order subgroup, sent scaled by `INV_EIGHT` and scaled by eight when received, is itself. |
| `Ed25519.InverseOfEightIs` | monero-oxide/ed25519/src/scalar.rs:60-63 | The inverse of eight, for the order of Ed25519, is the constant of the code. |
| `Accumulator.ChallengeProducts` | monero-oxide/ringct/bulletproofs/src/core.rs:52-76 | The descending in-place table is the closed form: entry i is the product over the rounds of the challenge or its inverse, by the bits of i, most significant first. |
| `Accumulator.ExpandColumn` | monero-oxide/ringct/bulletproofs/src/core.rs:59-67 | One column written in place, from the end: every slot holds the child of the value which was at half its index before, so none is read after it was overwritten; later slots are untouched. |
| `Accumulator.ProductAtFirst` | monero-oxide/ringct/bulletproofs/src/core.rs:52-76 | The first challenge decides the most significant bit of an entry. |
| `Accumulator.FoldAllIsDot` | monero-oxide/ringct/bulletproofs/src/original/inner_product.rs:126-209 | The table holds the coefficients of a vector of generators folded once per challenge. |
| `Accumulator.CoefficientsMirrored` | monero-oxide/ringct/bulletproofs/src/original/inner_product.rs:318-322 | Read backwards, the table is the one with every challenge swapped with its inverse. |
| `Accumulator.MirroredEntriesAreInverse` | monero-oxide/ringct/bulletproofs/src/original/inner_product.rs:313-322 | Entries i and len - 1 - i are inverses of each other. |
| `Accumulator.InternalBatchVerifier.Verify` | monero-oxide/ringct/bulletproofs/src/batch_verifier.rs:25-57 | The batch is accepted exactly when the sum which all fields stand for is the identity. |
| `InnerProduct.NewWitness` | monero-oxide/ringct/bulletproofs/src/original/inner_product.rs:49-63 | A witness is made exactly of vectors of one length which is a power of two. |
| `InnerProduct.RoundKeepsRelation` | monero-oxide/ringct/bulletproofs/src/original/inner_product.rs:146-209 | A round: x^2 L + P + x^-2 R is the relation of the folded witness under the folded generators. |
| `InnerProduct.ProveRound` | monero-oxide/ringct/bulletproofs/src/original/inner_product.rs:126-209 | The body of the prover's loop: L and R are the cross terms, and vectors and generators are folded with the transcript's challenge. |
| `InnerProduct.ProverStep` | monero-oxide/ringct/bulletproofs/src/original/inner_product.rs:126-209 | After each round the reference verifier, replaying what was sent, holds the relation of what the prover holds. |
| `InnerProduct.Prove` | monero-oxide/ringct/bulletproofs/src/original/inner_product.rs:95-221 | Fails exactly for a wrong number of generators; otherwise the paper's folding verifier accepts the proof for the point of the witness, at every size which is a power of two. |
| `InnerProduct.ReplayClosedForm` | monero-oxide/ringct/bulletproofs/src/original/inner_product.rs:228-327 | What the folding verifier ends with is given by the challenge products and one sum over L and R, without folding. |
| `InnerProduct.AcceptsIffResidualCancels` | monero-oxide/ringct/bulletproofs/src/original/inner_product.rs:228-327 | A proof is accepted by the folding verifier for P if and only if its points decode and P plus what this verifier queues is the identity. |
| `InnerProduct.Verify` | monero-oxide/ringct/bulletproofs/src/original/inner_product.rs:228-327 | Each error exactly when it applies; otherwise the accumulator's sum grows by the weight times the residual of the proof. |
| `InnerProduct.ReadChallenges` | monero-oxide/ringct/bulletproofs/src/original/inner_product.rs:262-304 | The challenges of the rounds, drawn from the transcript as it is continued with each L and R. |
| `RangeAlgebra.BitsRecompose` | monero-oxide/ringct/bulletproofs/src/original/mod.rs:142-149 | The sixty-four bits of an amount recompose to it. |
| `RangeAlgebra.BitsAgainstZTwos` | monero-oxide/ringct/bulletproofs/src/original/mod.rs:202-213 | The bits of all amounts against z^(j+2) 2^i are the amounts weighted by powers of z, for any padding. |
| `RangeAlgebra.ZSumOfCommitments` | monero-oxide/ringct/bulletproofs/src/original/mod.rs:342-346 | The commitments weighted by powers of z are the weighted masks and amounts. |
| `RangeAlgebra.SumZTwos` | monero-oxide/ringct/bulletproofs/src/original/mod.rs:348-350 | The sum of all z^(j+2) 2^i, in the closed form the verifier uses. |
| `RangeAlgebra.PadToPowerOf2` | monero-oxide/ringct/bulletproofs/src/original/mod.rs:136-140 | The padded size is the least power of two which is large enough. |
| `RangeAlgebra.Powers` | monero-oxide/ringct/bulletproofs/src/scalar_vector.rs:103-114 | The powers of x from the zeroth on. |
| `OriginalRangeProof.ConstantTerm` | monero-oxide/ringct/bulletproofs/src/original/mod.rs:202-215 | The constant coefficient of the product of l and r is what equation 65 needs of it, because every bit is zero or one. |
| `OriginalRangeProof.PolynomialValue` | monero-oxide/ringct/bulletproofs/src/original/mod.rs:246-253 | The product of l and r at x is t0 + t1 x + t2 x^2. |
| `OriginalRangeProof.Honest65` | monero-oxide/ringct/bulletproofs/src/original/mod.rs:332-353 | The prover's values satisfy equation 65 for all challenges. |
| `OriginalRangeProof.Honest66` | monero-oxide/ringct/bulletproofs/src/original/mod.rs:355-385 | What is left to the inner-product argument is the relation of the prover's l and r. |
| `OriginalRangeProof.BitVector` | monero-oxide/ringct/bulletproofs/src/original/mod.rs:142-149 | The vector filled by index is the bits of all amounts, padded with zeros. |
| `OriginalRangeProof.AddZTwos` | monero-oxide/ringct/bulletproofs/src/original/mod.rs:206-213 | The nested loops add z^(j+2) 2^i, and nothing else. |
| `OriginalRangeProof.Prove` | monero-oxide/ringct/bulletproofs/src/original/mod.rs:121-282 | There is a proof exactly when the openings are those of the commitments, for 1 to 16 amounts and any blinding; the proof is valid, and every part of it but the last argument is the one which the openings and what was drawn make. |
| `OriginalRangeProof.HonestHolds` | monero-oxide/ringct/bulletproofs/src/original/mod.rs:121-282 | What an honest run sends is a valid proof. |
| `OriginalRangeProof.Verify` | monero-oxide/ringct/bulletproofs/src/original/mod.rs:285-386 | Queues a proof exactly when it is well-formed, and then the batch's sum grows by the proof's effect, under any weights. |
| `OriginalRangeProof.HoldsIffEquations` | monero-oxide/ringct/bulletproofs/src/original/mod.rs:332-385 | A proof is valid exactly when it is well-formed, equation 65 holds, and the inner-product argument's sum is the identity. |
| `OriginalRangeProof.HoldsIffNoEffect` | monero-oxide/ringct/bulletproofs/src/original/mod.rs:285-386 | A proof is valid if and only if it is well-formed and queueing it leaves the batch's sum unchanged whatever the weights. |
| `WeightedInnerProduct.NewWitness` | monero-oxide/ringct/bulletproofs/src/plus/weighted_inner_product.rs:40-55 | A witness is made exactly of non-empty vectors of one length, padded with zeros to a power of two. |
| `WeightedInnerProduct.AscendingPowers` | monero-oxide/ringct/bulletproofs/src/plus/weighted_inner_product.rs:70-81 | y, y^2, ..., y^n. |
| `WeightedInnerProduct.InvertedPowers` | monero-oxide/ringct/bulletproofs/src/plus/weighted_inner_product.rs:161-170 | The inverses of y^(2^j) below n. |
| `WeightedInnerProduct.RoundKeepsRelation` | monero-oxide/ringct/bulletproofs/src/plus/weighted_inner_product.rs:103-259 | A round of halving keeps the weighted inner-product relation, with the negative power of y on the left generators. |
| `WeightedInnerProduct.ProveRound` | monero-oxide/ringct/bulletproofs/src/plus/weighted_inner_product.rs:200-264 | The body of the prover's loop computes the round's cross terms, challenge, and folded vectors and generators. |
| `WeightedInnerProduct.ProverStep` | monero-oxide/ringct/bulletproofs/src/plus/weighted_inner_product.rs:200-264 | After each round the reference verifier holds the relation of what the prover holds. |
| `WeightedInnerProduct.HonestAnswers` | monero-oxide/ringct/bulletproofs/src/plus/weighted_inner_product.rs:266-295 | The last answers satisfy the final equation. |
| `WeightedInnerProduct.Prove` | monero-oxide/ringct/bulletproofs/src/plus/weighted_inner_product.rs:138-296 | Fails exactly for a wrong number of generators; otherwise the paper's folding verifier accepts, for every non-zero y, any blinds and every power of two, and what is sent in each round, the last message and the answers are blinded by what was drawn for them. |
| `WeightedInnerProduct.ReplayClosedForm` | monero-oxide/ringct/bulletproofs/src/plus/weighted_inner_product.rs:298-414 | What the folding verifier ends with, in closed form. |
| `WeightedInnerProduct.GCoefficient` | monero-oxide/ringct/bulletproofs/src/plus/weighted_inner_product.rs:394-401 | The coefficient of the i-th left generator is its challenge product times y^-i. |
| `WeightedInnerProduct.AcceptsIffNoEffect` | monero-oxide/ringct/bulletproofs/src/plus/weighted_inner_product.rs:298-414 | Acceptance by the folding verifier is the vanishing of the one sum this verifier queues. |
| `WeightedInnerProduct.AcceptsIffWellFormedAndNoEffect` | monero-oxide/ringct/bulletproofs/src/plus/weighted_inner_product.rs:298-414 | The same for any number of generators and any proof, with the checks on its shape. |
| `WeightedInnerProduct.Verify` | monero-oxide/ringct/bulletproofs/src/plus/weighted_inner_product.rs:298-414 | Queues a proof exactly when it is well-formed, and the batch's sum grows by the weight times its effect. |
| `PlusRangeProof.DJ` | monero-oxide/ringct/bulletproofs/src/plus/aggregate_range_proof.rs:76-86 | The powers of two in block j, and zeros elsewhere. |
| `PlusRangeProof.ComputeD` | monero-oxide/ringct/bulletproofs/src/plus/aggregate_range_proof.rs:103-114 | The even powers of z, and the sum of the d_j weighted by them. |
| `PlusRangeProof.WeightedVector` | monero-oxide/ringct/bulletproofs/src/plus/aggregate_range_proof.rs:116-145 | The shifted vectors weighted by powers of y, in terms of the bits: what makes the statement's scalars come out. |
| `PlusRangeProof.HonestRelation` | monero-oxide/ringct/bulletproofs/src/plus/aggregate_range_proof.rs:88-248 | The statement's point is exactly the weighted inner-product relation of the prover's shifted vectors. |
| `PlusRangeProof.ComputeAHat` | monero-oxide/ringct/bulletproofs/src/plus/aggregate_range_proof.rs:88-155 | Computes that point, the vectors and powers, or fails exactly when A does not decode. |
| `PlusRangeProof.Prove` | monero-oxide/ringct/bulletproofs/src/plus/aggregate_range_proof.rs:157-248 | There is a proof exactly when the openings are those of the commitments; the proof is valid, and all of it is what the openings and what was drawn make. |
| `PlusRangeProof.Verify` | monero-oxide/ringct/bulletproofs/src/plus/aggregate_range_proof.rs:250-270 | Queues a proof exactly when it is well-formed, and the batch's sum grows by the weight times its effect. |
| `PlusRangeProof.HoldsIffNoEffect` | monero-oxide/ringct/bulletproofs/src/plus/aggregate_range_proof.rs:250-270 | A proof is valid if and only if it is well-formed and queueing it leaves the batch's sum unchanged. |
| `Bulletproofs.Prove` | monero-oxide/ringct/bulletproofs/src/lib.rs:124-148 | Refuses exactly no outputs and more than sixteen; otherwise makes a proof which is valid for the commitments, of the openings and of what was drawn. |
| `Bulletproofs.ProvePlus` | monero-oxide/ringct/bulletproofs/src/lib.rs:153-177 | The same for Bulletproofs+. |
| `Bulletproofs.BatchVerify` | monero-oxide/ringct/bulletproofs/src/lib.rs:227-255 | Queues a proof of either kind exactly when it is well-formed, adding its effect, under some weights, to its own batch and nothing to the other. |
| `Bulletproofs.Verify` | monero-oxide/ringct/bulletproofs/src/lib.rs:181-216 | Accepts exactly what is well-formed and adds nothing to either half of the batch: every valid proof under any weights, and of a Bulletproof+ no other under a weight which is not zero. |
| `Bulletproofs.InvalidOnOneLine` | monero-oxide/ringct/bulletproofs/src/lib.rs:181-257 | A well-formed proof which is not valid is accepted under weights on one line at most, so never under two pairs which are not proportional; a Bulletproof+ under weight zero alone. |
| `Bulletproofs.VerifyBatch` | monero-oxide/ringct/bulletproofs/src/lib.rs:227-255 | A batch is accepted exactly if every proof of it is well-formed, and what all of them add to each half is the identity; so is any number of valid proofs of either kind under any weights. |
| `Bulletproofs.ListLengths` | monero-oxide/ringct/bulletproofs/src/lib.rs:100-119 | The lengths of a valid proof's lists are the ones the clawback computes. |
| `Bulletproofs.ValidIsWhole` | monero-oxide/ringct/bulletproofs/src/lib.rs:100-119 | Every point of a valid proof is thirty-two bytes. |
| `RangeProofBinding.KeysBind` | monero-oxide/ringct/bulletproofs/src/original/mod.rs:69-119 | Two Bulletproofs with one last challenge of the range proof have the same commitments, the same points, and answers equal modulo the order, unless the hash collides on what the transcript hashes, which is written out. |
| `RangeProofBinding.RoundsBind` | monero-oxide/ringct/bulletproofs/src/original/inner_product.rs:84-91 | Two arguments with one challenge after as many rounds have the same points in every round and began with one transcript, unless the hash collides. |
| `RangeProofBinding.PlusBinds` | monero-oxide/ringct/bulletproofs/src/plus/aggregate_range_proof.rs:69-74 | Two Bulletproofs+ with one last challenge have the same commitments and the same points, unless the hash collides. |
| `RangeProofAnswers.OneBlinding` | monero-oxide/ringct/bulletproofs/src/original/mod.rs:332-353 | Of two valid Bulletproofs which agree up to the challenge x, the value of the polynomial and its blinding make up for each other. |
| `RangeProofAnswers.OneInnerAnswer` | monero-oxide/ringct/bulletproofs/src/original/inner_product.rs:305-328 | Of two valid Bulletproofs which agree in all else, the last answers make the same combination of the folded generators. |
| `RangeProofAnswers.AHatDiffers` | monero-oxide/ringct/bulletproofs/src/plus/aggregate_range_proof.rs:88-155 | The point of a Bulletproof+ is affine in the commitments and in A. |
| `RangeProofAnswers.OnePlusAnswer` | monero-oxide/ringct/bulletproofs/src/plus/weighted_inner_product.rs:394-414 | So do the last answers of two Bulletproofs+ which agree in all points. |
| `ClsagDecoys.New` | monero-oxide/ringct/clsag/src/decoys.rs:60-92 | Succeeds exactly for fewer than 256 members, an index among them, and offsets whose positions ascend and fit in sixty-four bits, although the sum wraps. |
| `ClsagDecoys.Decoys.Positions` | monero-oxide/ringct/clsag/src/decoys.rs:110-117 | The positions are the running sums, ascend, do not overflow, and give the offsets back. |
| `ClsagDecoys.Decoys.SignerRingMembers` | monero-oxide/ringct/clsag/src/decoys.rs:132-140 | The member at the signer's index. |
| `ClsagDecoys.OffsetsRepresentPositions` | monero-oxide/ringct/clsag/src/decoys.rs:60-117 | Any ascending positions have offsets which are accepted and give them back. |
| `Clsag.WriteRing` | monero-oxide/ringct/clsag/src/lib.rs:136-160 | The buffer begins with the first label, the keys and the commitments. |
| `Clsag.Transcribe` | monero-oxide/ringct/clsag/src/lib.rs:162-186 | Editing one buffer in place gives exactly the two aggregation transcripts, and then the prefix, keys, commitments, pseudo-out and message of the rounds. |
| `Clsag.RoundChallenge` | monero-oxide/ringct/clsag/src/lib.rs:220-250 | The truncated and extended buffer hashes to the challenge leaving a member. |
| `Clsag.WalkInRange` | monero-oxide/ringct/clsag/src/lib.rs:212-253 | The flagged loop with a wrapping index is the walk around the ring, and the challenge it keeps is the one entering member zero. |
| `Clsag.Core` | monero-oxide/ringct/clsag/src/lib.rs:119-257 | Signing walks from the member after the signer over all others; verifying walks once around from the challenge sent. |
| `Clsag.WalkOnce` | monero-oxide/ringct/clsag/src/lib.rs:212-253 | A walk in two parts, across the end of the ring, is one walk. |
| `Clsag.WalkCloses` | monero-oxide/ringct/clsag/src/lib.rs:119-257 | If the signer's own step leads back to the first challenge, the walk from member zero ends at the challenge it began with. |
| `Clsag.SignerStep` | monero-oxide/ringct/clsag/src/lib.rs:391-399 | The signer's response turns both of its points into those of the nonce. |
| `Clsag.NewContext` | monero-oxide/ringct/clsag/src/lib.rs:100-107 | Succeeds exactly when the opening is that of the signer's commitment. |
| `Clsag.Verify` | monero-oxide/ringct/clsag/src/lib.rs:434-483 | Every error exactly when its check is the first to fail, and acceptance exactly when the walk closes. |
| `Clsag.KeyImagesAre` | monero-oxide/ed25519/src/point.rs:173-179 | A key image is accepted exactly if it is a multiple of eight which is not the identity: the key of a secret which is not zero. |
| `Clsag.HonestVerdict` | monero-oxide/ringct/clsag/src/lib.rs:345-483 | A signature made by walking the ring is accepted, unless the key image or the mask difference is the identity, and then it is answered with the matching error. |
| `Clsag.ResponseAnswers` | monero-oxide/ringct/clsag/src/lib.rs:280-427 | The same from the core of signing, for any representation of the key image and of the nonce's points. |
| `Clsag.SignCore` | monero-oxide/ringct/clsag/src/lib.rs:280-320 | The signature to be completed, its pseudo-out, and the two challenges of the response. |
| `Clsag.Sign` | monero-oxide/ringct/clsag/src/lib.rs:345-427 | Fails exactly when a key is not the one of its input; otherwise every signature is answered as an honest one, is made of the nonce and the responses drawn for it, and the masks are those drawn but for the last, and sum to the one asked for. |
| `Clsag.PseudoOutsBalance` | monero-oxide/ringct/clsag/src/lib.rs:368-378 | The pseudo-outs commit to the inputs' amounts under the sum of the masks. |
| `ClsagBinding.OneStatement` | monero-oxide/ringct/clsag/src/lib.rs:119-262 | If one challenge is accepted for two messages, two rings or two pseudo-outs, the hash takes two different byte strings to it, each of which says what was signed: the label, the keys, the commitments, the pseudo-out, the message and two points, written out. |
| `ClsagBinding.CoefficientsBind` | monero-oxide/ringct/clsag/src/lib.rs:162-175 | What the aggregation coefficients hash says for which of the two it is, and the ring, the key image, D and the pseudo-out. |
| `ClsagBinding.TwoAnswers` | monero-oxide/ringct/clsag/src/lib.rs:220-250 | Two answers of one member's round to two challenges open the aggregate of its key and commitment for both generators at once. |
| `ClsagBinding.SharedChallengeOpens` | monero-oxide/ringct/clsag/src/lib.rs:434-483 | Two signatures accepted with one challenge for one statement open the last member so, or are a collision. |
| `ClsagBinding.GeneratorsBind` | monero-oxide/ringct/clsag/src/lib.rs:227-237 | Keys have generators of their own, unless the hash to a point collides. |
| `ClsagMultisig.Machine.constructor` | monero-oxide/ringct/clsag/src/multisig.rs:156-182 | A machine with no image yet, no mask received, and the transcript it is given. |
| `ClsagMultisig.Machine.RecordContext` | monero-oxide/ringct/clsag/src/multisig.rs:31-51 | The signer's index, and of every member of the ring its index, key and commitment, recorded in this order. |
| `ClsagMultisig.Machine.ProcessAddendum` | monero-oxide/ringct/clsag/src/multisig.rs:227-276 | Adds a participant's interpolated share to the image, and the offset with the first one only; records the participant and the share, after the context and the mask with the first one. Each failure exactly when it applies, with what is recorded until then. |
| `ClsagMultisig.Machine.SignShare` | monero-oxide/ringct/clsag/src/multisig.rs:282-319 | The core of signing under the joint image, the received mask and the decoy responses which are drawn from the transcript, and the participant's share of the response. |
| `ClsagMultisig.Machine.Verify` | monero-oxide/ringct/clsag/src/multisig.rs:321-359 | The completed signature, exactly when the verifier accepts it. |
| `ClsagMultisig.ProcessAll` | monero-oxide/ringct/clsag/src/multisig.rs:227-276 | After all addendums, in any order, the image is the scaled sum of the interpolated shares with the offset applied once; the transcript has them in that order. |
| `ClsagMultisig.TranscriptRecordsOrder` | monero-oxide/ringct/clsag/src/multisig.rs:227-276 | Two transcripts are the same if and only if the participants were gone through in the same order. |
| `ClsagMultisig.TranscriptBinds` | monero-oxide/ringct/clsag/src/multisig.rs:31-56 | A transcript tells the signer's index, every key and commitment of the ring, the mask and how many participants there were. |
| `ClsagMultisig.TransactionKeyImage` | monero-oxide/wallet/src/send/multisig.rs:247-279 | The transaction's own computation of that image. |
| `ClsagMultisig.ImagesAgree` | monero-oxide/wallet/src/send/multisig.rs:258-279 | The two are the same, and the group's key image, whatever the orders. |
| `ClsagMultisig.CoresAgreeIffOrdersDo` | monero-oxide/ringct/clsag/src/multisig.rs:227-319 | Two machines come to the same challenges and the same incomplete signature if and only if their orders are the same, unless the generator draws the same responses from different transcripts. |
| `ClsagMultisig.SumAnswered` | monero-oxide/ringct/clsag/src/multisig.rs:321-359 | The summed shares complete the signature which a single signer with the group's key would have made. |
| `ClsagMultisig.Sign` | monero-oxide/ringct/clsag/src/multisig.rs:227-359 | A machine for each signer, each through the addendums in some order. If these are the same order, all machines come to the same result: a signature exactly when a single signer's would be accepted, which the verifier answers for alike. |
| `SendMultisig.SortMapped` | monero-oxide/wallet/src/send/mod.rs:628-645 | Sorting by key image does not depend on what is sorted along. |
| `SendMultisig.SortsAlign` | monero-oxide/wallet/src/send/multisig.rs:287-298 | Sorting machines and inputs apart puts each machine where its input is. |
| `SendMultisig.SortSorts` | monero-oxide/wallet/src/send/mod.rs:49-51 | The sort is a permutation in descending order of the key images. |
| `SendMultisig.KeyImages` | monero-oxide/wallet/src/send/multisig.rs:247-279 | The transaction's key images, as transmitted, are those of the inputs' keys. |
| `SendMultisig.PseudoOutMasks` | monero-oxide/wallet/src/send/multisig.rs:300-315 | The masks are those drawn but for the last, and sum to the outputs' masks. |
| `SendMultisig.SignEach` | monero-oxide/wallet/src/send/multisig.rs:317-329 | Every machine signs its input with its mask: if the signers of an input have one order, the result is answered as a single signer's signature. |
| `UnreducedScalar.AsBits` | monero-oxide/ed25519/src/unreduced_scalar.rs:47-56 | The array holds, at every index, that bit of the bytes. |
| `UnreducedScalar.BitsStandFor` | monero-oxide/ed25519/src/unreduced_scalar.rs:47-56 | Those bits stand for the number. |
| `UnreducedScalar.Carry` | monero-oxide/ed25519/src/unreduced_scalar.rs:98-104 | The carry loop adds its power of two, or loses it past the last digit. |
| `UnreducedScalar.Window` | monero-oxide/ed25519/src/unreduced_scalar.rs:71-111 | One window keeps the value of the digits but for a carry which is lost, and leaves one non-zero digit followed by zeros. |
| `UnreducedScalar.NonAdjacentForm` | monero-oxide/ed25519/src/unreduced_scalar.rs:64-114 | Every digit is zero or odd and at most fifteen in magnitude, any five neighbours have at most one which is not zero, and the digits stand for the number, or for it less 2^256. |
| `UnreducedScalar.FormIsUnique` | monero-oxide/ed25519/src/unreduced_scalar.rs:64-114 | A number has at most one such form. |
| `UnreducedScalar.RecodesExactly` | monero-oxide/ed25519/src/unreduced_scalar.rs:64-114 | The digits stand for the number if and only if it fits, which is computed from the number alone; otherwise for the number less 2^256. |
| `UnreducedScalar.FitsIffForm` | monero-oxide/ed25519/src/unreduced_scalar.rs:64-114 | A number fits exactly when it has a form of 256 digits at all. |
| `UnreducedScalar.HalfRangeHasForm` | monero-oxide/ed25519/src/unreduced_scalar.rs:140-145 | Numbers whose top bit is clear have one, so nothing is lost. |
| `UnreducedScalar.AllOnesHasNoForm` | monero-oxide/ed25519/src/unreduced_scalar.rs:58-114 | A number for which the carry is lost. |
| `UnreducedScalar.Ref10SlideScalar` | monero-oxide/ed25519/src/unreduced_scalar.rs:126-163 | The scalar is the number reduced if the top bit is clear, by the fast path or digit by digit alike, and otherwise what the recoded digits stand for. |
| `EpeeStack.CodesAreDistinct` | monero-oxide/epee/src/stack.rs:37-71 | Distinct types have distinct four-bit codes, which decode to them. |
| `EpeeStack.NibbleWritten` | monero-oxide/epee/src/stack.rs:60-71 | Writing one half of a byte leaves the other half as it was. |
| `EpeeStack.Stack.Get` | monero-oxide/epee/src/stack.rs:37-58 | What the contents hold at the position. |
| `EpeeStack.Stack.Set` | monero-oxide/epee/src/stack.rs:60-71 | The contents change at that position alone. |
| `EpeeStack.Stack.Peek` | monero-oxide/epee/src/stack.rs:136-139 | The last of the contents. |
| `EpeeStack.Stack.Pop` | monero-oxide/epee/src/stack.rs:142-157 | One item fewer in the last slot, which goes with its last item. |
| `EpeeStack.Stack.Push` | monero-oxide/epee/src/stack.rs:160-177 | A slot more, unless it would be empty; fails exactly beyond the depth allowed. |
| `EpeeIo.Cursor.ReadVarInt` | monero-oxide/epee/src/io.rs:88-110 | The number above the two bits of its length, little-endian; each failure exactly when it applies. |
| `EpeeIo.Cursor.ReadStr` | monero-oxide/epee/src/io.rs:144-155 | The declared number of bytes after the number declaring it. |
| `EpeeIo.Cursor.ReadBytes` | monero-oxide/epee/src/io.rs:57-67 | The first bytes, or the failure for too few, without moving. |
| `EpeeParser.ReadType` | monero-oxide/epee/src/parser.rs:64-98 | A type and its number of items, with the array bit. |
| `EpeeParser.ReadKey` | monero-oxide/epee/src/parser.rs:104-113 | A key, which is not empty. |
| `EpeeParser.ReadHead` | monero-oxide/epee/src/parser.rs:127-185 | The head of an item: what is read of it and what it pushes. |
| `EpeeParser.SingleStep` | monero-oxide/epee/src/parser.rs:127-185 | Contents and cursor after one step, or its error. |
| `EpeeParser.Step` | monero-oxide/epee/src/parser.rs:190-212 | The iterative machine takes exactly the bytes the recursive-descent parser skips for the item on top, counts it off, and leaves the slots below as they were; the errors agree. |
| `EpeeParser.StepKeepsSkip` | monero-oxide/epee/src/parser.rs:127-185 | A step which succeeds consumes a byte, leaves lower slots alone, and keeps what the recursive parser makes of everything above any of them. |
| `EpeeParser.SkipInStages` | monero-oxide/epee/src/parser.rs:190-212 | Skipping down to a slot is skipping to a slot above it, and on from there. |
| `Epee.New` | monero-oxide/epee/src/lib.rs:80-104 | The header and version checks in their order; then one object to be read. |
| `Epee.Decoder.Entry` | monero-oxide/epee/src/lib.rs:111-116 | An entry for the root, once. |
| `Epee.Decoder.Skip` | monero-oxide/epee/src/lib.rs:66-76 | Dropping steps over what is left, keeps the first error, and does nothing after one. |
| `Epee.Decoder.Fields` | monero-oxide/epee/src/lib.rs:225-242 | From an entry for an object to its fields. |
| `Epee.Decoder.NextField` | monero-oxide/epee/src/lib.rs:149-166 | The key and the entry of the next field, with one field fewer. |
| `Epee.Decoder.ToValue` | monero-oxide/epee/src/lib.rs:261-273 | The bytes of a single value, which counts as read. |
| `Epee.Decoder.ToInteger` | monero-oxide/epee/src/lib.rs:275-329 | The integer of any width and sign which those bytes are. |
| `Epee.Decoder.ToBool` | monero-oxide/epee/src/lib.rs:366-370 | Whether that byte is not zero. |
| `Epee.Decoder.ToFixedLenStr` | monero-oxide/epee/src/lib.rs:353-363 | A string, if it is of the length asked for. |
| `Epee.Decoder.Perform` | monero-oxide/epee/src/lib.rs:66-273 | Each operation on the last handle alive takes the step of the model of walks. |
| `Epee.DroppedSlot` | monero-oxide/epee/src/lib.rs:66-76 | Dropping all of a slot is what the recursive parser makes of it. |
| `Epee.ReadIsDrop` | monero-oxide/epee/src/lib.rs:261-364 | Reading a value leaves the position where dropping its entry would. |
| `Epee.ActKeepsSettled` | monero-oxide/epee/src/lib.rs:66-273 | No operation changes where dropping everything down to a level would lead. |
| `Epee.WalksSettle` | monero-oxide/epee/src/lib.rs:66-273 | However an encoding is walked, reading, partly reading or dropping at any nesting, the position once the handles are dropped is where skipping leads. |
| `Epee.RootWalkReadsObject` | monero-oxide/epee/src/lib.rs:66-273 | A walk of the root which ends with every handle dropped has read exactly the bytes of the object. |
| `EpeeDocument.LengthIsRead` | monero-oxide/epee/src/io.rs:88-111 | A number n written in 1, 2, 4 or 8 bytes, as 4 n and the exponent of their number, is read as n, whatever follows it and whichever of the widths it fits in was taken. |
| `EpeeDocument.TypeIsRead` | monero-oxide/epee/src/parser.rs:64-100 | A type written as its code, marked if the number of values follows, is read as it and that number. |
| `EpeeDocument.OthersAreRefused` | monero-oxide/epee/src/parser.rs:64-125 | An empty key is refused, and so is exactly every code which is not one of a type, marked or not. |
| `EpeeDocument.FieldHead` | monero-oxide/epee/src/parser.rs:127-185 | Of a field written, the key, the type and the number of values are read, and the values are next. |
| `EpeeDocument.RecordHead` | monero-oxide/epee/src/parser.rs:127-185 | Of an object written, the number of fields is read, and the fields are next. |
| `EpeeDocument.ValueIsSkipped` | monero-oxide/epee/src/parser.rs:190-212 | A value written, nested to any depth and followed by anything, is skipped whole if and only if the stack has the slots it takes; otherwise the depth is what is wrong. |
| `EpeeDocument.DocumentStarts` | monero-oxide/epee/src/lib.rs:80-109 | A document written begins with what the decoder looks for. |
| `EpeeDocument.FieldReached` | monero-oxide/epee/src/lib.rs:149-166 | With the fields before it dropped, the position is that of any field of an object written. |
| `EpeeDocument.FieldIsRead` | monero-oxide/epee/src/lib.rs:149-166 | There, its key, type and number of values are read, and its values are next. |
| `EpeeDocument.ValueReached` | monero-oxide/epee/src/lib.rs:175-209 | With the values before it dropped, the position is that of any value of an array written. |
| `EpeeDocument.ValueIsRead` | monero-oxide/epee/src/lib.rs:261-370 | There, an integer is read as the one written, in two's complement if it is signed; so is a text, a float or a flag. |
| `Merkle.PairOff` | monero-oxide/src/merkle.rs:59-71 | Each pass over the array writes every pair over leaves already read, and leaves the first ones alone. |
| `Merkle.Reduce` | monero-oxide/src/merkle.rs:38-75 | The in-place reduction is the definition over lists, through powers of two. |
| `Merkle.MerkleRoot` | monero-oxide/src/merkle.rs:24-77 | The root of the definition for every number of leaves, and none for no leaves. |
| `Merkle.TreeOfPairs` | monero-oxide/src/merkle.rs:46-72 | Pairing off a power of two again and again is the perfect tree. |
| `Merkle.LeafIsUnderRoot` | monero-oxide/src/merkle.rs:24-77 | Every leaf has a path to the root: the first ones in their places on the level of the largest power of two, the others in the places after those one level lower. |
| `Merkle.RootBinds` | monero-oxide/src/merkle.rs:24-77 | With a pairing which is injective, lists of one length with one root are the same. |
| `Merkle.FewerLeaves` | monero-oxide/src/merkle.rs:24-77 | Every list has the root of some list of each smaller number of leaves but none. |
| `Merkle.BindsIffCounted` | monero-oxide/src/merkle.rs:24-77 | With a pairing which is injective, equal roots of lists of m and of n leaves make the lists equal if and only if m is n. |
| `Base58.EncodedLenForBytes` | monero-oxide/wallet/base58/src/lib.rs:23-33 | The length of the largest number of so many bytes in base 58. |
| `Base58.Encode` | monero-oxide/wallet/base58/src/lib.rs:36-63 | Blocks of eight bytes, each its digits in a fixed length. |
| `Base58.Decode` | monero-oxide/wallet/base58/src/lib.rs:66-105 | The decoding as it is specified, with every refusal: letters, lengths, overflow. |
| `Base58.RoundTrip` | monero-oxide/wallet/base58/src/lib.rs:36-105 | decode(encode(b)) is b for all bytes. |
| `Base58.Canonical` | monero-oxide/wallet/base58/src/lib.rs:66-105 | Whenever a string decodes, it is the encoding of what it decodes to. |
| `Base58.DecodesIffEncodes` | monero-oxide/wallet/base58/src/lib.rs:36-105 | A string decodes to some bytes if and only if it is their encoding. |
| `Base58.LettersAre` | monero-oxide/wallet/base58/src/lib.rs:12-13 | The letters are those of the alphabet. |
| `Base58.LargestBlock` | monero-oxide/wallet/base58/src/lib.rs:36-105 | The largest block is encoded as "jpXCZedGfVQ", and no larger last letter decodes. |
| `Base58.EncodeCheck` | monero-oxide/wallet/base58/src/lib.rs:108-112 | The data followed by four bytes of its hash, encoded. |
| `Base58.DecodeCheck` | monero-oxide/wallet/base58/src/lib.rs:115-126 | A string decodes exactly when it is what some data encodes to with its checksum, and it decodes to that data. |
| `VarInt.Write` | monero-oxide/io/src/varint.rs:92-115 | The minimal encoding. |
| `VarInt.EncodingIs` | monero-oxide/io/src/varint.rs:92-115 | The groups of seven bits which are written make the number, the least first; all but the last byte say that more follow, and none is in vain. |
| `VarInt.Read` | monero-oxide/io/src/varint.rs:61-86 | Reads as specified for the width, or fails and says why. |
| `VarInt.DecodesIffEncoded` | monero-oxide/io/src/varint.rs:61-115 | A number of the width is read exactly from its minimal encoding: no other encoding, and none of a larger number. |
| `VarInt.VarIntLenIsLength` | monero-oxide/io/src/varint.rs:53-58 | The computed length is the length written. |
| `VarInt.LongerIsNotShorter` | monero-oxide/io/src/varint.rs:53-58 | Larger numbers take no fewer bytes. |
| `Codec.VecExact` | monero-oxide/io/src/lib.rs:99-111 | A list after its length, within a bound, is exact if its elements are. |
| `Codec.ReadManyExact` | monero-oxide/io/src/lib.rs:70-80 | So are so many elements in a row. |
| `Transactions.TimelockExact` | monero-oxide/src/transaction.rs:173-207 | A timelock reads exactly from what is written for it. |
| `Transactions.InputExact` | monero-oxide/src/transaction.rs:46-94 | So does an input. |
| `Transactions.OutputExact` | monero-oxide/src/transaction.rs:116-156 | So does an output, with or without an amount and a view tag. |
| `Transactions.PrefixExact` | monero-oxide/src/transaction.rs:267-304 | So does a prefix, with the bounds on inputs, outputs and extra. |
| `Transactions.EncryptedAmountExact` | monero-oxide/src/ringct.rs:36-53 | So does an encrypted amount of either kind. |
| `Transactions.BaseExact` | monero-oxide/src/ringct.rs:174-236 | So does the base of the proofs. |
| `Transactions.BulletproofExact` | monero-oxide/ringct/bulletproofs/src/lib.rs:259-345 | So does a Bulletproof of either kind. |
| `Transactions.PrunableExact` | monero-oxide/src/ringct.rs:290-391 | So do the prunable proofs of each of the six types. |
| `Transactions.ProofsExact` | monero-oxide/src/ringct.rs:422-464 | So do all proofs, and their type is the one they were read as. |
| `Transactions.TransactionExact` | monero-oxide/src/transaction.rs:487-546 | Bytes read as a transaction, leaving some rest, if and only if they are what is written for it followed by that rest, for both versions and every type. |
| `TransactionIo.PrefixWritten` | monero-oxide/src/transaction.rs:267-273 | The prefix is written, field by field, as the format says. |
| `TransactionIo.BaseWritten` | monero-oxide/src/ringct.rs:174-185 | So is the base of the proofs. |
| `TransactionIo.BulletproofWritten` | monero-oxide/ringct/bulletproofs/src/lib.rs:259-310 | So is a Bulletproof. |
| `TransactionIo.PrunableWritten` | monero-oxide/src/ringct.rs:290-320 | So are the prunable proofs of every type. |
| `TransactionIo.PrefixRead` | monero-oxide/src/transaction.rs:282-304 | The prefix is read, field by field and with the same refusals, as the format says. |
| `TransactionIo.BaseRead` | monero-oxide/src/ringct.rs:188-236 | So is the base of the proofs. |
| `TransactionIo.PrunableRead` | monero-oxide/src/ringct.rs:322-391 | So are the prunable proofs of every type. |
| `TransactionIo.ReadIsWrite` | monero-oxide/src/transaction.rs:487-546 | The sequence of reads returns a transaction and some rest exactly when the bytes are what the sequence of writes makes of it, followed by that rest, and its parts are within the bounds. |
| `TransactionSizes.PrunedThenPrunable` | monero-oxide/src/transaction.rs:658-685 | The pruned transaction followed by the prunable part is the serialized transaction, of every transaction. |
| `TransactionSizes.ShapedSize` | monero-oxide/wallet/src/send/tx.rs:123-247 | The size of a CLSAG transaction depends on the numbers and lengths of its parts alone. |
| `Layout.TransactionIs` | monero-oxide/wallet/src/send/tx.rs:292-358 | The bytes of every transaction made to a plan, from the first to the last, as the network's format has them. |
| `Layout.ExtraIs` | monero-oxide/wallet/src/send/tx.rs:63-121 | The bytes of every extra the wallet makes. |
| `TransactionHashes.FirstVersionHash` | monero-oxide/src/transaction.rs:550-623 | The hash of a transaction of the first version is that of all its bytes. |
| `TransactionHashes.HashedInThree` | monero-oxide/src/transaction.rs:550-655 | The hash of the second version is that of the hashes of three parts of the serialization: up to the end of the prefix, up to the end of the base, and the rest; the message has the first two, and the hash of the range proofs. |
| `TransactionHashes.MessageBinds` | monero-oxide/src/transaction.rs:550-655 | Of every RingCT type: two transactions with one message to sign have the same type, prefix, base and range proofs, but for where the lists of a Bulletproof are split, unless Keccak collides on what it hashes of them. |
| `TransactionHashes.FirstMessageBinds` | monero-oxide/src/transaction.rs:550-655 | Of the first version: two transactions with one message have the same prefix. |
| `TransactionHashes.WholeBulletproof` | monero-oxide/ringct/bulletproofs/src/lib.rs:312-345 | Every point and scalar of a Bulletproof which can be read is thirty-two bytes. |
| `TransactionHashes.SignedAlike` | monero-oxide/ringct/bulletproofs/src/lib.rs:259-297 | Two Bulletproofs of a kind are signed alike if and only if they consist of the same points and scalars in the same order. |
| `TransactionHashes.SplitIsNotSigned` | monero-oxide/ringct/bulletproofs/src/lib.rs:295-297 | Where one of its lists ends and the other begins is not signed. |
| `TransactionHashes.PrunedHashIsHash` | monero-oxide/src/transaction.rs:735-742 | A pruned transaction and the hash of the prunable part have the hash of the transaction. |
| `Fee.CalculateClawback` | monero-oxide/ringct/bulletproofs/src/lib.rs:100-119 | Four fifths of what the proof is smaller than its outputs' share of a proof for two each; no subtraction underflows. |
| `Fee.ClawbackIs` | monero-oxide/ringct/bulletproofs/src/lib.rs:100-119 | For more than two outputs, four fifths of what the serialized proof is smaller than a proof of two outputs for every two of the padded number; else none. |
| `Fee.FeePaysForWeight` | monero-oxide/interface/src/provides_fee_rates.rs:103-122 | The fee is the least multiple of the mask paying for the weight, fits in 128 bits, and buys at least the weight. |
| `Fee.FeeIsMonotone` | monero-oxide/interface/src/provides_fee_rates.rs:103-114 | More weight does not cost less. |
| `Fee.NecessaryFee` | monero-oxide/wallet/src/send/tx.rs:249-289 | The search never fails, and the length of the fee it finds is equal to the length assumed for it. |
| `Fee.NecessaryIsUnique` | monero-oxide/wallet/src/send/tx.rs:249-289 | There is only one weight and one fee which the search can end with. |
| `Fee.ShimFollows` | monero-oxide/wallet/src/send/tx.rs:132-247 | The dummy transaction is one made to the plan, with no fee. |
| `Fee.ShimReads` | monero-oxide/wallet/src/send/tx.rs:171-236 | The bytes made for a dummy range proof are read as one, so that making it never fails. |
| `Fee.WeightsDifferByFee` | monero-oxide/wallet/src/send/tx.rs:123-247 | Transactions of one plan weigh the same but for the lengths of their fees. |
| `Fee.SignedWeight` | monero-oxide/wallet/src/send/tx.rs:123-289 | A transaction made to the plan which pays the necessary fee has exactly the weight computed from the dummy. |
| `Fee.WeightFits` | monero-oxide/wallet/src/send/tx.rs:249-262 | The weight of every plan fits in sixty-four bits, even with the longest fee. |
| `Fee.PlannedWeightPermuted` | monero-oxide/wallet/src/send/tx.rs:123-289 | The order of the inputs does not change the weight. |
| `Fee.WeightAndNecessaryFee` | monero-oxide/wallet/src/send/tx.rs:123-289 | The weight returned is that of every transaction which is made to the plan and pays the fee returned. |
| `SendAmounts.KeysCounted` | monero-oxide/wallet/src/send/mod.rs:307-311 | There are as many encoded keys as inputs exactly when no two are the same. |
| `SendAmounts.ValidateInputs` | monero-oxide/wallet/src/send/mod.rs:296-339 | Accepts exactly supported types, some inputs, distinct and spendable keys, and rings of the right size; each error is true of what it refuses. |
| `SendAmounts.ValidateOutputs` | monero-oxide/wallet/src/send/mod.rs:341-385 | Accepts exactly 2 to 16 outputs with a payment, change and payment IDs at most once, and data within the bounds; each error is true of what it refuses. |
| `SendAmounts.ValidateFunds` | monero-oxide/wallet/src/send/mod.rs:387-433 | Accepts exactly what is funded, without overflow, and within the weight limit; errors report the true amounts. |
| `SendAmounts.Validate` | monero-oxide/wallet/src/send/mod.rs:295-434 | All checks: accepts if and only if everything is acceptable and funded, and the fee is that of the weight which the signed transaction will have. |
| `SendAmounts.CommitmentAmounts` | monero-oxide/wallet/src/send/tx_keys.rs:275-305 | The amount of each output: of a payment its own; of change what the inputs have beyond all payments and the fee, with no underflow. |
| `SendAmounts.TransactionFee` | monero-oxide/wallet/src/send/tx.rs:326-349 | The fee written, which is the necessary fee or, without change, all that is left. |
| `SendAmounts.Conservation` | monero-oxide/wallet/src/send/tx_keys.rs:275-305 | The inputs are worth the outputs and the fee, with and without change. |
| `SendAmounts.SignInputs` | monero-oxide/wallet/src/send/mod.rs:696-709 | The pseudo-outs of the signatures sum to the commitments to the outputs and the fee times H. |
| `SendAmounts.SumOfCommitments` | monero-oxide/wallet/src/send/tx_keys.rs:309-317 | The commitments to the outputs sum to the sum of their masks and their amounts. |
| `SignedTransactions.AssembledFollows` | monero-oxide/wallet/src/send/tx.rs:292-358 | What is assembled, with or without signatures, is made to the plan: the range proof made and the signatures have the planned lengths. |
| `SignedTransactions.InAnyOrder` | monero-oxide/wallet/src/send/mod.rs:628-646 | Nothing which was validated depends on the order of the inputs. |
| `SignedTransactions.MessageOf` | monero-oxide/wallet/src/send/mod.rs:699-730 | The message is the same before the signatures are filled in and after. |
| `SignedTransactions.SignedVerifies` | monero-oxide/wallet/src/send/mod.rs:702-732 | Signatures answered for the message are answered for the signed transaction: under its key images, its pseudo-outs, and its own message. |
| `SignedTransactions.SignedIs` | monero-oxide/wallet/src/send/mod.rs:699-732 | What was prepared is, with signatures answered for its message and pseudo-outs which balance, a signed transaction. |
| `SignedTransactions.SignOrdered` | monero-oxide/wallet/src/send/mod.rs:683-732 | The transaction for inputs already in order: made to the plan, with the fee and the weight it was validated with, a valid range proof, balanced commitments, and signatures which are answered as they must be; the proof and the signatures are made of what was drawn for them. |
| `SignedTransactions.Sign` | monero-oxide/wallet/src/send/mod.rs:660-733 | The whole of it: fails exactly for a wrong key or an input which is not in its ring; otherwise, with the inputs in the order of their key images, the transaction is all of that. |
| `GroupTransactions.Multisig` | monero-oxide/wallet/src/send/multisig.rs:78-108 | Machines are made exactly if the group has the key of every input and every opening is that of its commitment; a wrong key is reported exactly if it is what fails first. |
| `GroupTransactions.Together` | monero-oxide/wallet/src/send/multisig.rs:281-298 | Inputs and machines, sorted apart, are in their places together, and in the places a single signer's inputs would have. |
| `GroupTransactions.GroupBalances` | monero-oxide/wallet/src/send/multisig.rs:300-315 | The group's pseudo-outs are worth the outputs and the fee. |
| `GroupTransactions.Sign` | monero-oxide/wallet/src/send/multisig.rs:208-380 | A group's transaction is a signed one just as a single signer's: made to the plan, with the fee and weight it was validated with, a valid range proof, balanced commitments, and signatures answered for its own message; the masks are those drawn but for the last. There is one exactly if every signature would be accepted. |
| `TransactionProofs.ReadVerdict` | monero-oxide/ringct/clsag/src/lib.rs:486-500 | A signature, as it is read from what was written of it, has the verdict of the signature. |
| `TransactionProofs.ValidAsRead` | monero-oxide/ringct/bulletproofs/src/lib.rs:299-345 | A valid range proof is valid as it is read from what was written of it. |
| `TransactionProofs.SignedIsProven` | monero-oxide/wallet/src/send/mod.rs:660-733 | Of a signed transaction, by what is read from it alone: the range proof is valid for the commitments in it, and its pseudo-outs are worth its commitments and its fee. |
| `TransactionProofs.SignedVerdicts` | monero-oxide/wallet/src/send/mod.rs:660-733 | And every signature in it, with the key image, the pseudo-out and the message which are in it, and the ring at the offsets its input has, has the verdict of an honest one. |
| `SignedReading.SignedIsRead` | monero-oxide/src/transaction.rs:487-546 | What was validated and signed is read from its serialization, whatever follows it, as the transaction it is: within all bounds, with scalars which are reduced. |
| `WalletKeys.TransactionKeys` | monero-oxide/wallet/src/send/tx_keys.rs:147-160 | The transaction's key, and one for each output exactly when additional keys are used. |
| `WalletKeys.AdditionalKeysNeeded` | monero-oxide/wallet/src/send/tx_keys.rs:121-144 | Additional keys are used if and only if there is a payment to a subaddress and another one to someone whose view key is not known. |
| `WalletKeys.TransactionKeysPub` | monero-oxide/wallet/src/send/tx_keys.rs:229-273 | Their public forms, for the generators the receivers expect. |
| `WalletKeys.Ecdhs` | monero-oxide/wallet/src/send/tx_keys.rs:162-193 | The shared secret of every output. |
| `WalletKeys.CandidateExists` | monero-oxide/wallet/src/send/tx_keys.rs:162-273 | For every mix of payments and kind of address, the sender's secret is one the holder of the address computes from the transaction's or the output's key. |
| `WalletKeys.OpenSealed` | monero-oxide/wallet/src/lib.rs:102-165 | The derivations recover the amount, the mask and the subaddress of an output made with them as the sender does, with a compact amount. |
| `WalletKeys.OpenMined` | monero-oxide/wallet/src/scan.rs:182-215 | They find a miner's output, with the amount it has and a mask of one. |
| `WalletKeys.DecryptEncrypted` | monero-oxide/wallet/src/lib.rs:123-163 | Decryption gives back the amount which was encrypted, with the mask of the commitment. |
| `WalletKeys.DecryptOriginal` | monero-oxide/wallet/src/lib.rs:135-158 | So does the decryption of the first kind of encrypted amount, whose mask and amount are hidden by adding hashes. |
| `WalletKeys.MaskedTwice` | monero-oxide/wallet/src/send/tx.rs:77-80 | What is masked twice is as it was: a payment ID comes out as it went in. |
| `WalletKeys.OpenedOffset` | monero-oxide/wallet/src/scan.rs:186-203 | Whatever opens an output, the offset and the spend key sum to the discrete logarithm of its key. |
| `WalletKeys.SharedSecret` | monero-oxide/wallet/src/scan.rs:158-166 | The receiver's multiple of a key, torsion included, is the sender's secret. |
| `WalletKeys.SameDerivations` | monero-oxide/wallet/src/lib.rs:70-113 | Representations of one point give the same derivations. |
| `WalletKeys.PaymentIdIsReceived` | monero-oxide/wallet/src/send/tx.rs:71-109 | The receiver's mask recovers the payment ID put in, or zeros for the dummy. |
| `WalletKeys.EveryOutputIsReceived` | monero-oxide/wallet/src/scan.rs:144-261 | A key which the scanner of the address tries opens the output, with its amount, commitment and subaddress. |
| `WalletKeys.InternalScanner.constructor` | monero-oxide/wallet/src/scan.rs:110-114 | The scanner looks for the main spend key. |
| `WalletKeys.InternalScanner.RegisterSubaddress` | monero-oxide/wallet/src/scan.rs:116-119 | And for the one of a subaddress, under its index. |
| `WalletSecrets.HashesAre` | monero-oxide/wallet/src/lib.rs:46-133 | Every secret derived for an output or a subaddress is the hash of the words and bytes which the comments say. |
| `WalletSecrets.SubaddressesApart` | monero-oxide/wallet/src/view_pair.rs:59-69 | Two subaddresses have two derivations, unless the hash collides. |
| `WalletSecrets.OutputsApart` | monero-oxide/wallet/src/lib.rs:70-98 | Outputs of one transaction have shared keys of their own, whatever their shared points, unless the hash collides. |
| `WalletSecrets.UniquenessBinds` | monero-oxide/wallet/src/lib.rs:54-67 | The uniqueness of a transaction is the hash of its key images, which no transaction with other ones hashes. |
| `WalletSecrets.MinerUniqueness` | monero-oxide/wallet/src/lib.rs:54-67 | Of a miner's transaction it is the hash of the height of its block, which no other height hashes. |
| `WalletSecrets.GuaranteedIsUnique` | monero-oxide/wallet/src/lib.rs:54-98 | No guaranteed output has the shared key of one of another transaction, unless a hash collides; without the guarantee it does where the shared point and the position are the same. |
| `WalletSecrets.ChangeGoesHome` | monero-oxide/wallet/src/send/mod.rs:84-98 | Change goes to the address of its view pair, of the subaddress asked for, guaranteed if it is to be. |
| `Scan.ScanOutput` | monero-oxide/wallet/src/scan.rs:145-261 | The first key which is not passed over decides about an output. |
| `Scan.ScanTransaction` | monero-oxide/wallet/src/scan.rs:121-266 | The outputs found in a transaction in their order; fails only if what is needed is missing or an index does not fit. |
| `Scan.Scan` | monero-oxide/wallet/src/scan.rs:268-330 | Succeeds if and only if the block is as it should be, nothing needed is missing, and all indexes fit; and then reports exactly the outputs found, with all that is known of them but for payment IDs in the clear from the twelfth hard fork on. |
| `Scan.BlockAscends` | monero-oxide/wallet/src/scan.rs:268-330 | The indexes reported ascend strictly and are among those of the block. |
| `Scan.BlockOutputsAre` | monero-oxide/wallet/src/scan.rs:268-330 | An output is reported exactly when it is found in some transaction, at an index which counts the RingCT outputs before it. |
| `Scan.KeysAreRead` | monero-oxide/wallet/src/scan.rs:131-138 | The receiver reads the sender's keys, as points, and the payment ID from the extra, and the data if there is none or the extra is within the relay rule's bound. |
| `Scan.PassedOver` | monero-oxide/wallet/src/scan.rs:158-203 | A key whose secret is not the shared one is passed over, unless the hashes of the two are just so far from each other that the output would seem to be for a spend key looked for. |
| `Scan.SentIsFound` | monero-oxide/wallet/src/scan.rs:121-261 | From the bytes the sender writes, a payment is found by the holder of the address it was made to; what is found opens the commitment, can be spent, and has the amount, subaddress and payment ID mask it was sent with, unless two hashes collide. |
| `ScanFindings.ReportedIsOwned` | monero-oxide/wallet/src/scan.rs:121-268 | Of any block at all, every output reported is at its place in a transaction, can be spent with the spend key, and opens the commitment there; of a miner's output, to the amount it has under a mask of one. |
| `ScanFindings.MinedIsReported` | monero-oxide/wallet/src/scan.rs:121-268 | A miner's output made for an address is reported to its holder of every block with the transaction, with its amount, a mask of one, and the subaddress it was paid to. |
| `Delivery.ValidSender` | monero-oxide/wallet/src/send/mod.rs:341-372 | What is validated of the payments is what the derivation of keys relies on. |
| `Sending.SharedKeys` | monero-oxide/wallet/src/send/tx_keys.rs:196-214 | What is derived of the shared secrets for every output, unique to the transaction where the address is guaranteed. |
| `Sending.Outputs` | monero-oxide/wallet/src/send/tx.rs:37-60 | The outputs as they are sent, and the masks of their commitments. |
| `Sending.PaymentIdToSend` | monero-oxide/wallet/src/send/tx.rs:71-109 | The payment ID of the first address which has one, masked; without any, for two outputs, a dummy. |
| `Sending.MakeExtra` | monero-oxide/wallet/src/send/tx.rs:63-121 | The extra: the keys, the payment ID and the data. |
| `Shuffling.ExtraLength` | monero-oxide/wallet/src/send/tx.rs:63-121 | The length of the extra, by the number of keys, whether there is a payment ID, and the data. |
| `Shuffling.ShuffledIsValid` | monero-oxide/wallet/src/send/mod.rs:476-484 | What was accepted, funded and weighed is that with its payments in any order, although the extra is another one. |
| `Sending.Pay` | monero-oxide/wallet/src/send/mod.rs:455-733 | From payments, which are shuffled after they are validated, to the transaction: succeeds exactly if everything is acceptable, funded and within the weight limit, every key is the one of its input, and every input is in its ring; what is then made, of what was drawn, is all that the arrival of the payments rests on. |
| `Sending.PaidIsRead` | monero-oxide/wallet/src/send/mod.rs:455-733 | Every transaction so made is read from its bytes, and proves its amounts by what is read. |
| `Sending.PaymentsArrive` | monero-oxide/wallet/src/send/mod.rs:455-733 | And every payment of it arrives, in full, at whoever holds the address, with the data. |
| `Delivery.SignedArrives` | monero-oxide/wallet/src/send/mod.rs:660-733 | A payment of a signed transaction is found in it by whoever holds the address: with the amount which the payment says or, for change, all that is left of the inputs, with the payment ID, and of the subaddress, under the same condition; there is no timelock, and the data is read. |
| `Delivery.ArrivesInBlock` | monero-oxide/wallet/src/scan.rs:268-330 | And it is reported of every block with the transaction, as that, with its timelock and data, at the index which counts the outputs before it. |
| `DecoySelection.RingctOutputDistribution` | monero-oxide/interface/src/provides_decoys.rs:73-93 | What passes the checks of a node's distribution, and each refusal exactly when its check fails. |
| `DecoySelection.UnlockedRingctOutputs` | monero-oxide/interface/src/provides_decoys.rs:95-114 | What passes the check of a node's outputs: as many as were asked for. |
| `DecoySelection.Sample` | monero-oxide/wallet/src/decoys.rs:131-151 | A sample hits the output drawn in the first block which ends with the output so far back or after it, below the bound; and none exactly if that block has none or there are not so many. |
| `DecoySelection.HitIff` | monero-oxide/wallet/src/decoys.rs:131-151 | An output can be hit if and only if it is below the bound and its block does not begin with the last output below it. |
| `DecoySelection.UsableIs` | monero-oxide/wallet/src/decoys.rs:193-215 | A usable output has the key of a secret which is not zero, and a commitment free of torsion. |
| `DecoySelection.SelectCandidates` | monero-oxide/wallet/src/decoys.rs:84-152 | Ends within the cap on iterations, with as many distinct candidates as asked for, none marked before or being spent. |
| `DecoySelection.TakeOutputs` | monero-oxide/wallet/src/decoys.rs:154-218 | Succeeds exactly if the node returned as many outputs as it was asked for, and the one being spent as it is; adds the usable ones of the others, as they were returned. |
| `DecoySelection.TakenAre` | monero-oxide/wallet/src/decoys.rs:154-218 | They are all of those. |
| `DecoySelection.SelectN` | monero-oxide/wallet/src/decoys.rs:26-222 | Ends for every stream; a success has ring length less one distinct, usable, unlocked outputs, without the one being spent. It succeeds if there is enough to select from, the node answers with usable outputs, and as many samples as are needed hit different ones. |
| `DecoySelection.SelectDecoys` | monero-oxide/wallet/src/decoys.rs:224-276 | The ring is accepted, the output being spent is the signer's at its own index, and every other member is a decoy which the node gave for the index it is at; there is one under the same conditions. |
| `DecoySelection.RingOffsets` | monero-oxide/wallet/src/decoys.rs:257-264 | The offsets of a sorted ring are representable and give its indexes back. |
| `DecoySelection.SortAscends` | monero-oxide/wallet/src/decoys.rs:242-245 | The sort is ascending. |
| `Extra.CountPadding` | monero-oxide/wallet/src/extra.rs:188-212 | The counting loop reads zeros up to the end, 255 bytes of padding at most. |
| `Extra.FieldRoundTrip` | monero-oxide/wallet/src/extra.rs:126-234 | A field which can be read is read back, with what follows it. |
| `Extra.WriteExtra` | monero-oxide/wallet/src/extra.rs:376-407 | The fields by kind, those of a kind in their order. |
| `Extra.ReadExtra` | monero-oxide/wallet/src/extra.rs:422-433 | The fields up to the first which does not read. |
| `Extra.ExtraRoundTrip` | monero-oxide/wallet/src/extra.rs:376-433 | Reading what was written gives the fields in their stable order. |
| `Extra.ExtraRoundTripIff` | monero-oxide/wallet/src/extra.rs:376-433 | It does if and only if every field can be read and there is at most one padding. |
| `Extra.ReadReadable` | monero-oxide/wallet/src/extra.rs:186-234 | Whatever is read can be read again once written. |
| `Extra.StartRead` | monero-oxide/wallet/src/extra.rs:334-340 | Of the start of an extra, exactly the fields it has in full are read. |
| `Extra.PaymentIdExact` | monero-oxide/wallet/src/extra.rs:58-86 | A nonce is a payment ID exactly when it is what is written for it. |
| `Extra.Keys` | monero-oxide/wallet/src/extra.rs:259-288 | All keys of the transaction, decompressed, with the first list of those of the outputs; the identity for those which do not decode, and none without the former. |
| `Extra.FieldsAreRead` | monero-oxide/wallet/src/extra.rs:259-310 | Whatever the fields are: every key of the transaction is read in its place, the first list of those of the outputs, and the first nonce as the payment ID. |
| `Extra.KeyIsRead` | monero-oxide/wallet/src/extra.rs:259-288 | A key which does not decode is read as the identity, and none is left out. |
| `Extra.ArbitraryData` | monero-oxide/wallet/src/extra.rs:334-350 | The marked nonces within the relay rule's bound. |
| `Extra.SenderDataUnderstood` | monero-oxide/wallet/src/extra.rs:334-350 | Arbitrary data is recovered if and only if there is none or the extra is within that bound. |
| `Extra.SenderExtraUnderstood` | monero-oxide/wallet/src/send/tx.rs:63-121 | The receiver reads the sender's keys, payment ID and data from what the sender wrote. |

## Left out

- Soundness, zero knowledge and unforgeability, which are probabilistic: only completeness and exact algebra are proved.
- Curve and field arithmetic, Keccak, hashing to points, point compression, and the generators: parameters with the assumptions named above.
- MLSAGs, Borromean range proofs and the ring signatures of version 1: their serializations are modelled, their verification is not.
- FROST and key generation: of interpolation it is assumed that the shares make the group's key, and nonces are given by their sum, without the binding factors. What FROST itself records in a machine's transcript is not there; it is the same for all participants. `verify_share` is not modelled.
- Constant-time selection, zeroizing and the mutex behind the mask channel: a choice is a boolean, and the channel an optional value.
- Sampling of ages with floating-point numbers: ages are an arbitrary stream.
- The node, its transports and formats other than EPEE; addresses as strings other than by base 58; `SignableTransaction` as bytes.
- `EpeeEntry` accessors which fail on a type: such a call leaves the entry unread and drops it, and the model of walks only has calls whose types fit. The readers of single integers differ in width only and are one method.
- Addition and halving of vectors in `scalar_vector.rs` are functions on sequences; that the source reuses the first operand's memory is not captured.
- Machine widths: `usize` has 64 bits. Weights and sums are checked against `u64` and `u128` where the source does.
- The filters of `Timelocked` over what was found: filters over a list.
- The hash of a transaction scanned: arbitrary bytes there; `TransactionHash.dfy` has the hash itself.
- Readers and writers of `Codec.dfy`, `Transaction.dfy`, `TransactionIo.dfy` and `Extra.dfy` are values, not methods on streams, as the source passes them as closures; the position in a stream and failures of the underlying reader are not captured. `VarInt.dfy` and the EPEE files do have streams as objects.
- WalletKeys.DecryptOriginal: nothing in the code encrypts amounts so; how they were is taken from how they are decrypted.
- Scan.SentIsFound: that what is found is what was sent assumes `Scan.NoCollision` if additional keys are used, since the transaction's key is tried first; it fails only for hashes at one distance.
- DecoySelection.SelectDecoys: each answer of the node is a value of a function of the round and of what is asked.
- Fee.WeightAndNecessaryFee: for at most 2^48 inputs, more than can be held in memory, so that the sizes fit in `usize`.
- SendAmounts.Validate: for as many inputs; the extra is given, and `Sending.MakeExtra` makes it.
- SignedTransactions.Sign: what is derived for the outputs, and what is drawn, are parameters; `Sending.Outputs` derives the former, and `Sending.Pay` does all of it.
- Sending.Pay: the shuffled payments are any order of them, as the generator of the shuffle is not modelled.
- DecoySelection.SelectN: when it succeeds is said for one round without a miss; a success after misses is one of the same kind.
- ClsagMultisig.Sign: the machines take their steps one after the other, with what the others sent as values, since none sees another's state. For differing orders it says nothing of the results.
- GroupTransactions.Sign: what is derived for the outputs, the order of the participants, which is one for all, and the masks drawn are parameters, as for a single signer.
