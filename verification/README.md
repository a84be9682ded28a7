# Verified models of the cocher node

This project models the parts of the repository whose correctness is hardest to see, and proves what they promise
with Dafny.

* **Ed25519 arithmetic.** The limb arithmetic modulo p = 2^255 - 19 in both representations (ten limbs of 25.5 bits,
  five of 51) and modulo the group order l, the point formulas, the signed-digit recodings, both scalar
  multiplications, point decoding and the exponentiation chains. Machine words are integers with explicit
  wrap-around functions (`Machine`), and the proofs show that nothing wraps. The formulas are proved over integers
  modulo p; the scalar multiplications on limbs (`LimbMult`) and over any commutative group, joined by the order in
  which they double and add (`Schedule`). On top of them stand key generation, signing and verifying (`Signature`),
  with the theorem that what is signed is accepted.
* **The protobuf codec of `stream.proto`.** Varints, tags, `skipStream` with nested groups, and `ID` and `Message`
  with their `Size`, `MarshalTo`, `Marshal` and `Unmarshal`. `RecordCodec` states once the scheme that all generated
  messages follow; `StreamCodec` instantiates it; `StreamMeaning` says what each field on the wire means, against the
  independent writer of `WireFields`; `StreamObjects` has the mutable objects, proved against it.
* **Kademlia routing and lookup.** The XOR metric, the bucketed table with its invariant, the nearest-peer search,
  and the asynchronous lookup, both as a step machine over all interleavings and as the loop it is written as.
* **Two containers.** The receive window and the least-recently-used cache, each an object proved against a value
  specification, and theorems about all runs of that specification.

`dafny verify dfyconfig.toml` checks everything. Network, clocks, channels and hashing are not modelled: a reply is
any value a network function gives, a hash is any function to 64 bytes, and a panic is an outcome.

## Where the code and its comments differ

* `fe.go` documents `FeMul` for limbs of 1.1*2^26 and 1.1*2^25, and `FeToBytes` for half of that. The callers in
  `group.go` may go beyond: doubling multiplies sums of three reduced elements and `FromBytes` encodes such sums, whose
  limbs are bounded by 1.5*2^26 and 1.512*2^25 only. The contracts here hold up to 1.65*2^26 and 1.65*2^25.
* `slide` is written for all 32-byte inputs, but a carry can leave position 255. `Slide.Lost` says exactly when; it
  never happens below 2^255.
* `FindClosestPeers` says it returns the peers with smallest distance. It stops widening when it has enough peers, so
  this can fail. A walk over the buckets up to distance r of the target's bucket b finds the nearest if and only if
  all buckets above b + r are empty, or bucket b and those buckets up to b + r whose bit is set in target xor self hold
  count peers (`NearestPeers.NearestIff`). `Routes.SearchCanMiss` is an example.
* A bucket accepts entries while it holds at most `BucketSize`, so it can hold `BucketSize + 1`: exactly after a
  newcomer met a bucket of `BucketSize` (`Routes.UpdateEffect`). `Routes.BucketOverfull` is a run that ends so.
* `Cache.Get` evicts before it calls `init`: a failing `init` costs an item if and only if the cache is full
  (`LruCache.FailureEvicts`). After any run the list is cut at limit - 1 instead of limit exactly when the last request
  that was not a hit failed (`LruCache.RunRecent`).
* `RecvWindow.Push` does not check that a nonce is in the window. After a push all later output is right if and only
  if it was the first, or its nonce is in the window, or its nonce is behind the window and its slot holds the value
  already (`RecvWindow.PushIff`). `RecvWindow.AnyNonceNext` and `StaleNonceReappears` show what else comes out.
* `FromBytes` accepts y of p or more, and a set sign bit with x = 0. Those are exactly the accepted inputs that
  `ToBytes` does not write back: y is p or more, or y^2 = 1 and the sign bit is set (`PointDecoding.Recode`). There are
  both: y = p + 1, and y = 1 with the sign bit (`PointDecoding.NotWrittenBack`).

## Model

| member | source | states |
|---|---|---|
| Scalar.ScMulAdd | crypto/ed25519/internal/edwards25519/scalar.go:17-440 | writes the 32 little-endian bytes of exactly (a*b + c) mod l, for all inputs, even when s is one of a, b, c; every step is an int64 that does not overflow |
| Scalar.ScReduce | crypto/ed25519/internal/edwards25519/scalar.go:448-764 | writes exactly s mod l for every 64-byte s |
| Scalar.ReduceExact | crypto/ed25519/internal/edwards25519/scalar.go:235-406 | the three reduction phases after the first fold turn any in-range limbs into the canonical digits of the same value mod l |
| Scalar.RoundProductExact | crypto/ed25519/internal/edwards25519/scalar.go:81-150 | the carries of the 24 product limbs keep the value and bring every limb near 21 bits |
| Scalar.HighExact | crypto/ed25519/internal/edwards25519/scalar.go:474-521 | folding limbs 23 down to 18 keeps the value mod l and empties those limbs |
| ScalarBytes.Unpack12Exact | crypto/ed25519/internal/edwards25519/scalar.go:18-53 | cutting 32 bytes into 21-bit limbs keeps the number |
| ScalarBytes.Unpack24Exact | crypto/ed25519/internal/edwards25519/scalar.go:449-472 | cutting 64 bytes into 21-bit limbs keeps the number |
| ScalarBytes.PackExact | crypto/ed25519/internal/edwards25519/scalar.go:408-439 | the output bytes spell the number the limbs stand for, including a top limb of more than 21 bits |
| ScalarProduct.ColumnsExact | crypto/ed25519/internal/edwards25519/scalar.go:54-78 | the hand-written column sums are the product a*b plus c, with every column below 2^51 |
| ScalarReduction.FoldVal | crypto/ed25519/internal/edwards25519/scalar.go:152-158 | folding limb i by the constants 666643, 470296, ... subtracts exactly its digit times l shifted by i - 12 limbs |
| ScalarReduction.FoldRunExact | crypto/ed25519/internal/edwards25519/scalar.go:152-198 | a run of folds keeps the value mod l, empties the folded limbs, and bounds the growth of the rest, so int64 never wraps |
| ScalarReduction.RoundRunExact | crypto/ed25519/internal/edwards25519/scalar.go:200-233 | a run of rounding carries keeps the value and leaves limbs of at most 2^20 in size behind it |
| ScalarReduction.FloorRunExact | crypto/ed25519/internal/edwards25519/scalar.go:329-364 | a run of floor carries keeps the value and leaves 21-bit digits behind it |
| ScalarReduction.FoldMiddleExact | crypto/ed25519/internal/edwards25519/scalar.go:200-282 | the middle phase keeps the value mod l and leaves twelve limbs |
| ScalarReduction.FoldLowExact | crypto/ed25519/internal/edwards25519/scalar.go:283-328 | the low phase keeps the value mod l and leaves twelve small limbs |
| ScalarReduction.LowRange | crypto/ed25519/internal/edwards25519/scalar.go:317-366 | before the first floor chain the value lies strictly between -2^252 and 2^252 |
| ScalarReduction.FinishExact | crypto/ed25519/internal/edwards25519/scalar.go:321-406 | from there the last two folds and floor chains produce exactly the value mod l |
| FieldElement.FeAdd | crypto/ed25519/internal/edwards25519/fe.go:20-31 | limbwise sum, no int32 overflow |
| FieldElement.FeSub | crypto/ed25519/internal/edwards25519/fe.go:33-44 | limbwise difference, no int32 overflow |
| FieldElement.FeNeg | crypto/ed25519/internal/edwards25519/fe.go:198-209 | limbwise negation |
| FieldElement.FeMul | crypto/ed25519/internal/edwards25519/fe.go:327-378 | for limbs up to 1.65*2^26 / 1.65*2^25 the result is congruent to f*g mod p with limbs within 2^25 / 1.008*2^24, no overflow, also when h is f or g |
| FieldElement.FeSquare | crypto/ed25519/internal/edwards25519/fe.go:380-429 | the same for f*f |
| FieldElement.FeSquare2 | crypto/ed25519/internal/edwards25519/fe.go:441-457 | the same for 2*f*f |
| FieldElement.FeCombine | crypto/ed25519/internal/edwards25519/fe.go:211-292 | run in place on ten 64-bit sums of size up to 0x7000000000000000 each, the carry chain leaves an element congruent to the one it got, with limbs within 2^25 and 1.008*2^24: what a multiplication may take again |
| FieldElement.FeFromBytes | crypto/ed25519/internal/edwards25519/fe.go:64-83 | an element congruent to the low 255 bits of the input, within the tight bounds |
| FieldElement.FeToBytes | crypto/ed25519/internal/edwards25519/fe.go:102-189 | writes the unique little-endian encoding of h mod p; the mutated h holds the digits of h mod p |
| FieldLimbs.RoundExact | crypto/ed25519/internal/edwards25519/fe.go:225-240 | one rounding carry keeps the value mod p, halves the limb it leaves, and moves a bounded carry up |
| FieldLimbs.CombineExact | crypto/ed25519/internal/edwards25519/fe.go:211-292 | the whole carry chain keeps the value mod p and restores the tight limb bounds |
| FieldProduct.MulColumnsExact | crypto/ed25519/internal/edwards25519/fe.go:327-376 | the 100 products with their precomputed multiples by 2, 19 and 38 are the ten convolution sums, no overflow |
| FieldProduct.MulExact | crypto/ed25519/internal/edwards25519/fe.go:327-378 | the product limbs are congruent to the product |
| FieldProduct.SquareIsMul | crypto/ed25519/internal/edwards25519/fe.go:380-429 | the shortened squaring gives the same limbs as multiplying f by f |
| FieldProduct.Square2Exact | crypto/ed25519/internal/edwards25519/fe.go:441-457 | doubling the columns first gives twice the square |
| FieldBytes.LoadedExact | crypto/ed25519/internal/edwards25519/fe.go:64-76 | the overlapping loads and shifts add up to the low 255 bits |
| FieldBytes.QuotientExact | crypto/ed25519/internal/edwards25519/fe.go:85-116 | the carry estimate is q = floor(h / p) exactly |
| FieldBytes.FrozenExact | crypto/ed25519/internal/edwards25519/fe.go:118-155 | subtracting q*p leaves the digits of h mod p |
| FieldBytes.ToBytesExact | crypto/ed25519/internal/edwards25519/fe.go:102-189 | the bytes written spell h mod p |
| FieldBytes.RoundTrip | crypto/ed25519/internal/edwards25519/fe.go:64-189 | FeToBytes after FeFromBytes gives (x mod 2^255) mod p for every 32-byte x |
| Field51.FeReduce | crypto/ed25519/internal/edwards25519/fe_amd64.go:180-218 | for limbs below 2^63 the result is the unique representative in [0, p) |
| Field51.FeSub | crypto/ed25519/internal/edwards25519/fe_amd64.go:31-56 | congruent to a - b mod p; no limb goes below zero or wraps |
| Field51.FeToBytes | crypto/ed25519/internal/edwards25519/fe_amd64.go:134-178 | writes v mod p |
| Field51.FromBytesExact | crypto/ed25519/internal/edwards25519/fe_amd64.go:91-132 | five 51-bit limbs of the low 255 bits |
| Field51.AddExact | crypto/ed25519/internal/edwards25519/fe_amd64.go:22-28 | the sum does not wrap |
| Field51.SubExact | crypto/ed25519/internal/edwards25519/fe_amd64.go:31-56 | a - b plus a multiple of p, limb by limb without wrap-around |
| Field51.CarriedExact | crypto/ed25519/internal/edwards25519/fe_amd64.go:180-198 | the first carry chain subtracts a multiple of p and leaves limbs of 51 bits, the lowest a little more |
| Field51.SettledExact | crypto/ed25519/internal/edwards25519/fe_amd64.go:200-218 | the later chains settle the limbs, dropping multiples of 2^255 |
| Field51.ReducedExact | crypto/ed25519/internal/edwards25519/fe_amd64.go:180-218 | all steps together compute v mod p |
| Field51.ToBytesExact | crypto/ed25519/internal/edwards25519/fe_amd64.go:134-178 | the masked and or-ed bytes spell v mod p |
| Field51.RoundTrip | crypto/ed25519/internal/edwards25519/fe_amd64.go:91-178 | FeToBytes after FeFromBytes gives (x mod 2^255) mod p for every 32-byte x |
| FieldPower.Invert | crypto/ed25519/internal/edwards25519/field.go:61-114 | computes z^(2^255 - 21), that is z^(p - 2) |
| FieldPower.Pow22523 | crypto/ed25519/internal/edwards25519/field.go:116-175 | computes z^(2^252 - 3) |
| PointDecoding.IsNegative | crypto/ed25519/internal/edwards25519/field.go:42-46 | the parity of the canonical value |
| PointDecoding.IsNonZero | crypto/ed25519/internal/edwards25519/field.go:48-59 | whether the value is nonzero mod p |
| EdwardsCurve.AdditionLaw | crypto/ed25519/internal/edwards25519/group.go:154-181 | the unified addition followed by ToExtended is, cross-multiplied mod p, the twisted Edwards addition law of section 5.1.4 of RFC 8032 |
| EdwardsCurve.ToExtendedIsExtended | crypto/ed25519/internal/edwards25519/group.go:154-159 | X*Y = Z*T holds after ToExtended |
| EdwardsCurve.SumOnCurve | crypto/ed25519/internal/edwards25519/group.go:167-181 | the sum of two points of the curve is on the curve |
| EdwardsCurve.TwinIsSum | crypto/ed25519/internal/edwards25519/group.go:42-54 | the dedicated doubling is the sum of a point with itself, up to a common factor 2 |
| EdwardsCurve.TwinOnCurve | crypto/ed25519/internal/edwards25519/group.go:42-54 | doubling stays on the curve |
| EdwardsCurve.NegatedOnCurve | crypto/ed25519/internal/edwards25519/group.go:183-197 | so does the negation that geSub adds |
| GroupElement.Constants | crypto/ed25519/internal/edwards25519/group.go:102-147 | the constants d, 2d and sqrt(-1) satisfy 121666 d = -121665, 2d = D2 and sqrt(-1)^2 = -1 mod p |
| GroupElement.GeAdd | crypto/ed25519/internal/edwards25519/group.go:167-181 | computes the sum of the two points, all limbs in bounds |
| GroupElement.GeSub | crypto/ed25519/internal/edwards25519/group.go:183-197 | computes the sum with the negated second point |
| GroupElement.GeMixedAdd | crypto/ed25519/internal/edwards25519/group.go:199-212 | agrees with GeAdd when the second point has Z = 1 |
| GroupElement.GeMixedSub | crypto/ed25519/internal/edwards25519/group.go:214-227 | agrees with GeSub when the second point has Z = 1 |
| GroupElement.ProjectiveGroupElement.Double | crypto/ed25519/internal/edwards25519/group.go:42-54 | computes the doubled point, all limbs in bounds |
| GroupElement.CompletedGroupElement.ToExtended | crypto/ed25519/internal/edwards25519/group.go:154-159 | converts between the representations of one point |
| GroupElement.CompletedGroupElement.ToProjective | crypto/ed25519/internal/edwards25519/group.go:148-152 | converts between the representations of one point |
| GroupElement.ExtendedGroupElement.ToCached | crypto/ed25519/internal/edwards25519/group.go:79-84 | converts between the representations of one point |
| PointDecoding.FromBytes | crypto/ed25519/internal/edwards25519/group.go:102-147 | succeeds exactly when u v^3 (u v^7)^((p-5)/8), for u = y^2 - 1 and v = d y^2 + 1, squares to u/v or to -u/v; then the point is on the curve, y is the low 255 bits, x is zero exactly if y^2 = 1, and otherwise has the requested parity |
| PointDecoding.ToBytes | crypto/ed25519/internal/edwards25519/group.go:92-101 | writes y/z with the parity of x/z in the top bit, as section 5.1.2 of RFC 8032 encodes a point |
| PointDecoding.DecodedEncodes | crypto/ed25519/internal/edwards25519/group.go:92-147 | the number encoded for a decoded point is that of the input if and only if its y is below p and it is not x = 0 with the sign bit set |
| PointDecoding.Recode | crypto/ed25519/internal/edwards25519/group.go:92-147 | ToBytes after a successful FromBytes writes the input back if and only if its y is below p and the sign bit is not set where y^2 = 1: a condition on the input alone |
| PointDecoding.NotWrittenBack | crypto/ed25519/internal/edwards25519/group.go:92-147 | two inputs that are accepted and not written back: y = p + 1, and y = 1 with the sign bit |
| PointDecoding.ZeroHasRoot | crypto/ed25519/internal/edwards25519/group.go:102-147 | where y^2 - 1 is a multiple of p the candidate is zero and fits, so every y with y^2 = 1 is accepted |
| PointDecoding.RootOnCurve | crypto/ed25519/internal/edwards25519/group.go:102-147 | a root makes a point of the curve |
| PointRoots.RootComplete | crypto/ed25519/internal/edwards25519/group.go:112-125 | wherever x^2 v = u has a solution x, the candidate fits, for all u, v and x at which Euler's criterion holds: no point is refused |
| PointRoots.AcceptedIff | crypto/ed25519/internal/edwards25519/group.go:102-147 | an input is accepted only if the curve has a point with its y, and, by Euler's criterion, whenever it has |
| Slide.Recode | crypto/ed25519/internal/edwards25519/group.go:229-259 | the digits are 0 or odd in [-15, 15], nonzero ones at least five apart, and sum up to a, less 2^256 exactly when the carry runs off position 255 |
| Slide.BelowHalf | crypto/ed25519/internal/edwards25519/group.go:229-259 | for a below 2^255, so for every scalar below 2^253, no carry runs off |
| Slide.LostWitness | crypto/ed25519/internal/edwards25519/group.go:229-259 | for 2^255 + 2^251 one does: the recoding is then not a |
| Slide.Window | crypto/ed25519/internal/edwards25519/group.go:234-257 | what one nonzero position makes of the bits above it |
| Slide.Propagate | crypto/ed25519/internal/edwards25519/group.go:246-252 | the inner carry loop adds a power of two to the bits, or runs off the top |
| ScalarMult.DoubleScalarMult | crypto/ed25519/internal/edwards25519/group.go:265-314 | computes recode(a)*A + recode(b)*B in any commutative group for all 32-byte scalars, and a*A + b*B for those below 2^255 |
| ScalarMult.FillTable | crypto/ed25519/internal/edwards25519/group.go:275-283 | the table holds A, 3A, ..., 15A |
| ScalarMult.AddDigit | crypto/ed25519/internal/edwards25519/group.go:296-311 | each table index is in 0..7 and adds digit times the point |
| ScalarMult.PartialStep | crypto/ed25519/internal/edwards25519/group.go:293-314 | one step of the loop: double, then add both digits |
| BaseMult.EqualDecides | crypto/ed25519/internal/edwards25519/group.go:316-322 | branch-free equality on 32-bit words |
| BaseMult.NegativeDecides | crypto/ed25519/internal/edwards25519/group.go:324-327 | branch-free sign test |
| BaseMult.WordParts | crypto/ed25519/internal/edwards25519/group.go:335-338 | the shifted and masked word operations give sign and absolute value of every b in [-8, 8] |
| BaseMult.CMoveSelects | crypto/ed25519/internal/edwards25519/fe.go:50-62 | branch-free selection by mask |
| BaseMult.Split | crypto/ed25519/internal/edwards25519/group.go:359-362 | the nibbles of a |
| BaseMult.Carry | crypto/ed25519/internal/edwards25519/group.go:364-373 | keeps the radix-16 value and leaves digits in [-8, 8] |
| BaseMult.SelectPoint | crypto/ed25519/internal/edwards25519/group.go:335-349 | by the sign, absolute value and equality computed on 32-bit words, selects b times the row's point for b in [-8, 8] |
| BaseMult.AddStride | crypto/ed25519/internal/edwards25519/group.go:376-400 | one pass over the odd or the even digits adds their weighted sum |
| BaseMult.ScalarMultBase | crypto/ed25519/internal/edwards25519/group.go:351-400 | for a[31] <= 127, odd digits, four doublings and even digits give a*B, given base[i][j] = (j+1)*256^i*B |
| LimbMult.CurveKept | crypto/ed25519/internal/edwards25519/group.go:42-54 | applied to points of the curve, doubling, adding and negating in extended coordinates stay on the curve |
| Schedule.LadderKept | crypto/ed25519/internal/edwards25519/group.go:265-314 | every point that the double-scalar schedule reaches has what all these formulas keep |
| Schedule.LadderZeros | crypto/ed25519/internal/edwards25519/group.go:287-291 | leading zero digits can be skipped where doubling the identity changes no coordinate |
| Schedule.RowwiseKept | crypto/ed25519/internal/edwards25519/group.go:376-400 | so has the point of the schedule over the rows of the base table |
| Schedule.LadderMeaning | crypto/ed25519/internal/edwards25519/group.go:265-314 | whatever the formulas work on, if the results stand for elements of a group, the double-scalar schedule computes the partial sums of both multiples |
| Schedule.LadderComputes | crypto/ed25519/internal/edwards25519/group.go:265-314 | with the table of odd multiples filled from A, the result stands for recode(a)*A + recode(b)*B, and for a*A + b*B when both scalars are below 2^255 |
| Schedule.RowwiseMeaning | crypto/ed25519/internal/edwards25519/group.go:376-400 | the schedule over the rows computes the multiple that the digits spell |
| LimbMult.FillTable | crypto/ed25519/internal/edwards25519/group.go:275-283 | the cached limbs of A, 3A, ..., 15A, as the schedule fills them |
| LimbMult.AddCached | crypto/ed25519/internal/edwards25519/group.go:296-302 | one digit of a, on limbs, adds or subtracts the table's point |
| LimbMult.AddMixed | crypto/ed25519/internal/edwards25519/group.go:304-310 | one digit of b, on limbs |
| LimbMult.DoubleScalarMult | crypto/ed25519/internal/edwards25519/group.go:265-314 | on limbs: r stands for the point that the schedule reaches over both recoded scalars, all limbs in bounds, and that point is on the curve |
| LimbMult.SelectPoint | crypto/ed25519/internal/edwards25519/group.go:335-349 | on limbs: the point of the row that b selects, negated by swapping y + x with y - x for a negative b |
| LimbMult.AddStride | crypto/ed25519/internal/edwards25519/group.go:376-400 | one pass over the odd or the even digits, on limbs |
| LimbMult.ScalarMultBase | crypto/ed25519/internal/edwards25519/group.go:351-400 | on limbs, for a[31] <= 127: h stands for the point that the schedule reaches over the digits of a, all limbs in bounds, and that point is on the curve |
| Signature.TopClamped | crypto/ed25519/base.go:77-79 | masking the last byte with 127, as key generation does, or with 63, as signing does, gives the same secret scalar |
| Signature.ClampedMeaning | crypto/ed25519/base.go:77-79 | the secret scalar is a multiple of 8 in [2^254, 2^255), and all other bits are those of the digest |
| Signature.Equation | crypto/ed25519/base.go:136-180 | with B of order dividing l, ((h*a + r) mod l)*B - h*(a*B) = r*B in any commutative group, for all h, a, r |
| Signature.AcceptedIff | crypto/ed25519/base.go:145-181 | accepted are exactly the signatures R, s with s below 2^253 for which s*B - h*A encodes to R, h being the hash of R, the key and the message, for keys of order dividing l |
| Signature.SignedIsAccepted | crypto/ed25519/base.go:66-181 | every signature that signing makes with a generated key is accepted under that key, whatever the message, the hash and the encoding, provided the public key decodes to the point it encodes |
| Signature.MessageBound | crypto/ed25519/base.go:145-181 | a signature accepted for two messages has hashes over R, the key and each message that differ by a multiple of the order of A |
| Signature.NonceBound | crypto/ed25519/base.go:113-122 | signatures of two messages that share R have nonce hashes, over the digest's second half and the message, that differ by a multiple of the order of B |
| Signature.GenerateKey | crypto/ed25519/base.go:66-92 | the public key encodes the clamped hash of the seed times B, the private key is the seed and the public key |
| Signature.Sign | crypto/ed25519/base.go:96-141 | returns R and (h*a + r) mod l, by way of ScReduce, ScMulAdd and the base multiplication; panics exactly on a private key of another length |
| Signature.Verify | crypto/ed25519/base.go:145-181 | accepts exactly when the length and the top three bits fit, the key decodes to A, and s*B - h*A encodes to R; panics exactly on a public key of another length |
| Wire.SovExact | internal/protobuf/stream.pb.go:1787-1796 | sovStream is the number of bytes encodeVarintStream writes |
| WireFields.VarintSeptets | internal/protobuf/stream.pb.go:1634-1642 | the bytes written are the seven-bit groups of the number, the lowest first, all but the last marked, in the shortest form |
| Wire.VarintRoundTrip | internal/protobuf/stream.pb.go:1634-1642 | reading a varint into w <= 64 bits gives back every w-bit number, whatever follows |
| Wire.VarintCut | internal/protobuf/stream.pb.go:1926-1941 | a number of up to 64 bits read into w bits keeps its low w bits |
| Wire.UvarintIff | internal/protobuf/stream.pb.go:1926-1941 | a varint is read exactly if one of its first ten bytes has no mark, and takes the bytes up to there; otherwise it is an overflow after ten bytes, or the end of the input before |
| Wire.UvarintLocal | internal/protobuf/stream.pb.go:1926-1941 | reading depends only on the bytes it takes |
| Wire.UvarintBound | internal/protobuf/stream.pb.go:1926-1941 | a value read into w bits has w bits, however long its encoding |
| Wire.GatheredRead | internal/protobuf/stream.pb.go:1926-1941 | the bits gathered by a varint loop that may break off are the value when it does not |
| Wire.Skip | internal/protobuf/stream.pb.go:2819-2917 | skipping ends on every input, advances by at least 1, and reaches its panic only on empty input |
| WireFields.SkipWritten | internal/protobuf/stream.pb.go:2819-2917 | skipping a written field of any of the five wire forms, groups within groups included, ends exactly behind it, whatever follows |
| WireFields.SkipGroupWritten | internal/protobuf/stream.pb.go:2872-2905 | so does skipping the fields of a group and its end tag |
| WireFields.SkipOthers | internal/protobuf/stream.pb.go:2819-2917 | an end tag is skipped as a tag alone, a length with the top bit set and the wire types 6 and 7 are refused |
| Wire.SkipLocal | internal/protobuf/stream.pb.go:2819-2917 | skipping depends only on the bytes skipped |
| Wire.SkipGroupLocal | internal/protobuf/stream.pb.go:2872-2905 | so does skipping a group with all nested groups |
| WireBuffer.EncodeVarint | internal/protobuf/stream.pb.go:1634-1642 | writes exactly the varint at the offset and nothing else |
| WireBuffer.SovStream | internal/protobuf/stream.pb.go:1787-1796 | computes the length of a varint |
| WireBuffer.DecodeVarint | internal/protobuf/stream.pb.go:1926-1941 | the reading loop: value and end, or the same error |
| WireBuffer.SkipStream | internal/protobuf/stream.pb.go:2819-2917 | the recursive loop returns what Skip says, errors included |
| RecordCodec.FieldEndsWhereSkipEnds | internal/protobuf/stream.pb.go:2064-2315 | wherever Unmarshal accepts a field, known or not, skipStream ends it at the same place |
| RecordCodec.FieldLocal | internal/protobuf/stream.pb.go:2064-2315 | decoding a field depends only on its own bytes |
| RecordCodec.FieldRoundTrip | internal/protobuf/stream.pb.go:1374-1436 | a field that was written is read back, whatever follows |
| RecordCodec.DecodeEncoded | internal/protobuf/stream.pb.go:1374-1436 | decoding encoded fields applies them in turn, then goes on behind them |
| RecordCodec.DecodeConcat | internal/protobuf/stream.pb.go:2064-2315 | decoding d ++ e is decoding d, then e into the result |
| RecordCodec.LeftDecoded | internal/protobuf/stream.pb.go:2064-2315 | what decoding leaves behind, error or not, is the decoded record when there is no error |
| RecordCodec.LeftConcat | internal/protobuf/stream.pb.go:2064-2315 | an error behind an accepted input leaves what the input gave and what is left from there on |
| RecordCodec.UnknownKept | internal/protobuf/stream.pb.go:2296-2309 | the unrecognized bytes of the result are those it had plus exactly the unknown fields of the input, in order |
| RecordCodec.UnrecognizedUnknown | internal/protobuf/stream.pb.go:2296-2309 | those bytes are themselves whole unknown fields |
| RecordCodec.AllOfItUnknown | internal/protobuf/stream.pb.go:2296-2309 | if decoding keeps every byte as unrecognized, the input was a run of whole unknown fields |
| StreamCodec.IDRoundTrip | internal/protobuf/stream.pb.go:1335-1362 | an ID survives the round trip if and only if its unrecognized bytes are whole fields unknown to ID |
| StreamCodec.MessageRoundTrip | internal/protobuf/stream.pb.go:1374-1436 | a Message, nested Sender included, survives Marshal then Unmarshal if and only if its unrecognized bytes and its Sender's are whole unknown fields |
| StreamCodec.PlainRoundTrip | internal/protobuf/stream.pb.go:1374-1436 | without unrecognized bytes the round trip always succeeds |
| StreamMeaning.IDLayout | internal/protobuf/stream.pb.go:1335-1362 | the bytes of an ID, tag by tag |
| StreamMeaning.MessageLayout | internal/protobuf/stream.pb.go:1374-1436 | the bytes of a Message, tag by tag, the nested Sender with its length |
| StreamMeaning.IDSets | internal/protobuf/stream.pb.go:1922-2063 | a field 1, 2 or 3 behind an accepted input sets NetKey, Address or Id and nothing else: the last of two equal fields wins |
| StreamMeaning.IDOthers | internal/protobuf/stream.pb.go:1922-2063 | higher numbers are kept in any wire form, known numbers in another form and the number zero are refused |
| StreamMeaning.MessageSetsBytes | internal/protobuf/stream.pb.go:2064-2315 | a field 1, 3 or 8 behind an accepted input sets Message, Signature or DialAddress and nothing else: the last one wins |
| StreamMeaning.MessageSetsNumbers | internal/protobuf/stream.pb.go:2064-2315 | so for fields 4 to 7: RequestNonce and MessageNonce, ReplyFlag for any number but zero, and Opcode cut to 32 bits |
| StreamMeaning.MessageSender | internal/protobuf/stream.pb.go:2064-2315 | field 2 is decoded into the Sender that is there, or into a new one |
| StreamMeaning.MessageOthers | internal/protobuf/stream.pb.go:2064-2315 | higher numbers are kept in any wire form, known numbers in another form and the number zero are refused |
| StreamMeaning.MessageKept | internal/protobuf/stream.pb.go:2064-2315 | a refused field leaves the object as it was before it |
| StreamMeaning.MessageCutOff | internal/protobuf/stream.pb.go:2064-2315 | a number cut off behind its tag has been cleared, the flag has not |
| StreamAccepted.IDSizeExact | internal/protobuf/stream.pb.go:1643-1663 | ID.Size is the number of bytes written |
| StreamAccepted.MessageSizeExact | internal/protobuf/stream.pb.go:1664-1700 | Message.Size is the number of bytes written, Sender included |
| StreamAccepted.SovSum | internal/protobuf/stream.pb.go:1787-1796 | the length header of merged senders is no longer than their two headers |
| StreamAccepted.FieldCost | internal/protobuf/stream.pb.go:2064-2315 | a field that was read took no fewer bytes than writing it takes |
| StreamAccepted.MessageGrowth | internal/protobuf/stream.pb.go:2064-2315 | decoding into a message adds at most the input's length to its size |
| StreamAccepted.AcceptedRoundTrip | internal/protobuf/stream.pb.go:2064-2315 | every accepted input marshals again to at most its length, keeps its unknown fields in order, and unmarshals to an equal message |
| StreamAccepted.MergeByConcatenation | internal/protobuf/stream.pb.go:2064-2315 | two accepted messages back to back decode as the second decoded over the first |
| StreamObjects.ID.Size | internal/protobuf/stream.pb.go:1643-1663 | the size of the encoding |
| StreamObjects.ID.MarshalTo | internal/protobuf/stream.pb.go:1335-1362 | writes exactly the encoding at the given place |
| StreamObjects.ID.Marshal | internal/protobuf/stream.pb.go:1325-1333 | a buffer of Size bytes, filled exactly |
| StreamObjects.ID.Unmarshal | internal/protobuf/stream.pb.go:1922-2063 | the field loop leaves in the object what the specification decodes, or the same error; after an error the object holds exactly the fields before it and what the failing field had already written |
| StreamObjects.Message.Size | internal/protobuf/stream.pb.go:1664-1700 | the size of the encoding |
| StreamObjects.Message.MarshalTo | internal/protobuf/stream.pb.go:1374-1436 | writes exactly the encoding at the given place, nested Sender included |
| StreamObjects.Message.Marshal | internal/protobuf/stream.pb.go:1364-1372 | a buffer of Size bytes, filled exactly |
| StreamObjects.Message.Unmarshal | internal/protobuf/stream.pb.go:2064-2315 | the field loop leaves in the object what the specification decodes, a nested Sender merged into the one there, or the same error; after an error the object holds exactly the fields before it and what the failing field, a nested one included, had already written |
| PeerIdentity.XorID | peer/identity.go:55-62 | as long as the receiver's id, and zero beyond the other's |
| PeerIdentity.XorLaws | peer/identity.go:55-62 | exclusive or is the same both ways, zero between an id and itself, and undoes itself |
| PeerIdentity.LessMeaning | peer/identity.go:31-37 | of two ids of one length the smaller has the smaller byte where they first differ |
| PeerIdentity.PrefixLen | peer/identity.go:65-72 | the number of leading zero bits; an all-zero id counts one less than its bits |
| PeerIdentity.DistanceInjective | peer/identity.go:55-62 | different ids of one length are at different distances |
| PeerIdentity.PrefixOrder | peer/identity.go:65-72 | a longer zero prefix is a smaller value |
| PeerIdentity.PrefixOfDistance | peer/identity.go:55-72 | the prefix of the distance to a target, from the two buckets |
| PeerIdentity.OwnBucketCloser | peer/identity.go:55-72 | peers in the target's own bucket are strictly nearer to it than all others |
| PeerIdentity.LowerBucketFarther | peer/identity.go:55-72 | peers of a lower bucket than the target's are farther than those of all higher buckets |
| PeerIdentity.BucketOrder | peer/identity.go:55-72 | for p in a lower bucket than q, p is nearer to the target exactly when the bit of p's bucket is set in target xor self, whatever else the ids are |
| PeerIdentity.IndexOutOfRange | dht/routes.go:134-136 | a target has no bucket exactly when its id is empty or properly extends the table's own id |
| Routes.TouchEffect | dht/routes.go:69-86 | the bucket after Update: the other entries keep their order, an entry that is there moves to the front as it is, a newcomer is stored as it was given, in front, exactly if the bucket holds at most BucketSize |
| Routes.DropEffect | dht/routes.go:140-147 | the bucket after RemovePeer: the target gone, the others in order |
| Routes.OnlyBucket | dht/routes.go:155-170 | an entry can only be in the bucket of its id, so one bucket decides membership in the whole table |
| Routes.UpdateEffect | dht/routes.go:57-87 | Update keeps the invariant (right bucket, no repeats, at most BucketSize + 1 per bucket) and changes one bucket: no peer is lost, none but the target comes in, with its address and key, an entry that is there stays as it is and moves to the front; newcomers are refused exactly when the bucket holds more than BucketSize, and it holds more than BucketSize exactly if it did or a newcomer met a full one |
| Routes.RemoveEffect | dht/routes.go:134-152 | RemovePeer keeps the invariant, removes the target and changes nothing else |
| Routes.Run | dht/routes.go:57-152 | every state reached by any sequence of Update and RemovePeer satisfies the invariant |
| Routes.UpdatesFill | dht/routes.go:57-87 | Updates with new peers of one bucket add them all, up to BucketSize + 1 entries |
| Routes.BucketOverfull | dht/routes.go:57-87 | a new table and a run of Updates that ends in a bucket of BucketSize + 1 |
| Routes.StaysUntilRemoved | dht/routes.go:57-152 | over any run an id in the table leaves it only by RemovePeer; no Update evicts |
| Routes.RoutingTable.Create | dht/routes.go:37-49 | the new table is valid and contains its own id; it panics exactly on an empty id |
| Routes.RoutingTable.Update | dht/routes.go:57-87 | the object's buckets become those of the specification |
| Routes.RoutingTable.RemovePeer | dht/routes.go:134-152 | returns whether the target was in the table and removes it; panics exactly on targets without a bucket |
| Routes.RoutingTable.PeerExists | dht/routes.go:155-170 | agrees with membership in the set of all entries, for targets of any length; panics as RemovePeer does |
| Routes.RoutingTable.FindClosestPeers | dht/routes.go:173-221 | returns Closest; empty for a target of another length, and a negative count panics |
| NearestPeers.AscendingUnique | dht/routes.go:209-214 | distances being distinct, every sorting algorithm gives the same list |
| NearestPeers.ClosestCount | dht/routes.go:173-221 | the result has min(count, entries of the table) peers |
| NearestPeers.ClosestAscending | dht/routes.go:173-221 | they are entries of the table in strictly increasing distance, hence distinct |
| NearestPeers.WalkExact | dht/routes.go:189-218 | the walk stops at the first distance at which it has count peers or no bucket is left, and the result is the nearest of all peers within that distance |
| NearestPeers.OwnBucketFirst | dht/routes.go:173-221 | the target's own bucket, sorted, comes first; all others follow |
| NearestPeers.NearestIff | dht/routes.go:189-207 | the result is the nearest peers of the whole table if and only if every bucket above the walk is empty, or the target's bucket together with those buckets of the walk whose bit is set in target xor self hold count peers; only bucket sizes and bits of the target enter, and skipped lower buckets never matter |
| NearestPeers.OwnBucketNearest | dht/routes.go:173-221 | if the target's own bucket holds count peers the result is exact |
| Routes.SearchCanMiss | dht/routes.go:189-207 | a table of two peers that returns the farther one |
| Lookup.StepInvariant | network/discovery/rpc.go:46-90 | in every interleaving of lookups sharing visited, pending is queries started less replies consumed and within 0..alpha, and the peers added by all of them have pairwise distinct keys, none a seed's |
| Lookup.InitialInvariant | network/discovery/rpc.go:107-122 | the seeded state satisfies it |
| Lookup.StepDecreases | network/discovery/rpc.go:46-90 | each step makes (unvisited keys, queued and pending queries, unexpanded replies) smaller |
| Lookup.Progress | network/discovery/rpc.go:66-90 | no deadlock: an unfinished lookup can always step |
| Lookup.Outcome | network/discovery/rpc.go:46-94 | over a finite key universe every scheduled run ends, with each started query's one reply consumed and no query in flight |
| Lookup.LookupBucket.Launch | network/discovery/rpc.go:53-61 | starts queries for a prefix of the queue, until alpha are pending or the queue is used up, never beyond alpha, and empties the queue |
| Lookup.NewPeersMeaning | network/discovery/rpc.go:71-80 | the peers taken from a response are of the response, distinct and not visited before, and leave all of its keys visited |
| Lookup.LookupBucket.Expand | network/discovery/rpc.go:71-80 | adds exactly the new peers of a response, in order |
| Lookup.ReplayFresh | network/discovery/rpc.go:46-94 | whatever the order of the answers, the peers added have distinct keys that nobody had visited |
| Lookup.ReplayAllHeard | network/discovery/rpc.go:46-94 | every peer of every consumed response has been visited |
| Lookup.LookupBucket.PerformLookup | network/discovery/rpc.go:46-94 | terminates with nothing pending; the order of the answers determines whom it asks and what it adds (each new peer once); it returns the first alpha seeds plus the added peers, those asked are exactly those that answered, and each answer is to a query in flight |
| Lookup.ReplayIsRun | network/discovery/rpc.go:46-94 | performLookup is a run of the step machine: for every fair order of answers there is a run of enabled steps from the start that asks, visits and adds the same, and waits where the loop does |
| Lookup.LookupIsRun | network/discovery/rpc.go:46-94 | when performLookup ends, the machine has finished, with no query in flight |
| Lookup.Seed | network/discovery/rpc.go:109-122 | deals the seeds out in turn to min(seeds, paths) lookups and marks them visited; panics exactly with seeds but no paths |
| Lookup.SharedOut | network/discovery/rpc.go:118-119 | each seed is queued, and once |
| Lookup.ShareAt | network/discovery/rpc.go:118-119 | lookup j gets the seeds at the positions j, j + d, j + 2 d and so on, in this order, so shares differ in length by one at most |
| RecvWindow.RecvWindow.Push | network/recv_window.go:40-47 | stores at nonce modulo size; the first push sets the cursor |
| RecvWindow.RecvWindow.Range | network/recv_window.go:58-78 | the loop computes Ranged: the values taken, their slots cleared, the cursor only reduced modulo size, and unchanged on a full drain |
| RecvWindow.RangeExact | network/recv_window.go:58-78 | for any fn: Range takes the values of consecutive slots as long as fn says yes, at most one round, and empties just those slots; if fn says no the cursor becomes that slot, else it stays |
| RecvWindow.EmptiedMeaning | network/recv_window.go:58-78 | of a whole round the first n slots are empty afterwards and the others as they were |
| RecvWindow.RecvWindow.Pop | network/recv_window.go:50-54 | Range over non-nil values |
| RecvWindow.PushAgrees | network/recv_window.go:40-47 | the first push, and every push less than size ahead of the next nonce, a repeated one included, keeps the buffer in step with the log of all pushes |
| RecvWindow.PushIff | network/recv_window.go:40-78 | after a push every run of pops and of pushes into the window returns the values of consecutive nonces if and only if the push was the first, or its nonce is in the window, or its nonce is behind the window and its slot holds this very value |
| RecvWindow.FarAhead | network/recv_window.go:40-78 | a value pushed beyond the window is missing from some later run, though its slot holds the same value |
| RecvWindow.FillThenPop | network/recv_window.go:40-78 | if one slot of the window is wrong, filling the window up to it and one Pop show it |
| RecvWindow.DrainExact | network/recv_window.go:58-78 | Range hands out the consecutive values from the cursor's nonce and clears just their slots |
| RecvWindow.PopAgrees | network/recv_window.go:50-78 | each Pop returns exactly the consecutive run at the next nonce, and is maximal: the nonce after it has not been pushed |
| RecvWindow.AnyNonceNext | network/recv_window.go:40-78 | any push at all whose nonce shares the slot under the cursor, that of the next nonce, is what the following Pop hands out first |
| RecvWindow.RunDelivers | network/recv_window.go:40-78 | over any run of pops and of pushes into the window, repeats included, the output is the last values pushed for consecutive nonces: none lost, handed out twice or out of order, and what was handed out is never altered |
| RecvWindow.NewWindowDelivers | network/recv_window.go:17-78 | the same from a new window, starting at the first nonce pushed |
| RecvWindow.StaleNonceReappears | network/recv_window.go:40-78 | a run in which a push behind the window is handed out under a later nonce that was never pushed |
| LruCache.Cache.Get | types/lru/cache.go:31-62 | the object's list and map become those of Got, with the same reply; a hit returns the cached value, and init is called once on a miss and not at all on a hit |
| LruCache.GotValid | types/lru/cache.go:31-62 | list and map hold the same keys and values, no repeats, at most limit; a Get panics exactly when the limit is not positive |
| LruCache.RunRecent | types/lru/cache.go:31-62 | whatever inits fail, after every run the list is exactly the most recently served distinct keys, newest first, cut at limit, or at limit - 1 when the last request that was not a hit failed |
| LruCache.HeldExact | types/lru/cache.go:31-62 | after any run of Gets, with any inits, the keys held are what the requests alone say: the last served ones, cut at limit, or one less after a failed miss |
| LruCache.HitReturns | types/lru/cache.go:35-39 | a hit returns the value of the last request of its key that was not a hit, whatever its own init or those of the hits since would return |
| LruCache.MissReturns | types/lru/cache.go:48-61 | a miss returns what its own init returns |
| LruCache.AllServed | types/lru/cache.go:31-62 | if all inits succeed the list is the most recent distinct requested keys, newest first, cut at limit |
| LruCache.RecentMeaning | types/lru/cache.go:31-62 | those are exactly the requested keys |
| LruCache.RecentOrder | types/lru/cache.go:31-62 | ordered by their last request |
| LruCache.ValuesFollow | types/lru/cache.go:31-62 | if init is a function f of the key, every value returned for k is f(k) |
| LruCache.FailureEvicts | types/lru/cache.go:42-53 | for every cache of positive limit and every missing key, a failing init changes nothing if and only if the cache is not full; otherwise the oldest item is lost, and it alone |
| LruCache.FailureEmpties | types/lru/cache.go:42-53 | a run of two requests after which nothing is cached, although one was served |

## Left out

- FeMul and FeSquare on amd64: their assembly is not part of this model.
- The tables of `const.go`: that `base` and `bi` hold the stated multiples of the base point is an assumption of the two scalar multiplications.
- Associativity and completeness of the curve addition: that the points with z not zero form a commutative group in which the formulas add, double and negate is the assumption `Schedule.Homomorphic` of the theorems on what the limbs stand for; that the schedules stay on the curve is proved without it.
- Primality of p: only the exponents of the two chains are proved, so `PointDecoding.ToBytes` speaks of z^(p-2) rather than 1/z.
- PointRoots.AcceptedIff: that every curve point is found assumes Euler's criterion for p, which needs primality; `RootComplete` needs it at two numbers only.
- The byte order reversal in `ExtendedGroupElement.FromBytes` into `tmp2`: its result is never used.
- GroupElement.GeAdd: the geometric points are ghost arguments, because a limb vector alone does not say which integers it stands for.
- BaseMult.SelectPoint: computes sign, absolute value and equality on 32-bit words and selects group elements by them; that the masks select limb by limb is proved on single limbs.
- LimbMult.SelectPoint: likewise moves whole lists of limbs; the masks are those of `BaseMult.CMoveSelects`.
- RecvWindow.PushIff: for sizes that do not divide 2^64 (the default 4096 does), the only-if half leaves out windows that pass 2^64, where some slots are never reached again.
- The hash, the encoding of points and its inverse are parameters of `Signature`.
- Signature.SignedIsAccepted: assumes that the public key decodes to the point it encodes; that needs primality of p.
- Reading the seed: GenerateKey gets the bytes that the reader supplied, and a failing reader is not modelled.
- Overflow of slice indices in the protobuf decoder: indices are mathematical integers.
- Nil and empty slices in messages are one value, as `Equal` compares them.
- Aliasing of byte slices between a message and its buffer: slices are values.
- The other generated messages: they follow the same scheme with fewer fields.
- GetPeers and GetPeerAddresses: plain traversals.
- Mutexes: each operation of the table, the window and the cache runs under its lock and is one atomic step.
- sort.Slice: specified by its result, which is unique for distinct distances.
- The final sort and cut in FindNode: it compares fields that its distance does not fill, so no order is claimed.
- Lookup.LookupBucket.PerformLookup: claims no distinctness for the seed peers, whose keys may repeat.
- SetLocalNonce and LocalNonce of the receive window: they can move the cursor at will and are not part of the runs.
- Delivery after `Pop`: it happens outside the lock.
- Links from cached items to list elements: an element is found by its key, which is unique.
- Transports, timers, backoff, keepalive and NAT: input and output.
