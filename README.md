# Any-out-of-many, range and omniring proofs: a Dafny model

This project models the arithmetic core of a Go implementation of Bulletproofs-style
zero-knowledge arguments over secp256k1. It covers:

- any-out-of-many proofs where a prover shows it knows k of the N secret keys of a ring;
- range proofs on a committed value;
- the scalar parts of an omniring (ring confidential transaction) prover;
- two inner-product compressions.

Scalars are integers modulo the order n of the secp256k1 group (section 2.4.1 of SEC 2
version 2). Each `*big.Int` an operation reads is loaded as the decred `ModNScalar` loads
it: the bytes of its absolute value, the first 32 of them, reduced modulo n. That is
`Field.Load`.

A curve point is represented by its discrete logarithm with respect to a fixed generator
(`Group.Point = Pt(log)`), so point addition and scalar multiplication are arithmetic
modulo n. This representation is what lets commitment identities be proved. Coordinates are
an uninterpreted map `Env.affine`, and SHA-256 (FIPS 180-4) is an uninterpreted function
`Env.sha256`, so every Fiat-Shamir challenge is a fixed function of the bytes it hashes.
Comparisons that go through coordinates (`Commit_Is_Equal`, `Is_Equal_Point`) agree with
point equality in one direction always, and in both directions under `Group.Injective(env)`.

Randomness (`crypto/rand`, the time-seeded `math/rand`, key generation) is taken as method
parameters: scalar draws, sample sequences and reader outcomes.

The modules follow the source files:

| module | source |
|---|---|
| `Field` | Any-out-of-Many-Proofs/utils/Field_Operate.go |
| `Vectors` | utils/Big_Vector_Operate.go |
| `CheckedVectors` | Any-out-of-Many-Proofs/utils/Big_Vector_Operate.go |
| `Group` | utils/ECC_Operate.go |
| `Commitments` | utils/Pederson_Commit.go |
| `CurveCommitments` | Any-out-of-Many-Proofs/utils/Pederson_Commit.go |
| `Setup`, `RangeSetup` | range_proofs/Range_Setup.go (shared parts also of the other two setup files) |
| `RingSetup` | Any-out-of-Many-Proofs/Ring_Sig_Setup.go |
| `OmniSetup` | omniring/Ring_Sig_Setup.go |
| `AnyProver`, `AnyAlgebra` | any_proofs/prover.go |
| `AnyVerifier` | any_proofs/verifier.go |
| `RangeProver`, `RangeAlgebra` | range_proofs/prover.go |
| `RangeVerifier` | range_proofs/verifier.go |
| `OmniProver`, `OmniAlgebra` | omniring/prover.go |
| `Optimize` | optimize.go |
| `Optimization` | Any-out-of-Many-Proofs/optimization.go |
| `RingVerifier` | Any-out-of-Many-Proofs/verifier.go |
| `Polynomial`, `Folding`, `Lifting`, `Results` | shared algebra: quadratic identities, halving, entrywise facts about loaded values, the Result/Option types |

## Model

| member | source | states |
|---|---|---|
| Field.Truncate32 | Any-out-of-Many-Proofs/utils/Field_Operate.go:31-32 | what SetByteSlice keeps of a byte string is below 2^256, and a value below 2^256 is kept whole |
| Field.Load | Any-out-of-Many-Proofs/utils/Field_Operate.go:31-32 | a value below 2^256 loads as itself modulo n, and a reduced scalar loads as itself |
| Field.AddInPValue | Any-out-of-Many-Proofs/utils/Field_Operate.go:27-38 | Add_In_P of two values below 2^256 is their sum modulo n |
| Field.AddInPOfReduced | Any-out-of-Many-Proofs/utils/Field_Operate.go:27-38 | Add_In_P of the residues of d and e is the residue of d + e |
| Field.MulInPValue | Any-out-of-Many-Proofs/utils/Field_Operate.go:41-52 | Mul_In_P of two values below 2^256 is their product modulo n |
| Field.MulInPOfReduced | Any-out-of-Many-Proofs/utils/Field_Operate.go:41-52 | Mul_In_P of a scalar and the residue of d is the residue of c·d |
| Field.NegZp | Any-out-of-Many-Proofs/utils/Field_Operate.go:77-86 | a plus Neg_Zp(a) is 0 modulo n; Neg_Zp(0) = 0; below 2^256 the result is −a modulo n |
| Field.AddNegZp | Any-out-of-Many-Proofs/utils/Field_Operate.go:77-86 | Add_In_P(a, Neg_Zp(a)) = 0 for every a |
| Field.NegByte | Any-out-of-Many-Proofs/utils/Field_Operate.go:66-74 | Neg_Byte(z) equals Neg_Zp(z), and z + Neg_Byte(z) is 0 modulo n |
| Field.SubInP | Any-out-of-Many-Proofs/utils/Field_Operate.go:89-101 | Sub_In_P of two values below 2^256 is their difference modulo n |
| Field.SubIsAddNeg | Any-out-of-Many-Proofs/utils/Field_Operate.go:89-101 | Sub_In_P(a, b) = Add_In_P(a, Neg_Zp(b)) |
| Field.ExtGcd | Any-out-of-Many-Proofs/utils/Field_Operate.go:55-63 | the extended Euclidean algorithm returns Bezout coefficients of its result |
| Field.InverseZpCorrect | Any-out-of-Many-Proofs/utils/Field_Operate.go:55-63 | for an invertible a, Mul_In_P(a, Inverse_Zp(a)) = 1, in both argument orders |
| Field.InverseOfZero | Any-out-of-Many-Proofs/utils/Field_Operate.go:55-63 | 0 has no inverse and Inverse_Zp(0) = 0 |
| Field.IsInZp | Any-out-of-Many-Proofs/utils/Field_Operate.go:16-24 | Is_In_Zp is 1 iff num ≥ p, −1 iff num < 0, and 0 iff 0 ≤ num < p, with p the base-field prime |
| Field.ModZp | Any-out-of-Many-Proofs/utils/Field_Operate.go:10-13 | Mod_Zp overwrites its argument with its residue modulo p − 1, in [0, p − 1), and returns the same cell |
| Vectors.CalIPVec | utils/Big_Vector_Operate.go:8-16 | Cal_IP_Vec's accumulation loop computes the inner product of the first len(a) entries, and 0 for an empty a |
| Vectors.InnerProductIsDot | utils/Big_Vector_Operate.go:8-16 | on scalars the inner product is Σ a_i·b_i modulo n |
| Vectors.CalHPVec | utils/Big_Vector_Operate.go:19-27 | Cal_HP_Vec has length len(a), and entry i is Mul_In_P(a_i, b_i) |
| Vectors.CalScaVec | utils/Big_Vector_Operate.go:30-38 | Cal_Sca_Vec keeps the length, and entry i is Mul_In_P(v_i, c) |
| Vectors.CalAddVec | utils/Big_Vector_Operate.go:41-49 | Cal_Add_Vec has length len(a), and entry i is Add_In_P(a_i, b_i) |
| Vectors.CalSubVec | utils/Big_Vector_Operate.go:52-60 | Cal_Sub_Vec has length len(a), and entry i is Sub_In_P(a_i, b_i) |
| Vectors.CalNegVec | utils/Big_Vector_Operate.go:63-71 | Cal_Neg_Vec keeps the length, and entry i is Neg_Zp(a_i) |
| Vectors.CalInvVec | utils/Big_Vector_Operate.go:74-82 | Cal_Inv_Vec keeps the length, and entry i is Inverse_Zp(a_i) |
| Vectors.SubSelfIsZero | utils/Big_Vector_Operate.go:52-60 | Cal_Sub_Vec(a, a) is the zero vector of length len(a) |
| Vectors.AddNegIsZero | utils/Big_Vector_Operate.go:41-71 | Cal_Add_Vec(a, Cal_Neg_Vec(a)) is the zero vector of length len(a) |
| Vectors.HadamardInverseIsOne | utils/Big_Vector_Operate.go:19-82 | Cal_HP_Vec(a, Cal_Inv_Vec(a)) is all ones when every entry is invertible |
| Vectors.InnerProductScale | utils/Big_Vector_Operate.go:8-38 | IP(Sca(a, c), b) = c·IP(a, b) modulo n |
| Vectors.InnerProductAdd | utils/Big_Vector_Operate.go:8-49 | IP(Add(a, a'), b) = IP(a, b) + IP(a', b) modulo n |
| Vectors.InnerProductCongruent | utils/Big_Vector_Operate.go:8-16 | the inner product of vectors congruent entrywise to integer vectors c, d is c·d modulo n |
| Vectors.InnerProductLifted | utils/Big_Vector_Operate.go:8-16 | the same for arbitrary big.Int entries, through what Mul_In_P loads of them |
| CheckedVectors.CalIPVec | Any-out-of-Many-Proofs/utils/Big_Vector_Operate.go:10-28 | an error iff the lengths differ, with the source's message; otherwise the unchecked inner product |
| CheckedVectors.CalHPVec | Any-out-of-Many-Proofs/utils/Big_Vector_Operate.go:31-49 | an error iff the lengths differ; otherwise the unchecked Hadamard product |
| CheckedVectors.CalScaVec | Any-out-of-Many-Proofs/utils/Big_Vector_Operate.go:52-60 | no length check; the length is kept and the result is the unchecked scaling |
| CheckedVectors.CalAddVec | Any-out-of-Many-Proofs/utils/Big_Vector_Operate.go:63-81 | an error iff the lengths differ; otherwise the unchecked sum |
| CheckedVectors.CalSubVec | Any-out-of-Many-Proofs/utils/Big_Vector_Operate.go:84-102 | an error iff the lengths differ; otherwise the unchecked difference |
| CheckedVectors.CalNegVec | Any-out-of-Many-Proofs/utils/Big_Vector_Operate.go:105-113 | no length check; the unchecked negation |
| CheckedVectors.CalInvVec | Any-out-of-Many-Proofs/utils/Big_Vector_Operate.go:116-124 | no length check; the unchecked inversion |
| Group.FromNatBytes | utils/ECC_Operate.go:17-22 | reading back big.Int.Bytes of m gives m |
| Group.NatBytesMinimal | utils/ECC_Operate.go:17-22 | big.Int.Bytes is empty exactly for 0 and never starts with a zero byte |
| Group.Point2BytesNotInjective | utils/ECC_Operate.go:17-22 | Point2Bytes is not fixed-width: (257, 1) and (1, 257) both encode as [1, 1, 1] |
| Group.PointAddCommutes | utils/ECC_Operate.go:65-71 | Cal_Point_Add is commutative |
| Group.PointAddAssociates | utils/ECC_Operate.go:65-71 | Cal_Point_Add is associative |
| Group.PointAddIdentity | utils/ECC_Operate.go:65-71 | the point at infinity is neutral for Cal_Point_Add |
| Group.ScalarMultDistributes | utils/ECC_Operate.go:44-71 | Cal_Point_Sca distributes over Cal_Point_Add |
| Group.ScalarMultAdd | utils/ECC_Operate.go:44-71 | a·P + b·P = (a + b)·P |
| Group.IsEqualPoint | utils/ECC_Operate.go:86-92 | equal points compare equal; with injective coordinates, they compare equal iff they are equal |
| Group.CalPointScaVec | utils/ECC_Operate.go:52-62 | Cal_Point_Sca_Vec has length len(v), and entry i is c·v_i |
| Group.CalPointAddVec | utils/ECC_Operate.go:74-84 | Cal_Point_Add_Vec has length len(a), and entry i is a_i + b_i; the second vector must be at least as long |
| Group.GenerateMultiPoint | utils/ECC_Operate.go:35-41 | GenerateMultiPoint(N) returns exactly max(N, 0) points, the fresh points in the order drawn |
| Commitments.Commit | utils/Pederson_Commit.go:10-14 | Commit(G, s) is s·G |
| Commitments.PedersenCommit | utils/Pederson_Commit.go:17-23 | Pedersen_Commit(G, H, s, r) is s·G + r·H |
| Commitments.CommitVector | utils/Pederson_Commit.go:26-33 | for len(G) ≥ 1 and len(s) ≥ len(G), Commit_Vector is Σ_{i<len(G)} s_i·G_i |
| Commitments.MultiExpIsDot | utils/Pederson_Commit.go:26-33 | the logarithm of Σ s_i·G_i is the dot product of the logarithms and the loaded secrets |
| Commitments.PedersenCommitVector | utils/Pederson_Commit.go:36-47 | Pedersen_Commit_Vector is Σ (s_i·G_i + r_i·H_i); with one generator it is Pedersen_Commit of the first entries |
| Commitments.PedersenMultiExpSplit | utils/Pederson_Commit.go:36-47 | a Pedersen vector commitment is the sum of the two vector commitments |
| Commitments.CommitIsEqual | utils/Pederson_Commit.go:50-55 | equal commitments compare equal; with injective coordinates, they compare equal iff they are equal |
| Commitments.GenerateRandomZp | utils/Pederson_Commit.go:58-71 | Generate_Random_Zp(d) is nil exactly when the reader fails, and otherwise is below 2^d − 1 |
| Commitments.GenerateRandomZpVector | utils/Pederson_Commit.go:74-80 | Generate_Random_Zp_Vector(n, d) has max(n, 0) draws, each within that bound or nil |
| Commitments.GeneratePointVectorWithY | utils/Pederson_Commit.go:82-88 | Generate_Point_Vector_with_y has len(yN) points, with res_i = yN_i·vec_i |
| CurveCommitments.Commit | Any-out-of-Many-Proofs/utils/Pederson_Commit.go:12-16 | Commit with an explicit curve is s·G, the same point as the package-wide version |
| CurveCommitments.PedersenCommit | Any-out-of-Many-Proofs/utils/Pederson_Commit.go:19-25 | Pedersen_Commit is s·G + r·H |
| CurveCommitments.CommitVector | Any-out-of-Many-Proofs/utils/Pederson_Commit.go:28-35 | Commit_Vector is Σ s_i·G_i over len(G) ≥ 1 terms |
| CurveCommitments.PedersenCommitVector | Any-out-of-Many-Proofs/utils/Pederson_Commit.go:38-45 | Pedersen_Commit_Vector is Σ (s_i·G_i + r_i·H_i), which is Σ s_i·G_i + Σ r_i·H_i |
| CurveCommitments.CommitIsEqual | Any-out-of-Many-Proofs/utils/Pederson_Commit.go:48-53 | coordinate comparison, agreeing with point equality under injective coordinates |
| CurveCommitments.GenerateRandomZp | Any-out-of-Many-Proofs/utils/Pederson_Commit.go:56-69 | nil exactly when the reader fails, and otherwise below 2^130 − 1 |
| CurveCommitments.GenerateRandomZpVector | Any-out-of-Many-Proofs/utils/Pederson_Commit.go:72-78 | Generate_Random_Zp_Vector(n) has max(n, 0) draws |
| Setup.ComplementOfBits | range_proofs/Range_Setup.go:43-48 | on a bit vector the complement is a bit vector of the same length, with b_0[i] + b_1[i] = 1 and b_0[i]·b_1[i] = 0 |
| Setup.GenerateB1 | range_proofs/Range_Setup.go:43-48 | Generate_b_1 keeps the length, with entry i = Sub_In_P(1, b_0[i]); on bits, b_0[i] + b_1[i] = 1 and b_0[i]·b_1[i] = 0 |
| Setup.PowModIsPow | range_proofs/Range_Setup.go:51-58 | the repeated Mul_In_P product is y^i modulo n |
| Setup.GenerateExpScalarVector | range_proofs/Range_Setup.go:51-58 | Generate_Exp_Scalar_Vector(y, n) has max(n, 1) entries, starts at 1, and entry i is y^i modulo n |
| Setup.GenerateScalarVector | range_proofs/Range_Setup.go:61-67 | Generate_Scalar_Vector(z, n) is max(n, 0) copies of z |
| Setup.GenerateInverseH | range_proofs/Range_Setup.go:81-90 | Generate_Inverse_H scales every H_i by the inverse of y itself, so y·h1_i = H_i when y is invertible |
| Setup.ScalarMultInverse | range_proofs/Range_Setup.go:81-90 | scaling by y undoes scaling by Inverse_Zp(y) |
| Setup.GenerateNegZVector | range_proofs/Range_Setup.go:93-99 | Generate_neg_z_Vector(z, n) is max(n, 0) copies of Neg_Byte(z), each adding to z to give 0 |
| Setup.BinaryValueBound | range_proofs/Range_Setup.go:101-111 | a bit vector of length d has value in [0, 2^d) |
| Setup.BinaryInnerProduct | range_proofs/Range_Setup.go:101-111 | with weights 2^i and at most 255 bits, Σ bit_i·w_i modulo n is the binary value |
| Setup.PowModTwo | range_proofs/Range_Setup.go:103-107 | the doubled weight after i steps is exactly 2^i for i ≤ 255 |
| Setup.CommitBySelector | Any-out-of-Many-Proofs/Ring_Sig_Setup.go:104-121 | the key loop commits the selected secrets; on bits slot i holds the j-th real key at the j-th one and the next decoy at a zero |
| Setup.SelectedOfBits | Any-out-of-Many-Proofs/Ring_Sig_Setup.go:108-119 | walking a bit vector, a one takes the next real secret and a zero the next decoy, with the counters num1 and num2 equal to the zeros and ones seen so far |
| Setup.GenerateYZ | range_proofs/Range_Setup.go:114-122 | y hashes A + 1·B and z hashes A + 2·B |
| Setup.GenerateX | range_proofs/Range_Setup.go:124-129 | x hashes T1 + T2 |
| Setup.GenerateXSymmetric | range_proofs/Range_Setup.go:124-129 | swapping T1 and T2 gives the same challenge |
| RangeSetup.GenerateB0 | range_proofs/Range_Setup.go:29-40 | Generate_b_0(d) has max(d, 0) entries, each 0 or 1, following the coin flips drawn |
| RangeSetup.GeneratePublicCoin | range_proofs/Range_Setup.go:101-111 | the coin commits <bit, 2^len> with blind gamma; for at most 255 bits that value is Σ bit_i·2^i < 2^d |
| RangeSetup.CoinValue | range_proofs/Range_Setup.go:101-111 | for at most 255 bits, <bit, 2^len> is the binary value, below 2^len |
| RingSetup.GenerateB0 | Any-out-of-Many-Proofs/Ring_Sig_Setup.go:15-43 | the size error iff k > N; otherwise max(N, 0) entries, all bits, with exactly max(k, 0) ones, each at an index some draw selected modulo N |
| RingSetup.GenerateMultiPublicKey | Any-out-of-Many-Proofs/Ring_Sig_Setup.go:104-121 | N keys: the j-th one-position commits the j-th real secret, and zero-positions consume the N − k decoys in order |
| OmniSetup.Quo | omniring/Ring_Sig_Setup.go:39 | Go's integer division agrees with Euclidean division on non-negative operands |
| OmniSetup.GenerateB0 | omniring/Ring_Sig_Setup.go:30-51 | with n = N / k, a bit vector of length N that is 1 exactly at one sampled offset in each block [c·n, (c+1)·n) for c < k |
| OmniSetup.OneMarkPerBlock | omniring/Ring_Sig_Setup.go:39-49 | each of the first k blocks holds a 1 exactly at its draw's offset, and every slot past k·n is 0 |
| OmniSetup.SelectorCounts | omniring/Ring_Sig_Setup.go:30-51 | the selector holds exactly k ones and N − k zeros |
| OmniSetup.FirstBlockCounts | omniring/Ring_Sig_Setup.go:30-51 | its first block holds exactly one 1 and n − 1 zeros |
| OmniSetup.GenerateConsVec | omniring/Ring_Sig_Setup.go:62-68 | Generate_cons_vec(n, c) is max(n, 0) copies of c |
| OmniSetup.GenerateMultiPublicKey | omniring/Ring_Sig_Setup.go:121-139 | one key per slot of the first block: N / k keys, the ring size n the omniring prover works with; a 1 commits the next real secret and a 0 the next decoy |
| OmniSetup.GenerateMultiPublicCoin | omniring/Ring_Sig_Setup.go:141-161 | N coins: one-positions commit (sec_Vec_Key[j], sec_Vec_Random[j]) in order, and zero-positions commit the decoy pairs in order |
| OmniSetup.GenerateW | omniring/Ring_Sig_Setup.go:181-185 | W hashes the bytes of A |
| AnyAlgebra.ResponseIdentity | any_proofs/prover.go:148-217 | for any secrets, <eta, zeta> = t_0 + t_1 x + t_2 x^2 modulo n, with t_1 and t_2 what calculateT computes and t_0 = <b_0 + z 1^N, (b_1 + z 1^N) ∘ y^N> |
| AnyProver.InnerProductAt | any_proofs/prover.go:148-217 | the same identity on y^N and z 1^N as the prover builds them, stated with PolyAt |
| AnyProver.Coefficients | any_proofs/prover.go:150-172 | y^N and z 1^N have length N; t_1 = <s_0 ∘ y^N, z 1^N + b_1> + <b_0 + z 1^N, s_1 ∘ y^N> and t_2 = <s_0 ∘ y^N, s_1> |
| AnyProver.CommitCoefficients | any_proofs/prover.go:148-179 | additionally T1 = t_1·V + tau_1·U and T2 = t_2·V + tau_2·U for the drawn blindings |
| AnyProver.SecretSum | any_proofs/prover.go:233-247 | the loop of calculateFs yields start + Σ_{i : b_0[i] = 1} y^i·key_j modulo n, with key_j the secret of the j-th one |
| AnyProver.CommitAB | any_proofs/prover.go:133-145 | A = <b_0, G> + <b_1, H> + alpha·U and B = <s_0, G> + <s_1, H> + beta·U |
| AnyProver.CommitKeys | any_proofs/prover.go:182-188 | E = <y^N ∘ s_0, P> − r_s·Pck |
| AnyProver.ResponseZeta | any_proofs/prover.go:191-199 | zeta = z 1^N + b_0 + x s_0, of length N |
| AnyProver.ResponseEta | any_proofs/prover.go:202-211 | eta = b_1 ∘ y^N + z 1^N ∘ y^N + (x s_1) ∘ y^N, of length N |
| AnyProver.BlindingValue | any_proofs/prover.go:220-224 | the Mul_In_P / Add_In_P chain of calculateTaux is tau_1 x + tau_2 x^2 modulo n |
| AnyProver.BlindTau | any_proofs/prover.go:220-224 | tau_x = tau_1 x + tau_2 x^2 modulo n |
| AnyProver.MuValue | any_proofs/prover.go:227-230 | the chain of calculateMu is alpha + beta x modulo n |
| AnyProver.BlindMu | any_proofs/prover.go:227-230 | mu = alpha + beta x modulo n |
| AnyProver.BlindFs | any_proofs/prover.go:233-247 | f_s = r_s x + Σ_{i : b_0[i] = 1} y^i·key_j modulo n |
| AnyProver.AccumulateFs | any_proofs/prover.go:245 | one Add_In_P step of the f_s loop keeps the sum exact modulo n |
| AnyProver.Prover.constructor | any_proofs/prover.go:61-130 | New keeps the public parameters, sets b_1 = 1 − b_0 and the ring P so that the j-th one of b_0 holds the j-th real key and the zeros hold the decoys |
| AnyProver.Prover.CalculateAB | any_proofs/prover.go:133-145 | the fields A, B hold the commitments to (b_0, b_1) and (s_0, s_1) blinded by the draws alpha, beta |
| AnyProver.Prover.CalculateT | any_proofs/prover.go:148-179 | the fields y^N, z 1^N, t_1, t_2, T1, T2 hold the values of calculateT for the stored y, z |
| AnyProver.Prover.CalculateE | any_proofs/prover.go:182-188 | the field E holds <y^N ∘ s_0, P> − r_s·Pck |
| AnyProver.Prover.CalculateRx | any_proofs/prover.go:191-199 | the field zeta holds z 1^N + b_0 + x s_0 |
| AnyProver.Prover.CalculateLx | any_proofs/prover.go:202-211 | the field eta holds (b_1 + z 1^N + x s_1) ∘ y^N, built from the stored z 1^N |
| AnyProver.Prover.CalculateIP | any_proofs/prover.go:214-217 | the field ip holds <eta, zeta> |
| AnyProver.Prover.CalculateTaux | any_proofs/prover.go:220-224 | the field tau_x holds tau_1 x + tau_2 x^2 modulo n |
| AnyProver.Prover.CalculateMu | any_proofs/prover.go:227-230 | the field mu holds alpha + beta x modulo n |
| AnyProver.Prover.CalculateFs | any_proofs/prover.go:233-250 | the field f_s holds r_s x + Σ_{i : b_0[i] = 1} y^i·key_j, and mu is recomputed to the same value |
| AnyProver.Prover.GenerateRsp | any_proofs/prover.go:77-117 | the transcript holds every commitment, challenge and response of one run: y, z hash A, B; x hashes T1, T2, E; and the responses are those of the draws and challenges |
| AnyProver.Prover.RespondedQuadratic | any_proofs/prover.go:148-217 | the honest ip is t(x) for the coefficients committed in T1 and T2 |
| AnyVerifier.PointSumIsSum | any_proofs/verifier.go:114-119 | a sum of points from the point at infinity has the sum of the logarithms as logarithm |
| AnyVerifier.SumGH | any_proofs/verifier.go:97-103 | the loop forms Σ_i (G_i + H_i) over the first len(G) indices |
| AnyVerifier.SumGHIsPedersen | any_proofs/verifier.go:97-104 | z·Σ_i (G_i + H_i) is the Pedersen vector commitment of (z 1^N, z 1^N) |
| AnyVerifier.SumPoints | any_proofs/verifier.go:114-119 | the loop forms the sum of the points of Pub_Key_yN |
| AnyVerifier.ScaledKeysSum | any_proofs/verifier.go:80-120 | Σ_i y^i·P_i has logarithm <y^N, log P> |
| AnyVerifier.DeltaValue | any_proofs/verifier.go:85-88 | on the vectors ParseZKP builds, delta = (z + z^2) Σ_{i<N} y^i modulo n |
| AnyVerifier.DeltaIsT0 | any_proofs/verifier.go:85-88 | for a bit selector b_0 and b_1 = 1 − b_0, the prover's t_0 equals the verifier's delta |
| AnyVerifier.PolynomialStep | any_proofs/verifier.go:85-126 | for T1, T2 committing t_1, t_2 and ip = t(x) with t_0 = delta, steps (1) and (4) add up to ip·V |
| AnyVerifier.HonestPolynomialStep | any_proofs/verifier.go:85-126 | on an honest prover's transcript, delta·V + x·T1 + x^2·T2 − tau_x·U is ip·V |
| AnyVerifier.StepOne | any_proofs/verifier.go:85-93 | RHS after step (1) is delta·V + x·T1 + x^2·T2 |
| AnyVerifier.StepTwo | any_proofs/verifier.go:95-110 | step (2) adds A + x·B, z·Σ_i (G_i + H_i) and −mu·U |
| AnyVerifier.StepThree | any_proofs/verifier.go:112-122 | step (3) adds f_s·Pck + x·E and z·Σ_i y^i·P_i |
| AnyVerifier.StepFour | any_proofs/verifier.go:124-126 | step (4) adds −tau_x·U |
| AnyVerifier.Fold | any_proofs/verifier.go:83-128 | the four steps together give the point whose logarithm is RhsLog |
| AnyVerifier.Verifier.constructor | any_proofs/verifier.go:43-50 | New keeps Pck, U, V, the generator vectors and N, and leaves the ring and the transcript empty |
| AnyVerifier.Verifier.Copy | any_proofs/verifier.go:53-71 | the fields hold the transcript's values and y^N, z 1^N, 2^N, 1^N built from them |
| AnyVerifier.Verifier.Validate | any_proofs/verifier.go:78-129 | Pub_Key_yN_i = y^i·P_i, and the returned point is the right-hand side RhsLog of the four steps |
| AnyVerifier.Verifier.ParseZKP | any_proofs/verifier.go:52-76 | the copy, the vectors and the point of Validate; the challenges are taken as sent, not recomputed |
| RangeAlgebra.ResponseIdentity | range_proofs/prover.go:142-209 | for any bits, blinding vectors and challenges, <zeta, eta> = t_0 + t_1 x + t_2 x^2 modulo n for the t_1 that the comment at line 148 describes, with b_0 − z 1^d |
| RangeAlgebra.T1Excess | range_proofs/prover.go:148-162 | the t_1 that lines 156-162 compute, with b_0 + z 1^d, is the intended t_1 plus 2 z <s_1, y^d> modulo n |
| RangeAlgebra.T1Counterexample | range_proofs/prover.go:142-209 | for one bit b = 1, s_0 = 0, s_1 = 1 and every challenge 1, <zeta, eta> = 0 and t_0 = t_2 = 0, while the computed t_1 is 2 and the intended t_1 is 0 |
| RangeProver.Coefficients | range_proofs/prover.go:142-171 | y^d, 2^d and z 1^d have d entries, t_1 is the as-written <s_0 ∘ y^d, b_1 + z 1^d> + <s_0, z^2 2^d> + <b_0 + z 1^d, s_1 ∘ y^d>, and t_2 = <s_0 ∘ y^d, s_1> |
| RangeProver.ResponseZeta | range_proofs/prover.go:181-189 | zeta has d entries, zeta_i = b_0[i] − z + x s_0[i] modulo n |
| RangeProver.ResponseEta | range_proofs/prover.go:192-203 | eta has d entries, eta_i = (b_1[i] + z + x s_1[i]) y^i + z^2 2^i modulo n |
| RangeProver.BlindTauX | range_proofs/prover.go:212-218 | tau_x = tau_1 x + tau_2 x^2 + z^2 gamma modulo n |
| RangeProver.GammaTerm | range_proofs/prover.go:212-218 | the two Mul_In_P steps give z^2·gamma modulo n |
| RangeProver.Prover.constructor | range_proofs/prover.go:58-124 | New keeps the generators and d, draws b_0 as the coin flips, sets b_1 = 1 − b_0 (bits that sum to 1), and the public coin commits to <b_0, 2^d> with blind gamma, which is the binary value of b_0 for d ≤ 255 |
| RangeProver.Prover.CalculateAB | range_proofs/prover.go:127-139 | A = <b_0, G> + <b_1, H> + alpha·h and B = <s_0, G> + <s_1, H> + beta·h for the draws alpha, beta |
| RangeProver.Prover.CalculateT | range_proofs/prover.go:142-178 | the fields hold y^d, 2^d, z 1^d, the as-written t_1, t_2, and T1 = t_1·g + tau_1·h, T2 = t_2·g + tau_2·h |
| RangeProver.Prover.CalculateLx | range_proofs/prover.go:181-189 | the field zeta holds b_0 − z 1^d + x s_0 |
| RangeProver.Prover.CalculateRx | range_proofs/prover.go:192-203 | the field eta holds (b_1 + z 1^d + x s_1) ∘ y^d + z^2 2^d |
| RangeProver.Prover.CalculateIP | range_proofs/prover.go:206-209 | the field ip holds <zeta, eta> |
| RangeProver.Prover.CalculateTaux | range_proofs/prover.go:212-218 | the field tau_x holds tau_1 x + tau_2 x^2 + z^2 gamma |
| RangeProver.Prover.CalculateMu | range_proofs/prover.go:221-224 | the field mu holds alpha + beta x modulo n |
| RangeProver.Prover.RespondedQuadratic | range_proofs/prover.go:142-209 | the honest ip is t_0 + t_1 x + t_2 x^2 for the intended t_1, not for the one committed in T1 |
| RangeProver.Prover.CommittedExcess | range_proofs/prover.go:148-168 | the t_1 committed in T1 exceeds the intended one by 2 z <s_1, y^d> modulo n |
| RangeProver.Prover.GenerateRsp | range_proofs/prover.go:72-110 | the transcript carries A, B, T1, T2, tau_x, mu, eta, zeta, ip and the challenges; y, z hash A and B, x hashes T1 and T2, and the responses are those of the draws |
| RangeVerifier.DeltaValue | range_proofs/verifier.go:74-89 | as written, on y 1^d and the vector v Validate holds for 2^d, delta = (z − z^2)·d·y − z^3·Σ_{i<d} v_i modulo n |
| RangeVerifier.DeltaIntended | range_proofs/verifier.go:78-89 | the delta of the range argument, on y^d |
| RangeVerifier.DeltaIntendedValue | range_proofs/verifier.go:78-89 | on y^d and the vector v held for 2^d, delta = (z − z^2)·Σ_{i<d} y^i − z^3·Σ_{i<d} v_i modulo n |
| RangeVerifier.DeltaOverwriteDiffers | range_proofs/verifier.go:78-89 | for d = 2 and y = z = 2 the delta as written is n − 32 and the intended delta is n − 30 |
| RangeVerifier.TwoPowersSum | range_proofs/verifier.go:86 | Σ_{i<d} 2^i = 2^d − 1 for d ≤ 255 |
| RangeVerifier.PowInverse | range_proofs/verifier.go:104-105 | (y^{-1})^i·y^i = 1 modulo n for an invertible y |
| RangeVerifier.InverseHScales | range_proofs/verifier.go:104-105 | y^i times entry i of Inv_Vec_H gives back H_i for an invertible y |
| RangeVerifier.StepOne | range_proofs/verifier.go:75-101 | step (1) is z^2·V + delta·g + x·T1 + x^2·T2 − tau_x·h |
| RangeVerifier.StepTwo | range_proofs/verifier.go:107-122 | step (2) adds A + x·B, −z·Σ G_i, Σ w_i·Inv_Vec_H_i and mu·h |
| RangeVerifier.WeightedH | range_proofs/verifier.go:111-115 | Σ w_i·Inv_Vec_H_i for w = z·y 1^d + z^2·2^d |
| RangeVerifier.Fold | range_proofs/verifier.go:69-124 | Validate returns the point whose logarithm is RhsLog, and leaves y 1^d in yN |
| RangeVerifier.Verifier.constructor | range_proofs/verifier.go:40-46 | New keeps the generators and d; the coin and the transcript start empty |
| RangeVerifier.Verifier.ParseZKP | range_proofs/verifier.go:48-67 | the fields hold the transcript; 2^d and z 1^d are built from the challenges as sent; yN ends as y 1^d (the overwrite of line 79), and the result is RhsLog |
| RangeVerifier.Verifier.Validate | range_proofs/verifier.go:69-124 | yN is overwritten with y 1^d, and the returned point is the sum of steps (1) and (2) |
| Polynomial.QuadraticResidue | any_proofs/prover.go:148-217 | when the inner product is congruent to an integer quadratic, it is t_0 + t_1 x + t_2 x^2 modulo n for the reduced coefficients |
| Polynomial.LinearResponses | any_proofs/prover.go:191-217 | responses that are l_0 + x l_1 and r_0 + x r_1 modulo n have inner product <l_0, r_0> + x(<l_0, r_1> + <l_1, r_0>) + x^2 <l_1, r_1> modulo n |
| Polynomial.ModQuadratic | any_proofs/prover.go:148-172 | reducing the coefficients of a quadratic leaves its residue unchanged |
| Folding.Log2 | optimize.go:22-65 | a power of two m halves to 1 in Log2(m) rounds, with 2^Log2(m) = m |
| Folding.FoldEntry | optimize.go:56-61 | an entry of a fold is x p + q modulo n |
| Folding.DotSplit | optimize.go:24-46 | a dot product is the sum of the dot products of its two halves |
| Folding.DotLin | optimize.go:55-61 | (x p + q)·(y r + s) = x y (p·r) + x (p·s) + y (q·r) + q·s |
| Folding.DotCongruent | optimize.go:55-61 | vectors congruent entry by entry modulo n have congruent dot products |
| Lifting.LoadsLifted | utils/Big_Vector_Operate.go:8-16 | a vector and its loaded entries agree modulo n |
| Lifting.HadamardLifted | utils/Big_Vector_Operate.go:19-27 | Load of entry i of s ∘ y is Load(s_i)·y_i modulo n |
| Lifting.ScaleLifted | utils/Big_Vector_Operate.go:30-38 | Load of entry i of c v is c·v_i modulo n |
| Lifting.ShiftLifted | utils/Big_Vector_Operate.go:41-49 | Load of entry i of b + z 1 is Load(b_i) + z modulo n, in either argument order |
| Lifting.VecAddLifted | utils/Big_Vector_Operate.go:41-49 | entry i of u + v is c_i + d_i modulo n when u, v are congruent to c, d |
| Lifting.SubLifted | utils/Big_Vector_Operate.go:52-60 | Load of entry i of b − z 1 is Load(b_i) − z modulo n |
| OmniAlgebra.VkEPicks | omniring/prover.go:196-203 | on Generate_b_0's selector, entry j of vk_E is the sum of v^i over the secrets i that sit at offset j of their block |
| OmniAlgebra.LayoutConstraints | omniring/prover.go:205-223 | c_L and c_R have 2 + n + N + 3k entries; c_R is 0 outside the selector and key segments; on the selector segment c_L·c_R is 0 for bits; on the key segment it is 1 for invertible keys |
| OmniAlgebra.MuOverKsi | omniring/prover.go:317-329 | the mu coefficient is the ksi coefficient plus z^8 |
| OmniAlgebra.AlphaTimesTheta | omniring/prover.go:343-345 | vec_alpha times theta gives ww − vv back where theta is invertible, and vec_alpha is 0 where theta is 0 |
| OmniAlgebra.ResponseIdentity | omniring/prover.go:351-389 | <eta, zeta> = t_0 + t_1 x + t_2 x^2 modulo n for the t_1, t_2 committed in T1, T2, whatever theta, vec_alpha and vec_mu are |
| OmniAlgebra.PaddedLengthLeast | omniring/prover.go:107-108 | the padded length is at least m, and the next smaller power of two is below m |
| OmniAlgebra.InnerProductPadded | omniring/prover.go:106-117 | appending zeros to both vectors leaves the inner product unchanged |
| OmniProver.GeneratorsAtZero | omniring/prover.go:169-183 | G_0 is the first 2 + n points of Gen_Vec_P followed by Gen_Vec_G, so A depends on neither keys nor coins |
| OmniProver.ComputeGenerators | omniring/prover.go:237-250 | the loop and the assembly give G_w: w·Gen_G twice, w·Y_i + P_i for the n slots, then Gen_Vec_G |
| OmniProver.ValueEntryIsSum | omniring/prover.go:189-191 | c_L_1 = u·Σ a_i v^i modulo n |
| OmniProver.ComputeVkE | omniring/prover.go:196-203 | the vk_E loop computes Σ_{i<k} v^i·b_0[i n .. (i + 1) n) |
| OmniProver.ComputeConstraintVector | omniring/prover.go:264-308 | the copies all land in the one shared zero vector, and the result is ConstraintVector |
| OmniProver.ConstraintHead | omniring/prover.go:283-308 | slot j < k of the shared vector holds u^2 v^j, overwriting the 1s of vec_v[4] and vec_v[5] |
| OmniProver.ConstraintMinusOnes | omniring/prover.go:301-302 | the k − 1 slots behind the ring hold −1 |
| OmniProver.ConstraintGaps | omniring/prover.go:283-290 | the last slot of the v^k block and of the u v^k block stay 0 |
| OmniProver.Accumulate | omniring/prover.go:310-329 | an accumulator loop that starts from S and adds z^i·S for lo ≤ i < hi yields Coefficient(z, lo, hi)·S |
| OmniProver.Power | omniring/prover.go:331-341 | the z^8 and z^4 loops give z^m modulo n |
| OmniProver.ConstraintScalars | omniring/prover.go:310-345 | theta, ksi, mu, theta^{-1} and vec_alpha are the functions of S and z, each of S's length |
| OmniProver.MuIsKsiPlusEighth | omniring/prover.go:317-329 | vec_mu = vec_ksi + z^8·S |
| OmniProver.AlphaBalances | omniring/prover.go:343-345 | theta ∘ vec_alpha = z^4·S − z^8·S where theta is invertible, and vec_alpha is 0 where theta is 0 |
| OmniProver.Coefficients | omniring/prover.go:351-367 | t_1 and t_2 are the coefficients OmniAlgebra.T1, T2 of the responses |
| OmniProver.ResponseZeta | omniring/prover.go:379-380 | zeta = (c_L + vec_alpha) + x s_L, of c_L's length |
| OmniProver.ResponseEta | omniring/prover.go:383-386 | eta = theta ∘ (c_R + x s_R) + vec_mu, of theta's length |
| OmniProver.BlindTau | omniring/prover.go:392-399 | tau_x = z^2 <out blinds, y^m> + tau_1 x + tau_2 x^2 modulo n |
| OmniProver.ZeroPoints | omniring/prover.go:110-113 | the padding points are all the point at infinity |
| OmniProver.OutCoins | omniring/prover.go:156-160 | one Pedersen commitment per output value, with its blind |
| OmniProver.RingSetup | omniring/prover.go:62-90 | New's selector, complement, keys, input coins, output values and output coins are those of the setup functions on the draws |
| OmniProver.RingShape | omniring/prover.go:62-90 | one secret per block, n keys, N input coins and one output coin per output value |
| OmniProver.Layouts | omniring/prover.go:188-223 | c_L and c_R are the two layouts, both of 2 + n + N + 3k entries |
| OmniProver.CommitA | omniring/prover.go:225-227 | A = r_A·F + <G_0, c_L> + <H, c_R> |
| OmniProver.Round1Commitments | omniring/prover.go:164-258 | round one commits A to the layouts against P's first 2 + n points and Gen_Vec_G, with the layout constraints of OmniAlgebra.LayoutConstraints |
| OmniProver.HonestResponses | omniring/prover.go:351-389 | the responses' inner product is t(x) |
| OmniProver.Round2Honest | omniring/prover.go:260-403 | round two's ip is t_0 + t_1 x + t_2 x^2 for the t_1, t_2 committed in T1, T2, and zeta, eta have S's length |
| OmniProver.PaddingSound | omniring/prover.go:106-117 | padding changes no inner product and stops at the least power of two at or above m |
| OmniProver.PaddedRsp | omniring/prover.go:104-138 | the returned proof is the padded transcript, with infinity points padding G_w and H |
| OmniProver.Prover.constructor | omniring/prover.go:62-90 | the fields hold the parameters, n = N / k, the secrets, and the ring of RingSetup; c_L and c_R start empty |
| OmniProver.Prover.CalculateRound1 | omniring/prover.go:164-258 | the fields hold the draws and Round1Of: the layouts, G_0, A, w, G_w, B and y, z |
| OmniProver.Prover.CalculateRound2 | omniring/prover.go:260-403 | the fields hold the draws tau_1, tau_2 and Round2From of round one's values |
| OmniProver.Prover.GenerateRsp | omniring/prover.go:95-139 | both rounds and the padding; the result is the keys, the coins, the padded transcript, G_w and H |
| Optimize.Halve | optimize.go:55-61 | the fold keeps the four vectors of one length, half the old one |
| Optimize.CrossTerms | optimize.go:36-46 | L = <a_L, G_R> + <b_R, H_L> + <a_L, b_R>·G_v and R = <a_R, G_L> + <b_L, H_R> + <a_R, b_L>·G_v |
| Optimize.HalveVectors | optimize.go:55-61 | the four folds are those of Halve with x and its inverse |
| Optimize.OptProve | optimize.go:10-69 | the loop returns the L, R and final vectors of ProveRounds |
| Optimize.ProveShape | optimize.go:22-65 | one L and one R per halving, ending in vectors of length one |
| Optimize.FoldCommit | optimize.go:55-61 | the value of a fold is x y times the left-left value, plus the right-right value, plus x and y times the two cross values, modulo n |
| Optimize.RoundInvariant | optimize.go:36-61 | for an invertible x, the commitment of the folded state is x·L + P + x^{-1}·R |
| Optimize.ReplayCommitment | optimize.go:10-118 | the verifier's T update, replayed from the first commitment, reaches the commitment of the prover's last state when every challenge is invertible |
| Optimize.BuildMask | optimize.go:96-107 | the mask loops build blocks of c repeated half times and 1 repeated half times |
| Optimize.MaskAlternates | optimize.go:96-107 | those blocks are the alternating pattern, entry by entry |
| Optimize.HadamardMask | optimize.go:101-108 | a Hadamard product reads only as much of the mask as its first vector is long |
| Optimize.VerifyRound | optimize.go:86-118 | one round: x hashes L + R, ax and bx take the masks of x^{-1} and x, and T becomes x·L + T + x^{-1}·R |
| Optimize.OptVerify | optimize.go:71-131 | T is the replay of L and R, and the discarded left-hand side is the commitment to the weighed a_0, b_0 plus <a, b>·G_v |
| Optimization.StepOfHalves | Any-out-of-Many-Proofs/optimization.go:86-91 | the verifier's step on the inner products of the halves is x^2 l + x t + r modulo n, for the integer dot products they reduce |
| Optimization.RoundIdentity | Any-out-of-Many-Proofs/optimization.go:37-44 | the inner product of the folds is x^2 <a_L, b_R> + x <a, b> + <a_R, b_L> modulo n |
| Optimization.CompressRound | Any-out-of-Many-Proofs/optimization.go:31-60 | one round: the cross terms are <a_L, b_R> and <a_R, b_L>, and the state is Advance's |
| Optimization.Compress | Any-out-of-Many-Proofs/optimization.go:22-66 | on equal lengths the loop computes the transcript of Rounds and t = <a, b>; on different lengths (a of at most one entry) t is nil and nothing else changes |
| Optimization.Prove | Any-out-of-Many-Proofs/optimization.go:11-69 | prove as written: on equal lengths t = <a, b> and the transcript is Rounds with x unbound at the start; on different lengths t is nil, L and R are empty and a, b come back unchanged |
| Optimization.UnequalLengthsStall | Any-out-of-Many-Proofs/optimization.go:26-66 | on vectors of different lengths with at least two entries in a, any number of passes of the loop leaves a, b and the hash unchanged, so l stays above 1 and the loop never ends |
| Optimization.ProveCorrected | Any-out-of-Many-Proofs/optimization.go:11-69 | prove that returns at once, with t nil, exactly when the lengths differ, and binds x to the first hash; on equal lengths t = <a, b> and verify accepts the transcript |
| Optimization.RoundsShape | Any-out-of-Many-Proofs/optimization.go:26-66 | one cross term per halving, ending in vectors of length one |
| Optimization.Verify | Any-out-of-Many-Proofs/optimization.go:71-105 | passes iff <a, b> equals the replay of t through the rounds |
| Optimization.ReplayRounds | Any-out-of-Many-Proofs/optimization.go:26-98 | replaying an honest transcript reaches the inner product of the final vectors when the last round folds with the hash |
| Optimization.Complete | Any-out-of-Many-Proofs/optimization.go:11-105 | honest transcripts of every length except two are accepted |
| Optimization.LengthTwoRejected | Any-out-of-Many-Proofs/optimization.go:49-60 | for a = b = (0, 1) the transcript of prove is rejected whenever the first hash is not 0 |
| Optimization.LengthTwoTranscript | Any-out-of-Many-Proofs/optimization.go:49-60 | on a = b = (0, 1) prove sends L = (0), R = (0) and folds to (1), (0), since x is still nil |
| Optimization.CorrectedComplete | Any-out-of-Many-Proofs/optimization.go:11-105 | with x bound from the start, honest transcripts of every length are accepted |
| RingVerifier.PointsEqual | Any-out-of-Many-Proofs/verifier.go:104-191 | two points are equal exactly when their logarithms are congruent |
| RingVerifier.TLogs | Any-out-of-Many-Proofs/verifier.go:104-128 | the two sides of checkT are equal exactly when TEquation holds |
| RingVerifier.DeltaOfBuilt | Any-out-of-Many-Proofs/verifier.go:104-128 | on GetYZ's vectors no vector operation of checkT fails, and delta = (z + z^2) Σ_{i<N} y^i modulo n |
| RingVerifier.HonestT | Any-out-of-Many-Proofs/verifier.go:104-128 | checkT's equation holds on an honest any_proofs prover's transcript, with the delta this verifier computes |
| RingVerifier.HonestIP | Any-out-of-Many-Proofs/verifier.go:180-191 | checkIP's equation holds on an honest prover's responses, which have one length |
| RingVerifier.ABLogs | Any-out-of-Many-Proofs/verifier.go:130-156 | the two sides of checkAB are equal exactly when ABEquation holds |
| RingVerifier.SkLogs | Any-out-of-Many-Proofs/verifier.go:158-178 | the two sides of checkSk are equal exactly when SkEquation holds |
| RingVerifier.Verifier.constructor | Any-out-of-Many-Proofs/verifier.go:45-53 | New keeps the commitment key, U, V, the first N generators of each vector, N and the curve; the ring and the proof start empty |
| RingVerifier.Verifier.GetYZ | Any-out-of-Many-Proofs/verifier.go:69-77 | y and z are the draws, and y^N, 2^N, z 1^N and 1^N are built from them |
| RingVerifier.Verifier.GetX | Any-out-of-Many-Proofs/verifier.go:79-82 | x is the draw |
| RingVerifier.Verifier.CheckT | Any-out-of-Many-Proofs/verifier.go:104-128 | TEquation implies true; with injective coordinates, true implies TEquation |
| RingVerifier.Verifier.CheckAB | Any-out-of-Many-Proofs/verifier.go:130-156 | ABEquation implies true; with injective coordinates, true implies ABEquation |
| RingVerifier.Verifier.CheckSk | Any-out-of-Many-Proofs/verifier.go:158-178 | SkEquation implies true; with injective coordinates, true implies SkEquation |
| RingVerifier.Verifier.CheckIP | Any-out-of-Many-Proofs/verifier.go:180-191 | true iff ip = <zeta, eta> |
| RingVerifier.Verifier.ParseZKP | Any-out-of-Many-Proofs/verifier.go:84-101 | the responses are copied from the proof; the conjunction of the four equations implies acceptance, and with injective coordinates acceptance implies it |

## Left out

- Field.InverseZpCorrect: requires gcd(a, n) = 1 (`Invertible`) instead of a ≠ 0 modulo n; that n is prime is assumed, not proved, so the model does not promise an inverse for every nonzero scalar.
- Vectors.HadamardInverseIsOne: requires every entry to be `Invertible` rather than nonzero, for the same reason (n's primality is assumed, not proved).
- Setup.ScalarMultInverse: requires `Invertible(Load(y))` rather than y ≠ 0 modulo n; n's primality is assumed, not proved.
- Setup.GenerateInverseH: states y·h1_i = H_i only for an `Invertible` y rather than every nonzero y; n's primality is assumed, not proved.
- RangeVerifier.PowInverse: requires an `Invertible` y rather than a nonzero one; n's primality is assumed, not proved.
- RangeVerifier.InverseHScales: requires an `Invertible` y rather than a nonzero one; n's primality is assumed, not proved.
- Optimize.InverseProduct: requires an invertible challenge rather than a nonzero one; n's primality is assumed, not proved.
- Optimize.RoundInvariant: requires an invertible challenge rather than a nonzero one; n's primality is assumed, not proved.
- Optimize.ReplayCommitment: requires invertible challenges rather than nonzero ones; n's primality is assumed, not proved.
- OmniAlgebra.LayoutConstraints: states c_L·c_R = 1 on the key segment only for invertible keys rather than nonzero ones; n's primality is assumed, not proved.
- OmniAlgebra.AlphaTimesTheta: states that vec_alpha undoes theta only where theta is invertible rather than nonzero; n's primality is assumed, not proved.
- OmniProver.AlphaBalances: states theta ∘ vec_alpha = z^4·S − z^8·S only where theta is invertible rather than nonzero; n's primality is assumed, not proved.
- Challenges are reduced modulo n where they are derived (`Setup.GenerateYZ`, `Setup.GenerateX`, `OmniSetup.GenerateW`, `Optimize.Challenge`). The source keeps the 256-bit hash value and reduces it wherever a scalar operation loads it. Every use in the core goes through such a load.
- AnyProver.ChallengeX: the three-argument Generate_X of any_proofs is defined outside the files of this model. It is modelled as the hash of T1 + T2 + E, an assumed definition.
- Commitments.GenerateRandomZp: requires d ≥ 1; the source panics for d ≤ 0 (rand.Int with a non-positive bound), and that panic is not modelled.
- RangeProver.Prover.constructor: requires d ≥ 1, for which Generate_Random_Zp(d) of the secret value does not panic, and generator vectors of exactly d points; other widths are not modelled.
- AnyProver.Prover.constructor: requires k ≤ N and takes b_0 as a successful draw of Generate_b_0; for k > N the source discards the size error and goes on with a nil b_0, which is not modelled.
- OmniSetup.GenerateMultiPublicKey: requires k ≠ 0; Go's N / k panics on k = 0, which is not modelled.
- OmniSetup.GenerateB0: requires k ≠ 0, and k ≤ N when k is positive; N / k panics on k = 0 and the reduction modulo n = N / k = 0 panics for k > N, which is not modelled.
- OmniProver.Prover.constructor: requires 1 ≤ k ≤ N; for k = 0 New's N / k panics and for k > N Generate_b_0 does, which is not modelled.
- RingVerifier.Verifier.constructor: requires N to be within both generator vectors; the slicing panic for a larger N is not modelled.
- RingVerifier.Verifier.GetYZ: takes the drawn challenges as scalars; a nil draw from a failing reader, on which the source would later panic, is not modelled.
- RingVerifier.Verifier.GetX: takes the drawn challenge as a scalar; a nil draw from a failing reader, on which the source would later panic, is not modelled.
- AnyVerifier.Verifier: the fields L, R, C_zeta and C_eta, which feed only the commented-out compression, are left out.
- AnyProver.Prover.GenerateRsp: computes one run on values (CommitPhase, ResponsePhase) and writes the fields once. The step methods CalculateAB … CalculateFs are not called by it; they state the effect of each step on the fields in the step-by-step form of the source.
- RangeProver.Prover.GenerateRsp: computes one run on values (CommitPhase, ResponsePhase) and writes the fields once. The step methods CalculateAB … CalculateMu are not called by it; they state the effect of each step on the fields in the step-by-step form of the source.
- OmniProver.Prover.CalculateRound1: requires c_L and c_R empty, as New leaves them. A second call, which in the source appends a second layout to the first, is not modelled.
- OmniProver.Prover.GenerateRsp: requires c_L and c_R empty, as New leaves them; calling it twice on one prover is not modelled.
- RingSetup.GenerateB0: its `SamplesExhausted` outcome comes from the finite sequence of draws that stands for the source's unbounded rejection-sampling loop; the source has no such error.
- The prover in Any-out-of-Many-Proofs/prover.go is not modelled: it is an older prover written against helper functions of its own (Inner_Product_Big, mulInP) and is not what the modelled verifiers check. RingVerifier.HonestT and RingVerifier.HonestIP are stated against the any_proofs prover, whose Proof fields the verifier reads.
- RingVerifier.Verifier.CheckAB: the equation is stated and decided, but no completeness lemma pairs it with an honest prover; checkAB weights zeta by y^{-N} in a way the any_proofs responses are not built for.
- RingVerifier.Verifier.CheckSk: the equation is stated and decided, but no completeness lemma pairs it with an honest prover; checkSk weights the keys by zeta and z y^N in a way the any_proofs responses are not built for.
- Optimization.Prove: requires equal lengths that halve exactly down to one entry, or an a with at most one entry. On different lengths with at least two entries in a, the loop at Any-out-of-Many-Proofs/optimization.go:26-66 prints its error and never ends (UnequalLengthsStall; see Findings). On an odd length above one, a nil cross term reaches Mul_In_P at line 46 and panics. Neither is modelled.
- Optimization.Compress: the same precondition as Optimization.Prove, for the same two reasons: the endless loop on different lengths and the nil cross term on odd lengths.
- Optimization.Verify: requires |L| ≥ |R| and |a| = |b|. With a shorter L the loop indexes L past its end, and with |a| ≠ |b| the nil inner product makes res.Cmp panic (optimization.go:74, 99). Neither panic is modelled.
- Optimize.OptProve: requires b, G and H at least as long as a, and |a| a power of two or 0 (`Shaped`). At an odd length above one, G_R is one entry longer than H_L, so the commitment of L at optimize.go:38 reads H_L past its end and panics. That panic is not modelled.
- Optimize.OptVerify: requires |L| ≤ |R|, 1 ≤ |G| ≤ |H| with |G| a multiple of 2^|L|, and 1 ≤ |a| ≤ |b|. Otherwise the masks run short and the Hadamard product at optimize.go:101 reads past them, or a[0], b[0] or R[i] is read past the end. These panics are not modelled.
- RingVerifier.Verifier.CheckT: requires the checked vector operations on z1N, V1N and yN to succeed. On vectors of different lengths delta is nil and Commit panics, which is not modelled.
- RingVerifier.Verifier.CheckAB: requires the generators, yN, zeta, eta and z1N to be long enough for Pedersen_Commit_Vector, which reads entry i of each for every generator. Shorter vectors make it index past the end or pass a nil Hadamard product, and that panic is not modelled.
- RingVerifier.Verifier.CheckSk: requires 1 ≤ |Pub_Vec_Key| ≤ |zeta| and |Pub_Vec_Key| ≤ |yN|, since Commit_Vector reads a secret for every key. The panic for shorter vectors is not modelled.
- RingVerifier.Verifier.CheckIP: requires |zeta| = |eta|. Otherwise Cal_IP_Vec returns nil and ip.Cmp(nil) panics, which is not modelled.
- RingVerifier.Verifier.ParseZKP: requires what the four checks require, for the same panics.
- Printing (`fmt.Println`), timing in main.go and optimize_test.go, and the elliptic-curve arithmetic itself (points are their logarithms) are left out.

## Findings

| source | as written | input that shows it | evidently intended | confidence | as-written member | corrected member |
|---|---|---|---|---|---|---|
| range_proofs/prover.go:156 | t_1 uses Cal_Add_Vec(b_0, z 1^d), that is <b_0 + z 1^d, s_1 ∘ y^d> | d = 1, b_0 = (1), s_0 = (0), s_1 = (1), x = y = z = 1: t_1 = 2 while <zeta, eta> = 0 = t_0 + t_2 | <b_0 − z 1^d, s_1 ∘ y^d>, as the comment at line 148 and calculateLx have it | high (not executed) | RangeAlgebra.T1Counterexample | RangeAlgebra.ResponseIdentity |
| Any-out-of-Many-Proofs/optimization.go:42-60 | x is bound to the hash only inside the l > 2 branch, so on vectors of length 2 the single round folds with SetBytes(nil) = 0 | a = b = (0, 1) and a first hash ≠ 0: prove folds to (1), (0), and verify computes t' ≠ 0 = <a', b'> | x bound to the first hash before the loop | high (not executed) | Optimization.LengthTwoRejected | Optimization.CorrectedComplete |
| Any-out-of-Many-Proofs/optimization.go:26-66 | on vectors of different lengths the loop prints "Error: vectors in different size!" but neither returns nor changes a, b or l, so it runs again forever once a has two or more entries | a = (0, 0), b = (0): every pass leaves a, b, the hash and l = 2 unchanged | return with an error when the lengths differ | high (not executed) | Optimization.UnequalLengthsStall | Optimization.ProveCorrected |
| range_proofs/verifier.go:79 | Validate overwrites y^d with the constant vector y 1^d before it computes delta and the weights | d = 2, y = z = 2: delta is n − 32 | delta(y, z) on y^d, which is n − 30 for that input | medium (not executed) | RangeVerifier.DeltaOverwriteDiffers | RangeVerifier.DeltaIntendedValue |
