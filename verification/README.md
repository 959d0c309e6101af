# Symmetrix: a verified model of its exact algorithms

Most of Symmetrix simulates memory and bandwidth with floating-point numbers. This project models the
parts whose behaviour is exact, and proves what they promise:

* **Exact algebra.** Modular exponentiation, Euclid's inverse, Chinese-remainder splitting and the matrix
  product of the kernel (`GaloisKernel`, `GaloisSigned`, `CrtIntegers`, `Crt`, `CrtOverflow`,
  `CrtTable`, `ModularMatrix`, over `NumberTheory`); the two carry-less ciphers (`AddressCipher`, `PacketCipher`,
  `KeyInverse`, over `Gf2Ring`, `Gf2Poly`, `Gf2Evaluation`).
* **A loop whose end is a theorem.** The neuron picker of the control plane (`NeuronPicker`).
* **A binary encoder.** The OCSP responder's DER builders and a strict reader (`OcspDer`).
* **State machines.** The two-lock allocation ledger (`AllocationLedger`, `AllocationLocks`), the
  certificate store (`CertificateStore`), the rate limiter (`RateLimiter`, `RateBounds`,
  `RateGrants`), the cache (`CacheStore`, `CacheEvictions`) and the request coalescer (`Coalescer`).
* **Fast forms and layouts.** Blocked matrix multiplication (`BlockedMatrix`), the tensor packet store
  (`TensorLayout`, `TensorEngine`), the cache codec (`CacheCodec`, `CodecLayout`) and Morton order (`Morton`).

`MachineIntegers`, `MapSums` and `Wrappers` are shared helpers.

## How the model relates to the source

Specifications use mathematical integers; 32-bit and 64-bit variables are subset types, so that each
assignment to one proves that nothing wraps, and operations that may wrap are written out with `Wrap32`
and `Wrap64`. Words of the two ciphers are bit-vectors. Matrices, scores and tensors are over `real`
instead of floating point. Loops and objects of the source are loops and classes here; a nest of loops
is split into one method per loop where that keeps the proofs small. The clock, fresh identifiers,
SHA-256 values, the X.509 library and the trigonometric tables are parameters. `AllocationLedger` and
`CertificateStore` are also modelled as machines whose steps are what happens under one lock, so their
invariants hold in every interleaving; their classes are runs of those steps without interruption.

## What turned out not to hold

* Splitting and rebuilding works over the integers for any number of distinct primes, but the code's
  64-bit sums serve a list exactly when its product and the largest sum of each turn fit
  (`CrtOverflow.PrimesRoundTripIff`). A product of at most 2^63 is enough; of the kernel's table that
  leaves two primes (`CrtTable.TableRoundTrip`).
* Euclid's inverse keeps 64-bit numbers in signed variables and serves a modulus exactly below 2^63
  (`GaloisSigned.ServesIff`).
* The matrix product serves all matrices exactly up to a modulus of 2^63, or for single cells
  (`ModularMatrix.ServesIff`); a result array that is one of the inputs ends up zero.
* The packet cipher's polynomial is not the one its comment names: with the leading term implied, the
  constant stands for x^32 + x^31 + x^7 + x^3 + x^2 + 1, which is reducible. The library inverse is an
  inverse exactly for keys whose fifteenth power is 1; the default key is not one of them
  (`KeyInverse.DecryptsIff`, `KeyInverse.DefaultKeyDoesNotDecrypt`), although the unit test
  `test_encryption_decryption` expects the round trip.
* An OCSP response for a revoked certificate declares 15 content bytes and carries 17, so a strict reader
  rejects it (`OcspDer.ResponseReadBack`). A serial whose first bytes are not a minimal integer is
  rejected too; ASCII serials without NUL characters are fine.
* The tier table says requests per minute, but a window starts at the request that resets the count. From
  a given moment the next 60 seconds stay within the limit, whatever follows, exactly if no window is
  under way or its count is used up; otherwise the limit plus what remains of the window can be accepted,
  and no more. This is for keys that are enabled and do not expire (`RateBounds.WindowDecides`), the only
  ones that `src/grpc/auth.rs` makes (lines 180 and 184); `RateBounds.StaysWithinLimitIff` covers all keys.
* The allocation test adds in 64 bits: a request close to 2^64 passes, and the agent's total then falls 2^64
  short of its records (`AllocationLedger.AcceptanceKeepsBound`, `AllocationLedger.MisjudgedHappens`).
  Without such requests the ledger holds in every interleaving (`AllocationLedger.LedgerAlways`); with them
  totals still never exceed the limit or the records (`AllocationLedger.NeverOverstated`).
* A read whose end wraps is reported as coalesced although none of its bytes need be covered
  (`Coalescer.MergedStaysInside`, `Coalescer.WrappedMergeIsLost`).
* A time-to-live whose end lies beyond the signed 64-bit clock expires at once (`CacheStore.ExpiresExactly`).
* A cache entry larger than the cache is stored after everything else has been evicted
  (`CacheStore.OversizedSetEmpties`); the codec is lossless only for ratio 1 or at most one byte
  (`CacheCodec.LosslessIff`).
* Allocate takes the two locks of the ledger in the opposite order to free and to the status call. Calls
  in flight block each other for ever exactly when an allocate that has checked meets a free that has
  removed or a status call that waits (`AllocationLocks.StuckExactly`, `AllocationLocks.StuckForEver`),
  and both happen.
* The revocation list and its timestamp are read under separate locks, so a list can hold one entry newer
  than its timestamp (`CertificateStore.ListAndStamp`, `CertificateStore.ListAheadOfStamp`).
* Every retrieved tensor packet is the same, whatever was stored (`TensorEngine.TensorDecompositionEngine.RetrievePacket`).

## Model

| member | source | states |
|---|---|---|
| `NumberTheory.Fermat` | kernel/symmetrix-galois.c:244-245 | a^(p-1) is 1 modulo a prime p that does not divide a: why exponent p-2 gives the inverse |
| `NumberTheory.Bezout` | kernel/symmetrix-galois.c:155-177 | coprime numbers have an integer combination equal to 1 |
| `GaloisKernel.GaloisPow` | kernel/symmetrix-galois.c:121-135 | square-and-multiply computes the power modulo mod for every 64-bit base and exponent; no 128-bit product overflows |
| `GaloisKernel.SquareAndMultiply` | kernel/symmetrix-galois.c:126-132 | one turn leaves result times b^exp unchanged modulo m |
| `GaloisKernel.GaloisInv` | kernel/symmetrix-galois.c:141-191 | for values and moduli below 2^63 no signed 64-bit operation overflows and the loop ends, with the answer of the specified run; for moduli above 1 the answer is the inverse in range if there is one, and 0 otherwise; for moduli 0 and 1 it is 1 for the value 1 and 0 otherwise |
| `GaloisKernel.EuclidStep` | kernel/symmetrix-galois.c:163-177 | one turn keeps common divisors, alternating signs, and the weighted sum of magnitudes equal to the modulus |
| `GaloisKernel.EuclidEnd` | kernel/symmetrix-galois.c:179-190 | the last divisor exceeds 1 exactly for inputs without an inverse; otherwise the shifted coefficient is the inverse |
| `GaloisKernel.TruncatesTowardZero` | kernel/symmetrix-galois.c:164 | the signed quotient is rounded toward zero |
| `GaloisSigned.InvertsBelow` | kernel/symmetrix-galois.c:141-191 | below 2^63 what the code computes with truncated quotients, conversions and wrapping is the inverse in range if there is one, and 0 otherwise |
| `GaloisSigned.LastIsLost` | kernel/symmetrix-galois.c:155-190 | for every modulus from 2^63 up the value one below the modulus, its own inverse, is answered wrongly |
| `GaloisSigned.DivisionStops` | kernel/symmetrix-galois.c:164 | inputs that make the division of the least signed number by -1 stop the machine |
| `GaloisSigned.ServesIff` | kernel/symmetrix-galois.c:141-191 | all values below a modulus are answered rightly if and only if the modulus is below 2^63 |
| `Crt.GaloisEngine.Decompose` | kernel/symmetrix-galois.c:199-212 | writes the residues in place and leaves the rest of the array; rejects counts above the table and, compared unsigned, negative ones |
| `Crt.GaloisEngine.ReconstructFrom` | kernel/symmetrix-galois.c:220-252 | computes, with wrapping 64-bit arithmetic, exactly the specified sum of terms; rejects the same counts |
| `CrtIntegers.SumResidue` | kernel/symmetrix-galois.c:236-248 | over the integers each turn gathers one residue and disturbs none, for any good moduli |
| `CrtIntegers.FermatInverse` | kernel/symmetrix-galois.c:244-245 | the exponentiation in the code inverts the cofactor modulo the prime |
| `CrtIntegers.NoInverse` | kernel/symmetrix-galois.c:244-245 | for a cofactor that the prime divides it answers 0 |
| `CrtIntegers.DistinctPrimesGood` | kernel/symmetrix-galois.c:236-245 | distinct primes are pairwise coprime and their inverses are right, whatever their number and size |
| `CrtIntegers.ResiduesDetermine` | kernel/symmetrix-galois.c:199-252 | a number below the product of pairwise coprime moduli is determined by its residues |
| `CrtIntegers.PrimesRebuild` | kernel/symmetrix-galois.c:220-252 | any residues of any number of distinct primes belong to exactly one number below their product, the one rebuilt |
| `CrtIntegers.PrimesRoundTrip` | kernel/symmetrix-galois.c:199-252 | over the integers rebuilding undoes splitting, for any number of distinct primes and any value below their product |
| `Crt.NoWrap` | kernel/symmetrix-galois.c:230-233 | below 2^64 the 64-bit product is the mathematical product |
| `Crt.ReconstructIsRebuild` | kernel/symmetrix-galois.c:220-252 | as long as the product and every partial sum stay below 2^64 the code rebuilds what the integers do |
| `Crt.SmallProductFits` | kernel/symmetrix-galois.c:220-252 | which they do for every residue list when the product is at most 2^63 |
| `Crt.ReconstructIsTheOne` | kernel/symmetrix-galois.c:220-252 | then the code gives the only number below the product that has the residues |
| `Crt.RoundTrip` | kernel/symmetrix-galois.c:199-252 | the code's round trip for any list of distinct primes with product at most 2^63 |
| `CrtOverflow.PartialBound` | kernel/symmetrix-galois.c:247-248 | no residues drive a turn above its largest sum: the product less the multiple that the sum so far keeps, plus the product less the multiple that the new term keeps |
| `CrtOverflow.WorstIsLost` | kernel/symmetrix-galois.c:247-248 | where the largest sum of a turn is the first to reach 2^64 some value is not given back |
| `CrtOverflow.RoundTripsIff` | kernel/symmetrix-galois.c:199-252 | for good moduli every 64-bit value below the product survives if and only if the product and the largest sums fit 64 bits |
| `CrtOverflow.PrimesRoundTripIff` | kernel/symmetrix-galois.c:199-252 | the same for any list of distinct primes |
| `CrtOverflow.WrapLosesValues` | kernel/symmetrix-galois.c:230-233 | once any product reaches 2^64 the largest 64-bit value is lost |
| `CrtTable.TableRoundTrip` | kernel/symmetrix.h:333-344 | with the first n primes of the table every value below their product survives if and only if n is at most 2 |
| `ModularMatrix.MatrixMul` | kernel/symmetrix-galois.c:260-282 | for every n and modulus the flat result is what the wrapping loops specify, up to a modulus of 2^63 the integer matrix product reduced; a result that is one of the inputs is cleared; cells beyond n * n are untouched |
| `ModularMatrix.CellPosition` | kernel/symmetrix-galois.c:271-276 | cell i, j of a matrix is at position i * n + j |
| `ModularMatrix.CodeSumIsDot` | kernel/symmetrix-galois.c:271-278 | up to a modulus of 2^63 no sum wraps, and a cell is its inner product reduced |
| `ModularMatrix.ServesIff` | kernel/symmetrix-galois.c:271-278 | the loops give the product of all matrices if and only if the modulus is at most 2^63 or there is at most one cell |
| `ModularMatrix.TimesModReduced` | kernel/symmetrix-galois.c:274-276 | reducing the factors first makes no difference |
| `ModularMatrix.TimesModAssociative` | kernel/symmetrix-galois.c:260-282 | the reduced product is associative for every n |
| `ModularMatrix.SingleElement` | kernel/symmetrix-galois.c:260-282 | a row with a single element picks one row of the other factor |
| `ModularMatrix.TimesAdds` | kernel/symmetrix-galois.c:260-282 | the product adds up over sums of rows |
| `NeuronPicker.PowerOfTwoTurns` | src/bin/control_plane_server.rs:1168-1179 | after 2^k turns the generator's multiplier is 1 modulo 2^(k+2) and its sum is 2^k times an odd number |
| `NeuronPicker.Reach` | src/bin/control_plane_server.rs:1168-1179 | full period: from anywhere every residue modulo 2^k is met within the first 2^k states |
| `NeuronPicker.EveryIndexDrawn` | src/bin/control_plane_server.rs:1166-1183 | every index below 2048 is drawn within 2^43 draws, from any state |
| `NeuronPicker.EnoughDraws` | src/bin/control_plane_server.rs:1175-1183 | while an index is missing fewer than 2^43 draws were made: the measure of the second loop |
| `NeuronPicker.PickNeurons` | src/bin/control_plane_server.rs:1153-1185 | for every hash and layer both loops end, with exactly 102 strictly increasing indices below 2048: the different values of the shortest sufficient run of draws |
| `NeuronPicker.Seed` | src/bin/control_plane_server.rs:1153-1155 | the fold over the hash computes the wrapping sum of shifted bytes |
| `NeuronPicker.SeedReadBack` | src/bin/control_plane_server.rs:1154-1155 | up to eight bytes are the base-256 digits of the seed, the first byte the lowest |
| `NeuronPicker.SeedSplit` | src/bin/control_plane_server.rs:1154-1155 | the seed of a longer hash is the wrapped sum of the seeds of its first eight bytes and of the rest |
| `NeuronPicker.DrawIsOrbit` | src/bin/control_plane_server.rs:1168-1171 | every index drawn is bits 32 to 42 of the exact orbit of the generator |
| `NeuronPicker.FirstDraws` | src/bin/control_plane_server.rs:1168-1171 | from the seed of "ab" the first indices are 2042, 13 and 1766 |
| `NeuronPicker.SortedDistinct` | src/bin/control_plane_server.rs:1185 | sorting a list without repetition makes it strictly increasing |
| `Gf2Ring.MulCommutative` | qagml/src/engine.rs:247-262 | multiplication modulo x^32 + c is commutative, for every c |
| `Gf2Ring.MulAssociative` | qagml/src/engine.rs:247-262 | it is associative |
| `Gf2Ring.MulAddLeft` | qagml/src/engine.rs:247-262 | it distributes over XOR |
| `Gf2Poly.ClmulCoefficient` | qanban/src/qanban_galois_field.rs:39-50 | every coefficient of the carry-less word product is the parity of the textbook convolution |
| `Gf2Poly.RemainderUnique` | qanban/src/qanban_galois_field.rs:57-64 | division by the modulus has only one remainder, the value in the ring |
| `Gf2Poly.MulIsReducedProduct` | qagml/src/engine.rs:247-262 | every coefficient of the product of two words is the textbook convolution of theirs, and the ring product is the remainder, and the only one, of that product modulo x^32 + c |
| `AddressCipher.GaloisFieldEngine.GfMultiply` | qagml/src/engine.rs:247-262 | every memo entry stays right, the table gains this product, and the answer does not depend on earlier calls |
| `AddressCipher.GaloisFieldEngine.ShiftAndAdd` | qagml/src/engine.rs:251-259 | the loop that reduces as it goes computes the ring product |
| `AddressCipher.GaloisFieldEngine.Turn` | qagml/src/engine.rs:254-259 | one turn keeps the sum so far plus the product still to come |
| `AddressCipher.GaloisFieldEngine.EncryptAddress` | qagml/src/engine.rs:239-245 | multiplies each half by its constant and remembers both products |
| `AddressCipher.EncryptedAdd` | qagml/src/engine.rs:239-245 | scrambling respects XOR of addresses |
| `AddressCipher.ScramblingIsUndone` | qagml/src/engine.rs:239-245 | multiplying each half by the exhibited inverse undoes scrambling, and scrambling undoes that: a bijection |
| `AddressCipher.HalvesScrambled` | qagml/src/engine.rs:239-245 | the halves of the scrambled address are the ring products of the halves and their constants |
| `PacketCipher.FullProduct` | qanban/src/qanban_galois_field.rs:40-50 | the first loop computes the exact carry-less product |
| `PacketCipher.Reduce` | qanban/src/qanban_galois_field.rs:57-64 | the second loop leaves the polynomial's value modulo x^32 plus the constant |
| `PacketCipher.ReduceTurn` | qanban/src/qanban_galois_field.rs:58-62 | one turn does not change the value of the part still to be looked at |
| `PacketCipher.GfMul` | qanban/src/qanban_galois_field.rs:39-54 | product then reduction is the ring product |
| `PacketCipher.GfPow` | qanban/src/qanban_galois_field.rs:76-89 | square and multiply is repeated multiplication |
| `PacketCipher.GfInv` | qanban/src/qanban_galois_field.rs:67-73 | the exponentiation computes the library inverse, and 0 for 0 |
| `PacketCipher.CompressEncrypted` | qanban/src/qanban_galois_field.rs:156-178 | the loop over pairs computes one element per pair, with zero for a missing partner |
| `PacketCipher.EncryptionAdds` | qanban/src/qanban_galois_field.rs:10 | encrypting the XOR of two packets of one length gives the XOR of their encryptions, element by element |
| `PacketCipher.DecryptUndoesEncrypt` | qanban/src/qanban_galois_field.rs:123-152 | decryption undoes encryption of every packet if and only if key times its library inverse is 1 |
| `PacketCipher.SecureCompressElement` | qanban/src/qanban_galois_field.rs:200-211 | whatever the key, output i is (f[2i] XOR f[2i+1]) times the compression key times key * inv(key) |
| `KeyInverse.InverseIff` | qanban/src/qanban_galois_field.rs:67-73 | the library inverse is an inverse if and only if the fifteenth power of the key is 1 |
| `KeyInverse.InverseTwice` | qanban/src/qanban_galois_field.rs:67-73 | for every key, invertible or not, the key twice times its library inverse is the key squared 32 times |
| `KeyInverse.InverseIsSquarings` | qanban/src/qanban_galois_field.rs:67-73 | for every key the library inverse is the product of the first 31 squarings |
| `KeyInverse.DecryptsIff` | qanban/src/qanban_galois_field.rs:123-152 | decryption undoes encryption of every packet if and only if the fifteenth power of the key is 1 |
| `KeyInverse.ReturnsSooner` | qanban/src/qanban_galois_field.rs:26 | in this ring a word that 32 squarings bring back is brought back by 4 |
| `KeyInverse.SecureCompressIff` | qanban/src/qanban_galois_field.rs:200-211 | secure compression equals compression of the plain packet, for all packets, if and only if key * inv(key) leaves the compression key unchanged |
| `KeyInverse.SecureCompressIsCompress` | qanban/src/qanban_galois_field.rs:200-211 | which it does for the keys that decrypt, whatever the compression key |
| `KeyInverse.DefaultKeyDoesNotDecrypt` | qanban/src/qanban_galois_field.rs:102-110 | with the default key some packet is not recovered |
| `OcspDer.EncodeLength` | src/grpc/certificate_service.rs:335-346 | appends the definite length, of which only 16 bits are kept |
| `OcspDer.BuildOcspResponseDer` | src/grpc/certificate_service.rs:77-109 | the nested builders write exactly the specified response |
| `OcspDer.LengthReadBack` | src/grpc/certificate_service.rs:335-346 | a reader that insists on minimal lengths recovers a length if and only if it is below 2^16 |
| `OcspDer.LengthsAreMinimal` | src/grpc/certificate_service.rs:335-346 | the reader accepts a length only in the form that the encoder writes |
| `OcspDer.LongLength` | src/grpc/certificate_service.rs:341-345 | a length of 256 or more is written with its 16 low bits, high byte first |
| `OcspDer.TlvReadBack` | src/grpc/certificate_service.rs:335-346 | any value with fewer than 2^16 bytes is recovered, whatever follows it |
| `OcspDer.StatusReadBack` | src/grpc/certificate_service.rs:243-261 | good and unknown are recovered; the revoked form never is |
| `OcspDer.RevokedBytes` | src/grpc/certificate_service.rs:248-255 | the revoked form declares 15 bytes and carries 17 |
| `OcspDer.ProperRevoked` | src/grpc/certificate_service.rs:248-255 | with 17 declared it would be read |
| `OcspDer.CertIdReadBack` | src/grpc/certificate_service.rs:286-332 | issuer and key digests and the first 16 serial bytes are recovered if and only if those are a minimal integer |
| `OcspDer.ResponseReadBack` | src/grpc/certificate_service.rs:77-346 | the strict reader recovers everything that went into the response (responder, issuer, key and signature digests, serial, status, times), or nothing if the status is revoked or the serial is not a minimal integer |
| `OcspDer.AsciiRoundTrip` | src/grpc/certificate_service.rs:77-346 | for a non-empty ASCII serial without NUL the response is readable if and only if the status is not revoked |
| `OcspDer.MinimalIff` | src/grpc/certificate_service.rs:320-323 | contents are a minimal integer if and only if the integer would change without their first byte |
| `OcspDer.Identifiers` | src/grpc/certificate_service.rs:121-160 | the three object identifiers are those of the basic response, SHA-256 with RSA and SHA-256 |
| `AllocationLedger.StepKeepsLedger` | src/grpc/allocation.rs:62-102 | a step that the locks allow keeps the balance (total plus inserted-not-added equals sum plus removed-not-subtracted) and the bound of 1000 if and only if it does not add with a 64-bit sum that wraps |
| `AllocationLedger.LedgerIff` | src/grpc/allocation.rs:62-132 | in every interleaving of allocate, free and status the ledger holds at every moment if and only if no addition wraps |
| `AllocationLedger.PendingSince` | src/grpc/allocation.rs:62-102 | an allocate in flight sees, until its end, the totals with which its request was accepted |
| `AllocationLedger.LedgerAlways` | src/grpc/allocation.rs:62-132 | so the ledger holds at every moment of a run in which no request passes the test with a sum that wraps |
| `AllocationLedger.NeverOverstated` | src/grpc/allocation.rs:62-132 | in every run, whatever is requested, no total exceeds 1000 or the sum that the ledger asks for |
| `AllocationLedger.QuiescentTotals` | src/grpc/allocation.rs:28-33 | with no allocate or free in flight an agent's total is the sum of its live records, at most 1000 |
| `AllocationLedger.StatusSeesTotals` | src/grpc/allocation.rs:196-197 | a status call that holds both locks reads the maps at such a moment |
| `AllocationLedger.SubtractionExact` | src/grpc/allocation.rs:129-132 | the saturating subtraction finds its agent and never saturates |
| `AllocationLedger.AcceptanceKeepsBound` | src/grpc/allocation.rs:66-80 | after an allocate the agent's total is the sum of its live records if and only if the request did not pass with a sum that wraps; otherwise the total is 2^64 short |
| `AllocationLedger.GrantedInRuns` | src/grpc/allocation.rs:66-80 | in every run a request whose sum does not wrap is granted if and only if total plus request is at most 1000; a refusal changes nothing |
| `AllocationLedger.GrantedFromRecords` | src/grpc/allocation.rs:66-102 | with nothing in flight it is granted, and recorded, if and only if the live records plus the request are at most 1000 TB |
| `AllocationLedger.MisjudgedHappens` | src/grpc/allocation.rs:66-102 | an agent that holds 1 TB is granted 2^64 - 1 more, and then has a total of 0 |
| `AllocationLocks.StuckExactly` | src/grpc/allocation.rs:63-197 | calls are in flight and none can move if and only if an allocate has checked and a free has removed or a status call waits |
| `AllocationLocks.StuckForEver` | src/grpc/allocation.rs:63-197 | from then on no allocate or free begins or ends and no status call ends |
| `AllocationLocks.WaitingCounted` | src/grpc/allocation.rs:196-197 | in every run the status calls that wait are those begun and not finished |
| `AllocationLocks.StuckReachable` | src/grpc/allocation.rs:63-129 | five steps of two allocates and a free get there |
| `AllocationLocks.StuckByStatus` | src/grpc/allocation.rs:63-197 | so do two steps of an allocate and a status call |
| `AllocationLedger.FreeUndoesAllocate` | src/grpc/allocation.rs:52-148 | freeing what was just allocated restores the records, and every total if and only if the request did not pass with a sum that wraps |
| `AllocationLedger.CallsKeepLedger` | src/grpc/allocation.rs:52-148 | an undisturbed free keeps the ledger, an allocate does if and only if its request did not pass with a sum that wraps; neither leaves a lock held |
| `AllocationLedger.AllocationService.AllocateMemory` | src/grpc/allocation.rs:52-117 | accepts by the wrapping test, which from a quiet ledger means exactly the requests that fit 1000 TB beside the live records; then runs the steps of the machine; refusal changes nothing |
| `AllocationLedger.AllocationService.FreeMemory` | src/grpc/allocation.rs:119-148 | runs the steps of the machine and answers the freed amount, if the record exists |
| `AllocationLedger.AllocationService.RouteMemoryRequest` | src/grpc/allocation.rs:150-189 | answers an agent with the most room among all, if that suffices and is positive; otherwise no agent has enough |
| `AllocationLedger.AllocationService.GetAllocationStatus` | src/grpc/allocation.rs:191-234 | lists each matching record once, with their 64-bit sum and the remaining quota; while the ledger holds the sum does not wrap and, unfiltered, is the agent's total |
| `BlockedMatrix.BlockedMultiply` | src/bin/benchmark.rs:170-188 | the six loops add the whole product for every size and every positive block size |
| `BlockedMatrix.NaiveMultiply` | src/bin/benchmark.rs:201-207 | the three loops add the same |
| `BlockedMatrix.AddedTerms` | src/bin/benchmark.rs:173-184 | adjacent stretches of terms add up to their union, cell by cell |
| `BlockedMatrix.AddedUnique` | src/bin/benchmark.rs:170-207 | adding the same box of products to the same matrix gives one matrix |
| `BlockedMatrix.BenchmarkMatrixMultiply` | src/bin/benchmark.rs:160-207 | blocked and naive results are equal, and each cell is the inner product |
| `BlockedMatrix.SingleElement` | src/bin/benchmark.rs:201-207 | a row with a single element picks one row of the other factor, by row-major positions |
| `BlockedMatrix.SegmentAdds` | src/bin/benchmark.rs:201-207 | inner products add up over sums of rows |
| `CacheCodec.Compress` | src/uao_qtcam_cache.rs:252-276 | writes length, checksum and every stride-th byte |
| `CacheCodec.Decompress` | src/uao_qtcam_cache.rs:279-309 | byte i is the sample that the loop's counters reach; without samples all bytes are zero |
| `CacheCodec.CompressedLength` | src/uao_qtcam_cache.rs:252-276 | the length is 16 + ceil(n / stride), below 16 + 2 max(1, n / ratio) |
| `CodecLayout.StrideIsLargest` | src/uao_qtcam_cache.rs:254-258 | the stride is the largest at which the samples aimed at, a ratio-th of the length but at least one, lie inside the data |
| `CodecLayout.KeepsAtLeast` | src/uao_qtcam_cache.rs:252-276 | at least that many samples are kept, and fewer than twice as many |
| `CodecLayout.SampleByte` | src/uao_qtcam_cache.rs:268-273 | byte 16 + k is the byte of the data at k times the stride, for all such positions and no other |
| `CodecLayout.HeaderByte` | src/uao_qtcam_cache.rs:260-266 | the header is, lowest bytes first, the length and the sum of all bytes |
| `CodecLayout.SumsAdd` | src/uao_qtcam_cache.rs:264-266 | the checksum of data put together is the sum of the parts' checksums, and one byte's is its value |
| `CacheCodec.HeaderHoldsLength` | src/uao_qtcam_cache.rs:260-261 | the first eight bytes give back the original length |
| `CacheCodec.ReadBack` | src/uao_qtcam_cache.rs:252-309 | every output byte is a determined input byte at a multiple of the stride |
| `CodecLayout.ByteReadBack` | src/uao_qtcam_cache.rs:279-309 | for any compressed bytes and length, output i is sample i / rate or the last one, where rate is the length over the number of samples |
| `CodecLayout.NothingReadBack` | src/uao_qtcam_cache.rs:279-309 | compressed bytes without a sample, header or not, read back as zeros |
| `CacheCodec.EvenReadBack` | src/uao_qtcam_cache.rs:252-309 | when the stride divides the length output i is d[(i / stride) * stride] |
| `CacheCodec.LosslessIff` | src/uao_qtcam_cache.rs:252-309 | all data of a length survive if and only if the ratio is 1 or there is at most one byte |
| `CacheCodec.TenReadsBackAsEleven` | src/uao_qtcam_cache.rs:213-222 | the text of the number 10 reads back as 11 at every larger ratio |
| `CacheStore.UaoQtcamCache.Set` | src/uao_qtcam_cache.rs:89-136 | evicts, replaces and accounts as specified, without underflow; counts the set and the evictions |
| `CacheStore.UaoQtcamCache.Get` | src/uao_qtcam_cache.rs:139-183 | answers and touches a live entry, drops an expired one, counts the hit or miss |
| `CacheStore.ExpiresExactly` | src/uao_qtcam_cache.rs:147-148 | from its creation on an entry counts as expired if and only if it has a time-to-live that is over or that ends beyond the signed 64-bit clock |
| `CacheStore.UaoQtcamCache.Delete` | src/uao_qtcam_cache.rs:186-201 | removes the entry and its bytes, if there is one |
| `CacheStore.UaoQtcamCache.Clear` | src/uao_qtcam_cache.rs:240-249 | leaves no entry and no bytes |
| `CacheStore.UaoQtcamCache.EvictIfNeeded` | src/uao_qtcam_cache.rs:312-351 | removes nothing if the new entry fits, otherwise exactly an eviction |
| `CacheStore.PrefixIsEviction` | src/uao_qtcam_cache.rs:336-348 | stopping in the sorted order as soon as enough is freed gives the shortest lowest-score list |
| `CacheStore.EvictionUnique` | src/uao_qtcam_cache.rs:325-348 | without ties in the scores what is evicted is fully determined |
| `CacheEvictions.EvictsNoMore` | src/uao_qtcam_cache.rs:336-348 | without any of the last evicted entries the new one would exceed the capacity |
| `CacheEvictions.EvictsEnough` | src/uao_qtcam_cache.rs:336-348 | an entry that fits the cache at all fits beside what is kept |
| `CacheEvictions.LeastUsedLeave` | src/uao_qtcam_cache.rs:325-334 | no evicted entry has a larger sum of twice its last access and three times its count than a kept one |
| `CacheEvictions.SetEntries` | src/uao_qtcam_cache.rs:106-121 | after a set there is what was kept and, under the key, the new entry with its time and no accesses |
| `CacheEvictions.UsesCounted` | src/uao_qtcam_cache.rs:152-153 | in every run an entry has counted the gets since its set and remembers when the key was last used |
| `CacheStore.StepAccounts` | src/uao_qtcam_cache.rs:106-121 | every operation keeps the size equal to the sum of compressed lengths |
| `CacheStore.SetCapacity` | src/uao_qtcam_cache.rs:96-121 | after a set the cache is within its capacity if and only if the new entry alone is |
| `CacheStore.OversizedSetEmpties` | src/uao_qtcam_cache.rs:312-351 | a set that is too big leaves only its own entry |
| `CacheStore.RunInvariant` | src/uao_qtcam_cache.rs:89-249 | in every run the accounting is exact and each entry holds the value last set under its key |
| `CacheStore.HitReturnsLastSet` | src/uao_qtcam_cache.rs:139-183 | in every run a hit answers what the codec keeps of the value last set, and that value itself at ratio 1 |
| `CacheStore.FoundIff` | src/uao_qtcam_cache.rs:89-249 | in every run a key is found if and only if some set of it stands, neither replaced, deleted, cleared, evicted nor found expired since, and has not outlived its time |
| `CacheStore.StandingEntry` | src/uao_qtcam_cache.rs:89-249 | and what is found is what that set stored |
| `CacheStore.RunCapacity` | src/uao_qtcam_cache.rs:89-121 | in every run the capacity holds after each set that fits |
| `RateLimiter.AuthManager.ValidateKey` | src/grpc/auth.rs:211-272 | decides by enabled, expiry, window and limit in this order, with the reason of each refusal, and updates only this key's window and count |
| `RateLimiter.RefusedKept` | src/grpc/auth.rs:233-262 | a refused validation changes nothing |
| `RateGrants.UnlimitedGranted` | src/grpc/auth.rs:256 | in every run each validation of a key with limit 0 that is enabled and unexpired is accepted |
| `RateGrants.LimitedGranted` | src/grpc/auth.rs:248-262 | for a key with a limit it is accepted if and only if its window is over or holds fewer accepts than the limit |
| `RateGrants.WindowOpened` | src/grpc/auth.rs:249-252 | in every run a window was opened by an accepted request or the registration |
| `RateLimiter.CountIsWindow` | src/grpc/auth.rs:244-260 | in every run the count is the number of accepts in the current window, up to 32-bit wrapping |
| `RateLimiter.WindowsWithinLimit` | src/grpc/auth.rs:244-260 | for a limited key the count is exact, and with the accepts less than 60 seconds before the window it is within twice the limit |
| `RateLimiter.AtMostTwiceTheLimit` | src/grpc/auth.rs:233-267 | in every run every half-open 60-second interval sees at most twice the limit of accepts |
| `RateBounds.AtMostTheBound` | src/grpc/auth.rs:244-260 | whatever follows a moment, the next 60 seconds see at most the limit if no window is under way, else twice the limit less the count; what is left of it if the window starts at or after the moment |
| `RateBounds.BoundReached` | src/grpc/auth.rs:244-260 | for every entry, phase of its window and count, some continuation reaches that bound, unless the key is disabled or expires first |
| `RateBounds.StaysWithinLimitIff` | src/grpc/auth.rs:244-260 | for every key with a limit, disabled and expiring ones included, all continuations stay within the limit if and only if the key cannot both use what remains of a window under way and be used when it ends |
| `RateBounds.WindowDecides` | src/grpc/auth.rs:175-188 | for keys as they are registered, enabled and without expiry, if and only if the window is not under way at the moment or its count is used up |
| `RateBounds.RunIntervalBound` | src/grpc/auth.rs:233-267 | in every run the entry before a 60-second interval bounds what the interval sees |
| `RateBounds.TwiceTheLimitHappens` | src/grpc/auth.rs:233-267 | for every limit some run lets twice the limit through within two nanoseconds |
| `CertificateStore.InvariantAlways` | src/grpc/certificate.rs:254-371 | in every interleaving index entries resolve, and list entries match revoked certificates one to one, but for the revocation under way |
| `CertificateStore.ListIsExact` | src/grpc/certificate.rs:334-371 | while the certificates lock is free the list has exactly one entry per revoked serial, with its time and reason |
| `CertificateStore.CertificatesKept` | src/grpc/certificate.rs:334-371 | certificates keep their data, and a revoked one never changes |
| `CertificateStore.ListAppendOnly` | src/grpc/certificate.rs:350-355 | the list only grows |
| `CertificateStore.ListAndStamp` | src/grpc/certificate.rs:394-398 | read at two moments of any run, all entries of the list but possibly the last are no later than the timestamp, and the last is unstamped exactly while its own revocation is between its last two steps |
| `CertificateStore.ListAheadOfStamp` | src/grpc/certificate.rs:350-358 | which does happen: an entry newer than its list's timestamp |
| `CertificateStore.StatusNeverGoesBack` | src/grpc/certificate.rs:119-127 | over a clock that does not go back, answers move only from unknown to valid to expired to revoked |
| `CertificateStore.AnswersExactly` | src/grpc/certificate.rs:119-127 | in every interleaving, from its issue on, a certificate is revoked once a revocation has named it, else valid until its expiry and then expired |
| `CertificateStore.LookupResolves` | src/grpc/certificate.rs:379-382 | a lookup that reads the index and later the certificates finds a certificate with that fingerprint |
| `CertificateStore.IssuedIsFound` | src/grpc/certificate.rs:254-255 | once indexed a certificate is found, unless another has the same fingerprint |
| `CertificateStore.CertificateManager.IssueCertificate` | src/grpc/certificate.rs:213-266 | stores and indexes the new valid certificate, or changes nothing if it could not be built |
| `CertificateStore.CertificateManager.RevokeCertificate` | src/grpc/certificate.rs:334-371 | marks, lists and stamps, or reports what prevents it and changes nothing |
| `CertificateStore.CertificateManager.GetCertificateByFingerprint` | src/grpc/certificate.rs:379-382 | finds a stored certificate with the fingerprint if and only if it is indexed |
| `CertificateStore.CertificateManager.CheckStatus` | src/grpc/certificate.rs:385-391 | answers the status, which is revoked if and only if the serial is on the list |
| `CertificateStore.CertificateManager.GetCrl` | src/grpc/certificate.rs:394-399 | undisturbed, answers the list, as many entries as there are revoked certificates, stamped with the last entry's time, and the next update a day later |
| `Coalescer.BusWidthAmplificationEngine.TryCoalesce` | qagml/src/bus_width_amplification.rs:250-272 | for every request, with wrapping ends, extends the first region that takes it, else adds one if there is room |
| `Coalescer.BusWidthAmplificationEngine.OptimizeRead` | qagml/src/bus_width_amplification.rs:195-247 | counts the read, answers a cached one without touching the regions, and keeps all counters exact |
| `Coalescer.MergesIff` | qagml/src/bus_width_amplification.rs:258 | a request is merged if and only if it starts inside or right behind a region whose end does not wrap |
| `Coalescer.FirstExtended` | qagml/src/bus_width_amplification.rs:254-261 | it is the first such region that grows, to the later end |
| `Coalescer.AddedUnlessFull` | qagml/src/bus_width_amplification.rs:266-269 | otherwise the request becomes a region of its own, unless there are 16 |
| `Coalescer.OneRequestCovers` | qagml/src/bus_width_amplification.rs:253-272 | a request adds exactly its own bytes, unless it is dropped or merged with an end that wraps |
| `Coalescer.RunGrows` | qagml/src/bus_width_amplification.rs:253-272 | in every run starts never move, ends never shrink and regions never disappear |
| `Coalescer.CoverageExact` | qagml/src/bus_width_amplification.rs:250-272 | after every run the covered bytes are exactly those of the requests added, or merged with an end that is an address |
| `Coalescer.MergedStaysInside` | qagml/src/bus_width_amplification.rs:258-263 | a request answered with true lies inside one region from then on if and only if its end is an address |
| `Coalescer.WrappedMergeIsLost` | qagml/src/bus_width_amplification.rs:255-263 | a request with a wrapping end that is answered with true and of which no byte is covered |
| `Coalescer.CountersExact` | qagml/src/bus_width_amplification.rs:195-247 | after every run the counters are the numbers of reads, hits and misses and the bytes moved and saved, up to wrapping |
| `Coalescer.BytesConserved` | qagml/src/bus_width_amplification.rs:203-231 | without compression every byte asked for is either transferred or avoided |
| `Coalescer.CompressedTraffic` | qagml/src/bus_width_amplification.rs:214-231 | with compression a thousandth of the bytes that miss is moved, less than one byte per read short |
| `TensorLayout.PositionUnique` | qanban/src/qanban_tensor_decomposition.rs:147-151 | the index arithmetic of reshaping undoes row-major order, for every shape |
| `TensorLayout.PositionReached` | qanban/src/qanban_tensor_decomposition.rs:147-151 | and reaches every cell |
| `TensorEngine.ReshapeToTensor` | qanban/src/qanban_tensor_decomposition.rs:143-155 | the tensor holds the features in row-major order, cut off or filled up with zeros |
| `TensorEngine.FlattenTensor` | qanban/src/qanban_tensor_decomposition.rs:158-170 | the features are the tensor's cells in row-major order |
| `TensorEngine.FlattenUndoesReshape` | qanban/src/qanban_tensor_decomposition.rs:143-170 | flattening a reshaped tensor gives the features cut off or filled up to d0*d1*d2 |
| `TensorEngine.CompressFactors` | qanban/src/qanban_tensor_decomposition.rs:173-184 | writes the factors one after another |
| `TensorEngine.FlatForm` | qanban/src/qanban_tensor_decomposition.rs:173-184 | piece m of the flat form is the weight and the three vectors of factor m, in this order |
| `TensorEngine.DecompressFactors` | qanban/src/qanban_tensor_decomposition.rs:187-214 | reads chunk by chunk, with a short third vector in a short last chunk, and fails on a chunk that is too short for the first two |
| `TensorEngine.ReadableIff` | qanban/src/qanban_tensor_decomposition.rs:187-214 | it succeeds if and only if the last chunk is whole or long enough for the weight and two vectors |
| `TensorEngine.DecompressUndoesCompress` | qanban/src/qanban_tensor_decomposition.rs:173-214 | factors of the engine's shape come back |
| `TensorEngine.CompressUndoesDecompress` | qanban/src/qanban_tensor_decomposition.rs:173-214 | every flat form that can be read comes back |
| `TensorEngine.ReconstructTensor` | qanban/src/qanban_tensor_decomposition.rs:123-140 | each cell is the sum of the factors' products |
| `TensorEngine.SingleFactor` | qanban/src/qanban_tensor_decomposition.rs:127-137 | a single factor gives at each row-major position the weight times one element of each vector, no factor gives zero |
| `TensorEngine.FactorsAdd` | qanban/src/qanban_tensor_decomposition.rs:127-137 | the features of several factors are the sums of theirs |
| `TensorEngine.TensorDecompositionEngine.CpDecomposition` | qanban/src/qanban_tensor_decomposition.rs:93-120 | factor r has weight 1 / (r + 1) and the sines, cosines and sines of the positions plus r, whatever the tensor |
| `TensorEngine.TensorDecompositionEngine.StorePacket` | qanban/src/qanban_tensor_decomposition.rs:58-71 | appends under the next identifier, so earlier packets stay as they are |
| `TensorEngine.TensorDecompositionEngine.RetrievePacket` | qanban/src/qanban_tensor_decomposition.rs:75-90 | every known identifier gives the same features, those of the engine's own factors |
| `Morton.MortonEncode2d` | kernel/symmetrix-core.c:113-123 | the loop of masks, shifts and ors computes the interleaving, within 64 bits |
| `Morton.BitwiseOr` | kernel/symmetrix-core.c:118-120 | a bit of the disjunction is set if and only if it is set in one of the words |
| `Morton.BitwiseAnd` | kernel/symmetrix-core.c:118-120 | a bit of the conjunction is set if and only if it is set in both |
| `Morton.BitsPlaced` | kernel/symmetrix-core.c:118-120 | bit i of x is at 2i and bit i of y at 2i + 1, at every width |
| `Morton.DeinterleaveUndoes` | kernel/symmetrix-core.c:113-123 | de-interleaving gives back both coordinates |
| `Morton.InterleaveUndoes` | kernel/symmetrix-core.c:113-123 | every word of 2n bits is the code of its even and odd bits |
| `Morton.Monotone` | kernel/symmetrix-core.c:113-123 | the code is strictly monotone in each coordinate |
| `Morton.NarrowCoordinates` | kernel/symmetrix-core.c:190-193 | coordinates of w bits have codes of 2w bits, at every larger width |
| `Morton.TensorAllocIndex` | kernel/symmetrix-core.c:190-193 | the 32-bit truncation loses nothing |
| `Morton.IndexBits` | kernel/symmetrix-core.c:190-193 | bit i of the size is bit 2i of the index and bit 16 + i is bit 2i + 1 |
| `Morton.IndexIdentifiesSize` | kernel/symmetrix-core.c:190-193 | two sizes share an index if and only if their low 32 bits agree |

## Left out

- GaloisKernel.GaloisInv: takes values and moduli below 2^63, since the language leaves larger ones to the compiler; GaloisSigned follows compilers that convert modulo 2^64, for values below their modulus.
- ModularMatrix.MatrixMul: n is unbounded; the C loop counters are 32-bit integers, and n * n overflows them from n = 46341.
- NeuronPicker.Seed: the hash is any byte sequence; that it comes from a UTF-8 string is not used.
- OcspDer.BuildOcspResponseDer: the time formatting is a parameter of 15 bytes, which holds for the years 0 to 9999; SHA-256 values are parameters of 32 bytes.
- BlockedMatrix.BenchmarkMatrixMultiply: numbers are exact, so the two forms agree; with f64 the order of additions can change the last bits.
- Sums that wrap (the allocation test, expiry times, ends of reads) are modelled as in an optimised build; an unoptimised one stops there.
- CacheStore.RunCapacity: one call at a time; concurrent sets can exceed the capacity because the size is read before the locks are taken. Counters and access counts are unbounded.
- CacheCodec.Compress: the ratio is an integer, as the source truncates it; a ratio below 1 makes the source divide by zero.
- Coalescer.CountersExact: one read at a time; the counters of reads in flight are not modelled.
- RateLimiter.AtMostTwiceTheLimit: the clock does not go back, calls read it in the order in which they take the lock, and the key is not registered again; the tier table and the hash are parameters.
- CertificateStore.InvariantAlways: serial numbers are fresh, as UUIDs are; certificate texts and GPU bindings are not modelled.
- AllocationLocks.StuckForEver: the queue in which the locks serve waiting calls is not modelled; it can only hold calls back.
- The cache's incr, which replaces a value without accounting for it, and its derived statistics.
- decompress_encrypted, which does not undo compress_encrypted, and accuracy of the tensor reconstruction, whose factors do not depend on the input.
- A strict comparison of the kernel header's Morton prototypes (16-bit arguments, 32-bit result) with the static function of the C file, which takes 32-bit arguments.
- The scheduler's choice of a CPU, FFT, dimensional folding, Q-learning, quantum cache and temporal prediction: floating point or stubs.
- Amplification factors, pricing and GPU tables, dashboards, command lines, gRPC and WebSocket plumbing, FPGA and CUDA interfaces.
- X.509 generation, SHA-256, UUIDs and the clock are abstract.
