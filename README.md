# Verified model of three cryptographic-flaw demonstrations

This project models the three demonstrations of the repository in Dafny and
proves what each one computes:

- `test_nonce_reuse.py` (modules `ModularArithmetic`, `NonceReuse` and
  `NonceReuseDemo`):
  - `mod_inverse` is the extended Euclidean algorithm. It is a method with
    its loop, proved against the specification function `Inverse`.
  - `sign_message` computes an ECDSA-style signature, with `r = (k G_X) mod N`
    as the source simplifies it.
  - `recover_private_key_from_nonce_reuse` recovers the key. The round trip
    is proved over any modulus `m`, under explicit invertibility conditions:
    signing twice with one nonce and then recovering returns the signing key
    reduced mod `m`.
- `test_protocol_abort.py` (module `ProtocolAbort`):
  - The class `MPCProtocol` with its guarded stage transitions, the
    intermediate-result dictionary that only grows, and an unguarded `abort`
    that hands that dictionary back.
  - Runs that follow the source's test functions prove exactly what leaks at
    each abort point.
- `test_side_channel.py` (module `SideChannel`):
  - The 32-bit set-bit loop.
  - The sample dictionary keyed by input value. A Python dict is modelled as
    its keys in insertion order beside a map, so an overwritten key keeps its
    place.
  - The grouping by bit count, the per-group averages over the reals, and
    the verdict.

Four places where the code does something a reader might not expect; the
model follows the code:

- `finalize` reduces modulo `0xFFFF` (65535), not 65536.
- `phase2` XORs with the first four digest bytes read big-endian, that is
  the digest's most significant 32 bits, not its low 32 bits.
- `abort` has no state check and succeeds from every state, including
  `INITIALIZED`, `FINALIZED` and `ABORTED`.
- The verdict compares the averages in the order in which bit counts first
  appear in the dict, not in sorted order. `SideChannel.FirstAppearanceNotSorted`
  shows a case where this matters.

The module `Wrappers` holds the stock `Option` and `Result` types. Python's
exceptions are modelled as `Err` results.

## Model

| member | source | states |
|---|---|---|
| ModularArithmetic.Normalised | test_nonce_reuse.py:18-19 | the value fed to the loop is non-negative and congruent to `a` modulo `m` |
| ModularArithmetic.Gcd | test_nonce_reuse.py:22-30 | Euclid's remainder recursion that the loop's `old_r, r` follow; it is zero only when both inputs are zero, and GcdDivides and GcdGreatest show it is the greatest common divisor |
| ModularArithmetic.BezoutS | test_nonce_reuse.py:22-30 | the `old_s` the loop ends with when started from `(old_r, r, old_s, s)`, one recursion step per iteration; BezoutSound and ModInverse's invariant tie it to the loop |
| ModularArithmetic.EuclidStep | test_nonce_reuse.py:27-30 | one iteration keeps both Bezout equations `old_s a + old_t m = old_r` and `s a + t m = r`; the new `r` is `old_r mod r` |
| ModularArithmetic.BezoutSound | test_nonce_reuse.py:22-30 | while the Bezout equations hold, `a` times the final `old_s` is congruent to `gcd(old_r, r)` modulo `m` |
| ModularArithmetic.GcdDivides | test_nonce_reuse.py:26-34 | the final remainder, the gcd, is positive and divides both inputs |
| ModularArithmetic.GcdGreatest | test_nonce_reuse.py:26-34 | every common divisor of the inputs divides their gcd |
| ModularArithmetic.GcdResidue | test_nonce_reuse.py:18-22 | normalising `a` to `a mod m` does not change `gcd(a, m)` |
| ModularArithmetic.Inverse | test_nonce_reuse.py:16-36 | a success is in `[0, m)` with `a x mod m = 1 mod m`; the function fails exactly when `gcd(a mod m, m) != 1`, and the error carries that gcd |
| ModularArithmetic.ModInverse | test_nonce_reuse.py:16-36 | the loop returns exactly `Inverse(a, m)`; its invariants are the Bezout equations, `gcd(old_r, r) = gcd(a, m)` and termination on a decreasing `r >= 0` |
| ModularArithmetic.NoInverseWhenNotCoprime | test_nonce_reuse.py:33-34 | when the gcd is not 1, no integer is an inverse of `a` modulo `m` |
| ModularArithmetic.InverseFailsIffNoneExists | test_nonce_reuse.py:33-36 | `mod_inverse` raises if and only if `a` has no inverse modulo `m` |
| ModularArithmetic.CoprimeByWitness | test_nonce_reuse.py:33-36 | an exhibited inverse of `a` modulo `m` shows `gcd(a mod m, m) = 1`, so `mod_inverse` does not raise |
| ModularArithmetic.InverseUnique | test_nonce_reuse.py:36 | an inverse in `[0, m)` is unique, so the returned value is the inverse |
| ModularArithmetic.InverseOfResidue | test_nonce_reuse.py:18-19 | the result for `a` equals the result for `a mod m` |
| ModularArithmetic.FourHasNoInverseModEight | test_nonce_reuse.py:33-34 | `mod_inverse(4, 8)` raises, reporting gcd 4 |
| ModularArithmetic.PrimeResidueCoprime | test_nonce_reuse.py:12 | modulo a prime, every non-zero residue has gcd 1 with the modulus |
| NonceReuse.Sign | test_nonce_reuse.py:38-53 | signing fails exactly when `k` has no inverse; otherwise `r = (k gx) mod m`, `0 <= s < m` and `s k = z + r d (mod m)` with `z = digest mod m` |
| NonceReuse.SignEquation | test_nonce_reuse.py:51 | multiplying `k^-1 w mod m` by `k` gives back `w mod m` |
| NonceReuse.SignMessage | test_nonce_reuse.py:38-53 | `sign_message` with `N`, `G_X` and the nonce given or, when omitted, 42: a success has `r = (k G_X) mod N` for that nonce and `s` in `[0, N)`, and a failure is the missing-inverse error |
| NonceReuse.SignMessageWithNonce | test_nonce_reuse.py:38-53 | with a nonce given, `sign_message` fails exactly when it has no inverse modulo `N`, and otherwise returns `r = (k G_X) mod N`, `0 <= s < N` and `s k = z + r d (mod N)` |
| NonceReuse.SameNonceSameR | test_nonce_reuse.py:48 | two signatures made with the same nonce have equal `r`, whatever the keys and messages |
| NonceReuse.RecoverNonce | test_nonce_reuse.py:70-72 | the recovered nonce is in `[0, m)` and solves `(s1 - s2) k = z1 - z2 (mod m)`; it fails exactly when `s1 - s2` is not invertible |
| NonceReuse.RecoverPrivateKey | test_nonce_reuse.py:55-75 | it refuses exactly when `r1 != r2`, fails on a non-invertible `s1 - s2` or `r`, and otherwise returns `d` in `[0, m)` such that the recovered `k` and `d` satisfy both signing equations |
| NonceReuse.RecoveredKeyExplains | test_nonce_reuse.py:70-73 | the recovered `d = (s1 k - z1) r^-1` satisfies both signing equations |
| NonceReuse.SignaturesDiffer | test_nonce_reuse.py:70 | two signatures with one nonce and different digests satisfy `(s1 - s2) k = z1 - z2 (mod m)` |
| NonceReuse.InvertibleFactor | test_nonce_reuse.py:70-72 | when `(s1 - s2) k = z1 - z2 (mod m)` and `z1 - z2` is invertible, `s1 - s2` is invertible too, so the nonce step succeeds |
| NonceReuse.KeyDetermined | test_nonce_reuse.py:73 | given the true nonce, the key recovered from the first signature is the signing key mod `m` |
| NonceReuse.NonceDetermined | test_nonce_reuse.py:72 | an invertible factor determines the nonce uniquely modulo `m` |
| NonceReuse.CancelInverse | test_nonce_reuse.py:73 | multiplying `d = w r^-1 mod m` by `r` gives back `w` modulo `m` |
| NonceReuse.DifferentRRefused | test_nonce_reuse.py:62-63 | signatures with different `r` are refused |
| NonceReuse.RecoverAfterNonceReuse | test_nonce_reuse.py:70-75 | round trip: with `k`, `r` and the digest difference invertible, both signatures succeed, the nonce step returns `k mod m`, recovery returns `d mod m`, and `d` itself when `0 <= d < m` |
| NonceReuse.RecoverAfterNonceReusePrime | test_nonce_reuse.py:70-75 | the same round trip for a prime modulus, under non-zero residue conditions only |
| NonceReuseDemo.DemoNonceInvertible | test_nonce_reuse.py:87 | the nonce 42 is invertible modulo `N` |
| NonceReuseDemo.DemoRInvertible | test_nonce_reuse.py:48 | `r = (42 G_X) mod N` is the stated constant and is invertible modulo `N` |
| NonceReuseDemo.DemoRecoversKey | test_nonce_reuse.py:79-98 | `main`: signing with key 12345 and nonce 42 and recovering returns exactly 12345 |
| NonceReuseDemo.DefaultNonceIsReused | test_nonce_reuse.py:44-48 | signing without a nonce always succeeds with the fixed nonce 42, so any two such signatures share `r` |
| ModularArithmetic.Pow | test_protocol_abort.py:54 | powers, positive for a positive base, used for byte place values and bit positions; PowAdd adds exponents |
| ModularArithmetic.PowAdd | test_side_channel.py:20-21 | `b^(x + y) = b^x b^y`, which splits `2^32` at bit `i` |
| ProtocolAbort.BigEndian | test_protocol_abort.py:54 | the big-endian value of `n` bytes is below `256^n` |
| ProtocolAbort.HashWord | test_protocol_abort.py:54 | the first four digest bytes read big-endian, a value below `2^32` |
| ProtocolAbort.Xor | test_protocol_abort.py:54 | Python's `^` on non-negative integers, digit by digit; its lowest bit is `(a + b) mod 2` |
| ProtocolAbort.HashWordValue | test_protocol_abort.py:54 | the word XORed in phase 2 is `b0 2^24 + b1 2^16 + b2 2^8 + b3` of the first four digest bytes, below `2^32` |
| ProtocolAbort.XorDigits | test_protocol_abort.py:54 | the lowest bit of `a ^ b` is `(a + b) mod 2`, and the higher bits of `a ^ b` are the XOR of the higher bits of `a` and `b` |
| ProtocolAbort.XorSelfInverse | test_protocol_abort.py:54 | `(a ^ b) ^ b = a`, so phase 2 hides nothing from anyone who knows the digest |
| ProtocolAbort.MPCProtocol.Valid | test_protocol_abort.py:13-79 | the object invariant every method keeps: the key and nonce lie in the drawn range, the digest has 32 bytes, outside `ABORTED` the dictionary holds exactly the keys of the current stage, and each entry is the value its stage computes from the nonce, key and digest |
| ProtocolAbort.MPCProtocol.constructor | test_protocol_abort.py:13-19 | the object starts in `INITIALIZED` with no nonce, no hash and an empty dictionary |
| ProtocolAbort.MPCProtocol.StartProtocol | test_protocol_abort.py:21-34 | it succeeds only from `INITIALIZED`, giving state `STARTED` and dictionary exactly `{nonce}`; otherwise it fails with "Protocol already started" and changes nothing |
| ProtocolAbort.MPCProtocol.Phase1 | test_protocol_abort.py:36-46 | it succeeds only from `STARTED`, adding the unreduced `nonce * private_key`; otherwise it fails with "Protocol not started" and changes nothing |
| ProtocolAbort.MPCProtocol.Phase2 | test_protocol_abort.py:48-58 | it succeeds only from `PHASE1_COMPLETED`, adding `phase1_result ^ hash word`; otherwise it fails with "Phase 1 not completed" and changes nothing |
| ProtocolAbort.MPCProtocol.Finalize | test_protocol_abort.py:60-70 | it succeeds only from `PHASE2_COMPLETED`, returning `phase2_result mod 0xFFFF` in `[0, 0xFFFF)` with the dictionary untouched; otherwise it fails with "Phase 2 not completed" |
| ProtocolAbort.MPCProtocol.Abort | test_protocol_abort.py:72-79 | from any state it sets `ABORTED` and returns the dictionary unmodified |
| ProtocolAbort.NormalExecution | test_protocol_abort.py:81-92 | the full run returns `(nonce * key ^ hash word) mod 0xFFFF`, in `[0, 0xFFFF)` |
| ProtocolAbort.AbortAfterStart | test_protocol_abort.py:72-79 | aborting after the start leaks exactly `{nonce}` |
| ProtocolAbort.AbortAfterPhase1 | test_protocol_abort.py:94-115 | aborting after phase 1 leaks exactly the nonce and `nonce * key` |
| ProtocolAbort.AbortAfterPhase2 | test_protocol_abort.py:117-141 | aborting after phase 2 leaks exactly all three values, and XORing the hash word back out of `phase2_result` yields `phase1_result` |
| ProtocolAbort.Phase1BeforeStart | test_protocol_abort.py:36-39 | `phase1` before `start_protocol` fails with "Protocol not started" |
| ProtocolAbort.GuardsFailAfterAbort | test_protocol_abort.py:21-79 | after an abort at any stage of a run, all four guarded operations fail |
| SideChannel.Bit | test_side_channel.py:21 | `(x >> i) & 1` with Python's floor shift, which is 0 or 1 |
| SideChannel.CountBelow | test_side_channel.py:19-24 | the value of `count` after the first `n` iterations of the loop, which is at most `n`; CountIsSetBits ties it to the set-bit positions |
| SideChannel.CountIsSetBits | test_side_channel.py:19-24 | the count over bits `0..n-1` is the number of set-bit positions below `n` |
| SideChannel.LowBitOfResidue | test_side_channel.py:20-21 | bit `i < 32` of `x` equals bit `i` of `x mod 2^32` |
| SideChannel.CountIgnoresHighBits | test_side_channel.py:20-21 | `count(x) = count(x mod 2^32)` |
| SideChannel.CountSetBits | test_side_channel.py:10-27 | the loop returns the set-bit count of bits 0..31, so it is in `[0, 32]`, and performs exactly one extra-work delay per set bit |
| SideChannel.Dedup | test_side_channel.py:41 | the dict's key order holds exactly the inputs' elements and is no longer than the inputs |
| SideChannel.DedupOrdered | test_side_channel.py:41 | the key order has no repeats and lists keys by increasing first occurrence |
| SideChannel.DedupCardinality | test_side_channel.py:73-76 | the number of keys is the number of distinct values |
| SideChannel.WellFormed | test_side_channel.py:31-41 | the dict invariant: the key order has no repeats and holds exactly the map's keys; every dict operation of the model keeps it |
| SideChannel.Store | test_side_channel.py:41 | `timing_data[input_value] = ...`: the entry is set to the new sample, a new key goes last, an existing key keeps its place, and well-formedness is kept |
| SideChannel.Collected | test_side_channel.py:33-41 | the dict after storing the samples in order: at most one key per sample, exactly the inputs as keys, each with its popcount as bit count |
| SideChannel.CollectTimingData | test_side_channel.py:29-47 | the loop builds the dict: at most `num_samples` keys in first-appearance order, each entry's bit count the popcount of its key |
| SideChannel.CollectedShape | test_side_channel.py:33-41 | the collected dict is well formed, keyed in first-appearance order, with correct bit counts |
| SideChannel.LastMeasurementKept | test_side_channel.py:41 | a repeated input keeps the sample of its last occurrence |
| SideChannel.BitCounts | test_side_channel.py:54 | one bit count per entry, in the dict's order |
| SideChannel.TimesWith | test_side_channel.py:54-57 | `grouped_data[b]`: the times of the entries whose bit count is `b`, in the dict's order, no more than there are entries |
| SideChannel.TimesWithEmpty | test_side_channel.py:55-57 | a group is empty exactly when no entry has its bit count |
| SideChannel.TimeInOwnGroup | test_side_channel.py:54-57 | every entry's time is in the group of its own bit count |
| SideChannel.GroupHoldsOnlyItsBitCount | test_side_channel.py:54-57 | every time in group `b` belongs to an entry whose bit count is `b` |
| SideChannel.GroupByBitCount | test_side_channel.py:52-57 | groups appear in first-appearance order of the bit counts, and each group lists the times of its entries in the dict's order |
| SideChannel.GroupSizesSum | test_side_channel.py:54-57 | the group sizes add up to the number of entries |
| SideChannel.AverageTimes | test_side_channel.py:60-62 | one average per group, in group order, each the sum of the group's times over its size |
| SideChannel.Average | test_side_channel.py:62 | `sum(times) / len(times)` for a non-empty group, as an exact real quotient |
| SideChannel.AdjacentSuffices | test_side_channel.py:78 | checking adjacent pairs for `<=` is the same as checking all ordered pairs |
| SideChannel.Judge | test_side_channel.py:76-86 | the verdict rule: not enough data exactly when fewer than two averages, detected exactly when there are at least two and they never decrease, no clear correlation otherwise |
| SideChannel.AnalyzeTimingData | test_side_channel.py:49-86 | the verdict is "not enough data" exactly when there are fewer than 2 bit counts, "detected" exactly when the averages do not decrease in first-appearance order, and "no clear correlation" otherwise |
| SideChannel.NotEnoughDataIffOneBitCount | test_side_channel.py:76-86 | "not enough data" exactly when fewer than two distinct bit counts occur |
| SideChannel.FirstAppearanceNotSorted | test_side_channel.py:73-81 | entries with bit counts 5 then 3, taking 1.0 and 2.0, are judged "detected" although time falls as the bit count rises |

## Left out

- SHA-256 (`hashlib`) is a library call. Digests are inputs: an integer in `NonceReuse`, 32 bytes in `ProtocolAbort`.
- `random.randint` is replaced by parameters: the private key, the nonce and the sampled inputs. The draws' ranges are kept as preconditions.
- `time.time`, `time.sleep` and the elapsed times are left out. Times are abstract reals passed in, and each sleep is counted as one delay. That time grows with the bit count is a property of the clock and cannot be proved.
- Floating-point division is left out. Averages are exact real quotients; IEEE rounding is not modelled.
- ModularArithmetic.ModInverse: only `m > 0` is modelled; the source only calls it with `N`. With `m = 0` the loop never runs, so a non-negative `a` other than 1 raises the no-inverse `ValueError` with gcd `a`, `a = 1` raises `ZeroDivisionError` at the final `% m`, and a negative `a` raises `ZeroDivisionError` when it is normalised. A negative modulus follows Python's sign rules for `//` and `%`. None of this is modelled.
- `P` and `G_Y` are defined but unused in the source; there is no curve arithmetic to model.
- The primality of `N` is not proved.
- NonceReuseDemo.DemoRecoversKey: keeps, as a precondition, that the two digests differ modulo `N` invertibly; the actual SHA-256 values are not computed.
- `print` output, `main` and the `test_*` drivers are left out, except where they supply the concrete runs above.
- SideChannel.AnalyzeTimingData: `analyze_timing_data` returns None and only prints its findings; the model returns what it prints, namely the bit counts in dict order, their averages and the verdict.
- ProtocolAbort.MPCProtocol.Abort: returns the dictionary's value, not the session's own dict object. No method of the class mutates the dictionary after an abort, so no method can tell the two apart; a caller that edits the returned dict changes the session's dict in the source, but not in the model.
- SideChannel.CollectTimingData: the progress message every ten samples is output only and is left out.
- SideChannel.CollectTimingData: the default `num_samples=100` is not modelled, because the count is always an argument. A negative count is excluded by the type `nat`; for it the source's `range` is empty and returns `{}`, the same as a count of 0.
- The sorted printing of the averages (test_side_channel.py:69-70) is output only and does not affect the verdict.
