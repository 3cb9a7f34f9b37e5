# Crib dragging against a reused XOR keystream

A model of the analytical core of `ex01/main.go` from the boneh-crypto
exercises: an attack on a "many-time pad", where several messages were
encrypted by XOR with the same keystream. Under that key reuse
`c_i ^ c_j == p_i ^ p_j`. Guessing a word ("crib") in one plaintext therefore
reveals the other plaintexts at the same offset. Each confirmed guess gives
key bytes through `k = c ^ p`.

The model has five modules, one per piece of the program:

- `Slices` (`slices.dfy`) models Go byte slices as windows `arr[lo..hi]` of a
  shared backing array. Sub-slicing and aliasing keep their Go meaning there.
  It also holds `xorBytes` as the in-place method `XorBytes`, proved against
  the pure byte-wise `Xor`, plus the algebra of XOR (involution, key
  cancellation, key recovery).
- `English` (`english.dfy`) models the character whitelist
  `isEnglishASCIIChar`. Its scan `isEnglishASCII` becomes a loop with an early
  return, proved equal to "every byte is on the whitelist".
- `Crib` (`crib.dfy`) models the scorer `guessCrib`. It reuses one scratch
  buffer and calls `xorBytes` twice per ciphertext, once with the buffer as
  both destination and source. It counts the fragments the whitelist
  rejects and accepts the hypothesis when fewer than three fail. The method
  is proved against the pure `Fragments` and `Ninvalid`. Lemmas about those
  cover the count, the acceptance rule and the recovery of the true
  plaintexts under a shared key.
- `Sweep` (`sweep.dfy`) models `guessCribInAll`, the nested loop over
  ciphertext index and offset. It returns the accepted hypotheses in visiting
  order. It is proved equal to a scan whose soundness, completeness and order
  are lemmas.
- `Recovery` (`recovery.dfy`) models three parts of `run` and the key
  writer:
  - the truncation loop;
  - `solveKey`, which writes `ctext ^ ptext` into a window of the shared key
    buffer;
  - the fold of a list of placements over the key;
  - the decryption loop.

  An end-to-end lemma states the round trip: with right placements, every
  decrypted text equals its true plaintext on every covered byte.

Bytes are `bv8`. Printing is modelled as returned values. `guessCrib`
returns its acceptance flag and the fragments it would print.
`guessCribInAll` returns the list of accepted `(i, pos, fragments)`. The
decryption loop returns the texts it prints, in order.

Two details are kept exactly as the code has them:

- The score divides by the literal 10, not by the number `N - 1` of other
  ciphertexts.
- The ciphertexts are cut to the length of the first one, which the comment
  at ex01/main.go:125 assumes is the shortest.
  Go reslices against the capacity, so a shorter slice is lengthened over its
  backing array, and one without that capacity panics.

## Model

| member | source | states |
|---|---|---|
| Slices.XorBytes | ex01/main.go:38-42 | after the call `d[k] == a[k] ^ b[k]` (inputs as they were before the call) for every `k < len(d)`; `a` and `b` must be at least as long as `d`; every byte of `d`'s array outside its window is unchanged; `d` may be the very window it reads, as in `xorBytes(buf, buf, crib)` |
| Slices.XorRecover | ex01/main.go:114-115 | `c = p ^ k` gives `c ^ p == k` (key recovery) and `c ^ k == p` (decryption) |
| Slices.XorInvolutive | ex01/main.go:85-86 | XOR-ing the same bytes twice gives the original back |
| Slices.XorKeyCancels | ex01/main.go:82-86 | under a shared key, `c_i ^ c_j == p_i ^ p_j` |
| Slices.XorCommutes | ex01/main.go:85 | byte-wise XOR does not depend on the order of its operands |
| Slices.XorWindow | ex01/main.go:82-83 | taking the window at an offset commutes with XOR |
| English.IsEnglishASCIIChar | ex01/main.go:44-54 | the three cases of the switch: every letter is accepted, and every accepted byte is printable ASCII and not a digit |
| English.IsEnglishASCII | ex01/main.go:56-64 | a fragment passes when each of its bytes passes the whitelist, so the empty fragment passes |
| English.ScanEnglishASCII | ex01/main.go:56-64 | the scan with early return answers true exactly when every byte is on the whitelist (so the empty fragment passes) |
| English.HighBytesRejected | ex01/main.go:44-54 | no byte `>= 0x80` is on the whitelist |
| English.DigitsRejected | ex01/main.go:44-54 | digits are not on the whitelist |
| English.ControlBytesRejected | ex01/main.go:44-54 | control bytes and DEL are not on the whitelist |
| English.OtherPunctuationRejected | ex01/main.go:44-54 | every printable punctuation byte (0x21-0x2F, 0x3A-0x40, 0x5B-0x60, 0x7B-0x7E) other than `, . ' : ) ( -` is rejected |
| English.OneBadByteRejects | ex01/main.go:56-64 | one rejected byte anywhere rejects the fragment; the empty fragment is accepted |
| Crib.GuessCrib | ex01/main.go:68-100 | the returned fragments are `Fragments(texts, crib, i, pos)` and the flag is `ninvalid < 3` for the count of failing fragments at `j != i`; requires exactly Go's no-panic bounds for non-negative `i` and `pos` |
| Crib.GuessTurn | ex01/main.go:76-92 | one turn of the loop extends the fragment list by the fragment of `j` and the count by one exactly when `j != i` and the scan rejects it |
| Crib.Candidate | ex01/main.go:82-88 | for `j != i` the buffer ends up holding `c_i[pos..pos+L] ^ c_j[pos..pos+L] ^ crib` |
| Crib.CandidateInto | ex01/main.go:85-86 | `xorBytes(buf, a, b)` followed by the aliased `xorBytes(buf, buf, crib)` leaves `(a ^ b) ^ crib` in the buffer |
| Crib.GuessStep | ex01/main.go:88-91 | appending the fragment of `j` gives the fragments up to `j + 1`, and the count grows by one iff `j != i` and the fragment fails |
| Crib.FragmentsPointwise | ex01/main.go:76-88 | `ptexts[i]` is the crib; for `j != i`, `ptexts[j][k] == c_i[pos+k] ^ c_j[pos+k] ^ crib[k]` for `k < len(crib)` |
| Crib.FragmentsAt | ex01/main.go:76-88 | entry `x` of the fragment list is the fragment of ciphertext `x` |
| Crib.CountInvalidIsCardinality | ex01/main.go:75-92 | `ninvalid` is exactly the number of indices `j != i` whose fragment fails the whitelist |
| Crib.CountInvalidBound | ex01/main.go:75-92 | `ninvalid <= N - 1` when `i` is one of the indices |
| Crib.CountInvalidZero | ex01/main.go:75-92 | `ninvalid == 0` iff every fragment at `j != i` passes |
| Crib.Accepts | ex01/main.go:94-97 | the hypothesis is accepted iff `1 - ninvalid/10 > 0.7` over exact numbers, with the literal divisor 10 |
| Crib.AllValidAccepted | ex01/main.go:89-97 | when every other fragment passes, the hypothesis is accepted |
| Crib.ThreeFailuresReject | ex01/main.go:89-97 | three failing fragments reject the hypothesis |
| Crib.GroundTruthRecovered | ex01/main.go:66-67 | if `c_x == p_x ^ K` for all `x` and the crib is `p_i[pos..pos+L]`, every fragment `j` is `p_j[pos..pos+L]` |
| Crib.GroundTruthAccepted | ex01/main.go:77-97 | under the same conditions, with every true plaintext other than `p_i` on the whitelist there, the true crib is accepted with no failure (fragment `i` is never scanned) |
| Sweep.GuessCribInAll | ex01/main.go:102-111 | the reports are `SweepReports`: the scan, with `i` outer and `pos` inner, of what `guessCrib` accepts |
| Sweep.SweepRow | ex01/main.go:107-109 | the inner loop over `pos` for one row `i` appends exactly that row's accepted reports, offsets ascending |
| Sweep.SweepTurn | ex01/main.go:97-108 | one `guessCrib` call at `(i, pos)` extends the row's reports by that pair's report exactly when it is accepted |
| Sweep.SweepExact | ex01/main.go:102-111 | the sweep reports exactly the accepted `(i, pos)` with `i < N - 1` and `pos <= len(ctexts[0]) - len(crib)`, each with its fragments, in visiting order, and every visit meets `guessCrib`'s bounds |
| Sweep.InRangeFits | ex01/main.go:103-108 | every visited `(i, pos)` satisfies `guessCrib`'s bounds once no ciphertext is shorter than the first |
| Sweep.EmitGuess | ex01/main.go:97-98 | one `guessCrib` call contributes its report exactly when it accepts |
| Sweep.ScanRowSound | ex01/main.go:107-109 | the inner loop reports only accepted offsets of its row |
| Sweep.ScanRowComplete | ex01/main.go:107-109 | the inner loop reports every accepted offset of its row |
| Sweep.ScanRowAscending | ex01/main.go:107-109 | the inner loop reports offsets in ascending order |
| Sweep.ScanSound | ex01/main.go:106-110 | the nested loop reports only accepted pairs in range |
| Sweep.ScanComplete | ex01/main.go:106-110 | the nested loop reports every accepted pair in range |
| Sweep.ScanAscending | ex01/main.go:106-110 | the nested loop reports in `(i, pos)` order |
| Recovery.TruncateAll | ex01/main.go:125-129 | every slice keeps its array and start and gets the length of the first; a slice at least that long becomes its own prefix; requires the capacity Go's reslice checks |
| Recovery.TruncatedFits | ex01/main.go:125-129 | after truncation every hypothesis the sweep visits fits |
| Recovery.SolveKey | ex01/main.go:113-117 | the key's window `[pos, pos+len(ptext))` becomes `ctext[pos..] ^ ptext`, and every other byte of the key's array is unchanged; requires the capacity and length checks Go makes |
| Recovery.Solve | ex01/main.go:113-117 | the key bytes after `solveKey`: same length as before, with the window `[pos, pos+len(ptext))` replaced by `ctext[pos..] ^ ptext` (its byte-level effect is `SolveAt`) |
| Recovery.SolveKeyBytes | ex01/main.go:113-117 | when the window lies within the key's length, the key's bytes after `SolveKey` are `Solve` of the bytes before |
| Recovery.SolveAt | ex01/main.go:113-117 | key byte `pos+k` becomes `ctext[pos+k] ^ ptext[k]`; every other byte is unchanged |
| Recovery.SolveIdempotent | ex01/main.go:113-117 | applying the same placement twice equals applying it once |
| Recovery.LaterPlacementWins | ex01/main.go:166-208 | a later overlapping placement overwrites the earlier bytes, with no conflict check |
| Recovery.SolveRecovers | ex01/main.go:114-116 | with `ctext == p ^ K` and the true plaintext at `pos`, the key's window becomes `K`'s |
| Recovery.RightPlacementRecovers | ex01/main.go:114-116 | a right placement turns each byte of its window into the key byte |
| Recovery.Accumulate | ex01/main.go:165-208 | the key after a list of `solveKey` calls made in order, each applied to the key the previous ones left; the key keeps its length |
| Recovery.AccumulateRecovers | ex01/main.go:165-208 | after a sequence of right placements the key equals `K` on every covered byte and keeps its start value on every other byte |
| Recovery.DecryptAll | ex01/main.go:212-225 | one output per ciphertext, in index order, each `ctexts[i][..n] ^ key[..n]` with `n = len(target)` |
| Recovery.DecryptOne | ex01/main.go:215 | the reused buffer holds `ctext[..n] ^ key[..n]` after the call, and the returned bytes are what it holds |
| Recovery.DecryptionRecovers | ex01/main.go:212-225 | with right placements under a shared key, each decrypted text equals its true plaintext on every covered byte |

## Left out

- Loading the ciphertexts (`loadSampleCipherTexts`, ex01/main.go:16-36) is left out. It is file I/O and hex decoding through the standard library. The model starts from the decoded slices.
- All printing (ex01/main.go:98, 104, 210, 224) and `log.Fatalln` in `main` are left out. Printed values are returned instead.
- Crib.Accepts reads the float score `1 - float64(ninvalid)/10 > 0.7` as the integer test `ninvalid < 3`; its contract proves that reading over exact real numbers. IEEE doubles are not modelled.
- The hard-coded crib sweeps (ex01/main.go:160-161) and placement list (ex01/main.go:166-208) are operator data. `Accumulate` folds any list of placements, in order, over the key.
- The unused `targetCtext` constant (ex01/main.go:13) and the commented-out code (ex01/main.go:131-159, 217-222) are left out.
- Slices.XorBytes requires that a source in the destination's own array starts exactly where the destination starts. Other overlaps, such as a destination that begins inside a source and after its start, are not modelled. The program never makes such a call.
- Recovery.SolveKey carries the same restriction: the key buffer is its own array in the program.
- Crib.GuessCrib, Sweep.GuessCribInAll and Recovery.DecryptAll take ghost copies of the bytes their slices show (`texts`, `cb`, `kb`) to state their results. These parameters do not exist in Go and are never used to compute anything.
- Crib.GuessCrib builds the fragment list by appending rather than by assigning into `make([]string, N)`. `string(buf)` is modelled as a copy of the buffer's bytes.
- Crib.GuessCrib takes `i` and `pos` as natural numbers. Go's `int` would let a negative `i` through when there are no ciphertexts, and a negative `pos` when there is a single ciphertext and `i == 0`; the sweep never passes negative values.
- Recovery.DecryptAll takes `len(target)` as the parameter `n`.
- Integers are unbounded. Go's `int` overflow in `pos + len(ptext)` cannot occur for the program's lengths and is not modelled.
