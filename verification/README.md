# Hamming(8,4) codec — a Dafny model

This project models the extended Hamming(8,4) single-error-correcting codec of
`HammingCode.ts`. The codec works on strings of `'0'`/`'1'` characters.

- `encode` takes four data bits `D1 D2 D3 D4` and returns the byte
  `P H1 H2 H3 D1 D2 D3 D4`. `H1`, `H2` and `H3` are parities of three-bit
  subsets of the data. `P` makes the whole byte have even weight.
- `decode` takes a received byte in which at most one bit may have been
  flipped, and returns the four original data bits.
  - If the parity of positions 1..7 equals `P`, it returns positions 4..7
    unchanged.
  - Otherwise it recomputes `H1`..`H3` from the received data bits. A fixed
    priority chain on the three match flags then flips `D4`, `D1`, `D2` or
    `D3`, or leaves the data as received.
- Both operations throw when the input does not have the right length or
  holds a character other than `'0'`/`'1'`. The model returns
  `Err(InvalidInputShape(input))` instead.

Files:

- `binary.dfy` (module `Binary`): bit strings. It defines the character/value
  conversions (`Number(...)` and `String(...)` in the source), one-bit flips,
  weight and Hamming distance.
- `hamming.dfy` (module `Hamming`): `Encode`, `Decode`, and the pieces of the
  decoder. These are the summing loop, the syndrome (the three match flags) and
  the correction chain. The module also defines the codeword predicate
  `IsCodeword`: every Hamming group and the whole byte have even weight. This
  is the independent reference that both operations are checked against.
- `hamming_proofs.dfy` (module `HammingProofs`): the theorems. Every codeword is
  the encoding of its data. Decoding undoes encoding. Decoding corrects every
  single-bit flip. There is also the self-test, with its random choices turned
  into parameters.

The bit `P` is modelled exactly as `HammingCode.ts` line 27 computes it: the
parity of `H1 H2 H3 D1 D2 D3 D4`. Because `H1 ⊕ H2 ⊕ H3 = D4`, this equals
`D1 ⊕ D2 ⊕ D3`. It is not the parity of the four data bits alone: a parity over
the four data bits would differ from this whenever `D4 = 1`. For example, data
`0001` gives `P = 0` here, while the data-only formula gives 1.
`HammingProofs.OverallParityBit` states both facts.

In the mismatch branch, the source rebuilds the data bits with
`String(Number(c))`. For a bit character that gives the character back
(`Binary.DigitOfNum`, applied in `HammingProofs.RebuiltDataIsReceived`). So the
model returns the received characters, with one of them inverted when the
chain picks it.

## Model

| member | source | states |
|---|---|---|
| Binary.Num | HammingCode.ts:20-23 | `Number` of a bit character: '0' gives 0 and '1' gives 1. |
| Binary.Digit | HammingCode.ts:29 | `String` of a bit value is a bit character whose value is that bit. |
| Binary.DigitOfNum | HammingCode.ts:65-104 | `String(Number(c))` gives back every bit character `c`. |
| Binary.Invert | HammingCode.ts:83 | `String(1 - Number(c))` is the other bit character: its value and `c`'s value sum to 1. |
| Hamming.Encode | HammingCode.ts:12-30 | Fails with `InvalidInputShape(data)` exactly when the input is not 4 characters or holds a character other than '0'/'1'. Otherwise the result is a codeword: 8 bits, each Hamming group and the whole byte of even weight. Its last four characters are the input unchanged. |
| HammingProofs.CodewordIsEncoding | HammingCode.ts:24-29 | Every codeword is the encoding of its own last four bits. Together with `Encode`'s contract, this makes encoding a bijection from 4-bit strings onto codewords. So H1, H2 and H3 are the parities of D1 D2 D4, D1 D3 D4 and D2 D3 D4, and P evens out the total weight. |
| HammingProofs.OverallParityBit | HammingCode.ts:27 | P equals the parity of D1, D2, D3. It equals the parity of all four data bits exactly when D4 is 0. |
| Binary.Flip | HammingCode.ts:127-132 | The simulated transmission error inverts exactly the chosen bit, keeps the length and leaves every other bit unchanged. |
| Hamming.ParitySum | HammingCode.ts:53-56 | The loop's sum is the number of ones in positions 1..7. The fast-path test holds exactly when that sum's parity equals bit P. |
| Hamming.ParityMatches | HammingCode.ts:57 | The fast-path test (parity of positions 1..7 equals bit P) passes exactly when the received byte has even weight. |
| HammingProofs.DecodeFastPath | HammingCode.ts:57-59 | A well-formed byte of even weight decodes to positions 4..7 verbatim. |
| Hamming.Syndrome | HammingCode.ts:65-76 | Each match flag holds exactly when its Hamming group (the H bit and the three data bits it covers) has even weight. |
| Hamming.Correction | HammingCode.ts:81-105 | The priority chain picks data bit Dj exactly when the failed checks are those of the Hamming bits covering Dj. It picks nothing exactly when at most one check failed. |
| Hamming.Decode | HammingCode.ts:44-106 | Fails with `InvalidInputShape(w)` exactly when the input `w` is not 8 characters or holds a character other than '0'/'1'. Otherwise it returns 4 bit characters. |
| HammingProofs.RebuiltDataIsReceived | HammingCode.ts:65-104 | The string rebuilt as `String(D1) + String(D2) + String(D3) + String(D4)` from the received data bits equals positions 4..7 of the received byte. |
| HammingProofs.DecodeFlipsFingerprintedBit | HammingCode.ts:81-99 | A well-formed byte of odd weight whose failed checks are exactly those covering data bit Dj decodes to its data bits with Dj inverted. |
| HammingProofs.DecodeKeepsDataOnRedundantError | HammingCode.ts:101-105 | A well-formed byte of odd weight with at most one failed check decodes to its data bits unchanged. |
| HammingProofs.DecodeChangesAtMostOneBit | HammingCode.ts:81-105 | On every well-formed byte, the decoded data differ from the received data bits in at most one position. |
| HammingProofs.CodewordSyndrome | HammingCode.ts:69-76 | Every match flag of an unflipped codeword is true. |
| HammingProofs.DataFlipSyndrome | HammingCode.ts:81-99 | Flipping data bit Dj of a codeword fails exactly the checks covering Dj, and the chain then flips Dj back. |
| HammingProofs.RedundantFlipSyndrome | HammingCode.ts:101-105 | Flipping P, H1, H2 or H3 of a codeword fails at most one check, so the final branch returns the data unchanged. |
| HammingProofs.RoundTrip | HammingCode.ts:53-59 | Decoding the encoding of any 4-bit datum returns the datum. |
| HammingProofs.CorrectsSingleFlip | HammingCode.ts:36-42 | For every 4-bit datum and every position 0..7, decoding its encoding with that bit flipped returns the datum. |
| HammingProofs.Transmit | HammingCode.ts:126-132 | The simulated transmission returns the codeword unchanged when no flip is chosen. Otherwise it differs from the codeword in exactly the chosen position and nowhere else (distance 1). |
| HammingProofs.SelfTestPasses | HammingCode.ts:116-141 | For every datum and every choice of no flip or one flipped position, the self-test's comparison succeeds. So the test never throws. |
| HammingProofs.WorkedExample | HammingCode.ts:24-29 | `1010` encodes to `01011010`. That byte with P flipped, `11011010`, decodes to `1010`. |

## Left out

- The text of the thrown error messages (lines 16 and 48). A failure is the `InvalidInputShape` variant, which carries the rejected input.
- The randomness of `test_hamming` (`Math.random`, lines 118-128). The random data and the optional flip position are parameters of `HammingProofs.SelfTestPasses`, which quantifies over all of them.
- The 100-iteration driver loop and `console.log` (lines 145-148). They are I/O with no codec logic.
- Behaviour when two or more bits are flipped. The code makes no promise there, so the model states no property about it.
- JavaScript string lengths count UTF-16 code units; the model counts characters. They differ only on strings that contain a non-bit character, and those are rejected either way.
- `Number(...)` on a character other than '0'/'1'. It gives `NaN` for a letter, but a number for some others: 0 for a space, 7 for '7'. Every such input is rejected before any conversion runs, so the conversions are modelled on bit characters only.
