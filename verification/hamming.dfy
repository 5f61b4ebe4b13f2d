/** The extended Hamming(8,4) codec of HammingCode.ts: `Encode` turns four data
    bits D1 D2 D3 D4 into the byte P H1 H2 H3 D1 D2 D3 D4, and `Decode` recovers
    the four data bits from a byte in which at most one bit was flipped. */
module Hamming {
  import opened Binary

  /** The one way either operation can fail: its argument is not a bit string
      of the right length. `received` is the offending argument. */
  datatype Error = InvalidInputShape(received: string)

  /** What `encode` / `decode` produce: a string, or the error they throw. */
  datatype Result<T> = Ok(value: T) | Err(error: Error)

  datatype Option<T> = None | Some(value: T)

  /** The outcome of comparing each received Hamming bit with the one
      recomputed from the received data bits (true = they match). */
  datatype Checks = Checks(h1: bool, h2: bool, h3: bool)

  /** Parity of the group of positions checked by H1: H1 itself, D1, D2, D4. */
  function Group1(w: string): nat
    requires |w| == 8 && IsBinary(w)
  {
    (Num(w[1]) + Num(w[4]) + Num(w[5]) + Num(w[7])) % 2
  }

  /** Parity of the group of positions checked by H2: H2 itself, D1, D3, D4. */
  function Group2(w: string): nat
    requires |w| == 8 && IsBinary(w)
  {
    (Num(w[2]) + Num(w[4]) + Num(w[6]) + Num(w[7])) % 2
  }

  /** Parity of the group of positions checked by H3: H3 itself, D2, D3, D4. */
  function Group3(w: string): nat
    requires |w| == 8 && IsBinary(w)
  {
    (Num(w[3]) + Num(w[5]) + Num(w[6]) + Num(w[7])) % 2
  }

  /** A well-formed codeword: a byte of bits in which each Hamming group and
      the byte as a whole hold an even number of ones. */
  predicate IsCodeword(w: string) {
    && |w| == 8 && IsBinary(w)
    && Group1(w) == 0 && Group2(w) == 0 && Group3(w) == 0
    && Weight(w) % 2 == 0
  }

  /** Encodes four data bits as P H1 H2 H3 D1 D2 D3 D4. Fails exactly when the
      input is not four bits; otherwise the result is a codeword that carries
      the input unchanged in its last four positions. */
  function Encode(data: string): (r: Result<string>)
    ensures r.Ok? <==> |data| == 4 && IsBinary(data)
    ensures r.Err? ==> r.error == InvalidInputShape(data)
    ensures r.Ok? ==> IsCodeword(r.value) && r.value[4..] == data
  {
    if |data| != 4 || !IsBinary(data) then Err(InvalidInputShape(data))
    else
      var d1, d2, d3, d4 := Num(data[0]), Num(data[1]), Num(data[2]), Num(data[3]);
      var h1 := (d1 + d2 + d4) % 2;
      var h2 := (d1 + d3 + d4) % 2;
      var h3 := (d2 + d3 + d4) % 2;
      var p := (h1 + h2 + h3 + d1 + d2 + d3 + d4) % 2;
      var w := [Digit(p), Digit(h1), Digit(h2), Digit(h3)] + data;
      assert w[4..] == data;
      WeightOfEight(w);
      Ok(w)
  }

  /** Recomputes H1, H2, H3 from the received data bits and compares each with
      the received Hamming bit. A check fails exactly when its group has odd
      parity, so every check of a codeword passes. */
  function Syndrome(w: string): (s: Checks)
    requires |w| == 8 && IsBinary(w)
    ensures s.h1 <==> Group1(w) == 0
    ensures s.h2 <==> Group2(w) == 0
    ensures s.h3 <==> Group3(w) == 0
  {
    var d1, d2, d3, d4 := Num(w[4]), Num(w[5]), Num(w[6]), Num(w[7]);
    var h1 := (d1 + d2 + d4) % 2;
    var h2 := (d1 + d3 + d4) % 2;
    var h3 := (d2 + d3 + d4) % 2;
    Checks(h1 == Num(w[1]), h2 == Num(w[2]), h3 == Num(w[3]))
  }

  /** Number of failed checks. */
  function FailedChecks(s: Checks): nat {
    (if s.h1 then 0 else 1) + (if s.h2 then 0 else 1) + (if s.h3 then 0 else 1)
  }

  /** Whether Hamming bit Hk (k = 1, 2, 3) covers data bit D(j+1) (j = 0 .. 3):
      H1 covers D1 D2 D4, H2 covers D1 D3 D4, H3 covers D2 D3 D4. */
  predicate Covers(k: nat, j: nat) {
    (k == 1 && j in {0, 1, 3}) || (k == 2 && j in {0, 2, 3}) || (k == 3 && j in {1, 2, 3})
  }

  /** The checks that fail when data bit D(j+1) alone is flipped: exactly those
      of the Hamming bits that cover it. */
  function Fingerprint(j: nat): Checks {
    Checks(!Covers(1, j), !Covers(2, j), !Covers(3, j))
  }

  /** The correction chain run once the overall parity has failed: the index
      (0 .. 3) of the data bit to flip, or None to return the data as received.
      It picks data bit j exactly when the failed checks are j's fingerprint,
      and flips nothing exactly when at most one check failed. */
  function Correction(s: Checks): (r: Option<nat>)
    ensures r.Some? ==> r.value < 4
    ensures r.None? <==> FailedChecks(s) <= 1
    ensures forall j :: 0 <= j < 4 ==> (r == Some(j) <==> s == Fingerprint(j))
  {
    if !(s.h1 || s.h2 || s.h3) then Some(3)
    else if !(s.h1 || s.h2) then Some(0)
    else if !(s.h1 || s.h3) then Some(1)
    else if !(s.h2 || s.h3) then Some(2)
    else None
  }

  /** Overall parity test of the fast path: the parity of positions 1 .. 7
      equals bit P. This holds exactly when the whole byte has even weight. */
  predicate ParityMatches(w: string)
    requires |w| == 8 && IsBinary(w)
    ensures ParityMatches(w) <==> Weight(w) % 2 == 0
  {
    WeightOfEight(w);
    Weight(w[1..]) % 2 == Num(w[0])
  }

  /** Decodes a received byte into four data bits. Fails exactly when the input
      is not eight bits; otherwise the result is four bits. When the overall
      parity holds, the received data bits are returned as they are; otherwise
      the correction chain decides which of them, if any, to flip. */
  function Decode(w: string): (r: Result<string>)
    ensures r.Ok? <==> |w| == 8 && IsBinary(w)
    ensures r.Err? ==> r.error == InvalidInputShape(w)
    ensures r.Ok? ==> |r.value| == 4 && IsBinary(r.value)
  {
    if |w| != 8 || !IsBinary(w) then Err(InvalidInputShape(w))
    else if ParityMatches(w) then Ok(w[4..8])
    else
      match Correction(Syndrome(w))
      case None => Ok(w[4..8])
      case Some(j) => Ok(Flip(w[4..8], j))
  }

  /** The loop that sums positions 1 .. |w|-1 before the fast-path test. */
  method ParitySum(w: string) returns (sum: nat)
    requires |w| == 8 && IsBinary(w)
    ensures sum == Weight(w[1..])
    ensures ParityMatches(w) <==> sum % 2 == Num(w[0])
  {
    sum := 0;
    var i := 1;
    while i < |w|
      invariant 1 <= i <= |w|
      invariant sum == Weight(w[1..i])
    {
      WeightAround(w[1..i + 1], i - 1);
      assert w[1..i + 1][..i - 1] == w[1..i];
      assert w[1..i + 1][i..] == [];
      sum := sum + Num(w[i]);
      i := i + 1;
    }
    assert w[1..i] == w[1..];
  }
}
