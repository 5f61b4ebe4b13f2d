/** What the codec promises: every codeword is the encoding of its data bits,
    decoding undoes encoding, and decoding still recovers the data after any
    single bit of the codeword has been flipped. */
module HammingProofs {
  import opened Binary
  import opened Hamming

  /** Every codeword is the encoding of its own data bits, so `Encode` is a
      bijection from 4-bit strings onto codewords. */
  lemma CodewordIsEncoding(w: string)
    requires IsCodeword(w)
    ensures Encode(w[4..]) == Ok(w)
  {
    var e := Encode(w[4..]).value;
    WeightOfEight(w);
    WeightOfEight(e);
    assert e[4..] == w[4..];
    assert e[4] == w[4] && e[5] == w[5] && e[6] == w[6] && e[7] == w[7];
    assert e[1] == w[1] by {
      assert Group1(e) == Group1(w);
    }
    assert e[2] == w[2] by {
      assert Group2(e) == Group2(w);
    }
    assert e[3] == w[3] by {
      assert Group3(e) == Group3(w);
    }
    assert e[0] == w[0];
    assert e == w;
  }

  /** Bit P, computed as the parity of the seven bits after it, equals the
      parity of D1, D2, D3 alone; it agrees with the parity of all four data
      bits exactly when D4 is 0. */
  lemma OverallParityBit(d: string)
    requires |d| == 4 && IsBinary(d)
    ensures Num(Encode(d).value[0]) == (Num(d[0]) + Num(d[1]) + Num(d[2])) % 2
    ensures Num(Encode(d).value[0]) == (Num(d[0]) + Num(d[1]) + Num(d[2]) + Num(d[3])) % 2
            <==> d[3] == '0'
  {
  }

  /** Fast path: a byte whose overall parity holds decodes to its last four
      bits verbatim. */
  lemma DecodeFastPath(w: string)
    requires |w| == 8 && IsBinary(w) && Weight(w) % 2 == 0
    ensures Decode(w) == Ok(w[4..8])
  {
  }

  /** Decoding an unflipped codeword returns its data bits unchanged. */
  lemma RoundTrip(d: string)
    requires |d| == 4 && IsBinary(d)
    ensures Decode(Encode(d).value) == Ok(d)
  {
    var c := Encode(d).value;
    DecodeFastPath(c);
    assert c[4..8] == c[4..];
  }

  /** Whatever path it takes, the decoded data differ from the received data
      bits in at most one position. */
  lemma DecodeChangesAtMostOneBit(w: string)
    requires |w| == 8 && IsBinary(w)
    ensures Distance(Decode(w).value, w[4..8]) <= 1
  {
    if !ParityMatches(w) {
      match Correction(Syndrome(w))
      case None =>
      case Some(j) => FlipDistance(w[4..8], j);
    }
  }

  /** The string the mismatch path rebuilds from the numeric values of the
      received data bits is the received data bits themselves. */
  lemma RebuiltDataIsReceived(w: string)
    requires |w| == 8 && IsBinary(w)
    ensures [Digit(Num(w[4])), Digit(Num(w[5])), Digit(Num(w[6])), Digit(Num(w[7]))] == w[4..8]
  {
    DigitOfNum(w[4]);
    DigitOfNum(w[5]);
    DigitOfNum(w[6]);
    DigitOfNum(w[7]);
  }

  /** Mismatch path, data bit in error: a byte of odd weight whose failed
      checks are the fingerprint of data bit D(j+1) decodes to its data bits
      with that bit inverted. */
  lemma DecodeFlipsFingerprintedBit(w: string, j: nat)
    requires |w| == 8 && IsBinary(w) && Weight(w) % 2 == 1
    requires j < 4 && Syndrome(w) == Fingerprint(j)
    ensures Decode(w) == Ok(Flip(w[4..8], j))
  {
  }

  /** Mismatch path, redundant bit in error: a byte of odd weight with at
      most one failed check decodes to its data bits unchanged. */
  lemma DecodeKeepsDataOnRedundantError(w: string)
    requires |w| == 8 && IsBinary(w) && Weight(w) % 2 == 1
    requires FailedChecks(Syndrome(w)) <= 1
    ensures Decode(w) == Ok(w[4..8])
  {
  }

  /** Every check of a codeword passes. */
  lemma CodewordSyndrome(c: string)
    requires IsCodeword(c)
    ensures Syndrome(c) == Checks(true, true, true)
  {
  }

  /** Flipping data bit D(j+1) of a codeword fails exactly the checks of the
      Hamming bits covering it, so the correction chain picks that bit. */
  lemma DataFlipSyndrome(c: string, j: nat)
    requires IsCodeword(c) && j < 4
    ensures Syndrome(Flip(c, 4 + j)) == Fingerprint(j)
    ensures Correction(Syndrome(Flip(c, 4 + j))) == Some(j)
  {
  }

  /** Flipping a redundant bit (P, H1, H2 or H3) of a codeword fails at most
      one check, so the correction chain leaves the data alone. */
  lemma RedundantFlipSyndrome(c: string, i: nat)
    requires IsCodeword(c) && i < 4
    ensures FailedChecks(Syndrome(Flip(c, i))) <= 1
    ensures Correction(Syndrome(Flip(c, i))) == None
  {
  }

  /** Single-error correction: whichever one bit of the encoding of `d` is
      flipped, decoding recovers `d`. */
  lemma CorrectsSingleFlip(d: string, i: nat)
    requires |d| == 4 && IsBinary(d) && i < 8
    ensures Decode(Flip(Encode(d).value, i)) == Ok(d)
  {
    var c := Encode(d).value;
    var w := Flip(c, i);
    FlipWeight(c, i);
    assert !ParityMatches(w);
    if i < 4 {
      RedundantFlipSyndrome(c, i);
      assert w[4..8] == c[4..];
    } else {
      DataFlipSyndrome(c, i - 4);
      assert Flip(w[4..8], i - 4) == c[4..];
    }
  }

  /** One transmission: the codeword, with the bit at `flip` inverted when one
      is chosen. */
  function Transmit(c: string, flip: Option<nat>): (r: string)
    requires flip.Some? ==> flip.value < |c| && IsBit(c[flip.value])
    ensures |r| == |c|
    ensures flip.None? ==> r == c
    ensures flip.Some? ==> Distance(r, c) == 1 && r[flip.value] != c[flip.value]
  {
    match flip
    case None => c
    case Some(i) => FlipDistance(c, i); Flip(c, i)
  }

  /** The randomized self-test, with its random choices made parameters: for
      every 4-bit datum and every choice of no flip or one flipped position,
      decoding the transmitted byte gives the datum back, so the test never
      throws. */
  lemma SelfTestPasses(d: string, flip: Option<nat>)
    requires |d| == 4 && IsBinary(d)
    requires flip.Some? ==> flip.value < 8
    ensures Encode(d).Ok?
    ensures Decode(Transmit(Encode(d).value, flip)) == Ok(d)
  {
    match flip
    case None => RoundTrip(d);
    case Some(i) => CorrectsSingleFlip(d, i);
  }

  /** The worked example: data 1010 encodes to 01011010, and the byte with P
      flipped still decodes to 1010. */
  lemma WorkedExample()
    ensures Encode("1010") == Ok("01011010")
    ensures Decode("11011010") == Ok("1010")
  {
    assert "01011010"[4..] == "1010";
    CodewordIsEncoding("01011010");
    assert "11011010" == Flip("01011010", 0);
    CorrectsSingleFlip("1010", 0);
  }
}
