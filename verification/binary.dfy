/** Bit strings: strings whose characters are '0' or '1', the representation the
    codec reads and writes, with the few operations on them the codec needs. */
module Binary {

  /** True for the two characters a bit string may hold. */
  predicate IsBit(c: char) {
    c == '0' || c == '1'
  }

  /** True when every character of `s` is a bit (the pattern `^[01]*$`). */
  predicate IsBinary(s: string) {
    forall i :: 0 <= i < |s| ==> IsBit(s[i])
  }

  /** Numeric value of a bit character, as `Number("0")` / `Number("1")`. */
  function Num(c: char): (n: nat)
    requires IsBit(c)
    ensures n < 2
    ensures c == '0' ==> n == 0
    ensures c == '1' ==> n == 1
  {
    if c == '1' then 1 else 0
  }

  /** The character that prints a bit value, as `String(0)` / `String(1)`. */
  function Digit(n: nat): (c: char)
    requires n < 2
    ensures IsBit(c) && Num(c) == n
  {
    if n == 1 then '1' else '0'
  }

  /** Printing the value of a bit character gives the character back. */
  lemma DigitOfNum(c: char)
    requires IsBit(c)
    ensures Digit(Num(c)) == c
  {
  }

  /** The other bit, as `String(1 - Number(c))`. */
  function Invert(c: char): (r: char)
    requires IsBit(c)
    ensures IsBit(r) && r != c
    ensures Num(r) + Num(c) == 1
  {
    Digit(1 - Num(c))
  }

  /** `s` with the bit at position `i` inverted: a one-bit transmission error. */
  function Flip(s: string, i: nat): (r: string)
    requires i < |s| && IsBit(s[i])
    ensures |r| == |s| && r[i] != s[i] && IsBit(r[i])
    ensures forall j :: 0 <= j < |s| && j != i ==> r[j] == s[j]
    ensures IsBinary(s) ==> IsBinary(r)
  {
    s[i := Invert(s[i])]
  }

  /** Number of '1' characters in `s`. */
  function Weight(s: string): (n: nat)
    ensures n <= |s|
  {
    if s == [] then 0 else (if s[0] == '1' then 1 else 0) + Weight(s[1..])
  }

  /** Number of positions at which `a` and `b` differ. */
  function Distance(a: string, b: string): (n: nat)
    requires |a| == |b|
    ensures n <= |a|
    ensures n == 0 <==> a == b
  {
    if a == [] then 0
    else (if a[0] != b[0] then 1 else 0) + Distance(a[1..], b[1..])
  }

  /** Weight is additive over concatenation. */
  lemma {:induction false} WeightAppend(s: string, t: string)
    ensures Weight(s + t) == Weight(s) + Weight(t)
  {
    if s == [] {
      assert s + t == t;
    } else {
      assert (s + t)[1..] == s[1..] + t;
      WeightAppend(s[1..], t);
    }
  }

  /** Peeling one bit off the front of a suffix of a bit string. */
  lemma WeightSuffix(s: string, k: nat)
    requires k < |s| && IsBinary(s)
    ensures Weight(s[k..]) == Num(s[k]) + Weight(s[k + 1..])
  {
  }

  /** The weight of an 8-bit string is the sum of its bit values, and so is
      the weight of its last seven bits. */
  lemma WeightOfEight(w: string)
    requires |w| == 8 && IsBinary(w)
    ensures Weight(w[1..]) == Num(w[1]) + Num(w[2]) + Num(w[3]) + Num(w[4])
                            + Num(w[5]) + Num(w[6]) + Num(w[7])
    ensures Weight(w) == Num(w[0]) + Weight(w[1..])
  {
    assert w[0..] == w;
    assert w[8..] == [];
    WeightSuffix(w, 0);
    WeightSuffix(w, 1);
    WeightSuffix(w, 2);
    WeightSuffix(w, 3);
    WeightSuffix(w, 4);
    WeightSuffix(w, 5);
    WeightSuffix(w, 6);
    WeightSuffix(w, 7);
  }

  /** The weight of `s` split around position `i`. */
  lemma WeightAround(s: string, i: nat)
    requires i < |s|
    ensures Weight(s) == Weight(s[..i]) + (if s[i] == '1' then 1 else 0) + Weight(s[i + 1..])
  {
    assert s == s[..i] + s[i..];
    WeightAppend(s[..i], s[i..]);
    assert s[i..][0] == s[i];
    assert s[i..][1..] == s[i + 1..];
  }

  /** Inverting one bit changes the weight by exactly one, so it always
      changes the weight's parity. */
  lemma FlipWeight(s: string, i: nat)
    requires i < |s| && IsBit(s[i])
    ensures Weight(Flip(s, i)) + (if s[i] == '1' then 1 else 0)
         == Weight(s) + (if s[i] == '1' then 0 else 1)
    ensures Weight(Flip(s, i)) % 2 != Weight(s) % 2
  {
    var r := Flip(s, i);
    var x, y := (if s[i] == '1' then 1 else 0), (if r[i] == '1' then 1 else 0);
    assert x + y == 1;
    var a, b := Weight(s[..i]), Weight(s[i + 1..]);
    assert Weight(s) == a + x + b by {
      WeightAround(s, i);
    }
    assert Weight(r) == a + y + b by {
      assert r[..i] == s[..i];
      assert r[i + 1..] == s[i + 1..];
      WeightAround(r, i);
    }
    if x == 1 {
      OddStep(Weight(r), Weight(s));
    } else {
      OddStep(Weight(s), Weight(r));
    }
  }

  /** Consecutive numbers have different parities. */
  lemma OddStep(m: nat, n: nat)
    requires n == m + 1
    ensures m % 2 != n % 2
  {
  }

  /** A flip is a one-bit error: the flipped string is at distance one from the original. */
  lemma {:induction false} FlipDistance(s: string, i: nat)
    requires i < |s| && IsBit(s[i])
    ensures Distance(Flip(s, i), s) == 1
  {
    var r := Flip(s, i);
    if i == 0 {
      assert r[1..] == s[1..];
    } else {
      assert r[1..] == Flip(s[1..], i - 1);
      FlipDistance(s[1..], i - 1);
    }
  }
}
