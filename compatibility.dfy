/**
  The compatibility scorer, `calculateCompatibility` (client/src/lib/flames.ts, lines 41-54;
  the server's copy in server/routes.ts, lines 124-137, has the same text).

  The two names are lower-cased and joined, a hash is accumulated character by character
  with `hash = code + ((hash << 5) - hash)`, and the score is `50 + |hash % 51|`. Only the
  shift wraps to 32 bits; the subtraction and the addition are exact, since the hash stays
  far below 2^53 (`HashBound`). `Hash` is the specification of the loop; `Polynomial` is an
  independent reference: the hash agrees with the base-31 polynomial of the character codes
  modulo 2^32.
*/
module Compatibility {
  import opened Js

  /** `charCodeAt`: the code of a character (one UTF-16 code unit for the characters covered). */
  function CharCode(c: char): (r: nat)
    ensures r < 0x11_0000
  {
    c as int
  }

  /** One round of line 47: `code + ((hash << 5) - hash)`. */
  function Step(hash: int, c: char): int
  {
    CharCode(c) + (ShiftLeft(hash, 5) - hash)
  }

  /** The hash after the loop of lines 46-48 has consumed all of `s`. */
  function Hash(s: string): int
  {
    if s == [] then 0 else Step(Hash(s[..|s| - 1]), s[|s| - 1])
  }

  /** Line 51: the hash mapped by the truncating remainder to a score between 50 and 100. */
  function Score(hash: int): (r: int)
    ensures 50 <= r <= 100
  {
    50 + Abs(Rem(hash, 51))
  }

  /** The score of two names: the hash runs over the two lower-cased names joined together. */
  function CompatibilityScore(name1: string, name2: string): (r: int)
    ensures 50 <= r <= 100
  {
    Score(Hash(Lower(name1) + Lower(name2)))
  }

  /** Lines 41-54: the hash loop and the mapping to a percentage. */
  method CalculateCompatibility(name1: string, name2: string) returns (percentage: int)
    ensures percentage == CompatibilityScore(name1, name2)
    ensures 50 <= percentage <= 100
  {
    var combinedNames := Lower(name1) + Lower(name2);
    var hash := 0;
    for i := 0 to |combinedNames|
      invariant hash == Hash(combinedNames[..i])
    {
      assert combinedNames[..i + 1][..i] == combinedNames[..i];
      hash := CharCode(combinedNames[i]) + (ShiftLeft(hash, 5) - hash);
    }
    assert combinedNames[..|combinedNames|] == combinedNames;
    percentage := 50 + Abs(Rem(hash, 51));
  }

  // ---------------------------------------------------------------------------------------
  // The hash as a polynomial
  // ---------------------------------------------------------------------------------------

  /** The base-31 polynomial of the character codes, computed without any wrap-around. */
  function Polynomial(s: string): int
  {
    if s == [] then 0 else 31 * Polynomial(s[..|s| - 1]) + CharCode(s[|s| - 1])
  }

  /** A round agrees with `31 * hash + code` up to multiples of 2^32, whatever the shift wraps. */
  lemma StepCongruent(hash: int, p: int, c: char)
    requires (hash - p) % TWO_32 == 0
    ensures (Step(hash, c) - (31 * p + CharCode(c))) % TWO_32 == 0
  {
    var shifted := ShiftLeft(hash, 5);
    assert Pow2(5) == 32;
    var k0, k1 := (hash - p) / TWO_32, (shifted - hash * 32) / TWO_32;
    assert hash - p == TWO_32 * k0;
    assert shifted - hash * 32 == TWO_32 * k1;
    assert Step(hash, c) - (31 * p + CharCode(c)) == TWO_32 * (k1 + 31 * k0);
    MultipleOfDivisor(k1 + 31 * k0, TWO_32);
  }

  /** The hash is the base-31 polynomial of the character codes modulo 2^32. */
  lemma {:induction false} HashIsPolynomial(s: string)
    ensures (Hash(s) - Polynomial(s)) % TWO_32 == 0
  {
    if s != [] {
      HashIsPolynomial(s[..|s| - 1]);
      StepCongruent(Hash(s[..|s| - 1]), Polynomial(s[..|s| - 1]), s[|s| - 1]);
    }
  }

  /** Each character moves the hash by less than 2^31 + 2^21. */
  lemma {:induction false} HashBound(s: string)
    ensures Abs(Hash(s)) <= |s| * (TWO_31 + 0x20_0000)
  {
    if s != [] {
      HashBound(s[..|s| - 1]);
    }
  }

  /**
    Two names of at most 30 characters each (the lengths the server accepts) keep the hash
    below 2^53 in absolute value, so every intermediate value of the source's double
    arithmetic is an exact integer and the model's unbounded integers agree with it.
  */
  lemma HashExactForShortNames(s: string)
    requires |s| <= 60
    ensures Abs(Hash(s)) < 0x20_0000_0000_0000
  {
    HashBound(s);
  }

  // ---------------------------------------------------------------------------------------
  // What the score depends on
  // ---------------------------------------------------------------------------------------

  /** The score depends only on the lower-cased concatenation of the two names. */
  lemma ScoreOfJoinedNames(name1: string, name2: string)
    ensures CompatibilityScore(name1, name2) == Score(Hash(Lower(name1 + name2)))
  {
    LowerAppend(name1, name2);
  }

  /** Moving characters from one name to the other does not change the score: ("ab", "c") and ("a", "bc") agree. */
  lemma ShiftingCharactersKeepsScore(name1: string, name2: string, name1': string, name2': string)
    requires name1 + name2 == name1' + name2'
    ensures CompatibilityScore(name1, name2) == CompatibilityScore(name1', name2')
  {
    ScoreOfJoinedNames(name1, name2);
    ScoreOfJoinedNames(name1', name2');
  }

  /** Names that differ only in the case of their letters score the same. */
  lemma CompatibilityIgnoresCase(name1: string, name1': string, name2: string, name2': string)
    requires SameIgnoringCase(name1, name1') && SameIgnoringCase(name2, name2')
    ensures CompatibilityScore(name1, name2) == CompatibilityScore(name1', name2')
  {
    LowerIgnoresCase(name1, name1');
    LowerIgnoresCase(name2, name2');
  }

  lemma HashSnoc(s: string, c: char)
    ensures Hash(s + [c]) == Step(Hash(s), c)
  {
    assert (s + [c])[..|s|] == s;
  }

  /** While `32 * hash` fits in 32 bits a round is exactly `31 * hash + code`. */
  lemma StepWithoutWrap(hash: int, c: char)
    requires -TWO_31 <= 32 * hash < TWO_31
    ensures Step(hash, c) == 31 * hash + CharCode(c)
  {
    assert Pow2(5) == 32;
  }

  /** The hashes of "abc" and "a bc", one round at a time. */
  lemma HashesOfExample(a: string, ab: string, abc: string, a_: string, a_b: string, a_bc: string)
    requires a == ['a'] && ab == a + ['b'] && abc == ab + ['c']
    requires a_ == a + [' '] && a_b == a_ + ['b'] && a_bc == a_b + ['c']
    ensures Hash(abc) == 96354 && Hash(a_bc) == 2923616
  {
    HashSnoc([], 'a');
    assert [] + ['a'] == a;
    StepWithoutWrap(0, 'a');
    HashSnoc(a, 'b');
    StepWithoutWrap(97, 'b');
    HashSnoc(ab, 'c');
    StepWithoutWrap(3105, 'c');
    HashSnoc(a, ' ');
    StepWithoutWrap(97, ' ');
    HashSnoc(a_, 'b');
    StepWithoutWrap(3039, 'b');
    HashSnoc(a_b, 'c');
    StepWithoutWrap(94307, 'c');
  }

  /**
    Unlike the FLAMES letter, the score sees whitespace: "a b" and "ab" against "c" hash
    to 2923616 and 96354, which leave 41 and 15 modulo 51.
  */
  lemma ScoreSeesWhitespace()
    ensures CompatibilityScore("a b", "c") == 91
    ensures CompatibilityScore("ab", "c") == 65
  {
    assert Lower("a b") + Lower("c") == "a bc";
    assert Lower("ab") + Lower("c") == "abc";
    HashesOfExample("a", "ab", "abc", "a ", "a b", "a bc");
  }
}
