/**
  The pieces of JavaScript (ECMAScript) semantics that the FLAMES code depends on,
  written out over mathematical integers and Dafny sequences.

  A JavaScript string is modelled as the sequence of its characters; every character
  is taken to be one UTF-16 code unit (the model does not cover characters outside the
  Basic Multilingual Plane, which JavaScript splits into surrogate pairs).
*/
module Js {

  const TWO_31: int := 0x8000_0000
  const TWO_32: int := 0x1_0000_0000

  /** `Math.abs` on an integer. */
  function Abs(x: int): (r: nat)
    ensures r == x || r == -x
  {
    if x < 0 then -x else x
  }

  /**
    The `%` operator of JavaScript on integers with a positive divisor (the only kind the
    FLAMES code uses): the remainder of the division truncated toward zero, which takes
    the sign of the dividend (Number::remainder, section 6.1.6.1.6 of ECMA-262).
  */
  function Rem(a: int, b: int): (r: int)
    requires b > 0
    ensures Abs(r) < b
    ensures (a - r) % b == 0
    ensures a >= 0 ==> r >= 0
    ensures a <= 0 ==> r <= 0
  {
    if a >= 0 then
      DividesDifference(a, b);
      a % b
    else
      DividesDifference(-a, b);
      MultipleNegated(-a - (-a) % b, b);
      -((-a) % b)
  }

  /** `b` divides what the Euclidean remainder leaves over. */
  lemma DividesDifference(a: int, b: int)
    requires b > 0
    ensures (a - a % b) % b == 0
  {
    var q := a / b;
    assert a - a % b == b * q;
    MultipleOfDivisor(q, b);
  }

  lemma MultipleOfDivisor(q: int, b: int)
    requires b > 0
    ensures (b * q) % b == 0
  {
    var m, d := (b * q) % b, (b * q) / b;
    assert b * q == b * d + m && 0 <= m < b;
    assert b * (q - d) == m;
    if q - d >= 1 {
      ProductAtLeast(b, q - d);
    } else if q - d <= -1 {
      ProductAtMost(b, q - d);
    }
  }

  lemma ProductAtMost(b: int, k: int)
    requires b > 0 && k <= -1
    ensures b * k <= -b
  {
    assert b * k == -b + b * (k + 1);
  }

  lemma ProductAtLeast(b: int, k: int)
    requires b > 0 && k >= 1
    ensures b * k >= b
  {
    assert b * k == b + b * (k - 1);
  }

  lemma MultipleNegated(d: int, b: int)
    requires b > 0 && d % b == 0
    ensures (-d) % b == 0
  {
    var q := d / b;
    assert d == b * q;
    assert -d == b * (-q);
    MultipleOfDivisor(-q, b);
  }

  /**
    ToInt32 of section 7.1.6 of ECMA-262, restricted to integers: the unique value in
    [-2^31, 2^31) that is congruent to `x` modulo 2^32.
  */
  function ToInt32(x: int): (r: int)
    ensures -TWO_31 <= r < TWO_31
    ensures (x - r) % TWO_32 == 0
    ensures -TWO_31 <= x < TWO_31 ==> r == x
  {
    var m := x % TWO_32;
    if m >= TWO_31 then m - TWO_32 else m
  }

  function Pow2(n: nat): (r: nat)
    ensures r >= 1
  {
    if n == 0 then 1 else 2 * Pow2(n - 1)
  }

  /**
    `x << count` for a shift count below 32: the left operand is converted with ToInt32,
    shifted, and the 32-bit result is read back as a signed integer.
  */
  function ShiftLeft(x: int, count: nat): (r: int)
    requires count < 32
    ensures -TWO_31 <= r < TWO_31
    ensures (r - x * Pow2(count)) % TWO_32 == 0
  {
    var h := ToInt32(x);
    var r := ToInt32(h * Pow2(count));
    ShiftCongruent(x, h, Pow2(count), r);
    r
  }

  /** Wrapping the operand and then the product changes `x * p` by multiples of 2^32 only. */
  lemma ShiftCongruent(x: int, h: int, p: int, r: int)
    requires (x - h) % TWO_32 == 0 && (h * p - r) % TWO_32 == 0
    ensures (r - x * p) % TWO_32 == 0
  {
    var k1, k2 := (x - h) / TWO_32, (h * p - r) / TWO_32;
    assert x - h == TWO_32 * k1;
    assert h * p - r == TWO_32 * k2;
    assert (x - h) * p == TWO_32 * (k1 * p);
    assert r - x * p == TWO_32 * (-k2 - k1 * p);
    MultipleOfDivisor(-k2 - k1 * p, TWO_32);
  }

  /**
    `s.splice(start, 1)` on an array, as the new contents of the array. A negative start
    counts back from the end (and is clamped at 0); a start at or past the end removes nothing.
  */
  function Splice1<T>(s: seq<T>, start: int): (r: seq<T>)
    ensures 0 <= start < |s| ==> r == s[..start] + s[start + 1..]
    ensures -|s| <= start < 0 ==> r == s[..|s| + start] + s[|s| + start + 1..]
    ensures start >= |s| ==> r == s
    ensures start < -|s| && s != [] ==> r == s[1..]
    ensures |r| == if s == [] || start >= |s| then |s| else |s| - 1
  {
    var actualStart := if start < 0 then (if |s| + start < 0 then 0 else |s| + start)
                       else (if start < |s| then start else |s|);
    var deleteCount := if |s| - actualStart < 1 then |s| - actualStart else 1;
    s[..actualStart] + s[actualStart + deleteCount..]
  }

  /** `s.indexOf(x)`: the first position holding `x`, or -1 when there is none. */
  function IndexOf<T(==)>(s: seq<T>, x: T): (r: int)
    ensures -1 <= r < |s|
    ensures r == -1 <==> x !in s
    ensures r >= 0 ==> s[r] == x && x !in s[..r]
  {
    if s == [] then -1
    else if s[0] == x then 0
    else
      var k := IndexOf(s[1..], x);
      if k == -1 then -1
      else
        assert s[..k + 1] == [s[0]] + s[1..][..k];
        k + 1
  }

  /**
    The characters matched by `\s` in a regular expression: WhiteSpace and LineTerminator
    of sections 12.2 and 12.3 of ECMA-262 (the space separators of Unicode category Zs
    are listed one by one).
  */
  predicate IsWhiteSpace(c: char)
  {
    c == '\t' || c == '\n' || c == '\U{000B}' || c == '\U{000C}' || c == '\r' || c == ' '
    || c == '\U{00A0}' || c == '\U{1680}' || ('\U{2000}' <= c <= '\U{200A}')
    || c == '\U{2028}' || c == '\U{2029}' || c == '\U{202F}' || c == '\U{205F}'
    || c == '\U{3000}' || c == '\U{FEFF}'
  }

  predicate IsAsciiUpper(c: char)
  {
    'A' <= c <= 'Z'
  }

  /** Lower-casing of one character; only the ASCII letters A to Z are mapped. */
  function LowerChar(c: char): (r: char)
    ensures !IsAsciiUpper(r)
    ensures IsWhiteSpace(r) <==> IsWhiteSpace(c)
    ensures !IsAsciiUpper(c) ==> r == c
    ensures IsAsciiUpper(c) ==> 'a' <= r <= 'z' && r as int - 'a' as int == c as int - 'A' as int
  {
    if IsAsciiUpper(c) then (c as int + 32) as char else c
  }

  /** `s.toLowerCase()` restricted to ASCII letters. */
  function Lower(s: string): (r: string)
    ensures |r| == |s|
    ensures forall i :: 0 <= i < |s| ==> r[i] == LowerChar(s[i])
  {
    seq(|s|, i requires 0 <= i < |s| => LowerChar(s[i]))
  }

  /** `s.replace(/\s+/g, '')`: every run of whitespace, and so every whitespace character, is removed. */
  function StripWhitespace(s: string): (r: string)
    ensures |r| <= |s|
    ensures forall i :: 0 <= i < |r| ==> !IsWhiteSpace(r[i])
    ensures (forall i :: 0 <= i < |s| ==> !IsWhiteSpace(s[i])) ==> r == s
  {
    if s == [] then []
    else (if IsWhiteSpace(s[0]) then [] else [s[0]]) + StripWhitespace(s[1..])
  }

  /** Two strings that differ at most in the case of ASCII letters. */
  predicate SameIgnoringCase(s: string, t: string)
  {
    |s| == |t| && forall i :: 0 <= i < |s| ==> LowerChar(s[i]) == LowerChar(t[i])
  }

  lemma LowerAppend(s: string, t: string)
    ensures Lower(s + t) == Lower(s) + Lower(t)
  {
  }

  lemma LowerIgnoresCase(s: string, t: string)
    requires SameIgnoringCase(s, t)
    ensures Lower(s) == Lower(t)
  {
  }

  lemma {:induction false} StripAppend(s: string, t: string)
    ensures StripWhitespace(s + t) == StripWhitespace(s) + StripWhitespace(t)
  {
    if s == [] {
      assert s + t == t;
    } else {
      var head := if IsWhiteSpace(s[0]) then [] else [s[0]];
      assert (s + t)[0] == s[0] && (s + t)[1..] == s[1..] + t;
      calc {
        StripWhitespace(s + t);
        head + StripWhitespace(s[1..] + t);
        { StripAppend(s[1..], t); }
        head + (StripWhitespace(s[1..]) + StripWhitespace(t));
        (head + StripWhitespace(s[1..])) + StripWhitespace(t);
        StripWhitespace(s) + StripWhitespace(t);
      }
    }
  }

  lemma StripDropsWhitespace(x: string, w: char, y: string)
    requires IsWhiteSpace(w)
    ensures StripWhitespace(x + [w] + y) == StripWhitespace(x + y)
  {
    assert StripWhitespace([w]) == [] by {
      assert [w][0] == w && [w][1..] == [];
    }
    calc {
      StripWhitespace(x + [w] + y);
      { StripAppend(x + [w], y); }
      StripWhitespace(x + [w]) + StripWhitespace(y);
      { StripAppend(x, [w]); }
      StripWhitespace(x) + StripWhitespace(y);
      { StripAppend(x, y); }
      StripWhitespace(x + y);
    }
  }

  /** Whitespace removal keeps case-insensitive equality: it drops the same positions of both strings. */
  lemma {:induction false} StripIgnoresCase(s: string, t: string)
    requires SameIgnoringCase(s, t)
    ensures SameIgnoringCase(StripWhitespace(s), StripWhitespace(t))
  {
    if s != [] {
      assert IsWhiteSpace(s[0]) <==> IsWhiteSpace(t[0]) by {
        assert LowerChar(s[0]) == LowerChar(t[0]);
      }
      assert SameIgnoringCase(s[1..], t[1..]) by {
        forall i | 0 <= i < |s| - 1 ensures LowerChar(s[1..][i]) == LowerChar(t[1..][i]) {
          assert s[1..][i] == s[i + 1] && t[1..][i] == t[i + 1];
        }
      }
      StripIgnoresCase(s[1..], t[1..]);
      var a, b := StripWhitespace(s[1..]), StripWhitespace(t[1..]);
      if !IsWhiteSpace(s[0]) {
        forall i | 0 <= i < |a| + 1
          ensures LowerChar(([s[0]] + a)[i]) == LowerChar(([t[0]] + b)[i])
        {
          if i > 0 {
            assert ([s[0]] + a)[i] == a[i - 1] && ([t[0]] + b)[i] == b[i - 1];
          }
        }
      }
    }
  }
}
