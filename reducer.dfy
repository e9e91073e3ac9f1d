/**
  The FLAMES reducer, `calculateFlames` (client/src/lib/flames.ts, lines 4-38; the server
  keeps a private copy with the same text in server/routes.ts, lines 87-121).

  It runs in three phases, each modelled by a method that follows the source loop:
  `RemoveCommon` blanks the characters the two normalised names share, the count of
  non-blank cells gives `remainingChars`, and `Eliminate` strikes letters out of
  [F, L, A, M, E, S] until one is left. `CalculateFlames` composes them and is proved equal
  to `FlamesResult`, which is defined without the cancellation pass: through the size of
  the symmetric difference of the two names' character multisets.
*/
module Reducer {
  import opened Js

  /** The elimination list of the source, as one-letter strings. */
  const FLAMES: seq<string> := ["F", "L", "A", "M", "E", "S"]

  /** Both names lose every whitespace character and are then lower-cased. */
  function Normalize(name: string): (r: string)
    ensures |r| <= |name|
    ensures forall i :: 0 <= i < |r| ==> !IsWhiteSpace(r[i]) && !IsAsciiUpper(r[i])
  {
    Lower(StripWhitespace(name))
  }

  // ---------------------------------------------------------------------------------------
  // Phase 1: cancelling the common characters
  // ---------------------------------------------------------------------------------------

  /** Every cell is either blank or still holds the character of `s` at its position. */
  ghost predicate BlankedFrom(cells: seq<string>, s: string)
  {
    |cells| == |s| && forall i :: 0 <= i < |s| ==> cells[i] == "" || cells[i] == [s[i]]
  }

  /** The characters of the cells that are not blank, in order. */
  function Live(cells: seq<string>): string
  {
    if cells == [] then [] else Live(cells[..|cells| - 1]) + cells[|cells| - 1]
  }

  lemma {:induction false} LiveAppend(a: seq<string>, b: seq<string>)
    ensures Live(a + b) == Live(a) + Live(b)
  {
    if b == [] {
      assert a + b == a;
    } else {
      assert (a + b)[..|a + b| - 1] == a + b[..|b| - 1];
      LiveAppend(a, b[..|b| - 1]);
    }
  }

  lemma LiveSnoc(cells: seq<string>, i: int)
    requires 0 <= i < |cells|
    ensures Live(cells[..i + 1]) == Live(cells[..i]) + cells[i]
  {
    assert cells[..i + 1][..i] == cells[..i];
  }

  lemma Cancel(X: multiset<char>, Y: multiset<char>, c: char)
    requires X + multiset{c} == Y + multiset{c}
    ensures X == Y
  {
    assert forall x :: X[x] == (X + multiset{c})[x] - multiset{c}[x];
  }

  /** Blanking one cell takes exactly that cell's characters out of the live characters. */
  lemma LiveBlank(cells: seq<string>, j: int)
    requires 0 <= j < |cells|
    ensures multiset(Live(cells[j := ""])) + multiset(cells[j]) == multiset(Live(cells))
  {
    assert cells == cells[..j] + [cells[j]] + cells[j + 1..];
    assert cells[j := ""] == cells[..j] + [""] + cells[j + 1..];
    LiveAppend(cells[..j] + [cells[j]], cells[j + 1..]);
    LiveAppend(cells[..j], [cells[j]]);
    LiveAppend(cells[..j] + [""], cells[j + 1..]);
    LiveAppend(cells[..j], [""]);
    assert [cells[j]][..0] == [] && [""][..0] == [];
  }

  /** A character is live exactly when some cell still holds it. */
  lemma {:induction false} LiveHas(cells: seq<string>, s: string, c: char)
    requires BlankedFrom(cells, s)
    ensures c in multiset(Live(cells)) <==> [c] in cells
  {
    if cells != [] {
      var n := |cells| - 1;
      assert BlankedFrom(cells[..n], s[..n]);
      LiveHas(cells[..n], s[..n], c);
      assert cells == cells[..n] + [cells[n]];
      assert multiset(Live(cells)) == multiset(Live(cells[..n])) + multiset(cells[n]);
      assert [c] in cells <==> [c] in cells[..n] || cells[n] == [c];
    }
  }

  /** The multiset bookkeeping of a step in which name2 still holds the character. */
  lemma MatchStep(A: multiset<char>, B: multiset<char>, c: char)
    requires A[c] < B[c]
    ensures (A + multiset{c}) - B == A - B
    ensures (B - (A + multiset{c})) + multiset{c} == B - A
  {
    assert forall x :: ((A + multiset{c}) - B)[x] == (A - B)[x];
    assert forall x :: ((B - (A + multiset{c})) + multiset{c})[x] == (B - A)[x];
  }

  /** The multiset bookkeeping of a step in which name2 has no such character left. */
  lemma MissStep(A: multiset<char>, B: multiset<char>, c: char)
    requires B[c] <= A[c]
    ensures (A + multiset{c}) - B == (A - B) + multiset{c}
    ensures B - (A + multiset{c}) == B - A
  {
    assert forall x :: ((A + multiset{c}) - B)[x] == ((A - B) + multiset{c})[x];
    assert forall x :: (B - (A + multiset{c}))[x] == (B - A)[x];
  }

  /** In name2 the blank cells of each character come before its live ones. */
  ghost predicate LeftmostBlanked(cells: seq<string>, s: string)
    requires |cells| == |s|
  {
    forall j, k :: 0 <= j < k < |s| && s[j] == s[k] && cells[k] == "" ==> cells[j] == ""
  }

  /**
    The state of the cancellation pass once the first i characters of name1 are done:
    the cells of name1 from i on are untouched; a done position of name1 is blank exactly
    when name2 holds more copies of its character than name1 has before it; name2's blanks
    are leftmost; and the live characters are the two names with the other's characters
    (so far) taken away one for one.
  */
  ghost predicate CancelledUpTo(name1: string, name2: string, i: int, c1: seq<string>, c2: seq<string>)
  {
    0 <= i <= |name1| && BlankedFrom(c1, name1) && BlankedFrom(c2, name2)
    && (forall k :: i <= k < |name1| ==> c1[k] == [name1[k]])
    && (forall k :: 0 <= k < i ==>
          (c1[k] == "" <==> multiset(name1[..k])[name1[k]] < multiset(name2)[name1[k]]))
    && LeftmostBlanked(c2, name2)
    && multiset(Live(c1[..i])) == multiset(name1[..i]) - multiset(name2)
    && multiset(Live(c2)) == multiset(name2) - multiset(name1[..i])
  }

  lemma CancelStart(name1: string, name2: string, c1: seq<string>, c2: seq<string>)
    requires |c1| == |name1| && forall i :: 0 <= i < |name1| ==> c1[i] == [name1[i]]
    requires |c2| == |name2| && forall j :: 0 <= j < |name2| ==> c2[j] == [name2[j]]
    ensures CancelledUpTo(name1, name2, 0, c1, c2)
  {
    LiveOfSplit(c2, name2, |name2|);
    assert c2[..|name2|] == c2 && name2[..|name2|] == name2;
    assert name1[..0] == [];
  }

  /** Blanking the leftmost live copy of a character keeps name2's blanks leftmost. */
  lemma LeftmostKept(c2: seq<string>, s: string, ch: char, index: int)
    requires BlankedFrom(c2, s) && LeftmostBlanked(c2, s)
    requires 0 <= index < |c2| && c2[index] == [ch] && [ch] !in c2[..index]
    ensures BlankedFrom(c2[index := ""], s) && LeftmostBlanked(c2[index := ""], s)
  {
    var d := c2[index := ""];
    forall j, k | 0 <= j < k < |s| && s[j] == s[k] && d[k] == "" ensures d[j] == "" {
      if k == index && j != index {
        assert c2[..index][j] == c2[j];
      }
    }
  }

  /** The done positions of name1 keep their verdict as one more position is decided. */
  lemma DecidedKept(name1: string, name2: string, i: int, c1: seq<string>, d1: seq<string>)
    requires 0 <= i < |name1| && |c1| == |d1| == |name1|
    requires forall k :: 0 <= k < i ==> d1[k] == c1[k]
    requires forall k :: 0 <= k < i ==>
               (c1[k] == "" <==> multiset(name1[..k])[name1[k]] < multiset(name2)[name1[k]])
    requires d1[i] == "" <==> multiset(name1[..i])[name1[i]] < multiset(name2)[name1[i]]
    ensures forall k :: 0 <= k < i + 1 ==>
              (d1[k] == "" <==> multiset(name1[..k])[name1[k]] < multiset(name2)[name1[k]])
  {
  }

  /** In a step whose character is still live in name2, the cells keep their shape. */
  lemma MatchShape(name1: string, name2: string, i: int, c1: seq<string>, c2: seq<string>, index: int)
    requires CancelledUpTo(name1, name2, i, c1, c2) && i < |name1|
    requires index == IndexOf(c2, [name1[i]]) && index != -1
    ensures BlankedFrom(c1[i := ""], name1) && BlankedFrom(c2[index := ""], name2)
    ensures forall k :: i + 1 <= k < |name1| ==> c1[i := ""][k] == [name1[k]]
    ensures LeftmostBlanked(c2[index := ""], name2)
  {
    LeftmostKept(c2, name2, name1[i], index);
  }

  /** In a step whose character is still live in name2, name1's cell is blanked, as its verdict says. */
  lemma MatchVerdicts(name1: string, name2: string, i: int, c1: seq<string>, c2: seq<string>, index: int)
    requires CancelledUpTo(name1, name2, i, c1, c2) && i < |name1|
    requires index == IndexOf(c2, [name1[i]]) && index != -1
    ensures forall k :: 0 <= k < i + 1 ==>
              (c1[i := ""][k] == "" <==> multiset(name1[..k])[name1[k]] < multiset(name2)[name1[k]])
  {
    LiveHas(c2, name2, name1[i]);
    DecidedKept(name1, name2, i, c1, c1[i := ""]);
  }

  /** In a step whose character is still live in name2, one copy leaves the live characters of each name. */
  lemma MatchLive(name1: string, name2: string, i: int, c1: seq<string>, c2: seq<string>, index: int)
    requires 0 <= i < |name1| == |c1| && 0 <= index < |c2| && c2[index] == [name1[i]]
    requires BlankedFrom(c2, name2)
    requires multiset(Live(c1[..i])) == multiset(name1[..i]) - multiset(name2)
    requires multiset(Live(c2)) == multiset(name2) - multiset(name1[..i])
    ensures multiset(Live(c1[i := ""][..i + 1])) == multiset(name1[..i + 1]) - multiset(name2)
    ensures multiset(Live(c2[index := ""])) == multiset(name2) - multiset(name1[..i + 1])
  {
    var ch := name1[i];
    var A, B := multiset(name1[..i]), multiset(name2);
    var d1, d2 := c1[i := ""], c2[index := ""];
    assert A + multiset{ch} == multiset(name1[..i + 1]) by {
      assert name1[..i + 1] == name1[..i] + [ch];
    }
    LiveHas(c2, name2, ch);
    MatchStep(A, B, ch);
    LiveBlank(c2, index);
    Cancel(multiset(Live(d2)), B - (A + multiset{ch}), ch);
    LiveSnoc(d1, i);
    assert d1[..i] == c1[..i];
  }

  /** A step whose character is still live in name2. */
  lemma CancelMatch(name1: string, name2: string, i: int, c1: seq<string>, c2: seq<string>, index: int)
    requires CancelledUpTo(name1, name2, i, c1, c2) && i < |name1|
    requires index == IndexOf(c2, [name1[i]]) && index != -1
    ensures CancelledUpTo(name1, name2, i + 1, c1[i := ""], c2[index := ""])
  {
    MatchShape(name1, name2, i, c1, c2, index);
    MatchVerdicts(name1, name2, i, c1, c2, index);
    MatchLive(name1, name2, i, c1, c2, index);
  }

  /** In a step whose character is no longer live in name2, name1's cell stays, as its verdict says. */
  lemma MissVerdicts(name1: string, name2: string, i: int, c1: seq<string>, c2: seq<string>)
    requires CancelledUpTo(name1, name2, i, c1, c2) && i < |name1|
    requires IndexOf(c2, [name1[i]]) == -1
    ensures forall k :: 0 <= k < i + 1 ==>
              (c1[k] == "" <==> multiset(name1[..k])[name1[k]] < multiset(name2)[name1[k]])
  {
    LiveHas(c2, name2, name1[i]);
    DecidedKept(name1, name2, i, c1, c1);
  }

  /** In a step whose character is no longer live in name2, the character stays live in name1. */
  lemma MissLive(name1: string, name2: string, i: int, c1: seq<string>, c2: seq<string>)
    requires 0 <= i < |name1| == |c1| && c1[i] == [name1[i]]
    requires BlankedFrom(c2, name2) && [name1[i]] !in c2
    requires multiset(Live(c1[..i])) == multiset(name1[..i]) - multiset(name2)
    requires multiset(Live(c2)) == multiset(name2) - multiset(name1[..i])
    ensures multiset(Live(c1[..i + 1])) == multiset(name1[..i + 1]) - multiset(name2)
    ensures multiset(Live(c2)) == multiset(name2) - multiset(name1[..i + 1])
  {
    var ch := name1[i];
    var A, B := multiset(name1[..i]), multiset(name2);
    assert A + multiset{ch} == multiset(name1[..i + 1]) by {
      assert name1[..i + 1] == name1[..i] + [ch];
    }
    LiveHas(c2, name2, ch);
    assert (B - A)[ch] == 0;
    MissStep(A, B, ch);
    LiveSnoc(c1, i);
    assert multiset(Live(c1[..i + 1])) == multiset(Live(c1[..i])) + multiset{ch};
  }

  /** A step whose character no longer occurs live in name2. */
  lemma CancelMiss(name1: string, name2: string, i: int, c1: seq<string>, c2: seq<string>)
    requires CancelledUpTo(name1, name2, i, c1, c2) && i < |name1|
    requires IndexOf(c2, [name1[i]]) == -1
    ensures CancelledUpTo(name1, name2, i + 1, c1, c2)
  {
    MissVerdicts(name1, name2, i, c1, c2);
    MissLive(name1, name2, i, c1, c2);
  }

  /** Lines 15-21, one pass of the loop: character i of name1 meets the leftmost live copy in name2, if any. */
  method CancelOne(name1: string, name2: string, i: int, a1: array<string>, a2: array<string>,
                   ghost c1: seq<string>, ghost c2: seq<string>) returns (ghost d1: seq<string>, ghost d2: seq<string>)
    requires a1 != a2 && a1[..] == c1 && a2[..] == c2
    requires CancelledUpTo(name1, name2, i, c1, c2) && i < |name1|
    modifies a1, a2
    ensures a1[..] == d1 && a2[..] == d2
    ensures CancelledUpTo(name1, name2, i + 1, d1, d2)
  {
    var index := IndexOf(a2[..], [name1[i]]);
    if index != -1 {
      CancelMatch(name1, name2, i, c1, c2, index);
      a1[i] := "";
      a2[index] := "";
      d1, d2 := c1[i := ""], c2[index := ""];
    } else {
      CancelMiss(name1, name2, i, c1, c2);
      d1, d2 := c1, c2;
    }
  }

  /**
    Lines 10-22: each character of name1, from left to right, blanks the leftmost cell of
    name2 that still holds the same character, and then blanks its own cell.

    Afterwards position i of name1 is blank exactly when name2 holds more copies of its
    character than occur in name1 before i; in name2 the blank cells of each character come
    before its live ones; and the live characters are what is left of each name once the
    other's characters are taken away, one for one.
  */
  method RemoveCommon(name1: string, name2: string) returns (name1Array: seq<string>, name2Array: seq<string>)
    ensures BlankedFrom(name1Array, name1) && BlankedFrom(name2Array, name2)
    ensures forall i :: 0 <= i < |name1| ==>
              (name1Array[i] == "" <==> multiset(name1[..i])[name1[i]] < multiset(name2)[name1[i]])
    ensures LeftmostBlanked(name2Array, name2)
    ensures multiset(Live(name1Array)) == multiset(name1) - multiset(name2)
    ensures multiset(Live(name2Array)) == multiset(name2) - multiset(name1)
  {
    var a1 := new string[|name1|](i requires 0 <= i < |name1| => [name1[i]]);
    var a2 := new string[|name2|](j requires 0 <= j < |name2| => [name2[j]]);
    ghost var c1, c2 := a1[..], a2[..];
    CancelStart(name1, name2, c1, c2);
    for i := 0 to |name1|
      invariant a1[..] == c1 && a2[..] == c2
      invariant CancelledUpTo(name1, name2, i, c1, c2)
    {
      c1, c2 := CancelOne(name1, name2, i, a1, a2, c1, c2);
    }
    CancelDone(name1, name2, c1, c2);
    name1Array, name2Array := a1[..], a2[..];
  }

  /** Once every character of name1 is done, the state is the one `RemoveCommon` promises. */
  lemma CancelDone(name1: string, name2: string, c1: seq<string>, c2: seq<string>)
    requires CancelledUpTo(name1, name2, |name1|, c1, c2)
    ensures BlankedFrom(c1, name1) && BlankedFrom(c2, name2)
    ensures forall i :: 0 <= i < |name1| ==>
              (c1[i] == "" <==> multiset(name1[..i])[name1[i]] < multiset(name2)[name1[i]])
    ensures LeftmostBlanked(c2, name2)
    ensures multiset(Live(c1)) == multiset(name1) - multiset(name2)
    ensures multiset(Live(c2)) == multiset(name2) - multiset(name1)
  {
    assert c1 == c1[..|name1|] && name1 == name1[..|name1|];
  }

  /** Before any blanking the live characters of a prefix of cells spell that prefix of the name. */
  lemma {:induction false} LiveOfSplit(cells: seq<string>, s: string, n: int)
    requires |cells| == |s| && forall i :: 0 <= i < |s| ==> cells[i] == [s[i]]
    requires 0 <= n <= |s|
    ensures Live(cells[..n]) == s[..n]
  {
    if n > 0 {
      LiveOfSplit(cells, s, n - 1);
      assert cells[..n][..n - 1] == cells[..n - 1];
      assert s[..n] == s[..n - 1] + [s[n - 1]];
    }
  }

  // ---------------------------------------------------------------------------------------
  // Phase 2: counting what is left
  // ---------------------------------------------------------------------------------------

  /** `cells.filter(char => char !== '')`. */
  function NonBlank(cells: seq<string>): (r: seq<string>)
    ensures forall x :: x in r <==> x in cells && x != ""
    ensures (forall k :: 0 <= k < |cells| ==> |cells[k]| <= 1) ==> |r| == |Live(cells)|
  {
    if cells == [] then []
    else
      var last := cells[|cells| - 1];
      assert cells == cells[..|cells| - 1] + [last];
      NonBlank(cells[..|cells| - 1]) + (if last != "" then [last] else [])
  }

  /**
    The number of characters that survive cancellation: what each name keeps after the
    other's characters are taken away from it one for one.
  */
  function Remaining(n1: string, n2: string): nat
  {
    |multiset(n1) - multiset(n2)| + |multiset(n2) - multiset(n1)|
  }

  /** Every match removes one character from each name. */
  lemma RemainingCountsMatches(n1: string, n2: string)
    ensures Remaining(n1, n2) + 2 * |multiset(n1) * multiset(n2)| == |n1| + |n2|
  {
    var A, B := multiset(n1), multiset(n2);
    assert A == (A - B) + (A * B) by {
      assert forall x :: A[x] == ((A - B) + (A * B))[x];
    }
    assert B == (B - A) + (A * B) by {
      assert forall x :: B[x] == ((B - A) + (A * B))[x];
    }
  }

  /** Nothing is left exactly when the two names are anagrams of each other. */
  lemma RemainingZeroIffAnagrams(n1: string, n2: string)
    ensures Remaining(n1, n2) == 0 <==> multiset(n1) == multiset(n2)
  {
    var A, B := multiset(n1), multiset(n2);
    if A == B {
      assert A - B == multiset{};
    }
    if Remaining(n1, n2) == 0 {
      assert A - B == multiset{} && B - A == multiset{};
      forall x ensures A[x] == B[x] {
        assert (A - B)[x] == 0 && (B - A)[x] == 0;
      }
    }
  }

  // ---------------------------------------------------------------------------------------
  // Phase 3: the elimination
  // ---------------------------------------------------------------------------------------

  /**
    The letters still standing once the elimination has run to the end from the list
    `flames` and cursor `index`: each round moves the cursor by n - 1 with the truncating
    remainder and splices out the letter at the cursor.
  */
  function EliminateFrom(flames: seq<string>, index: int, n: int): (r: seq<string>)
    requires flames != []
    ensures |r| == 1 && r[0] in flames
    decreases |flames|
  {
    if |flames| == 1 then flames
    else
      var next := Rem(index + n - 1, |flames|);
      var rest := Splice1(flames, next);
      assert forall x :: x in rest ==> x in flames;
      EliminateFrom(rest, next, n)
  }

  /** One round of the elimination, unfolded. */
  lemma Round(flames: seq<string>, index: int, n: int)
    requires |flames| > 1
    ensures EliminateFrom(flames, index, n)
            == EliminateFrom(Splice1(flames, Rem(index + n - 1, |flames|)), Rem(index + n - 1, |flames|), n)
  {
  }

  /** The letters struck out, in the order the rounds remove them. */
  ghost function Removed(flames: seq<string>, index: int, n: int): seq<string>
    requires flames != []
    decreases |flames|
  {
    if |flames| == 1 then []
    else
      var next := Rem(index + n - 1, |flames|);
      var at := if next < 0 then |flames| + next else next;
      [flames[at]] + Removed(Splice1(flames, next), next, n)
  }

  /** The letter the elimination leaves for a given number of remaining characters. */
  function FlamesLetter(remainingChars: int): (r: string)
    ensures r in FLAMES
  {
    EliminateFrom(FLAMES, 0, remainingChars)[0]
  }

  /** A splice at a position inside the list takes out exactly the letter there. */
  lemma SpliceTakesOne(s: seq<string>, start: int)
    requires -|s| <= start < |s|
    ensures multiset(Splice1(s, start)) + multiset{s[if start < 0 then |s| + start else start]} == multiset(s)
  {
    var at := if start < 0 then |s| + start else start;
    assert Splice1(s, start) == s[..at] + s[at + 1..];
    assert s == s[..at] + [s[at]] + s[at + 1..];
  }

  /**
    Each round removes exactly one letter: the list of |flames| letters goes through
    |flames| - 1 rounds, and every letter is either struck out once or is the survivor.
  */
  lemma {:induction false} EliminationPartitions(flames: seq<string>, index: int, n: int)
    requires flames != []
    ensures |Removed(flames, index, n)| == |flames| - 1
    ensures multiset(Removed(flames, index, n)) + multiset(EliminateFrom(flames, index, n)) == multiset(flames)
  {
    if |flames| > 1 {
      var next := Rem(index + n - 1, |flames|);
      var at := if next < 0 then |flames| + next else next;
      var rest := Splice1(flames, next);
      SpliceTakesOne(flames, next);
      EliminationPartitions(rest, next, n);
      assert Removed(flames, index, n) == [flames[at]] + Removed(rest, next, n);
      assert EliminateFrom(flames, index, n) == EliminateFrom(rest, next, n);
    }
  }

  /**
    Lines 29-37: the elimination loop. The cursor keeps the sign the truncating remainder
    gives it, and a negative cursor makes `splice` count from the end of the list.
  */
  method Eliminate(remainingChars: int) returns (r: string)
    ensures r == FlamesLetter(remainingChars)
    ensures r in FLAMES
  {
    var flames := FLAMES;
    var index := 0;
    ghost var rounds := 0;
    while |flames| > 1
      invariant flames != [] && rounds + |flames| == |FLAMES|
      invariant EliminateFrom(flames, index, remainingChars) == EliminateFrom(FLAMES, 0, remainingChars)
      decreases |flames|
    {
      index := Rem(index + remainingChars - 1, |flames|);
      flames := Splice1(flames, index);
      rounds := rounds + 1;
    }
    assert rounds == |FLAMES| - 1;
    r := flames[0];
  }

  // ---------------------------------------------------------------------------------------
  // The whole reducer
  // ---------------------------------------------------------------------------------------

  /** The result of the reducer: the letter for the characters that survive cancellation. */
  function FlamesResult(name1: string, name2: string): (r: string)
    ensures r in FLAMES
  {
    FlamesLetter(Remaining(Normalize(name1), Normalize(name2)))
  }

  /** Lines 4-38: normalise, cancel, count, eliminate. */
  method CalculateFlames(name1: string, name2: string) returns (r: string)
    ensures r == FlamesResult(name1, name2)
    ensures r in FLAMES
  {
    var n1 := Normalize(name1);
    var n2 := Normalize(name2);
    var name1Array, name2Array := RemoveCommon(n1, n2);
    var remainingChars := |NonBlank(name1Array)| + |NonBlank(name2Array)|;
    assert remainingChars == Remaining(n1, n2) by {
      assert |NonBlank(name1Array)| == |Live(name1Array)| == |multiset(Live(name1Array))|;
      assert |NonBlank(name2Array)| == |Live(name2Array)| == |multiset(Live(name2Array))|;
    }
    r := Eliminate(remainingChars);
  }

  // ---------------------------------------------------------------------------------------
  // Properties of the reducer
  // ---------------------------------------------------------------------------------------

  /**
    `rounds` lists, round by round, the cursor and the letters left after that round: a
    replay of the elimination loop started from `flames` and `index`.
  */
  ghost predicate Replays(flames: seq<string>, index: int, n: int, rounds: seq<(int, seq<string>)>)
    decreases |rounds|
  {
    if rounds == [] then |flames| == 1
    else
      |flames| > 1 && rounds[0].0 == Rem(index + n - 1, |flames|) && rounds[0].1 == Splice1(flames, rounds[0].0)
      && Replays(rounds[0].1, rounds[0].0, n, rounds[1..])
  }

  /** A replay of the elimination ends on the letter the elimination leaves. */
  lemma {:induction false} Replay(flames: seq<string>, index: int, n: int, rounds: seq<(int, seq<string>)>)
    requires Replays(flames, index, n, rounds)
    ensures EliminateFrom(flames, index, n) == if rounds == [] then flames else rounds[|rounds| - 1].1
  {
    if rounds != [] {
      Replay(rounds[0].1, rounds[0].0, n, rounds[1..]);
    }
  }

  /**
    When the two names are anagrams (N = 0) the truncating remainder keeps the cursor
    negative, so `splice` counts from the end: S, M, L, E and F are struck out and A is left.
  */
  lemma AnagramsGiveAffection()
    ensures FlamesLetter(0) == "A"
  {
    var rounds := [(-1, ["F", "L", "A", "M", "E"]), (-2, ["F", "L", "A", "E"]), (-3, ["F", "A", "E"]),
                   (-1, ["F", "A"]), (0, ["A"])];
    assert Replays(FLAMES, 0, 0, rounds);
    Replay(FLAMES, 0, 0, rounds);
  }

  /** With one character left (N = 1) the cursor stays at 0: F, L, A, M and E go in turn and S is left. */
  lemma OneLeftGivesBesties()
    ensures FlamesLetter(1) == "S"
  {
    var rounds := [(0, ["L", "A", "M", "E", "S"]), (0, ["A", "M", "E", "S"]), (0, ["M", "E", "S"]),
                   (0, ["E", "S"]), (0, ["S"])];
    assert Replays(FLAMES, 0, 1, rounds);
    Replay(FLAMES, 0, 1, rounds);
  }

  /** N = 2 strikes out L, M, S, A and F, and leaves E. */
  lemma TwoLeftGivesCrush()
    ensures FlamesLetter(2) == "E"
  {
    var rounds := [(1, ["F", "A", "M", "E", "S"]), (2, ["F", "A", "E", "S"]), (3, ["F", "A", "E"]),
                   (1, ["F", "E"]), (0, ["E"])];
    assert Replays(FLAMES, 0, 2, rounds);
    Replay(FLAMES, 0, 2, rounds);
  }

  /** A name without whitespace is only lower-cased. */
  lemma NormalizeLetters(name: string, lower: string)
    requires forall i :: 0 <= i < |name| ==> !IsWhiteSpace(name[i])
    requires |lower| == |name| && forall i :: 0 <= i < |name| ==> lower[i] == LowerChar(name[i])
    ensures Normalize(name) == lower
  {
  }

  /** "Steve" and "Eve" hold no whitespace and normalise to "steve" and "eve". */
  lemma SteveAndEveNormalised()
    ensures Normalize("Steve") == "steve" && Normalize("Eve") == "eve"
  {
    NormalizeLetters("Steve", "steve");
    NormalizeLetters("Eve", "eve");
  }

  /** In "steve" against "eve" the letters e, v, e cancel and s, t are left. */
  lemma SteveAndEveLeaveTwo()
    ensures Remaining("steve", "eve") == 2
  {
    var A, B := multiset("steve"), multiset("eve");
    assert A == multiset{'s', 't', 'e', 'v', 'e'};
    assert B == multiset{'e', 'v', 'e'};
    assert A - B == multiset{'s', 't'};
    assert B - A == multiset{};
  }

  /** A worked example of the game: "Steve" and "Eve" leave N = 2, and the letter is E (Crush). */
  lemma SteveAndEveGiveCrush()
    ensures FlamesResult("Steve", "Eve") == "E"
  {
    SteveAndEveNormalised();
    SteveAndEveLeaveTwo();
    TwoLeftGivesCrush();
  }

  /** The cancellation count, and so the letter, does not depend on which name comes first. */
  lemma FlamesSymmetric(name1: string, name2: string)
    ensures FlamesResult(name1, name2) == FlamesResult(name2, name1)
  {
    var n1, n2 := Normalize(name1), Normalize(name2);
    assert Remaining(n1, n2) == Remaining(n2, n1);
  }

  lemma NormalizeIgnoresCase(s: string, t: string)
    requires SameIgnoringCase(s, t)
    ensures Normalize(s) == Normalize(t)
  {
    StripIgnoresCase(s, t);
    LowerIgnoresCase(StripWhitespace(s), StripWhitespace(t));
  }

  /** Names that differ only in the case of their letters give the same letter. */
  lemma FlamesIgnoresCase(name1: string, name1': string, name2: string, name2': string)
    requires SameIgnoringCase(name1, name1') && SameIgnoringCase(name2, name2')
    ensures FlamesResult(name1, name2) == FlamesResult(name1', name2')
  {
    NormalizeIgnoresCase(name1, name1');
    NormalizeIgnoresCase(name2, name2');
  }

  /** A whitespace character anywhere in either name changes nothing. */
  lemma FlamesIgnoresWhitespace(x: string, y: string, w: char, other: string)
    requires IsWhiteSpace(w)
    ensures FlamesResult(x + [w] + y, other) == FlamesResult(x + y, other)
    ensures FlamesResult(other, x + [w] + y) == FlamesResult(other, x + y)
  {
    StripDropsWhitespace(x, w, y);
    assert Normalize(x + [w] + y) == Normalize(x + y);
  }

  /** For N >= 1 the cursor never goes negative, and the letter repeats with period 60 = lcm(2, ..., 6). */
  lemma {:induction false} EliminationPeriodic(flames: seq<string>, index: int, n: int)
    requires 1 <= |flames| <= 6 && index >= 0 && n >= 1
    ensures EliminateFrom(flames, index, n + 60) == EliminateFrom(flames, index, n)
  {
    if |flames| > 1 {
      var next := Rem(index + n - 1, |flames|);
      PeriodicCursor(index, n, |flames|);
      var rest := Splice1(flames, next);
      EliminationPeriodic(rest, next, n);
      calc {
        EliminateFrom(flames, index, n + 60);
        { Round(flames, index, n + 60); }
        EliminateFrom(rest, next, n + 60);
        EliminateFrom(rest, next, n);
        { Round(flames, index, n); }
        EliminateFrom(flames, index, n);
      }
    }
  }

  /** Adding 60 to N moves the cursor to the same place, and for N >= 1 the cursor is never negative. */
  lemma PeriodicCursor(index: int, n: int, len: int)
    requires index >= 0 && n >= 1 && 1 <= len <= 6
    ensures 0 <= Rem(index + n - 1, len) < len
    ensures Rem(index + (n + 60) - 1, len) == Rem(index + n - 1, len)
  {
    var a := index + n - 1;
    SixtyIsAPeriod(a, len);
    assert index + (n + 60) - 1 == a + 60;
  }

  /** 60 is a multiple of every length from 1 to 6. */
  lemma SixtyIsAPeriod(a: int, len: int)
    requires a >= 0 && 1 <= len <= 6
    ensures (a + 60) % len == a % len
  {
    if len == 1 {
    } else if len == 2 {
      assert (a + 60) % 2 == a % 2;
    } else if len == 3 {
      assert (a + 60) % 3 == a % 3;
    } else if len == 4 {
      assert (a + 60) % 4 == a % 4;
    } else if len == 5 {
      assert (a + 60) % 5 == a % 5;
    } else {
      assert (a + 60) % 6 == a % 6;
    }
  }

  lemma FlamesLetterPeriodic(n: int)
    requires n >= 1
    ensures FlamesLetter(n + 60) == FlamesLetter(n)
  {
    EliminationPeriodic(FLAMES, 0, n);
  }

  /**
    The elimination written with Dafny's Euclidean remainder and plain indexing. For N >= 1
    it agrees with the source's loop; for N = 0 it does not, which is why the truncating `%`
    and the negative `splice` index are modelled.
  */
  function EliminateEuclidean(flames: seq<string>, index: int, n: int): (r: seq<string>)
    requires flames != []
    ensures |r| == 1
    decreases |flames|
  {
    if |flames| == 1 then flames
    else
      var next := (index + n - 1) % |flames|;
      EliminateEuclidean(flames[..next] + flames[next + 1..], next, n)
  }

  lemma {:induction false} EuclideanAgreesFromOne(flames: seq<string>, index: int, n: int)
    requires flames != [] && index >= 0 && n >= 1
    ensures EliminateFrom(flames, index, n) == EliminateEuclidean(flames, index, n)
  {
    if |flames| > 1 {
      var next := (index + n - 1) % |flames|;
      var rest := flames[..next] + flames[next + 1..];
      assert Rem(index + n - 1, |flames|) == next;
      assert Splice1(flames, next) == rest;
      EuclideanAgreesFromOne(rest, next, n);
      calc {
        EliminateFrom(flames, index, n);
        { Round(flames, index, n); }
        EliminateFrom(rest, next, n);
        EliminateEuclidean(rest, next, n);
        EliminateEuclidean(flames, index, n);
      }
    }
  }

  /** The five rounds of the Euclidean variant for N = 0: the cursor wraps to the end and S, E, M, A and L go. */
  lemma EuclideanRoundsAtZero(f6: seq<string>, f5: seq<string>, f4: seq<string>, f3: seq<string>, f2: seq<string>)
    requires f6 == FLAMES && f5 == ["F", "L", "A", "M", "E"] && f4 == ["F", "L", "A", "M"]
    requires f3 == ["F", "L", "A"] && f2 == ["F", "L"]
    ensures EliminateEuclidean(f6, 0, 0) == ["F"]
  {
    calc {
      EliminateEuclidean(f6, 0, 0);
      { assert f6[..5] + f6[6..] == f5; }
      EliminateEuclidean(f5, 5, 0);
      { assert f5[..4] + f5[5..] == f4; }
      EliminateEuclidean(f4, 4, 0);
      { assert f4[..3] + f4[4..] == f3; }
      EliminateEuclidean(f3, 3, 0);
      { assert f3[..2] + f3[3..] == f2; }
      EliminateEuclidean(f2, 2, 0);
      { assert f2[..1] + f2[2..] == ["F"]; }
      EliminateEuclidean(["F"], 1, 0);
      ["F"];
    }
  }

  /** At N = 0 the Euclidean variant leaves F where the source's loop leaves A. */
  lemma EuclideanDiffersAtZero()
    ensures EliminateEuclidean(FLAMES, 0, 0) == ["F"]
    ensures EliminateEuclidean(FLAMES, 0, 0)[0] != FlamesLetter(0)
  {
    EuclideanRoundsAtZero(FLAMES, ["F", "L", "A", "M", "E"], ["F", "L", "A", "M"], ["F", "L", "A"], ["F", "L"]);
    AnagramsGiveAffection();
  }

}
