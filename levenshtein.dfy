/** The edit distance that main.go obtains from the levenshtein package: the
    least number of single-rune insertions, deletions and substitutions, each
    of cost 1, that turn one string into the other. Lev is the specification;
    EditDistance computes it with the Wagner-Fischer table kept in one row. */
module Levenshtein {

  function Min3(x: nat, y: nat, z: nat): (m: nat)
    ensures m <= x && m <= y && m <= z
    ensures m == x || m == y || m == z
  {
    if x <= y && x <= z then x else if y <= z then y else z
  }

  /** Cost of turning rune x into rune y in place. */
  function SubstCost(x: char, y: char): nat
  {
    if x == y then 0 else 1
  }

  /** Edit distance, by recursion on the last rune of each string: delete the
      last rune of a, insert the last rune of b, or substitute one for the other. */
  function Lev(a: string, b: string): nat
    decreases |a| + |b|
  {
    if |a| == 0 then |b|
    else if |b| == 0 then |a|
    else Min3(Lev(a[..|a| - 1], b) + 1,
              Lev(a, b[..|b| - 1]) + 1,
              Lev(a[..|a| - 1], b[..|b| - 1]) + SubstCost(a[|a| - 1], b[|b| - 1]))
  }

  /** The distance is zero exactly when the two strings are equal. */
  lemma {:induction false} LevZeroIff(a: string, b: string)
    ensures Lev(a, b) == 0 <==> a == b
    decreases |a| + |b|
  {
    if |a| != 0 && |b| != 0 {
      var a', b' := a[..|a| - 1], b[..|b| - 1];
      assert a == a' + [a[|a| - 1]] && b == b' + [b[|b| - 1]];
      LevZeroIff(a', b');
      if a == b {
        assert a' == b';
      }
    }
  }

  /** The distance never exceeds the length of the longer string. */
  lemma {:induction false} LevUpperBound(a: string, b: string)
    ensures Lev(a, b) <= if |a| <= |b| then |b| else |a|
    decreases |a| + |b|
  {
    if |a| != 0 && |b| != 0 {
      LevUpperBound(a[..|a| - 1], b[..|b| - 1]);
    }
  }

  /** The distance is at least the difference of the two lengths. */
  lemma {:induction false} LevLowerBound(a: string, b: string)
    ensures Lev(a, b) >= |a| - |b| && Lev(a, b) >= |b| - |a|
    decreases |a| + |b|
  {
    if |a| != 0 && |b| != 0 {
      LevLowerBound(a[..|a| - 1], b);
      LevLowerBound(a, b[..|b| - 1]);
      LevLowerBound(a[..|a| - 1], b[..|b| - 1]);
    }
  }

  /** Turning a into b costs what turning b into a costs. */
  lemma {:induction false} LevSymmetric(a: string, b: string)
    ensures Lev(a, b) == Lev(b, a)
    decreases |a| + |b|
  {
    if |a| != 0 && |b| != 0 {
      LevSymmetric(a[..|a| - 1], b);
      LevSymmetric(a, b[..|b| - 1]);
      LevSymmetric(a[..|a| - 1], b[..|b| - 1]);
    }
  }

  /** Deleting a prefix p of p + s leaves s, so the distance is at most |p|. */
  lemma {:induction false} LevDeletePrefix(p: string, s: string)
    ensures Lev(p + s, s) <= |p|
    decreases |s|
  {
    if s != [] {
      var s' := s[..|s| - 1];
      assert (p + s)[..|p + s| - 1] == p + s';
      LevDeletePrefix(p, s');
    }
  }

  /** How many of the first n runes of s lie in the set t. */
  function Hits(s: string, t: set<char>, n: nat): (h: nat)
    requires n <= |s|
    ensures h <= n
  {
    if n == 0 then 0 else Hits(s, t, n - 1) + (if s[n - 1] in t then 1 else 0)
  }

  lemma {:induction false} HitsPrefix(s: string, t: set<char>, m: nat, n: nat)
    requires n <= m <= |s|
    ensures Hits(s[..m], t, n) == Hits(s, t, n)
  {
    if n > 0 {
      HitsPrefix(s, t, m, n - 1);
    }
  }

  /** A lower bound: each rune of a is deleted, substituted, or kept against
      an equal rune of b, and only runes of b that occur in a (all of a's runes
      lie in t) can be such a partner. So the distance plus the number of
      runes of b lying in t is at least |a|. */
  lemma {:induction false} LevUnmatchedBound(a: string, b: string, t: set<char>)
    requires forall k :: 0 <= k < |a| ==> a[k] in t
    ensures Lev(a, b) + Hits(b, t, |b|) >= |a|
    decreases |a| + |b|
  {
    if |a| != 0 && |b| != 0 {
      var a', b' := a[..|a| - 1], b[..|b| - 1];
      LevUnmatchedBound(a', b, t);
      LevUnmatchedBound(a, b', t);
      LevUnmatchedBound(a', b', t);
      HitsPrefix(b, t, |b| - 1, |b| - 1);
    }
  }

  /** Cell (i, k) of the Wagner-Fischer table: the distance between the
      first i runes of a and the first k runes of b. */
  ghost function Cell(a: string, b: string, i: nat, k: nat): nat
    requires i <= |a| && k <= |b|
  {
    Lev(a[..i], b[..k])
  }

  /** The recurrence that fills the table. */
  lemma CellStep(a: string, b: string, i: nat, j: nat)
    requires 1 <= i <= |a| && 1 <= j <= |b|
    ensures Cell(a, b, i, j)
         == Min3(Cell(a, b, i - 1, j) + 1,
                 Cell(a, b, i, j - 1) + 1,
                 Cell(a, b, i - 1, j - 1) + SubstCost(a[i - 1], b[j - 1]))
  {
    assert a[..i][..i - 1] == a[..i - 1];
    assert b[..j][..j - 1] == b[..j - 1];
  }

  /** Row i of the table: the distances between a[..i] and every prefix of b. */
  ghost predicate IsRow(r: seq<nat>, a: string, b: string, i: nat)
    requires i <= |a|
  {
    |r| == |b| + 1 && forall k :: 0 <= k <= |b| ==> r[k] == Cell(a, b, i, k)
  }

  /** Wagner-Fischer dynamic programming over one row of |b| + 1 cells. */
  method EditDistance(a: string, b: string) returns (d: nat)
    ensures d == Lev(a, b)
  {
    var row := new nat[|b| + 1];
    for m := 0 to |b| + 1
      invariant forall k :: 0 <= k < m ==> row[k] == Cell(a, b, 0, k)
    {
      row[m] := m;
    }
    for i := 1 to |a| + 1
      invariant IsRow(row[..], a, b, i - 1)
    {
      NextRow(a, b, i, row);
    }
    d := row[|b|];
    assert a[..|a|] == a && b[..|b|] == b;
  }

  /** Turns row i - 1 of the table into row i, in place. Cells left of j - 1
      already hold row i, the cells from j - 1 on still hold row i - 1, and
      prev carries the cell of row i just computed. */
  method NextRow(a: string, b: string, i: nat, row: array<nat>)
    requires 1 <= i <= |a|
    requires IsRow(row[..], a, b, i - 1)
    modifies row
    ensures IsRow(row[..], a, b, i)
  {
    var prev: nat := i;
    for j := 1 to |b| + 1
      invariant prev == Cell(a, b, i, j - 1)
      invariant forall k :: 0 <= k < j - 1 ==> row[k] == Cell(a, b, i, k)
      invariant forall k :: j - 1 <= k <= |b| ==> row[k] == Cell(a, b, i - 1, k)
    {
      CellStep(a, b, i, j);
      var current := Min3(row[j] + 1, prev + 1, row[j - 1] + SubstCost(a[i - 1], b[j - 1]));
      row[j - 1] := prev;
      prev := current;
    }
    row[|b|] := prev;
  }
}
