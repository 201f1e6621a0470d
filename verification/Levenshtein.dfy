/** Edit distance on byte strings: the two-row dynamic program, the distance it computes, and the
    similarity derived from it. */
module Levenshtein {
  import opened Basics
  import opened Texts

  function Cost(x: Byte, y: Byte): nat { if x == y then 0 else 1 }

  function Front(a: Text): Text
    requires a != []
  {
    a[..|a| - 1]
  }

  function Last(a: Text): Byte
    requires a != []
  {
    a[|a| - 1]
  }

  /** The recursive edit distance. */
  function Dist(a: Text, b: Text): nat
    decreases |a| + |b|
  {
    if a == [] then |b|
    else if b == [] then |a|
    else Min(Min(Dist(a, Front(b)) + 1, Dist(Front(a), b) + 1), Dist(Front(a), Front(b)) + Cost(Last(a), Last(b)))
  }

  /** The first n cells of r are the distances from p to the prefixes of b. */
  ghost predicate RowUpTo(r: seq<nat>, p: Text, b: Text, n: nat) {
    n <= |r| && n <= |b| + 1 && forall k :: 0 <= k < n ==> r[k] == Dist(p, b[..k])
  }

  /** LevenshteinDistance: two rows that swap roles after each character of a. */
  method LevenshteinDistance(a: Text, b: Text) returns (d: nat)
    ensures d == Dist(a, b)
  {
    hide Dist, RowUpTo;
    DistSame(a);
    DistEmpty(a, b);
    if a == b { return 0; }
    if |a| == 0 { return |b|; }
    if |b| == 0 { return |a|; }
    var row := new nat[|b| + 1];
    var prevRow := new nat[|b| + 1];
    for j := 0 to |b| + 1
      invariant forall k :: 0 <= k < j ==> prevRow[k] == k
    {
      prevRow[j] := j;
    }
    FirstRow(prevRow[..], b);
    assert a[..0] == [];
    for i := 1 to |a| + 1
      invariant row != prevRow && row.Length == prevRow.Length == |b| + 1
      invariant fresh(row) && fresh(prevRow)
      invariant RowUpTo(prevRow[..], a[..i - 1], b, |b| + 1)
    {
      FillRow(a, b, i, row, prevRow);
      row, prevRow := prevRow, row;
    }
    assert a[..|a|] == a;
    LastCell(prevRow[..], a, b);
    d := prevRow[|b|];
  }

  /** The inner loop: the row of the first i characters from the row of the first i - 1. */
  method FillRow(a: Text, b: Text, i: nat, row: array<nat>, prevRow: array<nat>)
    requires 1 <= i <= |a| && row != prevRow && row.Length == prevRow.Length == |b| + 1
    requires RowUpTo(prevRow[..], a[..i - 1], b, |b| + 1)
    modifies row
    ensures RowUpTo(row[..], a[..i], b, |b| + 1)
  {
    hide Dist, RowUpTo;
    row[0] := i;
    FirstCell(row[..], a, b, i);
    for j := 1 to |b| + 1
      invariant RowUpTo(row[..], a[..i], b, j)
    {
      var cost := if a[i - 1] != b[j - 1] then 1 else 0;
      ghost var before := row[..];
      row[j] := Min(Min(row[j - 1] + 1, prevRow[j] + 1), prevRow[j - 1] + cost);
      assert row[..] == before[j := row[j]];
      NextCell(before, prevRow[..], a, b, i, j);
    }
  }

  lemma DistEmpty(a: Text, b: Text)
    ensures Dist(a, []) == |a| && Dist([], b) == |b|
  {
  }

  lemma FirstRow(r: seq<nat>, b: Text)
    requires |r| == |b| + 1 && forall k :: 0 <= k < |r| ==> r[k] == k
    ensures RowUpTo(r, [], b, |b| + 1)
  {
    forall k | 0 <= k <= |b| ensures Dist([], b[..k]) == k { DistEmpty([], b[..k]); }
  }

  lemma FirstCell(r: seq<nat>, a: Text, b: Text, i: nat)
    requires i <= |a| && |r| == |b| + 1 && r[0] == i
    ensures RowUpTo(r, a[..i], b, 1)
  {
    hide Dist;
    DistEmpty(a[..i], b);
    assert b[..0] == [];
  }

  lemma NextCell(r: seq<nat>, q: seq<nat>, a: Text, b: Text, i: nat, j: nat)
    requires 1 <= i <= |a| && 1 <= j <= |b| && |r| == |b| + 1
    requires RowUpTo(q, a[..i - 1], b, |b| + 1) && RowUpTo(r, a[..i], b, j)
    ensures RowUpTo(r[j := Min(Min(r[j - 1] + 1, q[j] + 1), q[j - 1] + Cost(a[i - 1], b[j - 1]))], a[..i], b, j + 1)
  {
    hide Dist;
    DistCell(a, b, i, j);
  }

  lemma LastCell(r: seq<nat>, a: Text, b: Text)
    requires RowUpTo(r, a, b, |b| + 1)
    ensures r[|b|] == Dist(a, b)
  {
    hide Dist;
    assert b[..|b|] == b;
  }

  lemma {:induction false} DistStep(a: Text, b: Text)
    requires a != [] && b != []
    ensures Dist(a, b) == Min(Min(Dist(a, Front(b)) + 1, Dist(Front(a), b) + 1), Dist(Front(a), Front(b)) + Cost(Last(a), Last(b)))
  {
    hide Min, Front, Last, Cost;
  }

  lemma {:induction false} DistCell(a: Text, b: Text, i: nat, j: nat)
    requires 1 <= i <= |a| && 1 <= j <= |b|
    ensures Dist(a[..i], b[..j]) == Min(Min(Dist(a[..i], b[..j - 1]) + 1, Dist(a[..i - 1], b[..j]) + 1),
                                        Dist(a[..i - 1], b[..j - 1]) + Cost(a[i - 1], b[j - 1]))
  {
    hide Dist;
    var p, q := a[..i], b[..j];
    DistStep(p, q);
    assert Front(p) == a[..i - 1] && Front(q) == b[..j - 1];
    assert Last(p) == a[i - 1] && Last(q) == b[j - 1];
  }

  // ---------- a metric ----------

  lemma {:induction false} DistSame(a: Text)
    ensures Dist(a, a) == 0
    decreases |a|
  {
    if a != [] { DistSame(Front(a)); }
  }

  lemma {:induction false} DistBounds(a: Text, b: Text)
    ensures Max(|a|, |b|) - Min(|a|, |b|) <= Dist(a, b) <= Max(|a|, |b|)
    decreases |a| + |b|
  {
    if a != [] && b != [] {
      DistBounds(a, Front(b));
      DistBounds(Front(a), b);
      DistBounds(Front(a), Front(b));
    }
  }

  lemma {:induction false} DistZero(a: Text, b: Text)
    ensures Dist(a, b) == 0 <==> a == b
    decreases |a| + |b|
  {
    if a == b {
      DistSame(a);
    } else if a != [] && b != [] {
      DistZero(Front(a), Front(b));
      assert a == Front(a) + [Last(a)] && b == Front(b) + [Last(b)];
    }
  }

  lemma {:induction false} DistSymmetric(a: Text, b: Text)
    ensures Dist(a, b) == Dist(b, a)
    decreases |a| + |b|
  {
    if a != [] && b != [] {
      DistSymmetric(a, Front(b));
      DistSymmetric(Front(a), b);
      DistSymmetric(Front(a), Front(b));
    }
  }

  lemma {:induction false} DistTriangle(a: Text, b: Text, c: Text)
    ensures Dist(a, c) <= Dist(a, b) + Dist(b, c)
    decreases |a| + |b| + |c|
  {
    if a == [] || b == [] || c == [] {
      DistBounds(a, b);
      DistBounds(b, c);
      DistBounds(a, c);
    } else if Dist(a, b) == Dist(Front(a), b) + 1 {
      DistTriangle(Front(a), b, c);
    } else if Dist(b, c) == Dist(b, Front(c)) + 1 {
      DistTriangle(a, b, Front(c));
    } else if Dist(a, b) == Dist(a, Front(b)) + 1 {
      if Dist(b, c) == Dist(Front(b), c) + 1 {
        DistTriangle(a, Front(b), c);
      } else {
        DistTriangle(a, Front(b), Front(c));
      }
    } else if Dist(b, c) == Dist(Front(b), c) + 1 {
      DistTriangle(Front(a), Front(b), c);
    } else {
      DistTriangle(Front(a), Front(b), Front(c));
    }
  }

  // ---------- the fewest single-byte edits ----------

  ghost predicate OneEdit(a: Text, b: Text) {
    exists u, v, x, y :: a == u + x + v && b == u + y + v && |x| <= 1 && |y| <= 1 && IsEdit(u, v, x, y)
  }

  ghost predicate IsEdit(u: Text, v: Text, x: Text, y: Text) { true }

  ghost predicate IsScript(p: seq<Text>) {
    p != [] && forall i :: 0 <= i < |p| - 1 ==> OneEdit(p[i], p[i + 1])
  }

  ghost predicate Script(p: seq<Text>, a: Text, b: Text) {
    IsScript(p) && p[0] == a && p[|p| - 1] == b
  }

  lemma {:induction false} AppendFree(a: Text, b: Text, v: Text)
    ensures Dist(a + v, b + v) <= Dist(a, b)
    decreases |v|
  {
    if v == [] {
      assert a + v == a && b + v == b;
    } else {
      AppendFree(a, b, Front(v));
      Regroup(a, v);
      Regroup(b, v);
      hide Dist, Front, Last;
      LastSame(a + Front(v), b + Front(v), Last(v));
    }
  }

  lemma Regroup(a: Text, v: Text)
    requires v != []
    ensures a + v == a + Front(v) + [Last(v)] && |Front(v)| < |v|
  {
  }

  lemma LastSame(a: Text, b: Text, z: Byte)
    ensures Dist(a + [z], b + [z]) <= Dist(a, b)
  {
    assert Front(a + [z]) == a && Front(b + [z]) == b;
  }

  lemma PrependFree(u: Text, x: Text, y: Text)
    requires |x| <= 1 && |y| <= 1
    ensures Dist(u + x, u + y) <= 1
  {
    hide Dist;
    assert u + [] == u;
    if x == [] && y == [] {
      DistSame(u);
    } else if y == [] {
      LastFree(u, x[0]);
      assert x == [x[0]];
    } else if x == [] {
      LastFree(u, y[0]);
      DistSymmetric(u, u + y);
      assert y == [y[0]];
    } else {
      LastChanged(u, x[0], y[0]);
      assert x == [x[0]] && y == [y[0]];
    }
  }

  lemma LastChanged(u: Text, x: Byte, y: Byte)
    ensures Dist(u + [x], u + [y]) <= 1
  {
    DistSame(u);
    assert Front(u + [x]) == u == Front(u + [y]);
  }

  lemma LastFree(u: Text, z: Byte)
    ensures Dist(u + [z], u) <= 1
  {
    DistSame(u);
    assert Front(u + [z]) == u;
  }

  /** No script is shorter than the distance. */
  lemma {:induction false} ScriptsAreLonger(p: seq<Text>)
    requires IsScript(p)
    ensures Dist(p[0], p[|p| - 1]) <= |p| - 1
    decreases |p|
  {
    DistSame(p[0]);
    if |p| > 1 {
      var q := p[..|p| - 1];
      forall i | 0 <= i < |q| - 1 ensures OneEdit(q[i], q[i + 1]) { assert OneEdit(p[i], p[i + 1]); }
      ScriptsAreLonger(q);
      assert OneEdit(p[|p| - 2], p[|p| - 2 + 1]);
      var u, v, x, y :| p[|p| - 2] == u + x + v && p[|p| - 1] == u + y + v && |x| <= 1 && |y| <= 1 && IsEdit(u, v, x, y);
      PrependFree(u, x, y);
      AppendFree(u + x, u + y, v);
      DistTriangle(p[0], p[|p| - 2], p[|p| - 1]);
    }
  }

  lemma EditByAppending(a: Text, b: Text, z: Byte)
    requires OneEdit(a, b)
    ensures OneEdit(a + [z], b + [z])
  {
    var u, v, x, y :| a == u + x + v && b == u + y + v && |x| <= 1 && |y| <= 1 && IsEdit(u, v, x, y);
    assert a + [z] == u + x + (v + [z]) && b + [z] == u + y + (v + [z]) && IsEdit(u, v + [z], x, y);
  }

  lemma EditAtEnd(a: Text, x: Text, y: Text)
    requires |x| <= 1 && |y| <= 1
    ensures OneEdit(a + x, a + y)
  {
    assert a + x == a + x + [] && a + y == a + y + [] && IsEdit(a, [], x, y);
  }

  lemma ScriptPlusOne(p: seq<Text>, a: Text, b: Text, c: Text)
    requires Script(p, a, b) && OneEdit(b, c)
    ensures Script(p + [c], a, c)
  {
  }

  lemma OnePlusScript(a: Text, b: Text, p: seq<Text>, c: Text)
    requires OneEdit(a, b) && Script(p, b, c)
    ensures Script([a] + p, a, c)
  {
    var q := [a] + p;
    forall i | 0 <= i < |q| - 1 ensures OneEdit(q[i], q[i + 1]) {
      if i > 0 { assert q[i] == p[i - 1] && q[i + 1] == p[i - 1 + 1]; }
    }
  }

  lemma ScriptAppending(p: seq<Text>, a: Text, b: Text, z: Byte) returns (q: seq<Text>)
    requires Script(p, a, b)
    ensures Script(q, a + [z], b + [z]) && |q| == |p|
  {
    hide OneEdit;
    q := seq(|p|, i requires 0 <= i < |p| => p[i] + [z]);
    forall i | 0 <= i < |q| - 1 ensures OneEdit(q[i], q[i + 1]) {
      EditByAppending(p[i], p[i + 1], z);
    }
  }

  lemma ScriptDropping(a: Text, b: Text, q: seq<Text>) returns (p: seq<Text>)
    requires a != [] && Script(q, Front(a), b)
    ensures Script(p, a, b) && |p| == |q| + 1
  {
    hide OneEdit;
    EditAtEnd(Front(a), [Last(a)], []);
    assert Front(a) + [Last(a)] == a && Front(a) + [] == Front(a);
    OnePlusScript(a, Front(a), q, b);
    p := [a] + q;
  }

  lemma ScriptAdding(a: Text, b: Text, q: seq<Text>) returns (p: seq<Text>)
    requires b != [] && Script(q, a, Front(b))
    ensures Script(p, a, b) && |p| == |q| + 1
  {
    hide OneEdit;
    EditAtEnd(Front(b), [], [Last(b)]);
    assert Front(b) + [Last(b)] == b && Front(b) + [] == Front(b);
    ScriptPlusOne(q, a, Front(b), b);
    p := q + [b];
  }

  lemma ScriptChanging(a: Text, b: Text, q: seq<Text>) returns (p: seq<Text>)
    requires a != [] && b != [] && Script(q, Front(a), Front(b))
    ensures Script(p, a, b) && |p| == |q| + Cost(Last(a), Last(b))
  {
    hide OneEdit;
    p := ScriptAppending(q, Front(a), Front(b), Last(a));
    assert Front(a) + [Last(a)] == a && Front(b) + [Last(b)] == b;
    if Last(a) != Last(b) {
      EditAtEnd(Front(b), [Last(a)], [Last(b)]);
      ScriptPlusOne(p, a, Front(b) + [Last(a)], b);
      p := p + [b];
    }
  }

  /** And some script reaches it: the distance is the fewest single-byte insertions, deletions and
      substitutions. */
  lemma {:induction false} ShortestScript(a: Text, b: Text) returns (p: seq<Text>)
    ensures Script(p, a, b) && |p| - 1 == Dist(a, b)
    decreases |a| + |b|
  {
    hide OneEdit;
    if a == [] && b == [] {
      p := [a];
    } else if a != [] && (b == [] || Dist(a, b) == Dist(Front(a), b) + 1) {
      if b == [] { DistBounds(Front(a), b); }
      p := ShortestScript(Front(a), b);
      p := ScriptDropping(a, b, p);
    } else if a == [] || Dist(a, b) == Dist(a, Front(b)) + 1 {
      if a == [] { DistBounds(a, Front(b)); }
      p := ShortestScript(a, Front(b));
      p := ScriptAdding(a, b, p);
    } else {
      p := ShortestScript(Front(a), Front(b));
      p := ScriptChanging(a, b, p);
    }
  }

  // ---------- similarity ----------

  function Similarity(a: Text, b: Text): real {
    var m := Max(|a|, |b|);
    if m == 0 then 1.0 else 1.0 - Dist(a, b) as real / m as real
  }

  lemma SimilarityBounds(a: Text, b: Text)
    ensures 0.0 <= Similarity(a, b) <= 1.0
    ensures Similarity(a, b) == 1.0 <==> a == b
    ensures Similarity(a, b) == Similarity(b, a)
    ensures (1.0 - Similarity(a, b)) * Max(|a|, |b|) as real == Dist(a, b) as real
  {
    hide Dist, Similarity;
    DistBounds(a, b);
    DistZero(a, b);
    DistSymmetric(a, b);
    SimilarityIs(a, b);
    SimilarityIs(b, a);
    if Max(|a|, |b|) > 0 { Share(Dist(a, b), Max(|a|, |b|), Similarity(a, b)); }
  }

  lemma SimilarityIs(a: Text, b: Text)
    ensures var m := Max(|a|, |b|); Similarity(a, b) == if m == 0 then 1.0 else 1.0 - Dist(a, b) as real / m as real
  {
  }

  lemma AtMost(f: real, m: real, k: real)
    requires m > 0.0 && f * m == k && 0.0 <= k <= m
    ensures 0.0 <= f <= 1.0 && (f == 0.0 <==> k == 0.0)
  {
    assert f > 1.0 ==> (f - 1.0) * m > 0.0;
    assert f < 0.0 ==> (0.0 - f) * m > 0.0;
    assert f > 0.0 ==> f * m > 0.0;
  }

  lemma Share(k: nat, m: nat, s: real)
    requires k <= m && m > 0 && s == 1.0 - k as real / m as real
    ensures 0.0 <= s <= 1.0
    ensures s == 1.0 <==> k == 0
    ensures (1.0 - s) * m as real == k as real
  {
    var f := k as real / m as real;
    assert f * m as real == k as real && 1.0 - s == f;
    AtMost(f, m as real, k as real);
  }

  method Levenshtein(a: Text, b: Text) returns (s: real)
    ensures s == Similarity(a, b)
  {
    var d := LevenshteinDistance(a, b);
    var m := Max(|a|, |b|);
    if m == 0 { return 1.0; }
    s := 1.0 - d as real / m as real;
  }
}
