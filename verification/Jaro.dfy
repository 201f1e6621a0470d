/** Jaro and Jaro-Winkler: the greedy pairing of equal bytes inside a sliding window, the scan that
    counts transpositions, and the bounds of the two scores over the reals. */
module Jaro {
  import opened Basics
  import opened Texts

  // ---------- the greedy pairing ----------

  /** The farthest a byte of one string may lie from its partner in the other. */
  function Reach(a: Text, b: Text): nat {
    Max(Max(|a|, |b|) / 2 - 1, 0)
  }

  function WindowStart(a: Text, b: Text, i: nat): nat { Max(0, i - Reach(a, b)) }
  function WindowEnd(a: Text, b: Text, i: nat): nat { Min(|b|, i + Reach(a, b) + 1) }

  /** j may become the partner of a[i] once the earlier bytes have the partners p. */
  predicate Free(a: Text, b: Text, p: seq<int>, i: nat, j: int)
    requires i < |a|
  {
    WindowStart(a, b, i) <= j < WindowEnd(a, b, i) && j !in p && a[i] == b[j]
  }

  /** j is the first free position for a[i], or -1 when there is none. */
  ghost predicate First(a: Text, b: Text, p: seq<int>, i: nat, j: int)
    requires i < |a|
  {
    && (j == -1 || Free(a, b, p, i, j))
    && forall k :: Free(a, b, p, i, k) ==> 0 <= j <= k
  }

  /** The partners, -1 for none, that byte after byte takes greedily. */
  ghost predicate Greedy(a: Text, b: Text, p: seq<int>) {
    |p| <= |a| && forall i :: 0 <= i < |p| ==> First(a, b, p[..i], i, p[i])
  }

  function FirstFree(a: Text, b: Text, p: seq<int>, i: nat, j: nat): int
    requires i < |a|
    decreases WindowEnd(a, b, i) - j
  {
    if j >= WindowEnd(a, b, i) then -1 else if Free(a, b, p, i, j) then j else FirstFree(a, b, p, i, j + 1)
  }

  function Partners(a: Text, b: Text, n: nat): seq<int>
    requires n <= |a|
  {
    if n == 0 then []
    else
      var p := Partners(a, b, n - 1);
      p + [FirstFree(a, b, p, n - 1, WindowStart(a, b, n - 1))]
  }

  lemma {:induction false} FirstFreeIsFirst(a: Text, b: Text, p: seq<int>, i: nat, j: nat)
    requires i < |a| && forall k :: Free(a, b, p, i, k) ==> j <= k
    ensures First(a, b, p, i, FirstFree(a, b, p, i, j))
    decreases WindowEnd(a, b, i) - j
  {
    if j < WindowEnd(a, b, i) && !Free(a, b, p, i, j) {
      FirstFreeIsFirst(a, b, p, i, j + 1);
    }
  }

  lemma FirstIsUnique(a: Text, b: Text, p: seq<int>, i: nat, j: int, k: int)
    requires i < |a| && First(a, b, p, i, j) && First(a, b, p, i, k)
    ensures j == k
  {
  }

  /** The pairing is determined: greedy means exactly Partners. */
  lemma {:induction false} PartnersAreGreedy(a: Text, b: Text, p: seq<int>)
    requires |p| <= |a|
    ensures Greedy(a, b, p) <==> p == Partners(a, b, |p|)
    decreases |p|
  {
    if p != [] {
      var n := |p| - 1;
      var q := p[..n];
      PartnersAreGreedy(a, b, q);
      FirstFreeIsFirst(a, b, q, n, WindowStart(a, b, n));
      assert forall i | 0 <= i < n :: q[..i] == p[..i];
      if Greedy(a, b, p) {
        assert forall i | 0 <= i < n :: First(a, b, p[..i], i, p[i]);
        FirstIsUnique(a, b, q, n, p[n], FirstFree(a, b, q, n, WindowStart(a, b, n)));
        assert p == q + [p[n]];
      }
      if p == Partners(a, b, |p|) {
        assert q == Partners(a, b, n);
        forall i | 0 <= i < |p| ensures First(a, b, p[..i], i, p[i]) {
          if i < n { assert First(a, b, q[..i], i, q[i]); }
        }
      }
    }
  }

  /** Two positions are fewer than half the longer length apart, or the same. */
  ghost predicate Near(a: Text, b: Text, i: nat, j: nat) {
    i == j || (2 * (if i < j then j - i else i - j) + 2 <= if |a| < |b| then |b| else |a|)
  }

  lemma WindowIs(a: Text, b: Text, i: nat, j: nat)
    requires i < |a| && j < |b|
    ensures WindowStart(a, b, i) <= j < WindowEnd(a, b, i) <==> Near(a, b, i, j)
  {
  }

  /** Partners are equal bytes near each other, and nobody's partner twice. */
  lemma PartnersAreNear(a: Text, b: Text, i: nat)
    requires i < |a|
    ensures var p := Partners(a, b, |a|);
      && |p| == |a|
      && (p[i] != -1 ==> 0 <= p[i] < |b| && a[i] == b[p[i]] && Near(a, b, i, p[i]) && p[i] !in p[..i])
  {
    PartnersLength(a, b, |a|);
    var p := Partners(a, b, |a|);
    PartnersAreGreedy(a, b, p);
    assert First(a, b, p[..i], i, p[i]);
    if p[i] != -1 { WindowIs(a, b, i, p[i]); }
  }

  /** No pair could be added: two equal bytes near each other are not both left unmarked. */
  lemma PairingIsMaximal(a: Text, b: Text, i: nat, j: nat)
    requires i < |a| && j < |b| && Near(a, b, i, j) && a[i] == b[j]
    ensures var p := Partners(a, b, |a|); |p| == |a| && (p[i] != -1 || j in p)
  {
    WindowIs(a, b, i, j);
    PartnersLength(a, b, |a|);
    var p := Partners(a, b, |a|);
    PartnersAreGreedy(a, b, p);
    assert First(a, b, p[..i], i, p[i]);
    if j !in p { assert Free(a, b, p[..i], i, j); }
  }

  lemma {:induction false} PartnersLength(a: Text, b: Text, n: nat)
    requires n <= |a|
    ensures |Partners(a, b, n)| == n
  {
    if n > 0 { PartnersLength(a, b, n - 1); }
  }

  // ---------- what the two strings keep ----------

  function Left(p: seq<int>, n: nat): (m: seq<bool>)
    ensures |m| == n
  {
    seq(n, i requires 0 <= i < n => i < |p| && p[i] != -1)
  }

  function Right(p: seq<int>, n: nat): (m: seq<bool>)
    ensures |m| == n
  {
    seq(n, j requires 0 <= j < n => j in p)
  }

  /** The marked bytes among the first n, in order. */
  function Kept(s: Text, m: seq<bool>, n: nat): Text
    requires n <= |s| && |m| == |s|
  {
    if n == 0 then [] else Kept(s, m, n - 1) + if m[n - 1] then [s[n - 1]] else []
  }

  lemma {:induction false} KeptMark(s: Text, m: seq<bool>, j: nat, n: nat)
    requires n <= |s| && |m| == |s| && j < |s| && !m[j]
    ensures multiset(Kept(s, m[j := true], n)) == multiset(Kept(s, m, n)) + if j < n then multiset{s[j]} else multiset{}
  {
    hide Kept;
    if n == 0 {
      KeptStart(s, m);
      KeptStart(s, m[j := true]);
    } else {
      KeptMark(s, m, j, n - 1);
      KeptAdds(s, m, n);
      KeptAdds(s, m[j := true], n);
      if j == n - 1 {
        assert m[j := true][n - 1];
      } else {
        assert m[j := true][n - 1] == m[n - 1];
      }
    }
  }

  lemma KeptAdds(s: Text, m: seq<bool>, n: nat)
    requires 0 < n <= |s| && |m| == |s|
    ensures m[n - 1] ==> multiset(Kept(s, m, n)) == multiset(Kept(s, m, n - 1)) + multiset{s[n - 1]}
    ensures !m[n - 1] ==> Kept(s, m, n) == Kept(s, m, n - 1)
  {
  }

  lemma {:induction false} KeptPrefix(s: Text, m: seq<bool>, k: nat, n: nat)
    requires k <= n <= |s| && |m| == |s|
    ensures |Kept(s, m, k)| <= |Kept(s, m, n)| <= |Kept(s, m, k)| + n - k
    ensures |Kept(s, m, k)| == |Kept(s, m, n)| ==> Kept(s, m, k) == Kept(s, m, n)
  {
    if k < n { KeptPrefix(s, m, k, n - 1); }
  }

  lemma {:induction false} KeptAll(s: Text, m: seq<bool>, n: nat)
    requires n <= |s| && |m| == |s|
    ensures |Kept(s, m, n)| <= n
    ensures |Kept(s, m, n)| == n ==> Kept(s, m, n) == s[..n]
  {
    if n > 0 { KeptAll(s, m, n - 1); }
  }

  lemma PairMarks(a: Text, b: Text, p: seq<int>, j: nat)
    requires |p| < |a| && Free(a, b, p, |p|, j)
    ensures j < |b| && a[|p|] == b[j] && !Left(p, |a|)[|p|] && !Right(p, |b|)[j]
    ensures Left(p + [j], |a|) == Left(p, |a|)[|p| := true]
    ensures Right(p + [j], |b|) == Right(p, |b|)[j := true]
  {
  }

  lemma NoPairMarks(p: seq<int>, n: nat, m: nat)
    ensures Left(p + [-1], n) == Left(p, n)
    ensures Right(p + [-1], m) == Right(p, m)
  {
  }

  lemma PairKeeps(a: Text, b: Text, p: seq<int>, j: nat)
    requires |p| < |a| && Free(a, b, p, |p|, j)
    ensures multiset(Kept(a, Left(p + [j], |a|), |a|)) == multiset(Kept(a, Left(p, |a|), |a|)) + multiset{a[|p|]}
    ensures multiset(Kept(b, Right(p + [j], |b|), |b|)) == multiset(Kept(b, Right(p, |b|), |b|)) + multiset{a[|p|]}
  {
    hide Left, Right, Kept;
    PairMarks(a, b, p, j);
    KeptMark(a, Left(p, |a|), |p|, |a|);
    KeptMark(b, Right(p, |b|), j, |b|);
  }

  /** Both strings mark the same bytes, equally often. */
  lemma {:induction false} SameBytesKept(a: Text, b: Text, n: nat)
    requires n <= |a|
    ensures var p := Partners(a, b, n);
            multiset(Kept(a, Left(p, |a|), |a|)) == multiset(Kept(b, Right(p, |b|), |b|))
  {
    hide Kept, Left, Right, FirstFree, Free;
    if n == 0 {
      NothingKept(a, b);
    } else {
      var p := Partners(a, b, n - 1);
      var j := FirstFree(a, b, p, n - 1, WindowStart(a, b, n - 1));
      SameBytesKept(a, b, n - 1);
      PartnersLength(a, b, n - 1);
      FirstFreeIsOne(a, b, p, n - 1);
      if j == -1 {
        NoPairMarks(p, |a|, |b|);
      } else {
        PairKeeps(a, b, p, j);
      }
    }
  }

  lemma NothingKept(a: Text, b: Text)
    ensures Kept(a, Left([], |a|), |a|) == [] == Kept(b, Right([], |b|), |b|)
  {
    KeptNone(a, Left([], |a|), |a|);
    KeptNone(b, Right([], |b|), |b|);
  }

  lemma FirstFreeIsOne(a: Text, b: Text, p: seq<int>, i: nat)
    requires i < |a|
    ensures var j := FirstFree(a, b, p, i, WindowStart(a, b, i)); j == -1 || (j >= 0 && Free(a, b, p, i, j))
  {
    FirstFreeIsFirst(a, b, p, i, WindowStart(a, b, i));
  }

  lemma {:induction false} KeptNone(s: Text, m: seq<bool>, n: nat)
    requires n <= |s| && |m| == |s| && forall i :: 0 <= i < |m| ==> !m[i]
    ensures Kept(s, m, n) == []
  {
    if n > 0 { KeptNone(s, m, n - 1); }
  }

  /** Bytes that differ from the byte at the same place of the other kept string. */
  function Misplaced(x: Text, y: Text): nat
    requires |x| == |y|
  {
    if x == [] then 0
    else Misplaced(x[..|x| - 1], y[..|y| - 1]) + if x[|x| - 1] != y[|y| - 1] then 1 else 0
  }

  lemma {:induction false} MisplacedBounds(x: Text, y: Text)
    requires |x| == |y|
    ensures Misplaced(x, y) <= |x|
    ensures Misplaced(x, y) == 0 <==> x == y
  {
    if x != [] {
      MisplacedBounds(x[..|x| - 1], y[..|y| - 1]);
      assert x == x[..|x| - 1] + [x[|x| - 1]] && y == y[..|y| - 1] + [y[|y| - 1]];
    }
  }

  // ---------- the scores ----------

  function KeptLeft(a: Text, b: Text): Text { Kept(a, Left(Partners(a, b, |a|), |a|), |a|) }
  function KeptRight(a: Text, b: Text): Text { Kept(b, Right(Partners(a, b, |a|), |b|), |b|) }

  lemma SameCountKept(a: Text, b: Text)
    ensures |KeptLeft(a, b)| == |KeptRight(a, b)|
  {
    SameBytesKept(a, b, |a|);
    assert |multiset(KeptLeft(a, b))| == |multiset(KeptRight(a, b))|;
  }

  function Score(m: real, t: real, la: real, lb: real): real
    requires m != 0.0 && la != 0.0 && lb != 0.0
  {
    (m / la + m / lb + (m - t) / m) / 3.0
  }

  function JaroOf(a: Text, b: Text): real {
    SameCountKept(a, b);
    if a == b then 1.0
    else if |KeptLeft(a, b)| == 0 || a == [] || b == [] then 0.0
    else Score(|KeptLeft(a, b)| as real, Misplaced(KeptLeft(a, b), KeptRight(a, b)) as real / 2.0, |a| as real, |b| as real)
  }

  lemma Ratio(x: real, y: real)
    requires 0.0 <= x <= y && y > 0.0
    ensures 0.0 <= x / y <= 1.0
    ensures x / y == 1.0 <==> x == y
  {
    var f := x / y;
    assert f * y == x;
    assert f > 1.0 ==> f * y > y;
    assert f < 0.0 ==> f * y < 0.0;
  }

  /** For different strings with marked bytes, the score is the mean of the marked part of either string and of the part
      of the marked bytes that is in place, two misplaced ones counting once. */
  lemma JaroExactly(a: Text, b: Text)
    ensures |KeptLeft(a, b)| == |KeptRight(a, b)|
    ensures a == b ==> JaroOf(a, b) == 1.0
    ensures a != b && KeptLeft(a, b) == [] ==> JaroOf(a, b) == 0.0
    ensures a != b && KeptLeft(a, b) != [] && a != [] && b != [] ==>
      var m, x := |KeptLeft(a, b)| as real, Misplaced(KeptLeft(a, b), KeptRight(a, b)) as real;
      var inA, inB := m / |a| as real, m / |b| as real;
      JaroOf(a, b) * 3.0 * m == inA * m + inB * m + m - x / 2.0
  {
    SameCountKept(a, b);
    hide KeptLeft, KeptRight, Misplaced;
    if a != b && KeptLeft(a, b) != [] && a != [] && b != [] {
      ScoreExactly(|KeptLeft(a, b)| as real, Misplaced(KeptLeft(a, b), KeptRight(a, b)) as real / 2.0, |a| as real, |b| as real);
      hide Score;
    }
  }

  lemma ScoreExactly(m: real, t: real, la: real, lb: real)
    requires m > 0.0 && la > 0.0 && lb > 0.0
    ensures Score(m, t, la, lb) * 3.0 * m == (m / la) * m + (m / lb) * m + m - t
  {
    var inA, inB, inPlace := m / la, m / lb, (m - t) / m;
    assert inPlace * m == m - t;
    assert Score(m, t, la, lb) * 3.0 == inA + inB + inPlace;
    assert (inA + inB + inPlace) * m == inA * m + inB * m + inPlace * m;
  }

  /** The Jaro score lies in [0, 1] and is 1 for equal strings only. */
  lemma JaroBounds(a: Text, b: Text)
    ensures 0.0 <= JaroOf(a, b) <= 1.0
    ensures JaroOf(a, b) == 1.0 <==> a == b
  {
    SameCountKept(a, b);
    var x, y := KeptLeft(a, b), KeptRight(a, b);
    if a != b && |x| > 0 && a != [] && b != [] {
      KeptAll(a, Left(Partners(a, b, |a|), |a|), |a|);
      KeptAll(b, Right(Partners(a, b, |a|), |b|), |b|);
      MisplacedBounds(x, y);
      assert |x| == |a| && |y| == |b| ==> x == a[..|a|] == a && y == b[..|b|] == b;
      ScoreBounds(|x| as real, Misplaced(x, y) as real / 2.0, |a| as real, |b| as real);
    }
  }

  lemma ScoreBounds(m: real, t: real, la: real, lb: real)
    requires 0.0 < m <= la && m <= lb && 0.0 <= t <= m
    ensures 0.0 <= Score(m, t, la, lb) <= 1.0
    ensures Score(m, t, la, lb) == 1.0 <==> m == la && m == lb && t == 0.0
  {
    Ratio(m, la);
    Ratio(m, lb);
    Ratio(m - t, m);
  }

  /** The length of the common prefix, at most four. */
  function Prefix(a: Text, b: Text, n: nat): (k: nat)
    ensures k <= n
  {
    if n == 0 || a == [] || b == [] || a[0] != b[0] then 0 else 1 + Prefix(a[1..], b[1..], n - 1)
  }

  function JaroWinklerOf(a: Text, b: Text): real {
    if a == b then 1.0 else JaroOf(a, b) + Prefix(a, b, 4) as real * 0.1 * (1.0 - JaroOf(a, b))
  }

  /** The common prefix counted is the longest of at most four bytes, and each takes a tenth off what is missing to one. */
  lemma JaroWinklerExactly(a: Text, b: Text) returns (k: nat)
    ensures k <= 4 && k <= |a| && k <= |b| && a[..k] == b[..k]
    ensures k < 4 && k < |a| && k < |b| ==> a[k] != b[k]
    ensures 10.0 * (JaroWinklerOf(a, b) - JaroOf(a, b)) == k as real * (1.0 - JaroOf(a, b))
  {
    k := Prefix(a, b, 4);
    PrefixIs(a, b, 4);
    JaroExactly(a, b);
    hide JaroOf;
  }

  lemma {:induction false} PrefixIs(a: Text, b: Text, n: nat)
    ensures var k := Prefix(a, b, n);
      k <= n && k <= |a| && k <= |b| && a[..k] == b[..k] && (k < n && k < |a| && k < |b| ==> a[k] != b[k])
    decreases n
  {
    if n > 0 && a != [] && b != [] && a[0] == b[0] {
      PrefixIs(a[1..], b[1..], n - 1);
      var k := Prefix(a[1..], b[1..], n - 1);
      assert a[..k + 1] == [a[0]] + a[1..][..k] && b[..k + 1] == [b[0]] + b[1..][..k];
    }
  }

  /** So does the Jaro-Winkler score, which only ever adds. */
  lemma JaroWinklerBounds(a: Text, b: Text)
    ensures JaroOf(a, b) <= JaroWinklerOf(a, b) <= 1.0
    ensures JaroWinklerOf(a, b) == 1.0 <==> a == b
  {
    JaroBounds(a, b);
    var k, j := Prefix(a, b, 4) as real * 0.1, JaroOf(a, b);
    assert 0.0 <= k <= 0.4;
    Boost(k, j);
  }

  lemma Boost(k: real, j: real)
    requires 0.0 <= k <= 0.4 && 0.0 <= j <= 1.0
    ensures j <= j + k * (1.0 - j) <= 1.0
    ensures j + k * (1.0 - j) == 1.0 <==> j == 1.0
  {
    var r := 1.0 - j;
    var rest := 0.4 - k;
    assert k * r >= 0.0 && rest * r >= 0.0;
    assert 0.4 * r == k * r + rest * r;
    if r == 0.0 { assert k * r == 0.0; }
  }

  // ---------- the scans ----------

  /** Marked says that the two arrays hold the pairing p of the first bytes of a. */
  ghost predicate Marked(aM: seq<bool>, bM: seq<bool>, a: Text, b: Text, n: nat) {
    && n <= |a| && |aM| == |a| && |bM| == |b|
    && aM == Left(Partners(a, b, n), |a|)
    && bM == Right(Partners(a, b, n), |b|)
  }

  lemma MarkedNone(aM: seq<bool>, bM: seq<bool>, a: Text, b: Text)
    requires |aM| == |a| && |bM| == |b|
    requires forall i :: 0 <= i < |a| ==> !aM[i]
    requires forall j :: 0 <= j < |b| ==> !bM[j]
    ensures Marked(aM, bM, a, b, 0) && |Kept(a, aM, |a|)| == 0
  {
    KeptNone(a, aM, |a|);
  }

  lemma MarkedFound(aM: seq<bool>, bM: seq<bool>, a: Text, b: Text, i: nat, j: nat)
    requires i < |a| && Marked(aM, bM, a, b, i)
    requires var p := Partners(a, b, i); FirstFree(a, b, p, i, WindowStart(a, b, i)) == j
    ensures j < |b| && Marked(aM[i := true], bM[j := true], a, b, i + 1)
    ensures |Kept(a, aM[i := true], |a|)| == |Kept(a, aM, |a|)| + 1
  {
    hide Left, Right, Kept, Free, FirstFree;
    var p := Partners(a, b, i);
    FirstFreeIsOne(a, b, p, i);
    PartnersLength(a, b, i);
    PairMarks(a, b, p, j);
    KeptMark(a, aM, i, |a|);
    assert |multiset(Kept(a, aM[i := true], |a|))| == |multiset(Kept(a, aM, |a|))| + 1;
  }

  lemma MarkedNothing(aM: seq<bool>, bM: seq<bool>, a: Text, b: Text, i: nat)
    requires i < |a| && Marked(aM, bM, a, b, i)
    requires var p := Partners(a, b, i); FirstFree(a, b, p, i, WindowStart(a, b, i)) == -1
    ensures Marked(aM, bM, a, b, i + 1)
  {
    PartnersLength(a, b, i);
    NoPairMarks(Partners(a, b, i), |a|, |b|);
  }

  lemma FreeNow(aM: seq<bool>, bM: seq<bool>, a: Text, b: Text, i: nat, j: nat)
    requires i < |a| && Marked(aM, bM, a, b, i) && WindowStart(a, b, i) <= j < WindowEnd(a, b, i)
    ensures Free(a, b, Partners(a, b, i), i, j) <==> !bM[j] && a[i] == b[j]
  {
  }

  /** The first scan: the first free equal byte in the window is taken, if there is one. */
  method FindMatches(a: Text, b: Text) returns (aMatches: array<bool>, bMatches: array<bool>, matches: nat)
    ensures fresh(aMatches) && fresh(bMatches)
    ensures Marked(aMatches[..], bMatches[..], a, b, |a|)
    ensures matches == |Kept(a, aMatches[..], |a|)|
  {
    hide Kept, Marked, Partners, FirstFree, Free;
    aMatches := new bool[|a|](_ => false);
    bMatches := new bool[|b|](_ => false);
    matches := 0;
    MarkedNone(aMatches[..], bMatches[..], a, b);
    for i := 0 to |a|
      invariant aMatches.Length == |a| && bMatches.Length == |b| && aMatches != bMatches
      invariant Marked(aMatches[..], bMatches[..], a, b, i)
      invariant matches == |Kept(a, aMatches[..], |a|)|
    {
      var start, end := WindowStart(a, b, i), WindowEnd(a, b, i);
      ghost var p := Partners(a, b, i);
      var j := start;
      while j < end && (bMatches[j] || a[i] != b[j])
        invariant start <= j
        invariant Marked(aMatches[..], bMatches[..], a, b, i)
        invariant matches == |Kept(a, aMatches[..], |a|)|
        invariant FirstFree(a, b, p, i, start) == FirstFree(a, b, p, i, j)
      {
        FreeNow(aMatches[..], bMatches[..], a, b, i, j);
        FirstFreeStep(a, b, p, i, j);
        j := j + 1;
      }
      FirstFreeStep(a, b, p, i, j);
      if j < end {
        FreeNow(aMatches[..], bMatches[..], a, b, i, j);
        MarkedFound(aMatches[..], bMatches[..], a, b, i, j);
        ghost var aM, bM := aMatches[..], bMatches[..];
        aMatches[i] := true;
        bMatches[j] := true;
        assert aMatches[..] == aM[i := true] && bMatches[..] == bM[j := true];
        matches := matches + 1;
      } else {
        MarkedNothing(aMatches[..], bMatches[..], a, b, i);
      }
    }
  }

  lemma {:induction false} FirstFreeStep(a: Text, b: Text, p: seq<int>, i: nat, j: nat)
    requires i < |a|
    ensures j >= WindowEnd(a, b, i) ==> FirstFree(a, b, p, i, j) == -1
    ensures j < WindowEnd(a, b, i) && Free(a, b, p, i, j) ==> FirstFree(a, b, p, i, j) == j
    ensures j < WindowEnd(a, b, i) && !Free(a, b, p, i, j) ==> FirstFree(a, b, p, i, j) == FirstFree(a, b, p, i, j + 1)
  {
  }

  /** The second scan: it never runs past b, because b keeps as many bytes as a. */
  method CountTranspositions(a: Text, b: Text, aM: array<bool>, bM: array<bool>) returns (n: nat)
    requires aM.Length == |a| && bM.Length == |b|
    requires |Kept(a, aM[..], |a|)| == |Kept(b, bM[..], |b|)|
    ensures n == Misplaced(Kept(a, aM[..], |a|), Kept(b, bM[..], |b|))
  {
    hide Kept, Misplaced;
    n := 0;
    var k := 0;
    KeptStart(a, aM[..]);
    KeptStart(b, bM[..]);
    MisplacedStart();
    for i := 0 to |a|
      invariant k <= |b| && |Kept(a, aM[..], i)| == |Kept(b, bM[..], k)|
      invariant n == Misplaced(Kept(a, aM[..], i), Kept(b, bM[..], k))
    {
      KeptStep(a, aM[..], i);
      if aM[i] {
        KeptPrefix(a, aM[..], i + 1, |a|);
        assert k < |b|;
        while !bM[k]
          invariant k < |b|
          invariant |Kept(a, aM[..], i)| == |Kept(b, bM[..], k)|
          invariant n == Misplaced(Kept(a, aM[..], i), Kept(b, bM[..], k))
          decreases |b| - k
        {
          KeptStep(b, bM[..], k);
          k := k + 1;
        }
        KeptStep(b, bM[..], k);
        MisplacedStep(Kept(a, aM[..], i), Kept(b, bM[..], k), a[i], b[k]);
        if a[i] != b[k] { n := n + 1; }
        k := k + 1;
      }
    }
    KeptPrefix(b, bM[..], k, |b|);
  }

  lemma KeptStart(s: Text, m: seq<bool>)
    requires |m| == |s|
    ensures Kept(s, m, 0) == []
  {
  }

  lemma {:induction false} KeptStep(s: Text, m: seq<bool>, n: nat)
    requires n < |s| && |m| == |s|
    ensures Kept(s, m, n + 1) == if m[n] then Kept(s, m, n) + [s[n]] else Kept(s, m, n)
  {
  }

  lemma MisplacedStart()
    ensures Misplaced([], []) == 0
  {
  }

  lemma {:induction false} MisplacedStep(x: Text, y: Text, c: Byte, d: Byte)
    requires |x| == |y|
    ensures Misplaced(x + [c], y + [d]) == Misplaced(x, y) + if c != d then 1 else 0
  {
    assert (x + [c])[..|x|] == x && (y + [d])[..|y|] == y;
  }

  method Jaro(a: Text, b: Text) returns (s: real)
    ensures s == JaroOf(a, b)
  {
    hide Kept, Misplaced, Partners;
    SameCountKept(a, b);
    if a == b { return 1.0; }
    if |a| == 0 || |b| == 0 { return 0.0; }
    var aMatches, bMatches, matches := FindMatches(a, b);
    if matches == 0 { return 0.0; }
    var transpositions := CountTranspositions(a, b, aMatches, bMatches);
    var m, t := matches as real, transpositions as real / 2.0;
    s := (m / |a| as real + m / |b| as real + (m - t) / m) / 3.0;
  }

  method JaroWinkler(a: Text, b: Text) returns (s: real)
    ensures s == JaroWinklerOf(a, b)
  {
    hide JaroOf;
    if a == b { return 1.0; }
    var jaro := Jaro(a, b);
    var prefixLen := 0;
    var i := 0;
    while i < |a| && i < |b| && i < 4 && a[i] == b[i]
      invariant prefixLen == i <= 4 && i <= |a| && i <= |b|
      invariant Prefix(a, b, 4) == i + Prefix(a[i..], b[i..], 4 - i)
    {
      assert a[i..][1..] == a[i + 1..] && b[i..][1..] == b[i + 1..];
      prefixLen := prefixLen + 1;
      i := i + 1;
    }
    s := jaro + prefixLen as real * 0.1 * (1.0 - jaro);
  }
}
