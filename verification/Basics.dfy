/** What the other modules share: optional values, the larger and smaller of two numbers, sizes of subsets. */
module Basics {
  datatype Option<+T> = None | Some(value: T)

  function Min(x: int, y: int): int { if x < y then x else y }
  function Max(x: int, y: int): int { if x > y then x else y }

  lemma Subset<T>(a: set<T>, b: set<T>)
    requires a <= b
    ensures |a| <= |b| && (|a| == |b| ==> a == b)
  {
    assert b == a + (b - a) && |b| == |a| + |b - a|;
    if |a| == |b| { assert b - a == {}; }
  }

  /** Deleting the keys of a map one by one. */
  method Emptied<T>(m: map<string, T>) returns (r: map<string, T>)
    ensures r == map[]
  {
    r := m;
    while r.Keys != {}
      decreases |r.Keys|
    {
      var k :| k in r.Keys;
      ghost var before := r.Keys;
      r := r - {k};
      assert r.Keys == before - {k};
    }
  }
}
