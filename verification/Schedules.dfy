/** Broadcasts may be applied to arrays and indices in any order: the trees read alike. */
module Schedules {
  import opened Basics
  import opened LotusSteps
  import opened FieldPaths
  import opened TargetTree
  import opened TreeView
  import opened Scheduler
  import opened Targets

  ghost predicate AlikeTrees(t: Tree, u: Tree) {
    t.Keys == u.Keys && forall r | r in t :: Alike(t[r], u[r])
  }

  lemma AlikeTreesOnce(t: Tree, u: Tree, v: Tree)
    requires AlikeTrees(t, u) && AlikeTrees(u, v)
    ensures AlikeTrees(t, v) && AlikeTrees(u, t)
  {
    hide Alike;
    forall r | r in t ensures Alike(t[r], v[r]) && Alike(u[r], t[r]) { AlikeOnce(t[r], u[r], v[r]); }
  }

  function RootNode(t: Tree, id: string): Node { if id in t then t[id] else Node(id, 0, Nil, [], []) }

  /** What a write that is not refused does. */
  lemma WriteOneIs(fs: seq<Field>, conv: Converter, t: Tree, w: Write)
    requires Unique(fs) && w.field in Ids(fs)
    ensures Chain(fs, w.field).Some? && Chain(fs, w.field).value != []
    ensures var c := Chain(fs, w.field).value;
      && Plain(Keys(c[1..], w.index))
      && WriteOne(fs, conv, t, w) ==
           if conv(w.field, w.value).None? then t
           else t[c[0].id := Put(RootNode(t, c[0].id), Keys(c[1..], w.index), conv(w.field, w.value).value)]
  {
    ChainShape(fs, w.field);
  }

  lemma AlikeRoots(t: Tree, u: Tree, id: string)
    requires AlikeTrees(t, u)
    ensures Alike(RootNode(t, id), RootNode(u, id))
  {
    hide Alike, ValueAt;
    AlikeSelf(Node(id, 0, Nil, [], []));
  }

  lemma AlikeSelf(n: Node)
    ensures Alike(n, n)
  {
  }

  lemma WriteOneAlike(fs: seq<Field>, conv: Converter, t: Tree, u: Tree, w: Write)
    requires Unique(fs) && w.field in Ids(fs) && AlikeTrees(t, u)
    ensures AlikeTrees(WriteOne(fs, conv, t, w), WriteOne(fs, conv, u, w))
  {
    hide Alike, Put, Plain, WriteOne, Unique, Ids, Chain;
    WriteOneIs(fs, conv, t, w);
    WriteOneIs(fs, conv, u, w);
    var c := Chain(fs, w.field).value;
    if conv(w.field, w.value).Some? {
      AlikeRoots(t, u, c[0].id);
      PutAlike(RootNode(t, c[0].id), RootNode(u, c[0].id), Keys(c[1..], w.index), conv(w.field, w.value).value);
    }
  }

  /** The two writes land in different trees or at paths that do not meet. */
  ghost predicate Clear(fs: seq<Field>, w: Write, x: Write) {
    && Chain(fs, w.field).Some? && Chain(fs, x.field).Some?
    && var c, d := Chain(fs, w.field).value, Chain(fs, x.field).value;
    && c != [] && d != []
    && (c[0].id == d[0].id ==> TargetTree.Apart(Keys(c[1..], w.index), Keys(d[1..], x.index)))
  }

  lemma WritesCommute(fs: seq<Field>, conv: Converter, t: Tree, w: Write, x: Write)
    requires Unique(fs) && w.field in Ids(fs) && x.field in Ids(fs) && Clear(fs, w, x)
    ensures AlikeTrees(WriteOne(fs, conv, WriteOne(fs, conv, t, w), x), WriteOne(fs, conv, WriteOne(fs, conv, t, x), w))
  {
    hide Alike, Put, Plain, WriteOne, Unique, Ids, Chain, TargetTree.Apart;
    var tw, tx := WriteOne(fs, conv, t, w), WriteOne(fs, conv, t, x);
    WriteOneIs(fs, conv, t, w);
    WriteOneIs(fs, conv, t, x);
    WriteOneIs(fs, conv, tw, x);
    WriteOneIs(fs, conv, tx, w);
    var c, d := Chain(fs, w.field).value, Chain(fs, x.field).value;
    var a, b := WriteOne(fs, conv, tw, x), WriteOne(fs, conv, tx, w);
    forall r | r in a ensures Alike(a[r], b[r]) {
      AlikeSelf(a[r]);
      if conv(w.field, w.value).Some? && conv(x.field, x.value).Some? && c[0].id == d[0].id {
        PutsCommute(RootNode(t, c[0].id), Keys(c[1..], w.index), conv(w.field, w.value).value,
                    Keys(d[1..], x.index), conv(x.field, x.value).value);
      }
    }
  }

  // ---------- blocks ----------

  /** Writes to items of different arrays, or to different items of one. */
  ghost predicate OtherBlock(fs: seq<Field>, w: Write, x: Write) {
    && RootOf(fs, w.field).Some? && RootOf(fs, x.field).Some?
    && (RootOf(fs, w.field) != RootOf(fs, x.field) || w.index != x.index)
  }

  lemma OtherBlockNotAbove(fs: seq<Field>, w: Write, x: Write)
    requires Unique(fs) && w.field in Ids(fs) && x.field in Ids(fs) && OtherBlock(fs, w, x)
    requires Chain(fs, w.field).Some? && Chain(fs, x.field).Some?
    requires var c, d := Chain(fs, w.field).value, Chain(fs, x.field).value; c != [] && d != [] && c[0].id == d[0].id
    ensures var c, d := Chain(fs, w.field).value, Chain(fs, x.field).value;
      !(Keys(c[1..], w.index) <= Keys(d[1..], x.index))
  {
    hide Chain, Unique, Ids;
    var c, d := Chain(fs, w.field).value, Chain(fs, x.field).value;
    var ks, ls := Keys(c[1..], w.index), Keys(d[1..], x.index);
    if !(c <= d) {
      NotAbove(fs, w.field, w.index, x.field, x.index);
    } else {
      ChainShape(fs, w.field);
      var k := ItemHop(c);
      assert d == c + d[|c|..];
      RootOfPrefix(c, d[|c|..]);
      assert c[k] == d[k] && k > 0;
      assert ks[k - 1] == KeyOf(c[k], w.index);
      PrefixAt(ks, ls, k - 1);
    }
  }

  lemma PrefixAt(ks: seq<Key>, ls: seq<Key>, k: nat)
    requires k < |ks|
    ensures ks <= ls ==> k < |ls| && ls[k] == ks[k]
  {
  }

  lemma {:induction false} RootOfPrefix(c: seq<Hop>, e: seq<Hop>)
    ensures ArrayRoot(c).Some? ==> ArrayRoot(c + e) == ArrayRoot(c)
  {
    if c != [] {
      RootOfPrefix(c[1..], e);
      assert (c + e)[1..] == c[1..] + e;
    }
  }

  lemma OtherBlockClear(fs: seq<Field>, w: Write, x: Write)
    requires Unique(fs) && w.field in Ids(fs) && x.field in Ids(fs) && OtherBlock(fs, w, x)
    ensures Clear(fs, w, x)
  {
    hide Chain, Unique, Ids;
    ChainShape(fs, w.field);
    ChainShape(fs, x.field);
    var c, d := Chain(fs, w.field).value, Chain(fs, x.field).value;
    if c[0].id == d[0].id {
      OtherBlockNotAbove(fs, w, x);
      OtherBlockNotAbove(fs, x, w);
    }
  }

  ghost predicate Blocked(fs: seq<Field>, ws: seq<Write>) { forall w <- ws :: w.field in Ids(fs) && RootOf(fs, w.field).Some? }

  lemma WriteAllLast(fs: seq<Field>, conv: Converter, t: Tree, ws: seq<Write>, w: Write)
    ensures WriteAll(fs, conv, t, ws + [w]) == WriteOne(fs, conv, WriteAll(fs, conv, t, ws), w)
  {
    hide WriteOne;
    assert (ws + [w])[..|ws|] == ws;
  }

  /** A write may be done after writes to other blocks instead of before. */
  lemma {:induction false} MoveLast(fs: seq<Field>, conv: Converter, t: Tree, w: Write, bs: seq<Write>)
    requires Unique(fs) && Blocked(fs, [w]) && Blocked(fs, bs) && forall b <- bs :: OtherBlock(fs, w, b)
    ensures AlikeTrees(WriteAll(fs, conv, WriteOne(fs, conv, t, w), bs), WriteOne(fs, conv, WriteAll(fs, conv, t, bs), w))
    decreases |bs|
  {
    hide WriteOne, AlikeTrees, Unique, Ids, OtherBlock, RootOf;
    assert w in [w];
    if bs == [] {
      AlikeTreesSelf(WriteOne(fs, conv, t, w));
    } else {
      var n := |bs| - 1;
      var b, front := bs[n], bs[..n];
      assert b in bs && forall x <- front :: x in bs;
      MoveLast(fs, conv, t, w, front);
      var x := WriteAll(fs, conv, t, front);
      WriteOneAlike(fs, conv, WriteAll(fs, conv, WriteOne(fs, conv, t, w), front), WriteOne(fs, conv, x, w), b);
      OtherBlockClear(fs, w, b);
      WritesCommute(fs, conv, x, w, b);
      AlikeTreesOnce(WriteAll(fs, conv, WriteOne(fs, conv, t, w), bs), WriteOne(fs, conv, WriteOne(fs, conv, x, w), b),
                     WriteOne(fs, conv, WriteOne(fs, conv, x, b), w));
    }
  }

  lemma AlikeTreesSelf(t: Tree)
    ensures AlikeTrees(t, t)
  {
    hide Alike;
    forall r | r in t ensures Alike(t[r], t[r]) { AlikeSelf(t[r]); }
  }

  lemma {:induction false} WriteAllAlike(fs: seq<Field>, conv: Converter, t: Tree, u: Tree, ws: seq<Write>)
    requires Unique(fs) && (forall w <- ws :: w.field in Ids(fs)) && AlikeTrees(t, u)
    ensures AlikeTrees(WriteAll(fs, conv, t, ws), WriteAll(fs, conv, u, ws))
    decreases |ws|
  {
    hide WriteOne, AlikeTrees, Unique, Ids;
    if ws != [] {
      var n := |ws| - 1;
      assert ws[n] in ws;
      WriteAllAlike(fs, conv, t, u, ws[..n]);
      WriteOneAlike(fs, conv, WriteAll(fs, conv, t, ws[..n]), WriteAll(fs, conv, u, ws[..n]), ws[n]);
    }
  }

  // ---------- the same blocks in two orders ----------

  ghost predicate SameLandings(fs: seq<Field>, ws: seq<Write>, us: seq<Write>) {
    forall r, i :: Landing(fs, ws, r, i) == Landing(fs, us, r, i)
  }

  lemma {:induction false} LandingStep(fs: seq<Field>, ws: seq<Write>, w: Write, r: string, i: int)
    ensures Landing(fs, ws + [w], r, i) ==
      if RootOf(fs, w.field) == Some(r) && w.index == i then Landing(fs, ws, r, i) + [w] else Landing(fs, ws, r, i)
  {
    hide RootOf;
    assert (ws + [w])[..|ws|] == ws;
  }

  /** The last write of ws on item i of array r, and what follows it. */
  lemma {:induction false} SplitLast(fs: seq<Field>, ws: seq<Write>, r: string, i: int) returns (j: nat)
    requires Landing(fs, ws, r, i) != []
    ensures j < |ws| && RootOf(fs, ws[j].field) == Some(r) && ws[j].index == i
    ensures forall k :: j < k < |ws| ==> RootOf(fs, ws[k].field) != Some(r) || ws[k].index != i
    ensures Landing(fs, ws, r, i) == Landing(fs, ws[..j], r, i) + [ws[j]]
    decreases |ws|
  {
    hide RootOf;
    var n := |ws| - 1;
    if RootOf(fs, ws[n].field) == Some(r) && ws[n].index == i {
      j := n;
    } else {
      j := SplitLast(fs, ws[..n], r, i);
      assert ws[..n][..j] == ws[..j];
    }
  }

  lemma {:induction false} LandingOthers(fs: seq<Field>, a: seq<Write>, bs: seq<Write>, w: Write, x: string, y: int)
    requires RootOf(fs, w.field).Some?
    requires forall b <- bs :: RootOf(fs, b.field) != RootOf(fs, w.field) || b.index != w.index
    ensures Landing(fs, a + [w] + bs, x, y) ==
      if RootOf(fs, w.field) == Some(x) && w.index == y then Landing(fs, a, x, y) + [w] else Landing(fs, a + bs, x, y)
    ensures RootOf(fs, w.field) == Some(x) && w.index == y ==> Landing(fs, a + bs, x, y) == Landing(fs, a, x, y)
    decreases |bs|
  {
    hide RootOf, Landing;
    if bs == [] {
      assert a + [w] + bs == a + [w] && a + bs == a;
      LandingStep(fs, a, w, x, y);
    } else {
      var n := |bs| - 1;
      assert bs[n] in bs;
      LandingOthers(fs, a, bs[..n], w, x, y);
      assert a + [w] + bs == (a + [w] + bs[..n]) + [bs[n]] && a + bs == (a + bs[..n]) + [bs[n]];
      LandingStep(fs, a + [w] + bs[..n], bs[n], x, y);
      LandingStep(fs, a + bs[..n], bs[n], x, y);
    }
  }

  lemma {:induction false} LandingNone(fs: seq<Field>, ws: seq<Write>)
    requires Blocked(fs, ws) && forall r, i :: Landing(fs, ws, r, i) == []
    ensures ws == []
  {
    hide RootOf, Ids;
    if ws != [] {
      var n := |ws| - 1;
      assert ws[n] in ws && ws == ws[..n] + [ws[n]];
      LandingStep(fs, ws[..n], ws[n], RootOf(fs, ws[n].field).value, ws[n].index);
    }
  }

  lemma Rest(fs: seq<Field>, ws: seq<Write>, us: seq<Write>, j: nat)
    requires us != [] && SameLandings(fs, ws, us) && Blocked(fs, ws) && Blocked(fs, us) && j < |ws|
    requires var w := us[|us| - 1]; ws[j] == w && forall b <- ws[j + 1..] :: RootOf(fs, b.field) != RootOf(fs, w.field) || b.index != w.index
    ensures SameLandings(fs, ws[..j] + ws[j + 1..], us[..|us| - 1])
  {
    hide RootOf, Landing, Ids;
    var n := |us| - 1;
    var w := us[n];
    assert w in us;
    assert ws == ws[..j] + [w] + ws[j + 1..] && us == us[..n] + [w];
    forall r, i ensures Landing(fs, ws[..j] + ws[j + 1..], r, i) == Landing(fs, us[..n], r, i) {
      LandingOthers(fs, ws[..j], ws[j + 1..], w, r, i);
      LandingStep(fs, us[..n], w, r, i);
      assert Landing(fs, ws, r, i) == Landing(fs, us, r, i);
      if RootOf(fs, w.field) == Some(r) && w.index == i {
        SameLast(Landing(fs, ws[..j], r, i), w, Landing(fs, us[..n], r, i), w);
      }
    }
  }

  /** Where the last write of the one schedule is in the other: nothing after it is at the same place. */
  lemma LastOf(fs: seq<Field>, ws: seq<Write>, us: seq<Write>) returns (j: nat)
    requires us != [] && Blocked(fs, ws) && Blocked(fs, us) && SameLandings(fs, ws, us)
    ensures j < |ws| && ws[j] == us[|us| - 1]
    ensures forall b <- ws[j + 1..] :: RootOf(fs, b.field) != RootOf(fs, ws[j].field) || b.index != ws[j].index
  {
    hide RootOf, Landing;
    var n := |us| - 1;
    var w := us[n];
    assert w in us && us == us[..n] + [w];
    var r := RootOf(fs, w.field).value;
    LandingStep(fs, us[..n], w, r, w.index);
    assert Landing(fs, ws, r, w.index) == Landing(fs, us, r, w.index);
    j := SplitLast(fs, ws, r, w.index);
    SameLast(Landing(fs, ws[..j], r, w.index), ws[j], Landing(fs, us[..n], r, w.index), w);
    forall b | b in ws[j + 1..] ensures RootOf(fs, b.field) != RootOf(fs, w.field) || b.index != w.index {
      var k :| 0 <= k < |ws| - j - 1 && ws[j + 1..][k] == b;
      assert ws[j + 1 + k] == b;
    }
  }

  /** Two sequences with the same writes on every item, in the same order on each, give trees that read alike. */
  lemma {:induction false} SameBlocks(fs: seq<Field>, conv: Converter, t: Tree, ws: seq<Write>, us: seq<Write>)
    requires Unique(fs) && Blocked(fs, ws) && Blocked(fs, us) && SameLandings(fs, ws, us)
    ensures AlikeTrees(WriteAll(fs, conv, t, ws), WriteAll(fs, conv, t, us))
    decreases |us|
  {
    hide WriteOne, WriteAll, AlikeTrees, Unique, Ids, RootOf, Landing;
    if us == [] {
      NothingLands(fs);
      assert forall r, i :: Landing(fs, ws, r, i) == Landing(fs, us, r, i) == [];
      LandingNone(fs, ws);
      AlikeTreesSelf(WriteAll(fs, conv, t, us));
    } else {
      var n := |us| - 1;
      var w := us[n];
      assert us == us[..n] + [w];
      var j := LastOf(fs, ws, us);
      var a, bs := ws[..j], ws[j + 1..];
      assert ws == a + [w] + bs;
      Rest(fs, ws, us, j);
      SameBlocks(fs, conv, t, a + bs, us[..n]);
      Moved(fs, conv, t, a, w, bs);
      WriteOneAlike(fs, conv, WriteAll(fs, conv, t, a + bs), WriteAll(fs, conv, t, us[..n]), w);
      WriteAllLast(fs, conv, t, us[..n], w);
      AlikeTreesOnce(WriteAll(fs, conv, t, ws), WriteOne(fs, conv, WriteAll(fs, conv, t, a + bs), w), WriteAll(fs, conv, t, us));
    }
  }

  lemma SameLast(xs: seq<Write>, x: Write, ys: seq<Write>, y: Write)
    requires xs + [x] == ys + [y]
    ensures x == y && xs == ys
  {
    assert |xs| == |ys|;
    assert (xs + [x])[|xs|] == x && (ys + [y])[|ys|] == y;
    assert (xs + [x])[..|xs|] == xs && (ys + [y])[..|ys|] == ys;
  }

  lemma NothingLands(fs: seq<Field>)
    ensures forall r, i :: Landing(fs, [], r, i) == []
  {
  }

  lemma Moved(fs: seq<Field>, conv: Converter, t: Tree, a: seq<Write>, w: Write, bs: seq<Write>)
    requires Unique(fs) && Blocked(fs, a + [w] + bs)
    requires forall b <- bs :: RootOf(fs, b.field) != RootOf(fs, w.field) || b.index != w.index
    ensures AlikeTrees(WriteAll(fs, conv, t, a + [w] + bs), WriteOne(fs, conv, WriteAll(fs, conv, t, a + bs), w))
  {
    hide WriteOne, WriteAll, AlikeTrees, Unique, Ids, RootOf;
    var all := a + [w] + bs;
    assert all[|a|] == w && w in all && forall b <- bs :: b in all;
    assert forall x <- [w] :: x == w;
    WriteAllConcat(fs, conv, t, a + [w], bs);
    WriteAllLast(fs, conv, t, a, w);
    WriteAllConcat(fs, conv, t, a, bs);
    MoveLast(fs, conv, WriteAll(fs, conv, t, a), w, bs);
  }
}
