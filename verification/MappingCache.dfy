/** The compiled-mapping cache: locked sections that requests interleave, and what holds after any of them. */
module MappingCache {
  import opened Basics

  /** A definition remembers for which tenant and mapping the repository loaded it. */
  datatype Definition = Definition(tenant: string, mapping: string, version: nat)

  datatype Entry = Entry(def: Definition, expiresAt: int)

  type Cache = map<string, Entry>

  function Key(tenant: string, mapping: string): string { tenant + ":" + mapping }

  predicate OfTenant(key: string, tenant: string) {
    |key| > |tenant| + 1 && key[..|tenant| + 1] == tenant + ":"
  }

  // ---------- the locked sections ----------

  /** One locked section of some request; sections of different requests come in any order. A request stores what it
      loaded after the first `loaded` of them. */
  datatype Section =
    | Lookup(tenant: string, mapping: string, now: int)
    | Store(tenant: string, mapping: string, def: Definition, now: int, loaded: nat)
    | Invalidate(tenant: string, mapping: string)
    | InvalidateTenant(tenant: string)
    | Clear

  /** Half of the entries, rounded down, but at least one. */
  function Evicted(n: nat): nat { if n == 0 then 0 else Max(1, n / 2) }

  /** kept is what eviction may leave of c: which entries go is up to the map. */
  ghost predicate Evicts(c: Cache, kept: Cache) {
    kept.Keys <= c.Keys && (forall k | k in kept :: kept[k] == c[k]) && |kept| == |c| - Evicted(|c|)
  }

  ghost predicate MakesRoom(maxSize: int, c: Cache, kept: Cache) {
    if |c| >= maxSize then Evicts(c, kept) else kept == c
  }

  function Without(c: Cache, tenant: string): Cache {
    map k | k in c && !OfTenant(k, tenant) :: c[k]
  }

  ghost predicate Next(maxSize: int, ttl: int, c: Cache, s: Section, d: Cache) {
    match s
    case Lookup(_, _, _) => d == c
    case Store(t, m, def, now, _) =>
      exists kept :: MakesRoom(maxSize, c, kept) && d == kept[Key(t, m) := Entry(def, now + ttl)]
    case Invalidate(t, m) => d == c - {Key(t, m)}
    case InvalidateTenant(t) => d == Without(c, t)
    case Clear => d == map[]
  }

  /** What a lookup hands out. */
  function Hit(c: Cache, tenant: string, mapping: string, now: int): Option<Definition> {
    var k := Key(tenant, mapping);
    if k in c && now < c[k].expiresAt then Some(c[k].def) else None
  }

  class MappingCache {
    const maxSize: int
    const ttl: int
    var cache: Cache
    var hits: nat
    var misses: nat

    constructor (maxSize: int, ttl: int)
      ensures cache == map[] && hits == misses == 0 && this.maxSize == maxSize && this.ttl == ttl
    {
      this.maxSize, this.ttl := maxSize, ttl;
      cache, hits, misses := map[], 0, 0;
    }

    /** The read section: the entry as it is, expired or not. */
    method Read(tenant: string, mapping: string) returns (r: Option<Entry>)
      ensures r == if Key(tenant, mapping) in cache then Some(cache[Key(tenant, mapping)]) else None
    {
      var key := Key(tenant, mapping);
      r := if key in cache then Some(cache[key]) else None;
    }

    method CountHit()
      modifies this`hits
      ensures hits == old(hits) + 1
    {
      hits := hits + 1;
    }

    method CountMiss()
      modifies this`misses
      ensures misses == old(misses) + 1
    {
      misses := misses + 1;
    }

    /** The write section: evict at capacity, then store what was loaded. */
    method Store(tenant: string, mapping: string, def: Definition, now: int)
      modifies this`cache
      ensures forall loaded :: Next(maxSize, ttl, old(cache), Section.Store(tenant, mapping, def, now, loaded), cache)
    {
      ghost var c := cache;
      if |cache| >= maxSize { EvictHalf(); }
      ghost var kept := cache;
      assert MakesRoom(maxSize, c, kept);
      cache := cache[Key(tenant, mapping) := Entry(def, now + ttl)];
    }

    /** GetCompiledMapping when no other request comes between its sections: an unexpired entry, or else what
        loading and compiling answers, stored at the later time. */
    method GetCompiledMapping(tenant: string, mapping: string, load: (string, string) -> Option<Definition>, now: int, later: int)
      returns (r: Option<Definition>)
      modifies this`cache, this`hits, this`misses
      ensures r == if Hit(old(cache), tenant, mapping, now).Some? then Hit(old(cache), tenant, mapping, now) else load(tenant, mapping)
      ensures Hit(old(cache), tenant, mapping, now).Some? ==> cache == old(cache) && hits == old(hits) + 1 && misses == old(misses)
      ensures Hit(old(cache), tenant, mapping, now).None? ==> hits == old(hits) && misses == old(misses) + 1
      ensures Hit(old(cache), tenant, mapping, now).None? && r.None? ==> cache == old(cache)
      ensures Hit(old(cache), tenant, mapping, now).None? && r.Some? ==>
        forall loaded :: Next(maxSize, ttl, old(cache), Section.Store(tenant, mapping, r.value, later, loaded), cache)
    {
      var entry := Read(tenant, mapping);
      if entry.Some? && now < entry.value.expiresAt {
        CountHit();
        return Some(entry.value.def);
      }
      CountMiss();
      r := load(tenant, mapping);
      if r.None? { return; }
      Store(tenant, mapping, r.value, later);
    }

    method EvictHalf()
      modifies this`cache
      ensures Evicts(old(cache), cache)
      ensures |old(cache)| <= 1 ==> cache == map[]
      ensures |old(cache)| >= 2 ==> |old(cache)| <= 2 * |cache| <= |old(cache)| + 1
    {
      ghost var c := cache;
      var count := 0;
      var target := |cache| / 2;
      var done := cache == map[];
      while !done
        invariant cache.Keys <= c.Keys && forall k | k in cache :: cache[k] == c[k]
        invariant |cache| == |c| - count && count <= Evicted(|c|)
        invariant done <==> count == Evicted(|c|)
        decreases |c| - count, !done
      {
        assert cache != map[];
        assert |cache.Keys| == |cache|;
        var key :| key in cache.Keys;
        ghost var before := cache;
        cache := cache - {key};
        assert cache.Keys == before.Keys - {key} && |cache| == |cache.Keys|;
        count := count + 1;
        done := count >= target;
      }
    }

    method Invalidate(tenant: string, mapping: string)
      modifies this`cache
      ensures cache == old(cache) - {Key(tenant, mapping)}
    {
      cache := cache - {Key(tenant, mapping)};
    }

    /** Deleting while ranging over the keys. */
    method InvalidateTenant(tenant: string)
      modifies this`cache
      ensures cache == Without(old(cache), tenant)
    {
      ghost var c := cache;
      var prefix := tenant + ":";
      var rest := cache.Keys;
      while rest != {}
        invariant rest <= c.Keys
        invariant cache == map k | k in c && (k in rest || !OfTenant(k, tenant)) :: c[k]
      {
        var key :| key in rest;
        if |key| > |prefix| && key[..|prefix|] == prefix {
          cache := cache - {key};
        }
        rest := rest - {key};
      }
    }

    method Clear()
      modifies this`cache
      ensures cache == map[]
    {
      cache := map[];
    }
  }

  // ---------- every interleaving ----------

  /** cs are the cache contents between the sections ss, starting empty. */
  ghost predicate Run(maxSize: int, ttl: int, ss: seq<Section>, cs: seq<Cache>) {
    |cs| == |ss| + 1 && cs[0] == map[] && forall i :: 0 <= i < |ss| ==> Next(maxSize, ttl, cs[i], ss[i], cs[i + 1])
  }

  /** The repository answers a request with the definition asked for. */
  ghost predicate Answers(s: Section) { s.Store? ==> s.def.tenant == s.tenant && s.def.mapping == s.mapping }

  /** Every entry sits under the key of the tenant and mapping it was loaded for. */
  ghost predicate OwnKeys(c: Cache) {
    forall k | k in c :: k == Key(c[k].def.tenant, c[k].def.mapping)
  }

  lemma NextBounded(maxSize: int, ttl: int, c: Cache, s: Section, d: Cache)
    requires Next(maxSize, ttl, c, s, d) && |c| <= Max(1, maxSize)
    ensures |d| <= Max(1, maxSize)
    ensures OwnKeys(c) && Answers(s) ==> OwnKeys(d)
  {
    hide Key, Evicts;
    match s
    case Lookup(_, _, _) =>
    case Store(t, m, def, now, _) =>
      KeepsSome(maxSize, c);
      var kept :| MakesRoom(maxSize, c, kept) && d == kept[Key(t, m) := Entry(def, now + ttl)];
      OneMore(kept, Key(t, m), Entry(def, now + ttl));
      if OwnKeys(c) && Answers(s) { StoredOwn(c, kept, Entry(def, now + ttl)); }
    case Invalidate(t, m) => SmallerMap(d, c);
    case InvalidateTenant(t) => SmallerMap(d, c);
    case Clear =>
  }

  lemma KeepsSome(maxSize: int, c: Cache)
    ensures forall kept | MakesRoom(maxSize, c, kept) ::
      && (|c| <= Max(1, maxSize) ==> |kept| < Max(1, maxSize))
      && forall k | k in kept :: k in c && kept[k] == c[k]
  {
  }

  lemma StoredOwn(c: Cache, kept: Cache, e: Entry)
    requires OwnKeys(c) && forall k | k in kept :: k in c && kept[k] == c[k]
    ensures OwnKeys(kept[Key(e.def.tenant, e.def.mapping) := e])
  {
    hide Key;
  }

  lemma OneMore(c: Cache, k: string, e: Entry)
    ensures |c[k := e]| <= |c| + 1
  {
    var d := c[k := e];
    assert d.Keys == c.Keys + {k};
    assert |d| == |d.Keys| && |c| == |c.Keys|;
  }

  lemma SmallerMap(d: Cache, c: Cache)
    requires d.Keys <= c.Keys
    ensures |d| <= |c|
  {
    Subset(d.Keys, c.Keys);
    assert |d| == |d.Keys| && |c| == |c.Keys|;
  }

  /** The cache never outgrows its limit; and if the repository answers with what it is asked for, every entry was
      loaded for its own key. */
  lemma {:induction false} AlwaysBounded(maxSize: int, ttl: int, ss: seq<Section>, cs: seq<Cache>, i: nat)
    requires Run(maxSize, ttl, ss, cs) && i < |cs|
    ensures |cs[i]| <= Max(1, maxSize)
    ensures (forall s <- ss :: Answers(s)) ==> OwnKeys(cs[i])
  {
    if i > 0 {
      AlwaysBounded(maxSize, ttl, ss, cs, i - 1);
      assert ss[i - 1] in ss;
      NextBounded(maxSize, ttl, cs[i - 1], ss[i - 1], cs[i]);
    }
  }

  /** One tenant identifier continues the other after a colon. */
  predicate MayCollide(t: string, u: string) { t + ":" <= u || u + ":" <= t }

  /** A tenant and its mapping can be told from the key among tenants that do not collide. */
  lemma KeyInjective(t: string, m: string, u: string, n: string)
    requires Key(t, m) == Key(u, n)
    ensures !MayCollide(t, u) ==> t == u
    ensures t == u ==> m == n
  {
    var k := Key(t, m);
    assert k[|t|] == ':' && k[|u|] == ':' && t == k[..|t|] && u == k[..|u|];
    assert t + ":" == k[..|t| + 1] && u + ":" == k[..|u| + 1];
    if |t| < |u| { assert u[..|t| + 1] == k[..|t| + 1]; }
    if |u| < |t| { assert t[..|u| + 1] == k[..|u| + 1]; }
    assert m == k[|t| + 1..] && n == k[|u| + 1..];
  }

  /** Two tenants can share a key exactly when one of the identifiers continues the other after a colon. */
  lemma KeysCollideExactly(t: string, u: string)
    requires t != u
    ensures (exists m, n :: Key(t, m) == Key(u, n)) <==> MayCollide(t, u)
  {
    if m, n :| Key(t, m) == Key(u, n) { KeyInjective(t, m, u, n); }
    if t + ":" <= u { Continued(t, u); }
    if u + ":" <= t { Continued(u, t); }
  }

  lemma Continued(t: string, u: string)
    requires t + ":" <= u
    ensures Key(t, u[|t| + 1..] + ":") == Key(u, "")
  {
    assert u == t + ":" + u[|t| + 1..];
  }

  lemma ColonFree(t: string, u: string)
    requires ':' !in t && ':' !in u
    ensures !MayCollide(t, u)
  {
    if t + ":" <= u { ColonWithin(t, u); }
    if u + ":" <= t { ColonWithin(u, t); }
  }

  lemma ColonWithin(t: string, u: string)
    requires t + ":" <= u
    ensures ':' in u
  {
    assert u[|t|] == (t + ":")[|t|];
  }

  /** The section drops the entry under key k. */
  predicate Drops(s: Section, k: string) {
    match s
    case Invalidate(t, m) => k == Key(t, m)
    case InvalidateTenant(t) => OfTenant(k, t)
    case Clear => true
    case _ => false
  }

  /** No section from lo on drops the entry under key k. */
  ghost predicate Untouched(ss: seq<Section>, lo: nat, hi: nat, k: string) {
    forall l :: lo <= l < hi && l < |ss| ==> !Drops(ss[l], k)
  }

  /** Section j stored the entry e under key k. */
  ghost predicate Stored(ss: seq<Section>, j: nat, ttl: int, k: string, e: Entry) {
    j < |ss| && ss[j].Store? && e == Entry(ss[j].def, ss[j].now + ttl) && k == Key(ss[j].tenant, ss[j].mapping)
  }

  /** And it is the last that did so before section i. */
  ghost predicate Latest(ss: seq<Section>, j: nat, i: nat, k: string) {
    && j < i <= |ss| && ss[j].Store? && k == Key(ss[j].tenant, ss[j].mapping)
    && forall l :: j < l < i && ss[l].Store? ==> k != Key(ss[l].tenant, ss[l].mapping)
  }

  lemma {:induction false} StoredBefore(maxSize: int, ttl: int, ss: seq<Section>, cs: seq<Cache>, i: nat, k: string) returns (j: nat)
    requires Run(maxSize, ttl, ss, cs) && i < |cs| && k in cs[i]
    ensures Latest(ss, j, i, k) && Stored(ss, j, ttl, k, cs[i][k]) && Untouched(ss, j + 1, i, k)
  {
    hide Key, OfTenant;
    assert Next(maxSize, ttl, cs[i - 1], ss[i - 1], cs[i]);
    var s := ss[i - 1];
    if s.Store? && k == Key(s.tenant, s.mapping) {
      j := i - 1;
    } else {
      j := StoredBefore(maxSize, ttl, ss, cs, i - 1, k);
    }
  }

  /** A hit hands out what some earlier section stored for this very tenant and mapping, less than the
      time to live ago, with no invalidation of it since. */
  lemma HitsAreOwnAndCurrent(maxSize: int, ttl: int, ss: seq<Section>, cs: seq<Cache>, i: nat, t: string, m: string, now: int)
    requires Run(maxSize, ttl, ss, cs) && i < |cs| && Hit(cs[i], t, m, now).Some?
    requires forall s <- ss :: Answers(s) && (s.Store? ==> !MayCollide(t, s.tenant))
    ensures exists j: nat :: j < i && ss[j].Store? && ss[j].def == Hit(cs[i], t, m, now).value
                             && ss[j].tenant == t && ss[j].mapping == m && ss[j].def.tenant == t && ss[j].def.mapping == m && now < ss[j].now + ttl
                             && Untouched(ss, j + 1, i, Key(t, m))
  {
    var j := StoredBefore(maxSize, ttl, ss, cs, i, Key(t, m));
    assert ss[j] in ss;
    KeyInjective(t, m, ss[j].tenant, ss[j].mapping);
  }

  // ---------- loading and storing are not one section ----------

  /** What the cache holds under key k before section i was loaded before an invalidation of it. */
  ghost predicate Stale(ss: seq<Section>, i: nat, k: string) {
    exists j: nat, l: nat :: Latest(ss, j, i, k) && ss[j].loaded <= l < i && Drops(ss[l], k)
  }

  ghost predicate NoStaleHit(ss: seq<Section>, cs: seq<Cache>) {
    forall i: nat, t, m, now | i < |cs| && Hit(cs[i], t, m, now).Some? :: !Stale(ss, i, Key(t, m))
  }

  /** No invalidation of the key of section j comes between its load and itself. */
  ghost predicate StoresInTime(ss: seq<Section>, j: nat) {
    j < |ss| && ss[j].Store? ==> forall l: nat :: ss[j].loaded <= l < j ==> !Drops(ss[l], Key(ss[j].tenant, ss[j].mapping))
  }

  /** No hit hands out a definition loaded before an invalidation of it exactly when no request stores one
      invalidated since it was loaded. */
  lemma StaleExactly(maxSize: int, ttl: int, ss: seq<Section>, cs: seq<Cache>)
    requires Run(maxSize, ttl, ss, cs) && ttl > 0
    ensures NoStaleHit(ss, cs) <==> forall j: nat :: StoresInTime(ss, j)
  {
    hide Key, OfTenant, Next;
    if forall j: nat :: StoresInTime(ss, j) {
      forall i: nat, t, m, now | i < |cs| && Hit(cs[i], t, m, now).Some? ensures !Stale(ss, i, Key(t, m)) {
        var j := StoredBefore(maxSize, ttl, ss, cs, i, Key(t, m));
        assert StoresInTime(ss, j);
        OneLatest(ss, j, i, Key(t, m));
      }
    }
    if j: nat :| !StoresInTime(ss, j) {
      JustStored(maxSize, ttl, ss, cs, j);
      var k := Key(ss[j].tenant, ss[j].mapping);
      assert Latest(ss, j, j + 1, k);
      assert Stale(ss, j + 1, k);
    }
  }

  lemma OneLatest(ss: seq<Section>, j: nat, i: nat, k: string)
    requires Latest(ss, j, i, k)
    ensures forall x: nat :: Latest(ss, x, i, k) ==> x == j
  {
    hide Key;
  }

  lemma JustStored(maxSize: int, ttl: int, ss: seq<Section>, cs: seq<Cache>, j: nat)
    requires Run(maxSize, ttl, ss, cs) && ttl > 0 && j < |ss| && ss[j].Store?
    ensures Hit(cs[j + 1], ss[j].tenant, ss[j].mapping, ss[j].now) == Some(ss[j].def)
  {
    hide Key;
    assert Next(maxSize, ttl, cs[j], ss[j], cs[j + 1]);
  }

  /** Among tenants that do not collide, and for non-empty mappings, invalidating a tenant drops its entries and no
      other; an entry of the tenant with an empty mapping identifier stays. */
  lemma TenantMatches(t: string, u: string, m: string)
    requires !MayCollide(t, u)
    ensures OfTenant(Key(u, m), t) <==> t == u && m != ""
  {
    var k := Key(u, m);
    if t == u {
      assert k[..|t| + 1] == t + ":";
    } else if OfTenant(k, t) {
      var rest := k[|t| + 1..];
      assert k == Key(t, rest);
      KeyInjective(t, rest, u, m);
    }
  }

  lemma InvalidateTenantExact(c: Cache, t: string, k: string)
    requires OwnKeys(c) && k in c && !MayCollide(t, c[k].def.tenant) && c[k].def.mapping != ""
    ensures k in Without(c, t) <==> c[k].def.tenant != t
  {
    TenantMatches(t, c[k].def.tenant, c[k].def.mapping);
  }

  /** A request that loads, is overtaken by an invalidation and then stores brings the old definition back. */
  lemma StaleStoreAfterInvalidate(maxSize: int, ttl: int, def: Definition, now: int)
    requires maxSize >= 1 && ttl > 0
    ensures var ss := [Invalidate(def.tenant, def.mapping), Section.Store(def.tenant, def.mapping, def, now, 0)];
      exists cs :: Run(maxSize, ttl, ss, cs) && Hit(cs[2], def.tenant, def.mapping, now) == Some(def) && Stale(ss, 2, Key(def.tenant, def.mapping))
  {
    var k := Key(def.tenant, def.mapping);
    var ss := [Invalidate(def.tenant, def.mapping), Section.Store(def.tenant, def.mapping, def, now, 0)];
    var c: Cache := map[];
    var cs := [c, c - {k}, c[k := Entry(def, now + ttl)]];
    assert cs[1] == c;
    assert MakesRoom(maxSize, cs[1], c);
    assert Next(maxSize, ttl, cs[0], ss[0], cs[1]) && Next(maxSize, ttl, cs[1], ss[1], cs[2]);
    assert Run(maxSize, ttl, ss, cs);
    assert Latest(ss, 1, 2, k) && Drops(ss[0], k);
  }
}
