/** Matching an entity: candidates from an index, then rule evaluation, and when the first step drops
    nothing the second would accept. */
module Matching {
  import opened Basics

  datatype Kind = Exact | Fuzzy | Phonetic | Numeric | DateRange | Other

  datatype Condition = Condition(field: string, kind: Kind, weight: real, required: bool, threshold: real,
                                 normalizer: string, noMerge: bool, invert: bool)

  datatype Rule = Rule(name: string, weight: real, conditions: seq<Condition>)

  datatype Key = Key(field: string, kind: Kind, normalizer: string)

  datatype Row = Row(text: Option<string>, token: Option<string>, number: Option<real>, time: Option<real>)

  /** The indexed rows of one entity. */
  type Index = map<Key, Row>

  /** Trigram similarity, known by its results; and what the fuzzy query compares stored texts with, given the
      normalizer and the source text: the source text, or whatever else its placeholder is bound to. */
  datatype Similarity = Similarity(between: (string, string) -> real, operand: (string, string) -> string)

  datatype Outcome = Outcome(id: string, score: real, autoMerge: bool, blocked: bool, rule: string)

  function KeyOf(c: Condition): Key { Key(c.field, c.kind, if c.normalizer == "" then "raw" else c.normalizer) }

  function Threshold(c: Condition): real { if c.threshold <= 0.0 then 0.7 else c.threshold }

  predicate HasValue(row: Row, kind: Kind) {
    match kind
    case Exact => row.text.Some?
    case Fuzzy => row.text.Some?
    case Phonetic => row.token.Some?
    case Numeric => row.number.Some?
    case DateRange => row.time.Some?
    case Other => false
  }

  predicate SourceHas(src: Index, c: Condition) { KeyOf(c) in src && HasValue(src[KeyOf(c)], c.kind) }

  /** The precomputed similarity of a candidate on a fuzzy field, zero where either side has no text. */
  function Sim(similar: Similarity, src: Index, cand: Index, c: Condition): real {
    var k := KeyOf(c).(kind := Fuzzy);
    if k in src && k in cand && src[k].text.Some? && cand[k].text.Some? then similar.between(cand[k].text.value, src[k].text.value) else 0.0
  }

  // ---------- evaluating one rule ----------

  datatype Verdict = Skip | Fail | Counts(weight: real, points: real)

  function Full(c: Condition): Verdict { Counts(c.weight, c.weight) }
  function Zero(c: Condition): Verdict { Counts(c.weight, 0.0) }

  /** Exact and phonetic conditions: a and b are the two sides, b possibly missing. */
  function Compared(c: Condition, a: Option<string>, b: Option<string>): Verdict {
    if a.None? || b.None? then if c.invert then Full(c) else if c.required then Fail else Zero(c)
    else
      var matched := (a == b) != c.invert;
      if matched then Full(c) else if c.required then Fail else Zero(c)
  }

  function Text(ix: Index, k: Key): Option<string> { if k in ix then ix[k].text else None }
  function Token(ix: Index, k: Key): Option<string> { if k in ix then ix[k].token else None }

  /** What one condition contributes to the score of its rule. */
  function Judge(similar: Similarity, src: Index, cand: Index, c: Condition): Verdict {
    var k := KeyOf(c);
    if c.noMerge then Skip
    else if !SourceHas(src, c) then if c.invert then Full(c) else if c.required then Fail else Skip
    else
      match c.kind
      case Exact => Compared(c, Text(src, k), Text(cand, k))
      case Phonetic => Compared(c, Token(src, k), Token(cand, k))
      case Fuzzy =>
        var sim := Sim(similar, src, cand, c);
        var pass := (sim >= Threshold(c)) != c.invert;
        if !pass then if c.required then Fail else Zero(c)
        else Counts(c.weight, if c.invert then (1.0 - sim) * c.weight else sim * c.weight)
      case _ => Zero(c)
  }

  /** The field, type and normalizer a condition compares. */
  ghost predicate Compares(c: Condition, k: Key) {
    k.field == c.field && k.kind == c.kind && k.normalizer == if c.normalizer == "" then "raw" else c.normalizer
  }

  /** Both entities have a row, and the texts, tokens or similarity on it are what the condition calls the same. */
  ghost predicate Same(similar: Similarity, src: Index, cand: Index, c: Condition) {
    exists k :: Compares(c, k) && k in src && k in cand &&
      match c.kind
      case Exact => exists text :: src[k].text == Some(text) && cand[k].text == Some(text)
      case Phonetic => exists token :: src[k].token == Some(token) && cand[k].token == Some(token)
      case Fuzzy => exists a, b :: src[k].text == Some(a) && cand[k].text == Some(b) && Near(similar.between(b, a), c)
      case _ => false
  }

  ghost predicate Near(similarity: real, c: Condition) { if c.threshold <= 0.0 then similarity >= 0.7 else similarity >= c.threshold }

  /** The source has no value of the type the condition compares. */
  ghost predicate SourceLacks(src: Index, c: Condition) {
    forall k :: Compares(c, k) && k in src ==>
      match c.kind
      case Exact => src[k].text.None?
      case Fuzzy => src[k].text.None?
      case Phonetic => src[k].token.None?
      case Numeric => src[k].number.None?
      case DateRange => src[k].time.None?
      case Other => true
  }

  /** The similarity of the two texts, or zero when the candidate has none. */
  ghost predicate SimilarityIs(similar: Similarity, src: Index, cand: Index, c: Condition, s: real) {
    exists k :: Compares(c, k) && k in src && src[k].text.Some? &&
      s == if k in cand && cand[k].text.Some? then similar.between(cand[k].text.value, src[k].text.value) else 0.0
  }

  /** What a condition of a rule contributes: nothing when it is for blocking or, unless required or inverted, when the
      source has no value; its weight in full where the entities are the same or, inverted, are not; for
      texts compared by similarity that similarity's share of it; and the whole rule fails with a required one. */
  lemma JudgeExactly(similar: Similarity, src: Index, cand: Index, c: Condition)
    ensures var v := Judge(similar, src, cand, c);
      var missed := if c.required then Fail else Counts(c.weight, 0.0);
      && (c.noMerge ==> v == Skip)
      && (!c.noMerge && SourceLacks(src, c) ==> v == if c.invert then Counts(c.weight, c.weight) else if c.required then Fail else Skip)
      && (!c.noMerge && !SourceLacks(src, c) && (c.kind.Exact? || c.kind.Phonetic?) ==>
            v == if Same(similar, src, cand, c) != c.invert then Counts(c.weight, c.weight) else missed)
      && (!c.noMerge && !SourceLacks(src, c) && c.kind.Fuzzy? ==>
            exists s :: SimilarityIs(similar, src, cand, c, s) &&
              v == if Near(s, c) == c.invert then missed else Counts(c.weight, (if c.invert then 1.0 - s else s) * c.weight))
      && (!c.noMerge && !SourceLacks(src, c) && (c.kind.Numeric? || c.kind.DateRange?) ==> v == Counts(c.weight, 0.0))
  {
    var k := KeyOf(c);
    assert Compares(c, k) && forall j :: Compares(c, j) ==> j == k;
    assert c.kind.Fuzzy? ==> k.(kind := Fuzzy) == k;
    assert SourceLacks(src, c) <==> !SourceHas(src, c);
    if c.kind.Fuzzy? && !SourceLacks(src, c) { assert SimilarityIs(similar, src, cand, c, Sim(similar, src, cand, c)); }
  }

  function TotalWeight(vs: seq<Verdict>): real {
    if vs == [] then 0.0 else TotalWeight(vs[..|vs| - 1]) + if vs[|vs| - 1].Counts? then vs[|vs| - 1].weight else 0.0
  }

  function TotalPoints(vs: seq<Verdict>): real {
    if vs == [] then 0.0 else TotalPoints(vs[..|vs| - 1]) + if vs[|vs| - 1].Counts? then vs[|vs| - 1].points else 0.0
  }

  function Verdicts(similar: Similarity, src: Index, cand: Index, r: Rule): (vs: seq<Verdict>)
    ensures |vs| == |r.conditions|
    ensures forall i :: 0 <= i < |vs| ==> vs[i] == Judge(similar, src, cand, r.conditions[i])
  {
    seq(|r.conditions|, i requires 0 <= i < |r.conditions| => Judge(similar, src, cand, r.conditions[i]))
  }

  function Weighted(points: real, total: real, weight: real): real
    requires total != 0.0
  {
    points / total * weight
  }

  /** The score of a rule, or None when a required condition fails or nothing counts. */
  function Score(similar: Similarity, src: Index, cand: Index, r: Rule): Option<real> {
    var vs := Verdicts(similar, src, cand, r);
    if Fail in vs || TotalWeight(vs) == 0.0 then None else Some(Weighted(TotalPoints(vs), TotalWeight(vs), r.weight))
  }

  /** The points a rule's conditions contribute are the share of their weight that its score is of the rule's weight. */
  lemma ScoreExactly(similar: Similarity, src: Index, cand: Index, r: Rule)
    ensures var vs := Verdicts(similar, src, cand, r);
      && (Score(similar, src, cand, r).None? <==> Fail in vs || TotalWeight(vs) == 0.0)
      && (Score(similar, src, cand, r).Some? ==> Score(similar, src, cand, r).value * TotalWeight(vs) == TotalPoints(vs) * r.weight)
  {
    hide Judge, TotalWeight, TotalPoints;
    var vs := Verdicts(similar, src, cand, r);
    var total, points := TotalWeight(vs), TotalPoints(vs);
    if Score(similar, src, cand, r).Some? {
      var f := points / total;
      assert f * total == points;
      assert f * r.weight * total == f * total * r.weight;
    }
  }

  method ScoreRule(similar: Similarity, src: Index, cand: Index, r: Rule) returns (score: Option<real>)
    ensures score == Score(similar, src, cand, r)
  {
    hide Judge;
    ghost var vs := Verdicts(similar, src, cand, r);
    var totalWeight, scoreSum := 0.0, 0.0;
    for i := 0 to |r.conditions|
      invariant Fail !in vs[..i]
      invariant totalWeight == TotalWeight(vs[..i]) && scoreSum == TotalPoints(vs[..i])
    {
      var v := Judge(similar, src, cand, r.conditions[i]);
      assert vs[..i + 1][..i] == vs[..i];
      assert v == vs[i] && vs[..i + 1] == vs[..i] + [v];
      match v {
        case Skip =>
        case Fail =>
          assert Fail in vs;
          return None;
        case Counts(w, p) => totalWeight, scoreSum := totalWeight + w, scoreSum + p;
      }
    }
    assert vs[..|vs|] == vs && Fail !in vs;
    if totalWeight == 0.0 { return None; }
    score := Some(Weighted(scoreSum, totalWeight, r.weight));
  }

  /** Weights are not negative and similarities lie in [0, 1]. */
  ghost predicate Ranged(similar: Similarity, r: Rule) {
    && (forall c <- r.conditions :: c.weight >= 0.0) && r.weight >= 0.0
    && forall x, y :: 0.0 <= similar.between(x, y) <= 1.0
  }

  lemma JudgeBounds(similar: Similarity, src: Index, cand: Index, r: Rule, c: Condition)
    requires Ranged(similar, r) && c in r.conditions
    ensures var v := Judge(similar, src, cand, c); v.Counts? ==> 0.0 <= v.points <= v.weight
  {
    var sim := Sim(similar, src, cand, c);
    assert 0.0 <= sim <= 1.0;
    Share(sim, c.weight);
    Share(1.0 - sim, c.weight);
  }

  lemma Share(x: real, w: real)
    requires 0.0 <= x <= 1.0 && w >= 0.0
    ensures 0.0 <= x * w <= w
  {
    var rest := 1.0 - x;
    assert rest * w >= 0.0;
    assert x * w + rest * w == w;
  }

  lemma {:induction false} TotalsBounds(vs: seq<Verdict>)
    requires forall v <- vs :: v.Counts? ==> 0.0 <= v.points <= v.weight
    ensures 0.0 <= TotalPoints(vs) <= TotalWeight(vs)
    ensures TotalPoints(vs) == TotalWeight(vs) <==> forall v <- vs :: v.Counts? ==> v.points == v.weight
  {
    if vs != [] {
      var n := |vs| - 1;
      assert vs[n] in vs && vs == vs[..n] + [vs[n]];
      TotalsBounds(vs[..n]);
    }
  }

  /** A score lies between zero and the weight of its rule, and reaches it exactly when every condition that
      counts does so in full. */
  lemma ScoreBounds(similar: Similarity, src: Index, cand: Index, r: Rule)
    requires Ranged(similar, r) && Score(similar, src, cand, r).Some?
    ensures 0.0 <= Score(similar, src, cand, r).value <= r.weight
    ensures r.weight > 0.0 ==> (Score(similar, src, cand, r).value == r.weight <==>
      forall v <- Verdicts(similar, src, cand, r) :: v.Counts? ==> v.points == v.weight)
  {
    hide Judge, Ranged;
    var vs := Verdicts(similar, src, cand, r);
    forall v | v in vs ensures v.Counts? ==> 0.0 <= v.points <= v.weight {
      var i :| 0 <= i < |vs| && vs[i] == v;
      JudgeBounds(similar, src, cand, r, r.conditions[i]);
    }
    TotalsBounds(vs);
    RangedWeight(similar, r);
    Mean(TotalPoints(vs), TotalWeight(vs), r.weight);
  }

  lemma RangedWeight(similar: Similarity, r: Rule)
    requires Ranged(similar, r)
    ensures r.weight >= 0.0
  {
  }

  lemma Mean(points: real, total: real, weight: real)
    requires 0.0 <= points <= total && total > 0.0 && weight >= 0.0
    ensures 0.0 <= Weighted(points, total, weight) <= weight
    ensures weight > 0.0 ==> (Weighted(points, total, weight) == weight <==> points == total)
  {
    var f := points / total;
    assert f * total == points;
    assert f > 1.0 ==> f * total > total;
    assert f < 0.0 ==> f * total < 0.0;
    Share(f, weight);
    var rest := 1.0 - f;
    assert f * weight + rest * weight == weight;
    assert rest > 0.0 && weight > 0.0 ==> rest * weight > 0.0;
    assert f == 1.0 <==> points == total;
  }

  // ---------- blocking ----------

  /** A no-merge condition that triggers; a missing side triggers an inverted one. */
  predicate Blocks(similar: Similarity, src: Index, cand: Index, c: Condition) {
    var k := KeyOf(c);
    c.noMerge &&
    if k !in src || k !in cand then c.invert
    else
      match c.kind
      case Exact => (src[k].text.Some? && src[k].text == cand[k].text) != c.invert
      case Phonetic => (src[k].token.Some? && src[k].token == cand[k].token) != c.invert
      case Fuzzy => (src[k].text.Some? && Sim(similar, src, cand, c) >= Threshold(c)) != c.invert
      case _ => false
  }

  predicate Blocked(similar: Similarity, src: Index, cand: Index, rules: seq<Rule>) {
    exists i, j :: 0 <= i < |rules| && 0 <= j < |rules[i].conditions| && Blocks(similar, src, cand, rules[i].conditions[j])
  }

  /** A row is missing on one side, or the condition is of a kind that can tell two rows apart and does so. */
  ghost predicate Apart(similar: Similarity, src: Index, cand: Index, c: Condition) {
    || (exists k :: Compares(c, k) && (k !in src || k !in cand))
    || ((c.kind.Exact? || c.kind.Phonetic? || c.kind.Fuzzy?) && !Same(similar, src, cand, c))
  }

  /** When a condition blocks: only if it is a no-merge one, and then a plain one where the entities are the same,
      an inverted one where they are apart. */
  lemma BlocksExactly(similar: Similarity, src: Index, cand: Index, c: Condition)
    ensures Blocks(similar, src, cand, c) <==>
      c.noMerge && if c.invert then Apart(similar, src, cand, c) else Same(similar, src, cand, c)
  {
    assert c.kind.Fuzzy? ==> KeyOf(c).(kind := Fuzzy) == KeyOf(c);
    assert Compares(c, KeyOf(c)) && forall k :: Compares(c, k) ==> k == KeyOf(c);
  }

  method RuleHasNoMergeMatch(similar: Similarity, src: Index, cand: Index, r: Rule) returns (b: bool)
    ensures b <==> exists j :: 0 <= j < |r.conditions| && Blocks(similar, src, cand, r.conditions[j])
    ensures b <==> RuleBlocks(similar, src, cand, r)
  {
    hide Blocks;
    for j := 0 to |r.conditions|
      invariant forall k :: 0 <= k < j ==> !Blocks(similar, src, cand, r.conditions[k])
    {
      if Blocks(similar, src, cand, r.conditions[j]) {
        SomeBlocks(similar, src, cand, r);
        return true;
      }
    }
    SomeBlocks(similar, src, cand, r);
    b := false;
  }

  /** Some no-merge condition of the rule finds the entities the same or, when inverted, apart. */
  ghost predicate RuleBlocks(similar: Similarity, src: Index, cand: Index, r: Rule) {
    exists c :: c in r.conditions && c.noMerge && if c.invert then Apart(similar, src, cand, c) else Same(similar, src, cand, c)
  }

  lemma SomeBlocks(similar: Similarity, src: Index, cand: Index, r: Rule)
    ensures (exists j :: 0 <= j < |r.conditions| && Blocks(similar, src, cand, r.conditions[j])) <==> RuleBlocks(similar, src, cand, r)
  {
    forall c: Condition ensures Blocks(similar, src, cand, c) <==>
      c.noMerge && if c.invert then Apart(similar, src, cand, c) else Same(similar, src, cand, c)
    {
      BlocksExactly(similar, src, cand, c);
    }
    hide Blocks, Apart, Same;
  }

  lemma BlockedExactly(similar: Similarity, src: Index, cand: Index, rules: seq<Rule>)
    ensures Blocked(similar, src, cand, rules) <==> exists r :: r in rules && RuleBlocks(similar, src, cand, r)
  {
    forall r: Rule ensures (exists j :: 0 <= j < |r.conditions| && Blocks(similar, src, cand, r.conditions[j])) <==> RuleBlocks(similar, src, cand, r) {
      SomeBlocks(similar, src, cand, r);
    }
    hide Blocks, RuleBlocks;
    if r :| r in rules && RuleBlocks(similar, src, cand, r) {
      var i :| 0 <= i < |rules| && rules[i] == r;
      var j :| 0 <= j < |rules[i].conditions| && Blocks(similar, src, cand, rules[i].conditions[j]);
    }
    if i, j :| 0 <= i < |rules| && 0 <= j < |rules[i].conditions| && Blocks(similar, src, cand, rules[i].conditions[j]) {
      assert rules[i] in rules && RuleBlocks(similar, src, cand, rules[i]);
    }
  }

  // ---------- evaluating one candidate ----------

  /** A rule accepts a candidate at a score. */
  ghost predicate Scores(similar: Similarity, src: Index, cand: Index, r: Rule, min: real) {
    var s := Score(similar, src, cand, r);
    s.Some? && s.value >= min
  }

  ghost predicate Accepted(similar: Similarity, src: Index, cand: Index, rules: seq<Rule>, min: real) {
    exists r :: r in rules && Scores(similar, src, cand, r, min)
  }

  /** No rule scores higher than the best; a positive best is some rule's score. */
  ghost predicate IsBest(similar: Similarity, src: Index, cand: Index, rules: seq<Rule>, best: real) {
    && best >= 0.0
    && (forall r <- rules :: Score(similar, src, cand, r).Some? ==> Score(similar, src, cand, r).value <= best)
    && (best > 0.0 ==> exists r :: r in rules && Score(similar, src, cand, r) == Some(best))
  }

  method EvaluateSingleCandidate(similar: Similarity, src: Index, id: string, cand: Index, rules: seq<Rule>, autoMerge: real)
    returns (o: Outcome)
    ensures o.id == id && o.blocked == Blocked(similar, src, cand, rules)
    ensures o.blocked <==> exists r :: r in rules && RuleBlocks(similar, src, cand, r)
    ensures o.blocked ==> o.score == 0.0 && !o.autoMerge
    ensures !o.blocked ==> IsBest(similar, src, cand, rules, o.score) && o.autoMerge == (o.score >= autoMerge)
  {
    BlockedExactly(similar, src, cand, rules);
    hide Blocks, Score, RuleBlocks;
    for i := 0 to |rules|
      invariant forall k, j :: 0 <= k < i && 0 <= j < |rules[k].conditions| ==> !Blocks(similar, src, cand, rules[k].conditions[j])
    {
      var b := RuleHasNoMergeMatch(similar, src, cand, rules[i]);
      if b { return Outcome(id, 0.0, false, true, rules[i].name); }
    }
    var best, name := 0.0, "";
    for i := 0 to |rules|
      invariant IsBest(similar, src, cand, rules[..i], best)
    {
      var score := ScoreRule(similar, src, cand, rules[i]);
      assert rules[..i + 1] == rules[..i] + [rules[i]];
      if score.Some? && score.value > best {
        best, name := score.value, rules[i].name;
        assert rules[i] in rules[..i + 1];
      }
    }
    assert rules[..|rules|] == rules;
    o := Outcome(id, best, best >= autoMerge, false, name);
  }

  /** A positive minimum is reached exactly when some rule reaches it. */
  lemma BestReaches(similar: Similarity, src: Index, cand: Index, rules: seq<Rule>, best: real, min: real)
    requires IsBest(similar, src, cand, rules, best) && min > 0.0
    ensures best >= min <==> Accepted(similar, src, cand, rules, min)
  {
    hide Score;
  }

  // ---------- candidates ----------

  /** Conditions that take part in generation: not for blocking, not inverted, with a source value. */
  predicate Usable(src: Index, c: Condition) { !c.noMerge && !c.invert && SourceHas(src, c) }

  predicate Indexable(src: Index, c: Condition) { Usable(src, c) && (c.kind.Exact? || c.kind.Phonetic?) }
  predicate UsableFuzzy(src: Index, c: Condition) { Usable(src, c) && c.kind.Fuzzy? }

  /** A required condition without a source value rules every candidate out. */
  predicate Hopeless(src: Index, c: Condition) { !c.noMerge && !c.invert && c.required && !SourceHas(src, c) }

  function Chosen(cs: seq<Condition>, keep: Condition -> bool): seq<Condition> {
    if cs == [] then [] else if keep(cs[|cs| - 1]) then Chosen(cs[..|cs| - 1], keep) + [cs[|cs| - 1]] else Chosen(cs[..|cs| - 1], keep)
  }

  lemma {:induction false} ChosenAre(cs: seq<Condition>, keep: Condition -> bool)
    ensures forall c :: c in Chosen(cs, keep) <==> c in cs && keep(c)
  {
    if cs != [] {
      ChosenAre(cs[..|cs| - 1], keep);
      assert cs == cs[..|cs| - 1] + [cs[|cs| - 1]];
    }
  }

  /** The row a query asks for: equal text or token; the fuzzy query asks for equal text as well as
      for similarity. */
  predicate RowMatches(similar: Similarity, src: Index, cand: Index, c: Condition) {
    var k := KeyOf(c);
    && k in src && k in cand
    && match c.kind
       case Exact => src[k].text.Some? && cand[k].text == src[k].text
       case Phonetic => src[k].token.Some? && cand[k].token == src[k].token
       case Fuzzy =>
         && src[k].text.Some? && cand[k].text == src[k].text
         && similar.between(cand[k].text.value, similar.operand(k.normalizer, src[k].text.value)) >= Threshold(c)
       case _ => false
  }

  /** What a query selects: rows of the same text or token; for a fuzzy condition, of the same text when that is near
      enough to what the query compares with. */
  lemma QuerySelectsExactly(similar: Similarity, src: Index, cand: Index, c: Condition, k: Key)
    requires Compares(c, k)
    ensures c.kind.Exact? || c.kind.Phonetic? ==> (RowMatches(similar, src, cand, c) <==> Same(similar, src, cand, c))
    ensures c.kind.Fuzzy? ==> (RowMatches(similar, src, cand, c) <==>
      k in src && k in cand && exists text :: src[k].text == Some(text) && cand[k].text == Some(text)
                                              && Near(similar.between(text, similar.operand(k.normalizer, text)), c))
    ensures c.kind.Numeric? || c.kind.DateRange? || c.kind.Other? ==> !RowMatches(similar, src, cand, c)
  {
    assert k == KeyOf(c) && forall j :: Compares(c, j) ==> j == k;
  }

  function AnchorScore(c: Condition): real { Threshold(c) + if c.required then 1.0 else 0.0 }

  /** The first condition with the highest anchor score. */
  function BestAnchor(cs: seq<Condition>): Condition
    requires cs != []
  {
    if |cs| == 1 then cs[0]
    else
      var best := BestAnchor(cs[..|cs| - 1]);
      if AnchorScore(cs[|cs| - 1]) > AnchorScore(best) then cs[|cs| - 1] else best
  }

  method SelectBestFuzzyAnchor(cs: seq<Condition>) returns (best: Condition)
    requires cs != []
    ensures best == BestAnchor(cs)
    ensures exists i: nat :: FirstBest(cs, i) && best == cs[i]
  {
    best := cs[0];
    assert cs[..1] == [cs[0]];
    for i := 1 to |cs|
      invariant best == BestAnchor(cs[..i])
    {
      assert cs[..i + 1][..i] == cs[..i];
      if AnchorScore(cs[i]) > AnchorScore(best) { best := cs[i]; }
    }
    assert cs[..|cs|] == cs;
    var i := AnchorExactly(cs);
  }

  lemma {:induction false} BestAnchorIsBest(cs: seq<Condition>)
    requires cs != []
    ensures BestAnchor(cs) in cs && forall c <- cs :: AnchorScore(c) <= AnchorScore(BestAnchor(cs))
  {
    if |cs| > 1 {
      BestAnchorIsBest(cs[..|cs| - 1]);
      assert cs == cs[..|cs| - 1] + [cs[|cs| - 1]];
    }
  }

  /** The anchor is the first condition than which no other has a higher threshold, a required one counting one more. */
  lemma {:induction false} AnchorExactly(cs: seq<Condition>) returns (i: nat)
    requires cs != []
    ensures FirstBest(cs, i) && BestAnchor(cs) == cs[i]
  {
    if |cs| == 1 {
      i := 0;
    } else {
      var n := |cs| - 1;
      var front := cs[..n];
      i := AnchorExactly(front);
      OutranksIs(cs[n], front[i]);
      hide Outranks, AnchorScore;
      assert forall j :: 0 <= j < n ==> front[j] == cs[j];
      if Outranks(cs[n], cs[i]) {
        forall j | 0 <= j < n ensures Outranks(cs[n], cs[j]) && !Outranks(cs[j], cs[n]) { StillOutranks(cs[n], cs[i], cs[j]); }
        OutranksIs(cs[n], cs[n]);
        i := n;
      }
    }
  }

  ghost predicate FirstBest(cs: seq<Condition>, i: nat) {
    && i < |cs| && (forall j :: 0 <= j < |cs| ==> !Outranks(cs[j], cs[i]))
    && forall j :: 0 <= j < i ==> Outranks(cs[i], cs[j])
  }

  lemma OutranksIs(a: Condition, b: Condition)
    ensures Outranks(a, b) <==> AnchorScore(a) > AnchorScore(b)
  {
  }

  lemma StillOutranks(a: Condition, b: Condition, c: Condition)
    requires Outranks(a, b) && !Outranks(c, b)
    ensures Outranks(a, c) && !Outranks(c, a)
  {
  }

  ghost predicate Outranks(a: Condition, b: Condition) {
    (if a.threshold > 0.0 then a.threshold else 0.7) + (if a.required then 1.0 else 0.0)
    > (if b.threshold > 0.0 then b.threshold else 0.7) + (if b.required then 1.0 else 0.0)
  }

  /** With thresholds of at most one, a required condition is preferred to any other. */
  lemma AnchorIsRequired(cs: seq<Condition>)
    requires cs != [] && (exists c :: c in cs && c.required) && forall c <- cs :: c.threshold <= 1.0
    ensures BestAnchor(cs).required
  {
    BestAnchorIsBest(cs);
  }

  function IndexablesOf(src: Index, r: Rule): seq<Condition> { Chosen(r.conditions, c => Indexable(src, c)) }
  function FuzziesOf(src: Index, r: Rule): seq<Condition> { Chosen(r.conditions, c => UsableFuzzy(src, c)) }

  /** What the query for a rule selects. */
  predicate Anchored(similar: Similarity, src: Index, cand: Index, r: Rule) {
    && (forall i :: 0 <= i < |r.conditions| ==> !Hopeless(src, r.conditions[i]))
    && if IndexablesOf(src, r) != [] then forall c <- IndexablesOf(src, r) :: RowMatches(similar, src, cand, c)
       else FuzziesOf(src, r) != [] && RowMatches(similar, src, cand, BestAnchor(FuzziesOf(src, r)))
  }

  /** A condition takes part in the query when it is plain and the source has a value for it. */
  ghost predicate Asks(src: Index, c: Condition) { !c.noMerge && !c.invert && !SourceLacks(src, c) }

  /** The first of the fuzzy conditions taking part than which no other has a higher threshold, a required one counting
      one more. */
  ghost predicate IsAnchor(src: Index, cs: seq<Condition>, i: nat) {
    && i < |cs| && cs[i].kind == Fuzzy && Asks(src, cs[i])
    && forall j | 0 <= j < |cs| && cs[j].kind == Fuzzy && Asks(src, cs[j]) ::
         !Outranks(cs[j], cs[i]) && (j < i ==> Outranks(cs[i], cs[j]))
  }

  /** The candidate has the text of the source at the key of a fuzzy condition, near what the query compares with. */
  ghost predicate SameTextNear(similar: Similarity, src: Index, cand: Index, c: Condition) {
    exists k, text :: Compares(c, k) && k in src && k in cand && src[k].text == Some(text) && cand[k].text == Some(text)
                      && Near(similar.between(text, similar.operand(k.normalizer, text)), c)
  }

  ghost predicate Tied(src: Index, c: Condition) { (c.kind == Exact || c.kind == Phonetic) && Asks(src, c) }

  ghost predicate AnchorIn(cs: seq<Condition>, keep: Condition -> bool, i: nat) {
    && i < |cs| && keep(cs[i])
    && forall j | 0 <= j < |cs| && keep(cs[j]) :: !Outranks(cs[j], cs[i]) && (j < i ==> Outranks(cs[i], cs[j]))
  }

  lemma {:induction false} ChosenAnchor(cs: seq<Condition>, keep: Condition -> bool) returns (i: nat)
    requires Chosen(cs, keep) != []
    ensures AnchorIn(cs, keep, i) && BestAnchor(Chosen(cs, keep)) == cs[i]
  {
    var n := |cs| - 1;
    var front := Chosen(cs[..n], keep);
    if !keep(cs[n]) {
      i := ChosenAnchor(cs[..n], keep);
      NoneBehind(cs, keep, i);
    } else if front == [] {
      i := n;
      OnlyChosen(cs, keep);
    } else {
      i := ChosenAnchor(cs[..n], keep);
      assert (front + [cs[n]])[..|front|] == front;
      OutranksIs(cs[n], cs[i]);
      if Outranks(cs[n], cs[i]) {
        NewAnchor(cs, keep, i);
        i := n;
      } else {
        OldAnchor(cs, keep, i);
      }
    }
  }

  lemma NoneBehind(cs: seq<Condition>, keep: Condition -> bool, i: nat)
    requires cs != [] && !keep(cs[|cs| - 1]) && AnchorIn(cs[..|cs| - 1], keep, i)
    ensures AnchorIn(cs, keep, i)
  {
    hide Outranks;
    assert forall j :: 0 <= j < |cs| - 1 ==> cs[..|cs| - 1][j] == cs[j];
  }

  lemma OnlyChosen(cs: seq<Condition>, keep: Condition -> bool)
    requires cs != [] && keep(cs[|cs| - 1]) && Chosen(cs[..|cs| - 1], keep) == []
    ensures AnchorIn(cs, keep, |cs| - 1)
  {
    var n := |cs| - 1;
    ChosenAre(cs[..n], keep);
    forall j | 0 <= j < n ensures !keep(cs[j]) { assert cs[..n][j] in cs[..n]; }
  }

  lemma NewAnchor(cs: seq<Condition>, keep: Condition -> bool, i: nat)
    requires cs != [] && keep(cs[|cs| - 1]) && AnchorIn(cs[..|cs| - 1], keep, i) && Outranks(cs[|cs| - 1], cs[i])
    ensures AnchorIn(cs, keep, |cs| - 1)
  {
    var n := |cs| - 1;
    OutranksIs(cs[n], cs[n]);
    hide Outranks;
    forall j | 0 <= j < n && keep(cs[j]) ensures Outranks(cs[n], cs[j]) && !Outranks(cs[j], cs[n]) {
      assert cs[..n][j] == cs[j];
      StillOutranks(cs[n], cs[i], cs[j]);
    }
  }

  lemma OldAnchor(cs: seq<Condition>, keep: Condition -> bool, i: nat)
    requires cs != [] && AnchorIn(cs[..|cs| - 1], keep, i) && !Outranks(cs[|cs| - 1], cs[i])
    ensures AnchorIn(cs, keep, i)
  {
    hide Outranks;
    assert forall j :: 0 <= j < |cs| - 1 ==> cs[..|cs| - 1][j] == cs[j];
  }

  lemma TakesPart(src: Index, c: Condition)
    ensures Indexable(src, c) <==> Tied(src, c)
    ensures UsableFuzzy(src, c) <==> c.kind == Fuzzy && Asks(src, c)
    ensures Hopeless(src, c) <==> !c.noMerge && !c.invert && c.required && SourceLacks(src, c)
  {
    var k := KeyOf(c);
    assert Compares(c, k) && forall j :: Compares(c, j) ==> j == k;
  }

  lemma FuzzyRow(similar: Similarity, src: Index, cand: Index, c: Condition)
    requires c.kind == Fuzzy
    ensures RowMatches(similar, src, cand, c) <==> SameTextNear(similar, src, cand, c)
  {
    var k := KeyOf(c);
    assert Compares(c, k) && forall j :: Compares(c, j) ==> j == k;
    hide Compares, Near;
    QuerySelectsExactly(similar, src, cand, c, k);
  }

  lemma TiedRow(similar: Similarity, src: Index, cand: Index, c: Condition)
    requires Tied(src, c)
    ensures RowMatches(similar, src, cand, c) <==> Same(similar, src, cand, c)
  {
    QuerySelectsExactly(similar, src, cand, c, KeyOf(c));
    hide RowMatches, Same;
  }

  lemma AnchorOfRule(similar: Similarity, src: Index, cand: Index, r: Rule)
    ensures (FuzziesOf(src, r) != [] && RowMatches(similar, src, cand, BestAnchor(FuzziesOf(src, r)))) <==>
      exists i: nat :: IsAnchor(src, r.conditions, i) && SameTextNear(similar, src, cand, r.conditions[i])
  {
    hide RowMatches, SameTextNear, UsableFuzzy, Asks, Outranks, BestAnchor;
    var cs, keep := r.conditions, c => UsableFuzzy(src, c);
    assert FuzziesOf(src, r) == Chosen(cs, keep);
    forall c ensures keep(c) <==> c.kind == Fuzzy && Asks(src, c) { TakesPart(src, c); }
    forall i: nat ensures IsAnchor(src, cs, i) <==> AnchorIn(cs, keep, i) {}
    ChosenAre(cs, keep);
    forall i: nat | AnchorIn(cs, keep, i) ensures Chosen(cs, keep) != [] { assert cs[i] in Chosen(cs, keep); }
    if FuzziesOf(src, r) != [] {
      var i := ChosenAnchor(cs, keep);
      FuzzyRow(similar, src, cand, cs[i]);
      forall j: nat | AnchorIn(cs, keep, j) ensures j == i { assert keep(cs[i]) && keep(cs[j]); }
    }
  }

  /** The query of a rule selects nothing when the source lacks a value for a required plain condition. Else it selects
      what is the same on every exact or phonetic condition taking part or, where there is none, on the fuzzy anchor. */
  lemma AnchoredExactly(similar: Similarity, src: Index, cand: Index, r: Rule)
    ensures var cs := r.conditions;
      Anchored(similar, src, cand, r) <==>
        && (forall c <- cs :: !(!c.noMerge && !c.invert && c.required && SourceLacks(src, c)))
        && if exists c :: c in cs && Tied(src, c)
           then forall c | c in cs && Tied(src, c) :: Same(similar, src, cand, c)
           else exists i: nat :: IsAnchor(src, cs, i) && SameTextNear(similar, src, cand, cs[i])
  {
    hide RowMatches, Same, SameTextNear, Indexable, Hopeless, Tied, SourceLacks, IsAnchor;
    var cs := r.conditions;
    forall c ensures Indexable(src, c) <==> Tied(src, c) { TakesPart(src, c); }
    ChosenAre(cs, c => Indexable(src, c));
    forall c <- cs ensures Hopeless(src, c) <==> !c.noMerge && !c.invert && c.required && SourceLacks(src, c) { TakesPart(src, c); }
    forall c | c in cs && Tied(src, c) ensures RowMatches(similar, src, cand, c) <==> Same(similar, src, cand, c) { TiedRow(similar, src, cand, c); }
    AnchorOfRule(similar, src, cand, r);
    hide FuzziesOf, BestAnchor;
    assert (exists c :: c in cs && Tied(src, c)) <==> IndexablesOf(src, r) != [] by {
      if IndexablesOf(src, r) != [] { assert IndexablesOf(src, r)[0] in IndexablesOf(src, r); }
    }
  }
}
