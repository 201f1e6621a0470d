/** Reuse of execution objects: what a pooled object holds, and that executing on one is executing on a new one. */
module MappingPool {
  import opened Basics
  import opened FieldPaths
  import S = Scheduler
  import E = Execution
  import opened Targets
  import opened TargetWriter
  import opened OutputReads
  import opened FieldPlaces
  import opened MappingRun
  import A = Assign

  /** A compiled definition together with the values extracted from one document. */
  datatype Job = Job(plan: S.Plan, fields: seq<Field>, convert: Converter)

  ghost predicate Compiled(j: Job) {
    S.ValidPlan(j.plan) && Unique(j.fields) && SameRefusals(j.plan, j.fields, j.convert)
  }

  /** An execution object: the state of the links, that of the target, and the document. */
  class Mapping {
    const links: E.Mapping
    const target: Target
    var raw: A.Raw

    constructor ()
      ensures IsBlank() && fresh(links) && fresh(target)
    {
      links := new E.Mapping();
      target := new Target();
      raw := map[];
    }

    ghost predicate IsBlank()
      reads this, links, target
    {
      links.IsBlank() && target.IsBlank() && raw == map[]
    }

    ghost function Parts(): set<object> { {this, links, target} }

    /** The object holds what a successful execution of the job may leave. */
    ghost predicate Answered(j: Job)
      reads this, target
    {
      Answers(j.plan, j.fields, j.convert, true, target.tree, raw)
    }

    /** Reset: every part goes back to blank. */
    method Reset()
      modifies this, links, target
      ensures IsBlank()
    {
      links.Reset();
      target.Reset();
      raw := Emptied(raw);
    }

    /** The body of ExecuteMappingPooled on the object as it comes from the pool. */
    method Run(j: Job) returns (ok: bool)
      requires Compiled(j) && IsBlank()
      modifies this, links, target
      ensures ok == Succeeds(j.plan, j.fields, j.convert) && (ok ==> Answered(j))
      ensures ok ==> Delivers(j.plan, j.fields, j.convert, target.tree, raw)
    {
      hide Succeeds, Delivers, FailsRightly;
      var document;
      ok, document := Execute(links, target, j.plan, j.fields, j.convert);
      raw := document;
    }
  }

  datatype Request = Run(job: Job, reuse: bool) | Release(n: nat)

  class Pool {
    var idle: set<Mapping>
    var borrowed: seq<Mapping>
    ghost var kept: set<object>  // the idle objects with their parts
    ghost var lent: set<object>  // the borrowed ones with theirs

    constructor ()
      ensures Valid() && borrowed == [] && idle == {} && kept == lent == {}
    {
      idle, borrowed, kept, lent := {}, [], {}, {};
    }

    /** Idle objects are blank; no object is both idle and lent out or lent out twice, and no two share a part. */
    ghost predicate Valid()
      reads this, kept
    {
      && this !in kept + lent && kept !! lent
      && (forall m <- idle :: m.Parts() <= kept && m.IsBlank())
      && (forall m, n | m in idle && n in idle && m != n :: m.Parts() !! n.Parts())
      && Within(borrowed, lent) && NoSharedPart(borrowed)
    }

    /** What the borrowers hold are answers to these jobs. */
    ghost predicate Holds(jobs: seq<Job>)
      reads this, lent
      requires Within(borrowed, lent)
    {
      && |borrowed| == |jobs|
      && forall k | 0 <= k < |jobs| :: borrowed[k] in borrowed && borrowed[k].Answered(jobs[k])
    }

    /** The pool may hand out an idle object or make a new one, as it likes. */
    method AcquireMapping(reuse: bool) returns (m: Mapping)
      requires Valid()
      modifies this`idle, this`kept
      ensures Valid() && idle <= old(idle) && kept <= old(kept)
      ensures m.IsBlank() && m.Parts() !! kept + lent + {this}
      ensures (m in old(idle) && m.Parts() <= old(kept)) || fresh(m.Parts())
    {
      hide Mapping.IsBlank, NoSharedPart;
      if reuse && idle != {} {
        m :| m in idle;
        idle := idle - {m};
        kept := kept - m.Parts();
      } else {
        m := new Mapping();
      }
    }

    method ReleaseMapping(m: Mapping)
      requires Valid() && m.Parts() !! kept + lent + {this}
      modifies this`idle, this`kept, m.Parts()
      ensures Valid() && idle == old(idle) + {m} && kept == old(kept) + m.Parts()
    {
      hide Mapping.IsBlank, NoSharedPart;
      m.Reset();
      idle := idle + {m};
      kept := kept + m.Parts();
    }

    /** ExecuteMappingPooled: the answer is one that a new object may give, and no object lent out before is touched. */
    method ExecuteMappingPooled(j: Job, reuse: bool) returns (ok: bool)
      requires Valid() && Compiled(j)
      modifies this, kept
      ensures Valid() && ok == Succeeds(j.plan, j.fields, j.convert)
      ensures !ok ==> borrowed == old(borrowed) && lent == old(lent)
      ensures ok ==> |borrowed| == |old(borrowed)| + 1 && borrowed[..|old(borrowed)|] == old(borrowed)
      ensures ok ==> borrowed[|old(borrowed)|].Answered(j)
      ensures forall m <- old(borrowed) :: unchanged(m) && unchanged(m.target)
      ensures fresh(kept + lent - old(kept + lent))
    {
      hide Mapping.Answered, Compiled, NoSharedPart, Mapping.IsBlank, Succeeds;
      var m := AcquireMapping(reuse);
      ok := m.Run(j);
      if !ok {
        ReleaseMapping(m);
        return;
      }
      LendOne(borrowed, lent, m);
      lent := lent + m.Parts();
      borrowed := borrowed + [m];
    }

    /** The borrower gives object number n back. */
    method GiveBack(n: nat)
      requires Valid() && n < |borrowed|
      modifies this, borrowed[n].Parts()
      ensures Valid() && borrowed == old(borrowed[..n] + borrowed[n + 1..]) && idle == old(idle) + {old(borrowed[n])}
      ensures forall m <- borrowed :: unchanged(m) && unchanged(m.target)
      ensures fresh(kept + lent - old(kept + lent))
    {
      hide NoSharedPart, Mapping.IsBlank;
      var m := borrowed[n];
      TakeBack(borrowed, lent, n);
      borrowed := borrowed[..n] + borrowed[n + 1..];
      lent := lent - m.Parts();
      ReleaseMapping(m);
    }

    method Serve(r: Request)
      requires Valid() && (r.Run? ==> Compiled(r.job))
      modifies this, kept, lent
      ensures Valid() && fresh(kept + lent - old(kept + lent))
      ensures forall jobs | old(Holds(jobs)) :: Holds(After(jobs, r))
    {
      hide Mapping.Answered, Mapping.IsBlank, Compiled, Succeeds;
      match r {
        case Run(job, reuse) =>
          ghost var was := borrowed;
          var ok := ExecuteMappingPooled(job, reuse);
          assert forall k | 0 <= k < |was| :: was[k] in was && borrowed[k] == borrowed[..|was|][k] == was[k];
        case Release(n) =>
          if n < |borrowed| { GiveBack(n); }
      }
    }
  }

  ghost predicate Within(ms: seq<Mapping>, parts: set<object>) { forall m <- ms :: m.Parts() <= parts }

  ghost predicate NoSharedPart(ms: seq<Mapping>) {
    forall i, j | 0 <= i < |ms| && 0 <= j < |ms| && i != j :: ms[i].Parts() !! ms[j].Parts()
  }

  lemma LendOne(ms: seq<Mapping>, parts: set<object>, m: Mapping)
    requires Within(ms, parts) && NoSharedPart(ms) && m.Parts() !! parts
    ensures Within(ms + [m], parts + m.Parts()) && NoSharedPart(ms + [m])
  {
    forall k | 0 <= k < |ms| ensures m.Parts() !! ms[k].Parts() && ms[k].Parts() !! m.Parts() {
      assert ms[k] in ms;
    }
  }

  lemma TakeBack(ms: seq<Mapping>, parts: set<object>, n: nat)
    requires Within(ms, parts) && NoSharedPart(ms) && n < |ms|
    ensures var rest := ms[..n] + ms[n + 1..];
      Within(rest, parts - ms[n].Parts()) && NoSharedPart(rest) && ms[n].Parts() <= parts
  {
    var rest := ms[..n] + ms[n + 1..];
    assert ms[n] in ms;
    forall k | 0 <= k < |rest| ensures rest[k] == ms[if k < n then k else k + 1] && rest[k].Parts() <= parts - ms[n].Parts() {
      assert rest[k] == ms[if k < n then k else k + 1];
      assert rest[k] in ms;
    }
  }

  // ---------- whole histories ----------

  /** The jobs whose results are held after one more request. */
  ghost function After(jobs: seq<Job>, r: Request): seq<Job> {
    match r
    case Run(j, _) => if Succeeds(j.plan, j.fields, j.convert) then jobs + [j] else jobs
    case Release(n) => if n < |jobs| then jobs[..n] + jobs[n + 1..] else jobs
  }

  ghost function Held(rs: seq<Request>): seq<Job> {
    if rs == [] then [] else After(Held(rs[..|rs| - 1]), rs[|rs| - 1])
  }

  /** After any history of executions, failures and releases, each borrower holds what an execution on new objects
      may leave. */
  method Replay(rs: seq<Request>) returns (pool: Pool)
    requires forall r <- rs :: r.Run? ==> Compiled(r.job)
    ensures pool.Valid() && pool.Holds(Held(rs))
  {
    hide After, Mapping.Answered, Compiled;
    pool := new Pool();
    for k := 0 to |rs|
      invariant pool.Valid() && fresh(pool) && fresh(pool.kept + pool.lent)
      invariant pool.Holds(Held(rs[..k]))
    {
      assert rs[..k + 1][..k] == rs[..k];
      pool.Serve(rs[k]);
    }
    assert rs[..|rs|] == rs;
  }

  /** So a result from the pool is the one a new object gives: the job succeeds there too, and for schemas whose
      siblings have paths apart with the same document, whatever orders either execution visits its maps in. */
  lemma SameAsNew(m: Mapping, j: Job, ok: bool, tree: Tree, raw: A.Raw)
    requires Compiled(j) && m.Answered(j) && Answers(j.plan, j.fields, j.convert, ok, tree, raw)
    ensures ok && (Unmixed(j.fields) && SiblingsApart(j.fields) ==> m.raw == raw)
  {
    hide Answers;
    AnswersAgree(j.plan, j.fields, j.convert, ok, tree, raw, true, m.target.tree, m.raw);
  }
}
