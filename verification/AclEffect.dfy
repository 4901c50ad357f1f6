/** What somebody may do after a request was merged and the table was written. */
module AclEffects {
  import opened AclDecisions
  import opened AclOrders
  import opened Acls
  import opened Wrappers
  import M = AclMerges
  import T = AclTables

  // ---- resources keep their places ----

  function InfosOf(rs: seq<Resource>): (infos: seq<ResourceInfo>)
    ensures |infos| == |rs| && forall i :: 0 <= i < |rs| ==> infos[i] == rs[i].info
  {
    if rs == [] then [] else InfosOf(rs[..|rs| - 1]) + [rs[|rs| - 1].info]
  }

  /** The resources of a request that a bucket does not have. */
  function NewInfos(parent: seq<Resource>, child: seq<Resource>): seq<ResourceInfo>
  {
    if child == [] then []
    else
      var info := child[|child| - 1].info;
      NewInfos(parent, child[..|child| - 1]) + if info in InfosOf(parent) then [] else [info]
  }

  lemma FoundIn(rs: seq<Resource>, info: ResourceInfo)
    ensures M.Find(rs, info) < |rs| <==> info in InfosOf(rs)
  {
  }

  lemma {:induction false} InNew(parent: seq<Resource>, child: seq<Resource>, info: ResourceInfo)
    ensures info in NewInfos(parent, child) <==> info in InfosOf(child) && info !in InfosOf(parent)
  {
    if child != [] {
      InNew(parent, child[..|child| - 1], info);
    }
  }

  /** A merge leaves the resources of a bucket where they are, and puts new ones behind them in their order. */
  lemma {:induction false} MergedOrder(parent: seq<Resource>, child: seq<Resource>)
    requires M.DistinctInfos(child)
    ensures InfosOf(M.MergedAst(parent, child)) == InfosOf(parent) + NewInfos(parent, child)
  {
    hide M.WithResource, M.DistinctInfos;
    if child == [] {
      assert InfosOf(parent) + [] == InfosOf(parent);
    } else {
      var rest, r := child[..|child| - 1], child[|child| - 1];
      assert child == rest + [r];
      M.LastApart(rest, r);
      MergedOrder(parent, rest);
      WithInfos(M.MergedAst(parent, rest), r);
      NewestInfo(parent, rest, r);
      JoinThree(InfosOf(parent), NewInfos(parent, rest), if r.info in InfosOf(parent) then [] else [r.info]);
    }
  }

  lemma NewestInfo(parent: seq<Resource>, rest: seq<Resource>, r: Resource)
    requires M.Find(rest, r.info) == |rest|
    ensures r.info in InfosOf(parent) + NewInfos(parent, rest) <==> r.info in InfosOf(parent)
  {
    FoundIn(rest, r.info);
    InNew(parent, rest, r.info);
    hide NewInfos, InfosOf;
  }

  lemma JoinThree(a: seq<ResourceInfo>, b: seq<ResourceInfo>, c: seq<ResourceInfo>)
    ensures a + (b + c) == a + b + c
  {
  }

  lemma WithInfos(rs: seq<Resource>, r: Resource)
    ensures InfosOf(M.WithResource(rs, r)) == InfosOf(rs) + if r.info in InfosOf(rs) then [] else [r.info]
  {
    hide M.MergedOps;
    FoundIn(rs, r.info);
    var after := M.WithResource(rs, r);
    assert |InfosOf(after)| == |after|;
    assert InfosOf(rs) + [] == InfosOf(rs);
    if r.info !in InfosOf(rs) { assert after == rs + [r]; }
  }

  lemma MergedDistinct(parent: seq<Resource>, child: seq<Resource>)
    requires M.DistinctInfos(parent) && M.DistinctInfos(child)
    ensures M.DistinctInfos(M.MergedAst(parent, child))
  {
    hide M.MergedAst;
    MergedOrder(parent, child);
    NewDistinct(parent, child);
    forall info ensures info in NewInfos(parent, child) ==> info !in InfosOf(parent) { InNew(parent, child, info); }
    JoinApart(InfosOf(parent), NewInfos(parent, child));
    var infos, after := InfosOf(parent) + NewInfos(parent, child), M.MergedAst(parent, child);
    forall i, j | 0 <= i < |after| && 0 <= j < |after| && after[i].info == after[j].info ensures i == j {
      assert infos[i] == after[i].info && infos[j] == after[j].info;
    }
  }

  lemma JoinApart(a: seq<ResourceInfo>, b: seq<ResourceInfo>)
    requires Apart(a) && Apart(b) && forall x :: x in b ==> x !in a
    ensures Apart(a + b)
  {
    forall i, j | 0 <= i < |a| <= j < |a + b| ensures (a + b)[i] != (a + b)[j] {
      assert (a + b)[j] == b[j - |a|] && (a + b)[i] == a[i];
      assert b[j - |a|] in b;
    }
  }

  ghost predicate Apart(infos: seq<ResourceInfo>)
  {
    forall i, j :: 0 <= i < |infos| && 0 <= j < |infos| && infos[i] == infos[j] ==> i == j
  }

  lemma {:induction false} NewDistinct(parent: seq<Resource>, child: seq<Resource>)
    requires M.DistinctInfos(child)
    ensures Apart(NewInfos(parent, child))
  {
    if child != [] {
      var rest, r := child[..|child| - 1], child[|child| - 1];
      assert child == rest + [r];
      M.LastApart(rest, r);
      NewDistinct(parent, rest);
      FoundIn(rest, r.info);
      InNew(parent, rest, r.info);
    }
  }

  // ---- decisions ----

  /** Of resources that apply the last one that says anything decides. */
  function DecisionBy(p: T.Parsers, infos: seq<ResourceInfo>, say: ResourceInfo -> Option<Action>, q: Request)
    : Option<Action>
  {
    if infos == [] then None
    else
      var info := infos[|infos| - 1];
      if Applies(p, info, q) && say(info).Some? then say(info)
      else DecisionBy(p, infos[..|infos| - 1], say, q)
  }

  lemma {:induction false} DecidedBy(p: T.Parsers, rs: seq<Resource>, q: Request, say: ResourceInfo -> Option<Action>)
    requires forall i :: 0 <= i < |rs| ==> say(rs[i].info) == LastCounting(p, rs[i].operations, q)
    ensures Decision(p, rs, q) == DecisionBy(p, InfosOf(rs), say, q)
  {
    hide Applies, LastCounting;
    if rs != [] {
      var rest := rs[..|rs| - 1];
      DecidedBy(p, rest, q, say);
      assert InfosOf(rs)[..|rs| - 1] == InfosOf(rest);
    }
  }

  /** Users are named by the text of their keys, as they are read from tables. */
  ghost predicate NamedByKeys(p: T.Parsers, ops: seq<AstOperation>)
  {
    forall i, u :: 0 <= i < |ops| && u in ops[i].users ==> p.key(u) == Some(u)
  }

  /** The rule that counts is the one that has the say. */
  lemma {:induction false} CountingIsEffective(p: T.Parsers, ops: seq<AstOperation>, q: Request)
    requires NamedByKeys(p, ops)
    ensures LastCounting(p, ops, q) == Effective(ops, q.op, q.key)
  {
    if ops != [] {
      var last := |ops| - 1;
      CountingIsEffective(p, ops[..last], q);
      CountsIs(p, ops[last], q);
      hide Counts, IsFor;
    }
  }

  lemma CountsIs(p: T.Parsers, o: AstOperation, q: Request)
    requires forall u :: u in o.users ==> p.key(u) == Some(u)
    ensures Counts(p, o, q) <==> IsFor(o, q.op, q.key)
  {
    if q.key in o.users {
      var i :| 0 <= i < |o.users| && o.users[i] == q.key;
      assert p.key(o.users[i]) == Some(q.key);
    }
  }

  /** The action of the rule that has the say after a merge, if any. */
  ghost predicate SayAfter(before: seq<AstOperation>, child: seq<AstOperation>, q: Request, say: Option<Action>)
  {
    forall a :: say == Some(a) <==> OutranksAfter(before, child, q.op, q.key, a)
  }

  /**
   After a request is merged and the table written, the first matching record decides so: of the resources that
   apply, first those that are new, the last one first, then those of the bucket, the last one first, the first one
   decides in which a rule has the say after the merge.
   */
  lemma MergeThenWrite(p: T.Parsers, parent: seq<Resource>, child: seq<Resource>, q: Request,
                       say: ResourceInfo -> Option<Action>)
    requires M.WholeAst(parent) && SingleAst(child) && M.DistinctInfos(parent) && M.DistinctInfos(child)
    requires M.FitAst(parent, child) && T.AstTable(p, M.MergedAst(parent, child)).Some?
    requires forall r :: r in M.MergedAst(parent, child) ==> NamedByKeys(p, r.operations)
    requires forall info :: SayAfter(M.Lookup(parent, info), M.Lookup(child, info), q, say(info))
    ensures FirstMatch(T.AstTable(p, M.MergedAst(parent, child)).value, q) ==
            DecisionBy(p, InfosOf(parent) + NewInfos(parent, child), say, q)
  {
    hide M.MergedAst, M.WholeAst, SingleAst, M.DistinctInfos, M.FitAst, T.AstTable, NamedByKeys, Effective, SayAfter,
      LastCounting, Decision, DecisionBy, M.Lookup, M.Find;
    var after := M.MergedAst(parent, child);
    TableDecides(p, after, q);
    MergedOrder(parent, child);
    MergedDistinct(parent, child);
    forall i | 0 <= i < |after| ensures say(after[i].info) == LastCounting(p, after[i].operations, q) {
      M.LookupAt(after, i);
      CountingIsEffective(p, after[i].operations, q);
      EffectiveSay(parent, child, after[i].info, q, say(after[i].info));
    }
    DecidedBy(p, after, q, say);
  }

  /** Who has the say in a resource after a merge. */
  lemma MergeAstEffect(parent: seq<Resource>, child: seq<Resource>, info: ResourceInfo, op: Operation, u: string,
                       a: Action)
    requires M.WholeAst(parent) && SingleAst(child) && M.DistinctInfos(child) && M.FitAst(parent, child)
    ensures Effective(M.Lookup(M.MergedAst(parent, child), info), op, u) == Some(a) <==>
            OutranksAfter(M.Lookup(parent, info), M.Lookup(child, info), op, u, a)
  {
    hide M.MergedAst, M.MergedOps, M.WholeAst, SingleAst, Whole, Single, Effective, OutranksAfter, M.AllFit, M.FitAst,
      M.Lookup, M.Find;
    M.DistinctLookup(parent, child, info);
    M.WholeLookup(parent, info);
    M.WholeClear(M.Lookup(parent, info));
    M.SingleLookup(child, info);
    FitsAt(parent, child, info);
    MergedEffect(M.Lookup(parent, info), M.Lookup(child, info), op, u, a);
  }

  lemma FitsAt(parent: seq<Resource>, child: seq<Resource>, info: ResourceInfo)
    requires M.DistinctInfos(child) && M.FitAst(parent, child)
    ensures M.AllFit(M.Lookup(parent, info), M.Lookup(child, info))
  {
    M.FitBefore(parent, child);
    var k := M.Find(child, info);
    if k < |child| { M.LookupAt(child, k); }
    hide M.Fits, M.Met, M.FitAst;
  }

  lemma EffectiveSay(parent: seq<Resource>, child: seq<Resource>, info: ResourceInfo, q: Request, say: Option<Action>)
    requires M.WholeAst(parent) && SingleAst(child) && M.DistinctInfos(child) && M.FitAst(parent, child)
    requires SayAfter(M.Lookup(parent, info), M.Lookup(child, info), q, say)
    ensures Effective(M.Lookup(M.MergedAst(parent, child), info), q.op, q.key) == say
  {
    hide M.MergedAst, M.WholeAst, SingleAst, M.DistinctInfos, M.FitAst, Effective, OutranksAfter, M.Lookup;
    var e := Effective(M.Lookup(M.MergedAst(parent, child), info), q.op, q.key);
    if e.Some? { MergeAstEffect(parent, child, info, q.op, q.key, e.value); }
    if say.Some? { MergeAstEffect(parent, child, info, q.op, q.key, say.value); }
  }
}
