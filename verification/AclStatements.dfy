/** What the rules of a bucket policy say: the first statement about a grantee's kind decides for all of that kind. */
module AclStatements {
  import opened AclMeanings
  import opened AclNames
  import opened AclPolicies
  import opened Acls
  import opened Strings
  import opened Wrappers

  // ---- the rule that decides ----

  /** The action of the last rule about an operation for everyone, or for users. */
  function RuleOf(list: seq<AstOperation>, op: Operation, group: bool): Option<Action>
  {
    var i := LastMatch(list, op, group);
    if i == |list| then None else Some(list[i].action)
  }

  /** An action that is there, or else a new one. */
  function OrElse(there: Option<Action>, a: Action): Action
  {
    match there case Some(b) => b case None => a
  }

  lemma RuleMoves(list: seq<AstOperation>, s: Subject, added: Operation, op: Operation, group: bool)
    ensures RuleOf(Added(list, s, added), op, group) ==
            if op == added && group == s.group then Some(OrElse(RuleOf(list, op, group), s.action))
            else RuleOf(list, op, group)
  {
    hide LastMatch, Alike;
    var i := LastMatch(list, added, s.group);
    if i == |list| {
      RuleBehind(list, AstOperation(if s.group then [] else [s.userID], added, s.action), op, group);
    } else if !s.group {
      UserBehind(list, i, s.userID, op, group);
    }
  }

  lemma RuleBehind(list: seq<AstOperation>, o: AstOperation, op: Operation, group: bool)
    ensures RuleOf(list + [o], op, group) ==
            if o.op == op && o.IsGroupGrantee() == group then Some(o.action) else RuleOf(list, op, group)
  {
    var after := list + [o];
    LastMatchStep(after, |list|, op, group);
    assert after[..|list|] == list && after[..|list| + 1] == after;
    hide LastMatch;
    assert forall j :: 0 <= j < |list| ==> after[j] == list[j];
  }

  lemma UserBehind(list: seq<AstOperation>, i: nat, u: string, op: Operation, group: bool)
    requires i < |list| && !list[i].IsGroupGrantee()
    ensures RuleOf(list[i := list[i].(users := list[i].users + [u])], op, group) == RuleOf(list, op, group)
  {
    hide LastMatch;
    var after := list[i := list[i].(users := list[i].users + [u])];
    assert forall j :: 0 <= j < |list| ==> Alike(after[j], list[j]) && after[j].action == list[j].action;
    SameMatch(list, after, op, group);
  }

  lemma SameMatch(a: seq<AstOperation>, b: seq<AstOperation>, op: Operation, group: bool)
    requires |a| == |b| && forall j :: 0 <= j < |a| ==> Alike(a[j], b[j])
    ensures LastMatch(a, op, group) == LastMatch(b, op, group)
  {
    hide LastMatch;
    var i, k := LastMatch(a, op, group), LastMatch(b, op, group);
    if i < |a| { assert Alike(a[i], b[i]); }
    if k < |a| { assert Alike(a[k], b[k]); }
  }

  /** What a list says after a subject was added for some operations, and which rules decide then. */
  ghost predicate Moved(list: seq<AstOperation>, s: Subject, some: Operation -> bool, after: seq<AstOperation>)
  {
    && (forall op, group ::
          RuleOf(after, op, group) ==
          if some(op) && group == s.group then Some(OrElse(RuleOf(list, op, group), s.action))
          else RuleOf(list, op, group))
    && (forall op, who, a ::
          Says(after, op, who, a) <==>
          Says(list, op, who, a) ||
          (some(op) && IsSubject(s, who) && a == OrElse(RuleOf(list, op, s.group), s.action)))
  }

  lemma NothingMoved(list: seq<AstOperation>, s: Subject, some: Operation -> bool)
    requires forall op :: !some(op)
    ensures Moved(list, s, some, list)
  {
    hide Says, RuleOf;
  }

  lemma OneMoved(list: seq<AstOperation>, s: Subject, added: Operation)
    ensures Moved(list, s, op => op == added, Added(list, s, added))
  {
    hide Says, LastMatch, Added;
    forall op, group
      ensures RuleOf(Added(list, s, added), op, group) ==
              if op == added && group == s.group then Some(OrElse(RuleOf(list, op, group), s.action))
              else RuleOf(list, op, group)
    {
      RuleMoves(list, s, added, op, group);
    }
    forall op, who, a
      ensures Says(Added(list, s, added), op, who, a) <==>
              Says(list, op, who, a) ||
              (op == added && IsSubject(s, who) && a == OrElse(RuleOf(list, op, s.group), s.action))
    {
      AddedSays(list, s, added, op, who, a);
    }
  }

  lemma MovedOn(list: seq<AstOperation>, s: Subject, some: Operation -> bool, more: Operation -> bool,
                both: Operation -> bool, middle: seq<AstOperation>, after: seq<AstOperation>)
    requires Moved(list, s, some, middle) && Moved(middle, s, more, after)
    requires forall op :: both(op) <==> some(op) || more(op)
    ensures Moved(list, s, both, after)
  {
    hide Says, RuleOf, IsSubject;
    assert forall there, a :: OrElse(Some(OrElse(there, a)), a) == OrElse(there, a);
  }

  lemma {:induction false} OpsMoved(list: seq<AstOperation>, s: Subject, ops: seq<Operation>)
    ensures Moved(list, s, op => op in ops, AddedOps(list, s, ops))
  {
    hide Added, Moved;
    if ops == [] {
      NothingMoved(list, s, op => op in ops);
    } else {
      var rest, last := ops[..|ops| - 1], ops[|ops| - 1];
      assert ops == rest + [last];
      OpsMoved(list, s, rest);
      OneMoved(AddedOps(list, s, rest), s, last);
      MovedOn(list, s, op => op in rest, op => op == last, op => op in ops, AddedOps(list, s, rest),
              AddedOps(list, s, ops));
    }
  }

  lemma {:induction false} ActionsMoved(list: seq<AstOperation>, s: Subject, actions: seq<S3Action>)
    ensures Moved(list, s, op => Opens(actions, op), AddedActions(list, s, actions))
  {
    hide AddedOps, Moved, Opens, OpsOf;
    if actions == [] {
      NothingOpens();
      NothingMoved(list, s, op => Opens(actions, op));
    } else {
      var rest, last := actions[..|actions| - 1], actions[|actions| - 1];
      forall op ensures Opens(actions, op) <==> Opens(rest, op) || op in OpsOf(last) {
        OpensMore(rest, last, actions, op);
      }
      ActionsMoved(list, s, rest);
      OpsMoved(AddedActions(list, s, rest), s, OpsOf(last));
      MovedOn(list, s, op => Opens(rest, op), op => op in OpsOf(last), op => Opens(actions, op),
              AddedActions(list, s, rest), AddedActions(list, s, actions));
    }
  }

  // ---- the resources of a statement ----

  function OpsAt(rr: map<string, Resource>, name: string): seq<AstOperation>
  {
    if name in rr then rr[name].operations else []
  }

  predicate Names(resources: seq<string>, name: string)
  {
    exists i :: 0 <= i < |resources| && TrimPrefix(resources[i], ARN_AWS_PREFIX) == name
  }

  lemma NamesMore(resources: seq<string>, name: string)
    requires resources != []
    ensures var rest, last := resources[..|resources| - 1], resources[|resources| - 1];
            Names(resources, name) <==> Names(rest, name) || TrimPrefix(last, ARN_AWS_PREFIX) == name
  {
    hide TrimPrefix;
    var rest := resources[..|resources| - 1];
    assert forall i :: 0 <= i < |rest| ==> rest[i] == resources[i];
  }

  /** Rules are kept by the names of resources in the bucket, each read back from its name. */
  ghost predicate Named(rr: map<string, Resource>, bucket: string)
  {
    forall name :: name in rr ==> HasPrefix(name, bucket) && rr[name].info == ResourceInfoFromName(name, bucket)
  }

  ghost predicate AllWithin(resources: seq<string>, bucket: string)
  {
    forall i :: 0 <= i < |resources| ==> HasPrefix(TrimPrefix(resources[i], ARN_AWS_PREFIX), bucket)
  }

  lemma {:induction false} StatementNames(rr: map<string, Resource>, s: Statement, resources: seq<string>,
                                          bucket: string)
    requires Named(rr, bucket)
    ensures WithResources(rr, s, resources, bucket).Some? <==> AllWithin(resources, bucket)
    ensures AllWithin(resources, bucket) ==>
              var after := WithResources(rr, s, resources, bucket).value;
              Named(after, bucket) && forall name :: name in after <==> name in rr || Names(resources, name)
  {
    hide AddedActions, Names, TrimPrefix, ResourceInfoFromName, HasPrefix, SubjectOf;
    if resources == [] {
      forall name ensures !Names([], name) { NoNames(name); }
    } else {
      var rest := resources[..|resources| - 1];
      StatementNames(rr, s, rest, bucket);
      assert forall i :: 0 <= i < |rest| ==> rest[i] == resources[i];
      forall name ensures Names(resources, name) <==> Names(rest, name) ||
                                                      TrimPrefix(resources[|rest|], ARN_AWS_PREFIX) == name
      {
        NamesMore(resources, name);
      }
    }
  }

  lemma {:induction false} StatementMoves(rr: map<string, Resource>, s: Statement, resources: seq<string>,
                                          bucket: string, name: string)
    requires WithResources(rr, s, resources, bucket).Some?
    ensures Moved(OpsAt(rr, name), SubjectOf(s), op => Names(resources, name) && Opens(s.actions, op),
                  OpsAt(WithResources(rr, s, resources, bucket).value, name))
  {
    hide WithResource, Opens, Names, Moved, TrimPrefix, SubjectOf, OpsAt;
    if resources == [] {
      NoNames(name);
      NothingMoved(OpsAt(rr, name), SubjectOf(s), op => Names(resources, name) && Opens(s.actions, op));
    } else {
      var rest, last := resources[..|resources| - 1], resources[|resources| - 1];
      StatementMoves(rr, s, rest, bucket, name);
      var middle := WithResources(rr, s, rest, bucket).value;
      NamesMore(resources, name);
      ResourceMoves(middle, s, last, bucket, name);
      MovedOn(OpsAt(rr, name), SubjectOf(s), op => Names(rest, name) && Opens(s.actions, op),
              op => TrimPrefix(last, ARN_AWS_PREFIX) == name && Opens(s.actions, op),
              op => Names(resources, name) && Opens(s.actions, op), OpsAt(middle, name),
              OpsAt(WithResources(rr, s, resources, bucket).value, name));
    }
  }

  lemma NoNames(name: string)
    ensures !Names([], name)
  {
  }

  lemma ResourceMoves(rr: map<string, Resource>, s: Statement, resource: string, bucket: string, name: string)
    requires WithResource(rr, s, resource, bucket).Some?
    ensures Moved(OpsAt(rr, name), SubjectOf(s),
                  op => TrimPrefix(resource, ARN_AWS_PREFIX) == name && Opens(s.actions, op),
                  OpsAt(WithResource(rr, s, resource, bucket).value, name))
  {
    hide AddedActions, Opens, Moved, TrimPrefix, ResourceInfoFromName, HasPrefix, SubjectOf;
    var list := OpsAt(rr, name);
    if TrimPrefix(resource, ARN_AWS_PREFIX) == name {
      ActionsMoved(list, SubjectOf(s), s.actions);
      MovedSame(list, SubjectOf(s), op => Opens(s.actions, op),
                op => TrimPrefix(resource, ARN_AWS_PREFIX) == name && Opens(s.actions, op),
                AddedActions(list, SubjectOf(s), s.actions));
    } else {
      NothingMoved(list, SubjectOf(s), op => TrimPrefix(resource, ARN_AWS_PREFIX) == name && Opens(s.actions, op));
    }
  }

  lemma MovedSame(list: seq<AstOperation>, s: Subject, some: Operation -> bool, same: Operation -> bool,
                  after: seq<AstOperation>)
    requires Moved(list, s, some, after) && forall op :: some(op) <==> same(op)
    ensures Moved(list, s, same, after)
  {
    hide Says, RuleOf;
  }

  // ---- a policy ----

  /** Statements name users by their ids, and everyone by a wildcard. */
  predicate IsAbout(s: Statement, who: Grantee)
  {
    match who
    case Everyone => s.principal.aws == ALL_USERS_WILDCARD
    case User(u) => s.principal.aws != ALL_USERS_WILDCARD && s.principal.canonicalUser == u
  }

  predicate IsForAll(s: Statement) { s.principal.aws == ALL_USERS_WILDCARD }

  predicate Does(effect: Effect, a: Action)
  {
    (effect.AllowEffect? <==> a == Allow) && (effect.DenyEffect? <==> a == Deny)
  }

  /** A statement for everyone, or for a user, is about an operation on a resource. */
  predicate Tells(s: Statement, name: string, op: Operation, group: bool)
  {
    IsForAll(s) == group && Names(s.resources, name) && Opens(s.actions, op)
  }

  /** The first statement about an operation on a resource, for everyone or for users, has an effect. */
  ghost predicate FirstDoes(ss: seq<Statement>, name: string, op: Operation, group: bool, a: Action)
  {
    exists i :: 0 <= i < |ss| && IsFirst(ss, i, name, op, group) && Does(ss[i].effect, a)
  }

  predicate IsFirst(ss: seq<Statement>, i: nat, name: string, op: Operation, group: bool)
    requires i < |ss|
  {
    Tells(ss[i], name, op, group) && forall j :: 0 <= j < i ==> !Tells(ss[j], name, op, group)
  }

  ghost predicate SomeTells(ss: seq<Statement>, name: string, op: Operation, who: Grantee)
  {
    exists i :: 0 <= i < |ss| && Tells(ss[i], name, op, who.Everyone?) && IsAbout(ss[i], who)
  }

  ghost predicate SomeNames(ss: seq<Statement>, name: string)
  {
    exists i :: 0 <= i < |ss| && Names(ss[i].resources, name)
  }

  /** Every principal is everyone or a user, and every resource is in the bucket. */
  ghost predicate Supported(ss: seq<Statement>, bucket: string)
  {
    forall i :: 0 <= i < |ss| ==>
      && AllWithin(ss[i].resources, bucket)
      && (IsForAll(ss[i]) || (ss[i].principal.aws == "" && ss[i].principal.canonicalUser != ""))
  }

  /** What the rules by resource say of a policy. */
  ghost predicate PolicyRules(ss: seq<Statement>, bucket: string, rr: map<string, Resource>)
  {
    && Named(rr, bucket) && (forall name :: name in rr <==> SomeNames(ss, name))
    && (forall name, op, group, a :: RuleOf(OpsAt(rr, name), op, group) == Some(a) <==>
      FirstDoes(ss, name, op, group, a))
    && (forall name, op, who, a ::
          Says(OpsAt(rr, name), op, who, a) <==>
          SomeTells(ss, name, op, who) && FirstDoes(ss, name, op, who.Everyone?, a))
  }

  /**
   A policy can be read exactly if all its principals and resources are supported. A grantee that some statement
   names then gets the effect of the first statement there is for users, or for everyone, whatever its own effect.
   */
  lemma {:induction false} PolicyMeans(ss: seq<Statement>, bucket: string)
    ensures WithStatements(ss, bucket).Some? <==> Supported(ss, bucket)
    ensures Supported(ss, bucket) ==> PolicyRules(ss, bucket, WithStatements(ss, bucket).value)
  {
    hide WithResources, PolicyRules, Supported, SupportedPrincipal;
    if ss == [] {
      NoRules(bucket);
      assert Supported([], bucket) by { NothingSupported(bucket); }
    } else {
      var rest, s := ss[..|ss| - 1], ss[|ss| - 1];
      assert ss == rest + [s];
      PolicyMeans(rest, bucket);
      SupportedMore(rest, s, bucket);
      if Supported(rest, bucket) {
        StepMeans(rest, s, bucket, WithStatements(rest, bucket).value);
      }
    }
  }

  lemma NothingSupported(bucket: string)
    ensures Supported([], bucket)
  {
  }

  lemma SupportedMore(rest: seq<Statement>, s: Statement, bucket: string)
    ensures Supported(rest + [s], bucket) <==>
            Supported(rest, bucket) && AllWithin(s.resources, bucket) && SupportedPrincipal(s.principal)
  {
    hide AllWithin;
    var ss := rest + [s];
    assert ss[|rest|] == s && forall i :: 0 <= i < |rest| ==> ss[i] == rest[i];
  }

  lemma StepMeans(rest: seq<Statement>, s: Statement, bucket: string, rr: map<string, Resource>)
    requires PolicyRules(rest, bucket, rr)
    ensures WithResources(rr, s, s.resources, bucket).Some? <==> AllWithin(s.resources, bucket)
    ensures AllWithin(s.resources, bucket) ==>
              PolicyRules(rest + [s], bucket, WithResources(rr, s, s.resources, bucket).value)
  {
    hide WithResources, AllWithin, Moved, OpsAt, Names, Opens, Named, SubjectOf, FirstDoes, SomeTells, SomeNames, Says,
      RuleOf;
    StatementNames(rr, s, s.resources, bucket);
    if AllWithin(s.resources, bucket) {
      forall name
        ensures Moved(OpsAt(rr, name), SubjectOf(s), op => Names(s.resources, name) && Opens(s.actions, op),
                      OpsAt(WithResources(rr, s, s.resources, bucket).value, name))
      {
        StatementMoves(rr, s, s.resources, bucket, name);
      }
      RulesMove(rest, s, bucket, rr, WithResources(rr, s, s.resources, bucket).value);
    }
  }

  lemma NoRules(bucket: string)
    ensures PolicyRules([], bucket, map[])
  {
    forall op, group ensures RuleOf([], op, group) == None { NoMatch(op, group); }
    hide RuleOf;
  }

  lemma NoMatch(op: Operation, group: bool)
    ensures LastMatch([], op, group) == 0
  {
  }

  lemma FirstMore(rest: seq<Statement>, s: Statement, name: string, op: Operation, group: bool, a: Action)
    ensures FirstDoes(rest + [s], name, op, group, a) <==>
            if exists b :: FirstDoes(rest, name, op, group, b) then FirstDoes(rest, name, op, group, a)
            else Tells(s, name, op, group) && Does(s.effect, a)
  {
    hide FirstDoes, Tells, Does;
    if b :| FirstDoes(rest, name, op, group, b) {
      FirstStays(rest, s, name, op, group, a, b);
    } else {
      NoneTells(rest, name, op, group);
      FirstIsNew(rest, s, name, op, group, a);
    }
  }

  lemma SameFirst(rest: seq<Statement>, s: Statement, i: nat, name: string, op: Operation, group: bool)
    requires i < |rest|
    ensures IsFirst(rest + [s], i, name, op, group) <==> IsFirst(rest, i, name, op, group)
  {
    hide Tells;
    assert forall j :: 0 <= j <= i ==> (rest + [s])[j] == rest[j];
  }

  lemma FirstStays(rest: seq<Statement>, s: Statement, name: string, op: Operation, group: bool, a: Action, b: Action)
    requires FirstDoes(rest, name, op, group, b)
    ensures FirstDoes(rest + [s], name, op, group, a) <==> FirstDoes(rest, name, op, group, a)
  {
    hide Tells, Does, IsFirst;
    var ss := rest + [s];
    forall i: nat | i < |rest|
      ensures ss[i] == rest[i] && (IsFirst(ss, i, name, op, group) <==> IsFirst(rest, i, name, op, group))
    {
      SameFirst(rest, s, i, name, op, group);
    }
    var k: nat :| k < |rest| && IsFirst(rest, k, name, op, group) && Does(rest[k].effect, b);
    NotLater(ss, k, |rest|, name, op, group);
  }

  lemma NotLater(ss: seq<Statement>, k: nat, i: nat, name: string, op: Operation, group: bool)
    requires k < i < |ss| && IsFirst(ss, k, name, op, group)
    ensures !IsFirst(ss, i, name, op, group)
  {
    hide Tells;
  }

  lemma FirstIsNew(rest: seq<Statement>, s: Statement, name: string, op: Operation, group: bool, a: Action)
    requires forall i :: 0 <= i < |rest| ==> !Tells(rest[i], name, op, group)
    ensures FirstDoes(rest + [s], name, op, group, a) <==> Tells(s, name, op, group) && Does(s.effect, a)
  {
    hide Tells, Does;
    var ss := rest + [s];
    assert ss[|rest|] == s && forall i :: 0 <= i < |rest| ==> ss[i] == rest[i];
    assert IsFirst(ss, |rest|, name, op, group) <==> Tells(s, name, op, group);
  }

  lemma {:induction false} NoneTells(ss: seq<Statement>, name: string, op: Operation, group: bool)
    requires forall b :: !FirstDoes(ss, name, op, group, b)
    ensures forall i :: 0 <= i < |ss| ==> !Tells(ss[i], name, op, group)
  {
    hide Tells;
    forall i | 0 <= i < |ss| ensures !Tells(ss[i], name, op, group) {
      NoFirst(ss, i, name, op, group);
    }
  }

  lemma {:induction false} NoFirst(ss: seq<Statement>, i: nat, name: string, op: Operation, group: bool)
    requires i < |ss| && forall b :: !FirstDoes(ss, name, op, group, b)
    ensures !Tells(ss[i], name, op, group)
    decreases i
  {
    hide Tells;
    forall j | 0 <= j < i ensures !Tells(ss[j], name, op, group) { NoFirst(ss, j, name, op, group); }
    var a := EffectToAction(ss[i].effect);
    assert Does(ss[i].effect, a);
    assert !FirstDoes(ss, name, op, group, a);
    assert !IsFirst(ss, i, name, op, group);
  }

  lemma TellsMore(rest: seq<Statement>, s: Statement, name: string, op: Operation, who: Grantee)
    ensures SomeTells(rest + [s], name, op, who) <==>
            SomeTells(rest, name, op, who) || (Tells(s, name, op, who.Everyone?) && IsAbout(s, who))
    ensures SomeNames(rest + [s], name) <==> SomeNames(rest, name) || Names(s.resources, name)
  {
    hide Tells, IsAbout, Names;
    var ss := rest + [s];
    assert ss[|rest|] == s && forall i :: 0 <= i < |rest| ==> ss[i] == rest[i];
  }

  /** There is only one first effect. */
  lemma FirstIsOne(ss: seq<Statement>, name: string, op: Operation, group: bool)
    ensures forall a, b :: FirstDoes(ss, name, op, group, a) && FirstDoes(ss, name, op, group, b) ==> a == b
  {
    hide Tells;
  }

  lemma TellerKnown(ss: seq<Statement>, name: string, op: Operation, who: Grantee)
    ensures SomeTells(ss, name, op, who) ==> exists a :: FirstDoes(ss, name, op, who.Everyone?, a)
  {
    hide Tells, IsAbout;
    if forall a :: !FirstDoes(ss, name, op, who.Everyone?, a) { NoneTells(ss, name, op, who.Everyone?); }
  }

  /** One more statement. */
  lemma RulesMove(rest: seq<Statement>, s: Statement, bucket: string, rr: map<string, Resource>,
                  after: map<string, Resource>)
    requires PolicyRules(rest, bucket, rr) && Named(after, bucket)
    requires forall name :: name in after <==> name in rr || Names(s.resources, name)
    requires forall name :: Moved(OpsAt(rr, name), SubjectOf(s), op => Names(s.resources, name) && Opens(s.actions, op),
                                  OpsAt(after, name))
    ensures PolicyRules(rest + [s], bucket, after)
  {
    hide Moved, RuleOf, Says, Named, FirstDoes, SomeTells, SomeNames, OpsAt, Names, Tells;
    forall name ensures name in after <==> SomeNames(rest + [s], name) {
      TellsMore(rest, s, name, Get, Everyone);
    }
    forall name, op, group, a
      ensures RuleOf(OpsAt(after, name), op, group) == Some(a) <==> FirstDoes(rest + [s], name, op, group, a)
    {
      RuleMore(rest, s, bucket, rr, OpsAt(after, name), name, op, group, a);
    }
    forall name, op, who, a
      ensures Says(OpsAt(after, name), op, who, a) <==>
              SomeTells(rest + [s], name, op, who) && FirstDoes(rest + [s], name, op, who.Everyone?, a)
    {
      SaysMore(rest, s, bucket, rr, OpsAt(after, name), name, op, who, a);
    }
  }

  lemma RuleMore(rest: seq<Statement>, s: Statement, bucket: string, rr: map<string, Resource>,
                 after: seq<AstOperation>, name: string, op: Operation, group: bool, a: Action)
    requires PolicyRules(rest, bucket, rr)
    requires Moved(OpsAt(rr, name), SubjectOf(s), op => Names(s.resources, name) && Opens(s.actions, op), after)
    ensures RuleOf(after, op, group) == Some(a) <==> FirstDoes(rest + [s], name, op, group, a)
  {
    hide RuleOf, Says, Named, FirstDoes, SomeTells, SomeNames, OpsAt, Names, Opens;
    FirstMore(rest, s, name, op, group, a);
    var there := RuleOf(OpsAt(rr, name), op, group);
    assert forall b :: there == Some(b) <==> FirstDoes(rest, name, op, group, b);
    if there.Some? { assert FirstDoes(rest, name, op, group, there.value); }
  }

  lemma SaysMore(rest: seq<Statement>, s: Statement, bucket: string, rr: map<string, Resource>,
                 after: seq<AstOperation>, name: string, op: Operation, who: Grantee, a: Action)
    requires PolicyRules(rest, bucket, rr)
    requires Moved(OpsAt(rr, name), SubjectOf(s), op => Names(s.resources, name) && Opens(s.actions, op), after)
    ensures Says(after, op, who, a) <==>
            SomeTells(rest + [s], name, op, who) && FirstDoes(rest + [s], name, op, who.Everyone?, a)
  {
    hide RuleOf, Says, Named, FirstDoes, SomeTells, SomeNames, OpsAt, Names, Opens;
    var group := who.Everyone?;
    FirstMore(rest, s, name, op, group, a);
    TellsMore(rest, s, name, op, who);
    TellerKnown(rest, name, op, who);
    var there := RuleOf(OpsAt(rr, name), op, group);
    assert forall b :: there == Some(b) <==> FirstDoes(rest, name, op, group, b);
    if there.Some? { assert FirstDoes(rest, name, op, group, there.value); }
    assert IsSubject(SubjectOf(s), who) ==> SubjectOf(s).group == group;
    assert IsSubject(SubjectOf(s), who) <==> IsAbout(s, who);
  }

  // ---- statements that are taken at their word ----

  /** Some statement about a grantee has an effect. */
  ghost predicate SomeDoes(ss: seq<Statement>, name: string, op: Operation, who: Grantee, a: Action)
  {
    exists i :: 0 <= i < |ss| && Tells(ss[i], name, op, who.Everyone?) && IsAbout(ss[i], who) && Does(ss[i].effect, a)
  }

  ghost predicate OfOneEffect(ss: seq<Statement>, name: string, op: Operation, group: bool)
  {
    forall i, j :: 0 <= i < |ss| && 0 <= j < |ss| && Tells(ss[i], name, op, group) && Tells(ss[j], name, op, group) ==>
      forall a :: Does(ss[i].effect, a) <==> Does(ss[j].effect, a)
  }

  /** Grantees get the effects that statements name them with exactly if all these statements have one effect. */
  lemma PolicyKeeps(ss: seq<Statement>, bucket: string, name: string, op: Operation, group: bool)
    requires WithStatements(ss, bucket).Some?
    ensures (forall who: Grantee, a :: who.Everyone? == group ==>
               (Says(OpsAt(WithStatements(ss, bucket).value, name), op, who, a) <==>
                 SomeDoes(ss, name, op, who, a))) <==>
            OfOneEffect(ss, name, op, group)
  {
    hide OpsAt, Says, Tells, Does, IsAbout, FirstDoes, SomeTells, RuleOf, SomeNames, Named, Supported, OfOneEffect,
      SomeDoes;
    PolicyMeans(ss, bucket);
    if forall who: Grantee, a :: who.Everyone? == group ==>
         (Says(OpsAt(WithStatements(ss, bucket).value, name), op, who, a) <==> SomeDoes(ss, name, op, who, a)) {
      forall i | 0 <= i < |ss| && Tells(ss[i], name, op, group)
        ensures FirstDoes(ss, name, op, group, EffectToAction(ss[i].effect))
      {
        var who := if group then Everyone else User(ss[i].principal.canonicalUser);
        SubjectDoes(ss, i, name, op, who, group);
      }
      FirstsAgree(ss, name, op, group);
    }
    if OfOneEffect(ss, name, op, group) {
      forall who: Grantee, a | who.Everyone? == group
        ensures SomeTells(ss, name, op, who) && FirstDoes(ss, name, op, group, a) <==> SomeDoes(ss, name, op, who, a)
      {
        OneEffect(ss, name, op, who, a);
      }
    }
  }

  lemma SubjectDoes(ss: seq<Statement>, i: nat, name: string, op: Operation, who: Grantee, group: bool)
    requires i < |ss| && Tells(ss[i], name, op, group)
    requires who == if group then Everyone else User(ss[i].principal.canonicalUser)
    ensures who.Everyone? == group && SomeDoes(ss, name, op, who, EffectToAction(ss[i].effect))
  {
    assert IsAbout(ss[i], who) && Does(ss[i].effect, EffectToAction(ss[i].effect));
  }

  lemma FirstsAgree(ss: seq<Statement>, name: string, op: Operation, group: bool)
    requires forall i :: 0 <= i < |ss| && Tells(ss[i], name, op, group) ==>
               FirstDoes(ss, name, op, group, EffectToAction(ss[i].effect))
    ensures OfOneEffect(ss, name, op, group)
  {
    hide FirstDoes, Tells;
    FirstIsOne(ss, name, op, group);
  }

  lemma OneEffect(ss: seq<Statement>, name: string, op: Operation, who: Grantee, a: Action)
    requires OfOneEffect(ss, name, op, who.Everyone?)
    ensures SomeTells(ss, name, op, who) && FirstDoes(ss, name, op, who.Everyone?, a) <==>
              SomeDoes(ss, name, op, who, a)
  {
    hide Tells, IsAbout, Does;
    TellerKnown(ss, name, op, who);
  }

  /** One user is allowed to read, then another one is denied it: both are allowed. */
  lemma JoinsExample(bucket: string)
    ensures var resources := [ARN_AWS_PREFIX + bucket];
            var ss := [Statement(AllowEffect, Principal("", "alice"), [GetObject], resources),
                       Statement(DenyEffect, Principal("", "bob"), [GetObject], resources)];
            && WithStatements(ss, bucket).Some? && bucket in WithStatements(ss, bucket).value
            && Says(WithStatements(ss, bucket).value[bucket].operations, Get, User("bob"), Allow)
  {
    hide Says, RuleOf, WithStatements, Names, Opens, AllWithin;
    var resources := [ARN_AWS_PREFIX + bucket];
    var ss := [Statement(AllowEffect, Principal("", "alice"), [GetObject], resources),
               Statement(DenyEffect, Principal("", "bob"), [GetObject], resources)];
    BucketNamed(bucket);
    GetOpened();
    PolicyMeans(ss, bucket);
    assert Tells(ss[0], bucket, Get, false) && IsFirst(ss, 0, bucket, Get, false);
    assert Tells(ss[1], bucket, Get, false) && IsAbout(ss[1], User("bob"));
    assert FirstDoes(ss, bucket, Get, false, Allow) && SomeTells(ss, bucket, Get, User("bob"));
  }

  lemma BucketNamed(bucket: string)
    ensures Names([ARN_AWS_PREFIX + bucket], bucket) && AllWithin([ARN_AWS_PREFIX + bucket], bucket)
  {
    assert TrimPrefix([ARN_AWS_PREFIX + bucket][0], ARN_AWS_PREFIX) == bucket;
  }

  lemma GetOpened()
    ensures Opens([GetObject], Get)
  {
    assert Get in OpsOf([GetObject][0]);
  }
}
