/** Whom the rules of an access control list allow what. */
module AclMeanings {
  import opened AclPolicies
  import opened AclRoutes
  import opened Acls
  import opened Wrappers

  // ---- what permissions mean ----

  predicate Writes(op: Operation) { op == Put || op == Delete }

  predicate Reads(op: Operation) { op != UnknownOp && !Writes(op) }

  /** The operations that a permission for a bucket, or for an object, is about; objects are only read. */
  predicate Allows(permission: Permission, isBucket: bool, op: Operation)
  {
    match permission
    case FullControl => Reads(op) || (isBucket && Writes(op))
    case ReadPermission => Reads(op)
    case WritePermission => isBucket && Writes(op)
    case OtherPermission => false
  }

  predicate Opens(actions: seq<S3Action>, op: Operation)
  {
    exists i :: 0 <= i < |actions| && op in OpsOf(actions[i])
  }

  /** The actions of a statement or grant open just these operations. */
  lemma ActionsAllow(permission: Permission, isBucket: bool, op: Operation)
    ensures Opens(GetActions(permission, isBucket), op) <==> Allows(permission, isBucket, op)
  {
    var actions := GetActions(permission, isBucket);
    assert op in READ_OPS <==> Reads(op);
    if Allows(permission, isBucket, op) {
      var i := if Reads(op) then 0 else if permission == FullControl then if op == Put then 3 else 4
               else if op == Put then 0 else 1;
      assert op in OpsOf(actions[i]);
    }
  }

  /** Buckets are listed and written to, objects are got. */
  predicate Suits(a: S3Action, isBucket: bool)
  {
    match a
    case GetObject => !isBucket
    case GetObjectVersion => !isBucket
    case OtherAction(_) => false
    case _ => isBucket
  }

  predicate Permits(permission: Permission, a: S3Action)
  {
    match permission
    case FullControl => true
    case ReadPermission => !a.PutObject? && !a.DeleteObject?
    case WritePermission => a.PutObject? || a.DeleteObject?
    case OtherPermission => false
  }

  /** And they are the ones that suit the resource. */
  lemma ActionsSuit(permission: Permission, isBucket: bool, a: S3Action)
    ensures a in GetActions(permission, isBucket) <==> Suits(a, isBucket) && Permits(permission, a)
  {
    if Suits(a, isBucket) && Permits(permission, a) {
      var actions := GetActions(permission, isBucket);
      var i := match a case GetObject => 0 case GetObjectVersion => 1 case ListBucket => 0 case ListBucketVersions => 1
                       case ListBucketMultipartUploads => 2
                       case PutObject => |actions| - 2 case DeleteObject => |actions| - 1 case OtherAction(_) => 0;
      assert actions[i] == a;
    }
  }

  // ---- adding ----

  predicate IsSubject(s: Subject, who: Grantee)
  {
    match who
    case Everyone => s.group
    case User(u) => !s.group && s.userID == u
  }

  /** An added grantee gets the action of the rule there is about the operation, and the new action if there is none. */
  lemma AddedSays(list: seq<AstOperation>, s: Subject, added: Operation, op: Operation, who: Grantee, a: Action)
    ensures var i := LastMatch(list, added, s.group);
            Says(Added(list, s, added), op, who, a) <==>
            Says(list, op, who, a) ||
            (op == added && IsSubject(s, who) && a == if i == |list| then s.action else list[i].action)
  {
    hide LastMatch, Says, Speaks;
    var i := LastMatch(list, added, s.group);
    if i == |list| {
      var o := AstOperation(if s.group then [] else [s.userID], added, s.action);
      SaysJoin(list, [o], op, who, a);
      OneSays(o, s, op, who, a);
    } else if s.group {
      GroupSays(list, i, s, op, who, a);
    } else {
      MoreSays(list, i, s, op, who, a);
    }
  }

  lemma OneSays(o: AstOperation, s: Subject, op: Operation, who: Grantee, a: Action)
    requires o.users == (if s.group then [] else [s.userID])
    ensures Says([o], op, who, a) <==> op == o.op && IsSubject(s, who) && a == o.action
  {
    assert [o][0] == o;
  }

  lemma GroupSays(list: seq<AstOperation>, i: nat, s: Subject, op: Operation, who: Grantee, a: Action)
    requires i < |list| && list[i].IsGroupGrantee() && s.group
    ensures op == list[i].op && IsSubject(s, who) && a == list[i].action ==> Says(list, op, who, a)
  {
    assert op == list[i].op && IsSubject(s, who) && a == list[i].action ==> Speaks(list[i], op, who, a);
  }

  lemma MoreSays(list: seq<AstOperation>, i: nat, s: Subject, op: Operation, who: Grantee, a: Action)
    requires i < |list| && !list[i].IsGroupGrantee() && !s.group
    ensures Says(list[i := list[i].(users := list[i].users + [s.userID])], op, who, a) <==>
            Says(list, op, who, a) || (op == list[i].op && IsSubject(s, who) && a == list[i].action)
  {
    var o := list[i].(users := list[i].users + [s.userID]);
    hide Says, Speaks;
    SaysAround(list, i, list[i], op, who, a);
    SaysAround(list, i, o, op, who, a);
    assert list[i := list[i]] == list;
    SpeaksMore(list[i], s.userID, op, who, a);
  }

  lemma SpeaksMore(o: AstOperation, u: string, op: Operation, who: Grantee, a: Action)
    requires !o.IsGroupGrantee()
    ensures Speaks(o.(users := o.users + [u]), op, who, a) <==>
            Speaks(o, op, who, a) || (op == o.op && who == User(u) && a == o.action)
  {
  }

  lemma SaysAround(list: seq<AstOperation>, i: nat, o: AstOperation, op: Operation, who: Grantee, a: Action)
    requires i < |list|
    ensures Says(list[i := o], op, who, a) <==>
            Says(list[..i], op, who, a) || Speaks(o, op, who, a) || Says(list[i + 1..], op, who, a)
  {
    hide Says, Speaks;
    assert list[i := o] == list[..i] + [o] + list[i + 1..];
    SaysJoin(list[..i] + [o], list[i + 1..], op, who, a);
    SaysJoin(list[..i], [o], op, who, a);
    assert Says([o], op, who, a) <==> Speaks(o, op, who, a) by { SaysOne(o, op, who, a); }
  }

  lemma SaysOne(o: AstOperation, op: Operation, who: Grantee, a: Action)
    ensures Says([o], op, who, a) <==> Speaks(o, op, who, a)
  {
    assert [o][0] == o;
  }

  /** Users are only allowed; everyone is only denied, or only allowed. */
  ghost predicate Uniform(list: seq<AstOperation>, denied: bool)
  {
    && (forall op, u, a :: Says(list, op, User(u), a) ==> a == Allow)
    && (forall op, a :: Says(list, op, Everyone, a) ==> a == if denied then Deny else Allow)
  }

  /** What the rule there is about an operation says is known. */
  lemma RuleSays(list: seq<AstOperation>, op: Operation, group: bool, denied: bool)
    requires Uniform(list, denied) && LastMatch(list, op, group) < |list|
    ensures var o := list[LastMatch(list, op, group)];
            if group then o.action == (if denied then Deny else Allow) && Says(list, op, Everyone, o.action)
            else o.action == Allow
  {
    var o := list[LastMatch(list, op, group)];
    hide LastMatch;
    var who := if group then Everyone else User(o.users[0]);
    assert Speaks(o, op, who, o.action);
    assert Says(list, op, who, o.action);
  }

  /** Everyone is denied what is to be added. */
  ghost predicate DeniedAll(list: seq<AstOperation>, ops: seq<Operation>)
  {
    forall op :: op in ops ==> Says(list, op, Everyone, Deny)
  }

  lemma AddedUniform(list: seq<AstOperation>, s: Subject, added: Operation, denied: bool)
    requires Single(list) && Uniform(list, denied) && s.action == Allow
    requires denied && s.group ==> Says(list, added, Everyone, Deny)
    ensures Single(Added(list, s, added)) && Uniform(Added(list, s, added), denied)
    ensures forall op, who, a ::
              Says(Added(list, s, added), op, who, a) <==>
              Says(list, op, who, a) ||
              (a == Allow && op == added && IsSubject(s, who) && !(denied && s.group))
  {
    var i := LastMatch(list, added, s.group);
    if i < |list| { RuleSays(list, added, s.group, denied); }
    if denied && s.group { SomeRuleFor(list, added); }
    OpsSingle(list, s, [added]);
    assert AddedOps(list, s, [added]) == Added(list, s, added) by { OneAdded(list, s, added); }
    hide LastMatch, Added, Single;
    forall op, who, a
      ensures Says(Added(list, s, added), op, who, a) <==>
              Says(list, op, who, a) ||
              (a == Allow && op == added && IsSubject(s, who) && !(denied && s.group))
    {
      AddedSays(list, s, added, op, who, a);
    }
    hide Says;
  }

  lemma OneAdded(list: seq<AstOperation>, s: Subject, added: Operation)
    ensures AddedOps(list, s, [added]) == Added(list, s, added)
  {
    assert [added][..0] == [] && AddedOps(list, s, []) == list;
  }

  lemma SomeRuleFor(list: seq<AstOperation>, op: Operation)
    requires Says(list, op, Everyone, Deny)
    ensures LastMatch(list, op, true) < |list|
  {
  }

  lemma {:induction false} OpsSay(list: seq<AstOperation>, s: Subject, ops: seq<Operation>, denied: bool)
    requires Single(list) && Uniform(list, denied) && s.action == Allow && (denied && s.group ==> DeniedAll(list, ops))
    ensures Single(AddedOps(list, s, ops)) && Uniform(AddedOps(list, s, ops), denied)
    ensures forall op, who, a ::
              Says(AddedOps(list, s, ops), op, who, a) <==>
              Says(list, op, who, a) || (a == Allow && op in ops && IsSubject(s, who) && !(denied && s.group))
  {
    hide Single, Uniform, Added, Says;
    if ops != [] {
      var rest, last := ops[..|ops| - 1], ops[|ops| - 1];
      assert forall op :: op in ops <==> op in rest || op == last by { assert ops == rest + [last]; }
      OpsSay(list, s, rest, denied);
      AddedUniform(AddedOps(list, s, rest), s, last, denied);
    }
  }

  lemma {:induction false} ActionsSay(list: seq<AstOperation>, s: Subject, actions: seq<S3Action>, denied: bool)
    requires Single(list) && Uniform(list, denied) && s.action == Allow
    requires denied && s.group ==> forall i :: 0 <= i < |actions| ==> DeniedAll(list, OpsOf(actions[i]))
    ensures Single(AddedActions(list, s, actions)) && Uniform(AddedActions(list, s, actions), denied)
    ensures forall op, who, a ::
              Says(AddedActions(list, s, actions), op, who, a) <==>
              Says(list, op, who, a) || (a == Allow && Opens(actions, op) && IsSubject(s, who) && !(denied && s.group))
  {
    hide Single, Uniform, AddedOps, Says, OpsOf;
    if actions != [] {
      var rest, last := actions[..|actions| - 1], actions[|actions| - 1];
      forall op ensures Opens(actions, op) <==> Opens(rest, op) || op in OpsOf(last) {
        OpensMore(rest, last, actions, op);
      }
      hide Opens;
      ActionsSay(list, s, rest, denied);
      OpsSay(AddedActions(list, s, rest), s, OpsOf(last), denied);
    } else {
      hide Opens;
      NothingOpens();
    }
  }

  lemma NothingOpens()
    ensures forall op :: !Opens([], op)
  {
  }

  lemma OpensMore(rest: seq<S3Action>, last: S3Action, actions: seq<S3Action>, op: Operation)
    requires actions != [] && rest == actions[..|actions| - 1] && last == actions[|actions| - 1]
    ensures Opens(actions, op) <==> Opens(rest, op) || op in OpsOf(last)
  {
    hide OpsOf;
    if Opens(rest, op) {
      var i :| 0 <= i < |rest| && op in OpsOf(rest[i]);
      assert actions[i] == rest[i];
    }
  }

  // ---- a list ----

  /** All that can be done with a bucket, or with an object. */
  predicate Owned(info: ResourceInfo, op: Operation) { Allows(FullControl, info.objectName == "", op) }

  /**
   What a list says: its owner may do everything, and grantees may do what they are granted. With fewer than two
   grants it is private: everyone else is denied everything, whatever is granted to everyone.
   */
  ghost predicate Meant(acl: AccessControlPolicy, info: ResourceInfo, grants: seq<Grant>, op: Operation, who: Grantee,
                        a: Action)
  {
    match who
    case User(u) =>
      a == Allow && ((u == acl.ownerID && Owned(info, op)) ||
                     exists i :: 0 <= i < |grants| && GrantsUser(grants[i], u, info, op))
    case Everyone =>
      if |acl.list| < 2 then a == Deny && Owned(info, op)
      else a == Allow && exists i :: 0 <= i < |grants| && GrantsAll(grants[i], info, op)
  }

  predicate GrantsUser(g: Grant, u: string, info: ResourceInfo, op: Operation)
  {
    g.granteeType != Group && g.id == u && Allows(g.permission, info.objectName == "", op)
  }

  predicate GrantsAll(g: Grant, info: ResourceInfo, op: Operation)
  {
    g.granteeType == Group && Allows(g.permission, info.objectName == "", op)
  }

  lemma RulesSay(s: Subject, ops: seq<Operation>, op: Operation, who: Grantee, a: Action)
    ensures Says(RulesFor(s, ops), op, who, a) <==> a == s.action && op in ops && IsSubject(s, who)
  {
    hide RulesFor;
    var rules := RulesFor(s, ops);
    if Says(rules, op, who, a) {
      var i :| 0 <= i < |rules| && Speaks(rules[i], op, who, a);
      assert ops[i] == op;
    }
    if a == s.action && op in ops && IsSubject(s, who) {
      var i :| 0 <= i < |ops| && ops[i] == op;
      assert Speaks(rules[i], op, who, a);
    }
  }

  lemma FullOpsOwned(info: ResourceInfo, op: Operation)
    ensures op in FullOps(info) <==> Owned(info, op)
  {
    assert op in READ_OPS <==> Reads(op);
    assert op in WRITE_OPS <==> Writes(op);
  }

  lemma SaysJoin(x: seq<AstOperation>, y: seq<AstOperation>, op: Operation, who: Grantee, a: Action)
    ensures Says(x + y, op, who, a) <==> Says(x, op, who, a) || Says(y, op, who, a)
  {
    hide Speaks;
    forall j | 0 <= j < |x| ensures Speaks(x[j], op, who, a) ==> Says(x + y, op, who, a) {
      assert (x + y)[j] == x[j];
    }
    forall j | 0 <= j < |y| ensures Speaks(y[j], op, who, a) ==> Says(x + y, op, who, a) {
      assert (x + y)[|x| + j] == y[j];
    }
  }

  lemma OwnerMeans(acl: AccessControlPolicy, info: ResourceInfo, op: Operation, who: Grantee, a: Action)
    ensures Says(OwnerRules(acl, info), op, who, a) <==> Meant(acl, info, [], op, who, a)
  {
    hide Says, FullOps, RulesFor;
    FullOpsOwned(info, op);
    var denied := Subject("", true, Deny);
    var owner := Subject(acl.ownerID, false, Allow);
    RulesSay(denied, FullOps(info), op, who, a);
    RulesSay(owner, FullOps(info), op, who, a);
    SaysJoin(if |acl.list| < 2 then RulesFor(denied, FullOps(info)) else [], RulesFor(owner, FullOps(info)), op, who,
             a);
    NothingSays(op, who, a);
  }

  lemma NothingSays(op: Operation, who: Grantee, a: Action)
    ensures !Says([], op, who, a)
  {
  }

  lemma MeantUniform(acl: AccessControlPolicy, info: ResourceInfo, grants: seq<Grant>, list: seq<AstOperation>)
    requires forall op, who, a :: Says(list, op, who, a) <==> Meant(acl, info, grants, op, who, a)
    ensures Uniform(list, |acl.list| < 2)
    ensures |acl.list| < 2 ==> forall op :: Owned(info, op) ==> Says(list, op, Everyone, Deny)
  {
    hide Says;
  }

  /** There are rules exactly if all grantees are supported, and they say what the list says. */
  lemma {:induction false} ListMeans(acl: AccessControlPolicy, info: ResourceInfo, grants: seq<Grant>)
    ensures GrantedAll(acl, info, grants).Some? <==>
            forall i :: 0 <= i < |grants| ==>
              grants[i].granteeType != AmazonCustomerByEmail &&
              (grants[i].granteeType == Group ==> grants[i].uri == ALL_USERS_GROUP)
    ensures GrantedAll(acl, info, grants).Some? ==>
              forall op, who, a ::
                Says(GrantedAll(acl, info, grants).value, op, who, a) <==> Meant(acl, info, grants, op, who, a)
  {
    hide Says, Meant, AddedActions, GetActions, OwnerRules;
    if grants == [] {
      forall op, who, a ensures Says(OwnerRules(acl, info), op, who, a) <==> Meant(acl, info, [], op, who, a) {
        OwnerMeans(acl, info, op, who, a);
      }
    } else {
      var rest, g := grants[..|grants| - 1], grants[|grants| - 1];
      ListMeans(acl, info, rest);
      assert forall i :: 0 <= i < |rest| ==> grants[i] == rest[i];
      if GrantedAll(acl, info, rest).Some? && !Unsupported(g) {
        GrantsOneEach(acl, info, rest);
        GrantMeans(acl, info, rest, g, GrantedAll(acl, info, rest).value);
        assert grants == rest + [g];
      }
    }
  }

  lemma GrantMeans(acl: AccessControlPolicy, info: ResourceInfo, rest: seq<Grant>, g: Grant, list: seq<AstOperation>)
    requires Single(list)
    requires forall op, who, a :: Says(list, op, who, a) <==> Meant(acl, info, rest, op, who, a)
    ensures forall op, who, a ::
              Says(Granted(acl, info, g, list), op, who, a) <==> Meant(acl, info, rest + [g], op, who, a)
  {
    hide Says, AddedActions, GetActions, Single, Meant, Allows;
    var denied := |acl.list| < 2;
    var actions := GetActions(g.permission, IsBucket(info));
    MeantUniform(acl, info, rest, list);
    forall op ensures Opens(actions, op) <==> Allows(g.permission, IsBucket(info), op) {
      ActionsAllow(g.permission, IsBucket(info), op);
    }
    forall i | 0 <= i < |actions| && denied ensures DeniedAll(list, OpsOf(actions[i])) {
      forall op | op in OpsOf(actions[i]) ensures Says(list, op, Everyone, Deny) {
        assert Opens(actions, op);
        AllowsOwned(g.permission, info, op);
      }
    }
    hide Opens, OpsOf;
    if !Skipped(acl, g) { ActionsSay(list, Subject(g.id, g.granteeType == Group, Allow), actions, denied); }
    forall op, who, a
      ensures Says(Granted(acl, info, g, list), op, who, a) <==> Meant(acl, info, rest + [g], op, who, a)
    {
      MeantMore(acl, info, rest, g, op, who, a);
    }
  }

  lemma AllowsOwned(permission: Permission, info: ResourceInfo, op: Operation)
    ensures Allows(permission, IsBucket(info), op) ==> Owned(info, op)
  {
  }

  lemma MeantMore(acl: AccessControlPolicy, info: ResourceInfo, rest: seq<Grant>, g: Grant, op: Operation, who: Grantee,
                  a: Action)
    ensures Meant(acl, info, rest + [g], op, who, a) <==>
            Meant(acl, info, rest, op, who, a) ||
            (!Skipped(acl, g) && a == Allow && Allows(g.permission, IsBucket(info), op) &&
             IsSubject(Subject(g.id, g.granteeType == Group, Allow), who) &&
             !(|acl.list| < 2 && g.granteeType == Group))
  {
    hide Allows;
    var all := rest + [g];
    AllowsOwned(g.permission, info, op);
    assert all[|rest|] == g && forall i :: 0 <= i < |rest| ==> all[i] == rest[i];
  }
}
