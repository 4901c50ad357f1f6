/** An access control list as rules, directly and through a policy, and when both give the same. */
module AclRoutes {
  import opened AclNames
  import opened AclPolicies
  import opened Acls
  import opened Strings
  import opened Wrappers

  predicate Unsupported(g: Grant)
  {
    g.granteeType == AmazonCustomerByEmail || (g.granteeType == Group && g.uri != ALL_USERS_GROUP)
  }

  function FullOps(info: ResourceInfo): seq<Operation>
  {
    if IsBucket(info) then READ_OPS + WRITE_OPS else READ_OPS
  }

  /** One rule per operation. */
  function RulesFor(s: Subject, ops: seq<Operation>): (r: seq<AstOperation>)
    ensures |r| == |ops|
    ensures forall i :: 0 <= i < |ops| ==> r[i] == AstOperation(if s.group then [] else [s.userID], ops[i], s.action)
  {
    seq(|ops|, i requires 0 <= i < |ops| => AstOperation(if s.group then [] else [s.userID], ops[i], s.action))
  }

  /** A list with no more than the owner's grant is private: everyone else is denied. */
  function OwnerRules(acl: AccessControlPolicy, info: ResourceInfo): seq<AstOperation>
  {
    (if |acl.list| < 2 then RulesFor(Subject("", true, Deny), FullOps(info)) else [])
    + RulesFor(Subject(acl.ownerID, false, Allow), FullOps(info))
  }

  /** A grant that adds nothing: the owner's own. */
  predicate Skipped(acl: AccessControlPolicy, g: Grant)
  {
    g.granteeType != Group && g.id == acl.ownerID
  }

  function Granted(acl: AccessControlPolicy, info: ResourceInfo, g: Grant, list: seq<AstOperation>): seq<AstOperation>
  {
    if Skipped(acl, g) then list
    else AddedActions(list, Subject(g.id, g.granteeType == Group, Allow), GetActions(g.permission, IsBucket(info)))
  }

  function GrantedAll(acl: AccessControlPolicy, info: ResourceInfo, grants: seq<Grant>): Option<seq<AstOperation>>
  {
    if grants == [] then Some(OwnerRules(acl, info))
    else
      var g, before := grants[|grants| - 1], GrantedAll(acl, info, grants[..|grants| - 1]);
      if before.None? || Unsupported(g) then None else Some(Granted(acl, info, g, before.value))
  }

  /** Appends a rule per operation. */
  method AppendRules(operations: seq<AstOperation>, s: Subject, ops: seq<Operation>) returns (r: seq<AstOperation>)
    ensures r == operations + RulesFor(s, ops)
  {
    r := operations;
    for k := 0 to |ops|
      invariant r == operations + RulesFor(s, ops[..k])
    {
      var operation := AstOperation(if s.group then [] else [s.userID], ops[k], s.action);
      assert RulesFor(s, ops[..k + 1]) == RulesFor(s, ops[..k]) + [operation];
      r := r + [operation];
    }
    assert ops[..|ops|] == ops;
  }

  method AclToAst(acl: AccessControlPolicy, info: ResourceInfo) returns (r: Option<Resource>)
    ensures r == var rules := GrantedAll(acl, info, acl.list);
                 if rules.None? then None else Some(Resource(info, rules.value))
  {
    hide GrantedAll, RulesFor;
    var ops := READ_OPS;
    if IsBucket(info) {
      ops := ops + WRITE_OPS;
    }
    var operations: seq<AstOperation> := [];
    if |acl.list| < 2 {
      operations := AppendRules(operations, Subject("", true, Deny), ops);
    }
    operations := AppendRules(operations, Subject(acl.ownerID, false, Allow), ops);
    assert operations == OwnerRules(acl, info);
    var rules := AddGrants(acl, info, operations);
    if rules.None? {
      return None;
    }
    return Some(Resource(info, rules.value));
  }

  method AddGrants(acl: AccessControlPolicy, info: ResourceInfo, owned: seq<AstOperation>)
    returns (r: Option<seq<AstOperation>>)
    requires owned == OwnerRules(acl, info)
    ensures r == GrantedAll(acl, info, acl.list)
  {
    hide OwnerRules, AddedActions, GetActions;
    var operations := owned;
    assert acl.list[..|acl.list|] == acl.list;
    for k := 0 to |acl.list|
      invariant GrantedAll(acl, info, acl.list[..k]) == Some(operations)
    {
      assert acl.list[..k + 1][..k] == acl.list[..k];
      var grant := acl.list[k];
      if grant.granteeType == AmazonCustomerByEmail || (grant.granteeType == Group && grant.uri != ALL_USERS_GROUP) {
        UnsupportedFails(acl, info, acl.list, k);
        return None;
      }
      var groupGrantee := false;
      if grant.granteeType == Group {
        groupGrantee := true;
      } else if grant.id == acl.ownerID {
        continue;
      }
      operations := AddActions(operations, Subject(grant.id, groupGrantee, Allow),
                               GetActions(grant.permission, IsBucket(info)));
    }
    return Some(operations);
  }

  lemma {:induction false} UnsupportedFails(acl: AccessControlPolicy, info: ResourceInfo, grants: seq<Grant>, k: nat)
    requires k < |grants| && Unsupported(grants[k])
    ensures GrantedAll(acl, info, grants).None?
    decreases |grants|
  {
    hide Granted, Unsupported, OwnerRules;
    if k < |grants| - 1 { UnsupportedFails(acl, info, grants[..|grants| - 1], k); }
  }

  // ---- through a policy ----

  function GetStatement(info: ResourceInfo, id: string, permission: Permission, effect: Effect): Statement
  {
    Statement(effect, if id == ALL_USERS_WILDCARD then Principal(ALL_USERS_WILDCARD, "") else Principal("", id),
              GetActions(permission, IsBucket(info)), [ARN_AWS_PREFIX + Name(info)])
  }

  function OwnerStatements(acl: AccessControlPolicy, info: ResourceInfo): seq<Statement>
  {
    (if |acl.list| < 2 then [GetStatement(info, ALL_USERS_WILDCARD, FullControl, DenyEffect)] else [])
    + [GetStatement(info, acl.ownerID, FullControl, AllowEffect)]
  }

  function GrantStatement(info: ResourceInfo, g: Grant): Statement
  {
    GetStatement(info, if g.granteeType == Group then ALL_USERS_WILDCARD else g.id, g.permission, AllowEffect)
  }

  function AllStatements(acl: AccessControlPolicy, info: ResourceInfo, grants: seq<Grant>): Option<seq<Statement>>
  {
    if grants == [] then Some(OwnerStatements(acl, info))
    else
      var g, before := grants[|grants| - 1], AllStatements(acl, info, grants[..|grants| - 1]);
      if before.None? || Unsupported(g) then None
      else Some(if Skipped(acl, g) then before.value else before.value + [GrantStatement(info, g)])
  }

  method AclToPolicy(acl: AccessControlPolicy, info: ResourceInfo) returns (r: Option<BucketPolicy>)
    ensures r == var ss := AllStatements(acl, info, acl.list);
                 if info.bucket == "" || ss.None? then None else Some(BucketPolicy(ss.value, info.bucket))
  {
    hide GetStatement;
    if info.bucket == "" {
      return None;
    }
    var results := [GetStatement(info, acl.ownerID, FullControl, AllowEffect)];
    if |acl.list| < 2 {
      results := [GetStatement(info, ALL_USERS_WILDCARD, FullControl, DenyEffect)] + results;
    }
    assert acl.list[..|acl.list|] == acl.list;
    assert results == OwnerStatements(acl, info);
    for k := 0 to |acl.list|
      invariant AllStatements(acl, info, acl.list[..k]) == Some(results)
    {
      assert acl.list[..k + 1][..k] == acl.list[..k];
      var grant := acl.list[k];
      if grant.granteeType == AmazonCustomerByEmail || (grant.granteeType == Group && grant.uri != ALL_USERS_GROUP) {
        UnsupportedFailsPolicy(acl, info, acl.list, k);
        return None;
      }
      var user := grant.id;
      if grant.granteeType == Group {
        user := ALL_USERS_WILDCARD;
      } else if user == acl.ownerID {
        continue;
      }
      results := results + [GetStatement(info, user, grant.permission, AllowEffect)];
    }
    return Some(BucketPolicy(results, info.bucket));
  }

  lemma {:induction false} UnsupportedFailsPolicy(acl: AccessControlPolicy, info: ResourceInfo, grants: seq<Grant>,
                                                  k: nat)
    requires k < |grants| && Unsupported(grants[k])
    ensures AllStatements(acl, info, grants).None?
    decreases |grants|
  {
    hide Unsupported, OwnerStatements;
    if k < |grants| - 1 { UnsupportedFailsPolicy(acl, info, grants[..|grants| - 1], k); }
  }

  // ---- the rules of the statements ----

  /** Statements about one resource of their bucket. */
  ghost predicate AboutOne(ss: seq<Statement>, name: string)
  {
    forall i :: 0 <= i < |ss| ==> ss[i].resources == [ARN_AWS_PREFIX + name]
  }

  ghost predicate AllSupported(ss: seq<Statement>)
  {
    forall i :: 0 <= i < |ss| ==> SupportedPrincipal(ss[i].principal)
  }

  function StatementRules(ss: seq<Statement>): seq<AstOperation>
  {
    if ss == [] then []
    else AddedActions(StatementRules(ss[..|ss| - 1]), SubjectOf(ss[|ss| - 1]), ss[|ss| - 1].actions)
  }

  lemma TrimmedArn(name: string)
    ensures TrimPrefix(ARN_AWS_PREFIX + name, ARN_AWS_PREFIX) == name
  {
  }

  /** A policy about one resource has the rules of its statements for it. */
  lemma {:induction false} PolicyRules(ss: seq<Statement>, name: string, bucket: string)
    requires AboutOne(ss, name) && HasPrefix(name, bucket)
    ensures WithStatements(ss, bucket) ==
            if !AllSupported(ss) then None
            else if ss == [] then Some(map[])
            else Some(map[name := Resource(ResourceInfoFromName(name, bucket), StatementRules(ss))])
  {
    hide AddedActions, SupportedPrincipal, ResourceInfoFromName, TrimPrefix, HasPrefix;
    if ss != [] {
      var last := |ss| - 1;
      PolicyRules(ss[..last], name, bucket);
      TrimmedArn(name);
      assert AllSupported(ss) <==> AllSupported(ss[..last]) && SupportedPrincipal(ss[last].principal);
      if AllSupported(ss) {
        var rr := WithStatements(ss[..last], bucket).value;
        var resources := ss[last].resources;
        assert resources[..0] == [];
        assert WithResources(rr, ss[last], resources, bucket) == WithResource(rr, ss[last], resources[0], bucket);
        var rules := StatementRules(ss[..last]);
        var was := Resource(ResourceInfoFromName(name, bucket), rules);
        var now := Resource(ResourceInfoFromName(name, bucket), StatementRules(ss));
        assert name in rr ==> rr[name] == was;
        assert last == 0 ==> rules == [];
        assert WithResource(rr, ss[last], resources[0], bucket) == Some(rr[name := now]);
        assert rr[name := now] == map[name := now];
      }
    }
  }

  // ---- the owner's rules ----

  ghost predicate NoneAbout(list: seq<AstOperation>, ops: seq<Operation>, group: bool)
  {
    forall i, k :: 0 <= i < |list| && 0 <= k < |ops| ==> !(list[i].op == ops[k] && list[i].IsGroupGrantee() == group)
  }

  /** Operations that no rule is about yet get a rule each. */
  lemma {:induction false} FreshOps(list: seq<AstOperation>, s: Subject, ops: seq<Operation>)
    requires NoneAbout(list, ops, s.group) && forall i, j :: 0 <= i < j < |ops| ==> ops[i] != ops[j]
    ensures AddedOps(list, s, ops) == list + RulesFor(s, ops)
  {
    if ops != [] {
      var last := |ops| - 1;
      var rest := ops[..last];
      FreshOps(list, s, rest);
      var rules := RulesFor(s, rest);
      var before := list + rules;
      forall j | 0 <= j < |before| ensures !(before[j].op == ops[last] && before[j].IsGroupGrantee() == s.group) {
        assert before[j] == if j < |list| then list[j] else rules[j - |list|];
      }
      AddedFresh(before, s, ops[last]);
      hide Added, RulesFor;
      RulesSnoc(s, rest, ops[last]);
      assert rest + [ops[last]] == ops;
    }
  }

  lemma AddedFresh(list: seq<AstOperation>, s: Subject, op: Operation)
    requires forall j :: 0 <= j < |list| ==> !(list[j].op == op && list[j].IsGroupGrantee() == s.group)
    ensures Added(list, s, op) == list + [AstOperation(if s.group then [] else [s.userID], op, s.action)]
  {
    assert LastMatch(list, op, s.group) == |list|;
  }

  lemma RulesSnoc(s: Subject, ops: seq<Operation>, op: Operation)
    ensures RulesFor(s, ops + [op]) ==
            RulesFor(s, ops) + [AstOperation(if s.group then [] else [s.userID], op, s.action)]
  {
  }

  lemma {:induction false} AddedOpsAppend(list: seq<AstOperation>, s: Subject, a: seq<Operation>, b: seq<Operation>)
    ensures AddedOps(list, s, a + b) == AddedOps(AddedOps(list, s, a), s, b)
  {
    hide Added;
    if b == [] {
      assert a + b == a;
    } else {
      assert (a + b)[..|a + b| - 1] == a + b[..|b| - 1];
      AddedOpsAppend(list, s, a, b[..|b| - 1]);
    }
  }

  /** Full control is about all operations. */
  lemma FullControlOps(list: seq<AstOperation>, s: Subject, info: ResourceInfo)
    ensures AddedActions(list, s, GetActions(FullControl, IsBucket(info))) == AddedOps(list, s, FullOps(info))
  {
    hide AddedOps;
    var actions := GetActions(FullControl, IsBucket(info));
    var read := AddedOps(list, s, READ_OPS);
    NoOps(read, s);
    FirstActions(list, s, actions);
    assert OpsOf(actions[0]) == READ_OPS && OpsOf(actions[1]) == [];
    assert AddedActions(list, s, actions[..1]) == read && AddedActions(list, s, actions[..2]) == read;
    if IsBucket(info) {
      assert AddedActions(list, s, actions[..3]) == read;
      assert AddedActions(list, s, actions[..4]) == AddedOps(read, s, [Put]);
      assert AddedActions(list, s, actions[..5]) == AddedOps(AddedOps(read, s, [Put]), s, [Delete]);
      AddedOpsAppend(list, s, READ_OPS, [Put]);
      AddedOpsAppend(list, s, READ_OPS + [Put], [Delete]);
      assert READ_OPS + [Put] + [Delete] == READ_OPS + WRITE_OPS;
    }
  }

  lemma NoOps(list: seq<AstOperation>, s: Subject)
    ensures AddedOps(list, s, []) == list && AddedActions(list, s, []) == list
  {
  }

  /** The first actions one by one. */
  lemma FirstActions(list: seq<AstOperation>, s: Subject, actions: seq<S3Action>)
    ensures forall k :: 0 <= k < |actions| ==>
              AddedActions(list, s, actions[..k + 1]) ==
              AddedOps(AddedActions(list, s, actions[..k]), s, OpsOf(actions[k]))
    ensures AddedActions(list, s, actions[..0]) == list
    ensures AddedActions(list, s, actions[..|actions|]) == AddedActions(list, s, actions)
  {
    assert actions[..|actions|] == actions;
    forall k | 0 <= k < |actions|
      ensures AddedActions(list, s, actions[..k + 1]) ==
              AddedOps(AddedActions(list, s, actions[..k]), s, OpsOf(actions[k]))
    {
      assert actions[..k + 1][..k] == actions[..k];
    }
  }

  /** The owner's rules are those of the owner's statements. */
  lemma OwnerRulesAgree(acl: AccessControlPolicy, info: ResourceInfo)
    requires acl.ownerID != ALL_USERS_WILDCARD && acl.ownerID != ""
    ensures StatementRules(OwnerStatements(acl, info)) == OwnerRules(acl, info)
  {
    hide AddedActions, AddedOps, GetActions, NoneAbout, RulesFor;
    var owner := Subject(acl.ownerID, false, Allow);
    var everyone := Subject("", true, Deny);
    var deny := GetStatement(info, ALL_USERS_WILDCARD, FullControl, DenyEffect);
    var allow := GetStatement(info, acl.ownerID, FullControl, AllowEffect);
    assert SubjectOf(deny) == everyone && SubjectOf(allow) == owner;
    FullControlOps([], everyone, info);
    FullControlOps([], owner, info);
    FullOpsDiffer(info);
    NothingAbout(FullOps(info));
    FreshOps([], everyone, FullOps(info));
    FreshOps([], owner, FullOps(info));
    assert [] + RulesFor(everyone, FullOps(info)) == RulesFor(everyone, FullOps(info));
    if |acl.list| < 2 {
      var denied := RulesFor(everyone, FullOps(info));
      FullControlOps(denied, owner, info);
      GroupsOnly(FullOps(info));
      FreshOps(denied, owner, FullOps(info));
      assert OwnerStatements(acl, info) == [deny, allow];
      StatementsSnoc([deny], allow);
      StatementsSnoc([], deny);
      assert [] + [deny] == [deny] && [deny] + [allow] == [deny, allow];
    } else {
      assert OwnerStatements(acl, info) == [allow];
      StatementsSnoc([], allow);
      assert [] + [allow] == [allow];
    }
  }

  lemma StatementsSnoc(ss: seq<Statement>, s: Statement)
    ensures StatementRules(ss + [s]) == AddedActions(StatementRules(ss), SubjectOf(s), s.actions)
  {
    assert (ss + [s])[..|ss|] == ss;
  }

  lemma FullOpsDiffer(info: ResourceInfo)
    ensures forall i, j :: 0 <= i < j < |FullOps(info)| ==> FullOps(info)[i] != FullOps(info)[j]
  {
  }

  lemma NothingAbout(ops: seq<Operation>)
    ensures NoneAbout([], ops, true) && NoneAbout([], ops, false)
  {
  }

  lemma GroupsOnly(ops: seq<Operation>)
    ensures NoneAbout(RulesFor(Subject("", true, Deny), ops), ops, false)
  {
  }

  // ---- the rules of the grants ----

  /** A grant without operations. */
  predicate GrantsNothing(permission: Permission, isBucket: bool)
  {
    permission == OtherPermission || (permission == WritePermission && !isBucket)
  }

  /**
   A grant that both routes take alike: everyone's, the owner's, or one of a user whose id is not empty and,
   if it grants anything, is not the wildcard.
   */
  predicate UsableGrant(acl: AccessControlPolicy, g: Grant, isBucket: bool)
  {
    g.granteeType == Group || g.id == acl.ownerID ||
    (g.id != "" && (g.id == ALL_USERS_WILDCARD ==> GrantsNothing(g.permission, isBucket)))
  }

  predicate UsableOwner(acl: AccessControlPolicy)
  {
    acl.ownerID != "" && acl.ownerID != ALL_USERS_WILDCARD
  }

  lemma EveryoneHasNoId(list: seq<AstOperation>, s: Subject, t: Subject, actions: seq<S3Action>)
    requires s.group && t.group && s.action == t.action
    ensures AddedActions(list, s, actions) == AddedActions(list, t, actions)
  {
    if actions != [] {
      EveryoneHasNoId(list, s, t, actions[..|actions| - 1]);
      EveryoneHasNoIdOps(AddedActions(list, s, actions[..|actions| - 1]), s, t, OpsOf(actions[|actions| - 1]));
    }
  }

  lemma {:induction false} EveryoneHasNoIdOps(list: seq<AstOperation>, s: Subject, t: Subject, ops: seq<Operation>)
    requires s.group && t.group && s.action == t.action
    ensures AddedOps(list, s, ops) == AddedOps(list, t, ops)
  {
    if ops != [] { EveryoneHasNoIdOps(list, s, t, ops[..|ops| - 1]); }
  }

  /** A usable grant has the rules of its statement. */
  lemma GrantAgrees(acl: AccessControlPolicy, info: ResourceInfo, g: Grant, list: seq<AstOperation>)
    requires UsableOwner(acl) && UsableGrant(acl, g, IsBucket(info)) && !Skipped(acl, g)
    ensures var s := GrantStatement(info, g); Granted(acl, info, g, list) == AddedActions(list, SubjectOf(s), s.actions)
    ensures SupportedPrincipal(GrantStatement(info, g).principal)
  {
    var s := GrantStatement(info, g);
    if g.granteeType == Group {
      EveryoneHasNoId(list, Subject(g.id, true, Allow), SubjectOf(s), s.actions);
    } else if g.id == ALL_USERS_WILDCARD {
      assert s.actions == [];
    }
  }

  ghost predicate UsableGrants(acl: AccessControlPolicy, info: ResourceInfo, grants: seq<Grant>)
  {
    forall i :: 0 <= i < |grants| ==> UsableGrant(acl, grants[i], IsBucket(info))
  }

  ghost predicate SomeUnsupported(grants: seq<Grant>)
  {
    exists i :: 0 <= i < |grants| && Unsupported(grants[i])
  }

  lemma GrantsSnoc(acl: AccessControlPolicy, info: ResourceInfo, grants: seq<Grant>)
    requires grants != []
    ensures var rest, g := grants[..|grants| - 1], grants[|grants| - 1];
            && (UsableGrants(acl, info, grants) <==>
              UsableGrants(acl, info, rest) && UsableGrant(acl, g, IsBucket(info)))
            && (SomeUnsupported(grants) <==> SomeUnsupported(rest) || Unsupported(g))
  {
    hide UsableGrant, Unsupported;
    var rest := grants[..|grants| - 1];
    assert forall i :: 0 <= i < |rest| ==> rest[i] == grants[i];
  }

  /** Both routes fail on a grant they do not support, and on no other one. */
  lemma {:induction false} BothFail(acl: AccessControlPolicy, info: ResourceInfo, grants: seq<Grant>)
    ensures AllStatements(acl, info, grants).None? <==> SomeUnsupported(grants)
    ensures GrantedAll(acl, info, grants).None? <==> SomeUnsupported(grants)
    ensures AllStatements(acl, info, grants).Some? ==>
              var statements := AllStatements(acl, info, grants).value;
              statements != [] && AboutOne(statements, Name(info))
  {
    hide Unsupported, Granted, OwnerRules, SomeUnsupported, Name, GetActions;
    if grants != [] {
      GrantsSnoc(acl, info, grants);
      BothFail(acl, info, grants[..|grants| - 1]);
    } else {
      assert !SomeUnsupported([]) by { NoneUnsupported(); }
    }
  }

  lemma NoneUnsupported()
    ensures !SomeUnsupported([])
  {
  }

  /** With usable ids the statements have the rules that the grants have directly. */
  lemma {:induction false} GrantsAgree(acl: AccessControlPolicy, info: ResourceInfo, grants: seq<Grant>)
    requires UsableOwner(acl) && UsableGrants(acl, info, grants) && AllStatements(acl, info, grants).Some?
    ensures GrantedAll(acl, info, grants) == Some(StatementRules(AllStatements(acl, info, grants).value))
    ensures AllSupported(AllStatements(acl, info, grants).value)
  {
    hide Unsupported, OwnerRules, OwnerStatements, GetActions, AddedActions, UsableGrant, StatementRules,
      GrantStatement, Granted, Skipped, SupportedPrincipal, UsableGrants;
    if grants == [] {
      OwnerRulesAgree(acl, info);
      OwnerSupported(acl, info);
    } else {
      var rest, g := grants[..|grants| - 1], grants[|grants| - 1];
      GrantsSnoc(acl, info, grants);
      GrantsAgree(acl, info, rest);
      var before := AllStatements(acl, info, rest).value;
      if Skipped(acl, g) {
        SkippedAddsNothing(acl, info, g, StatementRules(before));
      } else {
        GrantAgrees(acl, info, g, StatementRules(before));
        StatementsSnoc(before, GrantStatement(info, g));
      }
    }
  }

  lemma OwnerSupported(acl: AccessControlPolicy, info: ResourceInfo)
    requires UsableOwner(acl)
    ensures AllSupported(OwnerStatements(acl, info))
  {
  }

  lemma SkippedAddsNothing(acl: AccessControlPolicy, info: ResourceInfo, g: Grant, list: seq<AstOperation>)
    requires Skipped(acl, g)
    ensures Granted(acl, info, g, list) == list
  {
  }

  // ---- unusable ids ----

  /** The wildcard as the id of a user. */
  ghost predicate HasStar(list: seq<AstOperation>)
  {
    exists i :: 0 <= i < |list| && ALL_USERS_WILDCARD in list[i].users
  }

  lemma AddedStar(list: seq<AstOperation>, s: Subject, op: Operation)
    ensures HasStar(Added(list, s, op)) <==> HasStar(list) || (!s.group && s.userID == ALL_USERS_WILDCARD)
  {
    var i, after := LastMatch(list, op, s.group), Added(list, s, op);
    if i == |list| {
      assert after[i] == AstOperation(if s.group then [] else [s.userID], op, s.action);
      assert forall j :: 0 <= j < |list| ==> after[j] == list[j];
    } else if !s.group {
      assert after[i].users == list[i].users + [s.userID];
      assert forall j :: 0 <= j < |list| && j != i ==> after[j] == list[j];
      assert forall j :: 0 <= j < |list| && ALL_USERS_WILDCARD in list[j].users ==>
               ALL_USERS_WILDCARD in after[j].users;
    }
  }

  lemma {:induction false} AddedOpsStar(list: seq<AstOperation>, s: Subject, ops: seq<Operation>)
    ensures HasStar(AddedOps(list, s, ops)) <==>
            HasStar(list) || (!s.group && s.userID == ALL_USERS_WILDCARD && ops != [])
  {
    hide HasStar, Added;
    if ops != [] {
      AddedOpsStar(list, s, ops[..|ops| - 1]);
      AddedStar(AddedOps(list, s, ops[..|ops| - 1]), s, ops[|ops| - 1]);
    }
  }

  lemma {:induction false} AddedActionsStar(list: seq<AstOperation>, s: Subject, actions: seq<S3Action>)
    ensures HasStar(AddedActions(list, s, actions)) <==>
            HasStar(list) ||
            (!s.group && s.userID == ALL_USERS_WILDCARD && exists k :: 0 <= k < |actions| && OpsOf(actions[k]) != [])
  {
    hide HasStar, AddedOps;
    if actions != [] {
      var rest := actions[..|actions| - 1];
      AddedActionsStar(list, s, rest);
      AddedOpsStar(AddedActions(list, s, rest), s, OpsOf(actions[|actions| - 1]));
      assert forall k :: 0 <= k < |rest| ==> rest[k] == actions[k];
    }
  }

  lemma GrantsSomething(permission: Permission, isBucket: bool)
    ensures GrantsNothing(permission, isBucket) <==>
            forall k :: 0 <= k < |GetActions(permission, isBucket)| ==> OpsOf(GetActions(permission, isBucket)[k]) == []
  {
    var actions := GetActions(permission, isBucket);
    assert actions != [] ==> OpsOf(actions[0]) != [];
  }

  /** The policy route never has the wildcard as the id of a user. */
  lemma {:induction false} NoStarInStatements(ss: seq<Statement>)
    requires forall i :: 0 <= i < |ss| ==> ss[i].principal.canonicalUser != ALL_USERS_WILDCARD
    ensures !HasStar(StatementRules(ss))
  {
    hide HasStar, AddedActions;
    if ss == [] {
      assert !HasStar([]) by { NoStar(); }
    } else {
      NoStarInStatements(ss[..|ss| - 1]);
      AddedActionsStar(StatementRules(ss[..|ss| - 1]), SubjectOf(ss[|ss| - 1]), ss[|ss| - 1].actions);
    }
  }

  lemma NoStar()
    ensures !HasStar([])
  {
  }

  /** A grant that is skipped or names someone. */
  predicate HasId(acl: AccessControlPolicy, g: Grant)
  {
    Skipped(acl, g) || g.granteeType == Group || g.id != ""
  }

  /** A grant of something to a user whose id is the wildcard. */
  predicate StarGrant(acl: AccessControlPolicy, g: Grant, isBucket: bool)
  {
    !Skipped(acl, g) && g.granteeType != Group && g.id == ALL_USERS_WILDCARD && !GrantsNothing(g.permission, isBucket)
  }

  lemma {:induction false} StatementPrincipals(acl: AccessControlPolicy, info: ResourceInfo, grants: seq<Grant>)
    requires AllStatements(acl, info, grants).Some?
    ensures var ss := AllStatements(acl, info, grants).value;
            && (forall i :: 0 <= i < |ss| ==> ss[i].principal.canonicalUser != ALL_USERS_WILDCARD)
            && (AllSupported(ss) ==> acl.ownerID != "")
            && (AllSupported(ss) ==> forall k :: 0 <= k < |grants| ==> HasId(acl, grants[k]))
  {
    hide GetActions, Name;
    if grants == [] {
      var ss := OwnerStatements(acl, info);
      assert ss[|ss| - 1] == GetStatement(info, acl.ownerID, FullControl, AllowEffect);
    } else {
      var rest, g := grants[..|grants| - 1], grants[|grants| - 1];
      StatementPrincipals(acl, info, rest);
      var before, ss := AllStatements(acl, info, rest).value, AllStatements(acl, info, grants).value;
      assert forall k :: 0 <= k < |rest| ==> rest[k] == grants[k];
      assert forall k :: 0 <= k < |before| ==> before[k] == ss[k];
      assert AllSupported(ss) ==> AllSupported(before);
      assert !Skipped(acl, g) ==> ss[|before|] == GrantStatement(info, g);
    }
  }

  /** The direct route has it exactly if the owner is such a user, or one is granted something. */
  lemma {:induction false} StarInGrants(acl: AccessControlPolicy, info: ResourceInfo, grants: seq<Grant>)
    requires GrantedAll(acl, info, grants).Some?
    ensures HasStar(GrantedAll(acl, info, grants).value) <==>
            acl.ownerID == ALL_USERS_WILDCARD ||
            exists k :: 0 <= k < |grants| && StarGrant(acl, grants[k], IsBucket(info))
  {
    hide HasStar, AddedActions, GetActions, GrantsNothing, OpsOf, OwnerRules;
    if grants == [] {
      OwnerStar(acl, info);
    } else {
      var rest, g := grants[..|grants| - 1], grants[|grants| - 1];
      StarInGrants(acl, info, rest);
      GrantsSomething(g.permission, IsBucket(info));
      AddedActionsStar(GrantedAll(acl, info, rest).value, Subject(g.id, g.granteeType == Group, Allow),
                       GetActions(g.permission, IsBucket(info)));
      assert forall k :: 0 <= k < |rest| ==> rest[k] == grants[k];
    }
  }

  lemma OwnerStar(acl: AccessControlPolicy, info: ResourceInfo)
    ensures HasStar(OwnerRules(acl, info)) <==> acl.ownerID == ALL_USERS_WILDCARD
  {
    var rules := OwnerRules(acl, info);
    assert rules[|rules| - 1].users == [acl.ownerID];
    assert forall i :: 0 <= i < |rules| ==> rules[i].users == [] || rules[i].users == [acl.ownerID];
  }

  // ---- both routes ----

  /** The resource that the direct route gives. */
  ghost function Direct(acl: AccessControlPolicy, info: ResourceInfo): Option<seq<Resource>>
  {
    var rules := GrantedAll(acl, info, acl.list);
    if rules.None? then None else Some([Resource(info, rules.value)])
  }

  /** The resource that the route through a policy gives. */
  ghost function ViaPolicy(acl: AccessControlPolicy, info: ResourceInfo): Option<seq<Resource>>
  {
    var ss := AllStatements(acl, info, acl.list);
    if info.bucket == "" || ss.None? || !AllSupported(ss.value) then None
    else Some([Resource(ResourceInfoFromName(Name(info), info.bucket), StatementRules(ss.value))])
  }

  /**
   A list with an unsupported grantee fails on both routes; any other one gives the same exactly if the bucket
   has a name, the name of the resource reads back, and all ids are usable.
   */
  ghost predicate RoutesMeet(acl: AccessControlPolicy, info: ResourceInfo)
  {
    SomeUnsupported(acl.list) ||
    (info.bucket != "" && ReadableName(info, info.bucket) && UsableOwner(acl) && UsableGrants(acl, info, acl.list))
  }

  lemma RoutesAgree(acl: AccessControlPolicy, info: ResourceInfo)
    ensures Direct(acl, info) == ViaPolicy(acl, info) <==> RoutesMeet(acl, info)
  {
    hide GrantedAll, AllStatements, StatementRules, ReadableName, SomeUnsupported, ResourceInfoFromName, Name, HasStar,
         AllSupported, UsableGrant, StarGrant, HasId;
    BothFail(acl, info, acl.list);
    NameReadsBack(info, info.bucket);
    if !SomeUnsupported(acl.list) {
      if UsableOwner(acl) && UsableGrants(acl, info, acl.list) {
        GrantsAgree(acl, info, acl.list);
      } else {
        UnusableDiffer(acl, info);
      }
    }
  }

  /** With an unusable id the policy route fails, or the direct route has the wildcard as a user. */
  lemma UnusableDiffer(acl: AccessControlPolicy, info: ResourceInfo)
    requires !UsableOwner(acl) || !UsableGrants(acl, info, acl.list)
    requires AllStatements(acl, info, acl.list).Some? && GrantedAll(acl, info, acl.list).Some?
    ensures AllSupported(AllStatements(acl, info, acl.list).value) ==>
              GrantedAll(acl, info, acl.list).value != StatementRules(AllStatements(acl, info, acl.list).value)
  {
    hide GrantedAll, AllStatements, StatementRules, AllSupported, HasStar;
    StatementPrincipals(acl, info, acl.list);
    NoStarInStatements(AllStatements(acl, info, acl.list).value);
    StarInGrants(acl, info, acl.list);
    if UsableOwner(acl) {
      var k :| 0 <= k < |acl.list| && !UsableGrant(acl, acl.list[k], IsBucket(info));
      assert HasId(acl, acl.list[k]) ==> StarGrant(acl, acl.list[k], IsBucket(info));
    }
  }

  /** Takes a list on both routes. */
  method BothRoutes(acl: AccessControlPolicy, info: ResourceInfo)
    returns (direct: Option<seq<Resource>>, viaPolicy: Option<seq<Resource>>)
    ensures direct == Direct(acl, info) && viaPolicy == ViaPolicy(acl, info)
    ensures direct == viaPolicy <==> RoutesMeet(acl, info)
  {
    hide GrantedAll, AllStatements, StatementRules, AllSupported, RoutesMeet, Name, WithStatements,
      ResourceInfoFromName;
    RoutesAgree(acl, info);
    var resource := AclToAst(acl, info);
    direct := if resource.None? then None else Some([resource.value]);
    var policy := AclToPolicy(acl, info);
    if policy.None? {
      return direct, None;
    }
    BothFail(acl, info, acl.list);
    NameHasBucket(info);
    PolicyRules(policy.value.statements, Name(info), info.bucket);
    viaPolicy := PolicyToAst(policy.value);
    if viaPolicy.Some? {
      OneListed(viaPolicy.value, Name(info),
                Resource(ResourceInfoFromName(Name(info), info.bucket), StatementRules(policy.value.statements)));
    }
  }

  lemma NameHasBucket(info: ResourceInfo)
    ensures HasPrefix(Name(info), info.bucket)
  {
  }

  lemma OneListed(rs: seq<Resource>, name: string, r: Resource)
    requires Lists(rs, map[name := r])
    ensures rs == [r]
  {
    var names: seq<string> :| ListsAs(rs, map[name := r], names);
    OneName(rs, map[name := r], names, name);
  }

  lemma OneName(rs: seq<Resource>, rr: map<string, Resource>, names: seq<string>, name: string)
    requires ListsAs(rs, rr, names) && rr.Keys == {name}
    ensures rs == [rr[name]]
  {
    assert name in names;
    assert forall i :: 0 <= i < |names| ==> names[i] in rr.Keys;
    if |names| > 1 {
      TwoNames(names, name);
    }
  }

  lemma TwoNames(names: seq<string>, name: string)
    requires |names| > 1 && forall i :: 0 <= i < |names| ==> names[i] == name
    ensures exists i, j :: 0 <= i < j < |names| && names[i] == names[j]
  {
    assert names[0] == names[1];
  }

  // ---- what is made can be merged ----

  lemma SubjectSingle(list: seq<AstOperation>, s: Subject, op: Operation)
    requires Single(list)
    ensures Single(Added(list, s, op)) && (Known(list) && s.action != Unknown ==> Known(Added(list, s, op)))
  {
    var i := LastMatch(list, op, s.group);
    if i < |list| && !s.group {
      assert Alike(list[i].(users := list[i].users + [s.userID]), list[i]);
    }
  }

  lemma {:induction false} OpsSingle(list: seq<AstOperation>, s: Subject, ops: seq<Operation>)
    requires Single(list)
    ensures Single(AddedOps(list, s, ops)) && (Known(list) && s.action != Unknown ==> Known(AddedOps(list, s, ops)))
  {
    hide Single, Known, Added;
    if ops != [] {
      OpsSingle(list, s, ops[..|ops| - 1]);
      SubjectSingle(AddedOps(list, s, ops[..|ops| - 1]), s, ops[|ops| - 1]);
    }
  }

  lemma {:induction false} ActionsSingle(list: seq<AstOperation>, s: Subject, actions: seq<S3Action>)
    requires Single(list)
    ensures Single(AddedActions(list, s, actions))
    ensures (Known(list) && s.action != Unknown ==> Known(AddedActions(list, s, actions)))
  {
    hide Single, Known, AddedOps;
    if actions != [] {
      ActionsSingle(list, s, actions[..|actions| - 1]);
      OpsSingle(AddedActions(list, s, actions[..|actions| - 1]), s, OpsOf(actions[|actions| - 1]));
    }
  }

  /** The rules of a list have one rule per operation for users and one for everyone. */
  lemma {:induction false} GrantsOneEach(acl: AccessControlPolicy, info: ResourceInfo, grants: seq<Grant>)
    requires GrantedAll(acl, info, grants).Some?
    ensures OneEach(GrantedAll(acl, info, grants).value)
  {
    hide Single, Known, AddedActions, GetActions, OwnerRules;
    if grants == [] {
      assert OneEach(OwnerRules(acl, info)) by { OwnerOneEach(acl, info); }
    } else {
      var rest, g := grants[..|grants| - 1], grants[|grants| - 1];
      GrantsOneEach(acl, info, rest);
      ActionsSingle(GrantedAll(acl, info, rest).value, Subject(g.id, g.granteeType == Group, Allow),
                    GetActions(g.permission, IsBucket(info)));
    }
  }

  lemma OwnerOneEach(acl: AccessControlPolicy, info: ResourceInfo)
    ensures OneEach(OwnerRules(acl, info))
  {
    FullOpsDiffer(info);
    var denied := if |acl.list| < 2 then RulesFor(Subject("", true, Deny), FullOps(info)) else [];
    var owned := RulesFor(Subject(acl.ownerID, false, Allow), FullOps(info));
    var rules := denied + owned;
    hide FullOps;
    forall i, j | 0 <= i < |rules| && 0 <= j < |rules| && i != j ensures !Alike(rules[i], rules[j]) {
      assert rules[i] == if i < |denied| then denied[i] else owned[i - |denied|];
      assert rules[j] == if j < |denied| then denied[j] else owned[j - |denied|];
    }
    forall i | 0 <= i < |rules| ensures rules[i].action != Unknown {
      assert rules[i] == if i < |denied| then denied[i] else owned[i - |denied|];
    }
  }

  ghost predicate NamedSingle(rr: map<string, Resource>, known: bool)
  {
    forall name :: name in rr ==> Single(rr[name].operations) && (known ==> Known(rr[name].operations))
  }

  ghost predicate KnownEffects(ss: seq<Statement>)
  {
    forall i :: 0 <= i < |ss| ==> !ss[i].effect.OtherEffect?
  }

  /** So do the rules of any policy, for every resource; they allow or deny if all effects do. */
  lemma {:induction false} PolicyOneEach(ss: seq<Statement>, bucket: string)
    requires WithStatements(ss, bucket).Some?
    ensures NamedSingle(WithStatements(ss, bucket).value, KnownEffects(ss))
  {
    hide NamedSingle, WithResources, SupportedPrincipal;
    if ss == [] {
      assert NamedSingle(map[], true) by { NoneSingle(); }
    } else {
      var rest, s := ss[..|ss| - 1], ss[|ss| - 1];
      PolicyOneEach(rest, bucket);
      FewerKnown(WithStatements(rest, bucket).value, KnownEffects(rest), KnownEffects(ss));
      StatementSingle(WithStatements(rest, bucket).value, s, s.resources, bucket, KnownEffects(ss));
    }
  }

  lemma NoneSingle()
    ensures NamedSingle(map[], true)
  {
  }

  lemma FewerKnown(rr: map<string, Resource>, a: bool, b: bool)
    requires NamedSingle(rr, a) && (b ==> a)
    ensures NamedSingle(rr, b)
  {
  }

  lemma {:induction false} StatementSingle(rr: map<string, Resource>, s: Statement, resources: seq<string>,
                                           bucket: string, known: bool)
    requires NamedSingle(rr, known) && (known ==> !s.effect.OtherEffect?)
    requires WithResources(rr, s, resources, bucket).Some?
    ensures NamedSingle(WithResources(rr, s, resources, bucket).value, known)
  {
    hide Single, Known, AddedActions, TrimPrefix, ResourceInfoFromName;
    if resources != [] {
      var last := |resources| - 1;
      StatementSingle(rr, s, resources[..last], bucket, known);
      var before := WithResources(rr, s, resources[..last], bucket).value;
      var name := TrimPrefix(resources[last], ARN_AWS_PREFIX);
      assert Single([]) && Known([]) by { EmptySingle(); }
      ActionsSingle(if name in before then before[name].operations else [], SubjectOf(s), s.actions);
    }
  }

  lemma EmptySingle()
    ensures Single([]) && Known([])
  {
  }
}
