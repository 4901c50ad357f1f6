/** Two ways from an access control list to rules: directly, and through a bucket policy. */
module AclPolicies {
  import opened AclNames
  import opened Acls
  import opened Strings
  import opened Wrappers

  datatype Permission = FullControl | WritePermission | ReadPermission | OtherPermission

  datatype GranteeType = CanonicalUser | AmazonCustomerByEmail | Group | OtherType

  datatype Grant = Grant(granteeType: GranteeType, id: string, uri: string, permission: Permission)

  datatype AccessControlPolicy = AccessControlPolicy(ownerID: string, list: seq<Grant>)

  datatype S3Action = DeleteObject | GetObject | PutObject | ListBucket | ListBucketVersions
                    | ListBucketMultipartUploads | GetObjectVersion | OtherAction(name: string)

  datatype Effect = AllowEffect | DenyEffect | OtherEffect(text: string)

  datatype Principal = Principal(aws: string, canonicalUser: string)

  datatype Statement = Statement(effect: Effect, principal: Principal, actions: seq<S3Action>, resources: seq<string>)

  datatype BucketPolicy = BucketPolicy(statements: seq<Statement>, bucket: string)

  const ARN_AWS_PREFIX := "arn:aws:s3:::"
  const ALL_USERS_WILDCARD := "*"
  const ALL_USERS_GROUP := "http://acs.amazonaws.com/groups/global/AllUsers"

  const WRITE_OPS := [Put, Delete]
  const READ_OPS := [Get, Head, Search, Operation.Range, RangeHash]

  function OpsOf(action: S3Action): seq<Operation>
  {
    match action
    case DeleteObject => [Delete]
    case GetObject => READ_OPS
    case PutObject => [Put]
    case ListBucket => READ_OPS
    case _ => []
  }

  function IsBucket(info: ResourceInfo): bool { info.objectName == "" }

  function GetActions(permission: Permission, isBucket: bool): seq<S3Action>
  {
    match permission
    case ReadPermission =>
      if isBucket then [ListBucket, ListBucketVersions, ListBucketMultipartUploads] else [GetObject, GetObjectVersion]
    case WritePermission => if isBucket then [PutObject, DeleteObject] else []
    case FullControl =>
      if isBucket then [ListBucket, ListBucketVersions, ListBucketMultipartUploads, PutObject, DeleteObject]
      else [GetObject, GetObjectVersion]
    case OtherPermission => []
  }

  function EffectToAction(effect: Effect): Action
  {
    match effect
    case AllowEffect => Allow
    case DenyEffect => Deny
    case OtherEffect(_) => Unknown
  }

  // ---- adding one grantee to a list of rules ----

  /** A user or everyone, and the action for them. */
  datatype Subject = Subject(userID: string, group: bool, action: Action)

  function Added(list: seq<AstOperation>, s: Subject, op: Operation): seq<AstOperation>
  {
    var i := LastMatch(list, op, s.group);
    if i == |list| then list + [AstOperation(if s.group then [] else [s.userID], op, s.action)]
    else if s.group then list
    else list[i := list[i].(users := list[i].users + [s.userID])]
  }

  function AddedOps(list: seq<AstOperation>, s: Subject, ops: seq<Operation>): seq<AstOperation>
  {
    if ops == [] then list else Added(AddedOps(list, s, ops[..|ops| - 1]), s, ops[|ops| - 1])
  }

  function AddedActions(list: seq<AstOperation>, s: Subject, actions: seq<S3Action>): seq<AstOperation>
  {
    if actions == [] then list
    else AddedOps(AddedActions(list, s, actions[..|actions| - 1]), s, OpsOf(actions[|actions| - 1]))
  }

  method AddTo(list: seq<AstOperation>, s: Subject, op: Operation) returns (r: seq<AstOperation>)
    ensures r == Added(list, s, op)
  {
    hide LastMatch;
    r := list;
    var found := |r|;
    for k := 0 to |r|
      invariant LastMatch(r[..k], op, s.group) == if found == |r| then k else found
      invariant found == |r| || found < k
    {
      LastMatchStep(r, k, op, s.group);
      if r[k].op == op && r[k].IsGroupGrantee() == s.group {
        found := k;
      }
    }
    assert r[..|r|] == r;
    if found != |r| {
      if !s.group {
        r := r[found := r[found].(users := r[found].users + [s.userID])];
      }
    } else {
      r := r + [AstOperation(if s.group then [] else [s.userID], op, s.action)];
    }
  }

  method AddActions(list: seq<AstOperation>, s: Subject, actions: seq<S3Action>) returns (r: seq<AstOperation>)
    ensures r == AddedActions(list, s, actions)
  {
    hide Added;
    r := list;
    for k := 0 to |actions|
      invariant r == AddedActions(list, s, actions[..k])
    {
      assert actions[..k + 1][..k] == actions[..k];
      var ops, before := OpsOf(actions[k]), r;
      for i := 0 to |ops|
        invariant r == AddedOps(before, s, ops[..i])
      {
        assert ops[..i + 1][..i] == ops[..i];
        r := AddTo(r, s, ops[i]);
      }
      assert ops[..|ops|] == ops;
    }
    assert actions[..|actions|] == actions;
  }

  // ---- a policy as rules ----

  predicate SupportedPrincipal(p: Principal)
  {
    !(p.aws != "" && p.aws != ALL_USERS_WILDCARD) && !(p.aws == "" && p.canonicalUser == "")
  }

  function SubjectOf(s: Statement): Subject
  {
    Subject(s.principal.canonicalUser, s.principal.aws == ALL_USERS_WILDCARD, EffectToAction(s.effect))
  }

  /** Rules by resource name, after a statement named a resource. */
  function WithResource(rr: map<string, Resource>, s: Statement, resource: string,
                        bucket: string): Option<map<string, Resource>>
  {
    var name := TrimPrefix(resource, ARN_AWS_PREFIX);
    if name !in rr && !HasPrefix(name, bucket) then None
    else
      var r := if name in rr then rr[name] else Resource(ResourceInfoFromName(name, bucket), []);
      Some(rr[name := r.(operations := AddedActions(r.operations, SubjectOf(s), s.actions))])
  }

  function WithResources(rr: map<string, Resource>, s: Statement, resources: seq<string>,
                         bucket: string): Option<map<string, Resource>>
  {
    if resources == [] then Some(rr)
    else
      var before := WithResources(rr, s, resources[..|resources| - 1], bucket);
      if before.None? then None else WithResource(before.value, s, resources[|resources| - 1], bucket)
  }

  function WithStatements(statements: seq<Statement>, bucket: string): Option<map<string, Resource>>
  {
    if statements == [] then Some(map[])
    else
      var s := statements[|statements| - 1];
      var before := WithStatements(statements[..|statements| - 1], bucket);
      if before.None? || !SupportedPrincipal(s.principal) then None
      else WithResources(before.value, s, s.resources, bucket)
  }

  /** A list of the values of a map in any order. */
  ghost predicate Lists(rs: seq<Resource>, rr: map<string, Resource>)
  {
    exists names: seq<string> :: ListsAs(rs, rr, names)
  }

  ghost predicate ListsAs(rs: seq<Resource>, rr: map<string, Resource>, names: seq<string>)
  {
    && |names| == |rs| && (forall i :: 0 <= i < |names| ==> names[i] in rr && rs[i] == rr[names[i]])
    && (forall i, j :: 0 <= i < j < |names| ==> names[i] != names[j]) && (forall name :: name in rr ==> name in names)
  }

  method PolicyToAst(policy: BucketPolicy) returns (r: Option<seq<Resource>>)
    ensures r.None? <==> WithStatements(policy.statements, policy.bucket).None?
    ensures r.Some? ==> Lists(r.value, WithStatements(policy.statements, policy.bucket).value)
  {
    hide WithResource;
    var rr: map<string, Resource> := map[];
    var statements := policy.statements;
    WithNoStatement(policy.bucket);
    assert statements[..|statements|] == statements;
    for k := 0 to |statements|
      invariant WithStatements(statements[..k], policy.bucket) == Some(rr)
    {
      assert statements[..k + 1][..k] == statements[..k];
      FailsOn(statements, k, policy.bucket);
      var state := statements[k];
      if (state.principal.aws != "" && state.principal.aws != ALL_USERS_WILDCARD)
         || (state.principal.aws == "" && state.principal.canonicalUser == "") {
        return None;
      }
      var added := AddStatement(rr, state, policy.bucket);
      if added.None? {
        return None;
      }
      rr := added.value;
    }
    var values := Values(rr);
    return Some(values);
  }

  lemma WithNoStatement(bucket: string)
    ensures WithStatements([], bucket) == Some(map[])
  {
  }

  /** A statement that fails makes the policy fail. */
  lemma {:induction false} FailsOn(statements: seq<Statement>, k: nat, bucket: string)
    requires k < |statements|
    ensures WithStatements(statements[..k + 1], bucket).None? ==> WithStatements(statements, bucket).None?
    decreases |statements|
  {
    hide WithResources;
    if k == |statements| - 1 {
      assert statements[..k + 1] == statements;
    } else {
      var rest := statements[..|statements| - 1];
      assert rest[..k + 1] == statements[..k + 1];
      FailsOn(rest, k, bucket);
    }
  }

  method AddResource(rr: map<string, Resource>, state: Statement, name: string, bucket: string)
    returns (r: Option<map<string, Resource>>)
    ensures r == WithResource(rr, state, name, bucket)
  {
    hide ResourceInfoFromName, AddedActions;
    var trimmed := TrimPrefix(name, ARN_AWS_PREFIX);
    var resource := Resource(ResourceInfoFromName(trimmed, bucket), []);
    if trimmed in rr {
      resource := rr[trimmed];
    } else if !HasPrefix(trimmed, bucket) {
      return None;
    }
    var ops := AddActions(resource.operations, SubjectOf(state), state.actions);
    return Some(rr[trimmed := resource.(operations := ops)]);
  }

  method AddStatement(rr: map<string, Resource>, state: Statement, bucket: string)
    returns (r: Option<map<string, Resource>>)
    ensures r == WithResources(rr, state, state.resources, bucket)
  {
    hide WithResource;
    var now := rr;
    var resources := state.resources;
    assert resources[..|resources|] == resources;
    for k := 0 to |resources|
      invariant WithResources(rr, state, resources[..k], bucket) == Some(now)
    {
      assert resources[..k + 1][..k] == resources[..k];
      FailsOnResource(rr, state, resources, k, bucket);
      var added := AddResource(now, state, resources[k], bucket);
      if added.None? {
        return None;
      }
      now := added.value;
    }
    return Some(now);
  }

  lemma {:induction false} FailsOnResource(rr: map<string, Resource>, s: Statement, resources: seq<string>, k: nat,
                                           bucket: string)
    requires k < |resources|
    ensures WithResources(rr, s, resources[..k + 1], bucket).None? ==> WithResources(rr, s, resources, bucket).None?
    decreases |resources|
  {
    hide WithResource;
    if k == |resources| - 1 {
      assert resources[..k + 1] == resources;
    } else {
      var rest := resources[..|resources| - 1];
      assert rest[..k + 1] == resources[..k + 1];
      FailsOnResource(rr, s, rest, k, bucket);
    }
  }

  method Values(rr: map<string, Resource>) returns (rs: seq<Resource>)
    ensures Lists(rs, rr)
  {
    rs := [];
    ghost var names: seq<string> := [];
    var left := rr.Keys;
    while left != {}
      invariant left <= rr.Keys && |names| == |rs|
      invariant forall i :: 0 <= i < |names| ==> names[i] in rr && names[i] !in left && rs[i] == rr[names[i]]
      invariant forall i, j :: 0 <= i < j < |names| ==> names[i] != names[j]
      invariant forall name :: name in rr ==> name in left || name in names
      decreases left
    {
      var name :| name in left;
      rs := rs + [rr[name]];
      names := names + [name];
      left := left - {name};
    }
    assert ListsAs(rs, rr, names);
  }
}
