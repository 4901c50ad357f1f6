/** The rules of a bucket and their merge in place. */
module AclAsts {
  import opened AclMerges
  import opened Acls

  class AstResource {
    const info: ResourceInfo
    var operations: seq<AstOperation>

    constructor (info: ResourceInfo, operations: seq<AstOperation>)
      ensures this.info == info && this.operations == operations
    {
      this.info, this.operations := info, operations;
    }

    /** The positions of the rules about the same operation and kind of grantee. */
    method GetAstOps(childOp: AstOperation) returns (res: seq<nat>)
      ensures res == Matches(operations, childOp)
    {
      res := [];
      for k := 0 to |operations|
        invariant res == Matches(operations[..k], childOp)
      {
        assert operations[..k + 1][..k] == operations[..k];
        if Alike(operations[k], childOp) {
          res := res + [k];
        }
      }
      assert operations[..|operations|] == operations;
    }

    /** Gives more users to the first rule that is like the rule `existed`. */
    method AddUsers(existed: nat, users: seq<string>)
      requires existed < |operations|
      modifies this
      ensures operations == AfterAdd(old(operations), old(operations)[existed], users)
    {
      var o := operations[existed];
      for k := 0 to |operations|
        invariant operations == old(operations) && forall j :: 0 <= j < k ==> !Same(operations[j], o)
      {
        if Same(operations[k], o) {
          operations := operations[k := operations[k].(users := o.users + users)];
          return;
        }
      }
    }

    /** Takes users from the first rule that is like the rule `existed`, and the rule away with its last user. */
    method RemoveUsers(existed: nat, users: seq<string>)
      requires existed < |operations| && !operations[existed].IsGroupGrantee()
      modifies this
      ensures operations == AfterRemove(old(operations), old(operations)[existed], users)
    {
      var o := operations[existed];
      for k := 0 to |operations|
        invariant operations == old(operations) && forall j :: 0 <= j < k ==> !Same(operations[j], o)
      {
        if !operations[k].IsGroupGrantee() && operations[k].op == o.op && operations[k].action == o.action {
          var filtered := Select(operations[k].users, users, false);
          if filtered == [] {
            operations := operations[..k] + operations[k + 1..];
          } else {
            operations := operations[k := operations[k].(users := filtered)];
          }
          return;
        }
      }
    }

    static method Select(users: seq<string>, others: seq<string>, have: bool) returns (r: seq<string>)
      ensures r == Filter(users, others, have)
    {
      r := [];
      for k := 0 to |users|
        invariant r == Filter(users[..k], others, have)
      {
        assert users[..k + 1][..k] == users[..k];
        if (users[k] in others) == have {
          r := r + [users[k]];
        }
      }
      assert users[..|users|] == users;
    }

    method HandleAddOperations(astOp: AstOperation, existed: nat) returns (changed: bool)
      requires existed < |operations|
      modifies this
      ensures operations == HandledAdd(old(operations), astOp, existed)
      ensures changed <==> Filter(astOp.users, old(operations)[existed].users, false) != []
    {
      var needToAdd := Select(astOp.users, operations[existed].users, false);
      if needToAdd != [] {
        AddUsers(existed, needToAdd);
        return true;
      }
      return false;
    }

    method HandleRemoveOperations(astOp: AstOperation, existed: nat) returns (changed: bool)
      requires existed < |operations|
      modifies this
      ensures operations == HandledRemove(old(operations), astOp, existed)
      ensures changed <==> Filter(astOp.users, old(operations)[existed].users, true) != []
    {
      var needToRemove := Select(astOp.users, operations[existed].users, true);
      if needToRemove != [] {
        assert needToRemove[0] in needToRemove;
        RemoveUsers(existed, needToRemove);
        return true;
      }
      return false;
    }

    /** Removes the first rule for everyone with an operation and an action. */
    method RemoveGroupOp(op: Operation, action: Action)
      modifies this
      ensures var k := FirstSame(old(operations), AstOperation([], op, action));
              operations == if k == |old(operations)| then old(operations) else Without(old(operations), k)
    {
      for k := 0 to |operations|
        invariant operations == old(operations)
        invariant forall j :: 0 <= j < k ==> !Same(operations[j], AstOperation([], op, action))
      {
        if operations[k].IsGroupGrantee() && operations[k].op == op && operations[k].action == action {
          operations := operations[..k] + operations[k + 1..];
          return;
        }
      }
    }

    /** Merges one rule of a request; a rule about an operation that has none yet is left to the caller. */
    method MergeOperation(astOp: AstOperation) returns (isNew: bool, updated: bool)
      modifies this
      ensures Step(operations, isNew, updated) == MergeOp(old(operations), astOp)
    {
      hide Filter, AfterAdd, AfterRemove, Matches;
      isNew, updated := false, false;
      var ops := GetAstOps(astOp);
      if |ops| == 2 {
        if astOp.IsGroupGrantee() {
          var action := if astOp.action == Allow then Deny else Allow;
          RemoveGroupOp(astOp.op, action);
          return false, true;
        }
        var opToAdd, opToDelete := ops[0], ops[1];
        if operations[ops[1]].action == astOp.action {
          opToAdd, opToDelete := ops[1], ops[0];
        }
        var added := HandleAddOperations(astOp, opToAdd);
        AddedKeepsCount(old(operations), astOp, opToAdd);
        var removed := HandleRemoveOperations(astOp, opToDelete);
        return false, added || removed;
      } else if |ops| == 1 {
        if astOp.action != operations[ops[0]].action {
          if astOp.IsGroupGrantee() {
            operations := operations[ops[0] := operations[ops[0]].(action := astOp.action)];
            return false, true;
          }
          updated := HandleRemoveOperations(astOp, ops[0]);
          operations := operations + [astOp];
          return;
        }
        updated := HandleAddOperations(astOp, ops[0]);
      } else if |ops| == 0 {
        return true, true;
      }
    }

    /** Merges the rules of a request into those of this resource. */
    method MergeOperations(child: seq<AstOperation>) returns (updated: bool)
      modifies this
      ensures operations == MergedOps(old(operations), child)
      ensures updated <==> MergeOps(old(operations), child).updated
    {
      hide MergeOp;
      updated := false;
      var newOps := [];
      for k := 0 to |child|
        invariant Merge(operations, newOps, updated) == MergeOps(old(operations), child[..k])
      {
        assert child[..k + 1][..k] == child[..k];
        var isNew, changed := MergeOperation(child[k]);
        if isNew {
          newOps := newOps + [child[k]];
        }
        updated := updated || changed;
      }
      assert child[..|child|] == child;
      if newOps != [] {
        operations := newOps + operations;
      } else {
        assert [] + operations == operations;
      }
    }
  }

  lemma AddedKeepsCount(ops: seq<AstOperation>, c: AstOperation, i: nat)
    requires i < |ops|
    ensures |HandledAdd(ops, c, i)| == |ops|
  {
  }

  class Ast {
    var resources: seq<AstResource>

    ghost predicate Valid()
      reads this
    {
      forall i, j :: 0 <= i < j < |resources| ==> resources[i] != resources[j]
    }

    constructor (resources: seq<AstResource>)
      ensures this.resources == resources
    {
      this.resources := resources;
    }

    ghost function Value(): seq<Resource>
      reads this, resources
    {
      ValueOf(resources)
    }

    method GetParentResource(info: ResourceInfo) returns (i: nat)
      ensures i == Find(Value(), info)
    {
      for k := 0 to |resources|
        invariant forall j :: 0 <= j < k ==> resources[j].info != info
      {
        if resources[k].info == info {
          FindIs(resources, info, k);
          return k;
        }
      }
      FindIs(resources, info, |resources|);
      return |resources|;
    }

    /** Merges one resource of a request; one that the bucket does not have is taken over. */
    method MergeResource(resource: AstResource) returns (updated: bool)
      requires Valid() && resource !in resources
      modifies this, set r | r in resources
      ensures Valid() && (resources == old(resources) || resources == old(resources) + [resource])
      ensures Value() == WithResource(old(Value()), Resource(resource.info, old(resource.operations)))
      ensures updated <==> ReportsResource(old(Value()), Resource(resource.info, old(resource.operations)))
      ensures resource.operations == old(resource.operations)
    {
      hide MergedOps, MergeOps, Find;
      ghost var was, r := Value(), Resource(resource.info, resource.operations);
      var i := GetParentResource(resource.info);
      if i == |resources| {
        resources := resources + [resource];
        assert Value() == was + [r];
        return true;
      }
      assert resources[i] in resources;
      updated := resources[i].MergeOperations(resource.operations);
      assert Value() == was[i := Resource(resource.info, MergedOps(was[i].operations, r.operations))];
    }

    /** Merges a request into the rules of a bucket. */
    method Merge(child: Ast) returns (updated: bool)
      requires Valid() && child.Valid() && this != child
      requires forall r :: r in resources ==> r !in child.resources
      modifies this, set r | r in resources + child.resources
      ensures Valid() && Value() == MergedAst(old(Value()), old(child.Value()))
      ensures updated <==> Updated(old(Value()), old(child.Value()))
    {
      hide WithResource, ReportsResource;
      updated := false;
      ghost var request, bucket := child.Value(), Value();
      for k := 0 to |child.resources|
        invariant child.resources == old(child.resources) && Valid()
        invariant forall r :: r in resources ==> r in old(resources) || r in child.resources
        invariant forall j :: k <= j < |child.resources| ==> child.resources[j] !in resources
        invariant forall j :: k <= j < |child.resources| ==> child.resources[j].operations == request[j].operations
        invariant Value() == MergedAst(bucket, request[..k])
        invariant updated <==> Updated(bucket, request[..k])
      {
        var resource := child.resources[k];
        assert request[..k + 1][..k] == request[..k];
        assert request[k] == Resource(resource.info, resource.operations);
        var changed := MergeResource(resource);
        updated := updated || changed;
      }
      assert request[..|request|] == request;
    }
  }

  ghost function ValueOf(resources: seq<AstResource>): seq<Resource>
    reads resources
  {
    seq(|resources|,
        i requires 0 <= i < |resources| reads resources => Resource(resources[i].info, resources[i].operations))
  }

  lemma FindIs(resources: seq<AstResource>, info: ResourceInfo, k: nat)
    requires k <= |resources| && forall j :: 0 <= j < k ==> resources[j].info != info
    ensures k < |resources| && resources[k].info == info ==> Find(ValueOf(resources), info) == k
    ensures k == |resources| ==> Find(ValueOf(resources), info) == k
  {
    var rs := ValueOf(resources);
    assert forall j :: 0 <= j < |rs| ==> rs[j].info == resources[j].info;
    var i := Find(rs, info);
    assert i < |rs| ==> resources[i].info == info;
  }
}
