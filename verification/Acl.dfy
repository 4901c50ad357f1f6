/** Access rules of a bucket: operations on resources that users, or everyone, may or may not do. */
module Acls {
  datatype Operation = UnknownOp | Get | Head | Put | Delete | Search | Range | RangeHash

  datatype Action = Unknown | Allow | Deny

  /** A rule; without users it is about everyone. */
  datatype AstOperation = AstOperation(users: seq<string>, op: Operation, action: Action)
  {
    predicate IsGroupGrantee() { users == [] }
  }

  datatype ResourceInfo = ResourceInfo(bucket: string, objectName: string, version: string)

  datatype Resource = Resource(info: ResourceInfo, operations: seq<AstOperation>)

  /** Whom a rule can be about. */
  datatype Grantee = Everyone | User(id: string)

  predicate Mentions(o: AstOperation, who: Grantee)
  {
    match who
    case Everyone => o.IsGroupGrantee()
    case User(id) => id in o.users
  }

  ghost predicate Speaks(o: AstOperation, op: Operation, who: Grantee, a: Action)
  {
    o.op == op && o.action == a && Mentions(o, who)
  }

  /** Some rule has action `a` for an operation of a grantee. */
  ghost predicate Says(ops: seq<AstOperation>, op: Operation, who: Grantee, a: Action)
  {
    exists i :: 0 <= i < |ops| && Speaks(ops[i], op, who, a)
  }

  /** Some rule is about an operation of a grantee. */
  ghost predicate Covers(ops: seq<AstOperation>, op: Operation, who: Grantee)
  {
    exists i :: 0 <= i < |ops| && ops[i].op == op && Mentions(ops[i], who)
  }

  /** Rules about the same operation, both for users or both for everyone. */
  predicate Alike(a: AstOperation, b: AstOperation)
  {
    a.IsGroupGrantee() == b.IsGroupGrantee() && a.op == b.op
  }

  /** Rules that one rule could hold together. */
  predicate Same(a: AstOperation, b: AstOperation) { Alike(a, b) && a.action == b.action }

  ghost predicate Distinct(ops: seq<AstOperation>)
  {
    forall i, j :: 0 <= i < |ops| && 0 <= j < |ops| && i != j ==> !Same(ops[i], ops[j])
  }

  ghost predicate Known(ops: seq<AstOperation>)
  {
    forall i :: 0 <= i < |ops| ==> ops[i].action != Unknown
  }

  /** No operation of a grantee is both allowed and denied. */
  ghost predicate Decided(ops: seq<AstOperation>)
  {
    forall op, who, a, b :: Says(ops, op, who, a) && Says(ops, op, who, b) ==> a == b
  }

  /** At most one rule per operation, kind of grantee and action, and no contradictions. */
  ghost predicate Whole(ops: seq<AstOperation>)
  {
    Distinct(ops) && Decided(ops)
  }

  /** Such rules that allow or deny. */
  ghost predicate Tidy(ops: seq<AstOperation>)
  {
    Known(ops) && Whole(ops)
  }

  /** The last rule about an operation, for everyone or for users; the length if there is none. */
  function LastMatch(ops: seq<AstOperation>, op: Operation, group: bool): (i: nat)
    ensures i <= |ops| && (i < |ops| ==> ops[i].op == op && ops[i].IsGroupGrantee() == group)
    ensures i == |ops| ==> forall j :: 0 <= j < |ops| ==> !(ops[j].op == op && ops[j].IsGroupGrantee() == group)
    ensures i < |ops| ==> forall j :: i < j < |ops| ==> !(ops[j].op == op && ops[j].IsGroupGrantee() == group)
  {
    if ops == [] then 0
    else
      var last := |ops| - 1;
      if ops[last].op == op && ops[last].IsGroupGrantee() == group then last
      else
        var i := LastMatch(ops[..last], op, group);
        if i == last then |ops| else i
  }

  /** Looking one rule further. */
  lemma LastMatchStep(ops: seq<AstOperation>, k: nat, op: Operation, group: bool)
    requires k < |ops|
    ensures LastMatch(ops[..k + 1], op, group) ==
            if ops[k].op == op && ops[k].IsGroupGrantee() == group then k
            else if LastMatch(ops[..k], op, group) == k then k + 1
            else LastMatch(ops[..k], op, group)
  {
    assert ops[..k + 1][..k] == ops[..k];
  }

  /** At most one rule per operation for users and one for everyone. */
  ghost predicate Single(ops: seq<AstOperation>)
  {
    forall i, j :: 0 <= i < |ops| && 0 <= j < |ops| && i != j ==> !Alike(ops[i], ops[j])
  }

  /** Such rules that allow or deny. */
  ghost predicate OneEach(ops: seq<AstOperation>)
  {
    Known(ops) && Single(ops)
  }

  /** Rules of which one is for users, or for everyone, about an operation. */
  ghost predicate SomeRule(ops: seq<AstOperation>, op: Operation, group: bool)
  {
    exists i :: 0 <= i < |ops| && ops[i].op == op && ops[i].IsGroupGrantee() == group
  }

  ghost predicate KnownAst(rs: seq<Resource>)
  {
    forall i :: 0 <= i < |rs| ==> Known(rs[i].operations)
  }

  ghost predicate SingleAst(rs: seq<Resource>)
  {
    forall i :: 0 <= i < |rs| ==> Single(rs[i].operations)
  }
}
