/** Which of the rules of a resource has the say for a user, and what a merge makes of it. */
module AclOrders {
  import opened AclMerges
  import opened Acls
  import opened Wrappers

  // ---- the rule that has the say ----

  /** A rule about an operation that is for everyone or names a user. */
  predicate IsFor(o: AstOperation, op: Operation, u: string)
  {
    o.op == op && (o.IsGroupGrantee() || u in o.users)
  }

  /** The last rule about an operation that is for everyone or names a user; the length if there is none. */
  function LastFor(ops: seq<AstOperation>, op: Operation, u: string): (i: nat)
    ensures i <= |ops| && (i < |ops| ==> IsFor(ops[i], op, u))
    ensures forall j :: i < j < |ops| ==> !IsFor(ops[j], op, u)
    ensures i == |ops| ==> forall j :: 0 <= j < |ops| ==> !IsFor(ops[j], op, u)
  {
    if ops == [] then 0
    else
      var last := |ops| - 1;
      if IsFor(ops[last], op, u) then last
      else
        var i := LastFor(ops[..last], op, u);
        if i == last then |ops| else i
  }

  /** Its action. */
  function Effective(ops: seq<AstOperation>, op: Operation, u: string): Option<Action>
  {
    var i := LastFor(ops, op, u);
    if i == |ops| then None else Some(ops[i].action)
  }

  /** A rule for users with an action. */
  ghost predicate SomeUserRule(ops: seq<AstOperation>, op: Operation, a: Action)
  {
    exists i :: 0 <= i < |ops| && ops[i].op == op && !ops[i].IsGroupGrantee() && ops[i].action == a
  }

  /** A rule for users with an action is behind one for everyone. */
  ghost predicate Later(ops: seq<AstOperation>, op: Operation, a: Action)
  {
    exists i, j :: 0 <= i < j < |ops| && LaterAt(ops, i, j, op, a)
  }

  predicate LaterAt(ops: seq<AstOperation>, i: nat, j: nat, op: Operation, a: Action)
    requires i < |ops| && j < |ops|
  {
    ops[i].op == op && ops[i].IsGroupGrantee() && ops[j].op == op && !ops[j].IsGroupGrantee() && ops[j].action == a
  }

  /** The rule that says `a` of a user, or of everyone, has the say for that user. */
  ghost predicate Outranks(ops: seq<AstOperation>, op: Operation, u: string, a: Action)
  {
    || (Says(ops, op, User(u), a) && ((forall g :: !Says(ops, op, Everyone, g)) || Later(ops, op, a)))
    || (Says(ops, op, Everyone, a) && forall b :: Says(ops, op, User(u), b) ==> !Later(ops, op, b))
  }

  /**
   Among rules without contradictions, the user's own rule has the say or the one for everyone, whichever is
   later.
   */
  lemma EffectiveIs(ops: seq<AstOperation>, op: Operation, u: string, a: Action)
    requires AllClear(ops)
    ensures Effective(ops, op, u) == Some(a) <==> Outranks(ops, op, u, a)
  {
    var i := LastFor(ops, op, u);
    if i == |ops| {
      NoneSays(ops, op, u);
    } else {
      FoundSays(ops, op, u);
      if ops[i].IsGroupGrantee() {
        GroupHasSay(ops, op, u);
      } else {
        UserHasSay(ops, op, u);
      }
    }
  }

  lemma NoneSays(ops: seq<AstOperation>, op: Operation, u: string)
    requires forall j :: 0 <= j < |ops| ==> !IsFor(ops[j], op, u)
    ensures forall a :: !Says(ops, op, User(u), a) && !Says(ops, op, Everyone, a)
  {
  }

  lemma FoundSays(ops: seq<AstOperation>, op: Operation, u: string)
    requires LastFor(ops, op, u) < |ops|
    ensures var o := ops[LastFor(ops, op, u)];
            Says(ops, op, if o.IsGroupGrantee() then Everyone else User(u), o.action)
  {
    var o := ops[LastFor(ops, op, u)];
    assert Speaks(o, op, if o.IsGroupGrantee() then Everyone else User(u), o.action);
  }

  lemma OneGroup(ops: seq<AstOperation>, i: nat, j: nat)
    requires AllClear(ops) && i < |ops| && j < |ops| && ops[i].op == ops[j].op
    requires ops[i].IsGroupGrantee() && ops[j].IsGroupGrantee()
    ensures i == j
  {
    assert i < j ==> Alike(ops[i], ops[j]);
    assert j < i ==> Alike(ops[j], ops[i]);
  }

  lemma OneUser(ops: seq<AstOperation>, i: nat, j: nat, u: string)
    requires AllClear(ops) && i < |ops| && j < |ops| && ops[i].op == ops[j].op
    requires !ops[i].IsGroupGrantee() && !ops[j].IsGroupGrantee()
    requires ops[i].action == ops[j].action || (u in ops[i].users && u in ops[j].users)
    ensures i == j
  {
    assert i < j ==> Alike(ops[i], ops[j]);
    assert j < i ==> Alike(ops[j], ops[i]);
  }

  lemma GroupHasSay(ops: seq<AstOperation>, op: Operation, u: string)
    requires AllClear(ops) && LastFor(ops, op, u) < |ops| && ops[LastFor(ops, op, u)].IsGroupGrantee()
    ensures var i := LastFor(ops, op, u);
            forall a :: Outranks(ops, op, u, a) <==> a == ops[i].action
  {
    var i := LastFor(ops, op, u);
    FoundSays(ops, op, u);
    forall b | Says(ops, op, User(u), b) ensures !Later(ops, op, b) {
      var k :| 0 <= k < |ops| && Speaks(ops[k], op, User(u), b);
      assert IsFor(ops[k], op, u) && k < i;
      forall x, y | 0 <= x < y < |ops| ensures !LaterAt(ops, x, y, op, b) {
        if LaterAt(ops, x, y, op, b) {
          OneGroup(ops, x, i);
          OneUser(ops, y, k, u);
        }
      }
    }
    forall a | Says(ops, op, Everyone, a) ensures a == ops[i].action {
      var k :| 0 <= k < |ops| && Speaks(ops[k], op, Everyone, a);
      OneGroup(ops, k, i);
    }
  }

  lemma UserHasSay(ops: seq<AstOperation>, op: Operation, u: string)
    requires AllClear(ops) && LastFor(ops, op, u) < |ops| && !ops[LastFor(ops, op, u)].IsGroupGrantee()
    ensures var i := LastFor(ops, op, u);
            forall a :: Outranks(ops, op, u, a) <==> a == ops[i].action
  {
    var i := LastFor(ops, op, u);
    FoundSays(ops, op, u);
    forall a | Says(ops, op, User(u), a) ensures a == ops[i].action {
      var k :| 0 <= k < |ops| && Speaks(ops[k], op, User(u), a);
      OneUser(ops, k, i, u);
    }
    if g :| Says(ops, op, Everyone, g) {
      var k :| 0 <= k < |ops| && Speaks(ops[k], op, Everyone, g);
      assert IsFor(ops[k], op, u) && k < i;
      assert LaterAt(ops, k, i, op, ops[i].action);
    }
  }

  // ---- what a step keeps of the order ----

  lemma JoinOrder(x: seq<AstOperation>, y: seq<AstOperation>, op: Operation, a: Action)
    ensures Later(x + y, op, a) <==>
            Later(x, op, a) || Later(y, op, a) || (SomeRule(x, op, true) && SomeUserRule(y, op, a))
    ensures SomeUserRule(x + y, op, a) <==> SomeUserRule(x, op, a) || SomeUserRule(y, op, a)
    ensures forall group :: SomeRule(x + y, op, group) <==> SomeRule(x, op, group) || SomeRule(y, op, group)
  {
    JoinLater(x, y, op, a);
    JoinRules(x, y, op, a);
  }

  lemma JoinRules(x: seq<AstOperation>, y: seq<AstOperation>, op: Operation, a: Action)
    ensures SomeUserRule(x + y, op, a) <==> SomeUserRule(x, op, a) || SomeUserRule(y, op, a)
    ensures forall group :: SomeRule(x + y, op, group) <==> SomeRule(x, op, group) || SomeRule(y, op, group)
  {
    hide SomeRule, SomeUserRule;
    SomeUserIn(x, op, a);
    SomeUserIn(y, op, a);
    SomeUserIn(x + y, op, a);
    forall group ensures SomeRule(x + y, op, group) <==> SomeRule(x, op, group) || SomeRule(y, op, group) {
      SomeIn(x, op, group);
      SomeIn(y, op, group);
      SomeIn(x + y, op, group);
    }
  }

  lemma SomeIn(ops: seq<AstOperation>, op: Operation, group: bool)
    ensures SomeRule(ops, op, group) <==> exists o :: o in ops && o.op == op && o.IsGroupGrantee() == group
  {
  }

  lemma SomeUserIn(ops: seq<AstOperation>, op: Operation, a: Action)
    ensures SomeUserRule(ops, op, a) <==> exists o :: o in ops && o.op == op && !o.IsGroupGrantee() && o.action == a
  {
  }

  lemma JoinLater(x: seq<AstOperation>, y: seq<AstOperation>, op: Operation, a: Action)
    ensures Later(x + y, op, a) <==>
            Later(x, op, a) || Later(y, op, a) || (SomeRule(x, op, true) && SomeUserRule(y, op, a))
  {
    hide Later, SomeRule, SomeUserRule;
    if Later(x + y, op, a) { LaterApart(x, y, op, a); }
    if Later(x, op, a) { LaterLeft(x, y, op, a); }
    if Later(y, op, a) { LaterRight(x, y, op, a); }
    if SomeRule(x, op, true) && SomeUserRule(y, op, a) { LaterAcross(x, y, op, a); }
  }

  lemma LaterApart(x: seq<AstOperation>, y: seq<AstOperation>, op: Operation, a: Action)
    requires Later(x + y, op, a)
    ensures Later(x, op, a) || Later(y, op, a) || (SomeRule(x, op, true) && SomeUserRule(y, op, a))
  {
    var all := x + y;
    var i: nat, j: nat :| i < j < |all| && LaterAt(all, i, j, op, a);
    if j < |x| {
      assert LaterAt(x, i, j, op, a);
    } else if i >= |x| {
      assert LaterAt(y, i - |x|, j - |x|, op, a);
    } else {
      assert x[i].op == op && x[i].IsGroupGrantee() == true;
      assert all[j] == y[j - |x|];
    }
  }

  lemma LaterLeft(x: seq<AstOperation>, y: seq<AstOperation>, op: Operation, a: Action)
    requires Later(x, op, a)
    ensures Later(x + y, op, a)
  {
    var i: nat, j: nat :| i < j < |x| && LaterAt(x, i, j, op, a);
    assert LaterAt(x + y, i, j, op, a);
  }

  lemma LaterRight(x: seq<AstOperation>, y: seq<AstOperation>, op: Operation, a: Action)
    requires Later(y, op, a)
    ensures Later(x + y, op, a)
  {
    var i: nat, j: nat :| i < j < |y| && LaterAt(y, i, j, op, a);
    assert LaterAt(x + y, |x| + i, |x| + j, op, a);
  }

  lemma LaterAcross(x: seq<AstOperation>, y: seq<AstOperation>, op: Operation, a: Action)
    requires SomeRule(x, op, true) && SomeUserRule(y, op, a)
    ensures Later(x + y, op, a)
  {
    var i: nat :| i < |x| && x[i].op == op && x[i].IsGroupGrantee() == true;
    var j: nat :| j < |y| && y[j].op == op && !y[j].IsGroupGrantee() && y[j].action == a;
    assert LaterAt(x + y, i, |x| + j, op, a);
  }

  lemma OneOrder(c: AstOperation, op: Operation, a: Action)
    ensures !Later([c], op, a)
    ensures SomeUserRule([c], op, a) <==> c.op == op && !c.IsGroupGrantee() && c.action == a
    ensures forall group :: SomeRule([c], op, group) <==> c.op == op && c.IsGroupGrantee() == group
  {
    assert [c][0] == c;
  }

  /** Rules stay in their order, and none are added. */
  ghost predicate Keeps(before: seq<AstOperation>, after: seq<AstOperation>)
  {
    && (forall op :: SomeRule(after, op, true) <==> SomeRule(before, op, true))
    && (forall op :: SomeRule(after, op, false) ==> SomeRule(before, op, false))
    && (forall op, a :: SomeUserRule(after, op, a) ==>
          SomeUserRule(before, op, a) && (Later(after, op, a) <==> Later(before, op, a)))
  }

  /** Rules stay in their order, and a rule for users that was not there is behind all others. */
  ghost predicate Moves(before: seq<AstOperation>, c: AstOperation, after: seq<AstOperation>)
  {
    && (forall op :: SomeRule(after, op, true) <==> SomeRule(before, op, true))
    && (forall op :: SomeRule(after, op, false) ==> SomeRule(before, op, false))
    && (forall op, a :: SomeUserRule(after, op, a) ==> MovesRule(before, c, after, op, a))
  }

  ghost predicate MovesRule(before: seq<AstOperation>, c: AstOperation, after: seq<AstOperation>, op: Operation,
                            a: Action)
  {
    if SomeUserRule(before, op, a) then Later(after, op, a) <==> Later(before, op, a)
    else
      && op == c.op && a == c.action && !c.IsGroupGrantee()
      && (Later(after, op, a) <==> SomeRule(before, op, true))
  }

  lemma StaysMoves(ops: seq<AstOperation>, c: AstOperation)
    ensures Moves(ops, c, ops)
  {
  }

  /** A rule is replaced by one of the same kind, operation and, for users, action. */
  lemma SetMoves(ops: seq<AstOperation>, i: nat, o: AstOperation, c: AstOperation)
    requires i < |ops| && Alike(o, ops[i]) && (o.IsGroupGrantee() || o.action == ops[i].action)
    ensures Keeps(ops, ops[i := o])
  {
    hide Later, SomeUserRule, SomeRule;
    var after := ops[i := o];
    assert after[i := ops[i]] == ops;
    forall op, group ensures SomeRule(after, op, group) <==> SomeRule(ops, op, group) {
      SetRules(ops, i, o, op, group, Allow);
      SetRules(after, i, ops[i], op, group, Allow);
    }
    forall op, a
      ensures SomeUserRule(after, op, a) <==> SomeUserRule(ops, op, a)
      ensures Later(after, op, a) <==> Later(ops, op, a)
    {
      SetRules(ops, i, o, op, true, a);
      SetRules(after, i, ops[i], op, true, a);
      SetLater(ops, i, o, op, a);
      SetLater(after, i, ops[i], op, a);
    }
  }

  lemma SetRules(ops: seq<AstOperation>, i: nat, o: AstOperation, op: Operation, group: bool, a: Action)
    requires i < |ops| && Alike(o, ops[i]) && (o.IsGroupGrantee() || o.action == ops[i].action)
    ensures SomeRule(ops, op, group) ==> SomeRule(ops[i := o], op, group)
    ensures SomeUserRule(ops, op, a) ==> SomeUserRule(ops[i := o], op, a)
  {
    hide SomeRule, SomeUserRule;
    var x, y := ops[..i], ops[i + 1..];
    assert ops == x + [ops[i]] + y && ops[i := o] == x + [o] + y;
    JoinRules(x + [ops[i]], y, op, a);
    JoinRules(x, [ops[i]], op, a);
    JoinRules(x + [o], y, op, a);
    JoinRules(x, [o], op, a);
    OneOrder(o, op, a);
    OneOrder(ops[i], op, a);
  }

  lemma SetLater(ops: seq<AstOperation>, i: nat, o: AstOperation, op: Operation, a: Action)
    requires i < |ops| && Alike(o, ops[i]) && (o.IsGroupGrantee() || o.action == ops[i].action)
    ensures Later(ops, op, a) ==> Later(ops[i := o], op, a)
  {
    var after := ops[i := o];
    if Later(ops, op, a) {
      var x, y :| 0 <= x < y < |ops| && LaterAt(ops, x, y, op, a);
      assert LaterAt(after, x, y, op, a);
    }
  }

  /** A rule for users is taken away. */
  lemma CutMoves(ops: seq<AstOperation>, i: nat, c: AstOperation)
    requires i < |ops| && Distinct(ops) && !ops[i].IsGroupGrantee()
    ensures Keeps(ops, Without(ops, i))
  {
    hide Later, SomeUserRule, SomeRule, Without, Distinct;
    var after := Without(ops, i);
    forall op
      ensures SomeRule(after, op, true) <==> SomeRule(ops, op, true)
      ensures SomeRule(after, op, false) ==> SomeRule(ops, op, false)
    {
      CutOrder(ops, i, op, Allow);
    }
    forall op, a
      ensures SomeUserRule(after, op, a) ==> SomeUserRule(ops, op, a) && (Later(after, op, a) <==> Later(ops, op, a))
    {
      CutOrder(ops, i, op, a);
    }
  }

  lemma CutOrder(ops: seq<AstOperation>, i: nat, op: Operation, a: Action)
    requires i < |ops| && Distinct(ops) && !ops[i].IsGroupGrantee()
    ensures var after := Without(ops, i);
            && (SomeRule(after, op, true) <==> SomeRule(ops, op, true))
            && (SomeRule(after, op, false) ==> SomeRule(ops, op, false))
            && (SomeUserRule(after, op, a) ==> SomeUserRule(ops, op, a) && (Later(after, op, a) <==> Later(ops, op, a)))
  {
    hide Later, SomeUserRule, SomeRule, Distinct;
    var x, y := ops[..i], ops[i + 1..];
    assert ops == x + [ops[i]] + y && Without(ops, i) == x + y;
    JoinOrder(x, y, op, a);
    JoinOrder(x + [ops[i]], y, op, a);
    JoinOrder(x, [ops[i]], op, a);
    OneOrder(ops[i], op, a);
    if SomeUserRule(x + y, op, a) { NotCut(ops, i, op, a); }
  }

  lemma NotCut(ops: seq<AstOperation>, i: nat, op: Operation, a: Action)
    requires i < |ops| && Distinct(ops) && !ops[i].IsGroupGrantee() && SomeUserRule(Without(ops, i), op, a)
    ensures !(ops[i].op == op && ops[i].action == a)
  {
    var after := Without(ops, i);
    var k :| 0 <= k < |after| && after[k].op == op && !after[k].IsGroupGrantee() && after[k].action == a;
    var j := if k < i then k else k + 1;
    assert after[k] == ops[j];
  }

  lemma KeepsOn(a: seq<AstOperation>, b: seq<AstOperation>, d: seq<AstOperation>)
    requires Keeps(a, b) && Keeps(b, d)
    ensures Keeps(a, d)
  {
    hide Later, SomeUserRule, SomeRule;
  }

  lemma KeepsMoves(ops: seq<AstOperation>, c: AstOperation, after: seq<AstOperation>)
    requires Keeps(ops, after)
    ensures Moves(ops, c, after)
  {
    hide Later, SomeUserRule, SomeRule;
  }

  /** A rule goes behind all others. */
  lemma AppendMoves(ops: seq<AstOperation>, c: AstOperation, left: seq<AstOperation>)
    requires Keeps(ops, left) && !c.IsGroupGrantee() && SomeRule(ops, c.op, false) && !SomeUserRule(ops, c.op, c.action)
    ensures Moves(ops, c, left + [c])
  {
    hide Later, SomeUserRule, SomeRule, Keeps;
    forall op
      ensures SomeRule(left + [c], op, true) <==> SomeRule(ops, op, true)
      ensures SomeRule(left + [c], op, false) ==> SomeRule(ops, op, false)
    {
      AppendRule(ops, c, left, op, Allow);
    }
    forall op, a | SomeUserRule(left + [c], op, a) ensures MovesRule(ops, c, left + [c], op, a) {
      AppendRule(ops, c, left, op, a);
    }
  }

  lemma AppendRule(ops: seq<AstOperation>, c: AstOperation, left: seq<AstOperation>, op: Operation, a: Action)
    requires Keeps(ops, left) && !c.IsGroupGrantee() && SomeRule(ops, c.op, false) && !SomeUserRule(ops, c.op, c.action)
    ensures SomeRule(left + [c], op, true) <==> SomeRule(ops, op, true)
    ensures SomeRule(left + [c], op, false) ==> SomeRule(ops, op, false)
    ensures SomeUserRule(left + [c], op, a) ==> MovesRule(ops, c, left + [c], op, a)
  {
    hide Later, SomeUserRule, SomeRule;
    JoinOrder(left, [c], op, a);
    OneOrder(c, op, a);
    NotLater(left, op, a);
  }

  lemma NotLater(ops: seq<AstOperation>, op: Operation, a: Action)
    ensures Later(ops, op, a) ==> SomeUserRule(ops, op, a) && SomeRule(ops, op, true)
  {
    if Later(ops, op, a) {
      var x, y :| 0 <= x < y < |ops| && LaterAt(ops, x, y, op, a);
      assert ops[x].IsGroupGrantee() == true;
    }
  }

  /** The rule at `i` is replaced by at most one, of its kind, operation and action. */
  lemma PutKeeps(ops: seq<AstOperation>, i: nat, list: seq<AstOperation>)
    requires i < |ops| && Distinct(ops) && !ops[i].IsGroupGrantee() && |list| <= 1
    requires list != [] ==> Same(list[0], ops[i])
    ensures Keeps(ops, PutAt(ops, i, list))
  {
    hide Keeps, Distinct, Without, PutAt;
    if list == [] {
      PutNone(ops, i);
      CutMoves(ops, i, ops[i]);
    } else {
      assert list == [list[0]];
      PutOne(ops, i, list[0]);
      SetMoves(ops, i, list[0], ops[i]);
    }
  }

  // ---- one step ----

  lemma StepMoves(ops: seq<AstOperation>, c: AstOperation)
    requires AllClear(ops)
    ensures Moves(ops, c, MergeOp(ops, c).ops)
  {
    hide Moves, Matches, AllClear, Keeps;
    if |Matches(ops, c)| == 1 {
      OneMoves(ops, c);
    } else if |Matches(ops, c)| == 2 {
      TwoMoves(ops, c);
    } else {
      StaysMoves(ops, c);
    }
  }

  lemma OneMoves(ops: seq<AstOperation>, c: AstOperation)
    requires AllClear(ops) && |Matches(ops, c)| == 1
    ensures Moves(ops, c, MergeOp(ops, c).ops)
  {
    MatchesMet(ops, c);
    MetAlike(ops, c);
    WholeClear(ops);
    var i := Matches(ops, c)[0];
    assert Alike(ops[i], c);
    hide Moves, Matches, AllClear, Keeps, Met, Distinct, Decided, Less, More, PutAt;
    if ops[i].action == c.action {
      SameIs(ops, c);
      MoreKeeps(ops[i], c);
      PutOne(ops, i, More(ops[i], c));
      SetMoves(ops, i, More(ops[i], c), c);
      KeepsMoves(ops, c, ops[i := More(ops[i], c)]);
    } else if c.IsGroupGrantee() {
      SetMoves(ops, i, ops[i].(action := c.action), c);
      KeepsMoves(ops, c, ops[i := ops[i].(action := c.action)]);
    } else {
      OtherMoves(ops, c);
    }
  }

  lemma OtherMoves(ops: seq<AstOperation>, c: AstOperation)
    requires AllClear(ops) && |Matches(ops, c)| == 1 && ops[Matches(ops, c)[0]].action != c.action
    requires !c.IsGroupGrantee()
    ensures Moves(ops, c, MergeOp(ops, c).ops)
  {
    hide Moves, MergeOp, Keeps, Met, Less, PutAt, Whole;
    WholeClear(ops);
    MetAlike(ops, c);
    OtherIs(ops, c);
    var i := Matches(ops, c)[0];
    LessKeeps(ops[i], c);
    WholeDistinct(ops);
    PutKeeps(ops, i, Less(ops[i], c));
    OnlyMatch(ops, c);
    AppendMoves(ops, c, PutAt(ops, i, Less(ops[i], c)));
  }

  lemma WholeDistinct(ops: seq<AstOperation>)
    requires Whole(ops)
    ensures Distinct(ops)
  {
  }

  lemma OnlyMatch(ops: seq<AstOperation>, c: AstOperation)
    requires |Matches(ops, c)| == 1 && ops[Matches(ops, c)[0]].action != c.action && !c.IsGroupGrantee()
    ensures SomeRule(ops, c.op, false) && !SomeUserRule(ops, c.op, c.action)
  {
    var i := Matches(ops, c)[0];
    assert ops[i].op == c.op && ops[i].IsGroupGrantee() == false;
    forall k | 0 <= k < |ops| && Alike(ops[k], c) ensures k == i { assert k in Matches(ops, c); }
  }

  lemma TwoMoves(ops: seq<AstOperation>, c: AstOperation)
    requires AllClear(ops) && |Matches(ops, c)| == 2
    ensures Moves(ops, c, MergeOp(ops, c).ops)
  {
    MatchesMet(ops, c);
    MetAlike(ops, c);
    WholeClear(ops);
    var m := Matches(ops, c);
    assert Clear(ops[m[0]], ops[m[1]]);
    var add := if ops[m[1]].action == c.action then m[1] else m[0];
    var del := if ops[m[1]].action == c.action then m[0] else m[1];
    var more, less := More(ops[add], c), Less(ops[del], c);
    hide Moves, Matches, AllClear, Keeps, Met, Distinct, Decided, Less, More, PutAt, HandledAdd, HandledRemove, Filter,
      Clear;
    TwoIs(ops, c, add, del);
    MoreKeeps(ops[add], c);
    LessKeeps(ops[del], c);
    SetMoves(ops, add, more, c);
    DistinctSet(ops, add, more);
    PutKeeps(ops[add := more], del, less);
    KeepsOn(ops, ops[add := more], PutAt(ops[add := more], del, less));
    KeepsMoves(ops, c, PutAt(ops[add := more], del, less));
  }

  // ---- all rules of a request ----

  /** A rule for users with an action behind the one for everyone, after a merge. */
  ghost predicate LaterAfter(before: seq<AstOperation>, child: seq<AstOperation>, op: Operation, a: Action)
  {
    if !SomeRule(before, op, false) then !SomeRule(before, op, true) && Later(child, op, a)
    else !SomeRule(before, op, true) || !SomeUserRule(before, op, a) || Later(before, op, a)
  }

  /**
   New rules are those about what there was no rule about, in their order; the others are where they were, or
   last.
   */
  ghost predicate Ordering(before: seq<AstOperation>, child: seq<AstOperation>, m: Merge)
  {
    && (forall op, group :: SomeRule(m.news, op, group) <==> SomeRule(child, op, group) && !SomeRule(before, op, group))
    && (forall op :: SomeRule(m.ops, op, true) <==> SomeRule(before, op, true))
    && (forall op :: SomeRule(m.ops, op, false) ==> SomeRule(before, op, false))
    && (forall op, a :: OrderingOf(before, child, m, op, a))
  }

  ghost predicate OrderingOf(before: seq<AstOperation>, child: seq<AstOperation>, m: Merge, op: Operation, a: Action)
  {
    && (Later(m.news, op, a) <==>
          Later(child, op, a) && !SomeRule(before, op, true) && !SomeRule(before, op, false))
    && (SomeUserRule(m.news, op, a) <==> SomeUserRule(child, op, a) && !SomeRule(before, op, false))
    && (SomeUserRule(m.ops, op, a) && SomeRule(before, op, true) ==>
          (Later(m.ops, op, a) <==> (SomeUserRule(before, op, a) ==> Later(before, op, a))))
  }

  lemma NothingOrdered(ops: seq<AstOperation>)
    ensures Ordering(ops, [], Merge(ops, [], false))
  {
  }

  /** A rule is new exactly if there was none about its operation and kind of grantee before the merge. */
  lemma NewIs(before: seq<AstOperation>, rest: seq<AstOperation>, c: AstOperation, m: Merge)
    requires Merging(before, rest, m) && LastMatch(rest, c.op, c.IsGroupGrantee()) == |rest|
    ensures MergeOp(m.ops, c).isNew <==> !SomeRule(before, c.op, c.IsGroupGrantee())
    ensures !c.IsGroupGrantee() ==> (SomeUserRule(m.ops, c.op, c.action) <==> SomeUserRule(before, c.op, c.action))
  {
    hide MergeOp, Meets, About, LastMatch;
    MergingClear(before, rest, m);
    MetBefore(before, rest, c, m);
    StepMeets(m.ops, c);
    MeetsIsNew(m.ops, c);
    NoneMet(before, c);
    AboutSome(before, c);
    AboutSome(m.ops, c);
  }

  lemma MeetsIsNew(ops: seq<AstOperation>, c: AstOperation)
    requires Meets(ops, c, MergeOp(ops, c))
    ensures MergeOp(ops, c).isNew <==> Met(ops, c) == []
  {
    hide MergeOp, About, Kept, Unreported, Elsewhere;
  }

  lemma AboutSome(ops: seq<AstOperation>, c: AstOperation)
    ensures Met(ops, c) != [] <==> SomeRule(ops, c.op, c.IsGroupGrantee())
    ensures !c.IsGroupGrantee() ==>
              (SomeUserRule(ops, c.op, c.action) <==> exists o :: o in Met(ops, c) && o.action == c.action)
  {
    AboutIn(ops, c.op, c.IsGroupGrantee());
    hide About;
    var r := Met(ops, c);
    if r != [] {
      assert r[0] in r;
      var i :| 0 <= i < |ops| && ops[i] == r[0];
    }
    forall i | 0 <= i < |ops| && ops[i].op == c.op && ops[i].IsGroupGrantee() == c.IsGroupGrantee()
      ensures ops[i] in r
    {
      assert ops[i] in ops;
    }
    if !c.IsGroupGrantee() && exists o :: o in r && o.action == c.action {
      var o :| o in r && o.action == c.action;
      var i :| 0 <= i < |ops| && ops[i] == o;
    }
  }

  lemma {:induction false} MergeOrders(before: seq<AstOperation>, child: seq<AstOperation>)
    requires AllClear(before) && Single(child)
    ensures Ordering(before, child, MergeOps(before, child))
  {
    hide AllClear, Single, Ordering, MergeOp, Merging, Moves;
    if child == [] {
      NothingOrdered(before);
    } else {
      var rest, c := child[..|child| - 1], child[|child| - 1];
      assert child == rest + [c];
      NoneAbout(rest, c);
      MergeOrders(before, rest);
      MergeHolds(before, rest);
      var m := MergeOps(before, rest);
      MergingClear(before, rest, m);
      NewIs(before, rest, c, m);
      StepMoves(m.ops, c);
      OrderingStep(before, rest, c, m, MergeOp(m.ops, c));
    }
  }

  lemma OrderingStep(before: seq<AstOperation>, rest: seq<AstOperation>, c: AstOperation, m: Merge, s: Step)
    requires Ordering(before, rest, m) && Moves(m.ops, c, s.ops)
    requires s.isNew <==> !SomeRule(before, c.op, c.IsGroupGrantee())
    requires !c.IsGroupGrantee() ==> (SomeUserRule(m.ops, c.op, c.action) <==> SomeUserRule(before, c.op, c.action))
    ensures Ordering(before, rest + [c], Merge(s.ops, if s.isNew then m.news + [c] else m.news, m.updated || s.updated))
  {
    hide Later, SomeUserRule, SomeRule;
    var news := if s.isNew then m.news + [c] else m.news;
    var next := Merge(s.ops, news, m.updated || s.updated);
    forall op, group
      ensures SomeRule(news, op, group) <==> SomeRule(rest + [c], op, group) && !SomeRule(before, op, group)
    {
      JoinOrder(rest, [c], op, Allow);
      JoinOrder(m.news, [c], op, Allow);
      OneOrder(c, op, Allow);
    }
    forall op, a ensures OrderingOf(before, rest + [c], next, op, a) {
      OrderingOne(before, rest, c, m, s, op, a);
    }
  }

  lemma OrderingOne(before: seq<AstOperation>, rest: seq<AstOperation>, c: AstOperation, m: Merge, s: Step,
                    op: Operation, a: Action)
    requires Ordering(before, rest, m) && Moves(m.ops, c, s.ops)
    requires s.isNew <==> !SomeRule(before, c.op, c.IsGroupGrantee())
    requires !c.IsGroupGrantee() ==> (SomeUserRule(m.ops, c.op, c.action) <==> SomeUserRule(before, c.op, c.action))
    ensures OrderingOf(before, rest + [c],
                       Merge(s.ops, if s.isNew then m.news + [c] else m.news, m.updated || s.updated), op, a)
  {
    hide Later, SomeUserRule, SomeRule, Ordering, Moves;
    OrderingAt(before, rest, m, op, a);
    NewsOne(before, rest, c, m.news, s.isNew, op, a);
    if SomeUserRule(s.ops, op, a) {
      MovesAt(m.ops, c, s.ops, op, a);
      UserRuleIsRule(before, op, a);
    }
  }

  lemma OrderingAt(before: seq<AstOperation>, rest: seq<AstOperation>, m: Merge, op: Operation, a: Action)
    requires Ordering(before, rest, m)
    ensures OrderingOf(before, rest, m, op, a) && (SomeRule(m.ops, op, true) <==> SomeRule(before, op, true))
    ensures forall group :: SomeRule(m.news, op, group) <==> SomeRule(rest, op, group) && !SomeRule(before, op, group)
  {
    hide OrderingOf, SomeRule;
  }

  lemma MovesAt(before: seq<AstOperation>, c: AstOperation, after: seq<AstOperation>, op: Operation, a: Action)
    requires Moves(before, c, after) && SomeUserRule(after, op, a)
    ensures MovesRule(before, c, after, op, a)
  {
    hide MovesRule, SomeRule, SomeUserRule;
  }

  lemma NewsOne(before: seq<AstOperation>, rest: seq<AstOperation>, c: AstOperation, news: seq<AstOperation>,
                isNew: bool, op: Operation, a: Action)
    requires isNew <==> !SomeRule(before, c.op, c.IsGroupGrantee())
    requires Later(news, op, a) <==>
               Later(rest, op, a) && !SomeRule(before, op, true) && !SomeRule(before, op, false)
    requires SomeUserRule(news, op, a) <==> SomeUserRule(rest, op, a) && !SomeRule(before, op, false)
    requires SomeRule(news, op, true) <==> SomeRule(rest, op, true) && !SomeRule(before, op, true)
    ensures var next := if isNew then news + [c] else news;
            && (Later(next, op, a) <==>
                  Later(rest + [c], op, a) && !SomeRule(before, op, true) && !SomeRule(before, op, false))
            && (SomeUserRule(next, op, a) <==> SomeUserRule(rest + [c], op, a) && !SomeRule(before, op, false))
  {
    hide Later, SomeUserRule, SomeRule;
    JoinOrder(rest, [c], op, a);
    JoinOrder(news, [c], op, a);
    OneOrder(c, op, a);
  }

  /** Where a merge leaves the rules: a rule for users is behind the one for everyone exactly as said. */
  lemma MergedLater(before: seq<AstOperation>, child: seq<AstOperation>, op: Operation, a: Action)
    requires AllClear(before) && Single(child)
    ensures var after := MergedOps(before, child);
            SomeRule(after, op, true) && SomeUserRule(after, op, a) ==>
              (Later(after, op, a) <==> LaterAfter(before, child, op, a))
  {
    hide Later, SomeUserRule, SomeRule, AllClear, Single, MergeOps;
    MergeOrders(before, child);
    var m := MergeOps(before, child);
    assert OrderingOf(before, child, m, op, a);
    JoinOrder(m.news, m.ops, op, a);
    NotLater(m.news, op, a);
    NotLater(m.ops, op, a);
    UserRuleIsRule(m.news, op, a);
    UserRuleIsRule(m.ops, op, a);
  }

  lemma UserRuleIsRule(ops: seq<AstOperation>, op: Operation, a: Action)
    ensures SomeUserRule(ops, op, a) ==> SomeRule(ops, op, false)
  {
    if SomeUserRule(ops, op, a) {
      var i :| 0 <= i < |ops| && ops[i].op == op && !ops[i].IsGroupGrantee() && ops[i].action == a;
      assert ops[i].IsGroupGrantee() == false;
    }
  }

  // ---- who has the say after a merge ----

  /** What is said of a grantee after a request that fits: what the request says, or else what was said. */
  ghost predicate SaidAfter(before: seq<AstOperation>, child: seq<AstOperation>, op: Operation, who: Grantee, a: Action)
  {
    if Covers(child, op, who) then Says(child, op, who, a) else Says(before, op, who, a)
  }

  ghost predicate OutranksAfter(before: seq<AstOperation>, child: seq<AstOperation>, op: Operation, u: string,
                                a: Action)
  {
    || (SaidAfter(before, child, op, User(u), a) &&
        ((forall g :: !SaidAfter(before, child, op, Everyone, g)) || LaterAfter(before, child, op, a)))
    || (SaidAfter(before, child, op, Everyone, a) &&
        forall b :: SaidAfter(before, child, op, User(u), b) ==> !LaterAfter(before, child, op, b))
  }

  /**
   What a user may do after a merge that fits is what the rule says that has the say: of the user's own rule and the
   one for everyone the new one never has it if the other was there before; otherwise the later one, where a rule for
   users with an action that was not there is the last.
   */
  lemma MergedEffect(before: seq<AstOperation>, child: seq<AstOperation>, op: Operation, u: string, a: Action)
    requires Whole(before) && Single(child) && AllFit(before, child)
    ensures Effective(MergedOps(before, child), op, u) == Some(a) <==> OutranksAfter(before, child, op, u, a)
  {
    hide Later, SomeUserRule, SomeRule, AllClear, Single, MergedOps, Whole, AllFit, LaterAfter, Effective, Says;
    var after := MergedOps(before, child);
    WholeClear(before);
    MergedClear(before, child);
    MergedOverrides(before, child);
    EffectiveIs(after, op, u, a);
    forall who, b ensures Says(after, op, who, b) <==> SaidAfter(before, child, op, who, b) {}
    forall g, b | Says(after, op, Everyone, g) && Says(after, op, User(u), b)
      ensures Later(after, op, b) <==> LaterAfter(before, child, op, b)
    {
      MergedLater(before, child, op, b);
      SaysRule(after, op, Everyone, g);
      SaysRule(after, op, User(u), b);
    }
  }

  lemma SaysRule(ops: seq<AstOperation>, op: Operation, who: Grantee, a: Action)
    requires Says(ops, op, who, a)
    ensures SomeRule(ops, op, who.Everyone?)
    ensures who.User? ==> SomeUserRule(ops, op, a)
  {
    var i :| 0 <= i < |ops| && Speaks(ops[i], op, who, a);
    assert ops[i].IsGroupGrantee() == who.Everyone?;
  }

  /** A rule about an operation and kind of grantee that there was none about never outranks a rule that was there. */
  lemma NewNeverOutranks(before: seq<AstOperation>, child: seq<AstOperation>, op: Operation, u: string, a: Action)
    requires Whole(before) && Single(child) && AllFit(before, child)
    ensures !SomeRule(before, op, true) && SomeRule(before, op, false) && SaidAfter(before, child, op, User(u), a) ==>
              Effective(MergedOps(before, child), op, u) == Some(a)
    ensures !SomeRule(before, op, false) && SomeRule(before, op, true) && SaidAfter(before, child, op, Everyone, a) ==>
              Effective(MergedOps(before, child), op, u) == Some(a)
  {
    hide Later, SomeUserRule, SomeRule, Single, MergedOps, Whole, AllFit, Effective, Says, SaidAfter;
    MergedEffect(before, child, op, u, a);
  }

  /** Everybody is denied what one user may do: the user still may. */
  lemma NewRuleExample()
    ensures Effective(MergedOps([AstOperation(["alice"], Get, Allow)], [AstOperation([], Get, Deny)]), Get, "alice") ==
            Some(Allow)
  {
    OneEffect(AstOperation(["alice"], Get, Allow), AstOperation([], Get, Deny), "alice");
  }

  /** A user is denied what everybody may do: the user still may. */
  lemma LostDenyExample()
    ensures Effective(MergedOps([AstOperation([], Get, Allow)], [AstOperation(["alice"], Get, Deny)]), Get, "alice") ==
            Some(Allow)
  {
    OneEffect(AstOperation([], Get, Allow), AstOperation(["alice"], Get, Deny), "alice");
  }

  /** A rule for a user and one for everyone: the one that was there has the say. */
  lemma OneEffect(o: AstOperation, c: AstOperation, u: string)
    requires o.op == c.op && o.IsGroupGrantee() != c.IsGroupGrantee() && IsFor(o, o.op, u)
    ensures Effective(MergedOps([o], [c]), o.op, u) == Some(o.action)
  {
    SingleClear([o]);
    WholeClear([o]);
    SingleFits([o], [c]);
    OneOrder(o, o.op, o.action);
    var who := if o.IsGroupGrantee() then Everyone else User(u);
    OneSays(o, o.op, who, o.action);
    OneSays(c, o.op, who, o.action);
    hide Effective, MergedOps, AllFit, Whole, SomeRule, AllClear;
    NewNeverOutranks([o], [c], o.op, u, o.action);
  }
}
