/** Merging the rules of a request into those a bucket has. */
module AclMerges {
  import opened Acls

  // ---- one rule into the rules of a resource ----

  /** Where the rules about the same operation are, for users or for everyone as in `c`. */
  function Matches(ops: seq<AstOperation>, c: AstOperation): (m: seq<nat>)
    ensures |m| <= |ops|
    ensures forall k :: 0 <= k < |m| ==> m[k] < |ops| && Alike(ops[m[k]], c)
    ensures forall j, k :: 0 <= j < k < |m| ==> m[j] < m[k]
    ensures forall i :: 0 <= i < |ops| && Alike(ops[i], c) ==> i in m
  {
    if ops == [] then []
    else
      var last := |ops| - 1;
      Matches(ops[..last], c) + if Alike(ops[last], c) then [last] else []
  }

  /** The users of a list that are (`have`) or are not in another one. */
  function Filter(users: seq<string>, others: seq<string>, have: bool): (r: seq<string>)
    ensures forall u :: u in r <==> u in users && (u in others) == have
  {
    if users == [] then []
    else
      var last := |users| - 1;
      Filter(users[..last], others, have) + if (users[last] in others) == have then [users[last]] else []
  }

  /** The first rule like `o` with its action, or the length if there is none. */
  function FirstSame(ops: seq<AstOperation>, o: AstOperation): (i: nat)
    ensures i <= |ops| && (i < |ops| ==> Same(ops[i], o))
    ensures forall j :: 0 <= j < i ==> !Same(ops[j], o)
  {
    if ops == [] || Same(ops[0], o) then 0 else 1 + FirstSame(ops[1..], o)
  }

  function Without(ops: seq<AstOperation>, i: nat): (r: seq<AstOperation>)
    requires i < |ops|
    ensures |r| == |ops| - 1
  {
    ops[..i] + ops[i + 1..]
  }

  function AfterAdd(ops: seq<AstOperation>, o: AstOperation, users: seq<string>): seq<AstOperation>
  {
    var i := FirstSame(ops, o);
    if i == |ops| then ops else ops[i := ops[i].(users := o.users + users)]
  }

  function AfterRemove(ops: seq<AstOperation>, o: AstOperation, users: seq<string>): seq<AstOperation>
  {
    var i := FirstSame(ops, o);
    if i == |ops| then ops
    else
      var left := Filter(ops[i].users, users, false);
      if left == [] then Without(ops, i) else ops[i := ops[i].(users := left)]
  }

  function HandledAdd(ops: seq<AstOperation>, c: AstOperation, i: nat): seq<AstOperation>
    requires i < |ops|
  {
    var more := Filter(c.users, ops[i].users, false);
    if more == [] then ops else AfterAdd(ops, ops[i], more)
  }

  function HandledRemove(ops: seq<AstOperation>, c: AstOperation, i: nat): seq<AstOperation>
    requires i < |ops|
  {
    var less := Filter(c.users, ops[i].users, true);
    if less == [] then ops else AfterRemove(ops, ops[i], less)
  }

  function Opposite(a: Action): Action { if a == Allow then Deny else Allow }

  /** The rules after a rule of a request was met; `isNew` if it goes before all rules of the resource. */
  datatype Step = Step(ops: seq<AstOperation>, isNew: bool, updated: bool)

  function MergeOp(ops: seq<AstOperation>, c: AstOperation): Step
  {
    var m := Matches(ops, c);
    if |m| == 2 then MergeIntoTwo(ops, c, m[0], m[1])
    else if |m| == 1 then MergeIntoOne(ops, c, m[0])
    else Step(ops, m == [], m == [])
  }

  function MergeIntoTwo(ops: seq<AstOperation>, c: AstOperation, i: nat, j: nat): Step
    requires i < |ops| && j < |ops|
  {
    if c.IsGroupGrantee() then
      var k := FirstSame(ops, c.(action := Opposite(c.action)));
      Step(if k == |ops| then ops else Without(ops, k), false, true)
    else
      var add, del := if ops[j].action == c.action then j else i, if ops[j].action == c.action then i else j;
      var added := HandledAdd(ops, c, add);
      Step(HandledRemove(added, c, del), false,
           Filter(c.users, ops[add].users, false) != [] || Filter(c.users, added[del].users, true) != [])
  }

  function MergeIntoOne(ops: seq<AstOperation>, c: AstOperation, i: nat): Step
    requires i < |ops|
  {
    if c.action != ops[i].action then
      if c.IsGroupGrantee() then Step(ops[i := ops[i].(action := c.action)], false, true)
      else Step(HandledRemove(ops, c, i) + [c], false, Filter(c.users, ops[i].users, true) != [])
    else Step(HandledAdd(ops, c, i), false, Filter(c.users, ops[i].users, false) != [])
  }

  // ---- the rules that a rule of a request meets ----

  predicate IsAbout(o: AstOperation, op: Operation, group: bool) { o.op == op && o.IsGroupGrantee() == group }

  /** The rules about an operation, for everyone or for users, in their order. */
  function About(ops: seq<AstOperation>, op: Operation, group: bool): seq<AstOperation>
  {
    if ops == [] then []
    else
      var last := |ops| - 1;
      About(ops[..last], op, group) + if IsAbout(ops[last], op, group) then [ops[last]] else []
  }

  /** The rules about what `c` is about. */
  function Met(ops: seq<AstOperation>, c: AstOperation): seq<AstOperation>
  {
    About(ops, c.op, c.IsGroupGrantee())
  }

  lemma {:induction false} AboutIn(ops: seq<AstOperation>, op: Operation, group: bool)
    ensures forall o :: o in About(ops, op, group) <==> o in ops && IsAbout(o, op, group)
  {
    if ops != [] {
      var last := |ops| - 1;
      AboutIn(ops[..last], op, group);
      assert forall o :: o in ops <==> o in ops[..last] || o == ops[last] by {
        assert ops == ops[..last] + [ops[last]];
      }
    }
  }

  lemma {:induction false} AboutJoin(a: seq<AstOperation>, b: seq<AstOperation>, op: Operation, group: bool)
    ensures About(a + b, op, group) == About(a, op, group) + About(b, op, group)
  {
    if b == [] {
      assert a + b == a;
    } else {
      var rest := b[..|b| - 1];
      AboutJoin(a, rest, op, group);
      assert (a + b)[..|a + b| - 1] == a + rest && (a + b)[|a + b| - 1] == b[|b| - 1];
    }
  }

  lemma AboutOne(o: AstOperation, op: Operation, group: bool)
    ensures About([o], op, group) == if IsAbout(o, op, group) then [o] else []
  {
    assert [o][..0] == [];
  }

  /** The list with `list` in the place of the rule at `i`. */
  function PutAt(ops: seq<AstOperation>, i: nat, list: seq<AstOperation>): (after: seq<AstOperation>)
    requires i < |ops|
    ensures |after| == |ops| - 1 + |list|
  {
    ops[..i] + list + ops[i + 1..]
  }

  lemma PutOne(ops: seq<AstOperation>, i: nat, o: AstOperation)
    requires i < |ops|
    ensures PutAt(ops, i, [o]) == ops[i := o] && PutAt(ops, i, [ops[i]]) == ops
  {
  }

  lemma PutOnly(r: seq<AstOperation>, list: seq<AstOperation>)
    requires |r| == 1
    ensures PutAt(r, 0, list) == list
  {
  }

  /** At most one rule, about what `o` is about. */
  predicate Instead(list: seq<AstOperation>, o: AstOperation)
  {
    |list| <= 1 && (list != [] ==> Alike(list[0], o))
  }

  lemma AboutInstead(list: seq<AstOperation>, o: AstOperation, op: Operation, group: bool)
    requires Instead(list, o)
    ensures About(list, op, group) == if IsAbout(o, op, group) then list else []
  {
    if list != [] {
      assert list == [list[0]];
      AboutOne(list[0], op, group);
    }
  }

  lemma AboutPut(ops: seq<AstOperation>, i: nat, list: seq<AstOperation>, op: Operation, group: bool)
    requires i < |ops| && Instead(list, ops[i])
    ensures !IsAbout(ops[i], op, group) ==> About(PutAt(ops, i, list), op, group) == About(ops, op, group)
    ensures IsAbout(ops[i], op, group) ==>
              var rank, r := |About(ops[..i], op, group)|, About(ops, op, group);
              rank < |r| && r[rank] == ops[i] && About(PutAt(ops, i, list), op, group) == PutAt(r, rank, list)
  {
    hide About;
    var a, b := ops[..i], ops[i + 1..];
    assert ops == a + [ops[i]] + b;
    AboutJoin(a + [ops[i]], b, op, group);
    AboutJoin(a, [ops[i]], op, group);
    AboutOne(ops[i], op, group);
    AboutJoin(a + list, b, op, group);
    AboutJoin(a, list, op, group);
    AboutInstead(list, ops[i], op, group);
  }

  /** The rules that `c` meets are those that match. */
  lemma {:induction false} MatchesMet(ops: seq<AstOperation>, c: AstOperation)
    ensures |Matches(ops, c)| == |Met(ops, c)|
    ensures forall k :: 0 <= k < |Matches(ops, c)| ==>
              |Met(ops[..Matches(ops, c)[k]], c)| == k && Met(ops, c)[k] == ops[Matches(ops, c)[k]]
  {
    if ops != [] {
      var last := |ops| - 1;
      var rest := ops[..last];
      MatchesMet(rest, c);
      forall k | 0 <= k < |Matches(ops, c)|
        ensures |Met(ops[..Matches(ops, c)[k]], c)| == k && Met(ops, c)[k] == ops[Matches(ops, c)[k]]
      {
        if k < |Matches(rest, c)| {
          assert Matches(ops, c)[k] == Matches(rest, c)[k];
          assert ops[..Matches(ops, c)[k]] == rest[..Matches(rest, c)[k]];
        }
      }
    }
  }

  lemma {:induction false} MatchesSame(a: seq<AstOperation>, b: seq<AstOperation>, c: AstOperation)
    requires |a| == |b| && forall j :: 0 <= j < |a| ==> Alike(a[j], c) == Alike(b[j], c)
    ensures Matches(a, c) == Matches(b, c)
  {
    if a != [] {
      MatchesSame(a[..|a| - 1], b[..|b| - 1], c);
    }
  }

  /** The rules about anything but what `c` is about are the same. */
  ghost predicate Elsewhere(before: seq<AstOperation>, after: seq<AstOperation>, c: AstOperation)
  {
    forall op, group :: !IsAbout(c, op, group) ==> About(after, op, group) == About(before, op, group)
  }

  lemma PutMet(ops: seq<AstOperation>, c: AstOperation, k: nat, list: seq<AstOperation>)
    requires k < |Matches(ops, c)| && Instead(list, c)
    ensures k < |Met(ops, c)| && Met(PutAt(ops, Matches(ops, c)[k], list), c) == PutAt(Met(ops, c), k, list)
    ensures Elsewhere(ops, PutAt(ops, Matches(ops, c)[k], list), c)
  {
    hide About, Matches, PutAt;
    MatchesMet(ops, c);
    var i := Matches(ops, c)[k];
    forall op, group
      ensures !IsAbout(c, op, group) ==> About(PutAt(ops, i, list), op, group) == About(ops, op, group)
    {
      AboutPut(ops, i, list, op, group);
    }
    AboutPut(ops, i, list, c.op, c.IsGroupGrantee());
  }

  // ---- rules without contradictions ----

  /** User rules with different actions and without common users. */
  ghost predicate Clear(a: AstOperation, b: AstOperation)
  {
    !a.IsGroupGrantee() && a.action != b.action && forall u :: u in a.users ==> u !in b.users
  }

  ghost predicate AllClear(ops: seq<AstOperation>)
  {
    forall i, j :: 0 <= i < j < |ops| && Alike(ops[i], ops[j]) ==> Clear(ops[i], ops[j])
  }

  lemma WholeClear(ops: seq<AstOperation>)
    ensures Whole(ops) <==> AllClear(ops)
  {
    if Whole(ops) {
      forall i, j | 0 <= i < j < |ops| && Alike(ops[i], ops[j]) ensures Clear(ops[i], ops[j]) {
        WholePair(ops, i, j);
      }
    }
    if AllClear(ops) {
      ClearDecided(ops);
      ClearDistinct(ops);
    }
  }

  lemma ClearDistinct(ops: seq<AstOperation>)
    requires AllClear(ops)
    ensures Distinct(ops)
  {
    forall i, j | 0 <= i < |ops| && 0 <= j < |ops| && i != j ensures !Same(ops[i], ops[j]) {
      if i < j { NotSame(ops, i, j); } else { NotSame(ops, j, i); }
    }
  }

  lemma NotSame(ops: seq<AstOperation>, i: nat, j: nat)
    requires AllClear(ops) && i < j < |ops|
    ensures !Same(ops[i], ops[j]) && !Same(ops[j], ops[i])
  {
    assert Alike(ops[i], ops[j]) ==> Clear(ops[i], ops[j]);
  }

  lemma WholePair(ops: seq<AstOperation>, i: nat, j: nat)
    requires Whole(ops) && i < j < |ops| && Alike(ops[i], ops[j])
    ensures Clear(ops[i], ops[j])
  {
    assert !Same(ops[i], ops[j]);
    forall who ensures !(Mentions(ops[i], who) && Mentions(ops[j], who)) {
      assert Speaks(ops[i], ops[i].op, who, ops[i].action) && Speaks(ops[j], ops[i].op, who, ops[j].action) ==>
               Says(ops, ops[i].op, who, ops[i].action) && Says(ops, ops[i].op, who, ops[j].action);
    }
    assert ops[i].IsGroupGrantee() ==> Mentions(ops[i], Everyone) && Mentions(ops[j], Everyone);
    assert forall u :: u in ops[i].users ==> Mentions(ops[i], User(u));
  }

  lemma ClearDecided(ops: seq<AstOperation>)
    requires AllClear(ops)
    ensures Decided(ops)
  {
    forall op, who, a, b | Says(ops, op, who, a) && Says(ops, op, who, b) ensures a == b {
      var i :| 0 <= i < |ops| && Speaks(ops[i], op, who, a);
      var j :| 0 <= j < |ops| && Speaks(ops[j], op, who, b);
      assert i < j ==> !Clear(ops[i], ops[j]);
      assert j < i ==> !Clear(ops[j], ops[i]);
    }
  }

  lemma {:induction false} AboutClear(ops: seq<AstOperation>, op: Operation, group: bool)
    requires AllClear(ops)
    ensures AllClear(About(ops, op, group))
    ensures forall k :: 0 <= k < |About(ops, op, group)| ==> IsAbout(About(ops, op, group)[k], op, group)
  {
    if ops != [] {
      hide Clear;
      var last := |ops| - 1;
      AboutClear(ops[..last], op, group);
      AboutIn(ops[..last], op, group);
      var r := About(ops[..last], op, group);
      forall k | 0 <= k < |r| && Alike(r[k], ops[last]) ensures Clear(r[k], ops[last]) {
        assert r[k] in ops[..last];
      }
    }
  }

  lemma ClearAbout(ops: seq<AstOperation>)
    requires forall op, group :: AllClear(About(ops, op, group))
    ensures AllClear(ops)
  {
    hide About, Clear;
    forall i, j | 0 <= i < j < |ops| && Alike(ops[i], ops[j]) ensures Clear(ops[i], ops[j]) {
      TwoAbout(ops, i, j);
    }
  }

  lemma TwoAbout(ops: seq<AstOperation>, i: nat, j: nat)
    requires i < j < |ops| && Alike(ops[i], ops[j]) && AllClear(Met(ops, ops[j]))
    ensures Clear(ops[i], ops[j])
  {
    hide About, Clear;
    var op, group := ops[j].op, ops[j].IsGroupGrantee();
    AboutPut(ops, j, [], op, group);
    AboutIn(ops[..j], op, group);
    assert ops[..j][i] == ops[i] && ops[i] in About(ops[..j], op, group);
    var k :| 0 <= k < |About(ops[..j], op, group)| && About(ops[..j], op, group)[k] == ops[i];
    AboutJoin(ops[..j], ops[j..], op, group);
    assert ops[..j] + ops[j..] == ops;
    assert Met(ops, ops[j])[k] == ops[i];
  }

  // ---- what a rule of a request does to the rules it meets ----

  /** A rule with the users of another one as well. */
  function More(o: AstOperation, c: AstOperation): AstOperation
  {
    o.(users := o.users + Filter(c.users, o.users, false))
  }

  /** A rule without the users of another one, or none if it had no others. */
  function Less(o: AstOperation, c: AstOperation): seq<AstOperation>
  {
    var left := Filter(o.users, Filter(c.users, o.users, true), false);
    if left == [] then [] else [o.(users := left)]
  }

  /** The rules that `c` meets, and `c` if it is new, after they met. */
  function After(r: seq<AstOperation>, c: AstOperation): seq<AstOperation>
  {
    if r == [] then [c]
    else if |r| == 1 then
      if r[0].action == c.action then [More(r[0], c)]
      else if c.IsGroupGrantee() then [c]
      else Less(r[0], c) + [c]
    else if |r| == 2 then
      if r[1].action == c.action then Less(r[0], c) + [More(r[1], c)] else [More(r[0], c)] + Less(r[1], c)
    else r
  }

  /** A rule that has the action and all users of `c`. */
  ghost predicate HasAll(o: AstOperation, c: AstOperation)
  {
    o.action == c.action && forall u :: u in c.users ==> u in o.users
  }

  /** Everything that `c` says holds already. */
  ghost predicate Settled(r: seq<AstOperation>, c: AstOperation)
  {
    exists k :: 0 <= k < |r| && HasAll(r[k], c)
  }

  /** Of two rules that are met one has the action of `c`, and of three that one has all its users already. */
  ghost predicate Fits(r: seq<AstOperation>, c: AstOperation)
  {
    |r| <= 1 || (|r| == 2 && (r[0].action == c.action || r[1].action == c.action)) || Settled(r, c)
  }

  /** Nothing is changed: all of `c` holds, or it meets three rules, or two others of which the first has its users. */
  ghost predicate Kept(r: seq<AstOperation>, c: AstOperation)
  {
    || Settled(r, c) || |r| > 2
    || (|r| == 2 && r[0].action != c.action && r[1].action != c.action && forall u :: u in c.users ==> u in r[0].users)
  }

  /** A change that is not reported: `c` meets only a user rule with another action, which has none of its users. */
  ghost predicate Unreported(r: seq<AstOperation>, c: AstOperation)
  {
    |r| == 1 && !c.IsGroupGrantee() && r[0].action != c.action && forall u :: u in c.users ==> u !in r[0].users
  }

  /** Meeting `c` again changes nothing more. */
  ghost predicate Repeats(r: seq<AstOperation>, c: AstOperation)
  {
    |r| == 2 ==> r[0].action == c.action || r[1].action == c.action || exists u :: u in r[1].users && u !in c.users
  }

  /** Rules about what `c` is about, without contradictions. */
  ghost predicate Sound(r: seq<AstOperation>, c: AstOperation)
  {
    AllClear(r) && forall k :: 0 <= k < |r| ==> Alike(r[k], c)
  }

  lemma SoundMet(ops: seq<AstOperation>, c: AstOperation)
    requires AllClear(ops)
    ensures Sound(Met(ops, c), c)
  {
    AboutClear(ops, c.op, c.IsGroupGrantee());
  }

  lemma NoneLeft(users: seq<string>, others: seq<string>, have: bool)
    ensures Filter(users, others, have) == [] <==> forall u :: u in users ==> (u in others) != have
  {
    var f := Filter(users, others, have);
    if f != [] {
      assert f[0] in f;
    }
  }

  lemma {:induction false} AllLeft(users: seq<string>)
    ensures Filter(users, [], false) == users
  {
    if users != [] {
      var rest, last := users[..|users| - 1], users[|users| - 1];
      AllLeft(rest);
      assert users == rest + [last];
      assert Filter(users, [], false) == Filter(rest, [], false) + [last];
    }
  }

  lemma FirstIs(ops: seq<AstOperation>, i: nat)
    requires i < |ops| && Distinct(ops)
    ensures FirstSame(ops, ops[i]) == i
  {
  }

  lemma AddIs(ops: seq<AstOperation>, c: AstOperation, i: nat)
    requires i < |ops| && Distinct(ops)
    ensures HandledAdd(ops, c, i) == PutAt(ops, i, [More(ops[i], c)])
  {
    FirstIs(ops, i);
    hide Filter, FirstSame, Distinct, PutAt;
    assert Filter(c.users, ops[i].users, false) == [] ==> More(ops[i], c) == ops[i];
    PutOne(ops, i, More(ops[i], c));
  }

  lemma RemoveIs(ops: seq<AstOperation>, c: AstOperation, i: nat)
    requires i < |ops| && Distinct(ops) && !ops[i].IsGroupGrantee()
    ensures HandledRemove(ops, c, i) == PutAt(ops, i, Less(ops[i], c))
  {
    FirstIs(ops, i);
    AllLeft(ops[i].users);
    hide Filter, FirstSame, Distinct, PutAt;
    var o := ops[i];
    var left := Filter(o.users, Filter(c.users, o.users, true), false);
    assert Filter(c.users, o.users, true) == [] ==> left == o.users && o.(users := left) == o;
    PutOne(ops, i, o.(users := left));
    PutNone(ops, i);
  }

  lemma PutNone(ops: seq<AstOperation>, i: nat)
    requires i < |ops|
    ensures PutAt(ops, i, []) == Without(ops, i)
  {
  }

  lemma MoreKeeps(o: AstOperation, c: AstOperation)
    requires Alike(o, c)
    ensures Alike(More(o, c), c) && More(o, c).action == o.action
    ensures forall u :: u in More(o, c).users <==> u in o.users || u in c.users
    ensures More(o, c) == o <==> forall u :: u in c.users ==> u in o.users
  {
    NoneLeft(c.users, o.users, false);
    if o.IsGroupGrantee() {
      assert Filter(c.users, o.users, false) == [];
    }
  }

  lemma LessKeeps(o: AstOperation, c: AstOperation)
    requires Alike(o, c) && !c.IsGroupGrantee()
    ensures |Less(o, c)| <= 1
    ensures Less(o, c) != [] ==> Alike(Less(o, c)[0], c) && Less(o, c)[0].action == o.action
    ensures Less(o, c) != [] ==> forall u :: u in Less(o, c)[0].users <==> u in o.users && u !in c.users
    ensures Less(o, c) == [] <==> forall u :: u in o.users ==> u in c.users
    ensures Less(o, c) == [o] <==> forall u :: u in c.users ==> u !in o.users
  {
    var less := Filter(c.users, o.users, true);
    NoneLeft(c.users, o.users, true);
    NoneLeft(o.users, less, false);
    AllLeft(o.users);
    assert o.users[0] in o.users;
  }

  // ---- one step ----

  /** What is known of a step: what becomes of the rules that `c` meets, and that all others stay. */
  ghost predicate Meets(ops: seq<AstOperation>, c: AstOperation, s: Step)
  {
    var r := Met(ops, c);
    && (s.isNew <==> r == []) && (s.isNew ==> s.ops == ops)
    && (!s.isNew ==> Met(s.ops, c) == After(r, c))
    && Elsewhere(ops, s.ops, c)
    && (s.updated <==> !Kept(r, c) && !Unreported(r, c))
    && (Kept(r, c) ==> s == Step(ops, false, false))
  }

  lemma MeetsNone(ops: seq<AstOperation>, c: AstOperation)
    requires AllClear(ops) && Matches(ops, c) == []
    ensures Meets(ops, c, MergeOp(ops, c))
  {
    MatchesMet(ops, c);
  }

  lemma SameIs(ops: seq<AstOperation>, c: AstOperation)
    requires AllClear(ops) && |Matches(ops, c)| == 1 && ops[Matches(ops, c)[0]].action == c.action
    ensures var i := Matches(ops, c)[0];
            && Met(ops, c) == [ops[i]] && Alike(ops[i], c)
            && MergeOp(ops, c).ops == PutAt(ops, i, [More(ops[i], c)]) && !MergeOp(ops, c).isNew
            && (MergeOp(ops, c).updated <==> !HasAll(ops[i], c))
            && (HasAll(ops[i], c) ==> MergeOp(ops, c).ops == ops)
  {
    MatchesMet(ops, c);
    WholeClear(ops);
    var i := Matches(ops, c)[0];
    hide Matches, Filter, HandledAdd, Met, AllClear, Whole, More, PutAt;
    AddIs(ops, c, i);
    NoneLeft(c.users, ops[i].users, false);
    MoreKeeps(ops[i], c);
    PutOne(ops, i, ops[i]);
  }

  lemma MeetsSame(ops: seq<AstOperation>, c: AstOperation)
    requires AllClear(ops) && |Matches(ops, c)| == 1 && ops[Matches(ops, c)[0]].action == c.action
    ensures Meets(ops, c, MergeOp(ops, c))
  {
    SameIs(ops, c);
    var i := Matches(ops, c)[0];
    var more := More(ops[i], c);
    hide Matches, MergeOp, Met, AllClear, Elsewhere, More, PutAt, HasAll;
    MoreKeeps(ops[i], c);
    PutMet(ops, c, 0, [more]);
    PutOnly([ops[i]], [more]);
    OneSettled(ops[i], c);
    hide Settled;
    assert Kept([ops[i]], c) <==> HasAll(ops[i], c);
    assert After([ops[i]], c) == [more];
  }

  lemma OneSettled(o: AstOperation, c: AstOperation)
    ensures Settled([o], c) <==> HasAll(o, c)
  {
    assert [o][0] == o;
  }

  lemma MeetsGroup(ops: seq<AstOperation>, c: AstOperation)
    requires AllClear(ops) && |Matches(ops, c)| == 1 && ops[Matches(ops, c)[0]].action != c.action
    requires c.IsGroupGrantee()
    ensures Meets(ops, c, MergeOp(ops, c))
  {
    MatchesMet(ops, c);
    var i, r := Matches(ops, c)[0], Met(ops, c);
    assert r == [ops[i]];
    hide Matches, Met, AllClear, Elsewhere, PutAt;
    assert ops[i].(action := c.action) == c;
    PutOne(ops, i, c);
    PutOnly(r, [c]);
    PutMet(ops, c, 0, [c]);
    assert MergeOp(ops, c) == Step(ops[i := c], false, true);
    hide MergeOp;
    assert !Kept(r, c) && After(r, c) == [c];
  }

  lemma OtherIs(ops: seq<AstOperation>, c: AstOperation)
    requires AllClear(ops) && |Matches(ops, c)| == 1 && ops[Matches(ops, c)[0]].action != c.action
    requires !c.IsGroupGrantee()
    ensures var i := Matches(ops, c)[0];
            && Met(ops, c) == [ops[i]]
            && MergeOp(ops, c).ops == PutAt(ops, i, Less(ops[i], c)) + [c] && !MergeOp(ops, c).isNew
            && (MergeOp(ops, c).updated <==> exists u :: u in c.users && u in ops[i].users)
  {
    MatchesMet(ops, c);
    WholeClear(ops);
    var i := Matches(ops, c)[0];
    hide Matches, Filter, HandledRemove, Met, AllClear, Whole, Less, PutAt;
    RemoveIs(ops, c, i);
    NoneLeft(c.users, ops[i].users, true);
  }

  lemma MeetsOther(ops: seq<AstOperation>, c: AstOperation)
    requires AllClear(ops) && |Matches(ops, c)| == 1 && ops[Matches(ops, c)[0]].action != c.action
    requires !c.IsGroupGrantee()
    ensures Meets(ops, c, MergeOp(ops, c))
  {
    OtherIs(ops, c);
    var i := Matches(ops, c)[0];
    var left := Less(ops[i], c);
    hide Matches, MergeOp, Met, AllClear, Elsewhere, Less, PutAt;
    LessKeeps(ops[i], c);
    PutMet(ops, c, 0, left);
    PutOnly([ops[i]], left);
    JoinMet(ops, c, PutAt(ops, i, left));
    hide Filter;
    OneSettled(ops[i], c);
    hide Settled, Alike;
    assert !Kept([ops[i]], c) && After([ops[i]], c) == left + [c];
  }

  lemma JoinMet(ops: seq<AstOperation>, c: AstOperation, left: seq<AstOperation>)
    requires Elsewhere(ops, left, c)
    ensures Elsewhere(ops, left + [c], c) && Met(left + [c], c) == Met(left, c) + [c]
  {
    hide About;
    forall op, group ensures About(left + [c], op, group) == About(left, op, group) + About([c], op, group) {
      AboutJoin(left, [c], op, group);
    }
    forall op, group ensures About([c], op, group) == if IsAbout(c, op, group) then [c] else [] {
      AboutOne(c, op, group);
    }
  }

  /** Of two rules that are met: which one gets users and which one loses them. */
  lemma TwoKept(r: seq<AstOperation>, c: AstOperation, add: nat, del: nat)
    requires Sound(r, c) && |r| == 2 && !c.IsGroupGrantee() && add < 2 && del == 1 - add
    requires add == if r[1].action == c.action then 1 else 0
    ensures Kept(r, c) <==> forall u :: u in c.users ==> u in r[add].users
    ensures Kept(r, c) ==> forall u :: u in c.users ==> u !in r[del].users
    ensures PutAt(PutAt(r, add, [More(r[add], c)]), del, Less(r[del], c)) == After(r, c)
  {
    assert Clear(r[0], r[1]);
    hide More, Less, Alike;
    assert r[add].action == c.action ==> (HasAll(r[add], c) <==> Settled(r, c));
    assert r[add].action != c.action ==> !HasAll(r[0], c) && !HasAll(r[1], c);
  }

  lemma DistinctSet(ops: seq<AstOperation>, i: nat, o: AstOperation)
    requires i < |ops| && Distinct(ops) && Same(o, ops[i])
    ensures Distinct(ops[i := o])
  {
  }

  lemma TwoIs(ops: seq<AstOperation>, c: AstOperation, i: nat, j: nat)
    requires Distinct(ops) && i < |ops| && j < |ops| && i != j && !c.IsGroupGrantee()
    requires Alike(ops[i], c) && Alike(ops[j], c)
    ensures HandledRemove(HandledAdd(ops, c, i), c, j) == PutAt(ops[i := More(ops[i], c)], j, Less(ops[j], c))
    ensures Filter(c.users, ops[i].users, false) == [] <==> forall u :: u in c.users ==> u in ops[i].users
    ensures Filter(c.users, HandledAdd(ops, c, i)[j].users, true) == [] <==>
            forall u :: u in c.users ==> u !in ops[j].users
  {
    var more := More(ops[i], c);
    hide Filter, HandledAdd, HandledRemove, Distinct, Less, More;
    AddIs(ops, c, i);
    MoreKeeps(ops[i], c);
    DistinctSet(ops, i, more);
    hide PutAt;
    PutOne(ops, i, more);
    RemoveIs(ops[i := more], c, j);
    NoneLeft(c.users, ops[i].users, false);
    NoneLeft(c.users, ops[j].users, true);
  }

  lemma PutTwice(ops: seq<AstOperation>, c: AstOperation, j: nat, k: nat, o: AstOperation, list: seq<AstOperation>)
    requires |Matches(ops, c)| == 2 && j < 2 && k < 2 && j != k && Alike(o, c) && Instead(list, c)
    ensures |Met(ops, c)| == 2
    ensures var m := Matches(ops, c);
            var after := PutAt(ops[m[j] := o], m[k], list);
            Met(after, c) == PutAt(PutAt(Met(ops, c), j, [o]), k, list) && Elsewhere(ops, after, c)
  {
    var m := Matches(ops, c);
    var added := ops[m[j] := o];
    assert Alike(ops[m[j]], c);
    MatchesMet(ops, c);
    MatchesSame(added, ops, c);
    hide Matches, Met, Elsewhere, PutAt;
    PutOne(ops, m[j], o);
    PutMet(ops, c, j, [o]);
    PutMet(added, c, k, list);
    StillElsewhere(ops, added, PutAt(added, m[k], list), c);
  }

  lemma MeetsTwo(ops: seq<AstOperation>, c: AstOperation)
    requires AllClear(ops) && |Matches(ops, c)| == 2
    ensures Meets(ops, c, MergeOp(ops, c))
  {
    MatchesMet(ops, c);
    SoundMet(ops, c);
    WholeClear(ops);
    var m, r := Matches(ops, c), Met(ops, c);
    assert Clear(r[0], r[1]);
    var add := if r[1].action == c.action then 1 else 0;
    hide Matches, Filter, HandledAdd, HandledRemove, Met, AllClear, Distinct, Decided, Elsewhere, After, Kept, Less,
      More,
      Clear, PutAt;
    assert ops[m[0]] == r[0] && ops[m[1]] == r[1];
    TwoIs(ops, c, m[add], m[1 - add]);
    MoreKeeps(r[add], c);
    LessKeeps(r[1 - add], c);
    PutTwice(ops, c, add, 1 - add, More(r[add], c), Less(r[1 - add], c));
    TwoKept(r, c, add, 1 - add);
    if Kept(r, c) { KeptTwo(ops, c, m[add], m[1 - add]); }
  }

  lemma KeptTwo(ops: seq<AstOperation>, c: AstOperation, i: nat, j: nat)
    requires i < |ops| && j < |ops| && Filter(c.users, ops[i].users, false) == []
    requires Filter(c.users, ops[j].users, true) == []
    ensures HandledRemove(HandledAdd(ops, c, i), c, j) == ops
  {
  }

  lemma StillElsewhere(a: seq<AstOperation>, b: seq<AstOperation>, d: seq<AstOperation>, c: AstOperation)
    requires Elsewhere(a, b, c) && Elsewhere(b, d, c)
    ensures Elsewhere(a, d, c)
  {
    hide About;
  }

  lemma MeetsMany(ops: seq<AstOperation>, c: AstOperation)
    requires AllClear(ops) && |Matches(ops, c)| > 2
    ensures Meets(ops, c, MergeOp(ops, c))
  {
    MatchesMet(ops, c);
  }

  lemma StepMeets(ops: seq<AstOperation>, c: AstOperation)
    requires AllClear(ops)
    ensures Meets(ops, c, MergeOp(ops, c))
  {
    hide AllClear, Meets, MergeOp, Matches;
    if |Matches(ops, c)| == 0 {
      MeetsNone(ops, c);
    } else if |Matches(ops, c)| == 1 {
      if ops[Matches(ops, c)[0]].action == c.action {
        MeetsSame(ops, c);
      } else if c.IsGroupGrantee() {
        MeetsGroup(ops, c);
      } else {
        MeetsOther(ops, c);
      }
    } else if |Matches(ops, c)| == 2 {
      MeetsTwo(ops, c);
    } else {
      MeetsMany(ops, c);
    }
  }

  // ---- the rules that were met, afterwards ----

  /** A rule with the action of `c` or of one of the rules that are met. */
  ghost predicate ActsLike(o: AstOperation, r: seq<AstOperation>, c: AstOperation)
  {
    o.action == c.action || exists k :: 0 <= k < |r| && o.action == r[k].action
  }

  lemma AfterSound(r: seq<AstOperation>, c: AstOperation)
    requires Sound(r, c)
    ensures Sound(After(r, c), c) && forall o :: o in After(r, c) ==> ActsLike(o, r, c)
  {
    if |r| == 1 {
      if r[0].action != c.action && !c.IsGroupGrantee() {
        AfterOtherSound(r, c);
      } else {
        MoreKeeps(r[0], c);
        assert ActsLike(After(r, c)[0], r, c);
      }
    } else if |r| == 2 {
      AfterTwoSound(r, c);
    }
  }

  lemma AfterOtherSound(r: seq<AstOperation>, c: AstOperation)
    requires Sound(r, c) && |r| == 1 && r[0].action != c.action && !c.IsGroupGrantee()
    ensures Sound(After(r, c), c) && forall o :: o in After(r, c) ==> ActsLike(o, r, c)
  {
    var less := Less(r[0], c);
    LessKeeps(r[0], c);
    assert less != [] ==> ActsLike(less[0], r, c) && Clear(less[0], c);
    assert After(r, c) == less + [c];
    hide Less, Clear, Sound, After, Alike;
    TwoSound(less, [c], r, c);
  }

  lemma AfterTwoSound(r: seq<AstOperation>, c: AstOperation)
    requires Sound(r, c) && |r| == 2
    ensures Sound(After(r, c), c) && forall o :: o in After(r, c) ==> ActsLike(o, r, c)
  {
    assert Clear(r[0], r[1]);
    hide More, Less, Sound;
    if r[1].action == c.action {
      StaysClear(r, c, 1, 0);
      hide Clear, Alike, ActsLike;
      TwoSound(Less(r[0], c), [More(r[1], c)], r, c);
    } else {
      StaysClear(r, c, 0, 1);
      hide Clear, Alike, ActsLike;
      TwoSound([More(r[0], c)], Less(r[1], c), r, c);
    }
  }

  lemma StaysClear(r: seq<AstOperation>, c: AstOperation, add: nat, del: nat)
    requires |r| == 2 && add < 2 && del == 1 - add && Clear(r[0], r[1]) && Alike(r[0], c) && Alike(r[1], c)
    ensures var more, less := More(r[add], c), Less(r[del], c);
            && Alike(more, c) && ActsLike(more, r, c) && |less| <= 1
            && (less != [] ==>
              Alike(less[0], c) && ActsLike(less[0], r, c) && Clear(less[0], more) && Clear(more, less[0]))
  {
    MoreKeeps(r[add], c);
    LessKeeps(r[del], c);
    hide More, Less;
  }

  lemma TwoSound(a: seq<AstOperation>, b: seq<AstOperation>, r: seq<AstOperation>, c: AstOperation)
    requires |a| <= 1 && |b| <= 1
    requires a != [] ==> Alike(a[0], c) && ActsLike(a[0], r, c)
    requires b != [] ==> Alike(b[0], c) && ActsLike(b[0], r, c)
    requires a != [] && b != [] ==> Clear(a[0], b[0])
    ensures Sound(a + b, c) && forall o :: o in a + b ==> ActsLike(o, r, c)
  {
    hide Clear, ActsLike;
    var all := a + b;
    assert |all| == 2 ==> all[0] == a[0] && all[1] == b[0];
  }

  /** They stay as they are exactly if `c` has nothing to change. */
  lemma AfterKept(r: seq<AstOperation>, c: AstOperation)
    requires Sound(r, c)
    ensures After(r, c) == r <==> Kept(r, c)
  {
    if |r| == 1 {
      assert r == [r[0]];
      OneKept(r[0], c);
    } else if |r| == 2 {
      assert Clear(r[0], r[1]);
      var add := if r[1].action == c.action then 1 else 0;
      TwoKept(r, c, add, 1 - add);
      MoreKeeps(r[add], c);
      LessKeeps(r[1 - add], c);
      hide More, Less, Kept;
      TwoSame(r, add, [More(r[add], c)], Less(r[1 - add], c));
    }
  }

  lemma OneKept(o: AstOperation, c: AstOperation)
    requires Alike(o, c)
    ensures After([o], c) == [o] <==> Kept([o], c)
  {
    MoreKeeps(o, c);
    OneSettled(o, c);
    hide Settled, More, Less;
    assert c.action != o.action ==> (Less(o, c) + [c])[|Less(o, c)|] == c;
  }

  lemma TwoSame(r: seq<AstOperation>, add: nat, more: seq<AstOperation>, less: seq<AstOperation>)
    requires |r| == 2 && add < 2 && |more| == 1 && |less| <= 1
    ensures PutAt(PutAt(r, add, more), 1 - add, less) == r <==> more == [r[add]] && less == [r[1 - add]]
  {
    if PutAt(PutAt(r, add, more), 1 - add, less) == r {
      assert |less| == 1;
      assert PutAt(PutAt(r, add, more), 1 - add, less) == if add == 0 then [more[0], less[0]] else [less[0], more[0]];
    }
  }

  /** Meeting `c` once more. */
  lemma AfterAgain(r: seq<AstOperation>, c: AstOperation)
    requires Sound(r, c)
    ensures Kept(After(r, c), c) <==> Repeats(r, c)
  {
    var a := After(r, c);
    assert HasAll(c, c);
    if |r| == 0 {
      assert a[0] == c;
    } else if |r| == 1 {
      MoreKeeps(r[0], c);
      if r[0].action == c.action {
        assert HasAll(a[0], c);
      } else if c.IsGroupGrantee() {
        assert a[0] == c;
      } else {
        assert a[|Less(r[0], c)|] == c;
      }
    } else if |r| == 2 {
      AgainTwo(r, c);
    }
  }

  lemma AgainTwo(r: seq<AstOperation>, c: AstOperation)
    requires Sound(r, c) && |r| == 2
    ensures Kept(After(r, c), c) <==> Repeats(r, c)
  {
    hide More, Less, Alike;
    AlikeTwo(r, c);
    var add := if r[1].action == c.action then 1 else 0;
    MoreKeeps(r[add], c);
    LessKeeps(r[1 - add], c);
    var a, more := After(r, c), More(r[add], c);
    assert a[if add == 1 then |Less(r[0], c)| else 0] == more;
    if r[add].action == c.action {
      assert HasAll(more, c);
    } else {
      assert forall k :: 0 <= k < |a| ==> a[k].action != c.action;
      assert |a| == 2 <==> exists u :: u in r[1].users && u !in c.users;
    }
  }

  lemma AlikeTwo(r: seq<AstOperation>, c: AstOperation)
    requires Sound(r, c) && |r| == 2
    ensures Alike(r[0], c) && Alike(r[1], c) && Clear(r[0], r[1]) && !c.IsGroupGrantee()
  {
    assert Alike(r[0], r[1]);
  }

  // ---- what is said afterwards ----

  lemma SaysMore(ops: seq<AstOperation>, more: seq<AstOperation>, op: Operation, who: Grantee, a: Action)
    ensures Says(ops + more, op, who, a) <==> Says(ops, op, who, a) || Says(more, op, who, a)
  {
    hide Speaks;
    forall j | 0 <= j < |ops| ensures Speaks(ops[j], op, who, a) ==> Says(ops + more, op, who, a) {
      assert (ops + more)[j] == ops[j];
    }
    forall j | 0 <= j < |more| ensures Speaks(more[j], op, who, a) ==> Says(ops + more, op, who, a) {
      assert (ops + more)[|ops| + j] == more[j];
    }
  }

  lemma SaysOne(c: AstOperation, op: Operation, who: Grantee, a: Action)
    ensures Says([c], op, who, a) <==> Speaks(c, op, who, a)
  {
    assert [c][0] == c;
  }

  /** What is said about a grantee is said by the rules about the operation and kind of grantee. */
  lemma SaysAbout(ops: seq<AstOperation>, op: Operation, who: Grantee, a: Action)
    ensures Says(ops, op, who, a) <==> Says(About(ops, op, who.Everyone?), op, who, a)
  {
    AboutIn(ops, op, who.Everyone?);
    hide About;
    SaysIn(ops, op, who, a);
    SaysIn(About(ops, op, who.Everyone?), op, who, a);
    assert forall o :: Speaks(o, op, who, a) ==> IsAbout(o, op, who.Everyone?);
  }

  lemma SaysIn(ops: seq<AstOperation>, op: Operation, who: Grantee, a: Action)
    ensures Says(ops, op, who, a) <==> exists o :: o in ops && Speaks(o, op, who, a)
  {
    hide Speaks;
  }

  /** The action for a grantee that `c` mentions, among the rules it met; if there is one. */
  ghost predicate Wins(r: seq<AstOperation>, c: AstOperation, who: Grantee, a: Action)
  {
    if |r| > 2 then Says(r, c.op, who, a)
    else if |r| == 2 && r[0].action != c.action && r[1].action != c.action then a == r[0].action
    else a == c.action
  }

  lemma AfterSays(r: seq<AstOperation>, c: AstOperation, who: Grantee, a: Action)
    requires Sound(r, c) && who.Everyone? == c.IsGroupGrantee()
    ensures Says(After(r, c), c.op, who, a) <==> if Mentions(c, who) then Wins(r, c, who, a) else Says(r, c.op, who, a)
  {
    SaysOne(c, c.op, who, a);
    if |r| == 1 {
      SaysOne(r[0], c.op, who, a);
      assert r == [r[0]];
      if r[0].action == c.action {
        MoreSays(r[0], c, who, a);
      } else if !c.IsGroupGrantee() {
        LessSays(r[0], c, who, a);
        SaysMore(Less(r[0], c), [c], c.op, who, a);
      }
    } else if |r| == 2 {
      assert Clear(r[0], r[1]);
      SaysMore([r[0]], [r[1]], c.op, who, a);
      assert r == [r[0]] + [r[1]];
      var add := if r[1].action == c.action then 1 else 0;
      MoreSays(r[add], c, who, a);
      LessSays(r[1 - add], c, who, a);
      SaysOne(r[0], c.op, who, a);
      SaysOne(r[1], c.op, who, a);
      SaysMore(Less(r[0], c), [More(r[1], c)], c.op, who, a);
      SaysMore([More(r[0], c)], Less(r[1], c), c.op, who, a);
      hide Says, More, Less;
    } else if r == [] {
    }
  }

  lemma MoreSays(o: AstOperation, c: AstOperation, who: Grantee, a: Action)
    requires Alike(o, c)
    ensures Says([More(o, c)], c.op, who, a) <==> Speaks(o, c.op, who, a) || (a == o.action && Mentions(c, who))
  {
    MoreKeeps(o, c);
    SaysOne(More(o, c), c.op, who, a);
    hide More, Says;
  }

  lemma LessSays(o: AstOperation, c: AstOperation, who: Grantee, a: Action)
    requires Alike(o, c) && !c.IsGroupGrantee()
    ensures Says(Less(o, c), c.op, who, a) <==> Speaks(o, c.op, who, a) && !Mentions(c, who)
  {
    LessKeeps(o, c);
    if Less(o, c) != [] {
      assert Less(o, c) == [Less(o, c)[0]];
      SaysOne(Less(o, c)[0], c.op, who, a);
    }
    hide Less, Says;
    assert Less(o, c) == [] ==> !Says(Less(o, c), c.op, who, a);
  }

  /** After meeting: the grantees of `c` may do what `c` says, everything else is as before. */
  ghost predicate Obeys(r: seq<AstOperation>, c: AstOperation)
  {
    forall who: Grantee, a :: who.Everyone? == c.IsGroupGrantee() ==>
      (Says(After(r, c), c.op, who, a) <==> if Mentions(c, who) then a == c.action else Says(r, c.op, who, a))
  }

  /** Among sound rules: all that `c` says is said exactly if one of them has it all. */
  lemma SettledSays(r: seq<AstOperation>, c: AstOperation)
    requires Sound(r, c)
    ensures Settled(r, c) <==> forall who :: Mentions(c, who) ==> Says(r, c.op, who, c.action)
  {
    if Settled(r, c) {
      var k :| 0 <= k < |r| && HasAll(r[k], c);
      forall who | Mentions(c, who) ensures Says(r, c.op, who, c.action) { assert Speaks(r[k], c.op, who, c.action); }
    }
    if forall who :: Mentions(c, who) ==> Says(r, c.op, who, c.action) {
      var someone := if c.IsGroupGrantee() then Everyone else User(c.users[0]);
      assert Mentions(c, someone);
      var k :| 0 <= k < |r| && Speaks(r[k], c.op, someone, c.action);
      forall u | u in c.users ensures u in r[k].users {
        assert Mentions(c, User(u));
        var j :| 0 <= j < |r| && Speaks(r[j], c.op, User(u), c.action);
        ByAction(r, c, j, k);
      }
      assert HasAll(r[k], c);
    }
  }

  lemma ByAction(r: seq<AstOperation>, c: AstOperation, j: nat, k: nat)
    requires Sound(r, c) && j < |r| && k < |r| && r[j].action == r[k].action
    ensures j == k
  {
    assert j < k ==> Alike(r[j], r[k]);
    assert k < j ==> Alike(r[k], r[j]);
  }

  /** Nothing contradictory is said. */
  lemma SaysOneAction(r: seq<AstOperation>, op: Operation, who: Grantee, a: Action, b: Action)
    requires AllClear(r) && Says(r, op, who, a) && Says(r, op, who, b)
    ensures a == b
  {
    ClearDecided(r);
    hide Says;
  }

  lemma FitsObeys(r: seq<AstOperation>, c: AstOperation)
    requires Sound(r, c)
    ensures Obeys(r, c) <==> Fits(r, c)
  {
    SettledSays(r, c);
    forall who: Grantee, a | who.Everyone? == c.IsGroupGrantee()
      ensures Says(After(r, c), c.op, who, a) <==>
              if Mentions(c, who) then Wins(r, c, who, a) else Says(r, c.op, who, a)
      ensures Says(r, c.op, who, a) && Says(r, c.op, who, c.action) ==> a == c.action
    {
      AfterSays(r, c, who, a);
      if Says(r, c.op, who, a) && Says(r, c.op, who, c.action) { SaysOneAction(r, c.op, who, a, c.action); }
    }
    assert c.users != [] ==> Mentions(c, User(c.users[0]));
    hide Says, After, Settled;
    if |r| == 2 {
      TwoFit(r, c);
    } else if |r| > 2 {
      assert Clear(r[0], r[1]);
    }
  }

  /** Two rules that both have other actions do not obey: the first one gets the users. */
  lemma TwoFit(r: seq<AstOperation>, c: AstOperation)
    requires Sound(r, c) && |r| == 2
    ensures !c.IsGroupGrantee()
    ensures Settled(r, c) ==> r[0].action == c.action || r[1].action == c.action
  {
    assert Clear(r[0], r[1]);
  }

  // ---- all rules of a request ----

  datatype Merge = Merge(ops: seq<AstOperation>, news: seq<AstOperation>, updated: bool)

  /** The rules of a resource and those that go before them after the rules `child` were met in order. */
  function MergeOps(ops: seq<AstOperation>, child: seq<AstOperation>): Merge
  {
    if child == [] then Merge(ops, [], false)
    else
      var last := |child| - 1;
      var m := MergeOps(ops, child[..last]);
      var s := MergeOp(m.ops, child[last]);
      Merge(s.ops, if s.isNew then m.news + [child[last]] else m.news, m.updated || s.updated)
  }

  function MergedOps(ops: seq<AstOperation>, child: seq<AstOperation>): seq<AstOperation>
  {
    MergeOps(ops, child).news + MergeOps(ops, child).ops
  }

  /** The rules about an operation after a merge: those there were, after the one of the request met them. */
  function AfterAll(ops: seq<AstOperation>, child: seq<AstOperation>, op: Operation, group: bool): seq<AstOperation>
  {
    var r, i := About(ops, op, group), LastMatch(child, op, group);
    if i == |child| then r else After(r, child[i])
  }

  /** Some rule of a request changes something and reports it. */
  ghost predicate SomeReported(ops: seq<AstOperation>, child: seq<AstOperation>)
  {
    exists c :: c in child && !Kept(Met(ops, c), c) && !Unreported(Met(ops, c), c)
  }

  /** What holds while the rules of a request are met. */
  ghost predicate Merging(ops: seq<AstOperation>, child: seq<AstOperation>, m: Merge)
  {
    && AllClear(m.ops)
    && (forall op, group :: About(m.news + m.ops, op, group) == AfterAll(ops, child, op, group))
    && (forall op, group :: LastMatch(child, op, group) == |child| ==> About(m.news, op, group) == [])
    && (m.updated <==> SomeReported(ops, child))
  }

  lemma ClearStep(ops: seq<AstOperation>, c: AstOperation)
    requires AllClear(ops)
    ensures AllClear(MergeOp(ops, c).ops)
  {
    var s, r := MergeOp(ops, c), Met(ops, c);
    StepMeets(ops, c);
    SoundMet(ops, c);
    AfterSound(r, c);
    forall op, group ensures AllClear(About(s.ops, op, group)) { AboutClear(ops, op, group); }
    hide AllClear, MergeOp, About;
    ClearAbout(s.ops);
  }

  /** One rule more: what it is about was left alone by the others. */
  lemma MergingNext(ops: seq<AstOperation>, rest: seq<AstOperation>, c: AstOperation, m: Merge)
    requires Merging(ops, rest, m) && Meets(m.ops, c, MergeOp(m.ops, c))
    requires LastMatch(rest, c.op, c.IsGroupGrantee()) == |rest|
    ensures var s := MergeOp(m.ops, c);
            var news := if s.isNew then m.news + [c] else m.news;
            Met(news, c) + Met(s.ops, c) == After(Met(ops, c), c)
  {
    hide MergeOp, LastMatch, About, AllClear, SomeReported, Kept, Unreported;
    MetBefore(ops, rest, c, m);
    AboutJoin(m.news, [c], c.op, c.IsGroupGrantee());
    AboutOne(c, c.op, c.IsGroupGrantee());
    NewAfter(c);
    hide After;
    assert Met(m.news, c) == [] && forall r: seq<AstOperation> :: [] + r == r;
  }

  lemma MergingOther(ops: seq<AstOperation>, rest: seq<AstOperation>, c: AstOperation, m: Merge, op: Operation,
                     group: bool)
    requires Merging(ops, rest, m) && Meets(m.ops, c, MergeOp(m.ops, c)) && !IsAbout(c, op, group)
    ensures var s := MergeOp(m.ops, c);
            var news := if s.isNew then m.news + [c] else m.news;
            && About(news, op, group) == About(m.news, op, group)
            && About(s.ops, op, group) == About(m.ops, op, group)
  {
    hide MergeOp, About, AllClear, SomeReported, Kept, Unreported, AfterAll, After, LastMatch;
    AboutJoin(m.news, [c], op, group);
    AboutOne(c, op, group);
    assert About(m.news, op, group) + [] == About(m.news, op, group);
  }

  lemma MergingStep(ops: seq<AstOperation>, rest: seq<AstOperation>, c: AstOperation, m: Merge, op: Operation,
                    group: bool)
    requires Merging(ops, rest, m) && Meets(m.ops, c, MergeOp(m.ops, c))
    requires LastMatch(rest, c.op, c.IsGroupGrantee()) == |rest|
    ensures var s := MergeOp(m.ops, c);
            var news := if s.isNew then m.news + [c] else m.news;
            && About(news + s.ops, op, group) == AfterAll(ops, rest + [c], op, group)
            && (LastMatch(rest + [c], op, group) == |rest| + 1 ==> About(news, op, group) == [])
  {
    hide MergeOp, About, Meets, After, AllClear, SomeReported, Kept, Unreported;
    var s := MergeOp(m.ops, c);
    var news := if s.isNew then m.news + [c] else m.news;
    AboutJoin(m.news, m.ops, op, group);
    AboutJoin(news, s.ops, op, group);
    LastOf(rest, c, op, group);
    hide LastMatch;
    if IsAbout(c, op, group) {
      MergingNext(ops, rest, c, m);
    } else {
      MergingOther(ops, rest, c, m, op, group);
    }
  }

  lemma LastOf(rest: seq<AstOperation>, c: AstOperation, op: Operation, group: bool)
    ensures var i, k := LastMatch(rest, op, group), LastMatch(rest + [c], op, group);
            if IsAbout(c, op, group) then k == |rest|
            else if i == |rest| then k == |rest| + 1 else k == i && (rest + [c])[k] == rest[i]
    ensures (rest + [c])[|rest|] == c
  {
    var child := rest + [c];
    assert child[..|rest|] == rest && child[..|rest| + 1] == child;
    LastMatchStep(child, |rest|, op, group);
  }

  lemma NewAfter(c: AstOperation)
    ensures After([], c) == [c]
  {
  }

  lemma NoneAbout(child: seq<AstOperation>, c: AstOperation)
    requires Single(child + [c])
    ensures LastMatch(child, c.op, c.IsGroupGrantee()) == |child| && Single(child)
  {
    assert (child + [c])[|child|] == c && forall j :: 0 <= j < |child| ==> (child + [c])[j] == child[j];
  }

  lemma ReportedStep(ops: seq<AstOperation>, rest: seq<AstOperation>, c: AstOperation)
    ensures SomeReported(ops, rest + [c]) <==>
            SomeReported(ops, rest) || (!Kept(Met(ops, c), c) && !Unreported(Met(ops, c), c))
  {
    hide Met, Kept, Unreported;
    assert forall o :: o in rest + [c] <==> o in rest || o == c;
  }

  lemma MetBefore(ops: seq<AstOperation>, rest: seq<AstOperation>, c: AstOperation, m: Merge)
    requires Merging(ops, rest, m) && LastMatch(rest, c.op, c.IsGroupGrantee()) == |rest|
    ensures Met(m.ops, c) == Met(ops, c)
  {
    hide LastMatch, About, After, AllClear, SomeReported;
    AboutJoin(m.news, m.ops, c.op, c.IsGroupGrantee());
  }

  lemma {:induction false} MergeHolds(ops: seq<AstOperation>, child: seq<AstOperation>)
    requires AllClear(ops) && Single(child)
    ensures Merging(ops, child, MergeOps(ops, child))
  {
    if child == [] {
      assert [] + ops == ops;
    } else {
      var rest, c := child[..|child| - 1], child[|child| - 1];
      assert child == rest + [c];
      NoneAbout(rest, c);
      MergeHolds(ops, rest);
      var m := MergeOps(ops, rest);
      MetBefore(ops, rest, c, m);
      StepMeets(m.ops, c);
      ClearStep(m.ops, c);
      ReportedStep(ops, rest, c);
      forall op, group
        ensures About(MergedOps(ops, child), op, group) == AfterAll(ops, child, op, group)
        ensures LastMatch(child, op, group) == |child| ==> About(MergeOps(ops, child).news, op, group) == []
      {
        MergingStep(ops, rest, c, m, op, group);
      }
      hide AllClear, Single, AfterAll, MergeOp, LastMatch, About, SomeReported, Kept, Unreported, Elsewhere;
    }
  }

  /** The rules of a request, each among those it is about, and nothing else. */
  lemma MergedAbout(ops: seq<AstOperation>, child: seq<AstOperation>, op: Operation, group: bool)
    requires AllClear(ops) && Single(child)
    ensures About(MergedOps(ops, child), op, group) == AfterAll(ops, child, op, group)
  {
    hide MergeOps, AfterAll, About;
    MergeHolds(ops, child);
  }

  lemma OfRequest(child: seq<AstOperation>, c: AstOperation)
    requires Single(child) && c in child
    ensures LastMatch(child, c.op, c.IsGroupGrantee()) < |child|
    ensures child[LastMatch(child, c.op, c.IsGroupGrantee())] == c
  {
    var i :| 0 <= i < |child| && child[i] == c;
  }

  lemma MergedMet(ops: seq<AstOperation>, child: seq<AstOperation>, c: AstOperation)
    requires AllClear(ops) && Single(child) && c in child
    ensures Met(MergedOps(ops, child), c) == After(Met(ops, c), c)
  {
    hide MergedOps, About, After, LastMatch, AllClear;
    MergedAbout(ops, child, c.op, c.IsGroupGrantee());
    OfRequest(child, c);
  }

  lemma MergedClear(ops: seq<AstOperation>, child: seq<AstOperation>)
    requires AllClear(ops) && Single(child)
    ensures AllClear(MergedOps(ops, child))
    ensures Known(ops) && Known(child) ==> Known(MergedOps(ops, child))
  {
    var after := MergedOps(ops, child);
    forall op, group
      ensures AllClear(About(after, op, group))
      ensures Known(ops) && Known(child) ==> Known(About(after, op, group))
    {
      hide MergedOps, AllClear;
      MergedAbout(ops, child, op, group);
      AfterAllClear(ops, child, op, group);
    }
    hide AllClear, MergedOps, About;
    ClearAbout(after);
    if Known(ops) && Known(child) { KnownAbout(after); }
  }

  lemma AfterAllClear(ops: seq<AstOperation>, child: seq<AstOperation>, op: Operation, group: bool)
    requires AllClear(ops)
    ensures AllClear(AfterAll(ops, child, op, group))
    ensures Known(ops) && Known(child) ==> Known(AfterAll(ops, child, op, group))
  {
    AboutClear(ops, op, group);
    var r, i := About(ops, op, group), LastMatch(child, op, group);
    if Known(ops) { AboutKnown(ops, op, group); }
    hide About, LastMatch, After, AllClear, Known, ActsLike;
    if i < |child| {
      AfterSound(r, child[i]);
      if Known(ops) && Known(child) { AfterKnown(r, child, i); }
    }
  }

  lemma AboutKnown(ops: seq<AstOperation>, op: Operation, group: bool)
    requires Known(ops)
    ensures Known(About(ops, op, group))
  {
    AboutIn(ops, op, group);
    var r := About(ops, op, group);
    hide About;
    forall k | 0 <= k < |r| ensures r[k].action != Unknown { KnownIn(ops, r[k]); }
  }

  lemma AfterKnown(r: seq<AstOperation>, child: seq<AstOperation>, i: nat)
    requires Known(r) && Known(child) && i < |child|
    requires forall o :: o in After(r, child[i]) ==> ActsLike(o, r, child[i])
    ensures Known(After(r, child[i]))
  {
    var after := After(r, child[i]);
    hide After;
    forall k | 0 <= k < |after| ensures after[k].action != Unknown { assert ActsLike(after[k], r, child[i]); }
  }

  lemma KnownIn(ops: seq<AstOperation>, o: AstOperation)
    requires Known(ops) && o in ops
    ensures o.action != Unknown
  {
  }

  lemma KnownAbout(ops: seq<AstOperation>)
    requires forall op, group :: Known(About(ops, op, group))
    ensures Known(ops)
  {
    forall i | 0 <= i < |ops| ensures ops[i].action != Unknown {
      AboutIn(ops, ops[i].op, ops[i].IsGroupGrantee());
      assert ops[i] in About(ops, ops[i].op, ops[i].IsGroupGrantee());
    }
  }

  // ---- a request overrides ----

  /** After: what `child` is about is as it says, the rest as before. */
  ghost predicate Override(before: seq<AstOperation>, child: seq<AstOperation>, after: seq<AstOperation>)
  {
    forall op, who, a ::
      Says(after, op, who, a) <==> if Covers(child, op, who) then Says(child, op, who, a) else Says(before, op, who, a)
  }

  /** Every rule of a request fits those of the bucket that it meets. */
  ghost predicate AllFit(ops: seq<AstOperation>, child: seq<AstOperation>)
  {
    forall c :: c in child ==> Fits(Met(ops, c), c)
  }

  /** Of single rules, only the one about an operation and kind of grantee says something of them. */
  lemma SingleSays(child: seq<AstOperation>, op: Operation, who: Grantee, a: Action)
    requires Single(child)
    ensures var i := LastMatch(child, op, who.Everyone?);
            && (Covers(child, op, who) <==> i < |child| && Mentions(child[i], who))
            && (Says(child, op, who, a) <==> i < |child| && Mentions(child[i], who) && a == child[i].action)
  {
    var i := LastMatch(child, op, who.Everyone?);
    hide LastMatch;
    assert forall j :: 0 <= j < |child| && child[j].op == op && Mentions(child[j], who) ==> j == i;
    assert i < |child| && Mentions(child[i], who) ==> Speaks(child[i], op, who, child[i].action);
  }

  lemma MergedSays(ops: seq<AstOperation>, child: seq<AstOperation>, op: Operation, who: Grantee, a: Action)
    requires AllClear(ops) && Single(child)
    ensures var i := LastMatch(child, op, who.Everyone?);
            Says(MergedOps(ops, child), op, who, a) <==>
            if i == |child| then Says(ops, op, who, a) else Says(After(Met(ops, child[i]), child[i]), op, who, a)
  {
    hide MergedOps, Says, After, LastMatch, About, AllClear;
    MergedAbout(ops, child, op, who.Everyone?);
    SaysAbout(MergedOps(ops, child), op, who, a);
    SaysAbout(ops, op, who, a);
  }

  lemma MergedOverrides(ops: seq<AstOperation>, child: seq<AstOperation>)
    requires AllClear(ops) && Single(child)
    ensures Override(ops, child, MergedOps(ops, child)) <==> AllFit(ops, child)
  {
    var after := MergedOps(ops, child);
    if AllFit(ops, child) {
      forall op, who, a
        ensures Says(after, op, who, a) <==> if Covers(child, op, who) then Says(child, op, who, a)
                                             else Says(ops, op, who, a)
      {
        FitSays(ops, child, op, who, a);
      }
    }
    if Override(ops, child, after) {
      forall c | c in child ensures Fits(Met(ops, c), c) {
        OverrideFits(ops, child, c);
      }
    }
  }

  lemma FitSays(ops: seq<AstOperation>, child: seq<AstOperation>, op: Operation, who: Grantee, a: Action)
    requires AllClear(ops) && Single(child) && AllFit(ops, child)
    ensures Says(MergedOps(ops, child), op, who, a) <==>
            if Covers(child, op, who) then Says(child, op, who, a) else Says(ops, op, who, a)
  {
    hide MergedOps, Says, Covers, After, LastMatch, About, AllClear, Fits;
    MergedSays(ops, child, op, who, a);
    SingleSays(child, op, who, a);
    var i := LastMatch(child, op, who.Everyone?);
    if i < |child| {
      SoundMet(ops, child[i]);
      FitsObeys(Met(ops, child[i]), child[i]);
      assert child[i] in child;
      SaysAbout(ops, op, who, a);
    }
  }

  lemma OverrideFits(ops: seq<AstOperation>, child: seq<AstOperation>, c: AstOperation)
    requires AllClear(ops) && Single(child) && Override(ops, child, MergedOps(ops, child)) && c in child
    ensures Fits(Met(ops, c), c)
  {
    hide MergedOps, Says, Covers, After, LastMatch, About, AllClear, Fits;
    OfRequest(child, c);
    var r := Met(ops, c);
    forall who: Grantee, a | who.Everyone? == c.IsGroupGrantee()
      ensures Says(After(r, c), c.op, who, a) <==> if Mentions(c, who) then a == c.action else Says(r, c.op, who, a)
    {
      MergedSays(ops, child, c.op, who, a);
      SingleSays(child, c.op, who, a);
      SaysAbout(ops, c.op, who, a);
    }
    SoundMet(ops, c);
    FitsObeys(r, c);
  }

  /** After: the grantees of `c` may do what `c` says, everything else is as before. */
  ghost predicate Overrides(before: seq<AstOperation>, c: AstOperation, after: seq<AstOperation>)
  {
    forall op, who, a ::
      Says(after, op, who, a) <==> if op == c.op && Mentions(c, who) then a == c.action else Says(before, op, who, a)
  }

  /**
   One rule of a request overrides what a resource has exactly if it fits, or nothing there is about its
   operation and kind of grantee; in any case no contradictions come up.
   */
  lemma StepOverrides(ops: seq<AstOperation>, c: AstOperation)
    requires Whole(ops)
    ensures Whole(MergeOp(ops, c).ops)
    ensures MergeOp(ops, c).isNew <==> forall j :: 0 <= j < |ops| ==> !Alike(ops[j], c)
    ensures MergeOp(ops, c).isNew ==> MergeOp(ops, c).ops == ops
    ensures !MergeOp(ops, c).isNew ==> (Overrides(ops, c, MergeOp(ops, c).ops) <==> Fits(Met(ops, c), c))
  {
    WholeClear(ops);
    ClearStep(ops, c);
    WholeClear(MergeOp(ops, c).ops);
    StepMeets(ops, c);
    AboutIn(ops, c.op, c.IsGroupGrantee());
    hide Whole, AllClear, MergeOp, About, Overrides, Kept, Unreported;
    NoneMet(ops, c);
    if !MergeOp(ops, c).isNew {
      OneOverrides(ops, c);
    }
  }

  lemma NoneMet(ops: seq<AstOperation>, c: AstOperation)
    ensures Met(ops, c) == [] <==> forall j :: 0 <= j < |ops| ==> !Alike(ops[j], c)
  {
    AboutIn(ops, c.op, c.IsGroupGrantee());
    hide About;
    assert Met(ops, c) != [] ==> Met(ops, c)[0] in Met(ops, c);
    assert forall j :: 0 <= j < |ops| && Alike(ops[j], c) ==> ops[j] in Met(ops, c);
  }

  lemma OneOverrides(ops: seq<AstOperation>, c: AstOperation)
    requires AllClear(ops) && !MergeOp(ops, c).isNew
    ensures Overrides(ops, c, MergeOp(ops, c).ops) <==> Fits(Met(ops, c), c)
  {
    hide MergeOp, AllClear, Fits, Override, Overrides, Met;
    MergedOverrides(ops, [c]);
    assert [c][..0] == [] && MergeOps(ops, []) == Merge(ops, [], false);
    assert MergeOps(ops, [c]) == Merge(MergeOp(ops, c).ops, [], MergeOp(ops, c).updated);
    assert [] + MergeOp(ops, c).ops == MergeOp(ops, c).ops;
    assert AllFit(ops, [c]) <==> Fits(Met(ops, c), c) by { assert c in [c]; }
    OverrideOne(ops, c, MergeOp(ops, c).ops);
  }

  lemma OverrideOne(before: seq<AstOperation>, c: AstOperation, after: seq<AstOperation>)
    ensures Override(before, [c], after) <==> Overrides(before, c, after)
  {
    hide Says, Covers;
    if Override(before, [c], after) {
      forall op, who, a
        ensures Says(after, op, who, a) <==>
                if op == c.op && Mentions(c, who) then a == c.action else Says(before, op, who, a)
      {
        OneSays(c, op, who, a);
      }
    }
    if Overrides(before, c, after) {
      forall op, who, a
        ensures Says(after, op, who, a) <==>
                if Covers([c], op, who) then Says([c], op, who, a) else Says(before, op, who, a)
      {
        OneSays(c, op, who, a);
      }
    }
  }

  lemma OneSays(c: AstOperation, op: Operation, who: Grantee, a: Action)
    ensures Covers([c], op, who) <==> op == c.op && Mentions(c, who)
    ensures Says([c], op, who, a) <==> op == c.op && Mentions(c, who) && a == c.action
  {
    SaysOne(c, op, who, a);
    assert [c][0] == c;
  }

  /** With allowed and denied only, every rule fits. */
  lemma KnownFits(ops: seq<AstOperation>, child: seq<AstOperation>)
    requires Tidy(ops) && Known(child)
    ensures AllFit(ops, child)
  {
    WholeClear(ops);
    forall c | c in child ensures Fits(Met(ops, c), c) {
      SoundMet(ops, c);
      AboutKnown(ops, c.op, c.IsGroupGrantee());
      KnownIn(child, c);
      KnownRulesFit(Met(ops, c), c);
    }
  }

  lemma KnownRulesFit(r: seq<AstOperation>, c: AstOperation)
    requires Known(r) && c.action != Unknown && Sound(r, c)
    ensures Fits(r, c)
  {
    if |r| >= 2 {
      TwoActions(r, c);
      if r[0].action == r[1].action { ByAction(r, c, 0, 1); }
    }
  }

  lemma TwoActions(r: seq<AstOperation>, c: AstOperation)
    requires Known(r) && Sound(r, c)
    ensures |r| <= 2
  {
    if |r| > 2 {
      if r[0].action == r[1].action {
        ByAction(r, c, 0, 1);
      } else if r[0].action == r[2].action {
        ByAction(r, c, 0, 2);
      } else {
        ByAction(r, c, 1, 2);
      }
    }
  }

  /** So it does where the bucket has only one rule that it meets. */
  lemma SingleFits(ops: seq<AstOperation>, child: seq<AstOperation>)
    requires Single(ops)
    ensures AllFit(ops, child)
  {
    forall c | c in child ensures Fits(Met(ops, c), c) {
      MatchesMet(ops, c);
      var m := Matches(ops, c);
      assert |m| > 1 ==> Alike(ops[m[0]], ops[m[1]]);
    }
  }

  // ---- all resources ----

  /** The first resource with an info, or the length if there is none. */
  function Find(rs: seq<Resource>, info: ResourceInfo): (i: nat)
    ensures i <= |rs| && (i < |rs| ==> rs[i].info == info)
    ensures forall j :: 0 <= j < i ==> rs[j].info != info
  {
    if rs == [] || rs[0].info == info then 0 else 1 + Find(rs[1..], info)
  }

  function Lookup(rs: seq<Resource>, info: ResourceInfo): seq<AstOperation>
  {
    var i := Find(rs, info);
    if i == |rs| then [] else rs[i].operations
  }

  function WithResource(rs: seq<Resource>, r: Resource): seq<Resource>
  {
    var i := Find(rs, r.info);
    if i == |rs| then rs + [r] else rs[i := Resource(r.info, MergedOps(rs[i].operations, r.operations))]
  }

  predicate ReportsResource(rs: seq<Resource>, r: Resource)
  {
    var i := Find(rs, r.info);
    i == |rs| || MergeOps(rs[i].operations, r.operations).updated
  }

  function MergedAst(parent: seq<Resource>, child: seq<Resource>): seq<Resource>
  {
    if child == [] then parent
    else WithResource(MergedAst(parent, child[..|child| - 1]), child[|child| - 1])
  }

  predicate Updated(parent: seq<Resource>, child: seq<Resource>)
  {
    child != [] &&
    (Updated(parent, child[..|child| - 1]) ||
     ReportsResource(MergedAst(parent, child[..|child| - 1]), child[|child| - 1]))
  }

  ghost predicate WholeAst(rs: seq<Resource>)
  {
    forall i :: 0 <= i < |rs| ==> Whole(rs[i].operations)
  }

  ghost predicate DistinctInfos(rs: seq<Resource>)
  {
    forall i, j :: 0 <= i < |rs| && 0 <= j < |rs| && rs[i].info == rs[j].info ==> i == j
  }

  /** The last resource of a request that is about an operation of a grantee has the say, or else the bucket. */
  ghost predicate LastWord(parent: seq<Resource>, child: seq<Resource>, info: ResourceInfo, op: Operation, who: Grantee,
                           a: Action)
  {
    if child == [] then Says(Lookup(parent, info), op, who, a)
    else
      var r := child[|child| - 1];
      if r.info == info && Covers(r.operations, op, who) then Says(r.operations, op, who, a)
      else LastWord(parent, child[..|child| - 1], info, op, who, a)
  }

  /** Every decision after a merge is that of the request where it has one, and that of the bucket elsewhere. */
  ghost predicate Overriding(parent: seq<Resource>, child: seq<Resource>)
  {
    forall info, op, who, a ::
      Says(Lookup(MergedAst(parent, child), info), op, who, a) <==> LastWord(parent, child, info, op, who, a)
  }

  /** The bucket that resource `k` of a request is merged into. */
  function Until(parent: seq<Resource>, child: seq<Resource>, k: nat): seq<Resource>
    requires k <= |child|
  {
    MergedAst(parent, child[..k])
  }

  /** Every rule of a request fits what there is when it is met. */
  ghost predicate FitAst(parent: seq<Resource>, child: seq<Resource>)
  {
    forall k :: 0 <= k < |child| ==> AllFit(Lookup(Until(parent, child, k), child[k].info), child[k].operations)
  }

  lemma LookupAppended(rs: seq<Resource>, r: Resource, info: ResourceInfo)
    requires Find(rs, r.info) == |rs|
    ensures Lookup(rs + [r], info) == if info == r.info then r.operations else Lookup(rs, info)
  {
    var all := rs + [r];
    assert forall j :: 0 <= j < |rs| ==> all[j] == rs[j];
    assert all[|rs|] == r;
    var i, k := Find(rs, info), Find(all, info);
    assert k < |rs| ==> i == k;
    assert i < |rs| ==> k == i;
  }

  lemma LookupSet(rs: seq<Resource>, k: nat, r: Resource, info: ResourceInfo)
    requires k == Find(rs, r.info) < |rs|
    ensures Lookup(rs[k := r], info) == if info == r.info then r.operations else Lookup(rs, info)
  {
    var all := rs[k := r];
    assert forall j :: 0 <= j < |rs| ==> all[j].info == rs[j].info && (j != k ==> all[j] == rs[j]);
    var i, l := Find(rs, info), Find(all, info);
    assert i == l;
  }

  lemma NewToNone(c: AstOperation)
    ensures MergeOp([], c) == Step([], true, true)
  {
  }

  lemma {:induction false} MergedIntoNone(child: seq<AstOperation>)
    ensures MergeOps([], child) == Merge([], child, child != [])
  {
    hide MergeOp;
    if child != [] {
      var rest, c := child[..|child| - 1], child[|child| - 1];
      MergedIntoNone(rest);
      NewToNone(c);
      assert child == rest + [c];
    }
  }

  lemma MergedWithNone(ops: seq<AstOperation>)
    ensures MergedOps(ops, []) == ops
  {
  }

  /** A resource of a request is merged into the one of the bucket, and all others stay. */
  lemma WithLookup(rs: seq<Resource>, r: Resource, info: ResourceInfo)
    ensures Lookup(WithResource(rs, r), info) ==
            if info == r.info then MergedOps(Lookup(rs, info), r.operations) else Lookup(rs, info)
  {
    var i := Find(rs, r.info);
    if i == |rs| {
      MergedIntoNone(r.operations);
      assert MergedOps([], r.operations) == r.operations;
      LookupAppended(rs, r, info);
    } else {
      LookupSet(rs, i, Resource(r.info, MergedOps(rs[i].operations, r.operations)), info);
    }
  }

  /** Resources stay, and that of a request is there afterwards. */
  lemma WithFound(rs: seq<Resource>, r: Resource, info: ResourceInfo)
    ensures Find(WithResource(rs, r), info) < |WithResource(rs, r)| <==> info == r.info || Find(rs, info) < |rs|
  {
    hide MergedOps;
    var after := WithResource(rs, r);
    assert forall j :: 0 <= j < |rs| ==> after[j].info == rs[j].info;
    assert Find(rs, r.info) == |rs| ==> after[|rs|] == r;
    assert Find(rs, r.info) < |rs| ==> after[Find(rs, r.info)].info == r.info;
    var i, k := Find(rs, info), Find(after, info);
    assert i < |rs| ==> after[i].info == info;
    assert k < |rs| ==> rs[k].info == info;
  }

  lemma WithWhole(rs: seq<Resource>, r: Resource)
    requires WholeAst(rs) && Single(r.operations)
    ensures WholeAst(WithResource(rs, r))
    ensures KnownAst(rs) && Known(r.operations) ==> KnownAst(WithResource(rs, r))
  {
    var i := Find(rs, r.info);
    SingleClear(r.operations);
    WholeClear(r.operations);
    if i < |rs| {
      var merged := MergedOps(rs[i].operations, r.operations);
      WholeClear(rs[i].operations);
      MergedClear(rs[i].operations, r.operations);
      WholeClear(merged);
      hide Whole, Known, MergedOps, Single;
    }
    hide Whole, Known, MergedOps, Single;
  }

  lemma SingleClear(ops: seq<AstOperation>)
    requires Single(ops)
    ensures AllClear(ops)
  {
  }

  lemma {:induction false} MergedWhole(parent: seq<Resource>, child: seq<Resource>)
    requires WholeAst(parent) && SingleAst(child)
    ensures WholeAst(MergedAst(parent, child))
    ensures KnownAst(parent) && KnownAst(child) ==> KnownAst(MergedAst(parent, child))
  {
    hide Whole, Known, Single, WithResource;
    if child != [] {
      MergedWhole(parent, child[..|child| - 1]);
      WithWhole(MergedAst(parent, child[..|child| - 1]), child[|child| - 1]);
    }
  }

  lemma WholeLookup(rs: seq<Resource>, info: ResourceInfo)
    requires WholeAst(rs)
    ensures AllClear(Lookup(rs, info))
  {
    WholeClear(Lookup(rs, info));
    hide Whole;
  }

  lemma SingleLookup(rs: seq<Resource>, info: ResourceInfo)
    requires SingleAst(rs)
    ensures Single(Lookup(rs, info))
  {
    assert Single([]);
    hide Single;
  }

  lemma {:induction false} FitOverrides(parent: seq<Resource>, child: seq<Resource>)
    requires WholeAst(parent) && SingleAst(child) && FitAst(parent, child)
    ensures Overriding(parent, child)
  {
    hide Whole, Single, Says, Covers, WithResource, AllFit, Lookup;
    if child != [] {
      var last := |child| - 1;
      var rest, r := child[..last], child[last];
      forall k | 0 <= k < last ensures child[..k] == rest[..k] && child[k] == rest[k] {}
      FitOverrides(parent, rest);
      MergedWhole(parent, rest);
      var rs := MergedAst(parent, rest);
      assert AllFit(Lookup(rs, r.info), r.operations);
      WholeLookup(rs, r.info);
      MergedOverrides(Lookup(rs, r.info), r.operations);
      hide AllClear, FitAst, MergedOps;
      forall info ensures Lookup(MergedAst(parent, child), info) ==
                          if info == r.info then MergedOps(Lookup(rs, info), r.operations) else Lookup(rs, info)
      {
        WithLookup(rs, r, info);
      }
    }
  }

  // ---- requests with one resource per info ----

  lemma {:induction false} DistinctLookup(parent: seq<Resource>, child: seq<Resource>, info: ResourceInfo)
    requires DistinctInfos(child)
    ensures Lookup(MergedAst(parent, child), info) == MergedOps(Lookup(parent, info), Lookup(child, info))
    ensures Find(MergedAst(parent, child), info) < |MergedAst(parent, child)| <==>
            Find(parent, info) < |parent| || Find(child, info) < |child|
  {
    hide WithResource, MergedOps;
    if child == [] {
      MergedWithNone(Lookup(parent, info));
    } else {
      var rest, r := child[..|child| - 1], child[|child| - 1];
      assert child == rest + [r];
      DistinctLookup(parent, rest, info);
      WithLookup(MergedAst(parent, rest), r, info);
      WithFound(MergedAst(parent, rest), r, info);
      LastApart(rest, r);
      LookupAppended(rest, r, info);
      FindAppended(rest, r, info);
      MergedWithNone(Lookup(parent, info));
    }
  }

  lemma LastApart(rest: seq<Resource>, r: Resource)
    requires DistinctInfos(rest + [r])
    ensures DistinctInfos(rest) && Find(rest, r.info) == |rest|
  {
    var all := rest + [r];
    assert forall j :: 0 <= j < |rest| ==> all[j] == rest[j];
    assert all[|rest|] == r;
  }

  lemma FindAppended(rs: seq<Resource>, r: Resource, info: ResourceInfo)
    ensures Find(rs + [r], info) < |rs| + 1 <==> info == r.info || Find(rs, info) < |rs|
  {
    var all := rs + [r];
    assert forall j :: 0 <= j < |rs| ==> all[j] == rs[j];
    assert all[|rs|] == r;
    var i, k := Find(rs, info), Find(all, info);
    assert k < |rs| ==> rs[k].info == info;
    assert i < |rs| ==> all[i].info == info;
  }

  lemma {:induction false} DistinctWord(parent: seq<Resource>, child: seq<Resource>, info: ResourceInfo, op: Operation,
                                        who: Grantee, a: Action)
    requires DistinctInfos(child)
    ensures LastWord(parent, child, info, op, who, a) <==>
            if Covers(Lookup(child, info), op, who) then Says(Lookup(child, info), op, who, a)
            else Says(Lookup(parent, info), op, who, a)
  {
    if child != [] {
      hide Says;
      var rest, r := child[..|child| - 1], child[|child| - 1];
      assert child == rest + [r];
      LastApart(rest, r);
      LookupAppended(rest, r, info);
      DistinctWord(parent, rest, info, op, who, a);
    }
  }

  lemma LookupAt(rs: seq<Resource>, k: nat)
    requires DistinctInfos(rs) && k < |rs|
    ensures Find(rs, rs[k].info) == k && Lookup(rs, rs[k].info) == rs[k].operations
  {
  }

  lemma NotBefore(rs: seq<Resource>, k: nat)
    requires DistinctInfos(rs) && k < |rs|
    ensures Find(rs[..k], rs[k].info) == k
  {
    assert forall j :: 0 <= j < k ==> rs[..k][j] == rs[j];
  }

  /** With one resource per info, a resource of a request is merged into what the bucket had. */
  lemma BeforeMeets(parent: seq<Resource>, child: seq<Resource>, k: nat)
    requires DistinctInfos(child) && k < |child|
    ensures var rs := Until(parent, child, k);
            && Lookup(rs, child[k].info) == Lookup(parent, child[k].info)
            && (Find(rs, child[k].info) < |rs| <==> Find(parent, child[k].info) < |parent|)
  {
    hide MergedAst, MergedOps;
    assert DistinctInfos(child[..k]) by { assert forall j :: 0 <= j < k ==> child[..k][j] == child[j]; }
    DistinctLookup(parent, child[..k], child[k].info);
    NotBefore(child, k);
    NotThere(child[..k], child[k].info);
    MergedWithNone(Lookup(parent, child[k].info));
  }

  lemma NotThere(rs: seq<Resource>, info: ResourceInfo)
    requires Find(rs, info) == |rs|
    ensures Lookup(rs, info) == []
  {
  }

  /** What fits the bucket fits when it is met. */
  lemma FitBefore(parent: seq<Resource>, child: seq<Resource>)
    requires DistinctInfos(child)
    ensures FitAst(parent, child) <==>
            forall k :: 0 <= k < |child| ==> AllFit(Lookup(parent, child[k].info), child[k].operations)
  {
    hide AllFit, Lookup, MergedAst, Find;
    forall k | 0 <= k < |child|
      ensures Lookup(Until(parent, child, k), child[k].info) == Lookup(parent, child[k].info)
    {
      BeforeMeets(parent, child, k);
    }
  }

  lemma OverridingFits(parent: seq<Resource>, child: seq<Resource>)
    requires WholeAst(parent) && SingleAst(child) && DistinctInfos(child) && Overriding(parent, child)
    ensures FitAst(parent, child)
  {
    hide Whole, Single, WholeAst, SingleAst, Says, Covers, AllFit, AllClear, MergedAst, Lookup, Find, DistinctInfos,
      FitAst, MergedOps, LastWord;
    FitBefore(parent, child);
    forall k | 0 <= k < |child| ensures AllFit(Lookup(parent, child[k].info), child[k].operations) {
      var info := child[k].info;
      DistinctLookup(parent, child, info);
      LookupAt(child, k);
      WholeLookup(parent, info);
      SingleLookup(child, info);
      forall op, who, a
        ensures LastWord(parent, child, info, op, who, a) <==>
                if Covers(child[k].operations, op, who) then Says(child[k].operations, op, who, a)
                else Says(Lookup(parent, info), op, who, a)
      {
        DistinctWord(parent, child, info, op, who, a);
      }
      MergedOverrides(Lookup(parent, info), child[k].operations);
    }
  }

  /**
   Merging overrides, whatever the actions of rules: every decision is that of the request where it has one, and
   that of the bucket elsewhere, exactly if every rule of the request fits. No contradictions come up in any case.
   */
  lemma MergeAstOverrides(parent: seq<Resource>, child: seq<Resource>)
    requires WholeAst(parent) && SingleAst(child)
    ensures WholeAst(MergedAst(parent, child))
    ensures KnownAst(parent) && KnownAst(child) ==> KnownAst(MergedAst(parent, child))
    ensures FitAst(parent, child) ==> Overriding(parent, child)
    ensures DistinctInfos(child) ==> (Overriding(parent, child) <==> FitAst(parent, child))
    ensures DistinctInfos(child) ==>
              (FitAst(parent, child) <==>
               forall k :: 0 <= k < |child| ==> AllFit(Lookup(parent, child[k].info), child[k].operations))
  {
    hide Overriding, FitAst, AllFit, Lookup, MergedAst, WholeAst, SingleAst, KnownAst, DistinctInfos;
    MergedWhole(parent, child);
    if FitAst(parent, child) { FitOverrides(parent, child); }
    if DistinctInfos(child) {
      FitBefore(parent, child);
      if Overriding(parent, child) { OverridingFits(parent, child); }
    }
  }

  /** With allowed and denied only, every request fits. */
  lemma {:induction false} KnownAstFits(parent: seq<Resource>, child: seq<Resource>)
    requires WholeAst(parent) && KnownAst(parent) && SingleAst(child) && KnownAst(child)
    ensures FitAst(parent, child)
  {
    forall k | 0 <= k < |child|
      ensures AllFit(Lookup(Until(parent, child, k), child[k].info), child[k].operations)
    {
      var rest := child[..k];
      assert forall j :: 0 <= j < k ==> rest[j] == child[j];
      MergedWhole(parent, rest);
      EmptyTidy();
      assert Tidy(Lookup(MergedAst(parent, rest), child[k].info));
      KnownFits(Lookup(MergedAst(parent, rest), child[k].info), child[k].operations);
    }
  }

  lemma EmptyTidy()
    ensures Tidy([])
  {
  }

  /** So does every request where the bucket has one rule per operation for users and one for everyone. */
  lemma SingleAstFits(parent: seq<Resource>, child: seq<Resource>)
    requires SingleAst(parent) && DistinctInfos(child)
    ensures FitAst(parent, child)
  {
    FitBefore(parent, child);
    forall k | 0 <= k < |child| ensures AllFit(Lookup(parent, child[k].info), child[k].operations) {
      SingleLookup(parent, child[k].info);
      SingleFits(Lookup(parent, child[k].info), child[k].operations);
    }
  }

  lemma SingleWhole(rs: seq<Resource>)
    requires SingleAst(rs)
    ensures WholeAst(rs)
  {
    forall i | 0 <= i < |rs| ensures Whole(rs[i].operations) {
      SingleClear(rs[i].operations);
      WholeClear(rs[i].operations);
    }
  }

  // ---- what changes and what is reported ----

  /** A resource that is new to the bucket, or has a rule whose change is reported. */
  ghost predicate Reports(rs: seq<Resource>, r: Resource)
  {
    Find(rs, r.info) == |rs| || SomeReported(Lookup(rs, r.info), r.operations)
  }

  /** A resource that the bucket has and whose rules have nothing to change. */
  ghost predicate KeptResource(rs: seq<Resource>, r: Resource)
  {
    Find(rs, r.info) < |rs| && forall c :: c in r.operations ==> Kept(Met(Lookup(rs, r.info), c), c)
  }

  lemma {:induction false} AllKept(ops: seq<AstOperation>, child: seq<AstOperation>)
    requires AllClear(ops) && forall c :: c in child ==> Kept(Met(ops, c), c)
    ensures MergeOps(ops, child) == Merge(ops, [], false) && MergedOps(ops, child) == ops
  {
    hide Kept, AllClear, MergeOp, Met;
    if child != [] {
      AllKept(ops, child[..|child| - 1]);
      StepMeets(ops, child[|child| - 1]);
      assert child[|child| - 1] in child;
    }
  }

  lemma ResourceReports(rs: seq<Resource>, r: Resource)
    requires WholeAst(rs) && Single(r.operations)
    ensures ReportsResource(rs, r) <==> Reports(rs, r)
    ensures KeptResource(rs, r) ==> WithResource(rs, r) == rs && !ReportsResource(rs, r)
  {
    hide WholeAst, Whole, AllClear, Kept, Met, SomeReported, MergeOps, About, AfterAll;
    var i := Find(rs, r.info);
    WholeLookup(rs, r.info);
    if i < |rs| {
      MergeHolds(rs[i].operations, r.operations);
      if KeptResource(rs, r) {
        AllKept(rs[i].operations, r.operations);
        assert rs[i := rs[i]] == rs;
      }
    }
  }

  lemma {:induction false} KeptAst(rs: seq<Resource>, child: seq<Resource>)
    requires WholeAst(rs) && SingleAst(child) && forall k :: 0 <= k < |child| ==> KeptResource(rs, child[k])
    ensures MergedAst(rs, child) == rs && !Updated(rs, child)
  {
    hide KeptResource, WithResource, ReportsResource, Single, Whole, Reports;
    if child != [] {
      KeptAst(rs, child[..|child| - 1]);
      ResourceReports(rs, child[|child| - 1]);
    }
  }

  // ---- merges that report nothing ----

  /** A resource that the bucket has, of which every rule has nothing to change or makes an unreported change. */
  ghost predicate Quiet(rs: seq<Resource>, r: Resource)
  {
    && Find(rs, r.info) < |rs|
    && forall c :: c in r.operations ==>
      Kept(Met(Lookup(rs, r.info), c), c) || Unreported(Met(Lookup(rs, r.info), c), c)
  }

  ghost predicate SomeUnreported(rs: seq<Resource>, r: Resource)
  {
    exists c :: c in r.operations && Unreported(Met(Lookup(rs, r.info), c), c)
  }

  lemma QuietIs(rs: seq<Resource>, r: Resource)
    ensures Quiet(rs, r) <==> !Reports(rs, r)
    ensures KeptResource(rs, r) <==> Quiet(rs, r) && !SomeUnreported(rs, r)
  {
    forall c ensures Unreported(Met(Lookup(rs, r.info), c), c) ==> !Kept(Met(Lookup(rs, r.info), c), c) {
      UnreportedChanges(Met(Lookup(rs, r.info), c), c);
    }
    hide Kept, Unreported, Met, Lookup, Find;
  }

  lemma UnreportedChanges(r: seq<AstOperation>, c: AstOperation)
    ensures Unreported(r, c) ==> !Kept(r, c)
  {
  }

  /** Such a rule is added behind the others, or nothing happens. */
  lemma QuietStep(ops: seq<AstOperation>, c: AstOperation)
    requires AllClear(ops) && (Kept(Met(ops, c), c) || Unreported(Met(ops, c), c))
    ensures !MergeOp(ops, c).isNew
    ensures MergeOp(ops, c).ops == if Unreported(Met(ops, c), c) then ops + [c] else ops
  {
    hide AllClear, MergeOp, Matches, About, Kept;
    UnreportedChanges(Met(ops, c), c);
    StepMeets(ops, c);
    MatchesMet(ops, c);
    if Unreported(Met(ops, c), c) {
      var i := Matches(ops, c)[0];
      OtherIs(ops, c);
      MetAlike(ops, c);
      LessKeeps(ops[i], c);
      PutOne(ops, i, ops[i]);
    }
  }

  lemma MetAlike(ops: seq<AstOperation>, c: AstOperation)
    ensures forall k :: 0 <= k < |Matches(ops, c)| ==> Alike(ops[Matches(ops, c)[k]], c)
  {
  }

  /** Rules become no fewer, and more if one is added. */
  lemma {:induction false} QuietMerge(ops: seq<AstOperation>, child: seq<AstOperation>)
    requires AllClear(ops) && Single(child)
    requires forall c :: c in child ==> Kept(Met(ops, c), c) || Unreported(Met(ops, c), c)
    ensures MergeOps(ops, child).news == [] && |ops| <= |MergeOps(ops, child).ops|
    ensures (exists c :: c in child && Unreported(Met(ops, c), c)) ==> |ops| < |MergeOps(ops, child).ops|
  {
    hide AllClear, Single, MergeOp, Met, Kept, Unreported, Merging;
    if child != [] {
      var rest, c := child[..|child| - 1], child[|child| - 1];
      assert child == rest + [c];
      assert forall o :: o in child <==> o in rest || o == c;
      NoneAbout(rest, c);
      QuietMerge(ops, rest);
      MergeHolds(ops, rest);
      var m := MergeOps(ops, rest);
      MetBefore(ops, rest, c, m);
      MergingClear(ops, rest, m);
      QuietStep(m.ops, c);
    }
  }

  lemma MergingClear(ops: seq<AstOperation>, child: seq<AstOperation>, m: Merge)
    requires Merging(ops, child, m)
    ensures AllClear(m.ops)
  {
  }

  ghost predicate NoFewer(a: seq<Resource>, b: seq<Resource>)
  {
    |a| == |b| && forall i :: 0 <= i < |a| ==> |a[i].operations| <= |b[i].operations|
  }

  ghost predicate SomeMore(a: seq<Resource>, b: seq<Resource>)
    requires |a| == |b|
  {
    exists i :: 0 <= i < |a| && |a[i].operations| < |b[i].operations|
  }

  lemma QuietWith(rs: seq<Resource>, r: Resource)
    requires WholeAst(rs) && Single(r.operations) && Quiet(rs, r)
    ensures NoFewer(rs, WithResource(rs, r))
    ensures SomeUnreported(rs, r) ==> SomeMore(rs, WithResource(rs, r))
  {
    hide WholeAst, Single, AllClear, Kept, Unreported, Met, MergeOps;
    var i := Find(rs, r.info);
    WholeLookup(rs, r.info);
    QuietMerge(rs[i].operations, r.operations);
    assert WithResource(rs, r)[i].operations == MergedOps(rs[i].operations, r.operations);
  }

  lemma StillMore(a: seq<Resource>, b: seq<Resource>, c: seq<Resource>)
    requires NoFewer(a, b) && NoFewer(b, c)
    ensures NoFewer(a, c) && (SomeMore(a, b) || SomeMore(b, c) ==> SomeMore(a, c))
  {
  }

  lemma UntilRest(parent: seq<Resource>, child: seq<Resource>)
    requires child != []
    ensures var last := |child| - 1;
            && Until(parent, child, last) == MergedAst(parent, child[..last])
            && MergedAst(parent, child) == WithResource(Until(parent, child, last), child[last])
            && forall k :: 0 <= k < last ==>
              Until(parent, child, k) == Until(parent, child[..last], k) && child[k] == child[..last][k]
  {
    hide WithResource;
    UntilSame(parent, child);
  }

  lemma NoneMerged(parent: seq<Resource>)
    ensures MergedAst(parent, []) == parent
  {
  }

  lemma UntilSame(parent: seq<Resource>, child: seq<Resource>)
    requires child != []
    ensures forall k :: 0 <= k < |child| - 1 ==>
              Until(parent, child, k) == Until(parent, child[..|child| - 1], k) && child[k] == child[..|child| - 1][k]
  {
    hide MergedAst;
    var last := |child| - 1;
    forall k | 0 <= k < last ensures child[..k] == child[..last][..k] {}
  }

  ghost predicate QuietRun(parent: seq<Resource>, child: seq<Resource>)
  {
    forall k :: 0 <= k < |child| ==> Quiet(Until(parent, child, k), child[k])
  }

  ghost predicate UnreportedRun(parent: seq<Resource>, child: seq<Resource>)
  {
    exists k :: 0 <= k < |child| && SomeUnreported(Until(parent, child, k), child[k])
  }

  /** A quiet merge takes back nothing it added. */
  lemma {:induction false} QuietGrows(parent: seq<Resource>, child: seq<Resource>)
    requires WholeAst(parent) && SingleAst(child) && QuietRun(parent, child)
    ensures NoFewer(parent, MergedAst(parent, child))
    ensures UnreportedRun(parent, child) <==> SomeMore(parent, MergedAst(parent, child))
    ensures !UnreportedRun(parent, child) ==> MergedAst(parent, child) == parent && QuietAlways(parent, child)
  {
    hide Whole, Single, Quiet, SomeUnreported, WithResource, KeptResource, NoFewer, SomeMore, MergedAst, Until;
    if child == [] {
      SameSize(parent);
      NoneMerged(parent);
    } else {
      var last := |child| - 1;
      UntilRest(parent, child);
      MergedWhole(parent, child[..last]);
      QuietGrows(parent, child[..last]);
      GrowsStep(parent, Until(parent, child, last), child[last]);
    }
  }

  lemma GrowsStep(parent: seq<Resource>, rs: seq<Resource>, r: Resource)
    requires NoFewer(parent, rs) && WholeAst(rs) && Single(r.operations) && Quiet(rs, r)
    ensures NoFewer(parent, WithResource(rs, r))
    ensures SomeUnreported(rs, r) || SomeMore(parent, rs) ==> SomeMore(parent, WithResource(rs, r))
    ensures !SomeUnreported(rs, r) ==> WithResource(rs, r) == rs && KeptResource(rs, r)
  {
    hide WholeAst, Single, Quiet, SomeUnreported, WithResource, KeptResource, SomeMore;
    QuietWith(rs, r);
    QuietIs(rs, r);
    StillMore(parent, rs, WithResource(rs, r));
    if !SomeUnreported(rs, r) {
      ResourceReports(rs, r);
    }
  }

  /** All that a request says has nothing to change. */
  ghost predicate QuietAlways(parent: seq<Resource>, child: seq<Resource>)
  {
    forall k :: 0 <= k < |child| ==> KeptResource(parent, child[k])
  }

  lemma SameSize(rs: seq<Resource>)
    ensures NoFewer(rs, rs) && !SomeMore(rs, rs)
  {
  }

  lemma {:induction false} ReportsRun(parent: seq<Resource>, child: seq<Resource>)
    requires WholeAst(parent) && SingleAst(child)
    ensures Updated(parent, child) <==> exists k :: 0 <= k < |child| && Reports(Until(parent, child, k), child[k])
  {
    hide Whole, Single, WithResource, ReportsResource, Reports;
    if child != [] {
      var last := |child| - 1;
      UntilRest(parent, child);
      ReportsRun(parent, child[..last]);
      MergedWhole(parent, child[..last]);
      ResourceReports(Until(parent, child, last), child[last]);
    }
  }

  /**
   The merge reports a change exactly if some resource of the request reports one when it is merged; with one
   resource per info, against the bucket as it was.
   */
  lemma MergeAstReports(parent: seq<Resource>, child: seq<Resource>)
    requires WholeAst(parent) && SingleAst(child)
    ensures Updated(parent, child) <==> exists k :: 0 <= k < |child| && Reports(Until(parent, child, k), child[k])
    ensures DistinctInfos(child) ==>
              (Updated(parent, child) <==> exists k :: 0 <= k < |child| && Reports(parent, child[k]))
  {
    hide WholeAst, SingleAst, DistinctInfos, Updated, Until, Reports;
    ReportsRun(parent, child);
    if DistinctInfos(child) {
      forall k | 0 <= k < |child| ensures Reports(Until(parent, child, k), child[k]) <==> Reports(parent, child[k]) {
        SameBefore(parent, child, k);
      }
    }
  }

  /** With one resource per info, what a resource does is decided by the bucket as it was. */
  lemma SameBefore(parent: seq<Resource>, child: seq<Resource>, k: nat)
    requires DistinctInfos(child) && k < |child|
    ensures Reports(Until(parent, child, k), child[k]) <==> Reports(parent, child[k])
    ensures Quiet(Until(parent, child, k), child[k]) <==> Quiet(parent, child[k])
    ensures SomeUnreported(Until(parent, child, k), child[k]) <==> SomeUnreported(parent, child[k])
  {
    hide Until, Find, Lookup, SomeReported, Met, Kept, Unreported, DistinctInfos;
    BeforeMeets(parent, child, k);
  }

  /**
   A merge whose report is wrong: the bucket is not stored although it changed. It happens exactly if the
   request brings no new resource, and all its rules that have something to change, at least one, meet only a
   user rule with another action that has none of their users; with one resource per info, in the bucket as it was.
   */
  lemma LostUpdates(parent: seq<Resource>, child: seq<Resource>)
    requires WholeAst(parent) && SingleAst(child)
    ensures !Updated(parent, child) && MergedAst(parent, child) != parent <==>
            QuietRun(parent, child) && UnreportedRun(parent, child)
    ensures !Updated(parent, child) && MergedAst(parent, child) == parent <==> QuietAlways(parent, child)
    ensures DistinctInfos(child) ==>
              (QuietRun(parent, child) <==> forall k :: 0 <= k < |child| ==> Quiet(parent, child[k])) &&
              (UnreportedRun(parent, child) <==> exists k :: 0 <= k < |child| && SomeUnreported(parent, child[k]))
  {
    hide WholeAst, SingleAst, DistinctInfos, MergedAst, Updated, KeptResource, Reports, Quiet, Until, SomeUnreported;
    ReportsRun(parent, child);
    forall k | 0 <= k < |child|
      ensures Quiet(Until(parent, child, k), child[k]) <==> !Reports(Until(parent, child, k), child[k])
    {
      QuietIs(Until(parent, child, k), child[k]);
    }
    if QuietRun(parent, child) { QuietGrows(parent, child); }
    if QuietAlways(parent, child) { KeptAst(parent, child); }
    if DistinctInfos(child) {
      forall k | 0 <= k < |child|
        ensures Quiet(Until(parent, child, k), child[k]) <==> Quiet(parent, child[k])
        ensures SomeUnreported(Until(parent, child, k), child[k]) <==> SomeUnreported(parent, child[k])
      {
        SameBefore(parent, child, k);
      }
    }
  }

  // ---- merging again ----

  lemma KeptSame(parent: seq<Resource>, child: seq<Resource>)
    requires WholeAst(parent) && SingleAst(child) && DistinctInfos(child)
    ensures MergedAst(parent, child) == parent <==> QuietAlways(parent, child)
  {
    if QuietAlways(parent, child) {
      KeptAst(parent, child);
    }
    hide WholeAst, SingleAst, DistinctInfos, MergedAst, Updated, KeptResource;
    forall k | 0 <= k < |child| && MergedAst(parent, child) == parent ensures KeptResource(parent, child[k]) {
      SameKept(parent, child, k);
    }
  }

  lemma SameKept(parent: seq<Resource>, child: seq<Resource>, k: nat)
    requires WholeAst(parent) && SingleAst(child) && DistinctInfos(child) && k < |child|
    requires MergedAst(parent, child) == parent
    ensures KeptResource(parent, child[k])
  {
    hide WholeAst, MergedAst, Kept, Met, DistinctInfos, Find, Lookup, MergedOps, AllClear, After;
    var info := child[k].info;
    DistinctLookup(parent, child, info);
    LookupAt(child, k);
    WholeLookup(parent, info);
    forall c | c in child[k].operations ensures Kept(Met(Lookup(parent, info), c), c) {
      MergedMet(Lookup(parent, info), child[k].operations, c);
      SoundMet(Lookup(parent, info), c);
      AfterKept(Met(Lookup(parent, info), c), c);
    }
  }

  /** A resource of a request whose rules have nothing more to change when they are met again. */
  ghost predicate RepeatsResource(rs: seq<Resource>, r: Resource)
  {
    forall c :: c in r.operations ==> Repeats(Met(Lookup(rs, r.info), c), c)
  }

  /**
   Merging the same request again changes nothing and reports nothing, exactly if then no rule of it has anything
   to change; with one resource per info, exactly if no rule takes their last user from the second of two rules
   with other actions.
   */
  lemma MergeAstTwice(parent: seq<Resource>, child: seq<Resource>)
    requires WholeAst(parent) && SingleAst(child)
    ensures var once := MergedAst(parent, child);
            && (MergedAst(once, child) == once && !Updated(once, child) <==> QuietAlways(once, child))
            && (DistinctInfos(child) ==>
              (MergedAst(once, child) == once <==> QuietAlways(once, child)) &&
              (QuietAlways(once, child) <==> forall k :: 0 <= k < |child| ==> RepeatsResource(parent, child[k])))
  {
    hide WholeAst, SingleAst, DistinctInfos, MergedAst, Updated, KeptResource, RepeatsResource;
    var once := MergedAst(parent, child);
    MergedWhole(parent, child);
    LostUpdates(once, child);
    if DistinctInfos(child) {
      KeptSame(once, child);
      forall k | 0 <= k < |child| ensures KeptResource(once, child[k]) <==> RepeatsResource(parent, child[k]) {
        AgainKept(parent, child, k);
      }
    }
  }

  lemma AgainKept(parent: seq<Resource>, child: seq<Resource>, k: nat)
    requires WholeAst(parent) && SingleAst(child) && DistinctInfos(child) && k < |child|
    ensures KeptResource(MergedAst(parent, child), child[k]) <==> RepeatsResource(parent, child[k])
  {
    hide WholeAst, MergedAst, Kept, Repeats, Met, DistinctInfos, Find, Lookup, MergedOps, AllClear, After;
    var info := child[k].info;
    DistinctLookup(parent, child, info);
    LookupAt(child, k);
    WholeLookup(parent, info);
    forall c | c in child[k].operations
      ensures Kept(Met(Lookup(MergedAst(parent, child), info), c), c) <==> Repeats(Met(Lookup(parent, info), c), c)
    {
      MergedMet(Lookup(parent, info), child[k].operations, c);
      SoundMet(Lookup(parent, info), c);
      AfterAgain(Met(Lookup(parent, info), c), c);
    }
  }

  // ---- examples ----

  /** A rule that neither allows nor denies, for a user of whom nothing was said: the user is allowed. */
  lemma OtherEffectExample()
    ensures var ops := [AstOperation(["alice"], Get, Allow), AstOperation(["bob"], Get, Deny)];
            var c := AstOperation(["carol"], Get, Unknown);
            && Tidy(ops) && !Covers(ops, Get, User("carol"))
            && Says(MergeOp(ops, c).ops, Get, User("carol"), Allow)
  {
    var allow, deny := AstOperation(["alice"], Get, Allow), AstOperation(["bob"], Get, Deny);
    var c := AstOperation(["carol"], Get, Unknown);
    PairTidy(allow, deny);
    PairCovers(allow, deny, "carol");
    hide Tidy, Covers, MergeOp, Says;
    FirstGetsUsers(allow, deny, c, "carol");
  }

  lemma PairTidy(a: AstOperation, b: AstOperation)
    requires Clear(a, b) && a.action != Unknown && b.action != Unknown
    ensures Tidy([a, b]) && AllClear([a, b])
  {
    WholeClear([a, b]);
    hide Whole;
  }

  lemma PairCovers(a: AstOperation, b: AstOperation, u: string)
    requires u !in a.users && u !in b.users
    ensures !Covers([a, b], a.op, User(u))
  {
  }

  /** A rule with neither of the actions of two rules goes to the first one. */
  lemma FirstGetsUsers(a: AstOperation, b: AstOperation, c: AstOperation, u: string)
    requires AllClear([a, b]) && Alike(a, c) && Alike(b, c) && u in c.users
    requires a.action != c.action && b.action != c.action
    ensures Says(MergeOp([a, b], c).ops, c.op, User(u), a.action)
  {
    hide AllClear, MergeOp, Says, Kept, Unreported, Elsewhere, After;
    StepMeets([a, b], c);
    AboutTwo(a, b, c);
    SoundMet([a, b], c);
    AfterSays([a, b], c, User(u), a.action);
    SaysAbout(MergeOp([a, b], c).ops, c.op, User(u), a.action);
  }

  lemma AboutTwo(a: AstOperation, b: AstOperation, c: AstOperation)
    requires Alike(a, c) && Alike(b, c)
    ensures Met([a, b], c) == [a, b]
  {
    AboutJoin([a], [b], c.op, c.IsGroupGrantee());
    AboutOne(a, c.op, c.IsGroupGrantee());
    AboutOne(b, c.op, c.IsGroupGrantee());
    assert [a] + [b] == [a, b];
  }

  /** Such a rule for the user that is denied it: merged once more, it changes the bucket once more. */
  lemma TwiceExample(info: ResourceInfo)
    ensures var parent := [Resource(info, [AstOperation(["alice"], Get, Allow), AstOperation(["bob"], Get, Deny)])];
            var child := [Resource(info, [AstOperation(["bob"], Get, Unknown)])];
            && WholeAst(parent) && SingleAst(child) && DistinctInfos(child)
            && MergedAst(MergedAst(parent, child), child) != MergedAst(parent, child)
  {
    var allow, deny := AstOperation(["alice"], Get, Allow), AstOperation(["bob"], Get, Deny);
    var c := AstOperation(["bob"], Get, Unknown);
    var parent, child := [Resource(info, [allow, deny])], [Resource(info, [c])];
    hide RepeatsResource, MergedAst, WholeAst, SingleAst, DistinctInfos, AllClear, Tidy, Clear, QuietAlways;
    assert Clear(allow, deny) by { ByName(allow, deny); }
    PairTidy(allow, deny);
    PairWhole(parent, allow, deny);
    OneRule(child, c);
    LastUserGoes(parent, child[0], allow, deny, c);
    MergeAstTwice(parent, child);
  }

  lemma ByName(a: AstOperation, b: AstOperation)
    requires a.users == ["alice"] && b.users == ["bob"] && a.action != b.action
    ensures Clear(a, b)
  {
    assert "bob" != "alice" by { assert |"bob"| == 3 && |"alice"| == 5; }
  }

  lemma PairWhole(rs: seq<Resource>, a: AstOperation, b: AstOperation)
    requires |rs| == 1 && rs[0].operations == [a, b] && Tidy([a, b])
    ensures WholeAst(rs)
  {
  }

  lemma LastUserGoes(rs: seq<Resource>, r: Resource, a: AstOperation, b: AstOperation, c: AstOperation)
    requires |rs| == 1 && rs[0].info == r.info && rs[0].operations == [a, b] && r.operations == [c]
    requires Alike(a, c) && Alike(b, c) && a.action != c.action && b.action != c.action && b.users == c.users
    ensures !RepeatsResource(rs, r)
  {
    AboutTwo(a, b, c);
    hide About;
    assert Lookup(rs, r.info) == [a, b] && c in r.operations;
  }

  /** Denying an operation to a user, where another user is allowed it, is a request whose change is lost. */
  lemma LostUpdateExample(info: ResourceInfo)
    ensures var parent := [Resource(info, [AstOperation(["alice"], Get, Allow)])];
            var child := [Resource(info, [AstOperation(["bob"], Get, Deny)])];
            && SingleAst(parent) && SingleAst(child) && DistinctInfos(child)
            && !Updated(parent, child) && MergedAst(parent, child) != parent
  {
    var allow, deny := AstOperation(["alice"], Get, Allow), AstOperation(["bob"], Get, Deny);
    var parent, child := [Resource(info, [allow])], [Resource(info, [deny])];
    hide WholeAst, SingleAst, DistinctInfos, Quiet, SomeUnreported, MergedAst, Updated;
    assert child[..0] == [] && Until(parent, child, 0) == parent by { NoneMerged(parent); }
    assert "bob" != "alice" by { assert |"bob"| == 3 && |"alice"| == 5; }
    OneRule(parent, allow);
    OneRule(child, deny);
    LostRule(parent, child, allow, deny);
    LostUpdates(parent, child);
  }

  lemma OneRule(rs: seq<Resource>, o: AstOperation)
    requires |rs| == 1 && rs[0].operations == [o]
    ensures SingleAst(rs) && WholeAst(rs) && DistinctInfos(rs)
  {
    hide Whole, AllClear;
    SingleClear([o]);
    WholeClear([o]);
  }

  lemma LostRule(parent: seq<Resource>, child: seq<Resource>, a: AstOperation, b: AstOperation)
    requires |parent| == |child| == 1 && parent[0].info == child[0].info
    requires parent[0].operations == [a] && child[0].operations == [b]
    requires Alike(a, b) && !b.IsGroupGrantee() && a.action != b.action && forall u :: u in b.users ==> u !in a.users
    ensures Quiet(parent, child[0]) && SomeUnreported(parent, child[0])
  {
    AboutOne(a, b.op, b.IsGroupGrantee());
    assert Met([a], b) == [a] && Lookup(parent, child[0].info) == [a];
    assert b in child[0].operations;
  }
}
