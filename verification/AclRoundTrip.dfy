/** What is written as an access table and read back. */
module AclRoundTrips {
  import AclMerges
  import opened AclNames
  import opened AclTableReaders
  import opened AclTables
  import opened Acls
  import opened Strings
  import opened Wrappers

  // ---- the records of one resource ----

  /** A rule with the canonical text of its users. */
  function Parsed(p: Parsers, o: AstOperation): (r: AstOperation)
    requires FormTarget(p, o).Some?
    ensures Alike(r, o) && r.action == o.action && |r.users| == |o.users|
  {
    if o.IsGroupGrantee() then o else o.(users := FormTarget(p, o).value.keys)
  }

  ghost predicate Writable(p: Parsers, ops: seq<AstOperation>)
  {
    forall i :: 0 <= i < |ops| ==> FormTarget(p, ops[i]).Some?
  }

  /** Rules read from the records of `ops`, behind those read before. */
  ghost function Collected(p: Parsers, acc: seq<AstOperation>, ops: seq<AstOperation>): seq<AstOperation>
    requires Writable(p, ops)
    decreases |ops|
  {
    if ops == [] then acc
    else
      var o := ops[|ops| - 1];
      Collected(p, AddedTarget(acc, Record(o.action, o.op, [], []), FormTarget(p, o).value), ops[..|ops| - 1])
  }

  lemma {:induction false} ReadAppend(st: ReadState, a: seq<Record>, b: seq<Record>, bucket: string)
    ensures ReadAll(st, a + b, bucket) == ReadAll(ReadAll(st, a, bucket), b, bucket)
  {
    hide Next;
    if b == [] {
      assert a + b == a;
    } else {
      assert (a + b)[..|a + b| - 1] == a + b[..|b| - 1];
      ReadAppend(st, a, b[..|b| - 1], bucket);
    }
  }

  lemma ReadFirst(st: ReadState, r: Record, rest: seq<Record>, bucket: string)
    ensures ReadAll(st, [r] + rest, bucket) == ReadAll(Next(st, r, bucket), rest, bucket)
  {
    ReadAppend(st, [r], rest, bucket);
    assert [r][..0] == [];
  }

  lemma OneTarget(ops: seq<AstOperation>, record: Record, target: Target)
    requires record.targets == [target]
    ensures AddedTargets(ops, record, record.targets) ==
            AddedTarget(ops, Record(record.action, record.op, [], []), target)
  {
    assert record.targets[..0] == [];
    assert AddedTargets(ops, record, []) == ops;
  }

  /** A record of a rule, read as one of the records of the current resource. */
  lemma ReadRule(st: ReadState, p: Parsers, info: ResourceInfo, o: AstOperation, bucket: string)
    requires FormRecord(p, info, o).Some? && st.left > 0 && FindName(st.list, st.current) < |st.list|
    ensures FormTarget(p, o).Some?
    ensures var i := FindName(st.list, st.current);
            Next(st, FormRecord(p, info, o).value, bucket) ==
            ReadState(st.list[i := st.list[i].(operations :=
                        AddedTarget(st.list[i].operations, Record(o.action, o.op, [], []), FormTarget(p, o).value))],
                      st.left - 1, st.current)
  {
    hide FindName, FormFilters, AddedTarget;
    var record := FormRecord(p, info, o).value;
    OneTarget(st.list[FindName(st.list, st.current)].operations, record, FormTarget(p, o).value);
  }

  lemma FindNameStays(list: seq<Resource>, name: string, ops: seq<AstOperation>)
    requires FindName(list, name) < |list|
    ensures var i := FindName(list, name); FindName(list[i := list[i].(operations := ops)], name) == i
  {
    hide Name;
    var i := FindName(list, name);
    var after := list[i := list[i].(operations := ops)];
    assert forall j :: 0 <= j < |list| ==> after[j].info == list[j].info;
    var k := FindName(after, name);
    assert k < |after| ==> Name(list[k].info) == name;
    assert Name(after[i].info) == name;
  }

  lemma FormsWritable(p: Parsers, info: ResourceInfo, ops: seq<AstOperation>)
    requires FormRecords(p, info, ops).Some?
    ensures Writable(p, ops)
  {
    if ops != [] {
      FormsWritable(p, info, ops[..|ops| - 1]);
      forall i | 0 <= i < |ops| ensures FormTarget(p, ops[i]).Some? {
        assert i < |ops| - 1 ==> ops[i] == ops[..|ops| - 1][i];
      }
    }
  }

  /** Reading the records of a resource collects its rules. */
  lemma {:induction false} ReadRules(st: ReadState, p: Parsers, info: ResourceInfo, ops: seq<AstOperation>,
                                     bucket: string)
    requires FormRecords(p, info, ops).Some? && st.left == |ops| && FindName(st.list, st.current) < |st.list|
    ensures Writable(p, ops)
    ensures var i := FindName(st.list, st.current);
            ReadAll(st, FormRecords(p, info, ops).value, bucket) ==
            ReadState(st.list[i := st.list[i].(operations := Collected(p, st.list[i].operations, ops))], 0, st.current)
    decreases |ops|
  {
    hide FindName, FormRecord, AddedTarget, Next, FormTarget;
    FormsWritable(p, info, ops);
    var i := FindName(st.list, st.current);
    if ops == [] {
      assert st.list[i := st.list[i]] == st.list;
    } else {
      var o, rest := ops[|ops| - 1], ops[..|ops| - 1];
      ReadRule(st, p, info, o, bucket);
      var st' := Next(st, FormRecord(p, info, o).value, bucket);
      FindNameStays(st.list, st.current, st'.list[i].operations);
      ReadFirst(st, FormRecord(p, info, o).value, FormRecords(p, info, rest).value, bucket);
      ReadRules(st', p, info, rest, bucket);
      assert st'.list[i := st'.list[i].(operations := Collected(p, st'.list[i].operations, rest))] ==
             st.list[i := st.list[i].(operations := Collected(p, st.list[i].operations, ops))];
    }
  }

  // ---- the whole table ----

  /** As what a resource is read. */
  type Reading = ResourceInfo -> ResourceInfo

  /** By the name in the service record. */
  function ByName(bucket: string): Reading { (info: ResourceInfo) => ResourceInfoFromName(Name(info), bucket) }

  /** What reading the records of a resource does to the resources read before. */
  ghost function WithGroup(p: Parsers, list: seq<Resource>, r: Resource, back: Reading): seq<Resource>
    requires Writable(p, r.operations)
  {
    var info := back(r.info);
    var more := WithName(list, info);
    var i := FindName(more, Name(info));
    if i == |more| then more else more[i := more[i].(operations := Collected(p, more[i].operations, r.operations))]
  }

  ghost predicate AllWritable(p: Parsers, rs: seq<Resource>)
  {
    forall i :: 0 <= i < |rs| ==> Writable(p, rs[i].operations)
  }

  ghost function Gathered(p: Parsers, list: seq<Resource>, rs: seq<Resource>, back: Reading): seq<Resource>
    requires AllWritable(p, rs)
    decreases |rs|
  {
    if rs == [] then list
    else Gathered(p, WithGroup(p, list, rs[|rs| - 1], back), rs[..|rs| - 1], back)
  }

  lemma ServiceReads(s: ServiceRecord)
    requires 0 <= s.groupLength <= MAX_INT
    ensures TryServiceRecord(ToRecord(s)) == Some(s)
  {
    AtoiDecimal(s.groupLength);
  }

  lemma NamedIsFound(list: seq<Resource>, info: ResourceInfo)
    ensures FindName(WithName(list, info), Name(info)) < |WithName(list, info)|
  {
    hide Name;
    var more := list + [Resource(info, [])];
    assert more[|list|].info == info;
  }

  ghost predicate Countable(rs: seq<Resource>)
  {
    forall i :: 0 <= i < |rs| ==> |rs[i].operations| <= MAX_INT
  }

  lemma ReadGroup(p: Parsers, st: ReadState, r: Resource, bucket: string)
    requires st.left == 0 && |r.operations| <= MAX_INT && FormRecords(p, r.info, r.operations).Some?
    ensures Writable(p, r.operations)
    ensures var records := FormRecords(p, r.info, r.operations).value;
            var read := ReadAll(st, [ToRecord(ServiceRecord(Name(r.info), |records|))] + records, bucket);
            read.list == WithGroup(p, st.list, r, ByName(bucket)) && read.left == 0
  {
    hide FormRecords, FindName, ToRecord, Name, ResourceInfoFromName, TryServiceRecord, Collected, WithName;
    var records := FormRecords(p, r.info, r.operations).value;
    var service := ServiceRecord(Name(r.info), |records|);
    ServiceReads(service);
    ReadFirst(st, ToRecord(service), records, bucket);
    var info := ResourceInfoFromName(Name(r.info), bucket);
    NamedIsFound(st.list, info);
    ReadRules(Next(st, ToRecord(service), bucket), p, r.info, r.operations, bucket);
  }

  lemma TableWritable(p: Parsers, rs: seq<Resource>)
    requires AstTable(p, rs).Some?
    ensures AllWritable(p, rs)
  {
    if rs != [] {
      var r, rest := rs[|rs| - 1], rs[..|rs| - 1];
      TableWritable(p, rest);
      FormsWritable(p, r.info, r.operations);
      forall i | 0 <= i < |rs| ensures Writable(p, rs[i].operations) {
        assert i < |rs| - 1 ==> rs[i] == rest[i];
      }
    }
  }

  /** Reading a written table gathers its resources. */
  lemma {:induction false} ReadTable(p: Parsers, st: ReadState, rs: seq<Resource>, bucket: string)
    requires AstTable(p, rs).Some? && st.left == 0 && Countable(rs)
    ensures AllWritable(p, rs)
    ensures ReadAll(st, AstTable(p, rs).value, bucket).list == Gathered(p, st.list, rs, ByName(bucket))
    decreases |rs|
  {
    hide FormRecords, ToRecord, Name, Next, WithGroup;
    TableWritable(p, rs);
    if rs != [] {
      var r, rest := rs[|rs| - 1], rs[..|rs| - 1];
      var records := FormRecords(p, r.info, r.operations).value;
      var group := [ToRecord(ServiceRecord(Name(r.info), |records|))] + records;
      ReadAppend(st, group, AstTable(p, rest).value, bucket);
      ReadGroup(p, st, r, bucket);
      ReadTable(p, ReadAll(st, group, bucket), rest, bucket);
    }
  }

  // ---- nothing is merged exactly if nothing is alike ----

  ghost predicate Unlike(ops: seq<AstOperation>)
  {
    forall i, j :: 0 <= i < j < |ops| ==> !Alike(ops[i], ops[j])
  }

  ghost predicate NotAlike(acc: seq<AstOperation>, ops: seq<AstOperation>)
  {
    forall i, j :: 0 <= i < |acc| && 0 <= j < |ops| ==> !Alike(acc[i], ops[j])
  }

  ghost function AllParsed(p: Parsers, ops: seq<AstOperation>): (r: seq<AstOperation>)
    requires Writable(p, ops)
    ensures |r| == |ops| && forall i :: 0 <= i < |ops| ==> r[i] == Parsed(p, ops[i])
  {
    seq(|ops|, i requires 0 <= i < |ops| => Parsed(p, ops[i]))
  }

  lemma AddedIs(p: Parsers, acc: seq<AstOperation>, o: AstOperation)
    requires FormTarget(p, o).Some?
    ensures var after := AddedTarget(acc, Record(o.action, o.op, [], []), FormTarget(p, o).value);
            if forall i :: 0 <= i < |acc| ==> !Alike(acc[i], o) then after == acc + [Parsed(p, o)] else |after| == |acc|
  {
    var i := LastMatch(acc, o.op, o.IsGroupGrantee());
    if i < |acc| { assert Alike(acc[i], o); }
  }

  lemma UnlikeSnoc(p: Parsers, acc: seq<AstOperation>, ops: seq<AstOperation>)
    requires ops != [] && Writable(p, ops)
    ensures var o, rest := ops[|ops| - 1], ops[..|ops| - 1];
            Unlike(ops) && NotAlike(acc, ops) <==>
            (forall i :: 0 <= i < |acc| ==> !Alike(acc[i], o)) && Unlike(rest) && NotAlike(acc + [Parsed(p, o)], rest)
  {
    hide Parsed;
    var o, rest := ops[|ops| - 1], ops[..|ops| - 1];
    var more := acc + [Parsed(p, o)];
    assert more[|acc|] == Parsed(p, o) && forall i :: 0 <= i < |acc| ==> more[i] == acc[i];
    assert forall i :: 0 <= i < |rest| ==> rest[i] == ops[i];
  }

  /** Rules are read one by one, in reverse, exactly if no two of them are alike. */
  lemma {:induction false} CollectedAll(p: Parsers, acc: seq<AstOperation>, ops: seq<AstOperation>)
    requires Writable(p, ops)
    ensures |Collected(p, acc, ops)| <= |acc| + |ops|
    ensures |Collected(p, acc, ops)| == |acc| + |ops| <==> Unlike(ops) && NotAlike(acc, ops)
    ensures Unlike(ops) && NotAlike(acc, ops) ==> Collected(p, acc, ops) == acc + Reverse(AllParsed(p, ops))
    decreases |ops|
  {
    hide FormTarget, Parsed, AddedTarget, Unlike, NotAlike;
    if ops == [] {
      NothingAlike(acc);
      assert acc + [] == acc;
    } else {
      var o, rest := ops[|ops| - 1], ops[..|ops| - 1];
      var more := AddedTarget(acc, Record(o.action, o.op, [], []), FormTarget(p, o).value);
      AddedIs(p, acc, o);
      UnlikeSnoc(p, acc, ops);
      CollectedAll(p, more, rest);
      if Unlike(ops) && NotAlike(acc, ops) {
        ReverseSnoc(AllParsed(p, ops));
        assert AllParsed(p, ops)[..|rest|] == AllParsed(p, rest);
        var more := Reverse(AllParsed(p, rest));
        assert acc + [Parsed(p, o)] + more == acc + ([Parsed(p, o)] + more);
      }
    }
  }

  lemma NothingAlike(acc: seq<AstOperation>)
    ensures Unlike([]) && NotAlike(acc, [])
  {
  }

  lemma {:induction false} ReverseSnoc<T>(s: seq<T>)
    requires s != []
    ensures Reverse(s) == [s[|s| - 1]] + Reverse(s[..|s| - 1])
  {
    var r, t := Reverse(s[..|s| - 1]), Reverse(s);
    assert |t| == 1 + |r| && forall i :: 0 <= i < |r| ==> t[1 + i] == r[i];
  }

  lemma {:induction false} ReverseTwice<T>(s: seq<T>)
    ensures Reverse(Reverse(s)) == s
  {
    var t := Reverse(Reverse(s));
    assert |t| == |s| && forall i :: 0 <= i < |s| ==> t[i] == s[i];
  }

  /** A resource as its records are read. */
  ghost function ReadBack(p: Parsers, r: Resource, back: Reading): Resource
    requires Writable(p, r.operations)
  {
    Resource(back(r.info), Collected(p, [], r.operations))
  }

  ghost function AllReadBack(p: Parsers, rs: seq<Resource>, back: Reading): (r: seq<Resource>)
    requires AllWritable(p, rs)
    ensures |r| == |rs| && forall i :: 0 <= i < |rs| ==> r[i] == ReadBack(p, rs[i], back)
  {
    seq(|rs|, i requires 0 <= i < |rs| => ReadBack(p, rs[i], back))
  }

  /** The name under which the records of a resource are gathered. */
  function Key(r: Resource, back: Reading): string
  {
    Name(back(r.info))
  }

  ghost predicate DistinctKeys(rs: seq<Resource>, back: Reading)
  {
    forall i, j :: 0 <= i < j < |rs| ==> Key(rs[i], back) != Key(rs[j], back)
  }

  ghost predicate NewKeys(list: seq<Resource>, rs: seq<Resource>, back: Reading)
  {
    forall i, j :: 0 <= i < |list| && 0 <= j < |rs| ==> Name(list[i].info) != Key(rs[j], back)
  }

  lemma GroupIs(p: Parsers, list: seq<Resource>, r: Resource, back: Reading)
    requires Writable(p, r.operations)
    ensures var after := WithGroup(p, list, r, back);
            if forall i :: 0 <= i < |list| ==> Name(list[i].info) != Key(r, back) then
              after == list + [ReadBack(p, r, back)]
            else |after| == |list|
  {
    hide Collected, Name;
    var info := back(r.info);
    var more := WithName(list, info);
    NamedIsFound(list, info);
    var i := FindName(more, Name(info));
    if FindName(list, Name(info)) == |list| {
      assert i == |list| by { assert forall j :: 0 <= j < |list| ==> more[j] == list[j]; }
    }
  }

  lemma KeysSnoc(p: Parsers, list: seq<Resource>, rs: seq<Resource>, back: Reading)
    requires rs != [] && AllWritable(p, rs)
    ensures var r, rest := rs[|rs| - 1], rs[..|rs| - 1];
            DistinctKeys(rs, back) && NewKeys(list, rs, back) <==>
            (forall i :: 0 <= i < |list| ==> Name(list[i].info) != Key(r, back)) &&
            DistinctKeys(rest, back) && NewKeys(list + [ReadBack(p, r, back)], rest, back)
  {
    hide Collected, Name;
    var r, rest := rs[|rs| - 1], rs[..|rs| - 1];
    var more := list + [ReadBack(p, r, back)];
    assert more[|list|] == ReadBack(p, r, back) && forall i :: 0 <= i < |list| ==> more[i] == list[i];
    assert forall i :: 0 <= i < |rest| ==> rest[i] == rs[i];
  }

  /** Resources are read one by one, in reverse, exactly if no two of them are gathered under one name. */
  lemma {:induction false} GatheredAll(p: Parsers, list: seq<Resource>, rs: seq<Resource>, back: Reading)
    requires AllWritable(p, rs)
    ensures |Gathered(p, list, rs, back)| <= |list| + |rs|
    ensures |Gathered(p, list, rs, back)| == |list| + |rs| <==> DistinctKeys(rs, back) && NewKeys(list, rs, back)
    ensures DistinctKeys(rs, back) && NewKeys(list, rs, back) ==>
              Gathered(p, list, rs, back) == list + Reverse(AllReadBack(p, rs, back))
    decreases |rs|
  {
    hide ReadBack, WithGroup, DistinctKeys, NewKeys, Name, Key;
    if rs == [] {
      NoKeys(list, back);
      assert list + [] == list;
    } else {
      var r, rest := rs[|rs| - 1], rs[..|rs| - 1];
      GroupIs(p, list, r, back);
      KeysSnoc(p, list, rs, back);
      GatheredAll(p, WithGroup(p, list, r, back), rest, back);
      if DistinctKeys(rs, back) && NewKeys(list, rs, back) {
        ReverseSnoc(AllReadBack(p, rs, back));
        assert AllReadBack(p, rs, back)[..|rest|] == AllReadBack(p, rest, back);
        assert list + [ReadBack(p, r, back)] + Reverse(AllReadBack(p, rest, back)) ==
               list + ([ReadBack(p, r, back)] + Reverse(AllReadBack(p, rest, back)));
      }
    }
  }

  lemma NoKeys(list: seq<Resource>, back: Reading)
    ensures DistinctKeys([], back) && NewKeys(list, [], back)
  {
  }

  // ---- the round trip ----

  ghost predicate Canonical(p: Parsers, rs: seq<Resource>, bucket: string)
  {
    && (forall i :: 0 <= i < |rs| ==> ReadableName(rs[i].info, bucket))
    && (forall i, j :: 0 <= i < j < |rs| ==> rs[i].info != rs[j].info)
    && (forall i :: 0 <= i < |rs| ==> CanonicalRules(p, rs[i]))
  }

  /**
   No two rules about one operation are both for users or both for everyone, users are in canonical text, and
   a version that rules are about is an object id.
   */
  ghost predicate CanonicalRules(p: Parsers, r: Resource)
  {
    && Unlike(r.operations)
    && (forall i :: 0 <= i < |r.operations| ==> CanonicalUsers(p, r.operations[i]))
    && (r.operations != [] && r.info.objectName != "" && r.info.version != "" ==> p.id(r.info.version).Some?)
  }

  ghost predicate CanonicalUsers(p: Parsers, o: AstOperation)
  {
    forall u :: u in o.users ==> p.key(u) == Some(u)
  }

  lemma UsersStay(p: Parsers, o: AstOperation)
    ensures FormTarget(p, o).Some? && Parsed(p, o) == o <==> CanonicalUsers(p, o)
  {
    var keys := ParseKeys(p, o.users);
    if FormTarget(p, o).Some? && Parsed(p, o) == o && o.users != [] {
      forall u | u in o.users ensures p.key(u) == Some(u) {
        var i :| 0 <= i < |o.users| && o.users[i] == u;
      }
    }
    if CanonicalUsers(p, o) && o.users != [] {
      assert keys.Some?;
      assert forall i :: 0 <= i < |o.users| ==> keys.value[i] == o.users[i] by {
        forall i | 0 <= i < |o.users| ensures keys.value[i] == o.users[i] { assert o.users[i] in o.users; }
      }
      assert keys.value == o.users;
    }
  }

  /** Records can be formed exactly if all users and the version can be read. */
  lemma {:induction false} FormsAll(p: Parsers, info: ResourceInfo, ops: seq<AstOperation>)
    ensures FormRecords(p, info, ops).Some? <==> Writable(p, ops) && (ops != [] ==> FormFilters(p, info).Some?)
  {
    hide FormTarget, FormFilters;
    if ops != [] {
      var o, rest := ops[|ops| - 1], ops[..|ops| - 1];
      FormsAll(p, info, rest);
      assert forall i :: 0 <= i < |rest| ==> rest[i] == ops[i];
    }
  }

  lemma {:induction false} TableAll(p: Parsers, rs: seq<Resource>)
    ensures AstTable(p, rs).Some? <==> forall i :: 0 <= i < |rs| ==> FormRecords(p, rs[i].info, rs[i].operations).Some?
  {
    hide FormRecords, ToRecord;
    if rs != [] {
      var r, rest := rs[|rs| - 1], rs[..|rs| - 1];
      TableAll(p, rest);
      assert forall i :: 0 <= i < |rest| ==> rest[i] == rs[i];
    }
  }

  /** The rules of a resource come back exactly if no two are alike and all users are in canonical text. */
  lemma RulesComeBack(p: Parsers, ops: seq<AstOperation>)
    requires Writable(p, ops)
    ensures Reverse(Collected(p, [], ops)) == ops <==>
            Unlike(ops) && forall i :: 0 <= i < |ops| ==> CanonicalUsers(p, ops[i])
  {
    hide Collected, Writable, Unlike, CanonicalUsers, AllParsed, Reverse;
    CollectedAll(p, [], ops);
    assert NotAlike([], ops);
    AllStay(p, ops);
    if Unlike(ops) {
      var parsed := AllParsed(p, ops);
      assert [] + Reverse(parsed) == Reverse(parsed);
      ReverseTwice(parsed);
    }
  }

  lemma AllStay(p: Parsers, ops: seq<AstOperation>)
    requires Writable(p, ops)
    ensures AllParsed(p, ops) == ops <==> forall i :: 0 <= i < |ops| ==> CanonicalUsers(p, ops[i])
  {
    hide Parsed, FormTarget, CanonicalUsers;
    forall i | 0 <= i < |ops|
      ensures Parsed(p, ops[i]) == ops[i] <==> CanonicalUsers(p, ops[i])
    {
      UsersStay(p, ops[i]);
    }
    assert AllParsed(p, ops) == ops <==> forall i :: 0 <= i < |ops| ==> Parsed(p, ops[i]) == ops[i];
  }

  lemma {:induction false} FinishedReverse(rs: seq<Resource>)
    ensures |Finished(Reverse(rs))| == |rs|
    ensures forall i :: 0 <= i < |rs| ==> Finished(Reverse(rs))[i] == rs[i].(operations := Reverse(rs[i].operations))
  {
    hide Finished, Reverse;
    var turned := Reverse(rs);
    forall i | 0 <= i < |rs| ensures Finished(turned)[i] == rs[i].(operations := Reverse(rs[i].operations)) {
      assert turned[|turned| - 1 - i] == rs[i];
    }
  }

  ghost predicate ComesBack(p: Parsers, r: Resource, back: Reading)
    requires Writable(p, r.operations)
  {
    ReadBack(p, r, back).(operations := Reverse(ReadBack(p, r, back).operations)) == r
  }

  /** Resources come back exactly if none are gathered under one name and each comes back. */
  lemma ResourcesComeBack(p: Parsers, rs: seq<Resource>, back: Reading)
    requires AllWritable(p, rs)
    ensures Finished(Gathered(p, [], rs, back)) == rs <==>
            DistinctKeys(rs, back) && forall i :: 0 <= i < |rs| ==> ComesBack(p, rs[i], back)
  {
    hide Gathered, ReadBack, Writable, Key, Finished, DistinctKeys, ComesBack, Reverse;
    GatheredAll(p, [], rs, back);
    assert NewKeys([], rs, back);
    if DistinctKeys(rs, back) {
      var read := AllReadBack(p, rs, back);
      assert [] + Reverse(read) == Reverse(read);
      AllComeBack(p, rs, back);
    }
  }

  lemma AllComeBack(p: Parsers, rs: seq<Resource>, back: Reading)
    requires AllWritable(p, rs)
    ensures Finished(Reverse(AllReadBack(p, rs, back))) == rs <==>
            forall i :: 0 <= i < |rs| ==> ComesBack(p, rs[i], back)
  {
    hide ReadBack, Writable, Finished, Reverse;
    var read := AllReadBack(p, rs, back);
    FinishedReverse(read);
    var turned := Finished(Reverse(read));
    forall i | 0 <= i < |rs| ensures turned[i] == rs[i] <==> ComesBack(p, rs[i], back) {}
  }

  lemma ResourceComesBack(p: Parsers, r: Resource, back: Reading)
    requires FormRecords(p, r.info, r.operations).Some? && Writable(p, r.operations)
    ensures ComesBack(p, r, back) <==> back(r.info) == r.info && CanonicalRules(p, r)
  {
    hide Writable, FormRecords, Unlike, CanonicalUsers, Collected;
    RulesComeBack(p, r.operations);
    FormsAll(p, r.info, r.operations);
  }

  /** Readable names differ exactly if the resources do. */
  lemma KeysAreInfos(rs: seq<Resource>, bucket: string)
    requires forall i :: 0 <= i < |rs| ==> ReadableName(rs[i].info, bucket)
    ensures DistinctKeys(rs, ByName(bucket)) <==> forall i, j :: 0 <= i < j < |rs| ==> rs[i].info != rs[j].info
  {
    hide Name, ReadableName, ResourceInfoFromName;
    forall i | 0 <= i < |rs|
      ensures ResourceInfoFromName(Name(rs[i].info), bucket) == rs[i].info
    {
      NameReadsBack(rs[i].info, bucket);
    }
    forall i, j | 0 <= i < j < |rs|
      ensures Key(rs[i], ByName(bucket)) != Key(rs[j], ByName(bucket)) <==> rs[i].info != rs[j].info
    {
      assert Key(rs[i], ByName(bucket)) == Name(rs[i].info) && Key(rs[j], ByName(bucket)) == Name(rs[j].info);
    }
  }

  /** Canonical rules can be written. */
  lemma CanonicalWritten(p: Parsers, rs: seq<Resource>, bucket: string)
    requires Canonical(p, rs, bucket)
    ensures AstTable(p, rs).Some?
  {
    hide FormTarget, ReadableName, Unlike, CanonicalUsers, FormRecords, AstTable;
    TableAll(p, rs);
    forall i | 0 <= i < |rs| ensures FormRecords(p, rs[i].info, rs[i].operations).Some? {
      assert CanonicalRules(p, rs[i]);
      FormsAll(p, rs[i].info, rs[i].operations);
      forall j | 0 <= j < |rs[i].operations|
        ensures FormTarget(p, rs[i].operations[j]).Some?
      {
        UsersStay(p, rs[i].operations[j]);
      }
    }
  }

  /** The table of a bucket reads back exactly if the rules of the bucket are canonical. */
  lemma TableRoundTrip(p: Parsers, rs: seq<Resource>, bucket: string)
    requires Countable(rs)
    ensures AstTable(p, rs).Some? && Finished(ReadAll(START, AstTable(p, rs).value, bucket).list) == rs <==>
            Canonical(p, rs, bucket)
  {
    hide AstTable, ReadAll, Finished, Gathered, FormRecords, Writable, CanonicalRules, ReadableName, ComesBack,
      DistinctKeys;
    if Canonical(p, rs, bucket) {
      CanonicalWritten(p, rs, bucket);
    }
    if AstTable(p, rs).Some? {
      ReadTable(p, START, rs, bucket);
      ResourcesComeBack(p, rs, ByName(bucket));
      TableAll(p, rs);
      forall i | 0 <= i < |rs|
        ensures ComesBack(p, rs[i], ByName(bucket)) <==> ReadableName(rs[i].info, bucket) && CanonicalRules(p, rs[i])
      {
        ResourceComesBack(p, rs[i], ByName(bucket));
        NameReadsBack(rs[i].info, bucket);
      }
      if forall i :: 0 <= i < |rs| ==> ReadableName(rs[i].info, bucket) {
        KeysAreInfos(rs, bucket);
      }
    }
  }

  /** Writing the rules of a bucket and reading them back. */
  method WriteAndRead(p: Parsers, rs: seq<Resource>, bucket: string) returns (r: Option<seq<Resource>>)
    requires Countable(rs)
    ensures r == Some(rs) <==> Canonical(p, rs, bucket)
  {
    hide Canonical, AstTable, ReadAll, Finished, Countable;
    TableRoundTrip(p, rs, bucket);
    var table := AstToTable(p, rs);
    if table.None? {
      return None;
    }
    var back := TableToAst(table.value, bucket);
    return Some(back);
  }

  // ---- a rule that is turned into its opposite ----

  /** One user may read, another one may not. */
  function TwoRules(u: string, w: string): Resource
  {
    Resource(ResourceInfo("bucket", "", ""), [AstOperation([u], Get, Allow), AstOperation([w], Get, Deny)])
  }

  /** After the round trip neither of them may, whoever they are. */
  lemma TwoRulesExample(p: Parsers, u: string, w: string)
    requires p.key(u).Some? && p.key(w).Some?
    ensures AstTable(p, [TwoRules(u, w)]).Some?
    ensures Finished(ReadAll(START, AstTable(p, [TwoRules(u, w)]).value, "bucket").list) ==
            [TwoRules(u, w).(operations := [AstOperation([p.key(w).value, p.key(u).value], Get, Deny)])]
  {
    var r := TwoRules(u, w);
    var rs := [r];
    TwoRulesRead(p, u, w);
    assert FormRecords(p, r.info, r.operations).Some? by { FormsAll(p, r.info, r.operations); }
    TableAll(p, rs);
    hide Collected, AstTable, ReadAll, Finished;
    ReadTable(p, START, rs, "bucket");
    assert rs[..0] == [];
    var merged := r.(operations := [AstOperation([p.key(w).value, p.key(u).value], Get, Deny)]);
    assert Gathered(p, [], rs, ByName("bucket")) == WithGroup(p, [], r, ByName("bucket")) == [merged];
    FinishedOne(merged);
  }

  lemma TwoRulesRead(p: Parsers, u: string, w: string)
    requires p.key(u).Some? && p.key(w).Some?
    ensures Writable(p, TwoRules(u, w).operations)
    ensures Collected(p, [], TwoRules(u, w).operations) == [AstOperation([p.key(w).value, p.key(u).value], Get, Deny)]
  {
    hide AddedTarget, FormTarget;
    var a, b := AstOperation([u], Get, Allow), AstOperation([w], Get, Deny);
    OneUser(p, a, u);
    OneUser(p, b, w);
    TwoTargets(p.key(u).value, p.key(w).value);
    var first := AddedTarget([], Record(Deny, Get, [], []), FormTarget(p, b).value);
    assert [a, b][..1] == [a] && [a][..0] == [];
    assert Collected(p, [], [a, b]) == Collected(p, first, [a]);
    assert Collected(p, first, [a]) == AddedTarget(first, Record(Allow, Get, [], []), FormTarget(p, a).value);
  }

  lemma TwoTargets(key: string, other: string)
    ensures var first := AddedTarget([], Record(Deny, Get, [], []), Target(UnknownRole, [other]));
            AddedTarget(first, Record(Allow, Get, [], []), Target(UnknownRole, [key])) ==
            [AstOperation([other, key], Get, Deny)]
  {
    var b := AstOperation([other], Get, Deny);
    assert AddedTarget([], Record(Deny, Get, [], []), Target(UnknownRole, [other])) == [b];
    assert LastMatch([b], Get, false) == 0;
    assert [other] + [key] == [other, key];
  }

  lemma OneUser(p: Parsers, o: AstOperation, user: string)
    requires o.users == [user] && p.key(user).Some?
    ensures FormTarget(p, o) == Some(Target(UnknownRole, [p.key(user).value]))
  {
    var keys := ParseKeys(p, o.users);
    assert keys.Some? <==> forall x :: x in o.users ==> p.key(x).Some?;
    assert keys.value == [p.key(user).value];
  }

  lemma FinishedOne(r: Resource)
    requires |r.operations| == 1
    ensures Finished([r]) == [r]
  {
    assert Reverse(r.operations) == r.operations;
    assert r.(operations := r.operations) == r;
  }

  // ---- what is read can be merged into ----

  /** A target of a record, and the operation the record is about. */
  datatype Aim = Aim(op: Operation, target: Target)

  /** A target for everyone. */
  predicate ForAll(x: Aim) { x.target.role == OthersRole }

  /** A target for users, or a role, without keys. */
  predicate Blank(x: Aim) { x.target.role != OthersRole && x.target.keys == [] }

  predicate Keyed(x: Aim) { x.target.role != OthersRole && x.target.keys != [] }

  function Aims(record: Record, targets: seq<Target>): seq<Aim>
  {
    if targets == [] then [] else Aims(record, targets[..|targets| - 1]) + [Aim(record.op, targets[|targets| - 1])]
  }

  /** The name of the resource that a record is about, or none for a service record. */
  function Goes(st: ReadState, record: Record, bucket: string): Option<string>
  {
    if TryServiceRecord(record).Some? then None
    else if st.left != 0 then Some(st.current)
    else Some(Name(InfoFromFilters(bucket, record.filters)))
  }

  /** The targets of all records of a table that are about a resource. */
  function AimsAt(table: seq<Record>, bucket: string, name: string): seq<Aim>
  {
    if table == [] then []
    else
      var rest, record := table[..|table| - 1], table[|table| - 1];
      AimsAt(rest, bucket, name) +
      if Goes(ReadAll(START, rest, bucket), record, bucket) == Some(name) then Aims(record, record.targets) else []
  }

  /** A target that is read as a rule for everyone: it is one, or comes without keys and before all with keys. */
  ghost predicate Opens(xs: seq<Aim>, j: nat)
    requires j < |xs|
  {
    ForAll(xs[j]) || (Blank(xs[j]) && forall i :: 0 <= i < j && Keyed(xs[i]) ==> xs[i].op != xs[j].op)
  }

  /** No target without keys makes a second rule for everyone about an operation. */
  ghost predicate Orderly(xs: seq<Aim>)
  {
    forall i, j :: 0 <= i < j < |xs| && xs[i].op == xs[j].op && Opens(xs, i) && Opens(xs, j) ==> ForAll(xs[j])
  }

  ghost predicate OrderlyTable(table: seq<Record>, bucket: string)
  {
    forall name :: Orderly(AimsAt(table, bucket, name))
  }

  ghost predicate AllowOrDeny(table: seq<Record>)
  {
    forall i :: 0 <= i < |table| ==> table[i].action != Unknown
  }

  ghost predicate SomeKeyed(xs: seq<Aim>, op: Operation)
  {
    exists i :: 0 <= i < |xs| && xs[i].op == op && Keyed(xs[i])
  }

  ghost predicate SomeOpens(xs: seq<Aim>, op: Operation)
  {
    exists i :: 0 <= i < |xs| && xs[i].op == op && Opens(xs, i)
  }

  /** What the rules of a resource tell of the targets they were read from. */
  ghost predicate ReadFrom(ops: seq<AstOperation>, xs: seq<Aim>)
  {
    && (Single(ops) <==> Orderly(xs))
    && (forall op :: SomeRule(ops, op, false) <==> SomeKeyed(xs, op))
    && (forall op :: SomeRule(ops, op, true) <==> SomeOpens(xs, op))
  }

  lemma NothingRead()
    ensures ReadFrom([], [])
  {
  }

  /** One target more. */
  lemma AimsMore(xs: seq<Aim>, x: Aim)
    ensures forall op :: SomeKeyed(xs + [x], op) <==> SomeKeyed(xs, op) || (x.op == op && Keyed(x))
    ensures forall op :: SomeOpens(xs + [x], op) <==>
              SomeOpens(xs, op) || (x.op == op && (ForAll(x) || (Blank(x) && !SomeKeyed(xs, op))))
    ensures Orderly(xs + [x]) <==>
            Orderly(xs) && !(Blank(x) && !SomeKeyed(xs, x.op) && SomeOpens(xs, x.op))
  {
    hide Keyed, ForAll;
    var more := xs + [x];
    assert more[|xs|] == x;
    forall i | 0 <= i < |xs| ensures more[i] == xs[i] && (Opens(more, i) <==> Opens(xs, i)) { SameOpens(xs, x, i); }
    assert Opens(more, |xs|) <==> ForAll(x) || (Blank(x) && !SomeKeyed(xs, x.op)) by { LastOpens(xs, x); }
    hide Opens, Blank;
    forall op ensures SomeKeyed(more, op) <==> SomeKeyed(xs, op) || (x.op == op && Keyed(x)) { KeyedMore(xs, x, op); }
    NotForAll(x);
    OrderlyMore(xs, x);
  }

  lemma NotForAll(x: Aim)
    ensures ForAll(x) ==> !Blank(x)
  {
  }

  lemma SameOpens(xs: seq<Aim>, x: Aim, i: nat)
    requires i < |xs|
    ensures (xs + [x])[i] == xs[i] && (Opens(xs + [x], i) <==> Opens(xs, i))
  {
    assert forall k :: 0 <= k <= i ==> (xs + [x])[k] == xs[k];
  }

  lemma LastOpens(xs: seq<Aim>, x: Aim)
    ensures (xs + [x])[|xs|] == x
    ensures Opens(xs + [x], |xs|) <==> ForAll(x) || (Blank(x) && !SomeKeyed(xs, x.op))
  {
    assert forall k :: 0 <= k < |xs| ==> (xs + [x])[k] == xs[k];
  }

  lemma KeyedMore(xs: seq<Aim>, x: Aim, op: Operation)
    ensures SomeKeyed(xs + [x], op) <==> SomeKeyed(xs, op) || (x.op == op && Keyed(x))
  {
    assert forall k :: 0 <= k < |xs| ==> (xs + [x])[k] == xs[k];
    assert (xs + [x])[|xs|] == x;
  }

  lemma OrderlyMore(xs: seq<Aim>, x: Aim)
    ensures Orderly(xs + [x]) <==> Orderly(xs) && (Opens(xs + [x], |xs|) && SomeOpens(xs, x.op) ==> ForAll(x))
  {
    hide Opens, ForAll;
    var more := xs + [x];
    assert more[|xs|] == x;
    forall i | 0 <= i < |xs| ensures more[i] == xs[i] && (Opens(more, i) <==> Opens(xs, i)) { SameOpens(xs, x, i); }
  }

  /** One rule more. */
  lemma RulesMore(ops: seq<AstOperation>, o: AstOperation)
    ensures Single(ops + [o]) <==> Single(ops) && !SomeRule(ops, o.op, o.IsGroupGrantee())
    ensures forall op, group :: SomeRule(ops + [o], op, group) <==>
              SomeRule(ops, op, group) || (o.op == op && o.IsGroupGrantee() == group)
  {
    var more := ops + [o];
    assert more[|ops|] == o && forall i :: 0 <= i < |ops| ==> more[i] == ops[i];
  }

  /** A rule with more users. */
  lemma RulesSame(ops: seq<AstOperation>, i: nat, o: AstOperation)
    requires i < |ops| && Alike(o, ops[i])
    ensures Single(ops[i := o]) <==> Single(ops)
    ensures forall op, group :: SomeRule(ops[i := o], op, group) <==> SomeRule(ops, op, group)
  {
    var after := ops[i := o];
    assert forall j :: 0 <= j < |ops| ==> Alike(after[j], ops[j]);
  }

  lemma SomeLast(ops: seq<AstOperation>, op: Operation, group: bool)
    ensures LastMatch(ops, op, group) < |ops| <==> SomeRule(ops, op, group)
  {
  }

  lemma TargetRead(ops: seq<AstOperation>, xs: seq<Aim>, record: Record, target: Target)
    requires ReadFrom(ops, xs)
    ensures ReadFrom(AddedTarget(ops, record, target), xs + [Aim(record.op, target)])
  {
    hide LastMatch, Single, SomeRule, SomeKeyed, SomeOpens, Orderly;
    var x, group := Aim(record.op, target), target.role == OthersRole;
    AimsMore(xs, x);
    SomeLast(ops, record.op, group);
    var i := LastMatch(ops, record.op, group);
    if i == |ops| {
      RulesMore(ops, AstOperation(if group then [] else target.keys, record.op, record.action));
    } else if !group {
      RulesSame(ops, i, ops[i].(users := ops[i].users + target.keys));
    }
  }

  lemma {:induction false} TargetsRead(ops: seq<AstOperation>, xs: seq<Aim>, record: Record, targets: seq<Target>)
    requires ReadFrom(ops, xs)
    ensures ReadFrom(AddedTargets(ops, record, targets), xs + Aims(record, targets))
  {
    hide ReadFrom, AddedTarget;
    if targets == [] {
      assert xs + [] == xs;
    } else {
      var rest, last := targets[..|targets| - 1], targets[|targets| - 1];
      TargetsRead(ops, xs, record, rest);
      TargetRead(AddedTargets(ops, record, rest), xs + Aims(record, rest), record, last);
      assert xs + Aims(record, targets) == xs + Aims(record, rest) + [Aim(record.op, last)];
    }
  }

  /** Every resource of a list has the rules read from the targets of its name; other names have none. */
  ghost predicate AllRead(list: seq<Resource>, aims: string -> seq<Aim>)
  {
    && (forall i :: 0 <= i < |list| ==>
          FindName(list, Name(list[i].info)) == i && ReadFrom(list[i].operations, aims(Name(list[i].info))))
    && (forall name :: FindName(list, name) == |list| ==> aims(name) == [])
  }

  lemma NameRead(list: seq<Resource>, info: ResourceInfo, aims: string -> seq<Aim>)
    requires AllRead(list, aims)
    ensures AllRead(WithName(list, info), aims)
    ensures FindName(WithName(list, info), Name(info)) < |WithName(list, info)|
  {
    hide ReadFrom, Name;
    NothingRead();
    if FindName(list, Name(info)) == |list| {
      var r := Resource(info, []);
      forall name ensures FindName(list + [r], name) ==
                          if FindName(list, name) < |list| then FindName(list, name)
                          else if name == Name(info) then |list| else |list| + 1
      {
        FindMore(list, r, name);
      }
    }
  }

  lemma FindMore(list: seq<Resource>, r: Resource, name: string)
    ensures FindName(list + [r], name) ==
            if FindName(list, name) < |list| then FindName(list, name)
            else if name == Name(r.info) then |list| else |list| + 1
  {
    hide Name;
    var all := list + [r];
    assert all[|list|] == r && forall i :: 0 <= i < |list| ==> all[i] == list[i];
    var i, k := FindName(list, name), FindName(all, name);
    assert k < |list| ==> Name(list[k].info) == name;
    assert i < |list| ==> Name(all[i].info) == name;
  }

  lemma FindSame(a: seq<Resource>, b: seq<Resource>, name: string)
    requires |a| == |b| && forall i :: 0 <= i < |a| ==> a[i].info == b[i].info
    ensures FindName(a, name) == FindName(b, name)
  {
    hide Name;
    var i, k := FindName(a, name), FindName(b, name);
    assert i < |a| ==> Name(b[i].info) == name;
    assert k < |b| ==> Name(a[k].info) == name;
  }

  lemma RecordRead(list: seq<Resource>, name: string, record: Record, aims: string -> seq<Aim>,
                   more: string -> seq<Aim>)
    requires AllRead(list, aims) && FindName(list, name) < |list|
    requires forall n :: more(n) == if n == name then aims(n) + Aims(record, record.targets) else aims(n)
    ensures AllRead(WithRecord(list, name, record), more)
  {
    hide ReadFrom, Name, Aims, AddedTargets;
    var i, after := FindName(list, name), WithRecord(list, name, record);
    TargetsRead(list[i].operations, aims(name), record, record.targets);
    forall n ensures FindName(after, n) == FindName(list, n) { FindSame(after, list, n); }
  }

  /** A record is about a resource that there is when it is read. */
  ghost predicate CurrentThere(st: ReadState)
  {
    st.left != 0 ==> FindName(st.list, st.current) < |st.list|
  }

  lemma NextRead(st: ReadState, record: Record, bucket: string, aims: string -> seq<Aim>, more: string -> seq<Aim>)
    requires AllRead(st.list, aims) && CurrentThere(st)
    requires forall n :: more(n) == aims(n) + if Goes(st, record, bucket) == Some(n) then Aims(record, record.targets)
                                             else []
    ensures AllRead(Next(st, record, bucket).list, more) && CurrentThere(Next(st, record, bucket))
  {
    hide AllRead, WithName, WithRecord, TryServiceRecord, InfoFromFilters, Name, ResourceInfoFromName, Aims, FindName;
    var service := TryServiceRecord(record);
    if service.Some? {
      NameRead(st.list, ResourceInfoFromName(service.value.resource, bucket), aims);
      SameAims(WithName(st.list, ResourceInfoFromName(service.value.resource, bucket)), aims, more);
    } else if st.left != 0 {
      RecordRead(st.list, st.current, record, aims, more);
      FindSame(WithRecord(st.list, st.current, record), st.list, st.current);
    } else {
      var info := InfoFromFilters(bucket, record.filters);
      NameRead(st.list, info, aims);
      RecordRead(WithName(st.list, info), Name(info), record, aims, more);
    }
  }

  lemma SameAims(list: seq<Resource>, aims: string -> seq<Aim>, more: string -> seq<Aim>)
    requires AllRead(list, aims) && forall n :: more(n) == aims(n) + []
    ensures AllRead(list, more)
  {
    hide ReadFrom, FindName, Name;
    assert forall n :: more(n) == aims(n);
  }

  lemma {:induction false} TableRead(table: seq<Record>, bucket: string)
    ensures AllRead(ReadAll(START, table, bucket).list, name => AimsAt(table, bucket, name))
    ensures CurrentThere(ReadAll(START, table, bucket))
  {
    hide AllRead, Next, CurrentThere, Goes, Aims;
    if table == [] {
      NothingThere(bucket);
    } else {
      var rest, record := table[..|table| - 1], table[|table| - 1];
      TableRead(rest, bucket);
      NextRead(ReadAll(START, rest, bucket), record, bucket, name => AimsAt(rest, bucket, name),
               name => AimsAt(table, bucket, name));
    }
  }

  lemma NothingThere(bucket: string)
    ensures AllRead([], name => AimsAt([], bucket, name)) && CurrentThere(START)
  {
  }

  // ---- allowed and denied only ----

  lemma {:induction false} TargetsKnown(ops: seq<AstOperation>, record: Record, targets: seq<Target>)
    requires Known(ops) && record.action != Unknown
    ensures Known(AddedTargets(ops, record, targets))
  {
    hide LastMatch;
    if targets != [] {
      TargetsKnown(ops, record, targets[..|targets| - 1]);
    }
  }

  lemma RecordKnown(list: seq<Resource>, name: string, record: Record)
    requires KnownAst(list) && record.action != Unknown
    ensures KnownAst(WithRecord(list, name, record))
  {
    hide Known;
    var i := FindName(list, name);
    if i < |list| { TargetsKnown(list[i].operations, record, record.targets); }
  }

  lemma NextKnown(st: ReadState, record: Record, bucket: string)
    requires KnownAst(st.list) && record.action != Unknown
    ensures KnownAst(Next(st, record, bucket).list)
  {
    hide WithRecord, TryServiceRecord, InfoFromFilters, Name, ResourceInfoFromName, FindName;
    RecordKnown(st.list, st.current, record);
    var info := InfoFromFilters(bucket, record.filters);
    RecordKnown(WithName(st.list, info), Name(info), record);
  }

  lemma {:induction false} ReadKnown(table: seq<Record>, bucket: string)
    requires AllowOrDeny(table)
    ensures KnownAst(ReadAll(START, table, bucket).list)
  {
    hide Next, KnownAst;
    if table == [] {
      assert KnownAst([]) by { NothingKnown(); }
    } else {
      var rest := table[..|table| - 1];
      assert forall i :: 0 <= i < |rest| ==> rest[i] == table[i];
      ReadKnown(rest, bucket);
      NextKnown(ReadAll(START, rest, bucket), table[|table| - 1], bucket);
    }
  }

  lemma NothingKnown()
    ensures KnownAst([])
  {
  }

  lemma ReverseSingle(ops: seq<AstOperation>)
    ensures Single(Reverse(ops)) <==> Single(ops)
    ensures Known(ops) ==> Known(Reverse(ops))
  {
    assert forall i :: 0 <= i < |ops| ==> ops[i] == Reverse(ops)[|ops| - 1 - i];
  }

  lemma FinishedSingle(list: seq<Resource>)
    ensures SingleAst(Finished(list)) <==> SingleAst(list)
    ensures KnownAst(list) ==> KnownAst(Finished(list))
  {
    hide Single, Known;
    var after := Finished(list);
    forall i | 0 <= i < |list|
      ensures Single(Reverse(list[i].operations)) <==> Single(list[i].operations)
      ensures Known(list[i].operations) ==> Known(Reverse(list[i].operations))
      ensures after[|list| - 1 - i].operations == Reverse(list[i].operations)
    {
      ReverseSingle(list[i].operations);
    }
  }

  /** The rules of a resource are those read from the targets of its name. */
  lemma ReadAt(table: seq<Record>, bucket: string, name: string)
    ensures var list := ReadAll(START, table, bucket).list;
            var i := FindName(list, name);
            if i == |list| then AimsAt(table, bucket, name) == []
            else ReadFrom(list[i].operations, AimsAt(table, bucket, name))
    ensures forall i :: 0 <= i < |ReadAll(START, table, bucket).list| ==>
              FindName(ReadAll(START, table, bucket).list, Name(ReadAll(START, table, bucket).list[i].info)) == i
  {
    hide ReadFrom, ReadAll, AimsAt, Name, FindName;
    TableRead(table, bucket);
  }

  lemma SingleOrderly(table: seq<Record>, bucket: string)
    ensures SingleAst(ReadAll(START, table, bucket).list) <==> OrderlyTable(table, bucket)
  {
    if SingleAst(ReadAll(START, table, bucket).list) {
      forall name ensures Orderly(AimsAt(table, bucket, name)) { OrderlyAt(table, bucket, name); }
    }
    hide Orderly, AimsAt, SingleAst;
    if OrderlyTable(table, bucket) {
      SingleAll(table, bucket);
    }
  }

  lemma OrderlyAt(table: seq<Record>, bucket: string, name: string)
    requires SingleAst(ReadAll(START, table, bucket).list)
    ensures Orderly(AimsAt(table, bucket, name))
  {
    hide Single, Orderly, Name;
    NothingOrderly();
    ReadAt(table, bucket, name);
  }

  lemma SingleAll(table: seq<Record>, bucket: string)
    requires OrderlyTable(table, bucket)
    ensures SingleAst(ReadAll(START, table, bucket).list)
  {
    hide Single, Orderly, Name;
    var list := ReadAll(START, table, bucket).list;
    forall i | 0 <= i < |list| ensures Single(list[i].operations) {
      ReadAt(table, bucket, Name(list[i].info));
      assert Orderly(AimsAt(table, bucket, Name(list[i].info)));
    }
  }

  lemma NothingOrderly()
    ensures Orderly([])
  {
  }

  /**
   What is read from a table has one rule per operation for users and one for everyone, exactly if no target without
   keys is read as a second rule for everyone; and only known actions if the table has only such.
   */
  lemma ReadIsOneEach(table: seq<Record>, bucket: string)
    ensures SingleAst(Finished(ReadAll(START, table, bucket).list)) <==> OrderlyTable(table, bucket)
    ensures AllowOrDeny(table) ==> KnownAst(Finished(ReadAll(START, table, bucket).list))
  {
    hide SingleAst, KnownAst, ReadAll, AllowOrDeny, OrderlyTable, Finished;
    SingleOrderly(table, bucket);
    FinishedSingle(ReadAll(START, table, bucket).list);
    if AllowOrDeny(table) { ReadKnown(table, bucket); }
  }

  // ---- what is written is in order ----

  ghost predicate HaveKeys(record: Record)
  {
    forall j :: 0 <= j < |record.targets| ==> !Blank(Aim(record.op, record.targets[j]))
  }

  /** All targets of users have keys, but in service records. */
  ghost predicate UsersHaveKeys(table: seq<Record>)
  {
    forall r :: r in table ==> TryServiceRecord(r).Some? || HaveKeys(r)
  }

  lemma KeysAreOrderly(xs: seq<Aim>)
    requires forall x :: x in xs ==> !Blank(x)
    ensures Orderly(xs)
  {
    assert forall i :: 0 <= i < |xs| ==> xs[i] in xs;
  }

  lemma {:induction false} AimsHaveKeys(record: Record, targets: seq<Target>)
    requires forall j :: 0 <= j < |targets| ==> !Blank(Aim(record.op, targets[j]))
    ensures forall x :: x in Aims(record, targets) ==> !Blank(x)
  {
    hide Blank;
    if targets != [] {
      AimsHaveKeys(record, targets[..|targets| - 1]);
    }
  }

  lemma {:induction false} TableHasKeys(table: seq<Record>, bucket: string, name: string)
    requires UsersHaveKeys(table)
    ensures forall x :: x in AimsAt(table, bucket, name) ==> !Blank(x)
  {
    hide Blank, TryServiceRecord, InfoFromFilters, Name, ReadAll;
    if table != [] {
      var rest, record := table[..|table| - 1], table[|table| - 1];
      assert forall r :: r in rest ==> r in table;
      assert record in table;
      TableHasKeys(rest, bucket, name);
      if HaveKeys(record) { AimsHaveKeys(record, record.targets); }
    }
  }

  /** Tables whose targets of users have keys are in order. */
  lemma KeyedIsOrderly(table: seq<Record>, bucket: string)
    requires UsersHaveKeys(table)
    ensures OrderlyTable(table, bucket)
  {
    forall name ensures Orderly(AimsAt(table, bucket, name)) {
      TableHasKeys(table, bucket, name);
      KeysAreOrderly(AimsAt(table, bucket, name));
    }
  }

  lemma {:induction false} RecordsHaveKeys(p: Parsers, info: ResourceInfo, ops: seq<AstOperation>)
    requires FormRecords(p, info, ops).Some?
    ensures forall r :: r in FormRecords(p, info, ops).value ==> HaveKeys(r)
  {
    hide FormFilters;
    if ops != [] {
      RecordsHaveKeys(p, info, ops[..|ops| - 1]);
    }
  }

  /** Whatever the gateway writes is read as one rule per operation for users and one for everyone. */
  lemma {:induction false} WrittenIsOrderly(p: Parsers, rs: seq<Resource>, bucket: string)
    requires AstTable(p, rs).Some? && Countable(rs)
    ensures UsersHaveKeys(AstTable(p, rs).value) && OrderlyTable(AstTable(p, rs).value, bucket)
  {
    hide FormRecords, TryServiceRecord, HaveKeys, ToRecord, Name, OrderlyTable;
    if rs != [] {
      var r, rest := rs[|rs| - 1], rs[..|rs| - 1];
      WrittenIsOrderly(p, rest, bucket);
      RecordsHaveKeys(p, r.info, r.operations);
      ServiceReads(ServiceRecord(Name(r.info), |r.operations|));
    }
    KeyedIsOrderly(AstTable(p, rs).value, bucket);
  }

  /** A request that is merged into what is read from such a table overrides it, whatever the actions of rules. */
  lemma MergeIntoRead(table: seq<Record>, bucket: string, child: seq<Resource>)
    requires OrderlyTable(table, bucket) && SingleAst(child) && AclMerges.DistinctInfos(child)
    ensures AclMerges.Overriding(Finished(ReadAll(START, table, bucket).list), child)
  {
    var parent := Finished(ReadAll(START, table, bucket).list);
    hide OrderlyTable, SingleAst, ReadAll, Finished, AclMerges.DistinctInfos, AclMerges.Overriding;
    ReadIsOneEach(table, bucket);
    AclMerges.SingleWhole(parent);
    AclMerges.SingleAstFits(parent, child);
    AclMerges.MergeAstOverrides(parent, child);
  }

  /** A record that denies something to the owner, by role, is read as a rule for everyone; so there are two of them. */
  lemma RoleExample(bucket: string)
    ensures var others := Record(Allow, Get, [], [Target(OthersRole, [])]);
            var owner := Record(Deny, Get, [], [Target(UserRole, [])]);
            Finished(ReadAll(START, [others, owner], bucket).list) ==
            [Resource(ResourceInfo(bucket, "", ""), [AstOperation([], Get, Deny), AstOperation([], Get, Allow)])]
  {
    var others := Record(Allow, Get, [], [Target(OthersRole, [])]);
    var owner := Record(Deny, Get, [], [Target(UserRole, [])]);
    var allow, deny := AstOperation([], Get, Allow), AstOperation([], Get, Deny);
    hide AddedTargets, Next, LastMatch;
    FirstRead(bucket, others, allow);
    NextOwn(START, others, bucket);
    assert LastMatch([allow], Get, false) == 1;
    OneRead([allow], owner, deny);
    OwnRead(bucket, [allow], owner);
    NextOwn(ReadState([Resource(ResourceInfo(bucket, "", ""), [allow])], 0, ""), owner, bucket);
    assert [others, owner][..1] == [others] && [others][..0] == [] && ReadAll(START, [], bucket) == START;
    assert ReadAll(START, [others], bucket) == Next(START, others, bucket);
    assert ReadAll(START, [others, owner], bucket) == Next(ReadAll(START, [others], bucket), owner, bucket);
    assert Reverse([allow, deny]) == [deny, allow];
  }

  lemma FirstRead(bucket: string, record: Record, o: AstOperation)
    requires |record.targets| == 1 && record.targets[0].keys == [] && o == AstOperation([], record.op, record.action)
    ensures var info := ResourceInfo(bucket, "", "");
            WithRecord(WithName([], info), Name(info), record) == [Resource(info, [o])]
  {
    hide Name;
    var info := ResourceInfo(bucket, "", "");
    OneRead([], record, o);
    assert [] + [o] == [o];
    OwnRead(bucket, [], record);
    assert WithName([], info) == [Resource(info, [])];
    assert WithName([Resource(info, [])], info) == [Resource(info, [])] by {
      assert FindName([Resource(info, [])], Name(info)) == 0;
    }
  }

  lemma OwnRead(bucket: string, ops: seq<AstOperation>, record: Record)
    ensures var info := ResourceInfo(bucket, "", "");
            WithRecord(WithName([Resource(info, ops)], info), Name(info), record) ==
            [Resource(info, AddedTargets(ops, record, record.targets))]
  {
    hide Name, AddedTargets;
    var info := ResourceInfo(bucket, "", "");
    assert FindName([Resource(info, ops)], Name(info)) == 0;
  }

  lemma NextOwn(st: ReadState, record: Record, bucket: string)
    requires record.filters == [] && st.left == 0
    ensures var info := ResourceInfo(bucket, "", "");
            Next(st, record, bucket) == st.(list := WithRecord(WithName(st.list, info), Name(info), record))
  {
    hide Name, WithRecord, WithName;
  }

  lemma OneRead(ops: seq<AstOperation>, record: Record, o: AstOperation)
    requires |record.targets| == 1 && record.targets[0].keys == [] && o == AstOperation([], record.op, record.action)
    requires LastMatch(ops, record.op, record.targets[0].role == OthersRole) == |ops|
    ensures AddedTargets(ops, record, record.targets) == ops + [o]
  {
    assert record.targets[..0] == [] && AddedTargets(ops, record, []) == ops;
  }
}
