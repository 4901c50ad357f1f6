/** Reading the rules of a bucket from its access table. */
module AclTableReaders {
  import opened AclNames
  import opened AclTables
  import opened Acls
  import opened Strings
  import opened Wrappers

  /** The service record that a record is, if it is one. */
  function TryServiceRecord(record: Record): Option<ServiceRecord>
  {
    if record.action != Allow || record.op != Get || |record.targets| != 1 || |record.filters| != 2 then None
    else if record.targets[0].role != SystemRole then None
    else
      var resource, length := record.filters[0], record.filters[1];
      if resource.from != FromService || length.from != FromService
         || resource.matcher != MatchUnknown || length.matcher != MatchUnknown
         || resource.key != RESOURCE_KEY || length.key != GROUP_LENGTH_KEY
      then None
      else
        var n := Atoi(length.value);
        if n.None? then None else Some(ServiceRecord(resource.value, n.value))
  }

  /** The resource that the filters of a record without a service record restrict it to. */
  function InfoFromFilters(bucket: string, filters: seq<Filter>): ResourceInfo
  {
    if filters == [] then ResourceInfo(bucket, "", "")
    else
      var f := filters[|filters| - 1];
      var info := InfoFromFilters(bucket, filters[..|filters| - 1]);
      if f.matcher != MatchStringEqual then info
      else if f.key == FILE_PATH then info.(objectName := f.value)
      else if f.key == OBJECT_ID then info.(version := f.value)
      else info
  }

  function AddedTarget(ops: seq<AstOperation>, record: Record, target: Target): (r: seq<AstOperation>)
    ensures |ops| <= |r| <= |ops| + 1
  {
    var group := target.role == OthersRole;
    var i := LastMatch(ops, record.op, group);
    if i == |ops| then ops + [AstOperation(if group then [] else target.keys, record.op, record.action)]
    else if group then ops
    else ops[i := ops[i].(users := ops[i].users + target.keys)]
  }

  function AddedTargets(ops: seq<AstOperation>, record: Record, targets: seq<Target>): seq<AstOperation>
  {
    if targets == [] then ops
    else AddedTarget(AddedTargets(ops, record, targets[..|targets| - 1]), record, targets[|targets| - 1])
  }

  /** The first resource of a name, or the length if there is none. */
  function FindName(list: seq<Resource>, name: string): (i: nat)
    ensures i <= |list| && (i < |list| ==> Name(list[i].info) == name)
    ensures forall j :: 0 <= j < i ==> Name(list[j].info) != name
  {
    if list == [] || Name(list[0].info) == name then 0 else 1 + FindName(list[1..], name)
  }

  function WithName(list: seq<Resource>, info: ResourceInfo): seq<Resource>
  {
    if FindName(list, Name(info)) == |list| then list + [Resource(info, [])] else list
  }

  function WithRecord(list: seq<Resource>, name: string, record: Record): (r: seq<Resource>)
    ensures |r| == |list| && forall j :: 0 <= j < |list| ==> r[j].info == list[j].info
  {
    var i := FindName(list, name);
    if i == |list| then list
    else list[i := list[i].(operations := AddedTargets(list[i].operations, record, record.targets))]
  }

  /**
   What was read so far: resources in the order they were met, how many records of the current one are
   still to come, and its name.
   */
  datatype ReadState = ReadState(list: seq<Resource>, left: int, current: string)

  function Next(st: ReadState, record: Record, bucket: string): ReadState
  {
    var service := TryServiceRecord(record);
    if service.Some? then
      var info := ResourceInfoFromName(service.value.resource, bucket);
      ReadState(WithName(st.list, info), service.value.groupLength, Name(info))
    else if st.left != 0 then
      st.(left := st.left - 1, list := WithRecord(st.list, st.current, record))
    else
      var info := InfoFromFilters(bucket, record.filters);
      st.(list := WithRecord(WithName(st.list, info), Name(info), record))
  }

  function ReadAll(st: ReadState, records: seq<Record>, bucket: string): ReadState
  {
    if records == [] then st else Next(ReadAll(st, records[..|records| - 1], bucket), records[|records| - 1], bucket)
  }

  function Reverse<T>(s: seq<T>): (r: seq<T>)
    ensures |r| == |s| && forall i :: 0 <= i < |s| ==> r[i] == s[|s| - 1 - i]
  {
    if s == [] then [] else Reverse(s[1..]) + [s[0]]
  }

  /** Resources and rules as read, both turned round. */
  function Finished(list: seq<Resource>): (r: seq<Resource>)
    ensures |r| == |list|
    ensures forall i :: 0 <= i < |list| ==>
              r[i] == list[|list| - 1 - i].(operations := Reverse(list[|list| - 1 - i].operations))
  {
    if list == [] then [] else Finished(list[1..]) + [list[0].(operations := Reverse(list[0].operations))]
  }

  const START := ReadState([], 0, "")

  // ---- the reader ----

  /** A resource and the record it was first met at. */
  datatype Ordered = Ordered(index: nat, resource: Resource)

  /** The map holds the resources of a list under their names, in the order of their indexes. */
  ghost predicate Holds(m: map<string, Ordered>, list: seq<Resource>, met: nat)
  {
    Stored(m, list) && InOrder(m, list) && NoMore(m, list, met)
  }

  ghost predicate Stored(m: map<string, Ordered>, list: seq<Resource>)
  {
    forall j :: 0 <= j < |list| ==> Name(list[j].info) in m && m[Name(list[j].info)].resource == list[j]
  }

  ghost predicate InOrder(m: map<string, Ordered>, list: seq<Resource>)
    requires Stored(m, list)
  {
    forall j, k :: 0 <= j < k < |list| ==> m[Name(list[j].info)].index < m[Name(list[k].info)].index
  }

  ghost predicate NoMore(m: map<string, Ordered>, list: seq<Resource>, met: nat)
  {
    forall name :: name in m ==> m[name].index < met && FindName(list, name) < |list|
  }

  method AddToList(operations: seq<AstOperation>, record: Record, target: Target) returns (ops: seq<AstOperation>)
    ensures ops == AddedTarget(operations, record, target)
  {
    hide LastMatch;
    ops := operations;
    var found, groupTarget := |ops|, target.role == OthersRole;
    for k := 0 to |ops|
      invariant LastMatch(ops[..k], record.op, groupTarget) == if found == |ops| then k else found
      invariant found == |ops| || found < k
    {
      LastMatchStep(ops, k, record.op, groupTarget);
      if ops[k].op == record.op && ops[k].IsGroupGrantee() == groupTarget {
        found := k;
      }
    }
    assert ops[..|ops|] == ops;
    if found != |ops| {
      if !groupTarget {
        ops := ops[found := ops[found].(users := ops[found].users + target.keys)];
      }
    } else {
      ops := ops + [AstOperation(if groupTarget then [] else target.keys, record.op, record.action)];
    }
  }

  method AddOperations(resource: Ordered, record: Record) returns (r: Ordered)
    ensures r == resource.(resource := resource.resource.(operations :=
                   AddedTargets(resource.resource.operations, record, record.targets)))
  {
    var ops := resource.resource.operations;
    for k := 0 to |record.targets|
      invariant ops == AddedTargets(resource.resource.operations, record, record.targets[..k])
    {
      assert record.targets[..k + 1][..k] == record.targets[..k];
      ops := AddToList(ops, record, record.targets[k]);
    }
    assert record.targets[..|record.targets|] == record.targets;
    return resource.(resource := resource.resource.(operations := ops));
  }

  function GetOrCreate(m: map<string, Ordered>, index: nat, info: ResourceInfo): Ordered
  {
    if Name(info) in m then m[Name(info)] else Ordered(index, Resource(info, []))
  }

  lemma HoldsCreated(m: map<string, Ordered>, list: seq<Resource>, met: nat, info: ResourceInfo)
    requires Holds(m, list, met)
    ensures Holds(m[Name(info) := GetOrCreate(m, met, info)], WithName(list, info), met + 1)
    ensures Name(GetOrCreate(m, met, info).resource.info) == Name(info)
  {
    hide Name;
    var i := FindName(list, Name(info));
    if i == |list| {
      HoldsAppended(m, list, met, info);
    } else {
      assert m[Name(info)].resource == list[i];
      assert m[Name(info) := m[Name(info)]] == m;
    }
  }

  lemma HoldsAppended(m: map<string, Ordered>, list: seq<Resource>, met: nat, info: ResourceInfo)
    requires Holds(m, list, met) && FindName(list, Name(info)) == |list|
    ensures Name(info) !in m
    ensures Holds(m[Name(info) := Ordered(met, Resource(info, []))], list + [Resource(info, [])], met + 1)
  {
    hide Name;
    assert Name(info) !in m;
    NoMoreAppended(m, list, met, Resource(info, []));
    hide FindName;
    StoredAppended(m, list, met, Resource(info, []));
  }

  lemma NoMoreAppended(m: map<string, Ordered>, list: seq<Resource>, met: nat, r: Resource)
    requires NoMore(m, list, met)
    ensures NoMore(m[Name(r.info) := Ordered(met, r)], list + [r], met + 1)
  {
    hide Name;
    var more, after := list + [r], m[Name(r.info) := Ordered(met, r)];
    assert more[|list|] == r;
    forall name | name in after ensures FindName(more, name) < |more| {
      if name != Name(r.info) {
        assert more[FindName(list, name)] == list[FindName(list, name)];
      }
    }
  }

  lemma StoredAppended(m: map<string, Ordered>, list: seq<Resource>, met: nat, r: Resource)
    requires Stored(m, list) && InOrder(m, list) && Name(r.info) !in m
    requires forall name :: name in m ==> m[name].index < met
    ensures Stored(m[Name(r.info) := Ordered(met, r)], list + [r])
    ensures InOrder(m[Name(r.info) := Ordered(met, r)], list + [r])
  {
    hide Name;
    var more, after := list + [r], m[Name(r.info) := Ordered(met, r)];
    forall j | 0 <= j < |list| ensures more[j] == list[j] && after[Name(list[j].info)] == m[Name(list[j].info)] {}
    assert more[|list|] == r;
  }

  lemma HoldsRecorded(m: map<string, Ordered>, list: seq<Resource>, met: nat, name: string, record: Record)
    requires Holds(m, list, met) && name in m
    ensures Name(m[name].resource.info) == name
    ensures var o := m[name];
            var ops := AddedTargets(o.resource.operations, record, record.targets);
            Holds(m[name := o.(resource := o.resource.(operations := ops))],
                  WithRecord(list, name, record), met)
  {
    hide AddedTargets, Name;
    var i, o := FindName(list, name), m[name];
    assert o.resource == list[i];
    var r := o.resource.(operations := AddedTargets(o.resource.operations, record, record.targets));
    NoMoreSet(m, list, met, i, r);
    hide FindName;
    StoredSet(m, list, i, r);
  }

  lemma NoMoreSet(m: map<string, Ordered>, list: seq<Resource>, met: nat, i: nat, r: Resource)
    requires i < |list| && NoMore(m, list, met) && r.info == list[i].info && Name(r.info) in m
    ensures NoMore(m[Name(r.info) := Ordered(m[Name(r.info)].index, r)], list[i := r], met)
  {
    hide Name;
    var after := list[i := r];
    forall name | name in m ensures FindName(after, name) < |list| {
      assert after[FindName(list, name)].info == list[FindName(list, name)].info;
    }
  }

  lemma StoredSet(m: map<string, Ordered>, list: seq<Resource>, i: nat, r: Resource)
    requires i < |list| && Stored(m, list) && InOrder(m, list) && r.info == list[i].info
    ensures Stored(m[Name(r.info) := Ordered(m[Name(r.info)].index, r)], list[i := r])
    ensures InOrder(m[Name(r.info) := Ordered(m[Name(r.info)].index, r)], list[i := r])
  {
    hide Name;
    var after := list[i := r];
    forall j | 0 <= j < |list|
      ensures after[j].info == list[j].info && (j != i ==> Name(list[j].info) != Name(r.info))
    {
      assert j < i ==> m[Name(list[j].info)].index < m[Name(list[i].info)].index;
      assert j > i ==> m[Name(list[i].info)].index < m[Name(list[j].info)].index;
    }
  }

  ghost function NamesOf(list: seq<Resource>): set<string>
  {
    set r | r in list :: Name(r.info)
  }

  lemma KeysAre(m: map<string, Ordered>, list: seq<Resource>, met: nat)
    requires Holds(m, list, met)
    ensures m.Keys == NamesOf(list) && list[..|list|] == list
  {
    hide Name;
    forall name | name in m ensures name in NamesOf(list) {
      assert list[FindName(list, name)] in list;
    }
    forall r | r in list ensures Name(r.info) in m {
      var j :| 0 <= j < |list| && list[j] == r;
    }
  }

  lemma NamesSnoc(list: seq<Resource>, n: nat)
    requires n < |list|
    ensures NamesOf(list[..n + 1]) == NamesOf(list[..n]) + {Name(list[n].info)}
  {
    hide Name;
    assert list[..n + 1] == list[..n] + [list[n]];
  }

  /** Among the names of the first `n` resources that of the last one is the latest, and the only latest one. */
  lemma LatestIsLast(m: map<string, Ordered>, list: seq<Resource>, met: nat, n: nat)
    requires Holds(m, list, met) && n < |list|
    ensures var last := Name(list[n].info);
            && last in m && m[last].resource == list[n] && last !in NamesOf(list[..n])
            && forall x :: x in NamesOf(list[..n]) ==> x in m && m[x].index < m[last].index
  {
    hide Name;
    forall x | x in NamesOf(list[..n]) ensures x in m && m[x].index < m[Name(list[n].info)].index {
      var r :| r in list[..n] && Name(r.info) == x;
      var j :| 0 <= j < n && list[..n][j] == r;
      assert list[j] == r;
    }
  }

  /** The first and last `j` elements are exchanged. */
  ghost predicate Turned(was: seq<AstOperation>, s: seq<AstOperation>, j: nat)
    requires |s| == |was|
  {
    forall x :: 0 <= x < |s| ==> s[x] == was[if x < j || x > |s| - 1 - j then |s| - 1 - x else x]
  }

  lemma TurnedMore(was: seq<AstOperation>, s: seq<AstOperation>, t: seq<AstOperation>, j: nat)
    requires |s| == |was| && Turned(was, s, j) && j < |s| - 1 - j
    requires t == s[j := s[|s| - 1 - j]][|s| - 1 - j := s[j]]
    ensures Turned(was, t, j + 1)
  {
  }

  method ReverseOps(operations: seq<AstOperation>) returns (ops: seq<AstOperation>)
    ensures ops == Reverse(operations)
  {
    ops := operations;
    var j, k := 0, |ops| - 1;
    while j < k
      invariant |ops| == |operations| && 0 <= j <= k + 2 && j + k == |ops| - 1
      invariant Turned(operations, ops, j)
    {
      var swapped := ops[j := ops[k]][k := ops[j]];
      TurnedMore(operations, ops, swapped, j);
      ops := swapped;
      j, k := j + 1, k - 1;
    }
    assert forall x :: 0 <= x < |ops| ==> ops[x] == operations[|ops| - 1 - x];
    assert ops == Reverse(operations);
  }

  /** The name of the resource that was met last. */
  method TakeLatest(m: map<string, Ordered>, left: set<string>, ghost list: seq<Resource>, ghost met: nat, ghost n: nat)
    returns (name: string)
    requires Holds(m, list, met) && n < |list| && left == NamesOf(list[..n + 1])
    ensures name in left && name in m && m[name].resource == list[n] && left - {name} == NamesOf(list[..n])
  {
    hide Name, Holds, NamesOf;
    LatestIsLast(m, list, met, n);
    NamesSnoc(list, n);
    assert Name(list[n].info) in left && forall x :: x in left ==> m[x].index <= m[Name(list[n].info)].index;
    name :| name in left && forall x :: x in left ==> m[x].index <= m[name].index;
  }

  /** Resources sorted by the records they were first met at, latest first, with their rules turned round. */
  method FormReverseOrderResources(m: map<string, Ordered>, ghost list: seq<Resource>, ghost met: nat)
    returns (r: seq<Resource>)
    requires Holds(m, list, met)
    ensures r == Finished(list)
  {
    hide Name, FindName, Holds, NamesOf;
    r := [];
    var left := m.Keys;
    ghost var n: nat := |list|;
    KeysAre(m, list, met);
    assert list[n..] == [];
    while left != {}
      invariant n <= |list| && left == NamesOf(list[..n]) && left <= m.Keys
      invariant r == Finished(list[n..])
      decreases left
    {
      NoNames(list[..n]);
      n := n - 1;
      var name := TakeLatest(m, left, list, met, n);
      var ops := ReverseOps(m[name].resource.operations);
      r := r + [m[name].resource.(operations := ops)];
      FinishedStep(list, n);
      left := left - {name};
    }
    NoNames(list[..n]);
    assert list[0..] == list;
  }

  lemma FinishedStep(list: seq<Resource>, n: nat)
    requires n < |list|
    ensures Finished(list[n..]) == Finished(list[n + 1..]) + [list[n].(operations := Reverse(list[n].operations))]
  {
    assert list[n..][0] == list[n] && list[n..][1..] == list[n + 1..];
  }

  lemma NoNames(list: seq<Resource>)
    ensures NamesOf(list) == {} <==> list == []
  {
    if list != [] { assert list[0] in list && Name(list[0].info) in NamesOf(list); }
  }

  /** Reads a table. */
  method TableToAst(table: seq<Record>, bktName: string) returns (r: seq<Resource>)
    ensures r == Finished(ReadAll(START, table, bktName).list)
  {
    hide Holds, AddedTargets, Name, FindName, Next;
    var resourceMap: map<string, Ordered> := map[];
    var groupRecordsLeft: int := 0;
    var current := Ordered(0, Resource(ResourceInfo("", "", ""), []));
    ghost var st := START;
    HoldsNothing();
    for i := 0 to |table|
      invariant st == ReadAll(START, table[..i], bktName) && st.left == groupRecordsLeft
      invariant Holds(resourceMap, st.list, i)
      invariant groupRecordsLeft != 0 ==> IsCurrent(resourceMap, current, st.current)
    {
      assert table[..i + 1][..i] == table[..i];
      resourceMap, groupRecordsLeft, current := ReadRecord(resourceMap, groupRecordsLeft, current, i, table[i], bktName,
                                                           st);
      st := Next(st, table[i], bktName);
    }
    assert table[..|table|] == table;
    r := FormReverseOrderResources(resourceMap, st.list, |table|);
  }

  lemma HoldsLater(m: map<string, Ordered>, list: seq<Resource>, met: nat)
    requires Holds(m, list, met)
    ensures Holds(m, list, met + 1)
  {
  }

  lemma HoldsNothing()
    ensures Holds(map[], [], 0)
  {
  }

  ghost predicate IsCurrent(m: map<string, Ordered>, current: Ordered, name: string)
  {
    name in m && m[name] == current && Name(current.resource.info) == name
  }

  /** Reads one record into the map of resources. */
  method ReadRecord(m: map<string, Ordered>, left: int, current: Ordered, i: nat, record: Record, bktName: string,
                    ghost st: ReadState)
    returns (m': map<string, Ordered>, left': int, current': Ordered)
    requires Holds(m, st.list, i) && st.left == left && (left != 0 ==> IsCurrent(m, current, st.current))
    ensures Holds(m', Next(st, record, bktName).list, i + 1) && left' == Next(st, record, bktName).left
    ensures left' != 0 ==> IsCurrent(m', current', Next(st, record, bktName).current)
  {
    hide Holds, AddedTargets, Name, FindName, TryServiceRecord, ResourceInfoFromName, InfoFromFilters, WithRecord,
      WithName;
    var serviceRec := TryServiceRecord(record);
    if serviceRec.Some? {
      var resInfo := ResourceInfoFromName(serviceRec.value.resource, bktName);
      HoldsCreated(m, st.list, i, resInfo);
      current' := GetOrCreate(m, i, resInfo);
      return m[Name(resInfo) := current'], serviceRec.value.groupLength, current';
    } else if left != 0 {
      HoldsLater(m, st.list, i);
      HoldsRecorded(m, st.list, i + 1, st.current, record);
      current' := AddOperations(current, record);
      return m[Name(current'.resource.info) := current'], left - 1, current';
    } else {
      var resInfo := InfoFromFilters(bktName, record.filters);
      var resource := GetOrCreate(m, i, resInfo);
      HoldsCreated(m, st.list, i, resInfo);
      HoldsRecorded(m[Name(resInfo) := resource], WithName(st.list, resInfo), i + 1, Name(resInfo), record);
      var added := AddOperations(resource, record);
      assert m[Name(resInfo) := resource][Name(resInfo) := added] == m[Name(resInfo) := added];
      return m[Name(added.resource.info) := added], 0, current;
    }
  }
}
