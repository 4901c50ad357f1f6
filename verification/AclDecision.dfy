/** Who may do what: the decision of a table, and that of the rules it was written from. */
module AclDecisions {
  import opened Acls
  import opened AclTables
  import opened Wrappers
  import N = AclNames

  /**
   An operation on an object, by its path and object id, for somebody with a key who is neither the owner nor part
   of the system.
   */
  datatype Request = Request(op: Operation, key: string, path: string, oid: string)

  // ---- the decision of a table ----

  /** A filter compares a header of the object. */
  predicate FilterMatches(f: Filter, q: Request)
  {
    && f.from == FromObject && f.matcher == MatchStringEqual
    && ((f.key == FILE_PATH && f.value == q.path) || (f.key == OBJECT_ID && f.value == q.oid))
  }

  /** A target with keys means those who have them; one without keys means a role. */
  predicate TargetMatches(t: Target, q: Request)
  {
    if t.keys != [] then q.key in t.keys else t.role == OthersRole
  }

  predicate RecordMatches(r: Record, q: Request)
  {
    && r.op == q.op
    && (forall i :: 0 <= i < |r.filters| ==> FilterMatches(r.filters[i], q))
    && (exists i :: 0 <= i < |r.targets| && TargetMatches(r.targets[i], q))
  }

  /** The first record that matches decides. */
  function FirstMatch(table: seq<Record>, q: Request): Option<Action>
  {
    if table == [] then None
    else if RecordMatches(table[0], q) then Some(table[0].action)
    else FirstMatch(table[1..], q)
  }

  // ---- the decision of rules ----

  /** A resource is a bucket, the versions of an object, or the object with an id. */
  predicate Applies(p: Parsers, info: ResourceInfo, q: Request)
  {
    if info.objectName == "" then true
    else if info.version == "" then q.path == info.objectName
    else p.id(info.version) == Some(q.oid)
  }

  /** A rule about the operation that is for everyone or names somebody with the key. */
  predicate Counts(p: Parsers, o: AstOperation, q: Request)
  {
    o.op == q.op && (o.IsGroupGrantee() || exists i :: 0 <= i < |o.users| && p.key(o.users[i]) == Some(q.key))
  }

  /** Of the rules of a resource the last one that counts decides. */
  function LastCounting(p: Parsers, ops: seq<AstOperation>, q: Request): Option<Action>
  {
    if ops == [] then None
    else if Counts(p, ops[|ops| - 1], q) then Some(ops[|ops| - 1].action)
    else LastCounting(p, ops[..|ops| - 1], q)
  }

  /** Of the resources that apply the last one with a rule that counts decides. */
  function Decision(p: Parsers, rs: seq<Resource>, q: Request): Option<Action>
  {
    if rs == [] then None
    else
      var r := rs[|rs| - 1];
      if Applies(p, r.info, q) && LastCounting(p, r.operations, q).Some? then LastCounting(p, r.operations, q)
      else Decision(p, rs[..|rs| - 1], q)
  }

  // ---- they are the same ----

  lemma {:induction false} FirstMatchJoin(a: seq<Record>, b: seq<Record>, q: Request)
    ensures FirstMatch(a + b, q) == if FirstMatch(a, q).Some? then FirstMatch(a, q) else FirstMatch(b, q)
  {
    if a == [] {
      assert a + b == b;
    } else {
      FirstMatchJoin(a[1..], b, q);
      assert (a + b)[0] == a[0] && (a + b)[1..] == a[1..] + b;
    }
  }

  /** Service records match nobody. */
  lemma ServiceMatchesNone(s: ServiceRecord, q: Request)
    requires 0 <= s.groupLength
    ensures !RecordMatches(ToRecord(s), q)
  {
    assert !FilterMatches(ToRecord(s).filters[0], q);
  }

  lemma ParsedKeys(p: Parsers, users: seq<string>, key: string)
    requires ParseKeys(p, users).Some?
    ensures key in ParseKeys(p, users).value <==> exists i :: 0 <= i < |users| && p.key(users[i]) == Some(key)
  {
    var keys := ParseKeys(p, users).value;
    if key in keys {
      var i :| 0 <= i < |keys| && keys[i] == key;
      assert p.key(users[i]) == Some(keys[i]);
    }
  }

  /** A record matches what its rule and its resource are about, and nothing else. */
  lemma RecordIs(p: Parsers, info: ResourceInfo, o: AstOperation, q: Request)
    requires FormRecord(p, info, o).Some?
    ensures RecordMatches(FormRecord(p, info, o).value, q) <==> Applies(p, info, q) && Counts(p, o, q)
    ensures FormRecord(p, info, o).value.action == o.action
  {
    hide ParseKeys;
    var r := FormRecord(p, info, o).value;
    FiltersMatch(p, info, q);
    if !o.IsGroupGrantee() { ParsedKeys(p, o.users, q.key); }
    assert r.targets == [FormTarget(p, o).value];
    assert TargetMatches(r.targets[0], q) <==> Counts(p, o.(op := q.op), q);
  }

  lemma FiltersMatch(p: Parsers, info: ResourceInfo, q: Request)
    requires FormFilters(p, info).Some?
    ensures var filters := FormFilters(p, info).value;
            (forall i :: 0 <= i < |filters| ==> FilterMatches(filters[i], q)) <==> Applies(p, info, q)
  {
    assert FILE_PATH != OBJECT_ID by { assert FILE_PATH[0] != OBJECT_ID[0]; }
    var filters := FormFilters(p, info).value;
    assert filters == [] || filters == [filters[0]];
  }

  lemma {:induction false} RecordsDecide(p: Parsers, info: ResourceInfo, ops: seq<AstOperation>, q: Request)
    requires FormRecords(p, info, ops).Some?
    ensures FirstMatch(FormRecords(p, info, ops).value, q) ==
            if Applies(p, info, q) then LastCounting(p, ops, q) else None
  {
    hide FormRecord, Counts, Applies, RecordMatches;
    if ops != [] {
      var last := |ops| - 1;
      RecordsDecide(p, info, ops[..last], q);
      RecordIs(p, info, ops[last], q);
      var records := FormRecords(p, info, ops).value;
      assert records[0] == FormRecord(p, info, ops[last]).value;
      assert records[1..] == FormRecords(p, info, ops[..last]).value;
    }
  }

  /** The first matching record of a table decides as the rules do that it was written from. */
  lemma {:induction false} TableDecides(p: Parsers, rs: seq<Resource>, q: Request)
    requires AstTable(p, rs).Some?
    ensures FirstMatch(AstTable(p, rs).value, q) == Decision(p, rs, q)
  {
    hide FormRecords, RecordMatches, ToRecord, LastCounting, Applies;
    if rs != [] {
      var r, rest := rs[|rs| - 1], rs[..|rs| - 1];
      var records := FormRecords(p, r.info, r.operations).value;
      var service := ToRecord(ServiceRecord(N.Name(r.info), |records|));
      TableDecides(p, rest, q);
      RecordsDecide(p, r.info, r.operations, q);
      ServiceMatchesNone(ServiceRecord(N.Name(r.info), |records|), q);
      FirstMatchJoin([service] + records, AstTable(p, rest).value, q);
      assert ([service] + records)[1..] == records;
    }
  }

  // ---- when there is a table ----

  /** All users that rules name have keys, and the versions of objects that rules are about are object ids. */
  ghost predicate Readable(p: Parsers, r: Resource)
  {
    forall o :: o in r.operations ==>
      && (forall u :: u in o.users ==> p.key(u).Some?)
      && (r.info.objectName != "" && r.info.version != "" ==> p.id(r.info.version).Some?)
  }

  lemma RecordThere(p: Parsers, info: ResourceInfo, o: AstOperation)
    ensures FormRecord(p, info, o).Some? <==>
            && (forall u :: u in o.users ==> p.key(u).Some?)
            && (info.objectName != "" && info.version != "" ==> p.id(info.version).Some?)
  {
  }

  lemma {:induction false} RecordsThere(p: Parsers, info: ResourceInfo, ops: seq<AstOperation>)
    ensures FormRecords(p, info, ops).Some? <==> forall o :: o in ops ==> FormRecord(p, info, o).Some?
  {
    hide FormRecord;
    if ops != [] {
      var last := |ops| - 1;
      RecordsThere(p, info, ops[..last]);
      assert ops == ops[..last] + [ops[last]];
    }
  }

  /** There is a table exactly if everything in the rules can be read. */
  lemma {:induction false} TableThere(p: Parsers, rs: seq<Resource>)
    ensures AstTable(p, rs).Some? <==> forall r :: r in rs ==> Readable(p, r)
  {
    hide FormRecords, FormRecord, ToRecord, Readable;
    if rs != [] {
      var r, rest := rs[|rs| - 1], rs[..|rs| - 1];
      TableThere(p, rest);
      ResourceThere(p, r);
      assert forall x :: x in rs <==> x in rest || x == r by { assert rs == rest + [r]; }
    }
  }

  lemma ResourceThere(p: Parsers, r: Resource)
    ensures FormRecords(p, r.info, r.operations).Some? <==> Readable(p, r)
  {
    hide FormRecord;
    RecordsThere(p, r.info, r.operations);
    forall o
      ensures FormRecord(p, r.info, o).Some? <==>
              && (forall u :: u in o.users ==> p.key(u).Some?)
              && (r.info.objectName != "" && r.info.version != "" ==> p.id(r.info.version).Some?)
    {
      RecordThere(p, r.info, o);
    }
  }
}
