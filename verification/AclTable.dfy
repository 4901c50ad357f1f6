/** Writing the rules of a bucket as an access table and reading them back. */
module AclTables {
  import opened AclNames
  import opened Acls
  import opened Strings
  import opened Wrappers

  datatype Role = UnknownRole | UserRole | SystemRole | OthersRole

  datatype Matcher = MatchUnknown | MatchStringEqual | MatchStringNotEqual

  datatype HeaderFrom = FromUnknown | FromRequest | FromObject | FromService

  datatype Filter = Filter(from: HeaderFrom, matcher: Matcher, key: string, value: string)

  /** Keys are written as text. */
  datatype Target = Target(role: Role, keys: seq<string>)

  datatype Record = Record(action: Action, op: Operation, filters: seq<Filter>, targets: seq<Target>)

  datatype ServiceRecord = ServiceRecord(resource: string, groupLength: int)

  const RESOURCE_KEY := "Resource"
  const GROUP_LENGTH_KEY := "GroupLength"
  const FILE_PATH := "FilePath"
  const OBJECT_ID := "$Object:objectID"

  /** How the gateway reads users and versions: the canonical text of a key or an object id, if it is one. */
  datatype Parsers = Parsers(key: string -> Option<string>, id: string -> Option<string>)

  // ---- writing ----

  function ToRecord(s: ServiceRecord): Record
    requires 0 <= s.groupLength
  {
    Record(Allow, Get,
           [Filter(FromService, MatchUnknown, RESOURCE_KEY, s.resource),
            Filter(FromService, MatchUnknown, GROUP_LENGTH_KEY, Decimal(s.groupLength))],
           [Target(SystemRole, [])])
  }

  function ParseKeys(p: Parsers, users: seq<string>): (r: Option<seq<string>>)
    ensures r.Some? <==> forall u :: u in users ==> p.key(u).Some?
    ensures r.Some? ==> |r.value| == |users| && forall i :: 0 <= i < |users| ==> p.key(users[i]) == Some(r.value[i])
  {
    if users == [] then Some([])
    else
      var last := |users| - 1;
      assert forall u :: u in users <==> u in users[..last] || u == users[last];
      var rest, k := ParseKeys(p, users[..last]), p.key(users[last]);
      if rest.Some? && k.Some? then Some(rest.value + [k.value]) else None
  }

  /** The filters that restrict a record to an object or a version; none for a bucket. */
  function FormFilters(p: Parsers, info: ResourceInfo): Option<seq<Filter>>
  {
    if info.objectName == "" then Some([])
    else if info.version == "" then Some([Filter(FromObject, MatchStringEqual, FILE_PATH, info.objectName)])
    else
      var id := p.id(info.version);
      if id.Some? then Some([Filter(FromObject, MatchStringEqual, OBJECT_ID, id.value)]) else None
  }

  function FormTarget(p: Parsers, o: AstOperation): Option<Target>
  {
    if o.IsGroupGrantee() then Some(Target(OthersRole, []))
    else
      var keys := ParseKeys(p, o.users);
      if keys.Some? then Some(Target(UnknownRole, keys.value)) else None
  }

  function FormRecord(p: Parsers, info: ResourceInfo, o: AstOperation): Option<Record>
  {
    var target, filters := FormTarget(p, o), FormFilters(p, info);
    if target.Some? && filters.Some? then Some(Record(o.action, o.op, filters.value, [target.value])) else None
  }

  /** The records of a resource, last rule first. */
  function FormRecords(p: Parsers, info: ResourceInfo, ops: seq<AstOperation>): (r: Option<seq<Record>>)
    ensures r.Some? ==> |r.value| == |ops|
  {
    if ops == [] then Some([])
    else
      var first, rest := FormRecord(p, info, ops[|ops| - 1]), FormRecords(p, info, ops[..|ops| - 1]);
      if first.Some? && rest.Some? then Some([first.value] + rest.value) else None
  }

  /** The table: last resource first, each with a service record in front. */
  function AstTable(p: Parsers, rs: seq<Resource>): Option<seq<Record>>
  {
    if rs == [] then Some([])
    else
      var r := rs[|rs| - 1];
      var records, rest := FormRecords(p, r.info, r.operations), AstTable(p, rs[..|rs| - 1]);
      if records.Some? && rest.Some? then
        Some([ToRecord(ServiceRecord(Name(r.info), |records.value|))] + records.value + rest.value)
      else None
  }

  function Behind(records: seq<Record>, rest: Option<seq<Record>>): Option<seq<Record>>
  {
    if rest.Some? then Some(records + rest.value) else None
  }

  lemma BehindNothing(records: seq<Record>, rest: Option<seq<Record>>)
    ensures Behind([], rest) == rest && Behind(records, Some([])) == Some(records)
  {
    assert records + [] == records;
    if rest.Some? { assert [] + rest.value == rest.value; }
  }

  lemma BehindMore(records: seq<Record>, more: seq<Record>, rest: Option<seq<Record>>)
    ensures Behind(records, Behind(more, rest)) == Behind(records + more, rest)
  {
    if rest.Some? { assert records + (more + rest.value) == records + more + rest.value; }
  }

  method FormRecordsOf(p: Parsers, resource: Resource) returns (res: Option<seq<Record>>)
    ensures res == FormRecords(p, resource.info, resource.operations)
  {
    hide FormRecord;
    var ops, records := resource.operations, [];
    var i := |ops|;
    assert ops[..|ops|] == ops;
    BehindNothing(records, FormRecords(p, resource.info, ops));
    while i > 0
      invariant 0 <= i <= |ops|
      invariant FormRecords(p, resource.info, ops) == Behind(records, FormRecords(p, resource.info, ops[..i]))
    {
      i := i - 1;
      assert ops[..i + 1][..i] == ops[..i];
      var record := FormRecord(p, resource.info, ops[i]);
      if record.None? {
        return None;
      }
      BehindMore(records, [record.value], FormRecords(p, resource.info, ops[..i]));
      records := records + [record.value];
    }
    BehindNothing(records, None);
    return Some(records);
  }

  method AstToTable(p: Parsers, rs: seq<Resource>) returns (table: Option<seq<Record>>)
    ensures table == AstTable(p, rs)
  {
    hide FormRecords, ToRecord;
    var records := [];
    var i := |rs|;
    assert rs[..|rs|] == rs;
    BehindNothing(records, AstTable(p, rs));
    while i > 0
      invariant 0 <= i <= |rs|
      invariant AstTable(p, rs) == Behind(records, AstTable(p, rs[..i]))
    {
      i := i - 1;
      assert rs[..i + 1][..i] == rs[..i];
      var formed := FormRecordsOf(p, rs[i]);
      if formed.None? {
        return None;
      }
      var service := ToRecord(ServiceRecord(Name(rs[i].info), |formed.value|));
      BehindMore(records, [service] + formed.value, AstTable(p, rs[..i]));
      assert records + ([service] + formed.value) == records + [service] + formed.value;
      records := records + [service];
      records := records + formed.value;
    }
    BehindNothing(records, None);
    return Some(records);
  }
}
