/** Access tables without service records, whose resources are read from the filters of their records. */
module AclBareTables {
  import opened AclNames
  import opened AclRoundTrips
  import opened AclTableReaders
  import opened AclTables
  import opened Acls
  import opened Strings
  import opened Wrappers

  // ---- service records ----

  /** A record is read as a service record exactly if it is one, but for other ways to write its number. */
  lemma ServiceIs(r: Record, s: ServiceRecord)
    requires 0 <= s.groupLength <= MAX_INT
    ensures r == ToRecord(s) <==>
            && TryServiceRecord(r) == Some(s) && r.targets == [Target(SystemRole, [])]
            && |r.filters| == 2 && r.filters[1].value == Decimal(s.groupLength)
  {
    hide Decimal, Atoi;
    ServiceReads(s);
    if |r.filters| == 2 { assert r.filters == [r.filters[0], r.filters[1]]; }
  }

  /** A table without its service records. */
  function Bare(table: seq<Record>): seq<Record>
  {
    if table == [] then []
    else
      var last := |table| - 1;
      Bare(table[..last]) + if TryServiceRecord(table[last]).None? then [table[last]] else []
  }

  lemma {:induction false} BareJoin(a: seq<Record>, b: seq<Record>)
    ensures Bare(a + b) == Bare(a) + Bare(b)
  {
    hide TryServiceRecord;
    if b == [] {
      assert a + b == a;
    } else {
      var last := |b| - 1;
      assert (a + b)[..|a + b| - 1] == a + b[..last] && (a + b)[|a + b| - 1] == b[last];
      BareJoin(a, b[..last]);
    }
  }

  /** Records of rules stay. */
  lemma {:induction false} RulesStay(p: Parsers, info: ResourceInfo, ops: seq<AstOperation>)
    requires FormRecords(p, info, ops).Some?
    ensures Bare(FormRecords(p, info, ops).value) == FormRecords(p, info, ops).value
  {
    hide FormRecord, TryServiceRecord;
    if ops != [] {
      var o, rest := ops[|ops| - 1], ops[..|ops| - 1];
      RulesStay(p, info, rest);
      var first := FormRecord(p, info, o).value;
      BareJoin([first], FormRecords(p, info, rest).value);
      NoService(p, info, o);
      BareOne(first);
    }
  }

  lemma NoService(p: Parsers, info: ResourceInfo, o: AstOperation)
    requires FormRecord(p, info, o).Some?
    ensures TryServiceRecord(FormRecord(p, info, o).value).None?
  {
    hide FormFilters, ParseKeys;
  }

  lemma BareOne(r: Record)
    ensures Bare([r]) == if TryServiceRecord(r).None? then [r] else []
  {
    hide TryServiceRecord;
    assert [r][..0] == [] && Bare([]) == [];
  }

  // ---- resources from filters ----

  predicate Compares(f: Filter, key: string) { f.matcher == MatchStringEqual && f.key == key }

  /** The last filter that compares with a key. */
  predicate LastWith(filters: seq<Filter>, key: string, i: nat)
  {
    i < |filters| && Compares(filters[i], key) && forall j :: i < j < |filters| ==> !Compares(filters[j], key)
  }

  predicate NoneWith(filters: seq<Filter>, key: string)
  {
    forall i :: 0 <= i < |filters| ==> !Compares(filters[i], key)
  }

  /** The last path and the last object id that filters compare with. */
  lemma {:induction false} FiltersGive(bucket: string, filters: seq<Filter>)
    ensures var info := InfoFromFilters(bucket, filters);
            && info.bucket == bucket
            && (NoneWith(filters, FILE_PATH) ==> info.objectName == "")
            && (NoneWith(filters, OBJECT_ID) ==> info.version == "")
            && (forall i: nat :: LastWith(filters, FILE_PATH, i) ==> info.objectName == filters[i].value)
            && (forall i: nat :: LastWith(filters, OBJECT_ID, i) ==> info.version == filters[i].value)
  {
    hide NoneWith, LastWith;
    if filters == [] {
      NothingWith(FILE_PATH);
      NothingWith(OBJECT_ID);
    } else {
      assert FILE_PATH[0] != OBJECT_ID[0];
      FiltersGive(bucket, filters[..|filters| - 1]);
      OneMoreWith(filters, FILE_PATH);
      OneMoreWith(filters, OBJECT_ID);
    }
  }

  lemma NothingWith(key: string)
    ensures NoneWith([], key) && forall i: nat :: !LastWith([], key, i)
  {
  }

  lemma OneMoreWith(filters: seq<Filter>, key: string)
    requires filters != []
    ensures var rest, f := filters[..|filters| - 1], filters[|filters| - 1];
            && (NoneWith(filters, key) <==> NoneWith(rest, key) && !Compares(f, key))
            && (forall i: nat :: LastWith(filters, key, i) ==>
                  if Compares(f, key) then i < |filters| && filters[i] == f
                  else i < |rest| && LastWith(rest, key, i) && filters[i] == rest[i])
  {
    hide Compares;
    var rest := filters[..|filters| - 1];
    assert forall j :: 0 <= j < |rest| ==> rest[j] == filters[j];
  }

  /** What filters tell of a resource: of a version not the name of its object. */
  function FilterInfo(p: Parsers, info: ResourceInfo, bucket: string): ResourceInfo
  {
    if info.objectName == "" then ResourceInfo(bucket, "", "")
    else if info.version == "" then ResourceInfo(bucket, info.objectName, "")
    else ResourceInfo(bucket, "", if p.id(info.version).Some? then p.id(info.version).value else "")
  }

  /** By the filters of its records. */
  function ByFilter(p: Parsers, bucket: string): Reading { (info: ResourceInfo) => FilterInfo(p, info, bucket) }

  /** Filters are read as the object or the version that they were written for. */
  lemma FiltersRead(p: Parsers, info: ResourceInfo, bucket: string)
    requires FormFilters(p, info).Some?
    ensures InfoFromFilters(bucket, FormFilters(p, info).value) == FilterInfo(p, info, bucket)
  {
    var filters := FormFilters(p, info).value;
    assert FILE_PATH[0] != OBJECT_ID[0];
    if filters != [] {
      assert filters[..0] == [];
      assert InfoFromFilters(bucket, []) == ResourceInfo(bucket, "", "");
    }
  }

  /** So rules for a version become rules for the bucket, and are written as such. */
  lemma VersionBecomesBucket(p: Parsers, info: ResourceInfo, bucket: string)
    requires FormFilters(p, info).Some? && info.objectName != "" && info.version != ""
    ensures var read := InfoFromFilters(bucket, FormFilters(p, info).value);
            Name(read) == bucket && FormFilters(p, read) == Some([])
  {
    FiltersRead(p, info, bucket);
  }

  // ---- reading ----

  /** A record of a rule, where its resource was met before. */
  lemma BareRule(st: ReadState, p: Parsers, info: ResourceInfo, o: AstOperation, bucket: string)
    requires FormRecord(p, info, o).Some? && st.left == 0
    requires FindName(st.list, Name(FilterInfo(p, info, bucket))) < |st.list|
    ensures FormTarget(p, o).Some?
    ensures var i := FindName(st.list, Name(FilterInfo(p, info, bucket)));
            Next(st, FormRecord(p, info, o).value, bucket) ==
            st.(list := st.list[i := st.list[i].(operations :=
                  AddedTarget(st.list[i].operations, Record(o.action, o.op, [], []), FormTarget(p, o).value))])
  {
    NoService(p, info, o);
    FiltersRead(p, info, bucket);
    hide FindName, FormFilters, AddedTarget, TryServiceRecord, Name, InfoFromFilters, FilterInfo;
    var record := FormRecord(p, info, o).value;
    OneTarget(st.list[FindName(st.list, Name(FilterInfo(p, info, bucket)))].operations, record, FormTarget(p, o).value);
  }

  lemma {:induction false} BareRules(st: ReadState, p: Parsers, info: ResourceInfo, ops: seq<AstOperation>,
                                     bucket: string)
    requires FormRecords(p, info, ops).Some? && st.left == 0
    requires FindName(st.list, Name(FilterInfo(p, info, bucket))) < |st.list|
    ensures Writable(p, ops)
    ensures var i := FindName(st.list, Name(FilterInfo(p, info, bucket)));
            ReadAll(st, FormRecords(p, info, ops).value, bucket) ==
            st.(list := st.list[i := st.list[i].(operations := Collected(p, st.list[i].operations, ops))])
    decreases |ops|
  {
    hide FindName, FormRecord, AddedTarget, Next, FormTarget, Name, FilterInfo;
    FormsWritable(p, info, ops);
    var name := Name(FilterInfo(p, info, bucket));
    var i := FindName(st.list, name);
    if ops == [] {
      assert st.list[i := st.list[i]] == st.list;
    } else {
      var o, rest := ops[|ops| - 1], ops[..|ops| - 1];
      BareRule(st, p, info, o, bucket);
      var st' := Next(st, FormRecord(p, info, o).value, bucket);
      FindNameStays(st.list, name, st'.list[i].operations);
      ReadFirst(st, FormRecord(p, info, o).value, FormRecords(p, info, rest).value, bucket);
      BareRules(st', p, info, rest, bucket);
      assert st'.list[i := st'.list[i].(operations := Collected(p, st'.list[i].operations, rest))] ==
             st.list[i := st.list[i].(operations := Collected(p, st.list[i].operations, ops))];
    }
  }

  /** The first record of a resource lets it be met. */
  lemma BareMeets(st: ReadState, p: Parsers, info: ResourceInfo, o: AstOperation, bucket: string)
    requires FormRecord(p, info, o).Some? && st.left == 0
    ensures var met := st.(list := WithName(st.list, FilterInfo(p, info, bucket)));
            Next(st, FormRecord(p, info, o).value, bucket) == Next(met, FormRecord(p, info, o).value, bucket)
  {
    NoService(p, info, o);
    FiltersRead(p, info, bucket);
    hide FindName, FormRecord, TryServiceRecord, Name, InfoFromFilters, FilterInfo, WithRecord;
    NamedIsFound(st.list, FilterInfo(p, info, bucket));
  }

  lemma BareGroup(p: Parsers, st: ReadState, r: Resource, bucket: string)
    requires st.left == 0 && r.operations != [] && FormRecords(p, r.info, r.operations).Some?
    ensures Writable(p, r.operations)
    ensures ReadAll(st, FormRecords(p, r.info, r.operations).value, bucket) ==
            st.(list := WithGroup(p, st.list, r, ByFilter(p, bucket)))
  {
    hide FindName, FormRecord, Name, FilterInfo, Collected, WithName, Next;
    var info := FilterInfo(p, r.info, bucket);
    var met := st.(list := WithName(st.list, info));
    var o, rest := r.operations[|r.operations| - 1], r.operations[..|r.operations| - 1];
    BareMeets(st, p, r.info, o, bucket);
    ReadFirst(st, FormRecord(p, r.info, o).value, FormRecords(p, r.info, rest).value, bucket);
    ReadFirst(met, FormRecord(p, r.info, o).value, FormRecords(p, r.info, rest).value, bucket);
    NamedIsFound(st.list, info);
    BareRules(met, p, r.info, r.operations, bucket);
  }

  /** Resources without rules are not met. */
  function WithRules(rs: seq<Resource>): (r: seq<Resource>)
    ensures |r| <= |rs| && (|r| == |rs| <==> forall x :: x in rs ==> x.operations != [])
    ensures |r| == |rs| ==> r == rs
  {
    if rs == [] then []
    else
      var last := |rs| - 1;
      assert forall x :: x in rs <==> x in rs[..last] || x == rs[last];
      WithRules(rs[..last]) + if rs[last].operations == [] then [] else [rs[last]]
  }

  lemma BareStep(p: Parsers, rs: seq<Resource>)
    requires rs != [] && AstTable(p, rs).Some? && Countable(rs)
    ensures AstTable(p, rs[..|rs| - 1]).Some? && FormRecords(p, rs[|rs| - 1].info, rs[|rs| - 1].operations).Some?
    ensures Bare(AstTable(p, rs).value) ==
            FormRecords(p, rs[|rs| - 1].info, rs[|rs| - 1].operations).value +
            Bare(AstTable(p, rs[..|rs| - 1]).value)
  {
    hide FormRecords, ToRecord, Name, TryServiceRecord, Bare;
    var r, rest := rs[|rs| - 1], rs[..|rs| - 1];
    var records := FormRecords(p, r.info, r.operations).value;
    var service := ServiceRecord(Name(r.info), |records|);
    ServiceReads(service);
    BareOne(ToRecord(service));
    RulesStay(p, r.info, r.operations);
    BareJoin([ToRecord(service)], records);
    BareJoin([ToRecord(service)] + records, AstTable(p, rest).value);
    assert [] + records == records;
  }

  /** Reading a written table without its service records gathers the resources that have rules. */
  lemma {:induction false} ReadBare(p: Parsers, st: ReadState, rs: seq<Resource>, bucket: string)
    requires AstTable(p, rs).Some? && st.left == 0 && Countable(rs)
    ensures AllWritable(p, WithRules(rs))
    ensures ReadAll(st, Bare(AstTable(p, rs).value), bucket).list ==
            Gathered(p, st.list, WithRules(rs), ByFilter(p, bucket))
    decreases |rs|
  {
    hide FormRecords, AstTable, Name, Next, WithGroup, ByFilter, Bare, Writable;
    if rs == [] {
      assert Bare(AstTable(p, []).value) == [] by { BareNothing(p); }
    } else {
      var r, rest := rs[|rs| - 1], rs[..|rs| - 1];
      BareStep(p, rs);
      var records := FormRecords(p, r.info, r.operations).value;
      ReadAppend(st, records, Bare(AstTable(p, rest).value), bucket);
      if r.operations == [] {
        assert records == [] && ReadAll(st, [], bucket) == st;
        assert WithRules(rest) + [] == WithRules(rest);
        ReadBare(p, st, rest, bucket);
      } else {
        BareGroup(p, st, r, bucket);
        ReadBare(p, ReadAll(st, records, bucket), rest, bucket);
        WithRulesSnoc(p, rs);
      }
    }
  }

  lemma BareNothing(p: Parsers)
    ensures AstTable(p, []) == Some([]) && Bare([]) == []
  {
  }

  lemma WithRulesSnoc(p: Parsers, rs: seq<Resource>)
    requires rs != [] && rs[|rs| - 1].operations != []
    requires Writable(p, rs[|rs| - 1].operations) && AllWritable(p, WithRules(rs[..|rs| - 1]))
    ensures AllWritable(p, WithRules(rs)) && WithRules(rs) != []
    ensures var some := WithRules(rs);
            some[|some| - 1] == rs[|rs| - 1] && some[..|some| - 1] == WithRules(rs[..|rs| - 1])
  {
    hide Writable;
  }

  // ---- the round trip ----

  /** Every resource is the bucket or an object without a version, has rules, and they are canonical. */
  ghost predicate Plain(p: Parsers, rs: seq<Resource>, bucket: string)
  {
    && (forall i :: 0 <= i < |rs| ==> PlainResource(p, rs[i], bucket))
    && (forall i, j :: 0 <= i < j < |rs| ==> rs[i].info != rs[j].info)
  }

  ghost predicate PlainResource(p: Parsers, r: Resource, bucket: string)
  {
    r.info.bucket == bucket && r.info.version == "" && r.operations != [] && CanonicalRules(p, r)
  }

  lemma FilterReadsBack(p: Parsers, info: ResourceInfo, bucket: string)
    ensures FilterInfo(p, info, bucket) == info <==> info.bucket == bucket && info.version == ""
  {
  }

  lemma PlainNames(p: Parsers, rs: seq<Resource>, bucket: string)
    requires forall i :: 0 <= i < |rs| ==> rs[i].info.bucket == bucket && rs[i].info.version == ""
    ensures DistinctKeys(rs, ByFilter(p, bucket)) <==> forall i, j :: 0 <= i < j < |rs| ==> rs[i].info != rs[j].info
  {
    forall i, j | 0 <= i < j < |rs|
      ensures Key(rs[i], ByFilter(p, bucket)) != Key(rs[j], ByFilter(p, bucket)) <==> rs[i].info != rs[j].info
    {
      FilterReadsBack(p, rs[i].info, bucket);
      FilterReadsBack(p, rs[j].info, bucket);
      NamesDiffer(bucket, rs[i].info.objectName, rs[j].info.objectName);
      hide FilterInfo;
    }
  }

  lemma NamesDiffer(bucket: string, a: string, b: string)
    ensures Name(ResourceInfo(bucket, a, "")) == Name(ResourceInfo(bucket, b, "")) <==> a == b
  {
    var front := bucket + "/";
    if a != "" && b != "" && front + a == front + b {
      assert a == (front + a)[|front|..] && b == (front + b)[|front|..];
    }
  }

  /** A written table reads back without its service records exactly if all its resources are plain. */
  lemma BareRoundTrip(p: Parsers, rs: seq<Resource>, bucket: string)
    requires Countable(rs) && AstTable(p, rs).Some?
    ensures Finished(ReadAll(START, Bare(AstTable(p, rs).value), bucket).list) == rs <==> Plain(p, rs, bucket)
  {
    hide AstTable, ReadAll, Finished, Gathered, FormRecords, Writable, CanonicalRules, ComesBack, DistinctKeys, Bare,
      WithRules, FilterInfo;
    var back := ByFilter(p, bucket);
    ReadBare(p, START, rs, bucket);
    if forall x :: x in rs ==> x.operations != [] {
      ResourcesComeBack(p, rs, back);
      TableAll(p, rs);
      forall i | 0 <= i < |rs| ensures ComesBack(p, rs[i], back) <==> PlainResource(p, rs[i], bucket) {
        assert rs[i] in rs;
        ResourceComesBack(p, rs[i], back);
        FilterReadsBack(p, rs[i].info, bucket);
      }
      if forall i :: 0 <= i < |rs| ==> rs[i].info.bucket == bucket && rs[i].info.version == "" {
        PlainNames(p, rs, bucket);
      }
    } else {
      GatheredAll(p, [], WithRules(rs), back);
    }
  }
}
