/** Object locks: what a lock node remembers, how a lock may change, and what no run of changes undoes. */
module Locks {
  import F = Forests
  import opened Wrappers

  const IS_LOCK := F.IS_LOCK
  const LEGAL_HOLD_OID := "LegalHoldOID"
  const RETENTION_OID := "RetentionOID"
  const UNTIL_DATE := "UntilDate"
  const IS_COMPLIANCE := "IsCompliance"

  const SECOND := 1_000_000_000

  /** A point in time in nanoseconds. */
  type Instant = int

  function WholeSeconds(t: Instant): Instant { t - t % SECOND }

  /** Writing and reading dates as section 5.6 of RFC 3339 has it, and telling object ids from other text. */
  datatype Texts = Texts(format: Instant -> string, parse: string -> Option<Instant>, isOid: string -> bool)
  {
    /** Dates are written up to whole seconds. Some, such as those with years of five digits, cannot be read again. */
    ghost predicate Valid()
    {
      forall t :: format(t) != "" && (parse(format(t)).None? || parse(format(t)) == Some(WholeSeconds(t)))
    }
  }

  // ---- lock nodes ----

  /** What a lock node says. */
  datatype Lock = Lock(legalHold: Option<string>, retention: Option<Retention>)

  datatype Retention = Retention(oid: string, until: string, isCompliance: bool)

  const NO_LOCK := Lock(None, None)

  function EncodeLock(l: Lock): map<string, string>
  {
    map[IS_LOCK := "true"]
    + (if l.legalHold.Some? then map[LEGAL_HOLD_OID := l.legalHold.value] else map[])
    + (if l.retention.Some? then map[RETENTION_OID := l.retention.value.oid, UNTIL_DATE := l.retention.value.until]
       else map[])
    + (if l.retention.Some? && l.retention.value.isCompliance then map[IS_COMPLIANCE := "true"] else map[])
  }

  /** The lock of a node, unless an object id in it is invalid. */
  function DecodeLock(x: Texts, meta: map<string, string>): Option<Lock>
  {
    if LEGAL_HOLD_OID in meta && !x.isOid(meta[LEGAL_HOLD_OID]) then None
    else if RETENTION_OID in meta && !x.isOid(meta[RETENTION_OID]) then None
    else
      Some(Lock(if LEGAL_HOLD_OID in meta then Some(meta[LEGAL_HOLD_OID]) else None,
                if RETENTION_OID in meta then
                  Some(Retention(meta[RETENTION_OID],
                                 if UNTIL_DATE in meta then meta[UNTIL_DATE] else "",
                                 IS_COMPLIANCE in meta))
                else None))
  }

  ghost predicate GoodOids(x: Texts, l: Lock)
  {
    && (l.legalHold.Some? ==> x.isOid(l.legalHold.value))
    && (l.retention.Some? ==> x.isOid(l.retention.value.oid))
  }

  lemma LockKeysDiffer()
    ensures IS_LOCK != LEGAL_HOLD_OID && IS_LOCK != RETENTION_OID && IS_LOCK != UNTIL_DATE && IS_LOCK != IS_COMPLIANCE
    ensures LEGAL_HOLD_OID != RETENTION_OID && LEGAL_HOLD_OID != UNTIL_DATE && LEGAL_HOLD_OID != IS_COMPLIANCE
    ensures RETENTION_OID != UNTIL_DATE && RETENTION_OID != IS_COMPLIANCE && UNTIL_DATE != IS_COMPLIANCE
  {
    assert |IS_LOCK| == 6 && |UNTIL_DATE| == 9;
    assert LEGAL_HOLD_OID[0] == 'L' && RETENTION_OID[0] == 'R' && UNTIL_DATE[0] == 'U';
    assert IS_COMPLIANCE[0] == 'I' && IS_LOCK[0] == 'I';
    assert |IS_COMPLIANCE| == 12;
  }

  /** A lock reads back from its node. */
  lemma LockReadsBack(x: Texts, l: Lock)
    requires GoodOids(x, l)
    ensures DecodeLock(x, EncodeLock(l)) == Some(l) && IS_LOCK in EncodeLock(l)
  {
    LockKeysDiffer();
  }

  /** A date without a fraction of a second, if there is one that can be read. */
  ghost predicate WholeDate(x: Texts, l: Option<Lock>)
  {
    l.Some? && l.value.retention.Some? && x.parse(l.value.retention.value.until).Some? ==>
      x.parse(l.value.retention.value.until).value % SECOND == 0
  }

  // ---- a change of a lock ----

  datatype NewRetention = NewRetention(until: Instant, isCompliance: bool, bypassedGovernance: bool)

  /** What a caller wants: a retention, a legal hold to be on or off, or both. */
  datatype NewLock = NewLock(retention: Option<NewRetention>, legalHold: Option<bool>)

  /** A set retention may be replaced if it is no compliance one, the caller may, and its date is not shortened. */
  ghost predicate MayReplace(x: Texts, r: Retention, n: NewRetention)
  {
    && !r.isCompliance && n.bypassedGovernance
    && (r.until != "" ==> x.parse(r.until).Some? && x.parse(r.until).value <= n.until)
  }

  ghost predicate Allowed(x: Texts, l: Lock, n: NewLock)
  {
    n.retention.Some? && l.retention.Some? ==> MayReplace(x, l.retention.value, n.retention.value)
  }

  /** The lock after a change, given the ids of the lock objects that are created for it. */
  function Changed(x: Texts, l: Lock, n: NewLock, retentionOid: string, holdOid: string): Lock
  {
    Lock(if n.legalHold.None? then l.legalHold
         else if !n.legalHold.value then None
         else if l.legalHold.None? then Some(holdOid) else l.legalHold,
         if n.retention.None? then l.retention
         else Some(Retention(retentionOid, x.format(n.retention.value.until), n.retention.value.isCompliance)))
  }

  /**
   A requested hold is there, with its old id if it was there before; a released one is gone; others are as
   before.
   */
  ghost predicate HoldGranted(before: Option<string>, n: Option<bool>, after: Option<string>, holdOid: string)
  {
    match n
    case None => after == before
    case Some(on) => if on then after.Some? && (if before.Some? then after == before else after == Some(holdOid))
                     else after.None?
  }

  /**
   A requested retention is there, and its date reads as the whole seconds of the requested one; others are as
   before.
   */
  ghost predicate RetentionGranted(x: Texts, before: Option<Retention>, n: Option<NewRetention>,
                                   after: Option<Retention>, retentionOid: string)
  {
    match n
    case None => after == before
    case Some(r) =>
      && after.Some? && after.value.oid == retentionOid && after.value.isCompliance == r.isCompliance
      && after.value.until == x.format(r.until)
      && (x.parse(after.value.until).None? || x.parse(after.value.until) == Some(WholeSeconds(r.until)))
  }

  /** What is asked for is what the lock says afterwards. */
  lemma ChangeGrants(x: Texts, l: Lock, n: NewLock, retentionOid: string, holdOid: string)
    requires x.Valid()
    ensures var after := Changed(x, l, n, retentionOid, holdOid);
            && HoldGranted(l.legalHold, n.legalHold, after.legalHold, holdOid)
            && RetentionGranted(x, l.retention, n.retention, after.retention, retentionOid)
  {
    if n.retention.Some? {
      assert x.format(n.retention.value.until) != "";
    }
  }

  // ---- what changes keep ----

  /** A later date, or one that cannot be read any more and so never changes; a missing date may be set. */
  ghost predicate NotEarlier(x: Texts, a: string, b: string)
  {
    a == "" || a == b || (b != "" && x.parse(a).Some? && (x.parse(b).None? || x.parse(a).value <= x.parse(b).value))
  }

  /** A set retention stays set, a compliance one stays as it is, and the date is not shortened. */
  ghost predicate Kept(x: Texts, before: Option<Retention>, after: Option<Retention>)
  {
    before.Some? ==>
      && after.Some? && (before.value.isCompliance ==> after == before)
      && NotEarlier(x, before.value.until, after.value.until)
  }

  lemma KeptTransitive(x: Texts, a: Option<Retention>, b: Option<Retention>, c: Option<Retention>)
    requires Kept(x, a, b) && Kept(x, b, c)
    ensures Kept(x, a, c)
  {
  }

  /** A change that is allowed keeps a retention, and without a bypass leaves a set one as it is. */
  lemma ChangeKeeps(x: Texts, l: Lock, n: NewLock, retentionOid: string, holdOid: string)
    requires x.Valid() && WholeDate(x, Some(l)) && Allowed(x, l, n)
    ensures var after := Changed(x, l, n, retentionOid, holdOid);
            && Kept(x, l.retention, after.retention) && WholeDate(x, Some(after))
            && (l.retention.Some? && after.retention != l.retention ==>
                  n.retention.Some? && n.retention.value.bypassedGovernance)
  {
    if n.retention.Some? {
      var until := n.retention.value.until;
      WholeIsWhole(until);
      assert x.format(until) != "";
      assert x.parse(x.format(until)).None? || x.parse(x.format(until)) == Some(WholeSeconds(until));
      if l.retention.Some? && x.parse(l.retention.value.until).Some? {
        WholeBelow(x.parse(l.retention.value.until).value, until);
      }
    }
  }

  lemma WholeIsWhole(t: Instant)
    ensures WholeSeconds(t) % SECOND == 0
  {
  }

  /** Whole seconds up to a time are up to its whole seconds. */
  lemma WholeBelow(a: Instant, t: Instant)
    requires a % SECOND == 0
    ensures a <= t ==> a <= WholeSeconds(t)
  {
  }

  /** With a fraction in the stored date a later date can be stored as an earlier one. */
  lemma FractionsShorten(x: Texts, l: Lock, n: NewLock, retentionOid: string, holdOid: string)
    requires x.Valid() && Allowed(x, l, n) && l.retention.Some? && n.retention.Some? && l.retention.value.until != ""
    requires x.parse(x.format(n.retention.value.until)).Some?
    ensures !Kept(x, l.retention, Changed(x, l, n, retentionOid, holdOid).retention) <==>
            x.parse(l.retention.value.until).value > WholeSeconds(n.retention.value.until) &&
            l.retention.value.until != x.format(n.retention.value.until)
  {
    assert x.parse(x.format(n.retention.value.until)) == Some(WholeSeconds(n.retention.value.until));
    assert x.format(n.retention.value.until) != "";
  }

  /** The values of a lock that the gateway works on. */
  class LockInfo {
    var id: nat
    var legalHoldOID: string
    var setLegalHold: bool
    var retentionOID: string
    var setRetention: bool
    var untilDate: string
    var isCompliance: bool

    constructor (id: nat)
      ensures this.id == id && Value() == NO_LOCK
    {
      this.id, legalHoldOID, setLegalHold := id, "", false;
      retentionOID, setRetention, untilDate, isCompliance := "", false, "", false;
    }

    function Value(): Lock
      reads this
    {
      Lock(if setLegalHold then Some(legalHoldOID) else None,
           if setRetention then Some(Retention(retentionOID, untilDate, isCompliance)) else None)
    }

    method SetLegalHold(oid: string)
      modifies this
      ensures id == old(id) && Value() == old(Value()).(legalHold := Some(oid))
    {
      legalHoldOID, setLegalHold := oid, true;
    }

    method ResetLegalHold()
      modifies this
      ensures id == old(id) && Value() == old(Value()).(legalHold := None)
    {
      setLegalHold := false;
    }

    method SetRetention(oid: string, until: string, compliance: bool)
      modifies this
      ensures id == old(id) && Value() == old(Value()).(retention := Some(Retention(oid, until, compliance)))
    {
      retentionOID, setRetention, untilDate, isCompliance := oid, true, until, compliance;
    }
  }

  datatype LockNode = LockNode(version: nat, meta: map<string, string>)

  datatype Outcome = Stored | NotAllowed | CallFailed

  ghost function LockIn(x: Texts, nodes: map<nat, LockNode>, version: nat): Option<Lock>
  {
    if id: nat :| id in nodes && nodes[id].version == version then DecodeLock(x, nodes[id].meta) else Some(NO_LOCK)
  }

  ghost predicate OneNodeEach(nodes: map<nat, LockNode>)
  {
    forall a, b :: a in nodes && b in nodes && nodes[a].version == nodes[b].version ==> a == b
  }

  lemma LockAt(x: Texts, nodes: map<nat, LockNode>, id: nat)
    requires OneNodeEach(nodes) && id in nodes
    ensures LockIn(x, nodes, nodes[id].version) == DecodeLock(x, nodes[id].meta)
  {
  }

  lemma NoLockAt(x: Texts, nodes: map<nat, LockNode>, version: nat)
    requires forall id :: id in nodes ==> nodes[id].version != version
    ensures LockIn(x, nodes, version) == Some(NO_LOCK)
  {
  }

  /** Writing the node of one version leaves the locks of others alone. */
  lemma OtherLocks(x: Texts, nodes: map<nat, LockNode>, id: nat, n: LockNode)
    requires OneNodeEach(nodes) && OneNodeEach(nodes[id := n]) && (id in nodes ==> nodes[id].version == n.version)
    ensures forall v :: v != n.version ==> LockIn(x, nodes[id := n], v) == LockIn(x, nodes, v)
  {
    var after := nodes[id := n];
    forall v | v != n.version ensures LockIn(x, after, v) == LockIn(x, nodes, v) {
      if k: nat :| k in nodes && nodes[k].version == v {
        LockAt(x, nodes, k);
        assert k in after && after[k] == nodes[k];
        LockAt(x, after, k);
      } else {
        NoLockAt(x, nodes, v);
        NoLockAt(x, after, v);
      }
    }
  }

  /** Lock nodes with ids below the next one, one for each version that has any, and dates as they are written. */
  ghost predicate GoodNodes(x: Texts, nodes: map<nat, LockNode>, nextId: nat)
  {
    && (forall id :: id in nodes ==> 0 < id < nextId && IS_LOCK in nodes[id].meta)
    && OneNodeEach(nodes)
    && (forall id :: id in nodes ==> WholeDate(x, DecodeLock(x, nodes[id].meta)))
  }

  lemma IdsBelow(x: Texts, nodes: map<nat, LockNode>, nextId: nat)
    requires GoodNodes(x, nodes, nextId)
    ensures forall id :: id in nodes ==> 0 < id < nextId
  {
  }

  lemma NodeWritten(x: Texts, nodes: map<nat, LockNode>, nextId: nat, id: nat, n: LockNode)
    requires GoodNodes(x, nodes, nextId) && 0 < id <= nextId
    requires IS_LOCK in n.meta && WholeDate(x, DecodeLock(x, n.meta))
    requires if id == nextId then forall k :: k in nodes ==> nodes[k].version != n.version
             else id in nodes && nodes[id].version == n.version
    ensures GoodNodes(x, nodes[id := n], if id == nextId then nextId + 1 else nextId)
    ensures LockIn(x, nodes[id := n], n.version) == DecodeLock(x, n.meta)
    ensures forall v :: v != n.version ==> LockIn(x, nodes[id := n], v) == LockIn(x, nodes, v)
  {
    hide DecodeLock, WholeDate, LockIn;
    OtherLocks(x, nodes, id, n);
    LockAt(x, nodes[id := n], id);
  }

  /** The lock nodes of the versions of a bucket. */
  class LockStore {
    const texts: Texts
    var nodes: map<nat, LockNode>
    var nextId: nat

    ghost predicate Valid()
      reads this
    {
      texts.Valid() && 0 < nextId && GoodNodes(texts, nodes, nextId)
    }

    constructor (texts: Texts)
      requires texts.Valid()
      ensures Valid() && this.texts == texts && nodes == map[]
    {
      this.texts, nodes, nextId := texts, map[], 1;
    }

    /** The lock of a version as its node says, or none at all. */
    ghost function LockOf(version: nat): Option<Lock>
      reads this
    {
      LockIn(texts, nodes, version)
    }

    /** Reads the lock of a version; null if its node cannot be read. */
    method GetLock(version: nat) returns (info: LockInfo?)
      requires Valid()
      ensures info == null <==> LockOf(version).None?
      ensures info != null ==>
                fresh(info) && LockOf(version) == Some(info.Value()) &&
                (if info.id == 0 then forall id :: id in nodes ==> nodes[id].version != version
                 else info.id in nodes && nodes[info.id].version == version)
    {
      var found := set id | id in nodes && nodes[id].version == version;
      if found == {} {
        forall id | id in nodes ensures nodes[id].version != version { assert id !in found; }
        NoLockAt(texts, nodes, version);
        info := new LockInfo(0);
        return;
      }
      var id :| id in found;
      LockAt(texts, nodes, id);
      var meta := nodes[id].meta;
      var l := new LockInfo(id);
      if LEGAL_HOLD_OID in meta {
        if !texts.isOid(meta[LEGAL_HOLD_OID]) {
          return null;
        }
        l.SetLegalHold(meta[LEGAL_HOLD_OID]);
      }
      if RETENTION_OID in meta {
        if !texts.isOid(meta[RETENTION_OID]) {
          return null;
        }
        l.SetRetention(meta[RETENTION_OID], if UNTIL_DATE in meta then meta[UNTIL_DATE] else "", IS_COMPLIANCE in meta);
      }
      info := l;
    }

    /** Writes the lock of a version into its node, which is new if it has none. */
    method PutLock(version: nat, info: LockInfo)
      requires Valid() && GoodOids(texts, info.Value()) && WholeDate(texts, Some(info.Value()))
      requires if info.id == 0 then forall id :: id in nodes ==> nodes[id].version != version
               else info.id in nodes && nodes[info.id].version == version
      modifies this
      ensures Valid() && LockOf(version) == Some(info.Value())
      ensures forall v :: v != version ==> LockOf(v) == old(LockOf(v))
    {
      var l := info.Value();
      LockReadsBack(texts, l);
      IdsBelow(texts, nodes, nextId);
      hide LockIn, DecodeLock, EncodeLock, GoodNodes, WholeDate, GoodOids;
      var id := if info.id == 0 then nextId else info.id;
      var node := LockNode(version, EncodeLock(l));
      NodeWritten(texts, nodes, nextId, id, node);
      nodes := nodes[id := node];
      if info.id == 0 {
        nextId := nextId + 1;
      }
    }

    lemma FoundIsGood(version: nat)
      requires Valid() && LockOf(version).Some?
      ensures GoodOids(texts, LockOf(version).value) && WholeDate(texts, LockOf(version))
    {
      if id: nat :| id in nodes && nodes[id].version == version {
        LockAt(texts, nodes, id);
        assert WholeDate(texts, DecodeLock(texts, nodes[id].meta));
      } else {
        NoLockAt(texts, nodes, version);
      }
    }

    /** One of the calls fails that a change needs: those for what it asks for, and always the one to the tree. */
    static predicate CallsFail(l: Lock, n: NewLock, created: bool, held: bool, released: bool, stored: bool)
    {
      || !stored
      || (!created && n.retention.Some?)
      || (!held && n.legalHold == Some(true) && l.legalHold.None?)
      || (!released && n.legalHold == Some(false) && l.legalHold.Some?)
    }

    /**
     Changes the lock of a version. `created`, `held`, `released` and `stored` say whether the calls succeed that
     create the lock objects, delete one, and change the tree.
     */
    method PutLockInfo(version: nat, n: NewLock, retentionOid: string, holdOid: string,
                       created: bool, held: bool, released: bool, stored: bool) returns (r: Outcome)
      requires Valid() && texts.isOid(retentionOid) && texts.isOid(holdOid)
      modifies this
      ensures Valid()
      ensures r == Stored ==>
                && old(LockOf(version)).Some? && Allowed(texts, old(LockOf(version)).value, n)
                && LockOf(version) == Some(Changed(texts, old(LockOf(version)).value, n, retentionOid, holdOid))
                && forall v :: v != version ==> LockOf(v) == old(LockOf(v))
      ensures r == Stored ==>
                && HoldGranted(old(LockOf(version)).value.legalHold, n.legalHold, LockOf(version).value.legalHold,
                               holdOid)
                && RetentionGranted(texts, old(LockOf(version)).value.retention, n.retention,
                                    LockOf(version).value.retention, retentionOid)
      ensures r != Stored ==> nodes == old(nodes) && forall v :: LockOf(v) == old(LockOf(v))
      ensures r == NotAllowed <==>
                && old(LockOf(version)).Some? && n.retention.Some? && old(LockOf(version)).value.retention.Some?
                && var had := old(LockOf(version)).value.retention.value;
                   || had.isCompliance || !n.retention.value.bypassedGovernance
                   || (had.until != "" && (texts.parse(had.until).None? ||
                                            texts.parse(had.until).value > n.retention.value.until))
      ensures r == CallFailed <==>
                || old(LockOf(version)).None?
                || (r != NotAllowed && CallsFail(old(LockOf(version)).value, n, created, held, released, stored))
    {
      hide LockOf;
      var info := GetLock(version);
      if info == null {
        return CallFailed;
      }
      ghost var l := info.Value();
      FoundIsGood(version);
      var refused := Refuses(info, n);
      if refused {
        return NotAllowed;
      }
      ChangeKeeps(texts, l, n, retentionOid, holdOid);
      ChangeGrants(texts, l, n, retentionOid, holdOid);
      if n.retention.Some? {
        if !created {
          return CallFailed;
        }
        info.SetRetention(retentionOid, texts.format(n.retention.value.until), n.retention.value.isCompliance);
      }
      if n.legalHold.Some? {
        if n.legalHold.value && !info.setLegalHold {
          if !held {
            return CallFailed;
          }
          info.SetLegalHold(holdOid);
        } else if !n.legalHold.value && info.setLegalHold {
          if !released {
            return CallFailed;
          }
          info.ResetLegalHold();
        }
      }
      if !stored {
        return CallFailed;
      }
      assert info.Value() == Changed(texts, l, n, retentionOid, holdOid);
      PutLock(version, info);
      return Stored;
    }

    /** Whether a change of a set retention is refused. */
    method Refuses(info: LockInfo, n: NewLock) returns (refused: bool)
      ensures refused <==> !Allowed(texts, info.Value(), n)
    {
      if n.retention.None? || !info.setRetention {
        return false;
      }
      if info.isCompliance || !n.retention.value.bypassedGovernance {
        return true;
      }
      if |info.untilDate| > 0 {
        var parsed := texts.parse(info.untilDate);
        if parsed.None? || parsed.value > n.retention.value.until {
          return true;
        }
      }
      return false;
    }

    /** The retention of a version, if its lock can be read and has one. */
    ghost function RetentionOf(version: nat): Option<Retention>
      requires Valid()
      reads this
    {
      if LockOf(version).Some? then LockOf(version).value.retention else None
    }

    twostate predicate AllKept()
      requires old(Valid()) && Valid()
      reads this
    {
      forall v: nat :: Kept(texts, old(RetentionOf(v)), RetentionOf(v))
    }

    /** One change, whether it succeeds or not. */
    method Change(c: Call) returns (r: Outcome)
      requires Valid() && texts.isOid(c.retentionOid) && texts.isOid(c.holdOid)
      modifies this
      ensures Valid() && AllKept()
      ensures forall v: nat :: old(RetentionOf(v)).Some? && RetentionOf(v) != old(RetentionOf(v)) ==>
                v == c.version && Bypasses(c)
      ensures forall v: nat :: if r == Stored && v == c.version then Does(texts, old(LockOf(v)), LockOf(v), c)
                               else LockOf(v) == old(LockOf(v))
      ensures Succeeds(c, old(LockOf(c.version)).Some?, r)
    {
      hide GoodNodes, LockIn, DecodeLock;
      ghost var l := LockOf(c.version);
      if l.Some? { FoundIsGood(c.version); }
      r := PutLockInfo(c.version, c.lock, c.retentionOid, c.holdOid, c.created, c.held, c.released, c.stored);
      if r == Stored {
        ChangeKeeps(texts, l.value, c.lock, c.retentionOid, c.holdOid);
      }
      hide LockOf;
      forall v: nat
        ensures Kept(texts, old(RetentionOf(v)), RetentionOf(v))
        ensures r != Stored || v != c.version ==> LockOf(v) == old(LockOf(v))
      {
        if r != Stored || v != c.version { assert LockOf(v) == old(LockOf(v)); }
      }
    }

    /**
     Over any sequence of changes, whether they succeed or not: no retention is lost, no compliance retention
     changes, no date is shortened; and a version that no change with a bypass is for keeps a retention it has.
     A version is held exactly if the last stored change that says anything about holds asked for one, or none did
     and it was held before; a held one keeps its hold until a stored change releases it.
     */
    method Run(calls: seq<Call>) returns (outs: seq<Outcome>)
      requires Valid()
      requires forall i :: 0 <= i < |calls| ==> texts.isOid(calls[i].retentionOid) && texts.isOid(calls[i].holdOid)
      modifies this
      ensures Valid() && AllKept() && |outs| == |calls|
      ensures forall v: nat :: old(RetentionOf(v)).Some? && NoBypass(calls, v) ==> RetentionOf(v) == old(RetentionOf(v))
      ensures forall v: nat :: Follows(texts, old(LockOf(v)), LockOf(v), calls, outs, v)
      ensures forall i :: 0 <= i < |calls| ==> Succeeds(calls[i], old(LockOf(calls[i].version)).Some?, outs[i])
    {
      hide Kept, RetentionOf, LockOf, Follows, Does, Bypasses, Succeeds;
      KeptReflexive();
      outs := [];
      forall v: nat ensures Follows(texts, LockOf(v), LockOf(v), [], [], v) { NothingFollows(texts, LockOf(v), v); }
      assert calls[..0] == [];
      for k := 0 to |calls|
        invariant Valid() && AllKept() && |outs| == k
        invariant forall v: nat :: old(RetentionOf(v)).Some? && NoBypass(calls, v) ==>
                    RetentionOf(v) == old(RetentionOf(v))
        invariant forall v: nat :: Follows(texts, old(LockOf(v)), LockOf(v), calls[..k], outs, v)
        invariant forall i :: 0 <= i < k ==> Succeeds(calls[i], old(LockOf(calls[i].version)).Some?, outs[i])
      {
        label Before:
        var r := Change(calls[k]);
        assert calls[..k + 1] == calls[..k] + [calls[k]];
        forall v: nat
          ensures Kept(texts, old(RetentionOf(v)), RetentionOf(v))
          ensures Follows(texts, old(LockOf(v)), LockOf(v), calls[..k + 1], outs + [r], v)
        {
          assert Kept(texts, old@Before(RetentionOf(v)), RetentionOf(v));
          KeptTransitive(texts, old(RetentionOf(v)), old@Before(RetentionOf(v)), RetentionOf(v));
          FollowsOn(texts, old(LockOf(v)), old@Before(LockOf(v)), LockOf(v), calls[..k], outs, calls[k], r, v);
        }
        SameReadable(texts, old(LockOf(calls[k].version)), old@Before(LockOf(calls[k].version)), calls[..k], outs,
                     calls[k].version);
        outs := outs + [r];
      }
      assert calls[..|calls|] == calls;
    }

    lemma KeptReflexive()
      ensures forall r: Option<Retention> :: Kept(texts, r, r)
    {
    }
  }

  predicate Bypasses(c: Call)
  {
    c.lock.retention.Some? && c.lock.retention.value.bypassedGovernance
  }

  datatype Call = Call(version: nat, lock: NewLock, retentionOid: string, holdOid: string,
                       created: bool, held: bool, released: bool, stored: bool)

  /** A change is stored if all calls succeed, unless it is refused, which only retentions are. */
  ghost predicate Succeeds(c: Call, readable: bool, r: Outcome)
  {
    && (c.created && c.held && c.released && c.stored && readable ==> r != CallFailed)
    && (r == NotAllowed ==> c.lock.retention.Some? && readable)
  }

  /** What a stored change does. */
  ghost predicate Does(x: Texts, before: Option<Lock>, after: Option<Lock>, c: Call)
  {
    && before.Some? && after.Some?
    && HoldGranted(before.value.legalHold, c.lock.legalHold, after.value.legalHold, c.holdOid)
    && RetentionGranted(x, before.value.retention, c.lock.retention, after.value.retention, c.retentionOid)
  }

  /** No change for a version may bypass governance. */
  ghost predicate NoBypass(calls: seq<Call>, version: nat)
  {
    forall i :: 0 <= i < |calls| && calls[i].version == version ==> !Bypasses(calls[i])
  }

  /** No stored change for a version releases it. */
  ghost predicate NoRelease(calls: seq<Call>, outs: seq<Outcome>, version: nat)
    requires |outs| == |calls|
  {
    forall i :: 0 <= i < |calls| && calls[i].version == version && outs[i] == Stored ==>
      calls[i].lock.legalHold != Some(false)
  }

  /** What the last stored change for a version that speaks of legal holds asks for. */
  ghost function LastHold(calls: seq<Call>, outs: seq<Outcome>, version: nat): Option<bool>
    requires |outs| == |calls|
  {
    if calls == [] then None
    else
      var k := |calls| - 1;
      if calls[k].version == version && outs[k] == Stored && calls[k].lock.legalHold.Some? then calls[k].lock.legalHold
      else LastHold(calls[..k], outs[..k], version)
  }

  /** What the last stored change for a version that speaks of retentions asks for. */
  ghost function LastRetention(calls: seq<Call>, outs: seq<Outcome>, version: nat): Option<NewRetention>
    requires |outs| == |calls|
  {
    if calls == [] then None
    else
      var k := |calls| - 1;
      if calls[k].version == version && outs[k] == Stored && calls[k].lock.retention.Some? then calls[k].lock.retention
      else LastRetention(calls[..k], outs[..k], version)
  }

  /**
   What becomes of the lock of a version in a run: its hold and its retention are those last asked for, or those it
   had, and a hold that nothing releases is the one it was.
   */
  ghost predicate Follows(x: Texts, before: Option<Lock>, after: Option<Lock>, calls: seq<Call>, outs: seq<Outcome>,
                          version: nat)
    requires |outs| == |calls|
  {
    if before.None? then after.None?
    else
      && after.Some?
      && FollowsHold(before.value.legalHold, after.value.legalHold, LastHold(calls, outs, version))
      && (NoRelease(calls, outs, version) && before.value.legalHold.Some? ==>
            after.value.legalHold == before.value.legalHold)
      && FollowsRetention(x, before.value.retention, after.value.retention, LastRetention(calls, outs, version))
  }

  ghost predicate FollowsHold(before: Option<string>, after: Option<string>, asked: Option<bool>)
  {
    if asked.None? then after == before else after.Some? == asked.value
  }

  ghost predicate FollowsRetention(x: Texts, before: Option<Retention>, after: Option<Retention>,
                                   asked: Option<NewRetention>)
  {
    if asked.None? then after == before
    else after.Some? && RetentionGranted(x, before, asked, after, after.value.oid)
  }

  lemma NothingFollows(x: Texts, l: Option<Lock>, version: nat)
    ensures Follows(x, l, l, [], [], version)
  {
  }

  lemma SameReadable(x: Texts, before: Option<Lock>, after: Option<Lock>, calls: seq<Call>, outs: seq<Outcome>,
                     version: nat)
    requires |outs| == |calls| && Follows(x, before, after, calls, outs, version)
    ensures before.Some? <==> after.Some?
  {
  }

  /** One change more. */
  lemma FollowsOn(x: Texts, before: Option<Lock>, middle: Option<Lock>, after: Option<Lock>, calls: seq<Call>,
                  outs: seq<Outcome>, c: Call, r: Outcome, version: nat)
    requires |outs| == |calls| && Follows(x, before, middle, calls, outs, version)
    requires if r == Stored && version == c.version then Does(x, middle, after, c) else after == middle
    ensures Follows(x, before, after, calls + [c], outs + [r], version)
  {
    var all, results := calls + [c], outs + [r];
    assert all[..|calls|] == calls && results[..|calls|] == outs && all[|calls|] == c && results[|calls|] == r;
    assert forall i :: 0 <= i < |calls| ==> all[i] == calls[i] && results[i] == outs[i];
    assert NoRelease(all, results, version) ==> NoRelease(calls, outs, version);
    if r == Stored && version == c.version && before.Some? {
      assert c.lock.legalHold == Some(false) ==> !NoRelease(all, results, version);
    }
  }
}
