/**
 Adding and removing object versions: the versions of a bucket as a map by node id, on which a path never
 has more than one unversioned ("null") version.
 */
module VersionStores {
  import opened Wrappers
  import opened Forests
  import opened Strings
  import opened TreeServices

  const SIZE := "Size"
  const ETAG := "ETag"

  /** The version that a put or a delete marker adds. */
  datatype NewVersion = NewVersion(filePath: string, oid: string, size: nat, etag: string,
                                   isUnversioned: bool, isDeleteMarker: bool)

  datatype Result = Success(id: nat) | Failure

  datatype Unversioned = Found(version: NodeVersion) | NotFound | MoreThanOne

  /** No path has two null versions. */
  ghost predicate OneNullVersion(vs: map<nat, NodeVersion>)
  {
    forall a, b ::
      a in vs && b in vs && vs[a].isUnversioned && vs[b].isUnversioned && vs[a].filePath == vs[b].filePath ==> a == b
  }

  /** The null version of a path. */
  ghost predicate IsNull(vs: map<nat, NodeVersion>, id: nat, path: string)
  {
    id in vs && vs[id].isUnversioned && vs[id].filePath == path
  }

  function MetaOf(v: NewVersion): map<string, string>
  {
    var path := Split(v.filePath, SEPARATOR);
    map[OID := v.oid, FILE_NAME := path[|path| - 1]]
    + (if v.size > 0 then map[SIZE := Decimal(v.size)] else map[])
    + (if v.etag != "" then map[ETAG := v.etag] else map[])
    + (if v.isDeleteMarker then map[IS_DELETE_MARKER := "true"] else map[])
    + (if v.isUnversioned then map[IS_UNVERSIONED := "true"] else map[])
  }

  lemma MetaReadsBack(v: NewVersion, n: Node)
    requires n.meta == MetaOf(v)
    ensures var path := Split(v.filePath, SEPARATOR);
            && HasName(n) && FileName(n) == path[|path| - 1] && OID in n.meta && Oid(n) == v.oid
            && FILE_NAME in n.meta && n.meta[FILE_NAME] == path[|path| - 1]
            && SEPARATOR !in path[|path| - 1] && IS_TAG !in n.meta
            && (IS_UNVERSIONED in n.meta <==> v.isUnversioned) && (IS_DELETE_MARKER in n.meta <==> v.isDeleteMarker)
    ensures ReadETag(n.meta) == v.etag && (v.size <= MAX_INT ==> ReadSize(n.meta) == Some(v.size))
  {
    JoinSplit(v.filePath, SEPARATOR);
    hide Split, MetaOf;
    var path := Split(v.filePath, SEPARATOR);
    assert path[|path| - 1] in path;
    MetaHas(v);
    MetaMarks(v);
    MetaSize(v);
  }

  /** The size of a version, if it can be read; zero if there is none. */
  function ReadSize(meta: map<string, string>): Option<int>
  {
    if SIZE !in meta || meta[SIZE] == "" then Some(0) else Atoi(meta[SIZE])
  }

  function ReadETag(meta: map<string, string>): string
  {
    if ETAG in meta then meta[ETAG] else ""
  }

  lemma MetaSize(v: NewVersion)
    ensures ReadETag(MetaOf(v)) == v.etag && (v.size <= MAX_INT ==> ReadSize(MetaOf(v)) == Some(v.size))
  {
    hide Split, Decimal, Atoi;
    KeysDiffer();
    if v.size <= MAX_INT {
      AtoiDecimal(v.size);
      AtoiEmpty();
    }
  }

  lemma AtoiEmpty()
    ensures Atoi("").None?
  {
  }

  lemma MetaHas(v: NewVersion)
    ensures var path, meta := Split(v.filePath, SEPARATOR), MetaOf(v);
            OID in meta && meta[OID] == v.oid && FILE_NAME in meta && meta[FILE_NAME] == path[|path| - 1]
  {
    hide Split, Decimal;
    KeysDiffer();
  }

  lemma MetaMarks(v: NewVersion)
    ensures var meta := MetaOf(v);
            && (IS_UNVERSIONED in meta <==> v.isUnversioned) && (IS_DELETE_MARKER in meta <==> v.isDeleteMarker)
            && IS_TAG !in meta
  {
    hide Split, Decimal;
    KeysDiffer();
  }

  lemma KeysDiffer()
    ensures FILE_NAME != OID && FILE_NAME != SIZE && FILE_NAME != ETAG && FILE_NAME != IS_DELETE_MARKER
    ensures FILE_NAME != IS_UNVERSIONED
    ensures OID != SIZE && OID != ETAG && OID != IS_DELETE_MARKER && OID != IS_UNVERSIONED
    ensures SIZE != ETAG && SIZE != IS_DELETE_MARKER && SIZE != IS_UNVERSIONED
    ensures ETAG != IS_DELETE_MARKER && ETAG != IS_UNVERSIONED && IS_DELETE_MARKER != IS_UNVERSIONED
    ensures IS_TAG !in {FILE_NAME, OID, SIZE, ETAG, IS_DELETE_MARKER, IS_UNVERSIONED}
  {
    assert |IS_TAG| == 5 && |FILE_NAME| == 8 && |OID| == 3 && |SIZE| == 4 && |ETAG| == 4;
    assert |IS_DELETE_MARKER| == 14 && |IS_UNVERSIONED| == 13;
    assert SIZE[0] != ETAG[0];
  }

  /** The versions of a bucket after a version was added under a node id at a time. */
  ghost predicate Added(before: map<nat, NodeVersion>, after: map<nat, NodeVersion>, v: NewVersion, id: nat)
  {
    exists parent: nat, time: nat ::
      && after == before[id := NodeVersion(id, parent, v.oid, time, v.filePath, v.isUnversioned, v.isDeleteMarker)]
      && (forall x :: x in before ==> before[x].timestamp < time)
      && (id in before ==> parent == before[id].parenID)
  }

  lemma OthersStay(before: map<nat, NodeVersion>, after: map<nat, NodeVersion>, v: NewVersion, id: nat, x: nat)
    requires Added(before, after, v, id)
    requires v.isUnversioned ==> forall y :: IsNull(before, y, v.filePath) ==> y == id
    ensures x != id && x in after ==> x in before && after[x] == before[x]
    ensures id in after && after[id].filePath == v.filePath && after[id].isUnversioned == v.isUnversioned
    ensures x != id && IsNull(after, x, v.filePath) ==> !v.isUnversioned
  {
    assert IsNull(after, x, v.filePath) && x != id ==> IsNull(before, x, v.filePath);
  }

  /** The null version keeps its node; any other version gets a node of its own. */
  lemma AddedKeepsOneNull(before: map<nat, NodeVersion>, after: map<nat, NodeVersion>, v: NewVersion, id: nat)
    requires OneNullVersion(before) && Added(before, after, v, id)
    requires v.isUnversioned ==> forall x :: IsNull(before, x, v.filePath) ==> x == id
    ensures OneNullVersion(after)
  {
    forall a, b | && a in after && b in after && after[a].isUnversioned && after[b].isUnversioned
                  && after[a].filePath == after[b].filePath
      ensures a == b
    {
      OthersStay(before, after, v, id, a);
      OthersStay(before, after, v, id, b);
    }
  }

  class VersionStore {
    const service: TreeService

    constructor ()
      ensures fresh(service) && Valid() && Versions(service.forest) == map[]
    {
      service := new TreeService();
    }

    ghost predicate Valid()
      reads service
    {
      service.Valid() && OneNullVersion(Versions(service.forest))
    }

    /** A node of a path, directories included, read as a version. */
    ghost predicate NodeOf(v: NodeVersion, filepath: string, onlyUnversioned: bool)
      requires service.Valid()
      reads service
    {
      && v.id in service.forest && HasName(service.forest[v.id])
      && Comps(service.forest, v.id) == Split(filepath, SEPARATOR)
      && v == NewNodeVersion(filepath, service.forest[v.id])
      && (onlyUnversioned ==> v.isUnversioned)
    }

    static function VersionsOf(filepath: string, nodes: seq<Node>, onlyUnversioned: bool): seq<NodeVersion>
    {
      if nodes == [] then []
      else
        var v := NewNodeVersion(filepath, nodes[|nodes| - 1]);
        VersionsOf(filepath, nodes[..|nodes| - 1], onlyUnversioned) +
        if onlyUnversioned && !v.isUnversioned then [] else [v]
    }

    lemma {:induction false} VersionsAmong(filepath: string, nodes: seq<Node>, onlyUnversioned: bool)
      ensures forall v :: v in VersionsOf(filepath, nodes, onlyUnversioned) <==>
                          exists n ::
                            n in nodes && v == NewNodeVersion(filepath, n) && (onlyUnversioned ==> v.isUnversioned)
    {
      if nodes != [] {
        var last, rest := nodes[|nodes| - 1], nodes[..|nodes| - 1];
        assert nodes == rest + [last];
        VersionsAmong(filepath, rest, onlyUnversioned);
      }
    }

    lemma {:induction false} AtMostOne(filepath: string, nodes: seq<Node>)
      requires forall i, j :: 0 <= i < j < |nodes| ==>
                 !(IS_UNVERSIONED in nodes[i].meta && IS_UNVERSIONED in nodes[j].meta)
      ensures |VersionsOf(filepath, nodes, true)| <= 1
      ensures (forall i :: 0 <= i < |nodes| ==> IS_UNVERSIONED !in nodes[i].meta) ==>
                VersionsOf(filepath, nodes, true) == []
    {
      if nodes != [] {
        AtMostOne(filepath, nodes[..|nodes| - 1]);
      }
    }

    /** A named node of the forest with a path. */
    ghost predicate NodeAt(n: Node, filepath: string)
      requires service.Valid()
      reads service
    {
      && n.id in service.forest && n == service.forest[n.id] && HasName(n)
      && Comps(service.forest, n.id) == Split(filepath, SEPARATOR)
    }

    /** The nodes of a path, directories included; or only the unversioned ones, of which there is at most one. */
    method GetVersions(filepath: string, onlyUnversioned: bool) returns (versions: seq<NodeVersion>)
      requires Valid()
      ensures forall v :: v in versions <==> NodeOf(v, filepath, onlyUnversioned)
      ensures onlyUnversioned ==> |versions| <= 1
    {
      hide WellFormed, Comps, Split, OneNullVersion, Versions, NodeOf;
      var nodes := service.GetNodeByPath(Split(filepath, SEPARATOR));
      versions := [];
      for k := 0 to |nodes|
        invariant versions == VersionsOf(filepath, nodes[..k], onlyUnversioned)
      {
        assert nodes[..k + 1][..k] == nodes[..k];
        var v := NewNodeVersion(filepath, nodes[k]);
        if onlyUnversioned && !v.isUnversioned {
          continue;
        }
        versions := versions + [v];
      }
      assert nodes[..|nodes|] == nodes;
      VersionsAmong(filepath, nodes, onlyUnversioned);
      NodesAreVersions(filepath, nodes, versions, onlyUnversioned);
      if onlyUnversioned {
        OneOfPath(filepath, nodes);
      }
    }

    lemma NodesAreVersions(filepath: string, nodes: seq<Node>, versions: seq<NodeVersion>, onlyUnversioned: bool)
      requires Valid() && Answer(service.forest, nodes)
      requires forall n :: n in nodes <==> NodeAt(n, filepath)
      requires forall v :: v in versions <==>
                          exists n ::
                            n in nodes && v == NewNodeVersion(filepath, n) && (onlyUnversioned ==> v.isUnversioned)
      ensures forall v :: v in versions <==> NodeOf(v, filepath, onlyUnversioned)
    {
      hide WellFormed, Comps, Split, OneNullVersion, Versions, Answer;
      forall v | NodeOf(v, filepath, onlyUnversioned) ensures v in versions {
        IdOf(v.id);
        assert service.forest[v.id] in nodes;
      }
    }

    lemma IdOf(id: nat)
      requires service.Valid() && id in service.forest
      ensures service.forest[id].id == id
    {
      assert Hangs(service.forest, id);
    }

    lemma OneOfPath(filepath: string, nodes: seq<Node>)
      requires Valid() && Answer(service.forest, nodes)
      requires forall n :: n in nodes ==> NodeAt(n, filepath)
      ensures |VersionsOf(filepath, nodes, true)| <= 1
    {
      hide WellFormed, Comps, Split;
      forall i | 0 <= i < |nodes|
        ensures IS_UNVERSIONED in nodes[i].meta ==>
                  IsNull(Versions(service.forest), nodes[i].id, Join(Split(filepath, SEPARATOR), SEPARATOR))
      {
        assert nodes[i] in nodes;
        NullIsVersion(nodes[i].id);
      }
      AtMostOne(filepath, nodes);
    }

    /** A named node with the null mark is no directory. */
    lemma NullIsVersion(id: nat)
      requires service.Valid() && id in service.forest && HasName(service.forest[id])
      ensures IS_UNVERSIONED in service.forest[id].meta ==> IsVersion(service.forest[id])
    {
      assert Hangs(service.forest, id) && Shaped(service.forest, id);
      KeysDiffer();
      assert IS_UNVERSIONED in service.forest[id].meta ==> service.forest[id].meta.Keys != {FILE_NAME};
    }

    /** The null version of a path; the state with more than one is never met. */
    method GetUnversioned(filepath: string) returns (r: Unversioned)
      requires Valid()
      ensures r != MoreThanOne
      ensures r.NotFound? ==> forall id :: !IsNull(Versions(service.forest), id, filepath)
      ensures r.Found? ==> IsNull(Versions(service.forest), r.version.id, filepath) &&
                           r.version == Versions(service.forest)[r.version.id]
    {
      var nodes := GetVersions(filepath, true);
      NullsOfPath(filepath, nodes);
      if |nodes| > 1 {
        return MoreThanOne;
      }
      if |nodes| != 1 {
        return NotFound;
      }
      return Found(nodes[0]);
    }

    lemma NullsOfPath(filepath: string, nodes: seq<NodeVersion>)
      requires Valid() && forall v :: v in nodes <==> NodeOf(v, filepath, true)
      ensures forall id :: IsNull(Versions(service.forest), id, filepath) ==> Versions(service.forest)[id] in nodes
      ensures forall v :: v in nodes ==>
                IsNull(Versions(service.forest), v.id, filepath) && v == Versions(service.forest)[v.id]
    {
      hide WellFormed, Comps, Split, OneNullVersion;
      var f := service.forest;
      forall id | IsNull(Versions(f), id, filepath) ensures Versions(f)[id] in nodes {
        IdOf(id);
        PathComps(id);
      }
      forall v | v in nodes ensures IsNull(Versions(f), v.id, filepath) && v == Versions(f)[v.id] {
        IdOf(v.id);
        NullIsVersion(v.id);
        PathComps(v.id);
        JoinSplit(filepath, SEPARATOR);
      }
    }

    lemma PathComps(id: nat)
      requires service.Valid() && id in service.forest && HasName(service.forest[id])
      ensures Split(Path(service.forest, id), SEPARATOR) == Comps(service.forest, id)
    {
      SplitJoin(Comps(service.forest, id), SEPARATOR);
    }

    /** The versions after a version was added: those before, with the new one under `id`. */
    ghost predicate Adds(before: map<nat, NodeVersion>, v: NewVersion, id: nat)
      requires Valid()
      reads service
    {
      && Added(before, Versions(service.forest), v, id)
      && (forall x :: IsNull(before, x, v.filePath) && v.isUnversioned ==> x == id)
      && (id in before ==> v.isUnversioned && IsNull(before, id, v.filePath))
    }

    lemma MetaFits(v: NewVersion)
      requires v.oid != ""
      ensures var path, meta := Split(v.filePath, SEPARATOR), MetaOf(v);
              && path != [] && (forall c :: c in path ==> SEPARATOR !in c)
              && FILE_NAME in meta && meta[FILE_NAME] == path[|path| - 1] && OID in meta && meta[OID] == v.oid
    {
      var n := Node(0, 0, 0, 0, MetaOf(v));
      MetaReadsBack(v, n);
      JoinSplit(v.filePath, SEPARATOR);
    }

    lemma TimesBelow()
      requires service.Valid()
      ensures forall x :: x in Versions(service.forest) ==>
                x in service.forest && Versions(service.forest)[x].timestamp < service.clock
    {
    }

    lemma NullFits(v: NewVersion, node: NodeVersion)
      requires Valid() && IsNull(Versions(service.forest), node.id, v.filePath)
      requires node == Versions(service.forest)[node.id]
      ensures node.id in service.forest && IsVersion(service.forest[node.id]) && HasName(service.forest[node.id])
      ensures node.parenID == service.forest[node.id].parent && Path(service.forest, node.id) == v.filePath
      ensures FileName(service.forest[node.id]) == Split(v.filePath, SEPARATOR)[|Split(v.filePath, SEPARATOR)| - 1]
    {
      IdOf(node.id);
      PathComps(node.id);
    }

    static lemma NullUnique(vs: map<nat, NodeVersion>, path: string, id: nat)
      requires OneNullVersion(vs) && IsNull(vs, id, path)
      ensures forall x :: IsNull(vs, x, path) ==> x == id
    {
    }

    static lemma NoNull(vs: map<nat, NodeVersion>, v: NewVersion, id: nat)
      requires id !in vs && (v.isUnversioned ==> forall x :: !IsNull(vs, x, v.filePath))
      ensures forall x :: IsNull(vs, x, v.filePath) && v.isUnversioned ==> x == id
      ensures !IsNull(vs, id, v.filePath)
    {
    }

    static lemma Recorded(before: map<nat, NodeVersion>, after: map<nat, NodeVersion>, v: NewVersion, n: Node)
      requires n.meta == MetaOf(v) && (forall x :: x in before ==> before[x].timestamp < n.timestamp)
      requires n.id in before ==> n.parent == before[n.id].parenID
      requires after == before[n.id := NewNodeVersion(v.filePath, n)]
      ensures Added(before, after, v, n.id)
    {
      MetaReadsBack(v, n);
      assert after == before[n.id := NodeVersion(n.id, n.parent, v.oid, n.timestamp, v.filePath, v.isUnversioned,
                                                 v.isDeleteMarker)];
    }

    static lemma StaysVersion(n: Node)
      requires FILE_NAME in n.meta && OID in n.meta && n.meta[OID] != ""
      ensures IsVersion(n)
    {
    }

    /** The tagging node below a version: the first one a sub-tree of depth two lists. */
    method GetTagging(id: nat) returns (tagging: Option<Node>)
      requires service.Valid() && id in service.forest && IS_TAG !in service.forest[id].meta
      ensures tagging.None? ==> forall x :: !TaggingOf(service.forest, x, id)
      ensures tagging.Some? ==> TaggingOf(service.forest, tagging.value.id, id)
    {
      hide WellFormed, Answer;
      var nodes := service.GetChildren(id);
      for k := 0 to |nodes|
        invariant forall j :: 0 <= j < k ==> IS_TAG !in nodes[j].meta
      {
        if IS_TAG in nodes[k].meta {
          assert nodes[k] == nodes[1..][k - 1];
          assert nodes[k] in nodes[1..];
          return Some(nodes[k]);
        }
      }
      forall x | x in service.forest && service.forest[x].parent == id ensures IS_TAG !in service.forest[x].meta {
        IdOf(x);
        assert service.forest[x] in nodes[1..];
      }
      return None;
    }

    /** A node holds tags of another one. */
    static ghost predicate TaggingOf(f: Forest, x: nat, id: nat)
    {
      x in f && f[x].parent == id && IS_TAG in f[x].meta
    }

    static ghost predicate Untagged(f: Forest, id: nat)
    {
      forall x :: !TaggingOf(f, x, id)
    }

    /** Replacing a node does not change which nodes hold its tags. */
    lemma TaggingStays(f: Forest, g: Forest, id: nat)
      requires WellFormed(f) && id in f && f.Keys == g.Keys && g[id].parent == f[id].parent
      requires forall x :: x in g && x != id ==> g[x] == f[x]
      ensures OneTagging(f, id) ==> OneTagging(g, id)
    {
      assert Hangs(f, id);
      assert forall x :: TaggingOf(g, x, id) ==> TaggingOf(f, x, id);
    }

    /** The tags of a node are in at most one node. */
    static ghost predicate OneTagging(f: Forest, id: nat)
    {
      forall x, y :: TaggingOf(f, x, id) && TaggingOf(f, y, id) ==> x == y
    }

    /** Removes the tags of the version that a node held before. */
    method ClearOutdatedVersionInfo(id: nat)
      requires service.Valid() && id in service.forest && IsVersion(service.forest[id])
      requires IS_TAG !in service.forest[id].meta
      modifies service
      ensures service.Valid() && Versions(service.forest) == old(Versions(service.forest))
      ensures OneTagging(old(service.forest), id) ==> Untagged(service.forest, id)
    {
      hide WellFormed, Versions, IsVersion, HasName, InTree;
      var tagging := GetTagging(id);
      if tagging.Some? {
        var x := tagging.value.id;
        TaggingIsUnnamed(x, id);
        var _ := service.Remove(x);
        if OneTagging(old(service.forest), id) {
          forall y ensures !TaggingOf(service.forest, y, id) {
            if y in service.forest {
              assert y != x && service.forest[y] == old(service.forest)[y] && !TaggingOf(old(service.forest), y, id);
            }
          }
        }
      }
    }

    lemma TaggingIsUnnamed(x: nat, id: nat)
      requires service.Valid() && id in service.forest && IsVersion(service.forest[id])
      requires TaggingOf(service.forest, x, id)
      ensures !HasName(service.forest[x]) && x !in Versions(service.forest)
      ensures InTree(service.forest, x, x)
    {
      assert Hangs(service.forest, x) && Shaped(service.forest, x) && Hangs(service.forest, id);
      assert OID in service.forest[id].meta.Keys;
      KeysDiffer();
      assert IsIntermediate(service.forest[id]) ==> OID in {FILE_NAME};
    }

    /** Moves the null version of a path onto itself with new attributes. */
    method ReplaceNull(version: NewVersion, node: NodeVersion, meta: map<string, string>)
      requires Valid() && version.oid != "" && version.isUnversioned && meta == MetaOf(version)
      requires IsNull(Versions(service.forest), node.id, version.filePath) && node == Versions(service.forest)[node.id]
      modifies service
      ensures Valid() && Adds(old(Versions(service.forest)), version, node.id)
      ensures OneTagging(old(service.forest), node.id) ==> Untagged(service.forest, node.id)
    {
      MetaFits(version);
      NullFits(version, node);
      ghost var before := Versions(service.forest);
      TimesBelow();
      NullUnique(before, version.filePath, node.id);
      ghost var was := service.forest;
      hide WellFormed, Comps, Versions, Path, OneNullVersion, IsNull, MetaOf, Split, Added, IsVersion, OneTagging,
        Untagged;
      service.Move(node.id, node.parenID, meta);
      TaggingStays(was, service.forest, node.id);
      IdOf(node.id);
      MetaReadsBack(version, service.forest[node.id]);
      Recorded(before, Versions(service.forest), version, service.forest[node.id]);
      AddedKeepsOneNull(before, Versions(service.forest), version, node.id);
      StaysVersion(service.forest[node.id]);
      ClearOutdatedVersionInfo(node.id);
    }

    /** Stores a version; an unversioned one replaces the null version of its path in place. */
    method AddVersion(version: NewVersion) returns (r: Result)
      requires Valid() && version.oid != ""
      modifies service
      ensures Valid() && r.Success?
      ensures Adds(old(Versions(service.forest)), version, r.id)
      ensures (forall id :: OneTagging(old(service.forest), id)) ==> Untagged(service.forest, r.id)
    {
      hide WellFormed, Comps, Versions, Path, OneNullVersion, IsNull, MetaOf, Split, Answer, Added, OneTagging;
      var path := Split(version.filePath, SEPARATOR);
      var meta := MetaOf(version);
      ghost var before := Versions(service.forest);
      MetaFits(version);
      TimesBelow();
      assert path == path[..|path| - 1] + [path[|path| - 1]];
      JoinSplit(version.filePath, SEPARATOR);
      if version.isUnversioned {
        var found := GetUnversioned(version.filePath);
        if found.Found? {
          ReplaceNull(version, found.version, meta);
          return Success(found.version.id);
        }
        if !found.NotFound? {
          return Failure;
        }
      }
      var id := service.AddByPath(path[..|path| - 1], meta);
      IdOf(id);
      Recorded(before, Versions(service.forest), version, service.forest[id]);
      NoNull(before, version, id);
      AddedKeepsOneNull(before, Versions(service.forest), version, id);
      return Success(id);
    }

    /** Removes a node with what is below it: a version with its tags and lock, a directory with all its versions. */
    method RemoveVersion(id: nat) returns (ok: bool)
      requires Valid()
      modifies service
      ensures Valid() && (ok <==> id in old(service.forest))
      ensures Versions(service.forest) ==
              old(Versions(service.forest)) - (if ok then old(TreeOf(service.forest, id)) else {})
      ensures old(id in Versions(service.forest)) ==> Versions(service.forest) == old(Versions(service.forest)) - {id}
    {
      service.VersionKeys(service.forest, id);
      hide WellFormed, Comps, Versions, Path, IsVersion, TreeOf;
      ghost var before := Versions(service.forest);
      ok := service.Remove(id);
      assert !ok ==> before - {} == before;
    }
  }
}
