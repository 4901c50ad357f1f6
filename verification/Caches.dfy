/** The gateway's caches. Entries may vanish at any time; nothing else but the methods here changes them. */
module Caches {
  import opened Forests
  import opened Strings
  import opened Wrappers

  /** Where an object is stored: its container and its id. */
  datatype Address = Address(cid: string, oid: string)

  datatype ObjectsListKey = ObjectsListKey(cid: string, prefix: string, latestOnly: bool)

  datatype Bucket = Bucket(cid: string, name: string)

  /** What the gateway remembers of an object and the node of its version. */
  datatype ObjectInfo = ObjectInfo(cid: string, bucket: string, name: string, oid: string, nodeID: nat,
                                   isUnversioned: bool)

  type ListCache = map<ObjectsListKey, seq<NodeVersion>>

  type NameCache = map<string, Address>

  type ObjectCache = map<Address, ObjectInfo>

  function NiceName(bucket: string, objectName: string): string { bucket + "/" + objectName }

  function AddressOf(info: ObjectInfo): Address { Address(info.cid, info.oid) }

  function AddressText(a: Address): string { a.cid + "/" + a.oid }

  function KeyText(k: ObjectsListKey): string
  {
    k.cid + k.prefix + if k.latestOnly then "true" else "false"
  }

  /** What a user was answered with, and so may be answered with again: an object or a list. */
  datatype Item = AnObject(address: Address) | AList(key: ObjectsListKey)

  datatype Grant = Grant(owner: string, item: Item)

  function ItemText(i: Item): string
  {
    match i
    case AnObject(a) => AddressText(a)
    case AList(k) => KeyText(k)
  }

  function ContainerOf(i: Item): string
  {
    match i
    case AnObject(a) => a.cid
    case AList(k) => k.cid
  }

  /** An object id behind a slash that reads like a prefix with the mark behind it. */
  predicate Collides(oid: string, k: ObjectsListKey)
  {
    "/" + oid == k.prefix + if k.latestOnly then "true" else "false"
  }

  /** Items of a container that are not told apart: only an object and a list of another object's beginnings can be. */
  predicate SameItem(i: Item, j: Item)
  {
    || i == j
    || (i.AnObject? && j.AList? && i.address.cid == j.key.cid && Collides(i.address.oid, j.key))
    || (i.AList? && j.AnObject? && i.key.cid == j.address.cid && Collides(j.address.oid, i.key))
  }

  lemma SplitAt(a: string, b: string, x: string, y: string)
    requires |a| == |x|
    ensures a + b == x + y <==> a == x && b == y
  {
    if a + b == x + y {
      assert a == (a + b)[..|a|] && x == (x + y)[..|x|];
      assert b == (a + b)[|a|..] && y == (x + y)[|x|..];
    }
  }

  /** The marks behind prefixes are told apart by their last letters. */
  lemma MarksDiffer(a: string, x: bool, b: string, y: bool)
    ensures var f, t := if x then "true" else "false", if y then "true" else "false";
            a + f == b + t <==> a == b && x == y
  {
    var f, t := if x then "true" else "false", if y then "true" else "false";
    if a + f == b + t {
      assert (a + f)[|a + f| - 2] == f[|f| - 2] && (b + t)[|b + t| - 2] == t[|t| - 2];
      assert x == y;
      assert a == (a + f)[..|a + f| - |f|] && b == (b + t)[..|b + t| - |t|];
    }
  }

  /** With ids of fixed length, a text tells the user and the item, up to such collisions. */
  lemma TextTells(owner: string, i: Item, other: string, j: Item)
    requires |owner| == |other| && |ContainerOf(i)| == |ContainerOf(j)|
    ensures owner + ItemText(i) == other + ItemText(j) <==> owner == other && SameItem(i, j)
  {
    SplitAt(owner, ItemText(i), other, ItemText(j));
    var rest := (x: Item) => match x case AnObject(a) => "/" + a.oid
                                     case AList(k) => k.prefix + if k.latestOnly then "true" else "false";
    assert ItemText(i) == ContainerOf(i) + rest(i) && ItemText(j) == ContainerOf(j) + rest(j);
    SplitAt(ContainerOf(i), rest(i), ContainerOf(j), rest(j));
    if i.AnObject? && j.AnObject? {
      SplitAt("/", i.address.oid, "/", j.address.oid);
    } else if i.AList? && j.AList? {
      MarksDiffer(i.key.prefix, i.key.latestOnly, j.key.prefix, j.key.latestOnly);
    }
  }

  predicate EndsLikeMark(oid: string)
  {
    (|oid| >= 4 && oid[|oid| - 4..] == "true") || (|oid| >= 5 && oid[|oid| - 5..] == "false")
  }

  /** Only object ids that end like a mark collide with anything. */
  lemma CollidingOids(oid: string, k: ObjectsListKey)
    ensures Collides(oid, k) ==> EndsLikeMark(oid)
  {
    assert |"true"| == 4 && |"false"| == 5;
    if k.latestOnly { EndsWith(oid, k.prefix, "true", 4); } else { EndsWith(oid, k.prefix, "false", 5); }
  }

  lemma EndsWith(oid: string, prefix: string, mark: string, n: nat)
    requires |mark| == n > 0 && mark[0] != '/'
    ensures "/" + oid == prefix + mark ==> |oid| >= n && oid[|oid| - n..] == mark
  {
    var s := "/" + oid;
    assert s[0] == '/' && s[1..] == oid;
    if s == prefix + mark {
      assert s[|prefix|..] == mark && prefix != "";
      assert oid[|prefix| - 1..] == s[|prefix|..];
    }
  }

  /** A user was answered with an item, or with one that is not told apart from it. */
  ghost predicate Entitled(granted: set<Grant>, owner: string, item: Item)
  {
    exists i :: Grant(owner, i) in granted && SameItem(i, item)
  }

  /** Ids of users, and of containers, have the lengths of these. */
  ghost predicate FixedLengths(granted: set<Grant>, owner: string, cid: string)
  {
    forall g :: g in granted ==> |g.owner| == |owner| && |ContainerOf(g.item)| == |cid|
  }

  /** And with that very object, unless its id ends like the mark of a list. */
  lemma EntitledTo(granted: set<Grant>, owner: string, a: Address)
    requires Entitled(granted, owner, AnObject(a)) && !EndsLikeMark(a.oid)
    ensures Grant(owner, AnObject(a)) in granted
  {
    var i :| Grant(owner, i) in granted && SameItem(i, AnObject(a));
    if i.AList? { CollidingOids(a.oid, i.key); }
  }

  /** A list of objects below a slash, and an object whose id goes on with its mark, are not told apart. */
  lemma CollisionExample(owner: string, cid: string)
    ensures owner + AddressText(Address(cid, "Xtrue")) == owner + KeyText(ObjectsListKey(cid, "/X", true))
  {
    assert "/" + "Xtrue" == "/X" + "true";
    assert cid + "/" + "Xtrue" == cid + ("/" + "Xtrue");
    assert cid + "/X" + "true" == cid + ("/X" + "true");
  }

  /** The lists that an object of a container is, or could be, on. */
  predicate Contains(k: ObjectsListKey, objectName: string, cid: string)
  {
    k.cid == cid && HasPrefix(objectName, k.prefix)
  }

  /** The lists that an object is not on. */
  function Cleaned(lists: ListCache, name: string, cid: string): ListCache
  {
    map k | k in lists && !Contains(k, name, cid) :: lists[k]
  }

  class Cache {
    var lists: ListCache
    var objects: ObjectCache
    var names: NameCache
    /** Users, each with a key that they were allowed to read. */
    var access: set<string>
    /** All that users were ever answered with. */
    ghost var granted: set<Grant>

    constructor ()
      ensures lists == map[] && objects == map[] && names == map[] && access == {} && granted == {} && Backed()
    {
      lists, objects, names, access, granted := map[], map[], map[], {}, {};
    }

    /** Every key that a user may read stands for something that some user was answered with. */
    ghost predicate Backed()
      reads this`access, this`granted
    {
      forall x :: x in access ==> exists g :: g in granted && x == g.owner + ItemText(g.item)
    }

    /** Who may read an item was answered with it. */
    lemma AccessTells(owner: string, item: Item)
      requires Backed() && FixedLengths(granted, owner, ContainerOf(item)) && owner + ItemText(item) in access
      ensures Entitled(granted, owner, item)
    {
      var g :| g in granted && owner + ItemText(item) == g.owner + ItemText(g.item);
      TextTells(g.owner, g.item, owner, item);
      assert Grant(owner, g.item) == g;
    }

    /** Expiry and eviction: only some of the entries stay. */
    method Evict(someLists: set<ObjectsListKey>, someObjects: set<Address>, someNames: set<string>,
                 someAccess: set<string>)
      modifies this
      ensures lists == old(lists) - someLists && objects == old(objects) - someObjects
      ensures names == old(names) - someNames && access == old(access) - someAccess
      ensures granted == old(granted) && (old(Backed()) ==> Backed())
    {
      lists, objects := lists - someLists, objects - someObjects;
      names, access := names - someNames, access - someAccess;
    }

    /** A user is answered with a cached object. */
    predicate Hits(owner: string, a: Address)
      reads this
    {
      owner + AddressText(a) in access && a in objects
    }

    /** And by the name of the object. */
    predicate HitsName(owner: string, bktName: string, objName: string)
      reads this
    {
      NiceName(bktName, objName) in names && Hits(owner, names[NiceName(bktName, objName)])
    }

    /** And with a cached list, unless it has no versions. */
    predicate HitsList(owner: string, key: ObjectsListKey)
      reads this
    {
      owner + KeyText(key) in access && key in lists && lists[key] != []
    }

    method GetObject(owner: string, a: Address) returns (r: Option<ObjectInfo>)
      ensures r.Some? <==> Hits(owner, a)
      ensures r.Some? ==> r.value == objects[a]
    {
      if owner + AddressText(a) !in access || a !in objects {
        return None;
      }
      return Some(objects[a]);
    }

    method GetLastObject(owner: string, bktName: string, objName: string) returns (r: Option<ObjectInfo>)
      ensures r.Some? <==> HitsName(owner, bktName, objName)
      ensures r.Some? ==> r.value == objects[names[NiceName(bktName, objName)]]
    {
      if NiceName(bktName, objName) !in names {
        return None;
      }
      r := GetObject(owner, names[NiceName(bktName, objName)]);
    }

    method PutObject(owner: string, info: ObjectInfo)
      modifies this`objects, this`access, this`granted
      ensures objects == old(objects)[AddressOf(info) := info]
      ensures access == old(access) + {owner + AddressText(AddressOf(info))}
      ensures granted == old(granted) + {Grant(owner, AnObject(AddressOf(info)))} && (old(Backed()) ==> Backed())
    {
      objects := objects[AddressOf(info) := info];
      access := access + {owner + AddressText(AddressOf(info))};
      granted := granted + {Grant(owner, AnObject(AddressOf(info)))};
    }

    method PutObjectWithName(owner: string, info: ObjectInfo)
      modifies this`objects, this`access, this`names, this`granted
      ensures objects == old(objects)[AddressOf(info) := info]
      ensures access == old(access) + {owner + AddressText(AddressOf(info))}
      ensures granted == old(granted) + {Grant(owner, AnObject(AddressOf(info)))} && (old(Backed()) ==> Backed())
      ensures names == old(names)[NiceName(info.bucket, info.name) := AddressOf(info)]
    {
      PutObject(owner, info);
      names := names[NiceName(info.bucket, info.name) := AddressOf(info)];
    }

    method DeleteObject(a: Address)
      modifies this`objects
      ensures objects == old(objects) - {a}
    {
      objects := objects - {a};
    }

    method DeleteObjectName(cid: string, bktName: string, objName: string)
      modifies this`names, this`lists
      ensures names == old(names) - {NiceName(bktName, objName)}
      ensures lists == Cleaned(old(lists), objName, cid)
    {
      names := names - {NiceName(bktName, objName)};
      CleanListCacheEntriesContainingObject(objName, cid);
    }

    /** A list without versions is no hit: it is the missing list, also for those who stored it. */
    method GetList(owner: string, key: ObjectsListKey) returns (r: Option<seq<NodeVersion>>)
      ensures r.Some? <==> HitsList(owner, key)
      ensures r.Some? ==> r.value == lists[key]
    {
      if owner + KeyText(key) !in access || key !in lists || lists[key] == [] {
        return None;
      }
      return Some(lists[key]);
    }

    method PutList(owner: string, key: ObjectsListKey, list: seq<NodeVersion>)
      modifies this`lists, this`access, this`granted
      ensures lists == old(lists)[key := list] && access == old(access) + {owner + KeyText(key)}
      ensures granted == old(granted) + {Grant(owner, AList(key))} && (old(Backed()) ==> Backed())
    {
      lists := lists[key := list];
      access := access + {owner + KeyText(key)};
      granted := granted + {Grant(owner, AList(key))};
    }

    /** Removes the lists with prefixes of an object's name. */
    method CleanListCacheEntriesContainingObject(objectName: string, cid: string)
      modifies this`lists
      ensures lists == Cleaned(old(lists), objectName, cid)
    {
      var keys := lists.Keys;
      while keys != {}
        invariant keys <= old(lists).Keys
        invariant lists == map k | k in old(lists) && (k in keys || !Contains(k, objectName, cid)) :: old(lists)[k]
        decreases keys
      {
        var k :| k in keys;
        keys := keys - {k};
        if k.cid == cid && HasPrefix(objectName, k.prefix) {
          lists := lists - {k};
        }
      }
    }
  }

  /** Names of objects of one bucket or of different ones are told apart, as bucket names have no slash. */
  lemma NiceNamesDiffer(b: string, n: string, b': string, n': string)
    requires '/' !in b && '/' !in b' && NiceName(b, n) == NiceName(b', n')
    ensures b == b' && n == n'
  {
    var s := NiceName(b, n);
    assert s == b + ['/'] + n == b' + ['/'] + n';
    FirstOfIs(b, '/', n);
    FirstOfIs(b', '/', n');
    assert b == s[..|b|] && b' == s[..|b'|] && n == s[|b| + 1..] && n' == s[|b'| + 1..];
  }
}
