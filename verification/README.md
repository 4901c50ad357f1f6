# Verified model of the FrostFS S3 gateway

The FrostFS S3 gateway serves S3 requests from an object storage, a tree service that keeps the versions of
objects, and access tables. This project models its hardest parts in Dafny and proves what they promise.

| files | component |
|---|---|
| `Dare`, `PackageReader`, `RangePlan`, `Decrypter`, `RangeHeader` | reading a range of an encrypted, possibly multipart object |
| `Sorting`, `Listing`, `Paging` | listing a bucket page by page |
| `Forest`, `ForestChanges`, `TreeService`, `TreeClient`, `VersionStore`, `TreeLink` | the forest of version nodes, its client, adding and removing versions, and what the gateway makes of them |
| `Caches`, `Coherence`, `Gateway`, `BucketListing` | the caches in front of the trees, over whole runs |
| `Acl`, `AclMerge`, `AclAst`, `AclOrder` | access rules: merging a request, and which rule then has the say |
| `AclNames`, `AclTable`, `AclTableReader`, `AclRoundTrip`, `AclBare`, `AclDecision`, `AclEffect` | access tables: writing, reading back, and what their records decide |
| `AclPolicy`, `AclRoutes`, `AclMeaning`, `AclStatements` | access lists and policies: the rules made from them, and what these mean |
| `CompletedParts`, `Multipart`, `StoredUpload` | completing a multipart upload, and reading it back |
| `Locks` | retention and legal holds |
| `UrlEncoding` | encoding names in listings |
| `Strings`, `Wrappers` | what the others share |

What updates its fields or slices in the gateway is a class or a method with a loop here, proved against a
specification function or predicate; what the specification means is proved in lemmas beside it.

Where the code does not do what is expected of it everywhere, the exact condition is proved, and a lemma has an input
at which it fails:

* The range reader counts parts from the first one although the range may start in a later one, so a range is
  delivered exactly if `RangePlan.Serves` holds. It does for ranges that start in the first part and for parts of
  equal size, but not for all ranges over parts that grow (`GrowingPartsNotServed`). A read that asks for all of a
  further part in whole packages, and for more, ends early; the copying loop never asks for that much.
* Version 2 listings lose a key named like the mark of a met token (`TokenMarkExample`); delimiters of several
  characters are cut (`LongDelimiter`), and names are then out of order (`OrderLostExample`).
* A deletion while versioning is suspended does nothing to an object without a null version, and reports success
  (`DeletedStaysExample`).
* The merge of access rules does not report one kind of change, and the caller then does not store it
  (`LostUpdateExample`). A rule that neither allows nor denies may allow (`OtherEffectExample`), and change the bucket
  once more when it is merged once more (`TwiceExample`). Of a rule for a user and one for everyone the one that was
  there has the say, so a user who is denied what everybody may do still may do it (`LostDenyExample`).
* A policy gives every grantee of an operation the effect of the first statement about it, so a user who is denied
  what another one was allowed before is allowed it as well (`JoinsExample`).
* The access table does not keep two rules for users about one operation (`TwoRulesExample`), nor names with stray
  colons. A target without keys, such as the owner given by role, may be read as a rule for everyone (`RoleExample`).
  Without its service records, a rule for a version is read as one for the bucket (`VersionBecomesBucket`).
* A put whose lock step fails leaves two things stale: cached lists with versions whose prefix the name of the object
  has, and the cached object of the name itself (`UnlockedExample`, `UnlockedAnswers`).
* A suffix range longer than the object is refused, where section 14.1.2 of RFC 9110 means the whole object
  (`SuffixExample`).

## Model

| member | source | states |
|---|---|---|
| Decrypters.Decrypter.InitRangeParams | api/layer/encryption/encryption.go:208-264 | For every list of part sizes and every range, the window offset and length, the first package number, the bytes to skip, the decrypted length and the counters of the first reader are the closed forms of the plan, with all unsigned 64-bit subtractions wrapping as written; without a range they cover everything. |
| RangePlan.WindowIsAligned | api/layer/encryption/encryption.go:217-256 | The encrypted window starts where some package starts, at or before the range, and ends where some package ends, behind the range. |
| RangePlan.WindowIsSmallest | api/layer/encryption/encryption.go:217-256 | Every other package border at or before the range lies at or before the start of the window, every other one behind the range at or behind its end: the window is the smallest aligned one. |
| PackageReaders.OpenIff | api/layer/encryption/encryption.go:318-342 | A reader over a stretch of a part opens its next package exactly as long as it is short of the last whole package in the stretch, and then gets exactly the plaintext of that package. |
| PackageReaders.PackageReader.ReadFull | api/layer/encryption/encryption.go:318-342 | Skipping or reading a number of bytes succeeds exactly if the reader reaches that far, and yields just these bytes. |
| Decrypters.CrossOver | api/layer/encryption/encryption.go:266-311 | Going on with the next part neither gains nor loses whether the rest of the range will be delivered, although sizes are counted from the first part on. |
| RangePlan.FirstIff | api/layer/encryption/encryption.go:208-264 | Whether a run started with the counters of the first part delivers the whole range is decided by the part sizes and the range alone: the condition Serves. |
| Decrypters.Decrypter.Read | api/layer/encryption/encryption.go:274-311 | A read of any size delivers the next stretch of the requested plaintext, across a part border if need be. It ends or fails early only if the range is not served, or if it asks for all of the next part in whole packages and for more; then it always does. |
| Decrypters.FirstRead | api/layer/encryption/encryption.go:301-308 | The first read of a part that is going to be served fails exactly if it spans the part so; a read that succeeds neither gains nor loses the rest of the range. |
| Decrypters.Decrypter.SetReader | api/layer/encryption/encryption.go:313-316 | Attaching the encrypted stream skips the bytes before the range; the run from there succeeds exactly if the range is served. |
| Decrypters.GetObject | api/layer/layer.go:386-448 | Reading an object writes exactly the requested plaintext and reports success if and only if the range is served, and never writes anything but the beginning of it; success is reported exactly if no read broke; without a range it always writes the whole object; a reversed range writes nothing. |
| Decrypters.GetDecrypter | api/layer/layer.go:450-470 | The decrypter of a multipart object without a range gets the whole object as its range; a single object gets the size that its encrypted size stands for. |
| StoredUploads.Describe | api/layer/layer.go:456-468 | The headers of a stored upload are read, entry by entry, as its plain size and the sizes of its parts, or not at all if one of them cannot be read. |
| StoredUploads.HeadersDescribe | api/layer/layer.go:450-470 | For an upload with readable parts, its size header is the length of all parts joined, its header of completed parts gives the sizes of the parts, and these are what the reader requires. |
| StoredUploads.CompletedIsStored | api/layer/multipart_upload.go:361-414 | What completing an encrypted upload puts together is such an upload, and its stored size is that of its parts encrypted one by one. |
| StoredUploads.ReadUpload | api/layer/layer.go:386-470 | Reading it back through its headers gives all parts joined in order, and a range exactly if the sizes of the parts allow for it. |
| StoredUploads.CompleteAndRead | api/layer/multipart_upload.go:361-414 | Completing an upload with readable parts and reading the object gives the parts joined in order, exactly if completing does not refuse them. |
| RangePlan.FirstPartServed | api/layer/encryption/encryption.go:208-311 | Ranges that start in the first part are served, whatever the part sizes. |
| RangePlan.EqualPartsServed | api/layer/encryption/encryption.go:208-311 | With parts of one size and a last one that is no larger, every range is served. |
| RangePlan.GrowingPartsNotServed | api/layer/encryption/encryption.go:208-235 | A range over a second part that is larger than the first one is not served: two parts of 5 MiB and 6 MiB. |
| Dare.DecSizeInvertsEncSize | api/layer/encryption/encryption.go:159-171 | The plain size is recovered from the encrypted size. |
| RangeHeaders.FetchRangeHeader | api/handler/get.go:25-65 | An accepted range lies within the object; a header that spells a byte range is answered with exactly the stretch of the closed form, any other one is refused, and only the empty one means no range. |
| RangeHeaders.PrintReadsBack | api/handler/get.go:36-58 | Every byte range of section 14.1.2 of RFC 9110, printed as a header, is read as itself. |
| RangeHeaders.AnsweredAsMeant | api/handler/get.go:46-62 | The answer is the one the RFC means, exactly unless a suffix is longer than the object or a last byte does not fit 64 bits. |
| RangeHeaders.SuffixExample | api/handler/get.go:46-49 | The last two bytes of an object of one byte, which is all of it, are refused. |
| Listing.NamesKeepOrder | api/layer/object.go:784-796 | Collapsing keys to directory names keeps their lexicographic order, for every prefix, exactly for delimiters of at most one character and those of two that end in a zero byte; with any other delimiter pages are not in the order of the keys. |
| Listing.OrderLostExample | api/layer/object.go:784-796 | The keys xaa and xab change places under the delimiter ab. |
| Listing.NamesAreRollUps | api/layer/object.go:784-796 | The names keys are listed under are the ones S3 prescribes exactly for delimiters of at most one character (longer ones are cut to their first character). |
| Listing.NodesGenerator | api/layer/object.go:534-560 | The nodes sent to the workers are the first ones of every name that is not skipped, one more than a page holds. |
| Listing.GetLatestObjectsVersions | api/layer/object.go:484-532 | Whatever the order in which workers answer, the page is the sorted page of the nodes, cut at the page size, with the first object behind it as next. |
| Listing.ListObjectsV1 | api/layer/object.go:422-446 | A version 1 answer has the names of the page, the directories among its prefixes and the others among its objects, and goes on behind the last one. |
| Listing.ListObjectsV2 | api/layer/object.go:449-474 | A version 2 answer has the names of the page, the directories among its prefixes and the others among its objects, and goes on with the object that did not fit. |
| Listing.TriageObjects | api/layer/object.go:719-729 | A page is split into the names of its directories and its objects. |
| Listing.TriageKeepsAll | api/layer/object.go:719-729 | The split loses nothing of a page and adds nothing. |
| Listing.TriageKeepsOrder | api/layer/object.go:719-729 | Both parts of the split are in order if the page is. |
| Paging.PageContents | api/layer/object.go:719-796 | On a page of any request with a delimiter of at most one character, an entry is a directory exactly if it is the roll-up of a latest version with the delimiter behind the prefix; all others are such versions without it, under their own names and with their own object ids. |
| Paging.PagesV1AreTheListing | api/layer/object.go:422-446 | Following markers until a page is not truncated gives the listing of the bucket: every listed name once and in order, for every page size; the prefixes are the roll-ups of keys with the delimiter behind the prefix, and the objects all other keys with their object ids. |
| Paging.PagesV2AreTheListing | api/layer/object.go:449-474 | Following continuation tokens gives the listing, in names and in contents, exactly if no listed name behind the start of the second page equals the mark that the met token leaves in the set of seen names. |
| Paging.TokenMarkExample | api/layer/object.go:694-717 | Three keys on pages of one name, the last one named like the mark: the last one is never listed. |
| Paging.OnePageIsTheListing | api/layer/object.go:694-717 | Every bucket that fits one page is listed as S3 prescribes, exactly for delimiters of at most one character. |
| Paging.ListingIsUnique | api/layer/object.go:422-474 | There is only one listing of a bucket, so the pages leave nothing open. |
| BucketListings.ListBucketV1 | api/layer/object.go:422-532 | A client that follows markers through the gateway gets the listing of the bucket as the tree has it, with its prefixes and objects, although pages come from cached lists and entries of all caches vanish between pages. |
| BucketListings.ListBucketV2 | api/layer/object.go:449-532 | The same with continuation tokens, exactly unless the token mark is a listed name behind the start of the second page. |
| BucketListings.ListIsStore | api/layer/object.go:490-499 | The latest versions of a tree have different paths and different objects, which is what paging relies on. |
| Forests.PrefixIsTop | internal/frostfs/tree.go:571-585 | A version has a string as a prefix of its path exactly if it is in the tree of one node with the directories of the prefix above it and a name that continues it. |
| Forests.SamePath | internal/frostfs/tree.go:748-758 | Two nodes have one path exactly if they have the same name in the same directory. |
| Forests.DirectoryUnique | internal/frostfs/tree.go:587-615 | A directory is determined by its path. |
| TreeClients.TreeClient.GetPrefixNodeID | internal/frostfs/tree.go:587-615 | The directory above a prefix is found exactly if it exists. |
| TreeClients.TreeClient.GetSubTreeByPrefix | internal/frostfs/tree.go:617-669 | The nodes directly below that directory whose names continue the prefix are found, each once; with latest only, of the versions of a name just the latest one, next to its directory. |
| TreeClients.TreeClient.GetSubTreeVersions | internal/frostfs/tree.go:689-746 | Of a sub-tree exactly the versions are reported under their true paths, with latest only the latest of each path unless it is a delete marker. |
| TreeClients.KeyIdentifies | internal/frostfs/tree.go:774-776 | The key of a parent id and a file name identifies both. |
| TreeClients.TreeClient.GetVersionsByPrefix | internal/frostfs/tree.go:778-798 | On every well-formed forest the result has exactly the versions whose full path starts with the prefix, each once; with latest only, exactly the latest of each such path that is no delete marker. |
| TreeServices.TreeService.AddByPath | internal/frostfs/tree.go:1300-1335 | Adding a version by path creates the directories that are missing and adds exactly that version. |
| TreeServices.TreeService.Move | internal/frostfs/tree.go:1337-1363 | Moving a node onto its place replaces its attributes and its time and touches no other version. |
| TreeServices.TreeService.Remove | internal/frostfs/tree.go:1365-1388 | Removing a node removes exactly it and what is below it; of a version, no other version. |
| VersionStores.VersionStore.GetVersions | internal/frostfs/tree.go:1097-1131 | All nodes of a path are found, directories included; of the unversioned ones there is at most one. |
| VersionStores.VersionStore.GetUnversioned | internal/frostfs/tree.go:804-819 | The null version of a path is found exactly if there is one, and never more than one. |
| VersionStores.VersionStore.AddVersion | internal/frostfs/tree.go:1045-1083 | A new version is added with a time later than all others; a null version keeps the node of the one it replaces, and loses its tags; all other versions stay; no path gets a second null version. |
| VersionStores.VersionStore.ClearOutdatedVersionInfo | internal/frostfs/tree.go:1085-1095 | The tags of the version that a node held before are removed, and no version is. |
| VersionStores.VersionStore.RemoveVersion | internal/frostfs/tree.go:825-827 | Exactly the versions at or below the node with the id are gone, for a version only that one, and still no path has two null versions. |
| VersionStores.AddedKeepsOneNull | internal/frostfs/tree.go:1065-1083 | Storing a null version under the node of the old one, or any version under a new node, keeps one null version per path. |
| VersionStores.MetaReadsBack | internal/frostfs/tree.go:1045-1066 | The attributes written for a version are read back as its name, object id, ETag, size and marks. |
| TreeLinks.VersionsAreTree | internal/frostfs/tree.go:1097-1131 | The versions of a well-formed forest with one null version per path are a tree as the gateway takes it, exactly if their object ids are their own. |
| TreeLinks.MatchesIsListed | internal/frostfs/tree.go:778-798 | What the client finds by prefix is what a list of the gateway has to have. |
| TreeLinks.AddsIsStores | internal/frostfs/tree.go:1045-1083 | Adding a version with a new object id is the step that the gateway takes it for. |
| TreeLinks.NodesAreMeant | api/layer/tagging.go:157-170 | Among all nodes of a path, directories included, those with an object id are the versions of the path with that id. |
| TreeLinks.AddVersion | internal/frostfs/tree.go:1045-1083 | The version store adds a version as the gateway expects, and keeps a valid tree. |
| TreeLinks.RemoveVersion | internal/frostfs/tree.go:825-827 | The version store removes a version as the gateway expects, and keeps a valid tree. |
| TreeLinks.GetVersionsByPrefix | internal/frostfs/tree.go:778-798 | The client lists a prefix as the gateway expects. |
| AclAsts.AstResource.MergeOperations | api/handler/acl.go:698-759 | Merging the rules of a resource in place gives the merged rules and the change flag of the specification, rule by rule with all its branches; what these rules say, which of them has the say, and when a change is reported is proved of the specification. |
| AclAsts.Ast.Merge | api/handler/acl.go:689-761 | Merging a request into the rules of a bucket in place gives the merged resources and the flag of the specification, of which the following rows speak. |
| AclMerges.MergeAstOverrides | api/handler/acl.go:689-761 | Whatever the actions of rules: if every rule of the request fits what it meets, every decision on an operation of a user or of everyone is afterwards that of the last resource of the request that has one, and otherwise that of the bucket. With one resource per info it is so exactly then, and what fits is decided by the bucket as it was. Contradictions come up in no case, and rules that allow or deny stay such rules. |
| AclMerges.StepOverrides | api/handler/acl.go:700-755 | Whatever the actions of rules, one rule of a request overrides what the resource says about its grantees and leaves everything else, exactly if of two rules that it meets one has its action, and of more that one has all its users; or no rule there is about its operation and kind of grantee. Contradictions come up in no case. |
| AclMerges.KnownAstFits | api/handler/acl.go:689-761 | Requests that allow or deny fit every bucket that does. |
| AclMerges.SingleAstFits | api/handler/acl.go:689-761 | Every request with one resource per info fits a bucket with one rule per operation for users and one for everyone. |
| AclMerges.OtherEffectExample | api/handler/acl.go:719-728 | A rule that neither allows nor denies an operation, for a user of whom nothing is said, where one user is allowed it and another one denied: the user is allowed. |
| AclMerges.MergeAstTwice | api/handler/acl.go:689-846 | Merging the same request again changes nothing and reports nothing exactly if no rule of it has anything to change then; with one resource per info, exactly if no rule takes their last user from the second of two rules that both have other actions. |
| AclMerges.TwiceExample | api/handler/acl.go:717-731 | A rule that neither allows nor denies, for the one user that is denied the operation while another one is allowed it: the second merge changes what the first one left. |
| AclMerges.MergeAstReports | api/handler/acl.go:689-761 | A change is reported exactly if some resource of the request, when it is merged, is new or has a rule with something to change that is not of the unreported kind; with one resource per info that is decided by the bucket as it was. |
| AclMerges.LostUpdates | api/handler/acl.go:736-744 | A merge changes the bucket and does not report it, so that it is not stored, exactly if the request brings no new resource and each rule with something to change, at least one, meets only a user rule with another action that has none of its users. It neither changes nor reports anything exactly if no rule has anything to change. |
| AclMerges.LostUpdateExample | api/handler/acl.go:736-744 | Denying an operation to one user where another one is allowed it is such a request. |
| AclOrders.MergedEffect | api/handler/acl.go:698-759 | After a request that fits is merged, the last rule about an operation that is for everyone or names a user has exactly this action: what is now said of the user if nothing is said of everyone, or if there were rules for users and none of them with this action was in front of the one for everyone, or if there was no rule about the operation and the request has it behind; otherwise what is now said of everyone. |
| AclOrders.NewNeverOutranks | api/handler/acl.go:756 | A new rule about an operation and kind of grantee that the bucket had no rule of never outranks one of the other kind that it had. |
| AclOrders.NewRuleExample | api/handler/acl.go:756 | Everybody is denied what one user may do: the user still may. |
| AclOrders.LostDenyExample | api/handler/acl.go:756 | A user is denied what everybody may do: the user still may. |
| AclEffects.MergedOrder | api/handler/acl.go:763-800 | A merge leaves the resources of a bucket where they are and puts new ones behind them in their order. |
| AclEffects.MergeThenWrite | api/handler/acl.go:689-948 | After a request that fits is merged and the table is written, the first record that matches an operation on an object decides as those rules do that have the say: of the new resources that apply the last one, then of those of the bucket the last one. |
| AclNames.NameReadsBack | api/handler/acl.go:1030-1047 | A resource is read back from its name exactly if it is of the bucket, has a version only with an object, no colon in the version, and none in the object without a version. |
| AclTables.AstToTable | api/handler/acl.go:858-948 | The table has a service record and the records of each resource in reverse order, or there is none if a user or a version cannot be read. |
| AclDecisions.TableDecides | api/handler/acl.go:858-948 | The first record of a written table that matches an operation on an object, by filters and targets, has the action of the last rule about it of the last resource that applies and has one: a bucket applies to all objects, an object to its path and a version to its object id; records of one never match others, and service records match nobody. |
| AclDecisions.TableThere | api/handler/acl.go:901-948 | A table can be written exactly if every user, and every version of an object with rules, can be read. |
| AclTableReaders.AddToList | api/handler/acl.go:950-983 | A target is added to the last rule about its operation and kind of grantee, or as a new rule. |
| AclTableReaders.FormReverseOrderResources | api/handler/acl.go:634-654 | Resources come in the reverse order of the records they were first met at, with their rules turned round, whatever the order of the map. |
| AclTableReaders.TableToAst | api/handler/acl.go:607-632 | Reading a table record by record into a map gives what the specification over a list of resources gives. |
| AclRoundTrips.TableRoundTrip | api/handler/acl.go:607-983 | Writing the rules of a bucket as a table and reading them back gives the same rules in the same order exactly if they are canonical. |
| AclRoundTrips.TwoRulesExample | api/handler/acl.go:950-983 | One user may read a bucket and another one may not; after the round trip neither may, whoever they are. |
| AclRoundTrips.WriteAndRead | api/handler/acl.go:607-983 | The same for the methods that write and read. |
| AclRoundTrips.ReadIsOneEach | api/handler/acl.go:607-632 | What is read from a table has one rule per operation for users and one for everyone, exactly if no target without keys is read as a second rule for everyone: one that comes before all targets of the resource and operation with keys, behind one for everyone or another without keys. It allows or denies if all records do. |
| AclRoundTrips.RoleExample | api/handler/acl.go:950-983 | Everyone may read a bucket and its owner, given by role, may not: both are read as rules for everyone. |
| AclRoundTrips.WrittenIsOrderly | api/handler/acl.go:858-948 | Every table that the gateway writes is read as one rule per operation for users and one for everyone. |
| AclRoundTrips.MergeIntoRead | api/handler/acl.go:607-761 | So a request with one resource per info that is merged into what such a table says overrides it, whatever its actions. |
| AclBareTables.ServiceIs | api/handler/acl.go:881-919 | A record is read as a service record exactly if it is one, up to other ways to write its number. |
| AclBareTables.FiltersGive | api/handler/acl.go:673-687 | Filters give the last path and the last object id that they compare with, and nothing else. |
| AclBareTables.BareRoundTrip | api/handler/acl.go:607-687 | A written table without its service records reads back exactly if every resource is the bucket or an object without a version, has rules, and these are canonical. |
| AclBareTables.VersionBecomesBucket | api/handler/acl.go:673-687 | Rules for a version, read so, are rules for the bucket, and written as such. |
| AclPolicies.PolicyToAst | api/handler/acl.go:985-1028 | A policy gives one resource per name, or none if a principal or a resource is not supported. |
| AclStatements.PolicyMeans | api/handler/acl.go:985-1141 | A policy can be read exactly if every principal is everyone or a user and every resource is in the bucket. There are then rules for just the named resources, and a grantee whom some statement about an operation names gets the effect of the first statement there is about it for users, or for everyone. |
| AclStatements.PolicyKeeps | api/handler/acl.go:1110-1141 | Grantees get the effects that the statements name them with exactly if all statements about the operation for users, or for everyone, have one effect. |
| AclStatements.JoinsExample | api/handler/acl.go:1110-1141 | One user is allowed to read and another one denied it: both are allowed. |
| AclRoutes.AclToAst | api/handler/acl.go:1143-1196 | An access control list gives the owner rules and then those of its grants, or none if a grantee is not supported. |
| AclMeanings.ListMeans | api/handler/acl.go:1143-1196 | There are rules exactly if all grantees are supported, and they say exactly that the owner may do everything, that grantees may do what their permission is about, and that with fewer than two grants everyone else is denied everything; objects are only read. |
| AclMeanings.ActionsAllow | api/handler/acl.go:1268-1292 | The actions of a permission open exactly the operations it is about. |
| AclMeanings.ActionsSuit | api/handler/acl.go:1268-1292 | They are exactly those that suit the resource: listing and writing for buckets, getting for objects. |
| AclRoutes.AclToPolicy | api/handler/acl.go:1198-1232 | An access control list gives the owner statements and then one per grant, or none without a bucket. |
| AclRoutes.RoutesAgree | api/handler/acl.go:1143-1232 | Both ways from a list to rules give the same exactly if a grantee is unsupported, or the bucket has a name, the resource name reads back, and no id that matters is empty or the wildcard. |
| AclRoutes.BothRoutes | api/handler/acl.go:985-1232 | The same for the methods. |
| AclRoutes.GrantsOneEach | api/handler/acl.go:1143-1196 | The rules of every list can be merged: they allow or deny, one per operation for users and one for everyone. |
| AclRoutes.PolicyOneEach | api/handler/acl.go:985-1028 | So do those of every policy, and they allow or deny if all its effects do. |
| Caches.Cache.CleanListCacheEntriesContainingObject | api/cache/objectslist.go:92-105 | Exactly the lists of the container whose prefix the object name has are removed. |
| Caches.Cache.GetLastObject | api/layer/cache.go:88-103 | A name is hit exactly if it, its object and the right of the user to that object are cached. |
| Caches.TextTells | api/cache/access_control.go:40-68 | With ids of users and containers of fixed length, an access key tells the user and the object or list, except that an object of an id that ends like the mark of a list shares its key with the list whose prefix is a slash and the rest of the id (api/layer/cache.go:88-143, api/cache/objectslist.go:59-61). |
| Caches.CollisionExample | api/cache/access_control.go:40-68 | The object Xtrue shares its key with the latest versions of the prefix /X. |
| Caches.EntitledTo | api/layer/cache.go:105-115 | A user who is entitled to an object whose id does not end so was answered with that very object. |
| Gateways.Gateway.PutObject | api/layer/object.go:186-304 | A put stores the version, which is then the one its object has, and leaves all caches right. If only the lock step fails, no cache is told: their entries stay right exactly if no cached list with versions has a prefix of the name and the name is not cached, or points nowhere; and of what users are answered from them, exactly the lists whose prefix the name has and the object of the name are wrong. |
| Gateways.Gateway.DeleteObject | api/layer/layer.go:548-606 | Whichever call fails, a deletion changes the tree as specified and leaves all caches right. If no version is named and all calls succeed, success is reported, and the object is there afterwards exactly if versioning is suspended and it was there without a null version, or the bucket has no versioning and the version before the latest one is no delete marker. |
| Gateways.Gateway.DeletedLives | api/layer/layer.go:549-562 | Deleting the latest version leaves the object there exactly if the version before it is no delete marker. |
| Gateways.Gateway.MarkedLives | api/layer/layer.go:564-603 | Under versioning a deleted object is never there; while it is suspended, exactly if it was there and has no null version. |
| Gateways.Gateway.DeletedStaysExample | api/layer/layer.go:564-570 | A version stored under versioning and deleted while it is suspended: success is reported and the object is still there. |
| Gateways.Gateway.NullVersionsGo | api/layer/layer.go:548-606 | An object with null versions only is gone when it is deleted without or under suspended versioning. |
| Gateways.Gateway.LiveIsLast | api/layer/object.go:306-338 | An object is there exactly if a caller gets something of it. |
| Gateways.Gateway.HeadLastVersionIfNotDeleted | api/layer/object.go:306-338 | With caches in any right state the answer describes the latest version of the object unless that is a delete marker, as if there were no cache, and is kept; a cached one is answered also if the storage fails, but only to a user who put the object or was answered with it before. |
| Gateways.Gateway.HeadVersion | api/layer/object.go:340-391 | A version is found exactly if the tree has it, and described as the tree has it; a cached one is answered also if the storage fails, but only to a user who put that object or was answered with it before. |
| Gateways.Gateway.GetNodeVersion | api/layer/tagging.go:152-189 | The version that a caller means is found exactly if there is one and it is no delete marker, or delete markers are asked for. |
| Gateways.Gateway.Versions | api/layer/object.go:490-499 | A list, cached or not, has exactly the versions that the tree has now, each once, and is kept; without the tree it is answered only to a user for whom it was read before. |
| Gateways.Gateway.LatestNodes | api/layer/object.go:490-507 | The list is answered in the order of paths and is cached so, all objects asked for are cached, all caches stay right, and no other rights are given. |
| Gateways.Gateway.Evict | api/cache/objectslist.go:65 | Any entries may vanish at any time. |
| Coherence.PutAgrees | api/layer/object.go:259-301 | Storing a version, dropping the lists its object is on, and caching its object and name keeps lists, names and objects right. |
| Coherence.RemoveAgrees | api/layer/layer.go:549-562 | Removing a version keeps a cached name right although the name stays: its object is not cached any more. |
| Coherence.HitIsLatest | api/layer/cache.go:96-103 | A cached name whose object is cached is that of the latest version of the object, which is no delete marker. |
| Coherence.UnlockedAgrees | api/layer/object.go:259-280 | A version stored without telling the caches leaves their entries right exactly if no cached list with versions has a prefix of the name, and the name is not cached, or points to an object that is not cached and either gone from the tree or about to be replaced. Entries count whether or not some user may read them. |
| Coherence.UnlockedExample | api/layer/object.go:259-280 | A bucket with one object and its cached list: wrong as soon as any version is stored whose lock step fails. |
| Gateways.Gateway.UnlockedAnswers | api/layer/object.go:259-280 | After such a put, a list that a user is answered from the cache is wrong exactly if the name has its prefix, and an object answered by name exactly if it is that name. |
| Caches.Cache.GetList | api/layer/cache.go:127-133 | A list is hit exactly if it and the right of the user are cached and it has a version: one without versions is the missing list, also for those who stored it (api/cache/objectslist.go:71-85, api/layer/object.go:491-499). |
| Caches.NiceNamesDiffer | api/layer/cache.go:79-82 | Names of objects of different buckets are told apart. |
| Multipart.CompleteMultipartUpload | api/layer/multipart_upload.go:361-414 | An upload completes exactly if the parts ascend, match with their ETags, have 5 MiB but for the last one, and can be encrypted; then the sizes are the sums, parts are in order, and the header reads back exactly if all entries can be read. Otherwise the error is that of the first bad part. |
| CompletedParts.HeaderReadsBack | api/layer/object.go:163-183 | The header of completed parts is read as just these parts exactly if no number or size is negative and no ETag has a hyphen or a comma. |
| CompletedParts.EntryReadsBack | api/data/tree.go:92-94 | One entry reads back exactly if it has just its own two hyphens. |
| CompletedParts.PiecesComeBack | api/layer/layer.go:460-468 | Joined entries split into as many pieces exactly if none has the separator, and then into themselves. |
| Multipart.MultiObjectReader.Read | api/layer/multipart_upload.go:335-359 | A read delivers the next bytes of what remains of all parts, even if it then breaks, and says that it ended only when nothing remains; with parts that do not break it does not break, and makes progress; each call ends. |
| Multipart.ReadParts | api/layer/multipart_upload.go:335-359 | Reads with buffers of any sizes deliver the parts joined in order, whether the end of a part comes with its last bytes or behind them; all of it if no part breaks, and otherwise a beginning. |
| Locks.LockReadsBack | internal/frostfs/tree.go:965-1021 | A lock written into its node is read back as it was. |
| Locks.LockStore.PutLock | internal/frostfs/tree.go:965-985 | The lock of a version is written into its one lock node, and no other lock changes. |
| Locks.LockStore.GetLock | internal/frostfs/tree.go:987-1021 | The lock of a version is what its node says, or none, or unreadable. |
| Locks.LockStore.PutLockInfo | api/layer/system_object.go:29-101 | A change is refused exactly if it may not replace a set retention, and fails exactly if the lock cannot be read or a call fails that it needs. After a stored one a requested hold is there, with its old id if there was one, a released one is gone, a requested retention has the mode and the whole seconds that were asked for, and what is not mentioned is as before; otherwise nothing changes. |
| Locks.ChangeGrants | api/layer/system_object.go:50-101 | The changed lock has the hold and the retention that were asked for, and keeps the others. |
| Locks.ChangeKeeps | api/layer/system_object.go:50-72 | An allowed change never unsets a retention, never changes a compliance one and never shortens the date, and changes a set retention only with a bypass. |
| Locks.FractionsShorten | api/layer/system_object.go:59-71 | A stored date is shortened exactly if it has a fraction of a second that lies behind the whole seconds of the new date. |
| Locks.LockStore.Run | api/layer/system_object.go:29-101 | Over every sequence of changes of any versions, whether they succeed or not, no retention is lost or shortened and without a bypass a set one never changes; a version is held, and retained, as the last stored change for it asked that mentions it, and keeps its hold until a stored change releases it. |
| UrlEncoding.S3URLEncode | api/handler/s3encoder.go:33-87 | All three paths give the encoded string; the buffer of the counted length is filled exactly. |
| UrlEncoding.EncodedLength | api/handler/s3encoder.go:53-60 | The encoded string has the counted length. |
| UrlEncoding.DecodeEncode | api/handler/s3encoder.go:33-87 | Decoding the encoded string, with plus as space in a query, gives the string back. |
| UrlEncoding.EncodedIsSafe | api/handler/s3encoder.go:19-31 | Only bytes that need no escape, percent signs, and in a query plus signs are written. |
| UrlEncoding.StaysExactly | api/handler/s3encoder.go:19-31 | A name stays as it is exactly if all its bytes are letters, digits, hyphens, underscores, dots, slashes or asterisks. |

## Left out

- gRPC, HTTP, XML, JSON, NATS, metrics, wallets and the command line: plumbing around the logic.
- Cryptography: a package either opens to its payload or does not. The `sio` library is a contract: a reader over a
  stretch of parts opens packages in order, the next one exactly if the bytes it takes are those of that package.
- `gcache` and `ants`: entries vanish arbitrarily, workers answer in any order. Evictions inside a request are those
  between its steps that the invariants allow anyway, as no invariant needs an entry to be there.
- Concurrency between requests and real time: runs are sequential, and times are given by the tree service.
- Decrypters.GetObject: an encrypted multipart object without any bytes and without a range, for which the last byte
  wraps around; parts before the last one are not empty, as completing an upload sees to. Ranges end within the
  object, which is what the range header gives. Unencrypted objects are read by the storage alone.
- Decrypters.GetDecrypter: takes the sizes of the parts as given; reading them from the headers is
  `StoredUploads.Describe`.
- Listing.ListObjectsV2: `FetchOwner` and object headers.
- ListObjectVersions and ListMultipartUploads with both markers: their comparisons do not follow the sort order.
- TreeServices.TreeService: the service is the forest of nodes with the effects of its calls; failed calls leave it
  unchanged.
- The latest version of a path as the tree service itself selects it: taken as such (`Gateway.GetLatestVersion`).
- VersionStores.VersionStore.AddVersion: the owner and creation time of delete markers, which are further attributes
  of a node; versions have object ids that are not empty.
- Gateways.Gateway: the trees are version maps, which `TreeLinks` ties to the forests of the tree service. A new object
  id is unlike all ids in trees and caches. Calls that fail leave trees and storage as they were.
- Gateways.Gateway.PutObject: what is cached of an object is what identifies it and its version; sizes, headers and
  hashes, the lock itself, and the timestamp that a put does not fill in, are not modelled.
- Caches.TextTells: the other caches that share the access cache (tags, locks, settings) have keys of their own, which
  are not modelled.
- The bucket, system and tagging caches, and copying of objects, which reads one object and puts another.
- AclAsts.Ast.Merge: rules are values, so slices that share an array after an append are not modelled.
- AclMerges.MergeAstOverrides: requests with several rules of one resource about an operation and kind of grantee, which
  `AclRoutes.GrantsOneEach` and `AclRoutes.PolicyOneEach` exclude; buckets with contradictory rules, which
  `AclRoundTrips.WrittenIsOrderly` excludes for what the gateway writes. A policy may name a resource twice
  (`AclNames.TwoNames`); such a request overrides if every rule fits what it meets, but the converse is for one resource
  per info.
- AclDecisions.TableDecides: requesters are neither the owner nor part of the system; a filter that compares other
  things than paths and object ids matches nothing.
- AclEffects.MergeThenWrite: users are named by the text of their keys, and the request fits.
- AclBareTables.BareRoundTrip: tables that others wrote, with several filters or targets in a record.
- AclTables.AstToTable: parsing of public keys and object ids, which is a parameter; object ids are written in
  canonical text. Lists have fewer than 2^63 rules.
- AclPolicies.PolicyToAst: JSON decoding; policies with several principals or conditions are not part of the source.
- The ways from rules to policies and lists (`astToPolicy`, `encodeObjectACL`) and the parsing of ACL headers.
- Multipart.CompleteMultipartUpload: what is put is handed to the storage; tags, ACL headers and the deletion of parts
  afterwards are not modelled. The parts of an upload are given, as adding a part does not keep one node per number.
- Multipart.MultiObjectReader: broken parts and parts that cannot be opened end the reading.
- Locks.LockStore.PutLockInfo: the lock objects in the storage and the cache of lock infos; dates are written and read
  by functions that keep whole seconds and may fail to read what was written.
- UrlEncoding.S3URLEncode: the choice between a buffer on the stack and one on the heap, which have the same length.
- Lock configuration text, CORS, notifications, tag and bucket name checks: small members without cross-cutting laws.
