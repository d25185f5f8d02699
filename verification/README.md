# RouteDNS: a verified model of its hard parts

RouteDNS is a DNS stub resolver, proxy and router written in Go. This project models
the parts of it whose correctness is not plain from reading one function, and proves
what they promise:

- **Domain block lists.** A label trie packed into flat arrays with an open-addressed,
  bit-packed hash table (`SlotTable`, `DomainTrie`, `DomainDB`), and a fingerprint form of
  the same rules (`Fingerprints`, `CompactDB`). Both are shown to answer what a one-line
  reference semantics on the text of the rules says (`DomainName`, `DomainRules`).
- **The DNSSEC validator.** Canonical name order (`CanonicalOrder`), denial of existence by
  NSEC and NSEC3 against a zone's true contents (`Nsec`, `Nsec3`), and the chain of trust with
  its key cache against an arbitrary upstream and an arbitrary clock (`RecordTypes`, `DnsRecords`,
  `Keystore`, `Validator`): every acceptance and every "insecure" verdict carries its evidence, and an
  honest upstream is believed: keys are found exactly for zones above which every label is a signed zone, and
  signed answers and denials of such zones are accepted (`HonestWorld`).
- **The memory cache.** The byte layout of an entry (`CacheBlob`), the LRU list as an abstract
  recency sequence with its laws (`RecencyCache`), the doubly linked list and hash index on the
  heap that refine it (`LruCache`), the raw cache file (`CacheFile`), expiry and ageing of TTLs
  (`CacheTtl`), and the backend that puts them together (`MemoryBackend`).
- **The upstream pipeline.** The queue of requests in flight (`InFlight`, `DnsQuestion`) and the
  protocol between callers, timeouts, dispatcher, writer, reader and drain as a state machine over
  atomic steps (`Pipeline`), with its invariant over every interleaving (`PipelineProof`) and the heap
  queue shown to take those steps (`PipelineQueue`).
- **The CIDR block list.** A binary trie on the heap that keeps only the shortest prefixes
  (`CidrTrie`), and the list over both address families against what containing an address means
  (`CidrDB`).
- **The load balancer.** Moving averages, the "inflated" flag, weighted choice (`LoadBalance`).

`Octets` holds the integer types. Hash functions, signature checks, DS digests, NSEC3 hashing and the
DNS wire codec are parameters without properties, unless a theorem names one (a hash that tells
the keys of a run apart, a codec that unpacks what it packed). Time and random numbers are parameters too. Words that the source packs into
64 bits are modelled with division and remainder; 16-, 32- and 64-bit limits and wrap-around are written
out where they matter.

`dafny verify dfyconfig.toml` checks everything.

## Where the code and a stronger reading part ways

- `Nsec.EmptyNonTerminalPasses`: a name with names below it but no records of its own passes the NXDOMAIN
  proof exactly if no wildcard hangs directly under it; `Nsec.EmptyNonTerminalExample` gives one.
- `Validator.Validator.Validate`: an answer section that holds nothing but signatures is accepted from any
  upstream, as `Validator.Validator.AcceptsBareSignature` shows for one signature; an accepted answer has a
  verified RRset exactly if it holds a record that is not a signature.
- `Validator.Validator.BuildChainOfTrust`: the code takes one label off at a time, so keys are found under an
  honest upstream exactly if every label between the root and the zone is a signed zone; a name above it that
  publishes no key-signing key makes it fail. `HonestWorld.FindKeys` states both for any set of signed zones.
- `Validator.Validator.BuildChainOfTrust`: nothing ties a DS set to the zone it stands behind. The chain is made of
  each zone's own DS records if every DS reply on the way holds only records of the name asked about, and is
  not if the replies about one of those names never do. `HonestWorld.FindKeys` states it as an equivalence on
  what the upstream publishes, and `HonestWorld.SiblingKeys` gets keys for one zone by the DS of another.
  `Validator.VouchedByOwn`: if digests and signature checks cover the owner's name, one of the records behind
  each zone is its own all the same.
- `Nsec.ConclusiveIff`, `Nsec3.ConclusiveIff`: the proofs never look at a delegation, so what they accept rules
  out an answer exactly if no delegation is above the name, nor at it for a type other than DS.
  `Nsec.DelegationPasses` shows that all names below a delegation pass, `Nsec.DelegationExample` gives two queries.
- `HonestWorld.AcceptsOffTopic`: the question of a response with an answer is never read; any honestly signed
  record is accepted for any question. What was asked for is among the accepted sets exactly if the
  answer section has a record of that name and type (`Validator.Validator.Validate`).
- `RecencyCache.UnlimitedExact`: keys that share a hash push each other out; what a cache without a limit shows
  of a key is the last write under its hash. `RecencyCache.CollisionLoses` gives the loss,
  `RecencyCache.UnrivalledExact` the condition without it.
- `CacheBlob.StrayFlagBit`: a blob with an unknown bit in its key flags decodes to a key that it never
  answers; `CacheBlob.MatchesIff` is the exact condition, and blobs the cache builds itself meet it.
- `CacheTtl.AgeExact`: the age of a record is right exactly below 2^32 seconds (`CacheTtl.AgeWraps`);
  `CacheTtl.AgedIsServed` shows that the expiry check keeps answers that storeInCache stored away from that.
- `CacheTtl.KeptForLowestTtl`: an answer is kept for its lowest TTL exactly if that is below the largest 32-bit
  value or equals the negative TTL; `CacheTtl.LargestTtlMissed` gives an answer that is not.
- `CidrDB.RightExactly`: IPv4-mapped rules are filed with the IPv4 ones but keep sixteen bytes. An answer is
  right exactly if a rule filed well contains the address, or the misfiled ones hit it just when one of them
  contains it. `CidrDB.MisfiledIsWrong` gives, for every such rule and prefix, an address it is wrong about,
  and `CidrDB.MisfiledAlone` the single rule that is harmless.
- `LoadBalance.FailureRaisesIff`: a failure lowers an average exactly if it is penalised with less than
  that average; `LoadBalance.PenaltyCanLower` gives a run that gets there. The comment on the flag says
  failures only raise it.

## Model

| member | source | states |
|---|---|---|
| `DomainName.LabelsCoverText` | blocklistdb-domain.go:188-212 | the labels of a rule are the first labels of a query exactly when the query's text is the base domain or ends in a dot and it; equal exactly when the texts are |
| `DomainName.LabelsOfJoin` | blocklistdb-domain.go:85-99 | splitting a name at a dot: right labels first, then the left ones |
| `DomainName.TextOfLabels` | blocklistdb-domain.go:85-99 | joining a base domain's labels gives it back, up to a dot in front |
| `DomainName.WellFormedLabels` | blocklistdb-domain.go:188-212 | a well-formed name splits into non-empty labels that join to it again |
| `DomainName.SuffixLabels` | blocklistdb-domain.go:188-212 | the text right of a dot of a well-formed name is well-formed and its labels are the first labels of the name |
| `DomainName.NextLabel` | blocklistdb-domain.go:86-99 | one move of the right-to-left cursor yields the next label, and whether it was the last |
| `DomainName.NameCursorStep` | blocklistdb-domain.go:192-207 | one move of the match cursor: the label it passes, and that the text right of it is the text of the labels so far |
| `DomainRules.HasOverlongLabel` | blocklistdb-domain.go:244-255 | true exactly if some 64 octets in a row hold no dot |
| `DomainRules.ParsedRulesFit` | blocklistdb-domain.go:112-163 | every rule an accepted list yields has at least one label and none over 63 octets |
| `DomainRules.ParsedMeaning` | blocklistdb-domain.go:112-163 | which lines are skipped, which refused, and that an accepted line becomes a rule covering exactly the names its text is about |
| `DomainRules.ParsedListExact` | blocklistdb-domain.go:112-163 | a list fails exactly on an invalid line; else its rules are those of its lines |
| `DomainRules.CoversAgree` | blocklistdb-domain.go:134-146 | covering on labels is covering on text, for each of the three rule forms |
| `DomainRules.AnswerUnique` | blocklistdb-domain.go:218-226 | the answer the reference semantics gives is unique |
| `DomainRules.TreeAnswerCorrect` | blocklistdb-domain.go:188-226 | walking the tree of any rule list gives the answer of the reference semantics |
| `DomainRules.WalkMonotone` | blocklistdb-domain.go:188-226 | where nodes show more flags, nothing that matched is missed and it is met no later |
| `DomainRules.WalkAgree` | blocklistdb-domain.go:188-226 | only what the nodes on the query's own path show decides the walk |
| `SlotTable.SlotDecodes` | blocklistdb-domain-trie.go:19-29 | parent, child and tag come out of a packed slot exactly, and a filled slot is never zero |
| `SlotTable.SlotKeyInjective` | blocklistdb-domain-trie.go:19-29 | the key bits of a slot identify parent and tag |
| `SlotTable.Index` | blocklistdb-domain-trie.go:71-74 | the high word of hash times size is below the size |
| `SlotTable.EmptySlot` | blocklistdb-domain-trie.go:94-116 | a table with more slots than nodes has an empty one, so every probe ends |
| `SlotTable.AddKeepsTable` | blocklistdb-domain-trie.go:120-127 | filling the first empty slot of a probe keeps every node reachable from its home index through filled slots |
| `SlotTable.AcceptedSlot` | blocklistdb-domain-trie.go:104-113 | the slot test of a probe accepts exactly the node asked for |
| `SlotTable.ProbeMiss` | blocklistdb-domain-trie.go:99-116 | a probe that meets an empty slot has passed every node it could be looking for |
| `DomainTrie.StoreLabel` | blocklistdb-domain-trie.go:175-181 | no flags yet; only long labels grow the blob, at its end |
| `DomainTrie.StoredReadsBack` | blocklistdb-domain-trie.go:175-181 | an inline or blob label reads back as stored |
| `DomainTrie.LabelStable` | blocklistdb-domain-trie.go:85-92 | growing the blob moves no label |
| `DomainTrie.Trie.constructor` | blocklistdb-domain-trie.go:149-155 | a new builder stands for the tree of no rules |
| `DomainTrie.Trie.Probe` | blocklistdb-domain-trie.go:99-116 | finds exactly the node with that parent and label, for every table that keeps the invariant |
| `DomainTrie.Trie.Find` | blocklistdb-domain-trie.go:99-116 | the node at the extended path of the rule tree, or none if the tree has none |
| `DomainTrie.Trie.Add` | blocklistdb-domain-trie.go:120-127 | the table holds one node more and keeps its invariant |
| `DomainTrie.Trie.Rebuild` | blocklistdb-domain-trie.go:191-196 | a table of another size holds the same nodes; nodes, labels and paths stay |
| `DomainTrie.Trie.Child` | blocklistdb-domain-trie.go:165-188 | the tree gains exactly the child and its parent's flag; refused exactly if the node is new and ids ran out |
| `DomainTrie.Trie.Append` | blocklistdb-domain-trie.go:175-187 | the new node under its label, in the tree and in the table |
| `DomainTrie.Trie.SetFlag` | blocklistdb-domain.go:100-100 | one flag added at one node, nothing else |
| `DomainTrie.Trie.Done` | blocklistdb-domain-trie.go:200-212 | shrinking the table changes no lookup and bounds its size |
| `DomainDB.GrowStep` | blocklistdb-domain.go:86-99 | walking a rule in by one label keeps the tree what the rules so far and that part of the rule say |
| `DomainDB.Descend` | blocklistdb-domain.go:88-99 | one step of the record loop; refused only if the tree needs more ids than there are |
| `DomainDB.Record` | blocklistdb-domain.go:84-102 | after recording a rule the trie is the tree of the list with it, and the blob has exactly its bytes |
| `DomainDB.NewDomainDB` | blocklistdb-domain.go:81-107 | refused exactly if the list needs more than 2^28 nodes; otherwise the trie of exactly its rules |
| `DomainDB.DB.constructor` | blocklistdb-domain.go:81-107 | a database over a finished trie |
| `DomainDB.DB.Match` | blocklistdb-domain.go:188-212 | for every well-formed name: a match exactly if some rule covers it, reporting a loaded rule with the shortest base domain, the apex form first |
| `DomainDB.DB.Descend` | blocklistdb-domain.go:188-212 | the loop computes the answer of the walk over the rule tree and reports it |
| `DomainDB.TextAnswerCorrect` | blocklistdb-domain.go:188-236 | an answer on labels, reported as text, is the answer on text |
| `DomainDB.MatchedIffLine` | blocklistdb-domain.go:81-212 | a name is matched exactly if some line of the list is about it |
| `DomainDB.TreeCount` | blocklistdb-domain-trie.go:165-188 | a finished trie has one node per path of its rules |
| `Fingerprints.OrInto` | blocklistdb-domain-compact.go:203-206 | merging keeps the fingerprint and joins the flags |
| `Fingerprints.Sort` | blocklistdb-domain-compact.go:196-196 | sorted, and the same multiset |
| `Fingerprints.Merge` | blocklistdb-domain-compact.go:198-208 | in place: strictly ascending fingerprints, each with every flag recorded under it |
| `Fingerprints.SortAndMerge` | blocklistdb-domain-compact.go:195-208 | what was recorded, each fingerprint once and in order |
| `Fingerprints.MergedSize` | blocklistdb-domain-compact.go:198-211 | one entry per fingerprint |
| `Fingerprints.BucketOfPrint` | blocklistdb-domain-compact.go:51-56 | the bucket depends on the fingerprint alone |
| `Fingerprints.BucketCount` | blocklistdb-domain-compact.go:213-217 | the smallest power of two from 8 on that leaves at most eight entries per bucket on average |
| `Fingerprints.BucketBits` | blocklistdb-domain-compact.go:230-236 | the exponent of a power of two |
| `Fingerprints.BucketStarts` | blocklistdb-domain-compact.go:219-227 | each index entry splits the table into lower buckets and the rest |
| `Fingerprints.UniqueFlags` | blocklistdb-domain-compact.go:195-228 | the one entry under a fingerprint carries all flags recorded under it |
| `Fingerprints.Table.constructor` | blocklistdb-domain-compact.go:195-228 | any multiset of entries becomes a sorted, merged, indexed table that says the same |
| `Fingerprints.Table.Find` | blocklistdb-domain-compact.go:248-261 | exactly the union of all flags recorded under the fingerprint, or a miss if there are none |
| `CompactDB.Seen` | blocklistdb-domain-compact.go:167-174 | tells whether the entry sits in its place, and leaves it there |
| `CompactDB.RecordMark` | blocklistdb-domain-compact.go:95-97 | dropping a repeat that the small cache caught loses nothing |
| `CompactDB.RecordLabel` | blocklistdb-domain-compact.go:88-102 | hashing in one label records the mark of the suffix it ends |
| `CompactDB.Record` | blocklistdb-domain-compact.go:82-104 | after recording a rule the entries are exactly the marks of the list with it |
| `CompactDB.RecordedFlags` | blocklistdb-domain-compact.go:82-104 | what is found under a fingerprint is the union of the flags of the nodes that share it |
| `CompactDB.CompactNeverMisses` | blocklistdb-domain-compact.go:125-149 | for every seed and hash: what the exact list matches is matched, and no deeper |
| `CompactDB.CompactExact` | blocklistdb-domain-compact.go:125-149 | when no suffix of the query collides, the very answer of the exact list |
| `CompactDB.DB.constructor` | blocklistdb-domain-compact.go:73-110 | a table that says of every fingerprint what the rule tree says |
| `CompactDB.DB.Match` | blocklistdb-domain-compact.go:125-149 | the loop computes the compact answer and reports it |
| `CanonicalOrder.Trichotomy` | dnssec/denial_existence.go:324-347 | exactly one of less, equal, greater |
| `CanonicalOrder.Transitive` | dnssec/denial_existence.go:324-347 | the order is transitive |
| `CanonicalOrder.CanonicalNameCmp` | dnssec/denial_existence.go:328-347 | the sign of the result is the order |
| `CanonicalOrder.AncestorFirst` | dnssec/denial_existence.go:324-347 | a name sorts before all below it |
| `CanonicalOrder.SubtreeInterval` | dnssec/denial_existence.go:324-347 | a subtree is an interval of the order |
| `CanonicalOrder.CommonBelow` | dnssec/denial_existence.go:177-182 | of names on one side the nearer shares at least as many labels |
| `CanonicalOrder.CommonAbove` | dnssec/denial_existence.go:177-182 | the same on the other side |
| `CanonicalOrder.CommonIsLongest` | dnssec/denial_existence.go:313-322 | the shared labels are the longest common part |
| `Nsec.ProvesNXDOMAIN` | dnssec/denial_existence.go:144-172 | accepts exactly on a covering record and a denied wildcard at its encloser |
| `Nsec.ProvesNODATA` | dnssec/denial_existence.go:113-139 | accepts exactly on the own record, or a covering one and the wildcard's, without the type |
| `Nsec.FindOwned` | dnssec/denial_existence.go:116-122 | the first record owned by a name |
| `Nsec.CoverMeansGap` | dnssec/denial_existence.go:187-199 | a chain record covers a name of the zone exactly if the name lies in its gap |
| `Nsec.GapShows` | dnssec/denial_existence.go:177-182 | a name in a gap is no owner, and the encloser computed is the longest suffix with an owner at or below it |
| `Nsec.CoverShows` | dnssec/denial_existence.go:177-199 | every covering record of the chain gives the same, true closest encloser |
| `Nsec.NxIff` | dnssec/denial_existence.go:144-172 | for any part of a zone's chain, in any order: accepted exactly if a record covers the name and one covers the wildcard at its true closest encloser |
| `Nsec.DeniedIffCovered` | dnssec/denial_existence.go:161-171 | the scan for the wildcard succeeds exactly if a record of the chain covers it |
| `Nsec.NxSound` | dnssec/denial_existence.go:144-172 | an accepted NXDOMAIN: neither the name nor the wildcard at its true closest encloser is an owner |
| `Nsec.NxExact` | dnssec/denial_existence.go:144-172 | with the whole chain, accepted exactly in that case |
| `Nsec.EmptyNonTerminalPasses` | dnssec/denial_existence.go:144-172 | an empty non-terminal passes exactly if no wildcard hangs under it |
| `Nsec.EmptyNonTerminalExample` | dnssec/denial_existence.go:144-172 | such a zone and name |
| `Nsec.EncloserExists` | dnssec/denial_existence.go:177-182 | every name of a zone has a closest encloser |
| `Nsec.WildcardScan` | dnssec/denial_existence.go:124-137 | the scan settles on the wildcard at the true closest encloser |
| `Nsec.NoDataIff` | dnssec/denial_existence.go:113-139 | for any part of the chain: accepted exactly if it shows the type missing at the name, or covers the name and shows it missing at the wildcard |
| `Nsec.NoDataSound` | dnssec/denial_existence.go:113-139 | an accepted NODATA: the zone has no answer at the name nor by its wildcard, yet has one of them |
| `Nsec.NoDataExact` | dnssec/denial_existence.go:113-139 | with the whole chain, accepted exactly in that case |
| `Nsec.MoreRecords` | dnssec/denial_existence.go:113-172 | further records of the same chain take no proof away |
| `Nsec.TwoRecordsSuffice` | dnssec/denial_existence.go:144-172 | a name with neither owner nor wildcard has two chain records that prove it, alone or among others of the chain |
| `Nsec.ConclusiveIff` | dnssec/denial_existence.go:113-172 | what is accepted rules out an answer, whatever the delegated zones hold, exactly if the query is not for one of them (section 4.1 of RFC 6840) |
| `Nsec.DelegationPasses` | dnssec/denial_existence.go:113-172 | with the whole chain every name below a delegation passes as NXDOMAIN, and at it every type its record lacks as NODATA |
| `Nsec.DelegationExample` | dnssec/denial_existence.go:113-172 | such a zone with two queries |
| `Nsec3.ClosestEncloser` | dnssec/denial_existence.go:272-282 | the longest proper ancestor with a matching record |
| `Nsec3.ProvesNXDOMAIN` | dnssec/denial_existence.go:252-266 | accepts exactly on the proof at that ancestor or its opt-out form, and tells which |
| `Nsec3.ProvesNODATA` | dnssec/denial_existence.go:217-245 | accepts exactly on the three forms of the proof |
| `Nsec3.EncloserProof` | dnssec/denial_existence.go:268-282 | a matched ancestor with its next closer name covered is the true closest encloser |
| `Nsec3.ShownIsTrue` | dnssec/denial_existence.go:268-282 | a matched ancestor with a covered next closer name fixes where the scan stops, for any genuine records |
| `Nsec3.NxIff` | dnssec/denial_existence.go:252-266 | for any genuine records: accepted exactly if they show an encloser and cover its wildcard; by opt-out exactly if an opt-out record covers the next closer name |
| `Nsec3.NxSound` | dnssec/denial_existence.go:252-266 | without opt-out: no name stands for the one asked for, neither itself nor the wildcard at its true closest encloser (section 8.4 of RFC 5155) |
| `Nsec3.NxOptOutSound` | dnssec/denial_existence.go:252-266 | with opt-out: the name is not among the hashed ones |
| `Nsec3.NxExact` | dnssec/denial_existence.go:252-266 | with all records and any name at or below the apex, accepted exactly in that case |
| `Nsec3.NoDataIff` | dnssec/denial_existence.go:217-245 | for any genuine records: accepted exactly if they show the type missing at the name, leave a DS to opt-out, or show an encloser and the type missing at its wildcard |
| `Nsec3.NoDataSound` | dnssec/denial_existence.go:217-245 | an accepted NODATA outside opt-out: the name itself if it exists, or else its wildcard, stands for it and lacks the type |
| `Nsec3.NoDataExact` | dnssec/denial_existence.go:217-245 | with all records and any name at or below the apex, accepted exactly in that case |
| `Nsec3.NoDataOptOut` | dnssec/denial_existence.go:227-231 | an opt-out answer to a DS query: the name is not among the hashed ones |
| `Nsec3.MoreRecords` | dnssec/denial_existence.go:217-266 | further genuine records take no proof away |
| `Nsec3.ThreeRecordsSuffice` | dnssec/denial_existence.go:252-266 | a name nothing stands for has three records that prove it, alone or among other genuine ones |
| `Nsec3.ConclusiveIff` | dnssec/denial_existence.go:217-266 | what is accepted rules out an answer exactly if the query is not for a delegated zone |
| `Nsec3.ChainIsGenuine` | dnssec/denial_existence.go:284-309 | where the hash tells the names concerned apart, records of a zone's chain tell the truth about it |
| `Nsec3.ChainIsComplete` | dnssec/denial_existence.go:284-309 | and the whole chain tells all of it: its spans leave no hash out |
| `Nsec3.NxExactByChain` | dnssec/denial_existence.go:252-266 | with the whole chain, NXDOMAIN is accepted exactly if no name stands for the one asked for, the apex included |
| `Nsec3.NoDataExactByChain` | dnssec/denial_existence.go:217-245 | with the whole chain, NODATA is accepted exactly if one does and lacks the type, the apex included |
| `DnsRecords.VerifyRRSIG` | dnssec/validator.go:400-417 | succeeds exactly if some key of that tag and algorithm verifies, inside the validity period |
| `DnsRecords.VerifyAnyRRSIG` | dnssec/validator.go:423-430 | succeeds exactly if one signature verifies |
| `DnsRecords.FindKeysByTag` | dnssec/validator.go:382-390 | exactly the keys of a tag and algorithm |
| `DnsRecords.FilterKeysByDS` | dnssec/validator.go:434-449 | exactly the keys some DS record vouches for |
| `DnsRecords.GroupRRs` | dnssec/validator.go:462-484 | each RRset whole and in order, each signature with the set it covers, nothing else |
| `Keystore.SplitAgain` | dnssec/keystore.go:75-99 | keys split by flags survive being joined and split again |
| `Keystore.Store.AddDS` | dnssec/keystore.go:47-73 | joined to what was there, expiring with the lowest TTL of all; other names untouched |
| `Keystore.SplitKeys` | dnssec/keystore.go:75-99 | the keys by kind, and the lowest TTL among them |
| `Keystore.Store.AddDNSKEY` | dnssec/keystore.go:75-99 | replaces one zone's keys, expiring with the lowest TTL among them; anchors and other names untouched |
| `Keystore.Store.GetDNSKEY` | dnssec/keystore.go:101-115 | the keys held unless expired, else none |
| `Keystore.Store.GetDS` | dnssec/keystore.go:117-131 | the records held unless expired, else none |
| `Validator.LinkedMonotone` | dnssec/validator.go:68-82 | a further anchor invalidates no chain |
| `Validator.ChainCoversAncestors` | dnssec/validator.go:198-304 | a linked chain holds one for every zone above, down to the anchor |
| `Validator.NsecProvesDenial` | dnssec/denial_existence.go:98-109 | which proof each response code asks for |
| `Validator.Nsec3ProvesDenial` | dnssec/denial_existence.go:203-214 | the same for NSEC3 |
| `Validator.VerifyDSDenial` | dnssec/denial.go:21-46 | succeeds with a verified record that denies the DS, and fails only if no verified set has one |
| `Validator.Validator.constructor` | dnssec/validator.go:51-63 | an empty key cache |
| `Validator.Validator.SetAnchor` | dnssec/validator.go:68-82 | one more anchor for the root, with its expiry; cached keys stay, and the chains behind them stay linked |
| `Validator.Validator.LookupDNSKEY` | dnssec/validator.go:308-334 | fails exactly on a failed query or an error code; else the reply's keys by kind and its signatures |
| `Validator.Validator.LookupDS` | dnssec/validator.go:339-365 | fails exactly on a failed query; an error code means no DS records |
| `Validator.Validator.AuthenticDS` | dnssec/validator.go:225-271 | DS records only from the anchor or verified by the parent's chain; the zone's own if the replies on the way are, and not if at one name they never are; insecure only on a proven denial; right under an honest upstream |
| `Validator.Validator.CheckDS` | dnssec/validator.go:247-270 | a DS set only if it verifies under the parent's keys, insecure only on a proven denial |
| `Validator.Validator.FirstVerified` | dnssec/validator.go:261-270 | a verified signature, or none verified when it was looked at |
| `Validator.Validator.AcceptKeys` | dnssec/validator.go:273-303 | keys only on a linked step, always on a lasting self-signature by a key a DS vouches for; own DS records exactly if the step has them |
| `Validator.Validator.BuildChainOfTrust` | dnssec/validator.go:198-304 | for every upstream, clock and history: keys, fresh or cached, only with a linked chain from the root anchor; ends by the label count; under an honest upstream the zone's keys exactly if every label above is a signed zone; never across a label without a key-signing key; on each zone's own DS records if the replies on the way are, and not if at one name they never are |
| `Validator.Validator.Remember` | dnssec/validator.go:299-303 | cached keys come back as they were, with their chain |
| `Validator.Validator.ProveNoDS` | dnssec/validator.go:139-159 | insecure only on a denial proven at or above the zone, never for an honestly signed zone |
| `Validator.Validator.CheckInsecureDelegation` | dnssec/validator.go:116-133 | the same for every cut above a name |
| `Validator.Validator.ValidateRRset` | dnssec/validator.go:166-193 | accepted only on a signature in bailiwick verified under a chain, of own DS records if the upstream sends only those; always on an honest one |
| `Validator.Validator.ValidateAnswer` | dnssec/validator.go:92-108 | accepted only if every RRset verified that way, and if there is none; insecure only with a proven denial about one of them; accepted if all are honestly signed |
| `Validator.Validator.Validate` | dnssec/validator.go:87-109 | the same for a whole response, with exactly the RRsets of the answer accepted; a negative one is accepted exactly if authenticated records prove it, and always if honestly signed records do and all it carries are true; one of signatures alone always |
| `Validator.Validator.AcceptsBareSignature` | dnssec/validator.go:87-109 | any single signature is an accepted answer, with nothing verified |
| `Validator.VouchedByOwn` | dnssec/validator.go:434-449 | with digests over the owner's name and signers that own their keys, behind every zone of a linked chain stands a DS record of its own |
| `HonestWorld.SignedAtIsHonest` | dnssec/validator.go:198-304 | for any set of signed zones there is an upstream that is honest about them and has no keys elsewhere |
| `HonestWorld.Configured` | dnssec/validator.go:51-82 | a new validator with the root's anchor starts out in such a world |
| `HonestWorld.FindKeys` | dnssec/validator.go:198-304 | in it keys are found for a zone exactly if every label above it is a signed zone, and they are the zone's; on its own DS records exactly if the replies carry the names asked for |
| `HonestWorld.SiblingKeys` | dnssec/validator.go:339-365 | keys for one zone on the DS record of another |
| `HonestWorld.AcceptsDenial` | dnssec/denial_existence.go:22-72 | in it a negative response with any records of a signed zone's chain that prove it is accepted |
| `HonestWorld.AcceptsNsec3Denial` | dnssec/denial_existence.go:22-72 | and so is one with any genuine NSEC3 records that prove it |
| `HonestWorld.AcceptsOffTopic` | dnssec/validator.go:87-109 | an answer of one honestly signed record is accepted for any question, and only that set |
| `Validator.Validator.SignedFromAncestor` | dnssec/denial_existence.go:79-94 | only on an acceptance from at or above the query name; always on an honest signature |
| `Validator.Validator.CollectVerified` | dnssec/denial_existence.go:53-72 | only authenticated records, and all that are honestly signed |
| `Validator.Validator.ValidateDenial` | dnssec/denial_existence.go:22-47 | accepted exactly if the records collected prove the response code, and always if honestly signed ones of a zone do, whatever other records of the zone come with them; insecure only with a proven denial |
| `Validator.Validator.HonestDenied` | dnssec/denial_existence.go:22-72 | whatever else of a zone was collected with them, the records of an honest denial prove it |
| `Validator.InsecureByNsec` | dnssec/denial.go:48-56 | behind an insecure verdict by NSEC: the parent delegates the zone without a DS (section 5.2 of RFC 4035) |
| `Validator.InsecureByNsec3` | dnssec/denial.go:58-66 | by NSEC3: the same, or a name that opt-out leaves out |
| `Validator.AcceptedNxDomain` | dnssec/denial_existence.go:22-47 | an accepted NXDOMAIN from one zone's chain means what it says about that zone |
| `CacheBlob.GetPut` | cache-blob.go:104-116 | big-endian words read back as written |
| `CacheBlob.Put` | cache-blob.go:118-121 | one write behind what is there, changing nothing before it |
| `CacheBlob.NewCacheBlobFromWire` | cache-blob.go:92-123 | refused exactly for a name or address over 65535 octets, else the layout |
| `CacheBlob.MatchesIff` | cache-blob.go:175-208 | for any byte string: it matches a key exactly if it decodes to it and has no stray flag bit |
| `CacheBlob.RoundTrip` | cache-blob.go:92-208 | key, times, flag and message of a built blob read back |
| `CacheBlob.BuiltMatches` | cache-blob.go:175-191 | a built blob matches its own key and no other |
| `CacheBlob.StrayFlagBit` | cache-blob.go:175-208 | a stray flag bit breaks the match but not the decoded key |
| `RecencyCache.RunKeeps` | lru-cache.go:144-254 | after every run hashes are distinct and the capacity is kept |
| `RecencyCache.RunHolds` | lru-cache.go:144-254 | after every run each entry is what was last stored under its key, under that key's hash |
| `RecencyCache.LookupSound` | lru-cache.go:183-219 | for every run, capacity and hash, collisions or not: a hit is what was last stored under that very key |
| `RecencyCache.UnlimitedExact` | lru-cache.go:144-254 | for every run and hash: without a limit a lookup shows exactly the last write under the key's hash, if it was the key's own |
| `RecencyCache.UnrivalledExact` | lru-cache.go:144-254 | if no other key written shares its hash, that is exactly what was last stored |
| `RecencyCache.CollisionLoses` | lru-cache.go:156-168 | two keys of one hash: storing the second loses the first |
| `RecencyCache.KeysApart` | lru-cache.go:144-229 | a hash and a run of two keys it tells apart, and what caches of one and two entries keep of it |
| `RecencyCache.Inclusion` | lru-cache.go:144-229 | LRU inclusion, for every run and every hash, collisions or not: the smaller cache's list is a subsequence of the larger one's |
| `RecencyCache.LargerNeverMisses` | lru-cache.go:144-229 | the larger cache hits wherever the smaller one does, with the same entry |
| `LruCache.Skip` | lru-cache.go:171-175 | two pointer writes take an item out of the list |
| `LruCache.Push` | lru-cache.go:156-168 | four pointer writes put it behind the head |
| `LruCache.Cache.constructor` | lru-cache.go:129-142 | an empty list |
| `LruCache.Cache.ContentsDistinct` | lru-cache.go:144-168 | list and index hold the same items, one per hash |
| `LruCache.Cache.FindItem` | lru-cache.go:183-189 | the entry the abstract list finds for the key |
| `LruCache.Cache.Unlink` | lru-cache.go:171-175 | the entry is gone from list and index, the others in order |
| `LruCache.Cache.TouchItem` | lru-cache.go:192-205 | the entry found moves to the front |
| `LruCache.Cache.Insert` | lru-cache.go:156-168 | in front, whatever its hash indexed gone, the least recent dropped |
| `LruCache.Cache.Resize` | lru-cache.go:222-229 | just the most recent entries that fit |
| `LruCache.Cache.Replace` | lru-cache.go:146-151 | a new blob for the most recent item |
| `LruCache.Cache.AddKey` | lru-cache.go:144-153 | the abstract list's addition, within the capacity |
| `LruCache.Cache.DeleteKey` | lru-cache.go:207-214 | the abstract list's deletion |
| `LruCache.Cache.Get` | lru-cache.go:216-219 | the blob found and the list touched |
| `LruCache.Cache.DeleteFunc` | lru-cache.go:245-254 | one pass keeps, in order, exactly what the test does not drop |
| `LruCache.Cache.Reset` | lru-cache.go:232-241 | an empty list again |
| `CacheFile.SerializeRaw` | cache-file-raw.go:55-81 | the header and the records of all entries, least recent first, those too large left out |
| `CacheFile.CheckHeader` | cache-file-raw.go:88-97 | each error exactly for its damage |
| `CacheFile.NextRecord` | cache-file-raw.go:99-119 | one record, or none exactly where reading stops |
| `CacheFile.BlobFromFile` | cache-file-raw.go:131-148 | a blob is kept only with sound lengths and a name, under the key it decodes to |
| `CacheFile.DeserializeRaw` | cache-file-raw.go:87-127 | loads exactly the usable records read; a bad header leaves the cache as it was |
| `CacheFile.RecordsOfFrames` | cache-file-raw.go:87-127 | a file cut anywhere past the header gives exactly the records that are whole |
| `CacheFile.Whole` | cache-file-raw.go:87-127 | how many records fit into a number of bytes |
| `CacheFile.AddAllOldest` | cache-file-raw.go:55-127 | adding entries oldest first rebuilds their order, or its front as far as there is room |
| `CacheFile.CutFileReloads` | cache-file-raw.go:55-148 | for every cache and cut: the entries whose records are whole come back with blob, key and order |
| `CacheFile.AddAllIsRun` | cache-file-raw.go:87-127 | reading a file is a run of the abstract cache |
| `CacheFile.RunOrigin` | lru-cache.go:144-254 | every entry was written by some operation, under its own key |
| `CacheFile.StoredUsable` | cache-file-raw.go:131-148 | a stored blob is kept exactly if its message unpacks and its name is not empty |
| `CacheFile.RunReloads` | cache-file-raw.go:55-148 | whatever run filled a cache, a reader whose hash tells the keys written apart gets back every entry that fits the format, in order |
| `CacheTtl.LowestIsLowest` | cache.go:363-381 | a lower bound of the TTLs that count, and one of them unless all are the largest value |
| `CacheTtl.MinTtl` | cache.go:363-381 | that value, found exactly if it is below the largest |
| `CacheTtl.ExpiryOf` | cache.go:321-360 | which answers are stored and until when, never past 2^32 seconds from now |
| `CacheTtl.AgeExact` | cache.go:108-113 | the 32-bit age is right exactly below 2^32 seconds |
| `CacheTtl.AgeWraps` | cache.go:108-113 | at 2^32 seconds a record counts as new |
| `CacheTtl.Reply.Age` | cache.go:123-142 | fails exactly if some TTL has run out; else every TTL less by the age, in place, under the query's id and question |
| `CacheTtl.AgedIsServed` | cache.go:108-142 | before expiry the age cannot wrap, each TTL served is at least 1 and ends less than a second after the stored one |
| `CacheTtl.LiveIff` | cache.go:123-142 | an unexpired answer can be served exactly while all its TTLs run |
| `CacheTtl.ServedForLowestTtl` | cache.go:321-360 | an ordinary answer is served for exactly its lowest TTL |
| `CacheTtl.KeptForLowestTtl` | cache.go:331-338 | kept for the lowest TTL exactly if that is below the largest value or equals the negative TTL |
| `CacheTtl.LargestTtlMissed` | cache.go:363-381 | an answer that is not |
| `CacheTtl.FailureLimit` | cache.go:339-345 | a failure is kept for at most five minutes (section 7.1 of RFC 2308) |
| `MemoryBackend.HitIsServed` | cache-memory.go:82-120 | a blob that storeInCache made is served as the answer it was made from, aged by the time since |
| `MemoryBackend.LastStoredIsStored` | cache.go:321-360 | if all writes came from storeInCache, so did what was last stored |
| `MemoryBackend.RestartKeepsStored` | cache-memory.go:177-229 | and so does all that a cut or whole file of the cache restores |
| `MemoryBackend.Backend.constructor` | cache-memory.go:50-66 | an empty cache, or one with what its raw file restores |
| `MemoryBackend.Backend.LoadFromFile` | cache-memory.go:204-229 | the steps that restore the usable records; none on a bad header |
| `MemoryBackend.Backend.Store` | cache-memory.go:68-80 | one store step of the abstract cache, or none if the message does not pack |
| `MemoryBackend.Backend.StoreInCache` | cache.go:321-360 | that step with the right expiry, or none for codes that are not cached |
| `MemoryBackend.Backend.Lookup` | cache-memory.go:82-120 | a hit exactly if an entry for the key is found and can be served; then it is what was last stored or restored, aged, and with TTLs told from the clock if storeInCache made it; anything else found is evicted |
| `MemoryBackend.Backend.Touch` | cache-memory.go:86-90 | one lookup step of the abstract cache |
| `MemoryBackend.Serve` | cache-memory.go:97-119 | served exactly if unexpired, unpackable and not aged out |
| `MemoryBackend.Backend.Evict` | cache-memory.go:122-128 | one eviction step |
| `MemoryBackend.Backend.Flush` | cache-memory.go:130-134 | one flush step |
| `MemoryBackend.Backend.Collect` | cache-memory.go:141-162 | exactly the expired entries go |
| `InFlight.FreeId` | pipeline.go:262-271 | while the guard passes there is an id not in flight |
| `InFlight.Request.MarkDone` | pipeline.go:235-242 | the outcome under the query's own id; needs a request not completed before |
| `InFlight.Queue.Add` | pipeline.go:256-280 | refused exactly when full; else a new id, in the queue, the request and the query alike |
| `InFlight.Queue.Get` | pipeline.go:284-294 | the request under an id, which leaves the queue |
| `InFlight.Queue.Delete` | pipeline.go:298-304 | that request is gone and no other, whatever its id says |
| `InFlight.Queue.Drain` | pipeline.go:307-314 | every request failed once, the queue empty |
| `PipelineProof.StepKeeps` | pipeline.go:62-203 | every step of every party keeps the invariant |
| `PipelineProof.RunKeeps` | pipeline.go:62-203 | so it holds after every interleaving |
| `PipelineProof.NeverTwice` | pipeline.go:235-242 | no request is completed twice |
| `PipelineProof.TakenIsSomewhere` | pipeline.go:108-203 | a request a writer received is exactly one of: in hand, in flight, completed, taken back by its own timed-out caller |
| `PipelineProof.IdsDistinct` | pipeline.go:256-280 | ids in flight are distinct and agree with the requests' own |
| `PipelineProof.TakeBackSpares` | pipeline.go:298-304 | a late timeout removes its own request and no other, even after its id was reused |
| `PipelineProof.AnswersMatch` | pipeline.go:222-242 | an answer a caller gets carries its id and echoes its question (section 9.1 of RFC 5452) |
| `PipelineProof.NothingForgotten` | pipeline.go:91-203 | when the dispatcher waits again and nothing is queued anew, every waiting caller has its outcome |
| `PipelineProof.OwnRetrieved` | pipeline.go:120-128 | what the writer takes back by id after a failed send is the request it sent |
| `PipelineProof.GuardsAlwaysPass` | pipeline.go:91-203 | the side conditions of the steps never hold a reachable state up |
| `PipelineProof.AddAlwaysPossible` | pipeline.go:256-280 | the queue refuses or has an id to give |
| `PipelineQueue.AddStep` | pipeline.go:256-280 | the heap queue's add is the writer's add or refusal step |
| `PipelineQueue.MatchStep` | pipeline.go:284-294 | its get is the reader's match step and yields the request that step completes |
| `PipelineQueue.RetrieveStep` | pipeline.go:120-128 | and the writer's retrieve step, yielding nothing or the request it sent |
| `PipelineQueue.TakeBackStep` | pipeline.go:298-304 | its delete is the caller's take-back step |
| `PipelineQueue.DoneStep` | pipeline.go:235-242 | completing a request in hand finds its channel open |
| `PipelineQueue.DrainStep` | pipeline.go:307-314 | its drain is a run of drain steps to an empty queue |
| `CidrTrie.CoveredAdds` | ip-blocklist-trie.go:27-30 | adding a network below one that is there changes nothing |
| `CidrTrie.NewAdds` | ip-blocklist-trie.go:45-49 | any other adds its own prefixes and cuts off what lies below it |
| `CidrTrie.Trie.Grow` | ip-blocklist-trie.go:31-42 | one node further down, new or not; the rest of the trie unchanged |
| `CidrTrie.Trie.Cut` | ip-blocklist-trie.go:45-49 | a leaf, with just the nodes below it gone |
| `CidrTrie.Trie.Add` | ip-blocklist-trie.go:21-50 | the trie is that of the networks with the new one, in any order |
| `CidrTrie.Trie.Walk` | ip-blocklist-trie.go:25-43 | stops at the network's own node or at one that covers it |
| `CidrTrie.Trie.HasIP` | ip-blocklist-trie.go:54-83 | yes exactly if a network contains the address or lies below it; then the shortest that contains it |
| `CidrTrie.AnswerExact` | ip-blocklist-trie.go:54-96 | with no network longer than the address: yes exactly if one contains it, and the shortest is reported |
| `CidrTrie.RightIff` | ip-blocklist-trie.go:54-83 | on bit strings: right for all addresses of a width exactly if every longer network is covered by a shorter one |
| `CidrDB.MaskedMapped` | cidr-db.go:42-50 | masking leaves a network IPv4-mapped exactly if its address is and 96 bits or more count |
| `CidrDB.WellFiledContains` | cidr-db.go:42-50 | for a rule filed well, containing an address is being of its family and a prefix of its bits |
| `CidrDB.MisfiledHits` | ip-blocklist-trie.go:54-83 | an IPv4-mapped rule makes the IPv4 trie answer exactly for addresses that begin with zeros |
| `CidrDB.MisfiledContains` | cidr-db.go:42-50 | while it contains a block of IPv4 addresses from 96 bits on, and IPv6 addresses before |
| `CidrDB.RightExactly` | cidr-db.go:69-81 | for every list and address: the exact condition under which the answer is right |
| `CidrDB.RightWhenFiledWell` | cidr-db.go:69-81 | with no IPv4-mapped rule: right for both families, and the shortest containing network is reported |
| `CidrDB.MisfiledIsWrong` | cidr-db.go:42-50 | every IPv4-mapped rule but one misjudges an address, which is given |
| `CidrDB.MisfiledAlone` | cidr-db.go:42-50 | alone it is right for every address exactly if it is ::ffff:0.0.0.0/128 |
| `CidrDB.DB.Load` | cidr-db.go:42-50 | one rule more, its network in the trie of the family of the address written |
| `CidrDB.DB.Match` | cidr-db.go:69-81 | none for an empty address; else right exactly under that condition, and always without IPv4-mapped rules |
| `LoadBalance.RunPositive` | loadbalance.go:212-279 | after every run the average is at least one microsecond |
| `LoadBalance.WeightBounds` | loadbalance.go:188-198 | weights lie above 0 and at most at 100 |
| `LoadBalance.WeightMonotone` | loadbalance.go:188-198 | a slower average never weighs more |
| `LoadBalance.FailureRaisesIff` | loadbalance.go:244-279 | a failure lowers an average exactly if penalised with less than it |
| `LoadBalance.PenaltyCanLower` | loadbalance.go:244-279 | a run of three events that gets there |
| `LoadBalance.FirstFailure` | loadbalance.go:257-263 | a first failure weighs no more than an unknown resolver |
| `LoadBalance.UnflaggedIsAverage` | loadbalance.go:212-279 | unless flagged, the average is that of the latest successes alone, for every run |
| `LoadBalance.UnflaggedWithin` | loadbalance.go:212-279 | so it lies within what was measured |
| `LoadBalance.DrawnUnique` | loadbalance.go:201-208 | shares of the total do not overlap |
| `LoadBalance.Select` | loadbalance.go:201-208 | the position whose share the draw falls into |
| `LoadBalance.Group.Pick` | loadbalance.go:170-209 | a valid position: uniform when exploring, else by share of weight |
| `LoadBalance.Group.UpdateOnSuccess` | loadbalance.go:212-236 | seeds anew when flagged, else blends; clears streak and flag |
| `LoadBalance.Group.UpdateOnFailure` | loadbalance.go:244-279 | the statistics after a failure, and whether it was penalised |
| `LoadBalance.Group.Resolve` | loadbalance.go:103-160 | none tried twice; ends on the first success or after all failed; each one tried is updated once, the others not at all |

## Left out

- Listeners, clients, transports, routing, configuration, metrics and logging: input, output and library calls.
- The text of rules beyond their labels: lines are taken as already trimmed of white space, and lower-casing is ASCII.
- DNS message packing, signature and digest checks, NSEC3 hashing: uninterpreted; names are label sequences, so escapes in text and the root apex's "*.." are not modelled.
- Empty labels in query names: DomainDB.DB.Match reports on labels for any name, and on text for well-formed ones.
- Blob offsets past 2^32: DomainDB.NewDomainDB needs the long labels of a list to total less than that, CompactDB.DB needs fewer than 2^32 fingerprints.
- NSEC records mixed from several zones: NSEC theorems speak of one zone's chain.
- Validator: replies and clock readings depend on how many came before; an upstream error is never itself the insecure verdict.
- Validator.VouchedByOwn: that real digests cover the owner's name and real signature checks compare the signer with it are hypotheses, as both are uninterpreted.
- lruKeyFromQuery: the key of a query is a parameter, so lower-casing and client subnet fields are not modelled.
- The JSON cache file (MemoryBackend.Backend.constructor takes a raw file or none), saving in intervals, atomic replacement of files, write errors.
- The gap between the two locked sections of a lookup: MemoryBackend.Backend.Lookup runs in one piece; other calls in between would be further steps of the same abstract cache.
- CacheTtl.ExpiryOf: needs a clock between 1970 and 2126, so that the longest expiry is a 64-bit nanosecond count.
- Prefetching, answer shuffling and answering below a cached NXDOMAIN.
- Random id draws: InFlight.Queue.Add takes any free id; that drawing ends is not claimed, nor any liveness of timers or scheduling.
- Case folding beyond ASCII in the check of the echoed question, and the queue-length metric.
- The text form of a CIDR rule: the number of bits stands for it.
- Floating-point rounding in averages and weights; the last resort of the weighted choice is then unreachable.
- Other resolver groups, rate limits, modifiers, DNS64, other block lists: each is settled by one branch.
