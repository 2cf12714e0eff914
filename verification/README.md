# A verified model of the NothingDNS core

This project models the parts of the NothingDNS server whose correctness is hardest to see
from the code, and proves properties of them for all inputs and all runs.

- **The response cache** (`Recency`, `CacheShard`, `CacheRuns`, `ShardMachine`, `CacheKey`,
  `CacheTtl`). A shard keeps a map and an intrusive doubly linked list that must agree. The
  shard is a class updated in place and refines a plain recency list. `Get` gives up its read
  lock before taking the write lock, so it is several steps, and the invariant is proved under
  every interleaving. On top come expiry, serve-stale (section 4 of RFC 8767), TTL ageing and
  the string key codec.
- **The gossip protocol** (`Gossip`, `GossipRuns`). One node is a class with the source's
  fields. Any number of nodes form a transition system over a network that loses, duplicates
  and reorders frames. Outside senders may announce leaders.
- **Weighted routing** (`Routing`): the membership table, the health score and the weighted
  choice of a peer.
- **The session store** (`Sessions`, `SessionRuns`): tokens beside a redundant counter, with
  eviction, two-phase expiry, revocation and bulk load.
- **Aggressive negative caching** (`CanonicalOrder`, `NsecRing`, `NsecCache`): range coverage
  over a ring of NSEC records (sections 4.1.1 and 6.1 of RFC 4034).
- **Signed data** (`WireNames`, `SignedData`): the bytes an RRSIG covers (sections 3.1.8.1 and
  6.3 of RFC 4034).
- **Flow-style YAML** (`FlowGrammar`, `FlowParser`): the recursive-descent parser as a class
  with its token cursor, proved against a grammar in both directions.
- **The API rate limiter** (`RateLimiter`), **reverse zones** (`ReverseZone`) and the **CNAME
  chase** (`CnameChase`).

`Text`, `Arithmetic`, `Durations`, `Orders` and `Wrappers` hold shared definitions. Methods are
proved against functions or predicates on values, and the theorems about runs are about those.

Eight properties that the code or its documentation suggests do not hold as they stand. Each has
a failing input and the exact condition under which it holds.

- A key gives its name back only if the name does not contain the separator
  (`CacheKey.ExtractAfterMake`, `CacheKey.SeparatorCutsName`).
- `GetStale` answers in the grace period only for entries with a message; `SetNegative` and
  `SetNegativeWithTTL` store none, and the code then dereferences nil
  (`CacheRuns.StaleAnswersLatest`, `CacheRuns.MessagelessStale`).
- The negative TTL is a ceiling for SOA values only if the clamps applied after it do not lift
  it (`CacheTtl.CeilingExactly`, `CacheTtl.CeilingExceeded`).
- Session counters are exact only with a positive cap (`SessionRuns.ExactOnlyWithCap`,
  `SessionRuns.UncountedLogin`).
- A login at the cap may evict a token that is not the user's oldest, because the zero time
  doubles as "none yet" (`Sessions.EvictsOldestExactly`, `SessionRuns.NewerEvictedInRun`).
- A full rate-limiter table may give up a record that is not the oldest, because the empty
  address doubles as "none yet" (`RateLimiter.ReplacesOldestExactly`,
  `RateLimiter.NewerReplacedInRun`).
- Relative owners of a four-octet reverse zone, or of one whose suffix is not in lower case,
  do not reconstruct the reverse name (`ReverseZone.RelativeExact`, `ReverseZone.FourOctetZone`,
  `ReverseZone.UpperCaseZone`).
- Gossip admits two leaders of one term as soon as two are announced for it
  (`GossipRuns.SafeExactly`, `GossipRuns.TwoLeaders`).

## Model

| member | source | states |
|---|---|---|
| `Recency.InsertIsLru` | internal/cache/cache.go:706-771 | inserting an item gives the new item followed by the first capacity-1 others in their old order: one item per key, the bound restored even after the capacity shrank, only the least recently used evicted, nobody when a held key is refreshed within capacity |
| `Recency.EvictCount` | internal/cache/cache.go:791-810 | the number evicted from a shard is the percentage of its size, rounded down, but at least one for a non-empty shard; it is zero for a percentage outside 1 to 100 |
| `Recency.PerShardCapacity` | internal/cache/cache.go:328-334 | at least one entry per shard, enough for the sixteen together to hold the total, and no more than needed for that |
| `CacheShard.Shard.PushFront` | internal/cache/cache.go:752-762 | the doubly linked list gains the entry at its front; `prev` stays the exact reverse of `next` |
| `CacheShard.Shard.IntrusiveRemove` | internal/cache/cache.go:774-787 | exactly the entry's position is cut out of the list and the links stay consistent |
| `CacheShard.Shard.SkipForward` | internal/cache/cache.go:775-779 | forwards, the list goes past exactly the entry's position |
| `CacheShard.Shard.SkipBackward` | internal/cache/cache.go:780-784 | backwards, it does so too |
| `CacheShard.Shard.MoveEntryToFront` | internal/cache/cache.go:765-771 | the recency list is the entry followed by the others in order; map and list still agree |
| `CacheShard.Shard.RemoveEntry` | internal/cache/cache.go:733-736 | the entry leaves list and map together, the rest keeps its order |
| `CacheShard.Shard.EvictOldest` | internal/cache/cache.go:741-749 | the last entry of the list goes, or nothing when the shard is empty |
| `CacheShard.Shard.Delete` | internal/cache/cache.go:820-838 | the key's entry is dropped from both structures; the notification is due exactly when the key was held |
| `CacheShard.Shard.MakeRoom` | internal/cache/cache.go:719-724 | the eviction loop leaves the first capacity-1 entries, or all when fewer |
| `CacheShard.Shard.AddEntry` | internal/cache/cache.go:706-729 | the heap shard after an insertion is the insertion on the recency list |
| `CacheShard.Shard.Clear` | internal/cache/cache.go:841-857 | an empty shard, with every former entry unlinked |
| `CacheShard.Shard.EvictPercent` | internal/cache/cache.go:791-810 | exactly the counted number of entries is taken from the back |
| `CacheShard.Shard.GetLookup` | internal/cache/cache.go:413-426 | a miss just when the key is not held; otherwise the held entry of that key, classified by expiry |
| `CacheShard.Shard.GetSample` | internal/cache/cache.go:454-455 | the hit is counted and gets the number it was counted as |
| `CacheShard.Shard.GetTouch` | internal/cache/cache.go:487-490 | a hit is promoted on the entry's first touch or when its own number is a multiple of sixteen, whatever was counted in between |
| `CacheShard.Shard.GetPromote` | internal/cache/cache.go:492-502 | for any entry, held or since replaced: it moves to the front just when it is still the held entry of the key, and the shard stays valid |
| `CacheShard.Shard.GetExpire` | internal/cache/cache.go:426-448 | for any entry: it is removed just when it is still held and, with serve-stale, past its grace |
| `CacheShard.Shard.GetStaleLocked` | internal/cache/cache.go:511-553 | an entry is found just when serve-stale is on and it is expired within its grace; past the grace it is removed; a live one is untouched |
| `CacheShard.Shard.GetStale` | internal/cache/cache.go:511-565 | both halves together: a held entry in its grace period is served, as a fresh copy with TTLs of at most 30, if and only if it has a message; without one the source dereferences nil |
| `CacheShard.Shard.RemoveMatching` | internal/cache/cache.go:891-905 | all matching keys and only those are removed, each reported once, the rest keeps its order |
| `CacheShard.InvalidatePattern` | internal/cache/cache.go:883-918 | of the keys made from names of at most 128 bytes without the separator, exactly those whose name lies at or below the pattern are removed and reported, each once; the rest keeps its order |
| `CacheShard.MappedIsListed` | internal/cache/cache.go:706-787 | the map's values are exactly the nodes of the list, each under its own key |
| `CacheShard.WalkIsList` | internal/cache/cache.go:752-787 | following `next` from the front meets every entry once and ends; following `prev` from the back is the exact reverse |
| `ShardMachine.Machine.Lookup` | internal/cache/cache.go:413-426 | the read-locked part of a Get on the heap is the lookup step of the run |
| `ShardMachine.Machine.Sample` | internal/cache/cache.go:454-455 | counting a hit is the sampling step of the run |
| `ShardMachine.Machine.Touch` | internal/cache/cache.go:487-490 | marking the entry as touched is the touching step of the run, with any steps in between |
| `ShardMachine.Machine.Promote` | internal/cache/cache.go:492-502 | the second lock phase of a hit is the promotion step, whatever happened in between |
| `ShardMachine.Machine.Expire` | internal/cache/cache.go:426-448 | the second lock phase of an expired lookup is the expiry step, whatever happened in between |
| `ShardMachine.Machine.SetInternal` | internal/cache/cache.go:663-702 | a positive write stores an entry that lives for its clamped TTL from the clock reading |
| `ShardMachine.Machine.SetNegativeEntry` | internal/cache/cache.go:630-657 | a negative write stores an entry that lives for its clamped duration from the clock reading |
| `ShardMachine.Machine.SetNegative` | internal/cache/cache.go:590-628 | the three negative writes: their durations under the ceiling, and which of them store a message |
| `ShardMachine.Machine.Stale` | internal/cache/cache.go:511-565 | GetStale on the heap has the effect and the outcome that the run computes |
| `ShardMachine.Machine.Perform` | internal/cache/cache.go:413-930 | every operation on the heap does exactly what its step does to the abstract state |
| `ShardMachine.Machine.Run` | internal/cache/cache.go:413-930 | under any interleaving of Get phases with writes, deletions, evictions, invalidation, clearing and resizing, map and list stay consistent, the heap is in the state the run computes, and every GetStale has the outcome it computes |
| `CacheRuns.OnePerKey` | internal/cache/cache.go:706-787 | in every state of every run there is at most one item per key |
| `CacheRuns.HeldSinceWritten` | internal/cache/cache.go:413-505 | a held item was written at some step and has been held ever since |
| `CacheRuns.GetReturnsLatest` | internal/cache/cache.go:413-505 | a Get that hits returns the latest write of its key, not removed since, before insertion plus the clamped lifetime of that write |
| `CacheRuns.WrittenHits` | internal/cache/cache.go:413-448 | right after a write its key hits until exactly the write time plus the lifetime asked for, when the limits allow it, and is found expired from then on; the entry carries a message just as the write did |
| `CacheRuns.HeldHits` | internal/cache/cache.go:413-448 | in any run a lookup finds a held item live if and only if it comes before write time plus asked lifetime |
| `CacheRuns.HitPromotesExactly` | internal/cache/cache.go:450-492 | in any run, with other threads between any two steps, a hit goes on to promote the item if and only if no Get touched it before or the number of hits counted so far, this one included, is a multiple of sixteen |
| `CacheRuns.PromotionExactly` | internal/cache/cache.go:492-502 | when the promotion gets the lock, the item goes first and the others keep their order if the list still holds that very item; otherwise the list stays |
| `CacheRuns.StaysPending` | internal/cache/cache.go:413-505 | no step of other threads, locked operation or write disturbs what a Get has found |
| `CacheRuns.HitsCounted` | internal/cache/cache.go:454-455 | the hit counter is the number of hits sampled in the run |
| `CacheRuns.TouchesRecorded` | internal/cache/cache.go:487-490 | an entry is marked as touched if and only if some Get of the run touched it |
| `CacheRuns.RemovesExactly` | internal/cache/cache.go:820-918 | deletion, invalidation and clearing remove exactly the items they name |
| `CacheRuns.EvictsFromBack` | internal/cache/cache.go:791-810 | eviction leaves a prefix of the recency list, shorter by the percentage rounded down but by one at least; a new total capacity is divided by sixteen, rounded up |
| `CacheRuns.PromotesToFront` | internal/cache/cache.go:765-771 | promotion gives the item followed by the others in their order |
| `CacheRuns.WithinCapacity` | internal/cache/cache.go:706-729 | from any write up to the next capacity change the shard is within capacity, however full it was before |
| `CacheRuns.GetKeepsServable` | internal/cache/cache.go:426-448 | with serve-stale on and a monotone clock, what a Get removes could not be served by any later GetStale |
| `CacheRuns.TimeSplits` | internal/cache/cache.go:413-553 | for a held key time splits into a range only Get answers, a grace range only GetStale answers, provided the entry has a message, and a range neither answers |
| `CacheRuns.StaleAnswersLatest` | internal/cache/cache.go:511-565 | in every run GetStale comes to something for a key if and only if an entry of it is held in its grace period; that entry is the latest write of the key, and it is served if and only if that write carried a message; otherwise nil is dereferenced |
| `CacheRuns.MessagelessStale` | internal/cache/cache.go:590-609 | a run that writes a negative entry without a message and asks for it in its grace period ends in the nil dereference |
| `CacheKey.MakeKey` | internal/cache/cache.go:360-407 | the builder loop writes the key of the name, type and DO bit |
| `CacheKey.KeyInjective` | internal/cache/cache.go:360-407 | names of at most 128 bytes get equal keys if and only if they agree up to ASCII case, type and DO bit |
| `CacheKey.ExtractAfterMake` | internal/cache/cache.go:1058-1081 | extraction gives back the lower-case name and the type if and only if the name has no separator |
| `CacheKey.SeparatorCutsName` | internal/cache/cache.go:1058-1081 | a name with the separator for which extraction fails |
| `CacheKey.InvalidatesSubtree` | internal/cache/cache.go:883-930 | a key is invalidated if and only if its name lies at or below the pattern, label by label |
| `CacheKey.NormalizesAlike` | internal/cache/cache.go:920-930 | names that differ only in ASCII case, outer white space or one final dot are matched alike |
| `CacheTtl.Clamp` | internal/cache/cache.go:663-675 | the clamped lifetime is the asked one within the limits, and otherwise the limit that is in the way; the maximum wins over the minimum |
| `CacheTtl.LivesAsAsked` | internal/cache/cache.go:590-676 | for each kind of write the lifetime is the TTL in seconds, the negative TTL, or the smaller of SOA value and negative TTL, within the limits, and otherwise the limit in the way |
| `CacheTtl.NegativeLifetime` | internal/cache/cache.go:599-605 | an SOA value never extends negative caching beyond the clamped ceiling, nor beyond the maximum |
| `CacheTtl.NegativeMessageLifetime` | internal/cache/cache.go:619-628 | the same with the message kept; a zero SOA value falls back to the configured lifetime |
| `CacheTtl.CeilingExactly` | internal/cache/cache.go:594-640 | the configured negative TTL is a ceiling for every SOA value if and only if the minimum does not exceed it or the maximum cuts back to it |
| `CacheTtl.CeilingExceeded` | internal/cache/cache.go:594-640 | a minimum of 5 s lifts a ceiling of 1 s |
| `CacheTtl.Lifetime` | internal/cache/cache.go:590-676 | the lifetime of every kind of write respects both limits |
| `CacheTtl.AgeingComposes` | internal/cache/cache.go:94-128 | ageing by a and then by b whole seconds is ageing by a+b in all three sections |
| `CacheTtl.DecrementSection` | internal/cache/cache.go:112-128 | in place, each non-OPT TTL becomes max(1, TTL minus age); OPT and missing records are untouched |
| `CacheTtl.ClampSection` | internal/cache/cache.go:135-149 | in place, each non-OPT TTL above the cap becomes the cap |
| `CacheTtl.SectionByRecord` | internal/cache/cache.go:112-149 | ageing and capping a section change nothing but TTLs: to the larger of 1 and TTL minus age, and to the smaller of TTL and cap; OPT records stay |
| `CacheTtl.RecsAt` | internal/cache/cache.go:112-128 | the value of a section is its records in order |
| `CacheTtl.AgeInSeconds` | internal/cache/cache.go:94-108 | the age is the number of whole seconds since the insertion |
| `CacheTtl.AgeAdjustedMessage` | internal/cache/cache.go:94-108 | a fresh aged copy; the cached message is outside what is modified |
| `CacheTtl.StaleMessage` | internal/cache/cache.go:552-564 | a fresh copy with TTLs at most 30; an entry without message makes the source dereference nil, and only that does |
| `FlowGrammar.ParsePrinted` | internal/config/parser.go:707-832 | printed flow syntax is parsed back to its tree, leaving what follows, if and only if it is at most 101 levels deep and repeats no key; otherwise an error |
| `FlowGrammar.RoundTrip` | internal/config/parser.go:707-832 | any tree of scalars, sequences and distinct-key mappings survives printing and parsing; deeper nesting is always an error |
| `FlowGrammar.ParsedIsPrinted` | internal/config/parser.go:707-832 | everything accepted is the print of some syntax with exactly the returned tree |
| `FlowGrammar.TreeIsWellKeyed` | internal/config/parser.go:776-783 | every accepted mapping has paired children with distinct scalar keys |
| `FlowGrammar.ScalarKinds` | internal/config/parser.go:728-757 | text, number, boolean and null tokens are each a scalar value of their text |
| `FlowGrammar.NothingElseStarts` | internal/config/parser.go:728-832 | a value starts with one of those four or an opening bracket or brace, and a key is a text token followed by a colon |
| `FlowParser.Parser.Advance` | internal/config/parser.go:92-104 | the cursor moves to the next token that is not a comment |
| `FlowParser.Parser.Peek` | internal/config/parser.go:107-118 | the lookahead is the next token that is not a comment; nothing is consumed |
| `FlowParser.Parser.ParseFlowMapping` | internal/config/parser.go:707-774 | the recursive method agrees with the parsing function and restores `depth` on every return |
| `FlowParser.Parser.PairLoop` | internal/config/parser.go:718-783 | the pair loop agrees with it for any state of the cursor |
| `FlowParser.Parser.ParseFlowSequence` | internal/config/parser.go:786-832 | the recursive method agrees with the parsing function and restores `depth` on every return |
| `FlowParser.Parser.ItemLoop` | internal/config/parser.go:800-831 | the item loop agrees with it for any state of the cursor |
| `FlowParser.Parser.ParseRoot` | internal/config/parser.go:59-89 | a flow document is its mapping with newlines around it and nothing else; any other document goes to the block parser |
| `FlowParser.ParseTokens` | internal/config/parser.go:59-832 | with comments anywhere and newlines around it, a printed mapping yields its tree or an error exactly as above, whatever is accepted is such a print, and exactly the streams without a flow mapping at the root go to the block parser |
| `CanonicalOrder.CompareNames` | internal/protocol/labels.go:734-766 | the two-cursor loop computes the canonical order of names |
| `CanonicalOrder.NameOrder` | internal/protocol/labels.go:734-766 | the order is antisymmetric and equal exactly for names that agree up to case |
| `CanonicalOrder.NameTransitive` | internal/protocol/labels.go:734-766 | the order is transitive |
| `CanonicalOrder.FirstCharDecides` | internal/protocol/labels.go:734-766 | labels are ordered by the first character in which they differ; a proper prefix comes first |
| `CanonicalOrder.ZoneBeforeBelow` | internal/protocol/labels.go:734-766 | a name comes before every name below it |
| `CanonicalOrder.RightmostLabelDecides` | internal/protocol/labels.go:734-766 | names are ordered by the rightmost label in which they differ, in lower case, whatever stands to its left |
| `NsecRing.OwnerNotCovered` | internal/cache/nsec.go:172-187 | no owner of a complete sorted ring lies in the range of any record, wrap-around and one-record rings included |
| `NsecRing.CoveredOnce` | internal/cache/nsec.go:172-187 | every other name lies in the range of exactly one record |
| `NsecCache.LookupAt` | internal/cache/nsec.go:130-163 | a denial comes from an unexpired covering record, no-data from an unexpired matching one without the type, nothing only when there is neither |
| `NsecCache.AnswerUnique` | internal/cache/nsec.go:130-163 | for records of one ring the answer does not depend on the map's iteration order |
| `NsecCache.AnswersExactly` | internal/cache/nsec.go:130-163 | for records of one ring a name error is answered if and only if an unexpired record covers the name, and no-data if and only if the unexpired record of the name does not list the type |
| `NsecCache.FirstMinimumIs` | internal/cache/nsec.go:69-81 | the SOA minimum taken is that of the first SOA record |
| `NsecCache.LivesForSmaller` | internal/cache/nsec.go:93-109 | a record keeps its owner, next name and types, and lives for exactly the smaller of its TTL and the SOA minimum, in seconds |
| `NsecCache.OwnerNeverDenied` | internal/cache/nsec.go:130-163 | for records of one ring an owner is never answered with a name error |
| `NsecCache.NoDataMeansOwner` | internal/cache/nsec.go:153-159 | no-data is only answered for an owner, from its own record |
| `NsecCache.Store.EvictExpired` | internal/cache/nsec.go:285-291 | exactly the expired records go |
| `NsecCache.Store.EvictToMaxSize` | internal/cache/nsec.go:293-310 | of the live records exactly as many stay as fit, unchanged, and none that goes expires later than one that stays |
| `NsecCache.Store.AddFromResponse` | internal/cache/nsec.go:58-122 | only a validated name error is taken in, record by record, each under its owner's key with the smaller of its TTL and the SOA minimum; the table stays within its size |
| `NsecCache.Store.Take` | internal/cache/nsec.go:84-121 | one record: stored, or stored and evicted down to the size, at its own clock readings |
| `NsecCache.FillingComesFrom` | internal/cache/nsec.go:58-122 | what the table holds after a response is old or comes from it |
| `NsecCache.FillingKeepsAll` | internal/cache/nsec.go:58-122 | when everything fits, nothing is lost and all of the response is stored |
| `NsecCache.HistoryStaysInRing` | internal/cache/nsec.go:84-121 | filled with records of one ring, by any interleaving of responses, the cache holds only records of that ring and never exceeds its size |
| `WireNames.CanonicalWireName` | internal/protocol/labels.go:633-678 | the scanning loops produce the canonical wire form of the name's labels |
| `WireNames.SelfDelimiting` | internal/protocol/labels.go:633-678 | for names of at most 255 bytes, bytes that start with a wire name determine it and what follows |
| `WireNames.WireNameReadsBack` | internal/protocol/labels.go:633-678 | for names of at most 255 bytes a reader of the wire form gets exactly the non-empty labels, in order and in lower case, and the form ends with the root label |
| `WireNames.TrimsLeft` | internal/protocol/labels.go:635-639 | exactly the leading blanks and tabs are trimmed |
| `WireNames.TrimsRight` | internal/protocol/labels.go:635-642 | and exactly the trailing ones |
| `SignedData.SortByData` | cmd/dnsctl/dnssec.go:1208-1278 | in place, an ascending rearrangement by data |
| `SignedData.Build` | cmd/dnsctl/dnssec.go:1208-1278 | the signed bytes of some ascending arrangement of the packed records, or the first error the construction meets |
| `SignedData.PacksEach` | cmd/dnsctl/dnssec.go:1208-1278 | packing succeeds if and only if every record packs, and then packs record by record |
| `SignedData.OrderIrrelevant` | cmd/dnsctl/dnssec.go:1208-1278 | for permuted rows of one record set the bytes are the same, however equal data are arranged |
| `SignedData.BuildIgnoresOrder` | cmd/dnsctl/dnssec.go:1208-1278 | for any two orders of a record set the construction fails for both or for neither, and returns the same bytes |
| `SignedData.BytesDetermine` | cmd/dnsctl/dnssec.go:1208-1278 | the bytes determine all RRSIG fields, the signer name and the sorted data |
| `SignedData.BuiltLayout` | cmd/dnsctl/dnssec.go:1208-1278 | the bytes, field by field in big-endian order: the eight RRSIG fields, the signer name, and for each record in ascending order of data its owner, type, class, original TTL, data length and data |
| `SignedData.PrefixLayout` | cmd/dnsctl/dnssec.go:1218-1229 | the position and value of each RRSIG field |
| `SignedData.RowsLayout` | cmd/dnsctl/dnssec.go:1265-1274 | the records one after the other, each with its owner, header and data |
| `SignedData.HeaderLayout` | cmd/dnsctl/dnssec.go:1269-1273 | the position and value of type, class, TTL and data length |
| `SignedData.FirstByteDecides` | cmd/dnsctl/dnssec.go:1262-1264 | data are ordered by the first byte in which they differ; a proper prefix comes first |
| `CnameChase.Chase` | cmd/nothingdns/authoritative.go:404-439 | no loop is reported if and only if the chain ends within fifteen steps, and then the records are that path of distinct names, ending at the target; the records have distinct owners if each is owned by the name it was found for; every revisit is reported |
| `CnameChase.Follow` | cmd/nothingdns/authoritative.go:404-439 | the loop ends at a name met again, at a name without CNAME, or after sixteen lookups, with the records of a path of distinct names |
| `CnameChase.EndsExactly` | cmd/nothingdns/authoritative.go:404-439 | those three ends decide the report exactly |
| `CnameChase.CycleNeverEnds` | cmd/nothingdns/authoritative.go:404-439 | a chain that meets a name again never ends |
| `CnameChase.CanonicalForm` | cmd/nothingdns/helpers.go:74-83 | the canonical form ends with a dot, has no upper-case letter and ignores outer white space |
| `RateLimiter.Limiter.Oldest` | internal/api/server.go:324-333 | the replaced record is one that some visiting order of the table selects |
| `RateLimiter.ReplacesOldestExactly` | internal/api/server.go:324-333 | in every visiting order the replaced record is an oldest one, if and only if the empty address is not stored, or is alone, or another address is as old |
| `RateLimiter.NewerReplacedInRun` | internal/api/server.go:322-334 | a run from the empty table to a full one in which the next request replaces a record that is not the oldest |
| `RateLimiter.Limiter.Check` | internal/api/server.go:314-357 | one request: verdict, replacement at the cap and new list, with the table kept within its cap |
| `RateLimiter.Limiter.Cleanup` | internal/api/server.go:388-408 | every list is cut to the window and empty ones are dropped |
| `RateLimiter.StoredAgrees` | internal/api/server.go:314-408 | what is stored for an address agrees, within any later window, with everything admitted since |
| `RateLimiter.WindowBound` | internal/api/server.go:314-408 | while its record is not replaced, any half-open interval of window length contains at most the limit of admitted requests of an address, across any clean-ups |
| `RateLimiter.RejectedExactly` | internal/api/server.go:314-408 | an address first seen at some step and not replaced since is rejected if and only if as many of its requests as the limit were admitted in the window that ends now |
| `RateLimiter.RecentExactly` | internal/api/server.go:338-345 | filtering keeps exactly the times after the cutoff, and as many as there are |
| `RateLimiter.CheckedExactly` | internal/api/server.go:314-357 | a request is rejected if and only if as many stored times as the limit lie within the window; afterwards exactly those times are stored, and the present one if it was admitted |
| `RateLimiter.CleanedExactly` | internal/api/server.go:388-408 | a clean-up keeps an address if and only if one of its stored times lies within the window, and then exactly those times |
| `RateLimiter.TableBounded` | internal/api/server.go:322-335 | the table never exceeds its cap and never stores an empty list |
| `ReverseZone.ReverseOfDotted` | internal/api/server.go:1121-1127 | the reverse name of a dotted address is its octets reversed under in-addr.arpa |
| `ReverseZone.ZoneLabels` | internal/api/server.go:1213-1233 | the labels of a reverse zone of one to four octets, and an error for anything else |
| `ReverseZone.ValidateNetwork` | internal/api/server.go:1168-1211 | accepted if and only if the zone is the reverse zone of the network's leading octets and the block is no larger |
| `ReverseZone.ReverseRelative` | internal/api/server.go:1133-1163 | the copying loop returns the name that the next rows are about |
| `ReverseZone.RelativeExact` | internal/api/server.go:1133-1163 | the owner joined to the origin is the address's own reverse name if and only if the zone has at most three octets and a lower-case suffix; otherwise it fails |
| `ReverseZone.FourOctetZone` | internal/api/server.go:1146-1150 | it fails for the zone of any single address |
| `ReverseZone.UpperCaseZone` | internal/api/server.go:1136-1140 | it fails for any zone with an upper-case suffix, although such zones are accepted |
| `ReverseZone.BlockNamed` | internal/api/api_zones.go:498-548 | the same for all addresses of an accepted block |
| `ReverseZone.BlockDistinct` | internal/api/api_zones.go:533-548 | the owners of such a block are all different |
| `ReverseZone.BulkOwners` | internal/api/api_zones.go:498-548 | names are produced if and only if the block has at most 65536 addresses and lies in the zone; 32-bit addition does not wrap |
| `Gossip.GossipProtocol.HandleElection` | internal/cluster/gossip_election.go:26-40 | only the election term may rise |
| `Gossip.GossipProtocol.HandleLeader` | internal/cluster/gossip_election.go:55-87 | an announcement is adopted exactly at a higher term, or at the same term without a known leader or for the same one; otherwise nothing changes |
| `Gossip.GossipProtocol.HandleHeartbeat` | internal/cluster/gossip_election.go:90-137 | a heartbeat is adopted exactly at a higher term or at the same term without a known leader; from the known leader it only refreshes the time |
| `Gossip.LeaderIsHeartbeat` | internal/cluster/gossip_election.go:55-137 | on a well-formed node both handlers have the same effect |
| `Gossip.GossipProtocol.HandleUpdate` | internal/cluster/gossip_handlers.go:127-168 | the callback runs just when a follower knows a leader, the sender is that leader, a callback is registered and the payload decodes |
| `Gossip.GossipProtocol.DecodeMessage` | internal/cluster/gossip_handlers.go:505-553 | acceptance by version and high-water mark; a rejected frame leaves the map unchanged |
| `Gossip.GossipProtocol.HandleMessage` | internal/cluster/gossip_swim.go:79-116 | the dispatcher: a frame of one's own is marked but not handled |
| `Gossip.GossipProtocol.DetectSplitBrain` | internal/cluster/gossip_election.go:142-163 | steps down just when leading with a higher election term seen |
| `Gossip.GossipProtocol.StepDown` | internal/cluster/gossip_election.go:167-176 | a leader gives up and leaves its term |
| `Gossip.GossipProtocol.CheckLeaderHealth` | internal/cluster/gossip_election.go:218-237 | an election is launched just when a follower's leader has been silent for 15 s and none is running |
| `Gossip.GossipProtocol.SendMessage` | internal/cluster/gossip_handlers.go:556-588 | one frame with the next sequence number |
| `Gossip.GossipProtocol.Broadcast` | internal/cluster/gossip_election.go:303-311 | a broadcast is one frame per peer with consecutive sequence numbers |
| `Gossip.GossipProtocol.SendHeartbeat` | internal/cluster/gossip_election.go:243-271 | a leader's heartbeats carry itself and its term; anyone else sends nothing |
| `Gossip.GossipProtocol.AnnounceLeader` | internal/cluster/gossip_election.go:315-354 | a leader's announcements carry itself and its term; anyone else gets an error |
| `Gossip.GossipProtocol.BroadcastUpdate` | internal/cluster/gossip_handlers.go:92-123 | only a leader broadcasts updates |
| `Gossip.GossipProtocol.StartElection` | internal/cluster/gossip_election.go:274-312 | the election term rises by one and is what the frames carry |
| `GossipRuns.StepKeepsWellFormed` | internal/cluster/gossip_election.go:26-312 | every step keeps `isLeader` equivalent to naming oneself, and no term goes back |
| `GossipRuns.Leadership` | internal/cluster/gossip_election.go:26-176 | over any run: a node leads exactly when it names itself, terms never go back, and at an unchanged term a known leader is given up only by this node's own split-brain step-down from leading |
| `GossipRuns.FollowsExactly` | internal/cluster/gossip_election.go:55-137 | an accepted announcement or heartbeat of another sender makes the node follow that leader in that term, with a new heartbeat time, if and only if the term is higher, or is the same while no leader or this one is known; otherwise its leadership stays |
| `GossipRuns.FollowsInRun` | internal/cluster/gossip_election.go:55-137 | the same about the node after a delivery in any run |
| `GossipRuns.ElectionForcesStepDown` | internal/cluster/gossip_election.go:26-163 | an accepted election frame raises the election term to the larger one, and the next split-brain check of a leader makes it step down if and only if that is above its own term |
| `GossipRuns.FollowersStay` | internal/cluster/gossip_election.go:142-176 | a node that does not lead is changed neither by the check nor by stepping down |
| `GossipRuns.StepDownLeavesTerm` | internal/cluster/gossip_election.go:167-176 | stepping down leaves no leader, in the next term, and announcements for the old term are ignored from then on |
| `GossipRuns.SilenceExactly` | internal/cluster/gossip_election.go:218-241 | the health check starts an election, in the next term, if and only if a follower has not heard its leader for fifteen seconds and runs no election; otherwise it changes nothing |
| `GossipRuns.ElectionRound` | internal/cluster/gossip_election.go:274-312 | an election round raises the election term by one and clears the guard, nothing else |
| `GossipRuns.AcceptedExactly` | internal/cluster/gossip_handlers.go:526-550 | over any run a versioned frame is accepted if and only if its version fits and its sequence number is above all accepted before from its sender |
| `GossipRuns.HandledOnce` | internal/cluster/gossip_handlers.go:540-550 | hence accepted sequence numbers per sender strictly increase, however frames are duplicated and reordered |
| `GossipRuns.RejectedChangesNothing` | internal/cluster/gossip_handlers.go:526-550 | a rejected frame changes nothing and triggers no callback |
| `GossipRuns.SequencesUnique` | internal/cluster/gossip_handlers.go:556-565 | a sequence number of a node belongs to one frame only, of that node and its version |
| `GossipRuns.ClaimsRepeatAnnouncements` | internal/cluster/gossip_election.go:55-137 | every announcement and heartbeat on the wire, and every held leadership, repeats an outside announcement |
| `GossipRuns.OneNodeLeadsPerTerm` | internal/cluster/gossip_election.go:55-137 | if the outside announcements of a run name at most one node per term, at most one node leads in a term over the whole run |
| `GossipRuns.NobodyLeadsUnannounced` | internal/cluster/gossip_election.go:26-137 | without outside announcements no node ever leads |
| `GossipRuns.SafeExactly` | internal/cluster/gossip_election.go:55-137 | a collection of announcements is safe in every run of every system if and only if it names no two nodes for one term |
| `GossipRuns.TwoLeaders` | internal/cluster/gossip_election.go:55-87 | two announcements for one term suffice for two leaders in it |
| `GossipRuns.UpdateHasAuthority` | internal/cluster/gossip_handlers.go:92-168 | an applied update came from the believed leader, which had been announced from outside; a sender that is a node led when it began that broadcast |
| `GossipRuns.CallbackRunsExactly` | internal/cluster/gossip_handlers.go:127-168 | an accepted update of another sender reaches its callback if and only if the node follows a leader, the sender is that leader, the callback is registered and the payload decodes |
| `GossipRuns.BelievedWasAnnounced` | internal/cluster/gossip_election.go:55-137 | over any run the leader a node believes in was announced from outside |
| `Routing.HealthScore` | internal/cluster/node.go:71-117 | the score is 100 minus the four penalties, at least 0, and 50 without a report |
| `Routing.ScoreMonotone` | internal/cluster/node.go:71-117 | a report that is nowhere worse never scores less |
| `Routing.ScoreBySteps` | internal/cluster/node.go:71-117 | each of the eleven thresholds that is exceeded costs its own points; the score is what is left of 100 |
| `Routing.Select` | internal/cluster/node.go:431-443 | the loop finds the candidate whose stretch contains the point; it falls through if and only if the point is not below the total |
| `Routing.PointsOf` | internal/cluster/node.go:431-443 | exactly score(c) points select candidate c and no point selects two |
| `Routing.WordsPerPoint` | internal/cluster/node.go:424-429 | each point is hit by equally many random words, up to one |
| `Routing.ChanceIsScore` | internal/cluster/node.go:380-444 | whatever the iteration order, a member is chosen for exactly as many points as its score, and every point chooses somebody |
| `Routing.WordsChoose` | internal/cluster/node.go:403-443 | the exact number of the 2^32 random words that choose a given candidate, in the weighted and in the uniform case |
| `Routing.NodeList.Add` | internal/cluster/node.go:193-214 | a newer version replaces; a new member needs room under the cap |
| `Routing.NodeList.UpdateState` | internal/cluster/node.go:222-235 | every member but the local one changes, with a new version; nobody else is touched |
| `Routing.NodeList.UpdateHealth` | internal/cluster/node.go:363-374 | only the named member's health and last-seen time change |
| `Routing.NodeList.Candidates` | internal/cluster/node.go:389-401 | some enumeration, without repetition, of exactly the eligible members with their scores |
| `Routing.NodeList.GetBest` | internal/cluster/node.go:380-444 | an alive member, not the local one and not excluded; nothing if and only if there is none; a uniform choice if all scores are zero; otherwise a member of positive score by its stretch; the total fits 32 bits |
| `Sessions.Store.Oldest` | internal/auth/auth.go:353-360 | the token that some visiting order of the table selects, one of the user's, or none without any |
| `Sessions.EvictsOldestExactly` | internal/auth/auth.go:353-360 | in every visiting order the evicted token is an oldest one of the user, if and only if the least creation time among its tokens is not zero or all of them are |
| `Sessions.NewerEvicted` | internal/auth/auth.go:353-360 | two tokens and an order for which the newer one goes |
| `Sessions.Store.GenerateToken` | internal/auth/auth.go:334-394 | refused for an unknown user; otherwise stored and counted, with one eviction at the cap |
| `Sessions.Store.ValidateToken` | internal/auth/auth.go:414-466 | which of the five outcomes, exactly |
| `Sessions.Store.DropExpired` | internal/auth/auth.go:430-445 | an expired token that is still stored is removed and counted down |
| `Sessions.Store.RevokeToken` | internal/auth/auth.go:479-488 | the token is removed, and counted down when there is a cap |
| `Sessions.Store.RevokeAllTokens` | internal/auth/auth.go:491-501 | exactly the user's tokens and its counter go |
| `Sessions.Store.UpdateUser` | internal/auth/auth.go:598-633 | a password or role change revokes the user's tokens; the last administrator cannot lose the role |
| `Sessions.Store.DeleteUser` | internal/auth/auth.go:636-672 | the account, its tokens and its counter go |
| `Sessions.Store.DeleteUserPreservingLastAdmin` | internal/auth/auth.go:644-656 | the same, refused exactly for the only administrator |
| `Sessions.Store.AdminCount` | internal/auth/auth.go:674-682 | the number of administrators |
| `Sessions.Store.PrepareLoaded` | internal/auth/auth.go:1042-1084 | an error if and only if some record is unacceptable; otherwise exactly the tokens to keep, with exact counts |
| `SessionRuns.CountersExact` | internal/auth/auth.go:334-501 | with a positive cap every counter is the number of stored tokens in every state of every run |
| `SessionRuns.ExactOnlyWithCap` | internal/auth/auth.go:351-369 | that holds in every run if and only if there is a cap |
| `SessionRuns.UncountedLogin` | internal/auth/auth.go:351-369 | without a cap a single login is stored but not counted |
| `SessionRuns.LoginWithinCap` | internal/auth/auth.go:334-394 | a login evicts exactly when the cap is reached, exactly one token of that user, an oldest one if the least creation time among them is not zero or all are; it never ends above max(cap, previous count) and touches no other user |
| `SessionRuns.NewerEvictedInRun` | internal/auth/auth.go:334-394 | a run that loads a token with the zero creation time, in which a login evicts a newer one |
| `SessionRuns.DroppedTwice` | internal/auth/auth.go:428-447 | two validations of one expired token count it down once |
| `SessionRuns.AdminRemains` | internal/auth/auth.go:586-656 | through the guarded operations an administrator always remains |
| `SessionRuns.RemovesExactly` | internal/auth/auth.go:428-672 | revoking, revoking all, updating, deleting and dropping an expired token remove exactly the tokens they should and leave the others as they are |
| `SessionRuns.StoresExactly` | internal/auth/auth.go:334-394 | a login stores the returned token and takes at most its victim; a load stores exactly what it was given |
| `SessionRuns.StaysRemoved` | internal/auth/auth.go:428-672 | a token taken away is absent in every later state until it is issued or loaded again |
| `SessionRuns.CountsDown` | internal/auth/auth.go:479-488 | with a cap, revoking or dropping a stored token takes one from its user counter and nothing from the others |
| `SessionRuns.AccountsExactly` | internal/auth/auth.go:586-672 | creation, update and deletion change exactly the account they name |

## Left out

- The Raft package, the resolver, zone storage, RPZ and filters: separate subsystems.
- Sockets, HTTP handlers, TLS, signals, files, JSON, logging, metrics: plumbing. The clock, random words, random tokens and hashes are parameters.
- Encryption, signatures and password hashing: frames are unforgeable, tokens fresh, and the verdict of a check is a parameter. Random generation is taken to succeed.
- The division of the cache into sixteen shards: the model is one shard, and the operations that visit all shards do so one at a time under each shard's own lock.
- Cache statistics other than the hit counter, prefetching, saving and loading the cache. `UpdateConfig` is modelled for the capacity only; the serve-stale settings and TTL limits are fixed for a run.
- Cache names over 128 bytes are keyed by a per-process hash, so injectivity is claimed up to 128 bytes; names over 256 bytes are longer than the buffer of the source and outside `CacheKey.MakeKey`.
- Case folding and trimming outside ASCII.
- Block-style YAML, the tokenizer, line and column numbers: `FlowParser` starts from tokens, and a document without a flow mapping at its root is handed on unparsed.
- NSEC questions beyond one ring: other zones, delegations and wildcard proofs; the synthesised messages themselves.
- Wrap-around of 64-bit terms, versions and sequence numbers.
- Gossip: a sender's restart (its sequence numbers start again) and frames of protocol version 0 are outside the replay claims. Failure detection, membership gossip, draining and metrics messages leave the modelled fields alone and are one message kind. A received frame is decoded and handled in one step; the two halves touch different fields, and only one frame is handled at a time. Callbacks are registered before the node starts.
- GossipRuns.UpdateHasAuthority: a sender that is not a node of the system has no modelled state, so of it only the announcement is known, not that it led.
- Routing: floating point is modelled by real numbers, so not-a-number reports are not covered; removal, self-state changes and uniform random choice are easy members.
- The time until a rate limit resets.
- The checks of user names, roles and passwords, and reading one's own profile.
- IPv6 reverse names, and comparing and writing the PTR records of a bulk request.
- CnameChase.Chase: the lookup of a CNAME across zones is a fixed function of the name for the duration of one chase, whereas the source takes the lock anew for each step.
