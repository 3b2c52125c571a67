# Verified model of the DNS resolver and the relocator

This project models, in Dafny, the stateful cores of two services and proves what they promise over all
inputs, all histories and all interleavings.

**The DNS resolver** answers a query by matching its name against rule lists (block, fakeip, direct), then
from a fake address range, a response cache or a race of upstream servers.

- `Labels.dfy`, `Rules.dfy`, `Matcher.dfy`, `Lookups.dfy`: the matcher. `Rules` says what a rule set means: a flat scan over
  all added rules. `Matcher` is the heap structure (a trie of labels with mutable child maps, an exact-name
  map, keyword and regex lists) proved equal to that scan. `Lookups` tells it in terms of the names people write.
- `Ruleset.dfy`, `TagOrder.dfy`: turning decoded lists into a matcher, and which reorderings of the input matter.
- `Reload.dfy`: the manager loop: coalesced reload requests, parallel downloads through temporary files,
  publication. A run is any sequence of enabled steps.
- `Lru.dfy`, `Cache.dfy`: the TTL-aware LRU cache, as a most-recent-first sequence with whole-run results, and
  as a map plus a list of shared entries that refines it. `Residence.dfy`: how long an entry stays.
- `Durations.dfy`: a duration converted to whole seconds through double precision (IEEE 754-2008), exactly.
- `FakeIp.dfy`: CIDR arithmetic (section 3.1 of RFC 4632), byte encodings, the memo tables under concurrent calls.
- `Race.dfy`: the upstream race: workers, a buffered channel, a wait group, a closer and a draining receiver.
- `Freshness.dfy`: how long responses are kept, and TTL safety of what is served (section 3.2.1 of RFC 1035).
- `Resolver.dfy`, `Traffic.dfy`: the composition for one query, and queries in flight at the same time.

**The relocator** downloads archives from buckets, posts the JSON files inside, and marks or deletes the objects.

- `Poster.dfy`: the retry loop.
- `Pipeline.dfy`: the store and one pass over one object, with every failure an adversarial choice.
- `History.dfy`: whole histories of passes: deduplication, deletion, counters.
- `Overlap.dfy`: pollers of several buckets at once, transaction by transaction, and restarts: each bucket fares as
  if alone as far as the store goes.
- `WorkFiles.dfy`: the directory the pollers share for downloads, and exactly when they get in each other's way.
- `EventLog.dfy`: the capped event log over big-endian keys.

`Wrappers.dfy`, `Numbers.dfy` and `Messages.dfy` hold what several of these share.

Conventions. Lower-casing, trimming, regular expressions, hashes and the list decoder are arbitrary functions.
Sockets, files, S3 and clocks are outcomes chosen freely by the environment. Time is integer nanoseconds. A
message is a return code and three sections of records with a TTL. Concurrency is a run of atomic steps in an
arbitrary order: in `Race`, `FakeIps`, `Reloads`, `Traffic`, `Overlap` and `WorkFiles` a schedule is a sequence
of steps, and results hold for every sequence the protocol allows.

Where comments and code disagree, the code is modelled:

- `minAnswerTTL` also returns 0 when every TTL is the largest possible one, not only without records
  (cmd/dns/internal/dns/cache.go:158-160).
- The error for an IPv6 range that is not IPv6 cannot occur: every parsed range has a 16-byte form, so an IPv4
  range is accepted (cmd/dns/internal/dns/fakeip.go:155-158).
- `Get` reads the clock twice and converts the remaining time through a double. One lookup is safe exactly
  under the condition in `Freshness.SafeExactlyInTime`. The conversion can round up: a response kept longer
  than 2^24 seconds can be served with one second too much, up to 238 nanoseconds before that second
  (`Durations.WholeSeconds`, `Freshness.RoundingExample`).
- With `ttl_override` on, a response with a zero-TTL record is stored for 60 seconds.
  `Freshness.StoredIsSafeExactly` gives the exact condition under which everything served from a stored
  response is safe.
- Two mappings of one tag name are accepted, and their order then decides actions;
  `TagOrder.TagOrderMattersOnlyForConflicts` says exactly when.
- A failed update is to leave the old list in use (TASK_1.md:70). It does when the download fails
  (`Reloads.FailureKeepsContribution`), but a download that succeeds replaces the file before it is decoded:
  `Reloads.ListIsLostExactly` proves that a list is lost exactly then, if the body does not decode, and
  `Reloads.WrongDownloadLosesList` shows an input.
- Pollers put downloads into one directory under names made from bucket and key, so that object `b-c` of bucket
  `a` and object `c` of bucket `a-b` share a file and a pass can extract, mark and delete after posting the other's
  content. `WorkFiles.FilesStayApartExactly` gives the exact condition on the bucket names.

To verify: `dafny verify dfyconfig.toml`.

## Model

| member | source | states |
|---|---|---|
| Labels.SuffixIsLabelTail | cmd/dns/internal/dns/matcher.go:215-246 | A name equals a rule or ends with a dot and the rule exactly if the rule's labels are a tail of the name's labels, empty labels included. |
| Labels.JoinSplit | cmd/dns/internal/dns/matcher.go:240-246 | Joining the labels of a name gives the name back, so splitting loses nothing. |
| Labels.TrimDotIs | cmd/dns/internal/dns/matcher.go:88-88 | Exactly one dot at the end of a name is dropped, if there is one. |
| Rules.WalkIsSuffixScan | cmd/dns/internal/dns/matcher.go:215-238 | Descending the trie from the last label finds the same result as scanning the name's suffixes from short to long as strings. |
| Rules.FlatScanIsBest | cmd/dns/internal/dns/matcher.go:172-209 | The flat scan over the added rules yields the one rule that beats every other match: highest rank, then exact / suffix / keyword / regex, then the shorter suffix, then the one added first; no match exactly if nothing that matches has a rank above none. |
| Rules.SuffixScanBest | cmd/dns/internal/dns/matcher.go:215-238 | Among suffix rules alone, the winner has the highest rank, ties going to the shortest rule and then to the first added. |
| Rules.NothingOutranks | cmd/dns/internal/dns/matcher.go:172-209 | No matching rule has a higher rank than the winner, and the winner is a matching rule. |
| Rules.ActionIsOrderIndependent | cmd/dns/internal/dns/matcher.go:86-158 | The winning action of every name depends only on which rules were added, whatever the order and kinds of the Add calls. |
| Rules.RankNeverDrops | cmd/dns/internal/dns/matcher.go:172-209 | Adding rules never lowers the rank of the winner. |
| Matching.SuffixNode.Offer | cmd/dns/internal/dns/matcher.go:106-110 | Only a strictly higher rank replaces a node's rule. |
| Matching.Child | cmd/dns/internal/dns/matcher.go:97-103 | Finding or creating one child keeps the trie a tree, keeps every node's payload, and makes no other change than a new empty node. |
| Matching.Descend | cmd/dns/internal/dns/matcher.go:93-104 | Walking down a label path ends at the node of exactly that path, creating only missing nodes. |
| Matching.File | cmd/dns/internal/dns/matcher.go:106-110 | After a rule is filed, every node of the trie holds the first highest-ranked rule filed at its own path. |
| Matching.Matcher.AddSuffix | cmd/dns/internal/dns/matcher.go:87-113 | The log grows by the normalised rule (by nothing if it is empty), and trie, map, lists and counts all follow the log. |
| Matching.Matcher.AddFull | cmd/dns/internal/dns/matcher.go:116-128 | Likewise for an exact name: the map keeps, per name, the first rule of maximal rank. |
| Matching.Matcher.AddKeyword | cmd/dns/internal/dns/matcher.go:131-142 | Likewise for a keyword, appended in order. |
| Matching.Matcher.AddRegex | cmd/dns/internal/dns/matcher.go:145-158 | Likewise for a pattern that compiles; one that does not is reported and changes nothing. |
| Matching.Matcher.LookupSuffix | cmd/dns/internal/dns/matcher.go:215-238 | The heap-allocated trie answers as the string scan over all suffix rules ever added. |
| Matching.Matcher.Lookup | cmd/dns/internal/dns/matcher.go:172-209 | The complete result (action, tag, source, matched) equals that of the flat scan over every rule ever added, is the best matching rule, and carries the action, tag and source of one rule that matches the lower-cased name without its final dot. |
| Matching.Matcher.Stats | cmd/dns/internal/dns/matcher.go:161-169 | Each tag is reported with the number of rules accepted under it. |
| Lookups.DotMakesNoDifference | cmd/dns/internal/dns/matcher.go:176-176 | A name and the name with a dot at the end get the same result. |
| Lookups.CaseMakesNoDifference | cmd/dns/internal/dns/matcher.go:176-176 | Names with equal lower-casing get the same result. |
| Lookups.FullIsFound | cmd/dns/internal/dns/matcher.go:116-128 | An exact rule with a known action is found for its name, with and without a dot at the end, with at least its rank, whatever else was added. |
| Lookups.SuffixIsFound | cmd/dns/internal/dns/matcher.go:87-113 | So is a suffix rule, for its name and for every name below it. |
| Lookups.KeywordIsFound | cmd/dns/internal/dns/matcher.go:131-142 | So is a keyword rule, for every name in which the keyword occurs, whatever its case. |
| Lookups.RegexIsFound | cmd/dns/internal/dns/matcher.go:145-158 | So is a pattern, for every name that it matches lower-cased. |
| Lookups.FitsIsMatches | cmd/dns/internal/dns/matcher.go:172-209 | A rule applies to exactly the names that are its value, lie below it, contain it, or that its pattern matches. |
| Lookups.FoundIsJustified | cmd/dns/internal/dns/matcher.go:172-209 | A match carries the action, tag and source of a rule that fits the name in this sense. |
| Lookups.TiesAreBroken | cmd/dns/internal/dns/matcher.go:172-209 | Of two fitting rules of equal rank the one added first wins, unless the other is of an earlier kind (exact, suffix, keyword, pattern) or a shorter suffix. |
| Lookups.RanksAre | cmd/dns/internal/dns/matcher.go:20-31 | Block outranks fakeip, fakeip outranks direct, direct outranks every unknown action. |
| Rulesets.ApplyRuleset | cmd/dns/internal/dns/ruleset.go:244-267 | Feeding a decoded list into a matcher adds, in order, exactly the rules it lists: for each entry of a mapped site a suffix, exact, keyword or pattern rule with the trimmed, normalised, nonempty value, the action of the last mapping of its lower-cased code, that code as tag and the URL as source. |
| Rulesets.AddRule | cmd/dns/internal/dns/ruleset.go:269-283 | Each domain type goes to its own kind of rule; other types and uncompilable patterns add nothing. |
| Rulesets.RebuildMatcher | cmd/dns/internal/dns/ruleset.go:199-221 | The rebuilt matcher holds exactly the rules listed in the files that are readable and decode, in configuration order. |
| Rulesets.AllRules | cmd/dns/internal/dns/ruleset.go:244-267 | A rule is in the rebuilt matcher exactly if some ruleset, site and domain entry contribute it. |
| Rulesets.IndexMaps | cmd/dns/internal/dns/ruleset.go:245-248 | The tag index gives a lower-cased name the action of its last mapping. |
| Rulesets.RulesAreListed | cmd/dns/internal/dns/ruleset.go:244-283 | Membership written out: a rule is there exactly if some entry of some configured ruleset lists it. |
| Rulesets.FilesAreListed | cmd/dns/internal/dns/ruleset.go:199-221 | Every file that decodes contributes what it lists, and nothing else contributes. |
| Rulesets.ListedRootIsFound | cmd/dns/internal/dns/ruleset.go:258-272 | A name at or under a listed root domain gets at least the action of its tag. |
| Rulesets.ListedNameIsFound | cmd/dns/internal/dns/ruleset.go:273-274 | So does a listed full name. |
| Rulesets.ListedKeywordIsFound | cmd/dns/internal/dns/ruleset.go:275-276 | So does every name in which a listed keyword occurs. |
| Rulesets.ListedPatternIsFound | cmd/dns/internal/dns/ruleset.go:277-281 | So does every name a listed pattern matches. |
| Rulesets.SameFactsSameActions | cmd/dns/internal/dns/ruleset.go:199-267 | Configurations that state the same facts give every name the same action. |
| Rulesets.PermutedRulesets | cmd/dns/internal/dns/ruleset.go:199-221 | Reordering the rulesets keeps the facts. |
| Rulesets.PermutedSites | cmd/dns/internal/dns/ruleset.go:250-266 | Reordering the sites of a list keeps the facts. |
| Rulesets.PermutedDomains | cmd/dns/internal/dns/ruleset.go:258-265 | Reordering the domain entries of a site keeps the facts. |
| Rulesets.PermutedEntries | cmd/dns/internal/dns/ruleset.go:199-221 | Permuting the configured rulesets permutes the ones that contribute. |
| Rulesets.EntryOrderKeepsActions | cmd/dns/internal/dns/ruleset.go:199-221 | The order in which rulesets are configured decides no action. |
| TagOrder.TagOrderMattersOnlyForConflicts | cmd/dns/internal/dns/ruleset.go:244-267 | Reordering a ruleset's tag mappings leaves the action of every name as it is, in every configuration and for every list, if and only if no name, lower-cased, is mapped to two actions of different effect (different, and not both unknown). |
| TagOrder.ConflictingTags | cmd/dns/internal/dns/ruleset.go:245-248 | An input on which the order decides: one tag mapped to block and to direct. |
| TagOrder.IndexOrderExactly | cmd/dns/internal/dns/ruleset.go:245-248 | Reordering never changes the tag index itself if and only if no name is mapped to two different actions. |
| Reloads.PathsAreApart | cmd/dns/internal/dns/ruleset.go:421-426 | Without hash collisions no two downloads share a file, not even a final file with a temporary one. |
| Reloads.OldOrWhole | cmd/dns/internal/dns/ruleset.go:379-419 | At every step of a download the ruleset's file is the old one, or, from the rename on, the whole body after a successful copy and close; a failed download removes its temporary file if the removal works. |
| Reloads.ProjectsToAlone | cmd/dns/internal/dns/ruleset.go:150-165 | In any interleaving of the parallel downloads, each worker ends in the phase and with the files it would have had alone. |
| Reloads.SameFilesInEveryOrder | cmd/dns/internal/dns/ruleset.go:150-165 | Two interleavings of the same downloads leave the same disk. |
| Reloads.OrderIsImmaterialExactly | cmd/dns/internal/dns/ruleset.go:150-165 | The interleaving of parallel downloads never matters, for any start and any worker runs, if and only if no two rulesets have the same file, by the same URL or by colliding hashes. |
| Reloads.FailedDownloadKeepsFile | cmd/dns/internal/dns/ruleset.go:167-197 | Whatever runs beside it, a download that fails at any step leaves the ruleset's file as it was before the refresh. |
| Reloads.TriggersAreNotLost | cmd/dns/internal/dns/ruleset.go:90-95 | In every run a reload token is pending exactly if a trigger came after the last token was taken. |
| Reloads.TriggersAreCoalesced | cmd/dns/internal/dns/ruleset.go:90-148 | Full refreshes never exceed the number of triggers plus the initial one. |
| Reloads.TriggersAreServed | cmd/dns/internal/dns/ruleset.go:134-147 | Every trigger is still pending or was followed by a full refresh that started from scratch after it; once the loop is idle the result of a refresh after it has been published. |
| Reloads.EventsStartRefreshes | cmd/dns/internal/dns/ruleset.go:98-148 | The first event and a token fetch every ruleset, a tick exactly the one it names; token and tick are used up. |
| Reloads.ReadGives | cmd/dns/internal/dns/ruleset.go:202-217 | Reading a file gives its decoded list if it is there, can be read and decodes. |
| Reloads.StopsOnlyWhenCancelled | cmd/dns/internal/dns/ruleset.go:134-139 | The loop stops only when cancelled, and between refreshes. |
| Reloads.PublishedIsConsistent | cmd/dns/internal/dns/ruleset.go:150-231 | Whatever matcher is published was built from the files of one moment at which no download was running. |
| Reloads.ReadersSeeOneMoment | cmd/dns/internal/dns/ruleset.go:82-87 | A reader finds no rules before the first publication, and afterwards exactly the rules of the readable files of one moment at which no download was running. |
| Reloads.FailureKeepsContribution | cmd/dns/internal/dns/ruleset.go:167-231 | A ruleset whose download failed contributes to the next matcher what it contributed to the previous one, unless its file could not be read for one of them. |
| Reloads.ListIsLostExactly | cmd/dns/internal/dns/ruleset.go:199-219 | A ruleset that had a list keeps having one, if its file can be read, if and only if its refresh was not a download that succeeded with a body that does not decode; in that one case it then contributes nothing. |
| Reloads.WrongDownloadLosesList | cmd/dns/internal/dns/ruleset.go:357-419 | An input: a page downloaded in place of the list replaces it and does not decode. |
| Reloads.LoopMakesProgress | cmd/dns/internal/dns/ruleset.go:98-165 | The loop never gets stuck: unless it waits with no token, no tick and no cancellation to serve, a step of its own is always possible. |
| Reloads.Manager.Rebuild | cmd/dns/internal/dns/ruleset.go:199-225 | Publishing swaps in a new matcher over the files read and leaves the one readers still hold untouched. |
| Lru.RunKeepsBounds | cmd/dns/internal/dns/cache.go:47-136 | Over any run, keys are distinct and the size stays within the capacity. |
| Lru.Inclusion | cmd/dns/internal/dns/cache.go:47-136 | Driven by the same operations at the same times, a cache of size n holds a subsequence of what one of size m >= n holds, with equal messages and expiries. |
| Lru.HitsCarryOver | cmd/dns/internal/dns/cache.go:47-83 | Every hit in the smaller cache is the same hit in the larger. |
| Lru.OrderedByLastUse | cmd/dns/internal/dns/cache.go:47-136 | Entries are ordered by their last use in the whole history of operations, despite lazy expiry. |
| Lru.EvictsLeastRecentlyUsed | cmd/dns/internal/dns/cache.go:114-136 | Storing a new key in a full cache removes exactly the entry whose last use is the oldest, and nothing else. |
| Lru.SlotsAreLatestPuts | cmd/dns/internal/dns/cache.go:86-117 | Every entry carries the message and expiry of the latest Put on its key, whose TTL was positive. |
| Residence.StoredStays | cmd/dns/internal/dns/cache.go:86-117 | What was stored stays in the cache as long as fewer other keys than the capacity were used since. |
| Residence.ServedExactlyInTime | cmd/dns/internal/dns/cache.go:47-83 | If a Put was the last to store something for its key, fewer other keys than the capacity were used since and no lookup of it came too late, then a lookup finds its message if and only if it comes within the TTL. |
| Residence.SixtySeconds | cmd/dns/internal/dns/cache.go:59-64 | Stored with TTL 60 at time 0: found up to second 60, and not after. |
| Residence.LeavesExactly | cmd/dns/internal/dns/cache.go:47-136 | An entry leaves the cache by a lookup after its expiry, or when a new key is stored in a full cache and it is the least recently used; and in no other way. |
| Caching.DnsCache.constructor | cmd/dns/internal/dns/cache.go:32-43 | A new cache is empty, with a capacity of at least one. |
| Durations.WholeSeconds | cmd/dns/internal/dns/cache.go:67-67 | Through the double-precision rounding of the conversion, the whole seconds of a remaining time are exact, or one too many exactly when no more than a stated number of nanoseconds is missing to the next second (none below 2^24 seconds, at most 238). |
| Caching.DnsCache.Get | cmd/dns/internal/dns/cache.go:47-83 | List and map stay in bijection; the abstract sequence steps as specified, an expired entry is dropped, and the answer is the stored message with the remaining time, converted as the code does, in every record. |
| Caching.DnsCache.Put | cmd/dns/internal/dns/cache.go:86-117 | List and map stay in bijection; the abstract sequence steps as specified: overwrite or insert at the front, evict over capacity, nothing for a nil message or a zero TTL. |
| Caching.DnsCache.EvictOldest | cmd/dns/internal/dns/cache.go:127-136 | Exactly the last entry of the list goes, from both list and map. |
| Caching.DnsCache.FindsItem | cmd/dns/internal/dns/cache.go:53-58 | The map finds the entry that searching the list would find. |
| Caching.DnsCache.Len | cmd/dns/internal/dns/cache.go:120-125 | The number of resident entries, at most the capacity. |
| Caching.WithoutDrops | cmd/dns/internal/dns/cache.go:60-61 | Removing an element from the list is dropping its key from the sequence, and keeps all others. |
| Freshness.MinAnswerTtl | cmd/dns/internal/dns/cache.go:140-163 | The least TTL over all three sections, or 0 if there is none below the maximum. |
| Freshness.RecordsAre | cmd/dns/internal/dns/cache.go:154-156 | The records that count are those of all three sections. |
| Freshness.KeptFor | cmd/dns/internal/dns/resolver.go:170-175 | A response is kept for its smallest TTL, and for 60 seconds, with the override on, where it would not be kept. |
| Freshness.AnswerIs | cmd/dns/internal/dns/cache.go:66-82 | A cached answer has the stored code, sections and data, and every record carries exactly the whole seconds left, as the conversion gives them. |
| Freshness.TwentySecondsLeft | cmd/dns/internal/dns/cache.go:66-82 | One record of 60 seconds, read after 40, says 20. |
| Freshness.NotKeptExactly | cmd/dns/internal/dns/cache.go:158-160 | A response is not kept, with the override off, exactly if all its TTLs are the largest possible (in particular without records) or one is 0. |
| Freshness.ServedTtlIsSafe | cmd/dns/internal/dns/cache.go:59-80 | Over any run, with the override off, or on and no zero TTL in the response: a cached answer is the latest one stored, is not served after its smallest original TTL, and no record claims more than its original TTL minus its age, up to 238 nanoseconds of rounding if it is kept longer than 2^24 seconds. |
| Freshness.SafeExactlyInTime | cmd/dns/internal/dns/cache.go:59-67 | For one lookup with its two clock readings, what is served is safe if and only if the second is less than a second past the expiry and the rounding excess fits what the entry was stored short of its smallest TTL. |
| Freshness.LateReadingIsUnsafe | cmd/dns/internal/dns/cache.go:59-67 | An input at which a late second reading makes the answer unsafe. |
| Freshness.StoredIsSafeExactly | cmd/dns/internal/dns/resolver.go:166-175 | Every answer ever served from a stored response is safe if and only if no record had TTL 0 and it was kept for at most 2^24 seconds; safe up to 238 nanoseconds if and only if no record had TTL 0. |
| Freshness.OverrideIsSafeExactly | cmd/dns/internal/dns/resolver.go:170-175 | With the override on, every answer served from the response is safe, up to the rounding, if and only if no record had TTL 0. |
| Freshness.RoundingExample | cmd/dns/internal/dns/cache.go:67-67 | An input at which the conversion serves one second too much. |
| Resolving.Resolver.MaybeCache | cmd/dns/internal/dns/resolver.go:161-176 | Exactly successful responses are stored, under the TTL derived from them, when the cache is enabled. |
| Resolving.Resolver.HandleUpstream | cmd/dns/internal/dns/resolver.go:120-151 | A cached answer, else the upstreams' message, else a server failure; the cache changes by the lookup and at most one store. |
| Resolving.Resolver.FakeResponse | cmd/dns/internal/dns/resolver.go:73-118 | A fake address of the asked type if its range is configured, and an empty answer otherwise. |
| Resolving.Resolver.Handle | cmd/dns/internal/dns/resolver.go:39-71 | A name with a matching block rule is refused, one with a matching fakeip rule and no block rule gets the fake reply, and only the others touch cache or upstreams. |
| Resolving.WinnerTellsRules | cmd/dns/internal/dns/resolver.go:48-71 | The matcher's winner says which of block, fakeip and direct have a matching rule. |
| Resolving.MatchNameIs | cmd/dns/internal/dns/resolver.go:46-48 | Rules are matched against the name asked for, lower-cased, without a final dot. |
| Resolving.NameAsked | cmd/dns/internal/dns/resolver.go:46-48 | With and without the final dot, a question meets the rules under its lower-cased name. |
| Resolving.SuffixRuleMeetsQuestion | cmd/dns/internal/dns/resolver.go:46-51 | A suffix rule applies to questions for its domain and for any name below it. |
| Traffic.QueriesAreARun | cmd/dns/internal/dns/resolver.go:120-176 | However the lookups and stores of queries in flight interleave, the cache goes through a run to which the whole-run results apply. |
| Traffic.LatestPutIsLastStored | cmd/dns/internal/dns/resolver.go:161-176 | The latest Put of the run for a question is the last upstream answer stored for a query of this type and name. |
| Traffic.UndisturbedQuery | cmd/dns/internal/dns/resolver.go:120-151 | A query that meets no other does, step by step, what handling it in one piece does. |
| Traffic.CachedAnswersAreSafe | cmd/dns/internal/dns/resolver.go:120-176 | End to end, over every interleaving of queries: an answer taken from the cache is the last stored upstream answer to a query of the same type for the same lower-cased name, within its smallest TTL, with every record claiming at most its TTL minus its age, up to the rounding. |
| Traffic.KeyTellsQuestion | cmd/dns/internal/dns/resolver.go:153-176 | Questions share a cache entry if and only if type and lower-cased name agree. |
| Traffic.AnsweredFromCacheExactly | cmd/dns/internal/dns/resolver.go:120-159 | A query whose response is still resident is answered from the cache if and only if it comes within its TTL; otherwise the upstreams' message is forwarded, and their failure is a server failure. |
| Traffic.WithoutCache | cmd/dns/internal/dns/resolver.go:153-164 | With the cache off, the upstreams decide and nothing is stored. |
| Race.RunKeepsInv | cmd/dns/internal/dns/upstream.go:100-149 | The wait group counts the active workers, the channel holds one result per worker that sent, and the caller has seen what it says it has seen, in every reachable state of every interleaving. |
| Race.SendsNeverBlock | cmd/dns/internal/dns/upstream.go:111-122 | No send ever blocks, none hits a closed channel, and the channel is closed at most once. |
| Race.ReturnIsFirstGood | cmd/dns/internal/dns/upstream.go:126-148 | The call returns only after every worker finished and the channel was closed once; it returns the first good reply in arrival order, and an error, carrying the last one that arrived, iff no reply was good. |
| Race.FirstUsableWins | cmd/dns/internal/dns/upstream.go:126-143 | Written out: the first reply to arrive that is a message with any code but 2 is returned, and an error if and only if there is none. |
| Race.LastErrorIs | cmd/dns/internal/dns/upstream.go:134-143 | The error carried is that of the last delivery that failed. |
| Race.EveryStepDecreases | cmd/dns/internal/dns/upstream.go:100-149 | Every step lowers a non-negative measure. |
| Race.RunsAreShort | cmd/dns/internal/dns/upstream.go:100-149 | No run with n upstreams takes more than 5n + 3 steps. |
| Race.NeverStuck | cmd/dns/internal/dns/upstream.go:100-149 | Until the call returns a step is always possible, provided each upstream call returns. |
| FakeIps.FixedDecodes | cmd/dns/internal/dns/fakeip.go:214-224 | The fixed-width encoding decodes to the value modulo 256^width. |
| FakeIps.NetworkIsAligned | cmd/dns/internal/dns/fakeip.go:136-139 | The network address of every prefix is a multiple of the range size, and the range fits the address width. |
| FakeIps.MappedNetwork | cmd/dns/internal/dns/fakeip.go:131-139 | An IPv6 network that maps an IPv4 address has a prefix of at least 96, so its IPv4 part is an aligned range too. |
| FakeIps.NetworkHoldsAddress | cmd/dns/internal/dns/fakeip.go:126-139 | The range is the block of 2^(bits - prefix) addresses that holds the configured address. |
| FakeIps.FormsAre | cmd/dns/internal/dns/fakeip.go:131-155 | The IPv4 form exists for IPv4 networks and exactly the IPv6 ones that map one. |
| FakeIps.MappedIsPrefix | cmd/dns/internal/dns/fakeip.go:113-116 | Mapped addresses have the prefix of ten zero bytes and two of 255. |
| FakeIps.FakeV4InRange | cmd/dns/internal/dns/fakeip.go:177-193 | For every hash the IPv4 address lies in the range, off both ends when it has at least four addresses, and keeps the network prefix. |
| FakeIps.FakeV6InRange | cmd/dns/internal/dns/fakeip.go:195-201 | For every hash the IPv6 address lies in the range and keeps the network prefix. |
| FakeIps.FakeV4Is | cmd/dns/internal/dns/fakeip.go:177-212 | The IPv4 address is the one the hash picks, modulo the number of usable addresses. |
| FakeIps.FakeV6Is | cmd/dns/internal/dns/fakeip.go:195-212 | The IPv6 address is the base plus the hash modulo the range. |
| FakeIps.FakeIpPool.InitV4 | cmd/dns/internal/dns/fakeip.go:121-143 | Exactly the ranges that are, or map, IPv4 are accepted, and what is accepted is an aligned range. |
| FakeIps.FakeIpPool.InitV6 | cmd/dns/internal/dns/fakeip.go:145-167 | Every parsed range is accepted, an IPv4 one in its mapped form, and is aligned. |
| FakeIps.FakeIpPool.ForA | cmd/dns/internal/dns/fakeip.go:66-85 | The address computed from the normalised name, memoised or not; in range and recognised as fake. |
| FakeIps.FakeIpPool.ForAAAA | cmd/dns/internal/dns/fakeip.go:87-105 | Likewise for IPv6. |
| FakeIps.FakeIpPool.FakeIffInRange | cmd/dns/internal/dns/fakeip.go:108-119 | The membership test accepts exactly the addresses of the range, as four bytes or in mapped form. |
| FakeIps.NormalisingTwice | cmd/dns/internal/dns/fakeip.go:226-230 | Normalising a name a second time changes nothing if and only if the name does not end in two dots. |
| FakeIps.FixedIsBigEndian | cmd/dns/internal/dns/fakeip.go:214-224 | Padding or cutting the shortest encoding gives the fixed-width big-endian digits. |
| FakeIps.MemoIsPure | cmd/dns/internal/dns/fakeip.go:66-105 | In every interleaving of concurrent calls the memo table is a sub-map of the pure computation. |
| FakeIps.SameNameSameAddress | cmd/dns/internal/dns/fakeip.go:66-105 | Calls for names with the same normal form return the same address, whenever they finish. |
| FakeIps.ConcurrentForA | cmd/dns/internal/dns/fakeip.go:66-85 | Concurrent calls on a configured range all return the in-range address computed from the name. |
| FakeIps.CallFinishes | cmd/dns/internal/dns/fakeip.go:66-105 | A call that is let run is done after three steps, with the computed address. |
| Posting.Send | cmd/relocator/internal/relocator/poster.go:34-64 | The retry loop yields the result and the number of attempts of its specification. |
| Posting.SendIsExplained | cmd/relocator/internal/relocator/poster.go:34-107 | At most max(retries, 0) + 1 attempts; all but the last failed retryably; nil iff the last was answered 2xx; a non-retryable outcome is final; a cancellation shows only in a wait. |
| Posting.SendInStatusCodes | cmd/relocator/internal/relocator/poster.go:34-107 | Written out: delivered if and only if the last attempt was answered 200 to 299; all before it failed in transport or were answered 408, 429 or 500 and above; refused if the last was neither. |
| Posting.ExplanationIsUnique | cmd/relocator/internal/relocator/poster.go:34-107 | That description of the attempts determines the result and their number. |
| Pipeline.ProcessedKeyInjective | cmd/relocator/internal/relocator/store.go:99-101 | Keys of different objects differ if bucket names hold no NUL. |
| Pipeline.Store.IsProcessed | cmd/relocator/internal/relocator/store.go:104-136 | Found iff the entry has this ETag and status ok. |
| Pipeline.Store.MarkProcessed | cmd/relocator/internal/relocator/store.go:139-160 | Only this object's entry is replaced, and nothing on a failed transaction. |
| Pipeline.Store.UpdateStats | cmd/relocator/internal/relocator/store.go:163-202 | Only this bucket's entry changes: the asked counter modulo 2^64, the last error, the time of the update; and nothing on a failed transaction. |
| Pipeline.Service.SendFiles | cmd/relocator/internal/relocator/pipeline.go:167-187 | Every file is tried in order; posted counts the delivered ones and failed the rest. |
| Pipeline.Service.ProcessObject | cmd/relocator/internal/relocator/pipeline.go:59-137 | The final store and the ordered trace of attempts, marks, deletes and events are those of the outcome, on every path. |
| Pipeline.Service.HandleObject | cmd/relocator/internal/relocator/pipeline.go:26-57 | On every path: skipped if and only if a version with this ETag is marked ok or the size exceeds a positive limit; otherwise downloaded or the failure recorded; every extracted file attempted; marked ok or partial by whether the last attempt of every file was answered 2xx; deleted if and only if ok and configured; with exactly the counter updates of the path, and the busy count restored. |
| Pipeline.PassIsAsAsked | cmd/relocator/internal/relocator/pipeline.go:26-137 | The outcome, trace and store of a pass are what its inputs ask for, told without the outcome. |
| Pipeline.LastAttemptTells | cmd/relocator/internal/relocator/pipeline.go:167-187 | A file counts as posted exactly if its last attempt was answered 2xx. |
| History.PassesCommute | cmd/relocator/internal/relocator/pipeline.go:26-137 | Passes over different buckets do not affect each other's outcome, and their order does not affect the store. |
| History.NoVersionTwice | cmd/relocator/internal/relocator/pipeline.go:26-36 | Between any two fully successful passes over one bucket, key and ETag lies a pass over that key with another ETag. |
| History.DoneHasACause | cmd/relocator/internal/relocator/store.go:125-127 | An entry marked ok was left by a fully successful pass. |
| History.DuplicateWasPosted | cmd/relocator/internal/relocator/pipeline.go:27-36 | An object is skipped as a duplicate only if an earlier pass over the same version had every file answered 2xx. |
| History.DeleteIsSafe | cmd/relocator/internal/relocator/pipeline.go:97-134 | A remote delete is issued only if configured and after, in the same pass, every file extracted in the pass had an attempt answered 2xx and the mark was written or tried. |
| History.CountersBalance | cmd/relocator/internal/relocator/pipeline.go:26-187 | Over any history with a working store, per bucket, modulo 2^64, and exactly as long as fewer than 2^64 objects and files were seen: handled = skipped + download failures + downloads; downloads = extracted + extract failures + password failures; posted + failed posts = files extracted; deleted <= extracted. |
| History.CountersAreTotals | cmd/relocator/internal/relocator/store.go:163-202 | Over any history with a working store, the stored counters are the unbounded totals modulo 2^64, and the last error is the last one that occurred. |
| History.NetEffect | cmd/relocator/internal/relocator/pipeline.go:59-165 | What one pass adds to each counter, by outcome. |
| Overlap.PassIsItsTransactions | cmd/relocator/internal/relocator/pipeline.go:59-137 | The store transactions of a pass, one after the other, do what the pass does as a whole. |
| Overlap.EachBucketRunsAlone | cmd/relocator/internal/relocator/poller.go:45-106 | For every schedule of single store transactions of concurrent pollers and of restarts, every pass finds what it would find if its bucket's poller ran alone, and an idle bucket's entries and counters are those of its own history, a pass cut short counting as one whose remaining transactions failed. |
| Overlap.PollerFinishes | cmd/relocator/internal/relocator/pipeline.go:59-137 | A poller that is let run makes all transactions of its pass. |
| Overlap.CutKeepsMade | cmd/relocator/internal/relocator/pipeline.go:59-137 | A pass that stops between two transactions has done what a pass does whose remaining transactions fail. |
| Overlap.DeduplicationUnderOverlap | cmd/relocator/internal/relocator/pipeline.go:26-36 | The deduplication result holds in every such schedule. |
| Overlap.DuplicateUnderOverlap | cmd/relocator/internal/relocator/pipeline.go:27-36 | In every such schedule, a duplicate follows a pass over the same version with every file answered 2xx. |
| Overlap.CountersBalanceUnderOverlap | cmd/relocator/internal/relocator/pipeline.go:26-187 | The counters of an idle bucket balance in every such schedule. |
| WorkFiles.DashStays | cmd/relocator/internal/relocator/pipeline.go:244-248 | Sanitising bucket and key joined by a dash is sanitising each. |
| WorkFiles.SharedExactly | cmd/relocator/internal/relocator/pipeline.go:195-195 | Two buckets have objects that share a work file if and only if one sanitised name followed by a dash begins the other. |
| WorkFiles.SharedExample | cmd/relocator/internal/relocator/pipeline.go:195-195 | An input: object b-c of bucket a and object c of bucket a-b. |
| WorkFiles.FilesStayApartExactly | cmd/relocator/internal/relocator/pipeline.go:189-221 | In every schedule of the downloads of a set of buckets, every pass extracts the object it downloaded if and only if no two of the bucket names are so related. |
| EventLogs.OrderIsNumeric | cmd/relocator/internal/relocator/store.go:254-257 | Byte order of big-endian keys of equal width is numeric order, and keys are distinct. |
| EventLogs.EventLog.AppendEvent | cmd/relocator/internal/relocator/store.go:235-269 | After n appends the log holds exactly the newest events, contiguous, as many as the cap rule leaves; a failed transaction changes nothing. |
| EventLogs.KeptBounds | cmd/relocator/internal/relocator/store.go:308-329 | With a positive cap, at least min(n, cap) and at most cap + 1 events remain (cap, if the key count sees the pending put); without one, all. |
| EventLogs.EventLog.Trim | cmd/relocator/internal/relocator/store.go:308-329 | For any excess over the cap, at most so many events go, the oldest first of all, and the others stay unchanged; for an excess of one exactly the oldest goes. |
| EventLogs.EventLog.RecentEvents | cmd/relocator/internal/relocator/store.go:272-306 | The newest-first prefix of the log, of length min(limit, size), with 100 for a limit that is not positive. |

## Left out

- EventLogs.EventLog.AppendEvent: requires fewer than 2^64 events, because the library's sequence counter is not modelled beyond its width; event times are left out.
- EventLogs.EventLog.Trim: for an excess above one, which other events than the oldest go is left to the library's cursor, whose position after a delete is not relied on; from an empty log with a fixed cap the excess is at most one.
- Reloads.PublishedIsConsistent: assumes, like the other results about publication, that no two rulesets share a file.
- History.NoVersionTwice: assumes NUL-free bucket names and one sequential poller per bucket, as the code does.
- FakeIps.FakeIpPool.ForA: the class method runs alone; concurrent calls are modelled by the step sequences of `FakeIps.MemoIsPure`.
- The doubly linked list is a sequence of shared entry objects; the pointers inside the library's list are not modelled.
- The read/write lock of the matcher: rules are only added before a matcher is published, so lookups run on a finished one.
- Tickers are modelled by ticks arriving at any time in a bounded queue; that ticks keep arriving, and fairness of the scheduler, are not.
- Proxy choice and client construction of a refresh: one outcome, success or failure.
- DNS packing, `SetReply`, answer headers and per-record names and types; protobuf and JSON round trips; archive formats and passwords; HMAC and request headers.
- Archive extraction itself, the names of quarantined files, metrics and log messages.
- Listing of buckets and object patterns; the HTTP status page and `AllStats`.
- The list updater, the stup service, configuration, command line and process lifecycle.
