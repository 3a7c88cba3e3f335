# SnapURL: a Dafny model of its protocols and encoders

SnapURL is a URL shortener. A few small algorithms in it carry guarantees that no single
function body shows: two redirect paths that must build the same URL, a cache whose lazy
expiry must not be seen, counters and sketches shared by many processes, a queue that must
not lose a click, and batch scripts that must not overwrite a link. Each of them is a module
here. What the source does step by step on fields, maps and loops is a class or a method
proved against a specification function; what many processes do at once is a state machine
over every interleaving of their steps, with the inductive invariants that its theorems need.

Arithmetic, encodings and formats follow the standards the code relies on: the WHATWG URL
Standard (sections 5.1, 5.2, 6.2), the WHATWG Encoding Standard (UTF-8), ECMA-262, RFC 4648
(section 6), RFC 4226 (sections 5.2, 5.3) and RFC 6238.

## Modules

- `FormUrlencoded`, `EdgeRedirect`, `EdgeAgreement`: the CloudFront function's query rebuild
  against the redirect service's URL. JavaScript strings are sequences of UTF-16 code units (`Unicode`).
- `CachePort`, `MemoryCacheStore`: the cache port as a map that forgets a key the moment it
  expires, and the in-process adapter that evicts lazily. `FixedWindow`: what a limit on
  `incr` admits. `DynamoSketch`: the optimistic merge loop among any number of callers.
  `DynamoCounter`: that adapter's increment against the port.
- `CachingResolver`, `LinkCache`: cached link resolution, one call at a time over the in-process
  store, and in every interleaving of requests with edits, busts and evictions.
- `ClickReservation`, `RedirectGate`: the atomic click limit and the handler around it.
- `ClickQueue`: the click consumer and its queue.
- `DailySalt`, `SharedStoreSalt`: the day's salt over Postgres and over the cache store.
- `AuthPacing`, `Base32`, `Totp`: the journey helpers' sliding window and one-time codes.
- `Proration`, `CalendarDate`, `RefusalDedupe`, `IssueDedupe`: the contract package's cores.
- `V1Import`, `BioBackfill`: the two batch scripts, over `LinkTable`.
- `Bytes`, `Options`, `IntRange`, `Text`, `Decimal`, `Unicode`, `Words` (32-bit words): shared helpers.

## Where the code and its documentation part

The model follows the code. Each of these is proved, with a concrete input or with the exact
condition under which the documented behaviour holds.

- The edge claims to build the redirect service's URL (infra/functions/redirect-viewer-request.js:99-102),
  but the service reads a query only up to a second question mark (apps/redirect/src/main.ts:459):
  for ?a=1?b the edge sends a=`1?b` and the service a=`1`. They agree exactly when they merge
  nothing or the cut changes no name's effect: `EdgeAgreement.EdgeAgreesWithLambda`,
  `EdgeAgreement.SecondQuestionMarkIsCut`.
- The handler's comment says that `scheduled` comes before the click limit and spends no
  reservation (apps/redirect/src/main.ts:351-358). `lifecycleGate` puts the cached click limit
  first, so a link that is not live yet and whose cached count has reached its limit does spend
  one and, when it is granted, lets the visitor through early. That is the only case:
  `RedirectGate.PrecedenceHoldsUnlessScheduledAtLimit`.
- `today()` joins whatever load is in flight, also one begun for the day before
  (apps/redirect/src/salt.ts:39). A caller gets its own day's salt exactly when its instance is
  not still loading another day's: `DailySalt.OwnSaltUnlessLoadingAnother`.
- The re-read of `CacheStoreSaltCache.load` is described as making racers converge
  (apps/redirect/src/salt.ts:95-110). When every read sees the last set they agree exactly when
  no load answers after a set that came after the first answer; but the DynamoDB store asks for
  no consistent reads (packages/cache/src/dynamodb-cache-store.ts:80-83), and then agreement is sure when at
  most one load has set its salt, and, once all loads have answered, only then:
  `SharedStoreSalt.AgreementIffNoLateAnswer`, `SharedStoreSalt.AgreementIsSureIffOneSet`.
- The merge loop is said to fail under contention (packages/cache/src/dynamodb-cache-store.ts:222-225).
  With reads that may be old a single write, even one from before the call began, can defeat all
  five attempts: `DynamoSketch.OldReadsDefeatACall`.
- The cache key is said to name one link (packages/cache/src/cache-store.ts:130-135). Slugs that the
  v1 import stores may hold a bar, and then a request whose Host header holds one can be served
  another link's cached answer; no other request can: `LinkCache.AlwaysOwnIffNotAmbiguous`.
- A bust is undone by a request that read the old link before it and stores it afterwards; with
  no such request pending the old link never comes back: `LinkCache.BustRetiresOldLink`. On a
  store whose reads may be old it may also go unnoticed until the old entries have expired:
  `LinkCache.BustMayGoUnnoticed`.
- The port's window closes when it expires (packages/cache/src/cache-store.ts:57-64); the
  DynamoDB increment continues an expired item that the table has yet to delete:
  `DynamoCounter.RunMeetsPortIffOneWindow`.
- A root-level message is never to be merged away (packages/contract/src/friendly-errors.ts:236-237),
  but a field whose path is NUL followed by that message hides it:
  `IssueDedupe.NothingLostIffNoClash`. Fields are told apart by their joined paths, so a.b and
  the field b of a share one entry, as do a numeral name and the array index it spells. Every
  field keeps its own exactly when no two join alike: `IssueDedupe.EachKeepsItsOwnIffNoClash`.
- The v1 import stops half way on a slug wider than its column, a count beyond an integer column,
  a category too long for the tags index or text holding U+0000. Its dry run foresees only U+0000
  in a slug, on which it stops too: `V1Import.CompletesIffWinsFit`,
  `V1Import.DryRunCompletesIffReadable`. It also stops on a slug
  that the lookup's `toLowerCase` misses and the index's `lower` holds, which may be one that the
  import itself has stored, so that it cannot be run again: `V1Import.MissedSlugStops`,
  `V1Import.UnlikeSlugStopsSecondRun`, and exactly when: `V1Import.SecondRunImportsNothing`.
- A fixed window admits up to twice its limit, less one, within an interval shorter than the
  window, and that many for every limit: `FixedWindow.AdmissionBound`, `FixedWindow.BoundIsReached`.

## Model

| member | source | states |
|---|---|---|
| FormUrlencoded.FormEncodeIsStandard | infra/functions/redirect-viewer-request.js:32-40 | For every string of code units, `encodeURIComponent` and the six replacements give the URL Standard's form percent-encoding of its UTF-8 bytes, and throw exactly on a lone surrogate |
| FormUrlencoded.EachByteIsEncoded | infra/functions/redirect-viewer-request.js:32-40 | Spelled out per byte, that encoding turns a space into a plus, keeps ASCII letters, digits and * - . _, and writes every other byte as a percent sign and two upper-case hexadecimal digits |
| FormUrlencoded.SixReplacementsAreBytewise | infra/functions/redirect-viewer-request.js:33-39 | Six whole-string replacements in a row equal one independent choice per byte: no pattern matches across two escapes or inside an earlier substitution |
| FormUrlencoded.SerialiseParams | infra/functions/redirect-viewer-request.js:42-49 | The loop produces the Standard's serialization of every pair list, or the throw exactly when some name or value is not well formed |
| FormUrlencoded.ParseRecoversPairs | infra/functions/redirect-viewer-request.js:42-49 | The Standard's parser applied to the serialization gives back every pair list, with repeated and empty names and values, in order |
| FormUrlencoded.ParseIsWellFormed | packages/domain/src/destination.ts:47-49 | Whatever bytes arrive as a query, parsed names and values hold no lone surrogate, so the merged query can always be serialized |
| FormUrlencoded.ParseAppend | packages/domain/src/destination.ts:47-49 | A query is read as its parts between ampersands, one after the other |
| FormUrlencoded.SegmentIsCutAtEquals | packages/domain/src/destination.ts:47-49 | A part is cut at its first equals sign, later ones belong to the value, and a part without one is a name with an empty value |
| FormUrlencoded.EachByteIsDecoded | packages/domain/src/destination.ts:47-49 | In a name or value a plus is a space, and every other byte that starts no escape is itself, a percent sign without two hexadecimal digits included |
| FormUrlencoded.EscapeIsDecoded | packages/domain/src/destination.ts:47-49 | An escape with hexadecimal digits of either case is the byte it spells |
| Unicode.DecodeUtf8 | infra/functions/redirect-viewer-request.js:33 | UTF-8 decoding with replacement returns every scalar string that was encoded, including its boundary bytes |
| Unicode.AcceptsOnlyEncodings | packages/domain/src/destination.ts:47-49 | Bytes decoded without a replacement character are exactly the encoding of the result, so overlong forms, surrogates and stray or missing continuations are never accepted |
| Unicode.TruncatedIsReplacedOnce | packages/domain/src/destination.ts:47-49 | A character cut short leaves one replacement character and decoding resumes at the byte that did not continue it |
| EdgeRedirect.SetParam | infra/functions/redirect-viewer-request.js:54-73 | The two loops perform `URLSearchParams.set`: the first pair of that name takes the value in place, later ones go, and an absent name is appended |
| EdgeRedirect.SetAt | infra/functions/redirect-viewer-request.js:67-72 | Setting a name that is present keeps everything before its first pair, replaces that pair and only removes same-named pairs after it |
| EdgeRedirect.SetAbsent | infra/functions/redirect-viewer-request.js:62-65 | Setting a name that no pair has appends one pair and changes nothing else |
| EdgeRedirect.SetNames | infra/functions/redirect-viewer-request.js:54-73 | Setting a name loses no other name and adds only that one |
| EdgeRedirect.SetsCommute | infra/functions/redirect-viewer-request.js:114-119 | Setting two different names gives the same pair list in either order once the first of them is present |
| EdgeRedirect.IncomingPairs | infra/functions/redirect-viewer-request.js:83-97 | The property loop declines exactly when an own property is index-like, and otherwise yields one pair per own entry with its last value, in enumeration order |
| EdgeRedirect.EventPairs | infra/functions/redirect-viewer-request.js:75-97 | On the event object of a raw query the loop declines exactly when a raw name is index-like, and otherwise sees each raw name once, in arrival order, with its last value |
| EdgeRedirect.IndexLikeIffNumeral | infra/functions/redirect-viewer-request.js:75-80 | The names refused are exactly the decimal texts of the natural numbers, without leading zeros |
| EdgeRedirect.ArrayIndexIsIndexLike | infra/functions/redirect-viewer-request.js:75-80 | Every array index of ECMA-262, the decimal text of a number below 2^32 - 1, is refused, so no enumeration out of arrival order is ever used |
| EdgeRedirect.IndicesAscend | infra/functions/redirect-viewer-request.js:75-80 | The object enumerates array indices in ascending order |
| EdgeRedirect.MergingOnceIsMergingAll | infra/functions/redirect-viewer-request.js:110-119 | Folding `set` over the de-duplicated names with their last values gives the same pair list as folding it over every raw pair in arrival order, for any destination parameters |
| EdgeRedirect.IndexNamesLoseOrder | infra/functions/redirect-viewer-request.js:75-80 | For every array index that arrives after another name, as in ?a=1&7=2, the object enumerates the index first and merging in that order gives another query, so the refusal is needed |
| EdgeRedirect.EdgeLocation | infra/functions/redirect-viewer-request.js:103-123 | The function's loop and branches yield the stored destination, a refusal, a throw or the rebuilt URL exactly as specified |
| EdgeAgreement.EdgeAgreesWithLambda | infra/functions/redirect-viewer-request.js:99-123 | For every link and raw query the edge falls through exactly for an unlock token, no destination, or a non-empty forwarded query that has an index-like name or nothing to merge into; a URL it answers is the redirect service's own if and only if it merged nothing, or under every name but the unlock token the query and its part before the first question mark have one last value, or only one of them has the name and the destination has just that value already, and, where that part sets nothing, the destination's query is in canonical form |
| EdgeAgreement.CutMergesAlike | apps/redirect/src/main.ts:457-462 | For any destination parameters the query and its part before the first question mark merge to the same pair list if and only if they have the same effect under each name |
| EdgeAgreement.PlainQueriesAgree | apps/redirect/src/main.ts:457-462 | A query without a question mark of its own gets the same URL from both, for every link |
| EdgeAgreement.SecondQuestionMarkIsCut | apps/redirect/src/main.ts:459 | For ?a=1?b the two URLs differ on every forwarding link whose destination has no query |
| EdgeAgreement.SerializeInjective | infra/functions/redirect-viewer-request.js:42-49 | Different pair lists have different serializations |
| EdgeRedirect.ForwardAllNames | packages/domain/src/destination.ts:47-53 | After the merge the query has exactly the destination's names and the visitor's, the unlock token k of the visitor's excepted |
| CachePort.MergeIsASemilattice | packages/domain/src/hll.ts:215-244 | The merge is idempotent, commutative and associative |
| CachePort.SetThenRead | packages/cache/src/cache-store.ts:38-104 | What is set is read back until its time to live ends and never after, and the remaining time counts down from it, or is -1 without one |
| CachePort.ExpireThenRead | packages/cache/src/cache-store.ts:67-104 | An expiry counts from its own call, and an absent or expired key stays absent |
| CachePort.DelThenRead | packages/cache/src/cache-store.ts:52-104 | A deleted key reads as absent, has the remaining time -2 and counts from 1 again |
| CachePort.MergesAccumulate | packages/domain/src/hll.ts:215-244 | A first merge answers its own sketch of 16384 registers, a second within the time to live the union, the first one's expiry stays, and the key never reads as text |
| DynamoSketch.OrderAndRepetitionDoNotMatter | packages/domain/src/hll.ts:215-222 | What is stored after any merges depends only on which sketches were merged, not on their order or how often |
| MemoryCacheStore.Store.Live | packages/cache/src/memory-cache-store.ts:49-57 | The lookup returns an entry exactly when the eager map still has the key, with the same content and expiry, and evicts it otherwise |
| MemoryCacheStore.Store.Get | packages/cache/src/memory-cache-store.ts:63-67 | A read answers as the eager map does: nothing for an expired, absent or sketch key, a counter as its decimal text |
| MemoryCacheStore.Store.Set | packages/cache/src/memory-cache-store.ts:69-71 | A set replaces value and expiry and touches no other key |
| MemoryCacheStore.Store.Incr | packages/cache/src/memory-cache-store.ts:73-89 | An increment answers one more than the stored count and never moves the expiry; the count survives printing and parsing as decimal text |
| MemoryCacheStore.Store.Expire | packages/cache/src/memory-cache-store.ts:91-94 | Expiring a live key moves its deadline; an absent or expired key stays absent |
| MemoryCacheStore.Store.Del | packages/cache/src/memory-cache-store.ts:96-98 | A delete removes the key, live or expired, and nothing else |
| MemoryCacheStore.Store.Pttl | packages/cache/src/memory-cache-store.ts:100-108 | The remaining time is -2 for an absent or expired key, -1 without an expiry, and never negative otherwise |
| MemoryCacheStore.Store.MergeSketch | packages/cache/src/memory-cache-store.ts:110-132 | A merge stores and answers the register-wise maximum, stamps an expiry only on first write, and rejects a sketch of the wrong size with nothing written |
| MemoryCacheStore.Store.RunCalls | packages/cache/src/memory-cache-store.ts:41-133 | Any sequence of calls on a clock that never goes back gets exactly the answers of the map with eager expiry, so an entry kept past its time is never observed |
| Decimal.ParseIntOfInt | packages/cache/src/memory-cache-store.ts:85-87 | Parsing the decimal text of any integer, negative ones included, gives that integer |
| Decimal.ParseIntReadsNumber | packages/cache/src/memory-cache-store.ts:85-87 | A text of white space, a sign or none and digits is read as that number, whatever follows it |
| Decimal.ParseIntReadsOnlyNumbers | packages/cache/src/memory-cache-store.ts:85-87 | No other text is read as a number |
| FixedWindow.CountSinceOpener | packages/cache/src/cache-store.ts:52-65 | In any run of increments with one ttl each result is the number of increments since its window opened, and the deadline stays the one the opener stamped |
| FixedWindow.AdmissionBound | apps/api/src/common/cache-throttler-storage.ts:61-69 | Admitting counts up to the limit admits at most 2 * limit - 1 calls in any interval shorter than the ttl, in every run |
| FixedWindow.BoundIsReached | apps/api/src/common/cache-throttler-storage.ts:61-69 | For every limit and ttl some run admits that many within one millisecond, so the bound is sharp |
| DynamoSketch.NoMergeIsLost | packages/cache/src/dynamodb-cache-store.ts:166-226 | In every interleaving of any callers' reads, however old, and conditional writes, acknowledged or not, each stored register is the maximum of the starting item's and every landed sketch's, the version counts the writes, and the expiry is the first writer's or the one already there |
| DynamoSketch.CommitsAreTheCalls | packages/cache/src/dynamodb-cache-store.ts:166-212 | In every interleaving each write that lands is its own call's sketch with its own call's time to live |
| DynamoSketch.CallKeepsItsSketch | packages/cache/src/dynamodb-cache-store.ts:166-171 | In every interleaving a call keeps the sketch and time to live it was begun with, and the count of writes landed when it began |
| DynamoSketch.PutLandsIffReadIsLatest | packages/cache/src/dynamodb-cache-store.ts:199-212 | In every reachable state a conditional write lands exactly when its read saw every write that has landed |
| DynamoSketch.GuardDetectsWrites | packages/cache/src/dynamodb-cache-store.ts:200-212 | The write condition holds exactly when no write has landed since the read, whether or not the item had a version to begin with |
| DynamoSketch.RegistersAreMaxima | packages/cache/src/dynamodb-cache-store.ts:182-191 | After any sequence of writes a register is an upper bound of all merged ones and equal to one of them |
| DynamoSketch.ExpiryIsFirst | packages/cache/src/dynamodb-cache-store.ts:192-197 | However many merges follow, the expiry is the existing item's own, or the epoch second in which the first writer's time to live ends |
| DynamoSketch.GivingUpNeedsRivals | packages/cache/src/dynamodb-cache-store.ts:213-226 | After each read of a call that fails a write has landed, and at least as many landed while it ran as its reads were up to date, five when all were; all of them are other calls' unless one of its own landed unheard |
| DynamoSketch.OldReadsDefeatACall | packages/cache/src/dynamodb-cache-store.ts:172-226 | From any reachable state in which a write has landed, five reads that miss it make a call fail although nothing lands while it runs |
| DynamoSketch.FinishedIsStored | packages/cache/src/dynamodb-cache-store.ts:199-212 | A call that returns has landed its own sketch, answers what that write stored, and no register ever falls below it again, however old its reads were |
| DynamoSketch.ForeignBytesStay | packages/cache/src/dynamodb-cache-store.ts:182-185 | A stored blob of another size is never written over: every call fails at its read |
| DynamoSketch.Table.Attempt | packages/cache/src/dynamodb-cache-store.ts:172-221 | One attempt lands its write exactly when its read sees every write and nothing lands before its own, and leaves everything else as the others wrote it |
| DynamoSketch.Table.MergeSketch | packages/cache/src/dynamodb-cache-store.ts:166-226 | The retry loop lands its own write once, merged into all before it, at the first attempt that reads the latest version undisturbed, and fails without a trace exactly when there is none |
| DynamoSketch.FailingNeedsRivals | packages/cache/src/dynamodb-cache-store.ts:213-226 | A loop whose reads are all up to date fails only on as many rival writes as attempts |
| DynamoCounter.CountsEveryIncrement | packages/cache/src/dynamodb-cache-store.ts:102-130 | In a run of increments from any item the item counts every one of them, keeps its version and expiry, and where it has no expiry gets the epoch second in which the first increment's time to live ends; an item whose value is no number refuses them all and stays |
| DynamoCounter.RunMeetsPortIffOneWindow | packages/cache/src/dynamodb-cache-store.ts:102-130 | A run of increments on one item is answered as the port answers it if and only if the last comes before the first one's window ends |
| LinkCache.KeysNameLinks | packages/cache/src/cache-store.ts:137-139 | For slugs without a bar two requests share a key exactly when their hosts, less the white space at the ends, and their slugs differ in the case of A to Z alone, whatever the hosts contain |
| LinkCache.SpellingsShareKey | packages/cache/src/cache-store.ts:116-139 | For slugs of any shape, requests that differ only in the case of A to Z and in the white space at the ends of their hosts name one address and share one key, which holds no capital of A to Z |
| LinkCache.PrintedSpelling | apps/redirect/src/caching-resolver.ts:82-84 | A printed SNAP.TO/Foo and a header's snap.to/foo share one key, of prefix, host, bar and slug |
| Text.TrimIsTheRest | packages/cache/src/cache-store.ts:137-139 | Trimming leaves exactly the part of a text that neither begins nor ends with white space and has only white space around it |
| LinkCache.BarsCollide | packages/cache/src/cache-store.ts:130-139 | With a bar in a slug two different addresses share one key |
| LinkCache.KeySpellsAddress | packages/cache/src/cache-store.ts:130-139 | A link stored on a DNS name, under a slug of any shape, shares its key with exactly the requests whose key, split at its first bar, spells its address |
| LinkCache.StalenessIsBounded | apps/redirect/src/caching-resolver.ts:81-98 | In every interleaving of requests, edits, busts, evictions and old cache reads each answer is what the origin had for an address of the request's key, for the very one asked unless the host is ambiguous; a cached one is an entry really stored, served within the ttl of its storing, so it includes every write older than the ttl plus that entry's own read-to-store delay; and a miss never comes from the cache |
| LinkCache.UndisturbedIsServed | apps/redirect/src/caching-resolver.ts:81-98 | From any state a request that nothing comes between is answered: with the cached link while it is alive, otherwise with what the origin has now, link or none, and of that only a link is stored, under the request's key |
| LinkCache.NothingOutlivesItsEntry | apps/redirect/src/caching-resolver.ts:81-98 | In every reachable state, after the ttl, an eviction or a bust, an undisturbed request gets what the origin has for it now |
| LinkCache.AlwaysOwnIffNotAmbiguous | apps/redirect/src/caching-resolver.ts:81-98 | With links on DNS names and slugs of any shape, every run answers a request for its own address if and only if its host holds no bar or has white space right before the first one |
| LinkCache.AmbiguousIsMisled | packages/cache/src/cache-store.ts:130-139 | For every ambiguous host and slug some run serves another link's cached answer although the origin has none |
| LinkCache.BustRetiresOldLink | apps/redirect/src/cache-bust-listener.ts:48-61 | After a bust that follows a write, with cache reads that see the latest state, no continuation answers any request of the key, cached or not, with anything older if and only if no older read of that key is still to be stored |
| LinkCache.BustMayGoUnnoticed | apps/redirect/src/cache-bust-listener.ts:48-61 | With cache reads that may be old the same holds of all answers if and only if, besides, every older entry of the key has expired |
| LinkCache.StoredStaleIsServed | apps/redirect/src/caching-resolver.ts:92-97 | A pending older read, stored after the bust, is served from the cache to the next request |
| CachingResolver.Resolver.Resolve | apps/redirect/src/caching-resolver.ts:81-98 | One call answers what the origin has for the address named, or, for a host with a bar, for the address its key spells; it asks the origin exactly when nothing alive is cached under the key, and stores only a hit, for the ttl |
| CachingResolver.Resolver.Bust | apps/redirect/src/cache-bust-listener.ts:48-61 | After one link has changed, its bust leaves every cached link equal to the origin's again, and a notification without a host or slug evicts nothing |
| ClickReservation.GrantsStayWithinLimit | apps/redirect/src/click-reservation.ts:73-91 | In every interleaving of seeding, locking, testing, committing, aborting, lost answers and rollup writes the counter is the earlier reservations plus the grants and the lost ones, and calls with a limit of at most L use at most L less what was reserved before |
| ClickReservation.ExactlyTheLimitIsGranted | apps/redirect/src/click-reservation.ts:53-66 | When n calls with limit L have all ended, exactly the smaller of n and the room left were granted, counting those whose answer was lost |
| ClickReservation.ReservingLeavesClicks | apps/redirect/src/click-reservation.ts:73-91 | In every interleaving no statement changes the rolled-up clicks, and a rollup's write changes no reservation |
| ClickReservation.AbortLeavesNothing | apps/redirect/src/click-reservation.ts:73-91 | In every interleaving an aborted statement leaves the row as it was and gives up its lock |
| ClickReservation.CallKeepsItsLimit | apps/redirect/src/click-reservation.ts:73-79 | In every interleaving a call tests the limit it was begun with |
| RedirectGate.Counter.Reserve | apps/redirect/src/click-reservation.ts:73-92 | One statement grants exactly when the limit allows a click and the counter is below it, counts the grant, keeps the rollup's clicks and writes nothing when it refuses |
| RedirectGate.HandleGate | apps/redirect/src/main.ts:362-374 | A reservation is spent only on the limited path, the verdict then is the reservation's in both directions, and without a counter the cached verdict stands |
| RedirectGate.BlockedByTheFirstThatApplies | packages/domain/src/destination.ts:144-223 | A link is let through exactly when no verdict applies to it, expiry at the very instant included, and is otherwise given the first that applies of disabled, not active, archived, flagged, expired, click limit and scheduled |
| RedirectGate.LimitedPassesIffGranted | apps/redirect/src/main.ts:362-374 | A request for a limited link gets past the gate if and only if it asked for a reservation and was granted one |
| RedirectGate.AtMostLimitPass | apps/redirect/src/main.ts:362-374 | In every interleaving and from any counter, of the requests whose cached copies carry a click limit of at most L, at most L less what was reserved before get past the gate, whatever counts and other limits the copies carry |
| RedirectGate.PrecedenceHoldsUnlessScheduledAtLimit | apps/redirect/src/main.ts:351-374 | The documented precedence holds if and only if the link is not a scheduled one whose cached count has reached its limit; there a reservation is spent and decides |
| ClickQueue.ClickTable.InsertClickEvent | packages/database/src/click-events.ts:120-133 | An insert is retried once and only for a lost partition route, and leaves one row exactly when some attempt landed, acknowledged or not |
| ClickQueue.ClickTable.DrainClickBatch | apps/worker/src/lambda.ts:116-139 | The report is exactly the ids without an acknowledged insert, in order, and exactly the clicks that landed are appended, in order |
| ClickQueue.ReportPartitionsBatch | apps/worker/src/lambda.ts:116-139 | Reported and landed records add up to the batch and the doubtful ones, which are both; an id is reported exactly for a record without an acknowledged insert |
| ClickQueue.RowsAreParsedBodies | apps/worker/src/lambda.ts:116-139 | The new rows are the parsed bodies of exactly the records that landed, in order |
| ClickQueue.ReportIsUnacknowledged | apps/worker/src/lambda.ts:116-139 | The report is the ids of exactly the records without an acknowledged insert, in order |
| ClickQueue.UnreportedHasLanded | apps/worker/src/lambda.ts:131-138 | In a delivered batch a message is left out of the report if and only if its insert was acknowledged, and then its click has landed |
| ClickQueue.NoClickIsLost | infra/lib/snapurl-stack.ts:606-621 | In every run of sends, receives, drains, crashes, redeliveries and extra copies each sent click is queued, in flight, in the table, or dead-lettered after exactly five receives; it is in the table at most once per receive and extra copy and an unreadable body never is |
| ClickQueue.DrainSettlesBatch | infra/lib/snapurl-stack.ts:606-621 | In every reachable state a finished invocation deletes exactly the acknowledged messages of its batch and those another copy has deleted, gives the rest back to the queue, adds a row exactly for the records that landed, and touches no other message |
| ClickQueue.CrashReturnsBatch | infra/lib/snapurl-stack.ts:606-621 | In every reachable state an invocation that dies gives its batch back, and only the records it got to can have left a row |
| ClickQueue.CopySettles | infra/lib/snapurl-stack.ts:606-621 | In every reachable state an extra copy adds a row exactly if its insert lands and deletes a message in flight exactly if that is acknowledged |
| ClickQueue.SentStays | infra/lib/snapurl-stack.ts:606-621 | Every message sent is in every later state, with the body it was first sent with |
| ClickQueue.DeliveriesAreBounded | infra/lib/snapurl-stack.ts:613-620 | Extra copies aside, a run makes at most five deliveries per message sent, so redelivery ends |
| DailySalt.PostgresSaltSource.Load | apps/redirect/src/salt.ts:62-72 | A load answers the row that is in the table for the day, its own only when no rival's landed first, and changes no existing row |
| DailySalt.PostgresSaltSource.Today | apps/redirect/src/salt.ts:34-49 | A call with no load in flight answers and caches the day's shared salt, and a cached day costs no write |
| DailySalt.OneSaltPerDay | apps/redirect/src/salt.ts:62-72 | For any number of instances and callers, however their loads interleave, all answers for a load's day are the one shared salt, and a cached salt is the shared salt of its cached day |
| DailySalt.ResolvedDayIsCached | apps/redirect/src/salt.ts:34-49 | Once an instance's load has resolved to a non-empty salt, the next call for its day is answered with the shared salt and begins no load |
| DailySalt.OwnSaltUnlessLoadingAnother | apps/redirect/src/salt.ts:34-49 | In every run an answered call has the shared salt of its load's day, which is its own day if and only if its instance was not loading another day's salt when it was made; where days' salts differ that is exactly when it gets its own day's salt |
| DailySalt.YesterdaysLoadIsJoined | apps/redirect/src/salt.ts:38-48 | A concrete run in which a caller after midnight is given the day before's salt |
| SharedStoreSalt.AgreementIffNoLateAnswer | apps/redirect/src/salt.ts:123-139 | Wherever every read has seen the last set, at any moment of a run in which loads may die, the loads that have answered agree if and only if none answered after a set that came after the first answer |
| SharedStoreSalt.AgreementIffNoLateSet | apps/redirect/src/salt.ts:123-139 | When besides all loads of the cold day have answered, they agree if and only if none set its salt after the first answer |
| SharedStoreSalt.AgreementIsSureIffOneSet | apps/redirect/src/salt.ts:123-139 | On a store whose re-reads may miss sets, the answered loads agree whatever the re-reads see when at most one load has set its salt, and, where all loads have answered, only then |
| SharedStoreSalt.DeadStaySilent | apps/redirect/src/salt.ts:123-139 | A load that has died is never answered, whatever follows |
| SharedStoreSalt.StaleRereadSplits | apps/redirect/src/salt.ts:131-138 | A concrete run in which two loads disagree although no set came late, because one re-read missed the last set |
| SharedStoreSalt.ConvergenceCanFail | apps/redirect/src/salt.ts:95-110 | A concrete run in which every read sees the last set and two cold loads still end with different salts |
| AuthPacing.AnyWindowIsWithinLimit | e2e/journeys/helpers.ts:125-135 | Grants spaced a window from the fifth before them never exceed five in any sixty seconds |
| AuthPacing.GrantStaysSpaced | e2e/journeys/helpers.ts:131-134 | With room in the queue a new grant keeps that spacing, though the queue has forgotten the older grants |
| AuthPacing.GrantIsRecent | e2e/journeys/helpers.ts:129-133 | After dropping and claiming, the queue holds exactly the grants of the window that ends now |
| AuthPacing.Pacer.DropAged | e2e/journeys/helpers.ts:129-130 | Dropping keeps the grant history, leaves no aged call at the head, and leaves a full queue untouched |
| AuthPacing.Pacer.ReserveOne | e2e/journeys/helpers.ts:125-140 | One reservation adds one grant at the current time, leaves other routes alone, sleeps at most once and only when five grants were in the window, so the endless loop ends |
| AuthPacing.Pacer.ReserveAuthSlots | e2e/journeys/helpers.ts:154-161 | Chained reservations add exactly `count` grants, in order, to that route's history only |
| AuthPacing.Pacer.EveryWindowIsWithinLimit | e2e/journeys/helpers.ts:142-148 | After any calls no sixty-second window of a route holds more than five grants |
| Proration.PeriodLengthMs | packages/contract/src/proration.ts:80-83 | A period's length is at least one millisecond, so the fraction can be divided |
| Proration.FractionIsRemainder | packages/contract/src/proration.ts:93-100 | Within a proper period the unused fraction is the remaining time over the period; it is one before the period, and nothing after it or in a degenerate one |
| Proration.RecordHasItsLines | packages/contract/src/proration.ts:116-147 | Exactly the inputs without a negative price have a record; in it the credit and the charge are each within half a unit of the unused fraction of the old and of the new price and between 0 and that price, the amount is the charge less the credit, the direction is that of the price move, and the currency is the input's |
| Proration.FractionShrinks | packages/contract/src/proration.ts:93-100 | A later change never has a larger unused fraction |
| Proration.RoundsToNearest | packages/contract/src/proration.ts:102-107 | Rounding is within half a unit, ties away from zero, and the same on both sides of zero |
| Proration.LineIsMonotone | packages/contract/src/proration.ts:135-136 | A credit or charge line is non-negative, never above its price, shrinks with time and grows with price |
| Proration.AmountFollowsDirection | packages/contract/src/proration.ts:131-147 | The amount has the sign of the price move and is bounded by the price moved to or from; the opposite change at the same instant settles the opposite amount |
| Proration.PaymentsCoverLastCharge | packages/contract/src/proration.ts:116-147 | Over any sequence of changes in a prepaid period the total paid never falls below the charge in the last change's record, hence never below zero |
| Proration.SettledIsNearExact | packages/contract/src/proration.ts:120-137 | From any instant, what the remaining changes settle is less than one minor unit per change from the exact price of the remaining time |
| Proration.PaymentsAreNearExact | packages/contract/src/proration.ts:116-147 | The total paid for a prepaid period with n changes is less than n minor units from its exact time-weighted cost |
| Base32.EncodeDigitsSpell | e2e/journeys/helpers.ts:657-670 | The digits of RFC 4648's encoding spell the bytes' number followed by fewer than five zero bits |
| Words.PushDigitWord | e2e/journeys/helpers.ts:665 | On 32-bit words shifting left by five and or-ing a digit in, bit by bit, is appending the digit modulo the word |
| Words.OrDisjoint | e2e/journeys/helpers.ts:683-686 | The bitwise or of words whose bits do not overlap is their sum |
| Words.AndMask | e2e/journeys/helpers.ts:667 | The bitwise and with a mask of low bits is the remainder |
| Base32.PushDigit | e2e/journeys/helpers.ts:664-666 | The unmasked accumulator's wrap at 32 bits never reaches the bits still in hand |
| Base32.PopByte | e2e/journeys/helpers.ts:667 | The byte shifted out is the next byte of the whole number, and the rest stays in hand |
| Base32.Base32Decode | e2e/journeys/helpers.ts:657-670 | For every text, with characters such as U+0131 or U+00DF that upper-case into the alphabet, the output of the shifts, ors and masks is the number its alphabet characters spell, less its last bits; for a text carrying an encoding it is the encoded bytes |
| Base32.DigitsDetermineBytes | e2e/journeys/helpers.ts:657-670 | The decoder's result for the digits of an encoding is exactly the encoded bytes |
| Base32.EncodedTextCarries | e2e/journeys/helpers.ts:658-664 | The RFC's text of any bytes, padded or not and in any letter case, carries them through upper-casing, padding removal and the skipping of foreign characters |
| Base32.EncodedLength | e2e/journeys/helpers.ts:657-659 | The padded text has eight characters for every five bytes or part of five |
| Totp.WriteUInt32BE | e2e/journeys/helpers.ts:678-679 | The four bytes written spell the value and the others are untouched |
| Totp.CounterBytes | e2e/journeys/helpers.ts:676-679 | The two 32-bit writes spell the step as one eight-byte big-endian counter |
| Totp.TruncatedWord | e2e/journeys/helpers.ts:681-687 | The masked, shifted and or-ed bytes are the dynamic truncation of RFC 4226 |
| Totp.Truncated | e2e/journeys/helpers.ts:681-687 | The value taken from any digest is its dynamic truncation modulo a million |
| Totp.TotpCode | e2e/journeys/helpers.ts:674-689 | The code is six digits that spell the truncated value modulo a million, for the key the secret carries and the counter of the current thirty seconds |
| CalendarDate.DayOfCivil | packages/contract/src/link.ts:69-74 | Every day number reads back as a real day with that number, where February has 29 days in leap years and 28 otherwise, four months have 30 and the rest 31 |
| CalendarDate.MonthLength | packages/contract/src/link.ts:69-74 | The months that the day numbers are counted in have those lengths |
| CalendarDate.EpochIsDayZero | packages/contract/src/link.ts:69-74 | Day 0 is the first of January 1970 |
| CalendarDate.CivilOfDay | packages/contract/src/link.ts:69-74 | Every real proleptic Gregorian day is read back from its day number |
| CalendarDate.RollsOver | packages/contract/src/link.ts:48-53 | A day past the end of its month is read back as that many days into the next month |
| CalendarDate.ReadableIffRealDay | packages/contract/src/link.ts:61-75 | The bare date of any four-digit year, two-digit month and two-digit day is accepted if and only if the calendar has that day |
| CalendarDate.BareDatesAreTexts | packages/contract/src/link.ts:60-66 | The texts checked as bare dates are exactly those of a four-digit year, a two-digit month and a two-digit day |
| CalendarDate.OtherTextsAreParsed | packages/contract/src/link.ts:61-66 | Any other text is accepted if it is empty or `Date.parse` reads it |
| CalendarDate.ReadableDatesAreDistinctDays | packages/contract/src/link.ts:61-75 | No two accepted bare dates store the same day |
| LinkTable.Lookup | packages/database/scripts/import-v1.ts:97-98 | The lookup finds a link of that domain whose slug, folded by the database, is the given one folded by JavaScript, or there is none |
| LinkTable.FoundIsHeld | packages/database/src/schema/links.ts:151-154 | The lookup foresees the unique index's answer wherever the two foldings agree on the slug |
| V1Import.Database.Import | packages/database/scripts/import-v1.ts:75-144 | The document loop leaves the tables and counts of the specified run, to its end or to the statement that throws |
| V1Import.ImportOnlyAdds | packages/database/scripts/import-v1.ts:75-144 | In every run, finished or not, the unique index holds, no existing link, outbox row or counter is altered, a dry run writes nothing, and in a finished run imported, taken and invalid add up to the documents |
| V1Import.CompletesIffWinsFit | packages/database/scripts/import-v1.ts:94-136 | For any two foldings the import reaches its end if and only if no slug it looks up holds U+0000 and each document that the lookup lets through, being found neither in the table nor among the ones before it, fits the columns and the tags index and has a slug that the unique index holds neither from the table nor from an earlier one; it has then added exactly those documents' links in file order |
| V1Import.WinsAreFirstClaims | packages/database/scripts/import-v1.ts:97-103 | Where the two foldings agree on the slugs looked up, the documents that the lookup lets through are one per slug that was free, the earliest |
| V1Import.CompletesIffStorable | packages/database/scripts/import-v1.ts:97-136 | Where the two foldings agree on the slugs looked up, the import reaches its end if and only if no such slug holds U+0000 and the earliest document for each free slug fits the columns: slug width, count, no U+0000 in destination or category, and a category that the tags index takes; it has then imported one document per free slug |
| V1Import.SecondRunCompletes | packages/database/scripts/import-v1.ts:94-103 | Where the two foldings agree on the slugs looked up, a finished import can be run again to its end |
| V1Import.MissedSlugStops | packages/database/scripts/import-v1.ts:97-120 | Where they do not, a document whose slug the lookup misses and the index holds is reported as imported by the dry run and stops the import with nothing written |
| V1Import.UnlikeSlugStopsSecondRun | packages/database/scripts/import-v1.ts:97-120 | A storable document whose slug the two foldings read differently is imported into an empty table; a second run stops on it, and a dry run would report it as imported again |
| V1Import.DryRunCompletesIffReadable | packages/database/scripts/import-v1.ts:97-108 | A dry run reaches its end if and only if no slug it looks up holds U+0000 |
| V1Import.ImportWritesWins | packages/database/scripts/import-v1.ts:94-143 | For any two foldings a finished import has added exactly the documents that the lookup let through, in file order, each with its own slug and destination, its outbox row, and a counter exactly when it had visits |
| V1Import.DocumentFields | packages/database/scripts/import-v1.ts:80-92 | A document's slug is its custom back-half, or for want of one its short URL, and its destination its original URL, both less the white space at the ends; it is valid exactly when the slug is not empty and the destination begins with http:// or https:// in any letter case |
| V1Import.ImportedLinkHoldsFields | packages/database/scripts/import-v1.ts:80-119 | In a finished import the link of each imported document holds its own back-half or short URL and its own original URL, so trimmed, in the target's workspace and domain |
| V1Import.DryRunOverReports | packages/database/scripts/import-v1.ts:105-108 | For any two foldings, where the import finishes so does its dry run, which over-reports by exactly the valid documents whose slug the lookup would find only among earlier imports of the same file |
| V1Import.SecondRunImportsNothing | packages/database/scripts/import-v1.ts:94-103 | For any two foldings, after a finished import every valid document's slug is found by the lookup or held by the index, and a second run changes nothing and imports nothing; it reaches its end if and only if the lookup finds them all |
| BioBackfill.Database.InsertManaged | packages/database/scripts/backfill-bio-links.ts:97-110 | The transaction adds the link and its outbox row exactly when nobody holds the address, and otherwise nothing |
| BioBackfill.Database.Backfill | packages/database/scripts/backfill-bio-links.ts:71-120 | The page loop leaves the tables, count and two reports of the specified run, whatever other writers insert before a page's lookups, between them, and before its insert |
| BioBackfill.BackfillOnlyAdds | packages/database/scripts/backfill-bio-links.ts:71-120 | In every run, with other writers inserting at any point, the index holds, no row is altered, every page is created, a collision or already managed, each created link has its outbox row, and afterwards every page is owned or its address is taken |
| BioBackfill.AddedRowsAreAccountedFor | packages/database/scripts/backfill-bio-links.ts:92-110 | Every row a run leaves behind beyond those at its start is another writer's or some page's own managed link with that page's address and destination |
| BioBackfill.QuietRunCreatesMissing | packages/database/scripts/backfill-bio-links.ts:71-120 | With no other writer a run creates the links of exactly the pages that had neither a link nor an occupied address to begin with, and lists the others by what stood in their way, in order |
| BioBackfill.SecondRunCreatesNothing | packages/database/scripts/backfill-bio-links.ts:74-90 | A second run creates nothing whatever other writers insert meanwhile: every new row is theirs, the outbox is unchanged, and it finds managed at least what the first created or found managed |
| RefusalDedupe.PartsIdentify | packages/contract/src/kill-switches.ts:296-297 | Four parts joined by bars are told apart although the third may itself hold bars |
| RefusalDedupe.KeyIdentifiesRefusal | packages/contract/src/kill-switches.ts:283-298 | Two refusals share a key if and only if switch, reason, minute and the id they are attributed to all agree, whatever the id contains; that is the workspace's, else the actor's, else anon, so subjects of different kinds with one id share it |
| RefusalDedupe.ActorsShareTheirWorkspacesKey | packages/contract/src/kill-switches.ts:283-298 | Refusals of one workspace share a key whoever acted |
| RefusalDedupe.StoredKey | packages/contract/src/kill-switches.ts:290-298 | A concrete key: switch, reason, id and the start of the minute, joined by bars |
| RefusalDedupe.FloodIsBounded | packages/contract/src/kill-switches.ts:277-298 | Refusals of one subject, switch and reason spanning D ms have at most D / 60000 + 2 distinct keys |
| IssueDedupe.DedupeIssuesByField | packages/contract/src/friendly-errors.ts:239-263 | The nested loops with their shared set return the first issue of each id of the expanded list, in order |
| IssueDedupe.ExpandedIsEntries | packages/contract/src/friendly-errors.ts:249-261 | The expanded list holds exactly, for every rejected key, an entry at the object's path and the key with that key's wording and the code unrecognized_key, and for every other issue its own joined path and message |
| IssueDedupe.KeepsFirstOfEachId | packages/contract/src/friendly-errors.ts:242-247 | Each id keeps its first issue, no id is kept twice and nothing else is kept |
| IssueDedupe.NothingLostIffNoClash | packages/contract/src/friendly-errors.ts:227-247 | Every joined path and every root message keeps an entry if and only if no path is NUL followed by a root message |
| IssueDedupe.EachKeepsItsOwnIffNoClash | packages/contract/src/friendly-errors.ts:239-263 | For every issue list, with each expanded issue's field kept as segments: every field and every root message keeps an entry of its own if and only if no two different fields join to one path and no path is NUL followed by a root message |
| IssueDedupe.JoinedTexts | packages/contract/src/friendly-errors.ts:251-260 | Paths whose segments are non-empty and have no dot join alike only if their segments have the same texts |
| IssueDedupe.PlainFieldsKeepTheirOwn | packages/contract/src/friendly-errors.ts:239-263 | Fields whose segments are non-empty, have no dot and do not begin with NUL, and of which either all are names or no name is a numeral, each keep their own entry, whatever else is reported |
| IssueDedupe.NumeralsJoinAlike | packages/contract/src/friendly-errors.ts:251-260 | A numeral name and the array index it spells join to one path |
| IssueDedupe.JoinedPathsCanCoincide | packages/contract/src/friendly-errors.ts:251-260 | For the fields a.b and b of a one of the two has no entry of its own |
| IssueDedupe.RootMessageCanBeHidden | packages/contract/src/friendly-errors.ts:243-244 | A concrete pair of issues in which a rejected key hides a root message |
| IssueDedupe.SecondPassChangesNothing | packages/contract/src/friendly-errors.ts:239-263 | Deduplicating a result again changes nothing but the optional code |

## Left out

- Proration on IEEE doubles: the unused fraction is an exact real, so the rounding of the quotient and of the product is not modelled. The amount as a function of time is not claimed to be monotone; it is not.
- Numbers beyond 2^53 in counters and cache text: integers are unbounded, except where a 32-bit word or a column width matters.
- Unicode case mapping: in the cache keys lower-casing changes ASCII letters only; the batch scripts take both foldings as parameters. Texts outside the edge function are sequences of Unicode scalar values, so lone surrogates do not occur in them.
- URL parsing: a parsed destination is given as its serialization's part before the query, the query if there is one, and the fragment; UTM parameters are absent, as edge eligibility demands. Deep links, which are applied to the service's URL afterwards, are left out.
- EdgeRedirect.EventPairs: the event object is taken to hold the decoded raw pairs, each name once with its values in order, as the function assumes; how CloudFront fills it is not modelled. The method, path and host guards of `decide` and the redirect type are left out.
- JSON text: cache entries and stored edge values are records, so the revival of cached dates is not modelled; the resolver class takes a printed form and its revival as parameters that round-trip.
- Cardinality estimates, HMAC-SHA-1 and salt generation are uninterpreted; a merge answers the sketch whose estimate the source returns.
- MemoryCacheStore.Store: the entry object that `live` hands out and the callers mutate is a value written back under its key, so aliasing of entries and of a sketch's bytes is not modelled.
- DynamoCounter.RunMeetsPortIffOneWindow: covers a run before the table deletes the item; a deletion starts a new one. An increment whose answer is lost and is sent again counts twice, which the model does not show.
- DynamoSketch.NoMergeIsLost: covers merges only; a delete, an overwrite by `set` or the table's own ttl removal on the same key starts a new history. The Redis adapter has no version guard and is left out.
- DynamoSketch.Table.MergeSketch: what each attempt meets is given: the writes that land before and inside it, and which version it reads; the same loop under free interleaving, with lost answers, is the state machine of `NoMergeIsLost`. No read returns a state older than the history's first.
- LinkCache, ClickReservation, DailySalt and SharedStoreSalt model concurrent calls as steps of a value state machine; single calls on mutable state are the classes `CachingResolver.Resolver`, `RedirectGate.Counter` and `DailySalt.PostgresSaltSource`. In the salt class a call that finds a load in flight is left to the state machine.
- LinkCache.StalenessIsBounded: the inner resolver is taken to read the latest write; a projection that lags behind the database adds its lag.
- DailySalt.OneSaltPerDay: the rotation that deletes old rows is left out; the shared store's two-day expiry is too.
- RedirectGate.HandleGate: a reservation that throws ends the request and is not among its outcomes; the state machine has it.
- ClickReservation.GrantsStayWithinLimit: the lock is Postgres's row lock with a re-evaluated predicate; a deleted link row is left out.
- RedirectGate.AtMostLimitPass: an upper bound only, because the reservation is taken before the password check, which may then refuse. Recording, routing and fallback pages are left out.
- ClickQueue.NoClickIsLost: retention periods and visibility timeouts are not clocks here; a redelivery after a lost report or a lost acknowledgement may leave a second row, which the source accepts; an extra copy is drained in one step and does not count as a receive. The scheduled tasks and the dispatch on the event shape are left out.
- AuthPacing.Pacer.ReserveOne: timers are taken to fire no earlier than the 1.5 s margin before their time, and the clock never to go back.
- V1Import.CompletesIffWinsFit: which categories the tags index takes is a parameter, and creation dates are taken to fit their column.
- V1Import: the category only decides whether the row is accepted; the per-day click row and v1 fields of other types are left out, as are a lost connection and console output.
- BioBackfill.Database.Backfill: a database error other than the unique violation, which stops the script, is left out.
- BioBackfill.BackfillOnlyAdds: other writers insert links and nothing else; their updates, deletions and outbox rows are left out. It asks that page slugs fit the column, as the pages' own table guarantees; the destination text is a parameter, and the origin's validation is left out.
- Kill-switch folding and its fail-closed default, field labels and the wording of messages: single-step record updates and text; the wording is a parameter.
- IssueDedupe.DedupeIssuesByField: path segments are strings and array indices; symbols are left out. A field whose path joins to the empty text counts as the root.
- CalendarDate.ReadableIffRealDay: `Date.parse` on any other text is a parameter.
- Entitlements, coupons, page copy, schemas of the HTTP contract and all user interfaces: they would only add easy members.
