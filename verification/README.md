# A verified model of dnscrypt-proxy

dnscrypt-proxy is a DNS client proxy. It filters names, balances load between
encrypted resolvers, caches responses, races certificate queries, frames and pads
messages, and refreshes signed resolver lists. This project models those parts in
Dafny 4.11 and proves what they keep over all inputs, all runs and all interleavings.
`dafny verify dfyconfig.toml` checks everything.

| file | what it models |
|---|---|
| Names.dfy, Bytes.dfy | reversed names, label-aligned suffixes, query-name normal form, big-endian fields |
| PatternMatcher.dfy | rule shapes, the tries, and the staged lookup with its parent retry |
| BlocklistGenerator.dfy | pruning of block lists by the Python generator |
| NameFilter.dfy | generator and matcher together |
| LoadBalancer.dfy | strategies, the estimator's swap and bubble pass, inversion counts, servers shared with the queries in flight |
| RefreshProtocol.dfy | refreshes of the server table as interleaved steps |
| DnsCache.dfy | cache keys, lifetimes, expiry, the log of what was served, records shared with outgoing messages |
| Admission.dfy | the compare-and-swap client counter |
| CertExchange.dfy | the raced certificate query, its channel and its relay fallback |
| Certificates.dfy | TXT unescaping and certificate selection |
| TcpFraming.dfy, Framing.dfy | length framing over chunked reads, padding, size estimator, message sizes |
| Dns64.dfy | address embedding and prefix discovery |
| Plugins.dfy, FilterOrder.dfy | the query and response pipelines, the order of the filters, and lists, filters and upstream together |
| Sources.dfy, Registry.dfy | signed source refresh, and the registries fed from parsed sources |
| ColdStart.dfy | shutdown of the captive-portal listeners |

Protocols are state machines over their atomic steps (a load, a compare-and-swap, a
lock-protected block, a channel operation). Loops and in-place updates are methods and
classes proved against specification functions, and the lemmas are about those functions.

Assumptions on code outside the model:

- A critbit trie returns the longest stored key that is a prefix, and keeps the first value
  inserted under a key.
- The ARC cache returns the last value added under a key, or nothing.
- The cache-key hash is collision-free, so keys are modelled by the bytes that are hashed.
- Authenticated encryption adds a 16-byte tag, and opening undoes sealing.
- Two stamps are equal if their string forms are.
- A packed DNS message is not empty.
- Names and rules are ASCII. Moving averages are computed over reals, without rounding.

Results that differ from what one might expect of the code:

- The suffix stage means "some rule is a label-aligned suffix" on all names if and only if no
  rule is a subdomain of another (`SuffixStageExactIffUnnested`).
- The retry reports the rule it found with the value of the match it discarded. The value is always
  that of the reported rule if and only if the retry below every key that can be left unaligned
  finds a key of the same value (`OwnValueIff`); where every rule has its own value, if and only if
  no rule is a subdomain of another (`OwnValueIffUnnested`, `RetryReportsAnotherValue`).
- Server names stay unique if and only if at most one refresher runs (`UniqueIffOneRefresher`).
- A stale answer that is served goes through the response plugins and is stored again. If the clock
  hardly moves meanwhile, the client is sent its 30 seconds if and only if the configured limits let
  them through (`ServeStale`, `SentTtlIs`, `StaleTtlSentIff`); by default it is sent 60
  (`StaleTtlByDefault`).
- A query for a blocked name goes upstream if and only if its message does not have exactly one
  question, and nothing but the filters would hold it back (`BlockedNameUpstreamIff`,
  `SecondQuestionPasses`).
- Once a truncated response has raised the question size, it never returns to 512
  (`EstimateStaysLegal`).
- The forward-security flag is that of the last genuine certificate. It is that of the chosen
  certificate in every order of arrival if and only if the genuine certificates that cannot win lie
  on the same side of a week as those that can (`FlagIsOwnIff`, `ForwardSecurityOfAnother`).
- A download is compared with memory, not with the file, before it is written. Once it is in memory
  it is never written again, whatever happens to the writes, if and only if the disk does not hold
  another usable list (`NeverWrittenIff`); without a usable file the first write is final
  (`FirstWriteIsFinal`).
- The next prefetch round can come too late. No source is due before it if and only if the sources
  that were not fetched can wait that long, no fetch asks for less than ten minutes, and a round later
  than in ten minutes follows only on fetches none of which failed or asked for exactly ten minutes
  (`RoundInTimeIff`, `FailedSourceIsLate`, `WaitingSourceIsLate`, `MinimumDelayForgotten`).
- Discovery of a DNS64 prefix finds its length, masked or not, if and only if the bytes behind the
  prefix do not look like a longer one (`LengthDiscoveredIff`, `UnmaskedMisfires`); it returns the
  prefix itself if and only if that is masked (`DiscoveredIffMasked`).

## Model

| member | source | states |
|---|---|---|
| Names.StringReverse | dnscrypt-proxy/common.go:104-110 | the in-place swap loop computes the reversal of the string |
| Names.NormalizeQName | dnscrypt-proxy/dnsutils.go:108-135 | root for empty or ".", one trailing dot removed, ASCII lower-cased, error exactly for non-ASCII names |
| Names.NormalFormIdentifies | dnscrypt-proxy/dnsutils.go:108-135 | two names have the same normal form iff they differ in the case of ASCII letters and in one final dot only; the form is stable |
| Names.AlignedReversed | dnscrypt-proxy/pattern_matcher.go:127-130 | a rule is a label-aligned suffix of a name iff its reversal is a boundary-aligned prefix of the reversed name |
| PatternMatching.IsGlobCandidate | dnscrypt-proxy/pattern_matcher.go:43-52 | true iff a '?', a '[' or an inner '*' occurs |
| PatternMatching.RuleShapes | dnscrypt-proxy/pattern_matcher.go:54-94 | a bare, dotted or "*." domain is a suffix rule; trailing star, both stars and '=' give prefix, substring and exact rules |
| PatternMatching.GlobShapes | dnscrypt-proxy/pattern_matcher.go:43-63 | a '?' or '[' anywhere, or a star between two characters, makes a glob rule |
| PatternMatching.RefusedIff | dnscrypt-proxy/pattern_matcher.go:59-85 | a line is refused iff it is a lone star, two stars, a lone '=' or a glob that is too short or does not parse |
| PatternMatching.RuleListMeaning | dnscrypt-proxy/pattern_matcher.go:54-161 | for every rule list without nested suffix rules, a name is rejected iff some rule of the list describes it |
| PatternMatching.RejectionExplained | dnscrypt-proxy/pattern_matcher.go:118-161 | for every such list a rejection prints the rule that answers: exact before suffix, prefix (the longest), substring and glob (the first in the list); the value is that of the rule's first line for suffixes and prefixes, of its last line otherwise |
| PatternMatching.AnswerUnique | dnscrypt-proxy/pattern_matcher.go:118-161 | list and name determine the rule that answers and the line of its value |
| PatternMatching.LoadList | dnscrypt-proxy/plugin_block_name.go:95-122 | the loading loop leaves the rules of the accepted lines in the matcher, in order |
| PatternMatching.PatternMatcher.Add | dnscrypt-proxy/pattern_matcher.go:54-116 | an accepted rule changes exactly the collection its shape selects, a rejected one nothing |
| PatternMatching.PatternMatcher.Eval | dnscrypt-proxy/pattern_matcher.go:118-161 | the code computes the staged lookup, reason and value included |
| PatternMatching.LookupMeaning | dnscrypt-proxy/pattern_matcher.go:118-161 | a name is rejected iff it has two characters and an exact, suffix, prefix, substring or glob rule applies |
| PatternMatching.SuffixStageSound | dnscrypt-proxy/pattern_matcher.go:127-142 | for every rule set, a rejected name has the named rule as label-aligned suffix, and the value is that of the longest match |
| PatternMatching.SuffixStageNear | dnscrypt-proxy/pattern_matcher.go:127-142 | for every rule set, a rule and every name one label below it are rejected |
| PatternMatching.UnnestedDecidesFirst | dnscrypt-proxy/pattern_matcher.go:128-131 | without nested rules the first lookup decides exactly, and returns the value of the rule it names |
| PatternMatching.NestedHidesAName | dnscrypt-proxy/pattern_matcher.go:132-140 | every nested pair of rules hides some covered name from the stage |
| PatternMatching.SuffixStageExactIffUnnested | dnscrypt-proxy/pattern_matcher.go:127-142 | the stage agrees with "some rule is a label-aligned suffix" on all names iff no rule is nested in another |
| PatternMatching.OwnValueIff | dnscrypt-proxy/pattern_matcher.go:127-142 | for every rule set, all names report the value of the rule they name iff the retry below every possibly unaligned key finds a key of the same value |
| PatternMatching.OwnValueIffUnnested | dnscrypt-proxy/pattern_matcher.go:127-142 | with distinct values and no empty rule, reason and value agree on all names iff no rule is nested in another |
| PatternMatching.RetryReportsAnotherValue | dnscrypt-proxy/pattern_matcher.go:135-137 | two nested rules and a name where reason and value belong to different rules |
| BlocklistGenerator.HasSuffix | utils/generate-domains-blocklist/generate-domains-blocklist.py:170-177 | true iff some proper parent of the name, or the empty name, is listed |
| BlocklistGenerator.Prune | utils/generate-domains-blocklist/generate-domains-blocklist.py:247-264 | whatever the order, each surviving name is emitted once, and the counters account for every entry |
| BlocklistGenerator.PruneList | utils/generate-domains-blocklist/generate-domains-blocklist.py:253-264 | the loop over one list prints and counts as specified |
| BlocklistGenerator.PassPrints | utils/generate-domains-blocklist/generate-domains-blocklist.py:255-264 | a list prints exactly its surviving names, once, unless an earlier list did |
| BlocklistGenerator.PassCounts | utils/generate-domains-blocklist/generate-domains-blocklist.py:256-264 | exempted entries are counted as allowed, subsumed and repeated ones as ignored, each apart |
| BlocklistGenerator.AllowlistedIff | utils/generate-domains-blocklist/generate-domains-blocklist.py:260-261 | the allowlist exempts exactly the names at or below a name it lists |
| BlocklistGenerator.PruningPreservesMeaning | utils/generate-domains-blocklist/generate-domains-blocklist.py:255-264 | the emitted rules cover exactly the names at or below a listed name that the allowlist does not exempt |
| BlocklistGenerator.KeptIsUnnested | utils/generate-domains-blocklist/generate-domains-blocklist.py:258-264 | no emitted rule is a subdomain of another |
| NameFilter.PrunedFilterIsExact | dnscrypt-proxy/pattern_matcher.go:118-142 | pruned rules loaded into the matcher reject exactly the covered names, with the name and value of one covering rule |
| NameFilter.FilterFromLists | utils/generate-domains-blocklist/generate-domains-blocklist.py:247-264 | the same through the code of generator and matcher, for all plain source lists |
| LoadBalancer.IndicesInRange | dnscrypt-proxy/serversInfo.go:73-121 | for every strategy and table size the pick is active, and the challenger is not, and both are in range |
| LoadBalancer.ActiveCounts | dnscrypt-proxy/serversInfo.go:73-121 | the exact number of active servers of each strategy |
| LoadBalancer.AllActiveStays | dnscrypt-proxy/serversInfo.go:258-262 | with every server active an update changes nothing |
| LoadBalancer.MissingRttIsAdopted | dnscrypt-proxy/serversInfo.go:265-269 | a picked server without an average takes over that of the drawn one, and nothing else changes |
| LoadBalancer.FasterChallengerIsTaken | dnscrypt-proxy/serversInfo.go:271-299 | a drawn server that is faster always changes places with the picked one before the pass |
| LoadBalancer.NewChanceIff | dnscrypt-proxy/serversInfo.go:280-299 | a drawn server that is not faster gets ten elevenths of its average, and a pass, iff it is slow and idle; else nothing changes |
| LoadBalancer.NewChanceIsEarned | dnscrypt-proxy/serversInfo.go:280-282 | only an idle server four times slower than the active mean gets a lower RTT, above half of the old one |
| LoadBalancer.InversionsIsPairCount | dnscrypt-proxy/serversInfo.go:293-299 | the recursive inversion count is the number of out-of-order pairs |
| LoadBalancer.SwapDecreases | dnscrypt-proxy/serversInfo.go:271-272 | exchanging a slower server with a faster one behind it strictly decreases the inversions |
| LoadBalancer.BubblePassRemoves | dnscrypt-proxy/serversInfo.go:294-298 | the pass removes exactly one inversion per overtaken server |
| LoadBalancer.BubblePassProgress | dnscrypt-proxy/serversInfo.go:294-298 | the pass never adds an inversion and removes one iff the table is unsorted |
| LoadBalancer.BubblePassMaxLast | dnscrypt-proxy/serversInfo.go:294-298 | the pass leaves a slowest server last |
| LoadBalancer.ChallengeImproves | dnscrypt-proxy/serversInfo.go:271-299 | swap and pass permute the table, decrease its inversions and put the slowest last |
| LoadBalancer.ChallengesBounded | dnscrypt-proxy/serversInfo.go:271-299 | over every run with unchanged averages there are at most as many challenges as inversions at the start; none from a sorted table, and a run that uses them up ends sorted |
| LoadBalancer.UpdatedKeepsServers | dnscrypt-proxy/serversInfo.go:256-300 | for every strategy, draw and clock one update keeps the names of all servers |
| LoadBalancer.ServersInfo.EstimatorUpdate | dnscrypt-proxy/serversInfo.go:256-300 | the code computes the specified update with all indices in range, and the table holds the same server objects as before |
| LoadBalancer.ServersInfo.GetOne | dnscrypt-proxy/serversInfo.go:302-318 | no server iff the table is empty, else an active entry of the updated table |
| LoadBalancer.ServersInfo.ReportSuccess | dnscrypt-proxy/serversInfo.go:949-958 | a measured time within the timeout enters the average of that server, wherever it stands in the table by now, and no other entry changes |
| LoadBalancer.ServersInfo.ReportFailure | dnscrypt-proxy/serversInfo.go:937-941 | the timeout enters the average of that server and of no other |
| LoadBalancer.SuccessMovesAverage | dnscrypt-proxy/serversInfo.go:949-958 | an answer moves the average by two elevenths toward the measured milliseconds, unless they are below one or not below the timeout |
| LoadBalancer.FailureMovesAverage | dnscrypt-proxy/serversInfo.go:937-941 | a failure moves it likewise toward the timeout |
| RefreshProtocol.StepKeepsInv | dnscrypt-proxy/serversInfo.go:184-254 | with at most one refresher every step keeps names unique and every goroutine's knowledge valid |
| RefreshProtocol.RefreshInstallsFetched | dnscrypt-proxy/serversInfo.go:203-218 | after a refresh the entry of that name is the fetched one, replaced or appended, and no other entry changed |
| RefreshProtocol.RegistrationsGrow | dnscrypt-proxy/serversInfo.go:214-227 | registered names are never lost, appended and new names are added, and a round covers all of them |
| RefreshProtocol.TableStaysConsistent | dnscrypt-proxy/serversInfo.go:184-254 | in every interleaving server and registered names stay distinct and no name is lost |
| RefreshProtocol.TwoRefreshersDuplicate | dnscrypt-proxy/serversInfo.go:204-216 | two refreshers have a run that lists one server twice |
| RefreshProtocol.UniqueIffOneRefresher | dnscrypt-proxy/proxy.go:261-275 | names are unique in every run iff there is at most one refresher |
| DnsCache.NormalizeRawQName | dnscrypt-proxy/dnsutils.go:100-106 | the loop folds ASCII case in place and changes nothing else |
| DnsCache.FoldIdentifies | dnscrypt-proxy/dnsutils.go:100-106 | folding identifies exactly the names that differ in the case of ASCII letters |
| DnsCache.KeyIdentifiesQuestion | dnscrypt-proxy/plugin_cache.go:27-44 | two queries share a key iff type, class and DNSSEC flag agree, and the names up to the case of ASCII letters |
| DnsCache.GetMinTTL | dnscrypt-proxy/dnsutils.go:137-171 | the code computes the specified lifetime |
| DnsCache.LifetimeIs | dnscrypt-proxy/dnsutils.go:137-171 | a response lives for t seconds iff the lower limit allows it, or the upper limit and every record of the section that counts do |
| DnsCache.LifetimeIsClamped | dnscrypt-proxy/dnsutils.go:137-171 | the lifetime lies between its bounds, and above the lower one exceeds no record's TTL |
| DnsCache.CacheableIff | dnscrypt-proxy/plugin_cache.go:135-140 | responses of the codes 0, 3 and 9 that are not truncated are kept |
| DnsCache.SameContentIff | dnscrypt-proxy/plugin_cache.go:86 | the content that the cache hands out is the code, the flags and all the records of the three sections in their order |
| DnsCache.RoundedTtlIsNearest | dnscrypt-proxy/dnsutils.go:196-203 | the TTL written is the remaining life rounded to the nearest second, 0 once expired |
| DnsCache.UpdateTTL | dnscrypt-proxy/dnsutils.go:195-215 | all records but OPT get that TTL, and the OPT fields stay as they are |
| DnsCache.HitIsLastStore | dnscrypt-proxy/plugin_cache.go:79-86 | an entry is present iff it was stored and not evicted since, and it is the last one stored |
| DnsCache.OutcomeOfMiss | dnscrypt-proxy/plugin_cache.go:79-83 | over every run a lookup hands out nothing iff nothing was stored under its key, or it was evicted since |
| DnsCache.OutcomeOfHit | dnscrypt-proxy/plugin_cache.go:84-106 | over every run a lookup hands out the last store: stale iff the clock is past its expiration, else fresh with the remaining life |
| DnsCache.StaleTtlIsThirty | dnscrypt-proxy/plugin_cache.go:94-96 | a stale TTL is at most 30, and 30 iff the clock moves by at most half a second meanwhile |
| DnsCache.FreshTtlShrinks | dnscrypt-proxy/plugin_cache.go:101 | over every run a fresh TTL stays within the lifetime of its entry and does not grow until the next store |
| DnsCache.CachedResponses.Respond | dnscrypt-proxy/plugin_cache.go:134-167 | exactly cacheable responses are stored, with their lifetime, and the cache agrees with the plain map although the shared records are rewritten |
| DnsCache.CachedResponses.Query | dnscrypt-proxy/plugin_cache.go:71-107 | what is handed out is what the log of stores and lookups calls for, with that TTL on every record but OPT, whose field is the cached one, in new records |
| DnsCache.CachedResponses.ServeStale | dnscrypt-proxy/proxy.go:690-792 | a stale answer that is served, and that no earlier response plugin decides, is stored again: the same content is fresh once more, with the lifetime that the limits make of the stale TTL |
| DnsCache.SentTtlIs | dnscrypt-proxy/plugin_cache.go:149-164 | the TTL sent is the lifetime if the rewrite follows within half a second, and 30 iff lifetime and clock together round to it |
| DnsCache.StaleTtlSentIff | dnscrypt-proxy/plugin_cache.go:142-164 | with at most half a second between the clock readings, a client is sent 30 seconds iff the limits for the response code let 30 through |
| DnsCache.StaleTtlByDefault | dnscrypt-proxy/config.go:124-128 | with the default limits every stale answer is sent with 60 seconds |
| Admission.StepKeepsInv | dnscrypt-proxy/proxy.go:585-605 | every load or swap keeps the count equal to the slots held, and a decrement never sees zero |
| Admission.CounterIsExact | dnscrypt-proxy/proxy.go:585-605 | in every interleaving the count is the number of slots held, at most the limit, and a refusal means the limit is reached |
| Admission.FailedSwapHasAWinner | dnscrypt-proxy/proxy.go:586-595 | a swap fails only if another handler's swap succeeded since the load |
| CertExchange.Receive | dnscrypt-proxy/dnsutils.go:358-372 | the first large reply if any arrives, else the first least-RTT reply, else the last error |
| CertExchange.WinnerRttIsOrderFree | dnscrypt-proxy/dnsutils.go:359-368 | without a large reply the winner's RTT does not depend on the order of arrival |
| CertExchange.NobodyBlocks | dnscrypt-proxy/dnsutils.go:318-357 | in every interleaving no sender blocks, and a receiver that waits will be served |
| CertExchange.Exchange | dnscrypt-proxy/dnsutils.go:317-394 | two rounds iff a relay is set, all its attempts failed and the fallback is allowed, else one; the result is that of the last race |
| CertExchange.ConcludesUnique | dnscrypt-proxy/dnsutils.go:358-394 | the arrivals of the last race determine the result |
| Certificates.PackTXTRR | dnscrypt-proxy/dnsutils.go:271-298 | the loop computes the unescaped bytes |
| Certificates.BackslashMeans | dnscrypt-proxy/dnsutils.go:274-293 | what any backslash stands for: three digits modulo 256, tab, return, newline, the character itself, or nothing at the end |
| Certificates.UnescapeUndoesEscape | dnscrypt-proxy/dnsutils.go:265-298 | unescaping inverts presentation escaping on every byte string |
| Certificates.TxtRecordRecovered | dnscrypt-proxy/dnscrypt_certs.go:84-86 | a certificate cut into any character-strings is recovered whole |
| Certificates.ChooseCert | dnscrypt-proxy/dnscrypt_certs.go:75-188 | on the bytes: an error iff no certificate has length, magic, version, signature, period and date in order, else all key material from the last one with the greatest serial, then version |
| Certificates.FlagByBytes | dnscrypt-proxy/dnscrypt_certs.go:118-141 | the forward-security flag is set by the last certificate that passes all the tests but the date |
| Certificates.ChoiceUnique | dnscrypt-proxy/dnscrypt_certs.go:154-165 | there is only one such certificate |
| Bytes.BigEndian32Compares | dnscrypt-proxy/dnscrypt_certs.go:111-114 | serials and dates compare by the first byte in which they differ |
| Certificates.FlagIsOwnIff | dnscrypt-proxy/dnscrypt_certs.go:118-165 | the flag is that of the chosen certificate in every order of arrival iff the genuine certificates that cannot win lie on the same side of a week as those that can |
| Certificates.ForwardSecurityOfAnother | dnscrypt-proxy/dnscrypt_certs.go:118-141 | two certificates where the flag of the chosen one is overwritten by one that is not yet valid |
| TcpFraming.PrefixWithSize | dnscrypt-proxy/common.go:55-64 | the shift in place yields the frame, an error iff the packet exceeds 65535 bytes |
| TcpFraming.ReadPrefixed | dnscrypt-proxy/common.go:66-88 | however the stream is cut, the result is a function of its bytes; the buffer is never overrun |
| TcpFraming.ParseUndoesFrame | dnscrypt-proxy/common.go:55-88 | reading undoes framing, with any trailing bytes, iff the packet has 17 to 4095 bytes |
| TcpFraming.TruncatedFrameFails | dnscrypt-proxy/common.go:69-87 | no proper prefix of a frame is taken for a packet |
| TcpFraming.SendAndReceive | dnscrypt-proxy/common.go:55-88 | a packet of 17 to 4095 bytes is read back through the code of both ends, however the stream is cut |
| Framing.Pad | dnscrypt-proxy/crypto.go:26-32 | the packet, 0x80 and zeros up to the wanted size |
| Framing.Unpad | dnscrypt-proxy/crypto.go:34-46 | succeeds iff the last non-zero byte is 0x80, and returns what precedes it |
| Framing.PaddedIffMarker | dnscrypt-proxy/crypto.go:26-46 | removing padding inverts adding it, and accepts nothing else |
| Framing.PadThenUnpad | dnscrypt-proxy/crypto.go:26-46 | the code of both directions returns every packet |
| Framing.EstimateStaysLegal | dnscrypt-proxy/estimators.go:29-48 | over every run the size is 512, 1024, 2048 or 4096, and is 512 iff no response was truncated |
| Framing.AdjustedMeans | dnscrypt-proxy/estimators.go:29-48 | a truncated response doubles the size up to 4096; another moves the average by two thirty-firsts and halves the size iff the average lies between 512 and half of it |
| Framing.QuestionSizeEstimator.BlindAdjust | dnscrypt-proxy/estimators.go:29-38 | the code computes the specified adjustment after a truncated response |
| Framing.QuestionSizeEstimator.Adjust | dnscrypt-proxy/estimators.go:40-48 | the code computes the specified adjustment after a response of some size |
| Framing.Encrypt | dnscrypt-proxy/crypto.go:76-129 | fails iff the packet exceeds 4027 bytes (1183 for fragment-blocked UDP), else has exactly the padded length and opens to the packet |
| Framing.PaddedLengthIsLeast | dnscrypt-proxy/crypto.go:84-104 | 1252 for blocked fragments, 4096 for a relay over TCP, else the least multiple of 64 above the message or the estimate, at most 4096 |
| Framing.QueryLayout | dnscrypt-proxy/crypto.go:105-128 | magic, public key, half nonce and a box that opens to the packet and its marker, in this order |
| Framing.EncryptWithFallback | dnscrypt-proxy/proxy.go:656-666 | with the TCP retry every packet up to 4027 bytes is encrypted, over TCP exactly if UDP cannot carry it |
| Framing.PrepareForRelay | dnscrypt-proxy/proxy.go:490-498 | 28 bytes in front, from which a relay reads the destination and the query |
| Framing.RelayedLayout | dnscrypt-proxy/proxy.go:490-498 | ten fixed bytes, address, port and query, in this order |
| Framing.QueryOverTcp | dnscrypt-proxy/proxy.go:568-577 | every packet up to 4027 bytes can be framed, and length, relay header and message are read back one after the other |
| Framing.Decrypt | dnscrypt-proxy/crypto.go:131-169 | returns the packet carried by a response of this query, and fails iff there is none |
| Framing.ForeignResponseRefused | dnscrypt-proxy/crypto.go:137-150 | what is accepted starts with the magic and the nonce of this query |
| Framing.ResponseAccepted | dnscrypt-proxy/crypto.go:131-169 | a server's response is accepted iff its packet and padding are within the size limits |
| Dns64.TranslateToIPv6 | dnscrypt-proxy/plugin_dns64.go:174-186 | the address is embedded around byte 8 and the prefix kept elsewhere; an index error iff the prefix has 104 bits or more |
| Dns64.EmbeddedLayout | dnscrypt-proxy/plugin_dns64.go:174-186 | the sixteen bytes for each of the six prefix lengths |
| Dns64.EmbeddingInjective | dnscrypt-proxy/plugin_dns64.go:174-186 | distinct addresses stay distinct, and byte 8 is not written for prefixes below 72 bits |
| Dns64.DiscoveryUndoesEmbedding | dnscrypt-proxy/plugin_dns64.go:209-229 | for every legal masked prefix and both well-known addresses discovery returns that prefix |
| Dns64.DiscoverySound | dnscrypt-proxy/plugin_dns64.go:209-229 | a discovered prefix is legal, masked and carries a well-known address |
| Dns64.LengthDiscoveredIff | dnscrypt-proxy/plugin_dns64.go:209-229 | for every legal prefix, masked or not, the length found is that of the prefix iff the bytes behind it do not look like a longer prefix |
| Dns64.DiscoveredIffMasked | dnscrypt-proxy/plugin_dns64.go:209-229 | for every legal prefix, discovery returns it iff it is masked |
| Dns64.UnmaskedMisfires | dnscrypt-proxy/plugin_dns64.go:211-224 | a 32-bit prefix that is discovered with 96 bits |
| Dns64.FetchPref64 | dnscrypt-proxy/plugin_dns64.go:203-242 | the distinct prefixes revealed by the answers, an error iff there is none |
| Dns64.ResolverPrefixesLearned | dnscrypt-proxy/plugin_dns64.go:203-242 | a resolver's advertised prefixes are learned exactly, in any order and among other records |
| Plugins.ApplyPlugins | dnscrypt-proxy/plugins.go:297-315 | the loop computes the specified run of the plugin list |
| Plugins.NothingRunsAfterDecision | dnscrypt-proxy/plugins.go:297-315 | after the first decision the rest of the list makes no difference |
| Plugins.DecidedQueriesStayLocal | dnscrypt-proxy/proxy.go:628-652 | with disciplined plugins only undecided queries, and none marked onlyCached, go upstream |
| Plugins.UndisciplinedLeaks | dnscrypt-proxy/proxy.go:638-652 | a plugin that sets Synth without an answer lets the query out |
| Plugins.ProcessIncomingQuery | dnscrypt-proxy/proxy.go:607-867 | exactly when a query is sent upstream, and exactly what a UDP or TCP client is answered, with the TCP retry, stale answers and truncation |
| Plugins.RewrittenQueryIsSent | dnscrypt-proxy/plugins.go:273-328 | what the query plugins left, packed again and padded for DoH, is what is sent |
| Plugins.UnreadQueryIsSent | dnscrypt-proxy/plugins.go:278-288 | a query that is unreadable, has not one question or no ASCII name is sent as it is, if its size and the server allow |
| Plugins.TransportOfReply | dnscrypt-proxy/proxy.go:656-689 | a DNSCrypt query is answered over UDP, and over TCP if it is too large for UDP, or the UDP reply is truncated or late |
| Plugins.StaleWhenUnreachable | dnscrypt-proxy/proxy.go:690-723 | without a reply the stale answer is served, and nothing for ODoH or without one |
| Plugins.RewrittenResponseReachesClient | dnscrypt-proxy/proxy.go:792-862 | the client gets what the response plugins synthesised, or else the message they left, packed again; behind its length over TCP, truncated if too long for UDP |
| Plugins.UnreadableReply | dnscrypt-proxy/plugins.go:335-341 | a reply that cannot be unpacked is passed on iff it is truncated |
| Plugins.SynthesisedAnswerReachesClient | dnscrypt-proxy/proxy.go:638-651 | an answer of the query plugins is not sent upstream and reaches the client |
| Plugins.RejectedResponseIsReplaced | dnscrypt-proxy/proxy.go:792-812 | of a response that the response plugins reject the client gets the refusal |
| FilterOrder.CheckAliases | dnscrypt-proxy/plugin_block_name.go:174-209 | the loop computes the verdict on the first eight aliases |
| FilterOrder.JudgeAllMeaning | dnscrypt-proxy/plugin_block_name.go:179-207 | the verdict is that of the first alias within the limit that is not clean |
| FilterOrder.AliasBlockedIff | dnscrypt-proxy/plugin_block_name.go:174-209 | from the records: a response is blocked by alias iff the first of its first eight aliases that is not clean is on the block list |
| FilterOrder.QueryRejectedIff | dnscrypt-proxy/plugins.go:98-134 | a query is rejected iff undecided before the blocker, on the block list and not on the allow list |
| FilterOrder.ResponseRejectedIff | dnscrypt-proxy/plugins.go:136-154 | a response is rejected iff not whitelisted, no address allowed, and an alias or else an address is blocked |
| FilterOrder.AllowedNameNeverRejected | dnscrypt-proxy/plugin_block_name.go:141-147 | an allowed name is rejected in neither phase, whatever the answer |
| FilterOrder.BlockedNameUpstreamIff | dnscrypt-proxy/proxy.go:627-652 | a query for a name on the block list and not on the allow list goes upstream iff the message does not have exactly one question, has a legal size and is taken by the server |
| FilterOrder.SecondQuestionPasses | dnscrypt-proxy/plugins.go:282-284 | two questions for a blocked name are sent |
| FilterOrder.DescribedNameUpstreamIff | dnscrypt-proxy/plugin_block_name.go:26-41 | the same for every name that a rule of a loaded list describes, if no suffix rule is nested and the rule found is in force |
| FilterOrder.ListedNameUpstreamIff | utils/generate-domains-blocklist/generate-domains-blocklist.py:247-264 | the same from the source lists of the generator to the wire |
| Sources.Source.FetchWithCache | dnscrypt-proxy/sources.go:138-180 | the code computes the specified fetch, deferred refresh time included |
| Sources.FetchKeepsTrust | dnscrypt-proxy/sources.go:138-180 | memory stays empty or signed, a failed download replaces nothing, and the refresh time moves past now |
| Sources.FetchFailsIff | dnscrypt-proxy/sources.go:138-180 | a fetch fails iff neither a current cache file nor any download is usable |
| Sources.StoredListIsReadBack | dnscrypt-proxy/sources.go:55-121 | a stored list is read back from disk, without the network, until a prefetch delay after the time set on the file, or after its write if that failed |
| Sources.ConfirmedListIsReadBack | dnscrypt-proxy/sources.go:115-120 | a download that equals the list in memory dates the file anew, and the file is read back for another prefetch delay |
| Sources.FirstGood | dnscrypt-proxy/sources.go:156-173 | the first download with a valid signature, none iff there is none |
| Sources.DownloadStoredIff | dnscrypt-proxy/sources.go:102-121 | a download is on disk after the fetch iff it was there before, or memory differed and the write got far enough |
| Sources.NeverWrittenIff | dnscrypt-proxy/sources.go:115-119 | over all runs with unchanged downloads a list in memory is never written again iff the disk holds no other usable list |
| Sources.FirstWriteIsFinal | dnscrypt-proxy/sources.go:115-119 | started without a usable file, the disk stays as the first write left it over every such run, and holds the list iff that write got far enough |
| Sources.RunKeepsTrust | dnscrypt-proxy/sources.go:138-180 | over every run from a trusted state, with files changed by anyone, memory is empty or signed |
| Sources.IntervalIsLeastOfTail | dnscrypt-proxy/sources.go:224-239 | the interval is the least delay above the minimum behind the last delay equal to it, or the minimum if there is none |
| Sources.RoundInTimeIff | dnscrypt-proxy/sources.go:222-240 | over all sources, none is due before the next round iff those not fetched can wait for it, no success delay is below the minimum, and the interval is the minimum or no fetch failed and no delay equals the minimum |
| Sources.FailedSourceIsLate | dnscrypt-proxy/sources.go:230-231 | a source whose download failed is to be retried in ten minutes, and the next round comes a day later |
| Sources.WaitingSourceIsLate | dnscrypt-proxy/sources.go:226-228 | a source that is due in an hour, and a next round that comes a day later |
| Sources.MinimumDelayForgotten | dnscrypt-proxy/sources.go:222-240 | two due sources, one with ten minutes left and one downloaded, after which the next round comes a day later |
| Sources.PrefetchSources | dnscrypt-proxy/sources.go:222-240 | exactly the due sources are fetched, the others are untouched |
| Registry.UpsertAllIsLastWins | dnscrypt-proxy/proxy.go:348-362 | merging keeps names unique and gives each name its last stamp and its first description |
| Registry.UpsertAllIdempotent | dnscrypt-proxy/proxy.go:348-362 | merging the same entries again changes nothing, not even the order |
| Registry.RegisteredIffWanted | dnscrypt-proxy/proxy.go:294-346 | a new name is registered iff some entry of it is not disabled, of a wanted address family and, for a server, named or with the required properties and of a protocol that is on |
| Registry.EntryUsedIff | dnscrypt-proxy/proxy.go:280-293 | an update sees exactly the entries in front of the first source that failed without any, and fails iff there is one |
| Registry.ServersInfo.RegisterServer | dnscrypt-proxy/serversInfo.go:158-169 | replaces the entry of that name or appends it, without a description |
| Registry.Proxy.UpdateRegisteredServers | dnscrypt-proxy/proxy.go:279-373 | merges the accepted entries in front of an unusable source, and mirrors iff every source was usable |
| Registry.UpdateOutcome | dnscrypt-proxy/proxy.go:279-373 | unique names, last accepted stamps and first descriptions, a mirror that agrees on the stamps, and idempotence of both |
| ColdStart.StepKeepsInv | dnscrypt-proxy/coldstart.go:122-194 | every step keeps the accounts of the counting channel, also while a started listener is not counted yet, and no send is to a closed or full channel |
| ColdStart.ShutdownIsClean | dnscrypt-proxy/coldstart.go:23-29 | when Stop has returned every started listener has closed its socket and signalled exactly once |
| ColdStart.ListenersWindDown | dnscrypt-proxy/coldstart.go:83-121 | after cancellation every listener step reduces what is left to do |
| ColdStart.WindDownBounded | dnscrypt-proxy/coldstart.go:83-141 | in every interleaving the listeners take at most five steps each after the cancellation |
| ColdStart.OneAnswerAfterCancel | dnscrypt-proxy/coldstart.go:83-121 | in every interleaving a listener handles at most one query after the cancellation |
| ColdStart.PollingMakesProgress | dnscrypt-proxy/coldstart.go:25-28 | while Stop polls in vain a listener can move, and with none left it returns |

## Left out

- Glob rules: `filepath.Match` and `fnmatch` are parameters, and the generator is modelled without globs and time-restricted names.
- Regular expressions, headings, comments and the sorting of each printed list in the generator.
- The contents of critbit tries, radix trees, the ARC cache and DNS wire format: only their contracts are used.
- Matching of blocked and allowed IP prefixes: the IP filters take the match as a parameter.
- Cryptographic primitives and key agreement: they are parameters.
- ODoH, DoH and TLS transport: an abstract exchange stands for each.
- Plugins.ProcessIncomingQuery: models what UDP and TCP clients are sent; the bytes that local DoH and DNS64 callers get back on error paths are not modelled, and neither are the RTT notices, which the load balancer models on their own.
- DnsCache.CachedResponses.ServeStale: whether an earlier response plugin decides is a parameter, and a rewrite of the answer by one of them (DNS64) is not modelled.
- Route selection among relays, cloaking, forwarding, logging plugins, weekly time ranges, configuration loading and services: they would only add easy members.
