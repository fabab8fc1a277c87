# sasat: a verified model of its packet paths

sasat is a two-stage transparent load balancer. A front translator picks a backend for each
client by an ordered rule list and rewrites the packet's destination; a backend translator
rewrites it once more for the real server behind it. This project models the parts of it whose
correctness does not show from reading one function, and proves what they keep.

`dafny verify dfyconfig.toml` checks the whole project.

## How it is laid out

| file | part of sasat |
|---|---|
| `Reference.dfy` | the front as configured: an uncached first-match scan with an unreliable resolver |
| `PolicyCache.dfy`, `PolicyTable.dfy`, `PolicyRuns.dfy` | the cached front as a machine on values: packets, patrol sweep, loading, and whole runs |
| `Engine.dfy` | the same in the form it runs: a class whose lists, pool and buckets change in place, each method tied to the machine |
| `Checksum.dfy`, `TwoStage.dfy` | ones' complement arithmetic, and a packet through both translators |
| `Internet6.dfy`, `Neighbor.dfy` | the ICMPv6 sums, solicitation checks and advertisements |
| `Reload.dfy`, `Barrier.dfy` | the two thread protocols as transition systems under arbitrary interleaving |
| `Netlink.dfy`, `LogRing.dfy`, `LogFormat.dfy`, `PolicyLine.dfy`, `Prefix.dfy` | attribute append and parse, the log rings and what they print, the policy-line parser, the prefix compare |
| `Words.dfy`, `Bits.dfy`, `Addresses.dfy` | machine words, bits, and what the engine asks of an IPv4 or IPv6 address |

A pointer to a pool entry, a rule counter or a server counter is an index; the overflow entry
`fix4` is the cell behind the pool. Rule counters stand beside the rules, which never change
between loads. Servers stand in order of creation and are searched newest first. IPv4 and IPv6
share one engine over an address type. Each answer of `get_target_mac` is an arbitrary return
value and MAC, so results hold for every resolver. `Checksum`, `Engine` and `TwoStage` speak of
one virtual address; `Reload` shows that it changes only while no forwarding thread is alive.

## What turned out false, exactly

- Rewriting the destination does not keep every verifying header verifying. It does, except exactly
  when the new destination is 0.0.0.0 and the header holds nothing but a destination other than
  255.255.255.255 (`Checksum.RewriteKeepsVerifying`). The front never forwards to 0.0.0.0, since a
  rule for it drops its packets, so it keeps every verifying header (`TwoStage.ProcV4`). The backend
  can meet the case when its server is configured as 0.0.0.0 (`TwoStage.ZeroServerSpoils`).
- A backend with no IPv4 server configured still takes IPv4 packets once its server is resolved by
  IPv6, and sends them to 0.0.0.0 under the old sum. `Checksum.ClearedDestination` says exactly
  which headers survive that; an ordinary one does not (`TwoStage.NoServerSpoils`).
- The adjusted checksum field can be 0xffff where recomputing gives 0x0000; it is so exactly under
  the condition of `Checksum.IncrementalAgainstRecomputed`, and `Checksum.CornerReached` is a packet
  that meets it.
- A policy reload cannot always complete: it can if and only if the forwarding thread is alive when
  it is asked for (`Reload.ReloadCompletes`). A reload whose restart fails leaves none
  (`Reload.FailedRestartStrands`), and every later one waits for a confirmation nobody sends
  (`Reload.StrandedForever`).
- The form of a line kept in its rule does not always parse back. `PolicyLine.StoredParsesBack` says
  exactly when: three long IPv6 addresses are cut at 128 characters (`PolicyLine.LongLineIsCut`),
  and an IPv6 line with missing parts is kept with empty parts that count as IPv4
  (`PolicyLine.LoneAddressIsMixed`).

The code is followed where it surprises: `policy_lookup4` does not check again after its fourth
resolution, a failed resolution may overwrite the MAC of a server not yet up, a reload leaves the
sweep flag and pointer as they were, and a line with missing parts is accepted with empty ones.

## Model

| member | source | states |
|---|---|---|
| `Bits.MaskSelects` | front/pol_lookup.c:123 | comparing two words under a mask compares exactly the bits the mask selects, contiguous or not |
| `Bits.SwapBit` | common/checksum.h:124-125 | a byte swap puts bit 31-j of a word where a little-endian host keeps wire bit j |
| `Bits.SwapBytes` | common/checksum.h:124-125 | ntohl reverses the four bytes |
| `Bits.AgreeByBytes` | front/pol_lookup.c:123 | agreeing under a mask is agreeing in each of the four bytes |
| `Prefix.EqualMasked` | back/back_init.c:219-223 | two words agree under the shifted mask exactly when their first r bits in network order agree |
| `Prefix.SamePrefixIsEquivalence` | back/back_init.c:206-228 | agreement of the first m bits is reflexive, symmetric and transitive, and follows from agreement of more |
| `Prefix.IsSameNet` | back/back_init.c:206-228 | for any word count and any mask length from 1 to the address width, 1 exactly when the first mlen bits in network order agree |
| `Checksum.Add16IsEndAround` | common/checksum.h:22-28 | add16forCheckSum is ones' complement addition, and gives 0 only for two zeros |
| `Checksum.DeltaExact` | common/checksum.h:118-131 | the delta differs from old minus new by a multiple of 0xffff, for every address pair |
| `Checksum.RewriteDestination` | front/front.c:318-319 | in place, the header gets the new destination and the adjusted sum and changes nowhere else |
| `Checksum.RewrittenWords` | front/front.c:318-319 | words 8 and 9 hold the new destination, word 5 the adjusted sum, and no other word changes |
| `Checksum.RewriteKeepsVerifying` | front/front.c:318-319 | a header of any length that verifies still verifies after the rewrite, except if and only if the new destination is 0.0.0.0, the header holds nothing but a destination, and that is not 255.255.255.255 |
| `Checksum.VersionedHeaderVerifies` | front/front.c:318-319 | every verifying header with a non-zero first word, so every IPv4 header, still verifies |
| `TwoStage.ZeroServerSpoils` | back/backend.c:289-292 | the excluded case exists at the backend: address 10.0.245.255, server 0.0.0.0, a header of zeros but for its destination |
| `Checksum.ClearedDestination` | back/backend.c:289-292 | without an IPv4 server the destination becomes 0.0.0.0 under the old sum, and a verifying header still verifies if and only if the old address counts as zero and is not all the header holds |
| `TwoStage.NoServerSpoils` | back/back_init.c:64-83 | an ordinary packet from 10.0.0.1 to a backend 10.0.0.2 with no IPv4 server is sent with a header that does not verify |
| `Checksum.IncrementalAgainstRecomputed` | common/checksum.h:22-28 | outside that case the adjusted field equals the recomputed one but for 0xffff against 0x0000, with the exact condition for that corner |
| `Checksum.CornerReached` | common/checksum.h:22-28 | an ordinary packet meets the corner: 10.0.0.1 to 10.0.0.2, sent on to 10.0.102.208 |
| `Checksum.FieldOfVerifying` | common/checksum.h:22-28 | in a verifying header the field is the recomputed one up to the two zeros |
| `Checksum.DeltasCompose` | common/checksum.h:118-131 | delta(a,b) plus delta(b,c) is delta(a,c) and delta(b,a) undoes delta(a,b), both zeros identified |
| `Checksum.TwoStagesVerify` | back/backend.c:289-292 | for non-zero addresses both headers verify, and differ from the direct rewrite at most by the two zeros in the sum field |
| `Addresses.RuleMatches4` | front/pol_lookup.c:122-123 | a rule stored masked matches a source exactly when the source agrees with the configured address on all mask bits |
| `Addresses.RuleMatches6` | front/pol_lookup.c:259-262 | the same over the four words of an IPv6 address |
| `Addresses.Hashes4` | common/util_inline.h:221-227 | the IPv4 hash falls in the 4096 buckets |
| `Addresses.Hashes6` | common/util_inline.h:232-236 | the IPv6 hash falls in the 4096 buckets |
| `Addresses.Hash4Exact` | common/util_inline.h:221-227 | the IPv4 hash as byte sums modulo 4096 |
| `Addresses.Hash6Exact` | common/util_inline.h:232-236 | the IPv6 hash as the folded word sum modulo 4096 |
| `Reference.FirstMatch` | front/pol_lookup.c:122-135 | the first rule in file order that matches, or none |
| `Reference.ResolveKeeps` | front/svr_tbl.c:56-82 | resolving never changes the address or counter of a server, and marks it OK only with a non-zero MAC |
| `Reference.ReadyKeeps` | front/pol_lookup.c:125-132 | the check-then-resolve loop leaves a settled server alone, and succeeds only when a check saw it settled |
| `Reference.ReadyExact` | front/pol_lookup.c:125-132 | twelve resolver calls at most: an INIT server takes the MAC of the first good answer, and the lookup uses it exactly when that is among the first nine |
| `Reference.FirstGoodIsFirst` | front/svr_tbl.c:61-81 | a resolver call succeeds when it returns no error and a non-zero MAC, and the first such call is meant |
| `Reference.ScanKeeps` | front/pol_lookup.c:118-136 | one uncached lookup keeps rules and servers; status moves only from INIT, and a settled MAC is frozen |
| `Reference.ScanOfSettled` | front/pol_lookup.c:118-136 | once the server of a source is settled the outcome no longer depends on the resolver |
| `Reference.ScanOfInit` | front/pol_lookup.c:118-136 | a server not yet up is resolved: a good answer among the first nine sends the packet to it with that MAC, counted once for rule and server; among the last three it only comes up; without one it stays down; nothing else changes |
| `Reference.ScanOfNoMatch` | front/pol_lookup.c:135 | where no rule matches nothing changes |
| `Reference.ResolveExact` | front/svr_tbl.c:56-82 | three rounds leave the server up with the MAC of the first good answer, or down |
| `Reference.BoundForever` | front/pol_lookup.c:65-136 | a source whose server is up gets the same outcome for every packet of every later run |
| `Reference.Affinity` | front/pol_lookup.c:65-136 | after a forwarded packet, all later packets of the source go to the same address and non-zero MAC with the same delta |
| `Reference.CountHitConserves` | front/pol_lookup.c:92-94 | counting a hit keeps every server's counter equal to the sum over its rules, mod 2^32 |
| `Reference.HitsConserved` | front/pol_lookup.c:52-56 | over any run server counters equal the sums of their rules, and rules grow by exactly the packets forwarded or dropped by a drop rule |
| `PolicyCache.HitOrMiss` | front/pol_lookup.c:43-59 | a lookup finds the one current entry of the source, or the source is cached nowhere |
| `PolicyCache.GetPolKeepsInv` | front/pol_lookup.c:35-113 | a packet keeps the pool, bucket and coherence invariant whatever the resolver answers and however full the pool |
| `PolicyCache.GetPolIsScan` | front/pol_lookup.c:35-113 | hit, refill and overflow send or drop the packet and leave counters and servers exactly as the uncached scan does |
| `PolicyCache.MissIsCached` | front/pol_lookup.c:65-113 | a decided miss takes the first free entry; with none free it asks for a sweep and caches nothing; an undecided one changes nothing else |
| `PolicyCache.HitTouches` | front/pol_lookup.c:43-57 | all that a hit touches: the hit counters of the entry, of its rule and of its server, one each |
| `PolicyCache.MissTouches` | front/pol_lookup.c:78-104 | all that a decided miss touches beside the tables: one entry, its places, its counter started at 1, and the use counter of its rule |
| `PolicyCache.Find` | front/pol_lookup.c:43-44 | the first entry of a bucket that caches the source |
| `PolicyCache.NextBusy` | front/pol_lookup.c:322-333 | the first non-empty bucket from the pointer on |
| `PolicyCache.Released` | front/pol_lookup.c:160-164 | freeing a list of entries clears exactly their status |
| `PolicyCache.ClearCacheKeepsInv` | front/pol_lookup.c:315-335 | emptying a bucket keeps the whole invariant |
| `PolicyCache.PatrolKeepsInv` | front/front.c:356-392 | a patrol step keeps the invariant, rules, servers and counters |
| `PolicyCache.PatrolTouches` | front/pol_lookup.c:315-335 | all that a patrol step touches: the first bucket in use from the pointer on, whose entries go to the end of the free queue in order |
| `PolicyTable.FindServer` | front/svr_tbl.c:93-100 | the server with the address, or there is none |
| `PolicyTable.AddRuleKeeps` | front/pol_tbl.c:162-190 | a loaded line appends one rule naming its server and matching by its mask; one server per address, DROP exactly for the zero address |
| `PolicyTable.AddRuleConserves` | front/pol_tbl.c:162-190 | loading keeps server counters equal to the sums of their rules |
| `PolicyTable.LoadResolves` | front/svr_tbl.c:36-51 | loading a line brings its server up with the first good of three answers, leaves one already up as it is, and drops for the zero address |
| `PolicyTable.AddRuleFollows` | front/pol_tbl.c:162-190 | each line becomes the last rule, with its masked address, mask and server |
| `PolicyTable.ResetLoads` | front/pol_tbl.c:66-84 | from an initialised front a whole file gives one rule a line in file order, all counters 0 |
| `PolicyTable.FirstLineDecides` | front/pol_lookup.c:118-136 | a source is decided by the first line of the file that matches it: dropped exactly if that names the zero address, else sent to no other server, and surely once it is up |
| `PolicyTable.NoLineDecides` | front/pol_lookup.c:135 | a source no line matches is not forwarded and leaves no trace |
| `PolicyTable.Decides6` | front/svr_tbl.c:126-157 | the same for IPv6 word by word, :: being the address that drops |
| `PolicyTable.LoadKeepsInv` | front/pol_tbl.c:149-152 | appending a rule keeps every cached entry current |
| `PolicyTable.ResetInv` | front/pol_tbl.c:287-346 | initialisation establishes the invariant from any earlier pool contents and sweep state |
| `PolicyRuns.RunKeepsInv` | front/front.c:187-214 | the invariant holds after any interleaving of packets and patrol steps |
| `PolicyRuns.Transparency` | front/front.c:187-214 | over every run the network and all counters see exactly what the uncached scan fed the same packets would give |
| `PolicyRuns.CachedAffinity` | front/pol_lookup.c:35-136 | affinity of the cached front through evictions, refills and overflows |
| `PolicyRuns.CachedHitsConserved` | front/pol_lookup.c:52-56 | the same for the cached front, through recycled entries, as plain equations modulo 2^32 |
| `PolicyRuns.PoolPartition` | front/pol_tbl.c:320-345 | every entry is in the free queue or exactly one bucket, exactly once; free exactly when its status is 0; fix4 in no list |
| `PolicyRuns.PatrolProgress` | front/front.c:365-374 | a patrol step ends the sweep at pointer 0, or advances the pointer and frees at least one entry |
| `PolicyRuns.SweepStartsAtZero` | front/pol_lookup.c:147-149 | only an overflow requests a sweep, which then starts at pointer 0 |
| `PolicyRuns.SweepBounded` | front/front.c:365-374 | a sweep ends within as many patrol calls as buckets remain, 4096 at most, whatever packets interleave |
| `PolicyRuns.SweepEvicts` | front/front.c:365-374 | no later than the flag goes down every entry cached at or beyond the pointer has been evicted, despite interleaved inserts |
| `PolicyRuns.SweepComplete` | front/front.c:365-374 | from the overflow that asks for it a sweep ends within 4096 patrol calls and evicts every entry cached before it, in one theorem |
| `Engine.PolicyEngine.constructor` | front/pol_tbl.c:287-346 | the initial tables: 1024 free entries in order, 4096 empty buckets, no rule |
| `Engine.PolicyEngine.InitPolicyTable` | front/pol_tbl.c:287-346 | in place, the reset of the specification, invariant and conservation included |
| `Engine.PolicyEngine.ResolveTargetMac` | front/svr_tbl.c:56-82 | in place, up to three rounds on one server as specified |
| `Engine.PolicyEngine.LookupPolicy` | front/pol_lookup.c:118-136 | in place, the specified scan with its check-then-resolve loop |
| `Engine.PolicyEngine.GetFreePolCache4` | front/pol_lookup.c:141-155 | the first free entry with hit cleared, or fix4 and a sweep request |
| `Engine.PolicyEngine.GetPolSlowV4` | front/pol_lookup.c:65-113 | in place, the specified slow path |
| `Engine.PolicyEngine.GetPolV4` | front/pol_lookup.c:35-60 | in place, the specified lookup |
| `Engine.PolicyEngine.ClearV4Cache` | front/pol_lookup.c:315-335 | in place, the specified emptying of one bucket |
| `Engine.PolicyEngine.ProcPatrol` | front/front.c:356-392 | in place, the specified patrol step, invariant kept |
| `Engine.PolicyEngine.CreatePolicy` | front/pol_tbl.c:149-190 | in place, the specified loading of one line, invariant and conservation kept |
| `Engine.PolicyEngine.FindSvrTbl` | front/svr_tbl.c:88-125 | in place, the server with the address, created INIT or DROP if missing |
| `Engine.PolicyEngine.GetSvrTable` | front/svr_tbl.c:36-51 | find or create, then one resolution of an INIT server |
| `Engine.PolicyEngine.ProcV4` | front/front.c:307-316 | what leaves for a packet is what the uncached scan decides |
| `Engine.PolicyEngine.FrontIngress` | front/front.c:187-214 | the receive loop writes, packet by packet, what the uncached scan decides |
| `TwoStage.ProcV4` | front/front.c:300-323 | a packet for another address touches nothing; any other is rewritten as the uncached scan demands, never to 0.0.0.0, and every header that verifies still does |
| `TwoStage.SourceOctets` | front/front.c:311 | the policy is looked up for octets 12 to 15 of the header |
| `TwoStage.DestinationOctets` | front/front.c:307 | the destination compared and written is octets 16 to 19 |
| `TwoStage.FrontFollowsFile` | front/front.c:300-323 | from packet to line: the first line of the file whose address agrees with octets 12 to 15 on its mask decides, and what is sent carries the address of its server in octets 16 to 19 |
| `TwoStage.NoLineFits` | front/front.c:311-314 | a packet that no line fits is not sent |
| `TwoStage.OthersPass` | front/front.c:307-310 | a packet with another address in octets 16 to 19 touches nothing |
| `TwoStage.RealServer.constructor` | back/back_init.c:61-97 | the delta is computed once, address and delta staying 0 without an IPv4 server; the server starts up with the MAC of the first good answer for its IPv4 address, or else for its IPv6 one, or down |
| `TwoStage.RealServer.ResolveMac` | back/mac_resolution.c:176-202 | OK exactly when one of three rounds gives a non-zero MAC without error, and the MAC kept is the first such |
| `TwoStage.RealServer.ProcV4In` | back/backend.c:266-297 | IPv4 server or not: dropped exactly for another address or an unresolved server; otherwise sent to the MAC kept or just resolved, and its header still verifies exactly when `Spared` says so |
| `TwoStage.RealServer.EnsureUp` | back/backend.c:279-287 | a server resolved for either address family is up for both, with the MAC of that answer |
| `TwoStage.ThroughBothStages` | back/backend.c:289-292 | a packet through both methods, the backend being the chosen destination: the header verifies at each stage and ends as a direct rewrite up to the two zeros |
| `Internet6.SoftChecksum` | common/checksum.h:46-64 | the 32-bit sum of the little-endian words and an odd last byte, without overflow |
| `Internet6.Icmpv6Sum` | common/checksum.h:98-113 | the folded 16-bit form of payload sum plus base |
| `Internet6.FoldIsNorm` | common/checksum.h:105-112 | 64-to-16-bit folding keeps the residue modulo 0xffff and is zero only for zero |
| `Internet6.GetChksum` | common/ping_body.c:149-160 | the complement of the folded sum with zero base |
| `Internet6.LeIsSwapped` | common/checksum.h:33-64 | byte-order independence: the little-endian sum is the byte-swapped Internet sum for every length |
| `Internet6.Icmp6SumIsInternetSum` | common/checksum.h:69-113 | payload and pseudo header folded give the byte-swapped Internet sum of section 1 of RFC 1071 |
| `Internet6.Icmp6TestIsVerification` | common/arp_proc.c:222-227 | the test against 0xffff is verification by section 8.1 of RFC 8200 |
| `Internet6.VerifiesByWords` | common/arp_proc.c:222-227 | verification in plain arithmetic: addresses, payload length, 58 and payload sum to a multiple of 0xffff |
| `Neighbor.WalkOptions` | common/arp_proc.c:245-258 | accepts exactly the areas that split completely into options of non-zero length in 8-octet units |
| `Neighbor.CheckValidNs` | common/arp_proc.c:202-261 | 0 exactly for a valid solicitation: source, hop limit, code, checksum over the stated payload length even beyond the frame, target and options of the frame |
| `Neighbor.SolicitationOctets` | common/arp_proc.c:202-261 | what is checked, octet by octet of header and message; the target is compared exactly when we do not proxy |
| `Neighbor.ChecksumOk` | common/arp_proc.c:222-227 | the checksum check is Internet checksum verification |
| `Neighbor.AdvertIsValid` | common/arp_proc.c:271-321 | a verifying advertisement passes every check of check_valid_ns unless its address is unspecified or multicast |
| `Neighbor.BuildAdvert` | common/arp_proc.c:281-318 | the frame built in place is the advertisement with a checksum that verifies |
| `Neighbor.SendIcmp6Na` | common/arp_proc.c:271-321 | every advertisement of our own address, unicast or multicast, verifies, has well-formed options and correct lengths |
| `Neighbor.SendNaBody` | back/mac_resolution.c:286-344 | the same for proxied targets; silent exactly when a multicast group does not match the target |
| `Neighbor.FrameOctets` | common/arp_proc.c:289-314 | the frame sent octet by octet: addresses, type and lengths, hop limit, message type, flags, target and option |
| `Barrier.ExecKeepsInv` | back/back_init.c:147-195 | flags, children and parent stay in step under every interleaving, for any number of threads |
| `Barrier.NobodyPassesEarly` | back/back_init.c:160-195 | no child passes, and the parent releases none, before every child has published its socket and raised its flag |
| `Barrier.NoLostUpdate` | back/back_init.c:160-195 | each flag moves only INIT to WAKE by its child and WAKE to GO by the parent |
| `Barrier.ParentNeverWaitsAgain` | back/back_init.c:183-194 | once all children have arrived each step of the parent lowers the measure |
| `Barrier.EverySchedule` | back/back_init.c:160-195 | every schedule has at most Measure effective steps, and one at rest has everybody past the barrier unless a socket failed |
| `Barrier.FailureEndsAll` | back/backend.c:164-166 | a thread that cannot open its socket ends the process, and nobody moves again |
| `Barrier.BarrierOpens` | back/back_init.c:160-195 | from every reachable state the barrier can open within the measure |
| `Barrier.FirstMeasure` | back/back_init.c:147-155 | for n threads the measure starts at 7n + 3 |
| `Reload.ReloadSafety` | front/command_proc.c:104-143 | the safety invariant holds under every interleaving of the two threads, any file, address read, failed start and cancellation point |
| `Reload.ForwardingSeesWholeTables` | front/command_proc.c:112-142 | a live forwarding thread sees whole tables with only entries current for the address it serves; none lives while tables change; a new one starts with nothing cached |
| `Reload.ForwardingFollowsFile` | front/command_proc.c:129-138 | whatever has been reloaded, cancelled or failed, a live forwarding thread has the rules of the file last opened, all of them and in order |
| `Reload.WritesAlone` | front/command_proc.c:129-137 | the command thread changes the tables and the virtual address only while no forwarding thread is alive, and nobody else changes the address |
| `Reload.DeltasOfThisEpoch` | front/command_proc.c:135-137 | though every reload may change the virtual address, no cached delta of an earlier address survives |
| `Reload.RewritesSoundlyAfterReloads` | front/front.c:318-319 | for IPv4: however often the address has changed, rewriting a verifying header for the address now served with whatever is cached gives one that verifies |
| `Reload.ReloadCompletes` | front/command_proc.c:104-143 | a reload asked for in the command loop can complete, on exactly the lines of the new file in order, for the new address, all counters 0, if and only if the forwarding thread is alive |
| `Reload.StrandedForever` | front/command_proc.c:119-127 | with no forwarding thread left no reload ever completes and the tables never change again |
| `Reload.FailedRestartStrands` | front/command_proc.c:138-141 | that state is reached: a reload whose restart fails ends in it |
| `Reload.FailedStart` | front/front_init.c:54-65 | where the first start fails main returns; where a later one does the command loop goes on |
| `Reload.EveryReload` | front/command_proc.c:112-142 | however the threads are scheduled and whatever fails, a reload under way returns to the command loop: until it does some step beside packets can be made, and a measure bounds how many are |
| `Reload.ReloadBegins` | front/command_proc.c:112-117 | a reload asked for while the thread is alive is under way, with at most 15 such steps and one for each rule, server and line to go |
| `Reload.StepLowersLeft` | front/command_proc.c:112-142 | each step beside packets that changes anything lowers the measure, and packets leave it alone |
| `Reload.RebuildsAndStarts` | front/front_init.c:39-66 | from torn tables the file can be loaded and the start handshake completed |
| `Netlink.AlignIsRoundingUp` | common/rt_body.c:306 | alignment is rounding up to a multiple of four |
| `Netlink.Message.constructor` | common/rt_body.c:300-315 | a message whose fixed part is aligned holds no attribute |
| `Netlink.Message.GetAttr` | common/rt_body.c:300-315 | refused exactly when it would pass maxlen, changing nothing; otherwise the attribute is last and nothing else in the buffer before or behind it changes |
| `Netlink.ParseRtattr` | common/rt_body.c:509-521 | over any bytes: terminates, table holds the last place of each type up to max, and the remainder is what the walk cannot read |
| `Netlink.ParseFindsAppended` | common/rt_body.c:509-521 | attributes are consumed exactly up to where a header no longer fits, and each type is found at its last attribute, payload intact |
| `Netlink.MessageParsesBack` | common/rt_body.c:509-521 | whatever getattr calls built a message, parsing gives its attributes back |
| `Netlink.LengthFieldExact` | common/rt_body.c:311 | the length field is the length cut to 16 bits, right exactly when the attribute fits it |
| `Netlink.AttributeOctets` | common/rt_body.c:309-313 | an attribute octet by octet: length, type, payload, in a multiple of four |
| `LogRing.NumberIsModulo` | common/log_body.c:57 | the sequence number is the record count modulo 2^32 |
| `LogRing.SlotSteps` | common/log_body.c:59-62 | the position is the record count modulo the ring size |
| `LogRing.SlotIsNumberModulo` | common/log_body.c:57-62 | where the size divides 2^32 the position is also the wrapped sequence number modulo the size |
| `LogRing.WindowAt` | common/log_body.c:48-64 | the cells in order are the last records, behind blanks while there are fewer |
| `LogRing.NewestIsAlone` | common/log_body.c:237-247 | the newest sequence number marks one cell only, wrap-around included |
| `LogRing.Log.Mlog` | common/log_body.c:48-64 | in place, the ring stays the window of everything logged, the text cut to 111 characters |
| `LogRing.Log.Evtlog` | common/log_body.c:84-109 | the same while tracing is on; nothing changes otherwise |
| `LogRing.Log.Oldest` | common/log_body.c:236-247 | the search ends at the oldest cell |
| `LogRing.Log.WriteLog` | common/log_body.c:211-275 | for both logs as they print, heading included: the chunks written concatenate to the heading and the last min(n, size) records oldest first, and no store passes the buffer |
| `LogRing.CellsFit` | common/log_body.c:165-171 | every record in either ring prints within the margin its dump keeps free |
| `LogFormat.MessageFits` | common/log_body.c:259-264 | a message record prints within 256 characters, end mark included |
| `LogFormat.EventFits` | common/log_body.c:333-350 | an event record fits its margin of 296 exactly when its five variable fields leave room, as on ia32 they always do |
| `LogFormat.WideEventOverruns` | common/log_body.c:335-336 | with longs of 64 bits the largest event no longer fits |
| `LogFormat.DecimalTells` | common/log_body.c:259 | a printed number reads as that number, in decimal digits without leading zeros |
| `LogFormat.HexTells` | common/log_body.c:335 | a printed word reads as that word |
| `LogFormat.HexBytesTell` | common/log_body.c:344 | each byte of an event is a blank and its two digits |
| `LogFormat.MessagesTellApart` | common/log_body.c:259-260 | nothing is lost in print: messages that print alike agree in number, time and text |
| `LogFormat.EventsTellApart` | common/log_body.c:335-346 | and events in number, trace id, time, words and bytes |
| `LogRing.WriteRecord` | common/log_body.c:165-171 | after each record the margin is free again, and chunks plus buffer lose no byte |
| `LogRing.Pieces` | common/log_body.c:325-345 | a record's pieces stand one behind the other in the buffer |
| `PolicyLine.ScanAccepts` | front/pol_tbl.c:268-280 | up to a newline, exactly digits and at most three dots pass as IPv4 |
| `PolicyLine.GetFamily` | front/pol_tbl.c:258-281 | the family of a text: IPv6 for a colon, else the scan |
| `PolicyLine.Strchr` | front/pol_tbl.c:107-114 | the first place of a character in a C string, or none |
| `PolicyLine.CopyPart` | front/pol_tbl.c:113-126 | copies the first word of the text as a C string |
| `PolicyLine.ParsePolicyLine` | front/pol_tbl.c:95-147 | in place, splits and judges a line exactly as specified on texts, every error and missing part included |
| `PolicyLine.NoComplaint` | front/pol_tbl.c:128-141 | a line is not rejected exactly when all parts are of one known family |
| `PolicyLine.FlagsDecide` | front/pol_tbl.c:143-147 | a line of IPv4 parts is accepted exactly if IPv4 is enabled, one of IPv6 parts exactly if IPv6 is |
| `PolicyLine.UnavailableOnly` | front/pol_tbl.c:143-147 | nothing else is turned down for want of an interface |
| `PolicyLine.FirstComplaint` | front/pol_tbl.c:128-141 | a line is turned down for the first part of no family, or of another than the first part |
| `PolicyLine.LineEndsAtBreak` | front/pol_tbl.c:106-109 | a line ends at its first line break |
| `PolicyLine.PartWithin` | front/pol_tbl.c:113-126 | a part is the text between the spaces and tabs before it and the first one behind it |
| `PolicyLine.AcceptedIsClean` | front/pol_tbl.c:112-126 | no accepted part holds a blank, comma or newline |
| `PolicyLine.PrintedParsesBack` | front/pol_tbl.c:185-186 | the uncut printed form parses back to its three parts if and only if they are clean, of one known family, and it is enabled |
| `PolicyLine.StoredParsesBack` | front/pol_tbl.c:185-186 | the form kept in a rule, empty parts included, parses back if and only if in addition none of its texts is cut by the line buffer, the family of a text counting only where its comma is kept |
| `PolicyLine.DottedLinesFit` | front/policy.h:98 | three dotted addresses always fit the 64 characters of an IPv4 rule, as "a, b, c" |
| `PolicyLine.LongLineIsCut` | front/policy.h:113 | three IPv6 addresses of 45 characters are accepted, but the 128 characters kept do not parse back |
| `PolicyLine.LoneAddressIsMixed` | front/pol_tbl.c:128-141 | a line of one IPv6 address is accepted with empty parts, and its printed form is not: empty parts count as IPv4 |

## Left out

- Sockets, `select`, `recv`, `write`, routing-socket exchange, ping and sleeping: packets and resolver answers are inputs, writes are results.
- `back/client_tbl.c`: the same pool-and-bucket shape as the front cache, with a weaker invariant.
- IPv6 packet rewriting (`proc_v6`, `proc_v6_in`): it has no checksum; its lookups are the engine over `Ip6`.
- Running both address families side by side: each has its own engine, and the two bits of `patrol_flag` are one flag each.
- Pointers between list nodes: lists are sequences of indices, so `TAILQ` link fields are not modelled.
- `gw_ip`, entry timestamps and the statistics counters `SASAT_STAT`.
- Allocation failure, malformed addresses given to `inet_pton`, comment lines and file reading: a line comes as text or as its three addresses.
- VLAN code and the `pol_no` ageing of cached entries, both compiled out.
- ARP replies, gratuitous ARP, and `get_icmp6_ns`: the IPv6 payload length is required to lie inside the memory read, beyond which the behaviour of the code is undefined.
- Log dumps and writers running at the same time: logging is sequential. The stale tail an event without data keeps from the record it overwrites is part of the data a caller logs.
- How `get_time` computes a timestamp: any text of at most 23 characters, as for a year of four digits.
- The dumps of statistics, clients, rules and servers, which flush their buffer the same way.
- The Ethernet source address of forwarded packets, set to that of the egress interface.
- Text addresses: `inet_pton` stands between the three texts of a line and the addresses of a rule.
- The backend's interface set-up, egress paths and gateway resolution.
- Memory order of the plain and `volatile` shared variables of both protocols: each access is one atomic step.
- A `pthread_create` that fails in the backend: threads are created, or fail later on their socket.
- Netlink.ParseFindsAppended: for attributes that fit the 16-bit length field; the one caller of `getattr` passes at most 16 bytes (common/rt_body.c:137).
- Reload.EveryReload: that the scheduler eventually makes a step beside packets is not modelled; how many are needed and that one is always possible is.
- PolicyLine.ParsePolicyLine: the parts copied, up to the first one complained about, are required to fit the fixed 64-character buffers, beyond which the behaviour of the code is undefined.
- LogRing.Log.WriteLog: longs are required to have 32 bits as on ia32, the processor whose time stamp counter the code reads, and `ctime_r` to write at most 25 characters.
- Interface availability read by a reload: which lines it lets through is part of the arbitrary file contents.
- Prefix.IsSameNet: mask lengths from 1 to the address width, as its callers give; shifting by 32 is undefined in the code.
- Internet6.SoftChecksum: lengths up to 65535, the most an IPv6 payload length can say.
