# Verified models of the free5GC utility library and of the tracking-area tracker

This project models nine components of the repository in Dafny and proves properties of them that hold
for every input, every run or every interleaving. `dafny verify dfyconfig.toml` checks all of it.

| file | component |
|---|---|
| `Segments.dfy`, `LazyReusePool.dfy`, `PoolRuns.dfy`, `PoolOrder.dfy` | the lazy-reuse integer pool: segment lists as values, the linked list edited in place, whole runs of calls, the order of grants |
| `IpPool.dfy` | IPv4 address pools: CIDR bit arithmetic over the integer pool |
| `IdGenerator.dfy` | the round-robin id generator |
| `SafeChannel.dfy` | the closable channel, as interleaved steps of any number of threads |
| `Text.dfy`, `FlowDesc.dfy`, `FlowReading.dfy` | flow descriptions (IPFilterRule, section 4.3 of RFC 3588): printing, parsing, and what a text says |
| `Milenage.dfy` | MILENAGE (section 4.1 of 3GPP TS 35.206) over an arbitrary block cipher, AUTN and AUTS |
| `Checksum.dfy` | the Internet checksum (section 1 of RFC 1071, RFC 768) and the raw UDP packets built with it |
| `Fsm.dfy` | the finite-state-machine helper |
| `Topology.dfy`, `Pattern.dfy`, `Tracker.dfy` | cell adjacency, its quotient by tracking area, breadth-first hop count, the pattern automaton, the tracker with its notification list |

`Options.dfy` holds the optional value; `Basics.dfy` bytes, sequences without repeats and small facts about sets, sequences and
remainders.

State that the program updates in place is a class here. Each method is proved against a function on
values (`PoolRuns.Apply`, `IdGenerators.Grant`, `FlowDescs.RuleOf`, ...), and the properties of whole runs
are lemmas about those functions.

## Where the code does not do what its text says

- Free calls a second Free of the same value a duplicate and means to reject it. It does not always:
  `PoolRuns.RepeatedFreeAccepted` gives calls on a new pool after which 7 is granted twice.
  `Segments.DuplicateFreeRejected` gives the exact condition on the dumped segments under which the repeat is
  rejected, and `PoolRuns.RepeatedFreeRejected` the condition in runs of Allocate and Free alone: the value is
  not `head.last + 1`.
- The pattern position is described as a prefix match. It is the longest match on every history if and only
  if the first pattern element occurs once in the pattern (`Patterns.LongestIff`). On the histories the
  tracker keeps, which have no immediate repeats, this is needed only of the longest prefix of the pattern
  without immediate repeats (`Patterns.LongestOnReportsIff`), and a pattern that itself has an immediate
  repeat is never completed (`Trackers.RepeatNeverCompletes`).
- So a UE may pass all but the last pattern element in a row without being notified: with the pattern
  1, 2, 1, 2, 3, 9 a UE reported in the areas 1, 2, 1, 2, 1, 2, 3 is missed (`Trackers.UeMissed`). Nobody is
  missed, whatever the topology and the reports, if and only if, within all but the last element, every
  recurrence of the first element starts a copy of the pattern that runs to the end of that part; a part with
  an immediate repeat is never passed (`Patterns.OverlapsAgree`, `Trackers.NotificationExactIff`).
- The checksum accumulator has 32 bits. `Checksums.ChecksumVerifiesIff`: the result verifies if and only if
  the number of overflows is a multiple of 0xffff. `Checksums.AlwaysVerifiesIff`: 131074 bytes is the largest
  length that is always safe. This concerns the function alone: the program refuses packets above 65535 bytes
  before it computes a checksum, so `Checksums.ShortBuffersVerify` covers every packet it builds.
- The IP header structure has no identification field, so 18 header bytes are written, while the first byte
  states a header of 20 bytes and the length field counts 20. `Checksums.BuildRawUdpIp`: both checksums verify
  on the layout written; read with the header length the packet states, the header verifies if and only if
  the source port is 0 or 0xffff; and the length field is always two more than the length of the packet.
- Decode accepts more than it reads. A protocol number is cut to eight bits: it is read as written if and
  only if it lies in 0..255 (`FlowReadings.ProtoReadIff`, at an input `FlowReadings.Proto256`). A port element is
  read whole if and only if it has at most one dash (`FlowReadings.PortReadWholeIff`, `FlowReadings.TwoDashes`). A
  field of destination ports is dropped, and the rule accepted without it, if and only if it does not parse
  (`FlowReadings.DstPortsDroppedIff`, `FlowReadings.BadPortsDropped`). Fields behind it are never looked at
  (`FlowReadings.TrailingFieldsIgnored`). The regular expression for ports is optional and unanchored, so it
  accepts every text, and the model has no such test.
- The tracking-area hop count bounds the changes of tracking area on a walk through cells from below. It need
  not be attained (`Topologies.HopsMayHaveNoCellWalk`); it is attained between all cells if and only if any two
  cells of one tracking area are joined by a walk inside it (`Topologies.HopsAttainedIff`).
- A state machine may be built without callbacks for its states, and an event then panics on the missing one.
  `Fsms.CompleteIff`: no event panics if and only if every state of the table has a callback.
  `Fsms.FollowsTableIff`: what an event does follows the table if and only if moreover the callbacks leave the
  state alone on entry and on self-loops.
- The id generator promises ids in `[minValue, maxValue]` and accepts any two numbers.
  `IdGenerators.IDGenerator.Allocate`: an id granted lies in the range if and only if `minValue <= maxValue`;
  with `maxValue + 1 == minValue` every call divides by zero, after it has taken an offset.

## Model

| member | source | states |
|---|---|---|
| `Segments.TotalIsSize` | lib/util/ippool/lazyReusePool.go:13-20 | the sum of segment sizes is at least the number of free values, and equal to it exactly when no value sits in two segments |
| `Segments.AllocateRemovesFirst` | lib/util/ippool/lazyReusePool.go:46-60 | taking the head's first value removes exactly that value from the free set, counts one down and keeps segments disjoint, non-empty and in range |
| `Segments.UseCounts` | lib/util/ippool/lazyReusePool.go:62-88 | Use succeeds if and only if the value is free, and lowers the count by one, for any segment list |
| `Segments.UseRemoves` | lib/util/ippool/lazyReusePool.go:62-88 | a successful Use removes exactly the value and keeps the segments disjoint |
| `Segments.FreeAdds` | lib/util/ippool/lazyReusePool.go:90-162 | an accepted Free adds exactly the value and counts one up; a rejected value was free; so a value that is not free is always accepted |
| `Segments.FreeKeepsSeparate` | lib/util/ippool/lazyReusePool.go:90-162 | an accepted Free keeps the segments disjoint if and only if the value was not free |
| `Segments.ReserveRemoves` | lib/util/ippool/lazyReusePool.go:164-203 | Reserve leaves exactly the old free set minus the reserved range, for any order of segments |
| `Segments.ReserveCounts` | lib/util/ippool/lazyReusePool.go:164-203 | Reserve lowers the count by the size of the intersection |
| `Segments.DuplicateFreeRejected` | lib/util/ippool/lazyReusePool.go:110-157 | the exact condition, readable from the dumped segments, under which a repeated Free is rejected |
| `Segments.FreeKeepsTailAscending` | lib/util/ippool/lazyReusePool.go:129-157 | Free keeps the segments behind the head strictly ascending with gaps, even when it accepts a duplicate |
| `Segments.AscendingRejectsDuplicates` | lib/util/ippool/lazyReusePool.go:110-157 | with an ascending tail a repeated Free is rejected if and only if the value is not head.last + 1 |
| `LazyReusePools.LazyReusePool.constructor` | lib/util/ippool/lazyReusePool.go:37-43 | a new pool has one segment, everything free, and satisfies the list invariant |
| `LazyReusePools.LazyReusePool.New` | lib/util/ippool/lazyReusePool.go:33-44 | an error exactly for first > last, otherwise the full pool |
| `LazyReusePools.LazyReusePool.InsertAfter` | lib/util/ippool/lazyReusePool.go:135-139 | linking a new node in keeps the list acyclic and puts its segment right behind the given one |
| `LazyReusePools.LazyReusePool.Unlink` | lib/util/ippool/lazyReusePool.go:74-78 | unlinking a node keeps the list acyclic and drops exactly its segment |
| `LazyReusePools.LazyReusePool.SplitAt` | lib/util/ippool/lazyReusePool.go:254-263 | splitting replaces one segment by its two parts, in place |
| `LazyReusePools.LazyReusePool.ExtendLastAt` | lib/util/ippool/lazyReusePool.go:268-276 | growing a segment by one absorbs its successor when they now touch |
| `LazyReusePools.LazyReusePool.Allocate` | lib/util/ippool/lazyReusePool.go:46-60 | grants the front of the queue of free values and leaves the rest; fails exactly when nothing is free; keeps list and counter valid |
| `LazyReusePools.LazyReusePool.Find` | lib/util/ippool/lazyReusePool.go:69-86 | the walk stops at the first node that holds the value |
| `LazyReusePools.LazyReusePool.TakeAt` | lib/util/ippool/lazyReusePool.go:72-81 | unlink, trim or split removes the value from that node alone |
| `LazyReusePools.LazyReusePool.Use` | lib/util/ippool/lazyReusePool.go:62-88 | true exactly when the value was free; deletes exactly that value from the queue of values to come, in place |
| `LazyReusePools.LazyReusePool.Free` | lib/util/ippool/lazyReusePool.go:90-162 | always accepts an in-range value that is not free, adds exactly it, and spoils disjointness exactly when it was free |
| `LazyReusePools.LazyReusePool.FreeAt` | lib/util/ippool/lazyReusePool.go:132-156 | the five cases at the node where the walk stops |
| `LazyReusePools.LazyReusePool.FreeBehindHead` | lib/util/ippool/lazyReusePool.go:129-157 | the loop over the nodes behind the head computes the list operation |
| `LazyReusePools.LazyReusePool.CutAt` | lib/util/ippool/lazyReusePool.go:170-199 | one turn of the Reserve loop cuts the range out of one node and charges the counter with the overlap |
| `LazyReusePools.LazyReusePool.ReserveLoop` | lib/util/ippool/lazyReusePool.go:169-200 | one pass that edits the list it walks over ends, and cuts the range out of every segment |
| `LazyReusePools.LazyReusePool.Reserve` | lib/util/ippool/lazyReusePool.go:164-203 | an error exactly outside the range of the pool; otherwise the queue keeps the values outside the range, in their order, and the counter drops by the intersection |
| `LazyReusePools.LazyReusePool.Dump` | lib/util/ippool/lazyReusePool.go:285-294 | lists the segments from the head |
| `PoolRuns.ApplyKeepsOk` | lib/util/ippool/lazyReusePool.go:46-203 | any call by any client keeps segments non-empty and in range |
| `PoolRuns.ApplyRefinesSet` | lib/util/ippool/lazyReusePool.go:46-203 | call by call the segment list agrees with a plain set of free integers, replies included |
| `PoolRuns.RunKeepsPartition` | lib/util/ippool/lazyReusePool.go:33-203 | in every run of clients that free what they hold and reserve nothing held, free, held and reserved values partition the range |
| `PoolRuns.RunCounts` | lib/util/ippool/lazyReusePool.go:13-13 | the counter is the range size minus held minus reserved |
| `PoolRuns.NoDoubleGrant` | lib/util/ippool/lazyReusePool.go:46-162 | in every run, by any clients, a value granted while no value sits in two segments is granted again only after a Free of it |
| `PoolRuns.CleanRunKeepsSeparate` | lib/util/ippool/lazyReusePool.go:46-203 | clients that free only values that are not free keep the segments disjoint |
| `PoolRuns.PoliteRunIsClean` | lib/util/ippool/lazyReusePool.go:90-162 | clients that free only what they hold are among them |
| `PoolRuns.CleanRunGrantsOnce` | lib/util/ippool/lazyReusePool.go:46-203 | such clients are never granted a value twice without a Free of it in between |
| `PoolRuns.NoReservedGrant` | lib/util/ippool/lazyReusePool.go:164-203 | a value reserved once is never granted afterwards |
| `PoolRuns.NotFreeUntilFreed` | lib/util/ippool/lazyReusePool.go:46-203 | whatever clients do, a value that is not free stays so until a Free of it |
| `PoolRuns.ReservedGrantNeedsFree` | lib/util/ippool/lazyReusePool.go:164-203 | in every run, by any clients, a reserved value is granted only after a Free of it |
| `PoolRuns.GrantsInRange` | lib/util/ippool/lazyReusePool.go:46-60 | in every run, by any clients, a granted value lies in the range of the pool |
| `PoolRuns.AllocateFreeKeepsTail` | lib/util/ippool/lazyReusePool.go:46-162 | in every run of Allocate and Free the segments behind the head stay strictly ascending with a gap of at least one |
| `PoolRuns.RepeatedFreeRejected` | lib/util/ippool/lazyReusePool.go:90-162 | in such a run a repeated Free is rejected, pool unchanged, if and only if the value is not head.last + 1 |
| `PoolRuns.RepeatedFreeAccepted` | lib/util/ippool/lazyReusePool.go:112-145 | a run from a new pool on 1..7 in which a second Free(7) is accepted and 7 is then granted twice with no Free in between |
| `PoolRuns.HeadServedInOrder` | lib/util/ippool/lazyReusePool.go:46-60 | with head [a,b] the next b-a+1 Allocates return a..b whatever is freed in between |
| `PoolRuns.FlattenLists` | lib/util/ippool/lazyReusePool.go:285-294 | the flattened dump lists exactly the free values, as many as the counter says, and without repeats when segments are disjoint |
| `PoolRuns.DrainInOrder` | lib/util/ippool/lazyReusePool.go:46-60 | successive Allocates return the flattened dump in order and then fail |
| `PoolOrders.UseDump` | lib/util/ippool/lazyReusePool.go:62-88 | Use deletes the first occurrence of the value from the flattened dump, in place |
| `PoolOrders.ReserveDump` | lib/util/ippool/lazyReusePool.go:164-203 | Reserve leaves of the flattened dump the values outside the range, in their order |
| `PoolOrders.FreeDump` | lib/util/ippool/lazyReusePool.go:90-162 | an accepted Free leaves the head's values in front and puts the value behind them: in front of the first greater value, or right behind its predecessor |
| `PoolOrders.RunIsQueue` | lib/util/ippool/lazyReusePool.go:46-203 | in every run of Allocate, Use and Reserve all replies are those of a queue that starts as the flattened dump |
| `PoolOrders.UseKeepsOrder` | lib/util/ippool/lazyReusePool.go:248-264 | on a new pool a Use in the middle leaves the lower values in front of the upper ones |
| `PoolOrders.ReserveKeepsOrder` | lib/util/ippool/lazyReusePool.go:176-185 | and so does a Reserve |
| `IpPools.AndMask` | lib/util/ippool/ip_pool.go:46-46 | the bitwise and with a CIDR mask clears exactly the host bits |
| `IpPools.OrNotMask` | lib/util/ippool/ip_pool.go:47-47 | the bitwise or with the inverted mask sets exactly the host bits |
| `IpPools.RangeIsSubnet` | lib/util/ippool/ip_pool.go:42-52 | for every prefix length the range is exactly the subnet, with 2^(32-n) addresses; refused exactly for /32 |
| `IpPools.WordRoundTrip` | lib/util/ippool/ip_pool.go:97-101 | reading the printed bytes of a 32-bit value gives the value |
| `IpPools.IPRoundTrip` | lib/util/ippool/ip_pool.go:97-101 | printing the value read from four bytes gives the bytes |
| `IpPools.SubnetIsPrefix` | lib/util/ippool/ip_pool.go:42-52 | an address belongs to the subnet if and only if its first bits, from the top bit of its first byte on, are those of the subnet's address |
| `IpPools.IPPool.New` | lib/util/ippool/ip_pool.go:16-40 | an error exactly for /32; otherwise a pool over the subnet without its two end addresses |
| `IpPools.IPPool.Allocate` | lib/util/ippool/ip_pool.go:65-86 | takes the requested address if free, or the next one, and returns the bytes of the value the pool granted, which agree with the subnet's address on the prefix; panics, the pool unchanged, exactly for requests of fewer than four bytes |
| `IpPools.IPPool.Reallocate` | lib/util/ippool/ip_pool.go:54-63 | returns the requested address and whether it was in use; one not in use has the subnet's prefix; panics, the pool unchanged, exactly for requests of fewer than four bytes |
| `IpPools.IPPool.Exclude` | lib/util/ippool/ip_pool.go:88-95 | after success no address of the other subnet is free |
| `IpPools.IPPool.Release` | lib/util/ippool/ip_pool.go:103-113 | an error for short addresses with the pool unchanged; otherwise Free of the value, accepted only with the subnet's prefix, and always for such an address that is not free |
| `IpPools.NeverGrantsNetworkOrBroadcast` | lib/util/ippool/ip_pool.go:32-37 | in every run that releases only held addresses each granted address is in the subnet and is neither its first nor its last |
| `IpPools.EndAddressNeedsRelease` | lib/util/ippool/ip_pool.go:32-37 | in every run, by any clients, a granted address is in the subnet, and it is the first or the last one only after somebody released that address |
| `IdGenerators.ScanFindsFirst` | lib/util/idgenerator/idgenerator.go:40-51 | the cyclic scan finds the first unused offset, and none exactly when all are used |
| `IdGenerators.IDGenerator.constructor` | lib/util/idgenerator/idgenerator.go:21-33 | for any two numbers: nothing in use, cursor at the start |
| `IdGenerators.IDGenerator.UpdateOffset` | lib/util/idgenerator/idgenerator.go:69-72 | the modulus moves the cursor one place in cyclic order; panics exactly for a range size of zero |
| `IdGenerators.IDGenerator.Allocate` | lib/util/idgenerator/idgenerator.go:36-56 | terminates; grants the first unused id in cyclic order, not in use, and in range exactly when minValue <= maxValue; fails, changing nothing, exactly when all ids are in use; panics exactly for a range size of zero |
| `IdGenerators.IDGenerator.FreeID` | lib/util/idgenerator/idgenerator.go:60-67 | removes exactly that id from use and ignores ids out of range |
| `IdGenerators.ReusedOnlyAfterAllOthers` | lib/util/idgenerator/idgenerator.go:36-72 | between two grants of one id every id that was unused after the first grant has been granted |
| `IdGenerators.ReuseDistance` | lib/util/idgenerator/idgenerator.go:36-72 | so at least N - u other ids are granted in between |
| `SafeChannels.StepKeepsInv` | lib/util/safe_channel/safe_channel.go:17-44 | every step keeps the lock consistent with the threads' positions and what each position knows about flag and channel |
| `SafeChannels.NoPanicNoLoss` | lib/util/safe_channel/safe_channel.go:17-38 | in every interleaving no send on a closed channel and no second close; received followed by buffered is exactly what was accepted |
| `SafeChannels.FrozenOnceShut` | lib/util/safe_channel/safe_channel.go:21-37 | once the channel is closed nothing more is accepted and the flag stays |
| `SafeChannels.ClosedAnswerIsFinal` | lib/util/safe_channel/safe_channel.go:30-44 | after IsClosed answers true or Close ends, no later send is accepted, and an empty buffer means everything was received |
| `SafeChannels.AnswerIsFlag` | lib/util/safe_channel/safe_channel.go:40-44 | in every run the answer of IsClosed is the flag as it was when the lock was taken, and as it still is |
| `SafeChannels.AnswerAfterClose` | lib/util/safe_channel/safe_channel.go:30-44 | an IsClosed that takes the lock after some Close has set the flag answers true |
| `SafeChannels.EnabledIff` | lib/util/safe_channel/safe_channel.go:17-44 | what a thread waits for: the lock, and room in the channel or a receiver; readers do not exclude each other |
| `SafeChannels.NoDeadlock` | lib/util/safe_channel/safe_channel.go:17-44 | in every reachable state each thread inside a call can take its next step, or is sending while the buffer holds something to receive |
| `SafeChannels.SendAlone` | lib/util/safe_channel/safe_channel.go:17-24 | an undisturbed Send on an open channel with room appends its element and gives the lock back |
| `SafeChannels.SendAfterCloseDropped` | lib/util/safe_channel/safe_channel.go:17-24 | an undisturbed Send after the close leaves the whole system as it was |
| `SafeChannels.CloseAlone` | lib/util/safe_channel/safe_channel.go:30-38 | an undisturbed Close shuts the channel, sets the flag and changes nothing else |
| `SafeChannels.CloseAgainAlone` | lib/util/safe_channel/safe_channel.go:30-38 | an undisturbed second Close leaves the whole system as it was |
| `SafeChannels.QueryAlone` | lib/util/safe_channel/safe_channel.go:40-44 | an undisturbed IsClosed answers exactly the flag and leaves the system as it was |
| `Texts.ItoaRoundTrip` | lib/util/flowdesc/ip_filter_rule.go:78-83 | printing a number and reading its digits gives the number |
| `Texts.SplitUndoesJoin` | lib/util/flowdesc/ip_filter_rule.go:378-378 | splitting undoes joining when no part holds the separator |
| `Texts.JoinUndoesSplit` | lib/util/flowdesc/ip_filter_rule.go:378-382 | joining undoes splitting, and no part holds the separator |
| `Texts.FieldsUndoJoin` | lib/util/flowdesc/ip_filter_rule.go:190-196 | splitting at blanks undoes joining tokens with blanks |
| `FlowDescs.PortRangesToString` | lib/util/flowdesc/ip_filter_rule.go:87-100 | the loop prints the elements separated by commas |
| `FlowDescs.ParsePorts` | lib/util/flowdesc/ip_filter_rule.go:374-408 | the loop reads the list, or fails at the first bad element |
| `FlowDescs.PortRoundTrip` | lib/util/flowdesc/ip_filter_rule.go:73-85 | one port or range is read back as printed |
| `FlowDescs.PortsRoundTrip` | lib/util/flowdesc/ip_filter_rule.go:374-408 | a non-empty port list is read back as printed |
| `FlowDescs.ProtoRoundTrip` | lib/util/flowdesc/ip_filter_rule.go:355-365 | every protocol number is read back as printed, `ip` included |
| `FlowDescs.Encode` | lib/util/flowdesc/ip_filter_rule.go:109-191 | builds the text of the rule, or refuses exactly the rules with a bad action, direction or address |
| `FlowDescs.Decode` | lib/util/flowdesc/ip_filter_rule.go:194-292 | the moving pointer over the fields computes the parse |
| `FlowDescs.DecodeUndoesEncode` | lib/util/flowdesc/ip_filter_rule.go:109-292 | for every rule Encode accepts, Decode returns it with canonical addresses, the empty address as `any` |
| `FlowDescs.DecodedRuleIsStable` | lib/util/flowdesc/ip_filter_rule.go:109-292 | what Decode accepts, Encode accepts, and decoding that again gives the same rule |
| `FlowReadings.DecodeReadsIff` | lib/util/flowdesc/ip_filter_rule.go:194-292 | Decode returns a rule if and only if the fields of the text write it: source behind `from`, destination behind `to`, each with its ports |
| `FlowReadings.EncodedFields` | lib/util/flowdesc/ip_filter_rule.go:109-191 | the fields of an encoded text: source behind `from`, destination behind `to`, each with its ports, an empty address as `any` |
| `FlowReadings.EncodeAcceptsIff` | lib/util/flowdesc/ip_filter_rule.go:109-191 | Encode accepts exactly the rules that permit or deny, outwards, between addresses that Decode reads, the empty one aside |
| `FlowReadings.PortsReadIff` | lib/util/flowdesc/ip_filter_rule.go:374-408 | a list of ports is the elements between commas, each read by itself |
| `FlowReadings.SidesApart` | lib/util/flowdesc/ip_filter_rule.go:109-292 | an input: `permit out 17 from assigned 1-2,7 to any 3` is read as that rule and printed from it |
| `FlowDescs.SwapCommutes` | lib/util/flowdesc/ip_filter_rule.go:103-106 | swapping source and destination commutes with a trip through the text |
| `FlowDescs.IPFilterRule.SwapSrcAndDst` | lib/util/flowdesc/ip_filter_rule.go:103-106 | swaps addresses and ports and nothing else |
| `FlowDescs.LawfulExists` | lib/util/flowdesc/ip_filter_rule.go:294-331 | the laws assumed of the address library can be met |
| `FlowReadings.ProtoReadIff` | lib/util/flowdesc/ip_filter_rule.go:355-365 | a protocol other than `ip` is read as the number written if and only if that number is in 0..255, and refused if and only if no number is written |
| `FlowReadings.ProtoWraps` | lib/util/flowdesc/ip_filter_rule.go:359-363 | every number is read as its last eight bits |
| `FlowReadings.ProtoWrapsNegative` | lib/util/flowdesc/ip_filter_rule.go:359-363 | and so is every negative number |
| `FlowReadings.Proto256` | lib/util/flowdesc/ip_filter_rule.go:359-363 | an input: 256 is read as 0 |
| `FlowReadings.WrittenPortIsRead` | lib/util/flowdesc/ip_filter_rule.go:381-404 | every port or range that is written is read as written |
| `FlowReadings.PortReadWholeIff` | lib/util/flowdesc/ip_filter_rule.go:381-404 | what is read of an element is all that is written if and only if it has at most one dash |
| `FlowReadings.ExtraDashesIgnored` | lib/util/flowdesc/ip_filter_rule.go:391-403 | what follows a second dash is never looked at |
| `FlowReadings.TwoDashes` | lib/util/flowdesc/ip_filter_rule.go:391-403 | an input: `1-2-3` is read as 1-2 |
| `FlowReadings.TrailingFieldsIgnored` | lib/util/flowdesc/ip_filter_rule.go:280-292 | fields behind the destination ports never change the result |
| `FlowReadings.DstPortsDroppedIff` | lib/util/flowdesc/ip_filter_rule.go:280-292 | the field of the destination ports is dropped, the rule accepted as without it, if and only if it does not parse; otherwise it gives the ports |
| `FlowReadings.BadPortsDropped` | lib/util/flowdesc/ip_filter_rule.go:286-291 | an input: of `permit out ip from any to any x` the last field is dropped |
| `Milenages.RotIsBitRotation` | lib/util/milenage/milenage.go:31-37 | the byte rotation is the rotation of the 128-bit word by r bits |
| `Milenages.F1` | lib/util/milenage/milenage.go:52-102 | for every cipher MAC-A is the first and MAC-S the second half of OUT1 of section 4.1, given byte by byte |
| `Milenages.F2345` | lib/util/milenage/milenage.go:164-249 | CK is OUT3 and IK is OUT4, AK and RES are the first six and the last eight bytes of OUT2, AK* the first six of OUT5, each given byte by byte; no byte of one block reaches the next |
| `Milenages.GenerateOPc` | lib/util/milenage/milenage.go:523-565 | OPc xor OP is the encryption of OP; wrong lengths are reported |
| `Milenages.GenerateAKAParameters` | lib/util/milenage/milenage.go:275-316 | f1 and f2345 composed; the first parameter of a wrong length is reported; the AUTN generated is accepted by verification, which returns the SQN and the same keys |
| `Milenages.GenerateKeysWithAUTN` | lib/util/milenage/milenage.go:332-376 | an AUTN accepted is the one generated for the SQN and keys returned |
| `Milenages.GenerateAUTS` | lib/util/milenage/milenage.go:435-474 | refused exactly for wrong lengths; the AUTS generated is accepted by validation, which returns SQNms |
| `Milenages.ValidateAUTS` | lib/util/milenage/milenage.go:393-433 | an AUTS accepted is the one generated for the SQNms returned |
| `Milenages.AutnRoundTrip` | lib/util/milenage/milenage.go:275-376 | AUTN has the standard layout, and verifying a generated AUTN returns the SQN and the same keys |
| `Milenages.AutnAcceptedIff` | lib/util/milenage/milenage.go:332-355 | an AUTN is accepted if and only if it is the one generated for the SQN and AMF recovered from it; otherwise MAC-A failure |
| `Milenages.AutnInjective` | lib/util/milenage/milenage.go:275-292 | no two (SQN, AMF) pairs share an AUTN |
| `Milenages.AutsRoundTrip` | lib/util/milenage/milenage.go:393-453 | AUTS has the standard layout, and validating a generated AUTS returns SQNms |
| `Milenages.AutsAcceptedIff` | lib/util/milenage/milenage.go:393-412 | an AUTS is accepted if and only if it is the one generated for the SQNms it carries; otherwise MAC-S failure |
| `Checksums.ComputeChecksum` | test/rawudp.go:43-67 | both loops end; the result is the wrapped, folded and complemented word sum, and never zero |
| `Checksums.FoldIs` | test/rawudp.go:52-54 | folding is reduction modulo 0xffff to 1..0xffff, and zero only for zero |
| `Checksums.WordSumIs` | test/rawudp.go:46-51 | the words summed are big-endian, an odd last byte being the upper half of its word |
| `Checksums.ChecksumVerifiesIff` | test/rawudp.go:43-67 | words plus checksum fold to all ones if and only if the overflow count is a multiple of 0xffff, for every buffer |
| `Checksums.ShortBuffersVerify` | test/rawudp.go:44-51 | up to 131074 bytes nothing overflows and the checksum verifies |
| `Checksums.LongerBuffersMayFail` | test/rawudp.go:44-51 | at every greater length some buffer overflows and its checksum does not verify |
| `Checksums.AlwaysVerifiesIff` | test/rawudp.go:43-67 | every buffer of length n verifies if and only if n <= 131074 |
| `Checksums.FilledFieldVerifies` | test/rawudp.go:69-102 | writing the checksum into a zero field at an even offset makes the buffer verify exactly when the overflows cancel, and always up to 131074 bytes |
| `Checksums.IpHeader.SetChecksum` | test/rawudp.go:69-77 | the header bytes verify afterwards |
| `Checksums.UdpHeader.SetChecksum` | test/rawudp.go:79-102 | pseudo header, header and payload verify afterwards exactly when the overflows cancel, and always up to 131054 bytes of payload |
| `Checksums.WordAfterVerified` | test/rawudp.go:43-67 | a verifying buffer followed by one more word verifies if and only if that word is 0 or 0xffff |
| `Checksums.BuildRawUdpIp` | test/rawudp.go:104-164 | refuses exactly what does not fit; where every field of a packet stands; both checksums verify on that layout; read with the header length stated in the packet the header verifies if and only if the source port is 0 or 0xffff; the length field is two more than the packet |
| `Fsms.NewFSM` | lib/util/fsm/fsm.go:62-101 | succeeds if and only if no (event, from) pair repeats and every callback state occurs in a transition; the table holds exactly the transitions |
| `Fsms.TableMoves` | lib/util/fsm/fsm.go:62-80 | the table takes every listed transition from its `from` to its `to` and has no move for any other event |
| `Fsms.SendEvent` | lib/util/fsm/fsm.go:108-143 | state, callbacks and outcome of one event, a missing callback included |
| `Fsms.StepFollowsTable` | lib/util/fsm/fsm.go:108-143 | with complete, inert callbacks an event moves as the table says and an unknown one changes nothing |
| `Fsms.RunFollowsTable` | lib/util/fsm/fsm.go:108-143 | every run ends in the fold of the table, never lacks a callback, and its Exit and Entry callbacks alternate along the states visited |
| `Fsms.CompleteIff` | lib/util/fsm/fsm.go:108-143 | no event in any state meets a missing callback if and only if every state of the table has one |
| `Fsms.FollowsTableIff` | lib/util/fsm/fsm.go:108-143 | every event follows the table without a missing callback if and only if every state has a callback and the callbacks are inert where it matters |
| `Topologies.BuildNeighbours` | myScripts/tracker.py:88-102 | the double loop joins exactly the touching cells, both ways |
| `Topologies.BuildTaiNeighbours` | myScripts/tracker.py:104-112 | the tracking-area graph is the quotient of cell adjacency |
| `Topologies.Topology.Build` | myScripts/tracker.py:73-112 | both graphs of a new topology |
| `Topologies.Topology.TaiHops` | myScripts/tracker.py:114-127 | terminates with the length of a shortest path, or None exactly when there is none |
| `Topologies.Expand` | myScripts/tracker.py:120-126 | one turn of the search keeps the search invariant, or has found a shortest path |
| `Topologies.WalkCrossesFrontier` | myScripts/tracker.py:118-126 | a walk to an unseen vertex passes a seen, unexpanded one, hence is longer than the front of the queue |
| `Topologies.WalkProjects` | myScripts/tracker.py:104-112 | a walk through cells projects to a walk through tracking areas, one hop per change |
| `Topologies.HopsBoundCellWalks` | myScripts/tracker.py:104-127 | every walk through neighbouring cells changes tracking area at least as often as the hop count |
| `Topologies.WalkLifts` | myScripts/tracker.py:104-112 | with connected areas a walk through tracking areas lifts to one through cells with one change per hop |
| `Topologies.HopsAttainedIff` | myScripts/tracker.py:104-127 | the hop count between any two cells is attained by a walk through cells if and only if any two cells of one tracking area are joined by a walk inside it |
| `Topologies.HopsMayHaveNoCellWalk` | myScripts/tracker.py:104-127 | a topology with a disconnected area: a hop count of two and no connecting walk through cells |
| `Patterns.PositionMatches` | myScripts/tracker.py:215-234 | position k means the last k tracking areas are the first k pattern elements |
| `Patterns.LongestWhenFirstOnce` | myScripts/tracker.py:215-234 | with a unique first element no longer match exists |
| `Patterns.FallsShort` | myScripts/tracker.py:229-232 | with a recurring first element some history has a longer match, without immediate repeats if the pattern has none |
| `Patterns.LongestIff` | myScripts/tracker.py:215-234 | the position is the longest match on all histories if and only if the first element occurs once |
| `Patterns.LongestOnReportsIff` | myScripts/tracker.py:215-234 | on all histories without immediate repeats if and only if the first element occurs once in the longest prefix of the pattern without immediate repeats |
| `Patterns.DisagreementMissed` | myScripts/tracker.py:229-232 | where the first element recurs and what follows is not a copy of the pattern, the overlapping history never stands at k |
| `Patterns.ReachedWhenContainedIff` | myScripts/tracker.py:215-234 | every history without immediate repeats that contains the first k elements in a row has stood at position k, if and only if every recurrence of the first element among them starts a copy of the pattern that runs to k |
| `Patterns.FirstOnceAgrees` | myScripts/tracker.py:215-234 | a first element that occurs once in the longest prefix without immediate repeats is enough |
| `Patterns.OverlapMissed` | myScripts/tracker.py:229-232 | the history 1, 2, 1, 2, 1, 2, 3 ends with the first five elements of 1, 2, 1, 2, 3, 9 and never stands at position five |
| `Trackers.Tracker.AdvancePattern` | myScripts/tracker.py:215-234 | for every history the old position stands for, the new one is the position of that history with the area added, whose last areas are the first ones of the pattern |
| `Trackers.Tracker.Report` | myScripts/tracker.py:269-309 | the new record of a UE and whether it has to be notified now |
| `Trackers.ObserveKeepsUeOk` | myScripts/tracker.py:262-309 | after every report history, position and flags of a UE say what its served cells say, and the level what its position says; at position 0 it is cleared exactly if the UE once matched something |
| `Trackers.Tracker.OnLocationPattern` | myScripts/tracker.py:262-309 | the new records and notification list; unknown cells change nothing; the list only grows, has no repeats and holds exactly the alerted UEs |
| `Trackers.CompletionFindsAlert` | myScripts/tracker.py:284-295 | the report that completes a pattern of at least two elements finds the UE one before the end and already alerted |
| `Trackers.NotifiedBeforeCompletion` | myScripts/tracker.py:284-295 | in every run of reports about any UEs, a UE is already on the notification list at the report that completes its pattern |
| `Trackers.OneElementNotNotified` | myScripts/tracker.py:284-295 | with one element the first report in its area completes the pattern without notification, for every topology and cell |
| `Trackers.NotifiedIffTwoElements` | myScripts/tracker.py:551-552 | the reason for refusing shorter patterns: completion implies notification for all topologies and reports if and only if the pattern has at least two elements |
| `Trackers.NotifiedIffContained` | myScripts/tracker.py:284-295 | a UE is notified only if its history contains all but the last element in a row, and if and only if when the overlaps agree; likewise completion and the whole pattern |
| `Trackers.RepeatNeverCompletes` | myScripts/tracker.py:269-287 | a pattern with an immediate repeat is never completed |
| `Trackers.RecordIsReports` | myScripts/tracker.py:262-309 | for every sequence of reports the history is the reports, and the tracking areas those of the reports, without immediate repeats |
| `Trackers.RecordInRun` | myScripts/tracker.py:208-309 | in every run the record of a UE depends on the reports about it alone |
| `Trackers.ReportsDecide` | myScripts/tracker.py:262-309 | in every run of reports about any UEs, a UE is on the notification list if and only if the areas it was reported in, repeats dropped, contain the pattern without its last element, when the overlaps agree; likewise completion |
| `Trackers.NotificationExactIff` | myScripts/tracker.py:262-309 | that holds for all topologies and reports if and only if the overlaps agree: every recurrence of the first element starts a copy of the pattern that runs to the end of the part in question |
| `Trackers.UeMissed` | myScripts/tracker.py:262-309 | a pattern and reports that contain all but its last element in a row, and the UE is not notified |

## Left out

- Machine integers of the pools: the model uses unbounded integers for 64-bit `int`; nothing wraps as long as `first - 1`, `last + 1` and `last - first + 1` fit.
- IdGenerators.IDGenerator.Allocate: 64-bit overflow of the range size is not modelled.
- LazyReusePools.LazyReusePool.Reserve: modelled as one uninterrupted call like the locked operations, although the code takes no lock in Reserve, Remain and Dump.
- IpPools.IPPool.Allocate: like the code it reads only the first four bytes of a request, so IPv6 addresses are not modelled.
- net.ParseCIDR and net.ParseIP: arbitrary functions in FlowDescs that obey the laws of `FlowDescs.Lawful`; for IPPool the address bytes and the prefix length of a parsed subnet are the input.
- FlowDescs.Encode: error messages are not modelled, and a nil port list is the empty list; the lower-case mapping beyond ASCII is an arbitrary function.
- AES: an arbitrary function from keys and blocks to 16-byte blocks; HMAC, SHA and the hexadecimal wrappers are not modelled.
- Milenage slice aliasing: byte sequences are values, so that `append` may share a backing array is not captured.
- SafeChannels.NoPanicNoLoss: safety only; a sender blocked on a full channel holds the read lock, so Close may wait forever. A waiting writer does not block new readers here, which only adds interleavings.
- Fsms.SendEvent: a callback may write the state but not send further events; the metric function and logging are not modelled.
- Checksums.BuildRawUdpIp: the byte swap for macOS hosts and what the kernel overwrites in the header are not modelled, and addresses are given as four bytes.
- Topologies.BuildNeighbours: the great-circle distance test is an arbitrary symmetric relation; reading the CSV file is not modelled.
- Tracker predictor mode, bearings and scores: floating-point heuristics.
- Trackers.Tracker.OnLocationPattern: CSV rows, console output and the state file are not modelled.
- lib/util/pfcp, lib/util/validator, lib/util/version, lib/util/mapstruct: one parser or pattern each, only easy members.
- lib/util/logger, lib/util/metrics, lib/util/httpwrapper, lib/util/mongoapi and the drivers under test/: input/output and thin wrappers.
