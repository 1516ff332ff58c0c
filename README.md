# omnitalk core, modelled and proved in Dafny

omnitalk is an AppleTalk router for the ESP32. It joins LocalTalk (through a TashTalk serial
adapter), EtherTalk and UDP tunnels, and it answers the router-side protocols: RTMP, ZIP, NBP
lookups, AEP echo and SIP. This project models its protocol and table logic, which runs
underneath the FreeRTOS tasks and drivers. It also models the Go tool that generates the
Mac Roman to UTF-8 lookup table used by the web interface.

One Dafny module stands for each source file, or for a pair of tightly coupled files:

- **MacRomanLut** models `tools/macroman/makeMacRomanLUT.go`:
  - the tokeniser, `escapedString`, the 256-entry table and the two printed C arrays;
  - read-back lemmas showing that the printed arrays give back the table.
- **MacRoman**, **PString** and **UrlDecode** model the string utilities.
- **Routes**, **RouteTable**, **ZipTable**, **AarpTable**, **Registry** and **Event** model the
  router's tables and the callback list.
  - Each linked list with a dummy head becomes a class holding a `seq` of records, whose
    methods mirror the `_unguarded` bodies.
  - Each is proved against a specification function on values.
- **TashTalk** models the receive state machine, byte by byte.
- **Atp**, **Ddp**, **Rtmp**, **Nbp**, **ZipProto** and **Ethernet** model the wire formats:
  field accessors, bounded tuple walkers and frame classification.
- **DdpSend**, **Aep**, **Sip**, **ZipApp**, **ZipZoneList** and **ZipNetInfo** model the
  protocol handlers.
  - Each handler is a method over a `Buffer` (the packet buffer) and an `Outbox`, which records
    every packet handed to DDP or to a LAP (link access protocol, the link layer), in order.
  - Each handler's `ensures` equates what it sends with a specification function of the
    request and the table view.
- The supporting modules have no source file of their own:
  - **Bytes**: bytes, 16-bit big-endian values, Pascal strings and C strings;
  - **Buffers**: the packet buffer;
  - **Laps**: the LAP record;
  - **Outbox**: the record of sent packets;
  - **ZoneView**: what the ZIP handlers read from the ZIP table.

Throughout, a byte is an integer in 0..255 and `u16` an integer in 0..65535. Big-endian
(network order) 16-bit fields are written out explicitly. A Pascal string (`pstring`) is at
most 255 bytes, and a C string is a byte sequence that contains a NUL.

## Model

| member | source | states |
|---|---|---|
| MacRomanLut.Tokenize | tools/macroman/makeMacRomanLUT.go:25-41 | the tokeniser loop yields exactly `Tokens(bs)`: maximal runs of bytes other than 9, 10 and 13, a final run without delimiter included |
| MacRomanLut.TokensWellFormed | tools/macroman/makeMacRomanLUT.go:28-41 | no token is empty and no token holds a separator |
| MacRomanLut.TokensCoverInput | tools/macroman/makeMacRomanLUT.go:28-41 | the tokens concatenate, in order, to the input with its separators removed: nothing lost or reordered |
| MacRomanLut.TokensOfLines | tools/macroman/makeMacRomanLUT.go:28-41 | a file of well-formed tokens one per line tokenises back to exactly those tokens |
| MacRomanLut.EscapedString | tools/macroman/makeMacRomanLUT.go:11-17 | the loop builds the `\xHH` escape of every byte in order |
| MacRomanLut.EscapedLength | tools/macroman/makeMacRomanLUT.go:11-17 | an escape is four characters per byte |
| MacRomanLut.CompileEscaped | tools/macroman/makeMacRomanLUT.go:11-17 | a C compiler reading the escaped literal gets back the original bytes, so distinct inputs give distinct escapes |
| MacRomanLut.EscapedAlphabet | tools/macroman/makeMacRomanLUT.go:11-17 | an escape never holds a quote, comma or white space, so it can sit in a printed literal |
| MacRomanLut.BuildTable | tools/macroman/makeMacRomanLUT.go:48-71 | the string and length arrays are `Charmap`/`Charlengths`: codes 0-31 and 127 are U+FFFD (EF BF BD, length 3), 32-126 themselves (length 1), 128+k token k with its byte count |
| MacRomanLut.GeneratedEntries | tools/macroman/makeMacRomanLUT.go:52-79 | with 128 tokens both arrays have 256 entries, and each length is the number of bytes its string entry compiles to, a quarter of its text |
| MacRomanLut.PrintCharmap | tools/macroman/makeMacRomanLUT.go:84-95 | the printed string array is `CharmapRows`: the width grows by entry length + 4 and a line break follows once it reaches 55, then it resets |
| MacRomanLut.PrintLengths | tools/macroman/makeMacRomanLUT.go:97-104 | the printed length array is `LengthRows`: a line break follows entry i exactly when i != 0 and i % 20 == 0 |
| MacRomanLut.Generate | tools/macroman/makeMacRomanLUT.go:19-105 | a token count other than 128 is the fatal error with that count, before any output; otherwise the output is the whole C file `HeaderText` |
| MacRomanLut.CharmapReadsBack | tools/macroman/makeMacRomanLUT.go:84-95 | the string literals of the printed array are exactly the table's entries, whatever the line breaks |
| MacRomanLut.CharmapRowsRead | tools/macroman/makeMacRomanLUT.go:86-93 | any quote-free entries printed by the wrapping rule read back as themselves |
| MacRomanLut.LengthRowsRead | tools/macroman/makeMacRomanLUT.go:98-103 | the numbers of the printed length array are exactly the lengths |
| MacRoman.NumCorrespondingUtf8Chars | omnitalk/main/util/macroman.c:8-14 | the loop sums the length array over the first `buf_size` bytes, each read as 0..255 |
| MacRoman.PStringUtf8Length | omnitalk/main/util/macroman.c:16-18 | reads exactly the string's `length` bytes |
| MacRoman.CStringUtf8Length | omnitalk/main/util/macroman.c:20-22 | reads the bytes before the first NUL |
| MacRoman.Stpcpy | omnitalk/main/util/macroman.c:33 | copies the table string and its NUL at the cursor, leaves the bytes before it alone, and returns the position of the NUL |
| MacRoman.PStringToUtf8CStringAlloc | omnitalk/main/util/macroman.c:24-38 | allocation failure gives NULL; otherwise the result is the in-order concatenation of the table strings for the bytes, with the NUL at the computed length |
| MacRoman.ToUtf8Length | omnitalk/main/util/macroman.c:8-38 | for consistent tables the computed length is the length of the conversion |
| MacRoman.ToUtf8HasNoNul | omnitalk/main/util/macroman.c:31-36 | the conversion holds no NUL, so the terminator is the first one |
| MacRoman.GeneratedTablesValid | omnitalk/main/util/macroman.c:11-33 | the generator's arrays are consistent tables whenever no token holds a NUL |
| MacRoman.PrintableAsciiUnchanged | omnitalk/main/util/macroman_test.c:11-18 | with the generated table, printable ASCII converts to itself with length equal to its size (so "deffed" has length 6) |
| MacRoman.ControlCodesAndLastCode | omnitalk/main/util/macroman_test.c:10-21 | bytes 01 02 03 FF convert to three EF BF BD then CB 87, and "\x01\x02\x03ab" has UTF-8 length 11 |
| PString.MacUc | omnitalk/main/util/pstring.c:8-44 | 'a'-'z' lose 32, each of the thirteen listed Mac Roman lower-case bytes maps to its partner, every other byte is unchanged |
| PString.MacUcIdempotent | omnitalk/main/util/pstring.c:8-44 | upper-casing twice is upper-casing once |
| PString.PStringEqCString | omnitalk/main/util/pstring.c:52-58 | true iff the C string's text is exactly the Pascal string |
| PString.PStringEqCStringMacCi | omnitalk/main/util/pstring.c:60-72 | true iff the lengths agree and `mac_uc` agrees at every position |
| PString.ExactImpliesMacCaseEqual | omnitalk/main/util/pstring.c:52-72 | exact equality implies case-insensitive equality |
| PString.MacCaseEqualIsEquivalence | omnitalk/main/util/pstring.c:60-72 | case-insensitive equality is reflexive, symmetric and transitive |
| PString.MacCaseEqualIffUpcasedEqual | omnitalk/main/util/pstring.c:60-72 | case-insensitive equality is equality of the upper-cased strings |
| PString.PStringToCStringAlloc | omnitalk/main/util/pstring.c:74-82 | NULL on allocation failure; otherwise the bytes followed by a NUL |
| PString.CStringRoundTrip | omnitalk/main/util/pstring_test.c:9-14 | the copy compares equal to the original exactly when the original has no zero byte |
| UrlDecode.Nibble | omnitalk/main/web/util.c:12-22 | the digit conversion gives the hexadecimal value of a digit of either case |
| UrlDecode.Step | omnitalk/main/web/util.c:9-31 | `%HH` gives 16*hi+lo and consumes three bytes, `+` gives a space, any other byte (a `%` without two hex digits too) is copied; every step consumes at least one byte |
| UrlDecode.UrlNDecode | omnitalk/main/web/util.c:5-38 | the loop writes `Written`: the decoded text up to the source NUL and the budget for `len`, then a NUL |
| UrlDecode.WrittenFitsFromTwo | omnitalk/main/web/util.c:32-37 | for len >= 2 at most len-1 bytes are decoded, so the output and its NUL fit in len bytes |
| UrlDecode.DecodeEncode | omnitalk/main/web/util.c:9-31 | decoding undoes form encoding (space as `+`, any byte as `%HH`) for every byte string |
| UrlDecode.PlainTextUnchanged | omnitalk/main/web/util.c:29-31 | text without `%` or `+` decodes to itself |
| UrlDecode.OneByteBufferOverrun | omnitalk/main/web/util.c:32-37 | as written: a one-byte destination receives two bytes |
| UrlDecode.ZeroByteBufferOverrun | omnitalk/main/web/util.c:32-37 | as written: with len 0 the budget is unbounded and at least the NUL is written |
| UrlDecode.UrlNDecodeBounded | omnitalk/main/web/util.c:5-38 | corrected: never more than len bytes, nothing for len 0, otherwise the decoded prefix of at most len-1 bytes and a NUL |
| UrlDecode.BoundedAgreesFromTwo | omnitalk/main/web/util.c:32-37 | for len >= 2 the corrected decoder writes what the original does |
| Routes.RoutesEqual | omnitalk/main/table/routing/route.h:22-29 | true iff range start and end, outbound LAP, nexthop network and node, and distance all agree (the whole route) |
| Routes.RoutesMatch | omnitalk/main/table/routing/route.h:34-40 | the same fields but not distance |
| Routes.MatchLaws | omnitalk/main/table/routing/route.h:22-40 | match is an equivalence, and equal iff match with equal distance |
| RouteTable.RoutingTable.constructor | omnitalk/main/table/routing/table_impl.c:16-23 | a new table holds only its dummy head: no routes |
| RouteTable.RoutingTable.Touch | omnitalk/main/table/routing/table_impl.c:26-110 | the routes become `Touched(old, r, now)`: the first walk, then a new node inserted by distance when no equal route was found |
| RouteTable.RoutingTable.TouchDirect | omnitalk/main/table/routing/table_impl.c:118-129 | touches the route through the LAP with nexthop 0.0 and distance 0 |
| RouteTable.RoutingTable.Lookup | omnitalk/main/table/routing/table_impl.c:131-145 | the first non-dummy route in list order whose range holds the network, or none |
| RouteTable.RoutingTable.Prune | omnitalk/main/table/routing/table_impl.c:158-232 | the routes become `Pruned(old)`: the kept routes, then the demoted ones grafted at the tail |
| RouteTable.ScanWalk | omnitalk/main/table/routing/table_impl.c:29-70 | the first loop of touch computes `Scan`: an equal route is refreshed and stops the walk, matching routes before it are unlinked |
| RouteTable.InsertWalk | omnitalk/main/table/routing/table_impl.c:88-109 | the second loop links the new node in before the first node further away |
| RouteTable.PruneWalk | omnitalk/main/table/routing/table_impl.c:165-227 | the walk keeps direct routes, makes good ones suspect, drops bad ones, and sets suspect ones aside as bad at distance 31 in order |
| RouteTable.ScanStep | omnitalk/main/table/routing/table_impl.c:39-64 | one step of the first walk: refresh and stop at an equal route, unlink a matching one, step past any other |
| RouteTable.PruneStep | omnitalk/main/table/routing/table_impl.c:179-217 | one step of the prune walk, case by case on the status |
| RouteTable.TouchedNoDummies | omnitalk/main/table/routing/table_impl.c:73-75 | touch never adds a node that looks like the head |
| RouteTable.TouchedSorted | omnitalk/main/table/routing/table_impl.c:88-109 | touch keeps the list in non-decreasing distance order |
| RouteTable.TouchedDistinct | omnitalk/main/table/routing/table_impl.c:48-60 | touch keeps every route unique up to distance: no two entries match |
| RouteTable.ScanNotFoundRemovesMatches | omnitalk/main/table/routing/table_impl.c:48-60 | when no equal route is found, every matching route has been removed |
| RouteTable.ScanFoundRefreshes | omnitalk/main/table/routing/table_impl.c:30-62 | the route found is the first equal one, refreshed in place: matching routes before it are unlinked, it takes the new timestamp, its status becomes Good unless the distance is 31 (a former Direct route included) and is otherwise kept, and the nodes after it are unchanged |
| RouteTable.ScanPassesUnequal | omnitalk/main/table/routing/table_impl.c:39-62 | past a route that is not equal, the first equal route is one place further into the table |
| RouteTable.KeptBeforeRefreshed | omnitalk/main/table/routing/table_impl.c:39-62 | a route kept before the refreshed one moves it one place further into the result |
| RouteTable.ScanLength | omnitalk/main/table/routing/table_impl.c:33-65 | in a table without matching pairs the walk keeps the size when it finds the route and drops the one match otherwise |
| RouteTable.TouchedLength | omnitalk/main/table/routing/table_impl.c:26-110 | touching adds one node exactly when no route matches, and otherwise leaves the count unchanged |
| RouteTable.InsertLength | omnitalk/main/table/routing/table_impl.c:88-109 | the insertion adds exactly one node |
| RouteTable.TouchedHoldsRoute | omnitalk/main/table/routing/table_impl.c:39-76 | after a touch the route is in the table with the touch's timestamp |
| RouteTable.NewRouteStatus | omnitalk/main/table/routing/table_impl.c:73-86 | a route equal to none in the table is inserted as a new node stamped with the touch time: direct at distance 0, bad at 31, good otherwise |
| RouteTable.FirstCoveringIsEntry | omnitalk/main/table/routing/table_impl.c:131-145 | the route lookup returns is one of the table's own routes |
| RouteTable.FirstCoveringComplete | omnitalk/main/table/routing/table_impl.c:131-145 | lookup succeeds iff some route covers the network, and the route it returns covers it |
| RouteTable.FirstCoveringNearest | omnitalk/main/table/routing/table_test.c:38-74 | in a distance-ordered table lookup returns a route no farther than any covering route, so direct routes and closer routes win |
| RouteTable.DirectRoutesSurvivePrune | omnitalk/main/table/routing/table_impl.c:180-182 | pruning never drops, changes or reorders a direct route |
| RouteTable.KeptStatuses | omnitalk/main/table/routing/table_impl.c:179-217 | the routes kept in place are direct or suspect |
| RouteTable.DemotedStatuses | omnitalk/main/table/routing/table_impl.c:183-206 | the demoted routes are bad at distance 31 |
| RouteTable.ThreePrunesLeaveOnlyDirect | omnitalk/main/table/routing/table_impl.c:158-232 | after three prunes without touches only direct routes are left |
| RouteTable.PrunedSorted | omnitalk/main/table/routing/table_impl.c:158-232 | pruning keeps the distance order (for distances up to 31) and never grows the table |
| ZipTable.NewNet | omnitalk/main/table/zip/table_impl.c:53-56 | a new range node has the range, no zones, zero counts and is not complete |
| ZipTable.ZipTable.constructor | omnitalk/main/table/zip/table_impl.c:9-17 | a new table holds only its dummy root |
| ZipTable.ZipTable.AddNetRange | omnitalk/main/table/zip/table_impl.c:33-62 | the ranges become `AddRange(old, start, end)` and the result is its verdict |
| ZipTable.AddRangeFindsSame | omnitalk/main/table/zip/table_impl.c:42-45 | meeting the same range stops the walk: false, list unchanged |
| ZipTable.AddRangeInsertsAt | omnitalk/main/table/zip/table_impl.c:47-59 | a walk that ends, or stops before a strictly larger start, inserts the new node there |
| ZipTable.AddRangeShape | omnitalk/main/table/zip/table_impl.c:33-62 | a refusal changes nothing and names a range already present; an addition inserts exactly one new node |
| ZipTable.AddRangeSorted | omnitalk/main/table/zip/table_impl.c:47-59 | the list stays sorted by non-decreasing start network |
| ZipTable.AddRangeRefusedIffPresent | omnitalk/main/table/zip/table_impl.c:37-51 | on a sorted list adding is refused exactly when the range is already present |
| ZipTable.AddRangeUnique | omnitalk/main/table/zip/table_impl.c:33-62 | on a sorted list without repeats, adding never repeats a range |
| ZipTable.AddRangeFindsPresent | omnitalk/main/table/zip/table_impl.c:37-51 | on a sorted list holding the range, adding it is refused |
| ZipTable.AddRangeUniqueWhenAbsent | omnitalk/main/table/zip/table_impl.c:33-62 | adding an absent range to a list without repeats keeps it without repeats |
| ZipTable.AddRangeNoDummies | omnitalk/main/table/zip/table_impl.c:37-56 | the root stays the only dummy and is skipped |
| ZipTable.AddRangeScenario | omnitalk/main/table/zip/table_test.c:6-36 | the test's sequence of additions gives the verdicts it expects and sizes 1, 1, 2, 2, 3, 3 |
| ZipTable.ZipTable.CountNetRanges | omnitalk/main/table/zip/table_impl.c:19-31 | as written: the walk starts at the root, so the count is one more than the number of ranges |
| ZipTable.CountOfNewTable | omnitalk/main/table/zip/table_test.c:10 | as written: a new table counts 1, where the test expects 0 |
| ZipTable.ZipTable.CountNetRangesSkippingRoot | omnitalk/main/table/zip/table_impl.c:19-31 | corrected: the count is the number of ranges |
| ZipTable.CorrectedCountOfNewTable | omnitalk/main/table/zip/table_test.c:10 | corrected: a new table counts 0 |
| AarpTable.CountListEntries | omnitalk/main/table/aarp/table.c:21-29 | the loop counts the valid nodes of a list |
| AarpTable.TouchInList | omnitalk/main/table/aarp/table.c:44-75 | the loop computes `TouchList`: every valid node for the address gets the new hardware address and timestamp, and an unseen address is appended at the tail |
| AarpTable.LookupInList | omnitalk/main/table/aarp/table.c:93-110 | found iff a valid node holds the address; `out` then holds the last such node's hardware address, and is unwritten otherwise |
| AarpTable.LookupListNoneIff | omnitalk/main/table/aarp/table.c:93-110 | the lookup finds nothing exactly when no valid node holds the address |
| AarpTable.LookupRefreshed | omnitalk/main/table/aarp/table.c:44-110 | after refreshing an address already present, looking it up gives the new hardware address |
| AarpTable.LookupRefreshedOther | omnitalk/main/table/aarp/table.c:44-110 | refreshing one address leaves the lookup of every other address as it was |
| AarpTable.AarpTable.Bucket | omnitalk/main/table/aarp/table.c:82-113 | a node's bucket is `node % AARP_TABLE_BUCKETS` |
| AarpTable.AarpTable.constructor | omnitalk/main/table/aarp/table.c:12-18 | a new table: every bucket is an invalid zero-filled head |
| AarpTable.AarpTable.EntryCount | omnitalk/main/table/aarp/table.c:31-42 | the sum over the buckets of their valid nodes |
| AarpTable.AarpTable.Touch | omnitalk/main/table/aarp/table.c:77-85 | only the node's bucket changes, and it becomes `TouchList` of the old bucket; each bucket stays well formed |
| AarpTable.AarpTable.Lookup | omnitalk/main/table/aarp/table.c:112-116 | looks up in the node's bucket only |
| AarpTable.TouchListCount | omnitalk/main/table/aarp/table_test.c:39-51 | a touch adds one entry for an unseen address and keeps the count for a known one |
| AarpTable.TableTouchCount | omnitalk/main/table/aarp/table.c:31-85 | touching the table raises the entry count by one for an unseen address and keeps it otherwise |
| AarpTable.EmptyTableCount | omnitalk/main/table/aarp/table_test.c:31-36 | a table of lone heads counts no entries |
| AarpTable.LookupFindsExactlyPresent | omnitalk/main/table/aarp/table.c:93-110 | a lookup succeeds exactly when the list holds a valid node for the address |
| AarpTable.TouchThenLookup | omnitalk/main/table/aarp/table_test.c:71-79 | after touch(net, node, h), lookup(net, node) yields h |
| AarpTable.TouchLeavesOthers | omnitalk/main/table/aarp/table.c:44-75 | touching one address leaves every other address's lookup unchanged |
| AarpTable.TouchListWellFormed | omnitalk/main/table/aarp/table.c:44-75 | touch keeps a bucket well formed: head first and invalid, every valid node hashed there, at most one valid node per address |
| AarpTable.SmallNodesSpread | omnitalk/main/table/aarp/table_test.c:54-64 | with at least three buckets nodes 1, 2 and 3 go to different buckets, each then counting an entry |
| Registry.LapRegistry.constructor | omnitalk/main/lap/registry.c:12-19 | no LAP registered, an empty list behind the root, no zone cached |
| Registry.LapRegistry.LapCount | omnitalk/main/lap/registry.c:21-33 | the number of nodes behind the root |
| Registry.LapRegistry.Register | omnitalk/main/lap/registry.c:44-81 | sets bit `id` of `registered_laps`, and the list becomes `Registered(old, lap)` |
| Registry.ScanForInsertion | omnitalk/main/lap/registry.c:56-68 | the walk stops at the end or at the first LAP of strictly lower quality, having passed only LAPs of at least the new quality, and reports whether the LAP was met |
| Registry.RegisteredWhenMetFirst | omnitalk/main/lap/registry.c:56-68 | a LAP already in the list, with only LAPs of at least its quality before it, is not registered again: the list is unchanged |
| Registry.RegisteredInsertsAt | omnitalk/main/lap/registry.c:70-76 | a LAP not met is linked in where the walk stopped |
| Registry.RegisterPresent | omnitalk/main/lap/registry.c:61-70 | on a list in quality order, registering a LAP already present adds no node |
| Registry.RegisterNew | omnitalk/main/lap/registry.c:56-76 | a new LAP is inserted once, after every LAP of at least its quality and before every LAP of lower quality (ties keep registration order) |
| Registry.RegisteredByQuality | omnitalk/main/lap/registry.c:56-76 | registration keeps the list in non-increasing quality order |
| Registry.LapRegistry.HighestQualityLap | omnitalk/main/lap/registry.c:83-96 | the first node's LAP, or NULL for an empty list |
| Registry.FirstIsBest | omnitalk/main/lap/registry.c:83-96 | on a list in quality order the first LAP has the highest quality |
| Registry.RegistrationScenario | omnitalk/main/lap/registry_test.c:14-27 | registering qualities 2, 1 then 3 gives [2, 1] and then [3, 2, 1] |
| Registry.LapRegistry.UpdateZoneCache | omnitalk/main/lap/registry.c:98-127 | the cache takes the zone of the first LAP that has one, and is unchanged if none does |
| Registry.FirstZoneIsFirst | omnitalk/main/lap/registry.c:106-114 | that zone belongs to a LAP before which no LAP has a zone |
| Registry.LapRegistry.GetBestAddress | omnitalk/main/lap/registry.c:129-149 | found iff some LAP has non-zero address and network; the outputs then come from the first such LAP, and are unwritten otherwise |
| Registry.FirstAddressIsFirst | omnitalk/main/lap/registry.c:135-145 | that address belongs to a LAP before which none has both a node and a network |
| Event.Event.constructor | omnitalk/main/util/event/event.h:5-12 | a zero-initialised event has no callbacks |
| Event.Event.AddCallback | omnitalk/main/util/event/event.c:3-11 | succeeds iff fewer than 5 callbacks are registered; the callback is then stored at index `callback_count` and the count grows by one; a refusal changes nothing |
| Event.Event.Fire | omnitalk/main/util/event/event.c:13-17 | every registered callback is called once, in registration order |
| Event.FoldCallsSnoc | omnitalk/main/util/event/event.c:13-17 | firing one more callback applies it after all the earlier ones |
| Event.FillFreshEvent | omnitalk/main/util/event/event_test.c:24-29 | a fresh event takes exactly five callbacks, and the sixth is refused |
| Event.FireFourBits | omnitalk/main/util/event/event_test.c:38-44 | callbacks setting bits 1, 2, 4 and 8, fired on 0, leave 15 |
| TashTalk.TashTalkRx.constructor | omnitalk/main/net/tashtalk/state_machine.c:19-29 | a zero-filled state: not sending to the queue, no frame in progress, not in an escape |
| TashTalk.TashTalkRx.Append | omnitalk/main/net/tashtalk/state_machine.c:31-39 | the byte joins the frame while it is under capacity, and is counted as an overflow otherwise |
| TashTalk.TashTalkRx.HandlePacket | omnitalk/main/net/tashtalk/state_machine.c:41-75 | the state becomes `Deliver(old)`: the frame is forwarded without its CRC or dropped and counted, and the buffer is released |
| TashTalk.DeliverForwards | omnitalk/main/net/tashtalk/state_machine.c:44-72 | a frame is forwarded, minus its last two bytes, exactly when sending is on, it is longer than 2 bytes, it is not a 3-byte RTS (0x84) or CTS (0x85) and the queue has room |
| TashTalk.TashTalkRx.Feed | omnitalk/main/net/tashtalk/state_machine.c:77-133 | the state becomes `Step(old, b)` |
| TashTalk.TashTalkRx.FeedAll | omnitalk/main/net/tashtalk/state_machine.c:135-139 | the state becomes `StepAll(old, buf)`: the bytes fed one at a time, in order |
| TashTalk.StepAllAppend | omnitalk/main/net/tashtalk/state_machine.c:135-139 | feeding a+b is feeding a and then b |
| TashTalk.StepFits | omnitalk/main/net/tashtalk/state_machine.c:31-39 | a frame never grows beyond the buffer's capacity |
| TashTalk.PlainByte | omnitalk/main/net/tashtalk/state_machine.c:129-132 | outside an escape a non-zero byte joins the frame (if there is room) and the CRC input |
| TashTalk.ZeroOpensEscape | omnitalk/main/net/tashtalk/state_machine.c:127-128 | a zero outside an escape only opens the escape |
| TashTalk.EscapedZero | omnitalk/main/net/tashtalk/state_machine.c:88-92 | 0x00 0xFF puts a literal zero into the frame and the CRC input |
| TashTalk.EscapeEndsAfterOneByte | omnitalk/main/net/tashtalk/state_machine.c:126 | any byte after the escape ends it |
| TashTalk.UnknownEscapeDropped | omnitalk/main/net/tashtalk/state_machine.c:86-126 | an unknown escape code changes nothing but the escape state |
| TashTalk.ErrorDiscards | omnitalk/main/net/tashtalk/state_machine.c:105-123 | 0x00 0xFE and 0x00 0xFA discard the frame in progress, count it, and forward nothing |
| TashTalk.CrcOnlyCounted | omnitalk/main/net/tashtalk/state_machine.c:94-103 | 0x00 0xFD delivers the frame whether or not the CRC is good; a bad CRC is only counted |
| TashTalk.FrameDoneDelivers | omnitalk/main/net/tashtalk/state_machine.c:94-103 | the end marker delivers the frame and leaves the machine idle |
| TashTalk.FeedEscaped | omnitalk/main/net/tashtalk/state_machine.c:77-133 | feeding a zero-escaped frame to an idle machine leaves exactly that frame, and the same CRC input, in progress |
| TashTalk.FrameRoundTrip | omnitalk/main/net/tashtalk/state_machine.c:77-139 | an idle sending machine fed an escaped frame and 0x00 0xFD forwards the frame minus its CRC bytes and is idle again |
| Atp.ControlLayout | omnitalk/main/proto/atp.h:66-104 | function is bits 7-6, XO bit 5, EOM bit 4, STS bit 3, timeout bits 2-0, and together they make up the whole byte |
| Atp.SetFunctionField | omnitalk/main/proto/atp.h:51-72 | writing the function sets that field to `value & 3` and leaves the other fields alone |
| Atp.SetXoField | omnitalk/main/proto/atp.h:51-80 | writing XO changes only bit 5, to `value & 1` |
| Atp.SetEomField | omnitalk/main/proto/atp.h:51-88 | writing EOM changes only bit 4, to `value & 1` |
| Atp.SetStsField | omnitalk/main/proto/atp.h:51-96 | writing STS changes only bit 3, to `value & 1` |
| Atp.SetTimeoutField | omnitalk/main/proto/atp.h:51-104 | writing the timeout changes only bits 2-0, to `value & 7` |
| Atp.ControlVectors | omnitalk/main/proto/atp_test.c:13-70 | 0b10101010 decodes to function 2, XO 1, EOM 0, STS 1, timeout 2; the test's writes give its expected bytes; value bits outside the mask are ignored |
| Atp.SetControlInfoField | omnitalk/main/proto/atp.h:51-63 | refused with nothing written when the payload is shorter than the 8-byte ATP header; otherwise only the control byte changes |
| Atp.SetFunction | omnitalk/main/proto/atp.h:70-72 | the generic write with mask 3 at shift 6, refused on a short payload |
| Atp.SetXo | omnitalk/main/proto/atp.h:78-80 | the generic write with mask 1 at shift 5 |
| Atp.SetEom | omnitalk/main/proto/atp.h:86-88 | the generic write with mask 1 at shift 4 |
| Atp.SetSts | omnitalk/main/proto/atp.h:94-96 | the generic write with mask 1 at shift 3 |
| Atp.SetTimeoutIndicator | omnitalk/main/proto/atp.h:102-104 | the generic write with mask 7 at shift 0 |
| Atp.FieldReadBack | omnitalk/main/proto/atp.h:41-63 | after a write the matching read gives `value & mask` |
| Atp.ShortPayloadReadsZero | omnitalk/main/proto/atp.h:34-112 | with fewer than 8 payload bytes every getter gives 0 or false and there is no ATP payload |
| Atp.SetTransactionId | omnitalk/main/proto/atp.h:114-121 | refused on a short payload; otherwise bytes 2-3 take the id big-endian |
| Atp.TransactionIdReadBack | omnitalk/main/proto/atp.h:106-121 | the transaction id round-trips through set and get, and nothing else in the header changes |
| Atp.NewAtpBuffer | omnitalk/main/proto/atp.c:5-11 | `newbuf_atp`: a fresh, valid, DDP-ready buffer of the requested header kind and capacity, whose payload is the 8-byte ATP header, all zero, when that fits the capacity (and empty otherwise) |
| Atp.StampResponse | omnitalk/main/app/sip/sip.c:60-63 | on a zeroed header, setting TResp, EOM and the id gives 0x90, 0, then the id big-endian, with the user bytes and data unchanged |
| Atp.TRespEomControl | omnitalk/main/proto/atp.h:66-88 | TResp (function 2) with EOM on a zero control byte is 0x90 |
| Ddp.Put16 | omnitalk/main/proto/ddp.h:79-87 | a 16-bit field stored big-endian reads back as the value, and no other byte changes |
| Ddp.SetDstField | omnitalk/main/proto/ddp.h:53-69 | writing the destination node changes that field and no other, in either header |
| Ddp.SetSrcField | omnitalk/main/proto/ddp.h:54-77 | writing the source node changes that field and no other |
| Ddp.SetSocketFields | omnitalk/main/proto/ddp.h:57-103 | writing a socket changes that field and no other |
| Ddp.SetTypeField | omnitalk/main/proto/ddp.h:59-111 | writing the DDP type changes that field and no other |
| Ddp.SetNetworkFields | omnitalk/main/proto/ddp.h:55-87 | on a long header each network setter rewrites its own network, big-endian, and nothing else |
| Ddp.SetLengthField | omnitalk/main/proto/ddp.h:119-128 | the length reads back as `length & 0x3FF`; a long header keeps its upper 6 hop-count bits |
| Ddp.WithLength | omnitalk/main/proto/ddp.h:119-128 | the header keeps its size |
| Ddp.ClearChecksumField | omnitalk/main/proto/ddp.h:113-117 | the checksum reads 0 afterwards and nothing else changes |
| Ddp.SetDst | omnitalk/main/proto/ddp.h:63-69 | writes only the destination byte of the header |
| Ddp.SetSrc | omnitalk/main/proto/ddp.h:71-77 | writes only the source byte |
| Ddp.SetDstNet | omnitalk/main/proto/ddp.h:79-82 | requires a long header (the source asserts it) and writes the destination network big-endian |
| Ddp.SetSrcNet | omnitalk/main/proto/ddp.h:84-87 | requires a long header and writes the source network big-endian |
| Ddp.SetDstSock | omnitalk/main/proto/ddp.h:89-95 | writes only the destination socket |
| Ddp.SetSrcSock | omnitalk/main/proto/ddp.h:97-103 | writes only the source socket |
| Ddp.SetDdpType | omnitalk/main/proto/ddp.h:105-111 | writes only the type byte |
| Ddp.ClearChecksum | omnitalk/main/proto/ddp.h:113-117 | clears the checksum of a long header; a short header is unchanged |
| Ddp.SetDatagramLength | omnitalk/main/proto/ddp.h:119-128 | the header becomes `WithLength` of the old one; only the header changes |
| Ddp.AppendAll | omnitalk/main/proto/ddp.h:130-139 | succeeds iff the buffer is DDP-ready and the payload stays within 586 bytes and the buffer's capacity; a failure writes nothing |
| Ddp.AppendLimitScenario | omnitalk/main/proto/ddp_test.c:17-24 | a roomy buffer takes exactly 586 payload bytes, then refuses one more, and its payload begins with the first byte written |
| Ddp.ShortHeaderHasNoNetworks | omnitalk/main/proto/ddp.h:55-56 | a short header reads destination and source network 0 |
| Ddp.ShortHeaderMine | omnitalk/main/proto/ddp.h:145-161 | a short-header packet is mine exactly when it is sent to my node or to 0xFF |
| Ddp.LongHeaderMine | omnitalk/main/proto/ddp.h:151-179 | a long-header packet is mine exactly when it is for my node on a network in my range or on 0, or a broadcast on network 0 or on a network >= mine |
| Ddp.OthersNotMine | omnitalk/main/proto/ddp.h:145-182 | a packet for another node that is not a broadcast is never mine |
| DdpSend.Sized | omnitalk/main/ddp_send.c:21-22 | the header bytes after the length and checksum writes keep their size |
| DdpSend.Networked | omnitalk/main/ddp_send.c:23-24 | the header bytes after the two network writes keep their size |
| DdpSend.Addressed | omnitalk/main/ddp_send.c:25-29 | the header bytes after the node, socket and type writes keep their size |
| DdpSend.FilledBytes | omnitalk/main/ddp_send.c:21-29 | the nine setters, in the source's order, keep the header's size |
| DdpSend.AddressedDecode | omnitalk/main/ddp_send.c:25-29 | after the last five setters, the nodes, sockets and type decode as written, and everything else is kept |
| DdpSend.FilledBytesDecode | omnitalk/main/ddp_send.c:21-29 | the nine setters compose: every addressing field decodes as set, the length and checksum as written, and the hop count survives |
| DdpSend.FillHeader | omnitalk/main/ddp_send.c:18-29 | only the header changes, and it becomes the filled header, with length = header plus payload, taken mod 2^16 |
| DdpSend.SendVia | omnitalk/main/ddp_send.c:13-38 | fills the header with the LAP's own network and node as source; hands the packet to that LAP once; answers what the LAP answers |
| DdpSend.Send | omnitalk/main/ddp_send.c:40-60 | with no covering route: false, and nothing changes or is sent; otherwise the first covering route's next hop is put in the send chain and the packet leaves through its LAP |
| DdpSend.SentDatagramIsMineAtDestination | omnitalk/main/ddp_send.c:13-38 | a datagram sent to node n on network d is accepted as its own by node n, on any range covering d |
| DdpSend.SentBroadcastIsMineEverywhere | omnitalk/main/ddp_send.c:13-38 | a broadcast sent on network 0 is accepted by every node |
| Ethernet.SnapEncapsulatedBytes | omnitalk/main/net/ethernet/ethernet.c:35-59 | the byte layout of an 802.3 SNAP frame: addresses, the length, the LLC bytes, OUI, EtherType, then the rest |
| Ethernet.AppleTalkFrameIsSnapEncapsulation | omnitalk/main/net/ethernet/ethernet.c:35-59 | `is_appletalk_frame` holds iff the frame is a SNAP encapsulation with OUI 08-00-07, type 80-9B and a length field of at most 1500 |
| Ethernet.AarpFrameIsSnapEncapsulation | omnitalk/main/net/ethernet/ethernet.c:61-85 | `is_aarp_frame` holds iff the frame is a SNAP encapsulation with OUI 00-00-00, type 80-F3 |
| Ethernet.AppleTalkAndAarpExclusive | omnitalk/main/net/ethernet/ethernet.c:35-85 | no frame is both AppleTalk and AARP, under either version of the AppleTalk test |
| Ethernet.OnlyShortSnapFramesQualify | omnitalk/main/net/ethernet/ethernet.c:37-45 | frames shorter than both headers, and Ethernet II frames, are neither AppleTalk nor AARP |
| Ethernet.OldAppleTalkTopByteRejectsEtherTalk | omnitalk/main/net/ethernet.c:42-43 | a real EtherTalk frame fails the older test (top byte 0x80) and passes the newer one |
| Ethernet.InputPath | omnitalk/main/net/ethernet/ethernet.c:93-140 | a frame goes to the IP stack iff it is neither AppleTalk nor AARP; it is queued iff it is one of those, the transport is enabled and the queue accepts it |
| Ethernet.OldInputPath | omnitalk/main/net/ethernet.c:79-100 | the older path only logs and passes every frame to the IP stack |
| Ethernet.NonAppleTalkPassesOnBothPaths | omnitalk/main/net/ethernet/ethernet.c:93-140 | a frame that is not AppleTalk reaches the IP stack on both paths |
| Rtmp.RtmpHeader | omnitalk/main/proto/rtmp.h:40-45 | the header a router with a one-byte node id sends is 4 bytes |
| Rtmp.HeaderRoundTrip | omnitalk/main/proto/rtmp.h:40-53 | router network, id length 8 and node id read back from the header as written |
| Rtmp.NodeIdAsWrittenReadsIdLength | omnitalk/main/proto/rtmp.h:52 | `RTMP_ROUTER_NODE_ID` as written reports 8 (the id length) for router 42 |
| Rtmp.FlagLayout | omnitalk/main/proto/rtmp.h:29-30 | the flag byte is the extended bit over a distance below 128 |
| Rtmp.NonExtendedRange | omnitalk/main/proto/rtmp.h:33 | a non-extended tuple's range ends where it starts |
| Rtmp.TupleSizes | omnitalk/main/proto/rtmp.h:64-71 | a dummy or non-extended tuple advances by 3 bytes, an extended one by 6 |
| Rtmp.NextTuple | omnitalk/main/proto/rtmp.h:56-84 | a returned tuple fits in the tuple bytes and is 3 or 6 bytes on |
| Rtmp.NextTupleWhenItFits | omnitalk/main/proto/rtmp.h:64-83 | the next tuple is returned exactly when all of its bytes are present |
| Rtmp.FirstTuple | omnitalk/main/proto/rtmp.h:85-109 | a first tuple fits and lies at offset 0 or, after a leading dummy, at offset 3; it is at 0 exactly when there is room, the first tuple is not a dummy and it fits |
| Rtmp.NoRoomNoTuple | omnitalk/main/proto/rtmp.h:89-92 | fewer than 3 tuple bytes give no first tuple |
| Rtmp.LeadingDummySkipped | omnitalk/main/proto/rtmp.h:94-96 | a leading dummy tuple is never returned; the walk starts 3 bytes on, or finds nothing |
| Rtmp.FirstTupleWhenItFits | omnitalk/main/proto/rtmp.h:98-109 | a first tuple that is not a dummy is returned exactly when it fits |
| Rtmp.WalkFrom | omnitalk/main/proto/rtmp.h:56-84 | following `get_next` from a tuple visits whole tuples at strictly increasing offsets, starting there |
| Rtmp.AllTuples | omnitalk/main/proto/rtmp.h:56-110 | the handlers' walk ends; it visits only whole tuples, and none when there are fewer than 3 bytes |
| Rtmp.WalkExample | omnitalk/main/proto/rtmp.h:56-110 | a dummy, an extended tuple and a single network: the walk visits offsets 3 and 9 |
| Nbp.StringsEnd | omnitalk/main/proto/nbp.c:21-36 | when the strings fit, they end at least one byte per string past the cursor, and inside the data |
| Nbp.TupleEnd | omnitalk/main/proto/nbp.c:14-36 | an accepted tuple ends at least 3 bytes past its fixed part, and inside the data |
| Nbp.StringStep | omnitalk/main/proto/nbp.c:23-35 | one pass of the loop: stepping over a string that fits leaves the rest of the walk unchanged |
| Nbp.NbpTupleAt | omnitalk/main/proto/nbp.c:5-39 | the loop on the `remaining` counter answers exactly `TupleAt`: a tuple when the buffer is DDP-ready and its fixed part and three strings fit |
| Nbp.NbpTupleLength | omnitalk/main/proto/nbp.c:41-55 | the length the loop adds up is where the accepted tuple ends |
| Nbp.NbpGetFirstTuple | omnitalk/main/proto/nbp.c:57-59 | the first tuple is looked for two bytes into the DDP body |
| Nbp.NbpGetNextTuple | omnitalk/main/proto/nbp.c:61-64 | the next tuple is looked for where the previous one ends |
| Nbp.AcceptedTupleLayout | omnitalk/main/proto/nbp.c:66-81 | in an accepted tuple the object, type and zone strings lie inside the data, one after another, and the tuple ends after the zone |
| Nbp.TupleBytes | omnitalk/main/proto/nbp.c:41-55 | a tuple's wire form is 5 bytes plus each string with its length byte |
| Nbp.TupleRoundTrip | omnitalk/main/proto/nbp.c:5-81 | a tuple written anywhere in a ready packet is accepted, ends where it was written to end, and its object, type and zone read back |
| Nbp.ThreeStringsReadBack | omnitalk/main/proto/nbp.c:21-81 | three Pascal strings written in a row are walked over exactly and read back in order |
| Nbp.StringThere | omnitalk/main/proto/nbp.c:27-35 | a Pascal string's bytes read back at their offset, and the walk steps over them |
| Nbp.TruncatedTupleRefused | omnitalk/main/proto/nbp.c:14-36 | data one byte short of an accepted tuple holds no tuple at that offset |
| Nbp.TruncationKeepsPrefixEnds | omnitalk/main/proto/nbp.c:21-36 | cutting the data never moves where strings end: they end at the same place or not at all |
| Nbp.NotReadyNoTuple | omnitalk/main/proto/nbp.c:7-9 | a buffer that is not DDP-ready yields no tuple |
| Nbp.PastTheEndNoTuple | omnitalk/main/proto/nbp.c:11-17 | an offset past the end of the data holds no tuple |
| ZipProto.TupleAt | omnitalk/main/proto/zip.c:3-22 | a tuple is accepted only at its own offset, and only when its 3 fixed bytes and its whole name lie inside the datagram |
| ZipProto.NextOffset | omnitalk/main/proto/zip.c:29-32 | the next tuple starts at least 3 bytes past an accepted one |
| ZipProto.TupleBytes | omnitalk/main/proto/zip.c:11-19 | a zone tuple's wire form is 3 bytes plus its name |
| ZipProto.DecodeEncode | omnitalk/main/proto/zip.c:3-32 | walking tuples written after any prefix gives them back, in order, and nothing more |
| ZipProto.TupleReadsBack | omnitalk/main/proto/zip.c:3-32 | one written tuple is accepted where it starts, reads back as itself, and the next one starts right after it |
| ZipProto.NotReadyNoTuple | omnitalk/main/proto/zip.c:4-6 | a buffer that is not DDP-ready yields no tuple |
| ZipProto.TruncatedTupleRefused | omnitalk/main/proto/zip.c:17-19 | a name that runs past the end of the datagram is refused |
| ZipProto.Resized | omnitalk/main/proto/zip.h:21 | the payload takes exactly the new length and keeps its prefix; zip.h:21 only sets the length, and the model fills any exposed bytes with zeros |
| ZipProto.QrySetupPacket | omnitalk/main/proto/zip.h:17-22 | writes function 1 and the count, and sets the payload length to 2 + 2 * count; nothing outside the payload changes |
| ZipProto.SetupShape | omnitalk/main/proto/zip.h:17-22 | after setup the payload is a query with the requested count and every network slot present |
| ZipProto.QrySetNetwork | omnitalk/main/proto/zip.h:24-33 | succeeds iff the slot is below the count; it then writes that slot big-endian; otherwise nothing is written |
| ZipProto.SetNetworkReadBack | omnitalk/main/proto/zip.h:24-33 | a stored network reads back; every other slot, and the count, keep their values |
| ZipProto.QueryCreationScenario | omnitalk/main/proto/zip_test.c:7-26 | the count reads 2; slots 0 and 1 take 8 and 16, slot 2 is refused, and both read back |
| Aep.SwapAddresses | omnitalk/main/app/aep/aep.c:32-51 | the header's nodes and sockets are exchanged, and its networks in a long header; every other header byte is kept |
| Aep.Handler | omnitalk/main/app/aep/aep.c:11-70 | anything but an echo request (DDP type 4, body of at least 1 byte, function 1) changes nothing and sends nothing; a request is turned into its reply and sent back once through the receiving LAP, when there is one |
| Aep.SwapTwice | omnitalk/main/app/aep/aep.c:32-51 | swapping a reply's addresses again gives back the request's header |
| Aep.ReplyFromResponder | omnitalk/main/app/aep/aep.c:32-51 | the reply comes from the node, socket and network the request was sent to; it goes to the requester's; every other field is kept |
| Aep.ReplyReachesRequester | omnitalk/main/app/aep/aep.c:32-65 | the requester accepts the reply as its own |
| Sip.AppendDescription | omnitalk/main/app/sip/sip.c:49-56 | the payload gains the 14 response bytes, the three names as Pascal strings, a zero AFP version and "No AFP" |
| Sip.NewReply | omnitalk/main/app/sip/sip.c:44-63 | the reply payload is TResp with EOM, then the request's transaction id and the description |
| Sip.Handler | omnitalk/main/app/sip/sip.c:31-78 | a SystemInfo request gets exactly one reply, handed to `ddp_send` from socket 253 to the requester's address, as DDP type 3; anything else gets nothing |
| Sip.ReplyLayout | omnitalk/main/app/sip/sip.c:44-63 | the reply reads back as TResp with EOM, the request's id, the 14 response bytes, the four strings in order and the zero AFP version |
| Sip.ResponseFields | omnitalk/main/app/sip/sip.c:11-29 | the response is 14 bytes: an acknowledgement, Responder 1.1 on AppleTalk 1.0, FPU and MMU, ROM85 bits 0x7F, 0xFF |
| Sip.OnlySystemInfoAnswered | omnitalk/main/app/sip/sip.c:34-39 | a request that is not ATP, is too short for ATP, or asks for another SIP function is not a SystemInfo request |
| ZipApp.DispatchZip | omnitalk/main/app/zip/zip.c:220-240 | a ZIP-type packet with a whole ZIP header reaches the reply, extended-reply, query or GetNetInfo handler exactly when its function is that one; it never reaches GetZoneList |
| ZipApp.DispatchAtp | omnitalk/main/app/zip/zip.c:208-245 | an ATP packet reaches GetZoneList exactly when it has a whole ATP header and command 7, 8 or 9; a shorter one is ignored |
| ZipApp.AddsFor | omnitalk/main/app/zip/zip.c:64-82 | one `zt_add_zone_for` per tuple, in order, with its network and zone |
| ZipApp.MarksFor | omnitalk/main/app/zip/zip.c:87-89 | one `zt_mark_network_complete` per tuple, in order |
| ZipApp.VisitTuples | omnitalk/main/app/zip/zip.c:56-78 | the first/next loop visits exactly the reply's tuples in order, and none unless the buffer is DDP-ready |
| ZipApp.PropagateAndAdd | omnitalk/main/app/zip/zip.c:78-84 | a PropagateZone call is recorded for the first tuple, then every zone is added, in order |
| ZipApp.PropagateZoneToLap | omnitalk/main/app/zip/zip.c:21-42 | when the route lookup finds a direct route whose LAP has no zone, that LAP takes the tuple's zone and the registry's zone cache is refreshed, and then holds a zone if the LAP is registered; with no route, a route that is not direct, no LAP or a LAP that already has a zone, neither the LAP nor the registry changes |
| ZipApp.ZoneKnownOnceNamed | omnitalk/main/lap/registry.c:105-116 | once a registered LAP has a zone, the registry's search for a zone finds one |
| ZipApp.MarkAll | omnitalk/main/app/zip/zip.c:86-89 | every network of the reply is marked complete |
| ZipApp.HandleNonextendedReply | omnitalk/main/app/zip/zip.c:71-90 | the table calls are the non-extended sequence for the reply's tuples |
| ZipApp.HandleExtendedReply | omnitalk/main/app/zip/zip.c:44-69 | the table calls are the extended sequence for the reply's count and tuples |
| ZipApp.NonextendedAddsBeforeMarks | omnitalk/main/app/zip/zip.c:71-90 | every zone is added once, in order, before any network is marked complete, and every network is then marked once, in order |
| ZipApp.ExtendedReplyIsAboutOneNetwork | omnitalk/main/app/zip/zip.c:44-69 | the first tuple's network gets the expected count and the zone propagation; every zone is added; completeness is then checked for that same network |
| ZipApp.ChunksKeepOrder | omnitalk/main/app/zip/zip.c:123-179 | the replies to a query carry every tuple once, in order |
| ZipApp.ChunksFitAndAreFull | omnitalk/main/app/zip/zip.c:136-153 | each reply holds at least one tuple and at most 586 bytes; a reply is sent early only when the next tuple would not fit |
| ZipApp.ChunksFit | omnitalk/main/app/zip/zip.c:136-141 | under the packing invariant, every reply is non-empty and within 586 bytes |
| ZipApp.ChunksAreFull | omnitalk/main/app/zip/zip.c:142-153 | under the packing invariant, every reply but the last is too full for the next tuple |
| ZipApp.ReplyReadsBack | omnitalk/main/app/zip/zip.c:132-140 | a reply, read with the tuple walker after any DDP header, gives back exactly its tuples |
| ZipApp.ReplySplits | omnitalk/main/app/zip/zip.c:132-140 | a reply's bytes are function 8, the zone count mod 256, then its tuples |
| ZipApp.QueryReply.constructor | omnitalk/main/app/zip/zip.c:181-186 | replies go to the query's source node, network and socket; no packet is in progress |
| ZipApp.QueryReply.Init | omnitalk/main/app/zip/zip.c:105-121 | the iteration goes on iff the network exists, is complete and has zones; the zone count is then recorded |
| ZipApp.ExtReplySetupPacket | omnitalk/main/app/zip/zip.c:132 | the reply's payload bytes 0 and 1 become function 8 (extended reply) and the zone count mod 256; nothing else in the buffer changes |
| ZipApp.QueryReply.NewReplyBuffer | omnitalk/main/app/zip/zip.c:129-133 | a fresh 586-byte buffer holding the extended-reply header with the zone count |
| ZipApp.QueryReply.AppendTuple | omnitalk/main/app/zip/zip.c:137-141 | a tuple that fits joins the packet in progress |
| ZipApp.QueryReply.Loop | omnitalk/main/app/zip/zip.c:123-157 | the tuple joins the packet in progress if it fits; otherwise that packet is sent and a fresh one takes the tuple; what is sent is the replies this closed; the callback always continues |
| ZipApp.QueryReply.End | omnitalk/main/app/zip/zip.c:159-179 | when aborted nothing changes; otherwise the packet in progress, if any, is sent, and the answer is true |
| ZipApp.IterateZones | omnitalk/main/app/zip/zip.c:188-189 | calling the loop callback for every zone of a network packs them greedily and sends every closed reply |
| ZipApp.ReplyToQueryForNet | omnitalk/main/app/zip/zip.c:181-190 | a query for one network sends exactly its replies: none for an unknown, incomplete or zoneless network |
| ZipApp.HandleQuery | omnitalk/main/app/zip/zip.c:192-206 | a query whose networks do not all fit in the payload is dropped; otherwise each network is answered in turn |
| ZipApp.ReplyToEach | omnitalk/main/app/zip/zip.c:202-205 | the loop sends the replies for each queried network, in order |
| ZipApp.UnansweredGetsNothing | omnitalk/main/app/zip/zip.c:109-117 | an unknown, incomplete or zoneless network gets no reply |
| ZipApp.ReplyChunkReadsBack | omnitalk/main/app/zip/zip.c:132-140 | a reply reads back as its tuples after the 2-byte ZIP header |
| ZipApp.RepliesCarryTuples | omnitalk/main/app/zip/zip.c:123-179 | the replies carry the tuples in order, each once, in replies of at most 586 bytes sent from the ZIP socket as DDP type 6, each reading back as its tuples |
| ZipApp.QueryRepliesCarryZones | omnitalk/main/app/zip/zip.c:181-190 | an answered network's zones all go back to the querier, in at least one reply |
| ZipApp.PackAllFit | omnitalk/main/app/zip/zip.c:136-141 | tuples that all fit in one reply stay together |
| ZipApp.SmallZoneListOneReply | omnitalk/main/app/zip/zip.c:123-179 | a network whose zones fit gets exactly one reply, holding all of them |
| ZipApp.ThreeZoneQuery | omnitalk/main/app/zip/zip_test.c:44-170 | network 11, holding Zone1 to Zone3, gets one reply: 8, 3, then each zone as 0, 11 and its Pascal string |
| ZipApp.ReplyOfThree | omnitalk/main/app/zip/zip.c:132-140 | a reply with three tuples is the header, then each tuple's network and name |
| ZipZoneList.Taken | omnitalk/main/app/zip/zip_get_zone_list.c:28-34 | the number of names appended from index k lies between k and the list's length |
| ZipZoneList.AddZoneName | omnitalk/main/app/zip/zip_get_zone_list.c:18-35 | the NULL zone sets the LastFlag (user byte 0) and continues; a name is appended and counted iff payload length plus name length is below 586; otherwise nothing changes and the iteration stops |
| ZipZoneList.OfferName | omnitalk/main/app/zip/zip_get_zone_list.c:28-34 | offered the next name, the callback takes it exactly when `Takes` holds, and the payload then holds the names taken so far |
| ZipZoneList.IterateZoneNames | omnitalk/main/app/zip/zip_get_zone_list.c:74-82 | the iterator's calls append the names up to the first refusal and count them; the LastFlag is set iff none was refused |
| ZipZoneList.BuildReply | omnitalk/main/app/zip/zip_get_zone_list.c:74-96 | a reply exists iff the iterator reports something sensible; it is the TResp with EOM, the request's id, the LastFlag, the count and the names taken |
| ZipZoneList.HandleGetZoneList | omnitalk/main/app/zip/zip_get_zone_list.c:37-104 | sends at most one reply, from the ZIP socket to the requester, as ATP: for GetZoneList always, for GetLocalZones when the source network is complete, and then only when the iterator reports something sensible |
| ZipZoneList.TakenIsFirstRefusal | omnitalk/main/app/zip/zip_get_zone_list.c:28-34 | the names appended are exactly those before the first one the callback refuses |
| ZipZoneList.NamesFit | omnitalk/main/app/zip/zip_get_zone_list.c:28-34 | the names appended fill the payload to at most 586 bytes |
| ZipZoneList.ReplyLayout | omnitalk/main/app/zip/zip_get_zone_list.c:28-96 | the reply fits 586 bytes; it carries the request's transaction id, the names up to the first refusal and their exact number, and the LastFlag iff no name was left out; a name left out would have overflowed |
| ZipZoneList.LastFlagIffAllFit | omnitalk/main/app/zip/zip_get_zone_list.c:21-34 | the LastFlag is set exactly when every remaining name fits in the one reply |
| ZipZoneList.OtherCommandsUnanswered | omnitalk/main/app/zip/zip_get_zone_list.c:42-50 | GetMyZone, and any command other than 8 and 9, gets no reply |
| ZipZoneList.IncompleteLocalNetUnanswered | omnitalk/main/app/zip/zip_get_zone_list.c:63-72 | GetLocalZones for a missing or incomplete network gets no reply |
| ZipZoneList.StartIndexIsOneBased | omnitalk/main/app/zip/zip_get_zone_list.c:52-55 | index 1 is the first name; index 0 wraps round to 65535 |
| ZipNetInfo.StartReply | omnitalk/main/app/zip/zip_get_network_info.c:48-64 | a fresh DDP buffer whose payload is function 6, the flags, the range start and end big-endian, and the requested name |
| ZipNetInfo.FinishReply | omnitalk/main/app/zip/zip_get_network_info.c:84-94 | the payload gains the multicast field (0, or 6 and the address) and then the zone name, if there is one |
| ZipNetInfo.HandleGetNetInfo | omnitalk/main/app/zip/zip_get_network_info.c:21-115 | the corrected handler sends exactly the replies `GetNetInfoReplies` gives for the request, the receiving LAP and its range |
| ZipNetInfo.HandleGetNetInfoAsWritten | omnitalk/main/app/zip/zip_get_network_info.c:21-115 | the handler as written sends exactly the replies `GetNetInfoRepliesAsWritten` gives |
| ZipNetInfo.FlagsReadBack | omnitalk/main/app/zip/zip_get_network_info.c:53-57 | each flag reads back on its own bit (0x80 zone invalid, 0x40 use broadcast, 0x20 only one zone), and the low five bits are clear |
| ZipNetInfo.ReplyHeadReadsBack | omnitalk/main/app/zip/zip_get_network_info.c:48-64 | the reply starts with function 6, the flags, the range and the requested name |
| ZipNetInfo.ReplyTailReadsBack | omnitalk/main/app/zip/zip_get_network_info.c:84-94 | after the requested name come the multicast field and, when there is one, the zone, and nothing else; the whole fits 586 bytes |
| ZipNetInfo.TruncatedRequestUnanswered | omnitalk/main/app/zip/zip_get_network_info.c:24-36 | a request too short for its fixed part or for its zone name gets no reply |
| ZipNetInfo.AnsweredAndAddressed | omnitalk/main/app/zip/zip_get_network_info.c:40-114 | a well-formed request gets one reply iff the network is complete and the name is valid or the network has a zone; it goes through the receiving LAP from the ZIP socket as DDP type 6, to the request's destination network and node when that network is in the port's range, otherwise broadcast on network 0 |
| ZipNetInfo.ReplyMeaning | omnitalk/main/app/zip/zip_get_network_info.c:53-94 | the zone-invalid flag is set exactly when the name is invalid, and the network's first zone then follows; use-broadcast is set exactly when the LAP has no multicast, otherwise the multicast address is the one for the zone to use |
| ZipNetInfo.RequestWellFormed | omnitalk/main/app/zip/zip_get_network_info_test.c:52-87 | the test's request naming a zone is well formed and names that zone |
| ZipNetInfo.IncompleteNetworkUnanswered | omnitalk/main/app/zip/zip_get_network_info_test.c:57-62 | a request for an incomplete network gets no reply |
| ZipNetInfo.EmptyNameGetsZone1 | omnitalk/main/app/zip/zip_get_network_info_test.c:64-81 | an empty name gets all three flags (0xE0), the range 11-20, no multicast address and Zone1 |
| ZipNetInfo.WrongNameEchoed | omnitalk/main/app/zip/zip_get_network_info_test.c:83-100 | a wrong name is echoed, with flags 0xE0, no multicast address, then Zone1 |
| ZipNetInfo.ValidNameConfirmed | omnitalk/main/app/zip/zip_get_network_info_test.c:103-119 | a valid name gets flags 0x60, an empty multicast field and nothing after it: 13 bytes |
| ZipNetInfo.ValidNameWithMulticast | omnitalk/main/app/zip/zip_get_network_info_test.c:122-138 | on a LAP with multicast, flags 0x20 and Zone1's multicast address |
| ZipNetInfo.SecondZoneClearsOnlyOne | omnitalk/main/app/zip/zip_get_network_info_test.c:143-152 | with a second zone on the network, only the broadcast flag (0x40) is set |
| ZipNetInfo.AsWrittenAppendsValidZone | omnitalk/main/app/zip/zip_get_network_info.c:94 | as written, a valid name is still followed by a zone name after the multicast field; the corrected reply ends with that field |
| ZipNetInfo.AsWrittenInvertsBroadcast | omnitalk/main/app/zip/zip_get_network_info.c:55-92 | as written, a LAP without multicast clears the broadcast flag and sends a multicast address anyway; the corrected reply does the opposite |
| ZipNetInfo.AsWrittenFindsNoDefaultZone | omnitalk/main/app/zip/zip_get_network_info.c:73-74 | as written, the first-zone lookup reads network 0 from index `network_range_start`, so an invalid name on a network with a zone gets no reply; the corrected handler answers |

## Left out

- Transports and drivers are I/O, so they are not modelled:
  - the LToUDP and B2 UDP tunnels;
  - the TashTalk UART driver and task;
  - `net/transport.c`, `net/common.c`, `net/mdns.c`, `net/net.c` and `net/ethernet_output.c`;
  - `start_ethernet` in both Ethernet files.
  The Ethernet input hook is modelled only as the choice between intercepting a frame and passing it on; the queue and `esp_netif` become the parameters `transportEnabled` and `queueAccepts`.
- `lap/llap/llap.c` is not modelled. It is a FreeRTOS task loop with random address acquisition, and its header checks rest on unseen buffer helpers.
- The other run loops and startup are not part of this model: `controlplane_runloop.c`, `runloop.c`, `lap/sink/sink.c` and `main.c`.
- `app/zip/zip.c` lines 250-353 are not modelled:
  - the route-touched and network-deleted callbacks;
  - `zip_send_requests_if_necessary`;
  - `app_zip_idle` and `app_zip_start`.
  They are timer-driven background work, not request handling.
- Concurrency is left out.
  - Only the `_unguarded` table bodies are modelled, without the mutex wrappers. These are `rt_touch`, `rt_lookup`, `zt_add_net_range`, `aarp_touch` and the registry locks.
  - The atomic id counter in `lap/id.c` and the atomic swaps of statistics strings are not modelled.
- The statistics and web pages (`web/stats*.c`, `web/web.c`) are not modelled.
  - The TashTalk receive counters are plain fields, with no claims about them beyond their updates.
- Time is a parameter. Each operation that reads `esp_timer_get_time` takes `now` instead.
- Freeing buffers (`freebuf`, `free`) and all logging are not modelled. No claim about memory ownership is made.
- `util/crc.h` is not modelled. The TashTalk state machine takes the CRC as a function parameter: the running value and its update.
- `newbuf_ddp` and the `buf_append*`, `buf_expand_payload` and `buf_trim_payload` helpers are used by the core but are declared and defined nowhere in the source. `mem/buffers.h` declares only `newbuf`, `freebuf`, `wrapbuf`, `printbuf`, `buf_trim_l2_hdr_bytes` and `buf_set_ddp_info`, and `mem/buffers.c` defines only `newbuf`, `freebuf` and `wrapbuf`. The `Buffer` class stands in for the missing helpers, with the contract the core relies on:
  - a DDP header of 8 or 13 bytes, the sizes of the short and long headers in `proto/ddp.h`;
  - a payload bounded by the buffer's own capacity;
  - appends that fail without writing once that capacity is reached;
  - fresh buffers, and bytes added by `buf_expand_payload` or by a raw `ddp_payload_length` assignment, are taken to be zero. The only allocator shown, `newbuf`, uses `malloc`, which does not zero memory, so this is an assumption. The all-zero header of `Atp.NewAtpBuffer`, the 0x90 control byte of `Sip.ReplyLayout` and the LastFlag of `ZipZoneList.ReplyLayout` and `ZipZoneList.LastFlagIffAllFit` rely on it: their setters read, modify and write the fresh bytes, and the LastFlag is set but never cleared.
  The 586-byte DDP payload limit is not a property of `Buffer`: `Ddp.AppendAll` and the reply handlers enforce it.
  Allocation is taken to succeed, reply buffers are long-header buffers, and ATP user data starts at payload offset 4.
- The ZIP zone functions that are only declared in `table/zip/table.h` are modelled as the `ZoneView.View` record. The handlers take it as a parameter: the zone lists, completeness, validity and the iterators.
  - The zone-name iterators' return value, whether they did something sensible, is the `sensible` parameter of ZipZoneList.
- `lap_ether_multicast_for_zone` is the parameter `multicastFor`; `pstrclone` is a plain copy.
- `zip_packet_set_function`, `zip_ext_reply_setup_packet` and the GetNetInfo flag layout are not visible in the source. `ZipApp.ExtReplySetupPacket` stands in for `zip_ext_reply_setup_packet`, called at `app/zip/zip.c:132`.
  - The function byte is payload byte 0, and an extended reply carries its zone count in byte 1.
  - The flag bits are 0x80 zone-invalid, 0x40 use-broadcast and 0x20 only-one-zone, as the GetNetInfo tests read them.
  - The ZIP function codes come from the tests and from Inside AppleTalk.
- `pstring_matches_cstring_nbp` and `app/nbp/nbp.c` are not modelled. The handler depends on that unseen wildcard matcher, and it dereferences a tuple that may be NULL.
- `app/rtmp/rtmp.c` and `proto/rtmp.c` only log, so they are not modelled. `lap/lap.c` is a mock hook and queue send; it is modelled only as the `Outbox` record of `lsend` calls. The `lapAccepts` and `ddpAccepts` flags stand for the send results.
- `util/string.c` is a trivial wrapper and is not modelled. `proto/atp.c` holds only `newbuf_atp`, modelled as `Atp.NewAtpBuffer`.
- Sip, ZipApp, ZipZoneList and ZipNetInfo: the model records a reply handed to `ddp_send` or `ddp_send_via` as an `Outbox` entry, not the routed send. `DdpSend.Send` and `DdpSend.SendVia` model that routing on their own. Aep sends through its receiving LAP, and the model records that `lsend` call.
- DdpSend.Send requires the covering route, when there is one, to have an outbound LAP. `ddp_send` (`ddp_send.c:40-60`) passes `route.outbound_lap` unchecked to `ddp_send_via`, which reads the LAP's network and address from it (`ddp_send.c:23-25`), so a route without one is outside what the code defines.
- ZipNetInfo.HandleGetNetInfo requires a receiving LAP. The C code dereferences `recv_chain.lap` without checking it, so a packet without one is outside what the code defines.
- ZipNetInfo.HandleGetNetInfo: the range test that picks net 0, node 0xFF reads the request's destination network, as the code does. The comment beside it speaks of the source network.
- ZipApp.PropagateAndAdd: the reply handlers record the `propagate_zone_to_lap` call as a `PropagateZone` entry rather than performing it; what that call does to the LAP and the registry is `ZipApp.PropagateZoneToLap`.
- ZipApp.HandleQuery: the packing of tuples into packets is stated over the packet contents handed to DDP. How the `packet_in_progress` buffer is reused between callbacks is not modelled.
- AarpTable: the number of hash buckets is a constructor parameter rather than the compile-time constant.
- MacRoman and PString index and switch on plain `char` in C (`macroman.c:33`, `pstring.c:8-43`). With a signed `char`, bytes at or above 0x80 would misbehave. The model treats every byte as 0..255, which is the evident intent.
- MacRomanLut: reading `macroman.txt` and printing are I/O. The tool is modelled from the file's text to the printed output. A fatal exit is a failure outcome that carries the reason.
- The older `net/ethernet.c` input path passes every frame on. Only `Ethernet.OldInputPath` and the frame predicates are modelled from it.

## Findings

| source | as written | input that shows it | evidently intended | confidence | as-written member | corrected member |
|---|---|---|---|---|---|---|
| omnitalk/main/table/zip/table_impl.c:25-27 | `zt_count_net_ranges` counts every node of the list, including the dummy root | a freshly created table: the count is 1 | a new table holds no ranges, so the count is 0 (table_test.c:10) | not executed | ZipTable.CountOfNewTable | ZipTable.CorrectedCountOfNewTable |
| omnitalk/main/web/util.c:32-37 | the loop stops only once `cnt >= len - 1`, after a byte has been written, and then writes the NUL | destination length 1 with source "a": the byte and the NUL are written, two bytes into a one-byte buffer; with length 0, `len - 1` wraps to `SIZE_MAX` | at most `len - 1` decoded bytes and the NUL, and nothing at all for length 0 | not executed | UrlDecode.OneByteBufferOverrun | UrlDecode.UrlNDecodeBounded |
| omnitalk/main/proto/rtmp.h:52 | `RTMP_ROUTER_NODE_ID` reads the id-length byte | the header of router 42 on network 1: the macro gives 8 | the node id byte after the id length, 42 | not executed | Rtmp.NodeIdAsWrittenReadsIdLength | Rtmp.HeaderRoundTrip |
| omnitalk/main/net/ethernet.c:42 | the AppleTalk SNAP check wants top byte 0x80 | any EtherTalk frame, whose SNAP header is 08 00 07 80 9B | 0x08, as in net/ethernet/ethernet.c:55 | not executed | Ethernet.OldAppleTalkTopByteRejectsEtherTalk | Ethernet.AppleTalkFrameIsSnapEncapsulation |
| omnitalk/main/app/zip/zip_get_network_info.c:94 | the zone name is appended even when the requested zone is valid | a request for Zone1 on a network whose zone it is | no trailing zone name (zip_get_network_info_test.c:119) | not executed | ZipNetInfo.AsWrittenAppendsValidZone | ZipNetInfo.ValidNameConfirmed |
| omnitalk/main/app/zip/zip_get_network_info.c:55 | use-broadcast is set when the LAP has a multicast address | a valid request on a LAP with a multicast address | use-broadcast only when there is no multicast address (zip_get_network_info_test.c:124-136) | not executed | ZipNetInfo.AsWrittenInvertsBroadcast | ZipNetInfo.ValidNameWithMulticast |
| omnitalk/main/app/zip/zip_get_network_info.c:73-74 | the first-zone lookup passes network 0 and start index `network_range_start`, swapping the two arguments | an empty zone name on a complete network that has one zone | the reply names the network's first zone (zip_get_network_info_test.c:64-81) | not executed | ZipNetInfo.AsWrittenFindsNoDefaultZone | ZipNetInfo.EmptyNameGetsZone1 |
