# Verified model of the DNS relay

This project models the logic of a DNS relay written in C and proves what holds of it. The relay
answers the queries of its clients from an LRU record cache or from a local host file; any other
query it sends to an upstream server under an ID of its own, and it sends the reply back to the
client under the client's ID.

`dafny verify dfyconfig.toml` checks everything.

## Layers

| file | contents |
|---|---|
| `Bytes.dfy` | machine integers, byte strings, sequence operations |
| `ListLinks.dfy` | the intrusive circular list, its links as indices into arrays |
| `LruList.dfy` | the cache as a bounded list; inclusion and provenance over whole runs |
| `LruSlots.dfy` | the cache as slots; refinement of the list, recency, interleaved rotations |
| `LruCache.dfy` | the cache as a class over arrays, counter and links |
| `Names.dfy` | names as text and as labels, and the two conversion loops |
| `UrlCodec.dfy` | suffix compression and pointer expansion |
| `PacketCodec.dfy` | what a message means; the message round trip, and the bounds of packets that fit the receive buffer |
| `Packet.dfy` | the packet class; the parsing and formatting loops |
| `IdMap.dfy` | the transaction-ID map and its whole-run safety |
| `HashTable.dfy` | the FNV string hash table, a finite map in linked buckets |
| `HostLines.dfy`, `HostTable.dfy` | the host file's lines, and the table built from them |
| `Answering.dfy`, `Query.dfy` | storing responses and composing answers, and what can be sent: meaning, then class |
| `Relay.dfy` | the relay as a state machine; what every run keeps |
| `Server.dfy` | the server: one packet is one step of that machine, the receive loop a run of it |

The files fall into two kinds. Code that works in place is a class or a method over arrays, and its
contract equates the new state with a function of the old one. The other modules define those
functions and prove what the relay is for about them.

## How the code is read

* Every locked region is one atomic step, and `now` is read once per step. A query's rotation runs
  on a thread of its own in the source. It is a separate, later step in module `LruSlots`, where any
  rotation at any time only reorders the records (`RotateKeeps`). Methods let it follow its query
  directly, but runs of the relay may reorder the cache in any way between two steps
  (`Relay.Reordered`), so what is proved of every run does not depend on when rotations run. A whole
  call on the ID map is one step, although the source locks only its counter.
* Where the code can follow a null pointer, the model says so instead of excluding it: a method
  returns `ok == false` or `Crash`, and its contract says exactly when. A slot's links are null
  before its first use.
* Where code and intent differ, the model keeps the code and proves exactly when the intent is met:
  * `cacheFlush` unlinks slots `0..length` and survives exactly when these are the occupied ones
    (`LruSlots.Safe`); so it does until a scan leaves a hole (`FlushIsSafeBeforeScans`), and
    `FlushAfterScanFails` is a run on which it does not.
  * A late rotation survives exactly when all its slots are still listed or the list is empty
    (`LruCache.LruCache.Rotate`). Inserts and other rotations cannot break that
    (`LateRotationIsSafe`); a scan does exactly when a remembered record has expired and another one
    is left (`LateRotationAfterScan`), a flush followed by an insert exactly when a slot other than
    the first is remembered (`LateRotationAfterFlush`).
  * `inetFormat` steps over the text's terminator and goes on with whatever stands behind it, up to
    the next zero byte at a segment's start; its output is the wire form exactly when the byte behind
    the terminator is zero (`FormattedExactly`), and parses back as the name exactly when the next
    segment's length is 0 in one byte (`Names.NameRoundTrip`). The record data that `urlFormat`
    reports does not depend on it, because the terminator or the pointer is written over the
    first byte too many: `FormatName` and `ResponseFormat` hold for any such memory, as long as the
    loop ends within the scratch buffer.
  * `urlFormat` takes a full match of the question name without looking for a dot before it, and
    `urlParse` takes a name that ends in a byte of at least 192 for a compressed one; the record data
    reads back as the name exactly under `CleanEnd` and without such an end (`CompressionRoundTrip`,
    `PlainRoundTrip`).
  * `urlFormat` reports two bytes too few for an MX name that shares no suffix with its question
    (`ReportsLength`). The model takes a name that runs out of its data as unreadable, so such a
    record never reads back as sent (`AnswerRoundTrip`); the source leaves the bytes behind the data
    uninitialised and reads on in them.
  * `responseFormat` computes the NAME field of answers to later questions one byte short per earlier
    question (`NamePointerFallsShort`); it is exact only for the first question (`NamePointerIsExact`).
    The pointer inside a compressed name falls short with it. The name reads back where its suffix
    happens to stand there (`Placed`): always for the first question (`FirstIsPlaced`), and for a later
    one when the pointer falls onto an earlier question for the same name (`RepeatedIsPlaced`). It never
    reads back when the pointer falls short by at most the length of the suffix and one byte, and no
    byte of the questions is 192 or more (`ShortPointerFails`). `LaterQuestionMisread` is a response
    in which "x.b" is read as "x".
  * `responseFormat` appends the answers behind whatever follows the questions, an OPT record for one,
    but counts them as if they stood right behind the questions. No client reads such answers
    (`TrailedIsMisread`): the round trip holds for queries that end with their questions.
  * `urlParse` follows a pointer it meets inside a name only if two pointer-like bytes stand behind
    it; it reads the name section 4.1.4 of RFC 1035 defines exactly under `LooksAhead`
    (`ChaseExpands`, `ReadsCompressedName`).
  * `remove_bucket` reads through a null head exactly on an empty bucket (`Bucket.Remove`).
  * The cache keeps types in eight bits, so a stored record answers exactly the questions whose types
    agree with its own modulo 256 (`StoredIsServed`, `TypesConfused`).
  * `responseFormat` marks a response with 65535 answers as a name error, like one with none
    (`ResponseIsMarked`).
  * The slots of the ID map are taken in turn, except that slot 127 is left out where the counter wraps;
    so a request is refused because of one that is a multiple of 128 calls older, or across a wrap of
    127 (`RefusedOnlyIfBlocked`, `WrapRefuses`).
  * A reply that comes after its lease can reach another client (`LateReplyReachesAnother`); before
    the lease ends it cannot (`LeaseHolds`).
* Premises: the cache has at least one slot; a response with answers has a question; a question name
  has at most 64 characters; scratch buffers hold the names read into them. The conversions between
  addresses and text are a parameter with the law that what was printed converts back
  (`PacketCodec.Net`).
* The end-to-end theorems put conditions on packets and host lines only. A packet fits the receive
  buffer, which bounds its questions and their offsets (`ParsedBounds`, `BufferBounds`). The names among
  a response's stored answers are well-formed and fit the scratch buffer (`Answering.Storable`). The
  number of a query's questions times the cache's capacity, or times the number of host lines for one
  of its names, stays below 65536 (`Answering.Moderate`); with the default of 64 slots the former always
  holds. Each question asks for a supported type, or some question is one that no earlier response and
  no host line has answered (`Relay.Fair`). What the cache holds, and what a lookup finds in it, then
  follows (`LoadedIsSupported`, `SentIsSupported`, `LoadedFits`, `AnswersCanBeSent`).
* The project's documentation lists TXT records as supported, but the code only returns an error for
  them, and leaves the data of a received one unset; the model follows the code and leaves them out.

## Model

| member | source | states |
|---|---|---|
| `Bytes.NetworkOrder` | `src/Service/packet.c:127-132` | 16- and 32-bit fields are read and written most significant byte first, given byte by byte |
| `ListLinks.Ring.NullLink` | `include/utils/list.h:97-103` | a node has null links exactly when it is not listed |
| `ListLinks.Ring.InitHead` | `include/utils/list.h:49-53` | whatever the head held before, it is the empty cycle afterwards, and with no other node linked a valid empty list |
| `ListLinks.Ring.Empty` | `include/utils/list.h:182-186` | the test of the head's two links holds exactly for the empty list |
| `ListLinks.Ring.IsLast` | `include/utils/list.h:172-175` | a listed node's successor is the head exactly when the node is last |
| `ListLinks.Ring.AddHead` | `include/utils/list.h:55-73` | the four writes prepend the node and keep one cycle |
| `ListLinks.Spliced` | `include/utils/list.h:86-90` | joining a node's neighbours leaves the cycle of the other nodes, in both directions |
| `ListLinks.Ring.Join` | `include/utils/list.h:86-90` | the two writes yield that cycle and touch no unlisted node |
| `ListLinks.Ring.Unlink` | `include/utils/list.h:86-90` | exactly that node leaves the list |
| `ListLinks.Ring.Del` | `include/utils/list.h:97-103` | succeeds exactly on a listed node, which leaves the list with its links cleared |
| `ListLinks.Ring.RotateNodeHead` | `include/utils/list.h:137-141` | moves a listed node to the front; survives exactly when the list is empty or the node listed |
| `LruList.TouchKeepsRecords` | `src/Service/cache.c:153-156` | a rotation keeps the multiset of stored records |
| `LruList.ScanIsInvisible` | `src/Service/cache.c:336-357` | a scan changes no answer given at or after its time |
| `LruList.ScanIsExact` | `src/Service/cache.c:341-354` | a scan removes exactly the records whose time is up, and keeps the others in their order |
| `LruList.AnswersAfterTouch` | `src/Service/cache.c:295-323` | after a query the same question is answered in reverse order, any other as before |
| `LruList.InclusionStep` | `src/Service/cache.c:287-397` | each operation keeps the small list a subsequence of the large one and the difference of their lengths within that of their capacities |
| `LruList.Inclusion` | `src/Service/cache.c:287-397` | the same over every run, and a larger cache answers with every record a smaller one answers with |
| `LruList.Provenance` | `src/Service/cache.c:368-397` | after any run every stored record is one that the run inserted |
| `LruSlots.InsertRefines` | `src/Service/cache.c:368-397` | on slots an insert keeps the invariant and prepends to the list, dropping its last record when full |
| `LruSlots.ScanRefines` | `src/Service/cache.c:336-357` | a scan of the slots keeps the invariant and filters the list |
| `LruSlots.HitsRotateInOrder` | `src/Service/cache.c:144-162` | a query's own rotation yields the hits in reverse, then the other slots in their old order |
| `LruSlots.QueryRefines` | `src/Service/cache.c:287-326` | the same for the records: reversed hits, then the rest |
| `LruSlots.OpStepRefines` | `src/Service/cache.c:287-426` | every operation on the slots is the list operation on the records |
| `LruSlots.OpRunRefines` | `src/Service/cache.c:287-426` | over every run of operations from the empty cache, the records in the slots are the list of that run, so inclusion and provenance hold of the slots |
| `LruSlots.RotateKeeps` | `src/Service/cache.c:144-162` | a rotation of any remembered slots at any time keeps the invariant, the listed slots and the multiset of records |
| `LruSlots.RotateOrder` | `src/Service/cache.c:153-156` | rotating listed slots reverses them to the front of the others |
| `LruSlots.EvictsLeastRecentlyUsed` | `src/Service/cache.c:384-393` | a full insert reuses the one slot whose last use is older than every other's and keeps all other records |
| `LruSlots.LateRotationIsSafe` | `src/Service/cache.c:316-323` | remembered slots stay listed under any number of inserts and other rotations |
| `LruSlots.LateRotationAfterScan` | `src/Service/cache.c:336-357` | after a scan a late rotation is safe exactly when every record it remembers is live, or none is left |
| `LruSlots.LateRotationAfterFlush` | `src/Service/cache.c:407-426` | after a flush and an insert it is safe exactly when it remembers no slot but the first |
| `LruSlots.FlushIsSafeBeforeScans` | `src/Service/cache.c:407-426` | without scans a flush is always safe |
| `LruSlots.FlushAfterScanFails` | `src/Service/cache.c:412-419` | two inserts and a scan after which a flush follows a null link |
| `LruSlots.FreeSlotExists` | `src/Service/cache.c:373-378` | while the list is shorter than the capacity the search finds a free slot |
| `LruSlots.AtMostCapacity` | `src/Service/cache.c:371-383` | the list never exceeds the capacity |
| `LruCache.LruCache.constructor` | `src/Service/cache.c:172-183` | an empty cache that satisfies the invariant |
| `LruCache.LruCache.FindFree` | `src/Service/cache.c:373-378` | finds the lowest free slot |
| `LruCache.LruCache.ListAdd` | `src/Service/cache.c:91-116` | the record is in its slot and the slot in front |
| `LruCache.LruCache.ListDel` | `src/Service/cache.c:126-134` | succeeds exactly on a listed slot, which leaves the list |
| `LruCache.LruCache.InsertFree` | `src/Service/cache.c:371-383` | the branch with a free slot: order, slots, occupancy and counter afterwards |
| `LruCache.LruCache.InsertFull` | `src/Service/cache.c:384-393` | the branch that evicts: order, slots and occupancy afterwards |
| `LruCache.LruCache.Insert` | `src/Service/cache.c:368-397` | keeps the representation invariant and equals the list's bounded insert |
| `LruCache.LruCache.Query` | `src/Service/cache.c:287-314` | returns exactly the unexpired records of the name and type, in list order, and remembers their slots |
| `LruCache.LruCache.MoveFront` | `src/Service/cache.c:155` | one rotation move, and exactly when it follows a null link |
| `LruCache.LruCache.Rotate` | `src/Service/cache.c:144-162` | survives exactly when it is safe, and then equals the rotation of the slots |
| `LruCache.LruCache.RotateKeeping` | `src/Service/cache.c:144-162` | a rotation at any time that survives keeps the multiset of stored records |
| `LruCache.LruCache.Lookup` | `src/Service/cache.c:287-326` | query and rotation together: the hits, and the reversed hits in front |
| `LruCache.LruCache.ScanEntry` | `src/Service/cache.c:341-354` | one round of the delete-while-walking loop neither skips nor repeats an entry |
| `LruCache.LruCache.ScanList` | `src/Service/cache.c:341-354` | the loop ends with exactly the unexpired slots, in order |
| `LruCache.LruCache.Scan` | `src/Service/cache.c:336-357` | filters the list; the flag is set exactly when some entry had expired |
| `LruCache.LruCache.Flush` | `src/Service/cache.c:407-426` | survives exactly when slots 0..length are the occupied ones, and then the cache is empty |
| `Names.SplitDotted` | `src/Utils/inet.c:125-145` | splitting the dotted form of textual labels gives the labels |
| `Names.DottedSplit` | `src/Utils/inet.c:54-71` | joining a split name gives the name |
| `Names.LabelPositions` | `src/Utils/inet.c:128-142` | each label's length byte stands at the index at which the label starts in the text |
| `Names.LabelsOfWire` | `src/Utils/inet.c:57-70` | labels are read at an index exactly when their wire form stands there |
| `Names.FormattedExactly` | `src/Utils/inet.c:126-145` | the loop writes exactly the wire form if and only if the byte behind the terminator is zero |
| `Names.WriteSegment` | `src/Utils/inet.c:133-140` | one segment is copied behind its length byte, nothing else is changed |
| `Names.InetFormat` | `src/Utils/inet.c:126-145` | writes what the loop is specified to write, changes nothing else, returns the text length plus one |
| `Names.ParseLabel` | `src/Utils/inet.c:60-68` | one label is appended with a dot behind it |
| `Names.InetParse` | `src/Utils/inet.c:55-71` | writes the dotted text and its terminator and nothing behind it |
| `Names.FormatsName` | `src/Utils/inet.c:126-145` | whatever stands behind the text's terminator, the loop writes the name's wire form first and at least one byte behind it |
| `Names.NameRoundTrip` | `src/Utils/inet.c:55-145` | formatting a valid name in any memory and parsing what was written gives the name back exactly when the segment behind the terminator has length 0 in one byte |
| `Names.WireRoundTrip` | `src/Utils/inet.c:55-145` | parsing a wire name of textual labels and formatting the text in any memory gives the wire name back exactly when the byte behind the terminator is zero |
| `UrlCodec.ChaseExpands` | `src/Service/url.c:59-92` | the pointer loop copies the name of section 4.1.4 of RFC 1035 exactly when the look-ahead test never stops it early |
| `UrlCodec.ChainedPointerIsCut` | `src/Service/url.c:77-90` | a pointer behind a label is not followed when no pointer-like byte stands two bytes behind it; the name ends there |
| `UrlCodec.ReadsPlainName` | `src/Service/url.c:46-52` | an uncompressed name is read as it is exactly when its last byte does not look like a pointer |
| `UrlCodec.ReadsCompressedName` | `src/Service/url.c:45-94` | a compressed name is read as what it means exactly when the look-ahead test holds along its pointers |
| `UrlCodec.CopyRun` | `src/Service/url.c:59-92` | the inner loop ends with the name complete or with a pointer strictly below the start of its run |
| `UrlCodec.ParseName` | `src/Service/url.c:45-94` | the outer loop terminates with the text of the name |
| `UrlCodec.CutIsUnique` | `src/Service/url.c:137-151` | the specification has exactly one result: the longest shared suffix that starts at a label, or none |
| `UrlCodec.FindCut` | `src/Service/url.c:137-151` | the backwards comparison finds it |
| `UrlCodec.ReportsLength` | `src/Service/url.c:153-164` | the reported length is that of the record data except for an MX name without a shared suffix, where it is two short |
| `UrlCodec.FormatAt` | `src/Service/url.c:153-164` | the bytes written from the pre-format on, with the terminator or the pointer behind the labels, whatever stands behind the text in memory |
| `UrlCodec.FormatName` | `src/Service/url.c:127-165` | for a text in any memory: the preference, the labels before the cut and the pointer stand in the buffer, and the reported length is returned |
| `UrlCodec.CompressionRoundTrip` | `src/Service/url.c:45-165` | record data placed behind its question name reads back as the name exactly when the name ends cleanly and, sent whole, does not end in a byte that looks like a pointer |
| `UrlCodec.PlainRoundTrip` | `src/Service/url.c:45-165` | a name without a shared suffix is sent whole, and reads back exactly when its last byte does not look like a pointer |
| `UrlCodec.ChaseCopies` | `src/Service/url.c:59-92` | while no byte looks like a pointer, the pointer loop copies the memory it stands on, up to a zero byte |
| `UrlCodec.PointsToEnd` | `src/Service/url.c:45-94` | over bytes below 192, compressed data reads back only if a zero byte stands where the suffix it points to would end |
| `UrlCodec.ShortPointerFails` | `src/Service/url.c:45-165` | a pointer that falls at most the length of the suffix and one byte short of it, over bytes below 192, never leads to a name that reads back |
| `PacketCodec.ResponseIsMarked` | `src/Service/packet.c:163-177` | bit by bit: a response has QR and RD set; AA set and a name error exactly for 0 or 65535 answers, else the query's AA and code 0; the query's opcode, TC, RA, Z, AD and CD |
| `PacketCodec.HeaderLayout` | `src/Service/packet.c:62-65` | ID, flags and the two counts are the header's first eight bytes |
| `PacketCodec.QuestionLayout` | `src/Service/packet.c:84-95` | a question is its name up to the first zero byte, then two bytes of type and two of class |
| `PacketCodec.AnswerLayout` | `src/Service/packet.c:124-138` | where each field of an answer stands, byte by byte, and how its data is read by type number |
| `PacketCodec.RecordLayout` | `src/Service/packet.c:250-264` | the twelve bytes in front of an answer's data |
| `PacketCodec.AddressLayout` | `src/Service/url.c:113-125` | the data sent for a printed address is that address, byte by byte |
| `PacketCodec.ResponseLayout` | `src/Service/packet.c:219-246` | a response is the query's bytes, authority and additional counts included, but for flags and answer count, then the records |
| `PacketCodec.NamePointerFallsShort` | `src/Service/packet.c:187-197` | the NAME field is the place of its question, one byte short per earlier question, modulo 2^16 |
| `PacketCodec.NamePointerIsExact` | `src/Service/packet.c:187-197` | it points at its question, as far as 16 bits can tell, exactly for the first question |
| `PacketCodec.QuestionRoundTrip` | `src/Service/packet.c:82-96` | the bytes of a question are read as that question, wherever they stand |
| `PacketCodec.FirstIsPlaced` | `src/Service/packet.c:187-209` | the pointer of a compressed answer to the first question leads to its suffix |
| `PacketCodec.RepeatedIsPlaced` | `src/Service/packet.c:187-209` | so does one that falls short onto an earlier question for the same name |
| `PacketCodec.CutReads` | `src/Service/packet.c:187-212` | a compressed name reads back exactly when it ends cleanly and its pointer leads to its suffix |
| `PacketCodec.AnswerRoundTrip` | `src/Service/packet.c:245-267` | the record written for an answer is read as that answer exactly when it is restorable (an address some address prints as; a name sent whole that is no MX name and does not end like a pointer; a compressed name that ends cleanly) and, compressed, its pointer leads to its suffix |
| `PacketCodec.LaterQuestionMisread` | `src/Service/packet.c:187-209` | one such failure: in a response to two questions "x.b" is read as "x" |
| `PacketCodec.ResponseReads` | `src/Service/packet.c:33-270` | the questions end where the query ended; the answers are read back, and end where the response ends, exactly when each is restorable and its pointer leads to its suffix |
| `PacketCodec.MessageRoundTrip` | `src/Service/packet.c:33-270` | for a query that ends with its questions, parsing the response gives its ID, its questions and every answer in order (type, class, TTL, preference and text) exactly when every answer is restorable and its pointer leads to its suffix |
| `PacketCodec.TrailedIsMisread` | `src/Service/packet.c:219-267` | for a query with something behind its questions that would be read under a type of 256 or more, such as an OPT record, the first answer is never read under its type |
| `PacketCodec.EmptyIsRead` | `src/Service/packet.c:219-241` | a response without answers is read whatever stands behind the questions |
| `PacketCodec.QueryRoundTrip` | `src/Service/packet.c:62-98` | every list of questions has a query, which is parsed into exactly these questions, its ID and its flags |
| `PacketCodec.ParsedBounds` | `src/Service/packet.c:81-96` | a parsed packet has as many questions as it counts, and they take no more room than the packet |
| `PacketCodec.BufferBounds` | `include/server.h:23-30` | a packet that fits the receive buffer has at most 168 questions, all within a pointer's reach, and no NAME field wraps around |
| `PacketCodec.ParsedIsWellRead` | `src/Service/packet.c:122-138` | a parsed answer belongs to question 0, and its address is one the platform prints |
| `Packet.ParseQuestion` | `src/Service/packet.c:84-95` | reads one question, its type and class byte by byte, and stops right behind it |
| `Packet.ParseRdata` | `src/Service/url.c:16-98` | reads record data by type, with the preference for MX |
| `Packet.ParseAnswer` | `src/Service/packet.c:124-138` | reads one answer, its type, class and time to live byte by byte, and stops right behind its record data |
| `Packet.PacketParse` | `src/Service/packet.c:33-141` | the two loops give the packet that stands in the buffer |
| `Packet.NameFields` | `src/Service/packet.c:187-197` | the 16-bit sums for the NAME fields |
| `Packet.UrlFormat` | `src/Service/url.c:113-168` | for a text in any memory, the record data of an answer stands in the scratch buffer and its length is returned; for an unsupported type nothing is written and -1 returned |
| `Packet.FormAnswers` | `src/Service/packet.c:201-213` | every answer in wire form, and the length they add up to |
| `Packet.WriteRecord` | `src/Service/packet.c:252-264` | one record stands at its place, its first twelve bytes given one by one, and nothing before it has changed |
| `Packet.WriteRecords` | `src/Service/packet.c:245-267` | the records stand one behind the other |
| `Packet.ResponseFormat` | `src/Service/packet.c:153-270` | the buffer holds the response, whatever stands behind the answers' texts: the query with flags and count replaced, the flags marked bit by bit, then the records; the length is the number of bytes written |
| `IdMap.IdMap.AddToMap` | `src/Server/map.c:39-67` | is the counter step and the lease, and nothing without an address |
| `IdMap.IdMap.QueryMap` | `src/Server/map.c:79-102` | returns and clears the slot exactly when its generation matches |
| `IdMap.OutstandingIsHeld` | `src/Server/map.c:57-64` | a request granted, not answered and not displaced is what its slot holds |
| `IdMap.HeldIsOutstanding` | `src/Server/map.c:57-98` | what a slot holds is such a request |
| `IdMap.RelaysCorrectly` | `src/Server/map.c:39-102` | a reply yields an ID and address if and only if they are those of a request outstanding under its serial |
| `IdMap.LeaseProtects` | `src/Server/map.c:52-60` | within its lease and until its first reply a granted request stays outstanding, whatever is allocated |
| `IdMap.SerialsAreDistinct` | `src/Server/map.c:45-60` | serials of unexpired unanswered requests differ, as do their slots |
| `IdMap.CounterCounts` | `src/Server/map.c:45-46` | the counter is the number of calls modulo 65535 |
| `IdMap.SerialsWrap` | `src/Server/map.c:45-49` | a serial is granted again only after a positive multiple of 65535 calls, and 65535 never |
| `IdMap.RefusedOnlyIfBlocked` | `src/Server/map.c:45-66` | a request is refused exactly when an earlier one is outstanding, not five seconds old, and their numbers modulo 65535 agree modulo 128; else it is granted its number modulo 65535 |
| `IdMap.RefusedAfter128` | `include/utils/map.h:6` | until the counter wraps, that one is a positive multiple of 128 calls earlier |
| `IdMap.FewAreGranted` | `src/Server/map.c:49-55` | the first 128 requests are all granted, and so is every request with at most 126 calls since the oldest that is not five seconds old |
| `IdMap.WrapRefuses` | `src/Server/map.c:45-55` | across the wrap 127 calls suffice: request 65661 is refused because of request 65534 |
| `IdMap.LateReplyReachesAnother` | `src/Server/map.c:20-29` | the scenario of the comment: once around the counter, a late reply goes to the wrong client |
| `HashTable.Fnv32` | `src/Utils/hash.c:199-210` | the loop computes the FNV-1a hash by exclusive or and multiplication on 32-bit words |
| `HashTable.OneByteTells` | `src/Utils/hash.c:199-210` | strings that differ in one byte never have the same hash |
| `HashTable.FnvValues` | `src/Utils/hash.c:199-210` | the hashes of the empty string and of "a" |
| `HashTable.Bucket.Find` | `src/Utils/hash.c:137-153` | the walk ends at the first node with the key, with its predecessor, or at the end |
| `HashTable.Bucket.Insert` | `src/Utils/hash.c:89-117` | adds the pair at the tail, or fails on a present key and changes nothing |
| `HashTable.Bucket.Remove` | `src/Utils/hash.c:119-157` | removes the key if present, crashes exactly on an empty bucket |
| `HashTable.Bucket.Query` | `src/Utils/hash.c:159-174` | returns the value exactly of a present key |
| `HashTable.Bucket.Modify` | `src/Utils/hash.c:176-192` | replaces the value exactly of a present key |
| `HashTable.DictRemove` | `src/Utils/hash.c:137-153` | unlinking one node removes exactly its key from the map |
| `HashTable.StringHash.ValidIs` | `src/Utils/hash.c:222-228` | the table's invariant: valid disjoint buckets whose maps are the parts of one map, each key in the bucket it hashes to |
| `HashTable.StringHash.constructor` | `src/Utils/hash.c:224-228` | the empty map |
| `HashTable.StringHash.Insert` | `src/Utils/hash.c:236-243` | adds an absent key to the map, fails on a present one |
| `HashTable.StringHash.Remove` | `src/Utils/hash.c:245-251` | removes the key from the map; crashes exactly when its bucket is empty |
| `HashTable.StringHash.Query` | `src/Utils/hash.c:253-267` | looks the key up in the map |
| `HashTable.StringHash.Modify` | `src/Utils/hash.c:269-276` | replaces the value of a present key |
| `HostLines.LatestFirst` | `src/Service/host.c:34-48` | a domain's list is its lines in reverse file order |
| `HostLines.BlockedByLine` | `src/Service/host.c:89-92` | the result is -1 exactly for a query of type 1 whose domain has a line with the text 0.0.0.0 |
| `HostLines.EveryLineIsServed` | `src/Service/host.c:83-100` | a query that is not blocked is answered with exactly the lines of its domain and type, latest first and each once, expiring 128 seconds from now |
| `HostTable.Hosts.AddLine` | `src/Service/host.c:23-48` | one line extends the table, which goes on to hold for each domain exactly its lines |
| `HostTable.Hosts.Load` | `src/Service/host.c:12-49` | the table holds the lines it was built from |
| `HostTable.Collect` | `src/Service/host.c:83-100` | blocked, or the entries of the asked type with a fresh expiry, in list order; what these are is told from the lines by `EveryLineIsServed` |
| `HostTable.Hosts.Query` | `src/Service/host.c:63-101` | the answer from the lines: -1 when blocked, else exactly the domain's lines of the asked type, latest first and each once |
| `Answering.StoreMembers` | `src/Service/query.c:29-47` | what storing leaves in the cache was there or is an answer of the first question's type |
| `Answering.StoreIsLatest` | `src/Service/query.c:29-46` | after storing, the cache is what fits of the records of all answers of the first question's type, the last answer first, and of what was in it behind them |
| `Answering.LatestPlaces` | `src/Service/query.c:34-43` | these records are of exactly the answers of that type, the last first and each once, field by field |
| `Answering.StoredIsCached` | `src/Service/query.c:44` | an answer of the type is cached if fewer others of it follow than the cache has slots |
| `Answering.BlockedUnlessCached` | `src/Service/query.c:120-181` | a name is blocked exactly when the host file blocks it and the cache has no address for it |
| `Answering.FindsNothing` | `src/Service/query.c:120-181` | a question finds nothing exactly when the cache has no live record of its name and type and the host file no line |
| `Answering.StoredIsServed` | `include/cache.h:20` | such an answer is served to exactly the questions of its name and of its type modulo 256 until its time is up; with both types below 256 never for another type |
| `Answering.TypesConfused` | `include/cache.h:20` | a record of type 1 answers a question of type 257 |
| `Answering.Assembly` | `src/Service/query.c:59-106` | the answers are the concatenation over the questions of cache hits or else host hits, told from the cache before the query; the first question without any decides the return value |
| `Answering.AnswersCount` | `src/Service/query.c:86-87` | the number of answers is the sum of the counts |
| `Answering.AnswerOrigin` | `src/Service/query.c:91-103` | every answer carries the number, type and class of one question and comes from a record that answers it |
| `Answering.QuestionsInOrder` | `src/Service/query.c:93` | answers stand in the order of the questions they belong to, whose numbers they carry modulo 256 |
| `Answering.QueryKeepsRecords` | `src/Service/query.c:59-106` | a query neither adds nor loses a record |
| `Answering.StoreStocks` | `src/Service/query.c:29-47` | storing a response whose stored names are well-formed keeps every cached record sendable |
| `Answering.LoadedIsSupported` | `src/Service/query.c:59-106` | what a query loads from sendable records can be sent exactly when every question before the first one without an answer asks for a supported type |
| `Answering.SentIsSupported` | `src/Server/basic.c:162-193` | what the relay sends of it can be sent exactly when some question finds nothing or all types are supported |
| `Answering.LoadedFits` | `src/Service/query.c:84-88` | it loads fewer than 65536 answers |
| `Query.Resolver.UrlStore` | `src/Service/query.c:29-47` | the cache afterwards: what fits of the records of all answers of the first question's type, the last first, and of the old contents behind them |
| `Query.Resolver.QnameSearch` | `src/Service/query.c:120-181` | the cache's hits, and the host table's when there are none |
| `Query.Resolver.UrlQuery` | `src/Service/query.c:59-106` | return value, packet and rotated cache afterwards; a miss or a blocked name leaves the count 0 |
| `Relay.RunProjects` | `src/Server/basic.c:133-196` | every run of the relay is, step by step, a run of the ID map |
| `Relay.RepliesReachTheirClients` | `src/Server/basic.c:149-152` | a response is sent on if and only if a query is pending under its ID, and then to that query's sender with its ID and otherwise unchanged |
| `Relay.LeaseHolds` | `src/Server/basic.c:167-180` | within its lease a query sent upstream stays pending, and its first reply reaches its sender |
| `Relay.ReplyKeepsIdBytes` | `src/Server/basic.c:149-152` | what a client gets starts with the two bytes its query started with, and goes on like the reply |
| `Relay.EchoHasSerial` | `src/Server/basic.c:149-176` | a reply that starts with the two bytes sent upstream has the serial as its ID |
| `Relay.CachedWasReceived` | `src/Server/basic.c:142` | every cached record is an answer of an earlier response to a question of its type |
| `Relay.ReceivedIsCached` | `src/Server/basic.c:142` | after a response, each of its answers of the first question's type is cached, unless as many others as the cache has slots follow it |
| `Relay.AnswersHaveSources` | `src/Service/query.c:90-99` | every answer served belongs to a question of the query and is a received answer with its TTL decayed to what is left, or a host line of the question's name and type, the cache having no live record |
| `Relay.QueryIsDecided` | `src/Server/basic.c:162-196` | when a query is answered, when with a name error, and that an unknown one goes nowhere exactly while the next serial's slot is leased, and upstream under that serial otherwise |
| `Relay.ClientReads` | `src/Server/basic.c:187-193` | the bytes sent are read by the client as its own ID and questions and the answers in order exactly when every answer is restorable, every pointer leads to its suffix and, with any answers, the query ends with its questions |
| `Relay.AddressesAreConveyed` | `src/Server/basic.c:187-193` | whatever is asked, any addresses sent in answer are read by the client as sent |
| `Relay.AnswersCanBeSent` | `src/Server/basic.c:113-210` | over every run whose responses met their condition, what the relay answers can be sent exactly when it is nothing or all types asked for are supported, as they are for every fair query |
| `Relay.UnknownIsNotFound` | `src/Service/query.c:120-181` | a question that no earlier response and no host line has answered finds nothing |
| `Relay.LineIsFound` | `src/Service/query.c:156-164` | a question with a host line, and none that blocks it, finds something |
| `Relay.CachedIsRestorable` | `src/Service/query.c:84-101` | an answer from the cache reads back exactly when the one it was stored from would, and an address always |
| `Relay.ClientReadsSourced` | `src/Server/basic.c:113-210` | from end to end, over every run and from conditions on packets and host lines alone: what the relay answers can be sent; the client reads exactly these answers if and only if the pointers lead to their suffixes, as they do for names in the first question, and the query ends with its questions or has no answer; each answer has its source in an earlier response or in a host line |
| `Relay.ServesAddress` | `src/Server/basic.c:133-196` | those conditions can be met: for any name and address, a run of two packets in which the address received in a response is served to a query, with what is left of its time |
| `Server.Server.HandleResponse` | `src/Server/basic.c:133-154` | the response branch is the state machine's step, output included |
| `Server.Server.PassOn` | `src/Server/basic.c:145-153` | the response goes to the holder of its ID, under the holder's own ID, or nowhere |
| `Server.Server.AskUpstream` | `src/Server/basic.c:166-181` | the query goes upstream under the granted serial, or nowhere when the map is busy |
| `Server.Server.HandleQuery` | `src/Server/basic.c:155-196` | the query branch is the state machine's step, output included, whenever what it sends can be sent |
| `Server.Server.ConnectHandle` | `src/Server/basic.c:113-210` | handling one packet is one step of the state machine and puts that step's output on the wire; of a query it needs exactly that what it finds can be sent and counted, given that the cached records can be sent, which responses keep |
| `Server.Server.Serve` | `src/Server/basic.c:70-97` | handling a sequence of packets, each of which meets its condition, continues the run by one step for each, and puts that step's output on the wire |
| `Server.Server.RotateLate` | `src/Service/cache.c:316-323` | a late rotation that survives leaves the run a run |
| `Server.Server.ScanCache` | `src/Server/basic.c:219-234` | a round of the scan thread is the run's expiry step |
| `Server.Server.FlushCache` | `src/Server/console.c:99` | a flush that survives is the run's flush step |
| `Server.Launch` | `src/Server/basic.c:41-53` | the server starts in the start state of the machine, with the lines of the host file |
| `Server.SentIsRead` | `src/Server/basic.c:187-193` | the bytes put on the wire for such a query go to its sender, who reads the answers of the run's step in them under exactly the same condition |

## Left out

- Sockets, timeouts, the console, logging and debug output: input and output only.
- Threads and locks: locked regions are atomic steps, and the clock is read once per step.
- Memory reclamation (`cacheFree`, `packetFree`, `free_hash`) and leaks: values are modelled, not their storage.
- Reading the host file and splitting its lines: the model starts from the (address, domain) pairs.
- The flag that should stop a host query: the source tests the pointer, so it never takes effect.
- The platform's address conversions: a parameter with a stated law.
- TXT and other unsupported record types: the code returns an error for them.
- Malformed and truncated packets and undersized buffers: reading them is undefined in the source, so the parsing methods require a packet that can be read.
- List operations that nothing here uses: tail insertion, replacement, tail rotation, the test for a single node.
- The preference of a record that is not MX, and other fields the source leaves unset: read as 0.
- `PacketCodec.MessageRoundTrip`: leaves one case undecided, a compressed name whose pointer misses its suffix by more than the length of the suffix and one byte, or over bytes of 192 or more; over bytes below 192 it can only read back if a zero byte stands at the right place (`UrlCodec.PointsToEnd`). `Relay.ClientReadsSourced` lets a query ask for names in its first question only or, over bytes below 192, in its first three, which excludes that case.
- `PacketCodec.TrailedIsMisread`: says nothing of other bytes behind the questions, which the client reads as the first answer under a type below 256.
- `Query.Resolver.UrlQuery`: for at most 65535 loaded answers, because the count is kept in 16 bits (`Answering.LoadedFits` says when that holds); the packet's answers and count are assigned once behind the loop instead of in every round, which no one can observe within the step.
- `Packet.ResponseFormat`: for answers of the supported types, whose names are well-formed and fit the scratch buffer. For any other type `Packet.UrlFormat` returns -1, which the source takes as a length of 65535.
- `UrlCodec.FormatName`: the loop over the memory from the text on must end within the scratch buffer; what it finds on the way is arbitrary.
- `Server.Server.Serve`: packets that cannot be read, and packets beyond their conditions; scans, flushes and late rotations come between two calls, not within one.
