# Verified model of an STM32/FreeRTOS firmware tree

A Dafny 4.11 model of the algorithmic cores of the firmware, with proofs. Check all of it with

    dafny verify --resource-limit 2000000 --warn-contradictory-assumptions dfyconfig.toml

Each component has a specification on values (what an operation does to the abstract state), classes and
methods that work as the C code does and are proved against that specification, and lemmas about the
specification that hold for every input, every run or every reachable state.

| files | component | main results |
|---|---|---|
| `Heap4` | heap_4 allocator | in every reachable state the free list is determined by the live blocks alone (`Canonical`), so history leaves no trace (`HistoryIndependent`), how many bytes of which block a request gets, freeing a block just allocated restores the heap exactly, and freeing everything in any order restores the initial block |
| `Json*` | cJSON | the grammar of exactly the texts that are accepted, and as what; parsing undoes printing for every tree and both formats, whatever follows the text; the layout of printed text, token by token; printing never depends on the buffer it grows; string decoding never leaves the block its first pass measured; no allocation is lost or freed twice under any pattern of refusals; minifying formatted text gives the unformatted text, minifying any text that parses keeps its value, and what minifying keeps of any text at all; comparison is equality of meaning on exactly the trees that do not contradict themselves |
| `EventGroups` | event groups | no blocked task's condition ever holds; setting bits releases exactly the satisfied waiters whatever their order; a wait that is met at once, or whose time is up, is the same as blocking or calling again; the rendezvous is a reusable barrier |
| `CoRoutines` | co-routine scheduler | a sleep of d ticks ends exactly d ticks later across counter wraps, or earlier by an event sent to that sleeper; nobody is readied twice; the best ready co-routine runs, nobody overtakes one of the same priority, and as many turns as there are equals serve each of them once |
| `Mqtt*` | MQTT packet layer | the resumable reader takes the packets of any stream off it whatever the chunks, and the exact condition under which the blocking one splits the stream alike; packets sent one after another are received as they were sent; PUBLISH, SUBSCRIBE, UNSUBSCRIBE and CONNECT byte by byte as MQTT 3.1.1 has them, their round trips with the exact byte counts, and exactly what the readers take from any packet at all |
| `SymbolTable` | snapshot recorder's symbol table | places are a persistent injective map packed into bytes; exactly when a handle survives reopening, and exactly when two calls of a run return one handle for different names |
| `TracePages` | streaming recorder's page buffer | the room counter is right after every run; a run delivers all that was accepted, once and in order, if and only if every write that closes a page is harmless to what waits behind that page, as in every run without drops |

`Wrappers` and `Bytes` hold the option type and what "these bytes were written here" means.

How the code is represented:

* Heap memory is an array of block headers indexed by address; sizes are 32 bits wide, alignment and header
  take 8 bytes, the top bit of a size marks an allocated block.
* JSON numbers are reals. `strtod` is the exact value of the longest decimal prefix, `sprintf` a parameter that
  gives the text of a number; where a law needs it to, the text reads back as the number (`Shows`).
* Allocators, transports, stream ports and interrupts are scripts: sequences of answers or of interrupts that say
  how each call ends. A theorem about all scripts is a theorem about all failures and interleavings.
* Event words are sets of bit numbers, and critical sections are atomic steps. Tick counters count modulo
  an arbitrary positive range.
* C strings are sequences without NUL; text given to the JSON parser has its NUL at the end.

Where the code does not do what its comments suggest, the code is followed and the exact condition is proved:

* `MqttReader.ReadersAgree`: the blocking reader ignores what its length decoder reports. It makes up a packet
  exactly when the stream ends inside a length field that adds up to 0 so far, or when a fifth length byte is
  announced and the first four are followed by as much as they say, if it fits the buffer (`Misread`); `HeaderAlone` is such a stream of
  one byte.
* `MqttLength.PacketLenIsEnough`: `MQTTPacket_len` is one too large at 127, 16383, 2097150 and 2097151 only.
* `MqttPackets.PublishReturnCode`, `MqttPackets.SubscribeReturnCode`, `MqttUnsubscribe.UnsubscribeReturnCode`:
  exactly which buffers that hold no message are answered with 1: those cut short in a length field of one byte,
  and otherwise those with a length field of more than four bytes, with (for PUBLISH) QoS 3, or without room for their identifier.
* `MqttConnect.VersionCheckMeaning`: the protocol name may be any prefix or extension of the right one.
* `MqttConnect.ConnectRoundTrip`: the deserialiser refuses exactly what `Acceptable` excludes.
* `JsonStrings.BadDigits`: four wrong characters behind a `\u` are not refused but read as a NUL, so nothing is seen of
  the literal from there on. The two passes over a string may then disagree on what is escaped: the second one takes
  a backslash that is left on its own in front of the closing quote for an escaped quote (`Piece.Dangling`).
* `JsonGrammar.AcceptedExactly` says which texts are accepted; white space is any character up to the space.
* `JsonCompare.CompareMeaning`: repeated keys are allowed, and two trees compare equal exactly when they mean the
  same and in neither, at any depth, two members of one name mean different things. So a tree equals a copy of
  itself exactly when it contradicts itself nowhere; `RepeatedKeyBreaksIt` has an object that does.
* `SymbolTable.ReopenSame`: a handle is 256 too large when the name has 250 bytes or more, and only then differs
  from the one that reopening returns.
* `SymbolTable.HandlesClash`: so handles are not injective. Two calls of a run about different pairs get the same
  handle exactly when one of them creates an entry for a name of 250 bytes and the other is answered with the place
  of the entry right behind it; `LongNameSharesItsHandle` has two such calls.
* `TracePages.OrderedExactly`: after dropped events, order can be lost (`DroppingDisorders`). In a run without failed
  transfers every state is in order exactly if, whenever a write closes a page, its bytes commute with those that
  wait behind that page. `ResumesExactly` says after which drops writing goes on where pages stay in turn.
* `TracePages.RestartCounts`: restarting the recorder does not restore the counter of free bytes.

## Model

| member | source | states |
|---|---|---|
| Heap4.InsertSeparated | FreeRTOS/src/heap_4.c:377-435 | inserting a block apart from the free ones keeps the list strictly sorted with no two blocks touching, so merging is complete in both directions |
| Heap4.InsertCovers | FreeRTOS/src/heap_4.c:377-435 | after an insertion exactly the old free bytes and the bytes of the block are free |
| Heap4.InsertSum | FreeRTOS/src/heap_4.c:377-435 | merging neither loses nor invents bytes |
| Heap4.SeparatedUnique | FreeRTOS/src/heap_4.c:377-435 | a coalesced, sorted free list is determined by the set of free bytes |
| Heap4.Canonical | FreeRTOS/src/heap_4.c:113-308 | two heaps with the same bounds and live blocks have the same free list, block for block |
| Heap4.InitialInv | FreeRTOS/src/heap_4.c:329-374 | the heap starts as one block that tiles it |
| Heap4.MallocMeaning | FreeRTOS/src/heap_4.c:113-260 | NULL exactly when the request is 0 or no free block fits the rounded request; otherwise an aligned, new block large enough, all of whose bytes were free, at the first free block that fits |
| Heap4.HandedOut | FreeRTOS/src/heap_4.c:113-260 | the request with its 8 bytes of header, rounded up to a multiple of 8, comes out of the first free block that fits if more than 16 bytes remain, which stay free; otherwise the whole block is handed out; no other byte changes hands, and the sum of the free sizes falls by just that much |
| Heap4.MallocInv | FreeRTOS/src/heap_4.c:113-260 | allocation keeps tiling, order, coalescing, alignment and disjointness |
| Heap4.FreeInv | FreeRTOS/src/heap_4.c:263-308 | so does freeing any block, or what is no block in use |
| Heap4.RunAppends | FreeRTOS/src/heap_4.c:113-308 | a run takes each of its steps, one after the other, and nothing else |
| Heap4.RunInv | FreeRTOS/src/heap_4.c:113-308 | so does every run of allocations and frees; the bounds of the heap never move |
| Heap4.HistoryIndependent | FreeRTOS/src/heap_4.c:113-308 | runs that leave the same live blocks leave the same heap |
| Heap4.MallocThenFree | FreeRTOS/src/heap_4.c:161-224 | freeing what was just allocated restores the previous heap exactly, whether the block was split or not |
| Heap4.FreeAll | FreeRTOS/src/heap_4.c:263-308 | freeing all live blocks in any order, with any other frees among them, gives back the initial single block |
| Heap4.RemainderInserted | FreeRTOS/src/heap_4.c:186-206 | inserting the split-off rest is the same as replacing the block in place: it never merges |
| Heap4.Allocator.RequestChecks | FreeRTOS/src/heap_4.c:128-156 | the tests on the top bit and on the free byte counter never refuse what first fit would grant |
| Heap4.Allocator.constructor | FreeRTOS/src/heap_4.c:329-374 | before the first request the abstract heap is one free block between the first multiple of 8 and the last one that leaves room for a header |
| Heap4.Allocator.HeapInit | FreeRTOS/src/heap_4.c:329-374 | builds the end marker and the first block at the aligned addresses |
| Heap4.Allocator.FindPlace | FreeRTOS/src/heap_4.c:377-388 | the walk stops in front of the first block behind the new one |
| Heap4.Allocator.InsertBlockIntoFreeList | FreeRTOS/src/heap_4.c:377-435 | the links in memory then are those of the list with the block inserted and merged; blocks in use keep their headers |
| Heap4.Allocator.FindBlock | FreeRTOS/src/heap_4.c:160-170 | the walk finds the first block that fits, or the end marker exactly when none does |
| Heap4.Allocator.Split | FreeRTOS/src/heap_4.c:186-206 | the rest of a large block goes back on the free list |
| Heap4.Allocator.Malloc | FreeRTOS/src/heap_4.c:113-260 | links, sizes and counters in memory after the call are those of the specified heap: the counter has fallen by the size of the block handed out, whose header holds that size and the top bit, and the minimum-ever counter is the least sum of free sizes over all states so far |
| Heap4.Allocator.Free | FreeRTOS/src/heap_4.c:263-308 | the same for freeing NULL, a live block, or any place whose header does not look in use; a block just freed is such a place, so freeing it again does nothing |
| Heap4.Allocator.ApplicationWrite | FreeRTOS/src/heap_4.c:113-260 | whatever the application writes into memory it was given, the heap stays well formed |
| MqttLength.LengthRoundTrip | MQTT/MQTTPacket.c:29-81 | decoding an encoded length gives it back and consumes exactly its bytes |
| MqttLength.ReencodedIsShort | MQTT/MQTTPacket.c:29-48 | encoding a decoded length takes no more bytes than it came in |
| MqttLength.PacketLenIsEnough | MQTT/MQTTPacket.c:84-98 | the computed packet length is exact, except for four values where it is one too large |
| MqttLength.Encode | MQTT/MQTTPacket.c:29-48 | writes the encoding and nothing else |
| MqttReader.ReadersAgree | MQTT/MQTTPacket.c:290-411 | at any place of any stream the two readers come to the same if and only if the blocking one does not make up a packet there, and the condition for that |
| MqttReader.HeaderAlone | MQTT/MQTTPacket.c:290-321 | a stream of one byte that is a packet for the blocking reader and nothing for the other |
| MqttReader.ParseMonotonic | MQTT/MQTTPacket.c:362-411 | once a packet is decided, bytes that arrive later do not change it |
| MqttReader.SplitIdentically | MQTT/MQTTPacket.c:290-411 | the blocking reader splits off all packets that the other one does, and then goes on from the rest; both split the stream alike if and only if that rest is not misread |
| MqttReader.Transport.GetByte | MQTT/MQTTPacket.c:332-340 | one byte, none yet, or an error |
| MqttReader.Transport.DecodeNb | MQTT/MQTTPacket.c:324-359 | resumed any number of times, the decoder has seen exactly the length field of the stream |
| MqttReader.Transport.ReadNb | MQTT/MQTTPacket.c:362-411 | for every chunking: an incomplete packet means that what was taken so far is incomplete, a result is the next packet of the stream with its bytes in the buffer, an error a transport error or a malformed packet |
| MqttReader.Poll | MQTT/MQTTPacket.c:362-411 | calling again until the transport is drained yields, in order, exactly the packets that can be split off what has been taken, also when it stops inside a packet |
| MqttReader.Stream.Decode | MQTT/MQTTPacket.c:54-81 | the blocking decoder consumes the length field, at most four bytes of it |
| MqttReader.Stream.Read | MQTT/MQTTPacket.c:290-321 | the blocking reader returns what the specification says of the bytes, also when the length field is malformed |
| MqttWire.IntRoundTrip | MQTT/MQTTPacket.c:125-171 | two bytes, high one first |
| MqttWire.StringRoundTrip | MQTT/MQTTPacket.c:178-239 | reading a counted string undoes writing it |
| MqttWire.MqttString.LengthOfContent | MQTT/MQTTPacket.c:194-252 | length and content of a string agree exactly when not both of its forms are used with different lengths |
| MqttWire.WriteString | MQTT/MQTTPacket.c:194-209 | writes the counted form of whichever form the string has |
| MqttWire.ReadLenString | MQTT/MQTTPacket.c:215-239 | a string is read only if it ends within the packet |
| MqttPackets.HeaderBits | MQTT/MQTTSerializePublish.c:67-72 | the fields of the fixed header are recovered from its byte |
| MqttPackets.FrameRoundTrip | MQTT/MQTTPacket.c:29-119 | header and remaining length of a framed packet are recovered, and its body is exactly the rest |
| MqttPackets.DecodeBuf | MQTT/MQTTPacket.c:100-119 | the length field at the start of a buffer |
| MqttPackets.PublishIsRead | MQTT/MQTTDeserializePublish.c:36-69 | whatever holds a message is read as that message, also with a longer length field than needed |
| MqttPackets.PublishRoundTrip | MQTT/MQTTDeserializePublish.c:36-69 | deserialising a serialised PUBLISH recovers every field, for every topic and payload |
| MqttPackets.PublishReturnCode | MQTT/MQTTDeserializePublish.c:42-69 | a message is always answered with 1; and exactly which buffers that hold no message are answered with 1 as well |
| MqttPackets.MalformedPublishLooksFine | MQTT/MQTTDeserializePublish.c:42-69 | a concrete malformed packet that reports success |
| MqttPackets.IdentifierBehindPublish | MQTT/MQTTDeserializePublish.c:54-64 | six bytes that are answered with 1, an identifier from behind the packet and a payload of -2 bytes |
| MqttPackets.SerializePublish | MQTT/MQTTSerializePublish.c:31-91 | too short a buffer is left untouched; otherwise the return value is the exact size, at most the precomputed one, and those bytes are the packet |
| MqttPackets.DeserializePublish | MQTT/MQTTDeserializePublish.c:36-69 | reads what the specification says of any readable packet |
| MqttPackets.FiltersRoundTrip | MQTT/MQTTSubscribeServer.c:52-64 | any list of topic filters with their QoS is read back whole |
| MqttPackets.SubscribeRoundTrip | MQTT/MQTTSubscribeServer.c:35-70 | deserialising a serialised SUBSCRIBE recovers identifier, flag and filters |
| MqttPackets.SubscribeReturnCode | MQTT/MQTTSubscribeServer.c:35-70 | a request is always answered with 1; and exactly which buffers that hold none are answered with 1 as well |
| MqttPackets.IdentifierBehindSubscribe | MQTT/MQTTSubscribeServer.c:45-66 | four bytes that are answered with 1 and an identifier from behind the packet |
| MqttPackets.SubscribeLength | MQTT/MQTTSubscribeClient.c:28-37 | the accumulated length is the size of the variable header and payload |
| MqttPackets.SerializeSubscribe | MQTT/MQTTSubscribeClient.c:50-86 | the exact packet, or an untouched buffer |
| MqttPackets.DeserializeSubscribe | MQTT/MQTTSubscribeServer.c:35-70 | fills the arrays with the filters of the packet, in order, and counts them |
| MqttUnsubscribe.TopicsRoundTrip | MQTT/MQTTUnsubscribeServer.c:50-58 | any list of topics is read back whole |
| MqttUnsubscribe.UnsubscribeRoundTrip | MQTT/MQTTUnsubscribeServer.c:34-66 | deserialising a serialised UNSUBSCRIBE recovers identifier, flag and topics |
| MqttUnsubscribe.UnsubscribeReturnCode | MQTT/MQTTUnsubscribeServer.c:34-66 | a request is always answered with 1; and exactly which buffers that hold none are answered with 1 as well |
| MqttUnsubscribe.IdentifierBehindUnsubscribe | MQTT/MQTTUnsubscribeServer.c:45-61 | four bytes that are answered with 1 and an identifier from behind the packet |
| MqttUnsubscribe.UnsubscribeLength | MQTT/MQTTUnsubscribeClient.c:28-36 | the accumulated length is the size of the variable header and payload |
| MqttUnsubscribe.SerializeUnsubscribe | MQTT/MQTTUnsubscribeClient.c:49-82 | the exact packet, or an untouched buffer |
| MqttUnsubscribe.DeserializeUnsubscribe | MQTT/MQTTUnsubscribeServer.c:34-66 | fills the array with the topics of the packet, in order, and counts them |
| MqttForm.ConnectForm | MQTT/MQTTConnectClient.c:58-121 | a CONNECT packet in numbers: 0x10, its length, name and level of the protocol, flags, keep-alive time with its high byte first, and the strings in their order |
| MqttForm.PublishForm | MQTT/MQTTSerializePublish.c:58-91 | a PUBLISH packet in numbers |
| MqttForm.SubscribeForm | MQTT/MQTTSubscribeClient.c:50-86 | a SUBSCRIBE packet in numbers: 0x82, or 0x8A with the DUP flag |
| MqttForm.UnsubscribeForm | MQTT/MQTTUnsubscribeClient.c:49-82 | an UNSUBSCRIBE packet in numbers: 0xA2, or 0xAA with the DUP flag |
| MqttForm.LengthForm | MQTT/MQTTPacket.c:29-48 | the one to four bytes of a length field, in numbers |
| MqttAccepted.FrameForm | MQTT/MQTTPacket.c:54-117 | which buffers hold a length field, and the place and the end of the packet's body in numbers; a fifth length byte moves the body and has no part in the value |
| MqttAccepted.ConnectReadExactly | MQTT/MQTTConnectServer.c:30-108 | for any packet and any options: these are read if and only if the first byte is 0x10 to 0x1F and the bytes start with a protocol name the check lets through, its level, flags that say what is there, and the strings |
| MqttAccepted.PublishReadExactly | MQTT/MQTTDeserializePublish.c:36-69 | for any packet and any fields, QoS 3 and identifiers behind the packet included: these are stored if and only if the packet starts with them; the return code in every case |
| MqttAccepted.FiltersExactly | MQTT/MQTTSubscribeServer.c:55-64 | filters are read if and only if they stand there, up to the end or up to what is no filter |
| MqttAccepted.SubscribeReadExactly | MQTT/MQTTSubscribeServer.c:35-70 | for any packet, the answer in full: return code, flag, identifier and filters |
| MqttAccepted.TopicsExactly | MQTT/MQTTUnsubscribeServer.c:54-60 | the same of topics |
| MqttAccepted.UnsubscribeReadExactly | MQTT/MQTTUnsubscribeServer.c:34-66 | for any packet, the answer in full |
| MqttForm.SampleConnect | MQTT/MQTTConnectServer.c:51-108 | one CONNECT packet of 27 bytes that is read with all its fields |
| MqttStream.SentIsReceived | MQTT/MQTTPacket.c:362-411 | packets framed one after another split into just these packets, and then into what follows |
| MqttStream.PacketRead | MQTT/MQTTPacket.c:362-411 | a framed packet at any place of a stream is read as it is if it fits the buffer, and is an error if not |
| MqttStream.CutShort | MQTT/MQTTPacket.c:362-411 | as long as some of its bytes are missing the reader waits |
| MqttConnect.FlagBits | MQTT/MQTTConnectClient.c:90-103 | each connect flag is recovered from its bits, for every combination of options |
| MqttConnect.VersionCheckMeaning | MQTT/MQTTConnectServer.c:30-41 | exactly which protocol names are taken for which version |
| MqttConnect.ConnectRoundTrip | MQTT/MQTTConnectServer.c:51-108 | a serialised CONNECT is read back with all its fields if its credentials are acceptable, and refused if not |
| MqttConnect.ConnectLength | MQTT/MQTTConnectClient.c:27-48 | the accumulated length is the size of the variable header and payload |
| MqttConnect.SerializeConnect | MQTT/MQTTConnectClient.c:58-121 | the exact packet, or an untouched buffer |
| MqttConnect.DeserializeConnect | MQTT/MQTTConnectServer.c:51-108 | reads what the specification says of any readable packet |
| EventGroups.BitNumbers | FreeRTOS/src/event_groups.c:56-61 | usable bits are those below 24, and bits 24, 25 and 26 of an item mean clear on exit, unblocked by bits, and wait for all |
| EventGroups.MetMeaning | FreeRTOS/src/event_groups.c:671-707 | a condition is met if every bit asked for is set, or some bit |
| EventGroups.SplitMeaning | FreeRTOS/src/event_groups.c:540-596 | the released waiters are exactly those whose condition holds, the others are kept |
| EventGroups.ClearMaskMeaning | FreeRTOS/src/event_groups.c:575-582 | a bit is cleared exactly if some released waiter asked for it |
| EventGroups.LoopTests | FreeRTOS/src/event_groups.c:548-582 | the loop's tests on the control bits of a packed item decide the condition that was asked for |
| EventGroups.AfterSetMeaning | FreeRTOS/src/event_groups.c:519-610 | setting bits releases exactly the waiters satisfied by old and new bits, hands each that value, and leaves it minus what they clear |
| EventGroups.OrderIndependent | FreeRTOS/src/event_groups.c:519-610 | the order of the waiters changes neither who is released, nor what they find, nor the bits |
| EventGroups.StepInv | FreeRTOS/src/event_groups.c:191-610 | every call, timeout and resumption keeps: no blocked task's condition is true of the bits |
| EventGroups.RunAppends | FreeRTOS/src/event_groups.c:191-610 | a run takes its steps one after the other, as far as each of them may be taken |
| EventGroups.RunInv | FreeRTOS/src/event_groups.c:191-610 | so does every run from any such state |
| EventGroups.ResumeMeaning | FreeRTOS/src/event_groups.c:400-455 | a task released by bits returns a value that meets its request; one that timed out returns the current bits |
| EventGroups.WaitMeaning | FreeRTOS/src/event_groups.c:311-396 | exactly which bits remain after a call, what it returns, and whether the task has joined the end of the list |
| EventGroups.WaitAsIfBlocked | FreeRTOS/src/event_groups.c:338-352 | a wait whose condition is met already leaves and returns what blocking, being released at once and resuming does |
| EventGroups.ResumeAsIfCalled | FreeRTOS/src/event_groups.c:400-455 | a task whose time was up goes on as if it called again without blocking; a released one changes no bits |
| EventGroups.SyncMeaning | FreeRTOS/src/event_groups.c:191-248 | a rendezvous that is not complete is setting and then waiting; one that is returns the bits before any were taken away, and takes the mask from what setting left |
| EventGroups.DeletedFindsNothing | FreeRTOS/src/event_groups.c:613-653 | a task waiting on a deleted group returns no bits, which never meets its request |
| EventGroups.EarlyArrivals | FreeRTOS/src/event_groups.c:191-245 | all arrivals at a rendezvous before the last one block, in order, with the bits collected, while others wait for something else |
| EventGroups.Barrier | FreeRTOS/src/event_groups.c:191-308 | the last arrival releases all of them and nobody else, every call returns the same value covering the mask, and the mask is clear again |
| EventGroups.EventGroup.SetBits | FreeRTOS/src/event_groups.c:519-610 | the loop that removes while it walks does what the specification of setting says, and returns the bits that are left |
| EventGroups.EventGroup.WaitBits | FreeRTOS/src/event_groups.c:311-396 | returns at once, or blocks with the request packed into its item; the invariant holds |
| EventGroups.EventGroup.Sync | FreeRTOS/src/event_groups.c:191-248 | the same for the rendezvous |
| EventGroups.EventGroup.ClearBits | FreeRTOS/src/event_groups.c:461-485 | returns the bits before, leaves those that are not to be cleared, releases nobody and keeps the invariant |
| EventGroups.EventGroup.Finish | FreeRTOS/src/event_groups.c:400-455 | what a resumed task returns, and the bits it clears if its condition came true meanwhile |
| EventGroups.EventGroup.Delete | FreeRTOS/src/event_groups.c:613-627 | every waiter is taken off with nothing but the mark that it was unblocked |
| CoRoutines.ExactDelay | FreeRTOS/src/croutine.c:159-275 | a sleep of d ticks ends by timeout exactly d ticks later, or before that by an event that signalled this sleeper during this sleep |
| CoRoutines.OneWakePerSleep | FreeRTOS/src/croutine.c:197-275 | between two wake-ups of a co-routine it went to sleep again: nobody is readied twice |
| CoRoutines.StillAsleep | FreeRTOS/src/croutine.c:159-194 | until it is woken a sleeper keeps the due time it was given |
| CoRoutines.EmptyAtSwap | FreeRTOS/src/croutine.c:229-241 | when the counter wraps, the list that becomes the overflow list is empty |
| CoRoutines.TickKeepsTime | FreeRTOS/src/croutine.c:225-241 | the wrapped wake times in the two lists still stand for the unbounded due times after a tick, wrap included |
| CoRoutines.SleepKeepsTime | FreeRTOS/src/croutine.c:166-184 | so they do after putting a sleeper on the list its wrapped wake time selects |
| CoRoutines.HeadIsDue | FreeRTOS/src/croutine.c:243-252 | a head that is not later than the counter is due at this very tick |
| CoRoutines.NobodyIsDue | FreeRTOS/src/croutine.c:243-252 | stopping at the first later head misses nobody |
| CoRoutines.NewcomerIsLast | FreeRTOS/src/croutine.c:67-74 | a co-routine made ready is served after all others of its priority but the one being served |
| CoRoutines.ServingRotates | FreeRTOS/inc/list.h:277-288 | the one served has waited longest and then is last |
| CoRoutines.EveryTurn | FreeRTOS/inc/list.h:277-288 | as many turns as there are co-routines of a priority serve each of them exactly once, in the order of the line, which then is as before |
| CoRoutines.RemoveKeepsTurns | FreeRTOS/src/croutine.c:173 | taking one out of a ready list leaves the turns of the others |
| CoRoutines.InsertAscending | FreeRTOS/src/croutine.c:175-184 | a delayed list stays in ascending wake time |
| CoRoutines.Scheduler.constructor | FreeRTOS/src/croutine.c:308-326 | the empty scheduler satisfies the invariant |
| CoRoutines.Scheduler.Create | FreeRTOS/src/croutine.c:102-156 | a new co-routine is ready at its clipped priority |
| CoRoutines.Scheduler.AddToDelayedList | FreeRTOS/src/croutine.c:159-194 | moves the current co-routine from ready to the right delayed list, and to an event list if one is given |
| CoRoutines.Scheduler.RemoveFromEventList | FreeRTOS/src/croutine.c:328-350 | an interrupt moves the highest-priority waiter of an event list to the pending list and tells whether it should run |
| CoRoutines.Scheduler.Interrupt | FreeRTOS/src/croutine.c:328-350 | any burst of interrupts at any point where they are enabled keeps the invariant |
| CoRoutines.Scheduler.CheckPending | FreeRTOS/src/croutine.c:197-217 | everyone readied before or while it runs becomes ready, each once |
| CoRoutines.Scheduler.OneTick | FreeRTOS/src/croutine.c:225-272 | one tick wakes exactly those whose time has come |
| CoRoutines.Scheduler.CheckDelayed | FreeRTOS/src/croutine.c:220-275 | the co-routine clock catches up with the task clock modulo its range, tick by tick |
| CoRoutines.Scheduler.FindTop | FreeRTOS/src/croutine.c:286-295 | the walk down finds the highest priority with a ready co-routine, if there is any |
| CoRoutines.Scheduler.Choose | FreeRTOS/src/croutine.c:286-303 | the dispatched co-routine has the highest priority of the ready ones and it is its turn |
| CoRoutines.Scheduler.Schedule | FreeRTOS/src/croutine.c:278-305 | the whole call, with interrupts at every place where they can come: whoever has become ready stands behind all of the same priority who were ready before, and of the highest priority the one whose turn it is has been dispatched |
| JsonParse.Utf8RoundTrip | cJSON/cJSON.c:640-689 | decoding the UTF-8 form of a code point (RFC 3629, section 3) gives it back |
| JsonParse.DecodeFits | cJSON/cJSON.c:715-806 | the second pass over a string writes no more than the first one has counted, even while the two disagree on where escapes start |
| JsonParser.ParseBuffer.SkipWhitespace | cJSON/cJSON.c:967-985 | stops at the next character above a space, or in front of the final NUL |
| JsonParser.ParseBuffer.ParseHex4 | cJSON/cJSON.c:544-577 | the number, or 0 if one of the four is not a hexadecimal digit |
| JsonParser.ParseBuffer.EncodeUtf8 | cJSON/cJSON.c:640-689 | the loop from the last byte backwards writes the UTF-8 form |
| JsonParser.ParseBuffer.Utf16ToUtf8 | cJSON/cJSON.c:581-699 | surrogate pairs and single escapes as specified; nothing for a lone half |
| JsonParser.ParseBuffer.DecodeString | cJSON/cJSON.c:744-806 | stays within the block sized by the first pass for every input, and yields the decoded text |
| JsonParser.ParseBuffer.ParseString | cJSON/cJSON.c:702-828 | a string owns one block, a failure none |
| JsonParser.ParseBuffer.ParseNumber | cJSON/cJSON.c:270-344 | copies at most 63 number characters and moves on by what was converted |
| JsonParser.ParseBuffer.ParseValue | cJSON/cJSON.c:1216-1268 | the value as specified, owning exactly what was allocated for it; failing without a refused allocation only if the text is wrong |
| JsonParser.ParseBuffer.ParseArray | cJSON/cJSON.c:1345-1436 | the same for arrays; nothing stays allocated on failure |
| JsonParser.ParseBuffer.ParseObject | cJSON/cJSON.c:1501-1607 | the same for objects, whose keys are blocks of their own |
| JsonParser.ParseWithOpts | cJSON/cJSON.c:1004-1081 | for every pattern of refused allocations: the parsed tree and exactly its blocks, or nothing; failure means wrong text or a refusal during this call |
| JsonItems.Memory.Allocate | cJSON/cJSON.c:131-139 | a block not in use, or a refusal |
| JsonItems.Delete | cJSON/cJSON.c:218-239 | deleting a chain of items frees each of their blocks exactly once and no other |
| JsonItems.DeleteOne | cJSON/cJSON.c:218-239 | the same for one item with all below it |
| JsonItems.Duplicate | cJSON/cJSON.c:2558-2635 | a copy equal but for its blocks, or an empty container of the same kind and name if children are left out, with its blocks all new and all accounted for; or, if an allocation of this call is refused, nothing left allocated |
| JsonItems.DuplicateChildren | cJSON/cJSON.c:2601-2622 | the copied part of a chain is owned in full, whether the chain was finished or not |
| JsonItems.ErasedDenote | cJSON/cJSON.c:2558-2635 | items equal but for their blocks denote the same value |
| JsonRoundTrip.EscapesUndone | cJSON/cJSON.c:889-947 | both passes of the string parser undo the escapes of the printer, for every NUL-free string |
| JsonRoundTrip.StringUndone | cJSON/cJSON.c:702-950 | parsing a printed string gives it back and ends behind its quote |
| JsonRoundTrip.NumberUndone | cJSON/cJSON.c:270-344 | parsing a number's text gives the number, provided the text denotes it |
| JsonRoundTrip.ValueUndone | cJSON/cJSON.c:1216-1342 | parsing a printed value anywhere in a text gives the value and ends right behind it |
| JsonRoundTrip.ArrayUndone | cJSON/cJSON.c:1345-1498 | the same for arrays, formatted or not |
| JsonRoundTrip.ObjectUndone | cJSON/cJSON.c:1501-1721 | the same for objects, with line breaks and tabs |
| JsonRoundTrip.RenderNulFree | cJSON/cJSON.c:1271-1721 | printed text never contains a NUL |
| JsonRoundTrip.RoundTrip | cJSON/cJSON.c:1004-1721 | parsing the text of any printable tree within the nesting limit, formatted or not, gives the same tree, whether or not everything is to be read and, if not, whatever follows that does not go on like a number |
| JsonRoundTrip.WholeExactly | cJSON/cJSON.c:1036-1048 | asked to read everything, the parser accepts just those texts behind whose value nothing but characters up to a space follows, and gives the same value |
| JsonRoundTrip.ReprintIsStable | cJSON/cJSON.c:1004-1721 | whatever was parsed from any text prints to a text that parses to the same value |
| JsonStrings.LiteralMeaning | cJSON/cJSON.c:544-828 | string literals with every kind of escape, surrogate pairs, digits of either case and wrong digits are read as the characters they mean, up to the first NUL |
| JsonStrings.LiteralOf | cJSON/cJSON.c:702-828 | every literal that is accepted is written that way |
| JsonStrings.BadDigits | cJSON/cJSON.c:544-577 | of a literal, nothing is seen from a \u on that is not followed by four digits |
| JsonGrammar.AcceptedExactly | cJSON/cJSON.c:1004-1081 | a text is accepted as a value if and only if it is a spelling of that value by the grammar: byte order mark, white space, separators, literals, words, numbers of at most 63 characters, at most 1000 containers deep |
| JsonGrammar.FrontExactly | cJSON/cJSON.c:1004-1089 | without the demand for the end of the text: the first characters are read as a value if and only if they are a spelling of it, whatever follows, as long as that does not go on like a number |
| JsonGrammar.DocumentRead | cJSON/cJSON.c:1004-1081 | every spelling by the grammar is accepted as its value, to its end |
| JsonGrammar.TreeRead | cJSON/cJSON.c:1216-1268 | wherever the spelling of a value stands, it is read as that value and reading ends right behind it |
| JsonGrammar.TreeOf | cJSON/cJSON.c:1216-1268 | whatever has been read as a value is a spelling of it |
| JsonLayout.Layout | cJSON/cJSON.c:1439-1721 | printed text has between any two of its tokens exactly the line break and tabs, the tab, the space or the nothing that the two tokens and the open containers call for, and unformatted text nothing at all |
| JsonLayout.ValueLaid | cJSON/cJSON.c:1271-1342 | the same for a value at any place and depth |
| JsonLayout.EscapeIs | cJSON/cJSON.c:889-947 | what is written for each character, in numbers |
| JsonLayout.WordsAre | cJSON/cJSON.c:1271-1342 | the words, quotes and brackets, in numbers |
| JsonPrinter.EscapeCountIsExact | cJSON/cJSON.c:856-889 | the precomputed number of extra characters is what the escapes take |
| JsonPrinter.PrintBuffer.Ensure | cJSON/cJSON.c:377-462 | enough room with all that was printed kept, or failure only if memory was refused or the limit is reached |
| JsonPrinter.PrintBuffer.UpdateOffset | cJSON/cJSON.c:465-475 | moves to the first NUL behind the old offset |
| JsonPrinter.PrintBuffer.PrintString | cJSON/cJSON.c:831-950 | appends the escaped string |
| JsonPrinter.PrintBuffer.PrintNumber | cJSON/cJSON.c:478-541 | appends the text of the number |
| JsonPrinter.PrintBuffer.PrintValue | cJSON/cJSON.c:1271-1342 | appends exactly the rendering of the value, however often the buffer is replaced, or fails for lack of room or memory only |
| JsonPrinter.PrintBuffer.PrintArray | cJSON/cJSON.c:1439-1498 | the same for arrays, keeping the depth |
| JsonPrinter.PrintBuffer.PrintObject | cJSON/cJSON.c:1610-1721 | the same for objects |
| JsonPrinter.Print | cJSON/cJSON.c:1091-1164 | a block that holds exactly the rendering and its NUL and is all that stays allocated; nothing if and only if memory was refused during the call or the text is too long |
| JsonPrinter.PrintBuffered | cJSON/cJSON.c:1166-1194 | the same text whatever the starting size |
| JsonPrinter.PrintPreallocated | cJSON/cJSON.c:1196-1213 | succeeds if and only if the text and two more characters fit, and then the buffer starts with the same text |
| JsonMinify.Minify | cJSON/cJSON.c:2637-2705 | in place, the array ends up holding the minified text: the write position never passes the read position |
| JsonMinify.CopyLiteral | cJSON/cJSON.c:2682-2695 | string literals are copied whole, escapes included |
| JsonMinify.ValueBecomes | cJSON/cJSON.c:1271-1721 | at any place of a text, minifying the formatted rendering of a value leaves its unformatted rendering |
| JsonMinify.MinifyUnformats | cJSON/cJSON.c:2637-2705 | minifying the formatted text of any tree gives its unformatted text |
| JsonComments.MinifiedExactly | cJSON/cJSON.c:2637-2705 | a text can be minified if and only if it is a sequence of white space, closed comments, closed string literals and other characters, and then just the literals and the other characters are left |
| JsonComments.ScrapsRead | cJSON/cJSON.c:2637-2705 | the same from any place of a text on |
| JsonMinified.MinifiedParses | cJSON/cJSON.c:2637-2705 | whatever text the parser accepts whole, however laid out, can be minified, and the result is accepted whole with the same value |
| JsonMinified.ValueLeft | cJSON/cJSON.c:1216-1268 | wherever a value stands in a text, what minifying leaves of it parses to the same value and ends where minifying goes on |
| JsonCompare.CompareMeaning | cJSON/cJSON.c:2807-2930 | for any two trees, the comparison is true if and only if neither contradicts itself and both denote the same value, objects being finite maps |
| JsonCompare.CompareIsEquivalence | cJSON/cJSON.c:2807-2930 | comparing is symmetric and transitive on all trees, and true of a tree and its copy if and only if the tree is consistent |
| JsonCompare.DistinctIsConsistent | cJSON/cJSON.c:2884-2919 | trees with distinct keys per object are consistent, so on them comparing is equality of value |
| JsonCompare.RepeatedKeyBreaksIt | cJSON/cJSON.c:2884-2919 | an object with a repeated key equals a copy of itself if and only if the two members mean the same |
| JsonCompare.LookupMeaning | cJSON/cJSON.c:1776-1806 | looking up a name finds the first member so named, or nothing exactly if there is none |
| JsonCompare.SameMeaning | cJSON/cJSON.c:2807-2930 | when two trees mean the same: words, numbers and strings if they are equal, arrays item by item, objects if every name that is looked up finds the same |
| JsonCompare.FoldedAlike | cJSON/cJSON.c:99-120 | names are taken for the same if they are, or, without regard to case, if they differ at most in the case of the letters A to Z |
| JsonCompare.LookupIsFirst | cJSON/cJSON.c:1776-1806 | a lookup finds the first member whose name is taken for the same, or nothing if there is none |
| JsonCompare.GetObjectItem | cJSON/cJSON.c:1776-1806 | the walk along the members finds it |
| JsonCompare.CompareTrees | cJSON/cJSON.c:2807-2930 | the loops over elements and, both ways, over members decide the comparison |
| JsonSiblings.Parent.OneReading | cJSON/cJSON.c:1824-1879 | the links of a well-formed chain determine the sequence of children |
| JsonSiblings.Parent.GetArrayItem | cJSON/cJSON.c:1747-1764 | walking the links reaches the child at the index, or nothing behind the last |
| JsonSiblings.Parent.AddItem | cJSON/cJSON.c:1852-1879 | appends to the sequence and keeps the chain well formed |
| JsonSiblings.Parent.DetachItem | cJSON/cJSON.c:2079-2107 | removes one child and leaves it unlinked |
| JsonSiblings.Parent.DetachItemFromArray | cJSON/cJSON.c:2109-2117 | the same by index; nothing happens for an index without a child |
| JsonSiblings.Parent.InsertItemInArray | cJSON/cJSON.c:2149-2176 | inserts at the index, appends behind the end, ignores a negative index |
| JsonSiblings.Parent.ReplaceItem | cJSON/cJSON.c:2178-2211 | replaces one child in its place |
| SymbolTable.FindMeaning | TraceRecorder/trcSnapshotRecorder.c:2706-2753 | a lookup finds a place if and only if the name is in the table with that channel |
| SymbolTable.PlacesDiffer | TraceRecorder/trcSnapshotRecorder.c:2706-2753 | lookups of different names or channels never find the same place |
| SymbolTable.AnswerIs | TraceRecorder/trcSnapshotRecorder.c:2417-2440 | each call of a run returns 0 if refused, otherwise the place its pair has at the end of the run, plus 256 (in 16 bits) if it created that entry for a name of 250 bytes or more |
| SymbolTable.HandlesClash | TraceRecorder/trcSnapshotRecorder.c:2802-2817 | in any run, two calls about different names or channels return the same handle if and only if one creates an entry for a name of exactly 250 bytes and the other is answered with the place of the entry right behind it |
| SymbolTable.HandlesDiffer | TraceRecorder/trcSnapshotRecorder.c:2417-2440 | in runs without names of 250 bytes, equal handles mean equal names and channels |
| SymbolTable.FindPersists | TraceRecorder/trcSnapshotRecorder.c:2755-2818 | entries made later never hide or move one that was found before |
| SymbolTable.RunKeepsEntries | TraceRecorder/trcSnapshotRecorder.c:2417-2440 | in every run the table stays packed and earlier entries stay as they were |
| SymbolTable.ReopenSame | TraceRecorder/trcSnapshotRecorder.c:2417-2440 | reopening after any run returns the first handle if and only if the name was there already or is shorter than 250 bytes |
| SymbolTable.LongNameLosesItsHandle | TraceRecorder/trcSnapshotRecorder.c:2802-2817 | a name of 250 bytes whose first handle differs from the next |
| SymbolTable.LongNameSharesItsHandle | TraceRecorder/trcSnapshotRecorder.c:2802-2817 | a name of 250 bytes gets the handle of the name opened next |
| SymbolTable.CreatedIfRoom | TraceRecorder/trcSnapshotRecorder.c:2755-2818 | an unknown pair is put into the table exactly if its entry, six bytes longer than its name, ends within it, and only then a handle other than 0 is returned |
| SymbolTable.ChecksumAdds | TraceRecorder/trcSnapshotRecorder.c:2826-2846 | the checksum is the sum of the characters modulo 64 |
| SymbolTable.LinksDecrease | TraceRecorder/trcSnapshotRecorder.c:2717-2752 | each link of a checksum chain leads to the last earlier entry with that checksum, so the walk ends |
| SymbolTable.OpenedStaysPacked | TraceRecorder/trcSnapshotRecorder.c:2755-2818 | a new entry goes right behind the others, or nothing changes when there is no room |
| SymbolTable.Table.GetChecksum | TraceRecorder/trcSnapshotRecorder.c:2826-2846 | checksum and length of a name, the NUL counted |
| SymbolTable.Table.LookupEntry | TraceRecorder/trcSnapshotRecorder.c:2706-2753 | following the links through the bytes gives the specified place |
| SymbolTable.Table.CreateEntry | TraceRecorder/trcSnapshotRecorder.c:2755-2818 | the bytes written are those of the table with the entry added; the handle carries the truncated length |
| SymbolTable.Table.OpenSymbol | TraceRecorder/trcSnapshotRecorder.c:2417-2440 | looks up first and creates only if nothing was found |
| TracePages.RunCounts | TraceRecorder/trcStreamingRecorder.c:1831-2002 | after every run, with drops and failed transfers, the counter is the room left in the pages that do not wait to be read |
| TracePages.StoredCounts | TraceRecorder/trcStreamingRecorder.c:1961-2002 | storing an event keeps that and never touches a page that waits to be read |
| TracePages.StoredMeaning | TraceRecorder/trcStreamingRecorder.c:1961-2002 | an event goes behind the page's bytes if it fits there, otherwise to the first page going round that does not wait to be read, and is dropped only if all pages wait |
| TracePages.RestartCounts | TraceRecorder/trcStreamingRecorder.c:2015-2031 | initialising again keeps the counter right exactly when the buffer was empty |
| TracePages.OrderedExactly | TraceRecorder/trcStreamingRecorder.c:1831-2002 | in every run without failed transfers, every state is in order (what was accepted is what was sent, what the reader will find waiting, what is in the page being written) if and only if each write that closes a page closes one whose bytes commute with what waits behind it |
| TracePages.WriteInOrder | TraceRecorder/trcStreamingRecorder.c:1961-2002 | a write keeps the order if and only if it closes no page or does so harmlessly |
| TracePages.Drained | TraceRecorder/trcStreamingRecorder.c:1907-1947 | a reader going on alone sends exactly what waits, after which the host has all that was accepted up to the page being written if and only if the state was in order |
| TracePages.DeliveredInOrder | TraceRecorder/trcStreamingRecorder.c:1831-2002 | if writing always goes on at the page whose turn it is, pages stay in turn and so every state is in order |
| TracePages.NothingDropped | TraceRecorder/trcStreamingRecorder.c:1831-2002 | every run without failed transfers in which no event was dropped is such a run |
| TracePages.ResumesExactly | TraceRecorder/trcStreamingRecorder.c:1966-1974 | after a drop the next page written is the one whose turn it is if and only if page 0 or the last page waits, or page 0 is to be read next |
| TracePages.DroppingDisorders | TraceRecorder/trcStreamingRecorder.c:1831-2002 | a run with dropped events in which an event overtakes one accepted earlier |
| TracePages.EventBuffer.AllocateBufferPage | TraceRecorder/trcStreamingRecorder.c:1831-1849 | the next free page going round, or none |
| TracePages.EventBuffer.GetBufferPage | TraceRecorder/trcStreamingRecorder.c:1867-1889 | the next page that waits, going round, and how much it holds |
| TracePages.EventBuffer.PageReadComplete | TraceRecorder/trcStreamingRecorder.c:1852-1864 | the page is empty and free again |
| TracePages.EventBuffer.Transfer | TraceRecorder/trcStreamingRecorder.c:1907-1947 | the port receives the page exactly, in whatever pieces it takes; on an error it has received part of it and the page still waits |
| TracePages.EventBuffer.GetWritePointer | TraceRecorder/trcStreamingRecorder.c:1961-2002 | room right behind the bytes of the page being written, or one more event dropped; the low-water mark is the least room seen |
| TracePages.EventBuffer.Store | TraceRecorder/trcStreamingRecorder.c:1961-2002 | an event put there becomes the end of that page and changes no other |
| TracePages.EventBuffer.Init | TraceRecorder/trcStreamingRecorder.c:2015-2031 | all pages are free and empty |

## Left out

- Heap4.Allocator.Free: pointers whose header happens to look like one in use, which the code cannot tell; the bodies of configASSERT, since the configuration does not define it; malloc-failed hook and trace macros.
- Heap4.Allocator.ApplicationWrite: writes are whole header-sized cells, so bytes of user data are not modelled one by one.
- MqttPackets.DeserializePublish: packets shorter than their length field says are a precondition, because the code reads them without looking at the size of the buffer; the same holds for the other deserialisers.
- MqttPackets.DeserializeSubscribe: output arrays have room for the list, because `maxcount` is never used by the code; the same holds for UNSUBSCRIBE.
- MqttConnect.ConnectRoundTrip: the protocol version is not read back, since the code does not store it.
- EventGroups.EventGroup.SetBits: the returned bits are read after the scheduler is resumed; tasks that run in between may have changed them.
- EventGroups.RunInv: scheduling inside the kernel, and the memory of the group; deletion is stated for the state it is called in and ends the run.
- CoRoutines.ExactDelay: delays of 0 ticks are excluded, as the macro that calls the function excludes them.
- CoRoutines.Scheduler.Schedule: the body of a co-routine is whatever happens between two calls; list.c is not part of this model, lists behave as list.h documents them.
- JsonRoundTrip.RoundTrip: floating point rounding, non-finite numbers and the saturating integer copy of a number; that the printed text of a number reads back as that number is assumed of `sprintf` and `strtod`.
- JsonParser.ParseWithOpts: the position reported for errors; locale decimal points.
- JsonParser.ParseBuffer.ParseArray: the items are built as values that carry the identity of their blocks; the links between siblings are in `JsonSiblings`.
- JsonParser.ParseBuffer.EncodeUtf8: shifts and masks are written as divisions and remainders.
- JsonPrinter.Print: Raw items and items without a string; the variants that use a caller's `realloc`, which this build does not have.
- JsonItems.Duplicate: reference items, which share memory.
- JsonMinify.Minify: text whose comments and strings are closed, since the code runs past the end of others.
- JsonCompare.CompareMeaning: the shortcut that calls an item equal to itself without looking at it, which makes a difference only for a tree that contradicts itself; numbers compare as reals.
- JsonSiblings.Parent.AddItem: the roles of child and parent are separate classes, so that an item cannot be put below itself.
- SymbolTable.Table.OpenSymbol: the pool has 260 bytes behind its nominal size, because a lookup reads that far; names are shorter than 255 bytes; recorder errors are not reported.
- TracePages.EventBuffer.Transfer: runs without a writer in between; interleavings are covered by the step system that `OrderedExactly` is about. A port that goes on accepting nothing is cut off when its script ends. Events are not larger than a page.
- Acknowledgement packets (CONNACK, SUBACK, PUBACK and the like), which have fixed fields and no lists; the readable text that MQTTFormat makes of a packet; the sockets behind the transports.
- cJSON's creators and type tests, which set or compare one type field, and the functions that add, detach or replace by name, which look an item up and then work as those modelled here.
- Snapshot ring buffer, object tables, formatted events, timestamps and stream ports of the trace recorder.
- Task switching, peripherals, application code and lwIP.
