# Verified models of the relay and its data structures

A Dafny project (Dafny 4.11) that models the hard parts of this repository and proves them correct.
`dafny verify dfyconfig.toml` checks all of it.

What the repository changes in place is modelled in place: red-black tree nodes, list nodes, hash chains,
trie nodes, the heap's array, the parsers' fields, the button's fields and the client's connections are
classes whose methods do what the C and Go code does, branch for branch. Each method is proved against a
specification on plain values, and the laws are proved about those values, for all inputs and over whole
runs.

| files | what they model |
|---|---|
| `ordering`, `ordered_map`, `tree_*` | the red-black tree table with parent links and one shared sentinel, its iterator, and runs of operations |
| `stable_sort`, `merge_steps`, `list_sort` | the doubly linked list's in-place merge sort |
| `crc16`, `framing`, `framing_laws` | the serial frame and its CRC-16 (the generator of ITU-T V.41, section 2, with the initial value 0xFFFF), and a reference scanner |
| `parser_states`, `device_parser`, `host_parser`, `frame_builders`, `parser_agreement` | the C and the Go parser and builders against that scanner |
| `wire_formats` | the formats byte for byte, with their numbers |
| `mux`, `relay_jobs`, `relay`, `relay_down` | multiplexer messages and their way through serial frames and TCP, up and down, with what is lost when something fails |
| `virtual_conns` | the client's virtual connections, one dispatcher and many readers |
| `relay_tasks` | the device's relay socket, raced by three tasks |
| `powers`, `hash_*` | the chained hash table, its resize and its iterator |
| `trie_*` | the ternary search tree |
| `heap_order`, `priority_queue`, `queue_runs` | the priority queue, and runs of pushes and pops |
| `debounce`, `button_trace`, `button_machine`, `button_clicks`, `button` | the button driver: its debounced level, the grammar of its events, its state machine as a function of the level, whole sessions of it, and the driver in place |
| `options`, `sequences` | shared vocabulary |

How to read the main entities:

- A tree node carries ghost fields for its position in key order, the range of positions below it and its
  black height. A table is well linked when each node agrees with its neighbours on them, so rotations and
  transplants are checked node by node. The sentinel's parent is a real field and is used as the deletion
  repair uses it.
- A list is the sequence of its nodes; an item is a node with its data. Sorting is specified by merge sort
  on items, and merge sort by the laws that determine its result uniquely.
- The reference scanner keeps the bytes of the frame under way and the frames recovered so far. Both parsers
  are proved equal to it after every byte; everything known about parsing is proved about the scanner once.
- Interleavings are runs of steps of a state machine (`relay_tasks`) or methods that are each one goroutine's
  step (`virtual_conns`). What the network, the scheduler or a `select` may choose is a parameter of the step.
- Hash keys are told apart by an identity function, and the hash is a function of the identity, which says
  that equal keys hash equally. The NULL key is one more identity, in bucket 0; the NULL-key variants of add,
  get and remove are the same walk with their own test for a match.
- The trie is seen as a map from addresses (left, middle, right) to cells. A key is spelled by the middle
  steps of the path to its node.

Functions and predicates that specify methods (the ordered map, the reference scanner, what a queue relays, the
button's machine and so on) are themselves pinned down by laws that do not mention them: traces, layouts with their
numbers, histories of operations, and if-and-only-if statements about single calls.

Some findings, each proved in both directions or with a witness: a frame is delivered exactly when its
payload is at most 1024 bytes (`FramingLaws.DeliveredIff`); a multiplexer message survives exactly when its
payload is at most 65535 bytes, because the writers truncate the length to 16 bits (`Mux.SurvivesIff`); a
response or push is understood by the host exactly when its command byte is below 0x80
(`RelayDown.HostSeesResponse`, `RelayDown.HostSeesPush`); 1031 bytes without 0xAA reset a parser from any
state and 1030 do not (`FramingLaws.QuietResets`, `FramingLaws.QuietBoundIsTight`); a close that the device's
receive or send task begins for a failed call hits the connection that the call was made on exactly when that was
stored or connecting at the call, no other connect has succeeded since, and something is still stored; otherwise it
hits nothing or a later one, which may be a connection on which nothing has failed (`RelayTasks.ErrorClosesItsOwnIff`,
`RelayTasks.ErrorMayCloseSuccessor`, `RelayTasks.StaleCallMayCloseSuccessor`); a failed send or an early end only cuts
the relayed messages short, while a dropped job or chunk leaves only those in front of it certain (`Relay.Uplink`,
`RelayDown.Downlink`).

## Model

| member | source | states |
|---|---|---|
| `TreeRotate.RotateLeft` | components/Collections-C/src/cc_treetable.c:734-754 | The rotation keeps the tree well linked (search positions, mirrored parent/child links, one root) and changes each node exactly as stated, sentinel untouched |
| `TreeRotate.RotateRight` | components/Collections-C/src/cc_treetable.c:705-725 | The mirror image of the left rotation |
| `TreeInsert.RebalanceAfterInsert` | components/Collections-C/src/cc_treetable.c:425-465 | From a tree whose only flaw is one red node that may sit under a red parent, the loop ends with no red-red pair, equal black counts, a black root, and the same nodes in the same order |
| `TreeDelete.RebalanceAfterDelete` | components/Collections-C/src/cc_treetable.c:474-530 | From a tree that is one black node short below one place (which may be the sentinel, told by its parent field), the loop ends with all red-black rules, and the same nodes in the same order |
| `TreeRemove.Transplant` | components/Collections-C/src/cc_treetable.c:532-542 | Every link to u, and the root if it was u, now goes to v, and v has the parent of u, also when v is the sentinel |
| `TreeRemove.TreeMin` | components/Collections-C/src/cc_treetable.c:544-554 | The first node in key order of the subtree, found by left links only, or the sentinel for an empty one |
| `TreeRemove.SpliceOut` | components/Collections-C/src/cc_treetable.c:582-592 | A node with at most one child goes; the nodes that remain keep their order and are well linked, and the moved child knows its new parent |
| `TreeRemove.Promote` | components/Collections-C/src/cc_treetable.c:593-607 | A node with two children goes and its successor takes its place by relinking; no key or value is copied |
| `TreeRemoveNode.RemoveNode` | components/Collections-C/src/cc_treetable.c:574-608 | The tree without the node: all red-black rules hold again, size is right, and the order is the old one with that position cut out |
| `TreeAdd.Add` | components/Collections-C/src/cc_treetable.c:372-417 | The entries afterwards are the old ones with the key put in: a new key in its place, or the value of an equal key, whose stored form stays; the table stays valid |
| `TreeAdd.Descend` | components/Collections-C/src/cc_treetable.c:372-398 | The walk ends at the node with an equal key or at the one free place where the key belongs |
| `TreeTable.Bushy` | components/Collections-C/src/cc_treetable.c:425-608 | A node with black height k has at least 2^k - 1 nodes below it, from the colour rules alone |
| `TreeTable.GetTreeNodeByKey` | components/Collections-C/src/cc_treetable.c:764-785 | The walk finds the node with an equal key, or shows that there is none, in at most 2 * log2(size + 1) steps |
| `TreeTable.Get` | components/Collections-C/src/cc_treetable.c:171-180 | The value on record for the key, or none |
| `TreeTable.Remove` | components/Collections-C/src/cc_treetable.c:622-634 | The entries without the key, the value it had, and a valid table; an absent key changes nothing |
| `TreeTable.RemoveEntry` | components/Collections-C/src/cc_treetable.c:574-608 | Removing a node cuts exactly its entry out of the ascending entries and leaves every other node where it was in order |
| `TreeIter.TableIter.constructor` | components/Collections-C/src/cc_treetable.c:879-884 | A new iterator is about to return the first entry in key order |
| `TreeIter.IterNext` | components/Collections-C/src/cc_treetable.c:896-908 | The next entry in key order is returned and the iterator moves on by one, or the end is reported |
| `TreeIter.IterRemove` | components/Collections-C/src/cc_treetable.c:925-937 | The entry just returned goes, nothing else does, the next entry to come is still the same node, and a second removal is refused |
| `TreeIter.GetSuccessorNode` | components/Collections-C/src/cc_treetable.c:795-810 | The node after this one in key order, or the sentinel after the last |
| `TreeRuns.NewTable` | components/Collections-C/src/cc_treetable.c:101-125 | A new table is valid and has no entries: where every run begins |
| `TreeRuns.Replay` | components/Collections-C/src/cc_treetable.c:372-417 | Over every sequence of add, get and remove the table gives the answers of the finite map and ends with its entries |
| `TreeRuns.LastAddWins` | components/Collections-C/src/cc_treetable.c:372-417 | In a run, a get or a remove answers with what the last add of an equal key stored |
| `TreeRuns.RemovedIsGone` | components/Collections-C/src/cc_treetable.c:622-634 | In a run, after a remove of an equal key a get finds nothing until one is added again |
| `TreeMeaning.EntriesAreInOrder` | components/Collections-C/src/cc_treetable.c:372-417 | The nodes met in order, from the root by child pointers, are all the nodes, as many as size says, in strictly ascending order |
| `TreeMeaning.EqualBlackCounts` | components/Collections-C/src/cc_treetable.c:425-608 | Every path from the root to the sentinel has the same number of black nodes |
| `TreeMeaning.ColoursAndLinks` | components/Collections-C/src/cc_treetable.c:425-608 | The root is black, no red node has a red child, and children and parents point at each other |
| `TreeRuns.IterateRemoving` | components/Collections-C/src/cc_treetable.c:879-937 | Removing any subset of the entries just returned, the iterator visits every original entry once, in strictly ascending order, and exactly the chosen ones are gone |
| `TreeRuns.KeptIff` | components/Collections-C/src/cc_treetable.c:925-937 | What remains is exactly what was not chosen for removal |
| `OrderedMap.FindAfterPut` | components/Collections-C/src/cc_treetable.c:372-417 | Put changes the answer for keys equal to its own and for no other |
| `OrderedMap.FindAfterDel` | components/Collections-C/src/cc_treetable.c:622-634 | Del makes keys equal to its own absent and changes no other answer |
| `OrderedMap.PutAscending` | components/Collections-C/src/cc_treetable.c:372-417 | Put keeps strictly ascending keys and adds an entry exactly when the key was absent |
| `OrderedMap.DelAscending` | components/Collections-C/src/cc_treetable.c:622-634 | Del keeps strictly ascending keys and takes an entry away exactly when the key was present |
| `ListSort.Relink` | components/Collections-C/src/cc_list.c:1813-1833 | Every next and prev pointer of the list after link_behind, for every pair of positions, adjacent ones and both ends included |
| `ListSort.LinkBehind` | components/Collections-C/src/cc_list.c:1813-1833 | The list is well linked, next mirrored by prev, with the node moved to just before the base |
| `ListSort.MergeRuns` | components/Collections-C/src/cc_list.c:1150-1208 | Two adjacent sorted runs become their merge by relinking alone, everything outside the runs is untouched, and left and right are the ends of the merged run |
| `ListSort.Split` | components/Collections-C/src/cc_list.c:1107-1130 | The run is replaced by its merge sort, the rest of the list is untouched, and head and tail are set to the ends of the run |
| `ListSort.SortInPlace` | components/Collections-C/src/cc_list.c:1092-1095 | For every total preorder: the same nodes with the same data, sorted and stable, next and prev mirror images, head, tail and size right |
| `ListSort.SortedList` | components/Collections-C/src/cc_list.c:1092-1095 | Such a list from its fields alone: no data above that of a later node, next and prev mirror images, head and tail the ends |
| `StableSort.MergeSortCorrect` | components/Collections-C/src/cc_list.c:1092-1208 | The result of merge sort is sorted, a permutation, and keeps equal items in their order |
| `StableSort.StableKeepsOrder` | components/Collections-C/src/cc_list.c:1150-1208 | Stability means that of two items that compare equal the one that stood first still does |
| `StableSort.StableSortIsUnique` | components/Collections-C/src/cc_list.c:1092-1208 | A sorted sequence that keeps equal items in order is the only one: the sort is pinned down without naming the algorithm |
| `StableSort.MergeStable` | components/Collections-C/src/cc_list.c:1150-1208 | A merge keeps the equal items of the left run before those of the right run |
| `StableSort.MergeSortKeepsNodes` | components/Collections-C/src/cc_list.c:1092-1208 | The sort permutes the nodes themselves |
| `MergeSteps.MergingMoved` | components/Collections-C/src/cc_list.c:1182-1202 | Moving the head of the right run behind the left part keeps the shape merged part, left rest, right rest |
| `Crc16.UpdateByte` | main/proto.c:9-16 | The eight shifts on the register compute one step of division by the generator |
| `Crc16.ComputeCrc` | ctrl/proto/proto.go:136-149 | The checksum of a whole buffer, from the initial value |
| `WireFormats.ChecksumOfDigits` | main/proto.c:8-18 | The checksum of the digits 1 to 9 is 0x29B1: generator 0x1021, initial value 0xFFFF, most significant bit first |
| `Crc16.UpdateLinear` | main/proto.c:9-16 | The difference of two registers after a byte is the step applied to their difference |
| `Crc16.UpdateInjective` | ctrl/proto/proto.go:191-200 | For every byte, two registers that agree after the step agreed before it |
| `Crc16.UpdateSurjective` | ctrl/proto/proto.go:191-200 | For every byte, every register is reached; with injectivity, the step is a bijection |
| `Crc16.CheckedByZero` | main/proto.c:111-121 | Feeding the two checksum bytes as well gives zero exactly when they match |
| `Crc16.BurstDetected` | main/proto.c:9-16 | Two byte strings that differ, and only inside 16 consecutive bits, have different checksums |
| `FrameBuilders.BuildResponse` | main/proto.c:144-181 | The buffer begins with the encoding of the response frame and is otherwise untouched; with too little room, which is reckoned with the 16-bit length, nothing is written and 0 is returned |
| `FrameBuilders.BuildPush` | main/proto.c:183-219 | The same for a push frame |
| `FrameBuilders.BuildRequest` | ctrl/proto/proto.go:105-133 | The bytes are the encoding of the request frame |
| `WireFormats.FrameLayout` | ctrl/proto/proto.go:105-133 | AA 55, the length of the body in two bytes, high first, modulo 65536, then sequence number, command, payload, and the checksum of all that |
| `WireFormats.ChecksumBytes` | main/proto.c:174-178 | The checksum field is the checksum, high byte first |
| `WireFormats.BadLengthDropped` | main/proto.c:92-109 | A header that announces a body of less than 2 or more than 1026 bytes is dropped at its last byte |
| `DeviceParser.Parser.Feed` | main/proto.c:66-142 | On every chunk of every byte stream the parser, field for field, does what the reference scanner does |
| `HostParser.Parser.Feed` | ctrl/proto/proto.go:203-277 | The same for the host parser, whose body buffer is allocated per frame |
| `HostParser.Parser.Present` | ctrl/proto/proto.go:254-272 | The frame given to the callback: response flag and status byte split off, also for an empty response |
| `Framing.ScanAppend` | main/proto.c:66-142 | How a stream is cut into chunks makes no difference |
| `FramingLaws.EncodeIsComplete` | ctrl/proto/proto.go:105-133 | An encoded frame is a complete slice with a matching checksum that decodes to the frame |
| `FramingLaws.CompleteIsEncode` | main/proto.c:66-142 | A complete slice with a matching checksum is the encoding of what it decodes to: encoding and decoding are inverse |
| `FramingLaws.RoundTrip` | main/proto.c:66-142 | An encoded frame, fed after any frames, is recovered and leaves the parser reset |
| `FramingLaws.RoundTripAll` | ctrl/proto/proto.go:203-277 | Any list of frames written one after the other is recovered, in order and nothing else |
| `FramingLaws.DeliveredIff` | main/proto.c:92-109 | A frame comes out exactly when its payload is at most 1024 bytes |
| `FramingLaws.ScanAccounts` | main/proto.c:66-142 | On every stream, the frames that came out are the encodings of disjoint slices in stream order, and the frame under way is the tail |
| `FramingLaws.JunkIsSkipped` | main/proto.c:71-82 | Junk without 0xAA 0x55 in a row never costs the frame after it |
| `FramingLaws.NoisyRecovered` | ctrl/proto/proto.go:207-224 | Frames with such junk before each one are all recovered |
| `FramingLaws.QuietResets` | main/proto.c:71-139 | From any state a parser can be in, 1031 bytes without 0xAA bring it back to reset |
| `FramingLaws.QuietBoundIsTight` | main/proto.c:71-139 | 1030 are not enough |
| `FramingLaws.QuietThenFrame` | ctrl/proto/proto.go:207-274 | After such a stretch the next frame is delivered, whatever came before |
| `FramingLaws.BurstRejected` | ctrl/proto/proto.go:242-257 | A burst of at most 16 bits anywhere in the body or the checksum field: the frame is not delivered |
| `ParserAgreement.Agree` | ctrl/proto/proto.go:203-277 | The two parsers, fed the same bytes cut in different ways, deliver corresponding frames: all that the reference scanner finds in those bytes, and all of them slices of the stream |
| `ParserAgreement.FramesAreSlices` | main/proto.c:66-142 | Every delivered frame is the encoding of its own slice of the stream, disjoint from the others and in order |
| `ParserAgreement.ViewIsInjective` | ctrl/proto/proto.go:254-272 | Splitting off the response flag and status loses nothing, but for responses without a status byte |
| `Mux.MessagesRoundTrip` | ctrl/proxy/client.go:241-276 | Encoded messages, one after the other, parse back to themselves, whatever follows |
| `Mux.MessagesGrow` | ctrl/proxy/client.go:241-276 | What is read from the beginning of a stream is read first from all of it |
| `Mux.SurvivesIff` | ctrl/proxy/client.go:134-149 | A message survives exactly when its payload is at most 65535 bytes; the length field truncates longer ones |
| `WireFormats.MessageLayout` | ctrl/proxy/client.go:134-149 | The command, the identifier in four bytes and the length in two, low first, the length modulo 65536, then the payload |
| `Mux.RelayReader.Read` | ctrl/proxy/client.go:226-237 | At least one byte unless the stream is over, from the kept tail first, never losing or reordering any |
| `Mux.RelayReader.ReadFull` | ctrl/proxy/client.go:252-258 | The buffer is filled with exactly the next bytes, or the stream was too short |
| `Mux.RelayReader.ReadLoop` | proxy/main.go:267-289 | However the stream is cut, the messages dispatched are the whole messages of the stream, in order, up to the first one before which the context was found cancelled |
| `Relay.MessageBytes` | proxy/main.go:207-217 | The frame buffer holds the encoded message |
| `Relay.ChunksAreAll` | ctrl/device/device.go:62-75 | The pieces are non-empty, at most 1024 bytes each and all but the last exactly that, and together the data |
| `Relay.WriteChunks` | ctrl/device/device.go:62-75 | One request frame per piece goes out, in order, with the requests of other callers in between, until all are out or a write fails; then a part of the next frame may be on the line |
| `RelayJobs.PassingIsWhole` | main/tcp_mgr.c:142-179 | Jobs for which the queue has room and no send fails go out whole, and leave the connection up |
| `RelayJobs.FailureCuts` | main/tcp_mgr.c:142-179 | With a queue that always has room, what goes out is a prefix of the jobs, and all of them while the connection is up |
| `RelayJobs.RelayedGrows` | main/tcp_mgr.c:142-179 | Later jobs never change what went out of the earlier ones |
| `RelayJobs.RelayedIs` | main/tcp_mgr.c:142-179 | Up to the first job that the queue takes and a send fails for, every job the queue takes goes out whole; of that job a part does, and of later ones nothing |
| `Relay.SendAll` | main/tcp_mgr.c:160-172 | Call by call: every call but a failing last one took something, and what is sent is what they took together; an error is reported exactly if a call failed before all was sent |
| `Relay.RelayFrames` | main/tcp_mgr.c:142-179 | The stream is what queue and socket let through of the jobs in the frames: a job without room is dropped, and after a failed send all are |
| `Relay.LineGives` | main/proto.c:66-142 | A line that begins with whole frames gives those frames first, and one that stops short of the last frame gives no others |
| `Relay.UplinkRecovers` | ctrl/proxy/client.go:134-149 | Whatever other commands are mixed in, what the device takes out of the serial stream for the proxy reads back as the messages of the client |
| `Relay.Uplink` | proxy/main.go:249-290 | The whole way, for every way of cutting both streams, all requests of other callers between any two frames, and every failed write, full queue and failed send: the messages in front of the first loss are dispatched first; nothing but the messages is dispatched unless a job is dropped from the middle or bytes follow a failed write; without a loss, exactly the messages are |
| `Relay.UplinkWithoutLoss` | proxy/main.go:249-290 | When no write fails, the queue has room and send takes something each time, the proxy dispatches exactly the messages |
| `RelayDown.SendResponse` | main/esp32-network.c:96-108 | The encoding of a response is written exactly if it fits the buffer, and nothing otherwise |
| `RelayDown.SendPush` | main/esp32-network.c:112-126 | The same for a push of any command |
| `RelayDown.HostSeesResponse` | ctrl/proto/proto.go:254-272 | The host gets back exactly the response that was sent if and only if the command byte is below 0x80 |
| `RelayDown.HostSeesPush` | ctrl/proto/proto.go:254-272 | The host gets back exactly the push that was sent if and only if the command byte is below 0x80 |
| `RelayDown.HostSeesEmpty` | ctrl/proto/proto.go:254-272 | A response without a status byte is seen as such, with status 0 |
| `RelayDown.HostSeesClosed` | main/esp32-network.c:112-126 | The CLOSED push is seen as one, with nothing in it |
| `RelayDown.DispatchPushes` | ctrl/device/device.go:322-346 | The chunks handed to the relay connection are exactly the non-empty data pushes, in order, without those for which the channel had no room and those after a CLOSED push |
| `RelayDown.KeptIff` | ctrl/device/device.go:322-346 | Before a CLOSED push (0x41) a frame adds its payload exactly if it is a non-empty data push (0x40) that there is room for |
| `RelayDown.ClosedEndsIt` | ctrl/device/device.go:338-345 | After a CLOSED push nothing is kept |
| `RelayDown.KeptInOrder` | ctrl/device/device.go:322-346 | Whatever is dropped, they are a subsequence of the data that was pushed |
| `RelayDown.ClosedCuts` | ctrl/device/device.go:322-346 | If the channel always has room they are a prefix of it, and all of it if no CLOSED push came |
| `RelayDown.DownlinkRecovers` | ctrl/proxy/client.go:241-276 | Whatever responses are mixed in, what the pushes carry reads back as the messages of the proxy |
| `RelayDown.Downlink` | proxy/main.go:176-203 | The whole way down, for every way of cutting both streams, responses and CLOSED pushes in between, a TCP stream that may end early and a channel that may be full: the messages in what was received before the first loss are read first; nothing but the messages is read unless a chunk is dropped from the middle; without a loss, exactly the messages are |
| `VirtualConns.ProxyConn.Send` | ctrl/proxy/client.go:97-108 | The chunk goes to the end of the channel, or is dropped when the channel is full or closed |
| `VirtualConns.ProxyConn.Read` | ctrl/proxy/client.go:62-77 | As much as fits of the bytes left over from the last chunk, whether cancelled or not, else of the next chunk; none lost, none repeated; an end only when closed or cancelled, a wait only when nothing is left, and bytes whenever there are any and nothing is cancelled |
| `VirtualConns.ProxyConn.ShutNext` | ctrl/proxy/client.go:55-60 | shutdown in its two steps: the context is cancelled, then the channel is closed, once |
| `VirtualConns.Client.Open` | ctrl/proxy/client.go:164-185 | A new connection with the next identifier, holding nothing, registered under that identifier; identifiers wrap around at 32 bits |
| `VirtualConns.Client.Take` | ctrl/proxy/client.go:278-305 | The next message is taken and its connection looked up: DATA holds the chunk, CLOSE the connection, a connect acknowledgement is positive exactly if its payload is one zero byte, and anything else is ignored; the message becomes part of the share of that connection, and of no other |
| `VirtualConns.Client.TestContext` | ctrl/proxy/client.go:97-101 | A held chunk is dropped exactly when its connection or the client has been cancelled |
| `VirtualConns.Client.SendHeld` | ctrl/proxy/client.go:102-108 | A held chunk is accepted exactly when its connection has room and is not closed by now; no other connection changes |
| `VirtualConns.Client.Acknowledge` | ctrl/proxy/client.go:279-293 | The acknowledgement is kept unless one is there already |
| `VirtualConns.Client.DropHeld` | ctrl/proxy/client.go:300-305 | The identifier is removed, and shutdown called, in that order |
| `VirtualConns.Client.Remove` | ctrl/proxy/client.go:87-92 | The same for Close, whatever connection has the identifier by now |
| `VirtualConns.Client.Stop` | ctrl/proxy/client.go:206-217 | The client is cancelled, the map emptied, and shutdown called on every connection that was in it |
| `VirtualConns.DataArrives` | ctrl/proxy/client.go:295-298 | DATA, uninterrupted: the chunk is the next in the channel of its connection, unless that is cancelled, closed or has 64 chunks |
| `VirtualConns.CloseArrives` | ctrl/proxy/client.go:300-304 | CLOSE, and the shutdown after it: the identifier is free, the connection cancelled and closed, its chunks still there |
| `VirtualConns.AckArrives` | ctrl/proxy/client.go:279-293 | A connect acknowledgement, uninterrupted: kept if it is the first |
| `VirtualConns.FirstChunk` | ctrl/proxy/client.go:62-108 | A new client, a connection, a chunk and a read of it: the bytes of the chunk, as far as they fit |
| `VirtualConns.OwnNext` | ctrl/proxy/client.go:278-305 | What a connection accepted, with or without the next chunk for it, stays a subsequence of what the relay carried for its identifier |
| `VirtualConns.SharesNext` | ctrl/proxy/client.go:151-185 | Every step keeps the share of a connection among what was offered while its identifier was its own, and only then is it in the map |
| `VirtualConns.WindowIs` | ctrl/proxy/client.go:151-185 | The window of a connection: from the step after its opening to the first step that takes its identifier away |
| `VirtualConns.Run` | ctrl/proxy/client.go:62-108 | In every run from a new client, with every step of looking up, sending, reading, removing, cancelling and closing interleaved at will: the bytes read from each connection are a prefix of chunks, some perhaps left out but in relay order, that the relay offered for its identifier after it was opened and before that identifier was removed or, having wrapped around, given to a later connection |
| `RelayTasks.NextKeepsInv` | main/tcp_mgr.c:64-179 | Every step of every task keeps the invariant: a connection is in exactly one place |
| `RelayTasks.Always` | main/tcp_mgr.c:64-320 | The invariant holds after every interleaving |
| `RelayTasks.Conservation` | main/tcp_mgr.c:64-79 | Successful connects = CLOSED pushes + tasks between swap and push + 1 if a descriptor is stored |
| `RelayTasks.ClosedOnce` | main/tcp_mgr.c:64-79 | No connection is closed or reported twice, none is reported before it is closed, none is closed while stored |
| `RelayTasks.NeverOverwritten` | main/tcp_mgr.c:203-289 | When a connect stores its socket there is no descriptor to overwrite |
| `RelayTasks.ClosesOpenDescriptor` | main/tcp_mgr.c:64-79 | close_relay closes a descriptor that is open, is not the stored one, and is no other closer's |
| `RelayTasks.RxEntersIff` | main/tcp_mgr.c:107-133 | The receive task calls close_relay exactly when select fails and was not interrupted, recv returns 0, or recv fails and not because it would block; for the connection of the descriptor it used |
| `RelayTasks.TxEntersIff` | main/tcp_mgr.c:160-177 | The send task calls close_relay exactly when a send does not take anything; otherwise it goes on with the rest of the job |
| `RelayTasks.SnapshotIff` | main/tcp_mgr.c:90-99 | Both tasks read the descriptor afresh; a job that is taken while disconnected is discarded |
| `RelayTasks.SendIff` | main/tcp_mgr.c:291-315 | A job is refused while disconnected and dropped while 32 are queued |
| `RelayTasks.JobsInOrder` | main/tcp_mgr.c:291-315 | Jobs leave the queue in the order in which they entered it |
| `RelayTasks.ConnectIff` | main/tcp_mgr.c:203-289 | A connect does nothing while connected; otherwise its socket ends up stored, or closed again |
| `RelayTasks.CloseRelay` | main/tcp_mgr.c:64-79 | Uninterrupted, close_relay clears, closes and reports what is stored, once, and nothing if nothing is |
| `RelayTasks.ErrorClosesItsOwnIff` | main/tcp_mgr.c:64-179 | A call of the receive or send task on a connection fails, and in time its swap follows: it takes out that connection exactly when, at the call, that was the stored one or one being connected under a number in use again, no other connect has succeeded since, and a descriptor is stored; otherwise it takes out nothing or a later connection |
| `RelayTasks.ErrorMayCloseSuccessor` | main/tcp_mgr.c:107-133 | And a run in which the receive task, told of the end of the first connection, closes the second one, on which nothing has failed |
| `RelayTasks.StaleCallMayCloseSuccessor` | main/tcp_mgr.c:90-133 | And one with no connect between the failed call and the swap: the call was made on a number that had been closed before and was no connection any more, and its error closes the connection stored under another |
| `RelayTasks.QuietMeansAllReported` | main/tcp_mgr.c:64-79 | When nothing is stored and nothing is being closed, every connect has had its push |
| `Powers.RoundPowTwo` | components/Collections-C/src/cc_hashtable.c:445-469 | The or-and-shift rounding gives the least power of two not below the request, or the largest for the word size |
| `Powers.LeastPowerIsLeast` | components/Collections-C/src/cc_hashtable.c:445-469 | No smaller power of two would do |
| `Powers.LargestPower` | components/Collections-C/src/cc_hashtable.c:445-453 | The largest capacity is 2^63 with 64-bit words and 2^31 with 32-bit words |
| `Powers.AllOnes` | components/Collections-C/src/cc_hashtable.c:455-466 | A number whose set bits are exactly the lowest k is 2^k - 1 |
| `Powers.AndIsRemainder` | components/Collections-C/src/cc_hashtable.c:634-638 | With a power of two for a capacity, hash & (capacity - 1) is the remainder of the hash |
| `HashChains.HomeIsRemainder` | components/Collections-C/src/cc_hashtable.c:634-638 | So every key is in bucket hash mod capacity, and NULL in bucket 0 |
| `HashTable.Table.constructor` | components/Collections-C/src/cc_hashtable.c:82-110 | An empty table whose capacity is the least power of two for the request |
| `HashTable.Table.Get` | components/Collections-C/src/cc_hashtable.c:255-295 | The value on record for the key, the NULL key included |
| `HashTable.Table.Add` | components/Collections-C/src/cc_hashtable.c:166-243 | Afterwards the key has the new value, with the stored form of an equal key if there was one, and every other key what it had; the table doubles first when size has reached the threshold, and refuses exactly when it cannot |
| `HashTable.Table.Remove` | components/Collections-C/src/cc_hashtable.c:309-382 | The map without the key, the value it had, and the chains changed by taking that one entry out |
| `HashTable.Table.Resize` | components/Collections-C/src/cc_hashtable.c:415-436 | Twice the capacity with the same contents, every entry in the bucket of its hash |
| `HashTable.EntryInBucket` | components/Collections-C/src/cc_hashtable.c:166-243 | Every entry hangs in the bucket of its hash modulo the capacity, and its hash is that of its key, 0 for NULL |
| `HashResize.MoveEntries` | components/Collections-C/src/cc_hashtable.c:480-498 | Every entry ends in the bucket hash & (capacity - 1) of the new array, none lost, by relinking alone |
| `HashIter.HashTableIter.constructor` | components/Collections-C/src/cc_hashtable.c:690-705 | Everything in the table is still to come |
| `HashIter.HashTableIter.Next` | components/Collections-C/src/cc_hashtable.c:717-744 | The entry returned was still to come and no longer is; the end is reported exactly when nothing is |
| `HashIter.HashTableIter.Remove` | components/Collections-C/src/cc_hashtable.c:761-764 | The entry just returned goes, and what is still to come is unchanged |
| `HashRuns.Replay` | components/Collections-C/src/cc_hashtable.c:166-382 | Over every sequence of add, get and remove, resizes included, the table gives the answers of the finite map |
| `HashRuns.LastAddWins` | components/Collections-C/src/cc_hashtable.c:166-382 | In a run, a get or a remove answers with what the last accepted add of that key stored |
| `HashRuns.RemovedIsGone` | components/Collections-C/src/cc_hashtable.c:309-382 | In a run, after a remove of the key a get finds nothing until it is added again |
| `HashRuns.IterateRemoving` | components/Collections-C/src/cc_hashtable.c:690-764 | Removing any subset of the entries just returned, each original entry is visited exactly once and exactly the chosen ones are gone |
| `TriePaths.SpelledOnce` | components/Collections-C/src/cc_tsttable.c:125-159 | A key is spelled by at most one node |
| `TriePaths.VacantMeansAbsent` | components/Collections-C/src/cc_tsttable.c:125-159 | When the search runs off the tree, no node spells the key |
| `TriePaths.SpellsOneWord` | components/Collections-C/src/cc_tsttable.c:125-159 | A node spells at most one key |
| `TriePaths.DataLooksUp` | components/Collections-C/src/cc_tsttable.c:210-257 | Writing the data of the node of a key changes the lookup of that key only |
| `TriePaths.DropDead` | components/Collections-C/src/cc_tsttable.c:338-369 | Freeing a childless node without data changes no lookup |
| `TrieGrow.WithWordKeeps` | components/Collections-C/src/cc_tsttable.c:210-257 | Hanging the chain for the unmatched rest of a key adds that key and changes no other |
| `TrieTable.Table.GetLastNode` | components/Collections-C/src/cc_tsttable.c:125-159 | The node that spells the key, or the vacant slot where its chain belongs |
| `TrieAdd.MakeMidSubtree` | components/Collections-C/src/cc_tsttable.c:166-194 | A chain of blank nodes for the characters, linked down the middle |
| `TrieAdd.Add` | components/Collections-C/src/cc_tsttable.c:210-257 | The map with the key set, every other lookup as before, size counted |
| `TrieRemove.Find` | components/Collections-C/src/cc_tsttable.c:270-287 | The value on record for the key |
| `TrieRemove.RemoveEowNode` | components/Collections-C/src/cc_tsttable.c:338-369 | Pruning upwards frees only dead leaf nodes, stops at the first live one, changes no lookup, and leaves no dead node |
| `TrieRemove.Remove` | components/Collections-C/src/cc_tsttable.c:384-404 | The map without the key, every other lookup as before, and no dead node left |
| `TrieClear.RemoveAll` | components/Collections-C/src/cc_tsttable.c:294-331 | The loop ends with an empty tree, no root and size 0 |
| `TrieRuns.Replay` | components/Collections-C/src/cc_tsttable.c:210-404 | Over every sequence of add, get, remove and remove_all the table gives the answers of the finite map |
| `TrieRuns.LastAddWins` | components/Collections-C/src/cc_tsttable.c:210-404 | In a run, a get or a remove answers with what the last add of that key stored |
| `TrieRuns.RemovedIsGone` | components/Collections-C/src/cc_tsttable.c:294-404 | In a run, after a remove of the key or of all keys a get finds nothing until it is added again |
| `TrieRuns.NoDeadNode` | components/Collections-C/src/cc_tsttable.c:338-404 | Every node of a table ends a word or has a child |
| `PriorityQueue.PQueue.ExpandCapacity` | components/Collections-C/src/cc_pqueue.c:182-207 | The same elements with more room, or refused at the maximum |
| `PriorityQueue.PQueue.Push` | components/Collections-C/src/cc_pqueue.c:218-247 | Heap order kept and the multiset grown by the element |
| `PriorityQueue.PQueue.Top` | components/Collections-C/src/cc_pqueue.c:257-264 | A maximum, without removing it |
| `PriorityQueue.PQueue.Pop` | components/Collections-C/src/cc_pqueue.c:274-292 | A maximum, removed, with heap order kept |
| `PriorityQueue.PQueue.Heapify` | components/Collections-C/src/cc_pqueue.c:300-330 | A heap but for one element that may be too low becomes a heap of the same elements |
| `PriorityQueue.Drain` | components/Collections-C/src/cc_pqueue.c:274-292 | Consecutive pops are non-increasing and give back exactly the elements |
| `QueueRuns.Replay` | components/Collections-C/src/cc_pqueue.c:218-292 | Over every sequence of pushes and pops the queue does what a multiset allows: a pop takes out a maximum, a push adds its element or is refused at the maximum size |
| `QueueRuns.Conserved` | components/Collections-C/src/cc_pqueue.c:218-292 | What is left and what came out are what was there and what was accepted |
| `QueueRuns.PopsDescend` | components/Collections-C/src/cc_pqueue.c:274-292 | Pops with only pops in between are non-increasing, wherever in the run they are |
| `PriorityQueue.PopFollows` | components/Collections-C/src/cc_pqueue.c:274-292 | A maximum of what is left extends a non-increasing sequence of pops |
| `HeapOrder.SiftUp` | components/Collections-C/src/cc_pqueue.c:237-245 | One swap with the parent moves the only possible violation up |
| `HeapOrder.SiftDown` | components/Collections-C/src/cc_pqueue.c:312-330 | One swap with the higher child moves the only possible violation down |
| `HeapOrder.TopIsHighest` | components/Collections-C/src/cc_pqueue.c:257-264 | In a heap nothing is above the first element |
| `HeapOrder.HigherIsHighest` | components/Collections-C/src/cc_pqueue.c:312-324 | The index chosen is that of the highest of an element and its children |
| `Button.ButtonDev.Filter` | components/button/iot_button.c:120-128 | The level and the counter are what the last samples say: the level is the value last held for DEBOUNCE_TICKS samples |
| `Button.ButtonDev.Handler` | components/button/iot_button.c:111-311 | One period: state, counters and log are what the state machine makes of the debounced level so far |
| `Button.Feed` | components/button/iot_button.c:313-340 | The same over every sequence of samples |
| `Button.Trace` | components/button/iot_button.c:111-311 | From a new driver, for every sequence of samples: the log is in the grammar and balanced with the debounced level |
| `Button.IgnoreGlitch` | components/button/iot_button.c:120-128 | A glitch shorter than DEBOUNCE_TICKS, in whatever state: the driver is where a driver is that saw the level it already had, and an idle one has raised nothing |
| `ButtonMachine.AlwaysSound` | components/button/iot_button.c:130-311 | After any levels the state is where the grammar is, active exactly in states 1, 3 and 4, ticks is how long the level has lasted, and presses follow the level one for one |
| `ButtonMachine.SessionEndsIff` | components/button/iot_button.c:171-220 | A session of clicks ends at a release exactly if that press lasted short_press_ticks, and while up exactly if up for more than that |
| `ButtonMachine.LongPressIff` | components/button/iot_button.c:151-153 | A press becomes a long press exactly when it has lasted more than long_press_ticks |
| `ButtonClicks.EndsIff` | components/button/iot_button.c:130-311 | PRESS_END is raised exactly at the release of a long press, at the release of a repeated press that lasted short_press_ticks, and between clicks once up for more than that |
| `ButtonClicks.PressContinues` | components/button/iot_button.c:171-178 | A press between clicks raises PRESS_DOWN and PRESS_REPEAT and is one more press of the session |
| `ButtonClicks.ClickSession` | components/button/iot_button.c:130-220 | Any number of presses with pauses of at most short_press_ticks + 1 periods, then silence: every event of the session, in order, with SINGLE_CLICK, DOUBLE_CLICK or neither |
| `ButtonClicks.SingleAndDoubleClick` | components/button/iot_button.c:130-205 | The two traces spelled out |
| `ButtonClicks.SlowRepeat` | components/button/iot_button.c:208-220 | A repeated press held for short_press_ticks ends the session at its release, without a count of clicks |
| `ButtonClicks.LongPress` | components/button/iot_button.c:147-311 | A press held longer than long_press_ticks: one start, a hold for every SERIAL_TICKS after it, and at the release the end |
| `ButtonMachine.TraceFacts` | components/button/iot_button.c:111-311 | For every sequence of samples, repeat counts the presses of the session modulo 256, and holds are (ticks - long) / SERIAL_TICKS |
| `ButtonMachine.GlitchInvisible` | components/button/iot_button.c:111-128 | A run with a glitch and a run without it end in the same state, with the same counters and the same log, at once and after any further samples |
| `ButtonMachine.IdleStays` | components/button/iot_button.c:132-142 | A button that is idle and up raises nothing |
| `Debounce.GlitchIgnored` | components/button/iot_button.c:120-128 | Such a change leaves the debounced level as it was at every sample |
| `Debounce.GlitchLeavesNoTrace` | components/button/iot_button.c:120-128 | Once the level has been seen again the levels are the same for all further samples |
| `Debounce.LevelFollows` | components/button/iot_button.c:120-128 | A change is followed once it has lasted DEBOUNCE_TICKS samples, and not before |
| `Debounce.TrailingRunIs` | components/button/iot_button.c:120-128 | What counts as the length of a run of samples |
| `ButtonTrace.Alternate` | components/button/iot_button.c:130-311 | PRESS_DOWN and PRESS_UP alternate, beginning with PRESS_DOWN |
| `ButtonTrace.ClicksCountPresses` | components/button/iot_button.c:171-205 | The click count of the grammar is the number of presses since the last PRESS_END, modulo 256 |
| `ButtonTrace.HoldingCountsHolds` | components/button/iot_button.c:222-229 | The hold count of the grammar is the number of LONG_PRESS_HOLD events since LONG_PRESS_START |

## Left out

- FrameBuilders.BuildResponse: requires that the size check, which reckons with a 16-bit length, does not let through a frame longer than the buffer; the source would then copy past the end of it, which is undefined. The firmware passes at most 1024 bytes.
- FrameBuilders.BuildPush: the same requirement as for responses.
- RelayDown.SendResponse: the same requirement.
- RelayDown.SendPush: the same requirement.
- RelayDown.Downlink: responses carry at most 1023 bytes of data, as all of the firmware's do; a longer one would be built and then refused by the host's parser. Only the first connection of a device is followed.
- Relay.Uplink: only one connection of the device to the proxy is followed: a job that is still queued when another connect succeeds goes out on that one. Bytes that follow a failed write on the line are arbitrary, and nothing is said of what a parser makes of them.
- VirtualConns.Run: safety only; liveness and order around connecting and closing are not stated, data may precede the connect acknowledgement, and what is not accepted is lost.
- RelayTasks.Conservation: safety only; queued send jobs carry no connection, so a job may be sent on a later one, as in the source.
- Button.ButtonDev.Handler: the parameters are fixed and the log holds the events raised, with MULTIPLE_CLICK raised once per session and LONG_PRESS_START once per press; which registered callbacks run for a press time or a click count, and the 32-bit wrap-around of ticks, are left out.
- TriePaths.SpelledOnce: keys are not empty; an empty key would alias the root. The trie's iterator is left out: it returns a key whose node has children twice.
- TreeTable.Get: the neighbour queries (greater, lesser, first, last) are left out; at the ends they return the sentinel's key, and removing the last entry of an empty table removes the sentinel.
- HashTable.Table.Add: the load factor is an arbitrary function from capacity to threshold, because the source multiplies floats; allocation does not fail.
- HashTable.Table.Get: the hash functions themselves and `contains_key` are left out; `remove_all` and the callbacks over all entries would add only easier members.
- PriorityQueue.PQueue.Heapify: a child beyond the size is not read; the source reads it before the bounds test and does not use it.
- PriorityQueue.PQueue.ExpandCapacity: capacity times the expansion factor is an arbitrary function that stays within the maximum, because the source multiplies floats.
- Allocation failure and the allocator function pointers: allocation succeeds everywhere.
- The other collections (array, deque, ring buffer, memory pools, stack, queue, sets, singly linked list) and the rest of the list's operations.
- HTTP API, authentication, SOCKS and HTTP proxying, dialers, Wi-Fi and its storage, GPIO, USB writes, timers, logging.
