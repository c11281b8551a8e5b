# A verified model of the network lab

The repository is a network lab in user space. A *driver* process multiplexes network interfaces and the command
line over two pipes to a *child* program, such as a router or an ARP tool. Both sides exchange messages with a
four-byte header: a 16-bit size and a 16-bit type. This project models the code that keeps this working and proves
what it promises, over all inputs and all runs.

**The relay.** `DriverSpec` is the driver's event loop as a function of its state and of what one `select` and the
following system calls report; every read and write may be short. `Driver` is the same loop over its real buffers,
with in-place moves, proved section by section against that function. `Loop` is the child's receiving loop, as a
function of the bytes read and as a class over its buffer. `ChildOutput` are the senders. `DriverInvariant`, `Relay`,
`EndToEnd`, `Inputs`, `Packets`, `Programs`, `Scheduling`, `Fairness`, `DriverLog` and `Quiet` prove, for every
interleaving of driver and child and every way of cutting the byte streams, what is delivered. `Pipes` are the same two
processes with bounded pipes, each of them doing one thing at a time and staying in a write until it is done;
`Deadlock`, `Delivery`, `Scenarios` and `Starvation` prove what can happen there:

- `Inputs.InputReachesChild`: the child is told the addresses first, and then whole frames and whole lines, of each
  source in order and unaltered; nothing is missing once nothing is on its way;
- `Inputs.DeliveryIffInputsFit`, `Delivery.CanTellIff`: with more than 10921 interfaces, or once a frame or line of
  more than 65531 bytes was read, the child is never told everything that was read; otherwise it is once nothing is on
  its way, and such a state can be reached unless driver and child block each other;
- `Programs.ProgramReachesNetwork`: the frames that a child program forwards and the texts it prints come out at
  their interfaces and at the user, in order, and again nothing is missing once nothing is on its way;
- `Packets.PacketsAreFramesIff`: the packets are the frames exactly if no send was short;
- `Deadlock.BlocksIff`: the two can block each other exactly if messages can exceed 4096 bytes and the child's output
  can exceed 65536; `Delivery.DrainsOrBlocks`: nothing else can keep inputs that fit from arriving;
- `Loop.ChunkIndependence`: how `read` splits the input makes no difference;
- `Fairness.RepeatedOnlyWhenIdle`: between two choices of the same interface in a row nothing waited anywhere;
- `DriverLog.StopsOnlyForCause` and `LogIsFaithful`: the driver stops for named causes only, and the histories that the
  theorems speak of are what the system calls reported.

**The checksums.** `Crc32`, `Crc32Table` and `Crc32Detection`: the table filled by doubling is written once per entry
and correct, the table-driven CRC-32 equals the bitwise one of section 8 of RFC 1952 whatever the signedness of
`char`, and every burst of at most 32 bits is detected, in the message and in the appended CRC, as the comment in the
code claims. `InternetChecksum`: the 16-bit checksum equals the complement of the one's-complement sum of RFC 1071 if
and only if there are at most 65537 words; byte order, splitting, odd lengths and verification follow.

**The router.** `ArpCache` gives the content of the associative cache in terms of the history of additions alone.
`Routes` shows exactly when the first-match scan finds the longest prefix, exactly when the order of slots does not
matter, and which routes a history of additions and deletions leaves. `Lan` runs any number of routers on a LAN, with
IPv4 packets, ARP and routes configured at any time: no cache ever holds an address with a foreign MAC as long as
nobody else sends replies, and it is shown exactly which frames end a router. `Forwarding` says in bytes what becomes
of an IPv4 packet, and that over whole runs it is sent to the next hop of a matching route.

**The ARP tool and the test harness.** `ArpTool` relates the direct-mapped cache to its history of operations. `Harness`
shows that the multicast receiver succeeds exactly on complete sets of frames, including the wrap of its budget.

## Reading the model

Bytes are integers from 0 to 255 and 16-bit fields are encoded modulo 65536, so that wrapping is part of the model.
`hide` statements in proofs only keep definitions out of the solver's way. Values that the operating system chooses are
inputs: which descriptors are ready, how much each call transfers, what is received.

Findings about the code, each of which is stated as a lemma:

- The command-line buffer accepts a line of 65532 bytes, whose size wraps to zero and makes the child abort
  (`Scenarios.LongLineEndsChild`, `Inputs.DeliveryIffInputsFit`). A frame of more than 65531 bytes is misread in the
  same way.
- A line of more than 65532 bytes fills the command-line buffer without ending: from then on the driver never reads
  from the command line again (`Scheduling.DeafIffStuck`, `Scenarios.EndlessLineSticks`).
- A message without payload stays in the child's buffer until another byte arrives (`Loop.FeedStream`), because
  loop.c:55 asks for more than a header.
- Interfaces are served lowest first, so that with three busy ones the third can starve (`Starvation.HighestCanStarve`).
- Both processes write to pipes that block. If the child writes more than its pipe holds while the driver is in a
  write that does not fit the other pipe, both wait for good (`Deadlock.LinesBlock`, `Deadlock.BlockedForGood`); short
  messages or a short output exclude it, and nothing else does (`Deadlock.BlocksIff`).
- `print` and `forward_to` do not check that the size of a message fits its field: `ChildOutput.ProperIffTaken` says
  exactly which calls the driver takes for what they are, and `ChildOutput.OverlongTextIsCut` what becomes of a longer
  text.
- A received IPv4 packet ends the router if its route is resolved and its payload does not fit the outgoing interface
  (`Lan.AbortsIff`); with the smallest accepted MTU, 435 bytes suffice (`Lan.PacketKillsIffOversized`).
- The multicast receiver of the harness shifts an `int` by 31 bits or more for interfaces 32 to 63, which C does not
  define. With a shift modulo 32 it takes interface 33 for 1, 34 for 2 and so on (`Harness.ModuloShiftCountsAliases`);
  for other interfaces it is correct (`Harness.SucceedsIffComplete`).
- Text for the user is printed with a format that stops at a zero byte (`EndToEnd.ShownCompletelyIff`).
- Routes are searched in slot order and not by prefix length: `Routes.LongestPrefixIff` gives the exact condition for
  longest match, and `Routes.DefaultRouteFirstHidesOthers` an input where it fails.
- An MTU argument above 65521 is accepted but wraps to a value so small that the first ARP request aborts the router
  (`Lan.AnswersIffMtuFits`).
- `router.c` learns from ARP replies only, and does not check hardware and protocol type; RFC 826 also lets a request
  teach the one that answers it. The model follows the code (`Lan.RequestIsAnswered`).
- The comment of the checksum functions demands an even length; the code also handles odd ones
  (`InternetChecksum.OddIsPadded`).
- With more than 256 addresses the associative cache keeps replacing slot 0 and no other (`ArpCache.LookupAfterRun`).

## Model

| member | source | states |
|---|---|---|
| `Wire.EncodedFields` | glab.h:59-77 | a receiver of an encoded message followed by anything reads size and type modulo 65536, the payload unaltered, and finds the rest right behind it |
| `Wire.EncodedBytes` | glab.h:59-77 | on the wire a message that fits is its size and its type, each with the more significant byte first, and then its payload |
| `Wire.FieldsRead` | glab.h:59-77 | a receiver reads a size or type if and only if its bytes are there with the more significant one first |
| `Wire.DecodeEncode` | glab.h:59-77 | bytes whose size field agrees with their length are exactly the encoding of the message read from them |
| `Wire.TakeFromStream` | network-driver.c:632-651 | cutting a complete message off a buffer turns "messages, then buffer" into "one message more, then the rest", byte for byte |
| `Wire.MemMove` | network-driver.c:523-525 | an overlapping move within one buffer puts the old source bytes at the target and leaves every other byte alone |
| `Loop.MacCallsAt` | loop.c:70-81 | the n-th address of the list is reported for interface n, and every full entry once |
| `Loop.FeedSplit` | loop.c:43-101 | reading a+b equals reading a and then b: same calls, residue, mode and abort |
| `Loop.ChunkIndependence` | loop.c:43-101 | however read splits the input, the state depends only on the concatenated bytes |
| `Loop.DrainAppends` | loop.c:55-100 | calls are only ever appended, and no MAC call follows once the list was seen |
| `Loop.FeedMessage` | loop.c:55-100 | a message that fits is taken whole as soon as more than a header has arrived, for every message and every following byte string |
| `Loop.FeedStream` | loop.c:43-101 | decoding inverts encoding: whole messages in order; only a final message without payload stays behind as a bare header |
| `Loop.PrefixDelivery` | loop.c:43-101 | for every beginning of a stream the calls made are a prefix of those the stream stands for, and equal to them at its end |
| `Loop.UnfitIsNeverTold` | loop.c:43-101 | once a message to be sent does not fit its 16-bit fields, no input whatever makes the handlers see all that the messages stand for |
| `Loop.OverlongEndsChild` | loop.c:55-64 | a payload of 65532 to 65535 bytes aborts the child, without a call, as soon as more than its header has arrived |
| `Loop.DeliveredIffAllFit` | loop.c:43-101 | the handlers see exactly what was sent, messages with a payload, if and only if no 16-bit field wraps |
| `Loop.Receiver.OnRead` | loop.c:54-100 | the in-place inner loop does what one read does to the specified state, and leaves room for the next read |
| `Loop.Receiver.ConsumeFirst` | loop.c:65-99 | one pass dispatches the first message and moves the bytes behind it to the front |
| `Loop.Receiver.DeliverMacs` | loop.c:70-81 | the loop over the MAC list makes exactly the specified calls |
| `Loop.Receiver.Run` | loop.c:43-101 | the outer loop ends in the state that the bytes read determine, and ends only on an abort, at the end of the input, or when no further read returns data |
| `DriverInvariant.ReadStdinKeeps` | network-driver.c:476-487 | a read from the command line, also during a pending write of a line, keeps both directions consistent |
| `DriverInvariant.FinishJobStdin` | network-driver.c:512-529 | after a line is written, completed lines followed by the buffer are still all of standard input |
| `DriverInvariant.FinishJobFrames` | network-driver.c:512-529 | after a frame is written, completed frames followed by the buffered one are still all frames of each interface |
| `DriverInvariant.WriteChildKeeps` | network-driver.c:489-530 | a write to the child, however short, keeps: bytes written and bytes left are the greeting and the chosen messages |
| `DriverInvariant.SendPartFromChild` | network-driver.c:565-566 | a short send keeps: the bytes sent on an interface are its finished payloads followed by the begun part of the current one |
| `DriverInvariant.SendRestFromChild` | network-driver.c:567-575 | completing a send moves the message to those passed on, and what was read from the child is accounted for byte by byte |
| `DriverInvariant.SendPortKeeps` | network-driver.c:532-576 | the whole section keeps both directions |
| `DriverInvariant.SelectLineKeeps` | network-driver.c:578-598 | choosing a line keeps: its payload is one line up to the first newline, still in front of its buffer |
| `DriverInvariant.ReadChildKeeps` | network-driver.c:600-623 | appending child output during a pending send leaves header and unsent bytes intact |
| `DriverInvariant.TextShown` | network-driver.c:635-647 | what is printed are the texts in order, each up to its first zero byte |
| `DriverInvariant.HandleChildKeeps` | network-driver.c:625-666 | passing on the child's messages keeps both directions, over the whole repetition |
| `DriverInvariant.ServePortKeeps` | network-driver.c:668-797 | receiving a frame and choosing it keep every interface's frames in order |
| `DriverInvariant.IterateKeepsInv` | network-driver.c:390-798 | every pass of the event loop, whatever its system calls report, keeps the invariant, including that nothing idle is held back |
| `DriverLog.HandleChildRuns` | network-driver.c:625-666 | passing on messages stops the driver exactly when a frame is addressed to an interface that does not exist |
| `DriverLog.StopsOnlyForCause` | network-driver.c:476-798 | a pass behind select ends the driver if and only if a call fails or reports an end, or the next frame names a missing interface |
| `DriverLog.RunsOn` | network-driver.c:390-798 | with a child that addresses existing interfaces, in every reachable state the driver runs on while its calls succeed |
| `DriverLog.LogIsFaithful` | network-driver.c:476-798 | in every pass, the one that ends the driver too, the history grows by exactly what each call took or delivered: bytes up to the room left, one frame per reception, the written part of the current message, one packet per send, and nothing behind a call that failed |
| `Wire.DecodedPrefix` | network-driver.c:625-666 | messages decoded from a beginning of a stream are its first messages, and what remains is a beginning of the rest |
| `Relay.FrontOfStream` | network-driver.c:625-665 | a beginning of a stream of proper messages shows the first one's size, type and payload bytes |
| `Relay.ReadsWellFormed` | network-driver.c:600-666 | however the output of a proper child is cut, the driver never reads a malformed header |
| `Relay.IterationKeepsInv` | network-driver.c:390-798 | a driver pass keeps the invariant of driver, child and both pipes |
| `Relay.ChildReadKeepsInv` | loop.c:45-101 | so does a read of the child, of any size |
| `Relay.ChildWriteKeepsInv` | print.c:36-62 | so does a write of the child, cut anywhere |
| `Relay.RunKeepsInv` | network-driver.c:390-798 | every state reached by any interleaving of steps satisfies the invariant |
| `EndToEnd.CallsFollowChoices` | network-driver.c:390-798 | in every reachable state the handler calls are a prefix of MAC list and chosen messages, and equal once drained |
| `EndToEnd.DeliveryIffAllFit` | network-driver.c:390-798 | once a field of a chosen message wrapped, no reachable state, drained or not, has told the child all that was sent; otherwise a drained child was told exactly that |
| `EndToEnd.FramesReachChild` | network-driver.c:668-797 | per interface the child is given a prefix of the frames received, unaltered and in order, and all of them once drained |
| `EndToEnd.LinesReachChild` | network-driver.c:476-530 | the child is given whole lines that form a prefix of standard input, and everything up to the last newline once drained |
| `EndToEnd.GreetingNamesInterfaces` | network-driver.c:913-936 | the greeting makes the child learn the address of every interface under that interface's number |
| `Inputs.LinesOfConcat` | network-driver.c:578-598 | cutting a text at its newlines gives back the lines it was put together from |
| `Inputs.ChosenWithin` | network-driver.c:578-796 | no message chosen for the child has a longer payload than the longest frame or line read |
| `Inputs.InputsFitAllFit` | network-driver.c:585-596 | at most 65535 interfaces, and frames and lines of at most 65531 bytes, keep every size field from wrapping |
| `Inputs.AllFitInputsFit` | network-driver.c:585-596 | conversely, if no size field wrapped and nothing is pending, every frame and every complete line read was that short |
| `Inputs.ToldInputsFit` | loop.c:43-101 | a child that was told every address, frame and line read was told of at most 10921 interfaces and of nothing longer than 65531 bytes |
| `Inputs.DeliveryIffInputsFit` | network-driver.c:390-798 | with more than 10921 interfaces, or once a frame or line of more than 65531 bytes was read, no reachable state, drained or not, has told the child everything read; otherwise every drained state has, by exactly the calls that all that was sent stands for |
| `EndToEnd.HandledFollowOutput` | network-driver.c:625-666 | messages passed on are the first the child sent; all of them once drained |
| `EndToEnd.SentOnInterface` | network-driver.c:532-576 | the bytes sent on an interface are a prefix of the payloads addressed to it, in the middle of a send too |
| `EndToEnd.ShownCompletelyIff` | network-driver.c:637-641 | text is printed completely if and only if none of it holds a zero byte |
| `EndToEnd.OutputReachesNetwork` | network-driver.c:532-666 | over whole runs: the bytes sent on every interface are its payloads in order, and the user gets the texts, with nothing missing once drained |
| `Packets.PacketsAreFramesIff` | network-driver.c:545-575 | over whole runs: the packets sent on an interface are the frames the child sent there if and only if no sendto was short; cut or not, they hold the same bytes |
| `Programs.ProgramReachesNetwork` | print.c:36-104 | for every sequence of print and forward_to calls that make proper messages, every interface is sent the frames forwarded to it and the user is shown the texts, in order, with nothing missing once drained |
| `Programs.ProgramCanFinish` | print.c:36-104 | from every reachable state of a running driver whose inputs fit, unless the two can block each other, a state can be reached in which everything read was delivered to the program and all that it called in answer has come out |
| `Inputs.InputReachesChild` | network-driver.c:390-798 | over whole runs with inputs that fit: addresses first, then whole frames and exactly the lines of standard input, of each source in order, with nothing missing once drained |
| `Pipes.AfterKeeps` | network-driver.c:489-511 | every move of the two single-threaded processes, each of which stays in a write until all of it fits the pipe, keeps the invariant of driver, child and pipes |
| `Pipes.AfterBounded` | network-driver.c:842-851 | and no pipe ever holds more than its capacity |
| `Pipes.LeadsRuns` | network-driver.c:390-798 | every run of these moves is a run of the relay, so that all theorems about its runs hold |
| `Deadlock.BlockedForGood` | print.c:44-61 | once driver and child each wait in a write for the other to read, nothing is read any more in any continuation, and all moves come to an end |
| `Deadlock.ShortInputsNeverWait` | network-driver.c:492-494 | while no frame or line has more than 4092 bytes, a write to the child that select allowed never has to wait for the child |
| `Deadlock.NeverBlocked` | network-driver.c:489-530 | with inputs so short, or a child whose output fits its pipe, no reachable state is such a deadlock |
| `Deadlock.LinesBlock` | network-driver.c:489-511 | the failing input: fifteen lines of 4092 bytes and one of 4093, typed before a child that prints 65537 bytes starts to, end in the deadlock |
| `Deadlock.BlocksIff` | network-driver.c:489-511 | with frames and lines of at most max bytes and at most size bytes of output, a deadlock is reachable if and only if a message can exceed 4096 bytes and the output can exceed 65536 |
| `Delivery.DrainsOrBlocks` | network-driver.c:390-798 | from every state of a running driver whose inputs fit, a state can be reached, with no new input, in which nothing is on its way, or it is the deadlock: nothing else can keep what was read from arriving |
| `Delivery.CanDrain` | network-driver.c:390-798 | where the deadlock cannot happen, every reachable state of a running driver can be continued to one in which nothing is on its way and the child was told everything read |
| `Delivery.DrainedFromWorld` | network-driver.c:532-666 | in such a state all that the child answered to what it has read was sent on the right interfaces and printed, in order |
| `Delivery.CanTellIff` | network-driver.c:390-798 | in every reachable state, everything read can still be told to the child only if the inputs fit; and if and only if they fit, where the driver runs and the deadlock cannot happen |
| `Scenarios.LongLineEndsChild` | network-driver.c:585-596 | a run from the start in which a line of 65532 bytes is accepted, sent, and aborts the child |
| `Scenarios.EndlessLineSticks` | network-driver.c:449-456 | a run from the start in which 65532 bytes without newline make the driver deaf to the command line, in every continuation |
| `Scheduling.FreeChildIsServedInOrder` | network-driver.c:578-598 | a child that becomes free is given at once the next line, or else the frame of the lowest interface that has one |
| `Scheduling.OnlyEmptyPortsChange` | network-driver.c:420-435 | only an interface that was empty at select can receive in that pass |
| `Scheduling.NoImmediateRepeat` | network-driver.c:510-529 | the pass that completes a message of interface i never chooses from i, and chooses another interface's frame if there is one |
| `Fairness.RepeatOnlyAfterIdle` | network-driver.c:390-798 | a pass chooses the interface of the previous choice again only if it found nothing waiting anywhere |
| `Fairness.RepeatedOnlyWhenIdle` | network-driver.c:390-798 | over any run: between two choices of one interface that follow each other there was a state in which no line, no frame and no message waited |
| `Starvation.HighestCanStarve` | network-driver.c:668-797 | with three busy interfaces and a child that reads all it is sent, a frame of the third can wait through any number of other choices |
| `Scheduling.ChildIsHeard` | network-driver.c:437-447 | without a pending send, bufin has room and holds no complete message at every select |
| `Scheduling.NothingIsHeldBack` | network-driver.c:578-598 | a free child at select means no complete line and no frame is buffered |
| `Scheduling.DeafIffStuck` | network-driver.c:449-456 | with a free child, the driver stops listening to the command line if and only if its buffer is full and holds no line |
| `Scheduling.StuckForever` | network-driver.c:449-598 | in that case a pass, whatever it is told, leaves the buffer and the history of the command line as they are |
| `Scheduling.StuckInEveryRun` | network-driver.c:449-598 | and over every run the driver never reads from the command line again |
| `Scheduling.LoopHasRoom` | loop.c:36-54 | the child never calls read with a full buffer, which it would take for the end of its input |
| `Driver.Interface.Remove` | network-driver.c:512-527 | the compaction, which moves header-size bytes too many for the command line, stays in bounds and keeps exactly the valid bytes |
| `Driver.Interface.Fill` | network-driver.c:768-788 | the buffer of an interface holds the encoded frame |
| `Driver.Interface.StartText` | network-driver.c:585-596 | header and line are ready to be written, and what is typed stays in place |
| `Driver.Interface.Append` | network-driver.c:480-486 | new text is appended, and bytes being written in front of it stay |
| `Driver.EventLoop.ReadStdin` | network-driver.c:476-487 | the section does to the real buffers what the specification does to its state |
| `Driver.EventLoop.WriteChild` | network-driver.c:489-530 | likewise for the write to the child |
| `Driver.EventLoop.SendPort` | network-driver.c:532-576 | likewise for the send on an interface, with the pending part tracked by offset and count |
| `Driver.EventLoop.SelectLine` | network-driver.c:578-598 | likewise for choosing a line |
| `Driver.EventLoop.FindNewline` | network-driver.c:582-584 | the search returns the first newline, if there is one |
| `Driver.EventLoop.ReadChild` | network-driver.c:600-623 | likewise for reading from the child behind pending bytes |
| `Driver.EventLoop.HandleChild` | network-driver.c:625-666 | likewise for the repetition over buffered messages, which terminates |
| `Driver.EventLoop.ReceiveFrame` | network-driver.c:672-788 | likewise for receiving a frame |
| `Driver.EventLoop.ServePorts` | network-driver.c:668-797 | likewise for the loop over all interfaces |
| `Driver.EventLoop.Iterate` | network-driver.c:390-798 | one pass over the real, disjoint buffers is one step of the specification |
| `Driver.MakeGreeting` | network-driver.c:914-931 | the buffer built holds the encoded list of all addresses |
| `ChildOutput.PositiveResultsSuffice` | print.c:44-61 | with positive results, and as many as there are bytes, everything is written |
| `ChildOutput.AcceptedIff` | print.c:40-61 | all is taken if and only if some number of writes succeed one after the other and take at least the size together |
| `ChildOutput.AcceptedBeforeFailure` | print.c:48-60 | what is taken is the sum of the results before the first one that is not positive, or all there is |
| `ChildOutput.Pipe.WriteAll` | print.c:36-62 | the bytes written are the first ones; it exits if and only if the results do not suffice, and then with the sum of those before the first failure written |
| `ChildOutput.ProperIffTaken` | print.c:88-92 | a call is proper if and only if the driver, whatever follows, finds a header it can work with and exactly the message of that call behind it |
| `ChildOutput.OverlongTextIsCut` | print.c:88-92 | a longer text reaches the driver cut by 65536 bytes, and what was cut off is read as further messages; or its size is below that of a header |
| `ChildOutput.ProperProgramIff` | print.c:88-92 | all messages of a program are ones the driver can take if and only if all calls before the first abort are proper: no text reaches 65532 bytes and every frame has 1 to 65531 bytes |
| `ChildOutput.Pipe.Print` | print.c:72-104 | one control message with the C string; exit if and only if the results of write leave a part unwritten |
| `ChildOutput.Pipe.ForwardTo` | router.c:385-406 | one message for the interface, or an abort without a byte written exactly when the frame exceeds the MTU; exit if and only if a part stays unwritten |
| `ChildOutput.Pipe.Perform` | print.c:36-104 | a sequence of such calls sends the messages up to the first frame beyond the MTU, and ends with the first call whose writes do not suffice, behind the bytes these took |
| `ChildOutput.Pipe.TSend` | harness.c:246-263 | one message in two writes, or an abort without a byte written exactly when its size does not fit; exit if and only if a part stays unwritten |
| `Crc32.Chaining` | crc.c:75-94 | a CRC may be computed in pieces: crc(crc(c, a), b) = crc(c, a+b) |
| `Crc32.CheckValue` | crc.c:84-94 | the CRC of the letter a is 0xe8b7be43, as for every CRC-32 of this kind |
| `Crc32.StepsLinear` | crc.c:66-69 | any number of register steps is linear over exclusive or |
| `Crc32.StepsInjective` | crc.c:66 | any number of register steps is a bijection |
| `Crc32.FeedByte` | crc.c:91-92 | eight bitwise steps, least significant bit first, equal mixing the byte in and stepping eight times |
| `Crc32Table.EntryXor` | crc.c:68-69 | the table entry of a sum of disjoint bit sets is the exclusive or of their entries |
| `Crc32Table.EntryHalf` | crc.c:64-67 | the entry of half a power of two is one register step of the entry of that power |
| `Crc32Table.IndexIgnoresSign` | crc.c:92 | the table index is the same for signed and unsigned char |
| `Crc32Table.TableStep` | crc.c:92 | one look-up equals eight bitwise steps, for every register and byte |
| `Crc32Table.LastEntry` | crc.c:88-89 | entry 255 is 0x2d02ef8d, so the abort is unreachable |
| `Crc32Table.Table.Init` | crc.c:54-71 | the first call writes each of the 256 entries exactly once, with the value of eight steps of its index; later calls write none |
| `Crc32Table.Table.Round` | crc.c:68-69 | one inner loop writes exactly the entries of that round |
| `Crc32Table.TableCrc` | crc.c:84-94 | never aborts and returns the bitwise CRC-32 of section 8 of RFC 1952, for every buffer and chaining value |
| `Crc32Detection.RegisterLinear` | crc.c:90-93 | the registers of two equally long inputs differ by the register of their difference |
| `Crc32Detection.WindowIsSeen` | crc.c:81-82 | at most 32 bits, not all zero, never leave an empty register empty |
| `Crc32Detection.BurstDetected` | crc.c:79-83 | buffers of equal length that differ only within 32 consecutive bits, not byte-aligned, have different CRCs |
| `Crc32Detection.ResidueIffCrc` | crc.c:79-83 | a message followed by four bytes gives one fixed value if and only if these are its CRC in little-endian order |
| `Crc32Detection.CodewordBurstDetected` | crc.c:79-83 | with the CRC appended, no burst of at most 32 bits anywhere in message and CRC goes unnoticed |
| `Crc32Detection.OneShot` | crc.c:104-112 | starting with the CRC of nothing changes nothing |
| `InternetChecksum.HostsReadWords` | crc.c:123-132 | a big-endian host reads two bytes in network order, a little-endian one in reverse |
| `InternetChecksum.ComputeStep` | crc.c:123-132 | the loop, with wrap-around and the masked byte behind an odd end, computes the specified sum whatever that byte is |
| `InternetChecksum.ComputeChecksum` | crc.c:158-165 | sum and fold in one call |
| `InternetChecksum.FinishIs` | crc.c:142-148 | for every 32-bit sum, the two folds give the complement of its one's-complement representative |
| `InternetChecksum.StepIsTotal` | crc.c:123-132 | the running sum is the total of the words modulo 2 to the 32 |
| `InternetChecksum.ChecksumExact` | crc.c:123-165 | up to 65537 words, the value is the complement of the one's-complement sum of RFC 1071 |
| `InternetChecksum.OverflowIsWrong` | crc.c:128 | for every larger number of words there is a buffer that is summed wrongly |
| `InternetChecksum.ExactBound` | crc.c:123-165 | n words are always summed correctly if and only if n is at most 65537 |
| `InternetChecksum.Chaining` | crc.c:123-132 | sums may be split at any even offset |
| `InternetChecksum.OddIsPadded` | crc.c:129-130 | an odd last byte acts like one followed by a zero |
| `InternetChecksum.ByteOrderIndependence` | crc.c:123-165 | swapping the bytes of every word swaps the bytes of the checksum (RFC 1071, section 2(B)) |
| `InternetChecksum.SameBytesOnEveryHost` | crc.c:123-165 | the two bytes stored are the same on hosts of either byte order |
| `InternetChecksum.VerifiesIffChecksum` | crc.c:158-165 | with the field zeroed before, recomputing gives zero if and only if the field holds the checksum, or 0xffff where that is 0 |
| `ArpCache.Cache.LookupArp` | router.c:71-83 | the scan returns the MAC of the first slot that holds the address |
| `ArpCache.Cache.AddArp` | router.c:93-120 | the two scans and the replacement change exactly the specified slot |
| `ArpCache.AddFollowsLayout` | router.c:93-120 | one more add turns the layout of the history into the layout of the longer history, in all four cases |
| `ArpCache.RunIsLayout` | router.c:93-120 | after any adds every slot's content is known from the history alone |
| `ArpCache.SlotsAfterRun` | router.c:93-120 | in the table after any adds, slot i is in use exactly if there were more than i distinct addresses, and no two slots hold the same address |
| `ArpCache.LookupAfterRun` | router.c:71-120 | held are the 2nd to 256th distinct address and the last one outside them, each with its latest MAC; nothing else is found |
| `ArpCache.FewAddressesAreMap` | router.c:71-120 | with at most 256 distinct addresses the cache is a plain map |
| `Net.BitsOfWord` | router.c:464-464 | as a word, an address has the bits of its four bytes one after the other, most significant first |
| `Routes.MasksNested` | router.c:753-753 | for prefix lengths 0 to 32, one mask contains the other exactly when its prefix is at least as long |
| `Routes.BitOfMask` | router.c:753-753 | the mask of a prefix length has a one in exactly that many leading bits |
| `Routes.MaskedIffSamePrefix` | router.c:464-464 | two addresses agree under the mask of a prefix length if and only if they agree in that many leading bits |
| `Routes.MatchesIffPrefix` | router.c:464-464 | a route matches a destination if and only if the destination begins with the leading bits of its network and the network has no bit beyond its prefix |
| `Routes.Table.RoutePacket` | router.c:453-486 | the scan stops at the first matching route, also when its next hop is not resolved, and ends the process if the payload does not fit the outgoing interface |
| `Routes.Table.Add` | router.c:848-861 | the lowest unused slot is filled; a full table is left alone |
| `Routes.Table.Del` | router.c:883-896 | the lowest slot with that network and mask is freed |
| `Routes.LowestSlots` | router.c:848-896 | an addition fills the lowest unused slot and a deletion frees the lowest slot of its network; without such a slot nothing changes |
| `Routes.DelUndoesAdd` | router.c:832-897 | deleting a route just added restores the table, if no other entry is for that network |
| `Routes.OneRouteChanges` | router.c:832-897 | counted with multiplicity, an add stores one route and a delete removes one of that network, or nothing changes |
| `Routes.NestedOrDisjoint` | router.c:464-464 | a destination of the longer prefix matches the shorter one if and only if its network does |
| `Routes.OverlapIffNested` | router.c:464-464 | two routes share a destination if and only if one network lies in the other |
| `Routes.LongestIfLongerFirst` | router.c:459-485 | with longer prefixes in lower slots, first match is longest match (section 5.2.4.3 of RFC 1812) |
| `Routes.LongestPrefixIff` | router.c:459-485 | first match is longest match for all destinations under all deletions if and only if nested routes have the longer prefix in front |
| `Routes.PacketsFollowLongestPrefix` | router.c:453-486 | for every table so ordered and ARP history a longest match decides: sent to the latest MAC of its next hop, dropped if none matches or that MAC is not held, and the end of the router if it is held but the payload exceeds the MTU |
| `Routes.DefaultRouteFirstHidesOthers` | router.c:848-859 | the failing input: added after a default route, a longer prefix is in the table and missed for every destination it matches |
| `Routes.DisjointChoice` | router.c:459-485 | tables with the same routes, none of which overlap, choose alike |
| `Routes.ChoiceDependsOnSetIff` | router.c:459-485 | slot order never matters if and only if no two routes overlap |
| `Routes.CountsAfterRun` | router.c:832-897 | after any history, whatever is added again or lost in a full table, the table holds exactly as many routes of each network, and in all, as the history leaves |
| `Routes.TableIsHistory` | router.c:832-897 | after any history, a network that the table never held twice has exactly the route in it that was last stored for it and not deleted since, whatever happened to other networks or was lost in a full table |
| `Routes.HistoryIsIrrelevant` | router.c:832-897 | two such histories that leave the same disjoint routes choose alike, in whatever slots the routes ended up |
| `Lan.MadeFrameCarries` | router.c:504-524 | a frame built for an ARP packet, with any padding, carries every field of it where the parser looks |
| `Lan.ParseCarriedArp` | router.c:418-442 | and parsing such a frame gives the ARP data it was built from |
| `Lan.Router.Receive` | router.c:453-611 | new cache, frame sent and abort are those specified for the frame received, IPv4 or ARP; Forwarding.PacketIsHandled and Lan.AnsweredIff say which these are, in bytes |
| `Forwarding.PacketIsParsed` | router.c:559-580 | whatever MACs, payload and rest of the header a frame has, the router finds the destination in the last four bytes of the IPv4 header |
| `Forwarding.PacketIsHandled` | router.c:418-486 | a packet for dest is decided by the route chosen for dest: sent on its interface, to the MAC the cache has for its next hop, from the MAC of the interface, with tag 0x0800 and the bytes from the copied header on; dropped; or the end of the router |
| `Forwarding.PacketGoesByBestRoute` | router.c:418-486 | for every ordered table and ARP history a packet goes by a longest match, to the latest MAC its next hop announced, if that is held and the payload fits |
| `Forwarding.TableIsConfigured` | router.c:832-897 | in every run a router's table is what the routes added and deleted at it make of it, and nothing else changes it |
| `Forwarding.CacheIsHeard` | router.c:526-529 | in every run a router's cache is what the ARP replies it has heard make of it, and nothing else changes it |
| `Forwarding.SentToNextHop` | router.c:418-486 | on a LAN where only routers reply, whatever is sent for a packet is an IPv4 frame from the MAC of the chosen route's interface to the MAC of an interface that has the address of the next hop |
| `Lan.AnswersIffMtuFits` | router.c:1022-1034 | of the accepted MTU arguments exactly those up to 65521 let a request be answered instead of aborting |
| `Lan.AbortsIff` | router.c:418-486 | a frame ends a router if and only if it asks for an interface whose MTU leaves no room for the answer, or is an IPv4 packet whose route is resolved and whose payload exceeds the outgoing MTU |
| `Lan.OutcomeIsGenuine` | router.c:453-530 | what a router caches and sends is genuine if what it hears is |
| `Lan.NextIsTruthful` | router.c:453-611 | every step on the LAN, routes being configured at will, keeps all caches and all replies on the wire genuine |
| `Lan.CachesStayGenuine` | router.c:453-611 | over every run, every cache entry pairs an interface's address with its own MAC |
| `Lan.LookupsTellTheTruth` | router.c:71-120 | starting from empty caches, every look-up at any router at any time gives the MAC of an interface with that address |
| `Lan.DeathHasCause` | router.c:418-486 | a router that dies in a run heard, at that step, a frame it could not answer or forward |
| `Lan.NobodyDies` | router.c:418-486 | no router dies while every interface may send ARP replies and no frame of others is more than 20 bytes longer than any interface may send |
| `Lan.PacketKillsIffOversized` | router.c:474-474 | the failing input: a run from fresh routers in which, with the smallest accepted MTU and a default route, an IPv4 packet ends the router if and only if it has at least 435 bytes |
| `Lan.RequestIsAnswered` | router.c:504-524 | a request is answered to its sender with the right four addresses, and a router that hears the answer knows the MAC; the answering router learns nothing |
| `Lan.AnsweredIff` | router.c:497-530 | an ARP packet is answered if and only if it is a request for the address of the interface that hears it and the answer fits; only replies are learned from |
| `Net.HostOrderOrders` | arp.c:543-545 | in host order, addresses are ordered byte by byte from the first |
| `ArpTool.HashIsLastByte` | arp.c:543-545 | two addresses share a slot exactly when their last bytes are equal |
| `ArpTool.DirectCache.AddArp` | arp.c:552-557 | overwrites the address's slot and no other |
| `ArpTool.DirectCache.RemoveArp` | arp.c:562-567 | frees the slot only if it holds that address |
| `ArpTool.DirectCache.LookupArp` | arp.c:572-578 | looks at the address's slot only |
| `ArpTool.EntriesStayHome` | arp.c:552-567 | after any operations every entry sits in its own slot |
| `ArpTool.LookupIffLastAdd` | arp.c:543-578 | a MAC is found if and only if the last operation that concerns the address added it with that MAC |
| `Harness.CheckFrame` | harness.c:146-208 | 2 exactly for text; 0 if and only if the interface is the expected one, the length is the expected one (at least, if negative), and every expected byte is there |
| `Harness.ClearBit` | harness.c:117-117 | subtracting the value of a set bit clears that bit and no other |
| `Harness.BudgetCounts` | harness.c:288-351 | text costs no attempt even when the counter wraps, anything else costs one |
| `Harness.MulticastResult` | harness.c:79-128 | for kinds that C defines, a frame counts exactly if it is the expected one on an interface still missing, and takes that interface off the mask |
| `Harness.TooFewAttempts` | harness.c:276-358 | with fewer attempts than interfaces missing it fails, whatever defined messages arrive |
| `Harness.SucceedsIffComplete` | harness.c:276-358 | with k attempts for k interfaces below 32 it succeeds if and only if the next k frames are the expected one on exactly these, in any order, with any text between |
| `Harness.SucceedsIffSeen` | harness.c:276-358 | with any number of attempts it succeeds if and only if among as many frames there is, for every interface below 32 in the mask, one that equals the expected frame byte by byte |
| `Harness.DifferentByteNeverCounts` | harness.c:160-208 | a frame that differs in one expected byte, or lacks it, only costs an attempt, whatever else arrives and whatever the mask |
| `Harness.ModuloShiftCountsAliases` | harness.c:97-117 | where the shift is taken modulo 32, it succeeds if and only if the frames would be complete with interface 33 counted as 1, and so on up to 63 as 31, and 32 as none |
| `Harness.WrongInterfaceCounts` | harness.c:97-117 | the failing input: where the shift is taken modulo 32, a frame of interface 33 makes it succeed for interface 1 |
| `Harness.Child.Trecv` | harness.c:276-358 | for any split of the input, messages looked at and bytes left are all that was read, result and mask are those specified for these messages, and it times out only when nothing more can be read in time |
| `Harness.Child.ReceiveMulticast` | harness.c:79-358 | if messages come in time, the code as used returns 0 if and only if they are complete; in any case if and only if those it saw are |
| `Harness.Child.NextMessage` | harness.c:293-349 | one message is taken off whole, or a timeout leaves an incomplete one when nothing more can be read in time |

## Left out

- Sockets, `ioctl`, starting the child, signals, privileges and the timing of `select`: only readiness and byte counts remain, as inputs; the `EINTR` and zero results of `select`, which just repeat the loop, are not steps.
- The errors printed for the user: an error that ends a process ends the run in the model.
- VLAN information that the kernel delivers beside a frame (network-driver.c:729-766): a received frame is taken as already tagged.
- Clearing the receive buffer before a frame is read: the bytes behind the frame are never looked at.
- The destination address passed beside a frame in `sendto`: only the interface and the bytes sent are modelled.
- Filtering by MAC (network-driver.c:774-783), which is switched off by a constant.
- Malformed output of the child: a size below a header, and a frame without payload, for which the driver would send nothing and stop; a child that sends proper messages is shown never to make the driver see one.
- Delivery.CanDrain: shows that a drained state can be reached, not that the operating system schedules it; fairness of `select` is not part of this model.
- Pipes.AfterKeeps: a pipe holds 65536 bytes and is reported ready from 4096 free bytes on, as on Linux; the greeting, which main writes before the loop, is in the pipe from the start, and what the driver does after the child's death is not modelled there.
- InternetChecksum.ComputeStep: takes the byte read behind an odd buffer as an arbitrary value, since the read itself is outside the buffer in the source.
- `GNUNET_CRYPTO_crc32_n` returns the CRC as a signed 32-bit integer; the model keeps the unsigned value.
- CRC-8: the same register algebra in another width and bit order; it would only repeat the easier half of the CRC-32 proofs.
- Fragmentation, time to live, header checksum and ICMP of IPv4 do not exist in the source. It sends a copy of the IP header with the length of the payload (router.c:474); the bytes behind the copy, which are whatever the stack holds, are an arbitrary input of the model.
- Parsing of commands and arguments: prefix lengths, routes and MTUs are taken as parsed values.
- `parse_frame` of the ARP tool, which hands its arguments to the cache in the wrong order (arp.c:266): the cache functions are modelled by their declared parameters.
- Lan: routers hear each other directly; that frames pass through driver and pipes is the subject of the relay modules.
- Harness.SucceedsIffComplete: says nothing about messages of interfaces 32 to 63, where C leaves the code undefined; what the compiler makes of them is an arbitrary function in the model.
- Harness.SucceedsIffSeen: neither does it; Harness.DifferentByteNeverCounts holds for every interface.
- Harness.Child.Trecv: models the receiver with `expect_multicast`, which includes `expect_frame`; the three-second limit is the end of the list of reads.
- Hub, switch, VLAN switch and parser: their forwarding is not written in the repository.
