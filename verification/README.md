# Tasarch GDB stub: a verified model

tasarch contains a GDB server: it frames packets, matches acknowledgments, decodes command
arguments, dispatches queries, lets the debugger do system calls for it, and keeps memory of its
own that the debugger can read and write. Beside it sits a small configuration layer that merges
TOML values and looks up logging levels. This project models those parts in Dafny and proves what
they promise.

| file | models |
|---|---|
| `Bytes.dfy` | bytes, hexadecimal digits, byte sums |
| `Buffers.dfy` | `class buffer`, a bounded byte queue with a read and a write head |
| `Framing.dfy` | the packet format: what a sender writes and the five-state machine that reads it |
| `Language.dfy` | which bytes make one receiving call return what, both ways |
| `PacketIo.dfy` | `class PacketIO` over a socket, its refill buffer and its write buffer |
| `StopAndWait.dfy` | two packet ends and a link that garbles frames, as a state machine |
| `Duplex.dfy` | a whole session of requests and responses over the two directions of one stream, as a state machine |
| `Coding.dfy` | the meaning of the argument coders, as functions on byte strings |
| `Coders.dfy` | the coders that walk a buffer, the arguments of memory packets and the File-I/O reply |
| `Queries.dfy` | the query dispatcher |
| `RemoteIo.dfy` | the two queues of remote File-I/O |
| `InternalMem.dfy` | the memory of the debugger, the two packets that reach it, and the pointers printed for it |
| `Toml.dfy`, `Merging.dfy` | parsed configuration values and their merge |
| `LogLevels.dfy` | the tree of logging levels |
| `Examples.dfy` | small packets, replies and lists written out byte by byte |

How the pieces hang together: a class method is proved equal to a function on the bytes or values
it works on, and the theorems are about those functions. `ReceivePacket` computes `Receive` of the
byte stream however the socket cuts it; `Receive` is then shown to invert `Frame`, to accept
nothing but valid frames, and to be safe inside the links of `StopAndWait` and `Duplex`. The basic
functions that all of this is stated with (digits, escapes, number texts, level names, value types)
are fixed by lemmas of their own, which say both ways which bytes they relate. An exception of the
program is an outcome of the model (`Err`, `None`, `false`, `TooSmall`, `TimedOut`); no method has
a precondition that shuts out an input the program handles.

Three promises that fail somewhere are stated with their exact condition, and with an input that
shows the failure.

* A File-I/O reply that carries an attachment is read back only when the break flag stands in
  front of the attachment and the attachment is neither empty nor contains a zero byte
  (`FileReplyRoundTrip`). In every other case the comma-separated coders of
  `src/gdb/connection.cpp:27` swallow the semicolon and the attachment is lost or taken for
  another field. `PlainAttachmentIsLost`: the reply `5;a` reads back without its `a`.
* A query reaches its handler only if at least one byte follows the registered name, also when the
  handler wants no separator (`HandlerReached`). `BareNameFails`: `qSupported` without a colon
  behind it, the one query the program registers, is unknown.
* A read or write of the internal memory is defined only if the end of the request does not wrap
  around the address space and there is data for every byte written (`AccessCharacterised`).
  `WrappingReadFails`: the longest read one byte into the memory has no range. `ShortWriteFails`:
  nor has a write of two bytes that brings one.

## Model

| member | source | states |
|---|---|---|
| Buffers.Buffer.constructor | src/gdb/buffer.h:63-66 | a new buffer is empty and has the given size |
| Buffers.Buffer.GetByte | src/gdb/buffer.h:164-172 | takes the oldest unread byte, or throws and changes nothing |
| Buffers.Buffer.GetStr | src/gdb/buffer.h:225-230 | takes the next num bytes, all unread ones if num is zero, or throws and changes nothing |
| Buffers.Buffer.GetCount | src/gdb/buffer.h:192-196 | skips bytes exactly when there are enough |
| Buffers.Buffer.PutByte | src/gdb/buffer.h:274-281 | appends, or throws exactly when all room was written, whatever was read |
| Buffers.Buffer.AppendBuf | src/gdb/buffer.h:292-297 | appends all of the data or nothing |
| Buffers.Buffer.PutCount | src/gdb/buffer.h:306-311 | makes readable what was stored behind the write head |
| Buffers.Buffer.Reset | src/gdb/buffer.h:342-346 | empties the buffer and gives all room back |
| Buffers.BufferRuns | src/gdb/buffer.h:81-346 | after any sequence of calls, bytes written since the reset are consumed then unread bytes, and a write is refused exactly when it would not fit behind all of them: reading makes no room |
| Bytes.HexDigits | src/gdb/coding.h:38-61 | both ways: the digits are the two lists 0-9a-f and 0-9A-F, and the lower one is written |
| Framing.CodeEscapeCharIsXor | src/gdb/packet_io.h:147-150 | the arithmetic form of the escape is exclusive or with 0x20 |
| Framing.ResponseByte | src/gdb/packet_io.h:122-150 | the stub escapes '$', '#', '}' and '*' by toggling bit 5, and every other byte stands for itself |
| Framing.BodyAppend | src/gdb/packet_io.cpp:92-103 | a body is written byte by byte |
| Framing.BodyUnescapes | src/gdb/packet_io.cpp:92-103 | every encoder that escapes '#' and '}' writes a body in which each '}' starts a pair and each '#' is inside one, and which unescapes to the payload |
| Framing.ResponseBodyBytes | src/gdb/packet_io.h:134-137 | a response body never shows '$', '#' or '*' |
| Framing.FrameSize | src/gdb/packet_io.h:46-49 | a frame stays below the worst case the sender reserves, which is reached when every byte is escaped |
| Framing.TrailerMatches | src/gdb/packet_io.cpp:99-106 | the sender's reduced integer sum is what the receiver's wrapping byte is compared with |
| Framing.SumSpellings | src/gdb/packet_io.cpp:217-236 | both ways: a checksum matches exactly when its digits spell the raw sum modulo 256, each in either case |
| Framing.ScanCandidate | src/gdb/packet_io.cpp:173-256 | any closed frame that fits is delivered exactly when the checksum digits are right (or acks are off), else rejected, stopping at its last byte |
| Framing.FrameRoundTrip | src/gdb/packet_io.cpp:173-253 | what any such encoder framed is delivered unchanged behind noise, one ack is sent, and nothing behind the frame is read |
| Framing.ResponseArrives | src/gdb/packet_io.cpp:64-253 | whatever payload the stub frames with its own escapes is delivered unchanged, in both modes |
| Framing.CapitalChecksum | src/gdb/packet_io.cpp:217-250 | a frame whose checksum is written in capitals is delivered |
| Framing.FramesArePrefixFree | src/gdb/packet_io.cpp:86-106 | no frame is a proper prefix of another, also across the two escape sets, and equal frames have equal payloads |
| Framing.StreamRoundTrip | src/gdb/packet_io.cpp:145-259 | one call per packet returns all payloads of a stream in order, whatever noise lies between, each call leaving exactly the bytes behind its frame |
| Framing.CorruptedByteIsRejected | src/gdb/packet_io.cpp:217-250 | one changed body byte that leaves the terminator in place is never delivered: it is rejected, or overflows the buffer |
| Framing.RejectionRestarts | src/gdb/packet_io.cpp:238-245 | a garbled frame costs one nack and the call goes on as if new |
| Language.Parse | src/gdb/packet_io.cpp:173-253 | any bytes are one of five openings and what is behind it: noise, a break, a closed packet, one too long, one cut off |
| Language.ScanOpening | src/gdb/packet_io.cpp:173-253 | what the machine makes of each opening and where it stops |
| Language.FirstVerdictDelivers | src/gdb/packet_io.cpp:173-253 | both ways: the first verdict is a delivery exactly when the bytes are noise, then one closed frame that unescapes to the payload with the right checksum |
| Language.CallDelivers | src/gdb/packet_io.cpp:145-259 | both ways: one call returns a payload with n nacks exactly when the bytes are n rejected frames, each behind noise, then noise and one accepted frame that carries it |
| Language.FirstVerdictInterrupts | src/gdb/packet_io.cpp:177-188 | both ways: the first verdict is an interrupt exactly when a break byte comes before any begin marker |
| Language.CallInterrupted | src/gdb/packet_io.cpp:145-259 | both ways: one call reports an interrupt with n nacks exactly when the bytes are n rejected frames, each behind noise, then noise and a break byte |
| Language.CallOverflows | src/gdb/packet_io.cpp:145-259 | both ways: one call throws buffer_too_small after n nacks exactly when behind n rejected frames and noise a packet fills the buffer and goes on by one item |
| Language.CallTimesOut | src/gdb/packet_io.cpp:145-259 | both ways: one call times out after n nacks exactly when behind n rejected frames the bytes end in noise or in a packet that fits so far, which the buffer then holds |
| Language.SplitRejections | src/gdb/packet_io.cpp:238-248 | every call is some number of rejected frames, none without acks, and then a first verdict other than rejection or the end of the bytes |
| PacketIo.PacketIO.constructor | src/gdb/packet_io.h:152-163 | acks are on and both buffers are empty |
| PacketIo.PacketIO.SetNoAck | src/gdb/packet_io.h:196 | acks are off afterwards |
| PacketIo.PacketIO.RecvData | src/gdb/packet_io.cpp:28-45 | a refill starts the buffer over with the next bytes of the socket, in order; with an empty buffer nothing is lost |
| PacketIo.PacketIO.GetByte | src/gdb/packet_io.cpp:47-62 | returns the stream byte by byte, however the socket cuts it |
| PacketIo.PacketIO.SendPacket | src/gdb/packet_io.cpp:64-143 | too large a payload sends nothing; otherwise the frame is sent once and once more per nack before the first ack, the result is whether a break came before that ack, and replies behind it stay unread; no put can throw |
| PacketIo.PacketIO.PutBody | src/gdb/packet_io.cpp:86-103 | the encoding loop writes the escaped payload and keeps its sum modulo 256 |
| PacketIo.PacketIO.Transmit | src/gdb/packet_io.cpp:108-142 | the retransmit loop follows the reply stream |
| PacketIo.PacketIO.AwaitReply | src/gdb/packet_io.cpp:124-141 | the inner wait stops at the first ack or nack and remembers breaks |
| PacketIo.AwaitCounts | src/gdb/packet_io.cpp:108-142 | copies are counted by the nacks before the first ack and the interrupt by the breaks there, independently of the loop |
| PacketIo.PacketIO.ReceivePacket | src/gdb/packet_io.cpp:145-259 | result, buffer contents, replies and left-over bytes are those of the byte machine on the whole stream |
| PacketIo.PacketIO.OnByte | src/gdb/packet_io.cpp:176-254 | the switch on state and byte |
| StopAndWait.StopAndWaitIsSafe | src/gdb/packet_io.cpp:108-253 | in every reachable state what was handed up is the payloads of the finished sends, in order, once each and unchanged, and at most the current one besides; once acked, copies are one more than the transmissions the link garbled |
| StopAndWait.SendCompletes | src/gdb/packet_io.cpp:108-253 | from every reachable state a send is acked by any schedule of enough steps in which retransmissions arrive clean |
| StopAndWait.EveryPayloadCanArrive | src/gdb/packet_io.cpp:108-253 | every run, however much was garbled, can be continued until all payloads are acked and handed up |
| StopAndWait.ByteFaultsHappen | src/gdb/packet_io.cpp:238-245 | any single changed body byte that keeps the end of the frame is a step of the link, at the first transmission and after a nack |
| StopAndWait.ProtocolSessions | src/gdb/packet_io.h:122-137 | the escapes of both ends of the program's connection make sessions of this kind |
| Duplex.DialogueIsSafe | src/gdb/connection.cpp:67-127 | in every reachable state of a session the handler got the requests in order, once each and unchanged, and the debugger the answer to each finished one, acks and packets sharing the stream |
| Duplex.SessionCompletes | src/gdb/connection.cpp:67-127 | from every reachable state all schedules of clean steps have the same length, can be continued up to it, and end with each request answered |
| Duplex.EveryRequestCanBeAnswered | src/gdb/connection.cpp:67-127 | every session, however much was garbled, can be continued until each request is answered |
| Duplex.ByteFaultsHappen | src/gdb/packet_io.cpp:238-245 | any single changed body byte that keeps the end of the frame may happen to either end's packets |
| Duplex.ProtocolDialogue | src/gdb/packet_io.h:122-137 | the debugger's and the stub's escapes make a session of this kind |
| Coding.NumRoundTrip | src/gdb/coding.h:330-350 | a printed number reads back for every value of the type, whatever non-digit follows |
| Coding.NumberReads | src/gdb/coding.h:330-338 | which texts are read as which numbers: sign, digits in either case and leading zeros, what follows them ignored, no digit and out of range being errors |
| Coding.NumTextExists | src/gdb/coding.h:330-338 | every text is of that form |
| Coding.WordsRead | src/gdb/coding.h:330-338 | the same for size_t, which takes no sign, and int64_t, with their limits |
| Coding.HexValueConcat | src/gdb/coding.h:330-338 | digits are positional in base sixteen |
| Coding.LeadingZeros | src/gdb/coding.h:330-338 | zeros in front do not count |
| Coding.CapitalNumber | src/gdb/coding.h:330-338 | a number text in capitals is the same number, for every text |
| Coding.HexLength | src/gdb/coding.h:340-350 | both ways: a number prints in k digits exactly when it is below 16 to the k |
| Coding.ScratchIsTight | src/gdb/coding.h:340-350 | 17 characters hold every size_t and int64_t, are needed exactly from -16^15 down, and so by the least int64_t |
| Coding.BytesRoundTrip | src/gdb/coding.h:375-407 | hex bytes read back |
| Coding.BytesRead | src/gdb/coding.h:375-391 | a text of odd length is an error, any other gives one byte for each pair |
| Coding.NibblesAreBits | src/gdb/coding.h:384 | a pair of digits is joined by the source's shift and or, a non-digit being -1 |
| Coding.CapitalBytes | src/gdb/coding.h:375-391 | data in capitals is the same data, for every text |
| Coding.EncodeArrayAppend | src/gdb/coding.h:432-442 | a separator stands between two elements and nowhere else |
| Coding.ArrayReads | src/gdb/coding.h:421-430 | a list is read piece by piece, the first error deciding, and a separator at the end starts no element |
| Coding.ArrayRoundTrip | src/gdb/coding.h:421-442 | both ways, for a canonical child: a list reads back exactly when each element does on its own, prints no separator, and the last prints something |
| Coding.DecodedArraySurvives | src/gdb/coding.h:421-430 | with a canonical child, only such elements ever come out of a list |
| Coding.FeatureSurvives | src/gdb/query_handler.h:48-73 | both ways: which features read back on their own |
| Coding.FeatureIsCanonical | src/gdb/query_handler.h:48-62 | the feature decoder accepts only what the encoder prints |
| Coding.FeatureReads | src/gdb/query_handler.h:48-62 | which texts are which features: a sign at the end decides first, then the first '=' |
| Coding.FeatureListRoundTrip | src/gdb/coding.h:421-442 | both ways: a feature list reads back exactly when no feature prints ';', no valued name has '=', and no value ends in a sign |
| Coding.FeatureListReprints | src/gdb/query_handler.h:48-73 | reading and printing a feature list gives the bytes back up to one ';' at the end |
| Coders.DecodeStr | src/gdb/coding.h:257-278 | the bytes before the first separator, which is consumed; without one all bytes, or the exception if it is required |
| Coders.DecodeBytesFrom | src/gdb/coding.h:375-391 | the loop decodes pairs of digits to the end, a non-digit showing as in the bit operations |
| Coders.EncodeBytesTo | src/gdb/coding.h:393-407 | two digits per byte; when they do not all fit it throws behind the digits that do |
| Coders.DecodeArrayFrom | src/gdb/coding.h:421-430 | the loop cuts and decodes until the buffer is empty |
| Coders.EncodeArrayTo | src/gdb/coding.h:432-442 | elements with separators between them; when they do not all fit it throws behind the whole elements and separators that do |
| Coders.FittingPiecesArePrefix | src/gdb/coding.h:432-442 | what a list leaves in a buffer is a prefix of its text that fits, and all of it exactly when that fits |
| Coders.FittingPiecesAreMost | src/gdb/coding.h:432-442 | the elements and separators left are all up to the first that does not fit |
| Coders.DecodeWriteMem | src/gdb/connection.cpp:24 | address, length and data, left to right, leaving nothing behind |
| Coders.WriteMemRoundTrip | src/gdb/coding.h:202-206 | the printed arguments of a memory write decode to the same address, length and data, for all of them |
| Coders.WriteMemReads | src/gdb/connection.cpp:24 | which texts are which arguments of a memory write, the first wrong field or missing separator deciding the error |
| Coders.DecodeReadMem | src/gdb/connection.cpp:23 | address and length of a memory read, left to right |
| Coders.ReadMemReads | src/gdb/connection.cpp:23 | which texts are which arguments of a memory read |
| Coders.ReadMemRoundTrip | src/gdb/coding.h:202-206 | the printed arguments of a memory read decode to the same address and length |
| Coders.DecodeFileReply | src/gdb/connection.cpp:27 | the four fields of a File-I/O reply, left to right |
| Coders.DecodeOptStr | src/gdb/coding.h:303-310 | an optional string is absent exactly at the end of the buffer |
| Coders.FileReplyRoundTrip | src/gdb/connection.cpp:27 | both ways: which File-I/O replies read back |
| Coders.FileReplyReads | src/gdb/connection.cpp:27 | which texts are which replies, by the number of commas in them |
| Coders.FileReplyErrors | src/gdb/connection.cpp:27 | a return code or errno that is no number is the error of the reply |
| Coders.PlainAttachmentIsLost | src/gdb/connection.cpp:27 | the printed reply `5;a` decodes without its attachment |
| Queries.HandleQuery | src/gdb/connection.packets.cpp:31-69 | the shortest registered name that fits with its separator is invoked on exactly the bytes behind it; unknown exactly when none fits, and then all is consumed |
| Queries.FindName | src/gdb/connection.packets.cpp:33-52 | the loop finds the first match and consumes exactly up to it |
| Queries.HandlerReached | src/gdb/connection.packets.cpp:37-52 | both ways: when the callback of a registered name runs on a packet that starts with it, gettable or settable as asked for, the bytes it then finds, and the two errors otherwise |
| Queries.BareNameFails | src/gdb/connection.packets.cpp:37-52 | with the registration of src/gdb/connection.cpp:29, a packet that ends behind the name is unknown |
| RemoteIo.Connection.WaitForRequest | src/gdb/connection.cpp:233-238 | the coroutine queues last |
| RemoteIo.Connection.BeginPacket | src/gdb/connection.cpp:99-100 | the answer is empty and will be sent |
| RemoteIo.Connection.FinishPacket | src/gdb/connection.cpp:122-127 | what is given to send_packet behind a packet is the answer of the state, or nothing |
| RemoteIo.Connection.ProcessPacket | src/gdb/connection.cpp:97-127 | one turn of the packet loop is the event of the model, an unexpected reply becoming an error code |
| RemoteIo.CallReadsBack | src/gdb/connection.cpp:219 | the debugger reads name and arguments of the system call back from a request |
| RemoteIo.OtherPacketsAreAnswered | src/gdb/connection.cpp:97-127 | a packet that wakes nobody gets its own answer and leaves both queues alone; a reply nobody waits for is answered E01 |
| RemoteIo.Connection.WakeupRequest | src/gdb/connection.cpp:247-259 | the first waiting task writes its request and queues for the reply, or the packet stays unanswered |
| RemoteIo.Connection.HandleFileReply | src/gdb/connection.packets.cpp:99-113 | the reply goes to the coroutine first in line, then the next one is woken; an unexpected reply changes nothing |
| RemoteIo.RepliesMatchRequests | src/gdb/connection.cpp:212-259 | after any run the k-th accepted reply went to the k-th emitted request, requests are emitted once each in submission order, and those outstanding are emitted minus answered |
| RemoteIo.NothingIsLost | src/gdb/connection.cpp:212-259 | when every request fits an answer, answered, outstanding and waiting ones are all submissions in order |
| RemoteIo.KthReplyAnswersKthRequest | src/gdb/connection.cpp:97-259 | after any run the requests the debugger saw are the emitted ones, text for text, and its k-th accepted reply goes to the task whose system call, name and arguments, it read from the k-th |
| RemoteIo.WakingPacketSendsNextRequest | src/gdb/connection.cpp:97-127 | a packet that wakes tasks is answered with the request next in line and nothing else, and stays unanswered exactly when nobody waits |
| RemoteIo.WakeConserves | src/gdb/connection.cpp:247-259 | a wake loses a request only if it fits into no answer |
| RemoteIo.AcceptConserves | src/gdb/connection.packets.cpp:99-113 | a reply keeps every request accounted for, also when the resumed task submits another |
| InternalMem.AccessCharacterised | src/gdb/easter_eggs.h:53-68 | both ways: when reads and writes are defined, and that they touch the clamped range alone |
| InternalMem.OneBytePerAddress | src/gdb/easter_eggs.h:22-59 | the i-th byte is read at the i-th address from 0x1337133713370000 on, and no other address has one |
| InternalMem.WrappingReadFails | src/gdb/easter_eggs.h:53-59 | a read of the greatest length one byte into the memory wraps around and has no range |
| InternalMem.ShortWriteFails | src/gdb/easter_eggs.h:61-68 | a write of two bytes with one byte of data has no range |
| InternalMem.ReadAfterWrite | src/gdb/easter_eggs.h:53-68 | reading back gives the data clamped to the end of storage |
| InternalMem.RunKeepsRegion | src/gdb/easter_eggs.h:53-91 | over any run of growth and writes a region keeps its place and contents unless written into itself |
| InternalMem.WritingOneMissesTheOthers | src/gdb/easter_eggs.h:61-75 | writing inside one allocation touches no other |
| InternalMem.Memory.AddData | src/gdb/easter_eggs.h:70-75 | the new region holds the data behind all earlier ones, which stay as they are |
| InternalMem.Memory.AddStr | src/gdb/easter_eggs.h:77-84 | the text with a zero byte behind it that the length does not count |
| InternalMem.Memory.Reserve | src/gdb/easter_eggs.h:86-91 | zero bytes |
| InternalMem.Memory.HandleWriteMem | src/gdb/connection.packets.cpp:21-29 | writes inside the memory, ignores other addresses, and answers OK |
| InternalMem.Memory.HandleReadMem | src/gdb/connection.packets.cpp:9-19 | answers the clamped bytes in hex, or throws behind as many digits as fit |
| InternalMem.ReadOutside | src/gdb/connection.packets.cpp:16-18 | outside the memory the answer is the letter a in hex |
| InternalMem.WritePacketThenRead | src/gdb/connection.packets.cpp:9-29 | the printed write, decoded and done, makes the read, printed and decoded likewise, answer exactly the written data |
| InternalMem.TextIsFetched | src/gdb/connection.cpp:261-266 | the pointer printed for a text leads the debugger to the text and one zero byte, whatever was stored and written elsewhere meanwhile |
| Merging.MergeValues | src/config/merging.cpp:6-46 | the loop over the addition's keys computes the merge, in any key order |
| Merging.MergeFailsOnClash | src/config/merging.cpp:8-11 | both ways: merging fails exactly when some path leads to two values that are not both tables, not both arrays, and not scalars of one kind |
| Merging.MergedLookup | src/config/merging.cpp:13-43 | what is found at a path of the result, from the two lookups alone |
| Merging.MergeIsAssociative | src/config/merging.cpp:6-46 | grouping does not matter: both ways fail or both give the same value |
| Merging.EmptyTableIsIdentity | src/config/merging.cpp:25-36 | the empty table is neutral on both sides |
| Merging.MergeExamples | test/src/config/merging.cpp:88-147 | a text replaces a text, arrays are appended, other keys stay, and an integer does not merge with a text |
| LogLevels.LevelNode.FromToml | src/config/config.h:96-114 | afterwards the objects are the tree of the value, whatever they were; exactly the values not accepted throw, with the error of some value in them |
| LogLevels.AcceptedEverywhere | src/config/config.h:96-114 | both ways: a configuration is accepted exactly when at every path there is a table whose level entry is absent or names a level |
| LogLevels.LevelNames | src/config/config.h:32-56 | both ways: which texts name which level, in any case; any other value is a type error |
| LogLevels.LevelNode.GetLevel | src/config/config.h:133-151 | the descent over objects computes the lookup in the tree |
| LogLevels.LevelIsLongestPrefix | src/config/config.h:133-151 | the level is that of the deepest node along the components of the name |
| LogLevels.ConfiguredLevel | src/config/config.h:96-151 | loading and lookup together: a logger has the level named in the deepest table along its name, info if that table names none |
| LogLevels.DocumentedExample | src/config/config.h:116-131 | the levels of the documented example |
| LogLevels.PartialExample | test/src/config/logging.cpp:73-81 | a configuration that names one level, in capitals, leaves the others at info; an integer or an unknown name as a level is its own error |
| LogLevels.DeepestExists | src/config/config.h:133-151 | there always is a deepest node |
| LogLevels.ComponentsSpell | src/config/config.h:137-143 | components are dot-free and spell the name, one trailing dot counting for nothing |
| LogLevels.SpellingIsUnique | src/config/config.h:137-143 | no other list of components spells it |
| Examples.SentOk | src/gdb/connection.cpp:184-188 | OK goes out as $OK#9a |
| Examples.SentMarkers | src/gdb/packet_io.h:122-150 | how each of the four marked bytes goes out |
| Examples.ReceivedFrames | test/src/gdb/packet_io.cpp:138-157 | a right checksum in either case is answered with a plus, a wrong one with a minus, and byte 3 is a break |
| Examples.Replies | test/src/gdb/packet_io.cpp:177-188 | a minus asks for one more copy, and a break before the plus is reported |
| Examples.Sizes | src/gdb/connection.cpp:31-34 | the buffer sizes, and PacketSize=8000 |
| Examples.PointerText | src/gdb/connection.cpp:261-266 | the pointer 10/10 |
| Examples.WriteArguments | src/gdb/connection.cpp:24 | the write 1F,2:FFa0 |
| Examples.ReadArguments | src/gdb/connection.cpp:23 | the read 1F,2 |
| Examples.InterruptedCall | src/gdb/connection.cpp:27 | the replies -1,4,C and -1,4,C;x |
| Examples.FeatureList | src/gdb/query_handler.h:64-73 | the list a+;b-;c=8 |

## Left out

- Sockets, coroutines, timeouts, locks and threads: a read is an arbitrary non-empty chunk of what will still arrive, a send takes everything, and a resumed task makes one atomic step to its next suspension.
- PacketIo.PacketIO.ReceivePacket: does not model a read that returns zero bytes, which the socket library reports as an error instead; the outer retry loop of the source only serves that case.
- PacketIo.PacketIO.SendPacket: does not model the wrap-around of the size guard, since no buffer is half as large as the address space.
- StopAndWait.StopAndWaitIsSafe: covers links that garble frames but neither drop bytes nor garble acks, which the protocol cannot survive without its timeouts; the same holds for Duplex.
- Duplex.DialogueIsSafe: covers sessions in which each request gets a response, of a handler without state of its own; a packet that stays unanswered, a break and stray bytes between packets are not part of them.
- LogLevels.LevelNode.FromToml: does not state which part of the tree is left when it throws, nor which of several errors in the value it reports, because the key order of the source is unspecified.
- InternalMem.Memory.AddStr: models the meant address, the size before the call; the source computes it from an iterator that a second insertion may invalidate.
- RemoteIo.Connection.HandleFileReply: a negative return code makes the resumed task throw; the model only records that the coroutine got its reply.
- RemoteIo.KthReplyAnswersKthRequest: goes on after an answer that does not fit; in the source `buffer_too_small` inherits `std::runtime_error` privately, so only the catch-all of the packet loop takes it, which ends the connection.
- The packet loop of `connection::process`, the register replies and the remote system calls themselves: fixed strings and error codes without further state.
- `buffer::read_into`, `buffer::write_outof`, `decode_buffer_old` and the automatic number base: not on the protocol path.
- Elements of the byte coder wider than one byte: only single bytes are used.
- An empty feature string, which the source reads past its end: an error outcome of its own in the model.
- TOML parsing and comments, log sinks, the user interface, the renderer and vendored libraries. Level names are those of the logging library, matched without regard to case.
