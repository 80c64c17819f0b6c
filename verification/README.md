# NetMount: a verified model

NetMount is a network drive for DOS: a memory-resident client (`netmount/netmount.c`) that turns DOS file requests into
UDP datagrams, and a server (`netmount-server/`) that executes them on a directory tree. This project models the parts
whose correctness is not visible from any one function, and proves what they promise together:

- **Protocol** (`Protocol`, `ProtocolSafety`, `ProtocolTheorems`, `LateReplies`, `ArbitraryNetwork`, `Station`,
  `ReplyCaching`, `DriveProto`, `DriveOctets`): stop-and-wait calls with retransmission and an 8-bit sequence number,
  the client's one-frame receive buffer, and the server's reply cache of 16 entries. The network loses, delays and
  repeats datagrams. Every run executes each call at most once and in order, and a call that got a reply was executed
  exactly once and got that execution's reply. Which calls can still get their reply is decided, exactly, by the
  receive buffer at their beginning and by the length of the reply. Packets are fixed octet by octet, and so is which
  changes of an octet the checksum shows.
- **Client file I/O** (`RemoteFile`, `ReadAhead`, `FileIo`, `FileHistory`): the aligned read-ahead buffer with expiry and
  invalidation, and transfers cut to the MTU. In every history each request does what plain files without a buffer
  would do, except for reads of an exactly described kind.
- **Files over the protocol** (`FileCalls`): the two joined. In every run of clients, servers and network, the calls of
  a client do to a server's files what plain reads and writes would do one after the other: an acknowledged write once
  and as the reply says, a lost one once or not at all and before every later call, and each read sees what the calls
  before it left. This is what the client's file I/O takes for granted of `send_request`.
- **Names, handles and searches** (`ShortNames`, `NameAllocation`, `Directories`, `DriveIndex`, `HandleHistory`,
  `ClientPaths`): 8.3 names that never collide, a least-recently-used table of handles, cached listings used as an
  index, path resolution through them, and FIND_FIRST/FIND_NEXT. Listing and resolving are inverse at any depth, and
  what resolves as existing lies below the root.
- **SLIP, IP and UDP** (`Slip`, `OnesComplement`, `UdpPacket`, `SlipUdp`): RFC 1055 framing, the headers of section 3.1
  of RFC 791 and of RFC 768, and the checksum of sections 1 and 2(B) of RFC 1071, from payload to line and back.
- **Kernels** (`IpSlots`, `DiskInfo`, `FatTime`): the client's four address slots, the scaling of disk sizes, and FAT
  time stamps.

`Bytes`, `Bits` and `Seqs` hold octets, bit operations on integers, and facts about sequences. Code that works in place
is modelled by classes, arrays and loops that are proved against specification functions; the theorems are about
those functions and about whole runs. Formats and rules are also stated in plain numbers and characters, without the
functions that the code is proved against. A character of a file name is one octet.

## What is assumed

- The network: datagrams arrive unaltered or not at all. No copy of an older request reaches a server after a newer one
  (`Protocol.InOrder`), calls of a client that reach one server in succession are fewer than 256 apart
  (`Protocol.Near`), and no reply arrives more than 255 calls late (`Protocol.Recent`). `ArbitraryNetwork` proves over
  all runs exactly what the server decides without them (`DecisionExact`), and gives a run that needs the first
  (`LateCopyExecutedAgain`).
- At most 16 client addresses, none of them 0.0.0.0:0, and a server clock after 1970. The two upcalls of the packet
  driver for one frame are one step, and so is one turn of the waiting loop.
- File I/O: one writer, local drives on distinct shares, a fixed binding of handles to files while they are in use, a
  fixed `min_server_read_len` (a power of two up to 64, or 0), and positions that leave 32-bit arithmetic in range. A
  READ_FILE or WRITE_FILE that the server answers with an error, or not at all, changed nothing.
- The shared tree has no symbolic links and lists its entries in a fixed order; only the volume label has the bare
  volume attribute.

## What the proofs brought up

Each of these is code that does not do what one would expect, proved with its exact condition or with an input.

- A reply that arrives after its call has ended stays in the receive buffer, because the next `send_request` clears the
  flag but not the buffer. That call then cannot get any reply and times out; any other call can, if its reply fits the
  buffer of 1518 octets (`HeardIffFreeAtBegin`), and a run of seven steps leads there (`DeafCallReachable`).
- If the server empties a file for CREATE or a replacing EXTENDED OPEN and the reply is lost, the read-ahead buffer
  keeps the old contents. Reads that take octets from it then yield octets of the old file (`StaleReadHappens`). A
  request of any history differs from what plain files would do exactly if it is a READ that succeeds, of a file that
  such a lost reply emptied while the buffer held it, with the buffer unchanged since, and takes octets from it where
  the file either does not reach again or shows zeros and something else was taken (`HistoryIsPlain`). Such a READ is a
  small one, up to 90 ticks after the buffer was filled (`StruckIsRecent`).
- The test for paths that leave the share counts only `..` itself as a step up, but the listing is asked for every name
  that is read as `..` when it is cut to eight and three characters: `...`, `".. "` or `....x` do as well, exactly the
  names of `ReadAsParent`. A path that resolves as existing never climbs above the root. One whose last name is missing
  does exactly if the request's last name is `..` and the names in front of it, counted as they are looked up, lead back
  to the root (`CreateServerPath`, `RootLeft`); `ParentOfRootNamed` is such a request.
- A datagram of up to 1500 octets of data is accepted for the serial line, but its encoding need not fit the transmit
  buffer. It fits whatever the octets are exactly up to 1477 (`AlwaysFits`), and for given data exactly if the END and
  ESC octets are few enough (`SlipUdpSerial.Send`).
- FIND_FIRST and FIND_NEXT search for different names if the name begins with three or more dots (`TemplatesAgree`).
- A listed name whose base is blank, of a file named like `"   .txt"`, cannot be resolved again (`JoinedNameIsFound`).
- A comment calls trailing blanks of a base or extension padding that does not belong to the name. The code turns a
  blank into an underscore exactly if only blanks follow it and not all characters are blanks (`TrailingBlank`):
  `"a  .txt"` becomes `A__.TXT` (`TrailingBlanksListed`).
- DISK_INFO_LARGE reports a sector size of 0 from 2^47 octets on, because the 16-bit sector size wraps
  (`DiskInfoLargeReply`); its comment promises slightly less than 256 TiB.
- Drives that were never mounted count as users of address slot 0, because resident memory starts as zeros. With no
  slot free, a slot whose address neither a mounted drive nor the gateway needs is given to another server exactly if it
  is not slot 0, or all 26 drives have been mounted at some time (`ReusableIff`); so a mount may fail although a slot is
  spare (`IpTable.Mount`, `FreedSlotLost`).
- The Internet checksum of an odd number of octets depends on the byte order of the host unless the last octet is 0
  (`HostIndependence`); all headers have an even length.
- The checksum of the drive protocol does not cover the flags: a request of which the extended-format bit was changed on
  the way is taken for one of the other format (`FlagUnsealed`). Two neighbouring octets that change places go unnoticed
  exactly if they differ by 1 and the sum so far, rotated, and the smaller one add up to 0xFFFF (`SwapShows`).
- A time in a leap second at the very end of 2107 packs to more than the maximum stamp (`Extremes`).

## Model
| member | source | states |
|---|---|---|
| ProtocolTheorems.ExactlyOnce | netmount-server/netmount-server.cpp:227-253 | in every state of every run no call is executed twice by whatever servers, each server executes a client's calls in increasing order, and every accepted reply is that of an execution of that very call |
| ProtocolTheorems.ReachableInv | netmount-server/netmount-server.cpp:1613-1620 | the safety invariant holds in every reachable state |
| ProtocolTheorems.StepKeepsInv | netmount/netmount.c:698-806 | each of the six kinds of steps keeps the invariant, and calls, logs and the set of datagrams only grow |
| ProtocolTheorems.LastReplyKept | netmount-server/netmount-server.cpp:70-89 | in every reachable state a served client has exactly one cache entry, holding request and reply of its last executed call: no live client is evicted |
| ProtocolTheorems.NothingTakenBack | netmount/netmount.c:794-800 | executions stay logged and accepted replies never change over a run |
| LateReplies.HeardIffFreeAtBegin | netmount/netmount.c:721-806 | a call whose reply is on the network can still finish, by some continuation without giving up, exactly if the receive buffer was free when it began and the reply's frame has at most 1518 octets |
| LateReplies.DeafSinceBegin | netmount/netmount.c:721-806 | from its beginning to its end a call is deaf exactly if a frame lay in the buffer when it began |
| LateReplies.DeafCannotFinish | netmount/netmount.c:755-757 | no continuation, whatever arrives, makes a deaf call accept a reply |
| LateReplies.FreeFinishes | netmount/netmount.c:759-800 | with the buffer free, the arrival of the call's reply, if it fits, and one turn of the waiting loop finish the call |
| LateReplies.OversizeCannotFinish | netmount/netmount.c:477-482 | a call whose reply does not fit the buffer is never finished: an accepted reply would be that very one |
| LateReplies.DeafCallReachable | netmount/netmount.c:698-806 | a run from the initial state in which a second copy of a reply leaves the next call deaf |
| ArbitraryNetwork.ReachableFree | netmount-server/netmount-server.cpp:1613-1620 | over every run of a network of which nothing is assumed, only calls that were made are executed, and each client's cache entry holds the last one executed |
| ArbitraryNetwork.DecisionExact | netmount-server/netmount-server.cpp:227-246 | in every such run a request is executed, and logged, exactly if it differs from the last one executed for its client; one that is taken for a repetition is of a call a multiple of 256 away; and when the decision is wrong |
| ArbitraryNetwork.LateCopyExecutedAgain | netmount-server/netmount-server.cpp:227-246 | a run of eight steps from the initial state in which two calls are executed and a late copy of the first is executed again |
| ProtocolSafety.ServeKeepsInv | netmount-server/netmount-server.cpp:1613-1655 | serving a request, new or repeated, keeps the invariant |
| ProtocolSafety.PollKeepsInv | netmount/netmount.c:755-804 | accepting or ignoring a frame keeps the invariant |
| ProtocolSafety.ArriveKeepsInv | netmount/netmount.c:416-452 | the arrival of any reply, taken in or refused, keeps the invariant |
| ProtocolSafety.BeginKeepsInv | netmount/netmount.c:698-721 | a new call with the next sequence number keeps the invariant |
| ProtocolSafety.DuplicateIffLastCall | netmount-server/netmount-server.cpp:227-253 | under the network assumptions a request is taken for a duplicate exactly if it is of the last executed call |
| ProtocolSafety.AcceptedIsCurrent | netmount/netmount.c:770-776 | a frame whose 8-bit sequence number fits is of the current call |
| Station.Station.BeginCall | netmount/netmount.c:690-721 | the in-place start of a call is the protocol's step |
| Station.Station.FrameReceived | netmount/netmount.c:416-562 | both upcalls: a frame is taken in exactly if it has at most 1518 octets, the buffer is free, the protocol is UDP, it is addressed to this host and sent by the server called, length and version fit, and the IP header checksum is right or not asked for |
| Station.Station.Validate | netmount/netmount.c:759-792 | the waiting loop's checks in their order accept exactly what `ClientAccepts` says, for frames of any padding, and what that is in octets |
| Station.Station.Poll | netmount/netmount.c:755-804 | one turn of the waiting loop is the protocol's step; it reports success exactly if the call is over |
| Station.Station.Finish | netmount/netmount.c:1624-1625 | the end of a request frees the buffer |
| ReplyCaching.ReplyCache.constructor | netmount-server/netmount-server.cpp:43-68 | 16 entries that belong to nobody |
| ReplyCaching.ReplyCache.GetReplyInfo | netmount-server/netmount-server.cpp:70-89 | one pass finds the client's entry, else the oldest one, which is emptied and handed over |
| ReplyCaching.ReplyCache.HandleRequest | netmount-server/netmount-server.cpp:1613-1620 | duplicate check, execution and update of the entry together are the specified `Serve` |
| ReplyCaching.ServeKeepsCache | netmount-server/netmount-server.cpp:1613-1620 | serving keeps one entry per client, gives the client one and leaves all others |
| ReplyCaching.NewcomerReplacesOldest | netmount-server/netmount-server.cpp:70-89 | a client without an entry, however many there are: its request is executed, and takes the first of the entries with the least time stamp, and no other |
| ReplyCaching.KnownClientServed | netmount-server/netmount-server.cpp:227-253 | a client with an entry is answered from it exactly if the request is the one kept there; else the request is executed; only this entry changes |
| ReplyCaching.EvictsOnlyWhenFull | netmount-server/netmount-server.cpp:70-89 | a newcomer gets an unused entry exactly if fewer than 16 are in use |
| DriveProto.BsdChecksum | netmount-server/netmount-server.cpp:992-1001 | the server's loop computes the specified checksum |
| DriveProto.BsdChecksumAsm | netmount/netmount.c:255-279 | the client's assembly loop, rotating and counting down, computes the same checksum |
| DriveProto.OneOctetDetected | netmount-server/netmount-server.cpp:992-1001 | messages of equal length that differ in exactly one octet have different checksums |
| DriveProto.RequestAccepted | netmount-server/netmount-server.cpp:1529-1611 | every request of the client passes the server's checks, and the server reads back length, sequence, drive, function, flags and data |
| DriveProto.FinalizeInPlace | netmount-server/netmount-server.cpp:1630-1656 | the in-place completion of a reply's header is the specified one |
| DriveProto.ReplayIdentical | netmount-server/netmount-server.cpp:1630-1656 | completing a cached reply again leaves it octet for octet |
| DriveProto.ReplyAccepted | netmount/netmount.c:759-800 | every completed reply of up to 1500 octets, in a frame padded by any amount, passes the client's length, version, sequence and checksum or magic checks, and the client reads back AX, flag and data |
| DriveOctets.ServerAcceptsOctets | netmount-server/netmount-server.cpp:1529-1611 | the server takes exactly the packets of version 1 whose 11-bit length lies within 8 and what was received, and whose checksum, or 0x9524 in its place, is right |
| DriveOctets.ClientAcceptsOctets | netmount/netmount.c:759-792 | the same of the client's checks, with the sequence number, and the checksum only if it is verified |
| DriveOctets.ChangedRequestDropped | netmount-server/netmount-server.cpp:1589-1601 | of a request with a checksum, a change of any one octet behind the length field is noticed exactly if the octet belongs to the request |
| DriveOctets.ChangedReplyIgnored | netmount/netmount.c:778-792 | a client that verifies checksums ignores a reply of which any such octet was changed, for whatever call, and no other |
| DriveOctets.FlagUnsealed | netmount-server/netmount-server.cpp:1589-1601 | a changed extended-format bit is not noticed |
| DriveOctets.SwapShows | netmount-server/netmount-server.cpp:992-1001 | neighbouring octets that change places change the checksum, but for one exactly described case |
| DriveOctets.RequestOctets | netmount/netmount.c:698-721 | where each field of a request lies, octet by octet, with length, flags, and checksum or 0x9524 |
| DriveOctets.ReplyOctets | netmount-server/netmount-server.cpp:1630-1656 | the same of a reply |
| RemoteFile.WritesCompose | netmount-server/fs.cpp:382-434 | two adjacent writes equal one write of both pieces, gaps and file ends included |
| RemoteFile.ReadsCompose | netmount-server/fs.cpp:349-379 | a full read and the read behind it equal one read |
| RemoteFile.WriteElsewhere | netmount-server/fs.cpp:382-434 | a write leaves every stretch of the file it does not overlap |
| RemoteFile.ReadToEnd | netmount-server/fs.cpp:349-379 | a read that came back short got all there is |
| ReadAhead.ReadPlainIff | netmount/netmount.c:994-1071 | a successful READ yields the file's octets exactly if those it takes from the buffer are the file's |
| ReadAhead.RightTaken | netmount/netmount.c:999-1016 | what is taken from a buffer that agrees with its file is the file's |
| ReadAhead.RefilledRight | netmount/netmount.c:1042-1052 | a buffer that was refilled agrees with its file, whatever it held before |
| ReadAhead.UntouchedRight | netmount/netmount.c:1125-1141 | a buffer kept past a write or truncation still agrees with its file |
| ReadAhead.BlankedTaken | netmount/netmount.c:999-1016 | of a file that was emptied and not written where the buffer is, what a READ takes is right exactly if it is nothing, or zeros that the file reaches |
| ReadAhead.TouchesOctets | netmount/netmount.c:1125-1141 | a write touches the buffer exactly if it stores or cuts off one of the buffered octets |
| ReadAhead.TakenOctets | netmount/netmount.c:999-1016 | a READ takes exactly the octets it asks for that an aligned buffer of the file holds |
| FileIo.Redirector.constructor | netmount/netmount.c:44-53 | the buffer is empty at first |
| FileIo.Redirector.Enter | netmount/netmount.c:859-863 | buffered data is dropped exactly if it is older than 90 ticks of the 32-bit clock |
| FileIo.Redirector.TakeBuffered | netmount/netmount.c:999-1016 | exactly what the buffer holds of the request is taken |
| FileIo.Redirector.PlanRead | netmount/netmount.c:1018-1029 | the request reaches from the first missing octet to the end of the aligned block behind the last one |
| FileIo.Redirector.Refill | netmount/netmount.c:1042-1052 | the aligned end of a reply becomes the buffer, if the reply reaches it |
| FileIo.Redirector.ReadRest | netmount/netmount.c:1018-1066 | what the buffer lacked comes from the server's file, and the buffer is refilled from it; the error is AX of the reply, or 2 if there was none |
| FileIo.Redirector.UseReply | netmount/netmount.c:1042-1066 | a reply gives the missing octets of the file and the aligned block that becomes the buffer |
| FileIo.Redirector.ReadBuffered | netmount/netmount.c:994-1071 | a small read yields what the buffer holds and then what the file holds; the buffer afterwards |
| FileIo.Redirector.ReadBypass | netmount/netmount.c:1073-1103 | a chunked read equals one read of the file, every packet fits the MTU, and the loop ends; the error is AX of the last reply, or 2 if there was none |
| FileIo.Redirector.ReadFile | netmount/netmount.c:969-1104 | result, position and buffer of every READ: large ones never involve the buffer, failed ones change nothing and answer AX of the last reply, or 2 if there was none |
| FileIo.Redirector.InvalidateFor | netmount/netmount.c:1125-1141 | the buffer is dropped exactly if the write overlaps it or truncates before its end |
| FileIo.Redirector.WriteChunk | netmount/netmount.c:1148-1157 | one chunk extends the applied prefix; a message without octets is sent only for a write of none |
| FileIo.Redirector.WriteChunks | netmount/netmount.c:1143-1178 | the loop over the chunks: what was applied and acknowledged, the error and the count in CX of every way out |
| FileIo.Redirector.WriteFile | netmount/netmount.c:1106-1178 | the file equals one splice of a prefix of the data, which a success acknowledges exactly; a write of none resizes; position, size and buffer afterwards; the error is AX of the last reply, or 2 if there was none |
| FileIo.Redirector.OpenFile | netmount/netmount.c:1425-1492 | CREATE empties the file, OPEN leaves it, EXTENDED OPEN does what its result code says, a refused open leaves an existing file; the buffer is dropped exactly as the reply tells; the handle is set up with position 0 and the file's size; the error is AX of the reply, or 2 if there was none |
| FileCalls.CallsAreSends | netmount/netmount.c:642-812 | in every state of every run, for a server whose files no other client changed, there are states of its files after each call of the client, from the first to the present one, between which each READ_FILE and WRITE_FILE did what the reply that the client got, or the lack of one, means to its file I/O |
| FileCalls.FilesChained | netmount-server/netmount-server.cpp:1613-1620 | over every run the server's files are what its executions, in the order of the log, made of them |
| FileCalls.ExecutedSent | netmount/netmount.c:1154-1172 | an execution did to the files what the client's reading of its reply says, and what a client without the reply has to reckon with |
| FileCalls.ReadAsked | netmount-server/netmount-server.cpp:363-371 | the server finds handle, offset and length of a READ as the client put them there |
| FileCalls.WriteAsked | netmount-server/netmount-server.cpp:379-398 | so with handle, offset and data of a WRITE |
| FileCalls.AskedOnly | netmount-server/netmount-server.cpp:363-387 | a packet is a READ exactly with function 8 and eight octets of data, a WRITE exactly with function 9 and at least six |
| FileCalls.PacketLengths | netmount/netmount.c:1073-1077 | the requests and replies are as long as the client reckons when it fits them to the MTU |
| FileHistory.Step | netmount/netmount.c:855-1625 | any one request at any time, with its effect on files, handle and buffer |
| FileHistory.Run | netmount/netmount.c:855-1625 | every history of READ, WRITE, open, create, replace and seek on any handles is one of such steps |
| FileHistory.StepIsPlain | netmount/netmount.c:855-1625 | a request does what plain files would do exactly if it is not a READ that takes octets its file does not have |
| FileHistory.StepKeepsRight | netmount/netmount.c:1463-1469 | after a request the buffer agrees with its file exactly unless an open emptied that file and its reply was lost |
| FileHistory.WrongSince | netmount/netmount.c:1447-1452 | over every history, a buffer that disagrees with its file has held the same data since such a lost reply |
| FileHistory.BlankSince | netmount/netmount.c:1425-1492 | since a lost reply emptied the file, and as long as nothing changed the buffer, the file does not reach the buffered octets or has zeros there |
| FileHistory.HistoryIsPlain | netmount/netmount.c:855-1625 | over every history a request is that of plain files exactly unless it is a successful READ of a file that an earlier request with a lost reply emptied, the buffer being unchanged since, which takes octets from the buffer where the file does not reach, or zeros and something else |
| FileHistory.StruckIsRecent | netmount/netmount.c:859-863 | such a READ is a small one, at most 90 ticks after the buffer was filled |
| FileHistory.StaleReadHappens | netmount/netmount.c:999-1016 | a history of three requests in which a READ yields an octet of a file that is empty |
| FileHistory.ReadsBackWhatWasWritten | netmount/netmount.c:969-1178 | data written and acknowledged is what the next read at its position returns, whatever the buffer held |
| ShortNames.ShortNameToFcb | netmount-server/fs.cpp:1092-1138 | the loops fill the two fields as specified: up to two leading dots, base to the first dot, extension to the next, cut and padded |
| ShortNames.ToDosFn | netmount/netmount.c:172-208 | the client's loops do the same with all leading dots and the original case |
| ShortNames.MatchFcbNameToMask | netmount-server/fs.cpp:112-126 | true exactly if all eleven characters match, without regard to case, or are masked by question marks |
| ShortNames.ServerReads | netmount-server/fs.cpp:1092-1138 | up to two leading dots and what precedes the next dot, cut to 8 characters, and what follows it up to another, cut to 3, as capitals |
| ShortNames.ClientReads | netmount/netmount.c:172-208 | the same with all leading dots, in the case it was typed in |
| ShortNames.MatchedCharacters | netmount-server/fs.cpp:112-126 | a name matches exactly if each of the eleven characters is that of the mask, the same letter in the other case, or masked by a question mark |
| ShortNames.TemplatesAgree | netmount-server/netmount-server.cpp:641 | FIND_FIRST's and FIND_NEXT's templates of a name match the same names exactly if it has at most two leading dots |
| ShortNames.JoinedNameIsFound | netmount-server/fs.cpp:1092-1138 | a made-up name, joined with its dot and lower-cased, is turned into itself exactly if its base is not blank (or all of it is) |
| ShortNames.CompareDecides | netmount-server/fs.cpp:32-47 | the first character that differs decides, by its code |
| ShortNames.CompareIsOrder | netmount-server/fs.cpp:32-47 | the comparison is a strict total order whose equality is equality of names, NULs apart |
| NameAllocation.SanitizeShortName | netmount-server/fs.cpp:1143-1182 | the buffer holds the cleaned name, cut or padded; the result tells its length and whether it was cut |
| NameAllocation.FileNameTo83 | netmount-server/fs.cpp:1185-1231 | the name chosen, the set of used names afterwards, and success exactly if the name was unused |
| NameAllocation.AddSuffixNumber | netmount-server/fs.cpp:1212-1228 | the numbers tried in place give the first candidate that is free, or the last one |
| NameAllocation.NameOfFile | netmount-server/fs.cpp:1185-1231 | a file keeps its cleaned name exactly if the part in front of the last dot has at most 8 characters, the part behind it at most 3, and no file has the name yet; else it gets the least number up to 9998 that makes an unused name |
| NameAllocation.CandidateText | netmount-server/fs.cpp:1212-1228 | a numbered name, character by character: as much of the base as leaves room, a tilde, the number, blanks; and the extension cut to 3 |
| NameAllocation.CharacterTable | netmount-server/fs.cpp:1156-1178 | which characters stay, which become capitals and which underscores |
| NameAllocation.CutExtension | netmount-server/fs.cpp:1208 | `index.html` becomes `INDEX~1.HTM` although its base fits |
| NameAllocation.CandidatesDistinct | netmount-server/fs.cpp:1212-1228 | two numbers never make the same name, although the prefix shrinks and may itself hold tildes |
| NameAllocation.NameIsFresh | netmount-server/fs.cpp:1185-1231 | a name is taken twice exactly if it does not fit or is used and all 9998 numbers are used; never with fewer than 9998 names in use |
| NameAllocation.NameIsMadeUp | netmount-server/fs.cpp:1143-1182 | every name consists of allowed characters and blanks, without dots or lower case; blank only if the file's base is |
| NameAllocation.TrailingBlank | netmount-server/fs.cpp:1167-1175 | a blank becomes an underscore exactly if only blanks follow and the name is more than blanks; else it stays |
| NameAllocation.TrailingBlanksListed | netmount-server/fs.cpp:1143-1182 | `"a  .txt"` becomes `A__` with the extension `TXT` |
| NameAllocation.MadeUpPlain | netmount-server/fs.cpp:1143-1182 | the cleaned name consists of allowed characters and blanks, and if nothing is cut its base is blank exactly if the file's own base consists of blanks |
| Directories.CreateDirectoryList | netmount-server/fs.cpp:1008-1086 | the loop builds the specified listing: label in the root, dot entries elsewhere if not empty, children in order, at most 65535 entries |
| Directories.ListedNamesDistinct | netmount-server/fs.cpp:1062-1076 | a listing of at most 9998 files names all children, with pairwise different names, none that of a dot entry |
| Directories.FindInList | netmount-server/fs.cpp:538-566 | the next hit and the position behind it, or that there is none; the 16-bit position does not wrap |
| Directories.NextHit | netmount-server/fs.cpp:538-566 | what `IsNext` means of a hit: the first entry from the position on that hits, and the position behind it |
| Directories.NoMoreHits | netmount-server/fs.cpp:538-566 | what it means of none: no entry from the position on hits |
| Directories.HitBits | netmount-server/fs.cpp:547-552 | an entry hits exactly if its name matches and each of the attributes 2, 4, 8 and 16 that it has was asked for |
| Directories.HitsAreTheHits | netmount-server/fs.cpp:538-552 | the hits are exactly the entries that match and have none of these attributes that was not asked for |
| DriveIndex.Drive.constructor | netmount-server/fs.hpp:192-226 | an empty table is valid and its listings up to date |
| DriveIndex.Drive.ScanHandles | netmount-server/fs.cpp:270-302 | finds the path's slot, else a free and a least recently used one; listings unused for an hour are dropped on the way |
| DriveIndex.Drive.GetHandle | netmount-server/fs.cpp:264-323 | the slot returned is bound to the path; a bound path keeps its slot; only in a table of 65535 bound slots a binding is lost, one with the least time stamp; no two slots hold the same path; the lists of slots not used for 3600 seconds are dropped |
| DriveIndex.Drive.Relist | netmount-server/fs.cpp:1008-1086 | the slot's listing is that of its directory now, and no binding changes |
| DriveIndex.Drive.GetServerName | netmount-server/fs.cpp:569-592 | a name found is of something that exists, however old the listing; with up-to-date listings the answer is that of the tree |
| DriveIndex.Drive.CreateServerPath | netmount-server/fs.cpp:595-645 | resolution through the caches equals resolution in the tree if the caches are up to date or are brought up to date; what is said to exist exists and lies below the root, however old the caches; a missing last name leaves the root exactly if the request's last name is `..` and those in front of it, as they are looked up, lead back to the root, however old the caches |
| DriveIndex.RootLeft | netmount-server/fs.cpp:595-645 | the same of the tree itself, by induction over the request's names |
| DriveIndex.CheckPathDepth | netmount-server/fs.cpp:198-214 | -1 exactly if some prefix of the path has more steps up than down, else the steps down less those up |
| DriveIndex.ListingUnder | netmount-server/fs.cpp:1023-1055 | a listing names the parent only outside the root |
| DriveIndex.StaysBelow | netmount-server/fs.cpp:623-644 | a name from a listing of its path keeps the path below the root |
| DriveIndex.Drive.FindFile | netmount-server/fs.cpp:483-566 | the label for the bare volume attribute, else the next hit in the directory's listing |
| DriveIndex.ListedInfo | netmount-server/fs.cpp:1023-1079 | every entry but the label shows attributes, size and time of what it leads to, `.` and `..` too |
| DriveIndex.LabelListed | netmount-server/fs.cpp:1023-1055 | the label is listed in the root alone, and first |
| DriveIndex.LevelsCount | netmount-server/fs.cpp:198-214 | the levels of a path are its names, less those for the directory itself, less two for each `..` |
| DriveIndex.ClimbingRefused | netmount-server/fs.cpp:603-615 | a request that climbs is refused; one that comes back to where it began is the root |
| DriveIndex.ListedExists | netmount-server/fs.cpp:1008-1086 | every entry of a listing, dot entries included, leads to something in the tree |
| HandleHistory.HandleKept | netmount-server/fs.cpp:264-323 | over every run with at most 65535 different paths a handle stands for its path for ever, and asking again gives the same one |
| HandleHistory.StepKeeps | netmount-server/fs.cpp:303-323 | with room for all paths, a step binds the path and unbinds nothing |
| ClientPaths.RequestNames | netmount-server/netmount-server.cpp:131-138 | the names of a DOS path come out of the request one by one, in lower case |
| ClientPaths.OddRequests | netmount-server/netmount-server.cpp:131-138 | a request with slashes of both kinds, doubled, in front and at the end |
| ClientPaths.ListedPathResolves | netmount-server/fs.cpp:595-645 | the path made of listed names resolves to exactly the files they were listed for, at any depth |
| ClientPaths.ResolveListed | netmount-server/fs.cpp:623-644 | the same from any directory on |
| ClientPaths.FindAll | netmount-server/netmount-server.cpp:625-725 | a whole search by a path: FIND_FIRST resolves it and searches the directory in front of the last name, FIND_NEXT goes on; exactly the hits of the listing come, each once and in order, and then no more |
| ClientPaths.FindIn | netmount-server/netmount-server.cpp:650-725 | the search in one directory, with the server's template first and the client's afterwards |
| ClientPaths.ListedDirectorySearched | netmount-server/netmount-server.cpp:645-646 | a search in a directory named as it was listed searches that directory |
| ClientPaths.ReadAsParent | netmount-server/fs.cpp:1092-1138 | a name is looked up as `..` exactly if it has two dots in front and only blanks in what is read of the rest |
| ClientPaths.ParentOfRootNamed | netmount-server/fs.cpp:603-645 | a request that passes the depth test and resolves to a missing name above the root |
| Slip.ReceiveBody | netmount-server/slip_udp_serial.cpp:217-264 | decoding an escaped body gives the body |
| Slip.FramesRoundTrip | netmount-server/slip_udp_serial.cpp:217-264 | successive calls return exactly the datagrams encoded |
| Slip.StreamRoundTrip | netmount-server/slip_udp_serial.cpp:217-264 | so they do behind END-free junk and any number of ENDs |
| Slip.Resynchronises | netmount-server/slip_udp_serial.cpp:217-264 | behind any octets whatever, at most the first datagram is lost |
| Slip.OctetsOnLine | netmount-server/slip_udp_serial.cpp:115-147 | the octets 0xC0, 0xDB, 0xDC and 0xDD of RFC 1055 on the line |
| Slip.BrokenLine | netmount-server/slip_udp_serial.cpp:241-258 | unknown escapes are dropped, one that is cut off ends the datagram, more than 1500 octets leave nothing of it |
| Slip.NoEndInside | netmount-server/slip_udp_serial.cpp:115-134 | an encoded block contains no END |
| OnesComplement.Fold | netmount-server/slip_udp_serial.cpp:75-78 | the fold ends with the ones'-complement residue of the sum |
| OnesComplement.InternetChecksum | netmount-server/slip_udp_serial.cpp:61-81 | the loop computes the specified checksum, without overflow of its 32-bit sum |
| OnesComplement.HostIndependence | netmount/netmount.c:284-304 | the two octets stored are the same on hosts of either byte order exactly if the length is even or the last octet is 0 |
| OnesComplement.OddLengthCounterexample | netmount-server/slip_udp_serial.cpp:71-73 | one octet of value 1 gives different checksums on the two kinds of hosts |
| OnesComplement.StoredVerifiesAnywhere | netmount-server/slip_udp_serial.cpp:84-112 | a header with its checksum stored by one host verifies to zero on any |
| UdpPacket.PacketRoundTrip | netmount-server/slip_udp_serial.cpp:84-333 | what one host builds, a host of any byte order accepts, with the same addresses, ports and payload |
| UdpPacket.PacketOctets | netmount-server/slip_udp_serial.cpp:84-112 | every octet of the headers sent, with a right header checksum and none over the UDP datagram |
| UdpPacket.AcceptedOctets | netmount-server/slip_udp_serial.cpp:267-333 | exactly which packets are taken, and where their addresses, ports and payload lie |
| UdpPacket.HeaderInteroperates | netmount/netmount.c:307-325 | hosts of either byte order build the same header, and either verifies it |
| UdpPacket.AlwaysFits | netmount-server/slip_udp_serial.cpp:137-155 | every packet with n octets of payload fits the 3000-octet transmit buffer exactly if n is at most 1477 |
| UdpPacket.FrameOverruns | netmount-server/slip_udp_serial.cpp:137-155 | for each greater n up to 1500, a packet that does not fit |
| SlipUdp.SlipUdpSerial.EncodeSlipBlock | netmount-server/slip_udp_serial.cpp:115-134 | the buffer is extended by exactly the encoded block |
| SlipUdp.SlipUdpSerial.EncodeSlip | netmount-server/slip_udp_serial.cpp:137-147 | headers and data become one frame in the transmit buffer |
| SlipUdp.SlipUdpSerial.Send | netmount-server/slip_udp_serial.cpp:163-184 | one frame with the next packet id goes onto the line; too long data is refused and changes nothing; the transmit buffer is overrun exactly if octets, delimiters, headers and escapes exceed 3000 |
| SlipUdp.SlipUdpSerial.SendReply | netmount-server/slip_udp_serial.cpp:187-189 | the same, addressed to the sender of the last datagram |
| SlipUdp.SlipUdpSerial.RecvDecodeSlip | netmount-server/slip_udp_serial.cpp:217-264 | the decoder, in place, returns what the specification says and never writes past 1500 octets |
| SlipUdp.SlipUdpSerial.ParseUdpPacket | netmount-server/slip_udp_serial.cpp:267-333 | addresses, ports and payload are noted exactly for packets that pass the checks |
| SlipUdp.SlipUdpSerial.ReceiveUdp | netmount-server/slip_udp_serial.cpp:192-198 | decoding and parsing together |
| SlipUdp.Loopback | netmount-server/slip_udp_serial.cpp:61-333 | every payload of 1 to 1472 octets sent by one object arrives at another with its addresses and ports |
| IpSlots.IpTable.constructor | netmount/netmount.c:2671-2679 | all four slots are free; every drive's slot index is 0 |
| IpSlots.IpTable.FindSlot | netmount/netmount.c:2221-2257 | the search finds the specified slot |
| IpSlots.IpTable.AssignSlot | netmount/netmount.c:2221-2267 | every mounted drive's slot keeps its address, the gateway's too, and no two slots in use hold the same one; the hardware address of a new one is all ones, and no other changes |
| IpSlots.IpTable.Mount | netmount/netmount.c:3062-3072 | the drive's slot holds its server's address, all other mounts are kept; it succeeds exactly if the address has a slot, one is free, or one is needed by no mounted drive and not by the gateway, and is not slot 0 unless every drive was mounted before |
| IpSlots.IpTable.Umount | netmount/netmount.c:2502-2513 | only this drive, which is mounted, is unmounted |
| IpSlots.IpTable.SetGateway | netmount/netmount.c:2721 | the gateway's slot holds the gateway's address, and there is one exactly if a slot was to be had |
| IpSlots.IpTable.HandleArp | netmount/netmount.c:361-390 | a message over Ethernet and for this host gives the sender's slot its hardware address, and one from the gateway gives it to all slots whose address differs from the local one in a bit of the mask; nothing else changes, and other messages change nothing |
| IpSlots.NetworksDiffer | netmount/netmount.c:376-384 | the code's test of the network is whether a bit of the mask differs |
| IpSlots.SlotExists | netmount/netmount.c:2221-2257 | there is a slot exactly if one holds the address, is free, or is spare and may be used again |
| IpSlots.ReusableIff | netmount/netmount.c:2238-2255 | the code finds a slot reusable exactly if no mounted drive and not the gateway needs its address, and it is not slot 0 or every drive was mounted at some time |
| IpSlots.FreedSlotLost | netmount/netmount.c:2238-2255 | four mounts and one unmount leave no slot for another server |
| DiskInfo.Scale | netmount-server/netmount-server.cpp:457-468 | the loop halves the counts as often as needed and wraps the 16-bit sector size |
| DiskInfo.DiskInfoReply | netmount-server/netmount-server.cpp:449-477 | the counts are exact for the smallest sector size that fits them, which is at most 32768 |
| DiskInfo.DiskInfoLargeReply | netmount-server/netmount-server.cpp:491-515 | the same exactly below 2^47 octets; from there on the sector size is 0 |
| FatTime.TimeToFat | netmount-server/fs.cpp:136-159 | shifting and or-ing gives the packed stamp, or the first or last one |
| FatTime.FatToTime | netmount-server/fs.cpp:162-177 | shifting and masking gives the six fields |
| FatTime.UnpackPacked | netmount-server/fs.cpp:136-177 | unpacking a packed time gives it back with its second rounded down to even |
| FatTime.PackUnpacked | netmount-server/fs.cpp:136-177 | a stamp whose fields are a time packs to itself |
| FatTime.LeapDay | netmount-server/fs.cpp:136-159 | the stamp of a certain time |
| FatTime.OrderKept | netmount-server/fs.cpp:136-159 | stamps are ordered like the times, in steps of two seconds |
| FatTime.Extremes | netmount-server/fs.cpp:136-149 | times out of range get the least and the greatest stamp |

## Left out
- FileIo.Redirector.ReadFile: requires that position plus length plus 64 stays below 2^32; the code's 32-bit sums wrap there.
- FileIo.Redirector.WriteFile: requires that position plus length stays below 2^32; it does not claim that the size in the file table shrinks, because the code never lowers it.
- ClientPaths.FindAll: requires at most two leading dots in the name, since beyond that the two templates differ (`TemplatesAgree`), and a path that does not end at the root, whose parent is not part of the tree modelled.
- ClientPaths.ListedPathResolves: requires at most 9998 entries in each directory on the way and names whose base is not blank.
- SlipUdp.SlipUdpSerial.Send: says nothing of the line after an overrun of the transmit buffer, because what the code does then is undefined.
- The mode without name conversion, in which names are passed through.
- Windows paths: slashes alone separate names, as on POSIX systems.
- The transliteration of Unicode names: file names are taken as the octets it yields.
- Time-outs and their doubling, liveness of a call, and interleavings inside one upcall or one turn of the waiting loop.
- ARP requests, Ethernet addressing of single frames, packet driver calls, INT 2F hooking, installation and removal.
- Sockets, serial port configuration, logging, signals and argument parsing.
- Directory operations, rename, delete, attributes, locks and SEEK_FROM_END: not part of this model.
- The client's map from its own drives to those of the servers: `FileCalls` names files by the server's drive and handle.
- FileCalls.CallsAreSends: says nothing of requests other than READ_FILE and WRITE_FILE but that each is executed once or not at all and in its turn.
- Concurrent writers, and deleting, renaming or recreating a buffered file.
- Replies of impossible size to WRITE and open requests (`set_error` with AX 0), which the server never sends.
- Native and extended attributes of files, local time and `mktime`, which normalises the fields `FatToTime` yields.
