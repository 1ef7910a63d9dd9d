# A verified model of the 9P2000 client and of its multi-dimensional spans

9p-dokany mounts a 9P2000 file server on Windows. This project models, in Dafny, the two parts of it that carry the
most state and arithmetic, and proves what they promise.

**The 9P2000 client.** Requests are written into a fixed buffer through a moving cursor and their length is patched in
last (`TxMessage.dfy`, against the reference encoding and decoder in `Requests.dfy`). Replies are parsed by eating
prefixes of a byte view (`MessageReader.dfy`, against `Replies.dfy`). `Wire.dfy` and `Bits.dfy` hold what both sides
share: little-endian integers, strings, qids, stat records, and the shift, mask and or of the integer loops.
`Client.dfy` is the client object: tag and fid issuers, transmit buffer, fid table, socket, the version/auth/attach
handshake, and the operations walk/open/read.../clunk and walk/stat/clunk. Each operation is proved to be a run of the
state machine in `Session.dfy`; the same file has the server's side of a conversation (live fids, a directory, a file)
and the theorems about whole runs. `SessionLaws.dfy` says request by request what a run asks, how it ends and where its
result comes from; `Layouts.dfy` says byte by byte, in the protocol's own figures, what every message looks like.
`TextUtilities.dfy` splits paths, `FidTracker.dfy` is the fid table.

**Multi-dimensional spans.** `MixedRadix.dfy` is the arithmetic of index vectors, `MultiSpan.dfy` the bounds, strides
and sections of the vendored `gsl/multi_span`, `BoundsIterator.dfy` its odometer.

How the model reads the source:

- Exceptions are the `Throw` outcomes of `Outcome`. `Throw(Undefined)` marks the places where the source reads beyond
  its bytes and C++ defines nothing; the lemmas say exactly when. The model stops there: an operation that ends in it is
  no finished run, the client is not ready for another, and nothing is claimed of the caller's buffer
  (`Clients.Client.Ended`).
- A failed `Expects` is `None` or `false`.
- A server is any function from everything it has been sent to a frame; it may also close the connection after some
  number of answers, so that every finite run is a run with some server. Bytes are delivered in order and in full.
- Conformance to section 5 of the Plan 9 Programmer's Manual (intro, version, attach, walk, open, read, stat, clunk) is
  never assumed of the server's type; it is a hypothesis on the exchanges of a run, stated where it is used.
- `Encode` is the reference format of a `Request`, `Decode` its strict reader. An exchange records the request that was
  meant; `SentFrameTells` says when the frame sent says the same.

Eight promises turn out to hold only under a condition. The condition is proved exact, and an input outside it is given:

- the builder's bytes mean the request they were built for if and only if no string is longer than the buffer or than
  65535 bytes and no count or size is wider than its field (`BuiltFrameMeansItsRequestExactly`). A path that is one name
  of more than 16384 bytes makes the client send a walk that announces one name and holds none (`LongNameIsLost`);
- an operation on a conforming server gives its fid back unless, after a complete walk, one of three branches is taken
  before the clunk: an error reply, a file length beyond 32 bits, or directory data that does not parse. A session ends
  with the root alone if and only if none of its operations met one (`Trips`, `ClunkSentExactly`, `FidsReturnExactly`,
  with `RefusedOpenLeaks` as a failing run);
- a listing is exact against every server that serves the directory if and only if each entry fits the 65535 bytes that a
  read asks for: at a longer one the server can send nothing, which ends the listing (`ListingIsExactExactly`,
  `LongEntryEndsListing`);
- a section that has elements keeps them inside the data if and only if the size check passes and the section does not
  start before the data (`SectionCheckExactly`). `section` makes the first check only: in a dynamic dimension it accepts
  a negative origin, and then the view may begin before the data (`SectionMayStartBefore`);
- an accepted section lies within the bounds if and only if the caller kept the origin from being negative in the dynamic
  dimensions, the dimensions after the first from being overrun, and, where one of these is empty, the first as well
  (`AcceptedSectionIsWithinExactly`, with `SectionMayStartBefore`, `SectionMaySpill` and `EmptySectionMayOverrun`);
- the walk from begin to end passes every index once and nothing else if and only if the extents are all positive or all
  zero (`IncrementEnumerates`). With extents 0 and 3 it passes three vectors although there is no element
  (`EmptyRowsAreWalked`);
- no clunk of a session names the root unless one of its operations has, counting from 0, a number that is 2^32 - 1
  modulo 2^32, and sends its clunk: fids wrap around, and that operation's fid is the root's (`RootIsClunkedExactly`,
  `WrappedFidClunksRoot`);
- the check that ends `operator+=` accepts targets up to one stride of the first dimension beyond the end
  (`AddAssignCheckExactly`, `AddMayPassTheEnd`), and `begin + size` is `end` at rank one only (`BeginPlusSizeIsEnd`).

`buildTWstat` writes one size field, as the code does; stat(5) asks for a second, outer count. Tags run through all
16-bit values, so request 65535 carries the value the protocol reserves as NOTAG (`TagsAreDistinctInAWindow`).

## Model

| member | source | states |
|---|---|---|
| `Bits.OrIsAdd` | protocol/MessageReader.cpp:43-47 | or-ing a value above all bits set so far is addition, at every width |
| `Bits.AndMask` | protocol/TxMessage.cpp:36-40 | masking with k low ones is the remainder modulo 2^k |
| `Bits.LowByte` | protocol/TxMessage.cpp:31-41 | the shift-and-mask at position i extracts base-256 digit i |
| `Wire.LeValueOfBytes` | protocol/TxMessage.cpp:43-52 | a value that fits w bytes is the base-256 sum of its w little-endian bytes |
| `Wire.LeBytesOfValue` | protocol/MessageReader.cpp:36-52 | writing the value read from any bytes gives those bytes back |
| `Wire.ReadFieldsOfEncoding` | protocol/TxMessageBuilder.cpp:183-214 | any list of well-formed fields is read back from its encoding, whatever bytes follow |
| `Wire.ReadFieldsInverse` | protocol/MessageReader.cpp:36-68 | a field list can be read from its own encoding only |
| `Wire.StatSizeIsExact` | protocol/TxMessageBuilder.cpp:28-43 | the size computed ahead of a stat is the number of bytes its fields take |
| `Wire.StatRoundTrip` | protocol/MessageReader.cpp:221-241 | parsing an encoded stat returns it and leaves exactly the bytes that followed |
| `Wire.StatParsesExactly` | protocol/MessageReader.cpp:221-241 | the bytes that parse to a stat, exactly: its fields at the front of the view that the declared size cuts, whatever else the view holds |
| `Replies.ReplyRoundTrip` | protocol/MessageReader.cpp:204-213 | for all 14 payload kinds, the parser returns the tag and payload that were encoded |
| `Replies.CheckedParsersAreTotal` | protocol/MessageReader.cpp:79-156 | on any bytes, a checked parser succeeds exactly when its format's bytes are there, and else throws BufferOverrun |
| `Replies.UndefinedExactly` | protocol/MessageReader.cpp:143-164 | the declared counts for which an unchecked view runs past the bytes, exactly; and the types no parser knows |
| `Replies.PrefixDetermined` | protocol/MessageReader.cpp:168-202 | bytes appended to an input that parses do not change the result |
| `Layouts.LittleEndian` | protocol/TxMessage.cpp:43-52 | integers of 1, 2, 4 and 8 bytes go least significant byte first |
| `Layouts.StatLayout` | protocol/TxMessageBuilder.cpp:190-214 | a stat is its size, nine numbers and four strings, in this order and these widths |
| `Layouts.MessageReadsExactly` | protocol/MessageReader.cpp:204-213 | fewer than 7 bytes overrun; otherwise type, tag and payload are read at bytes 4, 5 and 7, and the first four are not looked at |
| `Layouts.ShortReplyLayout` | protocol/MessageTypes.h:27-53 | the bytes of RFlush, RWrite, RClunk, RRemove and RWstat, types in figures |
| `Layouts.CountedReplyLayout` | protocol/MessageTypes.h:27-53 | the same for RVersion, RError, RRead and RStat |
| `Layouts.QidReplyLayout` | protocol/MessageTypes.h:27-53 | the same for RAuth, RAttach, RWalk, ROpen and RCreate |
| `MessageReader.ParseInteger` | protocol/MessageReader.cpp:36-52 | the or-and-shift loop yields the base-256 sum and consumes width bytes, or throws BufferOverrun |
| `MessageReader.OrShiftedByte` | protocol/MessageReader.cpp:44-47 | one turn of the loop adds byte times 256^i and loses no bit |
| `MessageReader.ExtractDataView` | protocol/MessageReader.cpp:54-60 | the view and the remainder, undefined exactly when count exceeds the buffer |
| `MessageReader.ParseString` | protocol/MessageReader.cpp:62-68 | reads a 16-bit length and that many bytes, or throws BufferOverrun |
| `MessageReader.ParseQid` | protocol/MessageReader.cpp:70-77 | reads the three integers of a qid |
| `MessageReader.ParseQids` | protocol/MessageReader.cpp:108-117 | the growing list is exactly the nwqid qids at the front of the buffer |
| `MessageReader.ParseRawRStat` | protocol/MessageReader.cpp:221-241 | reads a stat inside the view its size cuts and continues after that view |
| `MessageReader.ParseRVersion` | protocol/MessageReader.cpp:79-85 | reads msize and version |
| `MessageReader.ParseRWalk` | protocol/MessageReader.cpp:119-125 | reads a counted list of qids |
| `MessageReader.ParseRRead` | protocol/MessageReader.cpp:143-149 | reads counted data, unchecked |
| `MessageReader.ParseRStat` | protocol/MessageReader.cpp:158-164 | reads a stat behind an outer count, unchecked |
| `MessageReader.ParseMessagePayload` | protocol/MessageReader.cpp:168-202 | dispatches on the type octet; an unknown one throws UnknownMessageTag |
| `MessageReader.ParseMessage` | protocol/MessageReader.cpp:204-213 | header, then payload, with the errors of each step |
| `MessageReader.ParseMessageLength` | protocol/MessageReader.cpp:215-219 | the four bytes as an integer |
| `MessageReader.ReadRStatsFromData` | protocol/Client.cpp:203-210 | appends exactly the stats the data decodes to, dropping 2 + size bytes each turn |
| `MessageReader.StatsRoundTrip` | protocol/Client.cpp:203-210 | the concatenated encodings of any list of stats decode to that list |
| `MessageReader.StatsFailWhereOneFails` | protocol/Client.cpp:203-210 | behind any list of stats, bytes that are no stat make the whole read fail, with their error |
| `Requests.RequestRoundTrip` | protocol/TxMessageBuilder.cpp:50-181 | the strict decoder inverts the encoding of every request, walk names and stats included |
| `Requests.DecodeInverse` | protocol/TxMessageBuilder.cpp:50-181 | every frame that decodes is the encoding of what it decodes to |
| `Requests.RequestsAreUnambiguous` | protocol/TxMessageBuilder.cpp:50-181 | two requests or tags that differ never share their bytes |
| `Requests.FaithfulIsReference` | protocol/TxMessage.cpp:94-109 | when nothing is dropped or narrowed, the fields written are those of the reference encoding |
| `Requests.BuiltFrameMeansItsRequestExactly` | protocol/TxMessage.cpp:94-117 | a built frame decodes to its request if and only if no string is longer than the buffer or 65535 bytes and no count or size is wider than its field, spelled out for every kind |
| `Requests.DroppedNameIsLost` | protocol/TxMessage.cpp:94-104 | with a name longer than the buffer, the walk of that name announces one name, holds none and decodes to no request |
| `Requests.BuiltFrameCarriesItsTag` | protocol/TxMessageBuilder.cpp:50-181 | whatever is dropped or narrowed, the frame's tag field is the tag |
| `Layouts.FixedRequestLayout` | protocol/TxMessageBuilder.cpp:70-171 | the bytes of TFlush, TOpen, TRead, TClunk, TRemove and TStat, types in figures |
| `Layouts.NamingRequestLayout` | protocol/TxMessageBuilder.cpp:50-123 | the same for TVersion, TAuth, TAttach and TCreate |
| `Layouts.CountedRequestLayout` | protocol/TxMessageBuilder.cpp:90-181 | the same for TWalk, TWrite and TWstat |
| `Layouts.BuiltFrameSaysItsType` | protocol/MessageTypes.h:27-53 | whatever is dropped or narrowed, byte 4 of a built frame is the type of the message, in figures |
| `Layouts.BuiltVersionLayout` | protocol/TxMessageBuilder.cpp:50-58 | the bytes built for TVersion, a version that does not fit left out |
| `Layouts.BuiltAuthLayout` | protocol/TxMessageBuilder.cpp:60-68 | the same for TAuth |
| `Layouts.BuiltAttachLayout` | protocol/TxMessageBuilder.cpp:78-88 | the same for TAttach |
| `Layouts.BuiltCreateLayout` | protocol/TxMessageBuilder.cpp:114-123 | the same for TCreate |
| `Layouts.BuiltWalkLayout` | protocol/TxMessageBuilder.cpp:90-103 | the same for TWalk: all names are counted, in 16 bits, and those that fit are there |
| `Layouts.BuiltWstatLayout` | protocol/TxMessageBuilder.cpp:173-214 | the same for TWstat: all numbers of the stat, its size narrowed to 16 bits, and the strings that fit |
| `TxMessages.TxMessage.constructor` | protocol/TxMessage.cpp:56-59 | an empty message of the given capacity |
| `TxMessages.TxMessage.Initialize` | protocol/TxMessage.cpp:66-70 | the cursor restarts behind the length prefix and the type octet is written |
| `TxMessages.TxMessage.WriteInteger` | protocol/TxMessage.cpp:77-84 | appends the little-endian integer, moves the cursor by its width, changes no other byte |
| `TxMessages.TxMessage.WriteLowEndianInteger` | protocol/TxMessage.cpp:43-52 | the byte loop writes the base-256 digits in place and nothing else |
| `TxMessages.TxMessage.WriteRawData` | protocol/TxMessage.cpp:86-92 | appends the data as it is |
| `TxMessages.TxMessage.WriteString` | protocol/TxMessage.cpp:94-104 | appends length and bytes, or leaves everything unchanged when the string exceeds the buffer or 65535 |
| `TxMessages.TxMessage.GetData` | protocol/TxMessage.cpp:111-117 | the frame: total length in four bytes, then all fields written, no later byte changed |
| `TxMessages.TxMessageBuilder.BuildTVersion` | protocol/TxMessageBuilder.cpp:50-58 | exactly the fields of TVersion under NOTAG; no byte outside the message changes |
| `TxMessages.TxMessageBuilder.BuildTAuth` | protocol/TxMessageBuilder.cpp:60-68 | the same for TAuth |
| `TxMessages.TxMessageBuilder.BuildTFlush` | protocol/TxMessageBuilder.cpp:70-76 | the same for TFlush |
| `TxMessages.TxMessageBuilder.BuildTAttach` | protocol/TxMessageBuilder.cpp:78-88 | the same for TAttach |
| `TxMessages.TxMessageBuilder.BuildTWalk` | protocol/TxMessageBuilder.cpp:90-103 | the same for TWalk, with any number of names and the count narrowed to 16 bits |
| `TxMessages.TxMessageBuilder.BuildTOpen` | protocol/TxMessageBuilder.cpp:105-112 | the same for TOpen |
| `TxMessages.TxMessageBuilder.BuildTCreate` | protocol/TxMessageBuilder.cpp:114-123 | the same for TCreate |
| `TxMessages.TxMessageBuilder.BuildTRead` | protocol/TxMessageBuilder.cpp:125-133 | the same for TRead |
| `TxMessages.TxMessageBuilder.BuildTWrite` | protocol/TxMessageBuilder.cpp:135-147 | the same for TWrite, the count narrowed to 32 bits |
| `TxMessages.TxMessageBuilder.BuildTClunk` | protocol/TxMessageBuilder.cpp:149-155 | the same for TClunk |
| `TxMessages.TxMessageBuilder.BuildTRemove` | protocol/TxMessageBuilder.cpp:157-163 | the same for TRemove |
| `TxMessages.TxMessageBuilder.BuildTStat` | protocol/TxMessageBuilder.cpp:165-171 | the same for TStat |
| `TxMessages.TxMessageBuilder.BuildTWstat` | protocol/TxMessageBuilder.cpp:173-181 | the same for TWstat, with one size field |
| `TxMessages.TxMessageBuilder.WriteStat` | protocol/TxMessageBuilder.cpp:190-214 | the narrowed size, then the stat's fields in order |
| `TxMessages.TxMessageBuilder.WriteQid` | protocol/TxMessageBuilder.cpp:183-188 | the three integers of the qid in order |
| `TextUtilities.Find` | utils/TextUtilities.cpp:66 | the first delimiter at or after start, or the end |
| `TextUtilities.SplitToPathComponents` | utils/TextUtilities.cpp:60-81 | the find-and-substr loop returns the character-wise components |
| `TextUtilities.SplitKeepsEverythingElse` | utils/TextUtilities.cpp:60-81 | components are non-empty, hold no backslash, and concatenate to the path without its backslashes |
| `TextUtilities.SplitOfJoin` | utils/TextUtilities.cpp:60-81 | splitting the join of any names gives the names back |
| `TextUtilities.SplitAtDelimiter` | utils/TextUtilities.cpp:66-73 | a backslash cuts the path into two independent halves |
| `TextUtilities.SplitOfComponent` | utils/TextUtilities.cpp:60-81 | a path without byte 92 is one component, or none if empty |
| `TextUtilities.ExtraSeparatorsAreIgnored` | utils/TextUtilities.cpp:68-78 | leading, trailing and repeated separators change nothing |
| `FidTrackers.FidTracker.SetRoot` | protocol/FidTracker.cpp:24-28 | the root entry is this fid and qid, with no names |
| `FidTrackers.FidTracker.AddFid` | protocol/FidTracker.cpp:30-33 | appends the entry |
| `FidTrackers.FidTracker.FindEntry` | protocol/FidTracker.cpp:44-53 | the first entry with the fid, none exactly when there is none |
| `Session.FollowsSnoc` | protocol/Client.cpp:405-436 | a run of the machine is extended by the exchange its phase asks for |
| `Session.OperationAccounting` | protocol/Client.cpp:438-511 | with a conforming server an operation gains or loses no fid but its own, and keeps that one exactly when the walk was complete and an error reply, the length check or unparsable directory data stopped it before its clunk |
| `Session.RefusedAtOnce` | protocol/Client.cpp:500-543 | after a partial walk the first use of the fid is refused, the operation ends there and nothing stays live |
| `Session.AccountingAfterWalk` | protocol/Client.cpp:527-636 | past a complete walk the fid dies exactly if the clunk is sent |
| `Session.ClunkSentExactly` | protocol/Client.cpp:438-489 | past the walk the clunk is sent exactly if none of the three stopping branches is taken |
| `Session.TouchesOnlyItsFid` | protocol/Client.cpp:438-525 | against any server, one walk from the root to the operation's fid, and no clunk but of that fid |
| `Session.FidAccounting` | protocol/Client.cpp:438-511 | over every run of any operations, failing ones included, the live fids are the root and one for each operation stopped between a complete walk and its clunk |
| `Session.FidsReturnExactly` | protocol/Client.cpp:438-511 | a session ends with the root alone if and only if no operation met a stopping branch after a complete walk; so always when all succeed |
| `Session.RefusedOpenLeaks` | protocol/Client.cpp:471-476 | a concrete run against a conforming server, a refused open, that leaves its fid live |
| `Session.RootIsClunkedExactly` | protocol/Client.cpp:609-636 | against any server, a session clunks the root if and only if an operation whose fid has wrapped around to the root's sends its clunk; never within 2^32 - 1 operations |
| `Session.WrappedFidClunksRoot` | protocol/Client.cpp:83-92 | a session of 2^32 successful operations on a conforming server whose last one clunks the root |
| `Session.NewFidsNeverRepeat` | protocol/Client.cpp:83-92 | within 2^32 - 3 operations the fids walked to are pairwise different and neither the root nor NOFID |
| `Session.NewFidIsNotLive` | protocol/Client.cpp:83-89 | while fewer than 2^32 - 1 fids are issued, a new fid is neither the root nor any fid leaked before |
| `Session.ListingIsExact` | protocol/Client.cpp:438-458 | against a server that reads out a directory at the path in whole entries, each of which fits a read, the listing is that directory, in order, each entry once, within its length plus four exchanges |
| `Session.ListingSucceeds` | protocol/Client.cpp:438-458 | total correctness: a server that does so for as long as it answers gets the listing done |
| `Session.OffsetsAddUp` | protocol/Client.cpp:448-453 | against any server, every read asks for the offset that is the sum of the bytes returned before it, modulo 2^64 |
| `Session.DirectoryReadContinues` | protocol/Client.cpp:449-453 | a reply at the offset reached holds exactly the next entries, and is empty only at the end |
| `Session.EndsSoon` | protocol/Client.cpp:460-489 | whatever the server does, a stat ends within three exchanges and a file read within four |
| `Session.InformationIsExact` | protocol/Client.cpp:460-469 | against a server that reports a stat, the operation returns that stat in three exchanges |
| `Session.FileReadIsExact` | protocol/Client.cpp:471-489 | the result is the data of the read reply: the file's bytes from the offset, at most the length asked for, none only at the end or for length 0; it fails exactly when the length exceeds 32 bits, and then leaves the fid live after a complete walk |
| `SessionLaws.RunAsksExactly` | protocol/Client.cpp:438-525 | every request of every run, against any server: the walk of the path's components from the root, an open with mode 0 or a stat, directory reads of 65535 bytes until one is empty or the file read asked for, the clunk |
| `SessionLaws.RunEndsExactly` | protocol/Client.cpp:491-636 | which outcome follows from the last reply, errors, wrong kinds and a refused clunk included; success only after an answered clunk |
| `SessionLaws.ResultIsReplied` | protocol/Client.cpp:438-489 | against any server, the result is the stat reply, the read reply, or the entries of all directory reads in order |
| `SessionLaws.LongEntryEndsListing` | protocol/Client.cpp:445-453 | for any directory, a run against a server that serves it and stops at the first entry longer than 65535 bytes |
| `SessionLaws.ListingIsExactExactly` | protocol/Client.cpp:445-453 | listings of a directory are always exact if and only if every entry fits 65535 bytes |
| `Clients.Client.IssueTag` | protocol/Client.cpp:83-91 | tags count up modulo 2^16 |
| `Clients.Client.IssueFid` | protocol/Client.cpp:83-92 | fids count up modulo 2^32 |
| `Clients.Client.SendMessageInTxBuffer` | protocol/Client.cpp:405-414 | the frame sent is the one built for the request, under the tag that is its turn |
| `Clients.SentFrameTells` | protocol/Client.cpp:405-414 | every frame sent carries its tag, and it decodes to its request if and only if nothing was dropped or narrowed |
| `Clients.LongNameIsLost` | protocol/Client.cpp:513-525 | the walk sent for a path of one name longer than the buffer decodes to no request |
| `Clients.Client.PeekForMessageLength` | protocol/Client.cpp:192-201 | the length of the next frame; ConnectionClosed when nothing comes; undefined when fewer than four bytes have come |
| `Clients.Client.ReadParseIncomingMessage` | protocol/Client.cpp:416-436 | takes exactly the answer off the stream, also when parsing it throws |
| `Clients.Client.Transact` | protocol/Client.cpp:405-427 | keeps lockstep: nothing is left unread and reply k is the server's answer to the first k + 1 requests |
| `Clients.RepliesCarryTheirTags` | protocol/Client.cpp:422-427 | with a server that echoes tags, the reply read after request k carries the tag of request k |
| `Clients.RepliesAreTheServers` | protocol/Client.cpp:416-436 | what was received for request k is the server's answer to the first k + 1 requests, parsed, or a closed connection |
| `Clients.TagsAreDistinctInAWindow` | protocol/Client.cpp:83-91 | the tags on the wire of any two of 65536 consecutive requests differ, but for requests 0 and 65535, which both carry NOTAG |
| `Clients.Client.DoVersionHandshake` | protocol/Client.cpp:315-337 | asks TVersion; every outcome by the kind of reply; the message size becomes the smaller one on RVersion only |
| `Clients.Client.DoAuthentication` | protocol/Client.cpp:339-355 | succeeds exactly when the server declines; every other outcome by the kind of reply |
| `Clients.Client.DoAttachment` | protocol/Client.cpp:357-379 | attaches the next fid and sets the root entry exactly on RAttach; every other outcome by the kind of reply |
| `Clients.Client.Handshake` | protocol/Client.cpp:273-281 | TVersion with 16384 and "9P2000", TAuth and TAttach with fid 1, each only after the one before it was answered as wanted; the exception and the message size that follow from the replies; success leaves the client connected with root fid 1 |
| `Clients.Client.DoWalk` | protocol/Client.cpp:491-525 | issues the operation's fid, walks the path's components from the root, advances the machine by the reply |
| `Clients.Client.DoOpen` | protocol/Client.cpp:527-553 | one step of the machine, for TOpen |
| `Clients.Client.DoStat` | protocol/Client.cpp:555-580 | one step, for TStat |
| `Clients.Client.DoRead` | protocol/Client.cpp:582-607 | one step, for TRead |
| `Clients.Client.DoClunk` | protocol/Client.cpp:609-636 | one step, for TClunk |
| `Clients.Client.GetDirectoryContents` | protocol/Client.cpp:438-458 | one complete run of the machine under the next fid, whose result is returned; unless that is undefined, the client stays connected with its root entry unchanged, whatever the server does. Returns exactly the directory, if the server reads one out whenever it answers and has its length plus four answers left |
| `Clients.Client.ReadEntries` | protocol/Client.cpp:445-453 | the read loop ends, with the entries the machine has collected or its exception |
| `Clients.Client.GetFileInformation` | protocol/Client.cpp:460-469 | the same for the stat operation, which returns exactly the stat that a server with three answers left reports |
| `Clients.Client.ReadFile` | protocol/Client.cpp:471-489 | the same for the read operation: it returns the size of the reply and, against any server, byte i of the buffer is byte i of the reply where both the reply and the length asked for reach that far, and what it was elsewhere. If the server reads out a file at the path, with four answers left, the buffer starts with the file's bytes from the offset and their number is returned; a length beyond 32 bits fails and changes nothing |
| `Clients.Client.ReadFileOrMinusOne` | protocol/Client.cpp:657-665 | the same with every exception turned into -1 |
| `Clients.SessionFidAccounting` | protocol/Client.cpp:438-511 | the fid accounting and fid return theorems for the client object's own conversation |
| `Clients.LastListingIsExact` | protocol/Client.cpp:438-458 | at the end of a listing, undefined endings included: its result is exactly the directory that is served |
| `Clients.LastInformationIsExact` | protocol/Client.cpp:460-469 | the same for a stat |
| `Clients.LastFileReadIsExact` | protocol/Client.cpp:471-489 | the same for a file read and the caller's buffer |
| `Clients.OverlayExactly` | protocol/Client.cpp:481-485 | byte by byte, what is copied of a reply of any length |
| `MixedRadix.LinearBound` | gsl/multi_span:385-390 | in-range index vectors have linear indices below the product of the extents |
| `MixedRadix.LinearOfUnlinear` | gsl/multi_span:929-933 | the digits of a number below the product are in range and recompose to it |
| `MixedRadix.UnlinearOfLinear` | gsl/multi_span:929-933 | the digits of a linear index are the index vector |
| `MixedRadix.LinearIsDot` | gsl/multi_span:789-798 | Horner's rule equals the dot product with the suffix products |
| `MixedRadix.RowMajor` | gsl/multi_span:385-390 | in two dimensions the linear index is row times row length plus column |
| `MultiSpan.TotalSizeIsProduct` | gsl/multi_span:361-373 | totalSize is the product of the extents, for any mix of fixed and dynamic dimensions |
| `MultiSpan.SerializeRecoversExtents` | gsl/multi_span:376-410 | the stored products can be divided exactly when no dynamic dimension is followed by an empty product, and then give the extents back |
| `MultiSpan.LinearizeExactly` | gsl/multi_span:383-390 | linearize fails exactly if some index reaches its extent, is negative in a fixed dimension, or stands before an empty product in a dynamic one; otherwise it is the linear index |
| `MultiSpan.LinearizeInRange` | gsl/multi_span:459-467 | on in-range indices it never fails |
| `MultiSpan.StridedTotalSize` | gsl/multi_span:764-769 | one more than the offset of the last index vector |
| `MultiSpan.StridedSize` | gsl/multi_span:772-777 | the product of the extents |
| `MultiSpan.StridedContains` | gsl/multi_span:779-786 | true exactly for in-range indices |
| `MultiSpan.StridedLinearize` | gsl/multi_span:789-798 | the dot product with the strides; fails exactly when a component reaches its extent |
| `MultiSpan.MakeStride` | gsl/multi_span:1043-1056 | the table is the suffix products |
| `MultiSpan.Section` | gsl/multi_span:1471-1476 | the view it builds, and exactly when a check refuses |
| `MultiSpan.SectionIsFaithful` | gsl/multi_span:1471-1476 | element idx of a section is element origin + idx of the span |
| `MultiSpan.SectionWithinBoundsIsSafe` | gsl/multi_span:1820-1828 | a section within the bounds is never refused, by linearize or by the constructor, and all its elements are elements of the span |
| `MultiSpan.SectionCheckExactly` | gsl/multi_span:1825 | at any origin: every element of a section that has elements lies inside the data if and only if the size check passes and the start is not negative |
| `MultiSpan.SectionMayStartBefore` | gsl/multi_span:1471-1476 | two sections of a 3 by 3 span with a negative origin that are accepted and start before the data |
| `MultiSpan.SectionMaySpill` | gsl/multi_span:1825 | a section of a 3 by 3 span that is accepted and leaves its row |
| `MultiSpan.AcceptedSectionIsWithinExactly` | gsl/multi_span:1471-1476 | an accepted section, of any extents, lies within the bounds if and only if its origin is not negative in a dynamic dimension, its dimensions after the first are not overrun, and these are all non-empty or the first is not overrun either |
| `MultiSpan.EmptySectionMayOverrun` | gsl/multi_span:1820-1828 | a section of a 3 by 3 span without elements that is accepted and overruns the first dimension |
| `MultiSpan.SectionFitsExactly` | gsl/multi_span:1825 | the check compares the far corner's linear index with the size |
| `BoundsIterators.BoundsIterator.Increment` | gsl/multi_span:861-876 | the in-place odometer step |
| `BoundsIterators.BoundsIterator.Decrement` | gsl/multi_span:886-907 | the in-place step back, and whether its precondition held |
| `BoundsIterators.BoundsIterator.LinearizeIndex` | gsl/multi_span:990-1014 | the multiplier loop is Horner's rule, shifted by one past the end |
| `BoundsIterators.BoundsIterator.IsLess` | gsl/multi_span:980-987 | some component is smaller |
| `BoundsIterators.BoundsIterator.StrideTable` | gsl/multi_span:926-928 | the table is the suffix products |
| `BoundsIterators.BoundsIterator.AddAssign` | gsl/multi_span:923-937 | the components are the truncated digits of the target, and the outcome of the closing check |
| `BoundsIterators.IncrementAddsOne` | gsl/multi_span:861-876 | ++ raises the position by exactly one, onto the boundary after the last index |
| `BoundsIterators.DecrementTakesOne` | gsl/multi_span:886-907 | -- lowers it by exactly one and fails at the first position only |
| `BoundsIterators.DecrementUndoesIncrement` | gsl/multi_span:861-907 | -- undoes ++ at every in-range index |
| `BoundsIterators.IncrementUndoesDecrement` | gsl/multi_span:861-907 | ++ undoes -- at every position but the first |
| `BoundsIterators.IncrementEnumerates` | gsl/multi_span:861-876 | repeated ++ leads from begin to end through every in-range index exactly once, in linear order, and through nothing else, if and only if the extents are all positive, then after their product of steps, or all zero |
| `BoundsIterators.EmptyRowsAreWalked` | gsl/multi_span:861-876 | with extents 0 and 3 the walk passes three vectors and there is no element |
| `BoundsIterators.PositionNumber` | gsl/multi_span:990-1014 | linearize numbers the positions 0 to size, the boundary last |
| `BoundsIterators.AddAssignIsExact` | gsl/multi_span:923-937 | += to a target within range lands on the unique in-range index with that number |
| `BoundsIterators.DifferenceUndoesAdd` | gsl/multi_span:945-950 | (it + n) - it is n from every position to every target += lets through, those past the end included |
| `BoundsIterators.TruncatesTowardsZero` | gsl/multi_span:929-933 | quotient and remainder recompose, and the remainder has the sign of the number |
| `BoundsIterators.AddAssignCheckExactly` | gsl/multi_span:934-935 | the closing check passes exactly for targets from 0 to below size plus the first stride |
| `BoundsIterators.AddMayPassTheEnd` | gsl/multi_span:934-935 | a target of a 2 by 2 range that passes the check and is at no position |
| `BoundsIterators.BeginPlusSizeIsEnd` | gsl/multi_span:923-937 | begin + size is end exactly at rank one |

## Left out

- Clients.Client.DoWalk: requires, as the handshake and all operations do, that the bytes written fit the 16 KiB buffer; the source writes them unchecked.
- Clients.Client.ReadIncomingReply: short `send` or `recv` are not modelled; a frame arrives in full or not at all.
- Clients.Client.SendMessageInTxBuffer: a failing `send` (SendFailed) is not modelled.
- MultiSpan.Section: overflow of `ptrdiff_t` is not modelled, so sizes are taken to be representable.
- BoundsIterators.BoundsIterator.AddAssign: requires that no extent after the first is zero, as the source divides by their products.
- TxMessages.TxMessage.WriteInteger: room for the bytes is a precondition here and in the builders, as the source writes unchecked.
- Winsock set-up, address printing, logging and the socket's life time.
- UTF-8 and wide-string conversion; paths, names and messages are byte strings.
- Use of one client from several threads; the configuration fixes one.
- Views that outlive the receive buffer; parsed strings are values.
- `Client::Impl` and its constructor are one object with a `Handshake` method, since a failed constructor leaves no object.
- FileMode: only the Read mode, encoded as 0, occurs in the operations.
- Dokan callbacks, configuration, and the rest of `gsl`: no property beyond one body.
- `static_bounds::contains` and the ordering operators of `bounds_iterator`, which are not an order.
