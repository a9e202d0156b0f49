# Verified models of the OpenWrt demo programs

Dafny models of the state machines behind the traffic analyser (`apptraffic`), the upload bridge (`dav-bridge`), the
wake-on-LAN relay (`wol-proxy`), the remote command server (`shcmd`), the voice assistant (`voice`) and the mini
program's thumbnail cache, with proofs of what they guarantee for every packet order, every read size, every
interleaving and every run.

Run `dafny verify dfyconfig.toml` in this directory.

## What is modelled

| module | program part | main results |
|---|---|---|
| `TcpReasm` | first-record TCP reassembler | the prefix is the maximal cover of what was fed, in whatever order; the pending list is bounded |
| `Tls` | server name in a ClientHello | the parser gives back the announced host of every encoded ClientHello |
| `Capture`, `StreamTable`, `Tracker` | one TLS connection, which connections are tracked, and all of them at once | the host is reported once, exactly when the record is covered, however the packets of many connections interleave |
| `StreamReader`, `Multipart` | bounded-buffer search for the multipart delimiter | the outcome is a function of the body, not of the reads; bodies round-trip |
| `UploadProtocol` | naming of concurrent uploads | no upload overwrites another, in any interleaving |
| `FlowAccounting` | conntrack counters to database rows | conservation of bytes; nothing lost to expiry; rows never fall |
| `StreamHash` | SHA-256, SHA-1, MD5 buffering and HMAC | streaming equals the one-shot hash of the padded message |
| `DupFilter` | 32-slot duplicate filter | agrees with an unbounded history unless more than 32 packets fall into the window |
| `IpFrag` | IP fragment table | what comes out is the datagram of the key; over whole runs, exactly which datagrams come out |
| `ThumbCache` | LRU thumbnail cache | limits, minimal eviction, oldest first |
| `Dns`, `DnsMessages` | name decompression and responses | names of up to nine steps read back; exactly which longer ones do; encoded responses give back their addresses |
| `Base64`, `JsonString`, `ShellQuote` | codecs | round trips |
| `Vad` | voice activity detection | exact median, hysteresis, when a segment ends |

C objects that are updated in place are classes with the same fields; an intrusive list or hash chain is a `seq` or
`map` field, a fixed buffer an `array`. `time(NULL)` and other outside inputs are parameters. `fread` may deliver any
number of bytes, `fwrite` may fall short, a database store may fail. What the code is compared with (all segments fed,
the unread input, the ledger of all stores, the history of accepted packets, the message hashed so far) is ghost state.

### Assumptions that are part of a result

* `Capture`: the packets place only bytes of one stream in the first 8192 positions (`Honest`). Packets that carry slices
  of a stream do, as long as the 32-bit offset has not wrapped into that window (`SlicesAreHonest`; `CaptureStream` is
  stated for such packets). `PlacedWhereTheyBelong` says exactly when an offset has wrapped, `WrappedByteMisplaced` shows
  the byte 4 GiB into a stream landing at offset 0.
* `UploadProtocol`: stat and unlink in `remove_stale_part` are one step, and a live writer's `.part` is never an hour
  old. `DropKeeps` shows that a name may be removed exactly when no live upload is using it, so the two calls may not be
  separated by another upload taking over the name. Requested and deleted names do not end in `.part`, and `renameat2`
  exists.
* `FlowAccounting`: noise flows (multicast, loopback, broadcast) are dropped on purpose. The law of an entry holds while
  what it counted stays below 2^63. A counter is taken to rise by a signed 64-bit difference; `RiseIsIncrease` says exactly
  when that is its increase. Nothing is lost to expiry if every store succeeds, the clock does not go back, and a commit
  interval plus a turn of the loop fit into the flow timeout.
* `DupFilter`: that a recent packet is recognised needs a history in which the clock was positive and did not go back;
  the rest needs nothing.
* `IpFrag`: one datagram per key.
* `StreamHash`: the compression function is a parameter shared by both sides.
* `Dns`: a message is shorter than 64 KiB where names are read back (section 4.2.2 of RFC 1035); the parser itself, which
  compares pointers with the low 16 bits of the length, is modelled on every buffer.

### Where code and documentation part ways

* `dns_read_name` runs ten rounds. A well-formed name of ten labels and no pointer leaves it with position 0
  (`Dns.TenLabels`), so its caller goes on from the start of the packet. `Dns.ReadsBackExactly` gives the exact
  condition under which a longer name still comes out right.
* The check for the file part compares only ten of the eleven characters of `name="file"`. A part named `file2` passes
  (`Multipart.File2Passes`); `Multipart.KeepsNameRuleExactly` says for which bodies the answer differs from that of the
  eleven characters.
* `FlowAccounting`: protocols other than UDP and ICMP are all written as `tcp`, so two flows can share a row
  (`FlowAccounting.RowsShared` says exactly which); the law is therefore stated per flow entry, per row, and for the whole
  table.
* `IpFrag`: the file promises that fragments in order are put together. The code takes a free slot before a later matching
  one, so a slot freed in between splits a datagram (`IpFrag.InterleavingSplits`, from an empty table).
  `IpFrag.DeliveredExactly` says for every run exactly when a datagram whose fragments arrive in order is delivered. One
  longer than 8192 bytes is cut to 8192, and never delivered if its last fragment starts there or later.
* `JsonString`: of the escapes of section 7 of RFC 8259, backspace and form feed are read as the letters b and f, and only
  these (`JsonString.ShortEscapesExactly`).
* A root name is an error to `dns_read_name`, so a response is read up to its first root name (`Dns.RootStops`).

## Model

| member | source | states |
|---|---|---|
| TcpReasm.Reassembler.SetIsn | apptraffic/src/tcp_reasm.c:50-59 | the first SYN fixes the base at ISN + 1 modulo 2^32, later ones change nothing |
| TcpReasm.Reassembler.EnsureCap | apptraffic/src/tcp_reasm.c:61-78 | the allocation grows to the need or the cap, and the prefix survives |
| TcpReasm.Reassembler.AddPending | apptraffic/src/tcp_reasm.c:92-117 | an out-of-order segment joins what was fed, the list stays strictly ordered, no data is lost |
| TcpReasm.Reassembler.MergePending | apptraffic/src/tcp_reasm.c:123-160 | afterwards every pending segment lies strictly beyond the prefix, which only grew |
| TcpReasm.Reassembler.Feed | apptraffic/src/tcp_reasm.c:162-212 | every byte of the payload within the first 8192 positions joins what was fed, and nothing else; the prefix is extended, and the result says whether it grew |
| TcpReasm.Reassembler.MarkConsumed | apptraffic/src/tcp_reasm.c:225-243 | everything buffered is dropped for good |
| TcpReasm.ClipExactly | apptraffic/src/tcp_reasm.c:176-184 | of a payload exactly the bytes within the first 8192 positions are kept |
| TcpReasm.PrefixIsMaximal | apptraffic/src/tcp_reasm.c:123-212 | the prefix is the longest one the fed segments cover |
| TcpReasm.PrefixOfStream | apptraffic/src/tcp_reasm.c:162-212 | if all segments are slices of one stream, the prefix is a prefix of that stream |
| TcpReasm.OrderIrrelevant | apptraffic/src/tcp_reasm.c:92-212 | reassemblers fed the same segments in any order and multiplicity hold the same prefix |
| TcpReasm.PendingBounded | apptraffic/src/tcp_reasm.c:92-117 | at most 8191 * 8192 / 2 segments are ever buffered |
| TcpReasm.OffsetOfPosition | apptraffic/src/tcp_reasm.c:176-180 | the computed offset is the stream position modulo 2^32 |
| Tls.ParseSni | apptraffic/src/proto.c:188-260 | the cursor-driven parser computes the layered description of a ClientHello, on every input |
| Tls.RecordRoundTrip | apptraffic/src/proto.c:188-260 | for every encoded ClientHello, whatever follows it, the parser finds exactly the announced dotted host |
| Tls.HostGivenBack | apptraffic/src/proto.c:188-260 | every encoded ClientHello gives back the first server name up to its first NUL and to one byte less than the buffer, if it is a host name and that has a dot |
| Tls.WholeHostGivenBack | apptraffic/src/proto.c:247-255 | a name without NUL is given back whole if it fits, else its first bytes |
| Tls.NoHostGivenBack | apptraffic/src/proto.c:188-260 | a ClientHello without a server name gives none |
| Tls.SniFromTheData | apptraffic/src/proto.c:188-260 | on any input, a reported host has a dot, no NUL, fits the buffer, and stands in the data of a complete ClientHello of TLS 1.0 or later |
| Capture.TcpRoundTrip | apptraffic/src/capture.c:266-281 | sequence number, SYN flag and payload of every encoded segment are read back |
| Capture.TlsStream.OnPacket | apptraffic/src/capture.c:266-350 | header checks, SYN and data handling; the host list changes only when the first record is complete, and never twice |
| Capture.ConsumedExactly | apptraffic/src/capture.c:321-350 | a stream is consumed when its first record is a complete handshake record, or when 8192 bytes are no handshake |
| Capture.FirstRecordOfHello | apptraffic/src/capture.c:321-350 | the completeness test fires exactly when the segments seen cover the ClientHello record |
| Capture.SlicesAreHonest | apptraffic/src/tcp_reasm.c:176-194 | packets that carry slices of one stream place only its bytes |
| Capture.CaptureStream | apptraffic/src/capture.c:266-350 | after the SYN, any segmentation, order and duplication of a stream reports its first server name once, exactly if every position of the record lies in the payload of some packet |
| Capture.CaptureSent | apptraffic/src/capture.c:266-350 | the same from encoded segments: a dotted host of at most 255 bytes is reported as it is, exactly if every byte of the record was sent |
| Capture.Follow | apptraffic/src/capture.c:266-350 | one packet more keeps a stream where its packets lead |
| Capture.CaptureConnection | apptraffic/src/capture.c:266-350 | over any packet sequence the host is reported exactly once if the record is covered, and not at all before |
| Capture.ReorderedCapture | apptraffic/src/capture.c:266-350 | reordering or repeating the packets after the SYN leaves the reported hosts the same |
| Capture.PlacedWhereTheyBelong | apptraffic/src/tcp_reasm.c:176-180 | stream bytes are placed at their own position or nowhere exactly when the offset has not wrapped into the window |
| Capture.WrappedByteMisplaced | apptraffic/src/tcp_reasm.c:176-180 | the byte 4 GiB into a stream is placed at offset 0 |
| StreamTable.Table.Age | apptraffic/src/capture.c:98-114 | exactly the finished and idle streams go |
| StreamTable.Table.FindOrCreate | apptraffic/src/capture.c:116-173 | the stream is there afterwards; another one goes only if 4096 are tracked and it is finished, idle, or least recently seen among busy ones |
| Tracker.Tracker.Packet | apptraffic/src/capture.c:245-350 | a packet is fed to the stream of its own connection; another connection keeps its packets or leaves a full table |
| Tracker.ProcessAll | apptraffic/src/capture.c:245-350 | over any interleaving, a tracked stream has been fed the last packets of its connection, and all of them if there are at most 4096 connections |
| Tracker.TrackedConnection | apptraffic/src/capture.c:266-350 | a tracked connection has reported what its own packets tell, whatever else arrived in between |
| Tracker.EveryConnection | apptraffic/src/capture.c:116-173 | with at most 4096 connections, every one of them reports what all its packets tell |
| Tracker.EveryStream | apptraffic/src/capture.c:245-350 | with at most 4096 connections, each on a TLS port reports its server name exactly if its own packets hold every byte of the record |
| StreamReader.FindBytes | dav-bridge/src/dav-bridge.c:507-519 | the first occurrence from a position, or none |
| StreamReader.Reader.ReadByte | dav-bridge/src/dav-bridge.c:617-630 | the next byte of the input, or its end |
| StreamReader.Reader.Peek | dav-bridge/src/dav-bridge.c:636-656 | succeeds exactly if n more bytes exist, loses none, for every way fread delivers them |
| StreamReader.Reader.ReadLine | dav-bridge/src/dav-bridge.c:659-677 | the line is a function of the unread input |
| StreamReader.Reader.ReadHeaders | dav-bridge/src/dav-bridge.c:680-698 | the headers are a function of the unread input |
| StreamReader.Reader.CopyUntilBoundary | dav-bridge/src/dav-bridge.c:706-760 | what is written and hashed is exactly the input before the first delimiter; the result code is a function of the input |
| Multipart.ReceiveUpload | dav-bridge/src/dav-bridge.c:948-1035 | the answer to a body follows one verdict on the whole body, an accepted content is what was written and hashed, and a well-formed upload gets each of its five answers exactly when it should, unless a write fails |
| Multipart.VerdictUnique | dav-bridge/src/dav-bridge.c:706-760 | a body has one verdict, so the answer cannot depend on the reads |
| Multipart.UploadAnswer | dav-bridge/src/dav-bridge.c:951-1035 | a well-formed upload is accepted exactly if it names the file part, fits the limit, and has the announced size and checksum; and when it gets each other answer |
| Multipart.WrongFirstLine | dav-bridge/src/dav-bridge.c:951-955 | a body whose first line is not the boundary line is malformed |
| Multipart.NoHeaderEnd | dav-bridge/src/dav-bridge.c:957-959 | so is one whose part headers do not end within 4095 bytes |
| Multipart.LineIs | dav-bridge/src/dav-bridge.c:659-677 | a line is what stands before the first LF without its CRs, and exactly when it is too long |
| Multipart.DelimiterHasNoBorder | dav-bridge/src/dav-bridge.c:995-1006 | content and delimiter cannot overlap into an earlier match |
| Multipart.UploadRoundTrip | dav-bridge/src/dav-bridge.c:951-1035 | a well-formed body is judged on exactly its content |
| Multipart.AcceptedIsWellFormed | dav-bridge/src/dav-bridge.c:951-1035 | whatever is accepted starts with the boundary line, was framed as headers, content and first delimiter, and met the size and checksum |
| Multipart.TurnedAwayExactly | dav-bridge/src/dav-bridge.c:960-961 | a framed body is turned away for its part name exactly if the ten bytes are absent |
| Multipart.KeepsNameRuleExactly | dav-bridge/src/dav-bridge.c:957-961 | the answer is that of the full name rule except exactly if the ten bytes occur but never with the closing quote |
| Multipart.File2Passes | dav-bridge/src/dav-bridge.c:960-961 | a part named file2 is judged on its content, where the rule would turn it away |
| UploadProtocol.CandidateNotPart | dav-bridge/src/dav-bridge.c:767-788 | no candidate of a name that does not end in .part ends in .part |
| UploadProtocol.FirstCandidate | dav-bridge/src/dav-bridge.c:773-778 | the first candidate is the name itself |
| UploadProtocol.CandidateWithExtension | dav-bridge/src/dav-bridge.c:779-786 | the others have their decimal number before the extension |
| UploadProtocol.CandidateWithoutExtension | dav-bridge/src/dav-bridge.c:779-786 | without a dot in the last component the number goes to the end |
| UploadProtocol.UploadAlone | dav-bridge/src/dav-bridge.c:963-1070 | an undisturbed upload to a free name is answered with exactly that name, which holds exactly its body; every other name is as before |
| UploadProtocol.CandidatesDistinct | dav-bridge/src/dav-bridge.c:767-788 | every retry asks for a new name |
| UploadProtocol.DropKeeps | dav-bridge/src/dav-bridge.c:814-823 | exactly the names no live upload uses can be removed without breaking the invariant |
| UploadProtocol.RemoveStaleKeeps | dav-bridge/src/dav-bridge.c:814-823 | removing an hour-old .part keeps the invariant |
| UploadProtocol.PublishKeeps | dav-bridge/src/dav-bridge.c:1048-1077 | publishing without replacement, or moving on to the next suffix, keeps the invariant |
| UploadProtocol.ReserveName | dav-bridge/src/dav-bridge.c:963-986 | undisturbed, the reserving loop takes the first of 1000 candidates whose .part is free or stale, the name itself exactly if its .part is free or an hour old, and changes nothing else |
| UploadProtocol.PublishName | dav-bridge/src/dav-bridge.c:1048-1080 | undisturbed, the publishing loop takes the first name from the reserved candidate on that nobody has, the requested one if it is free, or removes the .part |
| UploadProtocol.InvKept | dav-bridge/src/dav-bridge.c:963-1080 | every step of every upload and deletion keeps the invariant |
| UploadProtocol.PartsDistinct | dav-bridge/src/dav-bridge.c:963-986 | no two uploads at work share a .part |
| UploadProtocol.PublishedFilesStay | dav-bridge/src/dav-bridge.c:796-823 | no step but its own deletion changes or removes a published file |
| UploadProtocol.AppearsComplete | dav-bridge/src/dav-bridge.c:1053-1068 | a final name appears only with the complete content of one upload, which is then finished |
| UploadProtocol.NeverTheSamePathTwice | dav-bridge/src/dav-bridge.c:1048-1077 | in every run two answers with the same path have a deletion of it between them |
| UploadProtocol.FilesStayUntilDeleted | dav-bridge/src/dav-bridge.c:963-1080 | in every run a file keeps its content until it is deleted |
| UploadProtocol.AnsweredUploadIsComplete | dav-bridge/src/dav-bridge.c:1053-1068 | in every run a file an upload left under a final name is that upload's whole body |
| UploadProtocol.ClientFindsItsUpload | dav-bridge/src/dav-bridge.c:1053-1068 | in every run, from the answer on, the path holds the upload's whole body until someone deletes it |
| FlowAccounting.RiseIsIncrease | apptraffic/src/main.c:92-99 | the signed difference is the positive part of the increase exactly if it fits 63 bits |
| FlowAccounting.RowsShared | apptraffic/src/main.c:528-560 | which two flows share a row |
| FlowAccounting.FlowTable.Ingest | apptraffic/src/main.c:57-113 | every observation with addresses and bytes in either direction is noted in the entry of its flow, which is made if need be; every other one changes nothing |
| FlowAccounting.FlowTable.ExpireFlows | apptraffic/src/main.c:115-132 | exactly the flows not seen since the cutoff go, and uncommitted bytes go with them exactly if one of those flows has some |
| FlowAccounting.FlowTable.CommitFlow | apptraffic/src/main.c:1065-1136 | a flow is stored and cleared, dropped as noise, or left for a retry; the row of its addresses, ports, protocol name and five minutes gains what the flow loses |
| FlowAccounting.FlowTable.CommitAll | apptraffic/src/main.c:1156-1158 | a pass visits every flow once, in some order; what is left depends only on noise and on which stores succeed |
| FlowAccounting.FlowTable.Iterate | apptraffic/src/main.c:1142-1172 | a turn reads and expires when five seconds are over, then commits when the interval is over, expires no uncommitted bytes, and keeps every waiting byte within one interval of its commit |
| FlowAccounting.FlowTable.DaemonLoop | apptraffic/src/main.c:1142-1172 | a run is a chain of such turns, and no turn of it expires a flow with uncommitted bytes if stores succeed and interval plus turn fit the timeout |
| FlowAccounting.Conservation | apptraffic/src/main.c:57-113 | committed plus in-memory equals the first observed counters plus every increase, and the latest counter if it never fell |
| FlowAccounting.CountedColumn | apptraffic/src/main.c:91-99 | below 2^63 that is, counter by counter, the start plus the positive part of every difference |
| FlowAccounting.EntrySeesItsFlow | apptraffic/src/main.c:1142-1172 | in every run an entry has seen exactly what conntrack listed of its flow since the turn that created it |
| FlowAccounting.EntryEndsExactly | apptraffic/src/main.c:115-132 | an entry lives on exactly if it was seen recently enough when conntrack was read |
| FlowAccounting.RunConservation | apptraffic/src/main.c:1142-1172 | in every run, what the rows got from a living entry plus what it holds is what was listed of its flow since then |
| FlowAccounting.DatabaseHoldsWhatFlowsCommitted | apptraffic/src/main.c:528-630 | every row is the sum of its stores, and all rows together are what all entries committed |
| FlowAccounting.UpsertTotal | apptraffic/src/main.c:542-625 | one upsert adds exactly its amount to the table |
| FlowAccounting.RowsNeverFall | apptraffic/src/main.c:542-625 | in every run a row once written stays and never falls |
| StreamHash.Context.Update | voice/crypto_sha256.c:79-101 | whole blocks are absorbed, the rest is buffered, for every length and position, although the bit counter wraps |
| StreamHash.Context.Final | voice/crypto_sha256.c:103-125 | the digest is the hash of everything fed, padded by the standard |
| StreamHash.HashPieces | voice/crypto.c:62-112 | however a message is split into updates, the digest is the hash of the whole |
| StreamHash.ZeroCountSmallest | voice/crypto_sha256.c:110-113 | the padding has the smallest number of zeros the standards allow |
| StreamHash.PadLength | voice/crypto.c:287-298 | the two-case padding length is that number |
| StreamHash.NumberBytesIs | voice/crypto_sha256.c:114-123 | numbers are written most or least significant byte first |
| StreamHash.LengthField | voice/crypto_sha256.c:103-125 | the padding is 0x80, zeros, and the length in bits modulo 2^64 |
| StreamHash.ComputeHmac | voice/crypto_sha256.c:145-175 | HMAC for every key length |
| StreamHash.HmacIs | voice/crypto_sha256.c:145-175 | HMAC is the two nested hashes of RFC 2104, written out |
| DupFilter.DupTable.DupCheck | wol-proxy/src/wol-proxy.c:206-229 | a duplicate is one of the unbounded history; a recent packet is accepted again only if more than 32 were accepted in its window |
| DupFilter.EvictedWasCrowdedOut | wol-proxy/src/wol-proxy.c:211-227 | the slot that gives way is followed by 32 others no older |
| DupFilter.NotRemembered | wol-proxy/src/wol-proxy.c:212-222 | a recent packet missing from the table was crowded out within the window |
| IpFrag.FragTable.FindOrCreate | apptraffic/src/ipreasm.c:62-103 | the first free or matching slot, or the least recently used one emptied; no other slot changes |
| IpFrag.FragTable.Feed | apptraffic/src/ipreasm.c:121-178 | one slot takes the fragment and is emptied when complete; whatever is delivered is the datagram of its key, for every interleaving, duplication, overlap and eviction |
| IpFrag.Replay | apptraffic/src/ipreasm.c:121-192 | every sequence of feeds and ageings is a run of single steps |
| IpFrag.NextFragmentGoesOn | apptraffic/src/ipreasm.c:62-87 | the next fragment in order, last or not, is put behind what came before exactly if its slot waits for it and no slot before that one is free |
| IpFrag.DeliveredExactly | apptraffic/src/ipreasm.c:62-178 | in every run, a datagram whose fragments arrive in order is delivered exactly if its slot waits for each later one with no free slot before it, and the last starts within 8192 bytes |
| IpFrag.InterleavingSplits | apptraffic/src/ipreasm.c:68-85 | two interleaved datagrams in an empty table, the second never delivered although in order |
| IpFrag.FeedInOrder | apptraffic/src/ipreasm.c:121-178 | a datagram fed in order and without interruption is delivered with its last fragment and not before, however full the table is |
| IpFrag.AdvanceExactly | apptraffic/src/ipreasm.c:133-178 | what one fragment, overlapping, cut or beyond a gap, does to its slot, and when it completes it |
| IpFrag.AdvanceSound | apptraffic/src/ipreasm.c:133-172 | a fragment keeps its slot a prefix of the datagram, and completion delivers the whole of it |
| IpFrag.InOrderCompletes | apptraffic/src/ipreasm.c:133-172 | a slot fed in order completes with the last fragment and not before |
| IpFrag.FragTable.Age | apptraffic/src/ipreasm.c:180-192 | exactly the slots idle for more than 30 seconds are freed |
| ThumbCache.SelectEvictions | wechat-miniprogram/utils/thumbcache.js:12-26 | the shortest run of oldest entries that satisfies the limits, never all of them |
| ThumbCache.Cache.Cleanup | wechat-miniprogram/utils/thumbcache.js:47-59 | limits hold or one entry is left, the oldest went, and undoing the last eviction breaks a limit |
| ThumbCache.Cache.Put | wechat-miniprogram/utils/thumbcache.js:71-78 | manifest and files agree, the eviction is minimal, and with an increasing clock the new entry survives |
| ThumbCache.Cache.Get | wechat-miniprogram/utils/thumbcache.js:63-70 | a hit is exactly a known key and only touches its time |
| ThumbCache.Cache.Remove | wechat-miniprogram/utils/thumbcache.js:79-84 | record and file go together |
| ThumbCache.YoungestStays | wechat-miniprogram/utils/thumbcache.js:12-26 | the youngest entry survives every eviction |
| Base64.Base64Encode | voice/crypto.c:170-198 | the encoding and its terminator, or -1 exactly if they do not fit |
| Base64.Base64Decode | voice/tencent_nls.c:248-263 | the accumulator loop computes the decoding, cut to the room there is |
| Base64.AlphabetIs | voice/crypto.c:167-168 | the alphabet of the standard |
| Base64.GroupIsSextets | voice/crypto.c:177-182 | a group is its 24 bits, six at a time |
| Base64.RoundTrip | voice/tencent_nls.c:248-263 | decoding undoes encoding for every byte string, whatever the 32-bit accumulator held |
| JsonString.JsonEscape | voice/llm.c:78-95 | whole characters are escaped as long as there is room |
| JsonString.ParseString | voice/llm.c:127-171 | the loop writes the decoded string, or its start if there is no room |
| JsonString.EscapeRoundTrip | voice/llm.c:78-171 | reading an escaped text up to the closing quote gives the text |
| JsonString.FourHexDigits | voice/llm.c:141-149 | four digits of either case are read as their number |
| JsonString.ShortEscapesExactly | voice/llm.c:133-139 | every short escape of the standard is read as what it stands for, except exactly backspace and form feed |
| JsonString.PlainCharacters | voice/llm.c:83-92 | exactly quote, backslash and control characters are escaped |
| JsonString.Utf8RoundTrip | voice/llm.c:150-158 | an escape decodes to valid UTF-8 of its code point exactly if that is not a surrogate |
| Dns.DnsReadName | apptraffic/src/proto.c:40-90 | the loop computes ten rounds of name reading on every buffer, and ends |
| Dns.NameReadsBack | apptraffic/src/proto.c:40-90 | a name of at most nine labels and pointers reads back dotted, with the position after its own encoding |
| Dns.ReadsBackExactly | apptraffic/src/proto.c:40-90 | exactly which well-formed names read back |
| Dns.TenLabels | apptraffic/src/proto.c:40-90 | ten labels without a pointer send the caller to position 0 |
| Dns.EveryNameFits | apptraffic/src/proto.c:40-90 | no well-formed name takes as many steps as there are bytes |
| Dns.RootStops | apptraffic/src/proto.c:52-57 | a root name is an error, and nothing behind it is looked at |
| Dns.ParseResponse | apptraffic/src/proto.c:120-186 | the first A and AAAA answers of a response whose names all read back, in order, up to a root name; queries and empty answers give none |
| DnsMessages.ResponseRoundTrip | apptraffic/src/proto.c:120-186 | every encoded response below 64 KiB, compressed names included, gives back its first A and AAAA addresses with their owners, in order |
| ShellQuote.PlaceholderNamesValue | shcmd/src/shcmd.c:1302-1333 | {sa1} is the first value as one quoted word, {a1} the same value as it is, and so on to nine |
| ShellQuote.Substitute | shcmd/src/shcmd.c:1275-1361 | the loop replaces placeholders, refuses a slot that names a missing value, and steps over the end of one with a cut-off placeholder |
| ShellQuote.OutcomeExactly | shcmd/src/shcmd.c:1302-1357 | which of the three it is |
| ShellQuote.QuoteReadsValue | shcmd/src/shcmd.c:1318-1332 | outside quotes the shell reads a quoted value as that value and is outside quotes again |
| ShellQuote.WorksExactlyUnquoted | shcmd/src/shcmd.c:1318-1332 | quoting works for every value exactly at unquoted positions |
| ShellQuote.SubstitutionIsInert | shcmd/src/shcmd.c:1275-1361 | the substituted script is read as the template with each value as one inert word |
| ShellQuote.ValuesCannotChangeTheScript | shcmd/src/shcmd.c:1275-1361 | no choice of values changes what the shell interprets in the substituted script, or where it ends up |
| Vad.SortPrefix | voice/vad.c:119-128 | the insertion sort orders the frames and keeps how many are at most any bound |
| Vad.RankExact | voice/vad.c:119-130 | the middle frame is at most b exactly if more than half are |
| Vad.BaselineIsRobust | voice/vad.c:119-138 | a quiet majority gives a quiet noise floor, whatever the other frames are |
| Vad.Detector.Calibrate | voice/vad.c:106-148 | fifteen frames set the floor and both thresholds, once |
| Vad.Detector.Listen | voice/vad.c:164-188 | while someone speaks, enough silence ends the segment if 200 ms were voiced and cancels it otherwise; else only the limit of 15 s ends it |
| Vad.Detector.Process | voice/vad.c:81-195 | a segment ends only after the whole silence time unbroken behind enough speech, or at the length limit |
| Vad.ReachableStates | voice/vad.c:81-195 | silence never fills a segment; the floor is the median of fifteen frames, at least 20, and the thresholds are three and one and a half times that up to their caps |

## Left out

- Sockets, pcap, netlink, ALSA, HTTP clients, SQLite text, CGI output, UI and configuration: input and output only.
- malloc failure and buffer sizing: allocations are large enough.
- UploadProtocol: concurrent processes are steps on values; the retry loops are methods over these steps, without interference; the plain rename fallback and power-cut durability (fsync runs before fclose flushes) are not modelled.
- UploadProtocol: path length limits; a request path is far shorter than PATH_MAX.
- FlowAccounting: hash chains are a map; pruning of old rows by age is not modelled, so rows are never taken back.
- StreamHash: the round functions are a parameter; only their block-wise use is proved.
- IpFrag: the caller's output buffer is large enough.
- Capture: HTTP and signature streams of process_transport, which follow the same feed-and-consume pattern.
- StreamTable: hash chains are a map.
- Tracker: streams that are not TLS take part in the table only; when they finish is an input.
- StreamReader.Reader.CopyUntilBoundary: how much was written before a too-large or failed copy, which depends on the reads.
- Dns.ParseResponse: responses with names that contain NUL, point to the root, or do not read back by Dns.ReadsBackExactly get no promise.
- Vad: vad_frame_rms (floating-point square root) is an input; the detector alone need not reach DONE.
- JsonString: finding the content member in the reply, and surrogate pairs.
- ShellQuote: the shell rules cover quoting, comments and backquotes, not nested substitutions inside double quotes or here-documents.
- The conversation history ring, trigger debounce, retry wrappers, port tables, magic packet layout and argument parsing: easy members.
