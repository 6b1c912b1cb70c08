# A model of the Trojan proxy

The program relays TCP and UDP between local applications and a remote server that speaks the
Trojan protocol over TLS. These modules model the parts of it that hold state or compute something
that is easy to get wrong, and prove what those parts are for:

- `Words`, `Cidrs`, `IpSets`: turning an address range into CIDR blocks, and complementing a route
  set. The blocks partition the range and no shorter list exists; the complement is exact under a
  condition on the entries of the file that is also necessary.
- `Wire`, `UdpReassembly`: the Trojan request and UDP framing, and the backend that cuts datagrams
  out of a byte stream. Parsing and generating are inverse in both directions; what is sent does not
  depend on how the stream was split or when the socket blocked.
- `Status`, `Streams`, `Tls`, `ServerRelay`, `ProxyRelay`, `TunRelay`: the relay. Every read, write,
  connect and lookup may succeed in part, block or fail; over all runs the bytes in both directions
  are conserved in each of the three relays. In the two that couple their ends these stay coupled,
  each end has been given a prefix of what is meant for it, and an end that went down by draining all
  of it.
- `EndToEnd`: the relay next to the client and the one next to the target together.
- `SocketTables`, `UdpSessions`, `IdlePools`: tables that must agree while handles are reused,
  references counted and elements swapped away.
- `Queues`, `PingCheck`, `DnsCache`, `DomainMaps`, `EditJournal`: single-flight probing, coalesced
  queries, suffix matching and an edit journal that replays.

What the code does step by step is written as classes and methods; the functions they are proved
against (`Decode`, `Couple`, `Survivors`, `Blocked`, `Records`, ...) have their own laws as lemmas.
Bytes that only the proof talks about (what a peer has accepted so far, what was dispatched) are
ghost fields. What the network, the TLS library and the IP stack do is a nondeterministic choice.

Six results differ from what the code or its documentation suggests:

- `range_to_cidr` leaves 32-bit arithmetic for every range of two or more addresses that touches
  either end of the address space (`Cidrs.RangeToCidr`). With overflow checks that is a panic, which
  is how the model treats it. The release profile does not enable them: there `1 << 32` wraps to 1,
  so a range up to the last address gets a block of prefix 0 for that address, and for a range from
  address 0 on `ip - 1` wraps at 0 and the first loop does not end.
- `!set` is wrong for some nested entries: where a gap follows an entry that lies inside an earlier,
  longer one, covered addresses end up in the result (`IpSets.NestedEntryBreaksComplement`);
  `IpSets.IPSet.Complement` gives the exact condition on the entries in any order.
- A half-close shuts the server's socket although the TLS session may still hold output. The server
  gets everything exactly if it does not (`TunRelay.Connection.CheckHalfClose`,
  `TunRelay.LosingRun`).
- A CONNECT request that does not arrive whole in the first read is not waited for: its bytes go to the
  fallback address, unless only the line break at its end is missing or half missing: then the parser
  indexes past the end (`ServerRelay.TargetIffWholeRequest`, `Wire.RequestPanicIff`).
- `process_ingress` stops at a connected socket with data whose remote endpoint has no sender. The
  tables are coherent whatever the sockets are connected to, but a socket connected to another source
  than it was registered for can make it stop (`SocketTables.CrossedConnectionStops`).
- A second `merge_domains` in the same run forgets every edit (`EditJournal.SecondMergeForgets`).

## Model

| member | source | states |
|---|---|---|
| `Words.MaskClearsLowBits` | src/wintun/ipset.rs:49-51 | The mask of a prefix clears exactly the host bits: the result is aligned and within one block below the address |
| `Cidrs.New` | src/wintun/ipset.rs:41-51 | The block of an address: it is aligned, contains the address, stays in the word, and its computed range end is its last address |
| `Cidrs.SortCorrect` | src/wintun/ipset.rs:76-83 | The sorted list has the same entries, no more and no fewer, ordered by first address and, where that is equal, by last address |
| `Cidrs.TakeFromRight` | src/wintun/ipset.rs:177-187 | The first greedy loop panics exactly for ranges that touch an end of the address space; otherwise it covers a right part exactly once with at most 31 blocks, cuts no block inside the range in two, and leaves less than the next block at its right end |
| `Cidrs.TakeFromLeft` | src/wintun/ipset.rs:188-193 | The second greedy loop covers the rest, lands exactly on its end without overshooting, and adds at most 31 blocks |
| `Cidrs.RangeToCidr` | src/wintun/ipset.rs:170-196 | Defined if and only if the range is one address or touches neither end of the address space; then the sorted blocks cover each address of the range once and no other, every block inside the range lies inside one of them, and there are at most 62 |
| `Cidrs.FewestBlocks` | src/wintun/ipset.rs:170-196 | Disjoint blocks that absorb every block of another list covering them are at most as many as that list |
| `Cidrs.RangeIsMinimal` | src/wintun/ipset.rs:170-196 | No list of CIDR blocks covering exactly the range is shorter than the one computed |
| `IpSets.IPSet.Add` | src/wintun/ipset.rs:116-118 | Appends the block of the address, host bits cleared |
| `IpSets.IPSet.AddRange` | src/wintun/ipset.rs:127-133 | Appends a partition of the range, nothing for an empty range; fails exactly where the conversion panics |
| `IpSets.IPSet.Build` | src/wintun/ipset.rs:135-137 | Sorts the entries, by first address and then by last address |
| `IpSets.IPSet.CollectGaps` | src/wintun/ipset.rs:147-160 | The sweep never panics, covers the gap before every entry, each by blocks that cannot be enlarged within it, and remembers where the last entry ends |
| `IpSets.IPSet.Complement` | src/wintun/ipset.rs:147-167 | Succeeds exactly if the last entry in order ends at the last address or the one before it; then the sorted result fills the gaps before, between and after the entries. It is the complement of the entries as they were added, in any order, if and only if address 0 is covered and, wherever an entry lies inside another and ends before it, some entry goes on behind it |
| `IpSets.ComplementIff` | src/wintun/ipset.rs:147-167 | The result contains an address if and only if the set does not, for all 2^32 addresses, exactly when address 0 is covered and no gap follows an entry that an earlier one reaches beyond |
| `IpSets.NoStepBackIff` | src/wintun/ipset.rs:147-167 | That condition on the sorted entries, put for the entries in any order: wherever an entry starts behind another and ends before it, some entry starts inside the inner one or right behind it, or shares its start and is longer |
| `IpSets.ComplementOfEntries` | src/wintun/ipset.rs:147-167 | So the sweep over the sorted entries gives the complement of the unsorted ones exactly under that condition and with address 0 covered |
| `IpSets.SharedEndsSuffice` | src/wintun/ipset.rs:147-167 | It is met if any two entries that overlap share their first or their last address |
| `IpSets.SteppingBackLeaks` | src/wintun/ipset.rs:147-167 | Otherwise the address behind the entry that steps back is in both sets |
| `IpSets.NestedEntryBreaksComplement` | src/wintun/ipset.rs:147-167 | Concrete entries for which a covered address is in the complement |
| `IpSets.ComplementIsMinimal` | src/wintun/ipset.rs:147-167 | When the result is the complement its blocks are disjoint, and no list of CIDR blocks for the same addresses is shorter |
| `IpSets.InverseEnds` | src/wintun/ipset.rs:95-105 | The blocks added before inverting pin both ends of the sweep, so inverting a file never panics |
| `IpSets.ReservedCover` | src/wintun/ipset.rs:95-105 | The blocks added before inverting cover an address if and only if its octets say that it is of this network, private, loopback, link-local, multicast, reserved or broadcast |
| `IpSets.AllOthersIff` | src/wintun/ipset.rs:86-110 | A set has exactly the addresses that are neither in the file nor reserved if and only if it is the complement of file and reserved blocks |
| `IpSets.WithFile` | src/wintun/ipset.rs:86-110 | Without inversion the sorted entries of the file; with it always a result, which has exactly the addresses that are neither in the file nor reserved if and only if, wherever one of the unsorted entries lies inside another and ends before it, some entry goes on behind it |
| `Wire.ParseUdp` | src/proto.rs:303-341 | A datagram's payload lies where offset and length say; only a lone domain type byte makes the parser index past the end; waiting for more happens only below the largest frame |
| `Wire.ParseRequest` | src/proto.rs:62-134 | A request's payload starts at its offset; waiting for more happens only below the largest header |
| `Wire.GeneratedField` | src/proto.rs:405-424 | A generated address byte by byte: type 1 and the four octets or type 4 and eight segments, each with its high byte first, then the port, high byte first |
| `Wire.HeaderLayout` | src/proto.rs:389-394 | A generated datagram header: an address as above, the length with its high byte first, 13 and 10 |
| `Wire.RequestLayout` | src/proto.rs:136-144 | A generated request: the password, 13 and 10, the command byte, an address as above, 13 and 10 |
| `Wire.AddressRoundTrip` | src/proto.rs:164-223 | A generated address followed by anything parses to itself (flow label and scope zeroed) with its exact size |
| `Wire.ParsedAddress` | src/proto.rs:164-223 | Conversely, the bytes an address was parsed from are the wire form of that address, byte by byte: type, octets, segments or counted name, and port, high bytes first |
| `Wire.AddressFieldParses` | src/proto.rs:164-223 | Every wire form, counted names included, parses to its address whatever follows; a name that is the text of an IP address gives that address |
| `Wire.PacketIff` | src/proto.rs:303-341 | The parser answers with a datagram if and only if the input starts with the wire form of an address, a length up to 1480 with its high byte first, line break and that many bytes; all parts of the answer are determined |
| `Wire.UdpWaitsIff` | src/proto.rs:303-341 | It waits for more if and only if the input is a beginning of a frame as far as address type and length go; a lone domain type byte is the panic, all else is invalid |
| `Wire.RequestIff` | src/proto.rs:62-134 | The parser answers with a request if and only if the input starts with an accepted password, line break, command 1 to 3, the wire form of an address, line break; all parts of the answer are determined |
| `Wire.RequestOtherwise` | src/proto.rs:62-134 | It passes the input through exactly if that is short and mentions HTTP or its password is wrong, and waits exactly if it is short and does not, or goes on as a beginning of a request |
| `Wire.ParseFindsRequest` | src/proto.rs:62-134 | So what the parser answers is the request at the front of the input if there is one, and no request otherwise |
| `Wire.RequestPanicIff` | src/proto.rs:106-131 | The parser indexes past the end if and only if the input is an accepted password, line break, known command and address, followed by nothing or by half a line break |
| `Wire.CutIff` | src/proto.rs:106-144 | A beginning of a generated request makes the parser index past the end if and only if exactly its last or its last two bytes are missing |
| `Wire.RequestStable` | src/proto.rs:62-134 | A parsed request does not change when more bytes arrive, apart from its payload |
| `Wire.GenerateAddress` | src/proto.rs:410-424 | Appends the wire form of the address, which `Wire.GeneratedField` gives byte by byte |
| `Wire.GenerateUdp` | src/proto.rs:389-394 | Appends address, length and line break, laid out as in `Wire.HeaderLayout` |
| `Wire.GenerateRequest` | src/proto.rs:136-144 | Appends password, line break, command, address, line break, laid out as in `Wire.RequestLayout` |
| `Wire.UdpRoundTrip` | src/proto.rs:303-341 | A generated header with its payload and anything behind it parses back to address, extent and remainder; a payload over 1480 bytes is rejected |
| `Wire.RequestRoundTrip` | src/proto.rs:62-144 | A generated request followed by anything parses back to command, address (flow label and scope zeroed), exact offset and untouched remainder |
| `Wire.AddressStable` | src/proto.rs:164-223 | A parsed or rejected address does not change when more bytes arrive |
| `Wire.UdpStable` | src/proto.rs:303-341 | Nor does a parsed or rejected datagram, apart from what lies behind it |
| `UdpReassembly.UdpBackend.DoSend` | src/server/udp_backend.rs:58-133 | What was sent is the decoding of the bytes taken. It stops because the rest is no datagram yet (and less than a frame); because the datagram in front of the rest was tried now and the socket blocked on it, failed or sent another number of bytes; or because the rest can never be sent; and says which. The status changes in the last three cases only |
| `UdpReassembly.UdpBackend.Dispatch` | src/server/udp_backend.rs:137-145 | Until shutdown the bytes dispatched are those decoded into sent datagrams followed by the buffer; a shutdown has one of the reasons above, which concerns what follows the datagrams sent |
| `UdpReassembly.UdpBackend.CheckStatus` | src/server/udp_backend.rs:238-243 | Leaves the draining state only when no complete datagram is buffered, and then every datagram dispatched has been sent |
| `UdpReassembly.RunPieces` | src/server/udp_backend.rs:58-145 | For any split of the stream and any blocking, until shutdown what was sent is a prefix of the stream's datagrams, and all of them once the buffer holds no complete one; a run stops only at a send that failed or was cut short, or at something behind whole datagrams that can never be sent |
| `UdpReassembly.RunGenerated` | src/server/udp_backend.rs:58-145 | So on any beginning of a generated stream, split in any way, a run never stops unless a send failed or was cut short: the status stays, and the encodings of the datagrams sent plus the buffer are the bytes that arrived |
| `UdpReassembly.DecodeResumes` | src/server/udp_backend.rs:58-133 | Decoding may pause after any whole number of datagrams |
| `UdpReassembly.DecodeAppend` | src/server/udp_backend.rs:70-108 | One more datagram behind a whole number of them is decoded last |
| `UdpReassembly.DecodeEncode` | src/proto.rs:303-394 | Decoding undoes encoding of any list of datagrams, whatever follows |
| `UdpReassembly.DecodePrefix` | src/proto.rs:303-394 | From any prefix of a generated stream exactly the complete datagrams are decoded, and their encodings plus the rest are the prefix |
| `UdpReassembly.SentPlusBufferIsInput` | src/server/udp_backend.rs:58-145 | For a generated stream the encodings of the datagrams sent plus the buffer are the bytes dispatched |
| `Status.StatusProvider.PeerClosed` | src/status.rs:37-44 | Only a connecting or established end starts to drain |
| `Status.StatusProvider.Established` | src/status.rs:45-49 | Only a connecting end becomes established |
| `Status.StatusProvider.Shutdown` | src/status.rs:51-63 | Shuts down once, if the implementation lets it; true for an end that is down already |
| `Status.StatusProvider.CheckStatus` | src/status.rs:66-84 | A draining end moves only when drained and closable, and then straight on to deregistered if it can be; an end that is up is left alone |
| `Status.CoupleExactly` | src/server/connection.rs:172-183 | What the step does to each of two coupled ends: deregistered if it is down itself or drained behind a down peer, draining if undrained behind one, and as it was if both are up |
| `Status.RunsStayCoupled` | src/proxy/tcp_server.rs:264-271 | Over any run statuses only move forward, an end drains only for an end that is down, and no end is left half shut down |
| `Status.TeardownTakesOneStep` | src/server/connection.rs:172-183 | After any run one event takes both ends down exactly when each is down itself or has nothing left for a peer that is |
| `Status.UndrainedEndSurvives` | src/proxy/tcp_server.rs:264-271 | An end with pending output outlives its peer for as long as it stays undrained |
| `Streams.TcpSend` | src/tcp_util.rs:40-79 | A prefix of the data is accepted and the rest appended to the retry buffer, which happens only if the last write blocked; fails only after a write broke |
| `Streams.SendAll` | src/utils.rs:43-71 | Written plus kept is what was there; the buffer ends empty exactly if everything went out or the writer broke |
| `Streams.ReadOnce` | src/utils.rs:75-99 | One read appended to the buffer; its three answers tell data, blocked and ended apart |
| `Streams.CopyStream` | src/utils.rs:27-40 | Written plus buffered is what was buffered plus what was read, in order, unless the writer broke; the buffer is non-empty exactly if the writer blocked |
| `Tls.TlsConn.DoRead` | src/tls_conn.rs:162-226 | Reads until the socket blocks, ends or fails, and then hands out the next plaintext, all that is decrypted, in order and without gaps; the connection goes down exactly if the socket ended or failed or the session did |
| `Tls.TlsConn.DoSend` | src/tls_conn.rs:228-255 | Moves session output to the socket in order; unless still connecting nothing remains or a write made now blocked or failed; shuts down exactly if one failed |
| `Tls.TlsConn.WriteSession` | src/tls_conn.rs:257-268 | Queues all of the data, or a prefix of it and shuts down |
| `Tls.TcpRead` | src/tcp_util.rs:8-38 | Everything read is queued in the session, in order, or a prefix of it if the session failed; stops only because the socket blocked, ended or failed, or the session did |
| `ServerRelay.TcpBackend.Dispatch` | src/server/tcp_backend.rs:59-69 | Accepted by the target plus buffered is everything dispatched, old bytes first; something stays behind only after a blocked write made now; the backend goes down exactly if the socket broke, and has accepted a prefix |
| `ServerRelay.TcpBackend.DoSend` | src/server/tcp_backend.rs:51-55 | The same for the data at hand |
| `ServerRelay.TcpBackend.DoRead` | src/server/tcp_backend.rs:78-86 | Reads until the socket blocks or ends; every byte is queued for the client, in order, or a prefix of them if the session failed; the backend goes down exactly at the target's end; what is queued is pushed |
| `ServerRelay.Connection.TryHandshake` | src/server/connection.rs:229-276 | Fails exactly on a cut request. Otherwise, if the layout of a request is found at the front of the read, its command byte, its address and its length are taken, for all three commands; if none is, the read is a CONNECT to the fallback address with nothing cut off. A name is looked up, or its answer known, with the port in the request |
| `ServerRelay.TargetIffWholeRequest` | src/server/connection.rs:229-276 | Of a stream that starts with a generated CONNECT request the server takes the target if and only if the first read holds the whole request, and then cuts off exactly the request; if all but its last one or two bytes are there, and only then, the parser indexes past the end; with less nothing is cut off and the fallback address becomes the target |
| `ServerRelay.RewrittenInsertsLine` | src/server/connection.rs:302-330 | The rewrite of a request head for the fallback address puts one line in front of its last line break and changes nothing else |
| `ServerRelay.Connection.CachePiece` | src/server/connection.rs:298-333 | Client bytes join the cache as they are; only those for the fallback address may be rewritten |
| `ServerRelay.Connection.CacheAndConnect` | src/server/connection.rs:298-341 | Data is cached behind what is cached; with a known target the cache goes to a new backend as a whole, or the client's end is shut down; with an unknown one nothing else happens |
| `ServerRelay.Connection.TrySetupTcpTarget` | src/server/connection.rs:369-401 | A new backend is connected to the target and has been given the whole cache and nothing else; a failure shuts the client's end down and keeps the cache |
| `ServerRelay.Connection.Dispatch` | src/server/connection.rs:278-367 | From any phase, the client's bytes after the header, rewritten at most for the fallback address, are those handed to the backend or those cached; fails exactly on a first read that is a cut request; a known target never changes, and with a known target there is a backend or the client's end is shut down |
| `ServerRelay.Connection.TryReadProxy` | src/server/connection.rs:218-227 | One read, all of it dispatched; conservation, the two ends and the target's origin are kept |
| `ServerRelay.Connection.TryResolve` | src/server/connection.rs:186-212 | An answer finds the connection waiting for a name, so the error branches are dead; its octets or segments with the port in the request become the target, once, and the cache is handed over or the client's end goes down; a failed lookup shuts the client's end down |
| `ServerRelay.Connection.OnProxyWriteable` | src/server/connection.rs:124-140 | The end is connected, output is pushed until it is empty or a write made now blocks or fails, and a read owed to the target is made as soon as the client can take it |
| `ServerRelay.Connection.OnProxyEvent` | src/server/connection.rs:110-140 | No readable event is lost: it is read now if the target can take it, and otherwise remembered; a writeable one pushes the output |
| `ServerRelay.Connection.OnBackendWriteable` | src/server/connection.rs:154-166 | Buffered bytes are retried until they are gone or a write made now blocks, and a read owed to the client is made as soon as the target can take it |
| `ServerRelay.Connection.OnBackendEvent` | src/server/connection.rs:141-166 | The same for events of the target; none is lost, and it is read now if the client can take it |
| `ServerRelay.Connection.HandleIo` | src/server/connection.rs:106-170 | Whatever the event does, the bytes of both directions are conserved, each end's status makes only allowed moves, owed reads are kept, a readable event is read now unless the other end cannot take it, and a writeable one pushes |
| `ServerRelay.Connection.CoupleEnds` | src/server/connection.rs:172-183 | The two ends make exactly the coupled step, with their own output deciding whether they are drained |
| `ServerRelay.Connection.Ready` | src/server/connection.rs:99-184 | Every event keeps conservation in both directions and coupling, reads and pushes as above; a backend that went down by draining has delivered all client bytes after the header unless they were for the fallback address, a client end that did all bytes read from the target |
| `ServerRelay.Connection.Destroy` | src/server/connection.rs:70-77 | Both ends are deregistered |
| `ServerRelay.Serve` | src/server/connection.rs:99-401 | Over any run, timeouts included: the parser fails only on a cut first read; otherwise that read decides command, address and header by the layout of a request, and what is none is a CONNECT to the fallback address. While the target is unknown all bytes after the header are cached; once it is known there is a backend for it or the client's end is down. Accepted by the target, then buffered, then cached are the client's bytes after the header, as they came for any address but the fallback, for every chunking, lookup delay and partial write, and a drained backend delivered them all; on the wire, then queued are the bytes read from the target, likewise; each end always got a prefix. An end goes down for a failure, an end of file or a timeout, or by draining, and not otherwise |
| `ProxyRelay.Connection.Setup` | src/proxy/tcp_server.rs:189-205 | The request with command 1 and the address asked for is queued in front of everything the client will send |
| `ProxyRelay.Connection.DoSendClient` | src/proxy/tcp_server.rs:314-318 | Bytes for the client are accepted or kept; kept only after a write made now blocked |
| `ProxyRelay.Connection.HandOn` | src/proxy/tcp_server.rs:294-303 | Bytes for a client that is connected are written behind what is buffered, and stay behind only if a write made now blocked; for one that is not connected yet they are appended to the buffer |
| `ProxyRelay.Connection.TrySendClient` | src/proxy/tcp_server.rs:294-312 | Buffered bytes go first; afterwards the buffer is empty or a write made now blocked, unless the client is connecting or gone; a read owed to the server is made once the client takes everything |
| `ProxyRelay.Connection.TryReadServer` | src/proxy/tcp_server.rs:320-324 | What was read from the server is handed on |
| `ProxyRelay.Connection.TryReadClient` | src/proxy/tcp_server.rs:278-292 | What was read from the client is queued for the server behind the request |
| `ProxyRelay.Connection.TrySendServer` | src/proxy/tcp_server.rs:326-335 | Output is pushed until it is empty or a write made now blocks or fails, and a read owed to the client is made once the server can take it |
| `ProxyRelay.Connection.HandleIo` | src/proxy/tcp_server.rs:219-263 | Both directions are conserved, owed reads are kept, each status makes only allowed moves; a writeable event connects its end and leaves nothing buffered for it unless a write made now blocked or failed; a readable one is read now if the other end can take it |
| `ProxyRelay.Connection.CoupleEnds` | src/proxy/tcp_server.rs:264-271 | The two ends make exactly the coupled step |
| `ProxyRelay.Connection.Ready` | src/proxy/tcp_server.rs:219-272 | Every event keeps conservation in both directions and the coupling, writes and reads as above |
| `ProxyRelay.Connection.Destroy` | src/proxy/tcp_server.rs:182-187 | Both ends are deregistered |
| `ProxyRelay.Serve` | src/proxy/tcp_server.rs:219-335 | Over any run, timeouts included, both directions conserve their bytes, each end always got a prefix of what was meant for it, statuses only move forward, and an end that went down by draining, on either side, got everything; an end is shut down by a failure, an end of file or a timeout and not otherwise |
| `EndToEnd.TargetIffHeaderInFirstRead` | src/server/connection.rs:229-276 | In all states of the two sides the server goes for the address the proxy asked for if and only if the whole request was in its first read, and for the fallback address otherwise |
| `EndToEnd.Transparent` | src/proxy/tcp_server.rs:189-335 | If it was, then in all states of the two sides, whatever broke, the target got a prefix of what the client sent and the client a prefix of what the target sent; all of it if the ends in that direction went down by draining and the network delivered everything |
| `EndToEnd.Relay` | src/proxy/tcp_server.rs:189-335 | For every pair of runs from new connections, with any events and any outcomes on either side: both sides end valid, the target is the one asked for exactly if the whole request was in the first read, everything in the row above holds, and the server failed only on a first read without the request's last one or two bytes |
| `TunRelay.Connection.CloseStream` | src/wintun/tcp.rs:97-111 | Closes one side; closing twice changes nothing; what the session holds when its socket is shut is recorded |
| `TunRelay.Connection.CheckHalfClose` | src/wintun/tcp.rs:273-288 | Afterwards no side is open behind a closed one unless bytes for it are buffered, and only such sides were closed; a remote side closed here has accepted everything, and its socket took everything if and only if the session held nothing |
| `TunRelay.Connection.FlushRemote` | src/wintun/tcp.rs:148-159 | A failed flush closes the remote side and nothing else; otherwise the session may keep output |
| `TunRelay.Connection.LocalToRemote` | src/wintun/tcp.rs:161-187 | On an established connection the local side is read until it blocks or ends, or a write made now keeps bytes behind or breaks; what was read is accepted or buffered, buffered only after a blocked write made now; the remote side is flushed; the local side is closed only at its end with nothing buffered |
| `TunRelay.Connection.RemoteToLocal` | src/wintun/tcp.rs:232-256 | The same in the other direction; the local side is closed on the other's account only when it has everything |
| `TunRelay.Connection.DoLocal` | src/wintun/tcp.rs:113-130 | After the event half-close is complete, and a side closed because the other finished was given all its bytes; they reached the server exactly if the session held nothing |
| `TunRelay.Connection.Establish` | src/wintun/tcp.rs:193-216 | One write puts a prefix of the request in front of all local bytes, the whole of it exactly if the session accepted that many bytes; otherwise both sides are closed |
| `TunRelay.Connection.OnRemoteWriteable` | src/wintun/tcp.rs:191-220 | Establishes the connection at most once, then relays; returns early only with both sides closed |
| `TunRelay.Connection.DoRemote` | src/wintun/tcp.rs:189-230 | As for the local event |
| `TunRelay.Serve` | src/wintun/tcp.rs:113-288 | Over any run: the remote session accepted the part of the request that its one write took and then, up to what is buffered, every byte read locally, and all of them once the local side is closed and nothing is buffered, when the remote is closed too; likewise the other way round. The server's socket took a prefix, whatever broke, and after a half-close everything due exactly if the session held nothing back |
| `TunRelay.HalfCloseLosesBytes` | src/wintun/tcp.rs:273-280 | After a half-close while the session cannot pass on its last byte, that byte never reaches the server, whatever happens afterwards |
| `TunRelay.LosingRun` | src/wintun/tcp.rs:97-288 | A run from a new connection, by outcomes that its steps allow, that loses a byte in this way |
| `SocketTables.TunDevice.EnsureTcpSocket` | async_smoltcp/src/device.rs:174-192 | A new source gets a socket in a free slot and one entry in every table; a known one changes nothing |
| `SocketTables.TunDevice.EnsureUdpSocket` | async_smoltcp/src/device.rs:194-212 | The same for UDP targets |
| `SocketTables.TunDevice.AcceptTcp` | async_smoltcp/src/device.rs:214-229 | One stream per new source with its destination; afterwards the senders have exactly the keys of the table; no lookup fails |
| `SocketTables.TunDevice.AcceptUdp` | async_smoltcp/src/device.rs:231-240 | The same for UDP |
| `SocketTables.TunDevice.CollectFinished` | async_smoltcp/src/device.rs:302-383 | Fails exactly if a connected socket with data has no sender for its remote endpoint; otherwise collects exactly the remote endpoints of inactive sockets, the finished UDP endpoints and the handles without a remote endpoint, no handle twice |
| `SocketTables.TunDevice.ProcessIngress` | async_smoltcp/src/device.rs:302-393 | Unless the pass fails, removes exactly the UDP sockets that are finished, the TCP sockets without a remote endpoint, and those whose source an inactive socket is connected to; keeps all tables coherent whatever sockets are connected to, removes no handle twice; where remote endpoints are registered sources it never fails and removes exactly the finished sockets |
| `SocketTables.TunDevice.FlushTcp` | async_smoltcp/src/device.rs:395-433 | Keeps responses of registered sources and drops all others; every registered socket exists |
| `SocketTables.TunDevice.FlushUdp` | async_smoltcp/src/device.rs:435-455 | Removes exactly the targets with a packet that was empty or failed |
| `SocketTables.TunDevice.ProcessEgress` | async_smoltcp/src/device.rs:395-456 | Drops exactly the responses of sources without a socket and the targets with a failed packet, keeping the tables coherent |
| `SocketTables.TunDevice.RemoveTcp` | async_smoltcp/src/device.rs:466-475 | Removes the source's live socket with its entries, all other sockets stay |
| `SocketTables.TunDevice.RemoveTcpHandle` | async_smoltcp/src/device.rs:458-464 | Removes the socket registered for the handle's source and the handle's entry; for a live handle exactly its own socket, never another that reused a slot |
| `SocketTables.TunDevice.RemoveUdp` | async_smoltcp/src/device.rs:477-485 | Removes the target's live socket with its entries |
| `SocketTables.TunDevice.Preprocess` | async_smoltcp/src/device.rs:547-557 | A connection request of a new source leaves it waiting with the destination it asked for, a datagram for a new target leaves that waiting; anything else changes nothing |
| `SocketTables.TunDevice.Receive` | async_smoltcp/src/device.rs:284-300 | The packets of a round add, in order, every new source once with the destination it asked for first, and every new target once |
| `SocketTables.TunDevice.Poll` | async_smoltcp/src/device.rs:284-300 | One round from any coherent state, with any behaviour of the IP stack, packets or none, ends in a coherent state in which the senders have exactly the keys of the tables; the streams accepted are exactly the waiting and the new sources with the destinations they asked for, the sockets exactly the waiting and the new targets; it fails only where the pass over the sockets does |
| `SocketTables.Serve` | async_smoltcp/src/device.rs:284-485 | Over any rounds and any behaviour of the IP stack the two TCP tables are inverse to each other on live handles, stale entries notwithstanding, every registered endpoint has a live socket of its kind, and the senders have exactly the keys of the tables; a run stops only at a connected socket with data whose remote endpoint has no sender |
| `SocketTables.RegisteredRemotesSuffice` | async_smoltcp/src/device.rs:302-393 | If every connected socket is connected to its registered source, all senders are known and what goes is what is finished |
| `SocketTables.CrossedConnectionStops` | async_smoltcp/src/device.rs:302-393 | If the socket registered for one source is connected to another and inactive, the other's socket is removed in its place and the next pass fails |
| `UdpSessions.DropFromCount` | src/wintun/udp.rs:402-419 | Removing a live connection finds its handle with a count above zero, and the decremented count is exact |
| `UdpSessions.UdpServer.OnDatagram` | src/wintun/udp.rs:332-379 | A new source draws one token and gets one connection in both tables and one reference; a known one changes none of them; the tables stay coherent if and only if no live connection has the token drawn; a closed connection is noted for removal |
| `UdpSessions.UdpServer.DoLocal` | src/wintun/udp.rs:317-381 | With fresh tokens for the new sources, afterwards exactly the sources of the packets have been added, all belonging to this handle; older connections are as they were; exactly the connections that a packet closed are noted for removal |
| `UdpSessions.UdpServer.DoRemote` | src/wintun/udp.rs:383-400 | Notes a closed live connection for removal, and nothing else |
| `UdpSessions.UdpServer.RemoveConn` | src/wintun/udp.rs:403-413 | Removes one connection from both tables and one reference |
| `UdpSessions.UdpServer.RemoveClosed` | src/wintun/udp.rs:402-419 | Removes exactly the closed connections; the counts stay exact |
| `UdpSessions.UdpServer.CheckTimeout` | src/wintun/udp.rs:294-315 | Forgets exactly the handles idle for ten minutes that no live connection uses |
| `UdpSessions.Serve` | src/wintun/udp.rs:294-419 | Over any number of rounds, until a token is drawn that is still in use, both tables hold the same connections and every count is the number of live connections of its handle; that does not happen while there are fewer datagrams than tokens |
| `IdlePools.SwapRemove` | src/idle_pool.rs:185 | What lies before the index is untouched, what lay behind it is all still there |
| `IdlePools.RemovalStep` | src/idle_pool.rs:183-186 | In descending order every removal hits the connection that was found, and behind it exactly the survivors remain |
| `IdlePools.IdlePool.NextIndex` | src/idle_pool.rs:103-110 | Indices run in a circle within their bounds |
| `IdlePools.IdlePool.Alloc` | src/idle_pool.rs:86-101 | Appends exactly the connections of the successful attempts, in order, never beyond the pool's size, each under the index drawn for it; a connection that cannot be registered uses up an index too |
| `IdlePools.MadeIndices` | src/idle_pool.rs:86-129 | The indices of the connections made at a time are in the circle and all different, as long as the circle has as many as there are attempts |
| `IdlePools.MadeCount` | src/idle_pool.rs:86-101 | The pool is filled exactly if every attempt succeeds, and gets nothing exactly if none does |
| `IdlePools.IdlePool.Get` | src/idle_pool.rs:75-84 | Takes the last of what was there and what the first successful round made, and loses no other; gives up only if the pool was empty and every attempt failed |
| `IdlePools.IdlePool.CheckTimeout` | src/idle_pool.rs:166-187 | Afterwards every connection that is not deregistered is there as often as before, and no other; no index is out of range |
| `PingCheck.CheckRoutine.OnRequest` | src/aserver/ping.rs:47-64 | A recent result is answered at once; otherwise the requester queues, and a check starts exactly if none is in flight for the address |
| `PingCheck.CheckRoutine.OnResponse` | src/aserver/ping.rs:65-74 | Everyone waiting for the address gets the result once, in order, and the address has no check in flight any more |
| `PingCheck.Serve` | src/aserver/ping.rs:33-76 | Over any interleaving of requests and responses from the start an address has waiters exactly while its one check is in flight; for each address and requester the results sent are at most the requests received, and as many for an address without a check in flight |
| `Queues.AnswerConserves` | src/dns/server.rs:405-415 | Answering everyone in one queue keeps requests equal to answers plus waiters, for each key and requester |
| `PingCheck.BetweenExtends` | src/aserver/ping.rs:82-91 | The average stays between any bounds of the costs |
| `PingCheck.RunningAverageClose` | src/aserver/ping.rs:82-91 | The running average a of k costs with total S, truncated at every step, has k*a <= S <= k*a + k(k-1)/2, and lies between any bounds of the costs |
| `PingCheck.DoCheck` | src/aserver/ping.rs:79-100 | Counts the lost pings and computes the running average of the answered ones, close to the true one as in the row above |
| `DnsCache.DnsServer.OnQuery` | src/dns/server.rs:305-345 | A stored response is sent at once under the asker's id, changes nothing else in the store, and is renewed only when expired; otherwise the client is queued exactly if the query was forwarded, and only the first one to wait sets a time; a query goes to the trusted server exactly if its name is blocked |
| `DnsCache.DnsServer.AnswerNow` | src/dns/server.rs:305-320 | The stored response is about the key asked for and goes out once, under the asker's id |
| `DnsCache.DnsServer.OnResponse` | src/dns/server.rs:405-443 | Every client waiting for the key gets the response once, under its own id, in order; the queue is emptied and the response stored for as long as its last record lives; a repeated response reaches nobody |
| `DnsCache.DnsServer.SendToAll` | src/dns/server.rs:406-415 | One message per waiting client, each with its own id |
| `DnsCache.DnsServer.AddRequest` | src/dns/server.rs:499-515 | Appends the client to its key's queue; the time of an existing entry stays |
| `DnsCache.Serve` | src/dns/server.rs:305-443 | Over any interleaving of queries and responses from the start: for each key, address and id the messages sent are at most the queries received; once a response for the key is stored, they are at least the forwarded ones and exactly those accepted |
| `DomainMaps.DomainMap.AddDomain` | src/dns/domain.rs:14-16 | Adds the name |
| `DomainMaps.DomainMap.Contains` | src/dns/domain.rs:18-32 | True if and only if some suffix of the name without a trailing dot that starts at a label and has at least two labels is listed; so a name gets the same answer with and without a trailing dot |
| `DomainMaps.DomainMap.AnySuffix` | src/dns/domain.rs:26-31 | The loop finds a listed suffix exactly if there is one |
| `DomainMaps.JoinSplit` | src/dns/domain.rs:18-32 | Joining the labels gives back the name |
| `DomainMaps.SplitTrailingDot` | src/dns/domain.rs:20-25 | A trailing dot adds exactly one empty label |
| `DomainMaps.ListedBlocksBelow` | src/dns/domain.rs:26-31 | A listed name with a dot blocks itself and every name below it |
| `EditJournal.Context.AddDomain` | mobile/src-tauri/src/lib.rs:104-117 | The domain is blocked, and the saved lists still say exactly how the set differs from the base |
| `EditJournal.Context.RemoveDomain` | mobile/src-tauri/src/lib.rs:119-132 | The domain is not blocked, and the saved lists still say exactly how the set differs from the base |
| `EditJournal.Context.MergeDomains` | mobile/src-tauri/src/lib.rs:54-74 | Adds the one list, then removes the other, and keeps of both the entries that changed something |
| `EditJournal.MergeRecords` | mobile/src-tauri/src/lib.rs:54-74 | Merging onto any base leaves a valid record exactly if no domain outside the base is in both saved lists |
| `EditJournal.MergeReplays` | mobile/src-tauri/src/lib.rs:54-74 | Merging a record onto its base rebuilds the edited set and keeps both lists |
| `EditJournal.SecondMergeForgets` | mobile/src-tauri/src/lib.rs:54-74 | A second merge in the same run empties both lists, so the edits are still recorded exactly if there were none |
| `EditJournal.EditAndRestart` | mobile/src-tauri/src/lib.rs:54-132 | Start with saved lists, any edits, restart: the same set and the same lists |

## Left out

Modelled as nondeterministic results or parameters:

- Sockets, TLS sessions, polling, runtimes, timers and the IP stack: each call moves some bytes, blocks or fails.
- The password check, the search for "HTTP" in a short first read and the parsing of a name as an IP address are arbitrary functions. Of the X-Forwarded-For rewrite so are the end of a request head, which is where the HTTP parser finds it, and the text of the line.
- Indexing past the end of a slice is an outcome of its own (`RequestPanic`, `UdpPanic`), and so is the arithmetic panic of the range conversion.
- Tokens wrap around; what is proved about the UDP sessions holds until one is drawn that is still in use.
- The resolver answers each question once, and the network between proxy and server delivers in order.
- The bytes a stream delivers within one call are finite, which is what makes the read loops end.

Not modelled:

- Prefixes outside 1 to 32 (a prefix of 0 shifts by the word size) and lines of a route file that do not parse.
- ServerRelay.Connection.SetupOther: only moves to the phases of the other two commands; their backends are not followed inside the connection. The UDP backend is modelled on its own, without its reading direction and the hole-punching switch.
- Statistics, idle timers, waker modes and the registration of sockets with the poll.
- The choice of endpoints and the parts of `parse_endpoint` that see incomplete input, which it reports as invalid.
- The hand-written header and body caching in `wintun/udp.rs`, which does not conserve bytes on every partial write.
- In `IdlePools` the events of single connections and the address updates; what a pooled connection's next check will find is fixed when it is made.
- Hosts-file and reverse-lookup branches of the DNS server, and adding routes for answers.
- Errors of the settings store and `search_domain` in `mobile/src-tauri/src/lib.rs`.
- The bypass decision, which depends on map order and floating point.
- The second copies of the protocol, adapter and DNS code for the mobile clients.
- Status changes of `ServerRelay` and the other relays use the status functions that `Status.StatusProvider` is proved against, with `close_conn` and `deregister` answering true as in every implementation.
