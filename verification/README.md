# Verified models of GOST's stateful cores

GOST is a tunnelling proxy. This project models the parts of it where state is updated step by
step and has to agree with something simple: the TLS-obfuscating transport, the connection and
traffic limiters, routes and selectors, the three host name lookups, relay tunnels and the framing
layers. Objects whose methods update fields are classes, in-place buffers are arrays, loops are
loops; each method is proved against a function or a predicate, and the promises of the code are
lemmas about those. Panics, endless loops and error returns of the code are results of the model.
Two write loops have a precondition that rules out spinning instead. `TrafficConn.ServerConn.Write`
(with `Read`) asks for positive bursts: `TrafficConn.ObtainedGoesOn` shows them of every group the
traffic limiter hands out, and `TrafficConn.HeldGoesOn` that they stay positive for as long as the
group is held, through any lookups, expiries and reloads. `Dtls.Conn.Write` asks for a positive
buffer size, which the configuration sees to (dialer/dtls/metadata.go:22-25).

| File | Models |
|---|---|
| `TlsParser.dfy` | the client's record automaton, and the parser that runs it inside the caller's buffer |
| `TlsRecords.dfy` | the language the automaton accepts, chunking, and what the returned count means |
| `TlsTunnel.dfy`, `TlsEndToEnd.dfy` | both ends of the transport and both directions of the stream; the same on the objects |
| `ConnLimits.dfy`, `ConnLimitRuns.dfy`, `ConnLimitReloads.dfy`, `ConnLimiter.dfy` | connection limits: which apply, all interleavings of accepts and closes, and of reloads, the objects |
| `TrafficLimiter.dfy`, `TrafficConn.dfy` | the reloadable cache of rate limiters, and the connection that cuts reads and writes |
| `Routes.dfy` | routes nested at multiplexed nodes, connecting hop by hop, failure marks |
| `Selection.dfy` | filters, weighted draw, strategies |
| `SuffixLookup.dfy` | domain matcher, host table, ingress rules |
| `TunnelRetry.dfy` | tunnel connectors taken in turn, cleaning, retries |
| `RelayFraming.dfy`, `Dtls.dfy` | length-prefixed datagrams; re-buffered DTLS records |
| `Bytes.dfy`, `Modular.dfy`, `Options.dfy`, `Ranger.dfy` | byte strings, counters modulo a length, missing values, networks as bit prefixes |

Where the code departs from its description, the model follows the code:

- The client's parser returns the number of trailing header bytes instead of the payload count when
  a buffer ends inside a header that follows payload (dialer/obfs/tls/conn.go:128-134).
  `TlsRecords.DeliveredIsPayload` gives the exact condition, `TlsRecords.DeliveredLoses` an input.
- The parser spins exactly when some multiple of 64 KiB of its buffer is left unread inside a record
  body (dialer/obfs/tls/conn.go:105): `TlsParser.StallsExactly`; `TlsRecords.HelloStalls` is an input.
- An empty data record is read, and the byte after it makes the parser index past its tables
  (dialer/obfs/tls/conn.go:97-102 and 67): `TlsRecords.OutOfRangeExactly` says when this happens,
  `TlsRecords.EmptyRecordThenByte` is an input.
- The length field of a record has 16 bits, so a first write too long for its hello does not arrive
  (dialer/obfs/tls/conn.go:205-210): `TlsTunnel.HelloArrives`, `TlsTunnel.LongHelloIsRefused`.
- The server's first non-empty write sends only its first 16384 bytes and still reports all of them
  (listener/obfs/tls/conn.go:149-154): `TlsTunnel.AcceptedIsEverything`.
- A release that reads a counter over its limit stops before the later counters
  (limiter/conn/limiter.go:23-31 and 47-51), so a place can be lost for good:
  `ConnLimitRuns.ContentionLeaks`. `ConnLimitRuns.ExcessIsLost` counts the places a run loses.
- A reload gives the connection limiter new counters (limiter/conn/conn.go:189-221), and connections
  accepted before stay on the old ones: the limits hold for each loaded configuration by itself, and
  in all the connections of a host can reach the sum of them: `ConnLimitReloads.ReloadsAddUp`.
- A lookup in the traffic limiter that overlaps a reload can store its limiter after it
  (limiter/traffic/traffic.go:157-167 and 428-433): `TrafficLimiter.HostCache.ReloadDuringLookup` says
  when the cache still agrees with the table; the next reload puts it right.
- A reload sets cached per-connection rates to the previous configuration's
  (limiter/traffic/traffic.go:308-338): `TrafficLimiter.ConnRateIsStale`,
  with `TrafficLimiter.ReloadLeavesStale` an example.
- A traffic-limited connection that loses its limiter reads past what it kept
  (limiter/traffic/wrapper/conn.go:65-68): `TrafficConn.UnlimitedReadKeepsOrder`.
- A route that passes a multiplexed node no longer knows its chain (chain/chain.go:99), so
  connecting through it leaves the chain's marker alone: `Routes.ChainIsKnown`.
- The comment on `FailFilter` says "greater than MaxFails"; the code drops candidates that failed
  that often (selector/filter.go:54): `Selection.MoreThanMaxFails`.
- `Lookup` of the host table declares a result `ok` that nothing sets (hosts/hosts.go:107-156).

## Model

| member | source | states |
|---|---|---|
| TlsParser.LengthField | dialer/obfs/tls/conn.go:84-96 | a length field read byte by byte holds its big endian value, for every record after the first two |
| TlsParser.RunSplit | dialer/obfs/tls/conn.go:58-126 | split independence: reading two pieces one after the other gives the state, payload, trailing count and verdict of reading them joined |
| TlsParser.RunBody | dialer/obfs/tls/conn.go:104-124 | taking a record body in one step is taking it byte by byte; bodies of the third record on are payload |
| TlsParser.StallsExactly | dialer/obfs/tls/conn.go:104-124 | the loop comes to a point where the 16 bit truncation leaves it nothing to take exactly when, after some n bytes, the automaton is inside a record body and a multiple of 64 KiB is left |
| TlsParser.ObfsTLSParser.ParseHeader | dialer/obfs/tls/conn.go:66-103 | one header byte moves the parser's fields as the automaton says, with the same error or index panic |
| TlsParser.ObfsTLSParser.ParseBody | dialer/obfs/tls/conn.go:104-124 | the overlapping shift closes the gap before the body and keeps everything behind it |
| TlsParser.ObfsTLSParser.Parse | dialer/obfs/tls/conn.go:58-135 | for a buffer of any length the in-place parser spins exactly when some multiple of 64 KiB is left unread inside a record body; otherwise it ends in the byte automaton's state and verdict, with exactly its payload at the front of the buffer followed by the bytes read since, and the rest of the buffer untouched |
| TlsRecords.RunRecords | dialer/obfs/tls/conn.go:58-126 | every well formed record sequence is read without error to its boundary, and the payload is the bodies in order, hello and change cipher spec skipped |
| TlsRecords.HeaderIsChecked | dialer/obfs/tls/conn.go:34-103 | byte by byte what is checked of each of the four headers, with the error of each wrong byte: the types 0x16, 0x14, 0x16, 0x17, the version 3.1 and then 3.3, a length of at most 16384 from the third record on; the first two lengths are taken as 91 and 1 |
| TlsRecords.AcceptedAreRecords | dialer/obfs/tls/conn.go:58-126 | completeness: bytes that are read without error up to a record boundary are the encoding of well formed records, which the lemma returns |
| TlsRecords.LanguageOfTheParser | dialer/obfs/tls/conn.go:34-126 | the bytes accepted from a record boundary to a record boundary are exactly the encodings of well formed record sequences |
| TlsRecords.ChunksDoNotMatter | dialer/obfs/tls/conn.go:216-228 | any sequence of chunks ends in the state, payload and verdict of the whole stream |
| TlsRecords.PrefixOfAccepted | dialer/obfs/tls/conn.go:58-126 | a prefix of an accepted stream is accepted and its payload is a prefix of the payload |
| TlsRecords.DeliveredIsPayload | dialer/obfs/tls/conn.go:128-134 | the caller is handed the payload exactly when there is none, the buffer ends in payload, or as many header bytes follow as there is payload |
| TlsRecords.DeliveredLoses | dialer/obfs/tls/conn.go:128-134 | a four byte buffer of which one of three payload bytes is reported |
| TlsRecords.TailIsOneHeader | dialer/obfs/tls/conn.go:58-134 | once there is payload, the bytes since its end are the beginning of at most one header |
| TlsRecords.SmallBuffersNeverStall | dialer/obfs/tls/conn.go:105-108 | no buffer below 64 KiB makes the parser spin, in any state |
| TlsRecords.HelloStalls | dialer/obfs/tls/conn.go:105-108 | from the start, every buffer of 65541 bytes that begins with the header of a hello makes it spin |
| TlsRecords.OutOfRangeExactly | dialer/obfs/tls/conn.go:66-103 | the tables are left exactly on streams that go on after well formed records the last of which is an empty one where data is expected |
| TlsRecords.EmptyRecordThenByte | dialer/obfs/tls/conn.go:97-102 | an empty data record is accepted and any byte after it panics |
| TlsTunnel.SendRecords | listener/obfs/tls/conn.go:135-159 | the record loop emits the cached hello and the first record and stops, or all records of the data |
| TlsTunnel.SplitRecords | dialer/obfs/tls/conn.go:240-264 | every data record holds 1 to 16384 bytes with a matching length field, is well formed for the client, and the bodies concatenate to the data |
| TlsTunnel.AcceptedIsEverything | listener/obfs/tls/conn.go:149-154 | the server's writes all reach the stream exactly when the first non-empty one is at most 16384 bytes |
| TlsTunnel.ServerToClient | listener/obfs/tls/conn.go:91-160 | for every sequence of server writes the client reads hello, change cipher spec and data without error to a record boundary, and its payload is what the server accepted |
| TlsTunnel.ServerToClientAnyChunks | listener/obfs/tls/conn.go:91-160 | at every moment, whatever part of the stream arrived and however cut: no error, no empty data record, and a prefix of the accepted bytes; all of them when all has arrived |
| TlsTunnel.ReadsDeliverPayload | dialer/obfs/tls/conn.go:216-228 | on every run without an error: what `Read` hands out is exactly the payload after every chunk if and only if no chunk ends inside a header that follows payload |
| TlsTunnel.ClientIsHanded | dialer/obfs/tls/conn.go:216-228 | from the server's writes to the client's caller, for whatever part of the stream arrived: no read below 64 KiB spins, and unless a chunk ends inside a header the caller holds a prefix of what the server accepted; once all arrived it holds all of it, which is all writes when the first fits one record |
| TlsTunnel.ReadConserves | listener/obfs/tls/conn.go:112-127 | a server read neither loses nor repeats nor moves a byte, handshake included, and reports the end only when nothing is left |
| TlsTunnel.ReadsConserve | listener/obfs/tls/conn.go:112-127 | the same over every sequence of buffer sizes |
| TlsTunnel.ClientToServer | dialer/obfs/tls/conn.go:230-266 | for every sequence of client writes whose hello fits its length field, and of read buffer sizes, the server is handed a prefix of their concatenation, the first write from the ticket, and all of it when told that the stream ended |
| TlsTunnel.HelloArrives | dialer/obfs/tls/conn.go:205-210 | the hello's record is read whole exactly when the hello is below 64 KiB |
| TlsTunnel.LongHelloIsRefused | listener/obfs/tls/conn.go:42-56 | of a longer one, cut by its length field, nothing is delivered: the server reports a bad hello, provided the decoder notices the cut |
| TlsTunnel.AgreesDelivers | dialer/obfs/tls/conn.go:128-134 | the bytes the parser's count covers are those of the specification |
| TlsTunnel.HandshakeInBytes | listener/obfs/tls/conn.go:42-110 | the server's handshake in bytes: the error and what is left for an incomplete record, a wrong type and a bad hello; after a good one the ticket is queued for reading, and a 0x16 record of the hello and a 0x14 record of one byte 1 for writing |
| TlsTunnel.TakeProgresses | listener/obfs/tls/conn.go:117-126 | a read hands over as much as there is room for of what is left over, else of the next record, and reports the end only when neither is there |
| TlsEndToEnd.ServerWrites | listener/obfs/tls/conn.go:91-160 | on the object: any writes of a new server connection whose peer sent a good hello put bytes on the wire that the client's automaton reads without an error, with the writes as payload, only the first non-empty one cut, to 16384 bytes; they begin with the hello record |
| TlsEndToEnd.ClientReads | dialer/obfs/tls/conn.go:216-228 | on the object: reading chunk by chunk hands over a prefix of what the server accepted, and all of it when all has arrived, as long as no chunk ends inside a header |
| TlsEndToEnd.ClientToServerOnObjects | dialer/obfs/tls/conn.go:230-266 | on both objects: what the client connection writes, the server connection hands over in order into buffers of any sizes, at least a byte for each buffer with room, and all of it by the time it reports the end |
| TlsTunnel.ServerConn.Handshake | listener/obfs/tls/conn.go:26-110 | state and error are those of `ServerHandshake`, which `HandshakeInBytes` spells out; nothing is sent yet |
| TlsTunnel.ServerConn.Read | listener/obfs/tls/conn.go:112-127 | state, bytes and error of a read into any buffer |
| TlsTunnel.ServerConn.Write | listener/obfs/tls/conn.go:129-161 | what is sent and kept, and the count reported |
| TlsTunnel.ClientConn.Handshake | dialer/obfs/tls/conn.go:155-214 | the hello carries the payload, is sent once, and a failing encoding leaves the connection as it was |
| TlsTunnel.ClientConn.Write | dialer/obfs/tls/conn.go:230-266 | the first write travels in the hello, later ones as data records |
| TlsTunnel.ClientConn.Read | dialer/obfs/tls/conn.go:216-228 | for any buffer, unless the parser stalls: it moves on by the bytes that arrived, errors exactly when the automaton does, and the caller is handed what `Delivered` says |
| Ranger.FirstContaining | limiter/conn/conn.go:123-129 | the first containing network is a network of the table that contains the address, and none that does is shorter |
| ConnLimits.Members | limiter/conn/conn.go:104-157 | a client's counters are distinct; it has its own exactly if some limit applies to it, the service's exactly if there is one |
| ConnLimits.OwnLimit | limiter/conn/conn.go:112-139 | the limit of a client's own counter: that of its address, else that of the least specific network it is in, else the one every client gets, else it has none |
| ConnLimits.ServiceLine | limiter/conn/conn.go:192-199 | the limit all connections share is that of the last positive line for `$` |
| ConnLimits.PerIPLine | limiter/conn/conn.go:192-201 | the limit every client gets is that of the last positive line for `$$` |
| ConnLimits.AddressLine | limiter/conn/conn.go:192-206 | an address has the limit of the last positive line for it |
| ConnLimits.NetworkLine | limiter/conn/conn.go:192-213 | a network has the limit of the last positive line that spells it |
| ConnLimitRuns.StepEffect | limiter/conn/limiter.go:23-59 | one atomic add changes the counter and the sessions that hold or passed it consistently |
| ConnLimitRuns.SafeRun | limiter/conn/limiter.go:23-59 | over every interleaving of any number of accepts and closes each counter is at least what the live and in-progress connections hold, and those let in stay within the limit |
| ConnLimitRuns.OpenWithinLimit | limiter/conn/limiter.go:23-59 | so on no counter are more connections open than its limit |
| ConnLimitRuns.LimitsHold | limiter/conn/wrapper/listener.go:25-40 | at every moment of every interleaving: at most the host's limit of open connections from each limited host, at most the service's in all |
| ConnLimitRuns.OpenAddsUp | limiter/conn/wrapper/listener.go:25-40 | what is bounded there is the number of open sessions, from the host and in all |
| ConnLimitRuns.ExcessOfStep | limiter/conn/limiter.go:44-59 | a step puts a counter one further above the places held exactly when it is a release that stops early before this counter, and otherwise keeps the difference |
| ConnLimitRuns.ExactStep | limiter/conn/limiter.go:44-59 | an exact counter stays exact over a step exactly when the step is not a release that stops early before this counter |
| ConnLimitRuns.ExcessIsLost | limiter/conn/limiter.go:44-59 | over every interleaving, what a counter is above the places held grows by exactly the number of places lost that way |
| ConnLimitRuns.ExactUnlessLost | limiter/conn/limiter.go:44-59 | from the start, a counter ends as exactly the places held if and only if none was lost |
| ConnLimitRuns.Conservation | limiter/conn/limiter.go:44-59 | when no release happens while a connection is being refused, every counter stays exactly the places held |
| ConnLimitRuns.SequentialIsUncontended | limiter/conn/limiter.go:44-59 | one operation at a time is such a run |
| ConnLimitRuns.SequentialRunsAreExact | limiter/conn/wrapper/conn.go:41-44 | in sequential runs every counter is the number of open connections: refusals leave no trace, closes give everything back |
| ConnLimitRuns.AcceptAlone | limiter/conn/wrapper/listener.go:25-40 | an accept that nobody interrupts, step by step, ends open with one more in each of its counters exactly if all have room, and otherwise refused with every counter as before: what `ConnLimiter.Accept` promises of the objects |
| ConnLimitRuns.CloseAlone | limiter/conn/wrapper/conn.go:41-44 | a close that nobody interrupts gives one place back in every counter up to the first it reads above its limit, in all of them when none is |
| ConnLimitRuns.ContentionLeaks | limiter/conn/limiter.go:47-51 | an interleaving of three connections after which nothing is open and the service counter reads 1, whether the host is an address or not |
| ConnLimitReloads.RunReachable | limiter/conn/conn.go:216-221 | under every interleaving of accepts, closes and reloads, the counters and connections of each configuration are in a state that accepts and closes alone lead to |
| ConnLimitReloads.LimitsHoldPerReload | limiter/conn/conn.go:189-221 | so of the connections that came in under one configuration, the last one included, no more are open at any moment than it allows, per host and in all |
| ConnLimitReloads.OpenWithinSum | limiter/conn/conn.go:189-221 | all open connections of a host together are at most the sum of the limits of all configurations so far |
| ConnLimitReloads.ReloadsAddUp | limiter/conn/conn.go:189-221 | and that is reached: for every host and n, n reloads of a configuration that allows one connection let n + 1 be open |
| ConnLimiter.Limiter.Allow | limiter/conn/limiter.go:23-31 | an acquire over the limit is refused and taken back; a release is always applied |
| ConnLimiter.LimiterGroup.constructor | limiter/conn/limiter.go:37-42 | the group holds the given limiters sorted by limit |
| ConnLimiter.SortSorts | limiter/conn/limiter.go:37-42 | the sort orders by limit and permutes |
| ConnLimiter.LimiterGroup.Allow | limiter/conn/limiter.go:44-59 | all or nothing: granted exactly if every member has room, and then every member grew by n; refused, every member is as before; a release stops at the first member still over its limit |
| ConnLimiter.LimiterGroup.Limit | limiter/conn/limiter.go:61-67 | the limit is the least member limit, 0 for none |
| ConnLimiter.Generate | limiter/conn/generator.go:21-42 | a shared counter for a single generator, a fresh one with the limit for a per-key one, none without a positive limit |
| ConnLimiter.NewSingle | limiter/conn/generator.go:32-38 | the shared counter exists exactly for a positive limit |
| ConnLimiter.ConnLimiter.HostCounter | limiter/conn/conn.go:112-139 | the counter of its own that the configuration gives a client, as `ConnLimits.OwnLimit` spells it out, is the one already issued or a fresh one with that limit |
| ConnLimiter.ConnLimiter.Limiter | limiter/conn/conn.go:104-158 | a client gets the group of exactly its counters with their configured limits, the same one until the next reload, and counters already issued are shared, never replaced |
| ConnLimiter.ConnLimiter.Reload | limiter/conn/conn.go:181-224 | the tables become those of the configuration lines, later lines winning, with nothing cached |
| ConnLimiter.Accept | limiter/conn/wrapper/listener.go:25-40 | a connection is let in exactly if every counter of its host is below its bound; then exactly those counters grow by one, otherwise none changes and a limited connection is closed; counters already issued stay, others are new, and the group of what is let in consists of issued counters within their limits |
| ConnLimiter.ServerConn.Close | limiter/conn/wrapper/conn.go:41-44 | closing gives one place back in every counter up to and including the first that is above its limit even so, and in every counter of the group when none is above its limit |
| ConnLimiter.AcceptThenClose | limiter/conn/wrapper/listener.go:25-40 | on the objects: a connection that is accepted and closed again leaves every counter as it was, whatever they read before |
| ConnLimiter.NetworkLimitOnObjects | limiter/conn/conn.go:122-131 | on the objects: after a line that limits a network to n, exactly the first n of any connections from a host in it are let in |
| TrafficLimiter.LimiterGroup.Wait | limiter/traffic/limiter.go:55-62 | the least of the request and all bursts |
| TrafficLimiter.AfterReload | limiter/traffic/traffic.go:269-434 | whatever was cached, after the three passes of a reload every cached rate is what a fresh resolution of the new table gives, positive explicit limits are all present, and exactly the hosts still limited survive |
| TrafficLimiter.HostCache.HostLimiter | limiter/traffic/traffic.go:149-170 | a host has a limiter exactly if the table resolves it to one, cached or made from its first network; the cache stays coherent |
| TrafficLimiter.HostCache.SetRate | limiter/traffic/traffic.go:361-373 | a configured rate changes the cached limiter in place, drops it, or makes one |
| TrafficLimiter.HostCache.ReloadHosts | limiter/traffic/traffic.go:352-388 | named hosts get their rates, networks go to the new ranger, in any order of the table |
| TrafficLimiter.HostCache.ReloadRest | limiter/traffic/traffic.go:390-407 | cached hosts the table does not name follow their network's rate or go |
| TrafficLimiter.HostCache.Reload | limiter/traffic/traffic.go:269-434 | from any rates the cache may hold, coherence is restored; limiters that stay are the objects connections already hold, others are new, and none handed out begins to stop transfers |
| TrafficLimiter.HostCache.ReloadDuringLookup | limiter/traffic/traffic.go:149-170 | a lookup that read the old networks and stores its limiter after a reload leaves the cache in agreement with the new table exactly if the old networks gave the host no rate or the one the new table resolves it to |
| TrafficLimiter.HostCache.CachedIsPositive | limiter/traffic/generator.go:19-31 | every cached limiter has a positive burst equal to its rate, and the service's is cached exactly when it has a limit |
| TrafficLimiter.HostCache.CachedRate | limiter/traffic/traffic.go:149-170 | in every state, from the loaded table alone: a host with a positive rate of its own is cached with it; another is cached only with the rate of the least specific network it is in, if that is positive; a host in no network is not cached |
| TrafficLimiter.HostCache.CachedService | limiter/traffic/traffic.go:275-304 | the service is cached, with its rate, exactly if the table gives `$` a positive one |
| TrafficLimiter.ConnCache.ConnLimiter | limiter/traffic/traffic.go:130-147 | a connection has its own limiter exactly if it had one or connections are limited |
| TrafficLimiter.ConnCache.Reload | limiter/traffic/traffic.go:306-340 | cached connection limiters end with the rate the code gives them, or are flushed |
| TrafficLimiter.ConnRateIsStale | limiter/traffic/traffic.go:308-338 | after any sequence of reloads that keep connections limited, a cached connection limiter has the configured rate exactly when it had it before and no reload changed it: once stale it stays stale |
| TrafficLimiter.ReloadLeavesStale | limiter/traffic/traffic.go:308-338 | on the objects: a connection limited to 10 stays at 10 when the limit becomes 20 |
| TrafficLimiter.TrafficLimiter.Obtain | limiter/traffic/traffic.go:122-182 | a connection's group is the service's, its own and its host's limiter; the service and the host have one exactly when the loaded table gives one, the connection exactly when it had one or connections are limited; limiters already cached stay the same objects, so connections of one host share its limiter, and those added are new |
| TrafficLimiter.NetworkRateOnObjects | limiter/traffic/traffic.go:162-169 | on the objects: after a table of one network, a connection from a host in it gets one limiter of just the network's rate, or none if that is not positive |
| TrafficLimiter.TrafficLimiter.Reload | limiter/traffic/traffic.go:269-434 | both caches agree with the loaded table afterwards, and every limiter that lets something through, cached or not, goes on doing so |
| TrafficLimiter.TrafficLimiter.NoneStops | limiter/traffic/generator.go:19-31 | no limiter handed to a connection has a burst that stops its transfers |
| TrafficConn.Capped | limiter/traffic/limiter.go:55-62 | what a group lets through is at most the request and every burst, and one of them |
| TrafficConn.ReadConserves | limiter/traffic/wrapper/conn.go:64-92 | a limited read hands over the next bytes and keeps the rest in order, makes progress whenever it can, and stops only at a burst, the buffer or the end of what is there |
| TrafficConn.ReadsConserve | limiter/traffic/wrapper/conn.go:64-92 | over every run of limited reads, with limiters changing between them, delivered, kept and coming bytes are what there was |
| TrafficConn.UnlimitedReadKeepsOrder | limiter/traffic/wrapper/conn.go:65-68 | a read without limiter keeps the order for every peer exactly when nothing was kept |
| TrafficConn.UnlimitedReadPasses | limiter/traffic/wrapper/conn.go:65-68 | a read without limiter is a read of the connection below and leaves what was kept |
| TrafficConn.PiecesMakeTheWrite | limiter/traffic/wrapper/conn.go:94-111 | the pieces of a write concatenate to it, none is empty or over a burst, and all but the last reach one |
| TrafficConn.ObtainedGoesOn | limiter/traffic/generator.go:19-31 | every group the traffic limiter hands out has only positive bursts when it is handed out |
| TrafficConn.HeldGoesOn | limiter/traffic/wrapper/conn.go:44-62 | a group with positive bursts keeps them through every sequence of lookups, expiries and reloads of any tables |
| TrafficConn.ObtainedIsHeld | limiter/traffic/wrapper/conn.go:44-62 | so what is obtained for a connection meets what `Read` and `Write` ask for, for as long as it is held |
| TrafficConn.ServerConn.Read | limiter/traffic/wrapper/conn.go:64-92 | state and buffer after a read, with and without a limiter |
| TrafficConn.ServerConn.Write | limiter/traffic/wrapper/conn.go:94-111 | the write loop ends and sends exactly the pieces |
| Routes.NestKeepsThePath | chain/chain.go:86-102 | unfolding the nested route yields the selected nodes, in the only allowed shape |
| Routes.NestIsTheOnlyRoute | chain/chain.go:86-102 | a route has that shape and unfolds to the path exactly if it is the one built: only first nodes are multiplexed, only they have inner routes |
| Routes.ChainIsKnown | chain/chain.go:86-102 | the route handed out knows its chain exactly when no selected node is multiplexed |
| Routes.SelectedAt | chain/chain.go:87-91 | the nodes of a route are the hops' answers up to the first that has none |
| Routes.ShowsPlain | chain/chain.go:86-102 | without a multiplexed node the route's nodes are the hops' own nodes |
| Routes.ShowsNested | chain/chain.go:92-99 | otherwise its first node is a copy of the last multiplexed one, with its address, marker and connector, reached through a route that shows the nodes before; the others are the hops' own nodes; only a route without a multiplexed node knows the chain |
| Routes.Chain.FindRoute | chain/chain.go:81-103 | the objects built form that nesting of the nodes selected up to the first hop with none; no node, transport or hop that existed before is changed |
| Routes.Chain.Passed | chain/chain.go:91-101 | one hop: append, or start a new route whose first node is a copy reached through the old one |
| Routes.BlameIsExact | chain/route.go:109-218 | when no two nodes share a marker (nodes without one included), a failure at node k adds one mark to k, clears those before and leaves those after |
| Routes.FailuresAddUp | chain/route.go:140-208 | failures of a node add up over every run of attempts exactly when no earlier node of the route shares its marker |
| Routes.Route.ConnectNodes | chain/route.go:140-217 | the result is a connection exactly if every hop works, made by the right dial, connect and handshake steps; otherwise every socket it dialed is closed; all node markers read what the first failure implies, shared markers included |
| Routes.StepsInOrder | chain/route.go:149-217 | the steps of a connection one by one: the first node is dialed and shaken hands with, each later one is joined through the node before it and shaken hands with |
| Routes.Route.ConnectRest | chain/route.go:181-217 | the hops after the first: each is reached through the node before it over the connection so far |
| Routes.Route.Connect | chain/route.go:109-218 | and the chain's marker is marked on failure and cleared on success, after all others |
| Routes.Route.Dial | chain/route.go:50-74 | a failing last step closes the connection and marks no one |
| Selection.KeepIsInOrder | selector/filter.go:27-63 | what a filter keeps are the candidates at the kept positions, one by one |
| Selection.PositionsIncrease | selector/filter.go:27-63 | the kept positions are increasing and are exactly those of candidates with the property |
| Selection.KeepHas | selector/filter.go:27-63 | a candidate is kept exactly if it is one with the property |
| Selection.FailThenBackup | selector/selector.go:35-43 | of two candidates or more, exactly the live ones are left, a backup only if every live candidate is a backup, and none exactly when none is live |
| Selection.KeptInOrder | selector/filter.go:27-95 | what each filter leaves of two candidates or more, position by position |
| Selection.LoneCandidateStays | selector/filter.go:28-30 | at most one candidate passes all filters, dead or not |
| Selection.MoreThanMaxFails | selector/filter.go:17-55 | the documented reading of MaxFails agrees with the filter exactly for candidates whose failures differ from it or have timed out |
| Selection.LiveMeans | selector/filter.go:32-62 | when a candidate is live, from its labels, the filter's settings and the defaults: always without a marker, else below its allowed failures or past its timeout |
| Selection.FailedNodeIsSkipped | selector/filter.go:50-58 | for any number of allowed failures: after a route failed at a node, and until the timeout is over, the nodes before it are live, and it is exactly if it may fail more often than it now has |
| Selection.ApplyFailFilter | selector/filter.go:27-63 | the loop keeps exactly the live candidates, with labels overriding the settings and defaults for what is not positive |
| Selection.ApplyBackupFilter | selector/filter.go:75-95 | the loop keeps the main candidates, or the backups when there is no other |
| Selection.RandomWeighted.Next | selector/weighted.go:31-47 | whatever the weights, a draw within the sum selects the first position whose weights reach it, inside the loop |
| Selection.WeightedIsExact | selector/weighted.go:25-47 | with positive weights no draw selects two positions and position i is selected by exactly weight-i many draws |
| Selection.RandomIsWeighted | selector/strategy.go:50-76 | of the random strategy: the draws run from 1 to the sum of the labels, where one that is not positive counts 1; each selects a candidate, and exactly as many select one as its label says |
| Selection.Strategy.ChosenMeans | selector/strategy.go:28-116 | the rule of each strategy, for the random one in terms of the labels |
| Selection.Strategy.Apply | selector/strategy.go:28-116 | each strategy returns a candidate at the position its rule says; only round robin moves the counter, modulo 2^64 |
| Selection.Selector.Select | selector/selector.go:35-43 | filters in order, then the strategy on what is left; nothing exactly when nothing is left |
| Selection.RoundRobinIsFair | selector/strategy.go:28-35 | before the counter wraps, any run of choices from an unchanged list takes every position equally often, up to one |
| Selection.RoundRobinRun | selector/strategy.go:28-35 | on the object: a run of choices takes the positions in turn from where the counter stands |
| Selection.TurnsAddUp | selector/strategy.go:28-35 | what is counted there are the choices that take the position |
| Selection.RotationSurvivesWrap | selector/strategy.go:33-34 | the rotation continues over the wrap of the counter exactly when the length divides 2^64 |
| SuffixLookup.SuffixIsBreak | internal/matcher/matcher.go:95-104 | what the walk looks up is a suffix at a dot reached through non-empty labels |
| SuffixLookup.BreakIsSuffix | internal/matcher/matcher.go:95-104 | and every such suffix is looked up |
| SuffixLookup.SuffixesShrink | hosts/hosts.go:113-126 | longest first, so the walk ends |
| SuffixLookup.FirstKeyIsLongest | hosts/hosts.go:107-129 | the one rule of the three lookups: a hit exactly if the host, the host with a dot before it, or such a suffix is a key; the hit is the first of these, among suffixes the longest |
| SuffixLookup.DomainMatcher.Match | internal/matcher/matcher.go:82-106 | the matcher hits exactly by that rule |
| SuffixLookup.DomainAndSubdomains | internal/matcher/matcher.go:68-71 | a pattern with a leading dot matches itself, the domain, and exactly those subdomains with no empty label before it |
| SuffixLookup.HostMapper.Lookup | hosts/hosts.go:107-156 | the addresses of the name the rule finds, cut to the family; `ok` is never set |
| SuffixLookup.FamilyFits | hosts/hosts.go:131-149 | an address is handed out exactly if it is of the family, IPv4 ones in 4-byte form |
| SuffixLookup.FamilyInOrder | hosts/hosts.go:131-149 | in the order of the table |
| SuffixLookup.HostMapper.Reload | hosts/hosts.go:191-224 | the table of the configured and loaded lines, no name without addresses |
| SuffixLookup.TableHoldsTheLines | hosts/hosts.go:194-208 | a name has an address, in 4-byte or 16-byte form, exactly if a line says so, and none twice; different addresses are both there |
| SuffixLookup.AddressesGrow | hosts/hosts.go:194-208 | later lines add their addresses after those of earlier ones |
| SuffixLookup.TwoAddresses | hosts/hosts.go:194-224 | on the object: two different addresses of a name both come out of a lookup, in order, two forms of one address once |
| SuffixLookup.Ingress.Get | ingress/ingress.go:222-260 | the endpoint of the name the rule finds, or none |
| SuffixLookup.Ingress.Reload | ingress/ingress.go:121-153 | the rules of configured and loaded lines, no endpoint empty |
| SuffixLookup.LastRuleWins | ingress/ingress.go:124-133 | a name has an endpoint exactly if the last usable rule for it, a leading star dropped, gives it |
| SuffixLookup.KeyMeans | ingress/ingress.go:128-132 | the name a rule is kept under is its host name without one leading star |
| SuffixLookup.StarRuleAnswers | ingress/ingress.go:121-260 | on the object: a rule for `*.d` answers for d and for its subdomains with no empty label before d |
| TunnelRetry.Tunnel.GetConnector | handler/relay/tunnel.go:84-100 | the connectors of the network in turn, the counter moving only when there is one |
| TunnelRetry.SuitingInOrder | handler/relay/tunnel.go:88-94 | the connectors of a network are those added with its kind, in the order they were added |
| TunnelRetry.Tunnel.Clean | handler/relay/tunnel.go:102-119 | what is left are the connectors whose sessions are open, in order |
| TunnelRetry.OpenKeeps | handler/relay/tunnel.go:106-115 | a connector survives exactly if its session is not closed |
| TunnelRetry.OpenInOrder | handler/relay/tunnel.go:106-115 | in their order |
| TunnelRetry.ConnectorPool.Add | handler/relay/tunnel.go:132-144 | the connector joins its tunnel, a new one made if need be; no other tunnel changes |
| TunnelRetry.ConnectorPool.Get | handler/relay/tunnel.go:146-160 | the tunnel's next connector, or none |
| TunnelRetry.GetTunnelConn | handler/relay/tunnel.go:179-200 | the first of the connectors in turn that answers; it is open and of the right network; one is found whenever fewer are dead than turns and than connectors |
| TunnelRetry.AddedIsFound | handler/relay/tunnel.go:132-200 | a connector that answers is what a tunnel's first connector of its network hands out as soon as it is added, whatever the counters |
| TunnelRetry.EnoughTurns | handler/relay/tunnel.go:179-200 | pigeonhole over consecutive positions: with fewer dead ones than turns and than connectors, a turn meets a living one |
| TunnelRetry.FoundIsFirst | handler/relay/tunnel.go:183-197 | what the retries find is the first connector in turn that answers |
| TunnelRetry.RetryFindsTheLiving | handler/relay/tunnel.go:179-200 | and that bound is exact: for every arrangement and every counter before its wrap the retries succeed exactly if the dead are fewer than both |
| RelayFraming.ReadsStayInStep | connector/relay/conn.go:61-78 | for every sequence of buffer sizes the k-th read yields the k-th datagram cut to its buffer, and the stream stands after the last frame read |
| RelayFraming.ReadsSucceedOnFrames | handler/relay/conn.go:37-53 | a run of reads that all succeed was on a stream that starts with as many frames, which the lemma returns |
| RelayFraming.FrameOnTheWire | connector/relay/conn.go:87-102 | a datagram is sent with its length in two bytes before it, the high one first |
| RelayFraming.WritesAreFrames | handler/relay/conn.go:55-78 | any writes put the cached header once before the first frame, then a frame for each datagram of at most 65535 bytes; larger ones leave no trace |
| RelayFraming.FittingInOrder | connector/relay/conn.go:80-84 | which datagrams are framed: those of at most 65535 bytes, in order |
| RelayFraming.WriterToReader | connector/relay/conn.go:53-103 | from one end's writes to the other's reads: header first, then datagram by datagram |
| RelayFraming.DatagramConn.Read | connector/relay/conn.go:53-78 | the response is taken off once before the first datagram; after that the buffer and the stream are those of one framed read |
| RelayFraming.FirstRead | connector/relay/conn.go:53-78 | on the object: the first read takes off the response and hands over the datagram after it |
| RelayFraming.BadResponse | connector/relay/conn.go:53-78 | on the object: a bad response is reported once, and the next read goes on with the datagrams after it |
| RelayFraming.DatagramConn.ReadDatagram | connector/relay/conn.go:151-172 | one framed read, in place or through a temporary buffer, error exactly when the stream ends inside it |
| RelayFraming.DatagramConn.Write | connector/relay/conn.go:80-103 | what is on the stream and still kept back, and refusal of what is too long |
| Dtls.ReadConserves | internal/util/dtls/conn.go:23-51 | a read loses nothing for any buffer exactly when something was kept, nothing comes, or the next record is within the buffer size |
| Dtls.ReadsConserve | internal/util/dtls/conn.go:23-51 | over every run of reads, delivered, kept and coming bytes are what there was |
| Dtls.ReadProgresses | internal/util/dtls/conn.go:23-51 | a read hands something over whenever something was kept or comes, and there is room; what was kept comes first |
| Dtls.PiecesMakeTheWrite | internal/util/dtls/conn.go:53-73 | the pieces concatenate to the argument, all but the last of exactly the buffer size |
| Dtls.Conn.Read | internal/util/dtls/conn.go:23-51 | state and buffer after a read |
| Dtls.Conn.Write | internal/util/dtls/conn.go:53-73 | the loop ends and writes exactly the pieces |

## Left out

- Errors of the connections underneath (partial writes, deadlines) and their address and deadline methods; a stream ends or goes on.
- The hello messages of the TLS transport are encoded and decoded by a library: the codec is a parameter, the server's hello is taken to be its fixed 91 bytes, a record's length field to be the 16 bits of section 6.2.1 of RFC 5246. The TLS transport is taken to have one writer.
- The client's write buffer is never filled in the code, so its branch in `Write` is only present as the shared record loop.
- Parsing addresses, networks, hosts and ports is a parameter; a ranger is taken to list containing networks from the least specific on, and a repeated network to replace the earlier one.
- Loaders, tickers, line parsing and logging of the limiters, the host table and the ingress: the parsed lines are the input.
- Each accepted connection is closed once. A lookup of the connection limiter and the reload that replaces its tables exclude each other, as they hold one lock.
- Calls of the traffic limiter run one at a time, apart from the overlap of `ReloadDuringLookup`.
- When cache entries of the traffic limiter expire is left to the caller of `Expire`; hosts' and the service's do not expire. The time `WaitN` sleeps is not modelled.
- `In` and `Out` are the same code on separate caches: the model runs one direction. The order of the members of a traffic group, which only its `Limit` shows, is not modelled.
- TrafficLimiter.ConnCache.Reload: states the rate the code sets, which is the previous configuration's; coherence with the current table is stated for service and hosts only.
- The packet connection wrappers of the traffic limiter: the same group calls without a leftover buffer.
- How hops select and what dialers, handshakes and connectors do: their answers are parameters of `FindRoute` and `Connect`. Closing a connection is taken to close the socket under it. A marker's time is not modelled in `Routes`, only its count.
- `Bind` of a route, metrics, and the dialing of a multiplexed node through its inner route, which is done outside of this repository.
- Random numbers and the checksum of the hash source are parameters of the strategies.
- TunnelRetry.RetryFindsTheLiving: one caller at a time and no wrap of the 64-bit counter meanwhile.
- The stream variants of the relay connections, which add only the cached header and the response.
- The relay request and response codec: what a response takes off the stream and whether it is fine is a parameter. What a temporary buffer holds after a failed read is not modelled.
- TlsTunnel.ClientToServer: takes the hello to be below 64 KiB, which is when its record arrives (`TlsTunnel.HelloArrives`).
- The DTLS library is taken to yield one record for each read and to drop what of it is over the buffer it is given.
- Dtls.Conn.Write: asks for a positive buffer size, which the configuration guarantees (dialer/dtls/metadata.go:22-25).
- The remaining protocols, handlers, dialers and listeners, the REST API, metrics, recorders and registries.
