# ArduinoMongoose: a verified model

ArduinoMongoose wraps the Mongoose networking library in C++ classes that react to its events.
This project models the parts of the wrapper that keep state across events, and proves what
they keep over whole runs. Mongoose itself is the environment: it delivers events in any order
that `mongoose.c` allows and the model says what each one does.

| file | what it models |
|---|---|
| `Wrappers.dfy` | options and minima |
| `Bytes.dfy` | octets, C strings, case folding |
| `HttpConnection.dfy` | one kept-alive server connection as a value: who handles it, what is queued, how it completes, what a receiver makes of it |
| `HttpHistory.dfy` | what the events of a run alone say of a connection: its handler, its last completion, why it drains, what it sends, how its buffer grows |
| `HttpConduct.dfy` | what its responses advertise and whether that comes true; which handler its requests reach |
| `HttpServer.dfy` | all connections and request objects in place: creation, hand-over, deletion, close callbacks |
| `HttpEndpoints.dfy` | which endpoint a request is matched to |
| `MessageCopy.dfy` | the copy a request keeps of its headers |
| `ResponsePump.dfy` | pumping a body through a send buffer of any free size |
| `Responses.dfy` | the two response classes, and the length each declares |
| `MdnsTxt.dfy` | the TXT wire format of DNS-SD |
| `MdnsRegistry.dfy` | the table of advertised services and the rewriting of TXT data in place |
| `MdnsBrowse.dfy` | the browse cache, its log of replies and the schedule of queries |
| `Mdns.dfy` | the service object that owns registry and browser |
| `DnsResolver.dfy` | retiring the resolver socket while lookups are outstanding |
| `DnsRuns.dfy` | runs of the manager with any number of hand-overs and restarts |
| `DnsFailover.dfy` | the nameserver table, its rotation and what `mgr.dns4.url` points at |
| `DnsTimeouts.dfy` | the walk that times lookups out, with a rotation nested inside it |
| `IpConfig.dfy` | the nameserver list built from the network interface |
| `Upload.dfy` | raw and multipart uploads |
| `Download.dfy` | streamed and buffered client responses |
| `Backoff.dfy` | the reconnect delay in 32-bit arithmetic |
| `WebSocketClient.dfy` | the reconnecting WebSocket client |

Each class follows the C++ class of the same name: its methods change the same fields in the
same order, and each is proved to do what a function on values does. The results are proved about
those functions, and so hold of the classes. They speak of the events of a run, of what stood
before it and of literal values, so that what a function computes is said a second time in terms
of what happened: when a response was last completed (`HttpHistory`), how many attempts were made
since the client last connected (`WebSocketClient.AttemptsAreCounted`), which replies are about
one peer (`MdnsBrowse.SameInstanceExactly`), what a hand-over leaves of each connection
(`DnsResolver.HandedOverConnections`).

## Where the code and its description part

Each of these is stated with the exact condition under which the described behaviour holds.

- The reconnect delay is described as "interval * 2^attempt (capped at 60s)"
  (`src/MongooseWebSocketClient.h:237`). The code stops doubling once the factor reaches
  floor(60000 / interval), so a base of 7000 ms settles at 56000 ms. It is the documented one
  exactly up to saturation, or if the last doubling reached the cap (`Backoff.DocumentedDelay`,
  `Backoff.SevenSeconds`).
- A request refused with 405 on a reused connection is still handed to the handler of the
  previous request when its body is complete, because the old request object stays attached. It
  reaches none exactly if no request holds the connection
  (`HttpConduct.RequestsReachTheirHandler`, `HttpConduct.RefusedOnReusedConnection`).
- A refused request whose body is still arriving is refused again on every read
  (`HttpConduct.OneRefusalPerParse`).
- A draining connection goes on serving pipelined requests, so a message may follow one that
  said "Connection: close". One does exactly if a request is answered or refused after it
  (`HttpConduct.NothingFollowsClose`, `HttpConduct.DrainingServesOn`,
  `HttpConduct.ResponseAfterClose`).
- A completed response keeps its word on the connection exactly if `forceClose()` did not come
  after its header had gone out as keep-alive; otherwise it promised to keep the connection and
  drained it (`HttpConduct.AdvertsAreKept`, `HttpConduct.EveryAdvertIsKept`).
- `forceClose()` after a response has completed does not close the connection but keeps the idle
  reaper from ever doing so. An idle connection is drained exactly if a poll finds it timed out
  with everything sent, its request was to keep it, and `forceClose()` has not been called
  (`HttpConduct.IdleConnectionIsReaped`, `HttpConduct.ForcedIsNeverReaped`,
  `HttpConduct.ForcedAfterCompletion`).
- A response object declares a length of its own, which the application may set. Every body is
  as long as declared, and a receiver recovers the messages, exactly if every response sent
  declared the length of what it held; a Basic response without content does not
  (`HttpConnection.BodiesAreAsDeclared`, `HttpConnection.ReceiverRecoversMessages`).
- The copy of a request's headers takes their length to be the message's less the body's. A
  message that starts like a response and declares no length has both unbounded, and the copy
  then has no block: its strings are offsets from the null address. The copy is faithful exactly
  if the message is longer than its body (`MessageCopy.CopyOutlivesTheBuffer`,
  `MessageCopy.StatusLineCopy`).
- An upload strips its head from the front of the receive buffer. It is given its body exactly
  if no request served from the same buffer is still in front of it; behind one, it starts with
  the tail of its own head (`Upload.BodyIsLeft`, `Upload.UploadDeliversTheBody`,
  `Upload.PipelinedUpload`).
- The comment in `closeResolver` says that every lookup in flight was waiting on the server
  being retired. A lookup by multicast DNS was not, and fails too
  (`DnsResolver.LocalLookupsFailToo`, `DnsResolver.LocalLookupExample`).
- A timeout rotates from inside the walk that times lookups out, and the hand-over cancels the
  entry that the walk looks at next. The walk stays on the list exactly if the entry whose
  timeout retires the socket is the last; with a running clock, exactly if no rotation is due or
  no entry follows the first one whose timeout the core hears of (`DnsTimeouts.PollTimeouts`,
  `DnsTimeouts.FirstTimeoutDecides`, `DnsTimeouts.InterruptedExample`).
- Clearing the nameserver list, restarting, resolving and configuring the old server again
  leaves the resolver socket with the built-in server (`DnsFailover.AgreementIsKept`,
  `DnsFailover.StaleBufferExample`).
- A connection that fails inside `mg_ws_connect` leaves the client waiting in CONNECTING on a
  pointer that no event reaches, until `connect()` is called again
  (`WebSocketClient.RunsStayConsistent`, `WebSocketClient.StrandedForGood`).
- An upload handler that leaves PART_END unanswered gets another one exactly if bytes beyond the
  declared length arrive and it leaves those unanswered too (`Upload.ExtraBytesRepeatEnd`,
  `Upload.TwoEnds`).
- A TXT reader cannot tell "key" from "key=" (`MdnsTxt.SplitCollisions`), though section 6.4 of
  RFC 6763 does.
- A clock that reads exactly 0 at an attempt or a rotation switches the throttle off for the
  next one (`WebSocketClient.AttemptsAreSpaced`, `DnsFailover.RotationsAreSpaced`).

## Assumptions

Application callbacks answer, abort other connections or do nothing; they do not call
`connect()` or start lookups from within an error callback. A request is answered once, by a
`send` after its handler has been called. Finding the end of an HTTP message, matching a URI and
cutting a multipart body into parts are the library's: their results are inputs.

## Model

| member | source | states |
|---|---|---|
| HttpConnection.EveryRunIsFramed | src/MongooseHttpServerRequest.cpp:135-209 | over every run of a connection the queued bytes are the issued messages in order, whole but for what is pending of the last; a response pending or awaited holds the latch |
| HttpConnection.StepIssues | src/MongooseHttpServerRequest.cpp:135-209 | an event adds to the issued messages exactly a refusal, if it refuses, and the answer, if the application answers, and takes nothing back |
| HttpConnection.BodiesAreAsDeclared | src/MongooseHttpServerResponse.cpp:105-122 | over every run, every body is exactly as long as its header declares iff every response object sent declared the length of what it held |
| HttpConnection.ReceiverRecoversMessages | src/MongooseHttpServerRequest.cpp:135-188 | a receiver that frames by Content-Length (section 6.3 of RFC 9112) recovers exactly the issued messages iff every response object declared its length truthfully; all but the last one while part of it is pending |
| HttpConnection.PumpIsAnOffer | src/MongooseHttpServerRequest.cpp:149-170 | one pump of a connection queues, leaves and completes exactly what the response classes do with the free space as their offer |
| HttpConnection.EveryResponseCompletes | src/MongooseHttpServerRequest.cpp:149-188 | with any space at all in each poll, length + 1 polls queue all that is left of a response, complete it exactly once and release the latch, whatever the buffer sizes |
| HttpConnection.ReaperDrainsBetweenMessages | src/MongooseHttpServerRequest.cpp:367-385 | the idle reaper drains only a completed request's connection with everything issued queued whole and the send buffer empty, and changes nothing else |
| HttpHistory.StepStamps | src/MongooseHttpServerRequest.cpp:172-188 | an event that completes a response stamps the request with its time; one that neither completes a response nor installs a request leaves that time alone; a response is completed exactly by a simple reply, a body that fits behind its header, or a pump with more space than is left |
| HttpHistory.StepTells | src/MongooseHttpServerRequest.cpp:135-209 | what any event does to who handles the connection, to its keep-alive wish, to its completion and to its draining |
| HttpHistory.RequestIsAsTold | src/MongooseHttpServerRequest.cpp:17-36 | over every run the connection is held iff a request was ever taken, and endpoint, keep-alive wish, completion and its time are what the events say: the last accepted, negotiated and neither forced nor answered with force, answered since, and the time of the last completion |
| HttpHistory.DrainsForAReason | src/MongooseHttpServerRequest.cpp:172-188 | over every run a connection drains iff it was told to, refused a request, completed one that was not to be kept, or a poll found it idle past its timeout with everything sent |
| HttpHistory.MessagesAreAsTold | src/MongooseHttpServerResponse.cpp:105-122 | over every run the messages are, in order, the refusals and answers with the code, length, body and width each was given, and each answer says keep-alive iff its request is to be kept |
| HttpHistory.LatchIsExact | src/mongoose.c:4855-4968 | over every run the response latch is held iff a request waits for its answer, a response is in flight, or a whole request was refused before any was taken |
| HttpHistory.StepFills | src/MongooseHttpServerRequest.cpp:149-170 | what an event queues is never taken back and the buffer length grows by exactly its octets, within the size |
| HttpHistory.SizesAsWritten | src/mongoose.c:13211-13220 | printing grows the buffer as writing character by character with room for a terminator does; body bytes size it to the least multiple of 512 that holds them |
| HttpHistory.PumpingNeedsNoGrowth | src/MongooseHttpServerRequest.cpp:149-170 | pumping stays in the space allocated, fills it as far as the body goes, and takes at most 256 octets of an empty buffer |
| HttpConduct.IdleConnectionIsReaped | src/MongooseHttpServerRequest.cpp:367-385 | after any run that leaves a connection idle, while nothing comes from the client, it is drained iff its last request was to keep it and a poll finds the timeout passed since the last response was completed, everything sent, and no forceClose() before; that time and that wish are read off the events of the run |
| HttpConduct.ForcedIsNeverReaped | src/MongooseHttpServerRequest.h:116-125 | an idle connection whose request is no longer to keep it is never drained by any poll |
| HttpConduct.ForcedAfterCompletion | src/MongooseHttpServerRequest.h:116-125 | one request answered as keep-alive and then forced, after which no poll drains the connection |
| HttpConduct.KeptForItsTimeout | src/MongooseHttpServerRequest.cpp:172-188 | answered at 60000 and kept for 30000, an idle connection is drained iff some poll at 90000 or later finds everything sent |
| HttpConduct.StepCarries | src/MongooseHttpServerRequest.h:116-125 | an event completes at most one response; the one it completes keeps its word iff it was not misleading, and only a forceClose() on a keep-alive response in flight makes one misleading |
| HttpConduct.AdvertsAreKept | src/MongooseHttpServerRequest.cpp:172-209 | over every run, the n-th completed response advertised "close" exactly if its completion drained, iff forceClose() did not come too late for it; if it did, it advertised keep-alive and drained |
| HttpConduct.EveryAdvertIsKept | src/MongooseHttpServerRequest.cpp:172-209 | all completed responses keep their word iff forceClose() came too late for none of them |
| HttpConduct.NothingFollowsClose | src/MongooseHttpServerRequest.cpp:172-188 | over every run, a message follows one that advertised "close" (section 9.6 of RFC 9112) iff a request was answered or refused after it |
| HttpConduct.RequestsReachTheirHandler | src/MongooseHttpServerRequest.cpp:387-417 | an accepted request reaches the endpoint that accepted it; a refused one reaches none iff no earlier request still holds the connection; how many responses either gets |
| HttpConduct.RefusedOnReusedConnection | src/MongooseHttpServerRequest.cpp:399-405 | two requests that produce three responses, the refused second one being handled by the first one's endpoint |
| HttpConduct.OneRefusalPerParse | src/MongooseHttpServer.cpp:193-196 | after any run that is ready for a request, n parses of a refused request whose body is incomplete queue n refusals and leave the connection with whoever had it |
| HttpConduct.DrainingServesOn | src/mongoose.c:4855-4968 | a parsed request has the same effect on a draining connection as on one that is not |
| HttpConduct.ResponseAfterClose | src/MongooseHttpServerRequest.cpp:172-188 | a run in which a keep-alive response follows one that advertised "close" |
| HttpServer.Connection.Put | src/mongoose.c:14477-14487 | a body chunk is appended and the buffer sized to the next multiple of its granularity |
| HttpServer.Connection.Print | src/mongoose.c:13211-13220 | text is appended and the buffer grown only when text and terminator do not fit, never shrunk |
| HttpServer.Connection.Reply | src/mongoose.c:4174-4190 | a reply prints header and body as one message, growing the buffer as printing does, and releases the latch |
| HttpServer.Request.constructor | src/MongooseHttpServerRequest.cpp:17-36 | a new request is not completed, holds no response and points at its connection |
| HttpServer.Request.CompleteRequest | src/MongooseHttpServerRequest.cpp:172-188 | in place, completion is the completion of the connection's value: it stamps the time, releases the latch and drains unless the request is to be kept |
| HttpServer.Request.SendBody | src/MongooseHttpServerRequest.cpp:149-170 | in place, one pump moves the same chunk, and completes in the same case, as the pump proved to keep the framing |
| HttpServer.Request.SendSimple | src/MongooseHttpServerRequest.cpp:195-209 | the simple send is a whole reply followed by completion |
| HttpServer.Request.SendFull | src/MongooseHttpServerRequest.cpp:135-147 | a send of a response object begins a message whose header carries the length that the object declares, and pumps its body once |
| HttpServer.Request.SendBasic | src/MongooseHttpServerResponse.cpp:105-122 | the header of a basic response declares its own content length, which is that of the body queued iff the response is truthful |
| HttpServer.Request.SendStream | src/MongooseHttpServerResponse.cpp:105-122 | the header of a stream response likewise |
| HttpServer.Request.Respond | src/MongooseHttpServerRequest.cpp:135-209 | any answer of the application, in place, is the answer of the value model |
| HttpServer.Request.HandleMessage | src/MongooseHttpServerRequest.cpp:408-417 | the message event sets the latch and runs the handler, as the value model does |
| HttpServer.Request.HandlePoll | src/MongooseHttpServerRequest.cpp:367-385 | a poll pumps a response in flight, else reaps an idle connection, as the value model does |
| HttpServer.HttpServer.Delete | src/MongooseSocket.cpp:42-70 | only a live request can be deleted, and only once; its connection is untouched if another object holds it, else detached and closing |
| HttpServer.HttpServer.Judge | src/MongooseHttpServerEndpoint.cpp:14-40 | accepting makes a fresh request the holder of the connection and live; refusing replies, drains and leaves the holder |
| HttpServer.HttpServer.OnHeaders | src/MongooseHttpServerRequest.cpp:387-406 | a hand-over keeps ownership: the retired request is deleted, the new one holds the connection, no object is lost |
| HttpServer.HttpServer.OnMessage | src/MongooseHttpServerRequest.cpp:408-417 | the message event reaches the request that holds the connection and keeps ownership |
| HttpServer.HttpServer.Handle | src/MongooseSocket.cpp:72-167 | any event on any connection takes exactly the step of its value, keeps ownership, changes no other connection, and loses no request object |
| HttpServer.HttpServer.Close | src/MongooseHttpServerRequest.cpp:358-364 | closing runs the close callback of the last request's endpoint, deletes the request that holds the connection and nothing else |
| HttpServer.HttpServer.RunAll | src/MongooseSocket.cpp:72-167 | over every interleaving on any number of connections: every request ever created is live or deleted and not both, the live ones are exactly the holders of connections, none is deleted twice, every connection runs as it would alone, the close callbacks are those the histories call for, and with no connection left every request has been deleted |
| HttpServer.HttpServer.ConnectionsStayFramed | src/MongooseHttpServerRequest.cpp:135-209 | in every reachable server each connection's bytes are whole messages but for a pending tail, and with none pending a receiver recovers them iff its responses were truthful |
| HttpServer.ClosesForTheLastRequest | src/MongooseHttpServerRequest.cpp:358-406 | a closing connection runs one close callback, that of its last accepted request, exactly if it ever accepted one |
| HttpEndpoints.Choose | src/MongooseHttpServer.cpp:166-200 | the first endpoint that has the path and allows the method takes the request, or fails it if it builds none; otherwise 405 if some endpoint has the path and not-found iff none has |
| HttpEndpoints.MethodsByName | src/MongooseHttpServer.cpp:145-164 | a request has one method iff its name spells it ignoring case: GET, POST, DELETE, PUT, PATCH, HEAD or OPTIONS; and every method iff it spells none |
| HttpEndpoints.AskedAllows | src/MongooseHttpServerEndpoint.cpp:14-40 | an endpoint settles a request iff it has the path and allows some method of it, and handles it iff it then builds a request |
| HttpEndpoints.RefusedMeansNotAllowed | src/MongooseHttpServerEndpoint.cpp:14-40 | no endpoint settles a request iff none that has its path allows its method |
| HttpEndpoints.UnknownMethodIsNeverRefused | src/MongooseHttpServer.cpp:145-164 | a method name nobody knows is allowed by every endpoint on the path that allows any method |
| MessageCopy.CopyOutlivesTheBuffer | src/MongooseHttpServerRequest.cpp:73-106 | of any parsed message: every string of the copy denotes what it denoted in the receive buffer, lies in the copy's own block unless null, and stays so whatever becomes of all other memory, iff the message is longer than its body |
| MessageCopy.StatusLineCopy | src/mongoose.c:3995-4075 | a parsed status line without headers whose copy has no block, with the path at address 9 and a method that cannot be read |
| MessageCopy.BodyIsNotCopied | src/MongooseHttpServerRequest.cpp:83-106 | the body stays in the receive buffer: once that is gone none of it can be read through the copy |
| MessageCopy.MovedDenotesTheSame | src/MongooseHttpServerRequest.cpp:73-81 | a view moved by its offset denotes the same bytes in the duplicated block |
| MessageCopy.Heap.Duplicate | src/mongoose.c:15271-15283 | nothing for an empty or null string; else the bytes again at a new address with a terminator; all other memory unchanged |
| MessageCopy.Heap.DuplicateMessage | src/MongooseHttpServerRequest.cpp:83-106 | for any parsed message the loop over the header table yields that copy, and only the new block, if any, is written |
| ResponsePump.PumpConserves | src/MongooseHttpServerRequest.cpp:149-170 | for every sequence of free sizes the chunks and what is left make up the body in order; finished only after the last byte, and by the (length + 1)-th offer of any space |
| ResponsePump.FinishedOnce | src/MongooseHttpServerRequest.cpp:162-167 | after completion no offer changes anything |
| ResponsePump.FinishNeedsSlack | src/MongooseHttpServerRequest.cpp:159-167 | a pump completes the response iff the space offered exceeds what is left |
| Responses.ResponseBasic.constructor | src/MongooseHttpServerResponse.cpp:13-21 | a new response declares a length it does not hold |
| Responses.PrintedLengths | src/MongooseHttpServerResponse.cpp:105-122 | any 64-bit length prints as it is, and one never set as 18446744073709551615 |
| Responses.ResponseBasic.SetContent | src/MongooseHttpServerResponseBasic.cpp:26-31 | the declared length becomes that of the content |
| Responses.ResponseBasic.SetContentLength | src/MongooseHttpServerResponse.h:51-53 | the application may declare any length; the response stays truthful iff it prints as that of the content |
| Responses.ResponseBasic.SendBody | src/MongooseHttpServerResponseBasic.cpp:33-46 | the pointer form moves the next bytes that fit from what is left to the queue |
| Responses.ResponseStream.Write | src/MongooseHttpServerResponseStream.cpp:25-30 | the declared length follows every write, whatever was declared before |
| Responses.ResponseStream.SendBody | src/MongooseHttpServerResponseStream.cpp:37-49 | the shrinking buffer moves the same bytes |
| Responses.DriveBasic | src/MongooseHttpServerResponseBasic.cpp:33-46 | driven over any offers, the queue gets the chunks of the pump; once finished the whole content, which is as many bytes as declared iff the response was truthful |
| Responses.DriveStream | src/MongooseHttpServerResponseStream.cpp:37-49 | the same for the stream form, so the two are alike to the receiver |
| MdnsTxt.StringsAreAPrefix | src/MongooseMdns.cpp:339-351 | on arbitrary bytes, what is read re-encodes to a prefix of them |
| MdnsTxt.StringsAreTheLongest | src/MongooseMdns.cpp:339-351 | no list whose encoding is a prefix of the bytes is longer than what is read |
| MdnsTxt.ReadUndoesPrint | src/MongooseMdns.cpp:281-296 | any strings of at most 255 bytes are read back as printed |
| MdnsTxt.PrintIsInjective | src/MongooseMdns.cpp:281-296 | two lists never print to the same bytes |
| MdnsTxt.SplitCollisions | src/MongooseMdns.cpp:345-347 | two strings read as the same pair iff they are equal or differ in a lone final "=" |
| MdnsTxt.ParseTxt | src/MongooseMdns.cpp:339-351 | the parser returns the strings of the longest well-formed prefix, each cut at its first "=", never reading past the end |
| MdnsRegistry.SettingIsAMapUpdate | src/MongooseMdns.cpp:281-292 | rewriting the strings updates the map from keys (ignoring case) to strings at that key and nowhere else |
| MdnsRegistry.ApplyKeepsGood | src/MongooseMdns.cpp:189-299 | every call keeps all TXT buffers well formed, at most 256 bytes, with pairwise distinct keys, and names valid and distinct |
| MdnsRegistry.GoodNamesAreSpelledSo | src/MongooseMdns.cpp:191-198 | a name is good iff it is "_label._tcp" or "_label._udp" of less than 64 octets with no dot in the label |
| MdnsRegistry.NewServiceIsAsTold | src/MongooseMdns.cpp:199-216 | a new service has the name and port it was added with, and its record reads as the one text given, or an empty one |
| MdnsRegistry.RemovedIsGone | src/MongooseMdns.cpp:229-248 | removal takes out one service of just that spelling, leaves the others in order, and none so spelled is left |
| MdnsRegistry.TxtSetTouchesOne | src/MongooseMdns.cpp:273-299 | setting a text changes no name and no port, and no service of another name |
| MdnsRegistry.SettableExactly | src/MongooseMdns.cpp:273-299 | a text can be set iff the key is not empty and has no "=", key and value take at most 254 octets, and some service of that name ignoring case has room for them within 256 beside its other texts |
| MdnsRegistry.EndForgets | src/MongooseMdns.cpp:169-187 | what follows an end is as on a fresh registry |
| MdnsRegistry.EveryReachableRegistryIsGood | src/MongooseMdns.cpp:169-299 | the same over every history of calls |
| MdnsRegistry.PeerReadsWhatWasSet | src/MongooseMdns.cpp:273-351 | after a successful set, a peer that parses the advertised bytes finds the key and value last, and no other string with that key |
| MdnsRegistry.LookupFindsPosition | src/MongooseMdns.cpp:229-248 | a service that removal finds by exact spelling is the one the other calls find ignoring case |
| MdnsRegistry.CheckName | src/MongooseMdns.cpp:191-198 | the name check accepts exactly "_label._tcp" and "_label._udp" that fit the slot |
| MdnsRegistry.Rebuild | src/MongooseMdns.cpp:281-292 | the octet loop over the stored buffer writes the encoding of the kept strings and the new one |
| Mdns.MongooseMdns.End | src/MongooseMdns.cpp:169-187 | the table is emptied, the browse cancelled without a query, and nothing is sent any more |
| Mdns.MongooseMdns.Begin | src/MongooseMdns.cpp:140-167 | a good name starts afresh: what was registered or browsed before is gone, even if the listener cannot be opened; a bad one changes nothing |
| MdnsRegistry.Registry.AddService | src/MongooseMdns.cpp:189-216 | succeeds exactly on a good new name with room and a short text, appending a service of that name, port and text; otherwise nothing changes |
| MdnsRegistry.Registry.ShiftDown | src/MongooseMdns.cpp:237-241 | removal closes the gap and keeps the order of the rest |
| MdnsRegistry.Registry.RemoveService | src/MongooseMdns.cpp:229-248 | succeeds iff a service is spelled so; then exactly one such is taken out, the rest keep their order, and none so spelled is left; otherwise nothing changes |
| MdnsRegistry.Registry.AddServiceTxt | src/MongooseMdns.cpp:273-299 | succeeds exactly when the service exists, the key is legal and the result fits 256 bytes; rewrites the text of that service only, every name and port and all other services staying; on failure nothing changes |
| MdnsRegistry.Registry.Answer | src/MongooseMdns.cpp:107-130 | a question is answered with the first registered service whose name equals it ignoring case, and with none iff there is none |
| MdnsRegistry.AnswerIsLookup | src/MongooseMdns.cpp:113-129 | a question without a NUL is answered with the very service that the other calls find under that name, although they compare differently |
| MdnsRegistry.NulFindsNothing | src/MongooseMdns.cpp:114 | a question with a NUL in it is answered by no service |
| MdnsRegistry.Registry.Listing | src/MongooseMdns.cpp:88-97 | enumeration lists the names of all services in order |
| MdnsBrowse.MentionedIsBoundedAndDistinct | src/MongooseMdns.cpp:372-381 | at most 32 instances, pairwise distinct ignoring case |
| MdnsBrowse.MentionedOnlyGrows | src/MongooseMdns.cpp:372-381 | a new reply never withdraws or moves an instance, so an expired one keeps its slot |
| MdnsBrowse.MentionedIsComplete | src/MongooseMdns.cpp:376-381 | every instance replied about is held unless 32 others are |
| MdnsBrowse.LiveMeansRecentlyHeard | src/MongooseMdns.cpp:382-403 | an entry is live iff some reply about it is younger than the TTL |
| MdnsBrowse.InstanceIsQualified | src/MongooseMdns.cpp:369-370 | the instance a reply is about is the label of its name, up to the first dot, then the service and ".local" |
| MdnsBrowse.SameInstanceExactly | src/MongooseMdns.cpp:369-375 | two replies about one service are about the same instance iff their names agree, ignoring case, up to the first dot |
| MdnsBrowse.SameInstanceBeforeNul | src/MongooseMdns.cpp:369-375 | where a label has a NUL before its dot, iff both have one and agree up to it |
| MdnsBrowse.OnePeerOneRecord | src/MongooseMdns.cpp:359-370 | a peer heard of by its bare name and then by its resolved one has one record |
| MdnsBrowse.AcceptedExactly | src/MongooseMdns.cpp:355-369 | a reply counts iff a browse is on, it has a record, it is of that service ignoring case, and it names something |
| MdnsBrowse.TargetIsLatest | src/MongooseMdns.cpp:390-393 | host and port are those of the last reply about the instance with a port and a dot in its name |
| MdnsBrowse.TextIsLatest | src/MongooseMdns.cpp:394 | the text is that of the last reply about the instance with one |
| MdnsBrowse.AddressIsLatest | src/MongooseMdns.cpp:395 | the address is that of the last reply about the instance with one |
| MdnsBrowse.UntoldIsEmpty | src/MongooseMdns.cpp:376-395 | what no reply about the instance tells stays empty |
| MdnsBrowse.ListedAsHeard | src/MongooseMdns.cpp:398-413 | what is listed beside a name is just that host, port, text and address |
| MdnsBrowse.LiveConcat | src/MongooseMdns.cpp:398-413 | whether a record is listed depends on it alone, and the order stays |
| MdnsBrowse.CacheTouch | src/MongooseMdns.cpp:373-395 | a reply about a held instance updates that entry's carried fields and no other entry |
| MdnsBrowse.CacheAdd | src/MongooseMdns.cpp:376-395 | a reply about a new instance adds one entry, or nothing once 32 are held |
| MdnsBrowse.ServicesRefineTheLog | src/MongooseMdns.cpp:398-413 | the list at a time names an instance iff it is among the first 32 distinct ones in the log and some reply about it is younger than the TTL |
| MdnsBrowse.ResendsAreBounded | src/MongooseMdns.cpp:330-337 | whatever the polls, at most MAX_RETRIES resends, each 1000 ms or more after the one before |
| MdnsBrowse.ResendsAllHappen | src/MongooseMdns.cpp:330-337 | with polls at most d apart all resends happen, each by its deadline and the gaps before it |
| MdnsBrowse.BrowseCompletes | src/MongooseMdns.cpp:306-337 | with polls at most d apart all four resends are out within 4 * (1000 + d) of browse |
| MdnsBrowse.QualifiedExactly | src/MongooseMdns.cpp:266-269 | one final dot goes, and ".local" is added exactly to what does not already end so in any case |
| MdnsBrowse.QualifiedIsStable | src/MongooseMdns.cpp:266-269 | a qualified name is under ".local" and qualifying it again changes nothing |
| MdnsBrowse.Browser.Browse | src/MongooseMdns.cpp:306-321 | browsing starts an empty log and cache and arms the schedule even if the first query was not sent; an empty name only cancels |
| MdnsBrowse.Browser.CancelBrowse | src/MongooseMdns.cpp:323-328 | cancelling empties cache and name and issues nothing |
| MdnsBrowse.Browser.Listen | src/MongooseMdns.cpp:153-158 | only a started listener lets queries out |
| MdnsBrowse.Browser.PollBrowse | src/MongooseMdns.cpp:330-337 | at most one query per poll, none when not browsing, and the queries stay those of the schedule |
| MdnsBrowse.Browser.QueriesAreBounded | src/MongooseMdns.cpp:306-337 | of one browse, between 1 and 5 query attempts, 1000 ms or more apart |
| MdnsBrowse.Browser.HandleResponse | src/MongooseMdns.cpp:353-396 | in place, the cache stays the one the log of accepted replies calls for; a reply is logged iff a browse is on and it carries a record, a name and that service ignoring case, and otherwise changes nothing |
| MdnsBrowse.Browser.Services | src/MongooseMdns.cpp:398-413 | the list is the live part of that cache in order |
| DnsResolver.StepKeepsWellFormed | src/mongoose.c:1801-2066 | the start, answer, failure, abort or close of a lookup keeps lookups on resolving connections and at most one socket that answers |
| DnsResolver.StepOutstanding | src/mongoose.c:1801-2066 | a lookup waits from its start until it is answered or its connection closed |
| DnsResolver.StepErrors | src/mongoose.c:1940-1988 | an error goes to the connection that fails and, on the close of an attached socket, to every lookup but its own |
| DnsResolver.StepKeepsConnection | src/mongoose.c:1801-2066 | a connection stays until closed, is marked for closing by an abort or an error, stops resolving when answered, and keeps its handler |
| DnsResolver.StepMakesConnection | src/mongoose.c:2022-2066 | no connection comes but by a start, which makes one that resolves and, with no socket open, one that answers |
| DnsResolver.StepSocket | src/mongoose.c:2022-2066 | a start that finds no socket opens one to the server it was given, and only its close ends it |
| DnsResolver.HandOverFailsEachOnce | src/MongooseCore.cpp:145-182 | when an open resolver is retired nothing waits any more, no lookup was errored twice and none that was already closing; absent interfering handlers exactly the open ones were errored; the socket is retired: closing, detached and no longer the manager's |
| DnsResolver.HandedOverConnections | src/MongooseCore.cpp:154-181 | connection by connection: the retired socket is closing and detached; no other loses its handler or stops resolving; one is to be closed iff it was, or is the socket, or failed, or the handler of one that failed aborts it |
| DnsRuns.DeferredCloseIsInert | src/MongooseCore.cpp:151-181 | in every later run, with any number of further hand-overs, restarts, handlers and lookups, a retired socket stays closing, and its deferred close errors nothing and cancels no lookup but its own |
| DnsRuns.EveryRetiredSocketIsInert | src/MongooseCore.cpp:145-182 | so of every hand-over in every run from an empty manager |
| DnsRuns.EveryChainIsSane | src/MongooseCore.cpp:145-182 | in every run, hand-overs and restarts included, lookups wait on resolving connections, at most one socket answers, and the list of pending lookups holds each connection once |
| DnsRuns.NextKeepsSane | src/MongooseCore.cpp:145-182 | an event, a hand-over, a handler's aborts or a restart each keeps that |
| DnsResolver.AttachedCloseFailsEveryLookup | src/mongoose.c:1940-1988 | without the detachment the close errors every lookup of the manager, whichever socket carries it |
| DnsResolver.LocalLookupsFailToo | src/MongooseCore.cpp:154-174 | a multicast lookup still open is errored by the hand-over as well |
| DnsResolver.LocalLookupExample | src/MongooseCore.cpp:154-174 | a run with one lookup of each kind in which the multicast one is errored however the socket is retired |
| DnsResolver.Manager.ResolveCancel | src/mongoose.c:1801-1816 | cancelling removes exactly that connection's lookups |
| DnsResolver.Manager.Visit | src/MongooseCore.cpp:167-177 | one round of the walk settles one more connection, whatever its error handler aborts |
| DnsResolver.Manager.CloseResolver | src/MongooseCore.cpp:145-182 | the walk achieves the hand-over on every well-formed manager, leaving no socket and the old one closing and detached; with no socket nothing changes |
| DnsTimeouts.TimeOut | src/MongooseSocket.cpp:72-126 | an error from a timeout reaches the core before the application: hand-over first if it rotates to another server, then the connection's own handler; a connection without a handler object tells neither |
| DnsTimeouts.PollTimeouts | src/mongoose.c:1943-1949 | on every core whose socket is open, the walk over pending lookups comes to an entry that is gone iff a rotation retires the socket while a further entry is pending; otherwise every expired lookup is errored; no connection is errored twice; and the walk is itself a stretch of a run |
| DnsTimeouts.FirstTimeoutDecides | src/MongooseCore.cpp:189-202 | with a running clock that happens iff a rotation is due and some entry follows the first one whose timeout the core hears of |
| DnsTimeouts.OneRotationPerWalk | src/MongooseCore.cpp:194-198 | with a running clock a throttled core rotates at no entry of the walk |
| DnsTimeouts.InterruptedExample | src/mongoose.c:1943-1949 | a configuration, a start and two lookups after which it does |
| DnsFailover.AgreementIsKept | src/MongooseCore.cpp:126-143 | one operation keeps table, active buffer, URL and open socket in agreement iff it does not configure the server a stale buffer still holds |
| DnsFailover.AgreementThroughout | src/MongooseCore.cpp:35-143 | over every run the four agree at every step iff no call configures the server a stale buffer still holds |
| DnsFailover.AgreementOverRuns | src/MongooseCore.cpp:35-143 | over every run in which no restart ends with an emptied table after a non-empty one the four agree and the index is in range |
| DnsFailover.SelectionOverRuns | src/MongooseCore.cpp:126-143 | over every run whatever, once configured, index, private buffer and URL stay with the same table entry |
| DnsFailover.UsableIsExact | src/MongooseCore.cpp:110-116 | of any list exactly the entries neither null nor empty go into the table, each at the number of such entries before it and cut to 57 characters, as many as fit |
| DnsFailover.RestartStartsOver | src/MongooseCore.cpp:35-48 | a restart drops the socket and sets the timeout to 3000; without servers the URL is "udp://8.8.8.8:53", with them the server stays, or is the first of the platform's list |
| DnsFailover.LookupOpensOnce | src/mongoose.c:2022-2066 | a lookup opens a socket iff there is none, to the server selected |
| DnsFailover.ClosedSocketIsReopened | src/mongoose.c:2022-2066 | a socket that was closed is opened again by the next lookup, to the server selected by then |
| DnsFailover.TimeoutIsAsSet | src/MongooseCore.cpp:35-48 | over every run the timeout is the one last set, or 3000 since a restart |
| DnsFailover.StaleBufferExample | src/MongooseCore.cpp:35-48 | the five calls after which the socket talks to another server than the URL names |
| DnsFailover.RotationsCycle | src/MongooseCore.cpp:189-202 | since a configuration the k-th successful rotation selects entry k modulo the count, through restarts, lookups and errors |
| DnsFailover.RotationsAreSpaced | src/MongooseCore.cpp:194-198 | after a rotation the next timeout rotates iff there are two servers and the timeout has passed since, or the clock read 0 at the first or has gone back |
| DnsFailover.FreshConfigurationRotates | src/MongooseCore.cpp:108-119 | after a configuration the first timeout rotates iff there are two servers, whatever was throttled before |
| DnsFailover.OnlyTimeoutsRotate | src/MongooseCore.cpp:189-193 | no other error does anything, nor any with fewer than two servers |
| DnsFailover.RotationChangesServer | src/MongooseCore.cpp:189-202 | a reported rotation changes the server and retires the socket iff the next entry differs, as it does in a table without repeats |
| DnsFailover.MongooseCore.UseNameserver | src/MongooseCore.cpp:126-143 | in place, selecting hands over the resolver exactly when the server changes, and moves the manager along a run |
| DnsFailover.MongooseCore.HandOver | src/MongooseCore.cpp:145-182 | retiring the socket is one step of a run of the manager, or none |
| DnsFailover.MongooseCore.FillTable | src/MongooseCore.cpp:110-116 | the table holds the entries neither null nor empty, in order, cut to their slot, as many as fit |
| DnsFailover.MongooseCore.SetNameservers | src/MongooseCore.cpp:108-119 | in place, configuring is the configuration of the value model |
| DnsFailover.MongooseCore.DnsError | src/MongooseCore.cpp:189-202 | reports true exactly on a timeout with two servers or more outside the throttle, and then rotates; otherwise nothing changes |
| DnsFailover.MongooseCore.Begin | src/MongooseCore.cpp:35-48 | a restart forgets the socket, configures the platform's list if there is one, and selects the active server, or keeps the default with an empty table |
| IpConfig.FirstsAreExact | src/MongooseCore.cpp:84-102 | an address is kept iff the interface has it and it is not zero |
| IpConfig.FirstsAreDistinct | src/MongooseCore.cpp:88-97 | no address is kept twice |
| IpConfig.FirstsAreInOrder | src/MongooseCore.cpp:84-102 | the addresses are kept in the order of their first mention |
| IpConfig.UrlExamples | src/MongooseCore.cpp:98 | the URLs of 8.8.8.8 and 192.168.0.10 |
| IpConfig.UrlOfIsInjective | src/MongooseCore.cpp:98 | different addresses have different URLs |
| IpConfig.TableFromInterface | src/MongooseCore.cpp:65-119 | the table holds every address once and uncut, pairwise distinct as URLs |
| IpConfig.EveryRotationMoves | src/MongooseCore.cpp:65-202 | configured from the interface in any state, every rotation reported in any later run lands on another server |
| IpConfig.CollectServers | src/MongooseCore.cpp:84-102 | the two loops offer exactly the distinct non-zero addresses in order |
| Upload.EveryRunIsSound | src/MongooseHttpServerRequestUpload.cpp:93-153 | over any packetisation the trace is BEGIN, then DATA whose index is the sum of earlier lengths and whose bytes are what arrived and is no longer buffered, and stops at the callback answered on |
| Upload.UnansweredUpload | src/MongooseHttpServerRequestUpload.cpp:124-153 | unanswered, everything arrived is delivered and END has come iff the declared length has arrived |
| Upload.AnsweredExactly | src/MongooseHttpServerRequestUpload.cpp:124-153 | a request is answered iff the application answered between two reads or on the last callback it was given |
| Upload.FirstEndAtDeclaredLength | src/MongooseHttpServerRequestUpload.cpp:145-150 | the first END carries the declared length as index and follows exactly the first that many bytes |
| Upload.ExtraBytesRepeatEnd | src/MongooseHttpServerRequestUpload.cpp:131-152 | after the end, a read brings another END iff the handler has left it unanswered, more bytes are there, and it leaves those unanswered too |
| Upload.TwoEnds | src/MongooseHttpServerRequestUpload.cpp:131-152 | two packets of one octet for a declared length of one, and two ENDs |
| Upload.NothingFollowsTheAnswer | src/MongooseHttpServerRequestUpload.cpp:126-131 | once the application has answered, from a callback or between reads, no callback follows in any later run |
| Upload.BodyIsLeft | src/MongooseHttpServerRequestUpload.cpp:95-99 | what is left after stripping is the body iff no earlier request is still in the buffer |
| Upload.UploadDeliversTheBody | src/MongooseHttpServerRequestUpload.cpp:93-153 | over every run what is delivered and buffered is the tail of what came before the body, then body and packets; unanswered and unfinished, the application has the body sent iff nothing came before its head |
| Upload.PipelinedUpload | src/mongoose.c:4855-4883 | an upload behind a request of one octet: it starts with the end of its head, ends, and gets its last octet and a second END when the same event reaches it again |
| Upload.RawUpload.constructor | src/MongooseHttpServerRequestUpload.cpp:91-117 | as many octets as the head has are taken from the front of the buffer, whatever is there; the rest is delivered as a first packet, unless the handler answered |
| Upload.RawUpload.OnReceive | src/MongooseHttpServerRequestUpload.cpp:124-153 | the loop over the receive buffer takes exactly the step of the trace model |
| Upload.Multipart | src/MongooseHttpServerRequestUpload.cpp:160-211 | the trace is the BEGIN DATA END of every part, indices running over all parts, up to the first callback the handler answered on |
| Upload.PartsAreIndexed | src/MongooseHttpServerRequestUpload.cpp:184-207 | each part begins at the number of body bytes delivered before it, gives its whole body under that index, and ends as many bytes further on |
| Upload.CutIsExact | src/MongooseHttpServerRequestUpload.cpp:193-210 | a trace stops exactly at the first answer, with no callback after it, iff it is that one: parts and answers determine it completely |
| Upload.WholeGrows | src/MongooseHttpServerRequestUpload.cpp:191-207 | the callbacks of the first parts are a prefix of those of more parts, whatever follows |
| Upload.ChoosePath | src/MongooseHttpServerRequestUpload.cpp:57-93 | which of the four paths an upload takes, and that nothing over the limit is buffered |
| Download.EveryRunIsSound | src/MongooseHttpClient.cpp:239-269 | over any packetisation the pieces are the body bytes that arrived, in order; the end comes once, after the last piece, exactly when all were delivered |
| Download.StreamingRefinesBuffering | src/MongooseHttpClient.cpp:186-269 | an application that never aborts gets the same body and the same single end streamed as buffered, and bytes after the body are dropped |
| Download.AbortStopsDelivery | src/MongooseHttpClient.cpp:245-268 | after an abort nothing is delivered in any later run; the end was delivered iff the whole body had been |
| Download.AbortedExactly | src/MongooseHttpClient.cpp:239-269 | the connection is closing iff the application aborted between two reads or on the last piece it was given |
| Download.EndDropsTheRest | src/MongooseHttpClient.cpp:262-268 | what is left in the buffer when the body ends is dropped |
| Download.HttpClientRequest.OnReceive | src/MongooseHttpClient.cpp:239-269 | the loop takes exactly the step of the stream model; before streaming bytes are only buffered |
| Download.HttpClientRequest.HandleHeaders | src/MongooseHttpClient.cpp:190-216 | streaming starts iff asked for, not chunked, with a declared non-empty body; then the body bytes already there are delivered |
| Download.HttpClientRequest.HandleMessage | src/MongooseHttpClient.cpp:218-235 | the buffered path delivers the whole body and then the end |
| Backoff.Factor | src/MongooseWebSocketClient.cpp:237-240 | the loop ends with 2^min(n, k), k the least power that reaches the largest factor |
| Backoff.Compute | src/MongooseWebSocketClient.cpp:229-244 | for every interval and count the delay is min(base * 2^min(n, k), 60000), with no 32-bit overflow on the way |
| Backoff.LeastPowerIsLeast | src/MongooseWebSocketClient.cpp:233-240 | no smaller power reaches the factor |
| Backoff.SaturationIsLeast | src/MongooseWebSocketClient.cpp:232-240 | the delay is saturated from the least count on whose power reaches 60000 / base, or at once with a base above 60000 |
| Backoff.DelayNeverDecreases | src/MongooseWebSocketClient.cpp:229-244 | more failures never shorten the wait |
| Backoff.SaturatedDelay | src/MongooseWebSocketClient.cpp:232-244 | once saturated the wait is above 30000 and at most 60000 |
| Backoff.DocumentedDelay | src/MongooseWebSocketClient.h:235-241 | the wait is the documented one iff the count is within saturation or the last doubling reached the cap |
| Backoff.SevenSeconds | src/MongooseWebSocketClient.h:235-241 | with a base of 7000 the wait settles at 56000 where the description gives 60000 |
| WebSocketClient.StepKeepsConsistent | src/MongooseWebSocketClient.cpp:54-273 | an event keeps "pointer set iff CONNECTING, CONNECTED or CLOSING; no error state; only that pointer dispatches" iff it opens no connection that fails inside the call |
| WebSocketClient.RunsStayConsistent | src/MongooseWebSocketClient.cpp:54-273 | over whole runs the same, at every step, iff no opening fails inside the call |
| WebSocketClient.ConnectReplaces | src/MongooseWebSocketClient.cpp:60-90 | replacing a live connection closes it, and only the new one reaches the client |
| WebSocketClient.FailureInsideStrands | src/MongooseWebSocketClient.cpp:253-272 | a failure inside the opening call leaves a pointer that no event reaches |
| WebSocketClient.StrandedForGood | src/MongooseWebSocketClient.cpp:106-112 | nothing but another connect() ends that |
| WebSocketClient.WrappedNeverExceedsTrue | src/MongooseWebSocketClient.cpp:246 | the wrapped 32-bit difference of two readings never exceeds the true one |
| WebSocketClient.WrappedIsTrue | src/MongooseWebSocketClient.cpp:246 | and is the true one within one turn of the clock |
| WebSocketClient.AttemptsAreSpaced | src/MongooseWebSocketClient.cpp:106-251 | two attempts of loop() with no connect() between are at least the current delay apart in true time, and within one turn of the clock an unconnected client makes the second exactly when that has passed; if the clock read 0 at the first, at once |
| WebSocketClient.AttemptsAreCounted | src/MongooseWebSocketClient.cpp:220-251 | over every run the count behind the delay is the number of attempts since the last successful connect() call or open event |
| WebSocketClient.FailuresAddUp | src/MongooseWebSocketClient.cpp:251 | while nothing succeeds every attempt adds one |
| WebSocketClient.FailuresLengthenTheWait | src/MongooseWebSocketClient.cpp:229-251 | after n attempts in a row that came to nothing, the next one is at least Delay(interval, n) after the last |
| WebSocketClient.HearingIsRecorded | src/MongooseWebSocketClient.cpp:159-202 | over every run the time of the last sign of life is that of the last open, message or control event |
| WebSocketClient.StaleConnectionIsDropped | src/MongooseWebSocketClient.cpp:135-149 | after any run an open connection is given up at a poll iff a limit is set and the peer has been silent for longer; it then drains |
| WebSocketClient.PingsAreSpaced | src/MongooseWebSocketClient.cpp:135-149 | an open connection is pinged at a poll iff the interval has passed since it opened or was last pinged |
| WebSocketClient.StepMovesState | src/MongooseWebSocketClient.cpp:93-202 | the client is CONNECTED iff an open event made it so and nothing has ended or unsettled it; CLOSING iff it was disconnected, went stale or was told of the close, and has not been unsettled or opened since |
| WebSocketClient.StepKeepsLinks | src/MongooseWebSocketClient.cpp:60-157 | a connection is cut off and closed iff it errors or is replaced, and drains iff the client disconnects or finds it stale |
| WebSocketClient.IntervalIsAsSet | src/MongooseWebSocketClient.h:235-241 | over every run the interval is the one last set |
| WebSocketClient.UrlIsKept | src/MongooseWebSocketClient.cpp:54-112 | an address once given is kept, through failures and disconnects |
| WebSocketClient.MongooseWebSocketClient.AttemptReconnect | src/MongooseWebSocketClient.cpp:220-273 | in place, an attempt throttles, adds one to the count and opens as the value model does |
| WebSocketClient.MongooseWebSocketClient.Connect | src/MongooseWebSocketClient.cpp:54-91 | in place, connecting drops the old connection, resets the count and attempts; it returns whether the pointer is set |
| WebSocketClient.MongooseWebSocketClient.Disconnect | src/MongooseWebSocketClient.cpp:93-104 | in place, disconnecting drains and waits in CLOSING, or does nothing |
| WebSocketClient.MongooseWebSocketClient.Loop | src/MongooseWebSocketClient.cpp:106-112 | in place, loop attempts only when unconnected, configured and with a non-zero interval |
| WebSocketClient.MongooseWebSocketClient.OnPoll | src/MongooseWebSocketClient.cpp:135-149 | in place, a poll pings when due and disconnects a stale connection |
| WebSocketClient.MongooseWebSocketClient.OnError | src/MongooseWebSocketClient.cpp:151-157 | in place, an error detaches the connection and cleans up |
| WebSocketClient.MongooseWebSocketClient.OnClose | src/MongooseWebSocketClient.cpp:204-218 | in place, a close clears pointer and state |
| WebSocketClient.MongooseWebSocketClient.Handle | src/MongooseWebSocketClient.cpp:159-202 | every event, dispatched by the connection it is for, takes the step of the value model |
| WebSocketClient.MongooseWebSocketClient.RunAll | src/MongooseWebSocketClient.cpp:54-273 | any run in place ends where the value model does, consistent |

## Left out

- The inside of `mongoose.c`: HTTP, DNS and multipart parsing, TLS, sockets, `mg_match`. Its results are inputs of the model.
- Callbacks that re-enter: an error handler that calls `connect()` or starts a lookup while `onError` or `closeResolver` is still running.
- Allocation failure and a failing `mg_send`, except where the code reports it through its own result.
- The walks of `dns_cb` for a reply and for a close as loops; they set off no rotation, and their effect on lookups is modelled. Its timeout walk is `DnsTimeouts.PollTimeouts`.
- What the walk of `dns_cb` does after it has come to an entry that is gone: nothing can be said of it.
- How long a protocol header string is: headers are one block with a width, and their text is not modelled.
- The choice between keep-alive and close from version, Connection header and pool size (`negotiateKeepAlive`, `allowKeepAlive`): it is an input, since every result holds for both outcomes.
- The body of a copied message, which stays a view of the receive buffer until the message event renews it.
- Uploads and WebSocket upgrades inside the multi-connection server: both detach the HTTP handler; uploads are modelled by themselves in `Upload.dfy`.
- A second `send` for one request.
- Virtual dispatch to the response classes within the server: there a response is the body bytes still to be queued; `Responses.dfy` shows that both classes offer just those, and `HttpConnection.PumpIsAnOffer` that the server pumps them so.
- The response of the library itself to a POST without a length (411), which does not pass through the server class.
- Stale octets of a TXT slot past its length, which nothing reads.
- The two-argument `addService` and `removeService`, whose 64-byte formatting truncates.
- Wrap-around of the 64-bit clock and of the attempt counter.
- MQTT, SNTP, the string helpers, status texts, certificates and authentication: no state across events.
