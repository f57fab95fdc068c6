# socket_to_rdma, verified

socket_to_rdma forwards the socket calls of a program from a host to a SmartNIC over RDMA and promises
to do so transparently. This project models the parts of it that are hard to get right, in Dafny, and
proves what they do.

- `Messages`, `Posting`, `Reference`, `Protocol`, `ProtocolInvariant`, `Transparency`, `SizeBound`,
  `Exactness`: the request/reply protocol of one connection with host thread, server thread, queue pair,
  buffers, kernel
- `Handshake`: how host threads get their own connections
- `Murmur`, `TableSpec`, `ChainTable`, `FdRouting`: the hash, the chained tables on the heap, and the
  routing of descriptors that rests on them
- `WireBuffer`, `EpollCodec`, `SelectCodec`, `CallCodecs`: the codecs of `epoll_wait`, `select`, `poll`,
  `fcntl` and the socket options
- `HttpFraming`, `HttpServer`, `ContentLength`, `HttpClient`: stream framing in the HTTP test programs
- `Bytes`, `Options`: little-endian integers, buffers, options

## The protocol

A state holds both end points (phase, request and reply buffer, completion queue with its armed bit and
pending events, receive credits), the writes under way in both directions and the kernel's state. Each
of the 24 steps is one action of the host thread, the server thread or the network; a run is any
sequence of steps that are possible one after the other, so every interleaving is a run. The kernel is
any deterministic step function that keeps to POSIX (`KernelOk`): -1 on failure, never more bytes than
asked for.

The machine takes for granted what the code leans on, and states it at the head of `Protocol.dfy`: a
posted write carries the buffer as it was when it was posted; writes of one direction arrive in order; a
write with immediate waits for a receive credit; no completion fails; no request lands between the
posting of a reply and the clears that follow it.

A direct call is the system call with the caller's own arguments. What a handler makes of them is part of
the model: for SELECT and FCNTL the request is what the host's encoder leaves in the buffer, and the
system call is what the SmartNIC's decoder and handler make of it. What a handler finds around it and did
not put there (an address, a register, its stack) is a parameter of its step, so that a run fixes it and
the theorems hold for all of it. The block that comes back with a reply is the kernel's output as the
handler encodes it; decoding it is the codecs' business.

Where the code does not keep the promise, the theorems say exactly when it does:

- `SETSOCKOPT` and `GETSOCKOPT` never assign the result (snic/socket.c:369-406). They return what an
  earlier call left behind, and are transparent exactly when that happens to agree. A program that opens
  a socket and sets an option on it gets the descriptor back (`Exactness.OptionReturnsDescriptor`).
- `sock_select` always passes three sets and a timeout (snic/socket.c:173-185). A missing set becomes
  whatever is on its stack, a missing timeout becomes zero, so that a select that should wait comes back at
  once; and the flag overwrites the first three bytes of the read set. A SELECT arrives as it was made
  exactly if it brings everything and a read set that begins with the bytes 4, 0, 0.
- `sock_fcntl` passes an address where F_SETFL, F_SETFD and F_DUPFD expect a number, and nothing for
  commands that the encoder does not know (snic/socket.c:347-354). These arrive only by luck; commands
  without argument and commands with a lock always do.
- Together: calls within the size bound are transparent for every kernel and schedule if and only if none
  is a socket option and all of them arrive (`Exactness.TransparencyIsExact`).
- The clear after a WRITE zeroes `sizeof(struct req_msg)` bytes from `req.data` on
  (snic/rdma_server.c:952). That runs fourteen bytes past the request, over the error number, the result
  and two data bytes of the reply stored behind it, so the stale result is then 0.
- An answer to a READ of 12 bytes less than the buffer, or more, is posted more than once
  (snic/rdma_server.c:692-710), and the surplus reply is taken for the answer to the next call. The bound
  is exact: `SizeBound.BoundIsExact`.
- A connect that fails on the host after the server has answered leaves the server waiting: its wait can
  still be met exactly in the runs without such a failure (`Handshake.WaitIsMetIff`). The model has only
  failures before the connect request is sent, and no connection manager event but the requests of the
  threads. Any other event would end the wait too, because `waiting_client_conn`
  (snic/rdma_server.c:113-122) overwrites the result that tells them apart.
- A connected descriptor stays routed after its close (`FdRouting.ClosedSocketStaysRouted`), and with the
  real hash descriptor 45 is not routed while 19 is open (`FdRouting.RealCollisionMisroutes`).
- `deleteByKey` of snic/hash_delee.c keeps the lock exactly when the bucket is empty
  (`ChainTable.HashTable.DeleteByKeyLeaky`).
- The HTTP server frees a connection with a response unsent in two cases, and only in these: the kernel
  does not take everything and the connection is to be closed (`HttpServer.ShortWriteTruncates`), or it
  takes everything and the last request that `on_write` then reads is to be closed after its answer, which
  includes every 404 (`HttpServer.RequestIsDropped`, `HttpServer.NotFoundIsDropped`). The exact condition is in the contract of
  `HttpServer.Client.OnWrite`.
- The HTTP client takes its length from the body when the header has a Content-Length without a value, and
  also when it has none and the body spells one out, because header and body bytes are searched alike. The
  length is independent of the chunking if and only if the header settles it, or leaves no room in the
  buffer for a body that would (`HttpClient.LengthIsFixedIff`).

## Model

| member | source | states |
|---|---|---|
| `Transparency.CallsAreTransparent` | host/rdma_client.c:679-887 | In every run, under every schedule, with READ and WRITE lengths below BUFFER_SIZE - 12: as long as every call so far arrived as it was made, each call whose request was posted and that returned gave the result, the errno, the bytes and the output block that the same calls give when made on the kernel directly, and never more bytes than asked for; the two socket option calls do so exactly when the stale result agrees |
| `Transparency.CallsAreAnswered` | snic/rdma_server.c:900-1105 | In every such run, each call returned the kernel's answer to the system call that its handler made, and that is the direct call if and only if the call was delivered |
| `Exactness.TransparencyIsExact` | snic/socket.c:161-406 | For every list of calls within the bound and every environment of the handlers: the calls are transparent for all kernels and schedules if and only if none is a socket option and all are delivered |
| `Exactness.RunCalls` | host/rdma_client.c:679-887 | For every list of calls there is a run that makes them all and returns from each |
| `Exactness.OptionReturnsDescriptor` | snic/socket.c:369-384 | For every option: a run in which setsockopt after socket returns the descriptor although the kernel answered 0 |
| `Exactness.OptionAfterWriteReturnsZero` | snic/rdma_server.c:947-954 | For every WRITE and every option: a run in which the option after the WRITE returns 0 although the kernel failed it, because the clear behind the WRITE reaches the result |
| `Transparency.MatchingIsTransparent` | snic/socket.c:369-406 | A reply with the stored result is the kernel's answer to the handler's system call, for socket options if and only if the stale result agrees |
| `Transparency.PostedAreTheCalls` | host/rdma_client.c:746-775 | Unless a call gives up before posting, the requests posted are the calls made, in order, without loss or repetition |
| `Transparency.OneReplyPerRequest` | host/rdma_client.c:619-640 | In every run at most one message is under way; receives posted run ahead of replies delivered by 0 or 1 (plus one per call that gave up); no write ever waits for a receive credit; and a reply under way or unread is the right reply to the oldest call that has not returned |
| `Transparency.NoLostWakeup` | snic/rdma_server.c:735-788 | In every run, a server blocked without a pending event has an empty, armed queue; a host blocked without one has no unread reply, although it returns without draining; and a drain never meets a reply |
| `Transparency.NeverStuck` | host/rdma_client.c:890-977 | While a call is in progress, some step other than a new call is possible |
| `Transparency.RankDecreases` | host/rdma_client.c:921-977 | Every such step brings the system closer to rest, whatever the schedule |
| `Transparency.EveryCallCompletes` | host/rdma_client.c:679-887 | After any run, the system comes to rest within a computable number of steps under every schedule, and at rest no call is left hanging |
| `ProtocolInvariant.InvKept` | snic/rdma_server.c:900-1105 | One token: counts, credits, wakeups, history, and the contents of both buffers are kept by each of the 24 steps |
| `ProtocolInvariant.InvAlways` | snic/rdma_server.c:727-792 | The invariant holds after every run |
| `ProtocolInvariant.HandleStep` | snic/rdma_server.c:900-985 | Running a handler executes exactly the next call on the kernel, yields the right reply and posts it once |
| `Protocol.NotificationIsOneShot` | host/rdma_client.c:900-915 | An armed queue raises one event however many completions arrive |
| `Protocol.FourAttempts` | host/rdma_client.c:538-617 | A call gives up after its fourth attempt and not before, and a drain takes up to 32 completions |
| `Protocol.ReplyDescriptor` | snic/rdma_server.c:980-1000 | A reply carries the descriptor of its request, or the one that epoll_create1 has made |
| `Messages.RequestReachesKernel` | host/rdma_client.c:700-718 | Whatever the request buffer held before, a call within the bound reaches the kernel with the arguments of the direct call if and only if it is delivered: always, but for SELECT and FCNTL |
| `Messages.SelectArrives` | snic/socket.c:161-185 | What the kernel is given for a SELECT, through encoder, buffer, decoder and handler |
| `Messages.FcntlArrives` | snic/socket.c:340-354 | What the kernel is given for an FCNTL, through encoder, buffer, decoder and handler |
| `Messages.WriteReachesKernelIff` | host/rdma_client.c:707-718 | For a WRITE that fits the buffer: it does so if and only if the length is within the bound or the stale bytes happen to be the missing ones |
| `Messages.BlocksArrive` | host/rdma_common.c:342-505 | The argument blocks of epoll_create1 (4 bytes), epoll_ctl (24), epoll_wait (16), getpeername and getsockname (20), poll (12 + 8 per descriptor) and the socket options (12 + length) reach the kernel call unchanged |
| `Messages.DirectCallsDiffer` | snic/socket.c:11-456 | Direct system calls keep apart all that a call brings: descriptor, port, length, payload, sets, command and argument |
| `Messages.OutputIsSent` | snic/socket.c:137-459 | Exactly READ and SELECT with a positive result, and epoll_wait, poll, getsockopt, getpeername and getsockname without a failure, put their output into the reply; all others leave its data alone |
| `Messages.ClearsAre` | snic/rdma_server.c:711-723 | Which bytes of request and reply the clears behind a reply zero, byte by byte |
| `Messages.BlockOfPayload` | host/rdma_common.c:812-830 | The argument blocks of the calls delimit themselves, so stale bytes behind a block are never read |
| `Reference.ReplyGivesOutcome` | host/rdma_client.c:780-887 | A right reply makes `set_req_sock` return the direct outcome |
| `Reference.HandlerReplies` | snic/socket.c:11-160 | A handler that runs on the rest of the calls before it produces the right reply |
| `Posting.PostReplies` | snic/rdma_server.c:692-710 | The chunk loop ends; its chunks add up to 12 + the result; it posts 1 reply below the buffer size, and (total - BUFFER_SIZE) / (BUFFER_SIZE - 12) + 2 otherwise |
| `Posting.Drain` | host/rdma_client.c:563-600 | A drain polls at most 32 times, and stops only at an empty queue, a poll error or the limit |
| `Posting.PostWriteReq` | host/rdma_client.c:544-617 | At most 4 attempts, only the last of which can succeed; at most 128 polls; which attempt decides the outcome |
| `SizeBound.SurplusReplyIsMistaken` | snic/rdma_server.c:692-710 | For every READ length from the bound on, a run in which the CLOSE after the READ returns the READ's result |
| `SizeBound.BoundIsExact` | snic/rdma_server.c:692-710 | Reads of n bytes are transparent for all kernels and schedules if and only if n < BUFFER_SIZE - 12 |
| `Handshake.InvAlways` | host/hook.c:95-138 | In every interleaving of any number of threads: lock, wire, server and connections stay in step |
| `Handshake.HandshakeIsSafe` | host/hook.c:95-138 | As long as no connect fails: one thread inside the handshake, one message outstanding, the server's connect wait is met by the thread that asked, no thread has two connections, and between handshakes both sides list the same connections |
| `Handshake.CountsAgree` | snic/rdma_server.c:1106-1137 | Between handshakes, as many connections on the server as on the host |
| `Handshake.HandshakeAdvances` | snic/rdma_server.c:821-858 | Every step brings the current handshake closer to its end |
| `Handshake.HandshakeNeverStuck` | snic/rdma_server.c:1106-1137 | While a thread holds the lock, the handshake can go on without a failure |
| `Handshake.FailedConnectBlocksServer` | host/hook.c:118-126 | After a connect that failed before its request was sent, in every continuation: the server does not leave its wait and no thread gets a connection again |
| `Handshake.WaitIsMetIff` | snic/rdma_server.c:109-132 | In every run, the server's wait can still be met if and only if no connect has failed |
| `Handshake.FailureIsReachable` | host/hook.c:118-126 | The six steps by which any thread gets there |
| `Murmur.ReadTail` | host/hash_delee.c:24-35 | The fall-through switch assembles the tail bytes |
| `Murmur.MurmurHash3` | host/hash_delee.c:3-47 | The loop computes the recursive definition of the hash, for every length and seed |
| `Murmur.KnownValues` | host/hash_delee.c:3-47 | The definition has the known values of MurmurHash3_x86_32 for an empty string, a block and a tail |
| `Murmur.KnownLongValue` | host/hash_delee.c:3-47 | And the known value of a string of three blocks and a tail of one byte |
| `Murmur.OneBlockChangesHash` | host/hash_delee.c:3-47 | Strings of any one length that differ in exactly one 4-byte block have different hashes |
| `Murmur.TailChangesHash` | host/hash_delee.c:3-47 | And so have strings that differ only in the last 1 to 3 bytes |
| `Murmur.HashKeyIsHash` | host/hash_delee.c:49-53 | The one-block formula is the hash of a 4-byte key |
| `Murmur.HashKeyIsBijection` | host/hash_delee.c:49-53 | On 4-byte keys the hash is a bijection, with its inverse given |
| `Murmur.BucketsAreEven` | host/hash_delee.c:49-53 | Every bucket is hit by exactly 2^22 keys: an explicit one-to-one numbering of the keys of each bucket |
| `TableSpec.RemoveTakesOne` | snic/hash_delee.cpp:135-158 | Removing a key takes its oldest binding, the one that a search finds, keeps the order of the rest, and changes nothing without one |
| `TableSpec.RemoveKeepsOthers` | snic/hash_delee.cpp:135-158 | Removing a key does not change what other keys find |
| `TableSpec.FindInBucket` | snic/hash_delee.cpp:97-113 | Searching the chain of a key's bucket is searching all bindings in the order of insertion |
| `TableSpec.RemoveInBucket` | snic/hash_delee.cpp:135-158 | Removing from one chain is removing from the whole |
| `TableSpec.HeadFindIsSound` | host/hash_delee.c:106-120 | Head-only search never returns another key's value and finds a key exactly when it heads its chain |
| `TableSpec.SearchesAgreeIff` | host/hash_delee.c:457-472 | Head-only and chain search agree on every key if and only if live keys occupy distinct buckets |
| `ChainTable.HashTable.constructor` | snic/hash_delee.cpp:49-58 | An empty table |
| `ChainTable.HashTable.InsertByValue` | snic/hash_delee.cpp:70-94 | Appends one binding; chains stay linked, acyclic, disjoint and in their buckets; the lock is released |
| `ChainTable.HashTable.SearchByKey` | snic/hash_delee.cpp:97-113 | Returns the oldest live binding of the key |
| `ChainTable.HashTable.SearchHead` | host/hash_delee.c:106-120 | Returns the head of the key's bucket if it has the key |
| `ChainTable.HashTable.DeleteByKey` | snic/hash_delee.cpp:135-158 | Removes exactly the oldest binding of the key, in place, and frees exactly its node |
| `ChainTable.HashTable.DeleteByKeyLeaky` | snic/hash_delee.c:138-176 | Removes exactly the oldest binding of the key and frees exactly its node, but the lock stays held if and only if the bucket was empty |
| `ChainTable.HashTable.FreeHashTable` | snic/hash_delee.cpp:188-203 | Every node is given back once, none twice, and no bucket points to one afterwards |
| `FdRouting.Hooks.ReqSocket` | host/hook.c:249-280 | A new descriptor above 2 gets a node |
| `FdRouting.Hooks.ReqEpollCreate` | host/hook.c:539-565 | A new descriptor above 0 gets a node |
| `FdRouting.Hooks.ReqAccept` | host/hook.c:486-513 | The call leaves the host if the listener is found; a new descriptor gets a node |
| `FdRouting.Hooks.ReqConnect` | host/hook.c:283-323 | The call leaves the host if the descriptor is found, which then gets a second node |
| `FdRouting.Hooks.ReqClose` | host/hook.c:400-419 | The call leaves the host if the descriptor is found, which then loses one node |
| `FdRouting.NodesAreCounted` | host/hook.c:249-323 | In every run, with any collisions: nodes of a descriptor = creations + routed connects - routed closes |
| `FdRouting.RoutedIffHead` | host/hash_delee.c:457-472 | In every run, a descriptor is routed if and only if it heads its chain |
| `FdRouting.RoutedWhileCounted` | host/hash_delee.c:457-472 | In every run whose descriptors never share a bucket, a use, connect, close or accept leaves the host exactly while that count is positive |
| `FdRouting.RoutingIsCounting` | host/hook.c:249-323 | In such runs every decision is the one that plain counters, without any table, make |
| `FdRouting.ClosedSocketStaysRouted` | host/hook.c:283-323 | After socket, connect and close the descriptor is still routed, until it is closed once more |
| `FdRouting.NewDescriptorIsRouted` | host/hook.c:249-280 | Which results become descriptors: of socket those above 2, of epoll_create1 and of a routed accept those above 0; calls on descriptors of the host leave no trace |
| `FdRouting.CollisionMisroutes` | host/hash_delee.c:457-472 | Of two descriptors in one bucket the younger is not routed, and its close leaves its node behind |
| `FdRouting.RealCollisionMisroutes` | host/hash_delee.c:49-53 | With the real hash descriptors 19 and 45 share bucket 783, so the second is not routed |
| `FdRouting.BucketIsHash` | host/hash_delee.c:49-53 | The bucket of an int key is MurmurHash3 of its four little-endian bytes with seed 4426, modulo 1024 |
| `FdRouting.NewHooks` | host/hash_delee.c:404-416 | The descriptor table of the host is a valid empty table over the real hash |
| `FdRouting.CollisionsAreInevitable` | host/hash_delee.c:49-53 | Among more descriptors than buckets two always collide |
| `EpollCodec.SerializeEpollWait` | snic/rdma_common.c:405-443 | The message holds the header and exactly the first min(n, (1008 - sz) / 12 + 1) events; the rest of the buffer is untouched |
| `EpollCodec.DeserializeEpollWait` | host/rdma_common.c:473-504 | Reads the header and that many events, for any message; later slots of the caller's array are untouched |
| `EpollCodec.EpollWaitRoundTrip` | host/rdma_common.c:433-504 | Decoding what was encoded gives the header and those events exactly |
| `EpollCodec.CarryEpollWait` | snic/rdma_common.c:405-443 | Both together, end to end |
| `SelectCodec.SerializeSelect` | host/rdma_common.c:607-661 | The message holds nfds, flag and sets; of the read set the first three bytes are lost to the flag |
| `SelectCodec.FlagDigits` | host/rdma_common.c:663-728 | The truncating divisions of the decoder see exactly the arguments before the first absent one |
| `SelectCodec.DeserializeSelect` | host/rdma_common.c:663-728 | The decoder with its running flag and offset, for any message |
| `SelectCodec.SelectMeaning` | host/rdma_common.c:607-728 | Exactly the longest present prefix of read, write, except and timeout comes back; write, except and timeout byte by byte, of the read set all but three bytes |
| `SelectCodec.ReadSetMeaning` | host/rdma_common.c:607-728 | Descriptors from 24 on arrive; below 24 the other side sees exactly {2}, or {0, 1} without a write set, whatever was asked for |
| `SelectCodec.CarrySelect` | snic/rdma_common.c:635-700 | Both together, end to end |
| `CallCodecs.SerializePoll` | host/rdma_common.c:812-830 | The message holds timeout, count and every descriptor |
| `CallCodecs.DeserializePoll` | snic/rdma_common.c:804-831 | Reads as many descriptors as announced into a new array |
| `CallCodecs.CarryPoll` | snic/rdma_common.c:804-831 | Every list that fits the message comes back, with its timeout |
| `CallCodecs.SerializeFcntl` | host/rdma_common.c:915-965 | Commands 0, 2 and 4 get flag 1 and four bytes, commands 5, 6 and 7 flag 2 and a lock of 32 bytes, all others flag 0 and nothing; without an argument the old bytes stay |
| `CallCodecs.DeserializeFcntl` | snic/rdma_common.c:939-983 | The argument announced by the flag |
| `CallCodecs.CarryFcntl` | snic/rdma_common.c:939-983 | The command comes back; of the argument four bytes for commands 0, 2 and 4, 32 bytes for commands 5, 6 and 7, nothing for any other |
| `CallCodecs.SerializeSockopt` | host/rdma_common.c:1031-1049 | The message holds level, name, length and value |
| `CallCodecs.DeserializeSockopt` | snic/rdma_common.c:1025-1048 | Reads them; length zero leaves the value alone |
| `CallCodecs.CarrySockopt` | snic/rdma_common.c:1025-1048 | Level, name and every non-empty value that fits come back |
| `Messages.PollDelimits` | host/rdma_common.c:812-830 | The length of a poll block can be read off its first bytes |
| `Messages.FcntlDelimits` | host/rdma_common.c:915-965 | The same for fcntl |
| `Messages.SockoptDelimits` | host/rdma_common.c:1031-1049 | The same for the socket options |
| `HttpFraming.SplitIsSplit` | host/test_server/http_epoll.c:118-182 | Splitting cuts a stream into requests that end with their only blank line and a rest without one, losing nothing |
| `HttpFraming.EndsAtMeans` | host/test_server/http_epoll.c:123-129 | A blank line is the four characters CR LF CR LF |
| `HttpFraming.SplitIsUnique` | host/test_server/http_epoll.c:118-182 | There is only one such cut |
| `HttpFraming.SplitResumes` | host/test_server/http_epoll.c:118-182 | Splitting the unfinished suffix with the next bytes continues the split |
| `HttpFraming.ChunkingIsIrrelevant` | host/test_server/http_epoll.c:184-203 | For every way to cut the stream into reads, the requests handled are those of the whole stream |
| `HttpFraming.RespondConserves` | host/test_server/http_epoll.c:93-116 | A response adds its own bytes behind those still to be sent if no file is being sent; for a file response only then |
| `HttpServer.Client.WQueue` | host/test_server/http_epoll.c:70-79 | Appends the data, growing the buffer as often as needed; wlen <= wcap |
| `HttpServer.Client.ProcessRequests` | host/test_server/http_epoll.c:118-182 | Handles exactly the complete requests of the buffer, in order, and keeps exactly the unfinished suffix |
| `HttpServer.Client.OnRead` | host/test_server/http_epoll.c:184-203 | Over a whole connection the requests handled are the split of all bytes received, and the buffer holds the unfinished suffix; rlen <= rcap across growth; sent and pending bytes stay equal to header and file of every request handled in good order; after data and EAGAIN the connection goes on as its answers say and asks for output events if it has any, after end of file or a real error it hangs up |
| `HttpServer.EndsByShape` | host/test_server/http_epoll.c:190-203 | What a read loop takes and how it ends, for data followed by end of file, by an error or by EAGAIN |
| `HttpServer.Client.WriteQueued` | host/test_server/http_epoll.c:206-215 | Queued bytes leave in order, as many as the kernel takes; nothing is lost or doubled |
| `HttpServer.Client.SendFile` | host/test_server/http_epoll.c:217-226 | File bytes leave in order, and none before the queue is empty; a failing sendfile gives the file up |
| `HttpServer.OutputByShape` | host/test_server/http_epoll.c:206-226 | How much a send loop sends and whether it ends the connection, for some bytes taken and then an error, EAGAIN or nothing |
| `HttpServer.Client.OnWrite` | host/test_server/http_epoll.c:205-261 | For every pattern of short writes: how many bytes leave and what is left; that bytes sent followed by bytes pending stay equal to header followed by file; that it reads on exactly when nothing is left; and, without errors, that the connection is freed with bytes unsent if and only if not everything was taken from a closing connection, or everything was taken and the last request then read is to be closed |
| `HttpServer.ShortWriteTruncates` | host/test_server/http_epoll.c:252-255 | A response with Connection: close of which the kernel takes only n bytes is freed after n bytes |
| `HttpServer.RequestIsDropped` | host/test_server/http_epoll.c:231-255 | A closing request that arrives while on_write is at work is freed with nothing of its response sent |
| `HttpServer.NotFoundIsDropped` | host/test_server/http_epoll.c:81-91 | The same for every request that is answered 404 |
| `HttpServer.UnreadableIsDropped` | host/test_server/http_epoll.c:110-111 | And for a file that cannot be opened, which is owed both headers |
| `HttpServer.CutShortIff` | host/test_server/http_epoll.c:205-255 | The condition of on_write for freeing a connection with bytes unsent, as a fact about the output |
| `ContentLength.ParseStable` | host/test_client/client_multi.c:107-119 | A length that the header settles does not depend on how much of the body has arrived |
| `ContentLength.LengthIsRead` | host/test_client/client_multi.c:107-119 | For every number n: a header with "Content-Length: n", the name in any case, whatever stands before and behind it, gives n, or 2^63 - 1 if n is larger |
| `ContentLength.SignedLengthIsRead` | host/test_client/client_multi.c:107-119 | A plus sign changes nothing |
| `ContentLength.NegativeLengthIsNone` | host/test_client/client_multi.c:107-119 | A number below zero gives no length |
| `ContentLength.JunkIsNone` | host/test_client/client_multi.c:107-119 | Anything that is neither white space, sign nor digit gives no length |
| `ContentLength.WhiteValueReadsBody` | host/test_client/client_multi.c:107-119 | A header that ends with the name and any white space takes every number at the start of the body |
| `ContentLength.EmptyValueReadsBody` | host/test_client/client_multi.c:107-119 | A header with the name and only white space behind it has no length, and takes any number at the start of the body |
| `ContentLength.MissingNameReadsBody` | host/test_client/client_multi.c:107-119 | A header without the name has no length, and takes any that the body spells out |
| `ContentLength.LengthIsSettledIff` | host/test_client/client_multi.c:107-119 | The length is independent of the body if and only if the header has the name and something behind it |
| `HttpClient.HeaderEndStable` | host/test_client/client_multi.c:206-222 | The end of the header never moves, and when it first shows up it lies behind everything received before |
| `HttpClient.HeaderEndIsFirst` | host/test_client/client_multi.c:206-222 | For a header without NUL it is the first blank line of the stream if that ends within 8191 bytes, and is not found otherwise |
| `HttpClient.NulHidesHeader` | host/test_client/client_multi.c:218-222 | A NUL before the blank line hides it for good |
| `HttpClient.Response.ParseHeader` | host/test_client/client_multi.c:206-235 | The guard on the chunk size is always true when the blank line is first seen, so the body count is the bytes behind the header |
| `HttpClient.Response.OnChunk` | host/test_client/client_multi.c:203-240 | Once the header is there, body bytes = bytes received - header size, for every stream and every chunking |
| `HttpClient.Response.FinishedIff` | host/test_client/client_multi.c:240-265 | A response whose header settles its length is finished if and only if that length is a number and header and so many bytes are there |
| `HttpClient.Receive` | host/test_client/client_multi.c:200-265 | For every response and every chunking: the loop ends with the first chunk that completes the header and the length read with it, and not before; never without a header or without a length |
| `HttpClient.NumberedResponse` | host/test_client/client_multi.c:200-265 | A response whose header says "Content-Length: n" is complete when the header and n more bytes are there, however it is cut |
| `HttpClient.LengthIsFixedIff` | host/test_client/client_multi.c:206-222 | The length that the client reads is the same for every chunking if and only if the header settles it or leaves no room for a body that would |

## Left out

- ibverbs and rdmacm setup and teardown, memory registration, address lookup: foreign calls; only post, poll, arm and get-event are modelled, as steps.
- DEL_RDMA_CONN, the `global_*` connection functions and `process_rdma_cm_event_with_global`: no live path sets the status they wait on.
- The protocol end points are values in a state machine, not classes: a step replaces the state instead of updating fields in place, so aliasing of the two message buffers is modelled only where the WRITE clear crosses it.
- Completions that fail, and a request landing during the server's clears: the model does not contain them.
- Hook-level quirks above `set_req_sock`: the fixed port in bind (host/hook.c:456), the result of connect (host/hook.c:316-322), the flag pointer of fcntl (host/hook.c:680), getsockopt without its arguments (host/hook.c:728-745), getpeername under another request (host/hook.c:759), epoll_ctl with a NULL event.
- Transparency.CallsAreTransparent: output that no handler sends back is not claimed (the lock of F_GETLK, the sets of a select that times out), and arguments that a handler fixes itself (domain, address, backlog, the length that accept gets by value, snic/socket.c:11-122) belong to what the modelled system call means.
- Calls that give up before posting: they return -1 to their caller, are counted, and are not among the results.
- Calls of `searchByKey` on the descriptor table, which read it through another node layout; the lookup is `fd_searchByKey` throughout.
- `searchByValue`, `deleteByValue` and the socket-node tables: the same chains walked by value, or with another value type.
- Allocation failure in tables, codecs and HTTP buffers, and 64-bit wrap-around of sizes.
- ChainTable.HashTable.InsertByValue: the lock is a flag seen by one thread; readers and writers that compete for it are not modelled.
- EpollCodec.SerializeEpollWait: the branch that allocates uninitialised events for a NULL pointer is not modelled.
- Murmur.OneBlockChangesHash: lengths are below 2^31, the range of the C parameter.
- HttpServer.Client.OnWrite: for pipelined requests output order is not claimed, because a second file replaces the first; `RespondConserves` shows that bytes are then lost.
- HttpServer.Client.SendFile: a file that shrinks between stat and sendfile makes the original repeat `sendfile` without end; the model takes the file as it was at stat.
- HTTP path building, MIME types, the texts of response headers, latency statistics, and end of file, timeouts and reconnects of the test client.
- The codecs of epoll_create1, epoll_ctl, getpeername and getsockname, and snic/rdma_sock_linker.c: straight-line copies, or not built.
