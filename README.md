# libuncl message framing and session counters in Dafny

This project models the core of libuncl, the UDP Network Communication
Library (`src/uncl.c`). The core has two parts:

- a **message buffer**: a local-only capacity word, then three transmitted
  4-byte header words (`nbytes`, `msg_type`, `sequence_count`), then the
  payload;
- a **socket session**: a send sequence counter, an expected-next counter,
  read and write counts and four error tallies.

The model covers this read/write protocol:

- `uncl_msg_write` stamps each message with the session's next sequence
  number. It sends the first `nbytes` bytes of the message, starting at the
  length word.
- `uncl_msg_read` receives into the same region until the length word (which
  the incoming bytes overwrite in place) is covered or the buffer is full. It
  then checks the sequence number and resynchronises when that check fails.

## Structure

- `words.dfy` (module `Words`): bytes, `uint32_t` and 32-bit `int`, and the
  conversions C applies between them.
  - Sequence counters wrap modulo 2^32 (`Inc32`), and so does the unsigned
    subtraction in the oversize test (`Sub32`).
  - The header words are encoded least significant byte first. The library
    sends host byte order; the model fixes this one order.
- `framing.dfy` (module `Framing`): the wire layout as pure functions on
  byte sequences.
  - `ReceiveFrom` specifies the receive loop. On each call it stores the
    bytes that fit the remaining room, then goes round again while the
    length word read from the partly overwritten header exceeds the bytes
    received and room is left.
  - `Outgoing` is the datagram a write hands to the transport.
  - Also here: the oversize test and the `malloc` size computation.
- `uncl.dfy` (module `Uncl`): the library's state and calls.
  - `Message` is a class over one byte array `wire`, which holds the
    transmitted region of `12 + bufferSize` bytes.
  - `Session` is a class with the counter fields.
  - The C functions are methods that update these in place. `ReceiveInto` is
    the do-while loop of `uncl_msg_read`, proved against `ReceiveFrom`.
  - Getters are functions over the fields.
- `scenarios.dfy` (module `Scenarios`): exchanges between a client and a
  server session, built from the calls above the way the example drivers use
  them.

The transport calls are oracles passed in as parameters:

- `sendto` is a `sendSucceeds` flag.
- `recvfrom` is a `Receiver`, a function from the call number to either a
  failure or a non-empty chunk of bytes.
- `malloc` success is a `mallocSucceeds` flag.

The session's `int` counters are modelled as unbounded naturals. The two
`uint32_t` sequence counters wrap.

The header documents `uncl_msg_write` as returning -1 on failure
(include/uncl.h:110-116). The code returns 0 even when `sendto` fails, and
counts the write anyway (src/uncl.c:175-182). The model follows the code.

## Model

| member | source | states |
|---|---|---|
| Words.AsSigned | src/uncl.c:98-101 | converting the stored `uint32_t` back to `int` inverts C's conversion, and gives a non-negative result exactly when the word is at most `INT_MAX` |
| Words.SignedRoundTrip | src/uncl.c:93-101 | an `int` stored in a `uint32_t` field and read back as `int` is unchanged |
| Words.Inc32 | src/uncl.c:157-168 | `++` on a `uint32_t`: the successor, except that the largest value wraps to 0 |
| Words.Sub32 | src/uncl.c:150 | `-` on `uint32_t`: the difference, plus 2^32 when it would be negative |
| Words.WrapIsModular | src/uncl.c:150-168 | the pre-increment and the subtraction on `uint32_t` are the exact results reduced modulo 2^32 |
| Words.DecodeEncodeWord | src/uncl.c:28-37 | a header word encoded as 4 bytes decodes to itself |
| Words.EncodeDecodeWord | src/uncl.c:28-37 | any 4 bytes are the encoding of the word they decode to |
| Words.EncodeWordInjective | src/uncl.c:28-37 | two words are equal exactly when their 4-byte encodings are |
| Framing.Overwrite | src/uncl.c:132 | storing bytes at an offset keeps the region's length and puts exactly those bytes there |
| Framing.OverwriteKeeps | src/uncl.c:132 | a store leaves every slice outside the stored range unchanged |
| Framing.OverwriteOutside | src/uncl.c:132 | a store leaves every byte before and after the stored range unchanged |
| Framing.WordAtOverwrite | src/uncl.c:95 | after a store to a header word, reading that word gives the stored value and reading any disjoint word gives its old value |
| Framing.OverwriteHeaderWord | src/uncl.c:28-37 | a store to one of `nbytes`, `msg_type`, `sequence_count` sets it and leaves the other two words and the payload unchanged |
| Framing.Header | src/uncl.c:28-43 | the transmitted header is 12 bytes (`header_overhead`) |
| Framing.HeaderFields | src/uncl.c:28-37 | a region that starts with a header built from three words decodes to those words, and the rest is its payload |
| Framing.HeaderSplit | src/uncl.c:28-37 | every region of at least 12 bytes is its own header followed by its payload |
| Framing.Stored | src/uncl.c:132 | a receive stores a prefix of the datagram that is no longer than the room given; that prefix is the whole datagram when it fits and exactly the room otherwise |
| Framing.ReceiveFrom | src/uncl.c:131-144 | the do-while loop as a function of the region, the bytes received so far and the next call: a failed receive stops with the failure; a delivered chunk, cut to the room left, is stored at the current offset, and the loop goes round again while the length word as it now reads exceeds the bytes received and room is left; the region keeps its length and the final count lies between the starting count and the region size |
| Framing.ReceiveFromStep | src/uncl.c:131-144 | one turn of the loop stores a non-empty chunk at the current offset, then either continues with the next call or stops with the bytes counted |
| Framing.ReceiveFromShape | src/uncl.c:125-144 | the loop keeps the region's length and never goes back; bytes received earlier and bytes past the final count are unchanged, so every write lies inside the `12 + buffer_size` region |
| Framing.ReceiveFromExit | src/uncl.c:144 | a loop that did not fail stopped because the bytes received cover the length word it now holds, or because the region is full |
| Framing.ReceiveFromNoFailure | src/uncl.c:132-138 | with a transport that never fails, the loop never reports a failure |
| Framing.ReceiveFromFailedCall | src/uncl.c:131-138 | a loop that reports a failure stopped at its first failing receive: some call from its first on failed, and every call before that one delivered bytes |
| Framing.ReceiveFromFirstFails | src/uncl.c:132-138 | a first receive that fails aborts the loop with the region untouched |
| Framing.DatagramRoundTrip | src/uncl.c:125-144 | a whole datagram that fits the region and declares its own size is taken in by one receive; the region then starts with that datagram and carries its length, type, sequence number and payload |
| Framing.HeaderOfPrefix | src/uncl.c:128 | a region that starts with a datagram carries that datagram's three header words |
| Framing.Outgoing | src/uncl.c:175 | the datagram sent is a prefix of the region, `nbytes` long |
| Framing.OutgoingFrame | src/uncl.c:172-176 | the datagram sent is the region's header followed by the first `nbytes - 12` payload bytes; its own length word equals its size and its type and sequence number are the message's |
| Framing.WriteReadRoundTrip | src/uncl.c:123-183 | what a write sends, received whole into any region with room for it, reproduces the sender's length, type, sequence number and payload prefix |
| Framing.OverflowDetected | src/uncl.c:150 | the oversize test `(nbytes - header_overhead) > buffer_size`, with the subtraction in `uint32_t` |
| Framing.OverflowDetectedIff | src/uncl.c:150 | the oversize test fires exactly when the length word claims more payload than the capacity or, through unsigned wrap-around, is shorter than the header itself |
| Framing.MallocRequestAsWritten | src/uncl.c:66 | the size passed to `malloc` as written: capacity plus 16, reduced modulo 2^32 |
| Framing.MallocRequestWraps | src/uncl.c:66 | as written, every capacity above `UINT_MAX - 16` makes the requested size wrap below the header size |
| Framing.MallocRequest | src/uncl.c:66 | corrected allocation size: a request is made exactly when header plus capacity fits an `unsigned int`, and it is then the header plus the capacity |
| Framing.MallocRequestAgrees | src/uncl.c:66 | wherever the corrected computation makes a request, it agrees with the code as written |
| Uncl.Message.constructor | src/uncl.c:64-72 | a new message has the requested capacity and a fresh region of `12 + capacity` bytes |
| Uncl.Message.StoreBytes | src/uncl.c:132 | the byte-by-byte store changes the region exactly as `Overwrite` says |
| Uncl.Message.StoreWord | src/uncl.c:28-37 | a store to a header word sets it, and the other header words and the payload keep their values |
| Uncl.Session.constructor | src/uncl.c:308 | a new session has every counter and tally at zero |
| Uncl.MsgAlloc | src/uncl.c:64-76 | succeeds (0) exactly when the allocation does, with a fresh valid message of the requested capacity whose length word is 0, not 12; fails (-1) with no message otherwise |
| Uncl.MsgData | src/uncl.c:78-91 | no data area for an absent message or a zero capacity; otherwise the payload offset 12, after which exactly `buffer_size` bytes remain |
| Uncl.MsgSetType | src/uncl.c:93-96 | stores the type word; reading it back gives the same `int`; length, sequence number and payload are unchanged |
| Uncl.MsgGetType | src/uncl.c:98-101 | the returned `int` converts back to the stored type word |
| Uncl.MsgSetSize | src/uncl.c:103-121 | succeeds (0) exactly when the message exists and the size is at most the capacity; the length becomes size + 12 and the message fits its buffer, other fields unchanged; on failure (-1) nothing changes |
| Uncl.MsgRead | src/uncl.c:123-164 | leaves the buffer as the receive-loop specification says. A failed receive returns -1 and adds one read error, with the other counters unchanged. Otherwise it returns 0 and adds one read; the expected count becomes the received sequence number; a sequence error is added exactly when that number is not the successor of the old expectation; the overflow tally, the send counter and the write counters never change |
| Uncl.ValidateMessage | src/uncl.c:146-163 | the post-receive checks: the oversize test counts nothing, the sequence check resynchronises and counts a gap exactly when the number is not the expected successor, and one read is counted |
| Uncl.ReceiveInto | src/uncl.c:125-144 | the do-while loop leaves the buffer and the failure status exactly as `ReceiveFrom` says; its invariant keeps `received + remaining == 12 + buffer_size` with room left |
| Uncl.RecvFrom | src/uncl.c:132-140 | one receive: -1 with the buffer untouched on failure; otherwise the number of bytes stored, at least one, with the buffer overwritten by them at the current offset |
| Uncl.MsgWrite | src/uncl.c:166-183 | advances the send counter by one (mod 2^32) and stamps it into the message; sends the first `nbytes` bytes of the region; counts a write always and a write error exactly when the send fails; returns 0; leaves reads, the expected count and the other tallies unchanged |
| Uncl.MsgReadCount | src/uncl.c:185-189 | the read count, or 0 for an absent session |
| Uncl.MsgWriteCount | src/uncl.c:191-195 | the write count, or 0 for an absent session |
| Uncl.ErrorCount | src/uncl.c:197-206 | the sum of the four error tallies as their getters report them (0 for an absent session) |
| Uncl.ClearErrors | src/uncl.c:208-218 | zeroes exactly the four error tallies, so the error count is 0 afterwards; read and write counts and both sequence counters are unchanged; does nothing for an absent session |
| Uncl.BufferOverflowErrors | src/uncl.c:220-224 | the overflow tally, or 0 for an absent session |
| Uncl.SequenceCountErrors | src/uncl.c:226-230 | the sequence error tally, or 0 for an absent session |
| Uncl.ReadErrors | src/uncl.c:232-236 | the read error tally, or 0 for an absent session |
| Uncl.WriteErrors | src/uncl.c:238-242 | the write error tally, or 0 for an absent session |
| Scenarios.Prepare | example/uclient.c:19-37 | allocate, fill the data area, set size and type: the message declares header plus payload, with that type and payload |
| Scenarios.Send | src/uncl.c:166-183 | a prepared message written with a successful send yields a datagram whose length word is its size, with the given type and payload and the client's next sequence number; one write is counted, no write error, and the client's read-side counters and other tallies are unchanged |
| Scenarios.Deliver | src/uncl.c:123-164 | reading one whole datagram into a fresh message of sufficient capacity reproduces its header and payload and counts one read, with the sequence check applied; the server's send counter, write counters, overflow tally and read errors are unchanged |
| Scenarios.Exchange | src/uncl.c:123-183 | a client sends payload `[0, 1, 2, 3]` with type 7 on a fresh session and a fresh server receives it: type 7, that payload, sequence number 1, one read, no sequence error |
| Scenarios.DroppedMessage | src/uncl.c:157-160 | when the first of two messages is lost, the server counts exactly one sequence error, resynchronises its expectation to 2 and still delivers the message |

## Left out

- `uncl_client` and `uncl_server` (socket creation, options, binding and
  hostname lookup) are operating-system plumbing. Only the zeroed session
  they start from is modelled (`Session.constructor`).
- The socket descriptor and the peer address are not modelled, and neither
  is the address that `recvfrom` fills in.
- `errno`, and the `PERROR` and `DPRINTF` debug macros, are not modelled.
- The contents of a freshly `malloc`ed block are unspecified in C. The
  model's constructor makes no promise about them, and no contract depends
  on them.
- Host byte order: the model fixes little-endian header words. The source
  stores each word in whatever order the host uses.
- Uncl.MsgRead: a receive that delivers zero bytes is excluded by the
  receiver's type (`Chunk`). In the source such a receive makes no progress,
  and the loop can run forever. It can also end the loop: a freshly allocated
  message has its length word at 0, so a first zero-byte receive fails
  `nbytes < msg->nbytes` and the read returns 0, counts a read and checks a
  sequence number that was never received. The model does not capture this
  case.
- Uncl.MsgRead: requires `12 + buffer_size <= INT_MAX`, because the source
  keeps the remaining byte count in an `int`. The model does not cover the
  larger buffers, where that count would overflow.
- Uncl.MsgRead: does not null-check the session or the message, as the
  source does not. An absent message is outside its precondition.
- Uncl.MsgWrite: requires the declared length to lie within the buffer. With
  a larger length word, for example one left by a read, the source's
  `sendto` reads past the allocation. This is not modelled.
- Uncl.ValidateMessage: the oversize test is computed but ignored, as in the
  source, where the tally increment is commented out.
- Uncl.MsgAlloc: uses the corrected allocation size (see Findings). For
  capacities above `UINT_MAX - 16` it fails, where the source would allocate
  a block too small for the message.
- Concurrency: the library is single-threaded and blocking; nothing here
  models interleaved calls.
- The example drivers' loops of repeated transfers are represented by the
  one- and two-message scenarios only.

## Findings

| source | as written | input that shows it | evidently intended | confidence | as-written member | corrected member |
|---|---|---|---|---|---|---|
| src/uncl.c:66 | `malloc(nbytes + header_size)` adds in `unsigned int` arithmetic, so the size wraps for capacities above `UINT_MAX - 16` | `nbytes = 0xFFFFFFFF` requests 15 bytes, and the message then claims 4294967295 payload bytes | allocate header plus capacity, or fail when that sum does not fit | not executed | Framing.MallocRequestAsWritten, Framing.MallocRequestWraps | Framing.MallocRequest, Framing.MallocRequestAgrees, Uncl.MsgAlloc |
