/** The message buffer and the socket session of the UDP Network
    Communication Library, with the read/write framing protocol.

    A message is a class over one byte array `wire`: the transmitted region
    `[nbytes, msg_type, sequence_count, payload...]` of `12 + bufferSize`
    bytes. The header words live in those bytes (least significant byte
    first), so a read that overwrites the region overwrites the header in
    place, as the C code does. The transport calls `sendto` and `recvfrom`
    are oracles passed in as parameters. */
module Uncl {
  import opened Words
  import opened Framing

  /** `struct _uncl_msg` */
  class Message {
    /** `buffer_size`: payload capacity, kept locally, never transmitted. */
    const bufferSize: U32
    /** Everything after `buffer_size`: the three header words, then the payload. */
    const wire: array<Byte>

    predicate Valid()
    {
      wire.Length == HeaderOverhead + bufferSize && bufferSize <= MaxCapacity
    }

    /** `nbytes`: the declared length, header overhead included. */
    function NBytes(): U32
      reads wire
      requires Valid()
    {
      LengthField(wire[..])
    }

    /** `msg_type` as stored. */
    function MsgType(): U32
      reads wire
      requires Valid()
    {
      TypeField(wire[..])
    }

    /** `sequence_count` as stored. */
    function SequenceCount(): U32
      reads wire
      requires Valid()
    {
      SequenceField(wire[..])
    }

    /** The `bufferSize` payload bytes. */
    function Payload(): seq<Byte>
      reads wire
      requires Valid()
    {
      wire[HeaderOverhead..]
    }

    /** The declared length does not exceed header plus capacity: the region
        `uncl_msg_write` hands to the transport lies inside the buffer. */
    predicate Fits()
      reads wire
      requires Valid()
    {
      NBytes() <= wire.Length
    }

    /** The `malloc` of `uncl_msg_alloc` followed by the store of
        `buffer_size`; the contents of the block are not promised. */
    constructor (capacity: U32)
      requires capacity <= MaxCapacity
      ensures bufferSize == capacity && Valid() && fresh(wire)
    {
      bufferSize := capacity;
      wire := new Byte[HeaderOverhead + capacity];
    }

    /** Stores `bytes` at offset `at` of the transmitted region: what
        `recvfrom` does with the buffer it is given, and what a store to a
        header field does with its four bytes. */
    method StoreBytes(at: nat, bytes: seq<Byte>)
      requires Valid() && at + |bytes| <= wire.Length
      modifies wire
      ensures wire[..] == Overwrite(old(wire[..]), at, bytes)
    {
      for i := 0 to |bytes|
        invariant forall k :: 0 <= k < wire.Length ==>
          wire[k] == (if at <= k < at + i then bytes[k - at] else old(wire[k]))
      {
        wire[at + i] := bytes[i];
      }
      assert wire[..] == Overwrite(old(wire[..]), at, bytes);
    }

    /** A store to one header word; the other two words and the payload keep their values. */
    method StoreWord(off: nat, v: U32)
      requires Valid() && off in {LengthOffset, TypeOffset, SequenceOffset}
      modifies wire
      ensures wire[..] == Overwrite(old(wire[..]), off, EncodeWord(v))
      ensures WordAt(wire[..], off) == v
      ensures off != LengthOffset ==> NBytes() == old(NBytes())
      ensures off != TypeOffset ==> MsgType() == old(MsgType())
      ensures off != SequenceOffset ==> SequenceCount() == old(SequenceCount())
      ensures Payload() == old(Payload())
    {
      ghost var before := wire[..];
      StoreBytes(off, EncodeWord(v));
      OverwriteHeaderWord(before, off, v);
    }
  }

  /** `struct _uncl_socket`, without the socket descriptor and peer address. */
  class Session {
    /** Sequence number of the last message written. */
    var sequenceCount: U32
    /** Sequence number of the last message read. */
    var currentCount: U32
    var readCount: nat
    var writeCount: nat
    var bufferOverflowErrors: nat
    var sequenceCountErrors: nat
    var readErrors: nat
    var writeErrors: nat

    /** The all-zero session that `uncl_client` and `uncl_server` start from. */
    constructor ()
      ensures sequenceCount == 0 && currentCount == 0
      ensures readCount == 0 && writeCount == 0
      ensures bufferOverflowErrors == 0 && sequenceCountErrors == 0
      ensures readErrors == 0 && writeErrors == 0
    {
      sequenceCount, currentCount := 0, 0;
      readCount, writeCount := 0, 0;
      bufferOverflowErrors, sequenceCountErrors := 0, 0;
      readErrors, writeErrors := 0, 0;
    }
  }

  // ---------------------------------------------------------------------
  // Message buffer

  /** `uncl_msg_alloc`: returns 0 and a message of capacity `nbytes`, or -1
      when the allocation fails. The length word is then 0, not 12: it is
      assigned the return value of `uncl_msg_set_size(msg, 0)`. */
  method MsgAlloc(nbytes: U32, mallocSucceeds: bool) returns (rc: int, msg: Message?)
    ensures rc == 0 || rc == -1
    ensures rc == 0 <==> mallocSucceeds && MallocRequest(nbytes).Some?
    ensures rc == 0 ==> (msg != null && fresh(msg) && fresh(msg.wire) && msg.Valid()
                         && msg.bufferSize == nbytes && msg.NBytes() == 0)
    ensures rc == -1 ==> msg == null
  {
    if MallocRequest(nbytes).None? || !mallocSucceeds {
      return -1, null;
    }
    msg := new Message(nbytes);
    var sizeRc := MsgSetSize(msg, 0);
    msg.StoreWord(LengthOffset, ToU32(sizeRc));
    rc := 0;
  }

  /** `uncl_msg_data`: the offset of the payload in the transmitted region, or
      nothing for an absent message or one without payload capacity. */
  function MsgData(msg: Message?): (p: Option<nat>)
    ensures p.Some? <==> msg != null && msg.bufferSize > 0
    ensures p.Some? && msg.Valid() ==>
      p.value == HeaderOverhead && p.value + msg.bufferSize == msg.wire.Length
  {
    if msg == null then None
    else if msg.bufferSize == 0 then None
    else Some(HeaderOverhead)
  }

  /** `uncl_msg_set_type` */
  method MsgSetType(msg: Message, msgType: I32)
    requires msg.Valid()
    modifies msg.wire
    ensures msg.wire[..] == Overwrite(old(msg.wire[..]), TypeOffset, EncodeWord(ToU32(msgType)))
    ensures MsgGetType(msg) == msgType
    ensures msg.NBytes() == old(msg.NBytes()) && msg.SequenceCount() == old(msg.SequenceCount())
    ensures msg.Payload() == old(msg.Payload())
  {
    msg.StoreWord(TypeOffset, ToU32(msgType));
    SignedRoundTrip(msgType);
  }

  /** `uncl_msg_get_type`: the stored word read back as an `int`. */
  function MsgGetType(msg: Message): (t: I32)
    reads msg.wire
    requires msg.Valid()
    ensures ToU32(t) == msg.MsgType()
  {
    AsSigned(msg.MsgType())
  }

  /** `uncl_msg_set_size`: succeeds (0) exactly when the message exists and
      the payload size fits its capacity, and then declares header plus
      payload as the length; otherwise fails (-1) and changes nothing. */
  method MsgSetSize(msg: Message?, dataSize: U32) returns (rc: int)
    requires msg != null ==> msg.Valid()
    modifies if msg == null then {} else {msg.wire}
    ensures rc == 0 || rc == -1
    ensures rc == 0 <==> msg != null && dataSize <= msg.bufferSize
    ensures msg != null && rc == 0 ==>
      msg.wire[..] == Overwrite(old(msg.wire[..]), LengthOffset, EncodeWord(dataSize + HeaderOverhead))
      && msg.NBytes() == dataSize + HeaderOverhead && msg.Fits()
      && msg.MsgType() == old(msg.MsgType()) && msg.SequenceCount() == old(msg.SequenceCount())
      && msg.Payload() == old(msg.Payload())
    ensures msg != null && rc == -1 ==> msg.wire[..] == old(msg.wire[..])
  {
    if msg == null {
      return -1;
    }
    if dataSize > msg.bufferSize {
      return -1;
    }
    msg.StoreWord(LengthOffset, ToU32(dataSize + HeaderOverhead));
    rc := 0;
  }

  // ---------------------------------------------------------------------
  // Read and write

  /** `uncl_msg_read`. Receives into the transmitted region until the
      length word is covered or the region is full, then checks the
      sequence number; the buffer is left as the receive loop specification
      `ReceiveFrom` says. A failed receive aborts the read (-1) and counts a
      read error. Otherwise the expected sequence number moves to the one
      received, a sequence error is counted when that is not the successor
      of the previous one, the read is counted and 0 is returned; the
      overflow test is made but counts nothing. */
  method MsgRead(usock: Session, msg: Message, recv: Receiver) returns (rc: int)
    requires msg.Valid() && HeaderOverhead + msg.bufferSize <= MaxI32
    modifies usock, msg.wire
    ensures var f := ReceiveFrom(old(msg.wire[..]), recv, 0, 0);
      msg.wire[..] == f.region
      && (f.failed ==>
            rc == -1 && usock.readErrors == old(usock.readErrors) + 1
            && usock.readCount == old(usock.readCount)
            && usock.currentCount == old(usock.currentCount)
            && usock.sequenceCountErrors == old(usock.sequenceCountErrors))
      && (!f.failed ==>
            rc == 0 && usock.readCount == old(usock.readCount) + 1
            && usock.currentCount == msg.SequenceCount()
            && usock.sequenceCountErrors == old(usock.sequenceCountErrors)
               + (if msg.SequenceCount() == Inc32(old(usock.currentCount)) then 0 else 1)
            && usock.readErrors == old(usock.readErrors))
    ensures usock.bufferOverflowErrors == old(usock.bufferOverflowErrors)
    ensures usock.sequenceCount == old(usock.sequenceCount)
    ensures usock.writeCount == old(usock.writeCount) && usock.writeErrors == old(usock.writeErrors)
  {
    var failed := ReceiveInto(msg, recv);
    if failed {
      usock.readErrors := usock.readErrors + 1;
      return -1;
    }
    rc := ValidateMessage(usock, msg);
  }

  method ValidateMessage(usock: Session, msg: Message) returns (rc: int)
    requires msg.Valid()
    modifies usock
    ensures rc == 0 && usock.readCount == old(usock.readCount) + 1
            && usock.currentCount == msg.SequenceCount()
            && usock.sequenceCountErrors == old(usock.sequenceCountErrors)
               + (if msg.SequenceCount() == Inc32(old(usock.currentCount)) then 0 else 1)
            && usock.readErrors == old(usock.readErrors)
    ensures usock.bufferOverflowErrors == old(usock.bufferOverflowErrors)
    ensures usock.sequenceCount == old(usock.sequenceCount)
    ensures usock.writeCount == old(usock.writeCount) && usock.writeErrors == old(usock.writeErrors)
  {
    // The oversize test is made, but the increment of buffer_overflow_errors is disabled.
    ghost var overflow := OverflowDetected(msg.NBytes(), msg.bufferSize);
    usock.currentCount := Inc32(usock.currentCount);
    if msg.SequenceCount() != usock.currentCount {
      usock.currentCount := msg.SequenceCount();
      usock.sequenceCountErrors := usock.sequenceCountErrors + 1;
    }
    usock.readCount := usock.readCount + 1;
    rc := 0;
  }

  /** The do-while loop of `uncl_msg_read`: receive at the current offset,
      with the rest of the region as room, until the length word (as it now
      reads) is covered or no room is left; stop at the first failed receive. */
  method ReceiveInto(msg: Message, recv: Receiver) returns (failed: bool)
    requires msg.Valid() && HeaderOverhead + msg.bufferSize <= MaxI32
    modifies msg.wire
    ensures var f := ReceiveFrom(old(msg.wire[..]), recv, 0, 0);
      msg.wire[..] == f.region && failed == f.failed
  {
    var received: int := 0;
    var remaining: int := HeaderOverhead + msg.bufferSize;
    var call: nat := 0;
    ghost var region := msg.wire[..];
    ghost var spec := ReceiveFrom(region, recv, 0, 0);
    while true
      invariant 0 <= received && 0 < remaining && received + remaining == |region|
      invariant msg.wire[..] == region && |region| == msg.wire.Length
      invariant ReceiveFrom(region, recv, received, call) == spec
      decreases remaining
    {
      var cnt := RecvFrom(msg, received, remaining, recv(call));
      if cnt == -1 {
        return true;
      }
      ReceiveFromStep(region, recv, received, call, recv(call).bytes);
      region := Overwrite(region, received, Stored(recv(call).bytes, remaining));
      call := call + 1;
      received := received + cnt;
      remaining := remaining - cnt;
      if !(received < msg.NBytes() && remaining != 0) {
        return false;
      }
    }
  }

  /** `recvfrom` into the transmitted region at offset `at`, with room for
      `room` bytes, when the transport's outcome is `result`: -1 on failure;
      otherwise the bytes that fit are stored and their number returned. */
  method RecvFrom(msg: Message, at: nat, room: nat, result: RecvResult) returns (cnt: int)
    requires msg.Valid() && at + room == msg.wire.Length && 0 < room
    modifies msg.wire
    ensures result.RecvFailed? ==> cnt == -1 && msg.wire[..] == old(msg.wire[..])
    ensures result.Datagram? ==>
              var chunk := Stored(result.bytes, room);
              cnt == |chunk| && 0 < cnt
              && msg.wire[..] == Overwrite(old(msg.wire[..]), at, chunk)
  {
    if result.RecvFailed? {
      return -1;
    }
    var chunk := Stored(result.bytes, room);
    msg.StoreBytes(at, chunk);
    cnt := |chunk|;
  }

  /** `uncl_msg_write`. Stamps the message with the session's next sequence
      number and hands the first `nbytes` bytes of the transmitted region to
      the transport (`datagram`); a failed send counts a write error, every
      call counts a write and returns 0. */
  method MsgWrite(usock: Session, msg: Message, sendSucceeds: bool) returns (rc: int, datagram: seq<Byte>)
    requires msg.Valid() && msg.Fits()
    modifies usock, msg.wire
    ensures usock.sequenceCount == Inc32(old(usock.sequenceCount))
    ensures msg.wire[..] == Overwrite(old(msg.wire[..]), SequenceOffset, EncodeWord(usock.sequenceCount))
    ensures msg.SequenceCount() == usock.sequenceCount
    ensures msg.NBytes() == old(msg.NBytes()) && msg.MsgType() == old(msg.MsgType())
    ensures msg.Payload() == old(msg.Payload())
    ensures msg.Fits() && datagram == Outgoing(msg.wire[..])
    ensures usock.writeCount == old(usock.writeCount) + 1
    ensures usock.writeErrors == old(usock.writeErrors) + (if sendSucceeds then 0 else 1)
    ensures usock.currentCount == old(usock.currentCount) && usock.readCount == old(usock.readCount)
    ensures usock.bufferOverflowErrors == old(usock.bufferOverflowErrors)
    ensures usock.sequenceCountErrors == old(usock.sequenceCountErrors)
    ensures usock.readErrors == old(usock.readErrors)
    ensures rc == 0
  {
    usock.sequenceCount := Inc32(usock.sequenceCount);
    msg.StoreWord(SequenceOffset, usock.sequenceCount);
    datagram := msg.wire[..msg.NBytes()];
    if !sendSucceeds {
      usock.writeErrors := usock.writeErrors + 1;
    }
    usock.writeCount := usock.writeCount + 1;
    rc := 0;
  }

  // ---------------------------------------------------------------------
  // Counters; every accessor answers 0 for an absent session

  /** `uncl_msg_read_count` */
  function MsgReadCount(usock: Session?): (n: nat)
    reads usock
    ensures usock == null ==> n == 0
    ensures usock != null ==> n == usock.readCount
  {
    if usock == null then 0 else usock.readCount
  }

  /** `uncl_msg_write_count` */
  function MsgWriteCount(usock: Session?): (n: nat)
    reads usock
    ensures usock == null ==> n == 0
    ensures usock != null ==> n == usock.writeCount
  {
    if usock == null then 0 else usock.writeCount
  }

  /** `uncl_error_count`: the four error tallies together. */
  function ErrorCount(usock: Session?): (n: nat)
    reads usock
    ensures n == BufferOverflowErrors(usock) + SequenceCountErrors(usock)
                 + ReadErrors(usock) + WriteErrors(usock)
  {
    if usock == null then 0
    else usock.bufferOverflowErrors + usock.sequenceCountErrors + usock.readErrors + usock.writeErrors
  }

  /** `uncl_clear_errors`: zeroes the four error tallies and nothing else. */
  method ClearErrors(usock: Session?)
    modifies usock
    ensures usock != null ==>
              usock.bufferOverflowErrors == 0 && usock.sequenceCountErrors == 0
              && usock.readErrors == 0 && usock.writeErrors == 0
    ensures ErrorCount(usock) == 0
    ensures usock != null ==>
              usock.readCount == old(usock.readCount)
              && usock.writeCount == old(usock.writeCount)
              && usock.sequenceCount == old(usock.sequenceCount)
              && usock.currentCount == old(usock.currentCount)
  {
    if usock == null {
      return;
    }
    usock.bufferOverflowErrors := 0;
    usock.sequenceCountErrors := 0;
    usock.readErrors := 0;
    usock.writeErrors := 0;
  }

  /** `uncl_buffer_overflow_errors` */
  function BufferOverflowErrors(usock: Session?): (n: nat)
    reads usock
    ensures usock == null ==> n == 0
    ensures usock != null ==> n == usock.bufferOverflowErrors
  {
    if usock == null then 0 else usock.bufferOverflowErrors
  }

  /** `uncl_sequence_count_errors` */
  function SequenceCountErrors(usock: Session?): (n: nat)
    reads usock
    ensures usock == null ==> n == 0
    ensures usock != null ==> n == usock.sequenceCountErrors
  {
    if usock == null then 0 else usock.sequenceCountErrors
  }

  /** `uncl_read_errors` */
  function ReadErrors(usock: Session?): (n: nat)
    reads usock
    ensures usock == null ==> n == 0
    ensures usock != null ==> n == usock.readErrors
  {
    if usock == null then 0 else usock.readErrors
  }

  /** `uncl_write_errors` */
  function WriteErrors(usock: Session?): (n: nat)
    reads usock
    ensures usock == null ==> n == 0
    ensures usock != null ==> n == usock.writeErrors
  {
    if usock == null then 0 else usock.writeErrors
  }
}
