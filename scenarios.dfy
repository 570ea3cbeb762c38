/** Client/server exchanges built from the library's calls, in the way the
    example drivers use them: messages sent through a client session and
    received through a server session. */
module Scenarios {
  import opened Words
  import opened Framing
  import opened Uncl

  /** A sender's preparation in the example drivers: allocate a message sized
      for `payload`, fill its data area, declare the size and set the type. */
  method Prepare(payload: seq<Byte>, tag: I32) returns (outbox: Message)
    requires |payload| <= MaxCapacity
    ensures fresh(outbox) && fresh(outbox.wire) && outbox.Valid()
    ensures outbox.bufferSize == |payload| && outbox.NBytes() == HeaderOverhead + |payload|
    ensures outbox.MsgType() == ToU32(tag) && outbox.Payload() == payload
  {
    var rc;
    rc, outbox := MsgAlloc(|payload|, true);
    var data := MsgData(outbox);
    if data.Some? {
      outbox.StoreBytes(data.value, payload);
    }
    assert outbox.Payload() == payload;
    var sizeRc := MsgSetSize(outbox, |payload|);
    MsgSetType(outbox, tag);
  }

  /** A sender's side: prepare a message and write it with a successful send.
      The datagram carries header and payload, its length word equal to its
      size and the client's next sequence number. */
  method Send(client: Session, payload: seq<Byte>, tag: I32) returns (datagram: seq<Byte>)
    requires |payload| <= MaxCapacity
    modifies client
    ensures |datagram| == HeaderOverhead + |payload| && LengthField(datagram) == |datagram|
    ensures TypeField(datagram) == ToU32(tag) && datagram[HeaderOverhead..] == payload
    ensures client.sequenceCount == Inc32(old(client.sequenceCount))
    ensures SequenceField(datagram) == client.sequenceCount
    ensures client.writeCount == old(client.writeCount) + 1
    ensures client.writeErrors == old(client.writeErrors)
    ensures client.currentCount == old(client.currentCount) && client.readCount == old(client.readCount)
    ensures client.bufferOverflowErrors == old(client.bufferOverflowErrors)
    ensures client.sequenceCountErrors == old(client.sequenceCountErrors)
    ensures client.readErrors == old(client.readErrors)
  {
    var outbox := Prepare(payload, tag);
    var writeRc;
    writeRc, datagram := MsgWrite(client, outbox, true);
    ghost var region := outbox.wire[..];
    OutgoingFrame(region);
    assert datagram[HeaderOverhead..] == region[HeaderOverhead..|region|];
  }

  /** A receiver's side: allocate a message of the given capacity and read one
      whole datagram into it. The message then holds the datagram's header
      and payload, and the session has counted one read, checked the
      sequence number and moved its expectation to it. */
  method Deliver(server: Session, datagram: seq<Byte>, capacity: U32) returns (inbox: Message)
    requires HeaderOverhead <= |datagram| <= HeaderOverhead + capacity && HeaderOverhead + capacity <= MaxI32
    requires LengthField(datagram) == |datagram|
    modifies server
    ensures fresh(inbox) && inbox.Valid() && inbox.bufferSize == capacity
    ensures inbox.NBytes() == |datagram| && inbox.MsgType() == TypeField(datagram)
    ensures inbox.SequenceCount() == SequenceField(datagram)
    ensures inbox.wire[..][HeaderOverhead..|datagram|] == datagram[HeaderOverhead..]
    ensures server.readCount == old(server.readCount) + 1
    ensures server.currentCount == SequenceField(datagram)
    ensures server.sequenceCountErrors == old(server.sequenceCountErrors)
              + (if SequenceField(datagram) == Inc32(old(server.currentCount)) then 0 else 1)
    ensures server.sequenceCount == old(server.sequenceCount)
    ensures server.writeCount == old(server.writeCount) && server.writeErrors == old(server.writeErrors)
    ensures server.bufferOverflowErrors == old(server.bufferOverflowErrors)
    ensures server.readErrors == old(server.readErrors)
  {
    var rc;
    rc, inbox := MsgAlloc(capacity, true);
    var recv: Receiver := _ => Datagram(datagram);
    ghost var region := inbox.wire[..];
    DatagramRoundTrip(region, recv, datagram);
    var readRc := MsgRead(server, inbox, recv);
    assert inbox.wire[..] == ReceiveFrom(region, recv, 0, 0).region;
  }

  /** The exchange of a message of capacity 4 with payload `[0, 1, 2, 3]` and
      type 7 between fresh client and server sessions: the server sees the
      same type and payload, sequence number 1, one read and no sequence error. */
  method Exchange() returns (tag: I32, payload: seq<Byte>, sequence: U32, readCount: nat, gaps: nat)
    ensures tag == 7 && payload == [0, 1, 2, 3] && sequence == 1
    ensures readCount == 1 && gaps == 0
  {
    var client := new Session();
    var server := new Session();
    var datagram := Send(client, [0, 1, 2, 3], 7);
    var inbox := Deliver(server, datagram, 4);
    tag := MsgGetType(inbox);
    SignedRoundTrip(7);
    payload := inbox.Payload();
    assert inbox.wire.Length == |datagram|;
    assert payload == inbox.wire[..][HeaderOverhead..] == inbox.wire[..][HeaderOverhead..|datagram|];
    sequence := inbox.SequenceCount();
    readCount := MsgReadCount(server);
    gaps := SequenceCountErrors(server);
  }

  /** A client sends two messages and only the second one arrives: the server,
      expecting sequence number 1, receives 2, counts one sequence error,
      resynchronises its expectation to 2 and still delivers the message. */
  method DroppedMessage() returns (sequence: U32, expected: U32, readCount: nat, gaps: nat)
    ensures sequence == 2 && expected == 2
    ensures readCount == 1 && gaps == 1
  {
    var client := new Session();
    var server := new Session();
    var lost := Send(client, [], 0);
    var datagram := Send(client, [], 0);
    var inbox := Deliver(server, datagram, 0);
    sequence := inbox.SequenceCount();
    expected := server.currentCount;
    readCount := MsgReadCount(server);
    gaps := SequenceCountErrors(server);
  }
}
