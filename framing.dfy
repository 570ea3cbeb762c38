/** The wire layout of a message and the pure specification of the receive
    loop of `uncl_msg_read`.

    A message occupies, after its local-only capacity word, a transmitted
    region `[nbytes, msg_type, sequence_count, payload...]` of
    `HeaderOverhead + capacity` bytes. Everything here is stated on that
    region as a byte sequence. */
module Framing {
  import opened Words

  /** Transmitted header: `nbytes`, `msg_type`, `sequence_count`. */
  const HeaderOverhead: nat := 3 * WordSize
  /** Full header, including the local-only capacity word. */
  const HeaderSize: nat := 4 * WordSize

  /** Offsets of the header words within the transmitted region. */
  const LengthOffset: nat := 0
  const TypeOffset: nat := WordSize
  const SequenceOffset: nat := 2 * WordSize

  /** Largest capacity whose `capacity + HeaderSize` still fits an `unsigned int`. */
  const MaxCapacity: nat := MaxU32 - HeaderSize

  /** `s` with the bytes at `off .. off + |w|` replaced by `w`. */
  function Overwrite(s: seq<Byte>, off: nat, w: seq<Byte>): (r: seq<Byte>)
    requires off + |w| <= |s|
    ensures |r| == |s|
    ensures r[off..off + |w|] == w
  {
    s[..off] + w + s[off + |w|..]
  }

  /** Bytes outside the overwritten range keep their slices. */
  lemma OverwriteKeeps(s: seq<Byte>, off: nat, w: seq<Byte>, i: nat, j: nat)
    requires off + |w| <= |s| && i <= j <= |s|
    requires j <= off || off + |w| <= i
    ensures Overwrite(s, off, w)[i..j] == s[i..j]
  {
    var r := Overwrite(s, off, w);
    assert forall k :: i <= k < j ==> r[k] == s[k];
  }

  /** Bytes outside the overwritten range are unchanged, byte by byte. */
  lemma OverwriteOutside(s: seq<Byte>, off: nat, w: seq<Byte>)
    requires off + |w| <= |s|
    ensures forall i :: 0 <= i < off ==> Overwrite(s, off, w)[i] == s[i]
    ensures forall i :: off + |w| <= i < |s| ==> Overwrite(s, off, w)[i] == s[i]
  {
  }

  /** The header word stored at `off` in a region. */
  function WordAt(s: seq<Byte>, off: nat): U32
    requires off + WordSize <= |s|
  {
    DecodeWord(s[off..off + WordSize])
  }

  /** Writing a header word and reading it back yields that word; the other
      words of the header are unaffected. */
  lemma WordAtOverwrite(s: seq<Byte>, off: nat, v: U32, other: nat)
    requires off + WordSize <= |s| && other + WordSize <= |s|
    requires other + WordSize <= off || off + WordSize <= other
    ensures WordAt(Overwrite(s, off, EncodeWord(v)), off) == v
    ensures WordAt(Overwrite(s, off, EncodeWord(v)), other) == WordAt(s, other)
  {
    DecodeEncodeWord(v);
    OverwriteKeeps(s, off, EncodeWord(v), other, other + WordSize);
  }

  /** A store to one of the three header words sets that word and leaves
      the other two words and the payload as they were. */
  lemma OverwriteHeaderWord(s: seq<Byte>, off: nat, v: U32)
    requires HeaderOverhead <= |s| && off in {LengthOffset, TypeOffset, SequenceOffset}
    ensures var r := Overwrite(s, off, EncodeWord(v));
      && WordAt(r, off) == v
      && (off != LengthOffset ==> LengthField(r) == LengthField(s))
      && (off != TypeOffset ==> TypeField(r) == TypeField(s))
      && (off != SequenceOffset ==> SequenceField(r) == SequenceField(s))
      && r[HeaderOverhead..] == s[HeaderOverhead..]
  {
    if off == LengthOffset {
      WordAtOverwrite(s, off, v, TypeOffset);
      WordAtOverwrite(s, off, v, SequenceOffset);
    } else if off == TypeOffset {
      WordAtOverwrite(s, off, v, LengthOffset);
      WordAtOverwrite(s, off, v, SequenceOffset);
    } else {
      WordAtOverwrite(s, off, v, LengthOffset);
      WordAtOverwrite(s, off, v, TypeOffset);
    }
    OverwriteKeeps(s, off, EncodeWord(v), HeaderOverhead, |s|);
  }

  function LengthField(s: seq<Byte>): U32
    requires HeaderOverhead <= |s|
  {
    WordAt(s, LengthOffset)
  }

  function TypeField(s: seq<Byte>): U32
    requires HeaderOverhead <= |s|
  {
    WordAt(s, TypeOffset)
  }

  function SequenceField(s: seq<Byte>): U32
    requires HeaderOverhead <= |s|
  {
    WordAt(s, SequenceOffset)
  }

  /** The transmitted bytes of a header with the given words. */
  function Header(length: U32, tag: U32, sequence: U32): (h: seq<Byte>)
    ensures |h| == HeaderOverhead
  {
    EncodeWord(length) + EncodeWord(tag) + EncodeWord(sequence)
  }

  /** A header built from three words decodes to those three words, whatever follows it. */
  lemma HeaderFields(length: U32, tag: U32, sequence: U32, payload: seq<Byte>)
    ensures var s := Header(length, tag, sequence) + payload;
      LengthField(s) == length && TypeField(s) == tag && SequenceField(s) == sequence
      && s[HeaderOverhead..] == payload
  {
    var s := Header(length, tag, sequence) + payload;
    assert s[0..4] == EncodeWord(length);
    assert s[4..8] == EncodeWord(tag);
    assert s[8..12] == EncodeWord(sequence);
    DecodeEncodeWord(length);
    DecodeEncodeWord(tag);
    DecodeEncodeWord(sequence);
  }

  /** Every region long enough for a header is a header followed by its payload. */
  lemma HeaderSplit(s: seq<Byte>)
    requires HeaderOverhead <= |s|
    ensures s == Header(LengthField(s), TypeField(s), SequenceField(s)) + s[HeaderOverhead..]
  {
    EncodeDecodeWord(s[0..4]);
    EncodeDecodeWord(s[4..8]);
    EncodeDecodeWord(s[8..12]);
    assert s == s[0..4] + s[4..8] + s[8..12] + s[12..];
  }

  // ---------------------------------------------------------------------
  // The receive loop of uncl_msg_read

  /** The bytes one successful `recvfrom` call delivers: at least one. */
  type Chunk = s: seq<Byte> | |s| > 0 witness [0]

  /** What one `recvfrom` call yields: some bytes of a datagram, or failure. */
  datatype RecvResult = Datagram(bytes: Chunk) | RecvFailed

  /** The transport oracle: the result of the `k`-th receive call of a read. */
  type Receiver = nat -> RecvResult

  /** State of the transmitted region when the loop stops. */
  datatype Fill = Fill(region: seq<Byte>, received: nat, failed: bool)

  /** The do-while condition: fewer bytes than the length word (as it reads
      now, possibly partly overwritten) and room left in the region. */
  predicate MoreToRead(region: seq<Byte>, received: nat)
    requires HeaderOverhead <= |region|
  {
    received < LengthField(region) && received < |region|
  }

  /** Bytes a receive with room `remaining` stores: `recvfrom` never writes more than it is given room for. */
  function Stored(bytes: seq<Byte>, remaining: nat): (c: seq<Byte>)
    ensures |c| <= remaining && |c| <= |bytes| && c == bytes[..|c|]
    ensures |c| == |bytes| || |c| == remaining
    ensures |bytes| <= remaining ==> c == bytes
  {
    bytes[..Min(|bytes|, remaining)]
  }

  /** Outcome of the receive loop entered with `received` bytes in place,
      the `call`-th receive next. */
  function ReceiveFrom(region: seq<Byte>, recv: Receiver, received: nat, call: nat): (f: Fill)
    requires HeaderOverhead <= |region| && received < |region|
    ensures |f.region| == |region| && received <= f.received <= |region|
    decreases |region| - received
  {
    match recv(call)
    case RecvFailed => Fill(region, received, true)
    case Datagram(bytes) =>
      var chunk := Stored(bytes, |region| - received);
      var region' := Overwrite(region, received, chunk);
      if MoreToRead(region', received + |chunk|)
      then ReceiveFrom(region', recv, received + |chunk|, call + 1)
      else Fill(region', received + |chunk|, false)
  }

  /** One turn of the loop: a receive that delivers `bytes` stores what fits
      and either goes round again or stops. */
  lemma ReceiveFromStep(region: seq<Byte>, recv: Receiver, received: nat, call: nat, bytes: Chunk)
    requires HeaderOverhead <= |region| && received < |region|
    requires recv(call) == Datagram(bytes)
    ensures var chunk := Stored(bytes, |region| - received);
      var region' := Overwrite(region, received, chunk);
      0 < |chunk|
      && ReceiveFrom(region, recv, received, call)
         == if MoreToRead(region', received + |chunk|)
            then ReceiveFrom(region', recv, received + |chunk|, call + 1)
            else Fill(region', received + |chunk|, false)
  {
  }

  /** The loop keeps the region's length, never moves backwards, keeps what
      was already received and writes nothing past the bytes it counts. */
  lemma {:induction false} ReceiveFromShape(region: seq<Byte>, recv: Receiver, received: nat, call: nat)
    requires HeaderOverhead <= |region| && received < |region|
    ensures var f := ReceiveFrom(region, recv, received, call);
      |f.region| == |region| && received <= f.received <= |region|
      && (forall i :: 0 <= i < received ==> f.region[i] == region[i])
      && (forall i :: f.received <= i < |region| ==> f.region[i] == region[i])
    decreases |region| - received
  {
    match recv(call)
    case RecvFailed =>
    case Datagram(bytes) =>
      var chunk := Stored(bytes, |region| - received);
      var region' := Overwrite(region, received, chunk);
      OverwriteOutside(region, received, chunk);
      if MoreToRead(region', received + |chunk|) {
        ReceiveFromShape(region', recv, received + |chunk|, call + 1);
      }
  }

  /** A loop that did not fail stopped for one of its two reasons: the length
      word it now holds is covered, or the region is full. */
  lemma {:induction false} ReceiveFromExit(region: seq<Byte>, recv: Receiver, received: nat, call: nat)
    requires HeaderOverhead <= |region| && received < |region|
    ensures var f := ReceiveFrom(region, recv, received, call);
      |f.region| == |region|
      && (!f.failed ==> f.received >= LengthField(f.region) || f.received == |region|)
    decreases |region| - received
  {
    match recv(call)
    case RecvFailed =>
    case Datagram(bytes) =>
      var chunk := Stored(bytes, |region| - received);
      var region' := Overwrite(region, received, chunk);
      if MoreToRead(region', received + |chunk|) {
        ReceiveFromExit(region', recv, received + |chunk|, call + 1);
      } else {
        assert ReceiveFrom(region, recv, received, call) == Fill(region', received + |chunk|, false);
      }
  }

  /** With a receiver that never fails, the loop never fails. */
  lemma {:induction false} ReceiveFromNoFailure(region: seq<Byte>, recv: Receiver, received: nat, call: nat)
    requires HeaderOverhead <= |region| && received < |region|
    requires forall k :: recv(k).Datagram?
    ensures !ReceiveFrom(region, recv, received, call).failed
    decreases |region| - received
  {
    assert recv(call).Datagram?;
    var chunk := Stored(recv(call).bytes, |region| - received);
    var region' := Overwrite(region, received, chunk);
    ReceiveFromStep(region, recv, received, call, recv(call).bytes);
    if MoreToRead(region', received + |chunk|) {
      ReceiveFromNoFailure(region', recv, received + |chunk|, call + 1);
    }
  }

  /** Conversely, a loop that fails stopped at its first failing receive:
      some call `k` from `call` on failed, and every call before it delivered
      bytes. */
  lemma {:induction false} ReceiveFromFailedCall(region: seq<Byte>, recv: Receiver, received: nat, call: nat)
    requires HeaderOverhead <= |region| && received < |region|
    requires ReceiveFrom(region, recv, received, call).failed
    ensures exists k :: call <= k && recv(k).RecvFailed?
                        && forall j :: call <= j < k ==> recv(j).Datagram?
    decreases |region| - received
  {
    match recv(call)
    case RecvFailed =>
      assert recv(call).RecvFailed?;
    case Datagram(bytes) =>
      var chunk := Stored(bytes, |region| - received);
      var region' := Overwrite(region, received, chunk);
      if MoreToRead(region', received + |chunk|) {
        ReceiveFromStep(region, recv, received, call, bytes);
        ReceiveFromFailedCall(region', recv, received + |chunk|, call + 1);
        var k :| call + 1 <= k && recv(k).RecvFailed?
                 && forall j :: call + 1 <= j < k ==> recv(j).Datagram?;
        DeliveredBefore(recv, call, k);
      }
  }

  /** Calls `call + 1 .. k` delivered bytes and so did `call`: then all of
      `call .. k` did. */
  lemma DeliveredBefore(recv: Receiver, call: nat, k: nat)
    requires recv(call).Datagram? && call < k
    requires forall j :: call + 1 <= j < k ==> recv(j).Datagram?
    ensures forall j :: call <= j < k ==> recv(j).Datagram?
  {
  }

  /** A first receive that fails aborts the read with the region untouched. */
  lemma ReceiveFromFirstFails(region: seq<Byte>, recv: Receiver)
    requires HeaderOverhead <= |region|
    requires recv(0) == RecvFailed
    ensures ReceiveFrom(region, recv, 0, 0) == Fill(region, 0, true)
  {
  }

  /** Framing round trip: a whole datagram whose length word equals its size
      and which fits the receiving region is taken in by a single receive,
      and the region then starts with exactly that datagram. */
  lemma DatagramRoundTrip(region: seq<Byte>, recv: Receiver, d: seq<Byte>)
    requires HeaderOverhead <= |d| <= |region|
    requires LengthField(d) == |d|
    requires recv(0) == Datagram(d)
    ensures var f := ReceiveFrom(region, recv, 0, 0);
      !f.failed && f.received == |d| && f.region == d + region[|d|..]
      && LengthField(f.region) == LengthField(d)
      && TypeField(f.region) == TypeField(d)
      && SequenceField(f.region) == SequenceField(d)
      && f.region[HeaderOverhead..|d|] == d[HeaderOverhead..]
  {
    var region' := Overwrite(region, 0, d);
    assert region' == d + region[|d|..] by {
      assert region[..0] == [];
    }
    HeaderOfPrefix(region', d);
    assert !MoreToRead(region', |d|);
    assert region'[HeaderOverhead..|d|] == d[HeaderOverhead..];
  }

  /** A region that starts with `p` carries `p`'s header. */
  lemma HeaderOfPrefix(s: seq<Byte>, p: seq<Byte>)
    requires HeaderOverhead <= |p| <= |s| && s[..|p|] == p
    ensures LengthField(s) == LengthField(p)
    ensures TypeField(s) == TypeField(p)
    ensures SequenceField(s) == SequenceField(p)
  {
    assert s[0..4] == p[0..4];
    assert s[4..8] == p[4..8];
    assert s[8..12] == p[8..12];
  }

  /** The datagram `uncl_msg_write` hands to the transport for a region: its
      first `nbytes` bytes, starting at the length word. */
  function Outgoing(region: seq<Byte>): (d: seq<Byte>)
    requires HeaderOverhead <= |region| && LengthField(region) <= |region|
    ensures |d| == LengthField(region)
  {
    region[..LengthField(region)]
  }

  /** When the length word holds at least the header, the outgoing datagram
      carries the region's own header and the leading `nbytes - 12` payload
      bytes, so its length word equals its size. */
  lemma OutgoingFrame(region: seq<Byte>)
    requires HeaderOverhead <= |region| && HeaderOverhead <= LengthField(region) <= |region|
    ensures var d := Outgoing(region);
      d == Header(LengthField(region), TypeField(region), SequenceField(region))
           + region[HeaderOverhead..LengthField(region)]
      && LengthField(d) == |d|
      && TypeField(d) == TypeField(region)
      && SequenceField(d) == SequenceField(region)
  {
    var d := Outgoing(region);
    assert d[0..4] == region[0..4];
    assert d[4..8] == region[4..8];
    assert d[8..12] == region[8..12];
    HeaderSplit(region);
    HeaderSplit(d);
  }

  /** End-to-end framing: what a sender with a properly sized message puts
      on the wire, received whole into any region with room for it, reproduces
      the sender's length, type, sequence number and payload prefix. */
  lemma WriteReadRoundTrip(sent: seq<Byte>, region: seq<Byte>, recv: Receiver)
    requires HeaderOverhead <= |sent| && HeaderOverhead <= LengthField(sent) <= |sent|
    requires LengthField(sent) <= |region|
    requires recv(0) == Datagram(Outgoing(sent))
    ensures var f := ReceiveFrom(region, recv, 0, 0);
      !f.failed && f.received == LengthField(sent)
      && LengthField(f.region) == LengthField(sent)
      && TypeField(f.region) == TypeField(sent)
      && SequenceField(f.region) == SequenceField(sent)
      && f.region[HeaderOverhead..LengthField(sent)] == sent[HeaderOverhead..LengthField(sent)]
  {
    var d := Outgoing(sent);
    OutgoingFrame(sent);
    DatagramRoundTrip(region, recv, d);
  }

  // ---------------------------------------------------------------------
  // Length arithmetic

  /** The oversize test `(nbytes - header_overhead) > buffer_size`, evaluated
      in `uint32_t` arithmetic. */
  predicate OverflowDetected(length: U32, capacity: U32)
  {
    Sub32(length, HeaderOverhead) > capacity
  }

  /** The test fires for a length word claiming more payload than the
      capacity, and also, through unsigned wrap-around, for every length word
      shorter than the header itself. */
  lemma OverflowDetectedIff(length: U32, capacity: U32)
    requires capacity <= MaxCapacity
    ensures OverflowDetected(length, capacity)
            <==> length < HeaderOverhead || length - HeaderOverhead > capacity
  {
  }

  /** As written: the size `malloc(nbytes + header_size)` is asked for, the
      sum taken in `unsigned int` arithmetic. */
  function MallocRequestAsWritten(capacity: U32): U32
  {
    ToU32(capacity + HeaderSize)
  }

  /** For every capacity above `MaxCapacity` the request wraps around and is
      smaller than the header alone, while the message goes on to claim
      `capacity` payload bytes; at the largest capacity 15 bytes are asked for. */
  lemma MallocRequestWraps(capacity: U32)
    requires capacity > MaxCapacity
    ensures MallocRequestAsWritten(capacity) == capacity + HeaderSize - WordLimit
    ensures MallocRequestAsWritten(capacity) < HeaderSize
    ensures capacity == MaxU32 ==> MallocRequestAsWritten(capacity) == HeaderSize - 1
  {
  }

  /** Corrected: the request is made only when header plus capacity fits, and
      then it is exactly the header plus the capacity. */
  function MallocRequest(capacity: U32): (r: Option<nat>)
    ensures r.Some? <==> capacity <= MaxCapacity
    ensures r.Some? ==> r.value == HeaderSize + capacity && r.value <= MaxU32
  {
    if capacity <= MaxCapacity then Some(capacity + HeaderSize) else None
  }

  /** The two agree wherever the corrected one makes a request. */
  lemma MallocRequestAgrees(capacity: U32)
    requires MallocRequest(capacity).Some?
    ensures MallocRequestAsWritten(capacity) == MallocRequest(capacity).value
  {
  }

  datatype Option<T> = None | Some(value: T)
}
