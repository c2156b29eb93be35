/** The sending application of examples/tcp/tcp-large-transfer.cc: it writes a periodic stream in pieces, as the
    socket has room, and resumes where it stopped. */
module ChunkedWriter {

  const TOTAL_TX_BYTES: nat := 2000000
  const WRITE_SIZE: nat := 1040

  /** Byte k of the stream: the letters a to z over and over. */
  function StreamByte(k: nat): int {
    97 + k % 26
  }

  /** The first 26 bytes are the alphabet, and every byte comes again 26 bytes later. */
  lemma AlphabetRepeats(k: nat)
    ensures k < 26 ==> StreamByte(k) as char == "abcdefghijklmnopqrstuvwxyz"[k]
    ensures StreamByte(k + 26) == StreamByte(k)
  {
    ModShift(k, 1);
  }

  function Stream(n: nat): seq<int> {
    seq(n, i requires 0 <= i < n => StreamByte(i))
  }

  /** What is sent from one offset of the buffer is what the stream holds at any position with that offset: 26
      divides the write size. */
  lemma OffsetsAgree(position: nat, j: nat)
    ensures StreamByte(position % WRITE_SIZE + j) == StreamByte(position + j)
  {
    var q := position / WRITE_SIZE;
    assert position + j == position % WRITE_SIZE + j + 26 * (40 * q);
    ModShift(position % WRITE_SIZE + j, 40 * q);
  }

  lemma ModShift(a: nat, q: nat)
    ensures (a + 26 * q) % 26 == a % 26
  {
  }

  /** Appending a slice of the buffer, taken at the offset of the current position, extends the stream. */
  lemma SliceExtendsStream(buffer: seq<int>, position: nat, n: nat)
    requires buffer == Stream(WRITE_SIZE) && position % WRITE_SIZE + n <= WRITE_SIZE
    ensures Stream(position) + buffer[position % WRITE_SIZE..position % WRITE_SIZE + n] == Stream(position + n)
  {
    var offset := position % WRITE_SIZE;
    var slice := buffer[offset..offset + n];
    forall j: nat | j < n ensures slice[j] == StreamByte(position + j) {
      OffsetsAgree(position, j);
    }
  }

  /** What a Send is offered: how many bytes had been accepted before, how much room there was, and how many bytes it is
      given. */
  datatype Offer = Offer(position: nat, room: nat, size: nat)

  /** As much as the buffer holds from the current offset to its end, but no more than is left of the stream or
      than there is room for. */
  predicate IsFull(offer: Offer) {
    var toEnd, left := 1040 - offer.position % 1040, 2000000 - offer.position;
    && offer.size <= toEnd && offer.size <= left && offer.size <= offer.room
    && (offer.size == toEnd || offer.size == left || offer.size == offer.room)
  }

  /** The socket, as far as the application sees it: what each Send answers and how much room is left after it
      are arbitrary, except that Send accepts between 1 and the offered number of bytes or answers -1. */
  class Socket {
    const reply: nat -> int
    const room: nat -> nat
    var sends: nat
    /** How many of them were answered with -1. */
    var failures: nat
    var txAvailable: nat
    var lastSendFailed: bool
    var wire: seq<int>
    var closed: bool
    /** What each Send was offered. */
    var offers: seq<Offer>

    constructor (reply: nat -> int, room: nat -> nat, txAvailable: nat)
      ensures this.reply == reply && this.room == room && this.txAvailable == txAvailable
      ensures wire == [] && !closed && failures == 0 && offers == []
    {
      this.reply, this.room, this.txAvailable := reply, room, txAvailable;
      sends, failures, lastSendFailed, wire, closed, offers := 0, 0, false, [], false, [];
    }

    method Send(data: array<int>, offset: nat, n: nat) returns (sent: int)
      requires 0 < n <= txAvailable && offset + n <= data.Length
      modifies this
      ensures sent == -1 || 1 <= sent <= n
      ensures wire == old(wire) + if sent == -1 then [] else data[offset..offset + sent]
      ensures lastSendFailed <==> sent == -1
      ensures failures == old(failures) + if sent == -1 then 1 else 0
      ensures closed == old(closed)
      ensures offers == old(offers) + [Offer(|old(wire)|, old(txAvailable), n)]
    {
      sent := reply(sends);
      offers := offers + [Offer(|wire|, txAvailable, n)];
      if sent < 1 || n < sent {
        sent := -1;
      } else {
        wire := wire + data[offset..offset + sent];
      }
      lastSendFailed := sent == -1;
      failures := failures + if lastSendFailed then 1 else 0;
      txAvailable := room(sends);
      sends := sends + 1;
    }

    method Close()
      modifies this`closed
      ensures closed
    {
      closed := true;
    }
  }

  class Sender {
    const data: array<int>
    const socket: Socket
    var currentTxBytes: nat

    /** The bytes accepted so far are the beginning of the stream, and the socket is closed only after the
        last byte. */
    ghost predicate Valid()
      reads this, data, socket
    {
      && data[..] == Stream(WRITE_SIZE)
      && currentTxBytes <= TOTAL_TX_BYTES
      && socket.wire == Stream(currentTxBytes)
      && (socket.closed ==> currentTxBytes == TOTAL_TX_BYTES)
    }

    constructor (socket: Socket)
      requires socket.wire == [] && !socket.closed
      ensures Valid() && this.socket == socket && fresh(data) && currentTxBytes == 0
    {
      var buffer := new int[WRITE_SIZE];
      for i := 0 to WRITE_SIZE
        invariant forall j: nat | j < i :: buffer[j] == StreamByte(j)
      {
        buffer[i] := 97 + i % 26;
      }
      data := buffer;
      this.socket := socket;
      currentTxBytes := 0;
      new;
      assert data[..] == Stream(WRITE_SIZE);
    }

    /** Sends until the stream is complete, the socket has no room or a Send fails; closes after the last byte. Given
        room for a stream that is not complete, it sends at least one byte or its only failing Send is the first. */
    method WriteUntilBufferFull(txSpace: nat)
      requires Valid()
      modifies this`currentTxBytes, socket
      ensures Valid()
      ensures old(currentTxBytes) <= currentTxBytes && old(socket.wire) <= socket.wire
      ensures currentTxBytes == TOTAL_TX_BYTES || socket.txAvailable == 0 || socket.lastSendFailed
      ensures socket.closed <==> currentTxBytes == TOTAL_TX_BYTES
      ensures old(socket.failures) <= socket.failures <= old(socket.failures) + 1
      ensures old(socket.offers) <= socket.offers
      ensures forall i | |old(socket.offers)| <= i < |socket.offers| :: IsFull(socket.offers[i])
      ensures old(currentTxBytes) < TOTAL_TX_BYTES && old(socket.txAvailable) > 0 ==>
                currentTxBytes > old(currentTxBytes) || socket.failures > old(socket.failures)
    {
      while currentTxBytes < TOTAL_TX_BYTES && socket.txAvailable > 0
        invariant Valid() && old(currentTxBytes) <= currentTxBytes && old(socket.wire) <= socket.wire
        invariant socket.failures == old(socket.failures) && old(socket.offers) <= socket.offers
        invariant forall i | |old(socket.offers)| <= i < |socket.offers| :: IsFull(socket.offers[i])
        invariant currentTxBytes > old(currentTxBytes) || socket.txAvailable == old(socket.txAvailable)
        decreases TOTAL_TX_BYTES - currentTxBytes
      {
        var left := TOTAL_TX_BYTES - currentTxBytes;
        var dataOffset := currentTxBytes % WRITE_SIZE;
        var toWrite := WRITE_SIZE - dataOffset;
        toWrite := if left < toWrite then left else toWrite;
        toWrite := if socket.txAvailable < toWrite then socket.txAvailable else toWrite;
        var amountSent := socket.Send(data, dataOffset, toWrite);
        if amountSent < 0 {
          return;
        }
        SliceExtendsStream(data[..], currentTxBytes, amountSent);
        assert data[..][dataOffset..dataOffset + amountSent] == data[dataOffset..dataOffset + amountSent];
        currentTxBytes := currentTxBytes + amountSent;
      }
      if currentTxBytes >= TOTAL_TX_BYTES {
        socket.Close();
      }
    }
  }

  /** How often there is room. */
  function Offers(rooms: seq<nat>): nat {
    if rooms == [] then 0 else Offers(rooms[..|rooms| - 1]) + if rooms[|rooms| - 1] > 0 then 1 else 0
  }

  /** When every callback offers room there is an offer for each of them. */
  lemma {:induction false} OffersOfCallbacks(initialRoom: nat, callbacks: seq<nat>)
    requires forall i | 0 <= i < |callbacks| :: callbacks[i] > 0
    ensures Offers([initialRoom] + callbacks) >= |callbacks|
  {
    if callbacks != [] {
      var k := |callbacks| - 1;
      assert ([initialRoom] + callbacks)[..|callbacks|] == [initialRoom] + callbacks[..k];
      OffersOfCallbacks(initialRoom, callbacks[..k]);
    }
  }

  /** A whole transfer: the flow starts, and then the socket calls back with some room each time. Whatever the
      socket accepts, the bytes on the wire are a prefix of the stream, and it is closed exactly when they
      are all of it. Each offer of room brings a byte or a failing Send, so that the socket is closed once the offers
      exceed the failing Sends by the length of the stream; when no Send fails and every callback offers room, after
      as many callbacks as there are bytes. */
  method Transfer(reply: nat -> int, room: nat -> nat, initialRoom: nat, callbacks: seq<nat>)
    returns (wire: seq<int>, closed: bool, failures: nat)
    ensures |wire| <= TOTAL_TX_BYTES && wire == Stream(|wire|)
    ensures closed <==> wire == Stream(TOTAL_TX_BYTES)
    ensures closed || |wire| + failures >= Offers([initialRoom] + callbacks)
    ensures Offers([initialRoom] + callbacks) >= TOTAL_TX_BYTES + failures ==> closed
    ensures failures == 0 && (forall i | 0 <= i < |callbacks| :: callbacks[i] > 0) && |callbacks| >= TOTAL_TX_BYTES ==>
              closed
  {
    var socket := new Socket(reply, room, initialRoom);
    var sender := new Sender(socket);
    sender.WriteUntilBufferFull(socket.txAvailable);
    ghost var rooms := [initialRoom] + callbacks;
    assert rooms[..1] == [initialRoom] && [initialRoom][..0] == [];
    for i := 0 to |callbacks|
      invariant sender.Valid() && sender.socket == socket
      invariant socket.closed <==> sender.currentTxBytes == TOTAL_TX_BYTES
      invariant socket.closed || sender.currentTxBytes + socket.failures >= Offers(rooms[..i + 1])
      invariant fresh(sender) && fresh(socket)
    {
      assert rooms[..i + 2][..i + 1] == rooms[..i + 1] && rooms[i + 1] == callbacks[i];
      socket.txAvailable := callbacks[i];
      sender.WriteUntilBufferFull(callbacks[i]);
    }
    assert rooms[..|callbacks| + 1] == rooms;
    if forall i | 0 <= i < |callbacks| :: callbacks[i] > 0 {
      OffersOfCallbacks(initialRoom, callbacks);
    }
    wire, closed, failures := socket.wire, socket.closed, socket.failures;
  }

  /** What the period is for: if d bytes are lost from the middle of the stream, what is left looks like a
      stream only when 26 divides d. */
  lemma LossIsDetectedIff(n: nat, i: nat, d: nat)
    requires i + d < n
    ensures Stream(n)[..i] + Stream(n)[i + d..] == Stream(n - d) <==> d % 26 == 0
  {
    var received := Stream(n)[..i] + Stream(n)[i + d..];
    if d % 26 == 0 {
      forall j: nat | j < n - d ensures received[j] == StreamByte(j) {
        if j >= i {
          ModShift(j, d / 26);
          assert j + d == j + 26 * (d / 26);
        }
      }
    } else {
      assert received[i] == StreamByte(i + d);
      assert (i + d) % 26 != i % 26;
    }
  }
}
