/** The receiving half of a connection: recv into a doubling buffer until a newline arrives. */
module Receive {
  import opened Bytes

  const CLIENT_BUFFER_LEN := 1024

  /** What the network does next: some bytes arrive, the peer closes, or recv fails. */
  datatype Arrival = Chunk(bytes: Text) | Closed | Failed

  /** The bytes that arrive before the connection ends. */
  function Stream(arrivals: seq<Arrival>): Text {
    if arrivals == [] || !arrivals[0].Chunk? then [] else arrivals[0].bytes + Stream(arrivals[1..])
  }

  function TotalBytes(arrivals: seq<Arrival>): nat {
    if arrivals == [] then 0
    else (if arrivals[0].Chunk? then 1 + |arrivals[0].bytes| else 1) + TotalBytes(arrivals[1..])
  }

  class ClientSocket {
    var arrivals: seq<Arrival>
    var sent: Text                  // everything the peer has been sent
    ghost var chunks: seq<Text>     // what each recv so far has returned

    constructor (arrivals: seq<Arrival>)
      ensures this.arrivals == arrivals && sent == [] && chunks == []
    {
      this.arrivals, sent, chunks := arrivals, [], [];
    }

    /** recv, asked for at most room bytes.  None stands for both 0 and -1. */
    method Recv(room: nat) returns (chunk: Option<Text>)
      requires 0 < room
      modifies this`arrivals, this`chunks
      ensures match chunk
              case None =>
                && Stream(old(arrivals)) == [] && chunks == old(chunks)
              case Some(bytes) =>
                && 0 < |bytes| <= room && chunks == old(chunks) + [bytes]
                && Stream(old(arrivals)) == bytes + Stream(arrivals)
                && TotalBytes(arrivals) < TotalBytes(old(arrivals))
    {
      while arrivals != [] && arrivals[0] == Chunk([])
        modifies this`arrivals
        invariant Stream(arrivals) == Stream(old(arrivals))
        invariant TotalBytes(arrivals) <= TotalBytes(old(arrivals))
        decreases |arrivals|
      {
        arrivals := arrivals[1..];
      }
      if arrivals == [] || !arrivals[0].Chunk? {
        return None;
      }
      var bytes := arrivals[0].bytes;
      if room < |bytes| {
        arrivals := [Chunk(bytes[room..])] + arrivals[1..];
        bytes := bytes[..room];
      } else {
        arrivals := arrivals[1..];
      }
      chunks := chunks + [bytes];
      return Some(bytes);
    }
  }

  function Pow2(k: nat): nat {
    if k == 0 then 1 else 2 * Pow2(k - 1)
  }

  function Sum(xs: seq<nat>): nat {
    if xs == [] then 0 else Sum(xs[..|xs| - 1]) + xs[|xs| - 1]
  }

  /** chunks is a list of received pieces of which exactly the last contains a newline. */
  ghost predicate EndsAtNewline(chunks: seq<Text>) {
    && chunks != [] && HasNewline(chunks[|chunks| - 1])
    && forall k :: 0 <= k < |chunks| - 1 ==> !HasNewline(chunks[k])
  }

  lemma {:induction false} NoNewlineInFlatten(chunks: seq<Text>)
    ensures HasNewline(Flatten(chunks)) <==> exists k :: 0 <= k < |chunks| && HasNewline(chunks[k])
  {
    if chunks != [] {
      NoNewlineInFlatten(chunks[1..]);
      if exists k :: 0 <= k < |chunks| && HasNewline(chunks[k]) {
        var k :| 0 <= k < |chunks| && HasNewline(chunks[k]);
        if k > 0 {
          assert chunks[1..][k - 1] == chunks[k];
        }
      }
    }
  }

  /** Between two recvs: text is what has arrived of the stream, in the chunks recorded since
      was, none of them with a newline. */
  ghost predicate Waiting(was: seq<Text>, now: seq<Text>, text: Text, rest: Text, stream: Text) {
    && was <= now && text == Flatten(now[|was|..]) && !HasNewline(text)
    && text + rest == stream
  }

  /** The message is the text of the chunks recorded since was, up to the first newline. */
  ghost predicate Framed(was: seq<Text>, now: seq<Text>, message: Text, rest: Text, stream: Text) {
    && was <= now && message == Flatten(now[|was|..]) && EndsAtNewline(now[|was|..])
    && message + rest == stream
  }

  lemma TakeChunk(was: seq<Text>, now: seq<Text>, text: Text, stream: Text, bytes: Text, rest: Text)
    requires Waiting(was, now, text, bytes + rest, stream)
    ensures if HasNewline(text + bytes) then Framed(was, now + [bytes], text + bytes, rest, stream)
            else Waiting(was, now + [bytes], text + bytes, rest, stream)
  {
    FlattenSnoc(now[|was|..], bytes);
    NoNewlineInFlatten(now[|was|..]);
    assert (now + [bytes])[|was|..] == now[|was|..] + [bytes];
  }

  /** The buffer was doubled once for each capacity in the list, starting from the first size. */
  ghost predicate Doubled(capacity: nat, capacities: seq<nat>) {
    && capacity == CLIENT_BUFFER_LEN * Pow2(|capacities|)
    && Sum(capacities) == capacity - CLIENT_BUFFER_LEN
  }

  /** The buffer has room for what has arrived and a NUL, and is not much larger than it needs. */
  ghost predicate BufferFits(capacity: nat, capacities: seq<nat>, received: nat) {
    && received < capacity <= Max(CLIENT_BUFFER_LEN, 2 * (received + 1))
    && Doubled(capacity, capacities)
  }

  lemma DoubleAgain(capacity: nat, capacities: seq<nat>)
    requires Doubled(capacity, capacities)
    ensures Doubled(2 * capacity, capacities + [capacity])
  {
    assert (capacities + [capacity])[..|capacities|] == capacities;
  }

  /** What recv and the terminating NUL write into the buffer. */
  method AppendBytes(buffer: array<byte>, total: nat, bytes: Text)
    requires total + |bytes| < buffer.Length
    modifies buffer
    ensures buffer[..total + |bytes|] == old(buffer[..total]) + bytes
    ensures buffer[total + |bytes|] == 0
  {
    forall j | 0 <= j < |bytes| {
      buffer[total + j] := bytes[j];
    }
    buffer[total + |bytes|] := 0;
  }

  /** realloc to twice the size, of a full buffer. */
  method Grow(buffer: array<byte>, total: nat, capacities: seq<nat>) returns (grown: array<byte>, capacities': seq<nat>)
    requires 1 < buffer.Length == total + 1 && Doubled(buffer.Length, capacities)
    ensures fresh(grown) && grown.Length == 2 * buffer.Length && grown[..total] == buffer[..total]
    ensures |capacities'| == |capacities| + 1 && BufferFits(grown.Length, capacities', total)
  {
    DoubleAgain(buffer.Length, capacities);
    capacities' := capacities + [buffer.Length];
    grown := new byte[2 * buffer.Length](_ => 0);
    forall j | 0 <= j < total {
      grown[j] := buffer[j];
    }
  }

  /** One recv into the buffer, with its terminating NUL; 0 stands for both 0 and -1. */
  method ReceiveChunk(sock: ClientSocket, buffer: array<byte>, total: nat, ghost was: seq<Text>, ghost stream: Text)
      returns (received: nat)
    requires total + 1 < buffer.Length
    requires Waiting(was, sock.chunks, buffer[..total], Stream(sock.arrivals), stream)
    modifies sock`arrivals, sock`chunks, buffer
    ensures total + received < buffer.Length
    ensures received == 0 ==> Stream(old(sock.arrivals)) == [] && sock.chunks == old(sock.chunks)
    ensures 0 < received ==>
              && TotalBytes(sock.arrivals) < TotalBytes(old(sock.arrivals))
              && var text := buffer[..total + received];
                 if HasNewline(text) then Framed(was, sock.chunks, text, Stream(sock.arrivals), stream)
                 else Waiting(was, sock.chunks, text, Stream(sock.arrivals), stream)
  {
    ghost var text, now := buffer[..total], sock.chunks;
    var chunk := sock.Recv(buffer.Length - total - 1);
    if chunk == None {
      return 0;
    }
    TakeChunk(was, now, text, stream, chunk.value, Stream(sock.arrivals));
    AppendBytes(buffer, total, chunk.value);
    return |chunk.value|;
  }

  /** How the loop may end.  In every case the buffer fits what was received.  With a message: the
      received chunks are it.  Without one: no newline was coming, or the doubling that was needed
      next, of a full buffer, is the one that fails. */
  ghost predicate Received(was: seq<Text>, now: seq<Text>, message: Option<Text>, rest: Text, stream: Text,
                           capacity: nat, capacities: seq<nat>, failsAt: Option<nat>) {
    && was <= now && BufferFits(capacity, capacities, |Flatten(now[|was|..])|)
    && (failsAt.Some? ==> |capacities| <= failsAt.value)
    && match message
       case Some(m) => Framed(was, now, m, rest, stream) && HasNewline(stream)
       case None =>
         HasNewline(stream) ==>
           failsAt.Some? && failsAt.value == |capacities| && capacity == |Flatten(now[|was|..])| + 1
  }

  lemma ReceivedMessage(was: seq<Text>, now: seq<Text>, text: Text, rest: Text, stream: Text,
                        capacity: nat, capacities: seq<nat>, failsAt: Option<nat>)
    requires Framed(was, now, text, rest, stream) && BufferFits(capacity, capacities, |text|)
    requires failsAt.Some? ==> |capacities| <= failsAt.value
    ensures Received(was, now, Some(text), rest, stream, capacity, capacities, failsAt)
  {
    FramedHasNewline(was, now, text, rest, stream);
  }

  lemma ReceivedNothing(was: seq<Text>, now: seq<Text>, text: Text, rest: Text, rest': Text, stream: Text,
                        capacity: nat, capacities: seq<nat>, failsAt: Option<nat>)
    requires Waiting(was, now, text, rest, stream) && BufferFits(capacity, capacities, |text|)
    requires failsAt.Some? ==> |capacities| <= failsAt.value
    requires rest == [] || (failsAt.Some? && failsAt.value == |capacities| && capacity == |text| + 1)
    ensures Received(was, now, None, rest', stream, capacity, capacities, failsAt)
  {
  }

  /** The recv loop of send_rcv_socket_data.  reallocFailsAt says which reallocation, if any,
      fails; capacities lists the buffer sizes that were outgrown. */
  method ReceiveMessage(sock: ClientSocket, callocOk: bool, reallocFailsAt: Option<nat>)
      returns (message: Option<Text>, capacity: nat, capacities: seq<nat>)
    modifies sock`arrivals, sock`chunks
    ensures !callocOk ==> message == None
    ensures callocOk ==> Received(old(sock.chunks), sock.chunks, message, Stream(sock.arrivals), Stream(old(sock.arrivals)),
                                  capacity, capacities, reallocFailsAt)
  {
    capacity, capacities := CLIENT_BUFFER_LEN, [];
    if !callocOk {
      return None, capacity, capacities;
    }
    var buffer := new byte[CLIENT_BUFFER_LEN](_ => 0);
    var total := 0;
    ghost var was, stream := sock.chunks, Stream(sock.arrivals);
    while true
      invariant fresh(buffer) && buffer.Length == capacity && total + 1 < capacity
      invariant Waiting(was, sock.chunks, buffer[..total], Stream(sock.arrivals), stream)
      invariant BufferFits(capacity, capacities, total)
      invariant reallocFailsAt.Some? ==> |capacities| <= reallocFailsAt.value
      decreases TotalBytes(sock.arrivals)
    {
      ghost var before := buffer[..total];
      var received := ReceiveChunk(sock, buffer, total, was, stream);
      if received == 0 {
        ReceivedNothing(was, sock.chunks, before, [], Stream(sock.arrivals), stream, capacity, capacities, reallocFailsAt);
        return None, capacity, capacities;
      }
      total := total + received;
      ghost var text, rest := buffer[..total], Stream(sock.arrivals);
      if HasNewline(buffer[..total]) {
        ReceivedMessage(was, sock.chunks, text, rest, stream, capacity, capacities, reallocFailsAt);
        return Some(buffer[..total]), capacity, capacities;
      }
      if total >= capacity - 1 {
        if reallocFailsAt.Some? && reallocFailsAt.value == |capacities| {
          ReceivedNothing(was, sock.chunks, text, rest, rest, stream, capacity, capacities, reallocFailsAt);
          return None, capacity, capacities;
        }
        buffer, capacities := Grow(buffer, total, capacities);
        capacity := 2 * capacity;
      }
      assert buffer[..total] == text;
    }
  }

  /** The message always ends with its first newline's chunk: it is a prefix of the stream that
      reaches the stream's first newline. */
  lemma FramedHasNewline(was: seq<Text>, now: seq<Text>, message: Text, rest: Text, stream: Text)
    requires Framed(was, now, message, rest, stream)
    ensures HasNewline(message) && message <= stream
  {
    NoNewlineInFlatten(now[|was|..]);
  }
}
