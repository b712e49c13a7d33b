/** One connection of the server from accept to close, and the accept loop that serves one
    connection after another, over the device of Driver.dfy.

    That connections really are served one after another, although each has its own thread, is
    the subject of AcceptLoop.dfy. */
module Server {
  import opened Bytes
  import opened CircularBuffers
  import opened DeviceSpec
  import opened KernelHeaps
  import opened Driver
  import opened Receive
  import opened Descriptors
  import opened ThreadLists

  /** "AESDCHAR_IOCSEEKTO:" */
  const SEEK_COMMAND: Text := [65, 69, 83, 68, 67, 72, 65, 82, 95, 73, 79, 67, 83, 69, 69, 75, 84, 79, 58]

  datatype Request = Store(message: Text) | Seek(cmd: nat, off: nat) | Malformed

  /** What sscanf finds after the command word: two numbers, or not. */
  type Scan = Text -> Option<(nat, nat)>

  function Parse(scan: Scan, message: Text): Request {
    if !(SEEK_COMMAND <= message) then Store(message)
    else
      match scan(message[|SEEK_COMMAND|..])
      case None => Malformed
      case Some((cmd, off)) => Seek(cmd, off)
  }

  function RequestOf(scan: Scan, message: Option<Text>): Option<Request> {
    if message == None then None else Some(Parse(scan, message.value))
  }

  /** What a message asks for, without naming the request: None when it is no seek command, and
      otherwise the message number and the byte number that sscanf finds in it, if it does. */
  function SeekArgs(scan: Scan, message: Text): Option<Option<(nat, nat)>> {
    if SEEK_COMMAND <= message then Some(scan(message[|SEEK_COMMAND|..])) else None
  }

  /** The result for a message that asks for this; and on success the position and the flag it
      leaves for the reply. */
  predicate Handled(args: Option<Option<(nat, nat)>>, texts: seq<Text>, written: int, pos: int, flag: bool, env: Env) {
    match args
    case None =>
      && (0 < written <==> env.kmallocOk && env.writeLockOk)
      && (0 < written ==> pos == 0 && !flag)
    case Some(None) => written < 0
    case Some(Some((x, y))) =>
      && (0 < written <==> x < |texts| && y < |texts[x]|)
      && (0 < written ==> pos == |Flatten(texts[..x])| + y && flag)
  }

  /** How one call of send ends: so many bytes taken, EINTR, or another error. */
  datatype Send = Sent(n: nat) | Interrupted | SendFailed

  /** What the environment decides during one connection. */
  datatype Env = Env(
    openOk: bool,                     // open of the device in the thread
    callocOk: bool,                   // receive buffer
    reallocFailsAt: Option<nat>,
    kmallocOk: bool,                  // inside the driver's write
    writeLockOk: bool,
    mallocOk: bool,                   // send buffer
    reopenOk: bool,
    readOk: nat -> bool,              // the lock taken by read number i
    sends: nat -> Send
  )

  /** The log after a connection, and the bytes its reply loop sets out to send. */
  function Expected(log: Log, request: Option<Request>, env: Env): (Log, Option<Text>) {
    match request
    case None => (log, None)
    case Some(Malformed) => (log, None)
    case Some(Seek(cmd, off)) =>
      (log, match SeekPos(Stored(log), cmd, off)
            case None => None
            case Some(p) =>
              if env.mallocOk then Some(Contents(log)[p..]) else None)
    case Some(Store(message)) =>
      if !env.kmallocOk || !env.writeLockOk then (log, None)
      else
        var log' := Accept(log, message);
        (log', if env.mallocOk && env.reopenOk then Some(Contents(log')) else None)
  }

  function Taken(answer: Send, length: nat): (taken: nat)
    ensures taken <= length
  {
    if answer.Sent? then Min(answer.n, length) else 0
  }

  /** What reaches the peer of the rest of a reply, from chunk number i on: of each chunk what its
      send took; nothing more after a read or a send that failed. */
  function Arriving(text: Text, env: Env, i: nat): (arrived: Text)
    ensures |arrived| <= |text|
  {
    if text == [] || !env.readOk(i) then []
    else
      var n := Min(CLIENT_BUFFER_LEN, |text|);
      text[..Taken(env.sends(i), n)] + if env.sends(i).SendFailed? then [] else Arriving(text[n..], env, i + 1)
  }

  /** Chunk number i, of the rest of a reply of this length, is read, and sent whole. */
  predicate ChunkSent(env: Env, i: nat, left: nat) {
    env.readOk(i) && env.sends(i).Sent? && Min(CLIENT_BUFFER_LEN, left) <= env.sends(i).n
  }

  /** Every chunk from number i on is. */
  ghost predicate AllSent(env: Env, i: nat, left: nat) {
    forall k: nat :: k * CLIENT_BUFFER_LEN < left ==> ChunkSent(env, i + k, left - k * CLIENT_BUFFER_LEN)
  }

  /** The log and the peer's bytes before and after a connection with this request. */
  ghost predicate Answered(log: Log, log': Log, sent: Text, sent': Text, request: Option<Request>, env: Env) {
    && log' == Expected(log, request, env).0
    && match Expected(log, request, env).1
       case None => sent' == sent
       case Some(text) => sent' == sent + Arriving(text, env, 0)
  }

  /** What the network and the thread library do for one accepted connection. */
  datatype Conn = Conn(arrivals: seq<Arrival>, env: Env, argsOk: bool, createOk: bool, nodeOk: bool, joinOk: bool)

  predicate Started(conn: Conn) {
    conn.argsOk && conn.createOk
  }

  /** Main has waited for the thread, if there is one, before the next accept. */
  predicate Awaited(conn: Conn) {
    Started(conn) ==> conn.nodeOk && conn.joinOk
  }

  datatype Target = Socket(s: ClientSocket) | DeviceFile(f: OpenFile)

  // ---------------------------------------------------------------------------------------
  // The reply loop, on values

  lemma AllSentStep(env: Env, i: nat, left: nat)
    requires 0 < left
    ensures AllSent(env, i, left) <==>
            ChunkSent(env, i, left) && AllSent(env, i + 1, left - Min(CLIENT_BUFFER_LEN, left))
  {
    if AllSent(env, i, left) {
      assert ChunkSent(env, i + 0, left - 0 * CLIENT_BUFFER_LEN);
      forall k: nat | k * CLIENT_BUFFER_LEN < left - Min(CLIENT_BUFFER_LEN, left)
        ensures ChunkSent(env, i + 1 + k, left - Min(CLIENT_BUFFER_LEN, left) - k * CLIENT_BUFFER_LEN)
      {
        assert ChunkSent(env, i + (k + 1), left - (k + 1) * CLIENT_BUFFER_LEN);
      }
    }
    if ChunkSent(env, i, left) && AllSent(env, i + 1, left - Min(CLIENT_BUFFER_LEN, left)) {
      forall k: nat | k * CLIENT_BUFFER_LEN < left
        ensures ChunkSent(env, i + k, left - k * CLIENT_BUFFER_LEN)
      {
        if k > 0 {
          assert ChunkSent(env, i + 1 + (k - 1), left - CLIENT_BUFFER_LEN - (k - 1) * CLIENT_BUFFER_LEN);
        }
      }
    }
  }

  /** A reply arrives complete exactly when every chunk of it is read and sent whole: what is
      lost is not made up for later. */
  lemma {:induction false} CompleteIff(text: Text, env: Env, i: nat)
    ensures Arriving(text, env, i) == text <==> AllSent(env, i, |text|)
    decreases |text|
  {
    if text != [] {
      var n := Min(CLIENT_BUFFER_LEN, |text|);
      AllSentStep(env, i, |text|);
      CompleteIff(text[n..], env, i + 1);
      assert text == text[..n] + text[n..];
    }
  }

  /** The text has a chunk number k, it is read, and the reply goes on after sending it. */
  predicate GoesOn(text: Text, env: Env, i: nat, k: nat) {
    k * CLIENT_BUFFER_LEN < |text| && env.readOk(i + k) && !env.sends(i + k).SendFailed?
  }

  /** That is so for exactly the first m chunks in a row. */
  ghost predicate Turns(text: Text, env: Env, i: nat, m: nat) {
    (forall k: nat :: k < m ==> GoesOn(text, env, i, k)) && !GoesOn(text, env, i, m)
  }

  /** What the send of chunk number k takes: as many bytes as it says, and none if interrupted. */
  function TakenChunk(text: Text, env: Env, i: nat, k: nat): Text {
    var chunk := Slice(text, k * CLIENT_BUFFER_LEN, CLIENT_BUFFER_LEN);
    match env.sends(i + k)
    case Sent(n) => chunk[..Min(n, |chunk|)]
    case _ => []
  }

  /** Of each of the first m chunks of a text, what its send took. */
  function TakenChunks(text: Text, env: Env, i: nat, m: nat): (taken: seq<Text>)
    ensures |taken| == m
  {
    seq(m, k requires 0 <= k < m => TakenChunk(text, env, i, k))
  }

  lemma ChunkOfRest(text: Text, env: Env, i: nat, k: nat)
    requires CLIENT_BUFFER_LEN <= |text|
    ensures TakenChunk(text, env, i, k + 1) == TakenChunk(text[CLIENT_BUFFER_LEN..], env, i + 1, k)
    ensures GoesOn(text, env, i, k + 1) == GoesOn(text[CLIENT_BUFFER_LEN..], env, i + 1, k)
  {
    SliceOfRest(text, CLIENT_BUFFER_LEN, k * CLIENT_BUFFER_LEN, CLIENT_BUFFER_LEN);
    assert i + (k + 1) == (i + 1) + k;
  }

  lemma FirstChunk(text: Text, env: Env, i: nat, m: nat)
    requires CLIENT_BUFFER_LEN <= |text| || m == 0
    ensures var n := Min(CLIENT_BUFFER_LEN, |text|);
            TakenChunks(text, env, i, m + 1) == [text[..Taken(env.sends(i), n)]] + TakenChunks(text[n..], env, i + 1, m)
  {
    var n := Min(CLIENT_BUFFER_LEN, |text|);
    var all, tail := TakenChunks(text, env, i, m + 1), TakenChunks(text[n..], env, i + 1, m);
    assert TakenChunk(text, env, i, 0) == text[..Taken(env.sends(i), n)];
    forall k: nat | k < m
      ensures all[k + 1] == tail[k]
    {
      ChunkOfRest(text, env, i, k);
    }
    assert all[1..] == tail;
  }

  /** The first turn goes on, and rest more turns do. */
  lemma FirstTurn(text: Text, env: Env, i: nat, rest: nat)
    requires GoesOn(text, env, i, 0) && Turns(text[Min(CLIENT_BUFFER_LEN, |text|)..], env, i + 1, rest)
    ensures Turns(text, env, i, rest + 1) && (CLIENT_BUFFER_LEN <= |text| || rest == 0)
  {
    if CLIENT_BUFFER_LEN <= |text| {
      forall k: nat | k <= rest
        ensures GoesOn(text, env, i, k)
      {
        if k > 0 {
          ChunkOfRest(text, env, i, k - 1);
        }
      }
      ChunkOfRest(text, env, i, rest);
    } else {
      assert !GoesOn(text[|text|..], env, i + 1, 0);
    }
  }

  /** The reply in closed form: up to the first read or send that fails, what each send took of
      its chunk, one after the other. */
  lemma {:induction false} ArrivingInChunks(text: Text, env: Env, i: nat) returns (m: nat)
    ensures Turns(text, env, i, m) && Arriving(text, env, i) == Flatten(TakenChunks(text, env, i, m))
    decreases |text|
  {
    m := 0;
    if GoesOn(text, env, i, 0) {
      var rest := ArrivingInChunks(text[Min(CLIENT_BUFFER_LEN, |text|)..], env, i + 1);
      FirstTurn(text, env, i, rest);
      FirstChunk(text, env, i, rest);
      m := rest + 1;
    }
  }

  /** Before turn number turn: what has been sent, and what is still to arrive of the contents
      from pos on, make up the whole. */
  ghost predicate Replying(contents: Text, pos: nat, env: Env, turn: nat, sent: Text, whole: Text) {
    pos <= |contents| && sent + Arriving(contents[pos..], env, turn) == whole
  }

  /** A turn whose read returns nothing, or fails, is the last: all has arrived. */
  lemma ReplyEnds(contents: Text, pos: nat, env: Env, turn: nat, sent: Text, whole: Text)
    requires Replying(contents, pos, env, turn, sent, whole)
    requires pos == |contents| || !env.readOk(turn)
    ensures sent == whole
  {
    assert Arriving(contents[pos..], env, turn) == [];
  }

  /** A turn that reads a chunk: the reply goes on from the end of the chunk, however little of
      it was taken; unless the send failed, and then all has arrived. */
  lemma {:induction false} ReplyTurn(contents: Text, pos: nat, env: Env, turn: nat, sent: Text, whole: Text)
    requires Replying(contents, pos, env, turn, sent, whole) && pos < |contents| && env.readOk(turn)
    ensures var chunk := Slice(contents, pos, CLIENT_BUFFER_LEN);
            var sent' := sent + chunk[..Taken(env.sends(turn), |chunk|)];
            if env.sends(turn).SendFailed? then sent' == whole
            else Replying(contents, pos + |chunk|, env, turn + 1, sent', whole)
  {
    var (text, chunk) := (contents[pos..], Slice(contents, pos, CLIENT_BUFFER_LEN));
    var taken := Taken(env.sends(turn), |chunk|);
    assert text[..|chunk|] == chunk && text[..taken] == chunk[..taken];
    assert text[|chunk|..] == contents[pos + |chunk|..];
    var rest := if env.sends(turn).SendFailed? then [] else Arriving(text[|chunk|..], env, turn + 1);
    assert Arriving(text, env, turn) == text[..taken] + rest;
    assert sent + (chunk[..taken] + rest) == (sent + chunk[..taken]) + rest;
  }

  // ---------------------------------------------------------------------------------------
  // One connection

  lemma HandledInRange(args: Option<Option<(nat, nat)>>, texts: seq<Text>, written: int, pos: int, flag: bool, env: Env)
    requires Handled(args, texts, written, pos, flag, env) && 0 < written
    ensures 0 <= pos <= |Flatten(texts)|
  {
    if args.Some? {
      FlattenSplitAt(texts, args.value.value.0);
    }
  }

  /** What a reply from this position and by this flag adds to what was sent. */
  ghost predicate Replied(written: int, pos: int, flag: bool, contents: Text, sent: Text, sent': Text, env: Env) {
    var start := if flag then pos else 0;
    if 0 < written && env.mallocOk && (flag || env.reopenOk)
    then 0 <= start <= |contents| && sent' == sent + Arriving(contents[start..], env, 0)
    else sent' == sent
  }

  lemma HandledThenAnswered(scan: Scan, message: Text, env: Env, written: int, pos: int, flag: bool,
                            log: Log, log': Log, sent: Text, sent': Text)
    requires Handled(SeekArgs(scan, message), Stored(log'), written, pos, flag, env)
    requires log' == Expected(log, Some(Parse(scan, message)), env).0
    requires Replied(written, pos, flag, Contents(log'), sent, sent', env)
    ensures Answered(log, log', sent, sent', Some(Parse(scan, message)), env)
  {
    match SeekArgs(scan, message) {
      case None => assert Contents(log')[0..] == Contents(log');
      case Some(None) =>
      case Some(Some((x, y))) =>
        if 0 < written {
          SeekPosIs(Stored(log'), x, y);
        }
    }
  }

  class Server {
    const dev: AesdDevice
    const table: FdTable<Target>
    const threads: ThreadList
    const scan: Scan
    var ioctlJustPerformed: bool

    /** The server's own objects need nothing more than a valid device. */
    ghost predicate Valid()
      reads this, dev, dev.buffer, dev.buffer.entry, dev.heap
    {
      dev.Valid()
    }

    constructor (scan: Scan)
      ensures Valid() && dev.log == Log([], []) && table.open == map[] && threads.Valid() && threads.nodes == []
      ensures fresh(dev) && fresh(dev.buffer) && fresh(dev.buffer.entry) && fresh(dev.heap) && fresh(table) && fresh(threads)
      ensures this.scan == scan
    {
      var heap := new KernelHeap();
      dev := new AesdDevice(heap);
      table := new FdTable();
      threads := new ThreadList();
      this.scan := scan;
      ioctlJustPerformed := false;
    }

    /** write(2) of a whole message. */
    method WriteMessage(file: OpenFile, message: Text, env: Env) returns (written: int)
      requires Valid() && dev.log.partial == [] && message != [] && 0 <= file.pos
      modifies dev, dev.heap, dev.buffer, dev.buffer.entry
      ensures Valid()
      ensures if env.kmallocOk && env.writeLockOk
              then written == |message| && dev.log == Accept(old(dev.log), message)
              else written < 0 && dev.log == old(dev.log)
    {
      var p := dev.heap.FreeAddress();
      written := dev.Write(file, message, if env.kmallocOk then p else NULL, true, env.writeLockOk, NULL);
    }

    /** send_rcv_socket_data: receive one message, and write it or seek.  A positive result is
        the only one that is followed by a reply. */
    method SendRcv(client: ClientSocket, file: OpenFile, env: Env) returns (written: int, message: Option<Text>)
      requires Valid() && dev.log.partial == [] && file.pos == 0
      modifies client`arrivals, client`chunks, file, this`ioctlJustPerformed
      modifies dev, dev.heap, dev.buffer, dev.buffer.entry
      ensures Valid()
      ensures message.Some? ==>
                && Framed(old(client.chunks), client.chunks, message.value, Stream(client.arrivals), Stream(old(client.arrivals)))
                && HasNewline(message.value)
      ensures env.callocOk && env.reallocFailsAt == None ==>
                (message.Some? <==> HasNewline(Stream(old(client.arrivals))))
      ensures !env.callocOk ==> message == None
      ensures message == None ==> written < 0 && dev.log == old(dev.log)
      ensures message.Some? ==>
                && Handled(SeekArgs(scan, message.value), Stored(dev.log), written, file.pos, ioctlJustPerformed, env)
                && dev.log == Expected(old(dev.log), RequestOf(scan, message), env).0
    {
      ghost var was, stream := client.chunks, Stream(client.arrivals);
      var capacity, capacities;
      message, capacity, capacities := ReceiveMessage(client, env.callocOk, env.reallocFailsAt);
      if message == None {
        return -1, None;
      }
      FramedHasNewline(was, client.chunks, message.value, Stream(client.arrivals), stream);
      written := Handle(file, message.value, env);
    }

    /** What is done with a message, holding the read/write mutex. */
    method Handle(file: OpenFile, message: Text, env: Env) returns (written: int)
      requires Valid() && dev.log.partial == [] && file.pos == 0 && message != []
      modifies file, this`ioctlJustPerformed, dev, dev.heap, dev.buffer, dev.buffer.entry
      ensures Valid()
      ensures Handled(SeekArgs(scan, message), Stored(dev.log), written, file.pos, ioctlJustPerformed, env)
      ensures dev.log == Expected(old(dev.log), Some(Parse(scan, message)), env).0
    {
      match Parse(scan, message) {
        case Malformed => written := -1;
        case Seek(cmd, off) => written := SeekTo(file, cmd, off);
        case Store(m) =>
          written := WriteMessage(file, m, env);
          if written < 0 || written != |m| {
            return -1;
          }
          ioctlJustPerformed := false;
      }
    }

    /** The ioctl, and on success the flag that tells the reply of it. */
    method SeekTo(file: OpenFile, cmd: nat, off: nat) returns (written: int)
      requires Valid()
      modifies file, this`ioctlJustPerformed
      ensures var texts := Stored(dev.log);
              && (0 < written <==> cmd < |texts| && off < |texts[cmd]|)
              && (0 < written ==> file.pos == |Flatten(texts[..cmd])| + off && ioctlJustPerformed)
    {
      var ret := dev.Ioctl(file, true, true, cmd, off);
      if ret < 0 {
        return -1;
      }
      ioctlJustPerformed := true;
      return 1;
    }

    /** One read(2) of at most a buffer's length. */
    method ReadChunk(file: OpenFile, buffer: array<byte>, lockOk: bool) returns (ret: int)
      requires Valid() && 0 <= file.pos && buffer.Length == CLIENT_BUFFER_LEN
      modifies file, buffer
      ensures !lockOk ==> ret < 0 && file.pos == old(file.pos)
      ensures lockOk ==>
                var chunk := Slice(Contents(dev.log), old(file.pos), CLIENT_BUFFER_LEN);
                ret == |chunk| && buffer[..ret] == chunk && file.pos == old(file.pos) + ret
    {
      PiecesAreTheSlice(Stored(dev.log), file.pos, CLIENT_BUFFER_LEN);
      ret := dev.Read(file, buffer, CLIENT_BUFFER_LEN, lockOk, None);
    }

    /** send(2): what arrives of the chunk, and whether the reply goes on. */
    static method SendChunk(client: ClientSocket, chunk: Text, answer: Send) returns (goOn: bool)
      modifies client`sent
      ensures client.sent == old(client.sent) + chunk[..Taken(answer, |chunk|)]
      ensures goOn <==> !answer.SendFailed?
    {
      client.sent := client.sent + chunk[..Taken(answer, |chunk|)];
      goOn := !answer.SendFailed?;
    }

    /** The reply loop: read a chunk, send it, until a read returns nothing or fails.  A short or
        interrupted send is not made up for. */
    method ReplyLoop(client: ClientSocket, file: OpenFile, env: Env)
      requires Valid() && 0 <= file.pos <= |Contents(dev.log)|
      modifies client`sent, file
      ensures client.sent == old(client.sent) + Arriving(Contents(dev.log)[old(file.pos)..], env, 0)
    {
      var buffer := new byte[CLIENT_BUFFER_LEN];
      ghost var contents, whole := Contents(dev.log), client.sent + Arriving(Contents(dev.log)[file.pos..], env, 0);
      var turn := 0;
      while true
        invariant 0 <= file.pos && 0 <= turn && Replying(contents, file.pos, env, turn, client.sent, whole)
        decreases |contents| - file.pos
      {
        var goOn := ReplyWithChunk(client, file, buffer, env, turn, contents, whole);
        if !goOn {
          return;
        }
        turn := turn + 1;
      }
    }

    /** One turn of that loop. */
    method ReplyWithChunk(client: ClientSocket, file: OpenFile, buffer: array<byte>, env: Env, turn: nat,
                          ghost contents: Text, ghost whole: Text) returns (goOn: bool)
      requires Valid() && 0 <= file.pos && buffer.Length == CLIENT_BUFFER_LEN && contents == Contents(dev.log)
      requires Replying(contents, file.pos, env, turn, client.sent, whole)
      modifies client`sent, file, buffer
      ensures goOn ==> old(file.pos) < file.pos && Replying(contents, file.pos, env, turn + 1, client.sent, whole)
      ensures !goOn ==> client.sent == whole
    {
      ghost var pos, sent := file.pos, client.sent;
      var ret := ReadChunk(file, buffer, env.readOk(turn));
      if ret <= 0 {
        ReplyEnds(contents, pos, env, turn, sent, whole);
        return false;
      }
      ReplyTurn(contents, pos, env, turn, sent, whole);
      goOn := SendChunk(client, buffer[..ret], env.sends(turn));
    }

    /** return_socketdata_to_client.  Unless a seek was just made, the device is closed and
        opened again first, which is how the reply comes to start at position 0. */
    method ReturnToClient(client: ClientSocket, file: OpenFile, fd: nat, env: Env)
      requires Valid() && 0 <= file.pos <= |Contents(dev.log)|
      requires fd in table.open && fd == LowestFree(table.open.Keys - {fd})
      modifies client`sent, file, table, this`ioctlJustPerformed
      ensures table.open - {fd} == old(table.open) - {fd}
      ensures var start := if old(ioctlJustPerformed) then old(file.pos) else 0;
              if env.mallocOk && (old(ioctlJustPerformed) || env.reopenOk)
              then client.sent == old(client.sent) + Arriving(Contents(dev.log)[start..], env, 0) && !ioctlJustPerformed
              else client.sent == old(client.sent) && ioctlJustPerformed == old(ioctlJustPerformed)
    {
      if !env.mallocOk {
        return;
      }
      var source := file;
      if !ioctlJustPerformed {
        var reopened := Reopen(fd, env.reopenOk);
        if reopened == None {
          return;
        }
        source := reopened.value;
      }
      ioctlJustPerformed := false;
      ReplyLoop(client, source, env);
    }

    /** close, then open again: the new description has position 0 and, the old number being the
        lowest free one, the same descriptor. */
    method Reopen(fd: nat, ok: bool) returns (file: Option<OpenFile>)
      requires fd in table.open && fd == LowestFree(table.open.Keys - {fd})
      modifies table
      ensures table.open - {fd} == old(table.open) - {fd}
      ensures file.Some? <==> ok
      ensures ok ==> fresh(file.value) && file.value.pos == 0 && fd in table.open && table.open[fd] == DeviceFile(file.value)
      ensures !ok ==> fd !in table.open
    {
      table.Close(fd);
      if !ok {
        return None;
      }
      var again := new OpenFile();
      var fd' := table.Open(DeviceFile(again));
      assert fd' == fd by {
        assert old(table.open.Keys) - {fd} == (old(table.open) - {fd}).Keys;
      }
      return Some(again);
    }

    /** Receive, then reply if that went well: the log and the bytes sent are the expected ones. */
    method Converse(client: ClientSocket, file: OpenFile, fd: nat, env: Env) returns (message: Option<Text>)
      requires Valid() && dev.log.partial == [] && file.pos == 0
      requires fd in table.open && fd == LowestFree(table.open.Keys - {fd})
      modifies client, file, table, this`ioctlJustPerformed, dev, dev.heap, dev.buffer, dev.buffer.entry
      ensures Valid() && table.open - {fd} == old(table.open) - {fd}
      ensures !env.callocOk ==> message == None
      ensures message == None ==> client.sent == old(client.sent) && dev.log == old(dev.log)
      ensures message.Some? ==>
                && Framed(old(client.chunks), client.chunks, message.value, Stream(client.arrivals), Stream(old(client.arrivals)))
                && HasNewline(message.value)
      ensures env.callocOk && env.reallocFailsAt == None ==>
                (message.Some? <==> HasNewline(Stream(old(client.arrivals))))
      ensures Answered(old(dev.log), dev.log, old(client.sent), client.sent, RequestOf(scan, message), env)
    {
      var written;
      written, message := SendRcv(client, file, env);
      ghost var pos, flag := file.pos, ioctlJustPerformed;
      if written > 0 {
        HandledInRange(SeekArgs(scan, message.value), Stored(dev.log), written, pos, flag, env);
        ReturnToClient(client, file, fd, env);
      }
      if message.Some? {
        HandledThenAnswered(scan, message.value, env, written, pos, flag, old(dev.log), dev.log, old(client.sent), client.sent);
      }
    }

    /** thread_operation: everything one connection does.  It leaves the descriptor table as it
        was before accept, on every path, although the reply replaces the device descriptor
        behind the caller's back. */
    method ThreadOperation(client: ClientSocket, clientFd: nat, env: Env) returns (message: Option<Text>)
      requires Valid() && dev.log.partial == [] && clientFd in table.open
      modifies client, table, this`ioctlJustPerformed, dev, dev.heap, dev.buffer, dev.buffer.entry
      ensures Valid() && table.open == old(table.open) - {clientFd}
      ensures !env.openOk || !env.callocOk ==> message == None
      ensures message == None ==> client.sent == old(client.sent) && dev.log == old(dev.log)
      ensures message.Some? ==>
                && Framed(old(client.chunks), client.chunks, message.value, Stream(client.arrivals), Stream(old(client.arrivals)))
                && HasNewline(message.value)
      ensures env.openOk && env.callocOk && env.reallocFailsAt == None ==>
                (message.Some? <==> HasNewline(Stream(old(client.arrivals))))
      ensures Answered(old(dev.log), dev.log, old(client.sent), client.sent, RequestOf(scan, message), env)
    {
      if !env.openOk {
        table.Close(clientFd);
        return None;
      }
      var file := new OpenFile();
      var fd := table.Open(DeviceFile(file));
      assert table.open - {fd} == old(table.open);
      message := Converse(client, file, fd, env);
      table.Close(fd);
      table.Close(clientFd);
    }

    /** One turn of main's loop after accept: start the thread, list it, join it. */
    method ServeOne(conn: Conn) returns (message: Option<Text>, reply: Text)
      requires Valid() && dev.log.partial == [] && threads.Valid() && threads.nodes == []
      modifies this`ioctlJustPerformed, table, threads, dev, dev.heap, dev.buffer, dev.buffer.entry
      ensures Valid() && threads.Valid() && table.open == old(table.open)
      ensures threads.nodes == [] <==> (Started(conn) && conn.nodeOk ==> conn.joinOk)
      ensures !Started(conn) ==> message == None
      ensures message == None ==> reply == [] && dev.log == old(dev.log)
      ensures Answered(old(dev.log), dev.log, [], reply, RequestOf(scan, message), conn.env)
      ensures MessageOf(conn, message)
    {
      var client := new ClientSocket(conn.arrivals);
      var clientFd := table.Open(Socket(client));
      if !conn.argsOk || !conn.createOk {
        table.Close(clientFd);
        return None, [];
      }
      message := ThreadOperation(client, clientFd, conn.env);
      ListAndJoin(clientFd, conn.nodeOk, conn.joinOk);
      reply := client.sent;
    }

    /** The thread is listed, and the join pass waits for it and removes it again; or one of the
        two fails. */
    method ListAndJoin(threadId: nat, nodeOk: bool, joinOk: bool)
      requires threads.Valid() && threads.nodes == []
      modifies threads
      ensures threads.Valid() && (threads.nodes == [] <==> (nodeOk ==> joinOk))
    {
      threads.NodeAdd(threadId, nodeOk);
      AllJoined(threads.nodes, _ => joinOk, |threads.nodes|);
      var _ := threads.Join(_ => joinOk);
    }

    /** main's accept loop, with each connection served whole before the next.  When every thread
        but the last is listed and joined at once, threads do act in this order
        (ReplyFlags.ServedInTurn); otherwise a reply can go wrong (ReplyFlags.FlagsRightIff). */
    method AcceptLoop(conns: seq<Conn>) returns (messages: seq<Option<Text>>, replies: seq<Text>)
      requires Valid() && dev.log.partial == [] && threads.Valid() && threads.nodes == []
      requires forall i :: 0 <= i < |conns| - 1 ==> Awaited(conns[i])
      modifies this`ioctlJustPerformed, table, threads, dev, dev.heap, dev.buffer, dev.buffer.entry
      ensures Valid() && table.open == old(table.open)
      ensures (forall i :: 0 <= i < |conns| ==> Awaited(conns[i])) ==> threads.nodes == []
      ensures ServedSoFar(old(dev.log), scan, conns, messages, replies, dev.log)
    {
      messages, replies := [], [];
      ghost var log := dev.log;
      for i := 0 to |conns|
        invariant Valid() && threads.Valid() && table.open == old(table.open)
        invariant i == 0 || Awaited(conns[i - 1]) ==> threads.nodes == []
        invariant ServedUpTo(log, scan, conns, i, messages, replies, dev.log)
      {
        ghost var now := dev.log;
        var message, reply := ServeOne(conns[i]);
        ServedStep(log, scan, conns, i, messages, replies, now, message, reply, dev.log);
        messages, replies := messages + [message], replies + [reply];
      }
      assert conns[..|conns|] == conns;
    }
  }

  /** The message taken from a connection is a prefix of what its peer sends, ending in the first
      recv with a newline; with memory available there is one exactly if a newline arrives. */
  ghost predicate MessageOf(conn: Conn, message: Option<Text>) {
    && (!Started(conn) || !conn.env.openOk || !conn.env.callocOk ==> message == None)
    && (message.Some? ==> HasNewline(message.value) && message.value <= Stream(conn.arrivals))
    && (conn.argsOk && conn.createOk && conn.env.openOk && conn.env.callocOk && conn.env.reallocFailsAt == None ==>
          (message.Some? <==> HasNewline(Stream(conn.arrivals))))
  }

  /** The log after the first n connections. */
  function LogAfter(log: Log, scan: Scan, conns: seq<Conn>, messages: seq<Option<Text>>, n: nat): Log
    requires n <= |conns| == |messages|
  {
    if n == 0 then log
    else Expected(LogAfter(log, scan, conns, messages, n - 1), RequestOf(scan, messages[n - 1]), conns[n - 1].env).0
  }

  /** Every connection was answered from the log its predecessors left. */
  ghost predicate Served(log: Log, scan: Scan, conns: seq<Conn>, messages: seq<Option<Text>>, replies: seq<Text>) {
    && |conns| == |messages| == |replies|
    && forall i :: 0 <= i < |conns| ==>
         && MessageOf(conns[i], messages[i])
         && Answered(LogAfter(log, scan, conns, messages, i), LogAfter(log, scan, conns, messages, i + 1),
                     [], replies[i], RequestOf(scan, messages[i]), conns[i].env)
  }

  lemma {:induction false} LogAfterPrefix(log: Log, scan: Scan, conns: seq<Conn>, messages: seq<Option<Text>>,
                                          conn: Conn, message: Option<Text>, n: nat)
    requires n <= |conns| == |messages|
    ensures LogAfter(log, scan, conns + [conn], messages + [message], n) == LogAfter(log, scan, conns, messages, n)
  {
    if n > 0 {
      LogAfterPrefix(log, scan, conns, messages, conn, message, n - 1);
    }
  }

  ghost predicate ServedSoFar(log: Log, scan: Scan, conns: seq<Conn>, messages: seq<Option<Text>>,
                              replies: seq<Text>, now: Log)
  {
    && Served(log, scan, conns, messages, replies)
    && now == LogAfter(log, scan, conns, messages, |conns|) && now.partial == []
  }

  ghost predicate ServedUpTo(log: Log, scan: Scan, conns: seq<Conn>, i: nat, messages: seq<Option<Text>>,
                             replies: seq<Text>, now: Log)
  {
    i <= |conns| && ServedSoFar(log, scan, conns[..i], messages, replies, now)
  }

  lemma ServedStep(log: Log, scan: Scan, conns: seq<Conn>, i: nat, messages: seq<Option<Text>>, replies: seq<Text>,
                   now: Log, message: Option<Text>, reply: Text, now': Log)
    requires i < |conns| && ServedUpTo(log, scan, conns, i, messages, replies, now)
    requires MessageOf(conns[i], message)
    requires Answered(now, now', [], reply, RequestOf(scan, message), conns[i].env)
    ensures ServedUpTo(log, scan, conns, i + 1, messages + [message], replies + [reply], now')
  {
    ServedSnoc(log, scan, conns[..i], messages, replies, now, conns[i], message, reply, now');
    assert conns[..i + 1] == conns[..i] + [conns[i]];
  }

  lemma ServedSnoc(log: Log, scan: Scan, conns: seq<Conn>, messages: seq<Option<Text>>, replies: seq<Text>,
                   now: Log, conn: Conn, message: Option<Text>, reply: Text, now': Log)
    requires ServedSoFar(log, scan, conns, messages, replies, now)
    requires MessageOf(conn, message)
    requires Answered(now, now', [], reply, RequestOf(scan, message), conn.env)
    ensures ServedSoFar(log, scan, conns + [conn], messages + [message], replies + [reply], now')
  {
    forall i | 0 <= i <= |conns|
      ensures LogAfter(log, scan, conns + [conn], messages + [message], i) == LogAfter(log, scan, conns, messages, i)
    {
      LogAfterPrefix(log, scan, conns, messages, conn, message, i);
    }
  }

  /** A received message, written in one call, commits exactly one entry: whatever partial write
      was pending, followed by the message. */
  lemma FramedCommitsOnce(was: seq<Text>, now: seq<Text>, message: Text, rest: Text, stream: Text, log: Log)
    requires Framed(was, now, message, rest, stream)
    ensures Accept(log, message) == Log(log.messages + [log.partial + message], [])
    ensures Stored(Accept(log, message))[|Stored(Accept(log, message))| - 1] == log.partial + message
  {
    FramedHasNewline(was, now, message, rest, stream);
  }

  // ---------------------------------------------------------------------------------------
  // End to end

  /** The connection's message is no seek command, and its write succeeds. */
  predicate Stores(message: Option<Text>, env: Env) {
    message.Some? && !(SEEK_COMMAND <= message.value) && env.kmallocOk && env.writeLockOk
  }

  /** The messages that connections before number n stored, in order. */
  function StoredBy(conns: seq<Conn>, messages: seq<Option<Text>>, n: nat): seq<Text>
    requires n <= |conns| == |messages|
  {
    if n == 0 then []
    else StoredBy(conns, messages, n - 1) + if Stores(messages[n - 1], conns[n - 1].env) then [messages[n - 1].value] else []
  }

  lemma ExpectedStores(stored: seq<Text>, scan: Scan, message: Option<Text>, env: Env)
    requires message.Some? ==> HasNewline(message.value)
    ensures Expected(Log(stored, []), RequestOf(scan, message), env).0 ==
            Log(if Stores(message, env) then stored + [message.value] else stored, [])
  {
    if message.Some? {
      assert [] + message.value == message.value;
    }
  }

  ghost predicate EndInNewline(messages: seq<Option<Text>>) {
    forall i :: 0 <= i < |messages| && messages[i].Some? ==> HasNewline(messages[i].value)
  }

  lemma ServedMessages(log: Log, scan: Scan, conns: seq<Conn>, messages: seq<Option<Text>>, replies: seq<Text>)
    requires Served(log, scan, conns, messages, replies)
    ensures EndInNewline(messages)
  {
    forall i | 0 <= i < |messages| && messages[i].Some?
      ensures HasNewline(messages[i].value)
    {
      assert MessageOf(conns[i], messages[i]);
    }
  }

  /** The partial write is empty between connections, and the log is the stored messages. */
  lemma {:induction false} LogIsStored(scan: Scan, conns: seq<Conn>, messages: seq<Option<Text>>, n: nat)
    requires n <= |conns| == |messages| && EndInNewline(messages)
    ensures LogAfter(Log([], []), scan, conns, messages, n) == Log(StoredBy(conns, messages, n), [])
  {
    if n > 0 {
      LogIsStored(scan, conns, messages, n - 1);
      ExpectedStores(StoredBy(conns, messages, n - 1), scan, messages[n - 1], conns[n - 1].env);
    }
  }

  /** What a connection is to be sent, as a matter of its message, the messages stored before it
      and the failures it meets. */
  function RightReply(before: seq<Text>, scan: Scan, message: Option<Text>, env: Env): Text {
    if message == None then []
    else if SEEK_COMMAND <= message.value then
      var texts := LastN(before, N);
      match scan(message.value[|SEEK_COMMAND|..])
      case None => []
      case Some((x, y)) =>
        if env.mallocOk && x < |texts| && y < |texts[x]| then texts[x][y..] + Flatten(texts[x + 1..]) else []
    else if env.kmallocOk && env.writeLockOk && env.mallocOk && env.reopenOk then
      Flatten(LastN(before + [message.value], N))
    else []
  }

  lemma ExpectedIsRight(before: seq<Text>, scan: Scan, message: Option<Text>, env: Env)
    requires message.Some? ==> HasNewline(message.value)
    ensures RightReply(before, scan, message, env) ==
            match Expected(Log(before, []), RequestOf(scan, message), env).1
            case None => []
            case Some(text) => text
  {
    match RequestOf(scan, message) {
      case Some(Store(m)) =>
        assert [] + m == m;
      case Some(Seek(cmd, off)) =>
        if SeekPos(LastN(before, N), cmd, off).Some? {
          SuffixFromSeekPos(LastN(before, N), cmd, off);
        }
      case _ =>
    }
  }

  lemma AnsweredIff(before: seq<Text>, scan: Scan, message: Option<Text>, log': Log, reply: Text, env: Env)
    requires message.Some? ==> HasNewline(message.value)
    requires Answered(Log(before, []), log', [], reply, RequestOf(scan, message), env)
    ensures var text := RightReply(before, scan, message, env);
            && reply == Arriving(text, env, 0)
            && (reply == text <==> AllSent(env, 0, |text|))
  {
    ExpectedIsRight(before, scan, message, env);
    CompleteIff(RightReply(before, scan, message, env), env, 0);
    assert [] + reply == reply;
  }

  /** For any sequence of connections to a freshly loaded device: a client whose message was
      stored is sent the concatenation of the last min(n, N) stored messages, its own included; a
      client that asked for byte y of message x is sent the stored messages from exactly that byte
      on, or nothing if there is no such byte; one whose command is malformed, whose message never
      ended or whose call failed is sent nothing; and each receives all of it if, and only if,
      every chunk was read and sent whole. */
  lemma {:induction false} EndToEnd(scan: Scan, conns: seq<Conn>, messages: seq<Option<Text>>, replies: seq<Text>, i: nat)
    requires Served(Log([], []), scan, conns, messages, replies) && i < |conns|
    ensures var (text, env) := (RightReply(StoredBy(conns, messages, i), scan, messages[i], conns[i].env), conns[i].env);
            && replies[i] == Arriving(text, env, 0)
            && (replies[i] == text <==> AllSent(env, 0, |text|))
  {
    ServedMessages(Log([], []), scan, conns, messages, replies);
    LogIsStored(scan, conns, messages, i);
    AnsweredIff(StoredBy(conns, messages, i), scan, messages[i],
                LogAfter(Log([], []), scan, conns, messages, i + 1), replies[i], conns[i].env);
  }

  /** A connection without a message, or without a thread, is sent nothing and changes nothing. */
  lemma {:induction false} NoMessageNoReply(scan: Scan, conns: seq<Conn>, messages: seq<Option<Text>>, replies: seq<Text>, i: nat)
    requires Served(Log([], []), scan, conns, messages, replies) && i < |conns|
    requires messages[i] == None || !Started(conns[i])
    ensures replies[i] == [] && StoredBy(conns, messages, i + 1) == StoredBy(conns, messages, i)
    ensures LogAfter(Log([], []), scan, conns, messages, i + 1) == LogAfter(Log([], []), scan, conns, messages, i)
  {
    assert MessageOf(conns[i], messages[i]);
    EndToEnd(scan, conns, messages, replies, i);
    ServedMessages(Log([], []), scan, conns, messages, replies);
    LogIsStored(scan, conns, messages, i);
    LogIsStored(scan, conns, messages, i + 1);
  }

  /** A reply that loses bytes although nothing failed: a one-byte message is stored, the only
      send of its reply is interrupted, and the client is sent nothing. */
  lemma InterruptedReply(scan: Scan) returns (conn: Conn)
    ensures var env := conn.env;
            && env.openOk && env.callocOk && env.reallocFailsAt == None && env.kmallocOk && env.writeLockOk
            && env.mallocOk && env.reopenOk && (forall i :: env.readOk(i)) && (forall i :: !env.sends(i).SendFailed?)
            && Started(conn) && Awaited(conn)
    ensures Served(Log([], []), scan, [conn], [Some([NEWLINE])], [[]])
    ensures RightReply([], scan, Some([NEWLINE]), conn.env) == [NEWLINE]
  {
    var env := Env(true, true, None, true, true, true, true, _ => true, i => if i == 0 then Interrupted else Sent(1));
    conn := Conn([Chunk([NEWLINE])], env, true, true, true, true);
    var conns, messages := [conn], [Some([NEWLINE])];
    assert Parse(scan, [NEWLINE]) == Store([NEWLINE]);
    var log := Log([], []);
    assert [] + [NEWLINE] == [NEWLINE] && Stream(conn.arrivals[1..]) == [];
    assert Stream(conn.arrivals) == [NEWLINE];
    assert [NEWLINE][0] == NEWLINE && HasNewline([NEWLINE]);
    assert Accept(log, [NEWLINE]) == Log([[NEWLINE]], []);
    assert LastN([[NEWLINE]], N) == [[NEWLINE]];
    FlattenOne([NEWLINE]);
    assert Arriving([NEWLINE], env, 0) == [];
    assert LogAfter(log, scan, conns, messages, 0) == log;
    assert LogAfter(log, scan, conns, messages, 1) == Accept(log, [NEWLINE]);
    assert MessageOf(conn, messages[0]);
    assert Answered(log, Accept(log, [NEWLINE]), [], [], RequestOf(scan, messages[0]), env);
  }
}
