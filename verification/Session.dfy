// server_protocol over the character device: the line is received and written chunk by chunk,
// then the device is read back to the client.
module Session {
  import opened Bytes
  import opened WriteLog
  import opened DeviceBooks
  import opened FlatReads
  import opened Driver
  import opened DeviceRuns
  import opened SeekText
  import opened Framing

  /** Bytes stdio asks the device for when its buffer runs dry. */
  const BLOCK: nat := 4096

  /** What the environment decides during one session: each device write, device read and socket
      write, and the foreign memory an overlong seek index would read. */
  datatype SessionEnv = SessionEnv(write: nat -> WriteEnv, readOk: nat -> bool, sendOk: nat -> bool, stray: nat)
  {
    ghost predicate WritesGranted() {
      forall i: nat :: write(i).grant && write(i).copyOk
    }

    ghost predicate TransfersSucceed() {
      forall i: nat :: readOk(i) && sendOk(i)
    }
  }

  /** The flat view from position p on. */
  function FlatFrom(cmds: seq<seq<byte>>, p: nat): seq<byte> {
    if p <= |Concat(cmds)| then Concat(cmds)[p..] else []
  }

  /** Moving one piece from the device into the buffer leaves the same bytes to deliver. */
  lemma ReadAhead(cmds: seq<seq<byte>>, p: nat, buffered: seq<byte>)
    ensures var piece := Piece(cmds, p, BLOCK);
            && (buffered + piece) + FlatFrom(cmds, p + |piece|) == buffered + FlatFrom(cmds, p)
            && (piece == [] ==> FlatFrom(cmds, p) == [])
            && (piece != [] ==> |FlatFrom(cmds, p + |piece|)| < |FlatFrom(cmds, p)|)
  {
    PieceIsSlice(cmds, p, BLOCK);
    var piece, flat := Piece(cmds, p, BLOCK), Concat(cmds);
    if p <= |flat| {
      assert flat[p..] == piece + flat[p + |piece|..];
    } else {
      assert buffered + piece == buffered;
    }
  }

  /** A buffer that holds a newline, or 255 bytes, or everything, already determines the chunk. */
  lemma ChunkLengthOfBuffer(buffered: seq<byte>, later: seq<byte>)
    requires NewlineIndex(buffered) < |buffered| || |buffered| >= CHUNK || later == []
    ensures ChunkLength(buffered + later) == ChunkLength(buffered)
  {
    var k := NewlineIndex(buffered);
    if later == [] {
      assert buffered + later == buffered;
    } else if k < |buffered| {
      NewlineIndexIs(buffered + later, k);
    } else {
      assert NewlineIndex(buffered + later) >= |buffered| by {
        assert forall i :: 0 <= i < |buffered| ==> (buffered + later)[i] == buffered[i] != NEWLINE;
      }
    }
  }

  lemma SplitInside(a: seq<byte>, b: seq<byte>, n: nat)
    requires n <= |a|
    ensures (a + b)[..n] == a[..n] && (a + b)[n..] == a[n..] + b
  {
  }

  lemma ChunkOfBuffer(buffered: seq<byte>, later: seq<byte>)
    requires NewlineIndex(buffered) < |buffered| || |buffered| >= CHUNK || later == []
    ensures FirstChunk(buffered + later) == FirstChunk(buffered)
    ensures (buffered + later)[ChunkLength(buffered + later)..] == buffered[ChunkLength(buffered)..] + later
  {
    ChunkLengthOfBuffer(buffered, later);
    SplitInside(buffered, later, ChunkLength(buffered));
  }

  /** The FILE stream on the device: an open file and the bytes read ahead. */
  class DeviceStream {
    const dev: AesdDevice
    const file: OpenFile
    var buffered: seq<byte>
    var readCalls: nat

    constructor (dev: AesdDevice, file: OpenFile)
      ensures this.dev == dev && this.file == file && buffered == []
    {
      this.dev, this.file, buffered, readCalls := dev, file, [], 0;
    }

    /** What reading to the end of file would still deliver. */
    ghost function Remaining(): seq<byte>
      reads this, file, dev
    {
      buffered + FlatFrom(dev.books.Live(), file.fpos)
    }

    /** rewind(output_file) drops what was read ahead and seeks to the start. */
    method Rewind()
      requires dev.Valid()
      modifies this, file
      ensures buffered == [] && file.fpos == 0
    {
      dev.Rewind(file);
      buffered := [];
    }

    /** Reads blocks until the buffer determines the next chunk. */
    method Fill(readOk: nat -> bool) returns (failed: bool)
      requires dev.Valid()
      modifies this, file
      ensures Remaining() == old(Remaining())
      ensures failed ==> exists i: nat :: !readOk(i)
      ensures !failed ==>
                || NewlineIndex(buffered) < |buffered|
                || |buffered| >= CHUNK
                || FlatFrom(dev.books.Live(), file.fpos) == []
    {
      hide AesdDevice.Valid, Ledger.Live, FlatFrom, Piece;
      ghost var live, all := dev.books.Live(), Remaining();
      var atEnd := false;
      while !atEnd && NewlineIndex(buffered) == |buffered| && |buffered| < CHUNK
        invariant buffered + FlatFrom(live, file.fpos) == all
        invariant atEnd ==> FlatFrom(live, file.fpos) == []
        decreases |FlatFrom(live, file.fpos)|, !atEnd
      {
        ReadAhead(live, file.fpos, buffered);
        var ret, data := dev.AesdRead(file, BLOCK, readOk(readCalls));
        if ret < 0 {
          return true;
        }
        readCalls := readCalls + 1;
        buffered := buffered + data;
        atEnd := ret == 0;
      }
      return false;
    }

    /** fgets(buffer, 256, output_file) */
    method NextChunk(readOk: nat -> bool) returns (chunk: Option<seq<byte>>, failed: bool)
      requires dev.Valid()
      modifies this, file
      ensures failed ==> chunk == None && exists i: nat :: !readOk(i)
      ensures !failed ==> chunk == Fgets(old(Remaining()), false)
      ensures !failed ==> Remaining() == old(Remaining())[ChunkLength(old(Remaining()))..]
      ensures !failed && chunk == None ==> buffered == []
    {
      failed := Fill(readOk);
      if failed {
        return None, true;
      }
      ChunkOfBuffer(buffered, FlatFrom(dev.books.Live(), file.fpos));
      if buffered == [] {
        assert Remaining() == [];
        return None, false;
      }
      chunk := Some(FirstChunk(buffered));
      buffered := buffered[ChunkLength(buffered)..];
    }
  }
  // ---- the receive loop on the device ----

  /** After writing `done`, the loop stands before `rest`; what is still to come completes `all`. */
  ghost predicate Ahead(all: Received, done: seq<seq<byte>>, rest: seq<byte>, broken: bool) {
    var r := Receive(rest, broken);
    all.chunks == done + r.chunks && all.end == r.end && all.rest == r.rest
  }

  lemma AheadStart(input: seq<byte>, broken: bool)
    ensures Ahead(Receive(input, broken), [], input, broken)
  {
  }

  lemma AheadStop(all: Received, done: seq<seq<byte>>, rest: seq<byte>, broken: bool)
    requires Ahead(all, done, rest, broken)
    ensures Fgets(rest, broken) == None ==> all == Received(done, Failed, rest)
    ensures Fgets(rest, broken).Some? && SeekCommand(FirstChunk(rest)).Some? ==>
              var pair := SeekCommand(FirstChunk(rest)).value;
              all == Received(done, Seek(pair.0, pair.1), rest[ChunkLength(rest)..])
  {
  }

  lemma AheadStep(all: Received, done: seq<seq<byte>>, rest: seq<byte>, broken: bool)
    requires Ahead(all, done, rest, broken)
    requires Fgets(rest, broken).Some? && SeekCommand(FirstChunk(rest)) == None
    ensures var c, tail := FirstChunk(rest), rest[ChunkLength(rest)..];
            if EndsLine(c) then all == Received(done + [c], Line, tail)
            else Ahead(all, done + [c], tail, broken)
  {
    var r := Receive(rest[ChunkLength(rest)..], broken);
    var c := FirstChunk(rest);
    assert done + ([c] + r.chunks) == (done + [c]) + r.chunks;
  }

  /** fwrite and fflush of one chunk: one device write, whose result the server does not look at. */
  method WriteChunk(dev: AesdDevice, text: seq<byte>, env: SessionEnv, i: nat,
                    ghost before: Moment, ghost ws: seq<Write>, ghost done: seq<seq<byte>>)
    returns (ghost ws': seq<Write>)
    requires dev.Valid() && i == |ws|
    requires Recorded(before, Moment(dev.books.log, dev.heap.used), ws, done, env.write)
    modifies dev, dev.buffer, dev.buffer.entry
    ensures dev.Valid() && dev.books.capacity == old(dev.books.capacity)
    ensures |ws'| == i + 1
    ensures Recorded(before, Moment(dev.books.log, dev.heap.used), ws', done + [text], env.write)
  {
    hide AesdDevice.Valid, Recorded;
    ghost var mid, heap := Moment(dev.books.log, dev.heap.used), dev.heap;
    var _ := dev.AesdWrite(text, env.write(i));
    RecordWrite(before, mid, Moment(dev.books.log, dev.heap.used), ws, done, heap, env.write, text);
    ws' := ws + [Write(text, OutcomeOf(heap, text, env.write(i)))];
  }

  /** server_protocol, the loop that reads the socket and writes the output file. */
  method ReceiveLine(input: seq<byte>, broken: bool, dev: AesdDevice, env: SessionEnv)
    returns (end: End, rest: seq<byte>, ghost ws: seq<Write>)
    requires dev.Valid() && NulFree(input)
    modifies dev, dev.buffer, dev.buffer.entry
    ensures dev.Valid() && dev.books.capacity == old(dev.books.capacity)
    ensures end == Receive(input, broken).end && rest == Receive(input, broken).rest
    ensures Recorded(old(Moment(dev.books.log, dev.heap.used)), Moment(dev.books.log, dev.heap.used),
                     ws, Receive(input, broken).chunks, env.write)
  {
    hide *;
    dev.UsedIsNatural();
    ghost var before := Moment(dev.books.log, dev.heap.used);
    ghost var all := Receive(input, broken);
    ghost var done: seq<seq<byte>> := [];
    NothingRecorded(before, env.write);
    AheadStart(input, broken);
    rest, ws := input, [];
    var i := 0;
    while true
      invariant dev.Valid() && dev.books.capacity == old(dev.books.capacity) && NulFree(rest)
      invariant Ahead(all, done, rest, broken)
      invariant Recorded(before, Moment(dev.books.log, dev.heap.used), ws, done, env.write) && i == |ws|
      decreases |rest|
    {
      AheadStop(all, done, rest, broken);
      FgetsFacts(rest, broken);
      var chunk := Fgets(rest, broken);
      if chunk == None {
        return Failed, rest, ws;
      }
      var text := CString(chunk.value);
      var seek := SeekCommand(text);
      if seek.Some? {
        return Seek(seek.value.0, seek.value.1), rest[|chunk.value|..], ws;
      }
      AheadStep(all, done, rest, broken);
      ws := WriteChunk(dev, text, env, i, before, ws, done);
      done := done + [text];
      i := i + 1;
      rest := rest[|chunk.value|..];
      if EndsLine(text) {
        return Line, rest, ws;
      }
    }
  }

  lemma FgetsFacts(s: seq<byte>, broken: bool)
    requires NulFree(s)
    ensures var chunk := Fgets(s, broken);
            chunk.Some? ==>
              && chunk.value == FirstChunk(s) == CString(FirstChunk(s)) != []
              && |chunk.value| == ChunkLength(s) <= |s|
              && NulFree(s[|chunk.value|..])
  {
  }

  // ---- the replay loop on the device ----

  /** The replay of `view` ended after k chunks were sent: with success once all are, otherwise
      because the next one could not be sent or a read failed. */
  ghost predicate EndedAfter(k: nat, ret: Ret, reply: seq<byte>, view: seq<byte>, env: SessionEnv) {
    && k <= ChunkCount(view) && reply == Replayed(view, k)
    && (forall i: nat :: i < k ==> env.sendOk(i))
    && if ret == RET_OK then k == ChunkCount(view)
       else (k < ChunkCount(view) && !env.sendOk(k)) || exists i: nat :: !env.readOk(i)
  }

  ghost predicate ReplayEnded(ret: Ret, reply: seq<byte>, view: seq<byte>, env: SessionEnv) {
    exists k: nat :: EndedAfter(k, ret, reply, view, env)
  }

  /** The replay loop before its turn k. */
  ghost predicate SentSoFar(k: nat, reply: seq<byte>, left: seq<byte>, view: seq<byte>, env: SessionEnv) {
    && k <= ChunkCount(view) && reply == Replayed(view, k) && left == LeftAfter(view, k)
    && forall i: nat :: i < k ==> env.sendOk(i)
  }

  lemma SendStep(k: nat, reply: seq<byte>, left: seq<byte>, view: seq<byte>, env: SessionEnv)
    requires SentSoFar(k, reply, left, view, env)
    ensures left == [] ==> EndedAfter(k, RET_OK, reply, view, env)
    ensures (exists i: nat :: !env.readOk(i)) ==> EndedAfter(k, RET_ERR, reply, view, env)
    ensures left != [] && !env.sendOk(k) ==> EndedAfter(k, RET_ERR, reply, view, env)
    ensures left != [] ==>
              var n := ChunkLength(left);
              && |left[n..]| < |left|
              && (env.sendOk(k) ==> SentSoFar(k + 1, reply + CString(FirstChunk(left)), left[n..], view, env))
  {
    hide FirstChunk, CString;
    NextReplayed(view, k);
    NextReplayed(view, k + 1);
  }

  /** What is sent in all: the whole replay on success, a beginning of it otherwise. */
  lemma EndedReply(ret: Ret, reply: seq<byte>, view: seq<byte>, env: SessionEnv)
    requires ReplayEnded(ret, reply, view, env)
    ensures reply <= Replay(view)
    ensures ret == RET_OK ==> reply == Replay(view)
    ensures env.TransfersSucceed() ==> ret == RET_OK
  {
    var k: nat :| EndedAfter(k, ret, reply, view, env);
    ReplayedPart(view, k);
  }

  /** server_protocol, the loop that reads the output file back and writes the socket. */
  method ReplayOutput(out: DeviceStream, env: SessionEnv) returns (ret: Ret, reply: seq<byte>)
    requires out.dev.Valid()
    modifies out, out.file
    ensures ReplayEnded(ret, reply, old(out.Remaining()), env)
    ensures ret == RET_OK ==> out.buffered == []
  {
    hide AesdDevice.Valid, DeviceStream.Remaining, EndedAfter, SentSoFar, FirstChunk, ChunkLength, CString;
    reply := [];
    ghost var view, left := out.Remaining(), out.Remaining();
    NothingSent(view, env);
    var i := 0;
    while true
      invariant left == out.Remaining() && SentSoFar(i, reply, left, view, env)
      decreases |left|
    {
      SendStep(i, reply, left, view, env);
      var chunk, failed := out.NextChunk(env.readOk);
      if failed {
        return RET_ERR, reply;
      }
      if chunk == None {
        return RET_OK, reply;
      }
      var text := CString(chunk.value);
      if !env.sendOk(i) {
        return RET_ERR, reply;
      }
      reply := reply + text;
      i := i + 1;
      left := out.Remaining();
    }
  }

  lemma NothingSent(view: seq<byte>, env: SessionEnv)
    ensures SentSoFar(0, [], view, view, env)
  {
  }

  // ---- one session ----

  /** Where the replay starts: at the rewound position, at the position sought, or not at all. */
  function ReplayStart(end: End, l: Log, capacity: nat): Option<nat>
    requires capacity > 0
  {
    match end
    case Failed => None
    case Line => Some(0)
    case Seek(k, off) =>
      if SeekSucceeds(l, capacity, k, off) then Some(Offset(LastN(l.committed, capacity), k) + off) else None
  }

  /** The answer of a session whose replay starts at `start` of the flat view. */
  ghost predicate Answered(ret: Ret, reply: seq<byte>, cmds: seq<seq<byte>>, start: Option<nat>, env: SessionEnv) {
    match start
    case None => ret == RET_ERR && reply == []
    case Some(p) => ReplayEnded(ret, reply, FlatFrom(cmds, p), env)
  }

  /** server_protocol. A seek command must not find the stream in the middle of a read: the call
      moves the file under the bytes that stdio has read ahead. */
  method ServerProtocol(input: seq<byte>, broken: bool, out: DeviceStream, env: SessionEnv)
    returns (ret: Ret, reply: seq<byte>, ghost ws: seq<Write>)
    requires out.dev.Valid() && NulFree(input)
    requires Receive(input, broken).end.Seek? ==> out.buffered == []
    modifies out, out.file, out.dev, out.dev.buffer, out.dev.buffer.entry
    ensures out.dev.Valid() && out.dev.books.capacity == old(out.dev.books.capacity)
    ensures Recorded(old(Moment(out.dev.books.log, out.dev.heap.used)), Moment(out.dev.books.log, out.dev.heap.used),
                     ws, Receive(input, broken).chunks, env.write)
    ensures var books := out.dev.books;
            && books.capacity > 0
            && Answered(ret, reply, books.Live(),
                        ReplayStart(Receive(input, broken).end, books.log, books.capacity), env)
    ensures Receive(input, broken).end == Failed ==> ret == RET_ERR && reply == []
    ensures ret == RET_OK ==> out.buffered == []
    ensures old(out.buffered) == [] && env.TransfersSucceed() ==> out.buffered == []
  {
    hide AesdDevice.Valid, Recorded, Receive, SeekSucceeds, ReplayEnded, Replay, Concat, Offset, LastN;
    var end: End, rest: seq<byte>;
    end, rest, ws := ReceiveLine(input, broken, out.dev, env);
    out.dev.UsedIsNatural();
    if end == Failed {
      return RET_ERR, [], ws;
    }
    if end.Seek? {
      var failed := out.dev.AdjustFileOffset(out.file, end.writeCmd, end.writeCmdOffset, env.stray);
      if failed != 0 {
        return RET_ERR, [], ws;
      }
    } else {
      out.Rewind();
    }
    assert out.Remaining() == FlatFrom(out.dev.books.Live(), out.file.fpos);
    ghost var view := out.Remaining();
    ret, reply := ReplayOutput(out, env);
    EndedReply(ret, reply, view, env);
  }
}
