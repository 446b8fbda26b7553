// Whole runs of client sessions against the device, in the order in which they hold the lock.
module EndToEnd {
  import opened Bytes
  import opened WriteLog
  import opened DeviceBooks
  import opened Driver
  import opened DeviceRuns
  import opened SeekText
  import opened Framing
  import opened Session

  /** A line a client may send: NUL-free, one newline at its end, no chunk that is a seek command. */
  ghost predicate IsDataLine(line: seq<byte>) {
    && NulFree(line)
    && line != [] && NewlineIndex(line) == |line| - 1
    && NoSeekChunk(Split(line))
  }

  /** Every line whose text never has the seek prefix where a 255-byte chunk begins is a data line. */
  lemma PlainLineIsDataLine(line: seq<byte>)
    requires NulFree(line) && line != [] && NewlineIndex(line) == |line| - 1
    requires forall i: nat :: 255 * i <= |line| ==> !(PREFIX <= line[255 * i..])
    ensures IsDataLine(line)
  {
    hide SeekCommand, PREFIX, Split, NulFree, NewlineIndex;
    var chunks := Split(line);
    forall i | 0 <= i < |chunks|
      ensures SeekCommand(chunks[i]).None?
    {
      SplitAt(line, i);
      BeginningOf(PREFIX, line, 255 * i, Min(255 * (i + 1), |line|));
      WithoutPrefix(chunks[i]);
    }
  }

  lemma BeginningOf(t: seq<byte>, s: seq<byte>, a: nat, b: nat)
    requires a <= b <= |s|
    ensures t <= s[a..b] ==> t <= s[a..]
  {
  }

  /** What one client sends before its input ends or breaks. */
  datatype Turn = Turn(sent: seq<byte>, broken: bool)

  function ReceivedFrom(t: Turn): Received {
    Receive(t.sent, t.broken)
  }

  // ---- what one session does to the log ----

  /** Once every write is accepted: the received bytes join the pending ones, and a received line
      ending commits them as one command. A seek request or a broken input leaves them pending. */
  function TurnLog(l: Log, t: Turn): Log {
    var pending := l.pending + Concat(ReceivedFrom(t).chunks);
    if ReceivedFrom(t).end == Line then l.(committed := l.committed + [pending], pending := [])
    else l.(pending := pending)
  }

  /** Of the received chunks only the last can end a line, and it does exactly if the loop ends so;
      together they are the beginning of the input. */
  lemma {:induction false} ReceivedChunks(s: seq<byte>, broken: bool)
    ensures var r := Receive(s, broken);
            && (forall i :: 0 <= i < |r.chunks| ==> (EndsLine(r.chunks[i]) <==> r.end == Line && i == |r.chunks| - 1))
            && (r.end == Line ==> r.chunks != [])
            && Concat(r.chunks) <= s
    decreases |s|
  {
    hide SeekCommand;
    if Fgets(s, broken).Some? && SeekCommand(FirstChunk(s)).None? {
      var c, tail := FirstChunk(s), s[ChunkLength(s)..];
      if EndsLine(c) {
        ConcatOne(c);
      } else {
        ReceivedChunks(tail, broken);
        var r := Receive(tail, broken);
        hide Receive, Concat, FirstChunk, ChunkLength;
        ChunksAfter(c, r.chunks, tail);
        assert s == c + tail;
      }
    }
  }

  lemma ChunksAfter(c: seq<byte>, cs: seq<seq<byte>>, tail: seq<byte>)
    requires Concat(cs) <= tail
    ensures Concat([c] + cs) <= c + tail
  {
    assert ([c] + cs)[1..] == cs;
    assert (c + tail)[|c|..] == tail;
  }

  lemma {:induction false} JoinedIsConcat(ws: seq<Write>, cs: seq<seq<byte>>)
    requires Carries(ws, cs)
    ensures Joined(ws) == Concat(cs)
  {
    if ws != [] {
      assert Carries(ws[1..], cs[1..]) by {
        assert forall i :: 0 <= i < |ws[1..]| ==> ws[1..][i] == ws[i + 1] && cs[1..][i] == cs[i + 1];
      }
      JoinedIsConcat(ws[1..], cs[1..]);
    }
  }

  /** Writes that end no line, then one that does, commit one command. */
  lemma OpenThenEnding(l: Log, open: seq<Write>, w: Write)
    requires AllAccepted(open) && w.outcome == Accepted && EndsLine(w.buf)
    requires forall i :: 0 <= i < |open| ==> !EndsLine(open[i].buf)
    ensures ApplyAll(l, open + [w])
         == l.(committed := l.committed + [l.pending + (Joined(open) + w.buf)], pending := [])
  {
    hide ApplyAll, Joined;
    ApplyAllSnoc(l, open, w);
    OpenWritesPileUp(l, open);
    assert l.pending + Joined(open) + w.buf == l.pending + (Joined(open) + w.buf);
  }

  /** The accepted writes of a session have exactly that effect on the log. */
  lemma TurnCommits(l: Log, ws: seq<Write>, t: Turn)
    requires Carries(ws, ReceivedFrom(t).chunks) && AllAccepted(ws)
    ensures ApplyAll(l, ws) == TurnLog(l, t)
  {
    hide ApplyAll, Joined, Concat, Receive;
    var r := ReceivedFrom(t);
    ReceivedChunks(t.sent, t.broken);
    JoinedIsConcat(ws, r.chunks);
    if r.end == Line {
      var n := |ws| - 1;
      assert ws == ws[..n] + [ws[n]];
      JoinedSnoc(ws[..n], ws[n]);
      OpenThenEnding(l, ws[..n], ws[n]);
    } else {
      OpenWritesPileUp(l, ws);
    }
  }

  lemma {:induction false} JoinedSnoc(ws: seq<Write>, w: Write)
    ensures Joined(ws + [w]) == Joined(ws) + w.buf
  {
    if ws == [] {
      assert [w][1..] == [];
    } else {
      assert (ws + [w])[1..] == ws[1..] + [w];
      JoinedSnoc(ws[1..], w);
    }
  }

  /** A data line becomes one command, joined to what earlier sessions left pending. */
  lemma DataLineCommits(l: Log, line: seq<byte>)
    requires IsDataLine(line)
    ensures TurnLog(l, Turn(line, false)) == l.(committed := l.committed + [l.pending + line], pending := [])
    ensures ReceivedFrom(Turn(line, false)).end == Line
  {
    LineFraming(line, false);
    assert FirstLine(line) == line;
    SplitJoins(line);
  }

  /** A line without its end is kept: the next client's line is joined to it. */
  lemma UnfinishedThenLine(l: Log, part: seq<byte>, line: seq<byte>)
    requires NewlineIndex(part) == |part| && (part == [] || NoSeekChunk(Split(part)))
    requires IsDataLine(line)
    ensures TurnLog(TurnLog(l, Turn(part, false)), Turn(line, false))
         == l.(committed := l.committed + [l.pending + part + line], pending := [])
  {
    UnfinishedLine(part, false);
    DataLineCommits(l.(pending := l.pending + part), line);
  }

  /** Input without a newline, and without a seek command in what can be read of it, stays pending. */
  lemma UnfinishedTurn(l: Log, part: seq<byte>, broken: bool)
    requires NewlineIndex(part) == |part|
    requires var d := Readable(part, broken); d == [] || NoSeekChunk(Split(d))
    ensures ReceivedFrom(Turn(part, broken)).end == Failed
    ensures TurnLog(l, Turn(part, broken)) == l.(pending := l.pending + Readable(part, broken))
  {
    UnfinishedLine(part, broken);
  }

  /** Writes that end no line commit nothing, whatever becomes of them. */
  lemma {:induction false} OpenWritesCommitNothing(l: Log, ws: seq<Write>)
    requires forall i :: 0 <= i < |ws| ==> !EndsLine(ws[i].buf)
    ensures ApplyAll(l, ws).committed == l.committed
    decreases |ws|
  {
    if ws != [] {
      OpenWritesCommitNothing(Apply(l, ws[0]), ws[1..]);
    }
  }

  // ---- what a reader of NUL-free commands gets ----

  ghost predicate AllNulFree(cs: seq<seq<byte>>) {
    forall i :: 0 <= i < |cs| ==> NulFree(cs[i])
  }

  lemma {:induction false} ConcatIsNulFree(cs: seq<seq<byte>>)
    requires AllNulFree(cs)
    ensures NulFree(Concat(cs))
  {
    if cs != [] {
      assert NulFree(cs[0]);
      ConcatIsNulFree(cs[1..]);
    }
  }

  lemma ReplayOfCommands(cs: seq<seq<byte>>, p: nat)
    requires AllNulFree(cs)
    ensures Replay(FlatFrom(cs, p)) == FlatFrom(cs, p)
  {
    ConcatIsNulFree(cs);
    ReplayIsIdentity(FlatFrom(cs, p));
  }

  lemma SuffixIsNulFree(cs: seq<seq<byte>>, n: nat)
    requires AllNulFree(cs)
    ensures AllNulFree(LastN(cs, n))
  {
  }

  ghost predicate NulFreeLog(l: Log) {
    AllNulFree(l.committed) && NulFree(l.pending)
  }

  lemma TurnKeepsNulFree(l: Log, t: Turn)
    requires NulFreeLog(l) && NulFree(t.sent)
    ensures NulFreeLog(TurnLog(l, t))
  {
    ReceivedChunks(t.sent, t.broken);
  }

  // ---- what one session answers ----

  datatype Answer = Answer(ret: Ret, reply: seq<byte>)

  /** An error, or the flat view from where the replay starts, as the replay loop sends it. */
  function AnswerTo(end: End, l: Log, capacity: nat): Answer
    requires capacity > 0
  {
    match ReplayStart(end, l, capacity)
    case None => Answer(RET_ERR, [])
    case Some(p) => Answer(RET_OK, Replay(FlatFrom(LastN(l.committed, capacity), p)))
  }

  /** On NUL-free commands the answer to a line is the whole flat view. */
  lemma LineAnswer(l: Log, capacity: nat)
    requires capacity > 0 && AllNulFree(l.committed)
    ensures AnswerTo(Line, l, capacity) == Answer(RET_OK, Flat(l, capacity))
  {
    SuffixIsNulFree(l.committed, capacity);
    ReplayOfCommands(LastN(l.committed, capacity), 0);
  }

  lemma ConcatHead(cs: seq<seq<byte>>, x: nat)
    requires x < |cs|
    ensures Concat(cs[x..]) == cs[x] + Concat(cs[x + 1..])
  {
    var rest := cs[x..];
    assert rest[0] == cs[x] && rest[1..] == cs[x + 1..];
  }

  lemma SliceOfSlice(s: seq<byte>, a: nat, b: nat)
    requires a + b <= |s|
    ensures s[a..][b..] == s[a + b..]
  {
  }

  lemma SliceOfSum(a: seq<byte>, b: seq<byte>, n: nat)
    requires n <= |a|
    ensures (a + b)[n..] == a[n..] + b
  {
  }

  /** From command x, byte y: the rest of that command, then all later ones. */
  lemma FlatFromCommand(live: seq<seq<byte>>, x: nat, y: nat)
    requires x < |live| && y < |live[x]|
    ensures FlatFrom(live, Offset(live, x) + y) == live[x][y..] + Concat(live[x + 1..])
  {
    hide Concat, Offset;
    OffsetTail(live, x);
    ConcatAt(live, x, y);
    ConcatHead(live, x);
    SliceOfSlice(Concat(live), Offset(live, x), y);
    SliceOfSum(live[x], Concat(live[x + 1..]), y);
  }

  /** On NUL-free commands the answer to a seek request is command k from byte off on, then all
      later commands, exactly if the device accepts the position. */
  lemma SeekAnswer(l: Log, capacity: nat, k: nat, off: nat)
    requires capacity > 0 && AllNulFree(l.committed)
    ensures var live := LastN(l.committed, capacity);
            AnswerTo(Seek(k, off), l, capacity) ==
            if SeekSucceeds(l, capacity, k, off) then Answer(RET_OK, live[k][off..] + Concat(live[k + 1..]))
            else Answer(RET_ERR, [])
  {
    hide Replay, Concat, FlatFrom, Offset;
    var live := LastN(l.committed, capacity);
    if SeekSucceeds(l, capacity, k, off) {
      SuffixIsNulFree(l.committed, capacity);
      FlatFromCommand(live, k, off);
      ReplayOfCommands(live, Offset(live, k) + off);
    }
  }

  lemma AnsweredIsAnswerTo(ret: Ret, reply: seq<byte>, end: End, l: Log, capacity: nat, env: SessionEnv)
    requires capacity > 0
    requires Answered(ret, reply, LastN(l.committed, capacity), ReplayStart(end, l, capacity), env)
    ensures var right := AnswerTo(end, l, capacity);
            && (env.TransfersSucceed() || ret == RET_OK ==> Answer(ret, reply) == right)
            && reply <= right.reply
            && (right.ret == RET_ERR ==> Answer(ret, reply) == right)
  {
    hide Replay, FlatFrom, ReplayEnded, SessionEnv.TransfersSucceed;
    var start := ReplayStart(end, l, capacity);
    if start.Some? {
      EndedReply(ret, reply, FlatFrom(LastN(l.committed, capacity), start.value), env);
    }
  }

  // ---- one seek session ----

  /** A client that sends a printed seek request: nothing is written, and the answer is command x
      from byte y on and all later commands, exactly if the device accepts the position. */
  method SeekClient(x: nat, y: nat, out: DeviceStream, env: SessionEnv) returns (ret: Ret, reply: seq<byte>)
    requires out.dev.Valid() && out.buffered == []
    requires x < UINT32_MODULUS && y < UINT32_MODULUS
    requires AllNulFree(out.dev.books.log.committed) && env.TransfersSucceed()
    modifies out, out.file, out.dev, out.dev.buffer, out.dev.buffer.entry
    ensures out.dev.Valid() && out.dev.books.log == old(out.dev.books.log)
    ensures out.dev.books.capacity == old(out.dev.books.capacity) > 0
    ensures var log, n := out.dev.books.log, out.dev.books.capacity;
            var live := LastN(log.committed, n);
            if SeekSucceeds(log, n, x, y) then ret == RET_OK && reply == live[x][y..] + Concat(live[x + 1..])
            else ret == RET_ERR && reply == []
  {
    hide AesdDevice.Valid, Recorded, Answered, AllNulFree, Receive, SeekLine, SeekSucceeds, AnswerTo;
    ghost var before := Moment(out.dev.books.log, out.dev.heap.used);
    SeekLineIsReceived(x, y, [], false);
    SeekLineIsNulFree(x, y);
    assert SeekLine(x, y) + [] == SeekLine(x, y);
    ghost var ws;
    ret, reply, ws := ServerProtocol(SeekLine(x, y), false, out, env);
    out.dev.UsedIsNatural();
    NothingWritten(before, Moment(out.dev.books.log, out.dev.heap.used), ws, env);
    AnsweredIsAnswerTo(ret, reply, Seek(x, y), out.dev.books.log, out.dev.books.capacity, env);
    SeekAnswer(out.dev.books.log, out.dev.books.capacity, x, y);
  }

  lemma SeekLineIsNulFree(x: nat, y: nat)
    requires x < UINT32_MODULUS && y < UINT32_MODULUS
    ensures NulFree(SeekLine(x, y))
  {
    hide SeekLine;
    SeekLineIsShortLine(x, y);
  }

  lemma NothingWritten(before: Moment, after: Moment, ws: seq<Write>, env: SessionEnv)
    requires Recorded(before, after, ws, [], env.write)
    ensures after.log == before.log
  {
  }

  // ---- runs of sessions ----

  function Sents(turns: seq<Turn>): (ss: seq<seq<byte>>)
    ensures |ss| == |turns| && forall i :: 0 <= i < |turns| ==> ss[i] == turns[i].sent
  {
    seq(|turns|, i requires 0 <= i < |turns| => turns[i].sent)
  }

  /** One session of a run: its writes take the log from l to l', each with the outcome that its
      environment decides; `room` says that memory cannot have run out. The replay ends as the
      transfers decide: the answer is what the log says, or a beginning of it if a transfer fails. */
  ghost predicate SessionStep(l: Log, l': Log, t: Turn, ws: seq<Write>, answer: Answer, capacity: nat,
                              env: SessionEnv, room: bool)
  {
    && capacity > 0
    && Carries(ws, ReceivedFrom(t).chunks)
    && EndsAsDecided(ws, env.write, room)
    && l' == ApplyAll(l, ws)
    && Answered(answer.ret, answer.reply, LastN(l'.committed, capacity),
                ReplayStart(ReceivedFrom(t).end, l', capacity), env)
    && var right := AnswerTo(ReceivedFrom(t).end, l', capacity);
       && (env.TransfersSucceed() || answer.ret == RET_OK ==> answer == right)
       && answer.reply <= right.reply
       && (right.ret == RET_ERR ==> answer == right)
  }

  lemma RecordedIsStep(before: Moment, after: Moment, t: Turn, ws: seq<Write>, ret: Ret, reply: seq<byte>,
                       capacity: nat, env: SessionEnv)
    requires capacity > 0 && Recorded(before, after, ws, Receive(t.sent, t.broken).chunks, env.write)
    requires Answered(ret, reply, LastN(after.log.committed, capacity),
                      ReplayStart(Receive(t.sent, t.broken).end, after.log, capacity), env)
    ensures var room := before.used + |t.sent| < LOFF_T_LIMIT;
            && SessionStep(before.log, after.log, t, ws, Answer(ret, reply), capacity, env, room)
            && (room && env.WritesGranted() ==> after.log == TurnLog(before.log, t))
    ensures 0 <= after.used <= before.used + |t.sent|
  {
    hide Receive, Concat, ApplyAll, ReplayStart, Answered, TurnLog, AnswerTo, Decided;
    ReceivedChunks(t.sent, t.broken);
    AnsweredIsAnswerTo(ret, reply, Receive(t.sent, t.broken).end, after.log, capacity, env);
    if env.WritesGranted() && before.used + |t.sent| < LOFF_T_LIMIT {
      GenerousAccepts(ws, env.write);
      TurnCommits(before.log, ws, t);
    }
  }

  /** client_thread: one session under the lock. */
  method RunSession(t: Turn, out: DeviceStream, env: SessionEnv) returns (answer: Answer, ghost ws: seq<Write>)
    requires out.dev.Valid() && NulFree(t.sent)
    requires ReceivedFrom(t).end.Seek? ==> out.buffered == []
    modifies out, out.file, out.dev, out.dev.buffer, out.dev.buffer.entry
    ensures out.dev.Valid() && out.dev.books.capacity == old(out.dev.books.capacity)
    ensures var room := old(out.dev.heap.used) + |t.sent| < LOFF_T_LIMIT;
            && SessionStep(old(out.dev.books.log), out.dev.books.log, t, ws, answer, out.dev.books.capacity, env, room)
            && (room && env.WritesGranted() ==> out.dev.books.log == TurnLog(old(out.dev.books.log), t))
    ensures old(out.buffered) == [] && env.TransfersSucceed() ==> out.buffered == []
    ensures 0 <= out.dev.heap.used <= old(out.dev.heap.used) + |t.sent|
  {
    hide AesdDevice.Valid, Recorded, Answered, NulFree, Receive, SessionStep, TurnLog, ReplayStart;
    ghost var before := Moment(out.dev.books.log, out.dev.heap.used);
    var ret, reply;
    ret, reply, ws := ServerProtocol(t.sent, t.broken, out, env);
    RecordedIsStep(before, Moment(out.dev.books.log, out.dev.heap.used), t, ws, ret, reply,
                   out.dev.books.capacity, env);
    answer := Answer(ret, reply);
  }

  /** A client whose input ends or breaks before a newline, without a seek command: it gets an error
      and nothing else, and commits nothing; with memory granted, what could be read stays pending. */
  method UnfinishedClient(part: seq<byte>, broken: bool, out: DeviceStream, env: SessionEnv)
    returns (ret: Ret, reply: seq<byte>)
    requires out.dev.Valid() && NulFree(part) && NewlineIndex(part) == |part|
    requires var d := Readable(part, broken); d == [] || NoSeekChunk(Split(d))
    modifies out, out.file, out.dev, out.dev.buffer, out.dev.buffer.entry
    ensures out.dev.Valid() && out.dev.books.capacity == old(out.dev.books.capacity)
    ensures ret == RET_ERR && reply == []
    ensures var was, now := old(out.dev.books.log), out.dev.books.log;
            && now.committed == was.committed
            && (env.WritesGranted() && old(out.dev.heap.used) + |part| < LOFF_T_LIMIT ==>
                  now == was.(pending := was.pending + Readable(part, broken)))
  {
    hide AesdDevice.Valid, NulFree, Receive, TurnLog, Readable, Split, NoSeekChunk, NewlineIndex, Answered;
    ghost var was := out.dev.books.log;
    UnfinishedTurn(was, part, broken);
    var answer, ws := RunSession(Turn(part, broken), out, env);
    ret, reply := answer.ret, answer.reply;
    UnfinishedCommitsNothing(was, Turn(part, broken), ws);
  }

  lemma UnfinishedCommitsNothing(l: Log, t: Turn, ws: seq<Write>)
    requires ReceivedFrom(t).end == Failed && Carries(ws, ReceivedFrom(t).chunks)
    ensures ApplyAll(l, ws).committed == l.committed
  {
    hide Receive, ApplyAll;
    ReceivedChunks(t.sent, t.broken);
    OpenWritesCommitNothing(l, ws);
  }

  /** No transfer fails in a session before the n-th. */
  ghost predicate NoTransferFailsBefore(env: nat -> SessionEnv, n: nat) {
    forall i: nat :: i < n ==> env(i).TransfersSucceed()
  }

  /** server_run and client_thread: sessions of every kind, data lines, seek requests, unfinished and
      broken inputs, run under the lock one after another. Each answer is what the log at that
      moment says; and when memory is granted, each session has exactly the effect TurnLog. A seek
      request must not come after a session whose replay has failed. */
  method ServeAll(turns: seq<Turn>, out: DeviceStream, env: nat -> SessionEnv)
    returns (answers: seq<Answer>, ghost logs: seq<Log>, ghost wss: seq<seq<Write>>)
    requires out.dev.Valid() && out.buffered == []
    requires forall i :: 0 <= i < |turns| ==> NulFree(turns[i].sent)
    requires forall i :: 0 <= i < |turns| && ReceivedFrom(turns[i]).end.Seek? ==> NoTransferFailsBefore(env, i)
    modifies out, out.file, out.dev, out.dev.buffer, out.dev.buffer.entry
    ensures out.dev.Valid() && out.dev.books.capacity == old(out.dev.books.capacity)
    ensures |answers| == |wss| == |turns| && |logs| == |turns| + 1
    ensures logs[0] == old(out.dev.books.log) && logs[|turns|] == out.dev.books.log
    ensures forall n :: 0 <= n < |turns| ==>
              SessionStep(logs[n], logs[n + 1], turns[n], wss[n], answers[n], out.dev.books.capacity, env(n),
                          old(out.dev.heap.used) + |Concat(Sents(turns))| < LOFF_T_LIMIT)
    ensures (forall i: nat :: env(i).WritesGranted())
            && old(out.dev.heap.used) + |Concat(Sents(turns))| < LOFF_T_LIMIT ==>
              forall n :: 0 <= n < |turns| ==> logs[n + 1] == TurnLog(logs[n], turns[n])
  {
    hide *;
    out.dev.UsedIsNatural();
    ghost var capacity, used := out.dev.books.capacity, out.dev.heap.used;
    ghost var room := used + |Concat(Sents(turns))| < LOFF_T_LIMIT;
    ghost var enough := (forall i: nat :: env(i).WritesGranted()) && room;
    answers, logs, wss := [], [out.dev.books.log], [];
    NoBytes();
    NoneBefore(env);
    for i := 0 to |turns|
      invariant out.dev.Valid() && out.dev.books.capacity == capacity
      invariant NoTransferFailsBefore(env, i) ==> out.buffered == []
      invariant |answers| == |wss| == i && |logs| == i + 1
      invariant logs[0] == old(out.dev.books.log) && logs[i] == out.dev.books.log
      invariant 0 <= out.dev.heap.used <= used + |Concat(Sents(turns)[..i])|
      invariant forall n :: 0 <= n < i ==>
                  SessionStep(logs[n], logs[n + 1], turns[n], wss[n], answers[n], capacity, env(n), room)
      invariant enough ==> forall n :: 0 <= n < i ==> logs[n + 1] == TurnLog(logs[n], turns[n])
    {
      ConcatNext(Sents(turns), i);
      NextTransfers(env, i);
      ghost var roomNow := out.dev.heap.used + |turns[i].sent| < LOFF_T_LIMIT;
      var answer, ws := RunSession(turns[i], out, env(i));
      LessRoom(logs[i], out.dev.books.log, turns[i], ws, answer, capacity, env(i), roomNow, room);
      answers, wss, logs := answers + [answer], wss + [ws], logs + [out.dev.books.log];
    }
    assert Sents(turns)[..|turns|] == Sents(turns);
  }

  /** A session that had room also had it if less is claimed. */
  lemma LessRoom(l: Log, l': Log, t: Turn, ws: seq<Write>, answer: Answer, capacity: nat, env: SessionEnv,
                 had: bool, room: bool)
    requires SessionStep(l, l', t, ws, answer, capacity, env, had) && (room ==> had)
    ensures SessionStep(l, l', t, ws, answer, capacity, env, room)
  {
    hide ReceivedFrom, ApplyAll, Answered, AnswerTo, Decided;
  }

  lemma NextTransfers(env: nat -> SessionEnv, n: nat)
    ensures NoTransferFailsBefore(env, n + 1) <==> NoTransferFailsBefore(env, n) && env(n).TransfersSucceed()
  {
    hide SessionEnv.TransfersSucceed;
  }

  lemma NoneBefore(env: nat -> SessionEnv)
    ensures NoTransferFailsBefore(env, 0)
  {
  }

  lemma NoBytes()
    ensures Concat([]) == []
  {
  }

  /** A run of data lines, as a log. */
  lemma {:induction false} DataLinesLog(logs: seq<Log>, lines: seq<seq<byte>>, n: nat)
    requires |logs| == |lines| + 1 && n <= |lines| && logs[0].pending == []
    requires forall i :: 0 <= i < |lines| ==> IsDataLine(lines[i])
    requires forall i :: 0 <= i < |lines| ==> logs[i + 1] == TurnLog(logs[i], Turn(lines[i], false))
    ensures logs[n] == logs[0].(committed := logs[0].committed + lines[..n])
    decreases n
  {
    hide TurnLog, IsDataLine;
    if n > 0 {
      DataLinesLog(logs, lines, n - 1);
      DataLineCommits(logs[n - 1], lines[n - 1]);
      assert logs[n] == TurnLog(logs[n - 1], Turn(lines[n - 1], false));
      assert lines[..n] == lines[..n - 1] + [lines[n - 1]];
      assert logs[n - 1].pending + lines[n - 1] == lines[n - 1];
      assert logs[0].committed + lines[..n - 1] + [lines[n - 1]] == logs[0].committed + lines[..n];
    }
  }

  lemma DataLineAnswer(logs: seq<Log>, lines: seq<seq<byte>>, n: nat, ws: seq<Write>,
                       answer: Answer, capacity: nat, env: SessionEnv, room: bool)
    requires |logs| == |lines| + 1 && n < |lines|
    requires forall i :: 0 <= i < |lines| ==> IsDataLine(lines[i])
    requires AllNulFree(logs[0].committed)
    requires logs[n + 1] == logs[0].(committed := logs[0].committed + lines[..n + 1])
    requires SessionStep(logs[n], logs[n + 1], Turn(lines[n], false), ws, answer, capacity, env, room)
    requires env.TransfersSucceed()
    ensures answer == Answer(RET_OK, Concat(LastN(logs[0].committed + lines[..n + 1], capacity)))
  {
    assert AllNulFree(logs[n + 1].committed) by {
      assert forall i :: 0 <= i <= n ==> NulFree(lines[i]);
    }
    hide TurnLog, Receive, IsDataLine, AllNulFree, Answered;
    DataLineCommits(logs[n], lines[n]);
    LineAnswer(logs[n + 1], capacity);
  }

  function LineTurns(lines: seq<seq<byte>>): (turns: seq<Turn>)
    ensures |turns| == |lines| && forall i :: 0 <= i < |lines| ==> turns[i] == Turn(lines[i], false)
  {
    seq(|lines|, i requires 0 <= i < |lines| => Turn(lines[i], false))
  }

  lemma LineTurnsAreGood(lines: seq<seq<byte>>, env: nat -> SessionEnv)
    requires forall i :: 0 <= i < |lines| ==> IsDataLine(lines[i])
    requires forall i: nat :: env(i).WritesGranted() && env(i).TransfersSucceed()
    ensures Sents(LineTurns(lines)) == lines
    ensures forall i :: 0 <= i < |lines| ==> NulFree(LineTurns(lines)[i].sent)
    ensures forall n: nat :: NoTransferFailsBefore(env, n)
  {
    hide SessionEnv.WritesGranted, SessionEnv.TransfersSucceed, LineTurns, Sents;
    assert forall i :: 0 <= i < |lines| ==> IsDataLine(lines[i]) && LineTurns(lines)[i].sent == lines[i];
  }

  /** A run in which every client sends a data line and memory is granted: the n-th answer is the
      concatenation of the last min(n, capacity) commands. */
  method ServeClients(lines: seq<seq<byte>>, out: DeviceStream, env: nat -> SessionEnv)
    returns (answers: seq<Answer>)
    requires out.dev.Valid() && out.buffered == []
    requires out.dev.books.log.pending == [] && AllNulFree(out.dev.books.log.committed)
    requires forall i :: 0 <= i < |lines| ==> IsDataLine(lines[i])
    requires forall i: nat :: env(i).WritesGranted() && env(i).TransfersSucceed()
    requires out.dev.heap.used + |Concat(lines)| < LOFF_T_LIMIT
    modifies out, out.file, out.dev, out.dev.buffer, out.dev.buffer.entry
    ensures out.dev.Valid()
    ensures var was, now := old(out.dev.books), out.dev.books;
            && now.capacity == was.capacity
            && now.log == was.log.(committed := was.log.committed + lines)
            && |answers| == |lines|
            && forall n :: 0 <= n < |lines| ==>
                 answers[n] == Answer(RET_OK, Concat(LastN(was.log.committed + lines[..n + 1], was.capacity)))
  {
    hide *;
    LineTurnsAreGood(lines, env);
    ghost var logs, wss;
    answers, logs, wss := ServeAll(LineTurns(lines), out, env);
    assert out.dev.books.log == logs[|lines|];
    DataLineRun(logs, lines, wss, answers, out.dev.books.capacity, env, true);
  }

  lemma DataLineRun(logs: seq<Log>, lines: seq<seq<byte>>, wss: seq<seq<Write>>, answers: seq<Answer>, capacity: nat,
                    env: nat -> SessionEnv, room: bool)
    requires |logs| == |lines| + 1 && |wss| == |answers| == |lines|
    requires logs[0].pending == [] && AllNulFree(logs[0].committed)
    requires forall i :: 0 <= i < |lines| ==> IsDataLine(lines[i])
    requires forall i :: 0 <= i < |lines| ==> logs[i + 1] == TurnLog(logs[i], Turn(lines[i], false))
    requires forall i :: 0 <= i < |lines| ==>
               SessionStep(logs[i], logs[i + 1], Turn(lines[i], false), wss[i], answers[i], capacity, env(i), room)
    requires forall i: nat :: env(i).TransfersSucceed()
    ensures logs[|lines|] == logs[0].(committed := logs[0].committed + lines)
    ensures forall n :: 0 <= n < |lines| ==>
              answers[n] == Answer(RET_OK, Concat(LastN(logs[0].committed + lines[..n + 1], capacity)))
  {
    hide *;
    forall n | 0 <= n < |lines|
      ensures answers[n] == Answer(RET_OK, Concat(LastN(logs[0].committed + lines[..n + 1], capacity)))
    {
      DataLinesLog(logs, lines, n + 1);
      DataLineAnswer(logs, lines, n, wss[n], answers[n], capacity, env(n), room);
    }
    DataLinesLog(logs, lines, |lines|);
    assert lines[..|lines|] == lines;
  }
}
