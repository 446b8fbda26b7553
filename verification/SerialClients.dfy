// What each thread of a run of the file build achieves, as a function of its own input and its own
// steps, whatever the other threads do in between; and that every client can be served.
module SerialClients {
  import opened Bytes
  import opened SeekText
  import opened Framing
  import opened Serial
  import opened SerialRuns

  // ---- the steps of one client ----

  /** How much the stream took of each chunk that client i wrote. */
  function Writes(steps: seq<Step>, i: nat): seq<nat> {
    if steps == [] then [] else WriteOf(steps[0], i) + Writes(steps[1..], i)
  }

  function WriteOf(step: Step, i: nat): seq<nat> {
    if step.Chunk? && step.i == i then [step.written] else []
  }

  /** How each turn of client i's replay loop went. */
  function Transfers(steps: seq<Step>, i: nat): seq<Transfer> {
    if steps == [] then [] else TransferOf(steps[0], i) + Transfers(steps[1..], i)
  }

  function TransferOf(step: Step, i: nat): seq<Transfer> {
    if step.Reply? && step.i == i then [step.transfer] else []
  }

  // ---- what they achieve ----

  /** What the stream has taken of the chunks. */
  function Taken(cs: seq<seq<byte>>, ws: seq<nat>): seq<byte> {
    if cs == [] || ws == [] then [] else cs[0][..Min(ws[0], |cs[0]|)] + Taken(cs[1..], ws[1..])
  }

  ghost predicate NoShortWrite(cs: seq<seq<byte>>, ws: seq<nat>) {
    forall k :: 0 <= k < |cs| && k < |ws| ==> ws[k] >= |cs[k]|
  }

  ghost predicate AllSent(ts: seq<Transfer>) {
    forall k :: 0 <= k < |ts| ==> ts[k] == Sent
  }

  /** The turns of the replay loop that have sent a chunk, once it has ended. */
  function Sends(ts: seq<Transfer>): nat {
    if ts == [] then 0 else |ts| - 1
  }

  lemma {:induction false} NextTaken(cs: seq<seq<byte>>, ws: seq<nat>, w: nat)
    ensures Taken(cs, ws + [w]) ==
            Taken(cs, ws) + if |ws| < |cs| then cs[|ws|][..Min(w, |cs[|ws|]|)] else []
  {
    if cs != [] && ws != [] {
      assert (ws + [w])[1..] == ws[1..] + [w];
      NextTaken(cs[1..], ws[1..], w);
      var d := if |ws| < |cs| then cs[|ws|][..Min(w, |cs[|ws|]|)] else [];
      var head := cs[0][..Min(ws[0], |cs[0]|)];
      assert head + (Taken(cs[1..], ws[1..]) + d) == head + Taken(cs[1..], ws[1..]) + d;
    } else if cs != [] {
      assert [w][1..] == [];
    }
  }

  /** Whole writes of all chunks take all of them. */
  lemma {:induction false} AllTaken(cs: seq<seq<byte>>, ws: seq<nat>)
    requires NoShortWrite(cs, ws) && |ws| >= |cs|
    ensures Taken(cs, ws) == Concat(cs)
  {
    if cs != [] {
      forall k | 0 <= k < |cs[1..]| && k < |ws[1..]|
        ensures ws[1..][k] >= |cs[1..][k]|
      {
        assert ws[k + 1] >= |cs[k + 1]|;
      }
      AllTaken(cs[1..], ws[1..]);
    }
  }

  /** A client has left with success exactly if its input ended in a line and no step of its own
      failed; and it has then had a write for every chunk. */
  ghost predicate LeftWith(ret: Ret, all: Received, ws: seq<nat>, ts: seq<Transfer>) {
    && (ret == RET_OK <==> all.end == Line && NoShortWrite(all.chunks, ws) && AllSent(ts))
    && (NoShortWrite(all.chunks, ws) ==> |ws| >= |all.chunks|)
  }

  /** A client's way through the chunks of its whole input, `all`, of which `left` are to come. */
  ghost predicate Along(pc: Pc, all: Received, left: Received, data: seq<byte>, ws: seq<nat>, ts: seq<Transfer>) {
    && data == Taken(all.chunks, ws)
    && match pc
       case Waiting => ws == [] && ts == [] && left == all
       case Receiving =>
         && ts == [] && |ws| <= |all.chunks| && NoShortWrite(all.chunks, ws)
         && left == Received(all.chunks[|ws|..], all.end, all.rest)
       case Replaying =>
         all.end == Line && NoShortWrite(all.chunks, ws) && |ws| >= |all.chunks| && AllSent(ts)
       case Leaving(ret) => LeftWith(ret, all, ws, ts)
       case Done(ret) => LeftWith(ret, all, ws, ts)
  }

  /** What the client has written, against its input and its own steps. */
  ghost predicate Progress(c: Client, data: seq<byte>, ws: seq<nat>, ts: seq<Transfer>) {
    Along(c.pc, Receive(c.sent, c.broken), Receive(c.rest, c.broken), data, ws, ts)
  }

  /** What has been sent back to the client: as many chunks of the file as turns succeeded. */
  ghost predicate Shown(c: Client, ts: seq<Transfer>, file: seq<byte>, pos: nat, history: seq<byte>, atEnd: bool) {
    match c.pc
    case Waiting => c.reply == []
    case Receiving => c.reply == [] && ts == []
    case Replaying => c.reply == Replayed(file, |ts|) && pos <= |file| && file[pos..] == LeftAfter(file, |ts|)
    case Leaving(ret) => c.reply == Replayed(file, Sends(ts))
    case Done(ret) => atEnd ==> c.reply == Replayed(history, Sends(ts))
  }

  ghost predicate Account(s: State, i: nat, ws: seq<nat>, ts: seq<Transfer>) {
    && i < |s.clients| && s.pos <= |s.file|
    && var c := s.clients[i];
       if c.pc == Waiting then Progress(c, [], ws, ts) && Shown(c, ts, s.file, s.pos, [], s.atEnd)
       else
         && c.turn < |s.sections|
         && Progress(c, s.sections[c.turn].data, ws, ts)
         && Shown(c, ts, s.file, s.pos, Written(s.sections[..c.turn + 1]), s.atEnd)
  }

  // ---- the steps of others ----

  /** The step is one of client i. */
  predicate Own(step: Step, i: nat) {
    match step
    case Lock(j) => j == i
    case Chunk(j, _) => j == i
    case Reply(j, _) => j == i
    case Unlock(j) => j == i
    case _ => false
  }

  /** Someone else's step leaves the client and its section alone, and while the client is inside,
      also the stream. */
  lemma OthersStep(s: State, step: Step, i: nat)
    requires Invariant(s) && CanStep(s, step) && i < |s.clients| && !Own(step, i)
    ensures var s', c := Next(s, step), s.clients[i];
            && i < |s'.clients| && s'.clients[i] == c
            && (InCriticalSection(c.pc) ==> s'.file == s.file && s'.pos == s.pos)
            && (s'.atEnd ==> s.atEnd)
            && (c.pc != Waiting ==>
                  && c.turn < |s.sections| && c.turn < |s'.sections|
                  && s'.sections[..c.turn + 1] == s.sections[..c.turn + 1])
  {
    hide WriteAt, Receive, SeekCommand, Fgets, CString, Concat, StampsOk, StreamOk, WroteItsChunks, RepliedFromFile;
    assert ClientOk(s, i);
    if s.holder.ClientHolds? {
      assert ClientOk(s, s.holder.i);
    }
    var s', c := Next(s, step), s.clients[i];
    if c.pc != Waiting && !InCriticalSection(c.pc) && s.holder != Nobody {
      NotTheLast(s, i);
    }
  }

  lemma SameAccount(s: State, s': State, i: nat, ws: seq<nat>, ts: seq<Transfer>)
    requires Account(s, i, ws, ts) && i < |s'.clients| && s'.clients[i] == s.clients[i]
    requires var c := s.clients[i];
             && (InCriticalSection(c.pc) ==> s'.file == s.file && s'.pos == s.pos)
             && s'.pos <= |s'.file| && (s'.atEnd ==> s.atEnd)
             && (c.pc != Waiting ==>
                   c.turn < |s'.sections| && s'.sections[..c.turn + 1] == s.sections[..c.turn + 1])
    ensures Account(s', i, ws, ts)
  {
    hide Progress, Replayed, LeftAfter, Written;
    var c := s.clients[i];
    if c.pc != Waiting {
      assert s'.sections[c.turn] == s'.sections[..c.turn + 1][c.turn];
      assert s.sections[c.turn] == s.sections[..c.turn + 1][c.turn];
    }
  }

  lemma OthersKeepAccount(s: State, step: Step, i: nat, ws: seq<nat>, ts: seq<Transfer>)
    requires Invariant(s) && CanStep(s, step) && i < |s.clients| && Account(s, i, ws, ts) && !Own(step, i)
    ensures Account(Next(s, step), i, ws, ts)
  {
    hide Account, Next, Enabled, ClientOk, StampsOk, MutualExclusion;
    StepKeeps(s, step);
    OthersStep(s, step, i);
    SameAccount(s, Next(s, step), i, ws, ts);
  }

  // ---- its own steps ----

  lemma LockAccount(s: State, i: nat, ws: seq<nat>, ts: seq<Transfer>)
    requires Invariant(s) && CanStep(s, Lock(i)) && Account(s, i, ws, ts)
    ensures Account(Next(s, Lock(i)), i, ws, ts)
  {
    hide Receive, Invariant;
    var all := Receive(s.clients[i].sent, s.clients[i].broken);
    assert all.chunks[0..] == all.chunks;
  }

  /** The receive loop unrolled once. */
  lemma ReceiveStep(rest: seq<byte>, broken: bool)
    requires Fgets(rest, broken).Some? && SeekCommand(FirstChunk(rest)).None?
    ensures var c, tail := FirstChunk(rest), rest[ChunkLength(rest)..];
            var r := Receive(rest, broken);
            if EndsLine(c) then r == Received([c], Line, tail)
            else r == Received([c] + Receive(tail, broken).chunks, Receive(tail, broken).end, Receive(tail, broken).rest)
  {
  }

  /** One more chunk of the input: written in part, or in full and the last, or in full. */
  lemma NextAlong(all: Received, left: Received, data: seq<byte>, w: nat, ws: seq<nat>, ts: seq<Transfer>,
                  chunk: seq<byte>, left': Received)
    requires Along(Receiving, all, left, data, ws, ts)
    requires left.chunks == [chunk] + left'.chunks && left.end == left'.end && left.rest == left'.rest
    ensures w < |chunk| ==> Along(Leaving(RET_ERR), all, left', data + chunk[..w], ws + [w], ts)
    ensures w >= |chunk| && left' == Received([], Line, left'.rest) ==>
              Along(Replaying, all, left', data + chunk, ws + [w], ts)
    ensures w >= |chunk| ==> Along(Receiving, all, left', data + chunk, ws + [w], ts)
  {
    hide Taken, NoShortWrite;
    ChunksFrom(all.chunks, |ws|, chunk, left'.chunks);
    NextTaken(all.chunks, ws, w);
    NextShort(all.chunks, ws, w);
    assert chunk[..|chunk|] == chunk;
  }

  /** A chunk that is data, or a beginning of it, is written. */
  lemma DataChunkProgress(c: Client, data: seq<byte>, w: nat, ws: seq<nat>, ts: seq<Transfer>)
    requires Progress(c, data, ws, ts) && c.pc == Receiving
    requires Fgets(c.rest, c.broken).Some? && SeekCommand(FirstChunk(c.rest)).None?
    ensures var chunk, rest := FirstChunk(c.rest), c.rest[ChunkLength(c.rest)..];
            if w < |chunk| then
              Progress(c.(rest := rest, pc := Leaving(RET_ERR)), data + chunk[..w], ws + [w], ts)
            else if EndsLine(chunk) then
              Progress(c.(rest := rest, pc := Replaying), data + chunk, ws + [w], ts)
            else
              Progress(c.(rest := rest), data + chunk, ws + [w], ts)
  {
    hide Receive, SeekCommand, Fgets, FirstChunk, ChunkLength, Along, EndsLine;
    var chunk, rest := FirstChunk(c.rest), c.rest[ChunkLength(c.rest)..];
    var all, left := Receive(c.sent, c.broken), Receive(c.rest, c.broken);
    var left' := if EndsLine(chunk) then Received([], Line, rest) else Receive(rest, c.broken);
    ReceiveStep(c.rest, c.broken);
    assert [chunk] + [] == [chunk];
    NextAlong(all, left, data, w, ws, ts, chunk, left');
    LeftDoesNotMatter(all, left', Receive(rest, c.broken), data + chunk, ws + [w], ts);
    if w < |chunk| {
      LeftDoesNotMatter(all, left', Receive(rest, c.broken), data + chunk[..w], ws + [w], ts);
    }
  }

  lemma LeftDoesNotMatter(all: Received, left: Received, left': Received, data: seq<byte>, ws: seq<nat>,
                          ts: seq<Transfer>)
    ensures forall pc: Pc :: Along(pc, all, left, data, ws, ts) && pc != Receiving && pc != Waiting ==>
              Along(pc, all, left', data, ws, ts)
  {
  }

  lemma ChunksFrom(cs: seq<seq<byte>>, n: nat, chunk: seq<byte>, more: seq<seq<byte>>)
    requires n <= |cs| && cs[n..] == [chunk] + more
    ensures n < |cs| == n + 1 + |more| && cs[n] == chunk && cs[n + 1..] == more
  {
    assert cs[n] == cs[n..][0] && cs[n + 1..] == cs[n..][1..];
  }

  lemma NextShort(cs: seq<seq<byte>>, ws: seq<nat>, w: nat)
    ensures NoShortWrite(cs, ws + [w]) <==> NoShortWrite(cs, ws) && (|ws| < |cs| ==> w >= |cs[|ws|]|)
  {
    if NoShortWrite(cs, ws + [w]) {
      assert forall k :: 0 <= k < |ws| ==> (ws + [w])[k] == ws[k];
      assert (ws + [w])[|ws|] == w;
    }
  }

  lemma NothingReplayed(file: seq<byte>)
    ensures Replayed(file, 0) == [] && LeftAfter(file, 0) == file && file[0..] == file
  {
  }

  /** The account after a write of client i, which has not begun its replay. */
  lemma PutAccount(s: State, i: nat, data: seq<byte>, c': Client, pos': nat, ws: seq<nat>)
    requires i < |s.clients| && s.pos <= |s.file| && s.sections != []
    requires c'.turn == |s.sections| - 1 && c'.reply == []
    requires Progress(c', s.sections[c'.turn].data + data, ws, [])
    requires c'.pc == Receiving || c'.pc == Replaying || c'.pc == Leaving(RET_ERR)
    requires pos' == if c'.pc == Replaying then 0 else s.pos + |data|
    ensures Account(Put(s, data).(pos := pos', clients := s.clients[i := c']), i, ws, [])
  {
    PutAppends(s, data);
    NothingReplayed(Put(s, data).file);
    hide Put, Progress, Replayed, LeftAfter, Written;
  }

  /** What the account says of a client in its receive loop. */
  lemma ReceivingAccount(s: State, i: nat, ws: seq<nat>, ts: seq<Transfer>)
    requires Account(s, i, ws, ts) && s.clients[i].pc == Receiving
    ensures var c := s.clients[i];
            && c.turn < |s.sections| && Progress(c, s.sections[c.turn].data, ws, ts)
            && s.pos <= |s.file| && ts == [] && c.reply == []
  {
    hide Receive, Written, Taken, NoShortWrite;
  }

  lemma DataChunkAccount(s: State, i: nat, w: nat, ws: seq<nat>, ts: seq<Transfer>)
    requires i < |s.clients| && Account(s, i, ws, ts)
    requires s.clients[i].pc == Receiving && s.clients[i].turn == |s.sections| - 1
    requires Fgets(s.clients[i].rest, s.clients[i].broken).Some?
    requires SeekCommand(FirstChunk(s.clients[i].rest)).None?
    ensures s.pos <= |s.file| && Account(ReceiveChunk(s, i, w), i, ws + [w], ts)
  {
    hide Account, Progress, Fgets, SeekCommand, FirstChunk, ChunkLength, Put, ReceiveChunk;
    var c := s.clients[i];
    var chunk, rest := FirstChunk(c.rest), c.rest[ChunkLength(c.rest)..];
    ReceivingAccount(s, i, ws, ts);
    DataChunkProgress(c, s.sections[c.turn].data, w, ws, ts);
    DataChunk(s, i, w);
    if w < |chunk| {
      PutAccount(s, i, chunk[..w], c.(rest := rest, pc := Leaving(RET_ERR)), s.pos + w, ws + [w]);
    } else if EndsLine(chunk) {
      PutAccount(s, i, chunk, c.(rest := rest, pc := Replaying), 0, ws + [w]);
    } else {
      PutAccount(s, i, chunk, c.(rest := rest), s.pos + |chunk|, ws + [w]);
    }
  }

  lemma PutAppends(s: State, data: seq<byte>)
    requires s.pos <= |s.file| && s.sections != []
    ensures var s', last := Put(s, data), |s.sections| - 1;
            && |s'.sections| == |s.sections| && s'.sections[last].data == s.sections[last].data + data
            && s.pos + |data| <= |s'.file|
  {
  }

  /** Nothing more to write. */
  lemma LastAlong(all: Received, left: Received, data: seq<byte>, w: nat, ws: seq<nat>, ts: seq<Transfer>,
                  left': Received)
    requires Along(Receiving, all, left, data, ws, ts)
    requires left.chunks == [] && left.end != Line
    ensures Along(Leaving(RET_ERR), all, left', data, ws + [w], ts)
  {
    hide Taken, NoShortWrite;
    NextTaken(all.chunks, ws, w);
    NextShort(all.chunks, ws, w);
    assert |all.chunks[|ws|..]| == 0;
  }

  lemma NothingReceived(rest: seq<byte>, broken: bool)
    requires Fgets(rest, broken) == None || SeekCommand(FirstChunk(rest)).Some?
    ensures Receive(rest, broken).chunks == [] && Receive(rest, broken).end != Line
  {
    hide SeekCommand;
  }

  /** The end of the input, or a seek command, which fails on a regular file. */
  lemma LastChunkProgress(c: Client, data: seq<byte>, w: nat, ws: seq<nat>, ts: seq<Transfer>, rest: seq<byte>)
    requires Progress(c, data, ws, ts) && c.pc == Receiving
    requires Fgets(c.rest, c.broken) == None || SeekCommand(FirstChunk(c.rest)).Some?
    ensures Progress(c.(rest := rest, pc := Leaving(RET_ERR)), data, ws + [w], ts)
  {
    hide Receive, SeekCommand, Fgets, FirstChunk, Along;
    NothingReceived(c.rest, c.broken);
    LastAlong(Receive(c.sent, c.broken), Receive(c.rest, c.broken), data, w, ws, ts, Receive(rest, c.broken));
  }

  lemma LastChunkAccount(s: State, i: nat, w: nat, ws: seq<nat>, ts: seq<Transfer>)
    requires Account(s, i, ws, ts) && s.clients[i].pc == Receiving && s.sections != []
    requires var c := s.clients[i];
             Fgets(c.rest, c.broken) == None || SeekCommand(FirstChunk(c.rest)).Some?
    ensures s.pos <= |s.file| && Account(ReceiveChunk(s, i, w), i, ws + [w], ts)
  {
    hide Progress, SeekCommand, ChunkLength;
    var c := s.clients[i];
    ReceivingAccount(s, i, ws, ts);
    LastChunkProgress(c, s.sections[c.turn].data, w, ws, ts, c.rest);
    LastChunkProgress(c, s.sections[c.turn].data, w, ws, ts, c.rest[ChunkLength(c.rest)..]);
    NothingReplayed(s.file);
  }

  lemma NextSent(ts: seq<Transfer>, t: Transfer)
    ensures AllSent(ts + [t]) <==> AllSent(ts) && t == Sent
    ensures Sends(ts + [t]) == |ts|
  {
    if AllSent(ts + [t]) {
      assert forall k :: 0 <= k < |ts| ==> (ts + [t])[k] == ts[k];
      assert (ts + [t])[|ts|] == t;
    }
  }

  /** A turn of the replay loop writes nothing; it fails as its transfer does. */
  lemma ReplyProgress(c: Client, data: seq<byte>, ws: seq<nat>, ts: seq<Transfer>, t: Transfer, reply: seq<byte>)
    requires Progress(c, data, ws, ts) && c.pc == Replaying
    ensures if t == Sent then
              && Progress(c.(reply := reply), data, ws, ts + [t])
              && Progress(c.(pc := Leaving(RET_OK)), data, ws, ts + [t])
            else Progress(c.(pc := Leaving(RET_ERR)), data, ws, ts + [t])
  {
    hide Receive, Taken, NoShortWrite, AllSent;
    NextSent(ts, t);
  }

  lemma ReplyShown(c: Client, ts: seq<Transfer>, t: Transfer, ret: Ret, file: seq<byte>, pos: nat,
                   history: seq<byte>, atEnd: bool, pos': nat)
    requires Shown(c, ts, file, pos, history, atEnd) && c.pc == Replaying
    ensures Shown(c.(pc := Leaving(ret)), ts + [t], file, pos', history, atEnd)
    ensures var left := file[pos..];
            left != [] ==>
              && pos + ChunkLength(left) <= |file|
              && Shown(c.(reply := c.reply + CString(FirstChunk(left))), ts + [t], file, pos + ChunkLength(left),
                       history, atEnd)
  {
    var left := file[pos..];
    hide FirstChunk, CString, Replayed, LeftAfter, NewlineIndex, AllSent;
    NextReplayed(file, |ts|);
    NextSent(ts, t);
    if left != [] {
      assert file[pos + ChunkLength(left)..] == left[ChunkLength(left)..];
    }
  }

  lemma ReplyAccount(s: State, i: nat, transfer: Transfer, ws: seq<nat>, ts: seq<Transfer>)
    requires Account(s, i, ws, ts) && s.clients[i].pc == Replaying
    requires transfer == SendFailed ==> s.pos < |s.file|
    ensures s.pos <= |s.file| && Account(SendChunk(s, i, transfer), i, ws, ts + [transfer])
  {
    hide Progress, Shown, NewlineIndex, FirstChunk, CString, Written;
    var c, left := s.clients[i], s.file[s.pos..];
    var data, history := s.sections[c.turn].data, Written(s.sections[..c.turn + 1]);
    var pos' := SendChunk(s, i, transfer).pos;
    ReplyProgress(c, data, ws, ts, transfer, c.reply + CString(FirstChunk(left)));
    ReplyShown(c, ts, transfer, RET_OK, s.file, s.pos, history, s.atEnd, pos');
    ReplyShown(c, ts, transfer, RET_ERR, s.file, s.pos, history, s.atEnd, pos');
    NextChunkOf(left);
  }

  lemma NextChunkOf(left: seq<byte>)
    ensures left == [] ==> Fgets(left, false) == None
    ensures left != [] ==>
              Fgets(left, false) == Some(FirstChunk(left)) && |FirstChunk(left)| == ChunkLength(left) <= |left|
  {
  }

  lemma DoneProgress(c: Client, data: seq<byte>, ws: seq<nat>, ts: seq<Transfer>)
    requires Progress(c, data, ws, ts) && c.pc.Leaving?
    ensures Progress(c.(pc := Done(c.pc.ret)), data, ws, ts)
  {
    hide Receive, Taken, LeftWith;
  }

  lemma UnlockAccount(s: State, i: nat, ws: seq<nat>, ts: seq<Transfer>)
    requires Account(s, i, ws, ts) && i < |s.clients| && s.clients[i].pc.Leaving?
    requires s.clients[i].turn == |s.sections| - 1 && (s.atEnd ==> s.file == Written(s.sections))
    ensures Account(WithPc(s, i, Done(s.clients[i].pc.ret)).(holder := Nobody), i, ws, ts)
  {
    hide Progress, Written, Replayed, LeftAfter;
    var c := s.clients[i];
    DoneProgress(c, s.sections[c.turn].data, ws, ts);
    assert s.sections[..c.turn + 1] == s.sections;
  }

  lemma OwnStepAccount(s: State, step: Step, i: nat, ws: seq<nat>, ts: seq<Transfer>)
    requires Invariant(s) && CanStep(s, step) && Account(s, i, ws, ts) && Own(step, i)
    ensures Account(Next(s, step), i, ws + WriteOf(step, i), ts + TransferOf(step, i))
  {
    assert ws + [] == ws && ts + [] == ts;
    match step
    case Lock(_) => LockAccount(s, i, ws, ts);
    case Unlock(_) =>
      OthersAreOutside(s, i);
      hide Account, ClientOk, StampsOk, Written;
      UnlockAccount(s, i, ws, ts);
    case Reply(_, transfer) =>
      hide Invariant, Account, SendChunk;
      ReplyAccount(s, i, transfer, ws, ts);
    case Chunk(_, w) =>
      OthersAreOutside(s, i);
      hide Invariant, Account, ReceiveChunk, Fgets, FirstChunk, SeekCommand;
      var c := s.clients[i];
      if Fgets(c.rest, c.broken) == None || SeekCommand(FirstChunk(c.rest)).Some? {
        LastChunkAccount(s, i, w, ws, ts);
      } else {
        DataChunkAccount(s, i, w, ws, ts);
      }
  }

  lemma StepAccount(s: State, step: Step, i: nat, ws: seq<nat>, ts: seq<Transfer>)
    requires Invariant(s) && CanStep(s, step) && Account(s, i, ws, ts)
    ensures Account(Next(s, step), i, ws + WriteOf(step, i), ts + TransferOf(step, i))
  {
    assert i < |s.clients|;
    hide Invariant, Account, Next, Enabled;
    if Own(step, i) {
      OwnStepAccount(s, step, i, ws, ts);
    } else {
      OthersKeepAccount(s, step, i, ws, ts);
      assert ws + [] == ws && ts + [] == ts;
    }
  }

  lemma {:induction false} RunAccount(s: State, steps: seq<Step>, i: nat, ws: seq<nat>, ts: seq<Transfer>)
    requires Invariant(s) && Account(s, i, ws, ts) && Run(s, steps).Some?
    ensures Account(Run(s, steps).value, i, ws + Writes(steps, i), ts + Transfers(steps, i))
    decreases |steps|
  {
    hide Invariant, Account, Next, Enabled, WriteOf, TransferOf;
    if steps == [] {
      assert ws + [] == ws && ts + [] == ts;
    } else {
      var w, t := WriteOf(steps[0], i), TransferOf(steps[0], i);
      StepKeeps(s, steps[0]);
      StepAccount(s, steps[0], i, ws, ts);
      RunAccount(Next(s, steps[0]), steps[1..], i, ws + w, ts + t);
      assert ws + w + Writes(steps[1..], i) == ws + (w + Writes(steps[1..], i));
      assert ts + t + Transfers(steps[1..], i) == ts + (t + Transfers(steps[1..], i));
    }
  }

  lemma InitialAccount(inputs: seq<Input>, i: nat)
    requires i < |inputs|
    ensures Account(Initial(inputs), i, [], [])
  {
    hide Receive;
  }

  /** What client i has got, against its input and its own steps; `clean` says that all writes of the
      run have appended. */
  ghost predicate Outcome(s: State, i: nat, all: Received, ws: seq<nat>, ts: seq<Transfer>, clean: bool) {
    && i < |s.clients|
    && var c := s.clients[i];
       && (c.pc.Leaving? || c.pc.Done? ==>
             (c.pc.ret == RET_OK <==> all.end == Line && NoShortWrite(all.chunks, ws) && AllSent(ts)))
       && (c.pc != Waiting ==>
             c.turn < |s.sections| && s.sections[c.turn] == Section(FromClient(i), Taken(all.chunks, ws)))
       && ((c.pc.Leaving? || c.pc.Done?) && NoShortWrite(all.chunks, ws) ==>
             Taken(all.chunks, ws) == Concat(all.chunks))
       && (c.pc.Leaving? ==> c.reply == Replayed(s.file, Sends(ts)))
       && (c.pc.Done? && clean ==> c.reply == Replayed(Written(s.sections[..c.turn + 1]), Sends(ts)))
  }

  lemma FinalOutcome(s: State, i: nat, ws: seq<nat>, ts: seq<Transfer>)
    requires Account(s, i, ws, ts)
    requires i < |s.clients| && (s.clients[i].pc != Waiting ==>
               s.clients[i].turn < |s.sections| && s.sections[s.clients[i].turn].author == FromClient(i))
    ensures Outcome(s, i, Receive(s.clients[i].sent, s.clients[i].broken), ws, ts, s.atEnd)
  {
    hide Receive, Taken, Written;
    var c := s.clients[i];
    var all := Receive(c.sent, c.broken);
    if (c.pc.Leaving? || c.pc.Done?) && NoShortWrite(all.chunks, ws) {
      AllTaken(all.chunks, ws);
    }
  }

  lemma ReachedAccount(inputs: seq<Input>, steps: seq<Step>, i: nat)
    requires forall k :: 0 <= k < |inputs| ==> NulFree(inputs[k].sent)
    requires Run(Initial(inputs), steps).Some? && i < |inputs|
    ensures Account(Run(Initial(inputs), steps).value, i, Writes(steps, i), Transfers(steps, i))
  {
    hide Run, Account, Invariant;
    InitialInvariant(inputs);
    InitialAccount(inputs, i);
    RunAccount(Initial(inputs), steps, i, [], []);
    assert [] + Writes(steps, i) == Writes(steps, i) && [] + Transfers(steps, i) == Transfers(steps, i);
  }

  lemma SectionAuthor(s: State, i: nat)
    requires Invariant(s) && i < |s.clients|
    ensures s.clients[i].pc != Waiting ==>
              s.clients[i].turn < |s.sections| && s.sections[s.clients[i].turn].author == FromClient(i)
  {
    hide WroteItsChunks, RepliedFromFile, StampsOk;
    assert ClientOk(s, i);
  }

  /** What a client of any run gets, as a function of its own input and steps. A client that has left
      succeeded if and only if its input ended in a line, none of its writes was short and none of
      its transfers failed. Its section holds what the stream took of its chunks, all of them if no
      write was short. It was sent as many chunks of the file as its transfers succeeded. */
  lemma ClientOutcome(inputs: seq<Input>, steps: seq<Step>, i: nat)
    requires forall k :: 0 <= k < |inputs| ==> NulFree(inputs[k].sent)
    requires Run(Initial(inputs), steps).Some? && i < |inputs|
    ensures Outcome(Run(Initial(inputs), steps).value, i, Receive(inputs[i].sent, inputs[i].broken),
                    Writes(steps, i), Transfers(steps, i), NoWriteAfterShortReplay(Initial(inputs), steps))
  {
    hide Run, Invariant, NoWriteAfterShortReplay, Receive, Account, Outcome, Writes, Transfers;
    ReachedState(inputs, steps);
    ReachedAccount(inputs, steps, i);
    var s := Run(Initial(inputs), steps).value;
    SectionAuthor(s, i);
    FinalOutcome(s, i, Writes(steps, i), Transfers(steps, i));
  }
}
