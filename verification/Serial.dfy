// The file build: client threads and the clock thread share one FILE stream under one mutex.
// Every interleaving of their steps is a run of this state machine.
module Serial {
  import opened Bytes
  import opened SeekText
  import opened Framing

  /** Where a client thread is: before the lock, in the two loops of server_protocol, or past it. */
  datatype Pc = Waiting | Receiving | Replaying | Leaving(ret: Ret) | Done(ret: Ret)

  /** sent is what the client sends in all, rest what is still unread; turn numbers its section. */
  datatype Client = Client(sent: seq<byte>, broken: bool, rest: seq<byte>, pc: Pc, reply: seq<byte>, turn: nat)

  datatype Clock = Idle | Formatted(stamp: seq<byte>) | Writing(stamp: seq<byte>) | Stopping(ret: Ret) | Stopped

  datatype Holder = Nobody | ClientHolds(i: nat) | ClockHolds

  datatype Author = FromClient(i: nat) | FromClock(stamp: seq<byte>)

  /** What one critical section has written so far. */
  datatype Section = Section(author: Author, data: seq<byte>)

  /** file and pos are the stream; sections is the history in lock order; atEnd says that every
      non-empty write so far started at the end of the file. */
  datatype State = State(
    file: seq<byte>, pos: nat, holder: Holder, clients: seq<Client>, clock: Clock,
    sections: seq<Section>, atEnd: bool)

  datatype Transfer = Sent | SendFailed | ReadFailed

  /** One step of some thread; `written` is how much of a write the stream takes. A turn of the
      replay loop can fail to send only if there is something left to send. */
  datatype Step =
    | Lock(i: nat)
    | Chunk(i: nat, written: nat)
    | Reply(i: nat, transfer: Transfer)
    | Unlock(i: nat)
    | Tick(stamp: seq<byte>)
    | ClockLock
    | ClockWrite(written: nat)
    | ClockUnlock

  function NewClient(sent: seq<byte>, broken: bool): Client {
    Client(sent, broken, sent, Waiting, [], 0)
  }

  // ---- the stream ----

  /** Writing at pos replaces what is there and extends the file as needed. */
  function WriteAt(file: seq<byte>, pos: nat, data: seq<byte>): (f: seq<byte>)
    requires pos <= |file|
    ensures |f| == if pos + |data| < |file| then |file| else pos + |data|
    ensures forall k :: 0 <= k < |f| ==> f[k] == if pos <= k < pos + |data| then data[k - pos] else file[k]
  {
    file[..pos] + data + (if pos + |data| < |file| then file[pos + |data|..] else [])
  }

  /** A non-empty write appends exactly when it starts at the end of the file. */
  lemma WriteAppendsIffAtEnd(file: seq<byte>, pos: nat, data: seq<byte>)
    requires pos <= |file| && data != []
    ensures |WriteAt(file, pos, data)| <= |file| + |data|
    ensures WriteAt(file, pos, data) == file + data <==> pos == |file|
    ensures pos < |file| ==> |WriteAt(file, pos, data)| < |file| + |data|
  {
  }

  /** The current critical section writes data. */
  function Put(s: State, data: seq<byte>): State
    requires s.pos <= |s.file| && s.sections != []
  {
    var last := |s.sections| - 1;
    s.(file := WriteAt(s.file, s.pos, data),
       pos := s.pos + |data|,
       sections := s.sections[last := Section(s.sections[last].author, s.sections[last].data + data)],
       atEnd := s.atEnd && (data == [] || s.pos == |s.file|))
  }

  function WithPc(s: State, i: nat, pc: Pc): State
    requires i < |s.clients|
  {
    s.(clients := s.clients[i := s.clients[i].(pc := pc)])
  }

  // ---- the steps ----

  ghost predicate Enabled(s: State, step: Step) {
    match step
    case Lock(i) => i < |s.clients| && s.clients[i].pc == Waiting && s.holder == Nobody
    case Chunk(i, _) => i < |s.clients| && s.clients[i].pc == Receiving && s.holder == ClientHolds(i)
    case Reply(i, transfer) =>
      && i < |s.clients| && s.clients[i].pc == Replaying && s.holder == ClientHolds(i)
      && (transfer == SendFailed ==> s.pos < |s.file|)
    case Unlock(i) => i < |s.clients| && s.clients[i].pc.Leaving? && s.holder == ClientHolds(i)
    case Tick(stamp) => s.clock == Idle && NulFree(stamp)
    case ClockLock => s.clock.Formatted? && s.holder == Nobody
    case ClockWrite(_) => s.clock.Writing? && s.holder == ClockHolds
    case ClockUnlock => s.clock.Stopping? && s.holder == ClockHolds
  }

  /** One turn of the receive loop; the seek ioctl fails on a regular file. */
  function ReceiveChunk(s: State, i: nat, written: nat): State
    requires i < |s.clients| && s.pos <= |s.file| && s.sections != []
  {
    var c := s.clients[i];
    match Fgets(c.rest, c.broken)
    case None => WithPc(s, i, Leaving(RET_ERR))
    case Some(chunk) =>
      var rest := c.rest[|chunk|..];
      if SeekCommand(chunk).Some? then
        s.(clients := s.clients[i := c.(rest := rest, pc := Leaving(RET_ERR))])
      else if written < |chunk| then
        Put(s, chunk[..written]).(clients := s.clients[i := c.(rest := rest, pc := Leaving(RET_ERR))])
      else if EndsLine(chunk) then
        Put(s, chunk).(pos := 0, clients := s.clients[i := c.(rest := rest, pc := Replaying)])
      else
        Put(s, chunk).(clients := s.clients[i := c.(rest := rest)])
  }

  /** One turn of the replay loop. */
  function SendChunk(s: State, i: nat, transfer: Transfer): State
    requires i < |s.clients| && s.pos <= |s.file|
  {
    var c := s.clients[i];
    if transfer == ReadFailed then WithPc(s, i, Leaving(RET_ERR))
    else
      match Fgets(s.file[s.pos..], false)
      case None => WithPc(s, i, Leaving(RET_OK))
      case Some(chunk) =>
        if transfer == SendFailed then
          WithPc(s, i, Leaving(RET_ERR)).(pos := s.pos + |chunk|)
        else
          s.(pos := s.pos + |chunk|, clients := s.clients[i := c.(reply := c.reply + CString(chunk))])
  }

  ghost function Next(s: State, step: Step): State
    requires Enabled(s, step) && s.pos <= |s.file| && (s.holder != Nobody ==> s.sections != [])
  {
    match step
    case Lock(i) =>
      s.(holder := ClientHolds(i),
         sections := s.sections + [Section(FromClient(i), [])],
         clients := s.clients[i := s.clients[i].(pc := Receiving, turn := |s.sections|)])
    case Chunk(i, written) => ReceiveChunk(s, i, written)
    case Reply(i, transfer) => SendChunk(s, i, transfer)
    case Unlock(i) => WithPc(s, i, Done(s.clients[i].pc.ret)).(holder := Nobody)
    case Tick(stamp) => s.(clock := Formatted(stamp))
    case ClockLock =>
      s.(holder := ClockHolds, clock := Writing(s.clock.stamp),
         sections := s.sections + [Section(FromClock(s.clock.stamp), [])])
    case ClockWrite(written) =>
      var stamp := s.clock.stamp;
      if written < |stamp| then Put(s, stamp[..written]).(clock := Stopping(RET_ERR))
      else Put(s, stamp).(clock := Stopping(RET_OK))
    case ClockUnlock =>
      s.(holder := Nobody, clock := if s.clock.ret == RET_OK then Idle else Stopped)
  }

  // ---- the invariant ----

  ghost function Datas(sections: seq<Section>): (ds: seq<seq<byte>>)
    ensures |ds| == |sections|
  {
    seq(|sections|, k requires 0 <= k < |sections| => sections[k].data)
  }

  /** Everything written by the sections, in lock order. */
  ghost function Written(sections: seq<Section>): seq<byte> {
    Concat(Datas(sections))
  }

  predicate InCriticalSection(pc: Pc) {
    pc.Receiving? || pc.Replaying? || pc.Leaving?
  }

  ghost predicate MutualExclusion(s: State) {
    && (forall i :: 0 <= i < |s.clients| ==> (InCriticalSection(s.clients[i].pc) <==> s.holder == ClientHolds(i)))
    && (s.holder.ClientHolds? ==> s.holder.i < |s.clients|)
    && (s.clock.Writing? || s.clock.Stopping? <==> s.holder == ClockHolds)
  }

  /** A client that has had the lock owns one section; the holder owns the last one. */
  ghost predicate OwnsSection(s: State, i: nat)
    requires i < |s.clients|
  {
    var c := s.clients[i];
    c.pc != Waiting ==>
      && c.turn < |s.sections|
      && s.sections[c.turn].author == FromClient(i)
      && (InCriticalSection(c.pc) ==> c.turn == |s.sections| - 1)
  }

  /** The data is everything the receive loop writes for this client, ending its line. */
  ghost predicate WroteAll(c: Client, data: seq<byte>) {
    var all := Receive(c.sent, c.broken);
    data == Concat(all.chunks) && all.end == Line
  }

  /** What a client has written so far against the receive loop as a function of its input. */
  ghost predicate WroteItsChunks(s: State, i: nat)
    requires i < |s.clients| && OwnsSection(s, i)
  {
    var c := s.clients[i];
    match c.pc
    case Waiting => c.rest == c.sent
    case Receiving =>
      var all, r := Receive(c.sent, c.broken), Receive(c.rest, c.broken);
      && Concat(all.chunks) == s.sections[c.turn].data + Concat(r.chunks)
      && all.end == r.end
    case Replaying => WroteAll(c, s.sections[c.turn].data)
    case Leaving(ret) => ret == RET_OK ==> WroteAll(c, s.sections[c.turn].data)
    case Done(ret) => ret == RET_OK ==> WroteAll(c, s.sections[c.turn].data)
  }

  /** The reply so far is the file up to the position, and a finished one the whole file; if all
      writes append, it is all that was written up to and including the client's own section. */
  ghost predicate RepliedFromFile(s: State, i: nat)
    requires i < |s.clients| && OwnsSection(s, i) && s.pos <= |s.file|
  {
    var c := s.clients[i];
    match c.pc
    case Waiting => c.reply == []
    case Receiving => c.reply == []
    case Replaying => c.reply == s.file[..s.pos]
    case Leaving(ret) =>
      && c.reply <= s.file
      && (ret == RET_OK ==> c.reply == s.file && (s.atEnd ==> c.reply == Written(s.sections[..c.turn + 1])))
    case Done(ret) =>
      s.atEnd ==>
        && c.reply <= Written(s.sections[..c.turn + 1])
        && (ret == RET_OK ==> c.reply == Written(s.sections[..c.turn + 1]))
  }

  ghost predicate ClientOk(s: State, i: nat)
    requires i < |s.clients| && s.pos <= |s.file|
  {
    OwnsSection(s, i) && WroteItsChunks(s, i) && RepliedFromFile(s, i)
  }

  /** The stream: positions stay inside, and the file is the history exactly when all writes append. */
  ghost predicate StreamOk(s: State) {
    && s.pos <= |s.file|
    && NulFree(s.file)
    && (if s.atEnd then s.file == Written(s.sections) else |s.file| < |Written(s.sections)|)
  }

  ghost predicate InputsNulFree(s: State) {
    && (forall i :: 0 <= i < |s.clients| ==> NulFree(s.clients[i].sent) && NulFree(s.clients[i].rest))
    && (s.clock.Formatted? || s.clock.Writing? ==> NulFree(s.clock.stamp))
  }

  /** No section after k is the clock's. */
  ghost predicate LastOfClock(s: State, k: nat)
    requires k < |s.sections|
  {
    forall j :: k < j < |s.sections| ==> s.sections[j].author.FromClient?
  }

  /** Only the clock's last timestamp may be incomplete: while it is being written, or for good once
      its write has failed and stopped the clock. */
  ghost predicate StampOk(s: State, k: nat)
    requires k < |s.sections|
  {
    var section := s.sections[k];
    section.author.FromClock? ==>
      || section.data == section.author.stamp
      || (&& section.data <= section.author.stamp
          && if s.clock == Stopped then LastOfClock(s, k)
             else k == |s.sections| - 1 && (s.clock.Writing? || s.clock == Stopping(RET_ERR)))
  }

  ghost predicate StampsOk(s: State) {
    forall k :: 0 <= k < |s.sections| ==> StampOk(s, k)
  }

  /** While the clock holds the lock, the last section is its own. */
  ghost predicate ClockOwnsSection(s: State) {
    s.holder == ClockHolds ==>
      && s.sections != []
      && var last := s.sections[|s.sections| - 1];
         && last.author.FromClock?
         && (s.clock.Writing? ==> last == Section(FromClock(s.clock.stamp), []))
  }

  ghost predicate Invariant(s: State) {
    && MutualExclusion(s)
    && ClockOwnsSection(s)
    && StampsOk(s)
    && (s.holder != Nobody ==> s.sections != [])
    && StreamOk(s)
    && InputsNulFree(s)
    && (forall i :: 0 <= i < |s.clients| ==> ClientOk(s, i))
  }

  // ---- writing inside a critical section ----

  lemma DatasAppend(a: seq<Section>, b: seq<Section>)
    ensures Datas(a + b) == Datas(a) + Datas(b)
    ensures Written(a + b) == Written(a) + Written(b)
  {
    assert Datas(a + b) == Datas(a) + Datas(b);
    ConcatAppend(Datas(a), Datas(b));
  }

  lemma WrittenOne(x: Section)
    ensures Written([x]) == x.data
  {
    ConcatOne(x.data);
    assert Datas([x]) == [x.data];
  }

  /** Growing the last section grows the history at its end and leaves earlier prefixes alone. */
  lemma GrowLast(sections: seq<Section>, data: seq<byte>)
    requires sections != []
    ensures var last := |sections| - 1;
            var grown := sections[last := Section(sections[last].author, sections[last].data + data)];
            && Written(grown) == Written(sections) + data
            && grown[..last] == sections[..last]
  {
    var last := |sections| - 1;
    var x := Section(sections[last].author, sections[last].data + data);
    var grown := sections[last := x];
    assert grown == sections[..last] + [x];
    assert sections == sections[..last] + [sections[last]];
    DatasAppend(sections[..last], [x]);
    DatasAppend(sections[..last], [sections[last]]);
    WrittenOne(x);
    WrittenOne(sections[last]);
  }

  /** The stream after a write, before any rewind. */
  lemma PutKeepsStream(s: State, data: seq<byte>)
    requires s.pos <= |s.file| && s.sections != [] && NulFree(s.file) && NulFree(data)
    requires if s.atEnd then s.file == Written(s.sections) else |s.file| < |Written(s.sections)|
    ensures var s' := Put(s, data);
            && s'.pos <= |s'.file| && NulFree(s'.file)
            && (if s'.atEnd then s'.file == Written(s'.sections) else |s'.file| < |Written(s'.sections)|)
            && (s.pos == |s.file| ==> s'.pos == |s'.file| && s'.atEnd == s.atEnd)
  {
    GrowLast(s.sections, data);
    if data == [] {
      assert WriteAt(s.file, s.pos, data) == s.file;
    } else {
      WriteAppendsIffAtEnd(s.file, s.pos, data);
    }
  }

  // ---- clients outside the critical section are untouched ----

  /** A step that leaves client j and its part of the history alone keeps what holds of j. */
  lemma ClientUntouched(s: State, s': State, j: nat)
    requires s.pos <= |s.file| && s'.pos <= |s'.file|
    requires j < |s.clients| == |s'.clients| && s'.clients[j] == s.clients[j]
    requires !InCriticalSection(s.clients[j].pc) && ClientOk(s, j)
    requires s.clients[j].pc != Waiting ==>
               var t := s.clients[j].turn;
               t < |s'.sections| && s'.sections[..t + 1] == s.sections[..t + 1]
    requires s'.atEnd ==> s.atEnd
    ensures ClientOk(s', j)
  {
    if s.clients[j].pc != Waiting {
      var t := s.clients[j].turn;
      assert s'.sections[t] == s'.sections[..t + 1][t];
      assert s.sections[t] == s.sections[..t + 1][t];
    }
  }

  /** Someone else's finished section is not the last one while a client or the clock writes. */
  lemma NotTheLast(s: State, j: nat)
    requires s.pos <= |s.file| && j < |s.clients| && ClientOk(s, j)
    requires s.clients[j].pc.Done? && s.sections != []
    requires s.sections[|s.sections| - 1].author != FromClient(j)
    ensures s.clients[j].turn < |s.sections| - 1
  {
  }

  // ---- timestamps stay whole ----

  lemma SameSectionsSameStamps(s: State, s': State)
    requires StampsOk(s) && s'.sections == s.sections && s'.clock == s.clock
    ensures StampsOk(s')
  {
    forall k | 0 <= k < |s'.sections|
      ensures StampOk(s', k)
    {
      assert StampOk(s, k);
    }
  }

  /** A client that enters the lock opens a section of its own. */
  lemma OpenSectionKeepsStamps(s: State, s': State)
    requires StampsOk(s) && s'.clock == s.clock && !s.clock.Writing? && !s.clock.Stopping?
    requires |s'.sections| == |s.sections| + 1 && s'.sections[..|s.sections|] == s.sections
    requires s'.sections[|s.sections|].author.FromClient?
    ensures StampsOk(s')
  {
    forall k | 0 <= k < |s'.sections|
      ensures StampOk(s', k)
    {
      if k < |s.sections| {
        assert StampOk(s, k);
        assert forall j :: 0 <= j < |s.sections| ==> s'.sections[j] == s.sections[j];
      }
    }
  }

  /** A client's write changes only its own section, the last one. */
  lemma ClientWriteKeepsStamps(s: State, s': State)
    requires StampsOk(s) && s'.clock == s.clock && !s.clock.Writing? && !s.clock.Stopping?
    requires |s'.sections| == |s.sections| > 0
    requires s'.sections[..|s.sections| - 1] == s.sections[..|s.sections| - 1]
    requires s.sections[|s.sections| - 1].author.FromClient? && s'.sections[|s.sections| - 1].author.FromClient?
    ensures StampsOk(s')
  {
    var last := |s.sections| - 1;
    forall k | 0 <= k < |s'.sections|
      ensures StampOk(s', k)
    {
      if k < last {
        assert StampOk(s, k);
        assert forall j :: 0 <= j < last ==> s'.sections[j] == s.sections[..last][j];
      }
    }
  }

  /** The clock enters when every timestamp is whole, and its new one is still empty. */
  lemma ClockOpensSection(s: State, s': State)
    requires StampsOk(s) && s.clock.Formatted? && s'.clock == Writing(s.clock.stamp)
    requires s'.sections == s.sections + [Section(FromClock(s.clock.stamp), [])]
    ensures StampsOk(s')
  {
    forall k | 0 <= k < |s'.sections|
      ensures StampOk(s', k)
    {
      if k < |s.sections| {
        assert StampOk(s, k);
      }
    }
  }

  /** The clock's write leaves a whole timestamp, or a beginning of it and a stopping clock. */
  lemma ClockWriteKeepsStamps(s: State, s': State, ret: Ret)
    requires StampsOk(s) && s.clock.Writing? && s'.clock == Stopping(ret) && |s'.sections| == |s.sections| > 0
    requires s'.sections[..|s.sections| - 1] == s.sections[..|s.sections| - 1]
    requires s'.sections[|s.sections| - 1].author == FromClock(s.clock.stamp)
    requires s'.sections[|s.sections| - 1].data <= s.clock.stamp
    requires ret == RET_OK ==> s'.sections[|s.sections| - 1].data == s.clock.stamp
    ensures StampsOk(s')
  {
    var last := |s.sections| - 1;
    forall k | 0 <= k < |s'.sections|
      ensures StampOk(s', k)
    {
      if k < last {
        assert StampOk(s, k);
        assert s'.sections[k] == s.sections[..last][k];
      }
    }
  }

  /** Ticking keeps the timestamps whole, and so does the clock leaving. */
  lemma ClockMovesOn(s: State, s': State)
    requires StampsOk(s) && s'.sections == s.sections
    requires || (s.clock == Idle && s'.clock.Formatted?)
             || (s.clock == Stopping(RET_OK) && s'.clock == Idle)
             || (s.clock == Stopping(RET_ERR) && s'.clock == Stopped)
    ensures StampsOk(s')
  {
    forall k | 0 <= k < |s'.sections|
      ensures StampOk(s', k)
    {
      assert StampOk(s, k);
    }
  }

  // ---- every step keeps the invariant ----

  /** Opening a section writes nothing. */
  lemma OpenSection(sections: seq<Section>, author: Author)
    ensures Written(sections + [Section(author, [])]) == Written(sections)
  {
    DatasAppend(sections, [Section(author, [])]);
    WrittenOne(Section(author, []));
  }

  lemma NoReaderOutside(s: State)
    requires MutualExclusion(s) && !s.holder.ClientHolds?
    ensures forall j :: 0 <= j < |s.clients| ==> !InCriticalSection(s.clients[j].pc)
  {
  }

  lemma LockKeeps(s: State, i: nat)
    requires Invariant(s) && Enabled(s, Lock(i))
    ensures Invariant(Next(s, Lock(i)))
  {
    hide Receive, Concat;
    var s' := Next(s, Lock(i));
    OpenSection(s.sections, FromClient(i));
    NoReaderOutside(s);
    assert ClientOk(s, i);
    LockedClientOk(s, i);
    forall j | 0 <= j < |s.clients|
      ensures ClientOk(s', j)
    {
      assert ClientOk(s, j);
      if j != i {
        ClientUntouched(s, s', j);
      }
    }
    hide ClientOk, Written;
    assert StreamOk(s');
    assert StampsOk(s') by {
      OpenSectionKeepsStamps(s, s');
    }
  }

  lemma LockedClientOk(s: State, i: nat)
    requires s.pos <= |s.file| && Enabled(s, Lock(i)) && ClientOk(s, i)
    ensures ClientOk(Next(s, Lock(i)), i)
  {
    hide Receive, Concat;
  }

  /** While client i is inside, the others are untouched by what it writes and where it reads. */
  lemma OthersUntouched(s: State, s': State, i: nat)
    requires Invariant(s) && s.holder == ClientHolds(i) && s'.pos <= |s'.file|
    requires |s'.clients| == |s.clients|
    requires forall j :: 0 <= j < |s.clients| && j != i ==> s'.clients[j] == s.clients[j]
    requires |s'.sections| == |s.sections|
    requires s'.sections[..|s.sections| - 1] == s.sections[..|s.sections| - 1]
    requires s'.atEnd ==> s.atEnd
    ensures forall j :: 0 <= j < |s.clients| && j != i ==> ClientOk(s', j)
  {
    hide Receive, Concat;
    var last := |s.sections| - 1;
    forall j | 0 <= j < |s.clients| && j != i
      ensures ClientOk(s', j)
    {
      assert ClientOk(s, i) && ClientOk(s, j);
      if s.clients[j].pc != Waiting {
        NotTheLast(s, j);
        var t := s.clients[j].turn;
        assert s'.sections[..t + 1] == s'.sections[..last][..t + 1];
        assert s.sections[..t + 1] == s.sections[..last][..t + 1];
      }
      ClientUntouched(s, s', j);
    }
  }

  lemma OthersAreOutside(s: State, i: nat)
    requires Invariant(s) && s.holder == ClientHolds(i)
    ensures i < |s.clients| && forall j :: 0 <= j < |s.clients| && j != i ==> !InCriticalSection(s.clients[j].pc)
    ensures s.clients[i].turn == |s.sections| - 1 && s.sections[|s.sections| - 1].author == FromClient(i)
    ensures !s.clock.Writing? && !s.clock.Stopping?
  {
    assert ClientOk(s, i);
  }

  /** The receive loop unrolled once on the input that is left. */
  lemma ReceiveUnrolled(rest: seq<byte>, broken: bool)
    requires Fgets(rest, broken).Some? && SeekCommand(FirstChunk(rest)).None?
    ensures var c, tail := FirstChunk(rest), Receive(rest[ChunkLength(rest)..], broken);
            var r := Receive(rest, broken);
            if EndsLine(c) then Concat(r.chunks) == c && r.end == Line
            else Concat(r.chunks) == c + Concat(tail.chunks) && r.end == tail.end
  {
    var c, r := FirstChunk(rest), Receive(rest, broken);
    if EndsLine(c) {
      ConcatOne(c);
    } else {
      assert r.chunks[1..] == Receive(rest[ChunkLength(rest)..], broken).chunks;
    }
  }

  /** A chunk, or the beginning of one, goes into the file; the client moves on to `pc`. */
  lemma WriteKeeps(s: State, i: nat, data: seq<byte>, c': Client, pos': nat)
    requires Invariant(s) && s.holder == ClientHolds(i) && i < |s.clients|
    requires s.clients[i].pc == Receiving && NulFree(data)
    requires var c := s.clients[i];
             && c'.sent == c.sent && c'.broken == c.broken && c'.reply == c.reply && c'.turn == c.turn
             && NulFree(c'.rest)
    requires pos' == if c'.pc == Replaying then 0 else s.pos + |data|
    requires var all, sofar := Receive(c'.sent, c'.broken), s.sections[|s.sections| - 1].data + data;
             match c'.pc
             case Receiving =>
               var r := Receive(c'.rest, c'.broken);
               Concat(all.chunks) == sofar + Concat(r.chunks) && all.end == r.end
             case Replaying => sofar == Concat(all.chunks) && all.end == Line
             case Leaving(ret) => ret == RET_ERR
             case _ => false
    ensures Invariant(Put(s, data).(pos := pos', clients := s.clients[i := c']))
  {
    hide Receive, Concat;
    var s' := Put(s, data).(pos := pos', clients := s.clients[i := c']);
    OthersAreOutside(s, i);
    PutKeepsStream(s, data);
    GrowLast(s.sections, data);
    OthersUntouched(s, s', i);
    assert ClientOk(s, i);
    assert ClientOk(s', i);
    assert MutualExclusion(s');
    assert StreamOk(s');
    assert StampsOk(s') by {
      ClientWriteKeepsStamps(s, s');
    }
  }

  lemma ChunkIsNulFree(s: seq<byte>)
    requires NulFree(s)
    ensures NulFree(FirstChunk(s)) && NulFree(s[ChunkLength(s)..])
  {
  }

  /** What the next chunk does to the account of client i. */
  lemma ChunkAccount(c: Client, data: seq<byte>)
    requires c.pc == Receiving && NulFree(c.rest)
    requires Fgets(c.rest, c.broken).Some? && SeekCommand(FirstChunk(c.rest)).None?
    requires var all, r := Receive(c.sent, c.broken), Receive(c.rest, c.broken);
             Concat(all.chunks) == data + Concat(r.chunks) && all.end == r.end
    ensures var all, chunk, rest := Receive(c.sent, c.broken), FirstChunk(c.rest), c.rest[ChunkLength(c.rest)..];
            && NulFree(chunk) && NulFree(rest)
            && if EndsLine(chunk) then data + chunk == Concat(all.chunks) && all.end == Line
               else Concat(all.chunks) == data + chunk + Concat(Receive(rest, c.broken).chunks)
                    && all.end == Receive(rest, c.broken).end
  {
    hide Receive, SeekCommand, Fgets, FirstChunk, ChunkLength, Concat, NulFree;
    ReceiveUnrolled(c.rest, c.broken);
    ChunkIsNulFree(c.rest);
    var tail := Receive(c.rest[ChunkLength(c.rest)..], c.broken);
    assert data + (FirstChunk(c.rest) + Concat(tail.chunks)) == data + FirstChunk(c.rest) + Concat(tail.chunks);
  }

  lemma ReceivingClient(s: State, i: nat)
    requires Invariant(s) && i < |s.clients| && s.clients[i].pc == Receiving && s.holder == ClientHolds(i)
    ensures s.pos <= |s.file| && s.sections != []
    ensures var c := s.clients[i];
            var all, r := Receive(c.sent, c.broken), Receive(c.rest, c.broken);
            && NulFree(c.rest)
            && Concat(all.chunks) == s.sections[|s.sections| - 1].data + Concat(r.chunks)
            && all.end == r.end
  {
    hide Receive, Concat;
    assert ClientOk(s, i);
  }

  /** A chunk that is no seek command. */
  lemma DataChunkKeeps(s: State, i: nat, written: nat)
    requires Invariant(s) && i < |s.clients| && s.pos <= |s.file| && s.sections != []
    requires s.clients[i].pc == Receiving && s.holder == ClientHolds(i)
    requires Fgets(s.clients[i].rest, s.clients[i].broken).Some?
    requires SeekCommand(FirstChunk(s.clients[i].rest)).None?
    ensures Invariant(ReceiveChunk(s, i, written))
  {
    hide *;
    var c := s.clients[i];
    var chunk, rest := FirstChunk(c.rest), c.rest[ChunkLength(c.rest)..];
    ReceivingClient(s, i);
    ChunkAccount(c, s.sections[|s.sections| - 1].data);
    if written < |chunk| {
      PrefixIsNulFree(chunk, written);
      WriteKeeps(s, i, chunk[..written], c.(rest := rest, pc := Leaving(RET_ERR)), s.pos + written);
    } else if EndsLine(chunk) {
      WriteKeeps(s, i, chunk, c.(rest := rest, pc := Replaying), 0);
    } else {
      WriteKeeps(s, i, chunk, c.(rest := rest), s.pos + |chunk|);
    }
    DataChunk(s, i, written);
  }

  lemma PrefixIsNulFree(data: seq<byte>, n: nat)
    requires NulFree(data) && n <= |data|
    ensures NulFree(data[..n])
  {
  }

  /** The receive turn on a chunk that is no seek command, spelled out. */
  lemma DataChunk(s: State, i: nat, written: nat)
    requires i < |s.clients| && s.pos <= |s.file| && s.sections != []
    requires Fgets(s.clients[i].rest, s.clients[i].broken).Some?
    requires SeekCommand(FirstChunk(s.clients[i].rest)).None?
    ensures var c := s.clients[i];
            var chunk, rest := FirstChunk(c.rest), c.rest[ChunkLength(c.rest)..];
            ReceiveChunk(s, i, written) ==
              if written < |chunk| then
                Put(s, chunk[..written]).(pos := s.pos + written,
                                          clients := s.clients[i := c.(rest := rest, pc := Leaving(RET_ERR))])
              else if EndsLine(chunk) then
                Put(s, chunk).(pos := 0, clients := s.clients[i := c.(rest := rest, pc := Replaying)])
              else
                Put(s, chunk).(pos := s.pos + |chunk|, clients := s.clients[i := c.(rest := rest)])
  {
    hide SeekCommand;
  }

  lemma ChunkKeeps(s: State, i: nat, written: nat)
    requires Invariant(s) && Enabled(s, Chunk(i, written))
    ensures Invariant(Next(s, Chunk(i, written)))
  {
    hide Receive, SeekCommand, Written;
    var c := s.clients[i];
    OthersAreOutside(s, i);
    if Fgets(c.rest, c.broken) == None {
      LeaveWithError(s, i, c.(pc := Leaving(RET_ERR)), s.pos);
    } else if SeekCommand(FirstChunk(c.rest)).Some? {
      LeaveWithError(s, i, c.(rest := c.rest[ChunkLength(c.rest)..], pc := Leaving(RET_ERR)), s.pos);
    } else {
      DataChunkKeeps(s, i, written);
    }
  }

  /** Client i gives up; if it was in the replay loop the stream may stay in the middle. */
  lemma LeaveWithError(s: State, i: nat, c': Client, pos': nat)
    requires Invariant(s) && s.holder == ClientHolds(i) && i < |s.clients|
    requires s.clients[i].pc == Receiving || s.clients[i].pc == Replaying
    requires c'.pc == Leaving(RET_ERR) && c'.turn == s.clients[i].turn && c'.reply == s.clients[i].reply
    requires NulFree(c'.sent) && NulFree(c'.rest)
    requires pos' <= |s.file|
    ensures Invariant(s.(pos := pos', clients := s.clients[i := c']))
  {
    hide Receive, Concat;
    var s' := s.(pos := pos', clients := s.clients[i := c']);
    OthersAreOutside(s, i);
    OthersUntouched(s, s', i);
    assert ClientOk(s, i);
    assert ClientOk(s', i);
    assert StampsOk(s') by {
      SameSectionsSameStamps(s, s');
    }
  }

  /** The next chunk of a NUL-free file extends what has been sent. */
  lemma ChunkExtends(file: seq<byte>, pos: nat)
    requires pos < |file| && NulFree(file)
    ensures var left := file[pos..];
            var n := ChunkLength(left);
            && 0 < n && pos + n <= |file|
            && file[..pos] + CString(FirstChunk(left)) == file[..pos + n]
  {
    var left := file[pos..];
    var n := ChunkLength(left);
    assert CString(FirstChunk(left)) == left[..n];
    hide NewlineIndex, CString, FirstChunk, ChunkLength;
    assert file[..pos] + left[..n] == file[..pos + n];
  }

  /** Sending one more chunk. */
  lemma SendKeeps(s: State, i: nat)
    requires Invariant(s) && s.holder == ClientHolds(i) && i < |s.clients|
    requires s.clients[i].pc == Replaying && s.pos < |s.file|
    ensures var c, left := s.clients[i], s.file[s.pos..];
            Invariant(s.(pos := s.pos + ChunkLength(left),
                         clients := s.clients[i := c.(reply := c.reply + CString(FirstChunk(left)))]))
  {
    hide Receive, Concat, ChunkLength, FirstChunk, CString, NewlineIndex, Written;
    var c, left := s.clients[i], s.file[s.pos..];
    var s' := s.(pos := s.pos + ChunkLength(left),
                 clients := s.clients[i := c.(reply := c.reply + CString(FirstChunk(left)))]);
    ChunkExtends(s.file, s.pos);
    OthersAreOutside(s, i);
    OthersUntouched(s, s', i);
    assert ClientOk(s, i);
    assert ClientOk(s', i);
    assert StampsOk(s') by {
      SameSectionsSameStamps(s, s');
    }
  }

  /** Reaching the end of the file. */
  lemma FinishKeeps(s: State, i: nat)
    requires Invariant(s) && s.holder == ClientHolds(i) && i < |s.clients|
    requires s.clients[i].pc == Replaying && s.pos == |s.file|
    ensures Invariant(WithPc(s, i, Leaving(RET_OK)))
  {
    hide Receive, Concat;
    var s' := WithPc(s, i, Leaving(RET_OK));
    OthersAreOutside(s, i);
    OthersUntouched(s, s', i);
    assert ClientOk(s, i);
    assert s.file[..s.pos] == s.file;
    assert s.sections[..s.clients[i].turn + 1] == s.sections;
    assert ClientOk(s', i);
    assert StampsOk(s') by {
      SameSectionsSameStamps(s, s');
    }
  }

  lemma ReplyKeeps(s: State, i: nat, transfer: Transfer)
    requires Invariant(s) && Enabled(s, Reply(i, transfer))
    ensures Invariant(Next(s, Reply(i, transfer)))
  {
    hide Receive, Concat, NewlineIndex, CString;
    var c, left := s.clients[i], s.file[s.pos..];
    OthersAreOutside(s, i);
    assert ClientOk(s, i);
    if transfer == ReadFailed {
      LeaveWithError(s, i, c.(pc := Leaving(RET_ERR)), s.pos);
    } else if left == [] {
      FinishKeeps(s, i);
    } else if transfer == SendFailed {
      LeaveWithError(s, i, c.(pc := Leaving(RET_ERR)), s.pos + ChunkLength(left));
    } else {
      SendKeeps(s, i);
    }
  }

  lemma UnlockKeeps(s: State, i: nat)
    requires Invariant(s) && Enabled(s, Unlock(i))
    ensures Invariant(Next(s, Unlock(i)))
  {
    hide Receive, Concat;
    var s' := Next(s, Unlock(i));
    OthersAreOutside(s, i);
    OthersUntouched(s, s', i);
    assert ClientOk(s, i);
    assert s.sections[..s.clients[i].turn + 1] == s.sections;
    assert ClientOk(s', i);
    assert StampsOk(s') by {
      SameSectionsSameStamps(s, s');
    }
  }

  /** Clock steps touch no client; while the clock holds the lock no client's section is the last. */
  lemma ClientsUntouchedByClock(s: State, s': State)
    requires Invariant(s) && !s.holder.ClientHolds? && s'.pos <= |s'.file|
    requires s'.clients == s.clients && (s'.atEnd ==> s.atEnd)
    requires |s.sections| <= |s'.sections|
    requires s.holder == Nobody ==> s'.sections[..|s.sections|] == s.sections
    requires s.holder == ClockHolds ==>
               && s.sections[|s.sections| - 1].author.FromClock?
               && s'.sections[..|s.sections| - 1] == s.sections[..|s.sections| - 1]
    ensures forall j :: 0 <= j < |s.clients| ==> ClientOk(s', j)
  {
    hide Receive, Concat;
    var n := if s.holder == Nobody then |s.sections| else |s.sections| - 1;
    forall j | 0 <= j < |s.clients|
      ensures ClientOk(s', j)
    {
      assert ClientOk(s, j);
      if s.clients[j].pc != Waiting {
        if s.holder == ClockHolds {
          NotTheLast(s, j);
        }
        var t := s.clients[j].turn;
        assert s'.sections[..t + 1] == s'.sections[..n][..t + 1];
        assert s.sections[..t + 1] == s.sections[..n][..t + 1];
      }
      ClientUntouched(s, s', j);
    }
  }

  lemma ClockLockKeeps(s: State)
    requires Invariant(s) && Enabled(s, ClockLock)
    ensures Invariant(Next(s, ClockLock))
  {
    hide Receive, Concat;
    var s' := Next(s, ClockLock);
    OpenSection(s.sections, FromClock(s.clock.stamp));
    NoReaderOutside(s);
    ClientsUntouchedByClock(s, s');
    assert StreamOk(s');
    assert StampsOk(s') by {
      ClockOpensSection(s, s');
    }
  }

  /** The clock writes `data` and gets ready to leave. */
  lemma ClockPutKeeps(s: State, data: seq<byte>, ret: Ret)
    requires Invariant(s) && s.holder == ClockHolds && s.clock.Writing?
    requires NulFree(data) && data <= s.clock.stamp && (ret == RET_OK ==> data == s.clock.stamp)
    ensures Invariant(Put(s, data).(clock := Stopping(ret)))
  {
    hide Receive, Concat, WriteAt, Written;
    var s' := Put(s, data).(clock := Stopping(ret));
    NoReaderOutside(s);
    PutKeepsStream(s, data);
    GrowLast(s.sections, data);
    ClientsUntouchedByClock(s, s');
    hide ClientOk;
    assert [] + data == data;
    assert StampsOk(s') by {
      ClockWriteKeepsStamps(s, s', ret);
    }
  }

  lemma ClockWriteKeeps(s: State, written: nat)
    requires Invariant(s) && Enabled(s, ClockWrite(written))
    ensures Invariant(Next(s, ClockWrite(written)))
  {
    var stamp := s.clock.stamp;
    assert NulFree(stamp);
    hide Invariant;
    if written < |stamp| {
      PrefixIsNulFree(stamp, written);
      ClockPutKeeps(s, stamp[..written], RET_ERR);
    } else {
      ClockPutKeeps(s, stamp, RET_OK);
    }
  }

  /** Ticking, and the clock leaving the lock, write nothing. */
  lemma ClockRestKeeps(s: State, step: Step)
    requires Invariant(s) && Enabled(s, step) && (step.Tick? || step.ClockUnlock?)
    ensures Invariant(Next(s, step))
  {
    hide Receive, Concat;
    var s' := Next(s, step);
    assert s'.sections == s.sections && s'.clients == s.clients;
    ClockMovesOn(s, s');
    forall j | 0 <= j < |s.clients|
      ensures ClientOk(s', j)
    {
      assert ClientOk(s, j);
    }
  }

  lemma StepKeeps(s: State, step: Step)
    requires Invariant(s) && Enabled(s, step)
    ensures Invariant(Next(s, step))
  {
    match step
    case Lock(i) => LockKeeps(s, i);
    case Chunk(i, written) => ChunkKeeps(s, i, written);
    case Reply(i, transfer) => ReplyKeeps(s, i, transfer);
    case Unlock(i) => UnlockKeeps(s, i);
    case Tick(_) => ClockRestKeeps(s, step);
    case ClockLock => ClockLockKeeps(s);
    case ClockWrite(written) => ClockWriteKeeps(s, written);
    case ClockUnlock => ClockRestKeeps(s, step);
  }
}
