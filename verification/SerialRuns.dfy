// Theorems about every run of the file build: the output file is a serial history, and every
// successful client reads that history up to its own line.
module SerialRuns {
  import opened Bytes
  import opened SeekText
  import opened Framing
  import opened Serial

  datatype Input = Input(sent: seq<byte>, broken: bool)

  function Initial(inputs: seq<Input>): State {
    State([], 0, Nobody, seq(|inputs|, i requires 0 <= i < |inputs| => NewClient(inputs[i].sent, inputs[i].broken)),
          Idle, [], true)
  }

  ghost predicate CanStep(s: State, step: Step) {
    Enabled(s, step) && s.pos <= |s.file| && (s.holder != Nobody ==> s.sections != [])
  }

  /** The state after the steps, or None if one of them is not enabled. */
  ghost function Run(s: State, steps: seq<Step>): Option<State>
    decreases |steps|
  {
    if steps == [] then Some(s)
    else if CanStep(s, steps[0]) then Run(Next(s, steps[0]), steps[1..])
    else None
  }

  lemma InitialInvariant(inputs: seq<Input>)
    requires forall i :: 0 <= i < |inputs| ==> NulFree(inputs[i].sent)
    ensures Invariant(Initial(inputs))
  {
    var s := Initial(inputs);
    assert Written(s.sections) == [];
    forall i | 0 <= i < |s.clients|
      ensures ClientOk(s, i)
    {
    }
  }

  lemma {:induction false} RunKeepsInvariant(s: State, steps: seq<Step>)
    requires Invariant(s) && Run(s, steps).Some?
    ensures Invariant(Run(s, steps).value)
    decreases |steps|
  {
    hide Invariant, Enabled, Next;
    if steps != [] {
      StepKeeps(s, steps[0]);
      RunKeepsInvariant(Next(s, steps[0]), steps[1..]);
    }
  }

  predicate SameInput(c: Client, d: Client) {
    c.sent == d.sent && c.broken == d.broken
  }

  lemma PutKeepsClients(s: State)
    ensures forall data :: s.pos <= |s.file| && s.sections != [] ==>
              Put(s, data).clients == s.clients && Put(s, data).holder == s.holder
  {
  }

  lemma StepKeepsInputs(s: State, step: Step)
    requires CanStep(s, step)
    ensures |Next(s, step).clients| == |s.clients|
    ensures forall i :: 0 <= i < |s.clients| ==> SameInput(Next(s, step).clients[i], s.clients[i])
  {
    hide Put, Fgets, SeekCommand, CString;
    PutKeepsClients(s);
  }

  lemma {:induction false} RunKeepsInputs(s: State, steps: seq<Step>)
    requires Run(s, steps).Some?
    ensures |Run(s, steps).value.clients| == |s.clients|
    ensures forall i :: 0 <= i < |s.clients| ==> SameInput(Run(s, steps).value.clients[i], s.clients[i])
    decreases |steps|
  {
    hide Enabled, Next;
    if steps != [] {
      StepKeepsInputs(s, steps[0]);
      RunKeepsInputs(Next(s, steps[0]), steps[1..]);
    }
  }

  // ---- when all writes of a run append ----

  /** The bytes a step puts into the file. */
  ghost function DataOf(s: State, step: Step): seq<byte>
    requires CanStep(s, step)
  {
    match step
    case Chunk(i, written) =>
      (match Fgets(s.clients[i].rest, s.clients[i].broken)
       case None => []
       case Some(chunk) =>
         if SeekCommand(chunk).Some? then [] else if written < |chunk| then chunk[..written] else chunk)
    case ClockWrite(written) => if written < |s.clock.stamp| then s.clock.stamp[..written] else s.clock.stamp
    case _ => []
  }

  /** A replay fails and leaves the stream before the end of the file. */
  ghost predicate StopsShort(s: State, step: Step)
    requires CanStep(s, step)
  {
    step.Reply? && step.transfer != Sent && Next(s, step).pos < |s.file|
  }

  /** The state in which step k of a run is taken. */
  ghost function StateAt(s: State, steps: seq<Step>, k: nat): (t: State)
    requires Run(s, steps).Some? && k < |steps|
    ensures CanStep(t, steps[k])
    decreases k
  {
    if k == 0 then s else StateAt(Next(s, steps[0]), steps[1..], k - 1)
  }

  ghost predicate WritesAt(s: State, steps: seq<Step>, k: nat)
    requires Run(s, steps).Some? && k < |steps|
  {
    DataOf(StateAt(s, steps, k), steps[k]) != []
  }

  ghost predicate StopsShortAt(s: State, steps: seq<Step>, k: nat)
    requires Run(s, steps).Some? && k < |steps|
  {
    StopsShort(StateAt(s, steps, k), steps[k])
  }

  /** No replay that stops short of the end is followed by a non-empty write. */
  ghost predicate NoWriteAfterShortReplay(s: State, steps: seq<Step>)
    requires Run(s, steps).Some?
  {
    forall j: nat, k: nat :: j < k < |steps| && StopsShortAt(s, steps, j) ==> !WritesAt(s, steps, k)
  }

  /** The same, step by step; `short` says that a replay has already stopped short. */
  ghost predicate Clean(s: State, steps: seq<Step>, short: bool)
    requires Run(s, steps).Some?
    decreases |steps|
  {
    steps != [] ==>
      && (short ==> DataOf(s, steps[0]) == [])
      && Clean(Next(s, steps[0]), steps[1..], short || StopsShort(s, steps[0]))
  }

  lemma LaterStep(s: State, steps: seq<Step>, k: nat)
    requires Run(s, steps).Some? && 0 < k < |steps|
    ensures WritesAt(s, steps, k) == WritesAt(Next(s, steps[0]), steps[1..], k - 1)
    ensures StopsShortAt(s, steps, k) == StopsShortAt(Next(s, steps[0]), steps[1..], k - 1)
  {
    hide DataOf, StopsShort, Next, Enabled;
  }

  ghost predicate WritesNothing(s: State, steps: seq<Step>)
    requires Run(s, steps).Some?
  {
    forall k: nat :: k < |steps| ==> !WritesAt(s, steps, k)
  }

  lemma {:induction false} CleanMeansNoWriteAfter(s: State, steps: seq<Step>, short: bool)
    requires Run(s, steps).Some?
    ensures Clean(s, steps, short) <==>
            NoWriteAfterShortReplay(s, steps) && (short ==> WritesNothing(s, steps))
    decreases |steps|
  {
    hide DataOf, StopsShort, Next, Enabled;
    if steps != [] {
      var s1, rest := Next(s, steps[0]), steps[1..];
      var short1 := short || StopsShort(s, steps[0]);
      CleanMeansNoWriteAfter(s1, rest, short1);
      LaterNothing(s, steps);
      LaterNoWrite(s, steps);
      assert WritesAt(s, steps, 0) <==> DataOf(s, steps[0]) != [];
      assert StopsShortAt(s, steps, 0) <==> StopsShort(s, steps[0]);
    }
  }

  lemma LaterNothing(s: State, steps: seq<Step>)
    requires Run(s, steps).Some? && steps != []
    ensures WritesNothing(s, steps) <==>
            !WritesAt(s, steps, 0) && WritesNothing(Next(s, steps[0]), steps[1..])
  {
    hide WritesAt, Next, Enabled;
    var s1, rest := Next(s, steps[0]), steps[1..];
    forall k: nat | 0 < k < |steps|
      ensures WritesAt(s, steps, k) == WritesAt(s1, rest, k - 1)
    {
      LaterStep(s, steps, k);
    }
    if WritesNothing(s, steps) {
      forall k: nat | k < |rest|
        ensures !WritesAt(s1, rest, k)
      {
        assert !WritesAt(s, steps, k + 1);
      }
    }
  }

  lemma LaterNoWrite(s: State, steps: seq<Step>)
    requires Run(s, steps).Some? && steps != []
    ensures var s1, rest := Next(s, steps[0]), steps[1..];
            NoWriteAfterShortReplay(s, steps) <==>
            && NoWriteAfterShortReplay(s1, rest)
            && (StopsShortAt(s, steps, 0) ==> WritesNothing(s1, rest))
  {
    hide WritesAt, StopsShortAt, Next, Enabled;
    var s1, rest := Next(s, steps[0]), steps[1..];
    forall k: nat | 0 < k < |steps|
      ensures WritesAt(s, steps, k) == WritesAt(s1, rest, k - 1)
      ensures StopsShortAt(s, steps, k) == StopsShortAt(s1, rest, k - 1)
    {
      LaterStep(s, steps, k);
    }
    if NoWriteAfterShortReplay(s, steps) {
      forall j: nat, k: nat | j < k < |rest| && StopsShortAt(s1, rest, j)
        ensures !WritesAt(s1, rest, k)
      {
        assert StopsShortAt(s, steps, j + 1) && !WritesAt(s, steps, k + 1);
      }
      if StopsShortAt(s, steps, 0) {
        forall k: nat | k < |rest|
          ensures !WritesAt(s1, rest, k)
        {
          assert !WritesAt(s, steps, k + 1);
        }
      }
    }
  }

  /** The lock's holder is in its replay loop. */
  ghost predicate Reads(s: State) {
    && s.holder.ClientHolds? && s.holder.i < |s.clients|
    && s.clients[s.holder.i].pc == Replaying
  }

  /** While all writes append, the stream is before the end of the file outside the replay loop
      exactly when a replay has stopped short. */
  ghost predicate Tracks(s: State, short: bool) {
    s.atEnd && if Reads(s) then !short else short <==> s.pos < |s.file|
  }

  /** One step that writes nothing. */
  lemma QuietStepTracks(s: State, step: Step, short: bool)
    requires Invariant(s) && CanStep(s, step) && Tracks(s, short)
    requires !step.Chunk? && !step.ClockWrite?
    ensures Tracks(Next(s, step), short || StopsShort(s, step))
  {
    hide WriteAt, SeekCommand, CString, Concat, Receive, StampsOk, ClientOk, Written;
  }

  lemma ChunkTracks(s: State, i: nat, written: nat, short: bool)
    requires Invariant(s) && CanStep(s, Chunk(i, written)) && Tracks(s, short)
    ensures var s', data := Next(s, Chunk(i, written)), DataOf(s, Chunk(i, written));
            if short && data != [] then !s'.atEnd else Tracks(s', short)
  {
    hide WriteAt, SeekCommand, CString, Concat, Receive, StampsOk, ClientOk, Written;
    var data := DataOf(s, Chunk(i, written));
    PutMoves(s, data);
  }

  lemma ClockWriteTracks(s: State, written: nat, short: bool)
    requires Invariant(s) && CanStep(s, ClockWrite(written)) && Tracks(s, short)
    ensures var s', data := Next(s, ClockWrite(written)), DataOf(s, ClockWrite(written));
            if short && data != [] then !s'.atEnd else Tracks(s', short)
  {
    hide WriteAt, Concat, Receive, StampsOk, ClientOk, Written;
    var data := DataOf(s, ClockWrite(written));
    PutMoves(s, data);
  }

  lemma PutMoves(s: State, data: seq<byte>)
    requires s.pos <= |s.file|
    ensures |WriteAt(s.file, s.pos, data)| >= s.pos + |data|
    ensures data == [] ==> WriteAt(s.file, s.pos, data) == s.file
    ensures s.pos == |s.file| ==> |WriteAt(s.file, s.pos, data)| == s.pos + |data|
  {
  }

  lemma StepTracks(s: State, step: Step, short: bool)
    requires Invariant(s) && CanStep(s, step) && Tracks(s, short)
    ensures if short && DataOf(s, step) != [] then !Next(s, step).atEnd
            else Tracks(Next(s, step), short || StopsShort(s, step))
  {
    match step
    case Chunk(i, written) => ChunkTracks(s, i, written, short);
    case ClockWrite(written) => ClockWriteTracks(s, written, short);
    case _ => QuietStepTracks(s, step, short);
  }

  lemma StepKeepsNotAtEnd(s: State, step: Step)
    requires CanStep(s, step) && !s.atEnd
    ensures !Next(s, step).atEnd
  {
    hide WriteAt, Fgets, SeekCommand, CString;
  }

  lemma {:induction false} NotAtEndForGood(s: State, steps: seq<Step>)
    requires Run(s, steps).Some? && !s.atEnd
    ensures !Run(s, steps).value.atEnd
    decreases |steps|
  {
    hide Enabled, Next;
    if steps != [] {
      StepKeepsNotAtEnd(s, steps[0]);
      NotAtEndForGood(Next(s, steps[0]), steps[1..]);
    }
  }

  lemma {:induction false} AtEndIffClean(s: State, steps: seq<Step>, short: bool)
    requires Invariant(s) && Tracks(s, short) && Run(s, steps).Some?
    ensures Run(s, steps).value.atEnd <==> Clean(s, steps, short)
    decreases |steps|
  {
    if steps != [] {
      assert CanStep(s, steps[0]);
      StepTracks(s, steps[0], short);
      StepKeeps(s, steps[0]);
      hide Invariant, Enabled, Next, DataOf, StopsShort;
      if short && DataOf(s, steps[0]) != [] {
        NotAtEndForGood(Next(s, steps[0]), steps[1..]);
      } else {
        AtEndIffClean(Next(s, steps[0]), steps[1..], short || StopsShort(s, steps[0]));
      }
    }
  }

  // ---- the file ----

  /** What is known of the state a run reaches. */
  lemma ReachedState(inputs: seq<Input>, steps: seq<Step>)
    requires forall i :: 0 <= i < |inputs| ==> NulFree(inputs[i].sent)
    requires Run(Initial(inputs), steps).Some?
    ensures var s := Run(Initial(inputs), steps).value;
            && Invariant(s)
            && |s.clients| == |inputs|
            && (forall i :: 0 <= i < |inputs| ==>
                  s.clients[i].sent == inputs[i].sent && s.clients[i].broken == inputs[i].broken)
            && (s.atEnd <==> NoWriteAfterShortReplay(Initial(inputs), steps))
  {
    InitialInvariant(inputs);
    RunKeepsInvariant(Initial(inputs), steps);
    RunKeepsInputs(Initial(inputs), steps);
    AtEndIffClean(Initial(inputs), steps, false);
    CleanMeansNoWriteAfter(Initial(inputs), steps, false);
  }

  /** Under every interleaving, the file is the critical sections' data in lock order if and only
      if no replay that stops short of the end of the file is followed by a non-empty write. */
  lemma FileIsSerialHistory(inputs: seq<Input>, steps: seq<Step>)
    requires forall i :: 0 <= i < |inputs| ==> NulFree(inputs[i].sent)
    requires Run(Initial(inputs), steps).Some?
    ensures var s := Run(Initial(inputs), steps).value;
            && (s.file == Written(s.sections) <==> NoWriteAfterShortReplay(Initial(inputs), steps))
            && StampsOk(s)
  {
    ReachedState(inputs, steps);
  }

  // ---- the clients' replies ----

  lemma {:induction false} LineNeedsNewline(s: seq<byte>, broken: bool)
    requires Receive(s, broken).end == Line
    ensures NewlineIndex(s) < |s|
    decreases |s|
  {
    hide SeekCommand;
    var c := FirstChunk(s);
    assert c <= s;
    if EndsLine(c) {
      assert s[|c| - 1] == NEWLINE;
    } else {
      LineNeedsNewline(s[|c|..], broken);
      var k := |c| + NewlineIndex(s[|c|..]);
      assert s[k] == NEWLINE;
    }
  }

  /** What a successful client sent, and where: one complete line, in one section. */
  lemma DoneClient(s: State, i: nat)
    requires Invariant(s) && i < |s.clients| && s.clients[i].pc == Done(RET_OK)
    ensures var c := s.clients[i];
            && NewlineIndex(c.sent) < |c.sent|
            && c.turn < |s.sections|
            && s.sections[c.turn] == Section(FromClient(i), FirstLine(c.sent))
            && (s.atEnd ==> c.reply == Written(s.sections[..c.turn + 1]))
  {
    var c := s.clients[i];
    assert ClientOk(s, i);
    hide Receive, SeekCommand, Concat;
    LineNeedsNewline(c.sent, c.broken);
    LineFraming(c.sent, c.broken);
    SplitJoins(FirstLine(c.sent));
  }

  lemma WrittenPrefix(sections: seq<Section>, m: nat, n: nat)
    requires m <= n <= |sections|
    ensures Written(sections[..m]) <= Written(sections[..n])
  {
    assert sections[..n] == sections[..m] + sections[m..n];
    DatasAppend(sections[..m], sections[m..n]);
  }

  /** In every run, a client about to leave with success has sent the whole file. */
  lemma ReplyIsWholeFile(inputs: seq<Input>, steps: seq<Step>, i: nat)
    requires forall k :: 0 <= k < |inputs| ==> NulFree(inputs[k].sent)
    requires Run(Initial(inputs), steps).Some? && i < |inputs|
    ensures var s := Run(Initial(inputs), steps).value;
            && i < |s.clients|
            && (s.clients[i].pc == Leaving(RET_OK) ==> s.clients[i].reply == s.file)
  {
    ReachedState(inputs, steps);
    hide Run;
    assert ClientOk(Run(Initial(inputs), steps).value, i);
  }

  /** As long as no short replay is followed by a write: a successful client's reply is the history
      before its turn followed by its own line, and of two such replies the earlier is a prefix of
      the later, and of the file. */
  lemma RepliesAreHistory(inputs: seq<Input>, steps: seq<Step>, i: nat, j: nat)
    requires forall k :: 0 <= k < |inputs| ==> NulFree(inputs[k].sent)
    requires Run(Initial(inputs), steps).Some? && i < |inputs| && j < |inputs|
    requires NoWriteAfterShortReplay(Initial(inputs), steps)
    ensures var s := Run(Initial(inputs), steps).value;
            && |s.clients| == |inputs|
            && var c, d, line := s.clients[i], s.clients[j], inputs[i].sent;
               c.pc == Done(RET_OK) ==>
                 && NewlineIndex(line) < |line| && c.turn < |s.sections|
                 && c.reply == Written(s.sections[..c.turn]) + FirstLine(line)
                 && c.reply <= s.file
                 && (d.pc == Done(RET_OK) && c.turn <= d.turn ==> c.reply <= d.reply)
  {
    ReachedState(inputs, steps);
    hide Run, NoWriteAfterShortReplay, Invariant;
    var s := Run(Initial(inputs), steps).value;
    if s.clients[i].pc == Done(RET_OK) {
      DoneReply(s, i);
      if s.clients[j].pc == Done(RET_OK) && s.clients[i].turn <= s.clients[j].turn {
        DoneReply(s, j);
        WrittenPrefix(s.sections, s.clients[i].turn + 1, s.clients[j].turn + 1);
      }
    }
  }

  lemma DoneReply(s: State, i: nat)
    requires Invariant(s) && s.atEnd && i < |s.clients| && s.clients[i].pc == Done(RET_OK)
    ensures var c := s.clients[i];
            && NewlineIndex(c.sent) < |c.sent| && c.turn < |s.sections|
            && c.reply == Written(s.sections[..c.turn + 1])
            && c.reply == Written(s.sections[..c.turn]) + FirstLine(c.sent)
            && c.reply <= s.file
  {
    assert s.file == Written(s.sections);
    hide Invariant, Written;
    var t := s.clients[i].turn;
    DoneClient(s, i);
    WrittenPrefix(s.sections, t + 1, |s.sections|);
    assert s.sections[..|s.sections|] == s.sections;
    assert s.sections[..t + 1] == s.sections[..t] + [s.sections[t]];
    DatasAppend(s.sections[..t], [s.sections[t]]);
    WrittenOne(s.sections[t]);
  }

  // ---- the condition is needed ----

  predicate IsShortLine(line: seq<byte>) {
    && 0 < |line| <= CHUNK
    && (forall i :: 0 <= i < |line| ==> (line[i] == NEWLINE <==> i == |line| - 1))
    && SeekCommand(line).None?
  }

  /** Receiving a line that fits one chunk, written completely. */
  lemma ShortLineStep(s: State, i: nat, line: seq<byte>)
    requires CanStep(s, Chunk(i, |line|)) && s.clients[i].rest == line && IsShortLine(line)
    ensures Next(s, Chunk(i, |line|)) ==
            Put(s, line).(pos := 0, clients := s.clients[i := s.clients[i].(rest := [], pc := Replaying)])
  {
    hide SeekCommand, WriteAt;
    ChunkIsLine(line, []);
    assert line + [] == line && FirstChunk(line) == line && line[|line|..] == [];
    DataChunk(s, i, |line|);
  }

  lemma RunCons(s: State, step: Step, rest: seq<Step>)
    requires CanStep(s, step)
    ensures Run(s, [step] + rest) == Run(Next(s, step), rest)
  {
    assert ([step] + rest)[1..] == rest;
  }

  /** Two clients and a stream, as the example below needs them. */
  function TwoClients(file: seq<byte>, pos: nat, holder: Holder, c: Client, d: Client, sections: seq<Section>): State {
    State(file, pos, holder, [c, d], Idle, sections, true)
  }

  /** The first client's line is written. */
  lemma FirstLineWritten(a: seq<byte>, d: Client)
    requires IsShortLine(a) && d.pc == Waiting
    ensures var c := NewClient(a, false);
            var s0 := TwoClients([], 0, Nobody, c, d, []);
            var s1 := TwoClients([], 0, ClientHolds(0), c.(pc := Receiving), d, [Section(FromClient(0), [])]);
            var s2 := TwoClients(a, 0, ClientHolds(0), c.(rest := [], pc := Replaying), d, [Section(FromClient(0), a)]);
            && CanStep(s0, Lock(0)) && Next(s0, Lock(0)) == s1
            && CanStep(s1, Chunk(0, |a|)) && Next(s1, Chunk(0, |a|)) == s2
  {
    hide SeekCommand, IsShortLine, Fgets;
    var c := NewClient(a, false);
    var s1 := TwoClients([], 0, ClientHolds(0), c.(pc := Receiving), d, [Section(FromClient(0), [])]);
    ShortLineStep(s1, 0, a);
    assert WriteAt([], 0, a) == a && [] + a == a;
  }

  /** Its replay fails at the first read, and the client leaves. */
  lemma ReplayFails(a: seq<byte>, d: Client)
    ensures var c := NewClient(a, false).(rest := [], pc := Replaying);
            var sections := [Section(FromClient(0), a)];
            var s2 := TwoClients(a, 0, ClientHolds(0), c, d, sections);
            var s3 := TwoClients(a, 0, ClientHolds(0), c.(pc := Leaving(RET_ERR)), d, sections);
            var s4 := TwoClients(a, 0, Nobody, c.(pc := Done(RET_ERR)), d, sections);
            && CanStep(s2, Reply(0, ReadFailed)) && Next(s2, Reply(0, ReadFailed)) == s3
            && CanStep(s3, Unlock(0)) && Next(s3, Unlock(0)) == s4
  {
  }

  lemma FailedReplay(a: seq<byte>, d: Client, rest: seq<Step>)
    requires IsShortLine(a) && d.pc == Waiting
    ensures Run(TwoClients([], 0, Nobody, NewClient(a, false), d, []),
                [Lock(0)] + ([Chunk(0, |a|)] + ([Reply(0, ReadFailed)] + ([Unlock(0)] + rest))))
         == Run(TwoClients(a, 0, Nobody, NewClient(a, false).(rest := [], pc := Done(RET_ERR)), d,
                           [Section(FromClient(0), a)]), rest)
  {
    hide *;
    var c := NewClient(a, false);
    var c2 := c.(rest := [], pc := Replaying);
    var s0 := TwoClients([], 0, Nobody, c, d, []);
    var s1 := TwoClients([], 0, ClientHolds(0), c.(pc := Receiving), d, [Section(FromClient(0), [])]);
    var s2 := TwoClients(a, 0, ClientHolds(0), c2, d, [Section(FromClient(0), a)]);
    var s3 := TwoClients(a, 0, ClientHolds(0), c2.(pc := Leaving(RET_ERR)), d,
                         [Section(FromClient(0), a)]);
    FirstLineWritten(a, d);
    ReplayFails(a, d);
    RunCons(s0, Lock(0), [Chunk(0, |a|)] + ([Reply(0, ReadFailed)] + ([Unlock(0)] + rest)));
    RunCons(s1, Chunk(0, |a|), [Reply(0, ReadFailed)] + ([Unlock(0)] + rest));
    RunCons(s2, Reply(0, ReadFailed), [Unlock(0)] + rest);
    RunCons(s3, Unlock(0), rest);
    assert c2.(pc := Done(RET_ERR)) == c.(rest := [], pc := Done(RET_ERR));
  }

  /** The next line is written from the start of the file. */
  lemma Overwrite(file: seq<byte>, c: Client, b: seq<byte>)
    requires IsShortLine(b) && |file| == |b| && c.pc.Done?
    ensures var end := Run(TwoClients(file, 0, Nobody, c, NewClient(b, false),
                                      [Section(FromClient(0), file)]),
                           [Lock(1)] + ([Chunk(1, |b|)] + []));
            && end.Some? && end.value.file == b
            && end.value.sections == [Section(FromClient(0), file), Section(FromClient(1), b)]
  {
    hide SeekCommand, IsShortLine, Fgets;
    var d := NewClient(b, false);
    var s4 := TwoClients(file, 0, Nobody, c, d, [Section(FromClient(0), file)]);
    var s5 := TwoClients(file, 0, ClientHolds(1), c, d.(pc := Receiving, turn := 1),
                         [Section(FromClient(0), file), Section(FromClient(1), [])]);
    assert Next(s4, Lock(1)) == s5;
    ShortLineStep(s5, 1, b);
    assert WriteAt(file, 0, b) == b && [] + b == b;
    RunCons(s4, Lock(1), [Chunk(1, |b|)] + []);
    RunCons(s5, Chunk(1, |b|), []);
  }

  /** A replay that fails at its first read leaves the stream at 0; the next client's line of the
      same length then replaces the first one's. */
  lemma FailedReplayLosesLine(a: seq<byte>, b: seq<byte>)
    requires IsShortLine(a) && IsShortLine(b) && |a| == |b|
    ensures var inputs := [Input(a, false), Input(b, false)];
            var steps := [Lock(0), Chunk(0, |a|), Reply(0, ReadFailed), Unlock(0), Lock(1), Chunk(1, |b|)];
            var end := Run(Initial(inputs), steps);
            end.Some? && end.value.file == b && Written(end.value.sections) == a + b
  {
    hide IsShortLine, Run, SeekCommand;
    var later := [Lock(1)] + ([Chunk(1, |b|)] + []);
    FailedReplay(a, NewClient(b, false), later);
    Overwrite(a, NewClient(a, false).(rest := [], pc := Done(RET_ERR)), b);
    assert Initial([Input(a, false), Input(b, false)])
        == TwoClients([], 0, Nobody, NewClient(a, false), NewClient(b, false), []);
    assert [Lock(0), Chunk(0, |a|), Reply(0, ReadFailed), Unlock(0), Lock(1), Chunk(1, |b|)]
        == [Lock(0)] + ([Chunk(0, |a|)] + ([Reply(0, ReadFailed)] + ([Unlock(0)] + later)));
    var x, y := Section(FromClient(0), a), Section(FromClient(1), b);
    assert [x, y] == [x] + [y];
    DatasAppend([x], [y]);
    WrittenOne(x);
    WrittenOne(y);
  }
}
