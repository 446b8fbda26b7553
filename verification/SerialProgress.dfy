// Runs that exist: from every state a run can reach, every waiting client can be served, and the
// examples of what a failed send does and does not do.
module SerialProgress {
  import opened Bytes
  import opened SeekText
  import opened Framing
  import opened Serial
  import opened SerialRuns

  lemma {:induction false} RunAppend(s: State, a: seq<Step>, b: seq<Step>)
    requires Run(s, a).Some?
    ensures Run(s, a + b) == Run(Run(s, a).value, b)
    decreases |a|
  {
    hide Next, Enabled;
    if a == [] {
      assert a + b == b;
    } else {
      assert (a + b)[1..] == a[1..] + b;
      RunAppend(Next(s, a[0]), a[1..], b);
    }
  }

  /** The other clients are as they were. */
  ghost predicate OthersSame(s: State, s': State, i: nat) {
    && |s'.clients| == |s.clients|
    && forall j :: 0 <= j < |s.clients| && j != i ==> s'.clients[j] == s.clients[j]
  }

  /** Client i holds the lock. */
  ghost predicate Inside(s: State, i: nat) {
    Invariant(s) && s.holder == ClientHolds(i) && i < |s.clients|
  }

  lemma OneStep(s: State, step: Step, s': State)
    requires CanStep(s, step) && Next(s, step) == s'
    ensures Run(s, [step]) == Some(s')
  {
    assert Run(s', []) == Some(s');
  }

  lemma InsideCanStep(s: State, i: nat, step: Step)
    requires Inside(s, i) && Enabled(s, step)
    ensures CanStep(s, step) && Invariant(Next(s, step))
  {
    StepKeeps(s, step);
  }

  /** One turn of the replay loop without a failure. */
  lemma ReplyTurn(s: State, i: nat)
    requires Inside(s, i) && s.clients[i].pc == Replaying
    ensures CanStep(s, Reply(i, Sent))
    ensures var s' := Next(s, Reply(i, Sent));
            && Inside(s', i) && OthersSame(s, s', i)
            && if s.pos == |s.file| then s'.clients[i].pc == Leaving(RET_OK)
               else s'.clients[i].pc == Replaying && |s'.file| - s'.pos < |s.file| - s.pos
  {
    InsideCanStep(s, i, Reply(i, Sent));
    hide Invariant, CString;
  }

  lemma {:induction false} ReplayToEnd(s: State, i: nat) returns (steps: seq<Step>)
    requires Inside(s, i) && s.clients[i].pc == Replaying
    ensures Run(s, steps).Some?
    ensures var s' := Run(s, steps).value;
            Inside(s', i) && OthersSame(s, s', i) && s'.clients[i].pc == Leaving(RET_OK)
    decreases |s.file| - s.pos
  {
    assert s.pos <= |s.file|;
    ReplyTurn(s, i);
    var s1 := Next(s, Reply(i, Sent));
    steps := [Reply(i, Sent)];
    hide Inside, Next;
    if s.pos == |s.file| {
      OneStep(s, Reply(i, Sent), s1);
    } else {
      var more := ReplayToEnd(s1, i);
      RunCons(s, Reply(i, Sent), more);
      steps := steps + more;
    }
  }

  /** One turn of the receive loop whose write is complete. */
  lemma ChunkTurn(s: State, i: nat)
    requires Inside(s, i) && s.clients[i].pc == Receiving
    ensures CanStep(s, Chunk(i, CHUNK))
    ensures var s', c := Next(s, Chunk(i, CHUNK)), s.clients[i];
            var d := s'.clients[i];
            && Inside(s', i) && OthersSame(s, s', i)
            && if d.pc == Receiving then
                 |d.rest| < |c.rest| && Receive(d.rest, d.broken).end == Receive(c.rest, c.broken).end
               else d.pc == if Receive(c.rest, c.broken).end == Line then Replaying else Leaving(RET_ERR)
  {
    InsideCanStep(s, i, Chunk(i, CHUNK));
    hide Invariant, SeekCommand, Put, NewlineIndex;
    PutKeepsClients(s);
  }

  lemma {:induction false} ReceiveToEnd(s: State, i: nat) returns (steps: seq<Step>)
    requires Inside(s, i) && s.clients[i].pc == Receiving
    ensures Run(s, steps).Some?
    ensures var s', c := Run(s, steps).value, s.clients[i];
            && Inside(s', i) && OthersSame(s, s', i)
            && s'.clients[i].pc == if Receive(c.rest, c.broken).end == Line then Replaying else Leaving(RET_ERR)
    decreases |s.clients[i].rest|
  {
    ChunkTurn(s, i);
    var s1 := Next(s, Chunk(i, CHUNK));
    steps := [Chunk(i, CHUNK)];
    hide Next, Receive;
    if s1.clients[i].pc == Receiving {
      var more := ReceiveToEnd(s1, i);
      RunCons(s, Chunk(i, CHUNK), more);
      steps := steps + more;
    } else {
      OneStep(s, Chunk(i, CHUNK), s1);
    }
  }

  lemma UnlockTurn(s: State, i: nat)
    requires Inside(s, i) && s.clients[i].pc.Leaving?
    ensures CanStep(s, Unlock(i))
    ensures var s' := Next(s, Unlock(i));
            && Invariant(s') && s'.holder == Nobody && OthersSame(s, s', i)
            && s'.clients[i].pc == Done(s.clients[i].pc.ret)
  {
    InsideCanStep(s, i, Unlock(i));
    hide Invariant;
  }

  /** How the session of a client in its critical section ends if nothing fails any more. */
  function Outlook(c: Client): Ret
    requires InCriticalSection(c.pc)
  {
    match c.pc
    case Receiving => if Receive(c.rest, c.broken).end == Line then RET_OK else RET_ERR
    case Replaying => RET_OK
    case Leaving(ret) => ret
  }

  lemma HolderIsInside(s: State, i: nat)
    requires Inside(s, i)
    ensures InCriticalSection(s.clients[i].pc)
  {
  }

  lemma LeaveLock(s: State, i: nat) returns (steps: seq<Step>)
    requires Inside(s, i) && s.clients[i].pc.Leaving?
    ensures Run(s, steps).Some?
    ensures var s' := Run(s, steps).value;
            && Invariant(s') && s'.holder == Nobody && OthersSame(s, s', i)
            && s'.clients[i].pc == Done(s.clients[i].pc.ret)
  {
    UnlockTurn(s, i);
    OneStep(s, Unlock(i), Next(s, Unlock(i)));
    steps := [Unlock(i)];
  }

  lemma ReplayAndLeave(s: State, i: nat) returns (steps: seq<Step>)
    requires Inside(s, i) && s.clients[i].pc == Replaying
    ensures Run(s, steps).Some?
    ensures var s' := Run(s, steps).value;
            && Invariant(s') && s'.holder == Nobody && OthersSame(s, s', i)
            && s'.clients[i].pc == Done(RET_OK)
  {
    hide Inside, Run, Invariant;
    var a := ReplayToEnd(s, i);
    var b := LeaveLock(Run(s, a).value, i);
    RunAppend(s, a, b);
    steps := a + b;
  }

  /** The client that holds the lock can finish its session. */
  lemma FinishSession(s: State, i: nat) returns (steps: seq<Step>)
    requires Inside(s, i)
    ensures InCriticalSection(s.clients[i].pc) && Run(s, steps).Some?
    ensures var s' := Run(s, steps).value;
            && Invariant(s') && s'.holder == Nobody && OthersSame(s, s', i)
            && s'.clients[i].pc == Done(Outlook(s.clients[i]))
  {
    HolderIsInside(s, i);
    hide Inside, Run, Invariant, Receive;
    match s.clients[i].pc {
      case Leaving(_) => steps := LeaveLock(s, i);
      case Replaying => steps := ReplayAndLeave(s, i);
      case Receiving =>
        var a := ReceiveToEnd(s, i);
        var s1 := Run(s, a).value;
        var b;
        if s1.clients[i].pc == Replaying {
          b := ReplayAndLeave(s1, i);
        } else {
          b := LeaveLock(s1, i);
        }
        RunAppend(s, a, b);
        steps := a + b;
    }
  }

  /** The clock inside can leave. */
  lemma ClockLeaves(s: State) returns (steps: seq<Step>)
    requires Invariant(s) && s.holder == ClockHolds
    ensures Run(s, steps).Some?
    ensures var s' := Run(s, steps).value; Invariant(s') && s'.holder == Nobody && s'.clients == s.clients
    decreases s.clock.Writing?
  {
    if s.clock.Writing? {
      var step := ClockWrite(|s.clock.stamp|);
      StepKeeps(s, step);
      var s1 := Next(s, step);
      hide Invariant, Put;
      assert s1.clients == s.clients && s1.holder == ClockHolds by {
        PutKeepsClients(s);
      }
      steps := ClockLeaves(s1);
      RunCons(s, step, steps);
      steps := [step] + steps;
    } else {
      StepKeeps(s, ClockUnlock);
      OneStep(s, ClockUnlock, Next(s, ClockUnlock));
      steps := [ClockUnlock];
    }
  }

  /** Whoever holds the lock can release it, and the waiting clients still wait. */
  lemma LockGetsFree(s: State, i: nat) returns (steps: seq<Step>)
    requires Invariant(s) && i < |s.clients| && s.clients[i].pc == Waiting
    ensures Run(s, steps).Some?
    ensures var s' := Run(s, steps).value;
            Invariant(s') && s'.holder == Nobody && |s'.clients| == |s.clients| && s'.clients[i] == s.clients[i]
  {
    match s.holder
    case Nobody => steps := [];
    case ClockHolds => steps := ClockLeaves(s);
    case ClientHolds(j) =>
      assert Inside(s, j) && j != i;
      steps := FinishSession(s, j);
  }

  lemma LockTurn(s: State, i: nat)
    requires Invariant(s) && s.holder == Nobody && i < |s.clients| && s.clients[i].pc == Waiting
    ensures CanStep(s, Lock(i))
    ensures var s', c := Next(s, Lock(i)), s.clients[i];
            && Inside(s', i) && |s'.clients| == |s.clients| && s'.clients[i].pc == Receiving
            && s'.clients[i].rest == c.sent && s'.clients[i].broken == c.broken
  {
    StepKeeps(s, Lock(i));
    assert ClientOk(s, i);
    hide ClientOk, StampsOk, StreamOk;
  }

  lemma ServeWaiting(s: State, i: nat) returns (steps: seq<Step>)
    requires Invariant(s) && i < |s.clients| && s.clients[i].pc == Waiting
    ensures Run(s, steps).Some?
    ensures var s', c := Run(s, steps).value, s.clients[i];
            && i < |s'.clients|
            && s'.clients[i].pc == Done(if Receive(c.sent, c.broken).end == Line then RET_OK else RET_ERR)
  {
    hide Invariant, Run, Inside, Receive, Next;
    var a := LockGetsFree(s, i);
    var s1 := Run(s, a).value;
    LockTurn(s1, i);
    var b := FinishSession(Next(s1, Lock(i)), i);
    RunCons(s1, Lock(i), b);
    RunAppend(s, a, [Lock(i)] + b);
    steps := a + ([Lock(i)] + b);
  }

  /** No run gets stuck before a waiting client: it can go on until that client has left, with
      success exactly if the client's input ends in a line. */
  lemma EveryClientCanBeServed(inputs: seq<Input>, steps: seq<Step>, i: nat) returns (more: seq<Step>)
    requires forall k :: 0 <= k < |inputs| ==> NulFree(inputs[k].sent)
    requires Run(Initial(inputs), steps).Some? && i < |inputs|
    ensures |Run(Initial(inputs), steps).value.clients| == |inputs|
    ensures Run(Initial(inputs), steps).value.clients[i].pc == Waiting ==>
              var end := Run(Initial(inputs), steps + more);
              && end.Some? && i < |end.value.clients|
              && end.value.clients[i].pc
                 == Done(if Receive(inputs[i].sent, inputs[i].broken).end == Line then RET_OK else RET_ERR)
  {
    ReachedState(inputs, steps);
    hide Run, Invariant, NoWriteAfterShortReplay, Receive;
    more := [];
    if Run(Initial(inputs), steps).value.clients[i].pc == Waiting {
      more := ServeWaiting(Run(Initial(inputs), steps).value, i);
      RunAppend(Initial(inputs), steps, more);
    }
  }

  // ---- two clients, one after the other ----

  lemma LineIsOneChunk(a: seq<byte>)
    requires IsShortLine(a) && NulFree(a)
    ensures a[0..] == a && a[|a|..] == [] && FirstChunk(a) == a && CString(a) == a
  {
    hide SeekCommand;
    ChunkIsLine(a, []);
    assert a + [] == a;
  }

  /** The first client's line is the file; the client is at `pc` and has been sent `reply`. */
  function AfterLine(a: seq<byte>, pos: nat, holder: Holder, pc: Pc, reply: seq<byte>, d: Client): State {
    TwoClients(a, pos, holder, NewClient(a, false).(rest := [], pc := pc, reply := reply), d,
               [Section(FromClient(0), a)])
  }

  /** The turns of its replay loop: the line, or a failure to send it; then the end of the file. */
  lemma ReplyTurns(a: seq<byte>, d: Client)
    requires IsShortLine(a) && NulFree(a)
    ensures var s, sent := AfterLine(a, 0, ClientHolds(0), Replaying, [], d), AfterLine(a, |a|, ClientHolds(0), Replaying, a, d);
            && CanStep(s, Reply(0, Sent)) && Next(s, Reply(0, Sent)) == sent
            && CanStep(s, Reply(0, SendFailed))
            && Next(s, Reply(0, SendFailed)) == AfterLine(a, |a|, ClientHolds(0), Leaving(RET_ERR), [], d)
            && CanStep(sent, Reply(0, Sent))
            && Next(sent, Reply(0, Sent)) == AfterLine(a, |a|, ClientHolds(0), Leaving(RET_OK), a, d)
  {
    LineIsOneChunk(a);
    assert a != [];
    hide IsShortLine, FirstChunk, CString;
    var c := NewClient(a, false).(rest := [], pc := Replaying);
    assert [] + a == a;
    assert [c, d][0 := c.(reply := a)] == [c.(reply := a), d];
  }

  lemma UnlockAfter(a: seq<byte>, ret: Ret, reply: seq<byte>, d: Client)
    ensures var s := AfterLine(a, |a|, ClientHolds(0), Leaving(ret), reply, d);
            CanStep(s, Unlock(0)) && Next(s, Unlock(0)) == AfterLine(a, |a|, Nobody, Done(ret), reply, d)
  {
  }

  /** A client in its replay loop sends its only line, reads the end of the file, and leaves. */
  lemma ReplaySucceeds(a: seq<byte>, d: Client, rest: seq<Step>)
    requires IsShortLine(a) && NulFree(a)
    ensures Run(AfterLine(a, 0, ClientHolds(0), Replaying, [], d),
                [Reply(0, Sent)] + ([Reply(0, Sent)] + ([Unlock(0)] + rest)))
         == Run(AfterLine(a, |a|, Nobody, Done(RET_OK), a, d), rest)
  {
    hide *;
    ReplyTurns(a, d);
    UnlockAfter(a, RET_OK, a, d);
    RunCons(AfterLine(a, 0, ClientHolds(0), Replaying, [], d), Reply(0, Sent),
            [Reply(0, Sent)] + ([Unlock(0)] + rest));
    RunCons(AfterLine(a, |a|, ClientHolds(0), Replaying, a, d), Reply(0, Sent), [Unlock(0)] + rest);
    RunCons(AfterLine(a, |a|, ClientHolds(0), Leaving(RET_OK), a, d), Unlock(0), rest);
  }

  /** A client whose only send fails leaves the stream at the end of the file all the same. */
  lemma SendFails(a: seq<byte>, d: Client, rest: seq<Step>)
    requires IsShortLine(a) && NulFree(a)
    ensures Run(AfterLine(a, 0, ClientHolds(0), Replaying, [], d),
                [Reply(0, SendFailed)] + ([Unlock(0)] + rest))
         == Run(AfterLine(a, |a|, Nobody, Done(RET_ERR), [], d), rest)
  {
    hide *;
    ReplyTurns(a, d);
    UnlockAfter(a, RET_ERR, [], d);
    RunCons(AfterLine(a, 0, ClientHolds(0), Replaying, [], d), Reply(0, SendFailed), [Unlock(0)] + rest);
    RunCons(AfterLine(a, |a|, ClientHolds(0), Leaving(RET_ERR), [], d), Unlock(0), rest);
  }

  lemma LineWritten(a: seq<byte>, d: Client, rest: seq<Step>)
    requires IsShortLine(a) && d.pc == Waiting
    ensures Run(TwoClients([], 0, Nobody, NewClient(a, false), d, []), [Lock(0)] + ([Chunk(0, |a|)] + rest))
         == Run(AfterLine(a, 0, ClientHolds(0), Replaying, [], d), rest)
  {
    FirstLineWritten(a, d);
    var c := NewClient(a, false);
    assert AfterLine(a, 0, ClientHolds(0), Replaying, [], d)
        == TwoClients(a, 0, ClientHolds(0), c.(rest := [], pc := Replaying), d, [Section(FromClient(0), a)]);
    hide *;
    RunCons(TwoClients([], 0, Nobody, c, d, []), Lock(0), [Chunk(0, |a|)] + rest);
    RunCons(TwoClients([], 0, ClientHolds(0), c.(pc := Receiving), d, [Section(FromClient(0), [])]),
            Chunk(0, |a|), rest);
  }

  /** From the end of the file the next line is appended. */
  lemma NextLineAppends(file: seq<byte>, c: Client, b: seq<byte>)
    requires IsShortLine(b) && c.pc.Done?
    requires c == NewClient(file, false).(rest := [], pc := c.pc, reply := c.reply)
    ensures var end := Run(AfterLine(file, |file|, Nobody, c.pc, c.reply, NewClient(b, false)),
                           [Lock(1)] + ([Chunk(1, |b|)] + []));
            end.Some? && end.value.file == file + b && |end.value.clients| == 2 && end.value.clients[0] == c
  {
    hide SeekCommand, IsShortLine, Fgets;
    var d := NewClient(b, false);
    var s4 := TwoClients(file, |file|, Nobody, c, d, [Section(FromClient(0), file)]);
    var s5 := TwoClients(file, |file|, ClientHolds(1), c, d.(pc := Receiving, turn := 1),
                         [Section(FromClient(0), file), Section(FromClient(1), [])]);
    assert Next(s4, Lock(1)) == s5;
    ShortLineStep(s5, 1, b);
    assert WriteAt(file, |file|, b) == file + b;
    RunCons(s4, Lock(1), [Chunk(1, |b|)] + []);
    RunCons(s5, Chunk(1, |b|), []);
  }

  lemma SixSteps(a: Step, b: Step, c: Step, d: Step, e: Step, f: Step)
    ensures [a, b, c, d, e, f] == [a] + ([b] + ([c] + ([d] + ([e] + ([f] + [])))))
  {
  }

  lemma SevenSteps(a: Step, b: Step, c: Step, d: Step, e: Step, f: Step, g: Step)
    ensures [a, b, c, d, e, f, g] == [a] + ([b] + ([c] + ([d] + ([e] + ([f] + ([g] + []))))))
  {
  }

  lemma TwoInputs(a: seq<byte>, b: seq<byte>)
    ensures Initial([Input(a, false), Input(b, false)])
         == TwoClients([], 0, Nobody, NewClient(a, false), NewClient(b, false), [])
  {
  }

  /** A client sends a line, is answered with it, and succeeds; the next line follows it. */
  lemma LineIsAnswered(a: seq<byte>, b: seq<byte>)
    requires IsShortLine(a) && NulFree(a) && IsShortLine(b)
    ensures var inputs := [Input(a, false), Input(b, false)];
            var steps := [Lock(0), Chunk(0, |a|), Reply(0, Sent), Reply(0, Sent), Unlock(0), Lock(1), Chunk(1, |b|)];
            var end := Run(Initial(inputs), steps);
            && end.Some? && end.value.file == a + b && |end.value.clients| == 2
            && end.value.clients[0].pc == Done(RET_OK) && end.value.clients[0].reply == a
  {
    assert NewClient(b, false).pc == Waiting;
    hide *;
    var d, later := NewClient(b, false), [Lock(1)] + ([Chunk(1, |b|)] + []);
    var c := NewClient(a, false).(rest := [], pc := Done(RET_OK), reply := a);
    TwoInputs(a, b);
    LineWritten(a, d, [Reply(0, Sent)] + ([Reply(0, Sent)] + ([Unlock(0)] + later)));
    ReplaySucceeds(a, d, later);
    NextLineAppends(a, c, b);
    SevenSteps(Lock(0), Chunk(0, |a|), Reply(0, Sent), Reply(0, Sent), Unlock(0), Lock(1), Chunk(1, |b|));
  }

  /** A send that fails on the only chunk loses the answer, but no line: the next one is appended. */
  lemma FailedSendKeepsLine(a: seq<byte>, b: seq<byte>)
    requires IsShortLine(a) && NulFree(a) && IsShortLine(b)
    ensures var inputs := [Input(a, false), Input(b, false)];
            var steps := [Lock(0), Chunk(0, |a|), Reply(0, SendFailed), Unlock(0), Lock(1), Chunk(1, |b|)];
            var end := Run(Initial(inputs), steps);
            && end.Some? && end.value.file == a + b && |end.value.clients| == 2
            && end.value.clients[0].pc == Done(RET_ERR) && end.value.clients[0].reply == []
  {
    assert NewClient(b, false).pc == Waiting;
    hide *;
    var d, later := NewClient(b, false), [Lock(1)] + ([Chunk(1, |b|)] + []);
    var c := NewClient(a, false).(rest := [], pc := Done(RET_ERR), reply := []);
    TwoInputs(a, b);
    LineWritten(a, d, [Reply(0, SendFailed)] + ([Unlock(0)] + later));
    SendFails(a, d, later);
    NextLineAppends(a, c, b);
    SixSteps(Lock(0), Chunk(0, |a|), Reply(0, SendFailed), Unlock(0), Lock(1), Chunk(1, |b|));
  }
}
