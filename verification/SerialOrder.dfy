// The sections of a run as a function of its steps alone: whose they are, in which order, and what
// the clock wrote.
module SerialOrder {
  import opened Bytes
  import opened SeekText
  import opened Framing
  import opened Serial
  import opened SerialRuns

  // ---- who entered, in order ----

  ghost function Authors(sections: seq<Section>): (authors: seq<Author>)
    ensures |authors| == |sections|
  {
    seq(|sections|, k requires 0 <= k < |sections| => sections[k].author)
  }

  /** The timestamp the clock has formatted last. */
  function StampAfter(step: Step, stamp: seq<byte>): seq<byte> {
    if step.Tick? then step.stamp else stamp
  }

  function EnteredBy(step: Step, stamp: seq<byte>): seq<Author> {
    match step
    case Lock(i) => [FromClient(i)]
    case ClockLock => [FromClock(stamp)]
    case _ => []
  }

  /** The lock steps of a run; the clock enters with the last timestamp of a Tick. */
  function Entered(steps: seq<Step>, stamp: seq<byte>): seq<Author> {
    if steps == [] then []
    else EnteredBy(steps[0], stamp) + Entered(steps[1..], StampAfter(steps[0], stamp))
  }

  /** A timestamp that is not yet written is the last one formatted. */
  ghost predicate HasStamp(s: State, stamp: seq<byte>) {
    s.clock.Formatted? || s.clock.Writing? ==> s.clock.stamp == stamp
  }

  lemma StepEnters(s: State, step: Step, stamp: seq<byte>)
    requires CanStep(s, step) && HasStamp(s, stamp)
    ensures HasStamp(Next(s, step), StampAfter(step, stamp))
    ensures Authors(Next(s, step).sections) == Authors(s.sections) + EnteredBy(step, stamp)
  {
    hide WriteAt, Fgets, SeekCommand, CString;
  }

  /** In every run the sections belong to the threads that took the lock, in that order, and the
      clock's carry the timestamps of its ticks. */
  lemma {:induction false} RunEnters(s: State, steps: seq<Step>, stamp: seq<byte>)
    requires Run(s, steps).Some? && HasStamp(s, stamp)
    ensures Authors(Run(s, steps).value.sections) == Authors(s.sections) + Entered(steps, stamp)
    decreases |steps|
  {
    hide Next, Enabled, HasStamp, EnteredBy;
    if steps != [] {
      StepEnters(s, steps[0], stamp);
      RunEnters(Next(s, steps[0]), steps[1..], StampAfter(steps[0], stamp));
      assert Authors(s.sections) + EnteredBy(steps[0], stamp) + Entered(steps[1..], StampAfter(steps[0], stamp))
          == Authors(s.sections) + Entered(steps, stamp);
    }
  }

  lemma SectionsInLockOrder(inputs: seq<Input>, steps: seq<Step>)
    requires Run(Initial(inputs), steps).Some?
    ensures Authors(Run(Initial(inputs), steps).value.sections) == Entered(steps, [])
  {
    hide Run;
    RunEnters(Initial(inputs), steps, []);
    assert [] + Entered(steps, []) == Entered(steps, []);
  }

  // ---- what the clock wrote ----

  /** The data of the clock's sections, in order. */
  ghost function ClockDatas(sections: seq<Section>): seq<seq<byte>> {
    if sections == [] then []
    else
      var last := sections[|sections| - 1];
      ClockDatas(sections[..|sections| - 1]) + if last.author.FromClock? then [last.data] else []
  }

  function WrittenBy(step: Step, stamp: seq<byte>): seq<seq<byte>> {
    if step.ClockWrite? then [stamp[..Min(step.written, |stamp|)]] else []
  }

  /** What the clock's writes leave in the file: each timestamp as far as the stream took it. */
  function ClockWrites(steps: seq<Step>, stamp: seq<byte>): seq<seq<byte>> {
    if steps == [] then []
    else WrittenBy(steps[0], stamp) + ClockWrites(steps[1..], StampAfter(steps[0], stamp))
  }

  predicate ShortWrite(step: Step, stamp: seq<byte>) {
    step.ClockWrite? && step.written < |stamp|
  }

  /** One of the clock's writes was short. */
  predicate ClockFails(steps: seq<Step>, stamp: seq<byte>) {
    steps != [] && (ShortWrite(steps[0], stamp) || ClockFails(steps[1..], StampAfter(steps[0], stamp)))
  }

  /** The clock has written `done`, and has stopped if it failed. */
  ghost predicate ClockDone(s: State, done: seq<seq<byte>>, failed: bool) {
    && ClockDatas(s.sections) == done + (if s.clock.Writing? then [[]] else [])
    && (failed <==> s.clock == Stopping(RET_ERR) || s.clock == Stopped)
  }

  ghost predicate ClockAccount(s: State, stamp: seq<byte>, done: seq<seq<byte>>, failed: bool) {
    HasStamp(s, stamp) && ClockDone(s, done, failed)
  }

  lemma ClockDatasSnoc(sections: seq<Section>, x: Section)
    ensures ClockDatas(sections + [x]) == ClockDatas(sections) + if x.author.FromClock? then [x.data] else []
  {
    assert (sections + [x])[..|sections|] == sections;
  }

  /** What a thread writes into the last section. */
  lemma ClockDatasPut(s: State, data: seq<byte>)
    requires s.pos <= |s.file| && s.sections != []
    ensures var s', last := Put(s, data), |s.sections| - 1;
            ClockDatas(s'.sections) == ClockDatas(s.sections[..last])
              + if s.sections[last].author.FromClock? then [s.sections[last].data + data] else []
  {
    hide WriteAt;
    var s', last := Put(s, data), |s.sections| - 1;
    assert s'.sections[..last] == s.sections[..last];
  }

  /** A client's chunk goes into a section of its own. */
  lemma ChunkKeepsClock(s: State, i: nat, w: nat)
    requires Invariant(s) && CanStep(s, Chunk(i, w))
    ensures var s' := Next(s, Chunk(i, w)); ClockDatas(s'.sections) == ClockDatas(s.sections) && s'.clock == s.clock
  {
    OthersAreOutside(s, i);
    hide Invariant, ClockDatas, Put, Fgets, SeekCommand, FirstChunk;
    var c := s.clients[i];
    var last := |s.sections| - 1;
    assert s.sections == s.sections[..last] + [s.sections[last]];
    ClockDatasSnoc(s.sections[..last], s.sections[last]);
    PutKeepsClock(s);
    if Fgets(c.rest, c.broken).Some? {
      var chunk := Fgets(c.rest, c.broken).value;
      ClockDatasPut(s, chunk);
      if w < |chunk| {
        ClockDatasPut(s, chunk[..w]);
      }
    }
  }

  lemma PutKeepsClock(s: State)
    requires s.pos <= |s.file| && s.sections != []
    ensures forall data :: Put(s, data).clock == s.clock
  {
  }

  lemma ClockStepAccount(s: State, step: Step, stamp: seq<byte>, done: seq<seq<byte>>, failed: bool)
    requires Invariant(s) && CanStep(s, step) && ClockAccount(s, stamp, done, failed)
    requires step.ClockLock? || step.ClockWrite?
    ensures ClockAccount(Next(s, step), StampAfter(step, stamp), done + WrittenBy(step, stamp),
                         failed || ShortWrite(step, stamp))
  {
    hide ClockDatas, WriteAt, ClientOk, StampsOk, StreamOk, MutualExclusion;
    if step.ClockLock? {
      ClockDatasSnoc(s.sections, Section(FromClock(s.clock.stamp), []));
      assert done + [] == done;
    } else {
      var data := stamp[..Min(step.written, |stamp|)];
      var last := |s.sections| - 1;
      assert s.sections == s.sections[..last] + [s.sections[last]];
      ClockDatasSnoc(s.sections[..last], s.sections[last]);
      ClockDatasPut(s, data);
      assert [] + data == data && stamp[..|stamp|] == stamp;
      assert (done + [[]])[..|done|] == done;
      assert (ClockDatas(s.sections[..last]) + [[]])[..|done|] == ClockDatas(s.sections[..last]);
    }
  }

  /** All other steps write nothing. */
  lemma QuietStepKeepsClock(s: State, step: Step)
    requires CanStep(s, step) && (step.Reply? || step.Unlock? || step.Tick? || step.ClockUnlock?)
    ensures Next(s, step).sections == s.sections
    ensures step.Reply? || step.Unlock? ==> Next(s, step).clock == s.clock
  {
    hide Fgets, CString;
  }

  lemma StepClock(s: State, step: Step, stamp: seq<byte>, done: seq<seq<byte>>, failed: bool)
    requires Invariant(s) && CanStep(s, step) && ClockAccount(s, stamp, done, failed)
    ensures ClockAccount(Next(s, step), StampAfter(step, stamp), done + WrittenBy(step, stamp),
                         failed || ShortWrite(step, stamp))
  {
    assert done + [] == done;
    hide Invariant, ClockDatas;
    match step
    case ClockLock => ClockStepAccount(s, step, stamp, done, failed);
    case ClockWrite(_) => ClockStepAccount(s, step, stamp, done, failed);
    case Chunk(i, w) =>
      ChunkKeepsClock(s, i, w);
      hide Next;
    case Lock(i) => ClockDatasSnoc(s.sections, Section(FromClient(i), []));
    case Tick(_) => QuietStepKeepsClock(s, step);
    case ClockUnlock => QuietStepKeepsClock(s, step);
    case Reply(_, _) =>
      QuietStepKeepsClock(s, step);
      hide Next;
    case Unlock(_) =>
      QuietStepKeepsClock(s, step);
      hide Next;
  }

  lemma {:induction false} RunClock(s: State, steps: seq<Step>, stamp: seq<byte>, done: seq<seq<byte>>, failed: bool)
    requires Invariant(s) && Run(s, steps).Some? && ClockAccount(s, stamp, done, failed)
    ensures ClockDone(Run(s, steps).value, done + ClockWrites(steps, stamp), failed || ClockFails(steps, stamp))
    decreases |steps|
  {
    hide Invariant, Next, Enabled, ClockDone, HasStamp, WrittenBy, ShortWrite;
    if steps == [] {
      assert done + [] == done;
    } else {
      var w, stamp1 := WrittenBy(steps[0], stamp), StampAfter(steps[0], stamp);
      StepKeeps(s, steps[0]);
      StepClock(s, steps[0], stamp, done, failed);
      RunClock(Next(s, steps[0]), steps[1..], stamp1, done + w, failed || ShortWrite(steps[0], stamp));
      assert done + w + ClockWrites(steps[1..], stamp1) == done + (w + ClockWrites(steps[1..], stamp1));
    }
  }

  /** In every run the clock's sections hold its timestamps in order, each as far as the stream took
      it, the one being written still empty; and the clock stops if and only if a write was short. */
  lemma ClockOutcome(inputs: seq<Input>, steps: seq<Step>)
    requires forall i :: 0 <= i < |inputs| ==> NulFree(inputs[i].sent)
    requires Run(Initial(inputs), steps).Some?
    ensures var s := Run(Initial(inputs), steps).value;
            && ClockDatas(s.sections) == ClockWrites(steps, []) + (if s.clock.Writing? then [[]] else [])
            && (s.clock == Stopping(RET_ERR) || s.clock == Stopped <==> ClockFails(steps, []))
  {
    hide Run, Invariant;
    InitialInvariant(inputs);
    RunClock(Initial(inputs), steps, [], [], false);
    assert [] + ClockWrites(steps, []) == ClockWrites(steps, []);
  }
}
