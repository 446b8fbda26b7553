// Whole runs of write calls on a device, with any outcome of each.
module DeviceRuns {
  import opened Bytes
  import opened Ring
  import opened Heap
  import opened WriteLog
  import opened DeviceBooks
  import opened Driver

  // ---- recording a run ----

  /** The writes `ws` carry the chunks of cs, in order. */
  ghost predicate Carries(ws: seq<Write>, cs: seq<seq<byte>>) {
    |ws| == |cs| && forall i :: 0 <= i < |ws| ==> ws[i].buf == cs[i]
  }

  /** The log and heap size of a device, for comparing two moments. */
  datatype Moment = Moment(log: Log, used: int)

  /** The outcome that the environment decides for a write, as long as memory suffices. */
  function Decided(buf: seq<byte>, env: WriteEnv): Outcome {
    if !env.grant then NoMemory else if env.copyOk then Accepted else Faulted(Leftover(env, |buf|))
  }

  /** Write i ended as its environment decides; `room` says that memory cannot have run out. */
  ghost predicate EndsAsDecided(ws: seq<Write>, env: nat -> WriteEnv, room: bool) {
    forall i :: 0 <= i < |ws| ==>
      ws[i].outcome == Decided(ws[i].buf, env(i)) || (ws[i].outcome.NoMemory? && !room)
  }

  /** From one moment to the next exactly the given chunks were written, as `ws` records, each with
      the outcome its environment decides. */
  ghost predicate Recorded(before: Moment, after: Moment, ws: seq<Write>, chunks: seq<seq<byte>>,
                           env: nat -> WriteEnv)
  {
    && Carries(ws, chunks)
    && after.log == ApplyAll(before.log, ws)
    && 0 <= after.used <= before.used + |Concat(chunks)|
    && EndsAsDecided(ws, env, before.used + |Concat(chunks)| < LOFF_T_LIMIT)
  }

  lemma NothingRecorded(now: Moment, env: nat -> WriteEnv)
    requires now.used >= 0
    ensures Recorded(now, now, [], [], env)
  {
  }

  /** One more device write. */
  lemma RecordWrite(before: Moment, mid: Moment, after: Moment, ws: seq<Write>, chunks: seq<seq<byte>>,
                    heap: Heap, env: nat -> WriteEnv, buf: seq<byte>)
    requires Recorded(before, mid, ws, chunks, env) && heap.used == mid.used
    requires var w := Write(buf, OutcomeOf(heap, buf, env(|ws|))); after.log == Apply(mid.log, w)
    requires 0 <= after.used <= mid.used + |buf|
    ensures Recorded(before, after, ws + [Write(buf, OutcomeOf(heap, buf, env(|ws|)))], chunks + [buf], env)
  {
    ConcatSnoc(chunks, buf);
    ApplyAllSnoc(before.log, ws, Write(buf, OutcomeOf(heap, buf, env(|ws|))));
  }

  /** With memory for everything and no fault, every write is accepted. */
  ghost predicate Generous(env: nat -> WriteEnv) {
    forall i: nat :: env(i).grant && env(i).copyOk
  }

  lemma GenerousAccepts(ws: seq<Write>, env: nat -> WriteEnv)
    requires Generous(env) && EndsAsDecided(ws, env, true)
    ensures AllAccepted(ws)
  {
  }

  // ---- what the device holds ----

  /** The commands in the ring, oldest first, as the heap holds them. */
  ghost function RingContents(dev: AesdDevice): seq<seq<byte>>
    requires dev.Valid()
    reads dev, dev.buffer, dev.buffer.entry
  {
    RingIsLastCommands(dev.buffer.View(), dev.books);
    Contents(dev.buffer.View().Live(), dev.heap.blocks)
  }

  /** The bytes of the pending entry, as the heap holds them. */
  ghost function PendingBytes(dev: AesdDevice): seq<byte>
    requires dev.Valid()
    reads dev, dev.buffer, dev.buffer.entry
  {
    if dev.currentEntry.buffptr == NULL then [] else dev.heap.blocks[dev.currentEntry.buffptr]
  }

  /** The contents of the blocks that nothing points to any more. */
  ghost function LeakedContents(dev: AesdDevice): seq<seq<byte>>
    requires dev.Valid()
    reads dev, dev.buffer, dev.buffer.entry
  {
    var ps, blocks := dev.books.leaked, dev.heap.blocks;
    seq(|ps|, i requires 0 <= i < |ps| => blocks[ps[i]])
  }

  /** Ring, pending entry and leaked blocks against the log. */
  lemma DeviceHoldsLog(dev: AesdDevice)
    requires dev.Valid()
    ensures RingContents(dev) == LastN(dev.books.log.committed, dev.books.capacity)
    ensures PendingBytes(dev) == dev.books.log.pending
    ensures LeakedContents(dev) == dev.books.log.lost
  {
    RingIsLastCommands(dev.buffer.View(), dev.books);
    PendingEntry(dev.books);
  }

  /** The calls that lost the pending entry. */
  ghost predicate NoCallLoses(l: Log, ws: seq<Write>) {
    forall i :: 0 <= i < |ws| ==> !LosesPending(ApplyAll(l, ws[..i]), ws[i])
  }

  /** The commands that have left the ring. */
  function EvictedCommands(l: Log, capacity: nat): seq<seq<byte>> {
    if |l.committed| <= capacity then [] else l.committed[..|l.committed| - capacity]
  }

  lemma EvictedThenLive(l: Log, capacity: nat)
    ensures Concat(EvictedCommands(l, capacity)) + Concat(LastN(l.committed, capacity)) + l.pending == Held(l)
  {
    if |l.committed| > capacity {
      ConcatSplit(l.committed, |l.committed| - capacity);
    }
  }

  /** What a run of writes from an empty log means for the log it ends in. */
  lemma RunOfWrites(l: Log, ws: seq<Write>, capacity: nat)
    requires l == ApplyAll(EMPTY_LOG, ws)
    ensures AllAccepted(ws) ==> l == Log(Commands(ws), Uncut(ws), [])
    ensures Concat(EvictedCommands(l, capacity)) + Concat(LastN(l.committed, capacity)) + l.pending == StoredAll(ws)
            <==> NoCallLoses(EMPTY_LOG, ws)
    ensures l.lost == [] <==> NoCallLoses(EMPTY_LOG, ws)
  {
    EvictedThenLive(l, capacity);
    HeldIsStoredIffNoLoss(ws);
    LossIffFailedGrowth(EMPTY_LOG, ws);
    if AllAccepted(ws) {
      RunCutsStream(EMPTY_LOG, ws);
      assert [] + Commands(ws) == Commands(ws);
    }
  }

  /** What each call returned. */
  ghost predicate Returned(rets: seq<int>, ws: seq<Write>, bufs: seq<seq<byte>>) {
    && |rets| == |ws| == |bufs|
    && forall i :: 0 <= i < |rets| ==>
         rets[i] == if bufs[i] == [] then 0
                    else match ws[i].outcome case Accepted => |bufs[i]| case NoMemory => -12 case Faulted(_) => -14
  }

  /** aesd_write, call after call on a freshly initialised device, each ending as its environment
      decides. The ring holds the last commands of the log and the heap the pending bytes; evicted,
      ring and pending bytes are the stored stream, and no block leaks, if and only if no call fails
      to grow a pending entry; and when every call is accepted, the commands are the stream cut after
      each line-ending write. */
  method RunWrites(dev: AesdDevice, bufs: seq<seq<byte>>, env: nat -> WriteEnv)
    returns (rets: seq<int>, ghost ws: seq<Write>)
    requires dev.Valid() && dev.books == FreshBooks(dev.books.capacity)
    modifies dev, dev.buffer, dev.buffer.entry
    ensures dev.Valid() && dev.books.capacity == old(dev.books.capacity)
    ensures Carries(ws, bufs) && Returned(rets, ws, bufs)
    ensures EndsAsDecided(ws, env, |Concat(bufs)| < LOFF_T_LIMIT)
    ensures var n, log := dev.books.capacity, ApplyAll(EMPTY_LOG, ws);
            && RingContents(dev) == LastN(log.committed, n)
            && PendingBytes(dev) == log.pending
            && LeakedContents(dev) == log.lost
            && (Concat(EvictedCommands(log, n)) + Concat(RingContents(dev)) + PendingBytes(dev) == StoredAll(ws)
                <==> NoCallLoses(EMPTY_LOG, ws))
            && (LeakedContents(dev) == [] <==> NoCallLoses(EMPTY_LOG, ws))
            && (AllAccepted(ws) ==>
                  RingContents(dev) == LastN(Commands(ws), n) && PendingBytes(dev) == Uncut(ws))
    ensures Generous(env) && |Concat(bufs)| < LOFF_T_LIMIT ==>
              AllAccepted(ws) && forall i :: 0 <= i < |rets| ==> rets[i] == |bufs[i]|
  {
    hide *;
    rets, ws := [], [];
    ghost var start := Moment(EMPTY_LOG, 0);
    FreshDevice(dev);
    NothingRecorded(start, env);
    for i := 0 to |bufs|
      invariant dev.Valid() && dev.books.capacity == old(dev.books.capacity)
      invariant |rets| == |ws| == i
      invariant Returned(rets, ws, bufs[..i])
      invariant Recorded(start, Moment(dev.books.log, dev.heap.used), ws, bufs[..i], env)
    {
      ghost var mid, heap := Moment(dev.books.log, dev.heap.used), dev.heap;
      ghost var w := Write(bufs[i], OutcomeOf(dev.heap, bufs[i], env(i)));
      var ret := dev.AesdWrite(bufs[i], env(i));
      RecordWrite(start, mid, Moment(dev.books.log, dev.heap.used), ws, bufs[..i], heap, env, bufs[i]);
      NextReturned(rets, ws, bufs[..i], ret, heap, bufs[i], env(i));
      assert bufs[..i + 1] == bufs[..i] + [bufs[i]];
      rets, ws := rets + [ret], ws + [w];
    }
    assert bufs[..|bufs|] == bufs;
    WholeRun(start, Moment(dev.books.log, dev.heap.used), rets, ws, bufs, env);
    DeviceHoldsLog(dev);
    RunOfWrites(dev.books.log, ws, dev.books.capacity);
  }

  lemma NextReturned(rets: seq<int>, ws: seq<Write>, bufs: seq<seq<byte>>, ret: int,
                     heap: Heap, buf: seq<byte>, env: WriteEnv)
    requires Returned(rets, ws, bufs)
    requires ret == if buf == [] then 0
                    else if !heap.Grants(env.grant, |buf|) then -12
                    else if !env.copyOk then -14
                    else |buf|
    ensures Returned(rets + [ret], ws + [Write(buf, OutcomeOf(heap, buf, env))], bufs + [buf])
  {
  }

  lemma FreshDevice(dev: AesdDevice)
    requires dev.Valid() && dev.books == FreshBooks(dev.books.capacity)
    ensures Moment(dev.books.log, dev.heap.used) == Moment(EMPTY_LOG, 0)
    ensures Returned([], [], [])
  {
  }

  lemma WholeRun(start: Moment, end: Moment, rets: seq<int>, ws: seq<Write>, bufs: seq<seq<byte>>,
                 env: nat -> WriteEnv)
    requires Recorded(start, end, ws, bufs, env) && start == Moment(EMPTY_LOG, 0)
    requires Returned(rets, ws, bufs)
    ensures Carries(ws, bufs) && end.log == ApplyAll(EMPTY_LOG, ws)
    ensures EndsAsDecided(ws, env, |Concat(bufs)| < LOFF_T_LIMIT)
    ensures |rets| == |bufs|
    ensures Generous(env) && |Concat(bufs)| < LOFF_T_LIMIT ==>
              AllAccepted(ws) && forall i :: 0 <= i < |rets| ==> rets[i] == |bufs[i]|
  {
    if Generous(env) && |Concat(bufs)| < LOFF_T_LIMIT {
      GenerousAccepts(ws, env);
    }
  }
}
