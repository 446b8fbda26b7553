// What a stream of write calls means, independent of ring and heap: which commands it
// commits, what it leaves pending, and what a failed reallocation loses.
module WriteLog {
  import opened Bytes

  /** How one write call ends; Faulted carries the bytes an interrupted user copy left behind. */
  datatype Outcome = Accepted | NoMemory | Faulted(left: seq<byte>)

  datatype Write = Write(buf: seq<byte>, outcome: Outcome)

  datatype Log = Log(committed: seq<seq<byte>>, pending: seq<byte>, lost: seq<seq<byte>>)

  const EMPTY_LOG := Log([], [], [])

  function Apply(l: Log, w: Write): Log {
    if w.buf == [] then l
    else match w.outcome
      case NoMemory => l.(pending := [], lost := if l.pending == [] then l.lost else l.lost + [l.pending])
      case Faulted(left) => l.(pending := l.pending + left)
      case Accepted =>
        if EndsLine(w.buf) then l.(committed := l.committed + [l.pending + w.buf], pending := [])
        else l.(pending := l.pending + w.buf)
  }

  function ApplyAll(l: Log, ws: seq<Write>): Log
    decreases |ws|
  {
    if ws == [] then l else ApplyAll(Apply(l, ws[0]), ws[1..])
  }

  lemma {:induction false} ApplyAllAppend(l: Log, a: seq<Write>, b: seq<Write>)
    ensures ApplyAll(l, a + b) == ApplyAll(ApplyAll(l, a), b)
    decreases |a|
  {
    if a == [] {
      assert a + b == b;
    } else {
      assert (a + b)[1..] == a[1..] + b;
      ApplyAllAppend(Apply(l, a[0]), a[1..], b);
    }
  }

  lemma ApplyAllSnoc(l: Log, ws: seq<Write>, w: Write)
    ensures ApplyAll(l, ws + [w]) == Apply(ApplyAll(l, ws), w)
  {
    ApplyAllAppend(l, ws, [w]);
    assert [w][1..] == [];
  }

  // ---- conservation ----

  /** The bytes a call adds to the device. */
  function Stored(w: Write): seq<byte> {
    if w.buf == [] then []
    else match w.outcome
      case NoMemory => []
      case Faulted(left) => left
      case Accepted => w.buf
  }

  /** The bytes a call adds are found again among the held and the lost ones. */
  lemma ApplyAddsStored(l: Log, w: Write)
    ensures |Held(Apply(l, w))| + |Concat(Apply(l, w).lost)| == |Held(l)| + |Concat(l.lost)| + |Stored(w)|
  {
    hide Concat;
    ConcatSnoc(l.committed, l.pending + w.buf);
    ConcatSnoc(l.lost, l.pending);
  }

  function StoredAll(ws: seq<Write>): seq<byte> {
    if ws == [] then [] else Stored(ws[0]) + StoredAll(ws[1..])
  }

  /** Evicted, live and pending bytes, in order. */
  function Held(l: Log): seq<byte> {
    Concat(l.committed) + l.pending
  }

  ghost predicate NoEmptyLoss(l: Log) {
    forall i :: 0 <= i < |l.lost| ==> l.lost[i] != []
  }

  lemma ApplyConserves(l: Log, w: Write)
    requires NoEmptyLoss(l)
    ensures var l' := Apply(l, w);
            && NoEmptyLoss(l')
            && |l'.lost| >= |l.lost|
            && |Held(l')| + |Concat(l'.lost)| == |Held(l)| + |Concat(l.lost)| + |Stored(w)|
            && (l'.lost == l.lost ==> Held(l') == Held(l) + Stored(w))
            && (l'.lost != l.lost ==> |Concat(l'.lost)| > |Concat(l.lost)|)
  {
    ApplyAddsStored(l, w);
    if w.buf != [] {
      if w.outcome.Accepted? && EndsLine(w.buf) {
        ConcatSnoc(l.committed, l.pending + w.buf);
      } else if w.outcome.NoMemory? && l.pending != [] {
        ConcatSnoc(l.lost, l.pending);
      }
    }
  }

  lemma {:induction false} RunConserves(l: Log, ws: seq<Write>)
    requires NoEmptyLoss(l)
    ensures var l' := ApplyAll(l, ws);
            && NoEmptyLoss(l')
            && |l'.lost| >= |l.lost|
            && |Held(l')| + |Concat(l'.lost)| == |Held(l)| + |Concat(l.lost)| + |StoredAll(ws)|
            && (|l'.lost| == |l.lost| ==> l'.lost == l.lost && Held(l') == Held(l) + StoredAll(ws))
            && (|l'.lost| > |l.lost| ==> |Concat(l'.lost)| > |Concat(l.lost)|)
    decreases |ws|
  {
    if ws != [] {
      ApplyConserves(l, ws[0]);
      RunConserves(Apply(l, ws[0]), ws[1..]);
    }
  }

  /** A call that fails to grow a non-empty pending entry. */
  predicate LosesPending(l: Log, w: Write) {
    w.buf != [] && w.outcome.NoMemory? && l.pending != []
  }

  lemma {:induction false} LossIffFailedGrowth(l: Log, ws: seq<Write>)
    ensures |ApplyAll(l, ws).lost| >= |l.lost|
    ensures |ApplyAll(l, ws).lost| == |l.lost| <==>
            forall i :: 0 <= i < |ws| ==> !LosesPending(ApplyAll(l, ws[..i]), ws[i])
    decreases |ws|
  {
    if ws != [] {
      var l1 := Apply(l, ws[0]);
      LossIffFailedGrowth(l1, ws[1..]);
      assert ws[..0] == [];
      forall i | 0 < i < |ws|
        ensures ApplyAll(l, ws[..i]) == ApplyAll(l1, ws[1..][..i - 1]) && ws[i] == ws[1..][i - 1]
      {
        assert ws[..i][1..] == ws[1..][..i - 1];
      }
      if |ApplyAll(l1, ws[1..]).lost| == |l1.lost| && |l1.lost| == |l.lost| {
        forall i | 0 <= i < |ws|
          ensures !LosesPending(ApplyAll(l, ws[..i]), ws[i])
        {
          if i > 0 {
            assert !LosesPending(ApplyAll(l1, ws[1..][..i - 1]), ws[1..][i - 1]);
          }
        }
      } else if |l1.lost| == |l.lost| {
        var i :| 0 <= i < |ws[1..]| && LosesPending(ApplyAll(l1, ws[1..][..i]), ws[1..][i]);
        assert LosesPending(ApplyAll(l, ws[..i + 1]), ws[i + 1]);
      } else {
        assert LosesPending(ApplyAll(l, ws[..0]), ws[0]);
      }
    }
  }

  /** From an empty device: evicted ++ live ++ pending is exactly the stored stream, in order,
      if and only if no reallocation of a pending entry failed. */
  lemma HeldIsStoredIffNoLoss(ws: seq<Write>)
    ensures var l := ApplyAll(EMPTY_LOG, ws);
            Held(l) == StoredAll(ws) <==>
            forall i :: 0 <= i < |ws| ==> !LosesPending(ApplyAll(EMPTY_LOG, ws[..i]), ws[i])
  {
    RunConserves(EMPTY_LOG, ws);
    LossIffFailedGrowth(EMPTY_LOG, ws);
  }

  /** The loss is real: "a", then a failed reallocation, then "\n" commits a command without the "a". */
  lemma FailedGrowthLosesBytes()
    ensures var a: byte := 97;
            var ws := [Write([a], Accepted), Write([a], NoMemory), Write([NEWLINE], Accepted)];
            ApplyAll(EMPTY_LOG, ws) == Log([[NEWLINE]], [], [[a]])
  {
    var a: byte := 97;
    var w0, w1, w2 := Write([a], Accepted), Write([a], NoMemory), Write([NEWLINE], Accepted);
    var l1, l2, l3 := Log([], [a], []), Log([], [], [[a]]), Log([[NEWLINE]], [], [[a]]);
    var none: seq<byte> := [];
    assert none + [a] == [a] && none + [NEWLINE] == [NEWLINE];
    assert Apply(EMPTY_LOG, w0) == l1;
    assert Apply(l1, w1) == l2;
    assert Apply(l2, w2) == l3;
    ApplyAllSnoc(EMPTY_LOG, [], w0);
    ApplyAllSnoc(EMPTY_LOG, [w0], w1);
    ApplyAllSnoc(EMPTY_LOG, [w0, w1], w2);
    assert ApplyAll(EMPTY_LOG, []) == EMPTY_LOG;
    assert [w0] == [] + [w0] && [w0, w1] == [w0] + [w1] && [w0, w1, w2] == [w0, w1] + [w2];
  }

  // ---- cutting the stream after each newline-terminated write ----

  predicate AllAccepted(ws: seq<Write>) {
    forall i :: 0 <= i < |ws| ==> ws[i].outcome == Accepted
  }

  /** Index of the first write that ends a line; |ws| when there is none. */
  function FirstEnding(ws: seq<Write>): (k: nat)
    ensures k <= |ws|
    ensures forall i :: 0 <= i < k ==> !EndsLine(ws[i].buf)
    ensures k < |ws| ==> EndsLine(ws[k].buf)
  {
    if ws == [] || EndsLine(ws[0].buf) then 0 else 1 + FirstEnding(ws[1..])
  }

  /** The bytes of a run of writes. */
  function Joined(ws: seq<Write>): seq<byte> {
    if ws == [] then [] else ws[0].buf + Joined(ws[1..])
  }

  /** The commands of a stream: the writes up to and including each newline-terminated one. */
  function Commands(ws: seq<Write>): seq<seq<byte>>
    decreases |ws|
  {
    var k := FirstEnding(ws);
    if k == |ws| then [] else [Joined(ws[..k]) + ws[k].buf] + Commands(ws[k + 1..])
  }

  /** What follows the last newline-terminated write. */
  function Uncut(ws: seq<Write>): seq<byte>
    decreases |ws|
  {
    var k := FirstEnding(ws);
    if k == |ws| then Joined(ws) else Uncut(ws[k + 1..])
  }

  /** Writes that end no line only pile up. */
  lemma {:induction false} OpenWritesPileUp(l: Log, ws: seq<Write>)
    requires AllAccepted(ws)
    requires forall i :: 0 <= i < |ws| ==> !EndsLine(ws[i].buf)
    ensures ApplyAll(l, ws) == l.(pending := l.pending + Joined(ws))
    decreases |ws|
  {
    if ws != [] {
      OpenWritesPileUp(Apply(l, ws[0]), ws[1..]);
    }
  }

  /** Up to its first line-ending write, a stream commits exactly one command. */
  lemma FirstCut(l: Log, open: seq<Write>, w: Write, rest: seq<Write>)
    requires AllAccepted(open) && w.outcome == Accepted && l.pending == []
    requires forall i :: 0 <= i < |open| ==> !EndsLine(open[i].buf)
    requires EndsLine(w.buf)
    ensures ApplyAll(l, open + [w] + rest)
         == ApplyAll(l.(committed := l.committed + [Joined(open) + w.buf]), rest)
  {
    ApplyAllAppend(l, open + [w], rest);
    ApplyAllSnoc(l, open, w);
    OpenWritesPileUp(l, open);
    assert l.pending + Joined(open) == Joined(open);
  }

  /** Every accepted write gives exactly the commands and the rest that cutting the stream gives. */
  lemma {:induction false} RunCutsStream(l: Log, ws: seq<Write>)
    requires AllAccepted(ws) && l.pending == []
    ensures ApplyAll(l, ws) == Log(l.committed + Commands(ws), Uncut(ws), l.lost)
    decreases |ws|
  {
    var k := FirstEnding(ws);
    if k == |ws| {
      OpenWritesPileUp(l, ws);
      assert l.committed + Commands(ws) == l.committed;
    } else {
      var cmd, rest := Joined(ws[..k]) + ws[k].buf, ws[k + 1..];
      var l1 := l.(committed := l.committed + [cmd]);
      assert ApplyAll(l, ws) == ApplyAll(l1, rest) by {
        assert ws == ws[..k] + [ws[k]] + rest;
        FirstCut(l, ws[..k], ws[k], rest);
      }
      RunCutsStream(l1, rest);
      SnocThenAppend(l.committed, cmd, Commands(rest));
    }
  }

  lemma SnocThenAppend(a: seq<seq<byte>>, x: seq<byte>, b: seq<seq<byte>>)
    ensures a + [x] + b == a + ([x] + b)
  {
  }

  // ---- shape of commands and of the pending bytes ----

  ghost predicate CommandsEndLines(l: Log) {
    forall i :: 0 <= i < |l.committed| ==> EndsLine(l.committed[i])
  }

  lemma {:induction false} CommittedCommandsEndLines(l: Log, ws: seq<Write>)
    requires CommandsEndLines(l)
    ensures CommandsEndLines(ApplyAll(l, ws))
    decreases |ws|
  {
    if ws != [] {
      CommittedCommandsEndLines(Apply(l, ws[0]), ws[1..]);
    }
  }

  /** Without copy faults the pending bytes never end in a newline. */
  lemma {:induction false} PendingIsUnfinished(l: Log, ws: seq<Write>)
    requires !EndsLine(l.pending)
    requires forall i :: 0 <= i < |ws| ==> !ws[i].outcome.Faulted?
    ensures !EndsLine(ApplyAll(l, ws).pending)
    decreases |ws|
  {
    if ws != [] {
      PendingIsUnfinished(Apply(l, ws[0]), ws[1..]);
    }
  }

  // ---- the flat view and commits ----

  /** The bytes a reader sees: the last n commands, oldest first. */
  function Flat(l: Log, n: nat): seq<byte> {
    Concat(LastN(l.committed, n))
  }

  /** A commit appends; on a full ring it also shifts every position by the oldest command's size. */
  lemma EvictionShift(l: Log, w: Write, n: nat)
    requires n > 0 && w.outcome == Accepted && EndsLine(w.buf)
    ensures var cmd := l.pending + w.buf;
            var l' := Apply(l, w);
            if |l.committed| < n then
              Flat(l', n) == Flat(l, n) + cmd
            else
              var s := |LastN(l.committed, n)[0]|;
              && s <= |Flat(l, n)|
              && Flat(l', n) == Flat(l, n)[s..] + cmd
              && forall p: nat {:trigger Flat(l', n)[p]} ::
                   p + s < |Flat(l, n)| ==> p < |Flat(l', n)| && Flat(l', n)[p] == Flat(l, n)[p + s]
  {
    var cmd, q := l.pending + w.buf, LastN(l.committed, n);
    LastNPush(l.committed, cmd, n);
    if |q| < n {
      ConcatSnoc(q, cmd);
    } else {
      ConcatSnoc(q[1..], cmd);
      var s := |q[0]|;
      assert Flat(l, n)[s..] == Concat(q[1..]);
    }
  }
}
