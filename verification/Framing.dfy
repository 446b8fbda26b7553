// The receive loop of server_protocol as a function of its input: fgets chunks, seek commands,
// and the end of the line. Also the chunks of the replay loop.
module Framing {
  import opened Bytes
  import opened SeekText

  /** fgets fills a buffer of BUFFER_SIZE == 256 bytes with at most 255 and a terminating NUL. */
  const CHUNK: nat := 255

  datatype Ret = RET_OK | RET_ERR

  /** Index of the first newline; |s| when there is none. */
  function NewlineIndex(s: seq<byte>): (k: nat)
    ensures k <= |s|
    ensures forall i :: 0 <= i < k ==> s[i] != NEWLINE
    ensures k < |s| ==> s[k] == NEWLINE
  {
    if s == [] || s[0] == NEWLINE then 0 else 1 + NewlineIndex(s[1..])
  }

  lemma NewlineIndexIs(s: seq<byte>, k: nat)
    requires k <= |s|
    requires forall i :: 0 <= i < k ==> s[i] != NEWLINE
    requires k < |s| ==> s[k] == NEWLINE
    ensures NewlineIndex(s) == k
  {
  }

  // ---- fgets(buffer, 256, stream), section 7.21.7.2 of ISO C11 ----

  function ChunkLength(s: seq<byte>): (n: nat)
    ensures n <= |s| && n <= CHUNK
    ensures s != [] ==> n > 0
  {
    Min(CHUNK, Min(NewlineIndex(s) + 1, |s|))
  }

  /** At most 255 bytes, up to and including the first newline. */
  function FirstChunk(s: seq<byte>): seq<byte> {
    s[..ChunkLength(s)]
  }

  /** The stream is what can still be read, then either end of file or, if broken, an error. */
  function Fgets(s: seq<byte>, broken: bool): Option<seq<byte>> {
    var c := FirstChunk(s);
    if s == [] || (broken && |c| < CHUNK && !EndsLine(c)) then None else Some(c)
  }

  /** Exactly what fgets delivers: a beginning of the input of at most 255 bytes with no newline
      before its last byte, which is cut short only by a newline or the end of file. */
  lemma FgetsDelivers(s: seq<byte>, broken: bool, c: seq<byte>)
    ensures Fgets(s, broken) == Some(c) <==>
            && c != [] && c <= s && |c| <= 255
            && (forall i :: 0 <= i < |c| - 1 ==> c[i] != NEWLINE)
            && (|c| == 255 || EndsLine(c) || (c == s && !broken))
  {
    if c != [] && c <= s && |c| <= 255 && (forall i :: 0 <= i < |c| - 1 ==> c[i] != NEWLINE) {
      assert forall i :: 0 <= i < |c| ==> s[i] == c[i];
      if EndsLine(c) {
        NewlineIndexIs(s, |c| - 1);
      } else {
        assert c[|c| - 1] != NEWLINE && NewlineIndex(s) >= |c|;
      }
      assert s[..|c|] == c;
    }
  }

  // ---- the receive loop ----

  datatype End = Line | Seek(writeCmd: nat, writeCmdOffset: nat) | Failed

  datatype Received = Received(chunks: seq<seq<byte>>, end: End, rest: seq<byte>)

  /** The chunks written to the output file, how the loop ends, and the input left unread. */
  function Receive(s: seq<byte>, broken: bool): Received
    decreases |s|
  {
    match Fgets(s, broken)
    case None => Received([], Failed, s)
    case Some(c) =>
      match SeekCommand(c)
      case Some(pair) => Received([], Seek(pair.0, pair.1), s[|c|..])
      case None =>
        if EndsLine(c) then Received([c], Line, s[|c|..])
        else
          var r := Receive(s[|c|..], broken);
          Received([c] + r.chunks, r.end, r.rest)
  }

  /** How a loop over `s` may end: at a line end, with nothing more to read, or at the chunk c that
      asks for a seek. */
  ghost predicate EndedWell(s: seq<byte>, broken: bool, r: Received, c: seq<byte>) {
    match r.end
    case Line => s == Concat(r.chunks) + r.rest && r.chunks != [] && EndsLine(r.chunks[|r.chunks| - 1])
    case Failed => s == Concat(r.chunks) + r.rest && Fgets(r.rest, broken) == None
    case Seek(x, y) =>
      && s == Concat(r.chunks) + (c + r.rest)
      && Fgets(c + r.rest, broken) == Some(c) && SeekCommand(c) == Some((x, y))
  }

  /** All chunks are full, but possibly the last before a line end or end of file. */
  ghost predicate FullButLast(r: Received) {
    forall i :: 0 <= i < |r.chunks| && (i < |r.chunks| - 1 || r.end.Seek?) ==> |r.chunks[i]| == 255
  }

  /** What the loop has done when it ends: it wrote every chunk it read, none of them a seek command,
      and ended well. */
  lemma {:induction false} ReceiveAccount(s: seq<byte>, broken: bool) returns (c: seq<byte>)
    ensures var r := Receive(s, broken);
            NoSeekChunk(r.chunks) && FullButLast(r) && EndedWell(s, broken, r, c)
    decreases |s|
  {
    hide SeekCommand, NewlineIndex, ChunkLength, Concat;
    c := FirstChunk(s);
    if Fgets(s, broken).Some? && SeekCommand(c).None? {
      var chunk, tail := c, s[|c|..];
      FirstSeekChunk(chunk, []);
      assert s == chunk + tail && [chunk] + [] == [chunk];
      if EndsLine(chunk) {
        ConcatOne(chunk);
      } else {
        c := ReceiveAccount(tail, broken);
        if |chunk| < CHUNK {
          ShortChunkIsLast(s, broken);
        }
        AccountOfMore(chunk, tail, broken, Receive(tail, broken), c);
      }
    } else {
      NothingYet();
      assert c + s[|c|..] == s && [] + s == s;
    }
  }

  lemma NothingYet()
    ensures Concat([]) == []
  {
  }

  lemma AccountOfMore(chunk: seq<byte>, tail: seq<byte>, broken: bool, r: Received, c: seq<byte>)
    requires SeekCommand(chunk).None?
    requires |chunk| == 255 || (r.chunks == [] && r.end == Failed)
    requires NoSeekChunk(r.chunks) && FullButLast(r) && EndedWell(tail, broken, r, c)
    ensures var r' := Received([chunk] + r.chunks, r.end, r.rest);
            NoSeekChunk(r'.chunks) && FullButLast(r') && EndedWell(chunk + tail, broken, r', c)
  {
    hide SeekCommand, Fgets, Concat;
    ConcatOf(chunk, r.chunks);
    FirstSeekChunk(chunk, r.chunks);
    assert chunk + (Concat(r.chunks) + r.rest) == (chunk + Concat(r.chunks)) + r.rest;
    assert chunk + (Concat(r.chunks) + (c + r.rest)) == (chunk + Concat(r.chunks)) + (c + r.rest);
  }

  lemma ConcatOf(c: seq<byte>, cs: seq<seq<byte>>)
    ensures Concat([c] + cs) == c + Concat(cs)
  {
    assert ([c] + cs)[1..] == cs;
  }

  /** After a chunk that is neither full nor a line there is nothing more to read. */
  lemma ShortChunkIsLast(s: seq<byte>, broken: bool)
    requires Fgets(s, broken).Some? && !EndsLine(FirstChunk(s)) && |FirstChunk(s)| < CHUNK
    ensures Receive(s[|FirstChunk(s)|..], broken) == Received([], Failed, [])
  {
  }

  // ---- a line cut into chunks ----

  function Split(line: seq<byte>): (cs: seq<seq<byte>>)
    ensures |cs| > 0
    decreases |line|
  {
    if |line| <= CHUNK then [line] else [line[..CHUNK]] + Split(line[CHUNK..])
  }

  lemma {:induction false} SplitJoins(line: seq<byte>)
    ensures Concat(Split(line)) == line
    ensures line != [] ==> |Split(line)| == (|line| + CHUNK - 1) / CHUNK
    decreases |line|
  {
    if |line| <= CHUNK {
      ConcatOne(line);
    } else {
      SplitJoins(line[CHUNK..]);
      assert Split(line)[1..] == Split(line[CHUNK..]);
    }
  }

  lemma {:induction false} SplitAt(line: seq<byte>, i: nat)
    requires i < |Split(line)|
    ensures 255 * i <= |line| && Split(line)[i] == line[255 * i..Min(255 * (i + 1), |line|)]
    decreases |line|
  {
    if i > 0 {
      SplitAt(line[CHUNK..], i - 1);
    }
  }

  predicate NoSeekChunk(chunks: seq<seq<byte>>) {
    forall i :: 0 <= i < |chunks| ==> SeekCommand(chunks[i]).None?
  }

  /** The bytes of s up to and including its first newline. */
  function FirstLine(s: seq<byte>): seq<byte>
    requires NewlineIndex(s) < |s|
  {
    s[..NewlineIndex(s) + 1]
  }

  lemma NewlineAfter(s: seq<byte>, n: nat)
    requires n <= NewlineIndex(s)
    ensures NewlineIndex(s[n..]) == NewlineIndex(s) - n
  {
    NewlineIndexIs(s[n..], NewlineIndex(s) - n);
  }

  /** With a newline in the input, the loop ends on that line exactly when none of its 255-byte
      chunks is a seek command; it has then written the line, consumed it, and nothing more. */
  lemma {:induction false} LineFraming(s: seq<byte>, broken: bool)
    requires NewlineIndex(s) < |s|
    ensures var r, line := Receive(s, broken), FirstLine(s);
            && (r.end == Line <==> NoSeekChunk(Split(line)))
            && (r.end == Line ==> r.chunks == Split(line) && r.rest == s[|line|..])
            && (r.end != Line ==> r.end.Seek?)
    decreases |s|
  {
    hide SeekCommand;
    var line, c := FirstLine(s), FirstChunk(s);
    if |line| <= CHUNK {
      assert c == line;
      assert Split(line) == [c];
      assert NoSeekChunk([c]) <==> SeekCommand([c][0]).None?;
    } else {
      NewlineAfter(s, CHUNK);
      assert c == line[..CHUNK] && |c| == CHUNK && !EndsLine(c);
      LineFraming(s[CHUNK..], broken);
      var tail := FirstLine(s[CHUNK..]);
      assert tail == line[CHUNK..];
      assert Split(line) == [c] + Split(tail);
      FirstSeekChunk(c, Split(tail));
      assert s[CHUNK..][|tail|..] == s[|line|..];
    }
  }

  lemma FirstSeekChunk(c: seq<byte>, cs: seq<seq<byte>>)
    ensures NoSeekChunk([c] + cs) <==> SeekCommand(c).None? && NoSeekChunk(cs)
  {
    if NoSeekChunk([c] + cs) {
      assert ([c] + cs)[0] == c;
      forall i | 0 <= i < |cs|
        ensures SeekCommand(cs[i]).None?
      {
        assert cs[i] == ([c] + cs)[i + 1];
      }
    }
  }

  /** What fgets can deliver of newline-free input: all of it before an end of file, but only
      full chunks before a read error. */
  function Readable(s: seq<byte>, broken: bool): (d: seq<byte>)
    ensures d <= s
    ensures if broken then |d| % 255 == 0 && |s| - |d| < 255 else d == s
  {
    if broken then s[..|s| - |s| % CHUNK] else s
  }

  /** Input that ends without a newline: what can be read of it is written, and then the session
      fails, unless one of its chunks is a seek command. */
  lemma {:induction false} UnfinishedLine(s: seq<byte>, broken: bool)
    requires NewlineIndex(s) == |s|
    ensures var r, d := Receive(s, broken), Readable(s, broken);
            && (r.end == Failed <==> d == [] || NoSeekChunk(Split(d)))
            && (r.end == Failed ==> Concat(r.chunks) == d && r.rest == s[|d|..])
            && (r.end != Failed ==> r.end.Seek?)
    decreases |s|
  {
    hide SeekCommand, Receive, Concat;
    if |s| < CHUNK {
      ShortInput(s, broken);
    } else {
      var c, tail := s[..CHUNK], s[CHUNK..];
      NewlineAfter(s, CHUNK);
      FirstPart(s);
      UnfinishedLine(tail, broken);
      LongInput(c, tail, broken);
    }
  }

  lemma FirstPart(s: seq<byte>)
    requires NewlineIndex(s) == |s| >= CHUNK
    ensures NewlineIndex(s[..CHUNK]) == CHUNK && s == s[..CHUNK] + s[CHUNK..]
  {
    NewlineIndexIs(s[..CHUNK], CHUNK);
  }

  /** Less than a full chunk. */
  lemma ShortInput(s: seq<byte>, broken: bool)
    requires NewlineIndex(s) == |s| < CHUNK
    ensures var r, d := Receive(s, broken), Readable(s, broken);
            && (r.end == Failed <==> d == [] || NoSeekChunk(Split(d)))
            && (r.end == Failed ==> Concat(r.chunks) == d && r.rest == s[|d|..])
            && (r.end != Failed ==> r.end.Seek?)
  {
    hide SeekCommand;
    if !broken && s != [] {
      assert FirstChunk(s) == s && s[|s|..] == [];
      assert Split(s) == [s];
      FirstSeekChunk(s, []);
      assert [s] + [] == [s];
      ConcatOne(s);
    }
  }

  /** A full chunk, then the rest. */
  lemma LongInput(c: seq<byte>, tail: seq<byte>, broken: bool)
    requires |c| == CHUNK && NewlineIndex(c) == CHUNK
    requires var r, d := Receive(tail, broken), Readable(tail, broken);
             && (r.end == Failed <==> d == [] || NoSeekChunk(Split(d)))
             && (r.end == Failed ==> Concat(r.chunks) == d && r.rest == tail[|d|..])
             && (r.end != Failed ==> r.end.Seek?)
    ensures var s := c + tail;
            var r, d := Receive(s, broken), Readable(s, broken);
            && (r.end == Failed <==> d == [] || NoSeekChunk(Split(d)))
            && (r.end == Failed ==> Concat(r.chunks) == d && r.rest == s[|d|..])
            && (r.end != Failed ==> r.end.Seek?)
  {
    hide SeekCommand, Receive, NewlineIndex;
    var s, d := c + tail, Readable(tail, broken);
    ReadableAfterChunk(c, tail, broken);
    SplitAfterChunk(c, d);
    FirstSeekChunk(c, if d == [] then [] else Split(d));
    if SeekCommand(c).None? {
      FullChunk(c, tail, broken);
      var r := Receive(tail, broken);
      assert ([c] + r.chunks)[1..] == r.chunks;
    } else {
      FullChunkSeeks(c, tail, broken);
    }
  }

  lemma ReadableAfterChunk(c: seq<byte>, tail: seq<byte>, broken: bool)
    requires |c| == CHUNK
    ensures Readable(c + tail, broken) == c + Readable(tail, broken)
    ensures (c + tail)[|c + Readable(tail, broken)|..] == tail[|Readable(tail, broken)|..]
  {
  }

  lemma SplitAfterChunk(c: seq<byte>, d: seq<byte>)
    requires |c| == CHUNK
    ensures Split(c + d) == [c] + if d == [] then [] else Split(d)
  {
    if d == [] {
      assert c + d == c;
    } else {
      assert (c + d)[..CHUNK] == c && (c + d)[CHUNK..] == d;
    }
  }

  lemma ChunkIsLine(line: seq<byte>, more: seq<byte>)
    requires 0 < |line| <= CHUNK
    requires forall i :: 0 <= i < |line| ==> (line[i] == NEWLINE <==> i == |line| - 1)
    ensures FirstChunk(line + more) == line
  {
    NewlineIndexIs(line + more, |line| - 1);
  }

  lemma FullChunkIsFirst(c: seq<byte>, tail: seq<byte>, broken: bool)
    requires |c| == CHUNK && NewlineIndex(c) == CHUNK
    ensures Fgets(c + tail, broken) == Some(c) && (c + tail)[CHUNK..] == tail && !EndsLine(c)
  {
    var s := c + tail;
    assert forall i :: 0 <= i < CHUNK ==> s[i] != NEWLINE;
    assert NewlineIndex(s) >= CHUNK;
    assert FirstChunk(s) == c;
  }

  /** A full chunk without newline and without seek command is written, and the loop goes on. */
  lemma FullChunk(c: seq<byte>, tail: seq<byte>, broken: bool)
    requires |c| == CHUNK && NewlineIndex(c) == CHUNK && SeekCommand(c).None?
    ensures Receive(c + tail, broken) ==
            var r := Receive(tail, broken);
            Received([c] + r.chunks, r.end, r.rest)
  {
    hide SeekCommand, Fgets;
    FullChunkIsFirst(c, tail, broken);
  }

  lemma FullChunkSeeks(c: seq<byte>, tail: seq<byte>, broken: bool)
    requires |c| == CHUNK && NewlineIndex(c) == CHUNK && SeekCommand(c).Some?
    ensures Receive(c + tail, broken).end.Seek?
  {
    hide SeekCommand, Fgets;
    FullChunkIsFirst(c, tail, broken);
  }

  lemma SeekChunk(line: seq<byte>, x: nat, y: nat, more: seq<byte>, broken: bool)
    requires 0 < |line| <= CHUNK && SeekCommand(line) == Some((x, y))
    requires forall i :: 0 <= i < |line| ==> (line[i] == NEWLINE <==> i == |line| - 1)
    ensures Receive(line + more, broken) == Received([], Seek(x, y), more)
  {
    hide SeekCommand;
    ChunkIsLine(line, more);
    assert (line + more)[|line|..] == more;
  }

  /** A printed request is one chunk, is taken as that request, and writes nothing. */
  lemma SeekLineIsReceived(x: nat, y: nat, more: seq<byte>, broken: bool)
    requires x < UINT32_MODULUS && y < UINT32_MODULUS
    ensures Receive(SeekLine(x, y) + more, broken) == Received([], Seek(x, y), more)
  {
    SeekLineIsShortLine(x, y);
    SeekRoundTrip(x, y);
    SeekChunk(SeekLine(x, y), x, y, more, broken);
  }

  /** A request is also taken as one 255 bytes into any other line, whatever follows it. */
  lemma SeekInsideLongLine(filler: seq<byte>, x: nat, y: nat, more: seq<byte>, broken: bool)
    requires x < UINT32_MODULUS && y < UINT32_MODULUS
    requires |filler| == CHUNK && NewlineIndex(filler) == CHUNK && SeekCommand(filler).None?
    ensures Receive(filler + (SeekLine(x, y) + more), broken) == Received([filler], Seek(x, y), more)
  {
    hide Receive, SeekCommand, SeekLine, NewlineIndex;
    FullChunk(filler, SeekLine(x, y) + more, broken);
    SeekLineIsReceived(x, y, more, broken);
  }

  // ---- the replay loop ----

  /** What strlen makes of a buffer: the bytes before its first NUL. */
  function CString(c: seq<byte>): (t: seq<byte>)
    ensures t <= c && NulFree(t)
    ensures |t| < |c| ==> c[|t|] == NUL
    ensures NulFree(c) ==> t == c
  {
    if c == [] || c[0] == NUL then [] else [c[0]] + CString(c[1..])
  }

  /** What the replay loop sends when `s` is left to read from the output file. */
  function Replay(s: seq<byte>): seq<byte>
    decreases |s|
  {
    if s == [] then [] else CString(FirstChunk(s)) + Replay(s[ChunkLength(s)..])
  }

  lemma {:induction false} ReplayIsNulFree(s: seq<byte>)
    ensures NulFree(Replay(s))
    decreases |s|
  {
    if s != [] {
      ReplayIsNulFree(s[ChunkLength(s)..]);
    }
  }

  lemma {:induction false} NulFreeIsReplayed(s: seq<byte>)
    requires NulFree(s)
    ensures Replay(s) == s
    decreases |s|
  {
    if s != [] {
      NulFreeIsReplayed(s[ChunkLength(s)..]);
    }
  }

  /** The replay is faithful exactly for streams without NUL bytes. */
  lemma ReplayIsIdentity(s: seq<byte>)
    ensures Replay(s) == s <==> NulFree(s)
  {
    ReplayIsNulFree(s);
    if NulFree(s) {
      NulFreeIsReplayed(s);
    }
  }

  // ---- a replay that stops early ----

  /** The number of chunks the replay loop reads. */
  function ChunkCount(s: seq<byte>): nat
    decreases |s|
  {
    if s == [] then 0 else 1 + ChunkCount(s[ChunkLength(s)..])
  }

  /** What is left to read after k chunks. */
  function LeftAfter(s: seq<byte>, k: nat): seq<byte>
    decreases k
  {
    if k == 0 || s == [] then s else LeftAfter(s[ChunkLength(s)..], k - 1)
  }

  /** What the first k turns of the replay loop send. */
  function Replayed(s: seq<byte>, k: nat): seq<byte>
    decreases k
  {
    if k == 0 || s == [] then [] else CString(FirstChunk(s)) + Replayed(s[ChunkLength(s)..], k - 1)
  }

  /** One more turn. */
  lemma {:induction false} NextReplayed(s: seq<byte>, k: nat)
    ensures var left := LeftAfter(s, k);
            && (left == [] <==> k >= ChunkCount(s))
            && LeftAfter(s, k + 1) == (if left == [] then [] else left[ChunkLength(left)..])
            && Replayed(s, k + 1) == Replayed(s, k) + (if left == [] then [] else CString(FirstChunk(left)))
    decreases k
  {
    hide FirstChunk, ChunkLength, CString;
    if k > 0 && s != [] {
      var c, tail := CString(FirstChunk(s)), s[ChunkLength(s)..];
      NextReplayed(tail, k - 1);
      var left := LeftAfter(tail, k - 1);
      var d := if left == [] then [] else CString(FirstChunk(left));
      assert c + (Replayed(tail, k - 1) + d) == c + Replayed(tail, k - 1) + d;
    }
  }

  /** The turns so far have sent a beginning of the replay, and all of it once every chunk is read. */
  lemma {:induction false} ReplayedPart(s: seq<byte>, k: nat)
    ensures Replay(s) == Replayed(s, k) + Replay(LeftAfter(s, k))
    ensures k >= ChunkCount(s) ==> Replayed(s, k) == Replay(s)
    decreases k
  {
    hide FirstChunk, ChunkLength, CString;
    if k > 0 && s != [] {
      var c, tail := CString(FirstChunk(s)), s[ChunkLength(s)..];
      ReplayedPart(tail, k - 1);
      var rest := Replay(LeftAfter(tail, k - 1));
      assert c + (Replayed(tail, k - 1) + rest) == c + Replayed(tail, k - 1) + rest;
    }
  }
}
