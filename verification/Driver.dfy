// main.c: the character device, its open files, and the calls on them.
module Driver {
  import opened Bytes
  import opened Ring
  import opened CircularBufferImpl
  import opened Heap
  import opened WriteLog
  import opened DeviceBooks
  import opened FlatReads

  const ENOMEM := 12
  const EFAULT := 14
  const EINVAL := 22

  /** What the kernel decides during one write: whether memory is granted, whether krealloc moves
      the block, whether the user copy completes, and the bytes found in the target region if not. */
  datatype WriteEnv = WriteEnv(grant: bool, moves: bool, copyOk: bool, left: nat -> byte)

  function Leftover(env: WriteEnv, count: nat): (bs: seq<byte>)
    ensures |bs| == count
  {
    seq(count, env.left)
  }

  function OutcomeOf(heap: Heap, buf: seq<byte>, env: WriteEnv): Outcome {
    if !heap.Grants(env.grant, |buf|) then NoMemory
    else if env.copyOk then Accepted
    else Faulted(Leftover(env, |buf|))
  }

  /** The block a write call orphans: the pending one, if it could not be grown. */
  function LeakOf(s: Ledger, w: Write): seq<nat> {
    if LosesPending(s.log, w) then [s.current.buffptr] else []
  }

  /** A completed copy leaves the same heap as allocating the copied bytes in one go. */
  lemma CopyCompletes(heap: Heap, block: nat, env: WriteEnv, buf: seq<byte>)
    requires heap.Valid() && buf != [] && heap.Grants(env.grant, |buf|)
    requires block == NULL || block in heap.blocks
    ensures var fill := Leftover(env, |buf|);
            if block == NULL then
              var (h, p) := heap.Kmalloc(true, fill);
              h.Store(p, 0, buf) == heap.Kmalloc(true, buf).0
            else
              var (h, p) := heap.Krealloc(block, true, env.moves, fill);
              h.Store(p, |heap.blocks[block]|, buf) == heap.Krealloc(block, true, env.moves, buf).0
  {
    var fill := Leftover(env, |buf|);
    if block == NULL {
      assert fill[..0] + buf + fill[|buf|..] == buf;
    } else {
      var b := heap.blocks[block];
      assert (b + fill)[..|b|] + buf + (b + fill)[|b| + |buf|..] == b + buf;
    }
  }

  /** The ring with the slot at in_offs cleared, as eviction leaves it for a moment. */
  function Cleared(r: RingState): RingState
    requires r.Shape()
  {
    r.(slots := r.slots[r.inOffs := EMPTY_ENTRY])
  }

  /** Clearing keeps a full ring well-formed and is undone by the add. */
  lemma ClearThenAdd(r: RingState, e: Entry)
    requires r.Valid() && r.full
    ensures Cleared(r).Valid() && Cleared(r).Add(e) == r.Add(e)
  {
    assert Cleared(r).slots[r.inOffs := e] == r.slots[r.inOffs := e];
  }

  /** What a commit needs to know about ring and books. */
  lemma CommitFacts(r: RingState, s: Ledger)
    requires s.Consistent() && InStep(r, s.capacity, s.adds)
    requires s.current.buffptr != NULL && EndsLine(s.log.pending)
    ensures r.Shape() && r.Valid() && (|r.Live()| == s.capacity <==> |s.adds| >= s.capacity)
    ensures |s.adds| >= s.capacity ==>
              && r.full && r.slots[r.inOffs].buffptr == Evicted(s)
              && Evicted(s) in s.heap.blocks && Evicted(s) != NULL
              && Evicted(s) !in Committed(s).heap.blocks
              && Cleared(r).Valid() && Cleared(r).Add(s.current) == r.Add(s.current)
    ensures Committed(s).Consistent() && 0 <= Committed(s).heap.used <= s.heap.used
    ensures r.Add(s.current).Valid() && InStep(r.Add(s.current), s.capacity, s.adds + [s.current])
  {
    FullIffOverflowed(r, s.capacity, s.adds);
    Commit(s);
    AddStaysInStep(r, s.capacity, s.adds, s.current);
    CommitKeepsAccounting(s);
    if |s.adds| >= s.capacity {
      EvictedIsOwned(s);
      ClearThenAdd(r, s.current);
    }
  }

  lemma AcceptedWrite(l: Log, buf: seq<byte>)
    requires buf != []
    ensures var pending := l.pending + buf;
            && (EndsLine(pending) <==> EndsLine(buf))
            && (EndsLine(pending) <==> pending[|pending| - 1] == NEWLINE)
            && Apply(l, Write(buf, Accepted)) ==
               if EndsLine(pending) then l.(committed := l.committed + [pending], pending := [])
               else l.(pending := pending)
  {
  }

  /** The read call's search lands in the block that holds the piece it should return. */
  lemma NamedPiece(r: RingState, s: Ledger, p: nat, slot: nat, off: nat, count: nat)
    requires s.RingHoldsCommands() && InStep(r, s.capacity, s.adds) && r.Names(p, slot, off)
    ensures slot < |r.slots| && off < r.slots[slot].size && r.slots[slot].buffptr in s.heap.blocks
    ensures var block, n := s.heap.blocks[r.slots[slot].buffptr], Min(count, r.slots[slot].size - off);
            && off + n <= |block|
            && Piece(s.Live(), p, count) == block[off..off + n]
  {
    hide RingState.Scan, Piece, Offset, LastN;
    NamedCommand(r, s, p, slot, off);
    PieceStaysInCommand(s.Live(), r.Rank(slot), off, count);
  }

  /** What the search calls need to know about the ring. */
  lemma RingFacts(r: RingState, s: Ledger)
    requires s.Consistent() && InStep(r, s.capacity, s.adds)
    ensures r.Valid() && |r.Live()| == |s.Live()| && r.Capacity() == s.capacity > 0
    ensures r.Size() == |Concat(s.Live())| < LOFF_T_LIMIT
    ensures r.outOffs == OldestIndex(|s.log.committed|, s.capacity)
    ensures s.RingHoldsCommands()
  {
    RingIsLastCommands(r, s);
  }

  /** The seek call finds its command: it exists, the offset lies inside it, and its slot is
      reached from the oldest one without wrapping. */
  predicate SeekSucceeds(l: Log, capacity: nat, k: nat, off: nat)
    requires capacity > 0
  {
    var live := LastN(l.committed, capacity);
    k < |live| && off < |live[k]| && OldestIndex(|l.committed|, capacity) + k < capacity
  }

  /** The intended meaning of a seek request: the command exists and is long enough. */
  predicate NamesLiveByte(l: Log, capacity: nat, k: nat, off: nat) {
    var live := LastN(l.committed, capacity);
    k < |live| && off < |live[k]|
  }

  /** The missing modulo: once the ring has overflowed and its oldest slot is not slot 0, the newest
      command can never be sought. */
  lemma NewestCommandUnreachable(l: Log, capacity: nat)
    requires capacity > 0 && CommandsEndLines(l)
    requires |l.committed| > capacity && |l.committed| % capacity != 0
    ensures NamesLiveByte(l, capacity, capacity - 1, 0) && !SeekSucceeds(l, capacity, capacity - 1, 0)
  {
    OldestIndexIsModulus(|l.committed|, capacity);
    assert EndsLine(l.committed[|l.committed| - 1]);
  }

  /** After n commits the seek call does what it is meant to do for all requests exactly when the
      ring has not overflowed or n is a multiple of the capacity. */
  lemma SeekWorksIffUnwrapped(l: Log, capacity: nat)
    requires capacity > 0 && CommandsEndLines(l)
    ensures (forall k: nat, off: nat :: SeekSucceeds(l, capacity, k, off) <==> NamesLiveByte(l, capacity, k, off))
            <==> |l.committed| <= capacity || |l.committed| % capacity == 0
  {
    OldestIndexIsModulus(|l.committed|, capacity);
    if |l.committed| > capacity && |l.committed| % capacity != 0 {
      NewestCommandUnreachable(l, capacity);
    } else if |l.committed| == capacity {
      ModOf(1, 0, capacity);
    }
  }

  /** What a seek request does, whatever the state of the ring: it succeeds exactly for a byte of a
      live command that is reached from slot n % capacity without going round. */
  lemma SeekLaw(l: Log, capacity: nat, k: nat, off: nat)
    requires capacity > 0
    ensures var n, live := |l.committed|, LastN(l.committed, capacity);
            SeekSucceeds(l, capacity, k, off) <==>
            k < |live| && off < |live[k]| && (n <= capacity || n % capacity + k < capacity)
  {
    OldestIndexIsModulus(|l.committed|, capacity);
    if |l.committed| == capacity {
      ModOf(1, 0, capacity);
    }
  }

  /** So in a wrapped state exactly the capacity - n % capacity oldest commands can be sought. */
  lemma SeekableCommands(l: Log, capacity: nat, k: nat)
    requires capacity > 0 && CommandsEndLines(l)
    ensures var n := |l.committed|;
            (exists off: nat :: SeekSucceeds(l, capacity, k, off)) <==>
            k < if n <= capacity then n else capacity - n % capacity
  {
    SeekLaw(l, capacity, k, 0);
    forall off: nat | SeekSucceeds(l, capacity, k, off)
      ensures SeekSucceeds(l, capacity, k, 0)
    {
      SeekLaw(l, capacity, k, off);
    }
    var live := LastN(l.committed, capacity);
    if k < |live| {
      assert EndsLine(live[k]);
    }
  }

  /** Cleanup after i turns: the later live slots are as they were, the other blocks are freed. */
  ghost predicate CleanedUpTo(r: RingState, s: Ledger, slots: seq<Entry>, blocks: map<nat, seq<byte>>, i: nat)
    requires r.Shape()
  {
    && |slots| == r.Capacity()
    && (forall j: nat :: i <= j < r.Count() ==> slots[r.SlotAt(j)] == r.slots[r.SlotAt(j)])
    && (forall p: nat :: p in blocks <==> Survives(s, p, i))
  }

  lemma CleanedLength(r: RingState, s: Ledger, slots: seq<Entry>, blocks: map<nat, seq<byte>>, i: nat)
    requires r.Shape() && i < r.Count() && CleanedUpTo(r, s, slots, blocks, i)
    ensures r.SlotAt(i) < |slots|
  {
  }

  lemma CleanedAll(r: RingState, s: Ledger, slots: seq<Entry>, blocks: map<nat, seq<byte>>)
    requires r.Shape() && r.Count() == |s.Live()| && CleanedUpTo(r, s, slots, blocks, r.Count())
    ensures forall p: nat :: p in blocks <==> Survives(s, p, |s.Live()|)
  {
  }

  lemma LaterSlotsDiffer(r: RingState, i: nat)
    requires r.Shape() && i < r.Count()
    ensures forall j: nat :: i < j < r.Count() ==> r.SlotAt(j) != r.SlotAt(i)
  {
  }

  /** The next turn frees a block that is still allocated, and gets one further. */
  lemma CleanupTurn(r: RingState, s: Ledger, slots: seq<Entry>, blocks: map<nat, seq<byte>>, i: nat)
    requires s.Consistent() && InStep(r, s.capacity, s.adds)
    requires i < r.Count() == |s.Live()| && CleanedUpTo(r, s, slots, blocks, i)
    ensures var slot := r.SlotAt(i);
            && CleanupSlot(r, i) == slot
            && slots[slot].buffptr in blocks && slots[slot].buffptr != NULL
            && CleanedUpTo(r, s, slots[slot := EMPTY_ENTRY], blocks - {slots[slot].buffptr}, i + 1)
  {
    CleanupFindsEntry(r, s, i);
    FreeNextCommand(s, i);
    LaterSlotsDiffer(r, i);
  }

  const SEEK_SET := 0
  const SEEK_CUR := 1
  const SEEK_END := 2

  /** The kernel's fixed_size_llseek: the new position, or None for EINVAL. */
  function FixedSizeLlseek(fpos: nat, offset: int, whence: int, size: nat): Option<nat> {
    if whence == SEEK_CUR && offset == 0 then Some(fpos)
    else
      var target := if whence == SEEK_CUR then fpos + offset
                    else if whence == SEEK_END then size + offset
                    else offset;
      if SEEK_SET <= whence <= SEEK_END && 0 <= target <= size then Some(target) else None
  }

  class OpenFile {
    var fpos: nat

    constructor ()
      ensures fpos == 0
    {
      fpos := 0;
    }
  }

  class AesdDevice {
    const buffer: CircularBuffer
    var currentEntry: Entry
    var heap: Heap

    ghost var books: Ledger

    ghost predicate Valid()
      reads this, buffer, buffer.entry
    {
      && buffer.Valid()
      && buffer.entry.Length == books.capacity && currentEntry == books.current && heap == books.heap
      && InStep(buffer.View(), books.capacity, books.adds)
      && books.Consistent()
    }

    lemma UsedIsNatural()
      requires Valid()
      ensures heap.used >= 0 && books.capacity > 0 && heap == books.heap
    {
    }

    /** aesd_init_module, without the registration calls; `capacity` is the number of slots. */
    constructor (capacity: nat)
      requires 0 < capacity < 256
      ensures Valid() && buffer.entry.Length == capacity
      ensures books == FreshBooks(capacity) && fresh(buffer) && fresh(buffer.entry)
    {
      buffer := new CircularBuffer(capacity);
      currentEntry := EMPTY_ENTRY;
      heap := Heap(map[], NULL + 1, 0);
      books := FreshBooks(capacity);
      new;
      FreshBooksAreConsistent(capacity);
      buffer.Init();
    }

    /** aesd_write, first part: make room at the end of the pending entry. On success the new
        region still holds whatever the block held. */
    method ReserveEntry(count: nat, env: WriteEnv) returns (insertPos: nat)
      requires Valid() && count > 0
      modifies `heap, `currentEntry
      ensures insertPos == |books.log.pending|
      ensures if !old(heap).Grants(env.grant, count) then
                heap == old(heap) && currentEntry == Entry(NULL, insertPos + count)
              else
                var fill := Leftover(env, count);
                var (h, p) := if books.current.buffptr == NULL then old(heap).Kmalloc(true, fill)
                              else old(heap).Krealloc(books.current.buffptr, true, env.moves, fill);
                heap == h && currentEntry == Entry(p, insertPos + count)
    {
      PendingEntry(books);
      insertPos := 0;
      var fill := Leftover(env, count);
      if currentEntry.buffptr == NULL {
        var (h, p) := heap.Kmalloc(env.grant, fill);
        heap, currentEntry := h, Entry(p, count);
      } else {
        insertPos := currentEntry.size;
        var (h, p) := heap.Krealloc(currentEntry.buffptr, env.grant, env.moves, fill);
        heap, currentEntry := h, Entry(p, currentEntry.size + count);
      }
    }

    /** aesd_write up to the user copy: the pending entry grows, or the call fails. */
    method FillEntry(buf: seq<byte>, env: WriteEnv) returns (ret: int)
      requires Valid() && buf != []
      modifies `heap, `currentEntry, `books
      ensures Valid() && books.adds == old(books).adds && books.capacity == old(books).capacity
      ensures var outcome, before := OutcomeOf(old(heap), buf, env), old(books).log;
              && ret == (if outcome.Accepted? then |buf| else if outcome.NoMemory? then -12 else -14)
              && books.leaked == old(books).leaked + LeakOf(old(books), Write(buf, outcome))
              && (outcome.Accepted? ==>
                    books.log == before.(pending := before.pending + buf) && currentEntry.buffptr != NULL)
              && (!outcome.Accepted? ==> books.log == Apply(before, Write(buf, outcome)))
      ensures 0 <= heap.used <= old(heap.used) + |buf|
    {
      hide Ledger.Consistent, InStep, RingState.Valid;
      PendingEntry(books);
      ghost var was := books;
      var insertPos := ReserveEntry(|buf|, env);
      if currentEntry.buffptr == NULL {
        if was.current.buffptr == NULL {
          ResizeAbsent(was, currentEntry.size);
          books := was.(current := currentEntry);
        } else {
          DropPending(was, currentEntry.size);
          books := Dropped(was, currentEntry.size);
        }
        return -ENOMEM;
      }
      CopyCompletes(was.heap, was.current.buffptr, env, buf);
      if env.copyOk {
        heap := heap.Store(currentEntry.buffptr, insertPos, buf);
      }
      ghost var bytes := if env.copyOk then buf else Leftover(env, |buf|);
      if was.current.buffptr == NULL {
        GrowFromNothing(was, bytes);
      } else {
        GrowPending(was, env.moves, bytes);
      }
      books := Grown(was, heap, currentEntry.buffptr, bytes);
      return if env.copyOk then |buf| else -EFAULT;
    }

    /** aesd_write, eviction: free the oldest buffer of a full ring and clear its slot. */
    method EvictOldest()
      requires buffer.Valid() && buffer.full
      requires buffer.entry[buffer.inOffs].buffptr == NULL || buffer.entry[buffer.inOffs].buffptr in heap.blocks
      modifies `heap, buffer.entry
      ensures heap == old(heap).Kfree(old(buffer.entry[buffer.inOffs]).buffptr)
      ensures buffer.Valid() && buffer.View() == Cleared(old(buffer.View()))
    {
      ghost var r := buffer.View();
      ClearThenAdd(r, EMPTY_ENTRY);
      heap := heap.Kfree(buffer.entry[buffer.inOffs].buffptr);
      buffer.entry[buffer.inOffs] := EMPTY_ENTRY;
      assert buffer.View() == Cleared(r);
    }

    /** aesd_write, last part: hand the pending entry to the ring, evicting from a full one. */
    method CommitEntry()
      requires Valid() && currentEntry.buffptr != NULL && EndsLine(books.log.pending)
      modifies `heap, `currentEntry, `books, buffer, buffer.entry
      ensures Valid()
      ensures var l := old(books).log;
              books.log == l.(committed := l.committed + [l.pending], pending := [])
      ensures books.adds == old(books).adds + [old(currentEntry)]
      ensures books.leaked == old(books).leaked && books.capacity == old(books).capacity
      ensures |old(books).adds| >= books.capacity ==> Evicted(old(books)) !in heap.blocks
      ensures 0 <= heap.used <= old(heap.used)
    {
      hide Ledger.Consistent, InStep, RingState.Valid, RingState.Add, RingState.Live, Cleared;
      ghost var r := buffer.View();
      CommitFacts(r, books);
      var count := buffer.GetCount();
      if count == buffer.entry.Length {
        assert buffer.entry[buffer.inOffs] == r.slots[r.inOffs];
        EvictOldest();
      }
      buffer.AddEntry(currentEntry);
      assert buffer.View() == r.Add(books.current);
      currentEntry := EMPTY_ENTRY;
      books := Committed(books);
    }

    /** aesd_write */
    method AesdWrite(buf: seq<byte>, env: WriteEnv) returns (ret: int)
      requires Valid()
      modifies this, buffer, buffer.entry
      ensures Valid()
      ensures var w := Write(buf, OutcomeOf(old(heap), buf, env));
              && books.log == Apply(old(books).log, w)
              && books.leaked == old(books).leaked + LeakOf(old(books), w)
      ensures ret == if buf == [] then 0
                     else if !old(heap).Grants(env.grant, |buf|) then -12
                     else if !env.copyOk then -14
                     else |buf|
      ensures var before, after := old(books).log, books.log;
              && after.committed == (if ret > 0 && EndsLine(buf) then before.committed + [before.pending + buf]
                                     else before.committed)
              && (ret == -14 ==> after.pending == before.pending + Leftover(env, |buf|))
              && (ret >= 0 ==> |Held(after)| + |Concat(after.lost)| == |Held(before)| + |Concat(before.lost)| + ret)
      ensures old(books).adds <= books.adds && books.capacity == old(books).capacity
      ensures |old(books).adds| >= books.capacity && books.adds != old(books).adds ==>
                Evicted(old(books)) !in heap.blocks
      ensures 0 <= heap.used <= old(heap.used) + |buf|
    {
      hide Ledger.Consistent, InStep, RingState.Valid, Held, Concat;
      PendingEntry(books);
      ApplyAddsStored(books.log, Write(buf, OutcomeOf(heap, buf, env)));
      if |buf| == 0 {
        return 0;
      }
      ghost var was := books;
      ghost var outcome := OutcomeOf(heap, buf, env);
      ret := FillEntry(buf, env);
      if ret < 0 {
        return;
      }
      assert outcome.Accepted?;
      AcceptedWrite(was.log, buf);
      ghost var filled := books;
      PendingEntry(filled);
      if heap.blocks[currentEntry.buffptr][currentEntry.size - 1] == NEWLINE {
        CommitEntry();
        assert books.log == Apply(was.log, Write(buf, Accepted));
      }
    }

    /** Where a read call finds its bytes: block, offset and number of bytes, none at the end. */
    method LocateRead(fpos: nat, count: nat) returns (buffptr: nat, offset: nat, bytesToCopy: nat)
      requires Valid()
      ensures bytesToCopy == |Piece(books.Live(), fpos, count)|
      ensures bytesToCopy > 0 ==>
                && buffptr in heap.blocks
                && offset + bytesToCopy <= |heap.blocks[buffptr]|
                && heap.blocks[buffptr][offset..offset + bytesToCopy] == Piece(books.Live(), fpos, count)
    {
      hide Ledger.Consistent, Ledger.RingHoldsCommands, InStep, RingState.Valid, RingState.Size, RingState.Names;
      hide Piece;
      ghost var r := buffer.View();
      RingFacts(r, books);
      PieceIsSlice(books.Live(), fpos, count);
      var found, slot, off := buffer.FindEntryOffsetForFpos(fpos);
      if !found || count == 0 {
        return NULL, 0, 0;
      }
      NamedPiece(r, books, fpos, slot, off, count);
      var entry := buffer.entry[slot];
      bytesToCopy := count;
      if entry.size - off < bytesToCopy {
        bytesToCopy := entry.size - off;
      }
      return entry.buffptr, off, bytesToCopy;
    }

    /** aesd_read; a failing user copy delivers nothing and leaves the position alone. */
    method AesdRead(file: OpenFile, count: nat, copyOk: bool) returns (ret: int, data: seq<byte>)
      requires Valid()
      modifies file
      ensures var piece := Piece(books.Live(), old(file.fpos), count);
              if piece == [] then ret == 0 && data == [] && file.fpos == old(file.fpos)
              else if !copyOk then ret == -14 && data == [] && file.fpos == old(file.fpos)
              else ret == |piece| && data == piece && file.fpos == old(file.fpos) + |piece|
    {
      var buffptr, offset, bytesToCopy := LocateRead(file.fpos, count);
      if bytesToCopy == 0 {
        return 0, [];
      }
      if !copyOk {
        return -EFAULT, [];
      }
      data := heap.blocks[buffptr][offset..offset + bytesToCopy];
      file.fpos := file.fpos + bytesToCopy;
      ret := bytesToCopy;
    }

    /** llseek: the kernel's seek within the bytes the ring holds. */
    method Llseek(file: OpenFile, offset: int, whence: int) returns (ret: int)
      requires Valid()
      modifies file
      ensures var size, was := |Concat(books.Live())|, old(file.fpos);
              var target := match whence case 1 => was + offset case 2 => size + offset case _ => offset;
              if 0 <= whence <= 2 && (0 <= target <= size || (whence == 1 && offset == 0)) then
                ret == file.fpos == target
              else ret == -22 && file.fpos == was
    {
      hide Ledger.Consistent, Ledger.RingHoldsCommands, InStep, SizeT;
      RingFacts(buffer.View(), books);
      SizeIsLiveTotal(buffer.View());
      var fullSize := buffer.GetSize();
      SizeTFits(|Concat(books.Live())|);
      match FixedSizeLlseek(file.fpos, offset, whence, fullSize) {
        case Some(p) =>
          file.fpos := p;
          ret := p;
        case None =>
          ret := -EINVAL;
      }
    }

    /** llseek(file, 0, SEEK_SET), as rewind calls it. */
    method Rewind(file: OpenFile)
      requires Valid()
      modifies file
      ensures file.fpos == 0
    {
      var _ := Llseek(file, 0, SEEK_SET);
    }

    /** The position of a command and offset; the index has no modulo, so past the array it denotes
        foreign memory, whose size field is `stray` and whose address equals no slot's. */
    method LocateSeek(writeCmd: nat, writeCmdOffset: nat, stray: nat) returns (ret: int, newPos: nat)
      requires Valid()
      ensures ret == 0 || ret == -22
      ensures ret == 0 <==> SeekSucceeds(books.log, books.capacity, writeCmd, writeCmdOffset)
      ensures ret == 0 ==> newPos == Offset(books.Live(), writeCmd) + writeCmdOffset
    {
      hide Ledger.Consistent, Ledger.RingHoldsCommands, InStep, RingState.Valid, RingState.Live, RingState.Size;
      ghost var r := buffer.View();
      RingFacts(r, books);
      var count := buffer.GetCount();
      if writeCmd >= count {
        return -EINVAL, 0;
      }
      var index := buffer.outOffs + writeCmd;
      if index < buffer.entry.Length {
        UnwrappedIndex(r, books, writeCmd);
      }
      var size := if index < buffer.entry.Length then buffer.entry[index].size else stray;
      if writeCmdOffset >= size {
        return -EINVAL, 0;
      }
      var failed, pos := buffer.FposForEntry(index, writeCmdOffset);
      if failed != 0 {
        return -EINVAL, 0;
      }
      NamedCommand(r, books, pos, index, writeCmdOffset);
      return 0, pos;
    }

    /** aesd_adjust_file_offset */
    method AdjustFileOffset(file: OpenFile, writeCmd: nat, writeCmdOffset: nat, stray: nat) returns (ret: int)
      requires Valid()
      modifies file
      ensures ret == 0 || ret == -22
      ensures ret == 0 <==> SeekSucceeds(books.log, books.capacity, writeCmd, writeCmdOffset)
      ensures file.fpos == if ret == 0 then Offset(books.Live(), writeCmd) + writeCmdOffset else old(file.fpos)
    {
      var newPos;
      ret, newPos := LocateSeek(writeCmd, writeCmdOffset, stray);
      if ret == 0 {
        file.fpos := newPos;
      }
    }

    /** The slot of the i-th entry the cleanup loop frees. */
    method CleanupIndexAt(i: nat, ringCount: nat, ghost r: RingState) returns (slot: nat)
      requires r.Shape() && i < ringCount == r.Count() && buffer.outOffs == r.outOffs
      requires CleanupSlot(r, i) == r.SlotAt(i)
      ensures slot == r.SlotAt(i)
    {
      slot := (buffer.outOffs + i) % ringCount;
    }

    /** One turn of the cleanup loop. */
    method FreeSlot(slot: nat)
      requires slot < buffer.entry.Length
      requires buffer.entry[slot].buffptr == NULL || buffer.entry[slot].buffptr in heap.blocks
      modifies `heap, buffer.entry
      ensures heap == old(heap).Kfree(old(buffer.entry[slot]).buffptr)
      ensures buffer.entry[..] == old(buffer.entry[..])[slot := EMPTY_ENTRY]
    {
      var entry := buffer.entry[slot];
      heap := heap.Kfree(entry.buffptr);
      buffer.entry[slot] := EMPTY_ENTRY;
    }

    /** aesd_cleanup_module, the loop over the ring. */
    method CleanupRing(ghost r: RingState, ghost s: Ledger)
      requires buffer.Valid() && r == buffer.View()
      requires s.Consistent() && InStep(r, s.capacity, s.adds) && |s.Live()| == r.Count()
      requires CleanedUpTo(r, s, r.slots, heap.blocks, 0)
      modifies `heap, buffer.entry
      ensures forall p: nat :: p in heap.blocks <==> Survives(s, p, |s.Live()|)
    {
      hide Ledger.Consistent, InStep, CleanedUpTo, CleanupSlot, Survives;
      var ringCount := buffer.GetCount();
      for i := 0 to ringCount
        invariant buffer.outOffs == r.outOffs && ringCount == r.Count()
        invariant CleanedUpTo(r, s, buffer.entry[..], heap.blocks, i)
      {
        CleanupTurn(r, s, buffer.entry[..], heap.blocks, i);
        CleanedLength(r, s, buffer.entry[..], heap.blocks, i);
        var slot := CleanupIndexAt(i, ringCount, r);
        FreeSlot(slot);
      }
      CleanedAll(r, s, buffer.entry[..], heap.blocks);
    }

    /** aesd_cleanup_module: frees every block exactly once, except the leaked ones nobody owns. */
    method CleanupModule()
      requires Valid()
      modifies `heap, buffer.entry
      ensures forall p: nat :: p in heap.blocks <==> p in books.leaked
    {
      RingIsLastCommands(buffer.View(), books);
      FreePendingFirst(books);
      if currentEntry.buffptr != NULL {
        heap := heap.Kfree(currentEntry.buffptr);
      }
      CleanupRing(buffer.View(), books);
      OnlyLeaksSurvive(books);
    }
  }
}
