// The books of the device: pending entry, heap and the entries handed to the ring, against the
// write log. Every allocated block has exactly one owner.
module DeviceBooks {
  import opened Bytes
  import opened Ring
  import opened Heap
  import opened WriteLog

  /** Who may free a block: the ring slot of command m, the pending entry, or nobody any more. */
  datatype Owner = Command(m: nat) | Pending | Leaked(i: nat)

  /** adds lists the entries handed to the ring, one for each committed command. */
  datatype Ledger = Ledger(
    capacity: nat,
    current: Entry,
    heap: Heap,
    log: Log,
    adds: seq<Entry>,
    leaked: seq<nat>,
    owner: map<nat, Owner>)
  {
    ghost predicate IsLive(m: int) {
      0 <= m && |adds| - capacity <= m < |adds|
    }

    ghost predicate Holds(e: Entry, content: seq<byte>) {
      && e.buffptr in heap.blocks
      && heap.blocks[e.buffptr] == content
      && e.size == |content|
    }

    ghost predicate RingHoldsCommands() {
      && 0 < capacity
      && |adds| == |log.committed|
      && CommandsEndLines(log)
      && forall m :: IsLive(m) ==> Holds(adds[m], log.committed[m])
    }

    ghost predicate CurrentHoldsPending() {
      if current.buffptr == NULL then log.pending == []
      else log.pending != [] && Holds(current, log.pending)
    }

    ghost predicate LeakedHoldsLost() {
      && |leaked| == |log.lost|
      && NoEmptyLoss(log)
      && forall i :: 0 <= i < |leaked| ==> leaked[i] in heap.blocks && heap.blocks[leaked[i]] == log.lost[i]
    }

    /** The block that an owner refers to. */
    ghost predicate RefersTo(o: Owner, p: nat) {
      match o
      case Command(m) => IsLive(m) && adds[m].buffptr == p
      case Pending => current.buffptr == p
      case Leaked(i) => i < |leaked| && leaked[i] == p
    }

    /** A bijection between allocated blocks and owners: nothing dangling, shared or unowned. */
    ghost predicate Ownership() {
      && owner.Keys == heap.blocks.Keys
      && (forall p :: p in owner ==> RefersTo(owner[p], p))
      && (forall m: nat :: IsLive(m) ==> adds[m].buffptr in owner && owner[adds[m].buffptr] == Command(m))
      && (current.buffptr != NULL ==> current.buffptr in owner && owner[current.buffptr] == Pending)
      && (forall i: nat :: i < |leaked| ==> leaked[i] in owner && owner[leaked[i]] == Leaked(i))
    }

    function Live(): seq<seq<byte>> {
      LastN(log.committed, capacity)
    }

    /** Every byte in use is a live, pending or lost byte. */
    ghost predicate Accounting() {
      heap.used == |Concat(Live())| + |log.pending| + |Concat(log.lost)|
    }

    ghost predicate Consistent() {
      && heap.Valid()
      && RingHoldsCommands()
      && CurrentHoldsPending()
      && LeakedHoldsLost()
      && Ownership()
      && Accounting()
    }
  }

  // ---- the books of a fresh device, and what each kind of call does to them ----

  function FreshBooks(capacity: nat): Ledger {
    Ledger(capacity, EMPTY_ENTRY, Heap(map[], NULL + 1, 0), EMPTY_LOG, [], [], map[])
  }

  lemma FreshBooksAreConsistent(capacity: nat)
    requires capacity > 0
    ensures FreshBooks(capacity).Consistent()
  {
  }

  /** What a call may rely on about the pending entry. */
  lemma PendingEntry(s: Ledger)
    requires s.Consistent()
    ensures s.heap.Valid()
    ensures s.current.buffptr == NULL ==> s.log.pending == []
    ensures s.current.buffptr != NULL ==>
              && s.current.buffptr in s.heap.blocks
              && s.heap.blocks[s.current.buffptr] == s.log.pending != []
              && s.current.size == |s.log.pending|
  {
  }

  /** Only the pointer of an absent entry matters. */
  lemma ResizeAbsent(s: Ledger, size: nat)
    requires s.Consistent() && s.current.buffptr == NULL
    ensures s.(current := Entry(NULL, size)).Consistent()
  {
  }

  /** The pending entry grows by `bytes` into block p. */
  function Grown(s: Ledger, h: Heap, p: nat, bytes: seq<byte>): Ledger {
    s.(current := Entry(p, |s.log.pending| + |bytes|),
       heap := h,
       log := s.log.(pending := s.log.pending + bytes),
       owner := (if s.current.buffptr == NULL then s.owner else s.owner - {s.current.buffptr})[p := Pending])
  }

  /** The block may be a new one or the old one in place; no other block changes hands. */
  lemma GrowKeepsOwnership(s: Ledger, h: Heap, p: nat, bytes: seq<byte>)
    requires s.Ownership() && p != NULL && NULL !in s.heap.blocks
    requires p !in s.heap.blocks || (s.current.buffptr != NULL && p == s.current.buffptr)
    requires h.blocks.Keys ==
             {p} + if s.current.buffptr == NULL then s.heap.blocks.Keys
                   else s.heap.blocks.Keys - {s.current.buffptr}
    ensures Grown(s, h, p, bytes).Ownership()
  {
  }

  lemma GrowFromNothing(s: Ledger, bytes: seq<byte>)
    requires s.Consistent() && s.current.buffptr == NULL
    requires bytes != [] && s.heap.Grants(true, |bytes|)
    ensures var (h, p) := s.heap.Kmalloc(true, bytes);
            Grown(s, h, p, bytes).Consistent()
  {
    var (h, p) := s.heap.Kmalloc(true, bytes);
    GrowKeepsOwnership(s, h, p, bytes);
  }

  lemma GrowPending(s: Ledger, moves: bool, bytes: seq<byte>)
    requires s.Consistent() && s.current.buffptr != NULL
    requires bytes != [] && s.heap.Grants(true, |bytes|)
    ensures var (h, p) := s.heap.Krealloc(s.current.buffptr, true, moves, bytes);
            Grown(s, h, p, bytes).Consistent()
  {
    var (h, p) := s.heap.Krealloc(s.current.buffptr, true, moves, bytes);
    GrowKeepsOwnership(s, h, p, bytes);
  }

  /** A failed krealloc overwrites the only pointer to the pending block. */
  function Dropped(s: Ledger, size: nat): Ledger {
    s.(current := Entry(NULL, size),
       log := s.log.(pending := [], lost := s.log.lost + [s.log.pending]),
       leaked := s.leaked + [s.current.buffptr],
       owner := s.owner[s.current.buffptr := Leaked(|s.leaked|)])
  }

  lemma DropKeepsOwnership(s: Ledger, size: nat)
    requires s.Ownership() && s.current.buffptr != NULL
    ensures Dropped(s, size).Ownership()
  {
  }

  lemma DropPending(s: Ledger, size: nat)
    requires s.Consistent() && s.current.buffptr != NULL
    ensures Dropped(s, size).Consistent()
  {
    DropKeepsOwnership(s, size);
    ConcatSnoc(s.log.lost, s.log.pending);
    assert Dropped(s, size).Accounting();
  }

  /** A full ring gives up the block of its oldest command. */
  function Evicted(s: Ledger): nat
    requires |s.adds| >= s.capacity > 0
  {
    s.adds[|s.adds| - s.capacity].buffptr
  }

  /** The pending entry becomes the newest command; a full ring frees its oldest block first. */
  function Committed(s: Ledger): Ledger
    requires s.capacity > 0
    requires |s.adds| >= s.capacity ==> Evicted(s) in s.heap.blocks
  {
    var full := |s.adds| >= s.capacity;
    s.(current := EMPTY_ENTRY,
       heap := if full then s.heap.Kfree(Evicted(s)) else s.heap,
       log := s.log.(committed := s.log.committed + [s.log.pending], pending := []),
       adds := s.adds + [s.current],
       owner := (if full then s.owner - {Evicted(s)} else s.owner)[s.current.buffptr := Command(|s.adds|)])
  }

  lemma EvictedIsOwned(s: Ledger)
    requires s.Consistent() && |s.adds| >= s.capacity
    ensures Evicted(s) in s.heap.blocks && Evicted(s) != NULL
    ensures s.heap.blocks[Evicted(s)] == s.Live()[0]
    ensures s.owner[Evicted(s)] == Command(|s.adds| - s.capacity)
  {
    assert s.IsLive(|s.adds| - s.capacity);
  }

  lemma CommitKeepsAccounting(s: Ledger)
    requires s.Consistent()
    requires |s.adds| >= s.capacity ==> Evicted(s) in s.heap.blocks
    ensures Committed(s).Accounting()
    ensures 0 <= Committed(s).heap.used <= s.heap.used
  {
    var q := s.Live();
    LastNPush(s.log.committed, s.log.pending, s.capacity);
    if |s.adds| >= s.capacity {
      EvictedIsOwned(s);
      ConcatSnoc(q[1..], s.log.pending);
    } else {
      ConcatSnoc(q, s.log.pending);
    }
  }

  /** What a commit may rely on about the block it frees. */
  ghost predicate EvictionIsOwned(s: Ledger)
    requires s.capacity > 0
  {
    |s.adds| >= s.capacity ==>
      && Evicted(s) in s.heap.blocks && Evicted(s) != NULL
      && Evicted(s) in s.owner && s.owner[Evicted(s)] == Command(|s.adds| - s.capacity)
  }

  lemma CommitKeepsReferences(s: Ledger)
    requires s.capacity > 0 && s.Ownership() && s.current.buffptr != NULL && EvictionIsOwned(s)
    ensures var s' := Committed(s);
            s'.owner.Keys == s'.heap.blocks.Keys && forall p :: p in s'.owner ==> s'.RefersTo(s'.owner[p], p)
  {
    var s' := Committed(s);
    forall p | p in s'.owner
      ensures s'.RefersTo(s'.owner[p], p)
    {
      if p != s.current.buffptr {
        assert p in s.owner && s.RefersTo(s.owner[p], p);
      }
    }
  }

  lemma CommitKeepsLiveOwners(s: Ledger)
    requires s.capacity > 0 && s.Ownership() && s.current.buffptr != NULL && EvictionIsOwned(s)
    ensures var s' := Committed(s);
            forall m: nat :: s'.IsLive(m) ==>
              s'.adds[m].buffptr in s'.owner && s'.owner[s'.adds[m].buffptr] == Command(m)
  {
    var s' := Committed(s);
    forall m: nat | s'.IsLive(m)
      ensures s'.adds[m].buffptr in s'.owner && s'.owner[s'.adds[m].buffptr] == Command(m)
    {
      if m < |s.adds| {
        assert s.IsLive(m) && s'.adds[m] == s.adds[m];
      }
    }
  }

  lemma CommitKeepsLeakOwners(s: Ledger)
    requires s.capacity > 0 && s.Ownership() && s.current.buffptr != NULL && EvictionIsOwned(s)
    requires s.LeakedHoldsLost()
    ensures var s' := Committed(s);
            && s'.LeakedHoldsLost()
            && forall i: nat :: i < |s'.leaked| ==> s'.leaked[i] in s'.owner && s'.owner[s'.leaked[i]] == Leaked(i)
  {
  }

  lemma CommitKeepsOwnership(s: Ledger)
    requires s.Consistent() && s.current.buffptr != NULL
    requires |s.adds| >= s.capacity ==> Evicted(s) in s.heap.blocks
    ensures Committed(s).Ownership() && Committed(s).LeakedHoldsLost()
  {
    if |s.adds| >= s.capacity {
      EvictedIsOwned(s);
    }
    hide Ledger.Consistent, Ledger.IsLive, Ledger.RefersTo;
    CommitKeepsReferences(s);
    CommitKeepsLiveOwners(s);
    CommitKeepsLeakOwners(s);
  }

  lemma CommitKeepsRing(s: Ledger)
    requires s.Consistent() && s.current.buffptr != NULL && EndsLine(s.log.pending)
    requires |s.adds| >= s.capacity ==> Evicted(s) in s.heap.blocks
    ensures Committed(s).RingHoldsCommands()
  {
    if |s.adds| >= s.capacity {
      EvictedIsOwned(s);
    }
    var s' := Committed(s);
    forall m | s'.IsLive(m)
      ensures s'.Holds(s'.adds[m], s'.log.committed[m])
    {
      if m < |s.adds| {
        assert s.IsLive(m) && s.Holds(s.adds[m], s.log.committed[m]);
      }
    }
  }

  lemma Commit(s: Ledger)
    requires s.Consistent() && s.current.buffptr != NULL && EndsLine(s.log.pending)
    requires |s.adds| >= s.capacity ==> Evicted(s) in s.heap.blocks
    ensures Committed(s).Consistent()
    ensures Committed(s).heap.used <= s.heap.used
  {
    CommitKeepsAccounting(s);
    CommitKeepsOwnership(s);
    CommitKeepsRing(s);
  }

  // ---- the ring that the books describe ----

  /** The slot of the oldest command after n commits: 0 until the ring overflows, then one on each time. */
  function OldestIndex(n: nat, capacity: nat): (i: nat)
    requires capacity > 0
    ensures i < capacity
  {
    if n <= capacity then 0
    else if OldestIndex(n - 1, capacity) + 1 == capacity then 0
    else OldestIndex(n - 1, capacity) + 1
  }

  lemma {:induction false} OldestIndexIsModulus(n: nat, capacity: nat)
    requires capacity > 0
    ensures OldestIndex(n, capacity) == if n < capacity then 0 else n % capacity
  {
    if n == capacity {
      ModOf(1, 0, capacity);
    } else if n > capacity {
      OldestIndexIsModulus(n - 1, capacity);
      ModStep(n - 1, capacity);
    }
  }

  /** The ring holds the last entries handed to it, starting where the closed form says. */
  ghost predicate InStep(r: RingState, capacity: nat, adds: seq<Entry>) {
    && 0 < capacity == r.Capacity()
    && r.Valid()
    && r.Live() == LastN(adds, capacity)
    && r.outOffs == OldestIndex(|adds|, capacity)
  }

  lemma FullIffOverflowed(r: RingState, capacity: nat, adds: seq<Entry>)
    requires InStep(r, capacity, adds)
    ensures r.full <==> |adds| >= capacity
    ensures r.full <==> |r.Live()| == capacity
    ensures !r.full ==> r.outOffs == 0
    ensures r.full ==> r.slots[r.inOffs] == adds[|adds| - capacity]
  {
    assert |r.Live()| == r.Count();
    if r.full {
      assert r.Live()[0] == r.slots[r.inOffs];
    }
  }

  /** A commit on the books and an add on the ring stay in step. */
  lemma AddStaysInStep(r: RingState, capacity: nat, adds: seq<Entry>, e: Entry)
    requires InStep(r, capacity, adds)
    ensures InStep(r.Add(e), capacity, adds + [e])
  {
    FullIffOverflowed(r, capacity, adds);
    AddRefinesPush(r, e);
    LastNPush(adds, e, capacity);
  }

  lemma LastAddsHoldLastCommands(s: Ledger)
    requires s.RingHoldsCommands()
    ensures var es := LastN(s.adds, s.capacity);
            && |es| == |s.Live()|
            && Backed(es, s.heap.blocks) && Contents(es, s.heap.blocks) == s.Live()
  {
    var n, es := s.capacity, LastN(s.adds, s.capacity);
    forall i | 0 <= i < |es|
      ensures s.Holds(es[i], s.Live()[i])
    {
      var m := if |s.adds| <= n then i else |s.adds| - n + i;
      assert s.IsLive(m) && es[i] == s.adds[m] && s.Live()[i] == s.log.committed[m];
    }
  }

  /** The ring, read oldest to newest, is the last min(n, capacity) of the n committed commands. */
  lemma RingIsLastCommands(r: RingState, s: Ledger)
    requires s.RingHoldsCommands() && InStep(r, s.capacity, s.adds)
    ensures Backed(r.Live(), s.heap.blocks)
    ensures Contents(r.Live(), s.heap.blocks) == s.Live()
    ensures |r.Live()| == Min(|s.log.committed|, s.capacity)
    ensures r.Size() == |Concat(s.Live())|
  {
    LastAddsHoldLastCommands(s);
    SizeIsLiveTotal(r);
    TotalIsLength(r.Live(), s.heap.blocks);
  }

  /** The block of a named slot holds the command at the slot's rank. */
  lemma NamedCommand(r: RingState, s: Ledger, p: nat, slot: nat, off: nat)
    requires s.RingHoldsCommands() && InStep(r, s.capacity, s.adds) && r.Names(p, slot, off)
    ensures r.slots[slot].buffptr in s.heap.blocks
    ensures var k := r.Rank(slot);
            && k < |s.Live()|
            && s.heap.blocks[r.slots[slot].buffptr] == s.Live()[k]
            && |s.Live()[k]| == r.slots[slot].size
            && p == Offset(s.Live(), k) + off
  {
    RingIsLastCommands(r, s);
    NamedSlotIsLive(r, s.heap.blocks, p, slot, off);
  }

  /** Without wrapping, the k-th oldest command sits k slots after the oldest. */
  lemma UnwrappedIndex(r: RingState, s: Ledger, k: nat)
    requires s.RingHoldsCommands() && InStep(r, s.capacity, s.adds)
    requires k < |s.Live()| && r.outOffs + k < r.Capacity()
    ensures r.slots[r.outOffs + k].size == |s.Live()[k]|
    ensures r.Rank(r.outOffs + k) == k
  {
    RingIsLastCommands(r, s);
    assert r.Live()[k] == r.slots[r.outOffs + k];
    assert Contents(r.Live(), s.heap.blocks)[k] == s.Live()[k];
  }

  // ---- cleanup ----

  /** The blocks left once the pending entry and the i oldest live commands have been freed. */
  ghost predicate Survives(s: Ledger, p: nat, i: nat) {
    && p in s.owner
    && match s.owner[p]
       case Pending => false
       case Command(m) => m >= |s.adds| - |s.Live()| + i
       case Leaked(_) => true
  }

  lemma FreePendingFirst(s: Ledger)
    requires s.Consistent()
    ensures s.current.buffptr != NULL ==> s.current.buffptr in s.heap.blocks
    ensures forall p: nat ::
              Survives(s, p, 0) <==> p in s.heap.blocks && (s.current.buffptr == NULL || p != s.current.buffptr)
  {
    assert forall m :: s.IsLive(m) ==> m >= |s.adds| - |s.Live()|;
  }

  /** The i-th live entry still owns its block, and freeing it leaves the later ones. */
  lemma FreeNextCommand(s: Ledger, i: nat)
    requires s.Consistent() && i < |s.Live()|
    ensures var p := s.adds[|s.adds| - |s.Live()| + i].buffptr;
            && Survives(s, p, i) && p != NULL
            && forall q: nat :: Survives(s, q, i + 1) <==> Survives(s, q, i) && q != p
  {
    assert s.IsLive(|s.adds| - |s.Live()| + i);
  }

  lemma OnlyLeaksSurvive(s: Ledger)
    requires s.Consistent()
    ensures forall p: nat :: Survives(s, p, |s.Live()|) <==> p in s.leaked
  {
    forall p: nat
      ensures Survives(s, p, |s.Live()|) <==> p in s.leaked
    {
      if p in s.leaked {
        var i: nat :| i < |s.leaked| && s.leaked[i] == p;
        assert s.owner[p] == Leaked(i);
      }
    }
  }

  lemma LiveAt(r: RingState, i: nat)
    requires r.Shape() && i < r.Count()
    ensures r.Live()[i] == r.slots[r.SlotAt(i)]
  {
  }

  lemma LastAt(adds: seq<Entry>, capacity: nat, i: nat)
    requires i < |LastN(adds, capacity)|
    ensures LastN(adds, capacity)[i] == adds[|adds| - |LastN(adds, capacity)| + i]
  {
  }

  /** Reachable rings satisfy the condition under which the cleanup loop visits the live slots. */
  lemma CleanupFindsEntry(r: RingState, s: Ledger, i: nat)
    requires s.RingHoldsCommands() && InStep(r, s.capacity, s.adds) && i < |s.Live()| == r.Count()
    ensures CleanupSlot(r, i) == r.SlotAt(i)
    ensures r.slots[r.SlotAt(i)] == s.adds[|s.adds| - |s.Live()| + i]
  {
    hide CleanupSlot, LastN;
    FullIffOverflowed(r, s.capacity, s.adds);
    CleanupIndex(r, i);
    LiveAt(r, i);
    LastAt(s.adds, s.capacity, i);
  }
}
