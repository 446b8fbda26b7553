// The state of the circular buffer as a value: what the slots mean, how a flat position
// names a byte of a slot, and what adding an entry does to the queue of live entries.
module Ring {
  import opened Bytes

  const NULL: nat := 0

  datatype Entry = Entry(buffptr: nat, size: nat)

  const EMPTY_ENTRY := Entry(NULL, 0)

  /** Sum of the first k sizes. */
  function Start(es: seq<Entry>, k: nat): nat
    requires k <= |es|
  {
    if k == 0 then 0 else Start(es, k - 1) + es[k - 1].size
  }

  function Total(es: seq<Entry>): nat {
    Start(es, |es|)
  }

  lemma {:induction false} StartMonotone(es: seq<Entry>, j: nat, k: nat)
    requires j <= k <= |es|
    ensures Start(es, j) <= Start(es, k)
    ensures j < k ==> Start(es, j) + es[j].size <= Start(es, k)
  {
    if j + 1 < k {
      StartMonotone(es, j, k - 1);
    }
  }

  lemma {:induction false} StartPrefix(a: seq<Entry>, b: seq<Entry>, k: nat)
    requires k <= |a| && k <= |b| && a[..k] == b[..k]
    ensures Start(a, k) == Start(b, k)
  {
    if k > 0 {
      assert a[..k - 1] == a[..k][..k - 1];
      assert b[..k - 1] == b[..k][..k - 1];
      assert a[k - 1] == a[..k][k - 1] && b[k - 1] == b[..k][k - 1];
      StartPrefix(a, b, k - 1);
    }
  }

  datatype RingState = RingState(slots: seq<Entry>, inOffs: nat, outOffs: nat, full: bool) {
    function Capacity(): nat {
      |slots|
    }

    ghost predicate Shape() {
      && inOffs < Capacity()
      && outOffs < Capacity()
      && (full ==> inOffs == outOffs)
    }

    /** The slot that lies j places after the oldest one, wrapping at the end of the array. */
    function SlotAt(j: nat): (slot: nat)
      requires outOffs < Capacity() && j <= Capacity()
      ensures slot < Capacity()
    {
      if outOffs + j < Capacity() then outOffs + j else outOffs + j - Capacity()
    }

    /** How far a slot lies after the oldest one: the inverse of SlotAt. */
    function Rank(slot: nat): (j: nat)
      requires outOffs < Capacity() && slot < Capacity()
      ensures j < Capacity() && SlotAt(j) == slot
    {
      if outOffs <= slot then slot - outOffs else slot + Capacity() - outOffs
    }

    /** All slots in the order the searches visit them. */
    function Scan(): (es: seq<Entry>)
      requires outOffs < Capacity()
      ensures |es| == Capacity()
      ensures forall j :: 0 <= j < |es| ==> es[j] == slots[SlotAt(j)]
    {
      slots[outOffs..] + slots[..outOffs]
    }

    /** Number of live entries. */
    function Count(): (c: nat)
      requires Shape()
      ensures c <= Capacity()
      ensures full <==> c == Capacity()
      ensures !full ==> SlotAt(c) == inOffs
    {
      if full then Capacity() else Rank(inOffs)
    }

    /** The entries in use, oldest first. */
    function Live(): seq<Entry>
      requires Shape()
    {
      Scan()[..Count()]
    }

    /** Well-formed: every slot outside the live range has size 0. */
    ghost predicate Valid() {
      && Shape()
      && forall j :: Count() <= j < Capacity() ==> Scan()[j].size == 0
    }

    /** Total number of bytes the ring holds. */
    function Size(): nat
      requires outOffs < Capacity()
    {
      Total(Scan())
    }

    /** Position `pos` of the flat view is byte `off` of slot `slot`. */
    ghost predicate Names(pos: nat, slot: nat, off: nat)
      requires outOffs < Capacity()
    {
      && slot < Capacity()
      && off < slots[slot].size
      && pos == Start(Scan(), Rank(slot)) + off
    }

    function Add(e: Entry): RingState
      requires Shape()
    {
      var next := if inOffs + 1 == Capacity() then 0 else inOffs + 1;
      RingState(slots[inOffs := e], next, if full then next else outOffs, Count() + 1 >= Capacity())
    }
  }

  /** What zeroing the struct leaves. */
  function InitState(capacity: nat): RingState {
    RingState(seq(capacity, i => EMPTY_ENTRY), 0, 0, false)
  }

  // ---- flat positions and (slot, offset) pairs ----

  /** A position names at most one byte, and a byte is named by at most one position. */
  lemma NamesIsInjective(r: RingState, p: nat, slot: nat, off: nat, p': nat, slot': nat, off': nat)
    requires r.outOffs < r.Capacity()
    requires r.Names(p, slot, off) && r.Names(p', slot', off')
    ensures p == p' <==> slot == slot' && off == off'
  {
    var k, k' := r.Rank(slot), r.Rank(slot');
    if k < k' {
      StartMonotone(r.Scan(), k, k');
    } else if k' < k {
      StartMonotone(r.Scan(), k', k);
    }
  }

  lemma {:induction false} RankOfPosition(es: seq<Entry>, n: nat, p: nat) returns (k: nat)
    requires n <= |es| && p < Start(es, n)
    ensures k < n && Start(es, k) <= p < Start(es, k) + es[k].size
  {
    if p >= Start(es, n - 1) {
      k := n - 1;
    } else {
      k := RankOfPosition(es, n - 1, p);
    }
  }

  ghost predicate HasName(r: RingState, p: nat)
    requires r.outOffs < r.Capacity()
  {
    exists slot: nat, off: nat :: r.Names(p, slot, off)
  }

  ghost predicate HasPosition(r: RingState, slot: nat, off: nat)
    requires r.outOffs < r.Capacity()
  {
    exists p: nat :: r.Names(p, slot, off)
  }

  /** Names is a bijection between the positions below the total size and the valid pairs. */
  lemma NamesIsBijection(r: RingState)
    requires r.outOffs < r.Capacity()
    ensures forall p: nat :: HasName(r, p) <==> p < r.Size()
    ensures forall slot: nat, off: nat ::
              HasPosition(r, slot, off) <==> slot < r.Capacity() && off < r.slots[slot].size
    ensures forall p: nat, slot: nat, off: nat, p': nat, slot': nat, off': nat ::
              r.Names(p, slot, off) && r.Names(p', slot', off') ==> (p == p' <==> slot == slot' && off == off')
  {
    forall p: nat, slot: nat, off: nat, p': nat, slot': nat, off': nat
      | r.Names(p, slot, off) && r.Names(p', slot', off')
      ensures p == p' <==> slot == slot' && off == off'
    {
      NamesIsInjective(r, p, slot, off, p', slot', off');
    }
    forall p: nat, slot: nat, off: nat | r.Names(p, slot, off)
      ensures p < r.Size()
    {
      StartMonotone(r.Scan(), r.Rank(slot), r.Capacity());
    }
    forall p: nat
      ensures HasName(r, p) <==> p < r.Size()
    {
      if p < r.Size() {
        var k := RankOfPosition(r.Scan(), r.Capacity(), p);
        assert r.Rank(r.SlotAt(k)) == k;
        assert r.Names(p, r.SlotAt(k), p - Start(r.Scan(), k));
      }
    }
    forall slot: nat, off: nat
      ensures HasPosition(r, slot, off) <==> slot < r.Capacity() && off < r.slots[slot].size
    {
      if slot < r.Capacity() && off < r.slots[slot].size {
        assert r.Names(Start(r.Scan(), r.Rank(slot)) + off, slot, off);
      }
    }
  }

  // ---- the dead slots add nothing ----

  lemma {:induction false} DeadSlotsAddNothing(r: RingState, k: nat)
    requires r.Valid() && r.Count() <= k <= r.Capacity()
    ensures Start(r.Scan(), k) == Total(r.Live())
  {
    if k > r.Count() {
      DeadSlotsAddNothing(r, k - 1);
    } else {
      StartPrefix(r.Scan(), r.Live(), k);
    }
  }

  lemma SizeIsLiveTotal(r: RingState)
    requires r.Valid()
    ensures r.Size() == Total(r.Live())
  {
    DeadSlotsAddNothing(r, r.Capacity());
  }

  // ---- the bytes behind the entries ----

  /** Every entry points to an allocated block of exactly its size. */
  ghost predicate Backed(es: seq<Entry>, blocks: map<nat, seq<byte>>) {
    forall i :: 0 <= i < |es| ==> es[i].buffptr in blocks && |blocks[es[i].buffptr]| == es[i].size
  }

  ghost function Contents(es: seq<Entry>, blocks: map<nat, seq<byte>>): (cs: seq<seq<byte>>)
    requires Backed(es, blocks)
    ensures |cs| == |es|
  {
    seq(|es|, i requires 0 <= i < |es| => blocks[es[i].buffptr])
  }

  lemma {:induction false} StartIsOffset(es: seq<Entry>, blocks: map<nat, seq<byte>>, k: nat)
    requires Backed(es, blocks) && k <= |es|
    ensures Start(es, k) == Offset(Contents(es, blocks), k)
  {
    if k > 0 {
      StartIsOffset(es, blocks, k - 1);
    }
  }

  lemma TotalIsLength(es: seq<Entry>, blocks: map<nat, seq<byte>>)
    requires Backed(es, blocks)
    ensures Total(es) == |Concat(Contents(es, blocks))|
  {
    var cs := Contents(es, blocks);
    StartIsOffset(es, blocks, |es|);
    OffsetIsLength(cs, |es|);
    assert cs[..|es|] == cs;
  }

  /** A named slot is live, and its rank locates the position in the live commands. */
  lemma NamedSlotIsLive(r: RingState, blocks: map<nat, seq<byte>>, p: nat, slot: nat, off: nat)
    requires r.Valid() && Backed(r.Live(), blocks)
    requires r.Names(p, slot, off)
    ensures r.Rank(slot) < r.Count()
    ensures r.Live()[r.Rank(slot)] == r.slots[slot]
    ensures p == Offset(Contents(r.Live(), blocks), r.Rank(slot)) + off
  {
    var k := r.Rank(slot);
    assert r.Scan()[k] == r.slots[slot];
    StartPrefix(r.Scan(), r.Live(), k);
    StartIsOffset(r.Live(), blocks, k);
  }

  /** The byte a position names is the byte at that index of the concatenated live commands. */
  lemma NamedByte(r: RingState, blocks: map<nat, seq<byte>>, p: nat, slot: nat, off: nat)
    requires r.Valid() && Backed(r.Live(), blocks)
    requires r.Names(p, slot, off)
    ensures r.slots[slot].buffptr in blocks && off < |blocks[r.slots[slot].buffptr]|
    ensures var flat := Concat(Contents(r.Live(), blocks));
            p < |flat| && flat[p] == blocks[r.slots[slot].buffptr][off]
  {
    NamedSlotIsLive(r, blocks, p, slot, off);
    ConcatAt(Contents(r.Live(), blocks), r.Rank(slot), off);
  }

  // ---- adding an entry ----

  lemma AddToFullDropsOldest(r: RingState, e: Entry)
    requires r.Valid() && r.full
    ensures r.Add(e).Valid() && r.Add(e).Live() == r.Live()[1..] + [e]
  {
    var r', n := r.Add(e), r.Capacity();
    forall j: nat | j < n
      ensures r'.Scan()[j] == (r.Live()[1..] + [e])[j]
    {
      assert r'.SlotAt(j) == if j + 1 < n then r.SlotAt(j + 1) else r.inOffs;
    }
  }

  lemma AddToRoomAppends(r: RingState, e: Entry)
    requires r.Valid() && !r.full
    ensures r.Add(e).Valid() && r.Add(e).Live() == r.Live() + [e]
  {
    var r', n, c := r.Add(e), r.Capacity(), r.Count();
    assert r'.Count() == c + 1;
    forall j: nat | j < n
      ensures r'.Scan()[j] == if j == c then e else r.Scan()[j]
    {
      assert r'.SlotAt(j) == r.SlotAt(j);
      assert j != c ==> r.SlotAt(j) != r.inOffs;
    }
    hide RingState.Scan, RingState.SlotAt;
    assert r'.Live() == r'.Scan()[..c + 1] == r.Scan()[..c] + [e];
  }

  /** From any well-formed state, adding is a bounded push on the live entries. */
  lemma AddRefinesPush(r: RingState, e: Entry)
    requires r.Valid()
    ensures r.Add(e).Valid()
    ensures r.Add(e).Live() == Push(r.Live(), e, r.Capacity())
  {
    if r.full {
      AddToFullDropsOldest(r, e);
    } else {
      AddToRoomAppends(r, e);
    }
  }

  lemma InitIsEmpty(capacity: nat)
    requires capacity > 0
    ensures InitState(capacity).Valid() && InitState(capacity).Live() == []
  {
  }

  // ---- closed form of the states that runs reach ----

  /** State after adding the entries of es, in order, to a zeroed ring. */
  ghost function After(capacity: nat, es: seq<Entry>): RingState
    requires capacity > 0
    ensures After(capacity, es).Shape() && After(capacity, es).Capacity() == capacity
  {
    if es == [] then InitState(capacity) else After(capacity, es[..|es| - 1]).Add(es[|es| - 1])
  }

  /** The three index fields after n adds. */
  ghost predicate IndicesAfter(r: RingState, n: nat)
    requires r.Capacity() > 0
  {
    && r.inOffs == n % r.Capacity()
    && r.outOffs == (if n < r.Capacity() then 0 else n % r.Capacity())
    && (r.full <==> n >= r.Capacity())
  }

  lemma RemainderIsUnique(q: int, k: nat, q': int, k': nat, m: nat)
    requires k < m && k' < m
    requires q * m + k == q' * m + k'
    ensures k == k'
  {
    if q > q' {
      MulAtLeast(q - q', m);
    } else if q < q' {
      MulAtLeast(q' - q, m);
    }
  }

  lemma MulAtLeast(d: nat, m: nat)
    requires d > 0
    ensures d * m >= m
  {
  }

  lemma DivMod(x: nat, m: nat)
    requires m > 0
    ensures x == x / m * m + x % m && 0 <= x % m < m
  {
  }

  /** The remainder is the one k below m with x == q * m + k. */
  lemma ModOf(q: nat, k: nat, m: nat)
    requires k < m
    ensures (q * m + k) % m == k
  {
    var x := q * m + k;
    DivMod(x, m);
    RemainderIsUnique(q, k, x / m, x % m, m);
  }

  lemma ModStep(n: nat, m: nat)
    requires m > 0
    ensures (n + 1) % m == if n % m + 1 == m then 0 else n % m + 1
  {
    DivMod(n, m);
    NextMultiple(n / m, n % m, m);
  }

  lemma NextMultiple(q: nat, k: nat, m: nat)
    requires k < m
    ensures (q * m + k + 1) % m == if k + 1 == m then 0 else k + 1
  {
    if k + 1 == m {
      assert q * m + k + 1 == (q + 1) * m;
      ModOf(q + 1, 0, m);
    } else {
      ModOf(q, k + 1, m);
    }
  }

  lemma {:induction false} ModWindow(n: nat, d: nat, m: nat)
    requires 0 < d < m
    ensures (n + d) % m != n % m
    decreases d
  {
    ModStep(n + d - 1, m);
    ModShift(n, d, m);
  }

  lemma {:induction false} ModShift(n: nat, d: nat, m: nat)
    requires d < m
    ensures (n + d) % m == if n % m + d < m then n % m + d else n % m + d - m
  {
    if d > 0 {
      ModShift(n, d - 1, m);
      ModStep(n + d - 1, m);
    }
  }

  lemma AddKeepsIndices(r: RingState, n: nat, e: Entry)
    requires r.Shape() && IndicesAfter(r, n)
    ensures IndicesAfter(r.Add(e), n + 1)
  {
    ModStep(n, r.Capacity());
    if n < r.Capacity() {
      ModOf(0, n, r.Capacity());
    }
  }

  /** Each of the last `capacity` entries sits in the slot of its number; later slots are untouched. */
  ghost predicate SlotsAfter(r: RingState, es: seq<Entry>)
    requires r.Capacity() > 0
  {
    && (forall i: nat {:trigger r.slots[i]} :: |es| <= i < r.Capacity() ==> r.slots[i] == EMPTY_ENTRY)
    && (forall m: nat {:trigger es[m]} :: |es| - r.Capacity() <= m < |es| ==> r.slots[m % r.Capacity()] == es[m])
  }

  lemma AddKeepsSlots(r: RingState, es: seq<Entry>, e: Entry)
    requires r.Shape() && IndicesAfter(r, |es|) && SlotsAfter(r, es)
    ensures SlotsAfter(r.Add(e), es + [e])
  {
    var c, n := r.Capacity(), |es|;
    forall m: nat {:trigger (es + [e])[m]} | n + 1 - c <= m < n + 1
      ensures r.Add(e).slots[m % c] == (es + [e])[m]
    {
      if m < n {
        ModWindow(m, n - m, c);
        assert r.slots[m % c] == es[m];
      }
    }
    if n < c {
      ModOf(0, n, c);
    }
  }

  lemma {:induction false} AfterKeepsQueue(capacity: nat, es: seq<Entry>)
    requires capacity > 0
    ensures After(capacity, es).Valid() && After(capacity, es).Live() == LastN(es, capacity)
  {
    if es == [] {
      InitIsEmpty(capacity);
    } else {
      var es', e := es[..|es| - 1], es[|es| - 1];
      assert es == es' + [e];
      AfterKeepsQueue(capacity, es');
      AddRefinesPush(After(capacity, es'), e);
      LastNPush(es', e, capacity);
    }
  }

  lemma {:induction false} AfterKeepsIndices(capacity: nat, es: seq<Entry>)
    requires capacity > 0
    ensures IndicesAfter(After(capacity, es), |es|) && SlotsAfter(After(capacity, es), es)
  {
    if es == [] {
      ModOf(0, 0, capacity);
    } else {
      var es', e := es[..|es| - 1], es[|es| - 1];
      assert es == es' + [e];
      AfterKeepsIndices(capacity, es');
      AddKeepsIndices(After(capacity, es'), |es'|, e);
      AddKeepsSlots(After(capacity, es'), es', e);
    }
  }

  /** n adds after init: indices, count, every slot, and the queue, all as functions of n. */
  lemma ClosedForm(capacity: nat, es: seq<Entry>)
    requires capacity > 0
    ensures var r := After(capacity, es);
            && r.Valid()
            && IndicesAfter(r, |es|)
            && SlotsAfter(r, es)
            && r.Count() == Min(|es|, capacity)
            && r.Live() == LastN(es, capacity)
  {
    AfterKeepsQueue(capacity, es);
    AfterKeepsIndices(capacity, es);
    assert |After(capacity, es).Live()| == After(capacity, es).Count();
  }

  // ---- the cleanup index ----

  /** The i-th slot aesd_cleanup_module visits: it reduces modulo the count, not the capacity. */
  ghost function CleanupSlot(r: RingState, i: nat): nat
    requires r.Shape() && i < r.Count()
  {
    (r.outOffs + i) % r.Count()
  }

  ghost function CleanupSlots(r: RingState): set<nat>
    requires r.Shape()
  {
    set i: nat | i < r.Count() :: CleanupSlot(r, i)
  }

  ghost function LiveSlots(r: RingState): set<nat>
    requires r.Shape()
  {
    set j: nat | j < r.Count() :: r.SlotAt(j)
  }

  /** The cleanup loop visits exactly the live slots in these states and in no others. */
  lemma CleanupVisitsLiveSlots(r: RingState)
    requires r.Shape()
    ensures CleanupSlots(r) == LiveSlots(r) <==> r.full || r.outOffs == 0 || r.Count() == 0
  {
    var c := r.Count();
    if c == 0 {
      assert CleanupSlots(r) == {} == LiveSlots(r);
    } else if r.full || r.outOffs == 0 {
      forall i: nat | i < c
        ensures CleanupSlot(r, i) == r.SlotAt(i)
      {
        CleanupIndex(r, i);
      }
    } else {
      // Slot 0 .. c-1 are visited, but some live slot lies outside them.
      CleanupStaysLow(r);
      if r.outOffs >= c {
        assert r.SlotAt(0) in LiveSlots(r);
      } else {
        var last := r.SlotAt(c - 1);
        assert last in LiveSlots(r);
        if r.outOffs + c <= r.Capacity() {
          assert last == r.outOffs + c - 1 >= c;
        } else {
          assert r.SlotAt(r.Capacity() - 1 - r.outOffs) == r.Capacity() - 1;
          assert r.Capacity() - 1 in LiveSlots(r);
        }
      }
    }
  }

  lemma CleanupIndex(r: RingState, i: nat)
    requires r.Shape() && i < r.Count()
    requires r.full || r.outOffs == 0
    ensures CleanupSlot(r, i) == r.SlotAt(i)
  {
    if r.full {
      ModShift(r.outOffs, i, r.Capacity());
      ModOf(0, r.outOffs, r.Capacity());
    } else {
      ModOf(0, i, r.Count());
    }
  }

  lemma CleanupStaysLow(r: RingState)
    requires r.Shape()
    ensures forall s :: s in CleanupSlots(r) ==> s < r.Count()
  {
  }
}
