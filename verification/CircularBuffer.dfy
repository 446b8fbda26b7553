// aesd-circular-buffer.c: the six functions on the struct, updated in place.
module CircularBufferImpl {
  import opened Bytes
  import opened Ring

  /** The index step that every function here uses. */
  function NextIndex(index: nat, capacity: nat): (next: nat)
    requires index < capacity
    ensures next == if index + 1 == capacity then 0 else index + 1
  {
    ModOf(0, index, capacity);
    ModStep(index, capacity);
    (index + 1) % capacity
  }

  /** One turn of a search loop: the next slot, the next partial sum, and when the loop ends. */
  lemma SearchStep(r: RingState, j: nat, index: nat)
    requires r.outOffs < r.Capacity() && j < r.Capacity() && index == r.SlotAt(j)
    ensures r.Scan()[j] == r.slots[index] && r.Rank(index) == j
    ensures Start(r.Scan(), j) + r.slots[index].size == Start(r.Scan(), j + 1) <= r.Size()
    ensures (if index + 1 == r.Capacity() then 0 else index + 1)
              == if j + 1 == r.Capacity() then r.outOffs else r.SlotAt(j + 1)
    ensures j + 1 < r.Capacity() ==> r.SlotAt(j + 1) != r.outOffs
  {
    StartMonotone(r.Scan(), j + 1, r.Capacity());
  }

  /** The answer both searches give when they stop at rank j. */
  lemma StopHere(r: RingState, j: nat, slot: nat, off: nat)
    requires r.outOffs < r.Capacity() && slot < r.Capacity() && j == r.Rank(slot)
    requires off < r.slots[slot].size && Start(r.Scan(), j) + r.slots[slot].size <= r.Size()
    ensures r.Names(Start(r.Scan(), j) + off, slot, off)
    ensures Start(r.Scan(), j) + off < r.Size()
  {
  }

  /** A number as a size_t holds it: arithmetic wraps at 2^64. */
  function SizeT(n: nat): nat {
    n % SIZE_T_MODULUS
  }

  lemma SizeTFits(n: nat)
    requires n < SIZE_T_MODULUS
    ensures SizeT(n) == n
  {
  }

  lemma SizeTAdds(a: nat, b: nat)
    ensures SizeT(SizeT(a) + b) == SizeT(a + b)
  {
  }

  /** One turn of the summing loop. */
  lemma SumTurn(r: RingState, j: nat, index: nat)
    requires r.outOffs < r.Capacity() && j < r.Capacity() && index == r.SlotAt(j)
    ensures SizeT(SizeT(Start(r.Scan(), j)) + r.slots[index].size) == SizeT(Start(r.Scan(), j + 1))
    ensures NextIndex(index, r.Capacity()) == if j + 1 == r.Capacity() then r.outOffs else r.SlotAt(j + 1)
    ensures j + 1 < r.Capacity() ==> r.SlotAt(j + 1) != r.outOffs
  {
    hide NextIndex, SizeT;
    SearchStep(r, j, index);
    SizeTAdds(Start(r.Scan(), j), r.slots[index].size);
  }

  class CircularBuffer {
    const entry: array<Entry>
    var inOffs: nat
    var outOffs: nat
    var full: bool

    ghost function View(): RingState
      reads this, entry
    {
      RingState(entry[..], inOffs, outOffs, full)
    }

    /** The offsets are uint8_t, so at most 255 slots. */
    ghost predicate Valid()
      reads this, entry
    {
      0 < entry.Length < 256 && View().Valid()
    }

    constructor (capacity: nat)
      requires 0 < capacity < 256
      ensures Valid() && View() == InitState(capacity)
      ensures fresh(entry)
    {
      entry := new Entry[capacity](i => EMPTY_ENTRY);
      inOffs, outOffs, full := 0, 0, false;
      new;
      assert View() == InitState(capacity);
    }

    /** aesd_circular_buffer_init */
    method Init()
      requires 0 < entry.Length < 256
      modifies this, entry
      ensures Valid() && View() == InitState(entry.Length)
    {
      forall i | 0 <= i < entry.Length {
        entry[i] := EMPTY_ENTRY;
      }
      inOffs, outOffs, full := 0, 0, false;
      assert View() == InitState(entry.Length);
    }

    /** aesd_circular_buffer_find_entry_offset_for_fpos */
    method FindEntryOffsetForFpos(charOffset: nat) returns (found: bool, slot: nat, entryOffset: nat)
      requires Valid() && View().Size() < SIZE_T_MODULUS
      ensures found <==> charOffset < View().Size()
      ensures found ==> View().Names(charOffset, slot, entryOffset)
    {
      hide NextIndex, SizeT, RingState.Scan, RingState.Names;
      ghost var r := View();
      ghost var j := 0;
      var posBytes, index := 0, outOffs;
      found, slot, entryOffset := false, 0, 0;
      while true
        invariant 0 <= j < r.Capacity() && index == r.SlotAt(j)
        invariant posBytes == Start(r.Scan(), j) <= charOffset
        decreases r.Capacity() - j
      {
        SearchStep(r, j, index);
        var end := SizeT(posBytes + entry[index].size);
        SizeTFits(posBytes + entry[index].size);
        if charOffset < end {
          StopHere(r, j, index, charOffset - posBytes);
          return true, index, charOffset - posBytes;
        }
        posBytes := end;
        index := NextIndex(index, entry.Length);
        j := j + 1;
        if index == outOffs { break; }
      }
    }

    /** aesd_circular_buffer_fpos_for_entry; the entry pointer is given as an index from entry[0]. */
    method FposForEntry(wanted: nat, entryOffset: nat) returns (ret: int, fpos: nat)
      requires Valid() && View().Size() < SIZE_T_MODULUS
      ensures ret == 0 || ret == 1
      ensures ret == 0 <==> wanted < entry.Length && entryOffset < entry[wanted].size
      ensures ret == 0 ==> View().Names(fpos, wanted, entryOffset)
    {
      hide NextIndex, SizeT, RingState.Scan, RingState.Names;
      ghost var r := View();
      ghost var j := 0;
      var posBytes, index := 0, outOffs;
      while true
        invariant 0 <= j < r.Capacity() && index == r.SlotAt(j)
        invariant posBytes == Start(r.Scan(), j)
        invariant wanted < entry.Length ==> j <= r.Rank(wanted)
        decreases r.Capacity() - j
      {
        SearchStep(r, j, index);
        if index == wanted {
          if entryOffset >= entry[index].size {
            return 1, 0;
          }
          StopHere(r, j, index, entryOffset);
          var pos := SizeT(posBytes + entryOffset);
          SizeTFits(posBytes + entryOffset);
          return 0, pos;
        }
        var end := SizeT(posBytes + entry[index].size);
        SizeTFits(posBytes + entry[index].size);
        posBytes := end;
        index := NextIndex(index, entry.Length);
        j := j + 1;
        if index == outOffs {
          assert j == r.Capacity();
          break;
        }
      }
      return 1, 0;
    }

    /** aesd_circular_buffer_get_count */
    method GetCount() returns (entryCount: nat)
      requires Valid()
      ensures entryCount == |View().Live()|
    {
      if !full {
        if outOffs <= inOffs {
          entryCount := inOffs - outOffs;
        } else {
          entryCount := (inOffs + entry.Length) - outOffs;
        }
      } else {
        entryCount := entry.Length;
      }
    }

    /** aesd_circular_buffer_get_size: the total as a size_t holds it. */
    method GetSize() returns (size: nat)
      requires Valid()
      ensures size == SizeT(Total(View().Live()))
    {
      ghost var r := View();
      assert r.SlotAt(0) == outOffs && Start(r.Scan(), 0) == 0;
      SizeTFits(0);
      SizeIsLiveTotal(r);
      hide NextIndex, SizeT, Start, RingState.Scan;
      ghost var j := 0;
      var index := outOffs;
      size := 0;
      while true
        invariant 0 <= j < r.Capacity() && index == r.SlotAt(j)
        invariant size == SizeT(Start(r.Scan(), j))
        decreases r.Capacity() - j
      {
        SumTurn(r, j, index);
        size := SizeT(size + entry[index].size);
        index := NextIndex(index, entry.Length);
        j := j + 1;
        if index == outOffs {
          assert j == r.Capacity();
          break;
        }
      }
    }

    /** aesd_circular_buffer_add_entry */
    method AddEntry(addEntry: Entry)
      requires Valid()
      modifies this, entry
      ensures Valid()
      ensures View() == old(View()).Add(addEntry)
      ensures View().Live() == Push(old(View().Live()), addEntry, entry.Length)
    {
      ghost var r := View();
      var entryCount := GetCount();
      assert entryCount == r.Count();
      entry[inOffs] := addEntry;
      inOffs := NextIndex(inOffs, entry.Length);
      if entryCount < entry.Length {
        if entryCount + 1 == entry.Length {
          full := true;
        }
      } else {
        outOffs := inOffs;
      }
      assert View() == r.Add(addEntry);
      AddRefinesPush(r, addEntry);
    }
  }
}
