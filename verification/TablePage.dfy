/** The table page as an object: its byte buffer changed in place by memmove and memcpy, its
    free-space pointer and slot entries rewritten one at a time. Every method is shown to do to the
    records exactly what the operation of the same name in `Slotted` does. */
module TablePages {
  import opened Common
  import opened Slotted

  class TablePage {
    const data: array<Byte>
    var freeSpacePointer: nat
    var slots: seq<Slot>

    ghost function View(): Page
      reads this, data
    {
      Page(data[..], freeSpacePointer, slots)
    }

    ghost predicate Valid()
      reads this, data
    {
      Ok(View())
    }

    ghost function Contents(): seq<Record>
      requires Valid()
      reads this, data
    {
      Records(View())
    }

    constructor Init(pageSize: nat)
      requires SIZE_TABLE_PAGE_HEADER <= pageSize < DELETE_MASK
      ensures Valid() && fresh(data) && data.Length == pageSize && Contents() == []
    {
      data := new Byte[pageSize];
      freeSpacePointer := pageSize;
      slots := [];
    }

    function GetFreeSpaceRemaining(): int
      reads this
    {
      freeSpacePointer - SIZE_TABLE_PAGE_HEADER - SIZE_TUPLE * |slots|
    }

    method MemCpy(at: nat, bytes: Bytes)
      requires at + |bytes| <= data.Length
      modifies data
      ensures data[..] == Overwrite(old(data[..]), at, bytes)
    {
      for i := 0 to |bytes|
        invariant forall k :: 0 <= k < data.Length ==>
          data[k] == if at <= k < at + i then bytes[k - at] else old(data[k])
      {
        data[at + i] := bytes[i];
      }
    }

    /** Copies upwards or downwards, whichever does not overwrite bytes still to be read. */
    method MemMove(dst: nat, src: nat, n: nat)
      requires dst + n <= data.Length && src + n <= data.Length
      modifies data
      ensures data[..] == Move(old(data[..]), dst, src, n)
    {
      if dst <= src {
        for i := 0 to n
          invariant forall k :: 0 <= k < data.Length ==>
            data[k] == if dst <= k < dst + i then old(data[k - dst + src]) else old(data[k])
        {
          data[dst + i] := data[src + i];
        }
      } else {
        for i := n downto 0
          invariant forall k :: 0 <= k < data.Length ==>
            data[k] == if dst + i <= k < dst + n then old(data[k - dst + src]) else old(data[k])
        {
          data[dst + i] := data[src + i];
        }
      }
    }

    method InsertTuple(tuple: Bytes) returns (rid: Option<nat>)
      requires Valid() && tuple != []
      modifies this, data
      ensures Valid()
      ensures (Contents(), rid) == Insert(data.Length, old(Contents()), tuple)
    {
      ghost var p, rs := View(), Contents();
      FreeSpaceIsExact(p);
      hide Ok, Records, Used, Free, Overwrite, FirstVacant;
      if GetFreeSpaceRemaining() < |tuple| + SIZE_TUPLE {
        return None;
      }
      var i := 0;
      while i < |slots| && slots[i].word != 0
        invariant i <= |slots|
        invariant forall j :: 0 <= j < i ==> slots[j].word != 0
      {
        i := i + 1;
      }
      FirstEmptySlot(p, i);
      if i == |slots| && GetFreeSpaceRemaining() < |tuple| + SIZE_TUPLE {
        return None;
      }
      PlaceIsPut(p, i, tuple);
      freeSpacePointer := freeSpacePointer - |tuple|;
      MemCpy(freeSpacePointer, tuple);
      var entry := Slot(freeSpacePointer, |tuple|);
      slots := if i == |slots| then slots + [entry] else slots[i := entry];
      rid := Some(i);
      assert View() == Place(p, i, tuple);
    }

    static lemma FirstEmptySlot(p: Page, i: nat)
      requires Ok(p) && i <= |p.slots| && (i < |p.slots| ==> p.slots[i].word == 0)
      requires forall j :: 0 <= j < i ==> p.slots[j].word != 0
      ensures FirstVacant(Records(p)) == i
    {
      var rs, v := Records(p), FirstVacant(Records(p));
      if i < |p.slots| { WordTests(p, i); }
      if v < |p.slots| { WordTests(p, v); }
    }

    method MarkDelete(i: nat) returns (ok: bool)
      requires Valid()
      modifies `slots
      ensures Valid()
      ensures (Contents(), ok) == Slotted.MarkDelete(old(Contents()), i)
    {
      ghost var p, rs := View(), Contents();
      if i >= |slots| { return false; }
      WordTests(p, i);
      var size := slots[i].word;
      if IsDeleted(size) { return false; }
      if size > 0 {
        FlagIsFlag(p, i, size + DELETE_MASK);
        slots := slots[i := slots[i].(word := size + DELETE_MASK)];
        assert View() == p.(slots := p.slots[i := p.slots[i].(word := size + DELETE_MASK)]);
      }
      return true;
    }

    method RollbackDelete(i: nat)
      requires Valid() && i < |slots|
      modifies `slots
      ensures Valid()
      ensures Contents() == Slotted.RollbackDelete(old(Contents()), i)
    {
      ghost var p, rs := View(), Contents();
      WordTests(p, i);
      var size := slots[i].word;
      if IsDeleted(size) {
        var unset := if size >= DELETE_MASK then size - DELETE_MASK else size;
        if size > 0 { FlagIsFlag(p, i, unset); }
        slots := slots[i := slots[i].(word := unset)];
        assert View() == p.(slots := p.slots[i := p.slots[i].(word := unset)]);
        assert size == 0 ==> View() == p;
      } else {
        assert rs[i := rs[i].(deleted := false)] == rs;
      }
    }

    method UpdateTuple(i: nat, tuple: Bytes) returns (before: Option<Bytes>)
      requires Valid() && tuple != []
      modifies this, data
      ensures Valid()
      ensures (Contents(), before) == Update(data.Length, old(Contents()), i, tuple)
    {
      ghost var p, rs := View(), Contents();
      FreeSpaceIsExact(p);
      AllInBounds(p);
      if i >= |slots| { return None; }
      WordTests(p, i);
      var size, offset := slots[i].word, slots[i].offset;
      if IsDeleted(size) { return None; }
      if GetFreeSpaceRemaining() + size < |tuple| { return None; }
      before := Some(data[offset..offset + size]);
      assert before == Some(rs[i].data);
      hide Ok, Records, Used, Free, RecordOf, Resize;
      ResizeIsUpdate(p, i, tuple);
      PerformUpdate(i, tuple);
    }

    method PerformUpdate(i: nat, tuple: Bytes)
      requires tuple != [] && Room(View(), i, tuple) && slots[i].word < DELETE_MASK
      modifies this, data
      ensures View() == Resize(old(View()), i, tuple)
    {
      ghost var p := View();
      AllInBounds(p);
      var size, offset := slots[i].word, slots[i].offset;
      hide Ok, ResizedData;
      MoveTuple(i, tuple);
      slots := slots[i := slots[i].(word := |tuple|)];
      forall k: nat | k < |slots| && slots[k].word > 0 ensures slots[k].offset + size >= |tuple| {
        assert InBounds(p, p.slots[k]);
      }
      ShiftOffsets(offset + size, size, |tuple|);
      ShiftedSlots(p, i, tuple, slots);
    }

    method MoveTuple(i: nat, tuple: Bytes)
      requires CanResize(View(), i, tuple) && slots[i].word < DELETE_MASK
      modifies `freeSpacePointer, data
      ensures data[..] == ResizedData(old(View()), i, tuple)
      ensures freeSpacePointer == old(freeSpacePointer) + slots[i].word - |tuple|
    {
      hide Overwrite, Move;
      var size, offset := slots[i].word, slots[i].offset;
      var free := freeSpacePointer;
      MemMove(free + size - |tuple|, free, offset - free);
      freeSpacePointer := free + size - |tuple|;
      MemCpy(offset + size - |tuple|, tuple);
    }

    /** For a slot other than the updated one, lying below the end of the old tuple is lying below
        its start. */
    static lemma ShiftedSlots(p: Page, i: nat, tuple: Bytes, after: seq<Slot>)
      requires Room(p, i, tuple) && p.slots[i].word < DELETE_MASK && tuple != []
      requires |after| == |p.slots| && forall k :: 0 <= k < |after| ==>
        after[k] == Shifted(p.slots[i := p.slots[i].(word := |tuple|)][k],
                            p.slots[i].offset + p.slots[i].word, p.slots[i].word, |tuple|)
      ensures after == Resize(p, i, tuple).slots
    {
      ghost var r := Resize(p, i, tuple);
      forall k: nat | k < |after| ensures after[k] == r.slots[k] {
        if k != i {
          SlotsApart(p, k, i);
          SlotInBounds(p, k);
        }
        hide Ok, ResizedData;
      }
    }

    /** The loop over all slots that ends both byte-moving operations. */
    method ShiftOffsets(limit: nat, size: nat, n: nat)
      requires forall k :: 0 <= k < |slots| && slots[k].word > 0 ==> slots[k].offset + size >= n
      modifies `slots
      ensures |slots| == |old(slots)|
      ensures forall k :: 0 <= k < |slots| ==> slots[k] == Shifted(old(slots)[k], limit, size, n)
    {
      for i := 0 to |slots|
        invariant |slots| == |old(slots)|
        invariant forall k :: 0 <= k < |slots| ==>
          slots[k] == if k < i then Shifted(old(slots)[k], limit, size, n) else old(slots)[k]
      {
        var offset := slots[i].offset;
        if slots[i].word > 0 && offset < limit {
          slots := slots[i := slots[i].(offset := offset + size - n)];
        }
      }
    }

    method ApplyDelete(i: nat)
      requires Valid() && i < |slots| && slots[i].word > 0
      modifies this, data
      ensures Valid()
      ensures Contents() == Slotted.ApplyDelete(old(Contents()), i)
    {
      ghost var p, rs := View(), Contents();
      AllInBounds(p);
      assert Room(p, i, []);
      hide Ok, Room, Records, RecordOf, Resize, InBounds;
      ResizeIsUpdate(p, i, []);
      RemoveTuple(i);
    }

    method RemoveTuple(i: nat)
      requires Room(View(), i, [])
      modifies this, data
      ensures View() == Resize(old(View()), i, [])
    {
      ghost var p := View();
      AllInBounds(p);
      hide Ok, Move;
      var size, offset := slots[i].word, slots[i].offset;
      if IsDeleted(size) {
        size := if size >= DELETE_MASK then size - DELETE_MASK else size;
      }
      var free := freeSpacePointer;
      MemMove(free + size, free, offset - free);
      assert data[..] == ResizedData(p, i, []);
      freeSpacePointer := free + size;
      slots := slots[i := Slot(0, 0)];
      ShiftOffsets(offset, size, 0);
      forall k: nat | k < |slots| ensures slots[k] == Resize(p, i, []).slots[k] {}
    }

    method GetTuple(i: nat) returns (tuple: Option<Bytes>)
      requires Valid()
      ensures tuple ==
        if i < |Contents()| && Contents()[i].Record? && !Contents()[i].deleted then Some(Contents()[i].data) else None
    {
      if i >= |slots| { return None; }
      WordTests(View(), i);
      var size := slots[i].word;
      if IsDeleted(size) { return None; }
      var offset := slots[i].offset;
      return Some(data[offset..offset + size]);
    }

    method GetFirstTupleRid() returns (first: Option<nat>)
      requires Valid()
      ensures first == NextLive(Contents(), 0)
      ensures first.None? <==> forall j :: 0 <= j < |Contents()| ==> Contents()[j].Vacant? || Contents()[j].deleted
    {
      first := LiveFrom(0);
    }

    method GetNextTupleRid(cur: nat) returns (next: Option<nat>)
      requires Valid()
      ensures next == NextLive(Contents(), cur + 1)
    {
      next := LiveFrom(cur + 1);
    }

    method LiveFrom(from: nat) returns (next: Option<nat>)
      requires Valid()
      ensures next == NextLive(Contents(), from)
    {
      var i := from;
      while i < |slots|
        invariant i >= from && NextLive(Contents(), from) == NextLive(Contents(), i)
      {
        WordTests(View(), i);
        if !IsDeleted(slots[i].word) { return Some(i); }
        i := i + 1;
      }
      return None;
    }
  }
}
