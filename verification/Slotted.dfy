/** A slotted page: what its slots mean as records, and the page itself as bytes, a free-space
    pointer and a slot array, with the moves its operations make on them. */
module Slotted {

  import opened Common

  const SIZE_TABLE_PAGE_HEADER := 24
  const SIZE_TUPLE := 8
  /** The top bit of a 32-bit size word marks the tuple as deleted. */
  const DELETE_MASK := 0x8000_0000

  // ---------------------------------------------------------------- records

  datatype Record = Vacant | Record(data: Bytes, deleted: bool)

  /** A tuple slot is deleted for its readers when it is empty or marked. */
  predicate Gone(r: Record) { r.Vacant? || r.deleted }

  function SizeOf(r: Record): nat { if r.Vacant? then 0 else |r.data| }

  function Used(rs: seq<Record>): nat {
    if rs == [] then 0 else SizeOf(rs[0]) + Used(rs[1..])
  }

  /** `GetFreeSpaceRemaining` of a page that holds these records and nothing else. */
  function Free(size: nat, rs: seq<Record>): int {
    size - SIZE_TABLE_PAGE_HEADER - SIZE_TUPLE * |rs| - Used(rs)
  }

  lemma {:induction false} UsedConcat(a: seq<Record>, b: seq<Record>)
    ensures Used(a + b) == Used(a) + Used(b)
  {
    if a == [] {
      assert a + b == b;
    } else {
      assert (a + b)[1..] == a[1..] + b;
      UsedConcat(a[1..], b);
    }
  }

  lemma UsedUpdate(rs: seq<Record>, i: nat, r: Record)
    requires i < |rs|
    ensures Used(rs[i := r]) == Used(rs) - SizeOf(rs[i]) + SizeOf(r)
  {
    UsedConcat(rs[..i], [rs[i]] + rs[i + 1..]);
    UsedConcat([rs[i]], rs[i + 1..]);
    UsedConcat(rs[..i], [r] + rs[i + 1..]);
    UsedConcat([r], rs[i + 1..]);
    assert rs == rs[..i] + ([rs[i]] + rs[i + 1..]);
    assert rs[i := r] == rs[..i] + ([r] + rs[i + 1..]);
  }

  /** First vacant slot, or the end of the slot array. */
  function FirstVacant(rs: seq<Record>): (i: nat)
    ensures i <= |rs|
    ensures i < |rs| ==> rs[i].Vacant?
    ensures forall j :: 0 <= j < i ==> !rs[j].Vacant?
  {
    if rs == [] || rs[0].Vacant? then 0 else 1 + FirstVacant(rs[1..])
  }

  function PutRecord(rs: seq<Record>, i: nat, r: Record): seq<Record>
    requires i <= |rs|
  {
    if i == |rs| then rs + [r] else rs[i := r]
  }

  /** `InsertTuple`: the slot used, if there was room. */
  function Insert(size: nat, rs: seq<Record>, tuple: Bytes): (seq<Record>, Option<nat>) {
    if Free(size, rs) < |tuple| + SIZE_TUPLE then (rs, None)
    else (PutRecord(rs, FirstVacant(rs), Record(tuple, false)), Some(FirstVacant(rs)))
  }

  function MarkDelete(rs: seq<Record>, i: nat): (seq<Record>, bool) {
    if i >= |rs| || Gone(rs[i]) then (rs, false) else (rs[i := rs[i].(deleted := true)], true)
  }

  /** `UpdateTuple`: the old bytes on success. */
  function Update(size: nat, rs: seq<Record>, i: nat, tuple: Bytes): (seq<Record>, Option<Bytes>) {
    if i >= |rs| || Gone(rs[i]) || Free(size, rs) + |rs[i].data| < |tuple| then (rs, None)
    else (rs[i := Record(tuple, false)], Some(rs[i].data))
  }

  function ApplyDelete(rs: seq<Record>, i: nat): seq<Record>
    requires i < |rs|
  {
    rs[i := Vacant]
  }

  function RollbackDelete(rs: seq<Record>, i: nat): seq<Record>
    requires i < |rs|
  {
    if rs[i].Record? then rs[i := rs[i].(deleted := false)] else rs
  }

  // ---------------------------------------------------------------- what the operations do

  /** An insert fails exactly when the page has not room for the tuple and a slot entry. It takes the
      first vacant slot, and gains a slot only if there is none. */
  lemma InsertOutcome(size: nat, rs: seq<Record>, tuple: Bytes)
    ensures var (after, slot) := Insert(size, rs, tuple);
            && (slot.None? <==> size - SIZE_TABLE_PAGE_HEADER - SIZE_TUPLE * |rs| - Used(rs) < |tuple| + SIZE_TUPLE)
            && (slot.None? ==> after == rs)
            && (slot.Some? ==>
                 var i := slot.value;
                 && i <= |rs| && (forall j :: 0 <= j < i ==> rs[j].Record?) && (i < |rs| ==> rs[i].Vacant?)
                 && |after| == (if i < |rs| then |rs| else |rs| + 1) && after[i] == Record(tuple, false)
                 && forall j :: 0 <= j < |rs| && j != i ==> after[j] == rs[j])
  {}

  /** A mark-delete is accepted exactly for a tuple that is there and not marked, and sets its mark. */
  lemma MarkDeleteOutcome(rs: seq<Record>, i: nat)
    ensures var (after, ok) := MarkDelete(rs, i);
            && (ok <==> i < |rs| && rs[i].Record? && !rs[i].deleted)
            && |after| == |rs|
            && forall j :: 0 <= j < |rs| ==> after[j] == if ok && j == i then Record(rs[i].data, true) else rs[j]
  {}

  /** An update succeeds exactly for an unmarked tuple that can grow or shrink within the page; it
      hands back the old bytes. */
  lemma UpdateOutcome(size: nat, rs: seq<Record>, i: nat, tuple: Bytes)
    ensures var (after, before) := Update(size, rs, i, tuple);
            && (before.Some? <==>
                 && i < |rs| && rs[i].Record? && !rs[i].deleted
                 && |tuple| <= size - SIZE_TABLE_PAGE_HEADER - SIZE_TUPLE * |rs| - Used(rs) + |rs[i].data|)
            && (before.Some? ==> before.value == rs[i].data)
            && |after| == |rs|
            && forall j :: 0 <= j < |rs| ==> after[j] == if before.Some? && j == i then Record(tuple, false) else rs[j]
  {}

  /** Applying a delete empties the slot; rolling one back clears the mark and nothing else. */
  lemma DeleteOutcomes(rs: seq<Record>, i: nat)
    requires i < |rs|
    ensures |ApplyDelete(rs, i)| == |RollbackDelete(rs, i)| == |rs|
    ensures forall j :: 0 <= j < |rs| ==> ApplyDelete(rs, i)[j] == if j == i then Vacant else rs[j]
    ensures forall j :: 0 <= j < |rs| ==>
              RollbackDelete(rs, i)[j] == if j == i && rs[i].Record? then Record(rs[i].data, false) else rs[j]
  {}

  // ---------------------------------------------------------------- bytes and slots

  datatype Slot = Slot(offset: nat, word: nat)

  datatype Page = Page(data: Bytes, free: nat, slots: seq<Slot>)

  function Len(s: Slot): nat { if s.word >= DELETE_MASK then s.word - DELETE_MASK else s.word }

  predicate IsDeleted(word: nat) { word >= DELETE_MASK || word == 0 }

  function TotalLen(slots: seq<Slot>): nat {
    if slots == [] then 0 else Len(slots[0]) + TotalLen(slots[1..])
  }

  predicate Apart(a: Slot, b: Slot) {
    Len(a) > 0 && Len(b) > 0 ==> a.offset + Len(a) <= b.offset || b.offset + Len(b) <= a.offset
  }

  predicate InBounds(p: Page, s: Slot) {
    s.word != DELETE_MASK && (s.word > 0 ==> p.free <= s.offset && s.offset + Len(s) <= |p.data|)
  }

  /** The slot array ends before the free-space pointer; every nonempty slot, marked or not, lies
      between that pointer and the end of the page; slots do not overlap; and together they are
      as long as that region. */
  ghost predicate Ok(p: Page) {
    && |p.data| < DELETE_MASK
    && SIZE_TABLE_PAGE_HEADER + SIZE_TUPLE * |p.slots| <= p.free <= |p.data|
    && (forall i :: 0 <= i < |p.slots| ==> InBounds(p, p.slots[i]))
    && (forall i, j :: 0 <= i < j < |p.slots| ==> Apart(p.slots[i], p.slots[j]))
    && p.free + TotalLen(p.slots) == |p.data|
  }

  function RecordOf(data: Bytes, s: Slot): Record
    requires s.word > 0 ==> s.offset + Len(s) <= |data|
  {
    if s.word == 0 then Vacant else Record(data[s.offset..s.offset + Len(s)], s.word >= DELETE_MASK)
  }

  ghost function Records(p: Page): (rs: seq<Record>)
    requires Ok(p)
    ensures |rs| == |p.slots|
  {
    seq(|p.slots|, i requires 0 <= i < |p.slots| => RecordOf(p.data, p.slots[i]))
  }

  // ---------------------------------------------------------------- exact tiling

  predicate Covers(s: Slot, k: nat) { s.offset <= k < s.offset + Len(s) }

  /** The bytes under the first n slots. */
  ghost function Covered(slots: seq<Slot>, n: nat): set<nat>
    requires n <= |slots|
  {
    if n == 0 then {} else Covered(slots, n - 1) + Span(slots[n - 1].offset, Len(slots[n - 1]))
  }

  ghost function Span(from: nat, len: nat): set<nat> {
    if len == 0 then {} else Span(from, len - 1) + {from + len - 1}
  }

  lemma {:induction false} SpanIs(from: nat, len: nat)
    ensures |Span(from, len)| == len
    ensures forall k :: k in Span(from, len) <==> from <= k < from + len
  {
    if len > 0 { SpanIs(from, len - 1); }
  }

  lemma {:induction false} InCovered(slots: seq<Slot>, n: nat, k: nat)
    requires n <= |slots|
    ensures k in Covered(slots, n) <==> exists i :: 0 <= i < n && Covers(slots[i], k)
  {
    if n > 0 {
      InCovered(slots, n - 1, k);
      SpanIs(slots[n - 1].offset, Len(slots[n - 1]));
    }
  }

  lemma LastSlotIsNew(p: Page, n: nat)
    requires Ok(p) && 0 < n <= |p.slots|
    ensures Covered(p.slots, n - 1) !! Span(p.slots[n - 1].offset, Len(p.slots[n - 1]))
  {
    var last := p.slots[n - 1];
    SpanIs(last.offset, Len(last));
    hide Ok, Span, Covered;
    forall k | k in Covered(p.slots, n - 1) ensures k !in Span(last.offset, Len(last)) {
      InCovered(p.slots, n - 1, k);
      var i :| 0 <= i < n - 1 && Covers(p.slots[i], k);
      NoSharedByte(p, i, n - 1, k);
    }
  }

  lemma {:induction false} CoveredSize(p: Page, n: nat)
    requires Ok(p) && n <= |p.slots|
    ensures |Covered(p.slots, n)| == TotalLen(p.slots[..n])
  {
    hide Ok, Span, Len;
    if n > 0 {
      var last := p.slots[n - 1];
      CoveredSize(p, n - 1);
      LastSlotIsNew(p, n);
      SpanIs(last.offset, Len(last));
      TotalSnoc(p.slots[..n - 1], last);
      assert p.slots[..n] == p.slots[..n - 1] + [last];
      assert |Covered(p.slots, n)| == |Covered(p.slots, n - 1)| + |Span(last.offset, Len(last))|;
    }
  }

  lemma NoSharedByte(p: Page, i: nat, j: nat, k: nat)
    requires Ok(p) && i < |p.slots| && j < |p.slots| && i != j
    ensures !(Covers(p.slots[i], k) && Covers(p.slots[j], k))
  {
    assert Apart(p.slots[if i < j then i else j], p.slots[if i < j then j else i]);
  }

  lemma {:induction false} TotalSnoc(slots: seq<Slot>, s: Slot)
    ensures TotalLen(slots + [s]) == TotalLen(slots) + Len(s)
  {
    if slots == [] {
      assert [s] == [] + [s];
    } else {
      assert (slots + [s])[1..] == slots[1..] + [s];
      TotalSnoc(slots[1..], s);
    }
  }

  /** The nonempty slots tile the tuple region: every byte of [free, end) is under exactly one. */
  lemma SlotsTileTheTupleRegion(p: Page, k: nat)
    requires Ok(p) && p.free <= k < |p.data|
    ensures exists i :: 0 <= i < |p.slots| && Covers(p.slots[i], k)
    ensures forall i, j :: 0 <= i < |p.slots| && 0 <= j < |p.slots| && Covers(p.slots[i], k) && Covers(p.slots[j], k) ==> i == j
  {
    var n := |p.slots|;
    CoveredSize(p, n);
    assert p.slots[..n] == p.slots;
    SpanIs(p.free, |p.data| - p.free);
    forall m | m in Covered(p.slots, n) ensures m in Span(p.free, |p.data| - p.free) {
      InCovered(p.slots, n, m);
      var i :| 0 <= i < n && Covers(p.slots[i], m);
      assert InBounds(p, p.slots[i]);
    }
    SubsetOfSameSize(Covered(p.slots, n), Span(p.free, |p.data| - p.free));
    InCovered(p.slots, n, k);
    forall i, j | 0 <= i < n && 0 <= j < n && Covers(p.slots[i], k) && Covers(p.slots[j], k)
      ensures i == j
    {
      if i != j { NoSharedByte(p, i, j, k); }
    }
  }

  // ---------------------------------------------------------------- moves

  /** `memmove` inside the page. */
  function Move(d: Bytes, dst: nat, src: nat, n: nat): Bytes
    requires dst + n <= |d| && src + n <= |d|
  {
    seq(|d|, k requires 0 <= k < |d| => if dst <= k < dst + n then d[k - dst + src] else d[k])
  }

  /** `memcpy` into the page. */
  function Overwrite(d: Bytes, at: nat, bytes: Bytes): (r: Bytes)
    requires at + |bytes| <= |d|
    ensures |r| == |d|
  {
    d[..at] + bytes + d[at + |bytes|..]
  }

  /** Where a slot's tuple lies after the tuple at [offset, offset+size) became n bytes long. */
  function Shifted(s: Slot, limit: nat, size: nat, n: nat): Slot {
    if s.word > 0 && s.offset < limit && s.offset + size >= n then s.(offset := s.offset + size - n) else s
  }

  // ---------------------------------------------------------------- operations on bytes

  lemma AllInBounds(p: Page)
    requires Ok(p)
    ensures SIZE_TABLE_PAGE_HEADER + SIZE_TUPLE * |p.slots| <= p.free <= |p.data| < DELETE_MASK
    ensures forall k :: 0 <= k < |p.slots| ==> InBounds(p, p.slots[k])
  {}

  lemma SlotInBounds(p: Page, k: nat)
    requires Ok(p) && k < |p.slots|
    ensures InBounds(p, p.slots[k])
  {}

  lemma SlotsApart(p: Page, k: nat, l: nat)
    requires Ok(p) && k < |p.slots| && l < |p.slots| && k != l
    ensures Apart(p.slots[k], p.slots[l])
  {
    assert Apart(p.slots[if k < l then k else l], p.slots[if k < l then l else k]);
  }

  /** The tuple in slot i can become `tuple` without running out of the page. */
  predicate CanResize(p: Page, i: nat, tuple: Bytes) {
    && i < |p.slots| && p.slots[i].word > 0
    && p.free <= p.slots[i].offset && p.slots[i].offset + Len(p.slots[i]) <= |p.data|
    && |tuple| <= p.free + Len(p.slots[i])
  }

  /** An orderly page on which the tuple in slot i can become `tuple` without reaching the slot array. */
  ghost predicate Room(p: Page, i: nat, tuple: Bytes)
    ensures Room(p, i, tuple) ==> Ok(p) && i < |p.slots| && CanResize(p, i, tuple)
  {
    && Ok(p) && i < |p.slots| && p.slots[i].word > 0 && InBounds(p, p.slots[i])
    && SIZE_TABLE_PAGE_HEADER + SIZE_TUPLE * |p.slots| + |tuple| <= p.free + Len(p.slots[i])
  }

  /** Everything that lies before the tuple is moved so that no gap and no overlap is left. */
  function ResizedData(p: Page, i: nat, tuple: Bytes): (d: Bytes)
    requires CanResize(p, i, tuple)
    ensures |d| == |p.data|
  {
    var off, size, n := p.slots[i].offset, Len(p.slots[i]), |tuple|;
    Overwrite(Move(p.data, p.free + size - n, p.free, off - p.free), off + size - n, tuple)
  }

  function ResizedSlot(p: Page, i: nat, tuple: Bytes, k: nat): Slot
    requires CanResize(p, i, tuple) && k < |p.slots|
  {
    var off, size, n := p.slots[i].offset, Len(p.slots[i]), |tuple|;
    if k == i then (if n == 0 then Slot(0, 0) else Slot(off + size - n, n)) else Shifted(p.slots[k], off, size, n)
  }

  /** Both byte-moving operations in one: the tuple in slot i becomes `tuple` (empty: it goes). */
  function Resize(p: Page, i: nat, tuple: Bytes): (r: Page)
    requires CanResize(p, i, tuple)
    ensures |r.data| == |p.data| && |r.slots| == |p.slots|
  {
    Page(ResizedData(p, i, tuple), p.free + Len(p.slots[i]) - |tuple|,
         seq(|p.slots|, k requires 0 <= k < |p.slots| => ResizedSlot(p, i, tuple, k)))
  }

  lemma TotalUpdate(slots: seq<Slot>, i: nat, s: Slot)
    requires i < |slots|
    ensures TotalLen(slots[i := s]) == TotalLen(slots) - Len(slots[i]) + Len(s)
  {
    if i > 0 {
      TotalUpdate(slots[1..], i - 1, s);
      assert slots[i := s][1..] == slots[1..][i - 1 := s];
    }
  }

  lemma {:induction false} TotalSame(a: seq<Slot>, b: seq<Slot>)
    requires |a| == |b| && forall k :: 0 <= k < |a| ==> Len(a[k]) == Len(b[k])
    ensures TotalLen(a) == TotalLen(b)
  {
    if a != [] { TotalSame(a[1..], b[1..]); }
  }

  /** Where every byte of a resized page comes from. */
  lemma ResizedByte(p: Page, i: nat, tuple: Bytes, m: nat)
    requires Room(p, i, tuple) && m < |p.data|
    ensures var r := Resize(p, i, tuple); var end := p.slots[i].offset + Len(p.slots[i]);
            r.data[m] == if r.free <= m < end - |tuple| then p.data[m - Len(p.slots[i]) + |tuple|]
                         else if end - |tuple| <= m < end then tuple[m - (end - |tuple|)] else p.data[m]
  {
    hide Ok, TotalLen;
  }

  predicate SameByte(a: Bytes, i: nat, b: Bytes, j: nat, m: nat) {
    i + m < |a| && j + m < |b| && a[i + m] == b[j + m]
  }

  lemma SliceEqual(a: Bytes, i: nat, b: Bytes, j: nat, n: nat)
    requires i + n <= |a| && j + n <= |b|
    requires forall m: nat :: m < n ==> SameByte(a, i, b, j, m)
    ensures a[i..i + n] == b[j..j + n]
  {
    var x, y := a[i..i + n], b[j..j + n];
    forall m: nat | m < n ensures x[m] == y[m] {
      assert SameByte(a, i, b, j, m);
    }
  }

  /** Where another slot's tuple lies after the resize: in the region, still apart from others. */
  lemma ResizedSlotIs(p: Page, i: nat, tuple: Bytes, k: nat)
    requires Room(p, i, tuple) && k < |p.slots| && k != i
    ensures InBounds(p, p.slots[k]) && Apart(p.slots[k], p.slots[i])
    ensures var r, s := Resize(p, i, tuple), p.slots[k];
            r.slots[k].word == s.word && InBounds(r, r.slots[k])
            && r.slots[k].offset
               == (if s.word > 0 && s.offset < p.slots[i].offset then s.offset + Len(p.slots[i]) - |tuple| else s.offset)
  {
    SlotInBounds(p, k);
    SlotInBounds(p, i);
    SlotsApart(p, k, i);
    hide Ok, ResizedData;
  }

  /** Byte m of another slot's tuple is where the shifted slot says. */
  lemma ResizeKeepsByte(p: Page, i: nat, tuple: Bytes, k: nat, m: nat)
    requires Room(p, i, tuple) && k < |p.slots| && k != i && m < Len(p.slots[k])
    ensures var r := Resize(p, i, tuple);
            SameByte(r.data, r.slots[k].offset, p.data, p.slots[k].offset, m)
  {
    hide Ok, Resize;
    ResizedSlotIs(p, i, tuple, k);
    ResizedByte(p, i, tuple, Resize(p, i, tuple).slots[k].offset + m);
    ResizedFree(p, i, tuple);
  }

  lemma ResizedFree(p: Page, i: nat, tuple: Bytes)
    requires Room(p, i, tuple)
    ensures Resize(p, i, tuple).free == p.free + Len(p.slots[i]) - |tuple|
    ensures SIZE_TABLE_PAGE_HEADER + SIZE_TUPLE * |p.slots| <= Resize(p, i, tuple).free <= |p.data| < DELETE_MASK
  {
    hide ResizedData, ResizedSlot, TotalLen;
  }

  /** Another slot's record, before and after a resize. */
  lemma {:induction false} ResizeKeepsOther(p: Page, i: nat, tuple: Bytes, k: nat)
    requires Room(p, i, tuple) && k < |p.slots| && k != i
    ensures var r := Resize(p, i, tuple);
            InBounds(p, p.slots[k]) && InBounds(r, r.slots[k])
            && RecordOf(r.data, r.slots[k]) == RecordOf(p.data, p.slots[k])
            && Len(r.slots[k]) == Len(p.slots[k])
  {
    hide Ok, Room, Resize, CanResize, Apart;
    var r := Resize(p, i, tuple);
    var s, s1 := p.slots[k], r.slots[k];
    ResizedSlotIs(p, i, tuple, k);
    if s.word > 0 {
      forall m: nat | m < Len(s) ensures SameByte(r.data, s1.offset, p.data, s.offset, m) {
        ResizeKeepsByte(p, i, tuple, k, m);
      }
      SliceEqual(r.data, s1.offset, p.data, s.offset, Len(s));
    }
  }

  /** The resized slot itself. */
  lemma ResizedTarget(p: Page, i: nat, tuple: Bytes)
    requires Room(p, i, tuple)
    ensures var r := Resize(p, i, tuple);
            InBounds(r, r.slots[i]) && Len(r.slots[i]) == |tuple|
            && RecordOf(r.data, r.slots[i]) == (if tuple == [] then Vacant else Record(tuple, false))
            && (tuple != [] ==> r.slots[i].offset == p.slots[i].offset + Len(p.slots[i]) - |tuple|)
  {
    ResizedFree(p, i, tuple);
    SlotInBounds(p, i);
    hide Ok, Room, Move;
    var r := Resize(p, i, tuple);
    if tuple != [] {
      var a := p.slots[i].offset + Len(p.slots[i]) - |tuple|;
      assert r.slots[i] == Slot(a, |tuple|);
      assert r.data[a..a + |tuple|] == tuple;
    } else {
      assert r.slots[i] == Slot(0, 0);
    }
  }

  lemma ResizeKeepsApart(p: Page, i: nat, tuple: Bytes, k: nat, l: nat)
    requires Room(p, i, tuple) && k < |p.slots| && l < |p.slots| && k != l && k != i
    ensures var r := Resize(p, i, tuple); Apart(r.slots[k], r.slots[l])
  {
    hide Ok, Room, Resize;
    ResizedSlotIs(p, i, tuple, k);
    SlotsApart(p, k, l);
    SlotInBounds(p, i);
    ResizedFree(p, i, tuple);
    assert Len(p.slots[i]) > 0;
    if l == i { ResizedTarget(p, i, tuple); } else { ResizedSlotIs(p, i, tuple, l); }
  }

  /** Resizing keeps the page in order and changes the record of that slot only. */
  lemma ResizeIsUpdate(p: Page, i: nat, tuple: Bytes)
    requires Room(p, i, tuple)
    ensures var r := Resize(p, i, tuple);
            Ok(r) && Records(r) == Records(p)[i := if tuple == [] then Vacant else Record(tuple, false)]
  {
    hide Room, Resize, CanResize, TotalLen;
    var r := Resize(p, i, tuple);
    ResizedFree(p, i, tuple);
    ResizeKeepsOrder(p, i, tuple);
    ResizeKeepsTotal(p, i, tuple);
    hide InBounds, Apart, RecordOf;
    forall k: nat | k < |p.slots| && k != i
      ensures Records(r)[k] == Records(p)[k]
    {
      ResizeKeepsOther(p, i, tuple, k);
    }
    ResizedTarget(p, i, tuple);
  }

  lemma ResizeKeepsOrder(p: Page, i: nat, tuple: Bytes)
    requires Room(p, i, tuple)
    ensures var r := Resize(p, i, tuple);
            && (forall k :: 0 <= k < |r.slots| ==> InBounds(r, r.slots[k]))
            && (forall k, l :: 0 <= k < l < |r.slots| ==> Apart(r.slots[k], r.slots[l]))
  {
    hide Ok, Room, Resize, CanResize, InBounds;
    var r := Resize(p, i, tuple);
    forall k | 0 <= k < |r.slots| ensures InBounds(r, r.slots[k]) {
      if k == i { ResizedTarget(p, i, tuple); } else { ResizedSlotIs(p, i, tuple, k); }
    }
    forall k, l | 0 <= k < l < |r.slots| ensures Apart(r.slots[k], r.slots[l]) {
      if k == i { ResizeKeepsApart(p, i, tuple, l, k); } else { ResizeKeepsApart(p, i, tuple, k, l); }
    }
  }

  lemma ResizeKeepsTotal(p: Page, i: nat, tuple: Bytes)
    requires Room(p, i, tuple)
    ensures var r := Resize(p, i, tuple); r.free + TotalLen(r.slots) == |r.data|
  {
    hide Room, Resize, CanResize, InBounds, Apart, TotalLen;
    var r := Resize(p, i, tuple);
    ResizedFree(p, i, tuple);
    ResizedTarget(p, i, tuple);
    var mid := p.slots[i := r.slots[i]];
    forall k: nat | k < |mid| ensures Len(mid[k]) == Len(r.slots[k]) {
      if k != i { ResizeKeepsOther(p, i, tuple, k); }
    }
    TotalUpdate(p.slots, i, r.slots[i]);
    TotalSame(mid, r.slots);
  }

  /** A new tuple is written just below the tuple region and slot i, empty or one past the end,
      points at it. */
  function Place(p: Page, i: nat, tuple: Bytes): Page
    requires i <= |p.slots| && |tuple| <= p.free <= |p.data|
  {
    var at := p.free - |tuple|;
    Page(Overwrite(p.data, at, tuple), at,
         if i == |p.slots| then p.slots + [Slot(at, |tuple|)] else p.slots[i := Slot(at, |tuple|)])
  }

  lemma PlaceKeepsOther(p: Page, i: nat, tuple: Bytes, k: nat)
    requires Ok(p) && i <= |p.slots| && |tuple| <= p.free && k < |p.slots| && k != i
    ensures var r := Place(p, i, tuple);
            InBounds(p, p.slots[k]) && r.slots[k] == p.slots[k] && InBounds(r, r.slots[k])
            && RecordOf(r.data, r.slots[k]) == RecordOf(p.data, p.slots[k])
  {
    SlotInBounds(p, k);
    hide Ok;
    var s, r := p.slots[k], Place(p, i, tuple);
    if s.word > 0 {
      forall m: nat | m < Len(s) ensures SameByte(r.data, s.offset, p.data, s.offset, m) {}
      SliceEqual(r.data, s.offset, p.data, s.offset, Len(s));
    }
  }

  ghost predicate CanPlace(p: Page, i: nat, tuple: Bytes)
    ensures CanPlace(p, i, tuple) ==> Ok(p) && i <= |p.slots| && |tuple| <= p.free <= |p.data| < DELETE_MASK
  {
    && Ok(p) && i <= |p.slots| && tuple != [] && (i < |p.slots| ==> p.slots[i].word == 0)
    && SIZE_TABLE_PAGE_HEADER + SIZE_TUPLE * (|p.slots| + 1) + |tuple| <= p.free
  }

  lemma PlacedTarget(p: Page, i: nat, tuple: Bytes)
    requires CanPlace(p, i, tuple)
    ensures var r := Place(p, i, tuple);
            && InBounds(r, r.slots[i]) && r.slots[i] == Slot(r.free, |tuple|)
            && RecordOf(r.data, r.slots[i]) == Record(tuple, false)
            && r.free + TotalLen(r.slots) == |r.data|
            && SIZE_TABLE_PAGE_HEADER + SIZE_TUPLE * |r.slots| <= r.free
  {
    var r := Place(p, i, tuple);
    assert r.data[r.free..r.free + |tuple|] == tuple;
    if i < |p.slots| { TotalUpdate(p.slots, i, r.slots[i]); } else { TotalSnoc(p.slots, r.slots[i]); }
    hide TotalLen, InBounds, Apart;
  }

  lemma PlaceKeepsOrder(p: Page, i: nat, tuple: Bytes)
    requires CanPlace(p, i, tuple)
    ensures var r := Place(p, i, tuple);
            && (forall k :: 0 <= k < |r.slots| ==> InBounds(r, r.slots[k]))
            && (forall k, l :: 0 <= k < l < |r.slots| ==> Apart(r.slots[k], r.slots[l]))
  {
    hide Ok, CanPlace, Overwrite, TotalLen, RecordOf;
    var r := Place(p, i, tuple);
    PlacedTarget(p, i, tuple);
    forall k | 0 <= k < |r.slots| ensures InBounds(r, r.slots[k]) {
      if k != i { PlaceKeepsOther(p, i, tuple, k); }
    }
    forall k, l | 0 <= k < l < |r.slots| ensures Apart(r.slots[k], r.slots[l]) {
      if k != i { PlaceKeepsOther(p, i, tuple, k); }
      if l != i { PlaceKeepsOther(p, i, tuple, l); }
      if k != i && l != i { SlotsApart(p, k, l); }
    }
  }

  /** Placing a tuple keeps the page in order and changes the record of that slot only. */
  lemma PlaceIsPut(p: Page, i: nat, tuple: Bytes)
    requires CanPlace(p, i, tuple)
    ensures var r := Place(p, i, tuple);
            Ok(r) && Records(r) == PutRecord(Records(p), i, Record(tuple, false))
  {
    var r := Place(p, i, tuple);
    PlacedTarget(p, i, tuple);
    PlaceKeepsOrder(p, i, tuple);
    hide CanPlace, Overwrite, TotalLen, InBounds, Apart, RecordOf;
    forall k: nat | k < |r.slots|
      ensures Records(r)[k] == if k == i then Record(tuple, false) else Records(p)[k]
    {
      if k != i { PlaceKeepsOther(p, i, tuple, k); }
    }
  }

  /** Setting or clearing the deleted bit of a nonempty slot changes nothing but the flag. */
  lemma FlagIsFlag(p: Page, i: nat, word: nat)
    requires Ok(p) && i < |p.slots| && p.slots[i].word > 0
    requires Len(Slot(0, word)) == Len(p.slots[i])
    ensures var r := p.(slots := p.slots[i := p.slots[i].(word := word)]);
            Ok(r) && Records(p)[i].Record? && Records(r) == Records(p)[i := Records(p)[i].(deleted := word >= DELETE_MASK)]
  {
    var r := p.(slots := p.slots[i := p.slots[i].(word := word)]);
    assert InBounds(p, p.slots[i]);
    TotalUpdate(p.slots, i, r.slots[i]);
    hide TotalLen;
    forall k | 0 <= k < |p.slots| ensures InBounds(r, r.slots[k]) { assert InBounds(p, p.slots[k]); }
    forall k, l | 0 <= k < l < |p.slots| ensures Apart(r.slots[k], r.slots[l]) { assert Apart(p.slots[k], p.slots[l]); }
  }

  lemma {:induction false} TotalIsUsed(slots: seq<Slot>, rs: seq<Record>)
    requires |slots| == |rs| && forall k :: 0 <= k < |rs| ==> SizeOf(rs[k]) == Len(slots[k])
    ensures TotalLen(slots) == Used(rs)
  {
    if rs != [] { TotalIsUsed(slots[1..], rs[1..]); }
  }

  /** The free space the page computes from its pointer is what its records leave. */
  lemma FreeSpaceIsExact(p: Page)
    requires Ok(p)
    ensures p.free - SIZE_TABLE_PAGE_HEADER - SIZE_TUPLE * |p.slots| == Free(|p.data|, Records(p))
  {
    forall k | 0 <= k < |p.slots| ensures SizeOf(Records(p)[k]) == Len(p.slots[k]) {
      assert InBounds(p, p.slots[k]);
    }
    TotalIsUsed(p.slots, Records(p));
  }

  /** What the two kinds of test on a size word say about the record. */
  lemma WordTests(p: Page, i: nat)
    requires Ok(p) && i < |p.slots|
    ensures Records(p)[i].Vacant? <==> p.slots[i].word == 0
    ensures Gone(Records(p)[i]) <==> IsDeleted(p.slots[i].word)
    ensures InBounds(p, p.slots[i]) && Len(p.slots[i]) == SizeOf(Records(p)[i])
  {
    assert InBounds(p, p.slots[i]);
  }

  /** First live slot at or after `from`. */
  function NextLive(rs: seq<Record>, from: nat): (i: Option<nat>)
    ensures i.Some? ==> from <= i.value < |rs| && !Gone(rs[i.value])
    ensures forall j :: from <= j < (if i.Some? then i.value else |rs|) ==> Gone(rs[j])
    decreases |rs| - from
  {
    if from >= |rs| then None else if !Gone(rs[from]) then Some(from) else NextLive(rs, from + 1)
  }
}
