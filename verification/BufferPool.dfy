/** What the buffer pool does, call by call, to its frames, page table, free list, eviction order and
    disk; and the two facts about every run: each frame is free, pinned or evictable, and the pool
    behaves like a plain store of pages. */
module BufferPool {

  import opened Common

  function ZeroPage(): Bytes { Zeros(PAGE_SIZE) }

  datatype Frame = Frame(pageId: PageId, pin: nat, dirty: bool, data: Bytes)

  /** `lru` lists the evictable frames, most recently unpinned first; page ids are handed out in
      steps of `stride` starting at `next`. */
  datatype Pool = Pool(
    frames: seq<Frame>, table: map<PageId, nat>, free: seq<nat>, lru: seq<nat>,
    disk: map<PageId, Bytes>, next: PageId, stride: nat)

  function ReadDisk(disk: map<PageId, Bytes>, p: PageId): Bytes { if p in disk then disk[p] else ZeroPage() }

  function Without(s: seq<nat>, f: nat): (r: seq<nat>) {
    if s == [] then [] else if s[0] == f then s[1..] else [s[0]] + Without(s[1..], f)
  }

  function Start(size: nat, index: nat, stride: nat): Pool {
    Pool(seq(size, _ => Frame(INVALID_PAGE_ID, 0, false, ZeroPage())), map[], seq(size, i => i), [], map[], index, stride)
  }

  // ---------------------------------------------------------------- the calls

  predicate Cached(pool: Pool, p: PageId) { p in pool.table && pool.table[p] < |pool.frames| }

  function FlushFrame(pool: Pool, p: PageId): Pool
    requires Cached(pool, p)
  {
    var frame := pool.frames[pool.table[p]];
    if frame.dirty then pool.(disk := pool.disk[p := frame.data]) else pool
  }

  /** A frame to put a page in: the free list first, then the victim, whose page is written back. */
  function FindFresh(pool: Pool): (Pool, Option<nat>) {
    if pool.free != [] then (pool.(free := pool.free[1..]), Some(pool.free[0]))
    else if pool.lru == [] then (pool, None)
    else
      var f := pool.lru[|pool.lru| - 1];
      var rest := pool.(lru := pool.lru[..|pool.lru| - 1]);
      if f < |pool.frames| && Cached(pool, pool.frames[f].pageId) then
        var p := pool.frames[f].pageId;
        var flushed := FlushFrame(rest, p);
        (flushed.(table := flushed.table - {p}, frames := flushed.frames[f := flushed.frames[f].(dirty := false)]), Some(f))
      else (rest, Some(f))
  }

  /** Reading page p from disk into a frame. */
  function LoadInto(q: Pool, f: nat, p: PageId): Pool
    requires f < |q.frames|
  {
    var frame := Frame(p, q.frames[f].pin + 1, false, ReadDisk(q.disk, p));
    q.(table := q.table[p := f], lru := Without(q.lru, f), frames := q.frames[f := frame])
  }

  function Fetch(pool: Pool, p: PageId): (Pool, Option<nat>) {
    if Cached(pool, p) then
      var f := pool.table[p];
      var frame := pool.frames[f];
      (pool.(lru := Without(pool.lru, f), frames := pool.frames[f := frame.(pin := frame.pin + 1, dirty := true)]), Some(f))
    else
      var (q, f) := FindFresh(pool);
      if f.None? || f.value >= |q.frames| then (q, None)
      else (LoadInto(q, f.value, p), f)
  }

  function New(pool: Pool): (Pool, Option<nat>) {
    var (q, f) := FindFresh(pool);
    if f.None? || f.value >= |q.frames| then (q, None)
    else
      var frame := q.frames[f.value].(pageId := q.next, pin := q.frames[f.value].pin + 1, data := ZeroPage());
      (q.(table := q.table[q.next := f.value], frames := q.frames[f.value := frame], next := q.next + q.stride), f)
  }

  function Unpin(pool: Pool, p: PageId, dirty: bool): (Pool, bool) {
    if !Cached(pool, p) || pool.frames[pool.table[p]].pin == 0 then (pool, false)
    else
      var f := pool.table[p];
      var frame := pool.frames[f].(dirty := dirty, pin := pool.frames[f].pin - 1);
      var q := pool.(frames := pool.frames[f := frame]);
      if frame.pin > 0 then (q, true)
      else (FlushFrame(q.(lru := if f in q.lru then q.lru else [f] + q.lru), p), true)
  }

  function Flush(pool: Pool, p: PageId): (Pool, bool) {
    if !Cached(pool, p) then (pool, false)
    else
      var f, q := pool.table[p], FlushFrame(pool, p);
      (q.(frames := q.frames[f := q.frames[f].(dirty := false)]), true)
  }

  /** The frame of a page that nobody pins is wiped and goes to the end of the free list. */
  function Delete(pool: Pool, p: PageId): (Pool, bool) {
    if !Cached(pool, p) then (pool, true)
    else if pool.frames[pool.table[p]].pin != 0 then (pool, false)
    else
      var f := pool.table[p];
      (pool.(table := pool.table - {p}, free := pool.free + [f],
             frames := pool.frames[f := Frame(INVALID_PAGE_ID, 0, false, ZeroPage())]), true)
  }

  /** A client that holds a pin writes into the frame. */
  function Write(pool: Pool, p: PageId, data: Bytes): Pool
    requires Cached(pool, p)
  {
    var f := pool.table[p];
    pool.(frames := pool.frames[f := pool.frames[f].(data := data)])
  }

  // ---------------------------------------------------------------- the frame partition

  predicate Mapped(pool: Pool, f: nat) {
    f < |pool.frames| && pool.frames[f].pageId in pool.table && pool.table[pool.frames[f].pageId] == f
  }

  predicate Distinct(s: seq<nat>) { forall i, j :: 0 <= i < j < |s| ==> s[i] != s[j] }

  ghost predicate TableOk(pool: Pool) {
    forall p :: p in pool.table ==> pool.table[p] < |pool.frames| && pool.frames[pool.table[p]].pageId == p
  }

  ghost predicate FreeOk(pool: Pool) {
    Distinct(pool.free) && forall f :: f in pool.free ==>
      f < |pool.frames| && !Mapped(pool, f) && pool.frames[f].pin == 0 && !pool.frames[f].dirty
  }

  ghost predicate LruOk(pool: Pool) {
    Distinct(pool.lru) && forall f: nat :: f in pool.lru <==> Mapped(pool, f) && pool.frames[f].pin == 0
  }

  /** The page table and the frames' page ids are inverse to each other; every frame is free,
      evictable or pinned, and only one of these; the eviction order holds exactly the mapped frames
      that nobody pins. `limbo` is a frame in the middle of changing hands. */
  ghost predicate PartitionBut(pool: Pool, limbo: set<nat>) {
    && TableOk(pool) && FreeOk(pool) && LruOk(pool)
    && (forall f :: f in limbo ==> f < |pool.frames| && f !in pool.free && !Mapped(pool, f)
                                   && pool.frames[f].pin == 0 && !pool.frames[f].dirty)
    && (forall f: nat {:trigger Mapped(pool, f)} :: f < |pool.frames| && f !in limbo ==> Mapped(pool, f) || f in pool.free)
  }

  ghost predicate Partition(pool: Pool) { PartitionBut(pool, {}) }

  /** Every id in use was handed out. */
  ghost predicate Issued(pool: Pool) {
    && (forall p :: p in pool.table ==> p < pool.next)
    && (forall p :: p in pool.disk ==> p < pool.next)
    && pool.stride > 0
  }

  // ---------------------------------------------------------------- contents

  /** The last contents of a page, wherever they are. */
  function Content(pool: Pool, p: PageId): Bytes {
    if Cached(pool, p) then pool.frames[pool.table[p]].data else ReadDisk(pool.disk, p)
  }

  ghost predicate SameContents(a: Pool, b: Pool) { forall p :: Content(a, p) == Content(b, p) }

  /** Every cached page that nobody pins equals its disk image. */
  ghost predicate Coherent(pool: Pool) {
    forall p :: Cached(pool, p) && pool.frames[pool.table[p]].pin == 0 ==>
      pool.frames[pool.table[p]].data == ReadDisk(pool.disk, p)
  }

  lemma FreeTail(s: seq<nat>)
    requires s != [] && Distinct(s)
    ensures Distinct(s[1..])
    ensures forall g :: g in s[1..] <==> g in s && g != s[0]
  {
    assert s == [s[0]] + s[1..];
  }

  lemma DistinctCons(x: nat, s: seq<nat>)
    requires Distinct(s) && x !in s
    ensures Distinct([x] + s)
  {}

  lemma {:induction false} WithoutIs(s: seq<nat>, f: nat)
    requires Distinct(s)
    ensures Distinct(Without(s, f))
    ensures forall g :: g in Without(s, f) <==> g in s && g != f
  {
    if s != [] {
      FreeTail(s);
      if s[0] != f {
        WithoutIs(s[1..], f);
        DistinctCons(s[0], Without(s[1..], f));
      }
      hide Distinct;
    }
  }

  lemma LruLast(s: seq<nat>)
    requires s != [] && Distinct(s)
    ensures Distinct(s[..|s| - 1])
    ensures forall g :: g in s[..|s| - 1] <==> g in s && g != s[|s| - 1]
  {
    assert s == s[..|s| - 1] + [s[|s| - 1]];
  }

  lemma FindFreshKeepsPartition(pool: Pool)
    requires Partition(pool)
    ensures var (q, f) := FindFresh(pool);
            && (f.Some? ==> PartitionBut(q, {f.value}))
            && (f.None? ==> q == pool && forall g: nat :: g < |pool.frames| ==> pool.frames[g].pin > 0)
            && q.next == pool.next && q.stride == pool.stride && |q.frames| == |pool.frames|
  {
    if pool.free == [] && pool.lru == [] {
      forall g: nat | g < |pool.frames| ensures pool.frames[g].pin > 0 {
        assert Mapped(pool, g);
        assert g !in pool.lru;
      }
    } else if pool.free != [] {
      FromFreeList(pool);
    } else {
      EvictKeepsPartition(pool);
    }
  }

  lemma FromFreeList(pool: Pool)
    requires Partition(pool) && pool.free != []
    ensures PartitionBut(pool.(free := pool.free[1..]), {pool.free[0]})
  {
    var q := pool.(free := pool.free[1..]);
    FreeTail(pool.free);
    assert pool.free[0] in pool.free;
    forall f: nat ensures Mapped(q, f) == Mapped(pool, f) {}
    hide Mapped, Distinct;
  }

  lemma EvictKeepsPartition(pool: Pool)
    requires Partition(pool) && pool.free == [] && pool.lru != []
    ensures var (q, f) := FindFresh(pool); f.Some? && PartitionBut(q, {f.value})
  {
    var f := pool.lru[|pool.lru| - 1];
    assert f in pool.lru;
    assert Mapped(pool, f);
    LruLast(pool.lru);
    var p, q := pool.frames[f].pageId, FindFresh(pool).0;
    forall g: nat ensures Mapped(q, g) == (Mapped(pool, g) && g != f) {}
    assert q.lru == pool.lru[..|pool.lru| - 1];
    hide Mapped, Distinct;
  }

  /** Putting page p into the frame found. */
  function Install(q: Pool, f: nat, p: PageId, frame: Frame): Pool
    requires f < |q.frames|
  {
    q.(table := q.table[p := f], frames := q.frames[f := frame])
  }

  lemma InstallKeepsPartition(q: Pool, f: nat, p: PageId, frame: Frame, next: PageId)
    requires PartitionBut(q, {f}) && p !in q.table
    requires frame.pageId == p && frame.pin > 0
    ensures Partition(Install(q, f, p, frame).(next := next))
  {
    var r := Install(q, f, p, frame).(next := next);
    forall g: nat ensures Mapped(r, g) == (Mapped(q, g) || g == f) {}
    hide Mapped, Distinct;
  }

  /** A fetch keeps the partition, whatever id it asks for. */
  lemma FetchKeepsPartition(pool: Pool, p: PageId)
    requires Partition(pool)
    ensures Partition(Fetch(pool, p).0)
  {
    if Cached(pool, p) {
      HitKeepsPartition(pool, p);
    } else {
      FindFreshKeepsPartition(pool);
      var (q, f) := FindFresh(pool);
      if f.Some? {
        FindFreshTable(pool, p);
        NotEvictable(q, f.value);
        var frame := Frame(p, q.frames[f.value].pin + 1, false, ReadDisk(q.disk, p));
        InstallKeepsPartition(q, f.value, p, frame, q.next);
        hide FindFresh, PartitionBut;
        assert Fetch(pool, p).0 == Install(q, f.value, p, frame).(next := q.next);
      }
    }
  }

  lemma FindFreshTable(pool: Pool, p: PageId)
    requires Partition(pool) && p !in pool.table
    ensures p !in FindFresh(pool).0.table
  {}

  lemma {:induction false} WithoutAbsent(s: seq<nat>, f: nat)
    requires f !in s
    ensures Without(s, f) == s
  {
    if s != [] { WithoutAbsent(s[1..], f); }
  }

  lemma NotEvictable(q: Pool, f: nat)
    requires PartitionBut(q, {f})
    ensures Without(q.lru, f) == q.lru
  {
    assert f !in q.lru;
    WithoutAbsent(q.lru, f);
  }

  lemma HitKeepsPartition(pool: Pool, p: PageId)
    requires Partition(pool) && Cached(pool, p)
    ensures Partition(Fetch(pool, p).0)
  {
    var q, f := Fetch(pool, p).0, pool.table[p];
    forall g: nat ensures Mapped(q, g) == Mapped(pool, g) {}
    WithoutIs(pool.lru, f);
    assert Mapped(pool, f);
    hide Mapped, Distinct, Without;
  }

  /** The id handed out next is not in use once a frame has been found for it. */
  predicate NewIsFresh(pool: Pool) {
    var (q, f) := FindFresh(pool);
    f.None? || pool.next !in q.table
  }

  /** The exact condition: a new page keeps the partition unless its id is cached already, brought in
      by a fetch that came before the id was handed out. */
  lemma NewPartitionIff(pool: Pool)
    requires Partition(pool)
    ensures Partition(New(pool).0) <==> NewIsFresh(pool)
  {
    FindFreshKeepsPartition(pool);
    var (q, f) := FindFresh(pool);
    if f.Some? {
      var frame := q.frames[f.value].(pageId := q.next, pin := q.frames[f.value].pin + 1, data := ZeroPage());
      assert New(pool).0 == Install(q, f.value, q.next, frame).(next := q.next + q.stride);
      hide FindFresh, New;
      if q.next !in q.table {
        InstallKeepsPartition(q, f.value, q.next, frame, q.next + q.stride);
      } else {
        InstallTwiceBreaksPartition(q, f.value, q.next, frame, q.next + q.stride);
      }
    }
  }

  /** The frame that held the id is neither mapped nor free any more. */
  lemma InstallTwiceBreaksPartition(q: Pool, f: nat, p: PageId, frame: Frame, next: PageId)
    requires PartitionBut(q, {f}) && p in q.table && frame.pageId == p
    ensures !Partition(Install(q, f, p, frame).(next := next))
  {
    var r, g := Install(q, f, p, frame).(next := next), q.table[p];
    assert Mapped(q, g) && g != f;
    assert !Mapped(r, g) && g !in r.free;
  }

  /** A run that meets the failing case: fetch the first id, then ask for a new page. Two frames hold
      pages under one id. */
  lemma FetchThenNewBreaksPartition(size: nat, index: nat, stride: nat)
    requires size >= 2
    ensures var (q, f) := Fetch(Start(size, index, stride), index);
            var (r, g) := New(q);
            && f == Some(0) && g == Some(1) && Partition(q) && !Partition(r)
            && r.frames[0].pageId == r.frames[1].pageId == index && r.table[index] == 1
            && r.frames[0].pin == r.frames[1].pin == 1
  {
    var s := Start(size, index, stride);
    StartIsOk(size, index, stride);
    FetchKeepsPartition(s, index);
    var q := Fetch(s, index).0;
    assert s.free[0] == 0 && q.free == s.free[1..] && q.free[0] == 1;
    assert index in FindFresh(q).0.table;
    NewPartitionIff(q);
    hide Zeros, Partition;
  }

  lemma UnpinKeepsPartition(pool: Pool, p: PageId, dirty: bool)
    requires Partition(pool)
    ensures Partition(Unpin(pool, p, dirty).0)
  {
    if Unpin(pool, p, dirty).1 {
      var q, f := Unpin(pool, p, dirty).0, pool.table[p];
      forall g: nat ensures Mapped(q, g) == Mapped(pool, g) {}
      assert Mapped(pool, f) && f !in pool.lru;
      hide Mapped;
    }
  }

  lemma FlushKeepsPartition(pool: Pool, p: PageId)
    requires Partition(pool)
    ensures Partition(Flush(pool, p).0)
  {
    var q := Flush(pool, p).0;
    forall g: nat ensures Mapped(q, g) == Mapped(pool, g) {}
    hide Mapped, Distinct;
  }

  lemma WriteKeepsPartition(pool: Pool, p: PageId, data: Bytes)
    requires Partition(pool) && Cached(pool, p)
    ensures Partition(Write(pool, p, data))
  {
    var q := Write(pool, p, data);
    forall g: nat ensures Mapped(q, g) == Mapped(pool, g) {}
    hide Mapped, Distinct;
  }

  // ---------------------------------------------------------------- what each call does

  /** Where a page can go: the first free frame if there is one, and then nothing else changes; else the
      frame at the end of the eviction order, whose page leaves the table and is on disk as it was in
      the frame if the frame was marked dirty; and otherwise nowhere. */
  lemma FreshFrame(pool: Pool)
    requires Partition(pool)
    ensures var (q, f) := FindFresh(pool);
            && (pool.free != [] ==> f == Some(pool.free[0]) && q == pool.(free := pool.free[1..]))
            && (pool.free == [] && pool.lru == [] ==> f == None && q == pool)
            && (pool.free == [] && pool.lru != [] ==>
                 var v := pool.lru[|pool.lru| - 1];
                 && v < |pool.frames| && f == Some(v)
                 && var w := pool.frames[v];
                 && w.pageId in pool.table && q.table == pool.table - {w.pageId}
                 && q.frames == pool.frames[v := w.(dirty := false)]
                 && q.free == [] && q.lru == pool.lru[..|pool.lru| - 1] && q.next == pool.next && q.stride == pool.stride
                 && forall r :: ReadDisk(q.disk, r) == if r == w.pageId && w.dirty then w.data else ReadDisk(pool.disk, r))
  {
    if pool.free == [] && pool.lru != [] {
      var v := pool.lru[|pool.lru| - 1];
      assert v in pool.lru;
      assert Mapped(pool, v);
    }
  }

  /** A hit pins the frame once more and marks it dirty; a miss reads the page into a fresh frame, clean
      and pinned once; and the fetch fails, changing nothing, when there is no frame. */
  lemma FetchOutcome(pool: Pool, p: PageId)
    requires Partition(pool)
    ensures var (q, f) := Fetch(pool, p);
            var (r, g) := FindFresh(pool);
            if p in pool.table then
              && f == Some(pool.table[p]) && f.value < |pool.frames|
              && var x := pool.frames[f.value];
              && q == pool.(frames := pool.frames[f.value := x.(pin := x.pin + 1, dirty := true)], lru := q.lru)
              && forall h :: h in q.lru <==> h in pool.lru && h != f.value
            else
              && f == g
              && (f.None? ==> q == pool)
              && (f.Some? ==>
                   && f.value < |r.frames|
                   && q == r.(table := r.table[p := f.value], frames := r.frames[f.value := Frame(p, 1, false, ReadDisk(r.disk, p))]))
  {
    FindFreshKeepsPartition(pool);
    var (r, g) := FindFresh(pool);
    if p in pool.table {
      WithoutIs(pool.lru, pool.table[p]);
    } else if g.Some? {
      NotEvictable(r, g.value);
    }
    hide FindFresh, Without;
  }

  /** A new page is a zeroed one in a fresh frame, pinned once, under the next id, and only then is the
      id used up. */
  lemma NewOutcome(pool: Pool)
    requires Partition(pool)
    ensures var (q, f) := New(pool);
            var (r, g) := FindFresh(pool);
            && f == g
            && (f.None? ==> q == pool)
            && (f.Some? ==>
                 && f.value < |r.frames|
                 && q == r.(table := r.table[pool.next := f.value], next := pool.next + pool.stride,
                            frames := r.frames[f.value := Frame(pool.next, 1, false, ZeroPage())]))
  {
    FindFreshKeepsPartition(pool);
    hide FindFresh, Zeros;
  }

  /** Letting go takes one pin and overwrites the dirty flag; with the last pin the frame goes to the
      front of the eviction order, and to disk if the flag is set. */
  lemma UnpinOutcome(pool: Pool, p: PageId, dirty: bool)
    requires Partition(pool)
    ensures var (q, ok) := Unpin(pool, p, dirty);
            && (ok <==> p in pool.table && pool.frames[pool.table[p]].pin > 0)
            && (!ok ==> q == pool)
            && (ok ==>
                 var f := pool.table[p]; var x := pool.frames[f];
                 && q == pool.(frames := pool.frames[f := x.(pin := x.pin - 1, dirty := dirty)], lru := q.lru, disk := q.disk)
                 && q.lru == (if x.pin == 1 then [f] + pool.lru else pool.lru)
                 && forall r :: ReadDisk(q.disk, r) == if r == p && x.pin == 1 && dirty then x.data else ReadDisk(pool.disk, r))
  {
    if p in pool.table {
      var f := pool.table[p];
      assert Mapped(pool, f);
      assert pool.frames[f].pin > 0 ==> f !in pool.lru;
    }
  }

  /** A flush succeeds exactly for the pages in the pool, writes the frame out if it is marked dirty,
      and leaves it clean; no other disk page, frame, pin or order changes. */
  lemma FlushOutcome(pool: Pool, p: PageId)
    requires Partition(pool)
    ensures var (q, ok) := Flush(pool, p);
            && (ok <==> p in pool.table)
            && (!ok ==> q == pool)
            && (ok ==>
                 var f := pool.table[p]; var x := pool.frames[f];
                 && q == pool.(frames := pool.frames[f := x.(dirty := false)], disk := q.disk)
                 && forall r :: ReadDisk(q.disk, r) == if r == p && x.dirty then Content(pool, p) else ReadDisk(pool.disk, r))
  {}

  // ---------------------------------------------------------------- refinement of a page store

  /** Finding a frame may evict a page, but an unpinned page is on disk already. */
  lemma {:induction false} FindFreshKeepsContents(pool: Pool)
    requires Partition(pool) && Coherent(pool)
    ensures SameContents(FindFresh(pool).0, pool) && Coherent(FindFresh(pool).0)
  {
    if pool.free == [] && pool.lru != [] {
      var f := pool.lru[|pool.lru| - 1];
      assert f in pool.lru;
      assert Mapped(pool, f);
      var p, q := pool.frames[f].pageId, FindFresh(pool).0;
      forall r ensures Content(q, r) == Content(pool, r) {}
      forall r | Cached(q, r) && q.frames[q.table[r]].pin == 0
        ensures q.frames[q.table[r]].data == ReadDisk(q.disk, r) {}
    }
  }

  /** Reading a page that no frame holds. */
  lemma LoadKeepsContents(q: Pool, f: nat, p: PageId)
    requires PartitionBut(q, {f}) && Coherent(q) && p !in q.table
    ensures var r := LoadInto(q, f, p);
            && SameContents(r, q) && Coherent(r)
            && Cached(r, p) && r.table[p] == f && r.frames[f].data == Content(q, p) && r.frames[f].pin > 0
  {
    var r := LoadInto(q, f, p);
    assert !Mapped(q, f);
    hide Without, Distinct, Zeros;
  }

  /** Pinning a page that a frame holds. */
  lemma HitKeepsContents(pool: Pool, p: PageId)
    requires Partition(pool) && Coherent(pool) && p in pool.table
    ensures var (q, f) := Fetch(pool, p);
            && SameContents(q, pool) && Coherent(q) && f.Some? && Cached(pool, p)
            && Cached(q, p) && q.table[p] == f.value && q.frames[f.value].data == Content(pool, p) && q.frames[f.value].pin > 0
  {
    hide FindFresh, Without, Zeros, Distinct, FreeOk, LruOk;
  }

  lemma FetchKeepsContents(pool: Pool, p: PageId)
    requires Partition(pool) && Coherent(pool)
    ensures var (q, f) := Fetch(pool, p);
            && SameContents(q, pool) && Coherent(q)
            && (f.Some? ==> Cached(q, p) && q.table[p] == f.value
                            && q.frames[f.value].data == Content(pool, p) && q.frames[f.value].pin > 0)
            && (f.None? <==> !Cached(pool, p) && forall g: nat :: g < |pool.frames| ==> pool.frames[g].pin > 0)
  {
    FindFreshKeepsPartition(pool);
    FindFreshKeepsContents(pool);
    FindFreshFails(pool);
    hide PartitionBut, Zeros, LoadInto;
    CachedInTable(pool, p);
    if p !in pool.table {
      FindFreshTable(pool, p);
      var (q, f) := FindFresh(pool);
      hide FindFresh;
      if f.Some? { LoadKeepsContents(q, f.value, p); }
    } else {
      hide FindFresh, Without, Fetch;
      HitKeepsContents(pool, p);
    }
  }

  lemma CachedInTable(pool: Pool, p: PageId)
    requires Partition(pool)
    ensures Cached(pool, p) <==> p in pool.table
  {}

  /** A fresh page reads as zeros and no other page changes. */
  lemma NewKeepsContents(pool: Pool)
    requires Partition(pool) && Coherent(pool)
    ensures var (q, f) := New(pool);
            && (forall r :: Content(q, r) == if f.Some? && r == pool.next then ZeroPage() else Content(pool, r))
            && Coherent(q)
            && (f.Some? ==> q.next == pool.next + pool.stride && Cached(q, pool.next) && q.table[pool.next] == f.value)
            && (f.None? <==> forall g: nat :: g < |pool.frames| ==> pool.frames[g].pin > 0)
  {
    FindFreshKeepsPartition(pool);
    FindFreshKeepsContents(pool);
    FindFreshFails(pool);
    var (q, f) := FindFresh(pool);
    assert f.Some? ==> !Mapped(q, f.value);
    hide FindFresh, Zeros;
  }

  lemma FindFreshFails(pool: Pool)
    requires Partition(pool)
    ensures FindFresh(pool).1.Some? ==> exists g: nat :: g < |pool.frames| && pool.frames[g].pin == 0
  {
    if pool.free != [] {
      assert pool.free[0] in pool.free;
      assert pool.frames[pool.free[0]].pin == 0;
    } else if pool.lru != [] {
      var f := pool.lru[|pool.lru| - 1];
      assert f in pool.lru;
      assert pool.frames[f].pin == 0;
    }
  }

  /** Unpinning keeps the last contents; it keeps idle pages equal to their disk images exactly when
      the call that lets go of a changed page says that it is dirty. */
  lemma {:induction false} UnpinKeepsContents(pool: Pool, p: PageId, dirty: bool)
    requires Partition(pool) && Coherent(pool)
    ensures var (q, ok) := Unpin(pool, p, dirty);
            && SameContents(q, pool)
            && (ok <==> Cached(pool, p) && pool.frames[pool.table[p]].pin > 0)
            && (Coherent(q) <==> LetsGoSafely(pool, p, dirty))
  {
    var q := Unpin(pool, p, dirty).0;
    if Unpin(pool, p, dirty).1 {
      var f := pool.table[p];
      assert Cached(q, p) && q.table[p] == f;
      forall r | Cached(pool, r) && r != p ensures pool.table[r] != f {}
      forall r ensures Content(q, r) == Content(pool, r) {}
    }
  }

  predicate LetsGoSafely(pool: Pool, p: PageId, dirty: bool) {
    Cached(pool, p) && pool.frames[pool.table[p]].pin == 1 ==>
      dirty || pool.frames[pool.table[p]].data == ReadDisk(pool.disk, p)
  }

  lemma FlushKeepsContents(pool: Pool, p: PageId)
    requires Partition(pool) && Coherent(pool)
    ensures SameContents(Flush(pool, p).0, pool) && Coherent(Flush(pool, p).0)
    ensures Flush(pool, p).1 && pool.frames[pool.table[p]].dirty ==>
              ReadDisk(Flush(pool, p).0.disk, p) == Content(pool, p)
  {}

  lemma WriteChangesOnePage(pool: Pool, p: PageId, data: Bytes)
    requires Partition(pool) && Coherent(pool) && Cached(pool, p) && pool.frames[pool.table[p]].pin > 0
    ensures Coherent(Write(pool, p, data))
    ensures forall r :: Content(Write(pool, p, data), r) == if r == p then data else Content(pool, r)
  {}

  // ---------------------------------------------------------------- deleting

  /** The exact condition: deleting keeps the partition only where it has nothing to do. A deleted
      frame is on the free list and in the eviction order at once. */
  lemma DeletePartitionIff(pool: Pool, p: PageId)
    requires Partition(pool)
    ensures Partition(Delete(pool, p).0) <==> p !in pool.table || pool.frames[pool.table[p]].pin > 0
    ensures Delete(pool, p).1 <==> p !in pool.table || pool.frames[pool.table[p]].pin == 0
  {
    if p in pool.table && pool.frames[pool.table[p]].pin == 0 {
      var q, f := Delete(pool, p).0, pool.table[p];
      assert Mapped(pool, f) && f in pool.lru;
      assert q.free[|pool.free|] == f;
      assert f in q.free && f in q.lru;
    }
  }

  /** What the page held stays on disk. */
  lemma DeleteKeepsContents(pool: Pool, p: PageId)
    requires Partition(pool) && Coherent(pool)
    ensures SameContents(Delete(pool, p).0, pool)
  {
    hide Zeros;
    var q := Delete(pool, p).0;
    forall r ensures Content(q, r) == Content(pool, r) {
      if p in pool.table && r in pool.table && r != p { assert pool.table[r] != pool.table[p]; }
    }
  }

  /** Four calls on a pool of one frame after which a page is given out although the only frame is
      pinned: the page that is pinned there is lost from the table. */
  lemma DeletedFrameIsGivenOutTwice(index: nat, stride: nat)
    requires stride > 0
    ensures var a := New(Start(1, index, stride)).0;
            var b := Delete(Unpin(a, index, true).0, index).0;
            var (c, first) := New(b);
            var (d, second) := New(c);
            && first == Some(0) && c.frames[0].pin == 1 && c.frames[0].pageId == index + stride && index + stride in c.table
            && second == Some(0) && index + stride !in d.table
  {
    hide Zeros;
    var s := Start(1, index, stride);
    var a := New(s).0;
    assert s.free == [0] && a.free == [] && a.table == map[index := 0];
    var u := Unpin(a, index, true).0;
    assert u.lru == [0] && u.frames[0].pin == 0;
    var b := Delete(u, index).0;
    assert b.free == [0] && b.lru == [0];
    var c := New(b).0;
    assert c.free == [] && c.lru == [0] && c.table == map[index + stride := 0];
    var d := New(c).0;
  }

  // ---------------------------------------------------------------- runs

  datatype Call = DoFetch(p: PageId) | DoNew | DoUnpin(p: PageId, dirty: bool) | DoFlush(p: PageId) | DoWrite(p: PageId, data: Bytes)

  /** The discipline: ask for no new page while its id is in use, write under a pin, and tell the
      truth when letting go of a page. */
  predicate Allowed(pool: Pool, c: Call) {
    match c
    case DoFetch(p) => true
    case DoNew => NewIsFresh(pool)
    case DoUnpin(p, dirty) => LetsGoSafely(pool, p, dirty)
    case DoFlush(p) => true
    case DoWrite(p, data) => Cached(pool, p) && pool.frames[pool.table[p]].pin > 0
  }

  function Step(pool: Pool, c: Call): Pool
    requires Allowed(pool, c)
  {
    match c
    case DoFetch(p) => Fetch(pool, p).0
    case DoNew => New(pool).0
    case DoUnpin(p, dirty) => Unpin(pool, p, dirty).0
    case DoFlush(p) => Flush(pool, p).0
    case DoWrite(p, data) => Write(pool, p, data)
  }

  predicate IsRun(start: Pool, calls: seq<Call>)
    decreases |calls|, 0
  {
    calls == [] ||
    (IsRun(start, calls[..|calls| - 1]) && Allowed(Run(start, calls[..|calls| - 1]), calls[|calls| - 1]))
  }

  function Run(start: Pool, calls: seq<Call>): Pool
    requires IsRun(start, calls)
    decreases |calls|, 1
  {
    if calls == [] then start else Step(Run(start, calls[..|calls| - 1]), calls[|calls| - 1])
  }

  /** What a call puts into page p of a plain page store that held `was` there. */
  function Effect(pool: Pool, c: Call, p: PageId, was: Bytes): Bytes {
    if c.DoWrite? && c.p == p then c.data
    else if c.DoNew? && New(pool).1.Some? && p == pool.next then ZeroPage()
    else was
  }

  /** What a plain page store would hold: the last write, or zeros when the page was handed out since. */
  function LastWritten(start: Pool, calls: seq<Call>, p: PageId): Bytes
    requires IsRun(start, calls)
  {
    if calls == [] then ZeroPage()
    else
      var before := calls[..|calls| - 1];
      Effect(Run(start, before), calls[|calls| - 1], p, LastWritten(start, before, p))
  }

  lemma StartIsOk(size: nat, index: nat, stride: nat)
    ensures Partition(Start(size, index, stride)) && Coherent(Start(size, index, stride))
    ensures forall p :: Content(Start(size, index, stride), p) == ZeroPage()
  {
    var s := Start(size, index, stride);
    forall f: nat | f < size ensures f in s.free { assert s.free[f] == f; }
  }

  lemma StepKeeps(pool: Pool, c: Call, p: PageId)
    requires Partition(pool) && Coherent(pool) && Allowed(pool, c)
    ensures Partition(Step(pool, c)) && Coherent(Step(pool, c))
    ensures Content(Step(pool, c), p) == Effect(pool, c, p, Content(pool, p))
  {
    match c {
      case DoFetch(r) => FetchKeepsPartition(pool, r); FetchKeepsContents(pool, r);
      case DoNew => NewPartitionIff(pool); NewKeepsContents(pool);
      case DoUnpin(r, dirty) => UnpinKeepsPartition(pool, r, dirty); UnpinKeepsContents(pool, r, dirty);
      case DoFlush(r) => FlushKeepsPartition(pool, r); FlushKeepsContents(pool, r);
      case DoWrite(r, data) => WriteKeepsPartition(pool, r, data); WriteChangesOnePage(pool, r, data);
    }
    hide Partition, Coherent, Fetch, New, Unpin, Flush, Write, Content;
  }

  /** In every run each frame is free, pinned or evictable, idle pages equal their disk images, and
      every page has the contents last written to it, whatever was evicted in between. */
  lemma {:induction false} PoolRefinesStore(size: nat, index: nat, stride: nat, calls: seq<Call>, p: PageId)
    requires IsRun(Start(size, index, stride), calls)
    ensures var pool := Run(Start(size, index, stride), calls);
            Partition(pool) && Coherent(pool) && Content(pool, p) == LastWritten(Start(size, index, stride), calls, p)
    decreases calls
  {
    hide Partition, Coherent, Content, Step, Effect;
    if calls == [] {
      StartIsOk(size, index, stride);
    } else {
      PoolRefinesStore(size, index, stride, calls[..|calls| - 1], p);
      StepKeeps(Run(Start(size, index, stride), calls[..|calls| - 1]), calls[|calls| - 1], p);
    }
  }

  /** So a fetch hands back the last contents, and fails only when the page is not cached and every
      frame is pinned. */
  lemma FetchReturnsLastWritten(size: nat, index: nat, stride: nat, calls: seq<Call>, p: PageId)
    requires IsRun(Start(size, index, stride), calls)
    ensures var pool := Run(Start(size, index, stride), calls); var (q, f) := Fetch(pool, p);
            && (f.Some? ==> f.value < |q.frames| && q.frames[f.value].data == LastWritten(Start(size, index, stride), calls, p))
            && (f.None? <==> !Cached(pool, p) && forall g: nat :: g < |pool.frames| ==> pool.frames[g].pin > 0)
  {
    PoolRefinesStore(size, index, stride, calls, p);
    FetchKeepsContents(Run(Start(size, index, stride), calls), p);
  }

  // ---------------------------------------------------------------- callers that fetch issued ids only

  /** As `Allowed`, but it is the fetches that mind the ids, and not the requests for new pages. */
  predicate Polite(pool: Pool, c: Call) {
    match c
    case DoFetch(p) => p < pool.next
    case DoNew => true
    case _ => Allowed(pool, c)
  }

  predicate IsPolite(start: Pool, calls: seq<Call>)
    decreases |calls|
  {
    calls == [] || (
      var before := calls[..|calls| - 1];
      IsPolite(start, before) && IsRun(start, before) && Polite(Run(start, before), calls[|calls| - 1]))
  }

  lemma PoliteIsAllowed(pool: Pool, c: Call)
    requires Partition(pool) && Issued(pool) && Polite(pool, c)
    ensures Allowed(pool, c) && Issued(Step(pool, c))
  {
    FindFreshKeepsPartition(pool);
    hide Zeros;
  }

  /** Where every fetch asks for an id that was handed out, a new page never has an id in use. */
  lemma {:induction false} PoliteRuns(size: nat, index: nat, stride: nat, calls: seq<Call>)
    requires stride > 0 && IsPolite(Start(size, index, stride), calls)
    ensures IsRun(Start(size, index, stride), calls) && Issued(Run(Start(size, index, stride), calls))
    decreases calls
  {
    if calls != [] {
      var start, before := Start(size, index, stride), calls[..|calls| - 1];
      PoliteRuns(size, index, stride, before);
      PoolRefinesStore(size, index, stride, before, 0);
      PoliteIsAllowed(Run(start, before), calls[|calls| - 1]);
      hide Partition, Issued, Allowed, Polite, Step;
    }
  }

  // ---------------------------------------------------------------- pins and the eviction order

  /** A pinned page stays in its frame through every call. */
  lemma {:induction false} PinnedStays(pool: Pool, c: Call, p: PageId)
    requires Partition(pool) && Allowed(pool, c)
    requires Cached(pool, p) && pool.frames[pool.table[p]].pin > 0
    ensures var q := Step(pool, c); Cached(q, p) && q.table[p] == pool.table[p]
    ensures var q, f := Step(pool, c), pool.table[p];
            q.frames[f].pin == pool.frames[f].pin
              + (if c == DoFetch(p) then 1 else if c.DoUnpin? && c.p == p then -1 else 0)
  {
    var f := pool.table[p];
    assert Mapped(pool, f) && f !in pool.lru && f !in pool.free;
    if pool.lru != [] { assert pool.lru[|pool.lru| - 1] in pool.lru; }
    if pool.free != [] { assert pool.free[0] in pool.free; }
  }

  /** The frame that a call leaves without pins. */
  function Idled(pool: Pool, c: Call): Option<nat> {
    if c.DoUnpin? && Cached(pool, c.p) && pool.frames[pool.table[c.p]].pin == 1 then Some(pool.table[c.p]) else None
  }

  /** When in the run frame f was last let go of, or -1. */
  function LastIdled(start: Pool, calls: seq<Call>, f: nat): int
    requires IsRun(start, calls)
  {
    if calls == [] then -1
    else if Idled(Run(start, calls[..|calls| - 1]), calls[|calls| - 1]) == Some(f) then |calls| - 1
    else LastIdled(start, calls[..|calls| - 1], f)
  }

  ghost predicate Descends(start: Pool, calls: seq<Call>, s: seq<nat>)
    requires IsRun(start, calls)
  {
    && (forall i :: 0 <= i < |s| ==> 0 <= LastIdled(start, calls, s[i]))
    && (forall i, j :: 0 <= i < j < |s| ==> LastIdled(start, calls, s[i]) > LastIdled(start, calls, s[j]))
  }

  lemma {:induction false} DescendsWithout(start: Pool, calls: seq<Call>, s: seq<nat>, f: nat)
    requires IsRun(start, calls) && Descends(start, calls, s)
    ensures Descends(start, calls, Without(s, f))
    ensures forall g :: g in Without(s, f) ==> g in s
  {
    hide LastIdled;
    if s != [] && s[0] != f {
      DescendsWithout(start, calls, s[1..], f);
      var r := Without(s[1..], f);
      forall j | 0 <= j < |r| ensures LastIdled(start, calls, s[0]) > LastIdled(start, calls, r[j]) {
        assert r[j] in s[1..];
      }
    }
  }

  lemma FindFreshLru(pool: Pool)
    requires Partition(pool)
    ensures var (q, f) := FindFresh(pool);
            q.lru == pool.lru || (pool.lru != [] && q.lru == pool.lru[..|pool.lru| - 1])
    ensures var (q, f) := FindFresh(pool); f.Some? ==> Without(q.lru, f.value) == q.lru
  {
    FindFreshKeepsPartition(pool);
    var (q, f) := FindFresh(pool);
    if f.Some? { NotEvictable(q, f.value); }
  }

  /** How a call changes the eviction order. */
  lemma StepLru(pool: Pool, c: Call)
    requires Partition(pool) && Allowed(pool, c)
    ensures var s, f := Step(pool, c).lru, Idled(pool, c);
            if f.Some? then s == [f.value] + pool.lru && f.value !in pool.lru
            else s == pool.lru || (pool.lru != [] && s == pool.lru[..|pool.lru| - 1]) || exists g :: s == Without(pool.lru, g)
  {
    FindFreshLru(pool);
    if c.DoUnpin? && Cached(pool, c.p) {
      assert Mapped(pool, pool.table[c.p]);
      hide FindFresh, Partition, Without;
    } else {
      hide FindFresh, Partition, Without;
      if c.DoFetch? && Cached(pool, c.p) {
        assert Step(pool, c).lru == Without(pool.lru, pool.table[c.p]);
      }
    }
  }

  lemma LastIdledUnfolds(start: Pool, calls: seq<Call>, f: nat)
    requires calls != [] && IsRun(start, calls)
    ensures LastIdled(start, calls, f) ==
      if Idled(Run(start, calls[..|calls| - 1]), calls[|calls| - 1]) == Some(f) then |calls| - 1
      else LastIdled(start, calls[..|calls| - 1], f)
  {
    hide Idled, Run;
  }

  lemma {:induction false} LastIdledBound(start: Pool, calls: seq<Call>, f: nat)
    requires IsRun(start, calls)
    ensures LastIdled(start, calls, f) < |calls|
    decreases calls
  {
    if calls != [] {
      LastIdledUnfolds(start, calls, f);
      hide LastIdled, Idled, Run;
      LastIdledBound(start, calls[..|calls| - 1], f);
    }
  }

  /** The replacer's list is ordered by the last unpin that let go of the frame. */
  lemma {:induction false} LruIsByLastUnpin(size: nat, index: nat, stride: nat, calls: seq<Call>)
    requires IsRun(Start(size, index, stride), calls)
    ensures var start := Start(size, index, stride); Descends(start, calls, Run(start, calls).lru)
    decreases calls
  {
    var start := Start(size, index, stride);
    if calls != [] {
      var before, c := calls[..|calls| - 1], calls[|calls| - 1];
      var pool := Run(start, before);
      LruIsByLastUnpin(size, index, stride, before);
      PoolRefinesStore(size, index, stride, before, 0);
      StepLru(pool, c);
      StepDescends(start, calls);
    }
  }

  lemma StepDescends(start: Pool, calls: seq<Call>)
    requires calls != [] && IsRun(start, calls)
    requires var pool := Run(start, calls[..|calls| - 1]); Partition(pool) && Descends(start, calls[..|calls| - 1], pool.lru)
    ensures Descends(start, calls, Run(start, calls).lru)
  {
    var before, c := calls[..|calls| - 1], calls[|calls| - 1];
    var pool := Run(start, before);
    StepLru(pool, c);
    var s := Step(pool, c).lru;
    assert Run(start, calls).lru == s;
    hide Partition, Step, Allowed, Without, LastIdled, Idled, Run, IsRun;
    var f := Idled(pool, c);
    forall g: nat ensures LastIdled(start, calls, g) == if f == Some(g) then |before| else LastIdled(start, before, g) {
      LastIdledUnfolds(start, calls, g);
    }
    if f.Some? {
      forall i | 0 <= i < |pool.lru| ensures pool.lru[i] != f.value && LastIdled(start, before, pool.lru[i]) < |before| {
        LastIdledBound(start, before, pool.lru[i]);
        assert pool.lru[i] in pool.lru;
      }
    } else if s != pool.lru && (pool.lru == [] || s != pool.lru[..|pool.lru| - 1]) {
      var g :| s == Without(pool.lru, g);
      DescendsWithout(start, before, pool.lru, g);
    }
  }

  /** Hence the page that has to make room is the one let go of longest ago. */
  lemma VictimIsLeastRecentlyUnpinned(size: nat, index: nat, stride: nat, calls: seq<Call>, g: nat)
    requires IsRun(Start(size, index, stride), calls)
    requires var pool := Run(Start(size, index, stride), calls);
             pool.free == [] && Mapped(pool, g) && pool.frames[g].pin == 0
    ensures var start := Start(size, index, stride);
            var f := FindFresh(Run(start, calls)).1;
            f.Some? && LastIdled(start, calls, f.value) <= LastIdled(start, calls, g)
  {
    var start := Start(size, index, stride);
    LruIsByLastUnpin(size, index, stride, calls);
    PoolRefinesStore(size, index, stride, calls, 0);
    VictimIsLast(start, calls, Run(start, calls), g);
  }

  lemma VictimIsLast(start: Pool, calls: seq<Call>, pool: Pool, g: nat)
    requires IsRun(start, calls) && Partition(pool) && Descends(start, calls, pool.lru)
    requires pool.free == [] && Mapped(pool, g) && pool.frames[g].pin == 0
    ensures var f := FindFresh(pool).1;
            f.Some? && LastIdled(start, calls, f.value) <= LastIdled(start, calls, g)
  {
    hide LastIdled, Run, IsRun;
    assert g in pool.lru;
    var i :| 0 <= i < |pool.lru| && pool.lru[i] == g;
  }
}
