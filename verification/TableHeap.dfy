/** A table heap: a chain of pages walked by insertion and by scans, and the writes a transaction
    records on the way. */
module TableHeaps {
  import opened Common
  import opened Slotted
  import opened Rollback

  const UINT32 := 0x1_0000_0000

  /** `tuple.size_ + 32 > PAGE_SIZE` in 32-bit arithmetic. */
  predicate PassesSizeCheck(n: nat) { (n + 32) % UINT32 <= PAGE_SIZE }

  predicate FitsPage(rs: seq<Record>, n: nat) { Free(PAGE_SIZE, rs) >= n + SIZE_TUPLE }

  /** A tuple that passes the check fits a freshly initialised page, unless its size is so close to
      2^32 that the check itself wrapped around. */
  lemma CheckedTupleFitsFreshPage(n: nat)
    requires n < UINT32 && PassesSizeCheck(n)
    ensures FitsPage([], n) <==> n + 32 < UINT32
  {
    assert Used([]) == 0;
  }

  class Transaction {
    var state: TxnState
    var writeSet: seq<Write>

    constructor ()
      ensures state == Growing && writeSet == []
    {
      state, writeSet := Growing, [];
    }
  }

  /** First page of the chain, from position k on, that takes a tuple of n bytes. */
  function FirstFit(chain: seq<PageId>, records: Store, n: nat, k: nat): (i: nat)
    requires k <= |chain|
    ensures k <= i <= |chain|
    ensures i < |chain| ==> FitsPage(Recs(records, chain[i]), n)
    ensures forall j :: k <= j < i ==> !FitsPage(Recs(records, chain[j]), n)
    decreases |chain| - k
  {
    if k == |chain| || FitsPage(Recs(records, chain[k]), n) then k else FirstFit(chain, records, n, k + 1)
  }

  /** The first page of the chain with room, or else the next page to be had if a fresh one has room. */
  function PageFor(chain: seq<PageId>, records: Store, n: nat, spares: seq<PageId>): (page: Option<PageId>) {
    var k := FirstFit(chain, records, n, 0);
    if k < |chain| then Some(chain[k])
    else if spares != [] && FitsPage([], n) then Some(spares[0])
    else None
  }

  /** Pages the walk takes without finding room on them: none, unless the size check wrapped around;
      then every page there is to be had. */
  function Wasted(n: nat, spares: seq<PageId>): seq<PageId> {
    if PassesSizeCheck(n) && n + 32 >= UINT32 then spares else []
  }

  function EmptyPages(ids: seq<PageId>): Store { map p | p in ids :: [] }

  /** A size at which the check wraps around fits no page whatever. */
  lemma WrappedFitsNoPage(rs: seq<Record>, n: nat)
    requires n + 32 >= UINT32
    ensures !FitsPage(rs, n)
  {}

  // ---------------------------------------------------------------- scan order

  /** Live tuples from slot `from` of the c-th page on, in page and slot order. */
  function Live(pages: seq<seq<Record>>, c: nat, from: nat): seq<(nat, nat)>
    decreases |pages| - c, if c < |pages| then |pages[c]| - from else 0
  {
    if c >= |pages| then []
    else if from >= |pages[c]| then Live(pages, c + 1, 0)
    else if Gone(pages[c][from]) then Live(pages, c, from + 1)
    else [(c, from)] + Live(pages, c, from + 1)
  }

  /** One step of the scan order. */
  lemma LiveUnfolds(pages: seq<seq<Record>>, c: nat, from: nat)
    ensures Live(pages, c, from) ==
      if c >= |pages| then []
      else if from >= |pages[c]| then Live(pages, c + 1, 0)
      else if Gone(pages[c][from]) then Live(pages, c, from + 1)
      else [(c, from)] + Live(pages, c, from + 1)
  {}

  predicate Before(a: (nat, nat), b: (nat, nat)) { a.0 < b.0 || (a.0 == b.0 && a.1 < b.1) }

  predicate IsLive(pages: seq<seq<Record>>, at: (nat, nat)) {
    at.0 < |pages| && at.1 < |pages[at.0]| && !Gone(pages[at.0][at.1])
  }

  /** The scan order holds exactly the live tuples from that point on. */
  lemma {:induction false} LiveIsExact(pages: seq<seq<Record>>, c: nat, from: nat, at: (nat, nat))
    ensures at in Live(pages, c, from) <==> IsLive(pages, at) && !Before(at, (c, from))
    decreases |pages| - c, if c < |pages| then |pages[c]| - from else 0
  {
    LiveUnfolds(pages, c, from);
    hide Live, Gone;
    if c < |pages| {
      if from >= |pages[c]| {
        LiveIsExact(pages, c + 1, 0, at);
      } else {
        LiveIsExact(pages, c, from + 1, at);
      }
    }
  }

  /** Each live tuple comes once, and they come in ascending order. */
  lemma {:induction false} LiveAscends(pages: seq<seq<Record>>, c: nat, from: nat, i: nat, j: nat)
    requires i < j < |Live(pages, c, from)|
    ensures Before(Live(pages, c, from)[i], Live(pages, c, from)[j])
    decreases |pages| - c, if c < |pages| then |pages[c]| - from else 0
  {
    LiveUnfolds(pages, c, from);
    hide Live, Gone, IsLive;
    if from >= |pages[c]| {
      LiveAscends(pages, c + 1, 0, i, j);
    } else if Gone(pages[c][from]) {
      LiveAscends(pages, c, from + 1, i, j);
    } else if i > 0 {
      LiveAscends(pages, c, from + 1, i - 1, j - 1);
    } else {
      var later := Live(pages, c, from + 1)[j - 1];
      assert later in Live(pages, c, from + 1);
      LiveIsExact(pages, c, from + 1, later);
    }
  }

  lemma LiveElement(pages: seq<seq<Record>>, c: nat, from: nat, i: nat)
    requires i < |Live(pages, c, from)|
    ensures IsLive(pages, Live(pages, c, from)[i])
  {
    assert Live(pages, c, from)[i] in Live(pages, c, from);
    LiveIsExact(pages, c, from, Live(pages, c, from)[i]);
  }

  /** What follows the first element is the scan order from just after it. */
  lemma {:induction false} LiveTail(pages: seq<seq<Record>>, c: nat, from: nat)
    requires Live(pages, c, from) != []
    ensures var at := Live(pages, c, from)[0]; Live(pages, c, from) == [at] + Live(pages, at.0, at.1 + 1)
    decreases |pages| - c, if c < |pages| then |pages[c]| - from else 0
  {
    LiveUnfolds(pages, c, from);
    hide Live, Gone;
    if from >= |pages[c]| {
      LiveTail(pages, c + 1, 0);
    } else if Gone(pages[c][from]) {
      LiveTail(pages, c, from + 1);
    }
  }

  lemma {:induction false} LiveSuffix(pages: seq<seq<Record>>, c: nat, from: nat, i: nat)
    requires i < |Live(pages, c, from)|
    ensures var live := Live(pages, c, from); live[i + 1..] == Live(pages, live[i].0, live[i].1 + 1)
    decreases i
  {
    var live := Live(pages, c, from);
    LiveTail(pages, c, from);
    if i > 0 {
      var rest := Live(pages, live[0].0, live[0].1 + 1);
      LiveSuffix(pages, live[0].0, live[0].1 + 1, i - 1);
      assert rest[i..] == live[i + 1..];
    }
  }

  /** How the two page-local searches move along the scan order. */
  lemma {:induction false} LiveOnPage(pages: seq<seq<Record>>, c: nat, from: nat)
    requires c < |pages|
    ensures var s := NextLive(pages[c], from);
            if s.Some? then Live(pages, c, from) == [(c, s.value)] + Live(pages, c, s.value + 1)
            else Live(pages, c, from) == Live(pages, c + 1, 0)
    decreases |pages[c]| - from
  {
    LiveUnfolds(pages, c, from);
    hide Live, Gone;
    if from < |pages[c]| && Gone(pages[c][from]) { LiveOnPage(pages, c, from + 1); }
  }

  class TableHeap {
    const firstPageId: PageId
    /** Page headers and page contents, by page id. */
    var next: map<PageId, PageId>
    var records: Store
    ghost var chain: seq<PageId>

    ghost predicate Valid()
      reads this
    {
      && |chain| > 0 && chain[0] == firstPageId
      && (forall i :: 0 <= i < |chain| ==> chain[i] in records && chain[i] in next && chain[i] != INVALID_PAGE_ID)
      && (forall i :: 0 <= i < |chain| ==> next[chain[i]] == LinkAfter(chain, i))
      && (forall i, j :: 0 <= i < j < |chain| ==> chain[i] != chain[j])
    }

    static function LinkAfter(chain: seq<PageId>, i: nat): PageId {
      if i + 1 < |chain| then chain[i + 1] else INVALID_PAGE_ID
    }

    lemma ChainAt(k: nat)
      requires Valid() && k < |chain|
      ensures chain[k] in records && chain[k] in next && chain[k] != INVALID_PAGE_ID
      ensures next[chain[k]] == if k + 1 < |chain| then chain[k + 1] else INVALID_PAGE_ID
    {}

    lemma Starts()
      requires Valid()
      ensures |chain| > 0 && chain[0] == firstPageId
    {}

    /** The pages of the chain, in order. */
    ghost function Pages(): (pages: seq<seq<Record>>)
      reads this
      ensures |pages| == |chain|
      ensures forall i :: 0 <= i < |chain| ==> pages[i] == Recs(records, chain[i])
    {
      seq(|chain|, i requires 0 <= i < |chain| reads this => Recs(records, chain[i]))
    }

    ghost function RidAt(at: (nat, nat)): Rid
      reads this
    {
      if at.0 < |chain| then Rid(chain[at.0], at.1) else Rid(INVALID_PAGE_ID, 0)
    }

    ghost function RidOrEnd(live: seq<(nat, nat)>): Rid
      reads this
    {
      if live == [] then Rid(INVALID_PAGE_ID, 0) else RidAt(live[0])
    }

    constructor (firstPage: PageId)
      requires firstPage != INVALID_PAGE_ID
      ensures Valid() && chain == [firstPage] && records == map[firstPage := []]
    {
      firstPageId := firstPage;
      next, records := map[firstPage := INVALID_PAGE_ID], map[firstPage := []];
      chain := [firstPage];
    }

    /** The pages the buffer pool would hand out, in order, are new ones. */
    ghost predicate Unused(spares: seq<PageId>)
      reads this
    {
      && (forall i :: 0 <= i < |spares| ==> spares[i] != INVALID_PAGE_ID && spares[i] !in chain && spares[i] !in records)
      && (forall i, j :: 0 <= i < j < |spares| ==> spares[i] != spares[j])
    }

    /** Walks the chain and appends pages to it while the buffer pool can hand some out, which it can
        |spares| times. For a tuple whose size wrapped the check around it takes them all, however many
        there are, and fails. */
    method InsertTuple(tuple: Bytes, txn: Transaction, spares: seq<PageId>) returns (rid: Option<Rid>)
      requires Valid() && tuple != [] && |tuple| < UINT32 && Unused(spares)
      modifies `next, `records, `chain, txn
      ensures Valid()
      ensures rid.Some? <==> PassesSizeCheck(|tuple|) && PageFor(old(chain), old(records), |tuple|, spares).Some?
      ensures rid.Some? ==>
        && PageFor(old(chain), old(records), |tuple|, spares) == Some(rid.value.page)
        && chain == (if rid.value.page in old(chain) then old(chain) else old(chain) + [rid.value.page])
        && Do(old(records), DoInsert(rid.value.page, tuple)) == (records, Some(Inserted(rid.value)))
        && txn.writeSet == old(txn.writeSet) + [Inserted(rid.value)] && txn.state == old(txn.state)
      ensures rid.None? ==>
        && txn.state == Aborted && txn.writeSet == old(txn.writeSet)
        && chain == old(chain) + Wasted(|tuple|, spares) && records == old(records) + EmptyPages(Wasted(|tuple|, spares))
    {
      assert old(records) + EmptyPages([]) == old(records);
      if (|tuple| + 32) % UINT32 > PAGE_SIZE {
        txn.state := Aborted;
        return None;
      }
      CheckedTupleFitsFreshPage(|tuple|);
      hide TableHeap.Valid, FitsPage, Do, PageFor, Wasted, Unused;
      ghost var before := records;
      ghost var tried, took;
      var cur;
      cur, tried, took := FindRoom(tuple, spares);
      WalkOutcome(old(chain), before, |tuple|, spares, cur, tried, took);
      if cur.None? {
        txn.state := Aborted;
        return None;
      }
      assert EmptyPages([cur.value]) == map[cur.value := []];
      assert before + EmptyPages([cur.value]) == before[cur.value := []];
      FreshPageHasNoSlots(before, cur.value, tuple);
      var slot := Claim(cur.value, tuple);
      rid := Some(Rid(cur.value, slot));
      txn.writeSet := txn.writeSet + [Inserted(rid.value)];
    }

    /** What the walk found, as a function of what it started from. */
    static lemma WalkOutcome(chain: seq<PageId>, records: Store, n: nat, spares: seq<PageId>,
                             room: Option<PageId>, tried: seq<PageId>, took: nat)
      requires n < UINT32 && PassesSizeCheck(n) && took <= |spares|
      requires forall i :: 0 <= i < |spares| ==> spares[i] !in chain && spares[i] !in records
      requires Walked(chain, records, n, spares, room, tried, took)
      ensures room == PageFor(chain, records, n, spares)
      ensures room.None? ==> spares[..took] == Wasted(n, spares)
      ensures room.Some? ==> spares[..took] == if room.value in chain then [] else [room.value]
    {
      CheckedTupleFitsFreshPage(n);
      var all := chain + spares[..took];
      var k := FirstFit(chain, records, n, 0);
      if n + 32 >= UINT32 {
        forall p ensures !FitsPage(Recs(records, p), n) { WrappedFitsNoPage(Recs(records, p), n); }
        WrappedFitsNoPage([], n);
      }
      hide FitsPage, PassesSizeCheck;
      forall j | 0 <= j < |chain| && j < |tried| ensures tried[j] == chain[j] {}
      if room.Some? {
        var m: nat := |tried| - 1;
        if m < |chain| {
          FirstFitIs(chain, records, n, m);
        } else {
          FirstFitIs(chain, records, n, |chain|);
          assert tried[|chain|] == spares[0] && Recs(records, spares[0]) == [];
          assert m == |chain|;
        }
      } else {
        FirstFitIs(chain, records, n, |chain|);
        assert spares[..|spares|] == spares;
        assert spares != [] ==> all[|chain|] == spares[0];
      }
    }

    static lemma FreshPageHasNoSlots(s: Store, page: PageId, tuple: Bytes)
      ensures page !in s && FitsPage([], |tuple|) ==> Do(s[page := []], DoInsert(page, tuple)) == Do(s, DoInsert(page, tuple))
    {
      hide Insert;
      if page !in s && FitsPage([], |tuple|) {
        NoFit([], tuple);
        var rs := Insert(PAGE_SIZE, [], tuple).0;
        assert s[page := []][page := rs] == s[page := rs];
      }
    }

    method Claim(page: PageId, tuple: Bytes) returns (slot: nat)
      requires Valid() && page in records && FitsPage(records[page], |tuple|)
      modifies `records
      ensures Valid()
      ensures Do(old(records), DoInsert(page, tuple)) == (records, Some(Inserted(Rid(page, slot))))
    {
      NoFit(records[page], tuple);
      hide Insert, FitsPage;
      var (after, claimed) := Insert(PAGE_SIZE, records[page], tuple);
      records := records[page := after];
      slot := claimed.value;
    }

    /** A walk that tried these pages and took that many new ones: it tries the pages of the chain in
        order, the new ones after them, each at most once; it stops at the first that has room; and it
        takes a new page only when the one before it, the last, had none. */
    static ghost predicate Walked(chain: seq<PageId>, records: Store, n: nat, spares: seq<PageId>,
                                  room: Option<PageId>, tried: seq<PageId>, took: nat)
      requires took <= |spares|
    {
      var all := chain + spares[..took];
      && |tried| <= |all| && tried == all[..|tried|]
      && (took > 0 ==> |tried| == |all|)
      && (forall j :: 0 <= j < |tried| - 1 ==> !FitsPage(Recs(records, tried[j]), n))
      && (room.Some? ==> |tried| > 0 && room.value == tried[|tried| - 1] && FitsPage(Recs(records, room.value), n))
      && (room.None? ==> tried == all && took == |spares| && forall j :: 0 <= j < |tried| ==> !FitsPage(Recs(records, tried[j]), n))
    }

    /** Where a walk stands after trying the first k + 1 pages. */
    static ghost predicate Walking(chain: seq<PageId>, records: Store, n: nat, spares: seq<PageId>, tried: seq<PageId>, took: nat, k: nat)
      requires took <= |spares|
    {
      var all := chain + spares[..took];
      && k < |all| && tried == all[..k + 1] && (took > 0 ==> k == |all| - 1)
      && forall j :: 0 <= j < k ==> !FitsPage(Recs(records, tried[j]), n)
    }

    static lemma WalkEnds(chain: seq<PageId>, records: Store, n: nat, spares: seq<PageId>, tried: seq<PageId>, took: nat, k: nat)
      requires took <= |spares| && Walking(chain, records, n, spares, tried, took, k)
      ensures var all := chain + spares[..took];
        && (FitsPage(Recs(records, all[k]), n) ==> Walked(chain, records, n, spares, Some(all[k]), tried, took))
        && (!FitsPage(Recs(records, all[k]), n) && k == |all| - 1 && took == |spares| ==>
              Walked(chain, records, n, spares, None, tried, took))
    {
      hide FitsPage;
    }

    /** Another page of the chain, or a page just taken. */
    static lemma WalkGoesOn(chain: seq<PageId>, records: Store, n: nat, spares: seq<PageId>, tried: seq<PageId>, took: nat, k: nat, took1: nat)
      requires took <= took1 <= |spares| && Walking(chain, records, n, spares, tried, took, k)
      requires var all := chain + spares[..took];
        !FitsPage(Recs(records, all[k]), n) && (if k + 1 < |all| then took1 == took else took1 == took + 1)
      ensures var all := chain + spares[..took1];
        k + 1 < |all| && Walking(chain, records, n, spares, tried + [all[k + 1]], took1, k + 1)
    {
      hide FitsPage;
      assert took1 == took + 1 ==> spares[..took1] == spares[..took] + [spares[took]];
    }

    /** The walk itself. */
    method FindRoom(tuple: Bytes, spares: seq<PageId>) returns (room: Option<PageId>, ghost tried: seq<PageId>, ghost took: nat)
      requires Valid() && Unused(spares)
      modifies `next, `records, `chain
      ensures Valid() && took <= |spares|
      ensures chain == old(chain) + spares[..took] && records == old(records) + EmptyPages(spares[..took])
      ensures Walked(old(chain), old(records), |tuple|, spares, room, tried, took)
      ensures room.Some? ==> room.value in records && FitsPage(records[room.value], |tuple|)
    {
      hide TableHeap.Valid, Insert, FitsPage, Walked, Walking, EmptyPages, Recs;
      ghost var chain0, records0 := chain, records;
      Starts();
      ChainAt(0);
      var cur, k, used := firstPageId, 0, 0;
      tried, took := [cur], 0;
      WalkStarts(chain0, records0, |tuple|, spares);
      NoPages(records, chain);
      assert spares[..0] == [];
      var slot := Insert(PAGE_SIZE, records[cur], tuple).1;
      NoFit(records[cur], tuple);
      while slot.None?
        invariant Valid() && used == took <= |spares| && chain == chain0 + spares[..took]
        invariant records == records0 + EmptyPages(spares[..took])
        invariant k < |chain| && cur == chain[k] && cur in records
        invariant Walking(chain0, records0, |tuple|, spares, tried, took, k)
        invariant slot.Some? <==> FitsPage(records[cur], |tuple|)
        decreases |spares| - took, |chain| - k
      {
        ChainAt(k);
        OldRecords(records0, spares[..took], cur);
        WalkEnds(chain0, records0, |tuple|, spares, tried, took, k);
        var nextPageId := next[cur];
        if k + 1 < |chain| { ChainAt(k + 1); }
        if nextPageId != INVALID_PAGE_ID {
          WalkGoesOn(chain0, records0, |tuple|, spares, tried, took, k, took);
          cur := nextPageId;
        } else {
          if used == |spares| { return None, tried, took; }
          WalkGoesOn(chain0, records0, |tuple|, spares, tried, took, k, took + 1);
          TakePage(cur, spares, used, chain0, records0);
          cur := spares[used];
          used := used + 1;
          took := took + 1;
        }
        k := k + 1;
        ChainAt(k);
        tried := tried + [cur];
        slot := Insert(PAGE_SIZE, records[cur], tuple).1;
        NoFit(records[cur], tuple);
      }
      OldRecords(records0, spares[..took], cur);
      WalkEnds(chain0, records0, |tuple|, spares, tried, took, k);
      room := Some(cur);
    }

    static lemma NoPages(records: Store, chain: seq<PageId>)
      ensures records + EmptyPages([]) == records && chain + [] == chain
    {}

    static lemma WalkStarts(chain: seq<PageId>, records: Store, n: nat, spares: seq<PageId>)
      requires chain != []
      ensures Walking(chain, records, n, spares, [chain[0]], 0, 0)
    {}

    /** One more page from the buffer pool at the end of the chain. */
    method TakePage(last: PageId, spares: seq<PageId>, n: nat, ghost chain0: seq<PageId>, ghost records0: Store)
      requires Valid() && n < |spares| && last == chain[|chain| - 1]
      requires chain == chain0 + spares[..n] && records == records0 + EmptyPages(spares[..n])
      requires spares[n] != INVALID_PAGE_ID && spares[n] !in chain0
      requires forall i, j :: 0 <= i < j < |spares| ==> spares[i] != spares[j]
      modifies `next, `records, `chain
      ensures Valid() && chain == chain0 + spares[..n + 1] && records == records0 + EmptyPages(spares[..n + 1])
      ensures chain == old(chain) + [spares[n]]
    {
      hide TableHeap.Valid;
      NotYetThere(chain0, spares, n);
      AppendPage(last, spares[n]);
      MorePages(records0, spares, n);
    }

    /** A page taken on the walk holds nothing, like a page that did not exist. */
    static lemma OldRecords(records: Store, ids: seq<PageId>, p: PageId)
      requires p in ids ==> p !in records
      ensures Recs(records + EmptyPages(ids), p) == Recs(records, p)
      ensures p in records + EmptyPages(ids) ==> (records + EmptyPages(ids))[p] == Recs(records, p)
    {}

    static lemma NotYetThere(chain: seq<PageId>, ids: seq<PageId>, n: nat)
      requires n < |ids| && ids[n] !in chain && forall i, j :: 0 <= i < j < |ids| ==> ids[i] != ids[j]
      ensures ids[n] !in chain + ids[..n] && chain + ids[..n + 1] == chain + ids[..n] + [ids[n]]
    {}

    static lemma MorePages(records: Store, ids: seq<PageId>, n: nat)
      requires n < |ids|
      ensures (records + EmptyPages(ids[..n]))[ids[n] := []] == records + EmptyPages(ids[..n + 1])
    {
      assert ids[..n + 1] == ids[..n] + [ids[n]];
    }

    method AppendPage(last: PageId, page: PageId)
      requires Valid() && last == chain[|chain| - 1]
      requires page != INVALID_PAGE_ID && page !in chain
      modifies `next, `records, `chain
      ensures Valid() && chain == old(chain) + [page] && records == old(records)[page := []]
    {
      next := next[last := page][page := INVALID_PAGE_ID];
      records := records[page := []];
      chain := chain + [page];
    }

    static lemma FirstFitIs(chain: seq<PageId>, records: Store, n: nat, k: nat)
      requires k <= |chain| && (k < |chain| ==> FitsPage(Recs(records, chain[k]), n))
      requires forall j :: 0 <= j < k ==> !FitsPage(Recs(records, chain[j]), n)
      ensures FirstFit(chain, records, n, 0) == k
    {}

    static lemma NoFit(rs: seq<Record>, tuple: Bytes)
      ensures Insert(PAGE_SIZE, rs, tuple).1.Some? <==> FitsPage(rs, |tuple|)
    {}

    /** The write is recorded whatever the page answered. */
    method MarkDelete(rid: Rid, txn: Transaction)
      requires Valid() && rid.page in records
      modifies `records, txn
      ensures Valid() && txn.state == old(txn.state)
      ensures records == Do(old(records), DoDelete(rid)).0
      ensures txn.writeSet == old(txn.writeSet) + [Deleted(rid)]
    {
      records := records[rid.page := Slotted.MarkDelete(records[rid.page], rid.slot).0];
      txn.writeSet := txn.writeSet + [Deleted(rid)];
    }

    /** Nothing is recorded for an aborted transaction. */
    method UpdateTuple(tuple: Bytes, rid: Rid, txn: Transaction) returns (ok: bool)
      requires Valid() && rid.page in records && tuple != []
      modifies `records, txn
      ensures Valid() && txn.state == old(txn.state)
      ensures var (s, w) := Do(old(records), DoUpdate(rid, tuple));
        && records == s && ok == w.Some?
        && txn.writeSet == old(txn.writeSet) + (if w.Some? && txn.state != Aborted then [w.value] else [])
    {
      var (after, before) := Update(PAGE_SIZE, records[rid.page], rid.slot, tuple);
      ok := before.Some?;
      if ok { records := records[rid.page := after]; }
      if ok && txn.state != Aborted {
        txn.writeSet := txn.writeSet + [Updated(rid, before.value)];
      }
    }

    method ApplyDelete(rid: Rid)
      requires Valid() && rid.page in records && At(records, rid).Record?
      modifies `records
      ensures Valid()
      ensures records == old(records)[rid.page := Slotted.ApplyDelete(old(records)[rid.page], rid.slot)]
    {
      records := records[rid.page := Slotted.ApplyDelete(records[rid.page], rid.slot)];
    }

    method RollbackDelete(rid: Rid)
      requires Valid() && rid.page in records && rid.slot < |records[rid.page]|
      modifies `records
      ensures Valid()
      ensures records == old(records)[rid.page := Slotted.RollbackDelete(old(records)[rid.page], rid.slot)]
    {
      records := records[rid.page := Slotted.RollbackDelete(records[rid.page], rid.slot)];
    }

    method GetTuple(rid: Rid) returns (tuple: Option<Bytes>)
      requires Valid() && rid.page in records
      ensures tuple == if Gone(At(records, rid)) then None else Some(At(records, rid).data)
    {
      var rs := records[rid.page];
      if rid.slot >= |rs| || Gone(rs[rid.slot]) { return None; }
      return Some(rs[rid.slot].data);
    }

    /** The RID the scan starts from: the first live tuple, or the end marker. */
    method Begin() returns (rid: Rid)
      requires Valid()
      ensures rid == RidOrEnd(Live(Pages(), 0, 0))
    {
      rid := Rid(INVALID_PAGE_ID, 0);
      var pageId := firstPageId;
      ghost var k := 0;
      while pageId != INVALID_PAGE_ID
        invariant k <= |chain| && pageId == (if k < |chain| then chain[k] else INVALID_PAGE_ID)
        invariant rid == Rid(INVALID_PAGE_ID, 0)
        invariant Live(Pages(), 0, 0) == Live(Pages(), k, 0)
        decreases |chain| - k
      {
        LiveOnPage(Pages(), k, 0);
        var first := NextLive(records[pageId], 0);
        if first.Some? {
          return Rid(pageId, first.value);
        }
        pageId := next[pageId];
        k := k + 1;
      }
    }

    /** The search of `operator++`: the next live tuple after the one at position `at`. */
    method NextRid(rid: Rid, ghost at: (nat, nat)) returns (nextRid: Rid)
      requires Valid() && at.0 < |chain| && rid == RidAt(at)
      ensures nextRid == RidOrEnd(Live(Pages(), at.0, at.1 + 1))
    {
      hide Live, TableHeap.Valid;
      ghost var pages, c := Pages(), at.0;
      ghost var live := Live(pages, at.0, at.1 + 1);
      ChainAt(c);
      LiveOnPage(pages, c, at.1 + 1);
      var curPage := rid.page;
      var found := NextLive(records[curPage], rid.slot + 1);
      if found.None? {
        while next[curPage] != INVALID_PAGE_ID
          invariant c < |chain| && curPage == chain[c] && curPage in next
          invariant next[curPage] == if c + 1 < |chain| then chain[c + 1] else INVALID_PAGE_ID
          invariant found.None? && live == Live(pages, c + 1, 0)
          decreases |chain| - c
        {
          curPage := next[curPage];
          c := c + 1;
          ChainAt(c);
          LiveOnPage(pages, c, 0);
          found := NextLive(records[curPage], 0);
          if found.Some? { break; }
        }
      }
      if found.None? {
        if c + 1 < |chain| { ChainAt(c + 1); }
        LiveEnds(pages, c + 1);
      }
      nextRid := if found.Some? then Rid(curPage, found.value) else Rid(INVALID_PAGE_ID, 0);
    }

    static lemma LiveEnds(pages: seq<seq<Record>>, c: nat)
      ensures c >= |pages| ==> Live(pages, c, 0) == []
    {}
  }

  class TableIterator {
    const heap: TableHeap
    var rid: Rid
    var tuple: Bytes

    /** At the end, or holding the live tuple at that position of the heap. */
    ghost predicate IsAt(live: seq<(nat, nat)>)
      reads this, heap
    {
      rid == heap.RidOrEnd(live) && (live != [] ==> Yields(heap, live[0], rid, tuple))
    }

    constructor (heap: TableHeap, rid: Rid, ghost from: nat)
      requires heap.Valid() && rid == heap.RidOrEnd(Live(heap.Pages(), from, 0))
      ensures this.heap == heap && IsAt(Live(heap.Pages(), from, 0))
    {
      this.heap, this.rid, tuple := heap, rid, [];
      new;
      ghost var live := Live(heap.Pages(), from, 0);
      if live != [] { LiveElement(heap.Pages(), from, 0, 0); LiveRid(heap, live[0]); }
      hide Live, TableHeap.Valid, IsLive;
      if rid.page != INVALID_PAGE_ID {
        var read := heap.GetTuple(rid);
        if read.Some? { tuple := read.value; }
      }
    }

    /** Steps from the tuple at position `at` of the heap to the next live one, or to the end. */
    method Increment(ghost at: (nat, nat))
      requires heap.Valid() && at.0 < |heap.chain| && rid == heap.RidAt(at)
      modifies this
      ensures IsAt(Live(heap.Pages(), at.0, at.1 + 1))
    {
      hide TableHeap.Valid, Live;
      rid := heap.NextRid(rid, at);
      ghost var live := Live(heap.Pages(), at.0, at.1 + 1);
      if live != [] { LiveElement(heap.Pages(), at.0, at.1 + 1, 0); LiveRid(heap, live[0]); }
      if rid.page != INVALID_PAGE_ID {
        var read := heap.GetTuple(rid);
        if read.Some? { tuple := read.value; }
      }
    }
  }

  lemma LiveRid(heap: TableHeap, at: (nat, nat))
    requires heap.Valid() && IsLive(heap.Pages(), at)
    ensures at.0 < |heap.chain|
    ensures var rid := heap.RidAt(at); rid.page in heap.records && rid.page != INVALID_PAGE_ID && !Gone(At(heap.records, rid))
  {}

  /** This RID and these bytes are the live tuple at that position of the heap. */
  ghost predicate Yields(heap: TableHeap, at: (nat, nat), rid: Rid, tuple: Bytes)
    reads heap
  {
    && IsLive(heap.Pages(), at) && rid == heap.RidAt(at)
    && !Gone(At(heap.records, rid)) && tuple == At(heap.records, rid).data
  }

  /** The scan a client makes, `for (it = Begin(); it != End(); ++it)`, ends and yields the live
      tuples of the heap in page and slot order. */
  method Scan(heap: TableHeap) returns (rids: seq<Rid>, tuples: seq<Bytes>)
    requires heap.Valid()
    ensures var live := Live(heap.Pages(), 0, 0);
      && |rids| == |tuples| == |live|
      && forall i :: 0 <= i < |live| ==> Yields(heap, live[i], rids[i], tuples[i])
  {
    hide Live, TableHeap.Valid, IsLive, Yields, TableHeap.RidAt;
    rids, tuples := [], [];
    ghost var live := Live(heap.Pages(), 0, 0);
    var begin := heap.Begin();
    var it := new TableIterator(heap, begin, 0);
    ghost var i := 0;
    assert live[0..] == live;
    while it.rid.page != INVALID_PAGE_ID
      invariant it.heap == heap && i <= |live| && |rids| == |tuples| == i
      invariant forall j :: 0 <= j < i ==> Yields(heap, live[j], rids[j], tuples[j])
      invariant it.IsAt(live[i..])
      decreases |live| - i
    {
      assert i < |live|;
      LiveElement(heap.Pages(), 0, 0, i);
      LiveRid(heap, live[i]);
      LiveSuffix(heap.Pages(), 0, 0, i);
      rids, tuples := rids + [it.rid], tuples + [it.tuple];
      it.Increment(live[i]);
      i := i + 1;
    }
    if i < |live| {
      LiveElement(heap.Pages(), 0, 0, i);
      LiveRid(heap, live[i]);
    }
  }
}
