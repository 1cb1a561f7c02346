/** The buffer pool instance as an object: every method does to the pool's state exactly what the
    function of the same purpose in `BufferPool` does. */
module BufferPoolManager {
  import opened Common
  import opened BufferPool
  import opened LruReplacer

  class BufferPoolManagerInstance {
    const numInstances: nat
    const instanceIndex: nat
    const pages: array<Frame>
    const replacer: LRUReplacer
    var pageTable: map<PageId, nat>
    var freeList: seq<nat>
    var nextPageId: PageId
    /** The pages written so far, as the disk manager would read them back. */
    var disk: map<PageId, Bytes>

    ghost function View(): Pool
      reads this, pages, replacer
    {
      Pool(pages[..], pageTable, freeList, replacer.Order(), disk, nextPageId, numInstances)
    }

    ghost predicate Shape()
      reads this, pages, replacer
    {
      && replacer.Valid() && |replacer.page2iter| == pages.Length
      && 0 <= instanceIndex < numInstances && nextPageId % numInstances == instanceIndex
    }

    ghost predicate Valid()
      reads this, pages, replacer
    {
      Shape() && Partition(View())
    }

    constructor (poolSize: nat, numInstances: nat, instanceIndex: nat)
      requires instanceIndex < numInstances
      ensures Valid() && fresh(pages) && fresh(replacer) && Coherent(View())
      ensures View() == Start(poolSize, instanceIndex, numInstances)
    {
      this.numInstances, this.instanceIndex := numInstances, instanceIndex;
      pages := new Frame[poolSize](_ => Frame(INVALID_PAGE_ID, 0, false, ZeroPage()));
      replacer := new LRUReplacer(poolSize);
      pageTable, disk, nextPageId := map[], map[], instanceIndex;
      freeList := seq(poolSize, i => i);
      new;
      assert View() == Start(poolSize, instanceIndex, numInstances);
      StartIsOk(poolSize, instanceIndex, numInstances);
    }

    method FlushPg(p: PageId)
      requires Cached(View(), p)
      modifies `disk
      ensures View() == FlushFrame(old(View()), p)
    {
      var f := pageTable[p];
      if pages[f].dirty { disk := disk[p := pages[f].data]; }
    }

    method AllocatePage() returns (p: PageId)
      requires Shape()
      modifies `nextPageId
      ensures Shape() && p == old(nextPageId) && nextPageId == p + numInstances && p % numInstances == instanceIndex
    {
      p := nextPageId;
      nextPageId := nextPageId + numInstances;
      NextIdIsMine(p, numInstances);
    }

    static lemma NextIdIsMine(p: int, n: nat)
      requires n > 0
      ensures (p + n) % n == p % n
    {
      ModUnique(p + n, n, p / n + 1, p % n);
    }

    method FindFreshPage() returns (frame: Option<nat>)
      requires Valid()
      modifies this, pages, replacer
      ensures Shape() && (View(), frame) == FindFresh(old(View()))
      ensures if frame.Some? then PartitionBut(View(), {frame.value}) else Partition(View())
    {
      ghost var pool := View();
      FindFreshKeepsPartition(pool);
      if freeList != [] {
        frame := Some(freeList[0]);
        freeList := freeList[1..];
        assert View() == FindFresh(pool).0;
        return;
      }
      EvictableIsCached(pool);
      hide Partition, PartitionBut;
      var victim := replacer.Victim();
      if victim.None? {
        assert View() == pool;
        return None;
      }
      var f := victim.value;
      var p := pages[f].pageId;
      FlushPg(p);
      pageTable := pageTable - {p};
      pages[f] := pages[f].(dirty := false);
      assert View() == FindFresh(pool).0;
      frame := Some(f);
    }

    static lemma EvictableIsCached(pool: Pool)
      requires Partition(pool)
      ensures pool.lru != [] ==>
        (var f := pool.lru[|pool.lru| - 1];
         f < |pool.frames| && Cached(pool, pool.frames[f].pageId) && pool.table[pool.frames[f].pageId] == f)
    {
      if pool.lru != [] {
        var f := pool.lru[|pool.lru| - 1];
        assert f in pool.lru;
        assert Mapped(pool, f);
      }
    }

    method NewPgImp() returns (page: Option<(PageId, nat)>)
      requires Valid()
      modifies this, pages, replacer
      ensures Shape()
      ensures Valid() <==> NewIsFresh(old(View()))
      ensures View() == New(old(View())).0
      ensures page == match New(old(View())).1 case None => None case Some(f) => Some((old(nextPageId), f))
    {
      ghost var pool := View();
      NewPartitionIff(pool);
      var found := FindFreshPage();
      hide FindFresh, Partition;
      if found.None? { return None; }
      var f := found.value;
      var p := AllocatePage();
      pages[f] := pages[f].(pin := pages[f].pin + 1, pageId := p);
      pageTable := pageTable[p := f];
      pages[f] := pages[f].(data := ZeroPage());
      assert View() == New(pool).0;
      page := Some((p, f));
    }

    method FetchPgImp(p: PageId) returns (frame: Option<nat>)
      requires Valid()
      modifies this, pages, replacer
      ensures Valid()
      ensures (View(), frame) == Fetch(old(View()), p)
    {
      ghost var pool := View();
      FetchKeepsPartition(pool, p);
      CachedIs(pool, p);
      if p !in pageTable { FetchMisses(pool, p); }
      hide Partition, FindFresh, Fetch, PartitionBut, LoadInto;
      if p in pageTable {
        var hit := Hit(p);
        return Some(hit);
      }
      frame := FindFreshPage();
      if frame.None? { return None; }
      Load(p, frame.value);
    }

    /** The frame is freed without leaving the eviction order. */
    method DeletePgImp(p: PageId) returns (ok: bool)
      requires Valid()
      modifies this, pages
      ensures Shape()
      ensures ok <==> p !in old(pageTable) || old(pages[pageTable[p]].pin) == 0
      ensures Valid() <==> !ok || p !in old(pageTable)
      ensures (View(), ok) == Delete(old(View()), p)
    {
      ghost var pool := View();
      DeletePartitionIff(pool, p);
      CachedIs(pool, p);
      hide Partition;
      if p in pageTable {
        var f := pageTable[p];
        if pages[f].pin != 0 { return false; }
        pageTable := pageTable - {p};
        pages[f] := Frame(INVALID_PAGE_ID, 0, false, ZeroPage());
        freeList := freeList + [f];
      }
      ok := true;
      assert View() == Delete(pool, p).0;
    }

    static lemma FetchMisses(pool: Pool, p: PageId)
      requires Partition(pool) && !Cached(pool, p)
      ensures var (q, f) := FindFresh(pool);
        && (f.None? ==> Fetch(pool, p) == (q, None))
        && (f.Some? ==> f.value < |q.frames| && Fetch(pool, p) == (LoadInto(q, f.value, p), f))
    {
      FindFreshKeepsPartition(pool);
      hide FindFresh, LoadInto;
    }

    method Hit(p: PageId) returns (f: nat)
      requires Shape() && Cached(View(), p)
      modifies pages, replacer
      ensures Shape() && (View(), Some(f)) == Fetch(old(View()), p)
    {
      ghost var pool := View();
      f := pageTable[p];
      replacer.Pin(f);
      pages[f] := pages[f].(pin := pages[f].pin + 1, dirty := true);
      hide Without, FindFresh;
      assert View() == Fetch(pool, p).0;
    }

    method Load(p: PageId, f: nat)
      requires Shape() && f < pages.Length
      modifies `pageTable, pages, replacer
      ensures Shape()
      ensures View() == LoadInto(old(View()), f, p)
    {
      pageTable := pageTable[p := f];
      replacer.Pin(f);
      pages[f] := pages[f].(pageId := p, pin := pages[f].pin + 1, dirty := false);
      pages[f] := pages[f].(data := ReadDisk(disk, p));
    }

    static lemma CachedIs(pool: Pool, p: PageId)
      requires Partition(pool)
      ensures Cached(pool, p) <==> p in pool.table
    {}

    method UnpinPgImp(p: PageId, isDirty: bool) returns (ok: bool)
      requires Valid()
      modifies this, pages, replacer
      ensures Valid()
      ensures (View(), ok) == Unpin(old(View()), p, isDirty)
    {
      ghost var pool := View();
      UnpinKeepsPartition(pool, p, isDirty);
      CachedIs(pool, p);
      hide Partition;
      if p !in pageTable || pages[pageTable[p]].pin == 0 { return false; }
      var f := pageTable[p];
      pages[f] := pages[f].(dirty := isDirty);
      pages[f] := pages[f].(pin := pages[f].pin - 1);
      if pages[f].pin == 0 {
        replacer.Unpin(f);
        FlushPg(p);
      }
      assert View() == Unpin(pool, p, isDirty).0;
      return true;
    }

    method FlushPgImp(p: PageId) returns (ok: bool)
      requires Valid()
      modifies this, pages, replacer
      ensures Valid()
      ensures (View(), ok) == Flush(old(View()), p)
    {
      ghost var pool := View();
      FlushKeepsPartition(pool, p);
      CachedIs(pool, p);
      hide Partition;
      if p !in pageTable { return false; }
      FlushPg(p);
      var f := pageTable[p];
      pages[f] := pages[f].(dirty := false);
      assert View() == Flush(pool, p).0;
      return true;
    }
  }
}
