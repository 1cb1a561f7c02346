/** The extendible hash table: lookups, inserts with splits, removals with merges, each changing
    the directory page and the page store in place and each proved against a plain set of pairs. */
module HashTable {
  import opened Bits
  import opened Common
  import opened Directory
  import opened DirectoryPage
  import opened HashStore
  import opened DeepSplit
  import opened Sweep
  import B = Bucket

  /** `DirectoryFull`: the source would now grow the directory past its 512 entries. */
  datatype Outcome = Done(success: bool) | DirectoryFull

  lemma TwoEmptyBuckets<K, V>(t: Index<K, V>, hash: K -> nat, cap: nat, zero: (K, V))
    requires cap > 0 && Shaped(t.dir) && t.dir.gd == 1
    requires t.dir.ld[0] == t.dir.ld[1] == 1 && t.dir.pg[0] != t.dir.pg[1]
    requires t.dir.pg[0] in t.pages && t.dir.pg[1] in t.pages
    requires t.pages[t.dir.pg[0]] == t.pages[t.dir.pg[1]] == B.Empty(cap, zero)
    ensures WellFormed(t, hash, cap) && Stored(t, cap) == {}
  {
    assert Low(0, 1) == 0 && Low(1, 1) == 1 && Size(t.dir) == 2;
    hide Low, Pow2;
    assert Canonical(t.dir);
    assert B.Valid<K, V>(B.Empty(cap, zero), cap) && B.Pairs<K, V>(B.Empty(cap, zero)) == {};
    assert BucketPairs(t, 0, cap) == {} && BucketPairs(t, 1, cap) == {};
  }

  /** Half-way through rehashing a full bucket: slots before n are dealt out, the rest untouched. */
  ghost predicate Dealt<K, V>(bucket: B.Page<K, V>, keep: B.Page<K, V>, moved: B.Page<K, V>, hash: K -> nat, cap: nat, l: nat, img: nat, n: nat) {
    && B.Valid(bucket, cap) && n <= cap
    && B.Sized(keep, cap) && keep.slots == bucket.slots && keep.occupied == bucket.occupied
    && (forall j :: 0 <= j < cap ==> bucket.readable[j])
    && (forall j :: 0 <= j < cap ==> (keep.readable[j] <==> j >= n || Low(hash(bucket.slots[j].0), l) != img))
    && B.Valid(moved, cap) && |B.Pairs(moved)| <= n
    && B.Pairs(moved) == MovedPairs(bucket.slots, hash, l, img, n)
  }

  /** The pairs dealt out of the first n slots. */
  ghost function MovedPairs<K, V>(slots: seq<(K, V)>, hash: K -> nat, l: nat, img: nat, n: nat): set<(K, V)>
    requires n <= |slots|
  {
    set j | 0 <= j < n && Low(hash(slots[j].0), l) == img :: slots[j]
  }

  lemma MovedGrows<K, V>(slots: seq<(K, V)>, hash: K -> nat, l: nat, img: nat, n: nat)
    requires n < |slots|
    ensures MovedPairs(slots, hash, l, img, n + 1) ==
            MovedPairs(slots, hash, l, img, n) + (if Low(hash(slots[n].0), l) == img then {slots[n]} else {})
  {
    hide Low;
  }

  lemma DealIn<K, V>(moved: B.Page<K, V>, cap: nat, n: nat, pair: (K, V))
    requires B.Valid(moved, cap) && |B.Pairs(moved)| <= n < cap
    ensures var r := B.Insert(moved, pair.0, pair.1).0;
            B.Valid(r, cap) && B.Pairs(r) == B.Pairs(moved) + {pair} && |B.Pairs(r)| <= n + 1
  {
    hide B.Insert, B.CountTrue, B.Pairs;
    B.InsertAddsPair(moved, cap, pair.0, pair.1);
    B.NumReadableCountsPairs(moved, cap);
    assert (pair.0, pair.1) == pair;
  }

  lemma DealOne<K, V>(bucket: B.Page<K, V>, keep: B.Page<K, V>, moved: B.Page<K, V>, hash: K -> nat, cap: nat, l: nat, img: nat, n: nat)
    requires n < cap && Dealt(bucket, keep, moved, hash, cap, l, img, n)
    ensures var pair := bucket.slots[n];
            if Low(hash(pair.0), l) == img
            then Dealt(bucket, B.RemoveAt(keep, n), B.Insert(moved, pair.0, pair.1).0, hash, cap, l, img, n + 1)
            else Dealt(bucket, keep, moved, hash, cap, l, img, n + 1)
  {
    hide Low, B.Insert, B.CountTrue, B.Pairs, MovedPairs;
    assert bucket.readable[n];
    MovedGrows(bucket.slots, hash, l, img, n);
    DealIn(moved, cap, n, bucket.slots[n]);
  }

  lemma AllDealt<K, V>(bucket: B.Page<K, V>, keep: B.Page<K, V>, moved: B.Page<K, V>, hash: K -> nat, cap: nat, l: nat, img: nat)
    requires Dealt(bucket, keep, moved, hash, cap, l, img, cap)
    ensures SplitsInto(bucket, keep, moved, hash, cap, l, img)
  {
    hide Low;
  }

  lemma InsertIntoTarget<K, V>(t: Index<K, V>, hash: K -> nat, cap: nat, key: K, value: V)
    requires WellFormed(t, hash, cap)
    requires var i := Slot(hash, key, t.dir.gd);
             i < Size(t.dir) && t.dir.pg[i] in t.pages && B.Valid(t.pages[t.dir.pg[i]], cap) && !B.IsFull(t.pages[t.dir.pg[i]])
    ensures var page := t.dir.pg[Slot(hash, key, t.dir.gd)];
            var (b, ok) := B.Insert(t.pages[page], key, value);
            var r := t.(pages := t.pages[page := b]);
            && WellFormed(r, hash, cap) && Stored(r, cap) == Stored(t, cap) + {(key, value)}
            && (ok <==> (key, value) !in Stored(t, cap))
  {
    hide Low, Pow2, And, Canonical, B.CountTrue, B.Insert, B.Pairs;
    var i := Slot(hash, key, t.dir.gd);
    var b := B.Insert(t.pages[t.dir.pg[i]], key, value).0;
    B.InsertAddsPair(t.pages[t.dir.pg[i]], cap, key, value);
    ReachableByHash(t, hash, cap, key);
    BucketHoldsItsClass(t, hash, cap, i);
    SharePage(t.dir, i, i);
    LowLow(hash(key), t.dir.ld[i], t.dir.gd);
    forall p | p in B.Pairs(b) ensures Same(hash(p.0), i, t.dir.ld[i]) {
      if p != (key, value) { assert p in BucketPairs(t, i, cap); }
    }
    ReplaceBucket(t, hash, cap, i, b);
  }

  /** The directory entry of a key is live, no deeper than the directory, and names a valid bucket. */
  lemma TargetFacts<K, V>(t: Index<K, V>, hash: K -> nat, cap: nat, key: K)
    requires Loose(t, cap)
    ensures var i := Slot(hash, key, t.dir.gd);
            && i < Size(t.dir) && 1 <= t.dir.ld[i] <= t.dir.gd
            && t.dir.pg[i] in t.pages && t.pages[t.dir.pg[i]] == Bucket(t, hash, cap, key)
  {
    hide Low, Pow2, And;
  }

  /** What an insert that finds room leaves behind. */
  ghost predicate Inserted<K, V>(t0: Index<K, V>, r: Index<K, V>, hash: K -> nat, cap: nat, key: K, value: V, ok: bool) {
    && Loose(t0, cap) && Aimed(r, hash, cap, key)
    && !Hopeless(t0, hash, cap, key)
    && (ok <==> (key, value) !in Found(t0, hash, cap))
    && Found(r, hash, cap) == Found(t0, hash, cap) - Lost(t0, hash, cap, key) + {(key, value)}
    && (WellFormed(t0, hash, cap) ==> (WellFormed(r, hash, cap) <==> Splittable(t0, hash, cap, key)))
    && SplitsAsNeeded(t0, r.dir, hash, cap, key)
  }

  lemma InsertEnds<K, V>(t0: Index<K, V>, t: Index<K, V>, hash: K -> nat, cap: nat, key: K, value: V)
    requires Looping(t0, t, hash, cap, key) && !B.IsFull(Bucket(t, hash, cap, key))
    ensures var (b, ok) := B.Insert(Bucket(t, hash, cap, key), key, value);
            var i := Slot(hash, key, t.dir.gd);
            i < Size(t.dir) && Inserted(t0, t.(pages := t.pages[t.dir.pg[i] := b]), hash, cap, key, value, ok)
  {
    hide Low, And, Pow2, Canonical, B.CountTrue, Stored, Placed, B.Insert, B.Pairs, Found, Broken, Strayed;
    LoopEnds(t0, t, hash, cap, key);
    LoopSplitsAsNeeded(t0, t, hash, cap, key);
    TargetFacts(t, hash, cap, key);
    KeyIsNeverLost(t0, hash, cap, key, value);
    InsertIntoBucket(t, hash, cap, key, value);
    InsertKeepsAim(t, hash, cap, key, value);
    if WellFormed(t0, hash, cap) && Splittable(t0, hash, cap, key) {
      InsertIntoTarget(t, hash, cap, key, value);
    }
  }

  lemma InsertedMeans<K, V>(t0: Index<K, V>, r: Index<K, V>, hash: K -> nat, cap: nat, key: K, value: V, ok: bool)
    requires Inserted(t0, r, hash, cap, key, value, ok)
    ensures Loose(t0, cap) && Aimed(r, hash, cap, key) && Loose(r, cap) && SplitsAsNeeded(t0, r.dir, hash, cap, key)
    ensures !Hopeless(t0, hash, cap, key) && (ok <==> (key, value) !in Found(t0, hash, cap))
    ensures Found(r, hash, cap) == Found(t0, hash, cap) - Lost(t0, hash, cap, key) + {(key, value)}
    ensures WellFormed(t0, hash, cap) ==> (WellFormed(r, hash, cap) <==> Splittable(t0, hash, cap, key))
    ensures WellFormed(t0, hash, cap) && WellFormed(r, hash, cap) ==> Stored(r, cap) == Stored(t0, cap) + {(key, value)}
  {
    hide Low, And, Pow2, Canonical, B.CountTrue, Stored, Placed, B.Pairs, Found, Strayed;
    if WellFormed(t0, hash, cap) && WellFormed(r, hash, cap) {
      WellFormedFinds(t0, hash, cap);
      WellFormedFinds(r, hash, cap);
      WellFormedIsAimed(t0, hash, cap, key);
      SplittableLosesNothing(t0, hash, cap, key);
    }
  }

  /** When no room can be made. */
  lemma FullEnds<K, V>(t0: Index<K, V>, t: Index<K, V>, hash: K -> nat, cap: nat, key: K)
    requires Looping(t0, t, hash, cap, key)
    requires B.IsFull(Bucket(t, hash, cap, key)) && t.dir.ld[Slot(hash, key, t.dir.gd)] == MAX_DEPTH
    ensures Loose(t0, cap) && Aimed(t, hash, cap, key) && Hopeless(t0, hash, cap, key)
    ensures SplitsAsNeeded(t0, t.dir, hash, cap, key)
    ensures Found(t, hash, cap) == Found(t0, hash, cap) - Lost(t0, hash, cap, key)
    ensures WellFormed(t0, hash, cap) ==> (WellFormed(t, hash, cap) <==> Splittable(t0, hash, cap, key))
    ensures WellFormed(t0, hash, cap) && WellFormed(t, hash, cap) ==> Stored(t, cap) == Stored(t0, cap)
  {
    hide Low, And, Pow2, Canonical, B.CountTrue, Stored, Placed, B.Pairs, Found, Strayed, PagesOk;
    LoopEnds(t0, t, hash, cap, key);
    LoopSplitsAsNeeded(t0, t, hash, cap, key);
  }

  lemma StartedValid<K, V>(t: Index<K, V>, hash: K -> nat, cap: nat, key: K)
    requires WellFormed(t, hash, cap)
    ensures Aimed(t, hash, cap, key) && Loose(t, cap) && Found(t, hash, cap) == Stored(t, cap)
  {
    hide Low, And, Pow2, Canonical, B.Pairs, Found, Stored;
    WellFormedFinds(t, hash, cap);
    WellFormedIsAimed(t, hash, cap, key);
  }

  /** Taking a pair out of the bucket its key leads to, on any table. */
  lemma RemoveFromBucket<K, V>(t: Index<K, V>, hash: K -> nat, cap: nat, key: K, value: V)
    requires Loose(t, cap)
    ensures var (b, ok) := B.Remove(Bucket(t, hash, cap, key), key, value);
            var i := Slot(hash, key, t.dir.gd);
            && i < Size(t.dir)
            && var r := t.(pages := t.pages[t.dir.pg[i] := b]);
            && Loose(r, cap) && Found(r, hash, cap) == Found(t, hash, cap) - {(key, value)}
            && (ok <==> (key, value) in Found(t, hash, cap))
            && (ok ==> (B.IsEmpty(b) <==> B.Pairs(Bucket(t, hash, cap, key)) == {(key, value)}))
  {
    hide Low, Pow2, And, B.Pairs, B.CountTrue, B.Remove, Found;
    var i := Slot(hash, key, t.dir.gd);
    var b := B.Remove(Bucket(t, hash, cap, key), key, value).0;
    B.RemoveDropsPair(Bucket(t, hash, cap, key), cap, key, value);
    B.NumReadableCountsPairs(b, cap);
    var r := t.(pages := t.pages[t.dir.pg[i] := b]);
    FoundIsFinds(t, hash, cap); FoundIsFinds(r, hash, cap);
    forall p
      ensures p in Found(r, hash, cap) <==> p in Found(t, hash, cap) && p !in {(key, value)}
    {
      var j := Slot(hash, p.0, t.dir.gd);
      assert j < Size(t.dir);
    }
    SetsAgree(Found(r, hash, cap), Found(t, hash, cap), {(key, value)});
  }

  lemma RemoveFromTarget<K, V>(t: Index<K, V>, hash: K -> nat, cap: nat, key: K, value: V)
    requires WellFormed(t, hash, cap)
    requires var i := Slot(hash, key, t.dir.gd);
             i < Size(t.dir) && t.dir.pg[i] in t.pages && B.Valid(t.pages[t.dir.pg[i]], cap)
    ensures var page := t.dir.pg[Slot(hash, key, t.dir.gd)];
            var (b, ok) := B.Remove(t.pages[page], key, value);
            var r := t.(pages := t.pages[page := b]);
            && WellFormed(r, hash, cap) && Stored(r, cap) == Stored(t, cap) - {(key, value)}
            && (ok <==> (key, value) in Stored(t, cap))
  {
    hide Low, Pow2, And, Canonical, B.CountTrue, B.Remove, B.Pairs;
    var i := Slot(hash, key, t.dir.gd);
    var b := B.Remove(t.pages[t.dir.pg[i]], key, value).0;
    B.RemoveDropsPair(t.pages[t.dir.pg[i]], cap, key, value);
    ReachableByHash(t, hash, cap, key);
    BucketHoldsItsClass(t, hash, cap, i);
    forall p | p in B.Pairs(b) ensures Same(hash(p.0), i, t.dir.ld[i]) {
      assert p in BucketPairs(t, i, cap);
    }
    ReplaceBucket(t, hash, cap, i, b);
  }

  lemma EmptyBucket<K, V>(t: Index<K, V>, cap: nat, i: nat)
    requires Loose(t, cap) && i < Size(t.dir)
    ensures B.IsEmpty(t.pages[t.dir.pg[i]]) <==> B.Pairs(t.pages[t.dir.pg[i]]) == {}
  {
    B.NumReadableCountsPairs(t.pages[t.dir.pg[i]], cap);
  }

  lemma SweepBegins<K, V>(t: Index<K, V>, hash: K -> nat, cap: nat)
    requires WellFormed(t, hash, cap)
    ensures Turns([t.dir], t, hash, cap, 0)
  {
    hide Placed, Canonical;
    assert t.(dir := t.dir) == t;
  }

  /** A sweep that is through, and what it is sure to have done. */
  lemma SweepIsOver<K, V>(trace: seq<Dir>, t: Index<K, V>, hash: K -> nat, cap: nat, n: nat)
    requires WellFormed(t, hash, cap) && Turns(trace, t, hash, cap, n) && n >= Size(trace[n])
    ensures Swept(t, trace[n], hash, cap)
    ensures (exists i: nat :: Foldable(t, cap, i)) ==> LivePages(trace[n]) < LivePages(t.dir)
  {
    hide Placed, Canonical, TurnOf, Foldable, LivePages;
    assert IsSweep(trace, t, hash, cap);
    if i: nat :| Foldable(t, cap, i) { SweepFolds(t, trace[n], hash, cap, i); }
  }

  lemma EmptiedIsFoldable<K, V>(t: Index<K, V>, hash: K -> nat, cap: nat, i: nat)
    requires WellFormed(t, hash, cap) && i < Size(t.dir) && HasTwin(t.dir, i)
    requires t.dir.pg[i] in t.pages && B.IsEmpty(t.pages[t.dir.pg[i]])
    ensures Foldable(t, cap, i)
  {
    hide Low, Canonical, Placed, B.CountTrue;
    B.NumReadableCountsPairs(t.pages[t.dir.pg[i]], cap);
  }

  // ---------------------------------------------------------------- the two directory loops, step by step

  lemma RedirectedNone(d: Dir, oldDepth: nat, img: nat)
    requires Shaped(d) && oldDepth <= d.gd
    ensures Redirected(d, oldDepth, img, Pow2(oldDepth)) == d
  {
    hide Low, Pow2;
    var r := Redirected(d, oldDepth, img, Pow2(oldDepth));
    assert r.ld == d.ld && r.pg == d.pg;
  }

  lemma RedirectedOne(d: Dir, oldDepth: nat, img: nat, n: nat)
    requires Shaped(d) && oldDepth <= d.gd && Pow2(oldDepth) <= n < Size(d)
    ensures var a, b := Redirected(d, oldDepth, img, n), Redirected(d, oldDepth, img, n + 1);
            var o := Low(n, oldDepth);
            o < DIRECTORY_ARRAY_SIZE && b == (if n == img then a else Dir(a.gd, a.ld[n := a.ld[o]], a.pg[n := a.pg[o]]))
  {
    hide Low, Pow2;
    var a, b, o := Redirected(d, oldDepth, img, n), Redirected(d, oldDepth, img, n + 1), Low(n, oldDepth);
    assert b.ld == if n == img then a.ld else a.ld[n := a.ld[o]];
    assert b.pg == if n == img then a.pg else a.pg[n := a.pg[o]];
  }

  lemma FoldedNone(d: Dir, i: nat)
    requires Shaped(d) && i < Size(d) && Mergeable(d, i)
    ensures var img := SplitImage(i, d.ld[i]);
            && img < Size(d) && img != i
            && Folded(d, i, 0) == Dir(d.gd, d.ld[i := d.ld[i] - 1][img := d.ld[img] - 1], d.pg[i := d.pg[img]])
  {
    hide Low, Pow2, SplitImage;
    var img := SplitImage(i, d.ld[i]);
    SplitImageFlipsTopBit(i, d.ld[i]);
    PowMono(d.ld[i], d.gd);
    var r := Folded(d, i, 0);
    assert r.ld == d.ld[i := d.ld[i] - 1][img := d.ld[img] - 1];
    assert r.pg == d.pg[i := d.pg[img]];
  }

  lemma FoldedOne(d: Dir, i: nat, n: nat)
    requires Shaped(d) && i < Size(d) && Mergeable(d, i) && n < Size(d)
    ensures var a, b := Folded(d, i, n), Folded(d, i, n + 1);
            var img := SplitImage(i, d.ld[i]);
            && img < Size(d) && a.ld[i] == d.ld[i] - 1
            && b == (if n != i && n != img && (a.pg[n] == d.pg[i] || a.pg[n] == d.pg[img])
                     then Dir(a.gd, a.ld[n := a.ld[i]], a.pg[n := d.pg[img]]) else a)
  {
    hide Low, Pow2, SplitImage;
    var img := SplitImage(i, d.ld[i]);
    SplitImageFlipsTopBit(i, d.ld[i]);
    PowMono(d.ld[i], d.gd);
    var a, b := Folded(d, i, n), Folded(d, i, n + 1);
    var hit := n != i && n != img && (a.pg[n] == d.pg[i] || a.pg[n] == d.pg[img]);
    assert b.ld == if hit then a.ld[n := a.ld[i]] else a.ld;
    assert b.pg == if hit then a.pg[n := d.pg[img]] else a.pg;
  }

  class ExtendibleHashTable<K(==), V(==)> {
    const hash: K -> nat
    const cap: nat
    const zero: (K, V)
    const dir: HashTableDirectoryPage
    var pages: map<PageId, B.Page<K, V>>
    var nextPageId: PageId

    ghost function View(): Index<K, V>
      reads this, dir, dir.localDepths, dir.bucketPageIds
      requires dir.Ok()
    {
      Index(dir.View(), pages)
    }

    ghost predicate Valid()
      reads this, dir, dir.localDepths, dir.bucketPageIds
    {
      && dir.Ok() && WellFormed(View(), hash, cap)
      && forall id :: id in pages ==> id < nextPageId
    }

    /** What calls keep even where they lose the canonical shape of the directory. */
    ghost predicate Usable()
      reads this, dir, dir.localDepths, dir.bucketPageIds
    {
      && dir.Ok() && Loose(View(), cap)
      && forall id :: id in pages ==> id < nextPageId
    }

    /** The pairs that lookups find. */
    ghost function Findable(): set<(K, V)>
      reads this, dir, dir.localDepths, dir.bucketPageIds
      requires Usable()
    {
      Found(View(), hash, cap)
    }

    /** The set of pairs the table stands for. */
    ghost function Contents(): set<(K, V)>
      reads this, dir, dir.localDepths, dir.bucketPageIds
      requires Valid()
    {
      Stored(View(), cap)
    }

    /** The bucket of the key holds only pairs that agree with the key to its depth, and every entry that
        agrees with the key so far names that bucket. So it is for every key of a valid table. */
    ghost predicate Aims(key: K)
      reads this, dir, dir.localDepths, dir.bucketPageIds
      requires Usable()
    {
      Aimed(View(), hash, cap, key)
    }

    /** When the bucket of the key is full, its local depth is the global depth or one less. */
    ghost predicate Splittable(key: K)
      reads this, dir, dir.localDepths, dir.bucketPageIds
      requires Usable()
    {
      DeepSplit.Splittable(View(), hash, cap, key)
    }

    ghost predicate Hopeless(key: K)
      reads this, dir, dir.localDepths, dir.bucketPageIds
      requires Usable()
    {
      DeepSplit.Hopeless(View(), hash, cap, key)
    }

    ghost function Lost(key: K): set<(K, V)>
      reads this, dir, dir.localDepths, dir.bucketPageIds
      requires Usable()
    {
      DeepSplit.Lost(View(), hash, cap, key)
    }

    /** How many bits the bucket of the key looks at. */
    ghost function Depth(key: K): nat
      reads this, dir, dir.localDepths, dir.bucketPageIds
      requires Usable()
    {
      TargetFacts(View(), hash, cap, key);
      View().dir.ld[Slot(hash, key, dir.globalDepth)]
    }

    /** The pairs in the bucket of the key. */
    ghost function Bucketful(key: K): set<(K, V)>
      reads this, dir, dir.localDepths, dir.bucketPageIds
      requires Usable()
    {
      B.Pairs(Bucket(View(), hash, cap, key))
    }

    lemma ValidIsUsable()
      requires Valid()
      ensures Usable() && Findable() == Contents()
    {
      WellFormedFinds(View(), hash, cap);
    }

    constructor (hash: K -> nat, cap: nat, zero: (K, V), firstPageId: PageId)
      requires cap > 0
      ensures Valid() && Contents() == {} && View().dir.gd == 1
      ensures this.hash == hash && this.cap == cap
      ensures fresh(dir) && fresh(dir.localDepths) && fresh(dir.bucketPageIds)
    {
      this.hash, this.cap, this.zero := hash, cap, zero;
      dir := new HashTableDirectoryPage();
      pages := map[];
      nextPageId := firstPageId;
      new;
      var bucket0 := NewPage();
      var bucket1 := NewPage();
      dir.SetBucketPageId(0, bucket0);
      dir.SetLocalDepth(0, 1);
      dir.SetBucketPageId(1, bucket1);
      dir.SetLocalDepth(1, 1);
      dir.IncrGlobalDepth();
      TwoEmptyBuckets(View(), hash, cap, zero);
    }

    /** `NewPage`: a zeroed page under a number never used before. */
    method NewPage() returns (id: PageId)
      modifies this`pages, this`nextPageId
      ensures id == old(nextPageId) && nextPageId == id + 1
      ensures pages == old(pages)[id := B.Empty(cap, zero)]
    {
      id := nextPageId;
      nextPageId := nextPageId + 1;
      pages := pages[id := B.Empty(cap, zero)];
    }

    /** Appends to `result` every value stored under the key, once each. */
    method GetValue(key: K, result: seq<V>) returns (found: bool, values: seq<V>)
      requires Usable()
      ensures |result| <= |values| && values[..|result|] == result
      ensures forall v :: v in values[|result|..] <==> (key, v) in Findable()
      ensures Valid() ==> Findable() == Contents()
      ensures forall m, n :: |result| <= m < n < |values| ==> values[m] != values[n]
      ensures found <==> values != []
    {
      hide Low, Pow2, And, B.Pairs, Found, Canonical;
      var idx := Slot(hash, key, dir.globalDepth);
      TargetFacts(View(), hash, cap, key);
      FoundIsFinds(View(), hash, cap);
      var bucket := pages[dir.bucketPageIds[idx]];
      B.LookupIsExact(bucket, cap, key);
      values := result + B.Scan(bucket, key, 0);
      found := values != [];
      if Valid() { ValidIsUsable(); }
    }

    /** Moves the pairs of the old page whose masked hash is the split image to the new page. */
    method Rehash(bucket: B.Page<K, V>, blank: B.Page<K, V>, l: nat, img: nat) returns (keep: B.Page<K, V>, moved: B.Page<K, V>)
      requires B.Valid(bucket, cap) && B.IsFull(bucket)
      requires blank == B.Empty(cap, zero)
      ensures SplitsInto(bucket, keep, moved, hash, cap, l, img)
    {
      hide Low, And, Xor, Pow2, B.Insert, B.CountTrue;
      keep, moved := bucket, blank;
      B.CountIsAll(bucket.readable);
      var numRead, numReadable := 0, B.NumReadable(bucket);
      while numRead != numReadable
        invariant numRead <= cap == numReadable
        invariant Dealt(bucket, keep, moved, hash, cap, l, img, numRead)
      {
        DealOne(bucket, keep, moved, hash, cap, l, img, numRead);
        if keep.readable[numRead] {
          var pair := keep.slots[numRead];
          AndMask(hash(pair.0), l);
          XorZero(And(hash(pair.0), Pow2(l) - 1), img);
          if Xor(And(hash(pair.0), Pow2(l) - 1), img) == 0 {
            moved := B.Insert(moved, pair.0, pair.1).0;
            keep := B.RemoveAt(keep, numRead);
          }
          numRead := numRead + 1;
        }
      }
      AllDealt(bucket, keep, moved, hash, cap, l, img);
    }

    /** Fills the entries the directory gained from the entries they extend, the image excepted. */
    method Redirect(oldDepth: nat, img: nat)
      requires dir.Ok() && oldDepth <= dir.globalDepth
      modifies dir.localDepths, dir.bucketPageIds
      ensures dir.Ok() && dir.View() == Redirected(old(dir.View()), oldDepth, img, Pow2(dir.globalDepth))
    {
      hide Low, And, Pow2, Redirected;
      ghost var d := dir.View();
      PowMono(oldDepth, dir.globalDepth);
      SizeFits(dir.globalDepth);
      RedirectedNone(d, oldDepth, img);
      var i := Pow2(oldDepth);
      while i < Pow2(dir.globalDepth)
        invariant Pow2(oldDepth) <= i <= Size(d)
        invariant dir.View() == Redirected(d, oldDepth, img, i)
      {
        RedirectedOne(d, oldDepth, img, i);
        if i != img {
          AndMask(i, oldDepth);
          var redirect := And(i, Pow2(oldDepth) - 1);
          dir.SetBucketPageId(i, dir.bucketPageIds[redirect]);
          dir.SetLocalDepth(i, dir.localDepths[redirect]);
        }
        i := i + 1;
      }
    }

    /** Deepens the target, growing the directory where needed, and enters the new page at its image. */
    method Register(idx: nat) returns (img: nat, splitPage: PageId)
      requires dir.Ok() && idx < Size(dir.View()) && dir.localDepths[idx] < MAX_DEPTH
      modifies this`pages, this`nextPageId, dir, dir.localDepths, dir.bucketPageIds
      ensures dir.Ok() && splitPage == old(nextPageId) && nextPageId == splitPage + 1
      ensures pages == old(pages)[splitPage := B.Empty(cap, zero)]
      ensures var d := old(dir.View()); var l := d.ld[idx] + 1;
              && img == SplitImage(idx, l) && img < DIRECTORY_ARRAY_SIZE
              && dir.View() == Dir(if Grows(d, idx) then d.gd + 1 else d.gd, d.ld[idx := l][img := l], d.pg[img := splitPage])
    {
      hide Low, And, Pow2, SplitImage, Canonical;
      if dir.localDepths[idx] == dir.globalDepth {
        dir.IncrGlobalDepth();
      }
      dir.SetLocalDepth(idx, dir.localDepths[idx] + 1);
      var l := dir.localDepths[idx];
      img := SplitImage(idx, l);
      SplitImageFlipsTopBit(idx, l);
      SizeFits(l);
      splitPage := NewPage();
      dir.SetBucketPageId(img, splitPage);
      dir.SetLocalDepth(img, l);
    }

    /** One round of the split loop on the full bucket of the key. */
    method Split(key: K) returns (ghost keep: B.Page<K, V>, ghost moved: B.Page<K, V>)
      requires Usable() && B.IsFull(Bucket(View(), hash, cap, key))
      requires dir.localDepths[Slot(hash, key, dir.globalDepth)] < MAX_DEPTH
      modifies this`pages, this`nextPageId, dir, dir.localDepths, dir.bucketPageIds
      ensures Usable() && nextPageId == old(nextPageId) + 1
      ensures Round(old(View()), View(), hash, cap, key, keep, old(nextPageId), moved)
    {
      hide Low, And, Pow2, Canonical, SplitImage, B.CountTrue, Redirected, B.Pairs, Aimed, Loose, Found, SplitsInto, B.Valid;
      ghost var before := View();
      TargetFacts(before, hash, cap, key);
      var idx := Slot(hash, key, dir.globalDepth);
      var oldDepth := dir.globalDepth;
      var page := dir.bucketPageIds[idx];
      var img, splitPage := Register(idx);
      var stay, gone := Rehash(pages[page], pages[splitPage], dir.localDepths[idx], img);
      keep, moved := stay, gone;
      pages := pages[page := stay][splitPage := gone];
      Redirect(oldDepth, img);
      assert dir.View() == SplitDir(before.dir, idx, splitPage);
      assert View() == SplitIndex(before, idx, keep, splitPage, moved);
      RoundEntries(before, View(), hash, cap, key, keep, splitPage, moved);
    }

    /** Takes over from `Insert` when the target bucket is full: split until there is room. */
    method SplitInsert(key: K, value: V) returns (o: Outcome)
      requires Usable()
      modifies this`pages, this`nextPageId, dir, dir.localDepths, dir.bucketPageIds
      ensures Usable()
      ensures o.Done? ==> (key, value) in Findable()
      ensures nextPageId - old(nextPageId) == Depth(key) - old(Depth(key)) >= 0
      ensures old(Aims(key)) ==>
        && Aims(key) && (o.DirectoryFull? <==> old(Hopeless(key)))
        && SplitsAsNeeded(old(View()), View().dir, hash, cap, key)
        && (o.Done? ==> (o.success <==> (key, value) !in old(Findable())))
        && Findable() == old(Findable()) - old(Lost(key)) + (if o.Done? then {(key, value)} else {})
      ensures old(Valid()) ==>
        && old(Aims(key)) && old(Findable()) == old(Contents())
        && (Valid() <==> old(Splittable(key)))
        && (Valid() ==> Contents() == old(Contents()) + (if o.Done? then {(key, value)} else {}))
    {
      hide Low, And, Pow2, Canonical, B.CountTrue, Stored, Placed, PagesOk, B.Insert, SplitDir, BucketPairs, B.Pairs, Found,
        Looping, Inserted, Aimed, Loose, Round, DeepSplit.Lost, DeepSplit.Hopeless, DeepSplit.Splittable, WellFormed, SplitsAsNeeded;
      var inserted, success := false, false;
      ghost var start, aimed := View(), Aims(key);
      if aimed { LoopStarts(start, hash, cap, key); }
      TargetFacts(start, hash, cap, key);
      while !inserted
        invariant Usable() && Slot(hash, key, dir.globalDepth) < DIRECTORY_ARRAY_SIZE
        invariant !inserted && aimed ==> Looping(start, View(), hash, cap, key)
        invariant inserted && aimed ==> Inserted(start, View(), hash, cap, key, value, success)
        invariant inserted ==> (key, value) in Findable()
        invariant nextPageId - old(nextPageId) == Depth(key) - old(Depth(key)) >= 0
        decreases !inserted, MAX_DEPTH as int - dir.localDepths[Slot(hash, key, dir.globalDepth)]
      {
        ghost var before := View();
        var idx := Slot(hash, key, dir.globalDepth);
        TargetFacts(before, hash, cap, key);
        var page := dir.bucketPageIds[idx];
        if B.IsFull(pages[page]) {
          if dir.localDepths[idx] == dir.globalDepth && dir.globalDepth == MAX_DEPTH {
            if aimed { FullEnds(start, before, hash, cap, key); }
            if old(Valid()) { StartedValid(start, hash, cap, key); }
            return DirectoryFull;
          }
          ghost var fresh_ := nextPageId;
          ghost var keep, moved := Split(key);
          RoundDeepens(before, View(), hash, cap, key, keep, fresh_, moved);
          if aimed { LoopGoesOn(start, before, View(), hash, cap, key, keep, fresh_, moved); }
        } else {
          var b, ok := B.Insert(pages[page], key, value).0, B.Insert(pages[page], key, value).1;
          InsertIntoBucket(before, hash, cap, key, value);
          if aimed { InsertEnds(start, before, hash, cap, key, value); }
          pages := pages[page := b];
          success, inserted := ok, true;
        }
      }
      o := Done(success);
      if old(Valid()) { StartedValid(start, hash, cap, key); }
      if aimed { InsertedMeans(start, View(), hash, cap, key, value, success); }
    }

    method Insert(key: K, value: V) returns (o: Outcome)
      requires Usable()
      modifies this`pages, this`nextPageId, dir, dir.localDepths, dir.bucketPageIds
      ensures Usable()
      ensures o.Done? ==> (key, value) in Findable()
      ensures nextPageId - old(nextPageId) == Depth(key) - old(Depth(key)) >= 0
      ensures old(Aims(key)) ==>
        && Aims(key) && (o.DirectoryFull? <==> old(Hopeless(key)))
        && SplitsAsNeeded(old(View()), View().dir, hash, cap, key)
        && (o.Done? ==> (o.success <==> (key, value) !in old(Findable())))
        && Findable() == old(Findable()) - old(Lost(key)) + (if o.Done? then {(key, value)} else {})
      ensures old(Valid()) ==>
        && old(Aims(key)) && old(Findable()) == old(Contents())
        && (Valid() <==> old(Splittable(key)))
        && (Valid() ==> Contents() == old(Contents()) + (if o.Done? then {(key, value)} else {}))
    {
      hide Low, And, Pow2, Canonical, B.CountTrue, Stored, Placed, PagesOk, B.Insert, BucketPairs, B.Pairs, Found,
        Looping, Inserted, Aimed, Loose, DeepSplit.Lost, DeepSplit.Hopeless, DeepSplit.Splittable, WellFormed, SplitsAsNeeded;
      ghost var before := View();
      var idx := Slot(hash, key, dir.globalDepth);
      TargetFacts(before, hash, cap, key);
      var page := dir.bucketPageIds[idx];
      if B.IsFull(pages[page]) {
        o := SplitInsert(key, value);
      } else {
        var r := B.Insert(pages[page], key, value);
        InsertIntoBucket(before, hash, cap, key, value);
        if Aims(key) {
          LoopStarts(before, hash, cap, key);
          InsertEnds(before, before, hash, cap, key, value);
        }
        pages := pages[page := r.0];
        o := Done(r.1);
        if old(Valid()) { StartedValid(before, hash, cap, key); }
        if old(Aims(key)) { InsertedMeans(before, View(), hash, cap, key, value, r.1); }
      }
    }

    /** The table with the pair taken out of its bucket, before any sweep. */
    ghost function Reduced(key: K, value: V): Index<K, V>
      reads this, dir, dir.localDepths, dir.bucketPageIds
      requires Usable()
    {
      TargetFacts(View(), hash, cap, key);
      var page := dir.bucketPageIds[Slot(hash, key, dir.globalDepth)];
      Index(dir.View(), pages[page := B.Remove(pages[page], key, value).0])
    }

    /** On a table that is no longer canonical the sweep that follows the emptying of a bucket may
        change what lookups find. On a valid one the sweep takes the emptied bucket's page out of use
        if the other half of its class is as deep. */
    method Remove(key: K, value: V) returns (success: bool)
      requires Usable()
      modifies this`pages, dir, dir.localDepths, dir.bucketPageIds
      ensures Usable()
      ensures success <==> (key, value) in old(Findable())
      ensures !success || old(Bucketful(key)) != {(key, value)} ==>
        View().dir == old(View().dir) && Findable() == old(Findable()) - {(key, value)}
      ensures old(Valid()) ==> Valid() && old(Findable()) == old(Contents()) && Contents() == old(Contents()) - {(key, value)}
      ensures old(Valid()) && success && old(Bucketful(key)) == {(key, value)} ==>
        && Swept(old(Reduced(key, value)), View().dir, hash, cap)
        && (old(HasTwin(View().dir, Slot(hash, key, dir.globalDepth))) ==> LivePages(View().dir) < old(LivePages(View().dir)))
    {
      hide Low, And, Pow2, Canonical, B.CountTrue, Stored, Placed, PagesOk, B.Remove, BucketPairs, B.Pairs, Found, Loose, WellFormed,
        Swept, LivePages, HasTwin, Foldable;
      ghost var before := View();
      var idx := Slot(hash, key, dir.globalDepth);
      TargetFacts(before, hash, cap, key);
      var page := dir.bucketPageIds[idx];
      var r := B.Remove(pages[page], key, value);
      RemoveFromBucket(before, hash, cap, key, value);
      if Valid() {
        ValidIsUsable();
        RemoveFromTarget(before, hash, cap, key, value);
      }
      pages := pages[page := r.0];
      success := r.1;
      if success && B.IsEmpty(r.0) {
        ghost var emptied := View();
        if Valid() && HasTwin(before.dir, idx) { EmptiedIsFoldable(emptied, hash, cap, idx); }
        Merge();
      }
    }

    /** Sweeps the directory, folding every empty bucket into a split image of equal depth; the
        sweep's bound shrinks whenever the directory does. */
    method Merge()
      requires Usable()
      modifies dir, dir.localDepths, dir.bucketPageIds
      ensures Usable()
      ensures old(Valid()) ==>
        && Valid() && Contents() == old(Contents())
        && Swept(old(View()), View().dir, hash, cap)
        && (old(exists i: nat {:trigger Foldable(View(), cap, i)} :: Foldable(View(), cap, i)) ==> LivePages(View().dir) < old(LivePages(View().dir)))
    {
      hide Low, And, Pow2, Canonical, SplitImage, B.CountTrue, Stored, Placed, BucketPairs, B.Pairs, WellFormed, MergeDir,
        Turn, Turns, Swept, Foldable, LivePages, PagesOk;
      ghost var start := View();
      ghost var trace := [start.dir];
      if Valid() { SweepBegins(start, hash, cap); }
      var i := 0;
      while i < Pow2(dir.globalDepth)
        invariant Usable() && (old(Valid()) ==> Valid() && Contents() == old(Contents()))
        invariant |trace| == i + 1 && trace[i] == dir.View()
        invariant old(Valid()) ==> Turns(trace, start, hash, cap, i)
        decreases Pow2(dir.globalDepth) - i
      {
        MergeAt(i);
        if old(Valid()) { OneMoreTurn(trace, start, hash, cap, i, dir.View()); }
        i := i + 1;
        trace := trace + [dir.View()];
      }
      if old(Valid()) { SweepIsOver(trace, start, hash, cap, i); }
    }

    /** One turn of the sweep. */
    method MergeAt(i: nat)
      requires Usable() && i < Pow2(dir.globalDepth)
      modifies dir, dir.localDepths, dir.bucketPageIds
      ensures Usable() && Pow2(dir.globalDepth) <= old(Pow2(dir.globalDepth))
      ensures old(Valid()) ==>
        && Valid() && Contents() == old(Contents()) && i < old(Size(View().dir))
        && PagesOk(old(View()), cap) && Turn(old(View()), View().dir, cap, i)
    {
      hide Low, And, Pow2, Canonical, SplitImage, B.CountTrue, Stored, Placed, B.Pairs, MergeDir, FoldsIfTwin, Halves;
      ghost var before := View();
      assert i < Size(before.dir);
      var oldLocalDepth := dir.localDepths[i];
      EmptyBucket(before, cap, i);
      if oldLocalDepth > 1 && B.IsEmpty(pages[dir.bucketPageIds[i]]) {
        var img := SplitImage(i, oldLocalDepth);
        SplitImageFlipsTopBit(i, oldLocalDepth);
        PowMono(oldLocalDepth, dir.globalDepth);
        if dir.localDepths[img] == oldLocalDepth {
          FoldInto(i, img);
          MergeKeepsLoose(before, cap, i);
          if WellFormed(before, hash, cap) { MergeKeepsStore(before, hash, cap, i); }
        }
        if WellFormed(before, hash, cap) { MergeFolds(before.dir, i); }
        Shrink();
      }
    }

    /** Halves the directory when no entry needs the top bit. */
    method Shrink()
      requires Usable()
      modifies dir, dir.localDepths, dir.bucketPageIds
      ensures Usable() && Pow2(dir.globalDepth) <= old(Pow2(dir.globalDepth))
      ensures Halves(old(View().dir), View().dir)
      ensures old(Valid()) ==> Valid() && Contents() == old(Contents())
    {
      hide Low, And, Pow2, Canonical, Loose, WellFormed, Stored;
      ghost var before := View();
      var shrink := dir.CanShrink();
      if shrink {
        ShrinkKeepsLoose(before, cap);
        PowMono(dir.globalDepth - 1, dir.globalDepth);
        if WellFormed(before, hash, cap) { ShrinkKeepsStore(before, hash, cap); }
        dir.DecrGlobalDepth();
      }
    }

    /** Redirects every entry on the two pages of the pair to the image's page, one level up. */
    method FoldInto(i: nat, img: nat)
      requires dir.Ok() && i < Size(dir.View()) && Mergeable(dir.View(), i)
      requires img == SplitImage(i, dir.localDepths[i])
      modifies dir.localDepths, dir.bucketPageIds
      ensures dir.Ok() && dir.View() == MergeDir(old(dir.View()), i)
    {
      hide Low, And, Pow2, Canonical, SplitImage, Folded;
      ghost var d := dir.View();
      SplitImageFlipsTopBit(i, dir.localDepths[i]);
      PowMono(dir.localDepths[i], dir.globalDepth);
      FoldedNone(d, i);
      var page := dir.bucketPageIds[i];
      dir.SetLocalDepth(i, dir.localDepths[i] - 1);
      dir.SetLocalDepth(img, dir.localDepths[img] - 1);
      dir.SetBucketPageId(i, dir.bucketPageIds[img]);
      var newPage := dir.bucketPageIds[i];
      var j := 0;
      while j < Pow2(dir.globalDepth)
        invariant j <= Size(d)
        invariant dir.View() == Folded(d, i, j)
      {
        FoldedOne(d, i, j);
        if j != i && j != img {
          var current := dir.bucketPageIds[j];
          if current == page || current == newPage {
            dir.SetLocalDepth(j, dir.localDepths[i]);
            dir.SetBucketPageId(j, newPage);
          }
        }
        j := j + 1;
      }
    }
  }
}
