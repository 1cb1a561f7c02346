/** The extendible hash index as a value: a directory over a store of bucket pages, the plain
    set of pairs it stands for, and what splitting, merging and shrinking do to that set. */
module HashStore {
  import opened Bits
  import opened Common
  import opened Directory
  import B = Bucket

  datatype Index<K, V> = Index(dir: Dir, pages: map<PageId, B.Page<K, V>>)

  /** `KeyToDirectoryIndex`: the hash masked to the global depth. */
  function Slot<K>(hash: K -> nat, key: K, gd: nat): (i: nat)
    ensures i == Low(hash(key), gd)
  {
    AndMask(hash(key), gd);
    And(hash(key), Pow2(gd) - 1)
  }

  ghost predicate PagesOk<K, V>(t: Index<K, V>, cap: nat) {
    && Canonical(t.dir)
    && forall i :: 0 <= i < Size(t.dir) ==> t.dir.pg[i] in t.pages && B.Valid(t.pages[t.dir.pg[i]], cap)
  }

  ghost function BucketPairs<K, V>(t: Index<K, V>, i: nat, cap: nat): set<(K, V)>
    requires PagesOk(t, cap) && i < Size(t.dir)
  {
    B.Pairs(t.pages[t.dir.pg[i]])
  }

  /** Every pair lies in a bucket whose index agrees with the pair's hash on the local depth. */
  ghost predicate Placed<K, V>(t: Index<K, V>, hash: K -> nat, cap: nat)
    requires PagesOk(t, cap)
  {
    forall i, p :: 0 <= i < Size(t.dir) && p in BucketPairs(t, i, cap) ==> Same(hash(p.0), i, t.dir.ld[i])
  }

  ghost predicate WellFormed<K, V>(t: Index<K, V>, hash: K -> nat, cap: nat) {
    PagesOk(t, cap) && Placed(t, hash, cap)
  }

  /** The set of pairs the index stands for. */
  ghost function Stored<K, V>(t: Index<K, V>, cap: nat): set<(K, V)>
    requires PagesOk(t, cap)
  {
    set i, p | 0 <= i < Size(t.dir) && p in BucketPairs(t, i, cap) :: p
  }

  lemma SharePage(d: Dir, i: nat, j: nat)
    requires Canonical(d) && i < Size(d) && j < Size(d)
    ensures 1 <= d.ld[i] <= d.gd
    ensures d.pg[i] == d.pg[j] <==> Same(i, j, d.ld[i])
    ensures d.pg[i] == d.pg[j] ==> d.ld[i] == d.ld[j]
  {
  }

  /** Two indices that both agree with one hash, each to its own depth, share a page. */
  lemma SameClassSamePage(d: Dir, i: nat, j: nat, h: nat)
    requires Canonical(d) && i < Size(d) && j < Size(d)
    requires Same(h, i, d.ld[i]) && Same(h, j, d.ld[j])
    ensures d.pg[i] == d.pg[j]
  {
    hide Low, Pow2, Canonical;
    SharePage(d, i, j);
    SharePage(d, j, i);
    if d.ld[i] <= d.ld[j] { SameWeaken(h, j, d.ld[i], d.ld[j]); } else { SameWeaken(h, i, d.ld[j], d.ld[i]); }
  }

  /** A bucket holds exactly the stored pairs whose hash agrees with its index. */
  lemma BucketHoldsItsClass<K, V>(t: Index<K, V>, hash: K -> nat, cap: nat, i: nat)
    requires WellFormed(t, hash, cap) && i < Size(t.dir)
    ensures forall p :: p in BucketPairs(t, i, cap) <==> p in Stored(t, cap) && Same(hash(p.0), i, t.dir.ld[i])
  {
    hide Low, Pow2, Canonical;
    SharePage(t.dir, i, i);
    forall p | p in Stored(t, cap) && Same(hash(p.0), i, t.dir.ld[i])
      ensures p in BucketPairs(t, i, cap)
    {
      var j :| 0 <= j < Size(t.dir) && p in BucketPairs(t, j, cap);
      SameClassSamePage(t.dir, i, j, hash(p.0));
    }
  }

  /** Every stored pair is reachable by its hash, and nothing else is found there. */
  lemma ReachableByHash<K, V>(t: Index<K, V>, hash: K -> nat, cap: nat, key: K)
    requires WellFormed(t, hash, cap)
    ensures Slot(hash, key, t.dir.gd) < Size(t.dir)
    ensures forall v :: (key, v) in Stored(t, cap) <==> (key, v) in BucketPairs(t, Slot(hash, key, t.dir.gd), cap)
  {
    hide Low, Pow2, And;
    var i := Slot(hash, key, t.dir.gd);
    BucketHoldsItsClass(t, hash, cap, i);
    SharePage(t.dir, i, i);
    LowLow(hash(key), t.dir.ld[i], t.dir.gd);
  }

  /** Replacing the contents of one bucket by another set of pairs of the same class. */
  lemma ReplaceBucket<K, V>(t: Index<K, V>, hash: K -> nat, cap: nat, i: nat, b: B.Page<K, V>)
    requires WellFormed(t, hash, cap) && i < Size(t.dir) && B.Valid(b, cap)
    requires forall p :: p in B.Pairs(b) ==> Same(hash(p.0), i, t.dir.ld[i])
    ensures var r := Index(t.dir, t.pages[t.dir.pg[i] := b]);
            WellFormed(r, hash, cap) && Stored(r, cap) == (Stored(t, cap) - BucketPairs(t, i, cap)) + B.Pairs(b)
  {
    hide Low, Pow2, Canonical;
    var r := Index(t.dir, t.pages[t.dir.pg[i] := b]);
    forall j, p | 0 <= j < Size(r.dir) && p in BucketPairs(r, j, cap)
      ensures Same(hash(p.0), j, r.dir.ld[j])
    {
      SharePage(t.dir, i, j);
      if t.dir.pg[j] != t.dir.pg[i] { assert p in BucketPairs(t, j, cap); }
    }
    forall p
      ensures p in Stored(r, cap) <==> p in (Stored(t, cap) - BucketPairs(t, i, cap)) + B.Pairs(b)
    {
      BucketHoldsItsClass(t, hash, cap, i);
      if p in B.Pairs(b) {
        assert p in BucketPairs(r, i, cap);
      } else if p in Stored(t, cap) && p !in BucketPairs(t, i, cap) {
        var j :| 0 <= j < Size(t.dir) && p in BucketPairs(t, j, cap);
        assert p in BucketPairs(r, j, cap);
      } else if p in Stored(r, cap) {
        var j :| 0 <= j < Size(r.dir) && p in BucketPairs(r, j, cap);
        assert p in BucketPairs(t, j, cap);
        SameClassSamePage(t.dir, i, j, hash(p.0));
      }
    }
  }

  // ---------------------------------------------------------------- split

  /** `keep` and `moved` share out the pairs of `b` by whether the low l bits of the hash are `img`. */
  ghost predicate SplitsInto<K, V>(b: B.Page<K, V>, keep: B.Page<K, V>, moved: B.Page<K, V>, hash: K -> nat, cap: nat, l: nat, img: nat) {
    && B.Valid(b, cap) && B.Valid(keep, cap) && B.Valid(moved, cap)
    && B.Pairs(keep) == (set p | p in B.Pairs(b) && Low(hash(p.0), l) != img)
    && B.Pairs(moved) == (set p | p in B.Pairs(b) && Low(hash(p.0), l) == img)
  }

  ghost function SplitIndex<K, V>(t: Index<K, V>, idx: nat, keep: B.Page<K, V>, fresh_: PageId, moved: B.Page<K, V>): Index<K, V>
    requires Shaped(t.dir) && idx < Size(t.dir) && t.dir.ld[idx] < MAX_DEPTH
  {
    Index(SplitDir(t.dir, idx, fresh_), t.pages[t.dir.pg[idx] := keep][fresh_ := moved])
  }

  /** One round of the split loop keeps the index well formed and its set of pairs unchanged. */
  lemma SplitKeepsStore<K, V>(t: Index<K, V>, hash: K -> nat, cap: nat, idx: nat, keep: B.Page<K, V>, fresh_: PageId, moved: B.Page<K, V>)
    requires WellFormed(t, hash, cap) && idx < Size(t.dir)
    requires t.dir.ld[idx] < MAX_DEPTH && t.dir.ld[idx] >= t.dir.gd - 1 && fresh_ !in t.pages
    requires SplitsInto(t.pages[t.dir.pg[idx]], keep, moved, hash, cap, t.dir.ld[idx] + 1, SplitImage(idx, t.dir.ld[idx] + 1))
    ensures var r := SplitIndex(t, idx, keep, fresh_, moved);
            WellFormed(r, hash, cap) && Stored(r, cap) == Stored(t, cap)
  {
    hide Low, Pow2, Canonical, SplitDir, SplitImage;
    var r := SplitIndex(t, idx, keep, fresh_, moved);
    var l := t.dir.ld[idx];
    var img := SplitImage(idx, l + 1);
    SplitKeepsCanonical(t.dir, idx, fresh_);
    SharePage(t.dir, idx, idx);
    SplitEntries(t.dir, idx, fresh_);
    SplitImageFlipsTopBit(idx, l + 1);
    LowSmall(img, l + 1);
    SplitPagesOk(t, hash, cap, idx, keep, fresh_, moved);
    forall i, p | 0 <= i < Size(r.dir) && p in BucketPairs(r, i, cap)
      ensures Same(hash(p.0), i, r.dir.ld[i]) && p in Stored(t, cap)
    {
      SplitPlacesPair(t, hash, cap, idx, keep, fresh_, moved, i, p);
    }
    forall p | p in Stored(t, cap)
      ensures p in Stored(r, cap)
    {
      var o :| 0 <= o < Size(t.dir) && p in BucketPairs(t, o, cap);
      SplitFindsPair(t, hash, cap, idx, keep, fresh_, moved, o, p);
    }
  }

  lemma SplitPagesOk<K, V>(t: Index<K, V>, hash: K -> nat, cap: nat, idx: nat, keep: B.Page<K, V>, fresh_: PageId, moved: B.Page<K, V>)
    requires WellFormed(t, hash, cap) && idx < Size(t.dir)
    requires t.dir.ld[idx] < MAX_DEPTH && t.dir.ld[idx] >= t.dir.gd - 1 && fresh_ !in t.pages
    requires SplitsInto(t.pages[t.dir.pg[idx]], keep, moved, hash, cap, t.dir.ld[idx] + 1, SplitImage(idx, t.dir.ld[idx] + 1))
    ensures PagesOk(SplitIndex(t, idx, keep, fresh_, moved), cap)
  {
    hide Low, Pow2, Canonical, SplitDir, SplitImage;
    SplitKeepsCanonical(t.dir, idx, fresh_);
    SharePage(t.dir, idx, idx);
    SplitEntries(t.dir, idx, fresh_);
  }

  lemma SplitPlacesPair<K, V>(t: Index<K, V>, hash: K -> nat, cap: nat, idx: nat, keep: B.Page<K, V>, fresh_: PageId, moved: B.Page<K, V>, i: nat, p: (K, V))
    requires WellFormed(t, hash, cap) && idx < Size(t.dir)
    requires t.dir.ld[idx] < MAX_DEPTH && t.dir.ld[idx] >= t.dir.gd - 1 && fresh_ !in t.pages
    requires SplitsInto(t.pages[t.dir.pg[idx]], keep, moved, hash, cap, t.dir.ld[idx] + 1, SplitImage(idx, t.dir.ld[idx] + 1))
    requires PagesOk(SplitIndex(t, idx, keep, fresh_, moved), cap)
    requires var r := SplitIndex(t, idx, keep, fresh_, moved); i < Size(r.dir) && p in BucketPairs(r, i, cap)
    ensures Same(hash(p.0), i, SplitIndex(t, idx, keep, fresh_, moved).dir.ld[i]) && p in Stored(t, cap)
  {
    hide Low, Pow2, Canonical, SplitDir, SplitImage;
    var r := SplitIndex(t, idx, keep, fresh_, moved);
    var l := t.dir.ld[idx];
    var img := SplitImage(idx, l + 1);
    SharePage(t.dir, idx, idx);
    SplitEntries(t.dir, idx, fresh_);
    SplitImageFlipsTopBit(idx, l + 1);
    LowSmall(img, l + 1);
    if i == idx || i == img {
      assert p in BucketPairs(t, idx, cap);
      assert Same(hash(p.0), idx, l);
    } else {
      var o := Low(i, t.dir.gd);
      assert p in BucketPairs(t, o, cap);
      SharePage(t.dir, o, o);
      LowLow(i, t.dir.ld[o], t.dir.gd);
    }
  }

  lemma SplitFindsPair<K, V>(t: Index<K, V>, hash: K -> nat, cap: nat, idx: nat, keep: B.Page<K, V>, fresh_: PageId, moved: B.Page<K, V>, o: nat, p: (K, V))
    requires WellFormed(t, hash, cap) && idx < Size(t.dir)
    requires t.dir.ld[idx] < MAX_DEPTH && t.dir.ld[idx] >= t.dir.gd - 1 && fresh_ !in t.pages
    requires SplitsInto(t.pages[t.dir.pg[idx]], keep, moved, hash, cap, t.dir.ld[idx] + 1, SplitImage(idx, t.dir.ld[idx] + 1))
    requires PagesOk(SplitIndex(t, idx, keep, fresh_, moved), cap)
    requires o < Size(t.dir) && p in BucketPairs(t, o, cap)
    ensures p in Stored(SplitIndex(t, idx, keep, fresh_, moved), cap)
  {
    hide Low, Pow2, Canonical, SplitDir, SplitImage;
    var r := SplitIndex(t, idx, keep, fresh_, moved);
    var l := t.dir.ld[idx];
    var img := SplitImage(idx, l + 1);
    SharePage(t.dir, idx, idx);
    SplitEntries(t.dir, idx, fresh_);
    if t.dir.pg[o] == t.dir.pg[idx] {
      if Low(hash(p.0), l + 1) == img {
        assert p in BucketPairs(r, img, cap);
      } else {
        assert p in BucketPairs(r, idx, cap);
      }
    } else {
      PowMono(t.dir.gd, r.dir.gd);
      LowSmall(o, t.dir.gd);
      if o == img { SharePage(t.dir, idx, o); SplitImageFlipsTopBit(idx, l + 1); }
      assert p in BucketPairs(r, o, cap);
    }
  }

  // ---------------------------------------------------------------- merge and shrink

  /** Merging an empty bucket into its image, whatever the depths of the other buckets. */
  lemma MergeKeepsStore<K, V>(t: Index<K, V>, hash: K -> nat, cap: nat, i: nat)
    requires WellFormed(t, hash, cap) && i < Size(t.dir) && Mergeable(t.dir, i)
    requires BucketPairs(t, i, cap) == {}
    ensures var r := Index(MergeDir(t.dir, i), t.pages);
            WellFormed(r, hash, cap) && Stored(r, cap) == Stored(t, cap)
  {
    hide Low, Pow2, Canonical, SplitImage;
    var r := Index(MergeDir(t.dir, i), t.pages);
    MergeKeepsCanonical(t.dir, i);
    var img := SplitImage(i, t.dir.ld[i]);
    MergeEntries(t.dir, i, i);
    forall j | 0 <= j < Size(r.dir)
      ensures r.dir.pg[j] in r.pages && B.Valid(r.pages[r.dir.pg[j]], cap)
    {
    }
    forall j, p | 0 <= j < Size(r.dir) && p in BucketPairs(r, j, cap)
      ensures Same(hash(p.0), j, r.dir.ld[j]) && p in Stored(t, cap)
    {
      MergeEntries(t.dir, i, j);
      MergeEntries(t.dir, i, img);
      if t.dir.pg[j] == t.dir.pg[i] || t.dir.pg[j] == t.dir.pg[img] {
        assert p in BucketPairs(t, img, cap);
        SameWeaken(hash(p.0), img, t.dir.ld[i] - 1, t.dir.ld[i]);
      } else {
        assert p in BucketPairs(t, j, cap);
      }
    }
    forall p | p in Stored(t, cap)
      ensures p in Stored(r, cap)
    {
      var o :| 0 <= o < Size(t.dir) && p in BucketPairs(t, o, cap);
      assert p in BucketPairs(r, o, cap);
    }
  }

  lemma ShrinkKeepsStore<K, V>(t: Index<K, V>, hash: K -> nat, cap: nat)
    requires WellFormed(t, hash, cap) && CanShrink(t.dir)
    ensures t.dir.gd >= 2
    ensures var r := t.(dir := t.dir.(gd := t.dir.gd - 1));
            WellFormed(r, hash, cap) && Stored(r, cap) == Stored(t, cap)
  {
    hide Low, Pow2, Canonical;
    ShrinkKeepsCanonical(t.dir);
    var r := t.(dir := t.dir.(gd := t.dir.gd - 1));
    PowMono(r.dir.gd, t.dir.gd);
    forall i, p | 0 <= i < Size(r.dir) && p in BucketPairs(r, i, cap)
      ensures p in BucketPairs(t, i, cap)
    {
    }
    forall p | p in Stored(t, cap)
      ensures p in Stored(r, cap)
    {
      var o :| 0 <= o < Size(t.dir) && p in BucketPairs(t, o, cap);
      UpperHalfRepeats(t.dir, o);
      assert p in BucketPairs(r, Low(o, r.dir.gd), cap);
    }
  }
}
