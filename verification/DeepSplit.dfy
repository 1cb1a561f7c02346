/** Splits of a bucket whose local depth lies two or more levels below the global depth: what
    the lookups still find when the directory is no longer canonical. */
module DeepSplit {
  import opened Bits
  import opened Common
  import opened Directory
  import opened HashStore
  import B = Bucket

  /** Every live entry names a valid bucket, at a depth up to the global one; which entries share a
      bucket is left open. */
  ghost predicate Loose<K, V>(t: Index<K, V>, cap: nat)
    ensures Loose(t, cap) ==> Shaped(t.dir)
  {
    && Shaped(t.dir)
    && forall i :: 0 <= i < Size(t.dir) ==>
         1 <= t.dir.ld[i] <= t.dir.gd && t.dir.pg[i] in t.pages && B.Valid(t.pages[t.dir.pg[i]], cap)
  }

  /** The bucket a lookup of the key goes to. */
  ghost function Bucket<K, V>(t: Index<K, V>, hash: K -> nat, cap: nat, key: K): (b: B.Page<K, V>)
    requires Loose(t, cap)
    ensures B.Valid(b, cap)
  {
    var i := Slot(hash, key, t.dir.gd);
    assert i < Size(t.dir);
    t.pages[t.dir.pg[i]]
  }

  /** A lookup of the pair's key comes upon the pair. */
  ghost predicate Finds<K, V>(t: Index<K, V>, hash: K -> nat, cap: nat, p: (K, V))
    requires Loose(t, cap)
  {
    p in B.Pairs(Bucket(t, hash, cap, p.0))
  }

  /** The pairs the lookups find. */
  ghost function Found<K, V>(t: Index<K, V>, hash: K -> nat, cap: nat): set<(K, V)>
    requires Loose(t, cap)
  {
    set i, p | 0 <= i < Size(t.dir) && p in B.Pairs(t.pages[t.dir.pg[i]]) && Finds(t, hash, cap, p) :: p
  }

  lemma FoundIsFinds<K, V>(t: Index<K, V>, hash: K -> nat, cap: nat)
    requires Loose(t, cap)
    ensures forall p :: p in Found(t, hash, cap) <==> Finds(t, hash, cap, p)
  {
    hide Low, Pow2, And, B.Pairs;
    forall p | Finds(t, hash, cap, p) ensures p in Found(t, hash, cap) {
      assert 0 <= Slot(hash, p.0, t.dir.gd) < Size(t.dir);
    }
  }

  /** In a well-formed index the lookups find the stored pairs. */
  lemma WellFormedFinds<K, V>(t: Index<K, V>, hash: K -> nat, cap: nat)
    requires WellFormed(t, hash, cap)
    ensures Loose(t, cap) && Found(t, hash, cap) == Stored(t, cap)
  {
    hide Low, Pow2, And, Canonical;
    forall i: nat | i < Size(t.dir) ensures 1 <= t.dir.ld[i] <= t.dir.gd { SharePage(t.dir, i, i); }
    FoundIsFinds(t, hash, cap);
    forall p ensures p in Found(t, hash, cap) <==> p in Stored(t, cap) {
      ReachableByHash(t, hash, cap, p.0);
      assert p == (p.0, p.1);
    }
  }

  /** The key's entry holds pairs of its own class only, and every entry of that class is on
      its page; nothing is said about the others. */
  ghost predicate Aimed<K, V>(t: Index<K, V>, hash: K -> nat, cap: nat, key: K) {
    && Loose(t, cap)
    && var i := Slot(hash, key, t.dir.gd);
    && i < Size(t.dir)
    && (forall p :: p in B.Pairs(Bucket(t, hash, cap, key)) ==> Same(hash(p.0), hash(key), t.dir.ld[i]))
    && (forall j :: 0 <= j < Size(t.dir) && Same(j, hash(key), t.dir.ld[i]) ==> t.dir.pg[j] == t.dir.pg[i])
  }

  lemma WellFormedIsAimed<K, V>(t: Index<K, V>, hash: K -> nat, cap: nat, key: K)
    requires WellFormed(t, hash, cap)
    ensures Aimed(t, hash, cap, key)
  {
    hide Low, Pow2, And, Canonical;
    WellFormedFinds(t, hash, cap);
    var i := Slot(hash, key, t.dir.gd);
    BucketHoldsItsClass(t, hash, cap, i);
    SharePage(t.dir, i, i);
    LowLow(hash(key), t.dir.ld[i], t.dir.gd);
    forall j | 0 <= j < Size(t.dir) && Same(j, hash(key), t.dir.ld[i])
      ensures t.dir.pg[j] == t.dir.pg[i]
    {
      SharePage(t.dir, i, j);
    }
  }

  // ---------------------------------------------------------------- one round

  /** What one round of the split loop starts from and does. */
  ghost predicate Round<K, V>(t: Index<K, V>, r: Index<K, V>, hash: K -> nat, cap: nat, key: K, keep: B.Page<K, V>, fresh_: PageId, moved: B.Page<K, V>) {
    && Loose(t, cap) && fresh_ !in t.pages
    && var i := Slot(hash, key, t.dir.gd);
    && i < Size(t.dir)
    && var l := t.dir.ld[i] + 1;
    && l <= MAX_DEPTH
    && SplitsInto(Bucket(t, hash, cap, key), keep, moved, hash, cap, l, SplitImage(i, l))
    && r == SplitIndex(t, i, keep, fresh_, moved)
  }

  /** What a round leaves at one entry. */
  ghost predicate EntryAfter<K, V>(t: Index<K, V>, r: Index<K, V>, cap: nat, i: nat, img: nat, keep: B.Page<K, V>, j: nat)
    requires Shaped(t.dir) && Shaped(r.dir) && i < Size(t.dir) && j < Size(r.dir)
  {
    var o := Low(j, t.dir.gd);
    && 1 <= r.dir.ld[j] <= r.dir.gd && r.dir.pg[j] in r.pages && B.Valid(r.pages[r.dir.pg[j]], cap)
    && (j != img ==>
          && o < Size(t.dir) && r.dir.pg[j] == t.dir.pg[o] && r.dir.pg[j] in t.pages && (j != i ==> r.dir.ld[j] == t.dir.ld[o])
          && r.pages[r.dir.pg[j]] == if r.dir.pg[j] == t.dir.pg[i] then keep else t.pages[r.dir.pg[j]])
  }

  lemma RoundEntry<K, V>(t: Index<K, V>, r: Index<K, V>, hash: K -> nat, cap: nat, key: K, keep: B.Page<K, V>, fresh_: PageId, moved: B.Page<K, V>, j: nat)
    requires Round(t, r, hash, cap, key, keep, fresh_, moved) && j < Size(r.dir)
    ensures var i := Slot(hash, key, t.dir.gd);
            i < Size(t.dir) && EntryAfter(t, r, cap, i, SplitImage(i, t.dir.ld[i] + 1), keep, j)
  {
    hide Low, Pow2, And, SplitImage, SplitDir, B.Pairs, B.Valid;
    var i := Slot(hash, key, t.dir.gd);
    SplitEntries(t.dir, i, fresh_);
    LowSmall(i, t.dir.gd);
    assert Low(j, t.dir.gd) < Size(t.dir);
  }

  /** Entry by entry: where the lookups go after a round. */
  lemma RoundEntries<K, V>(t: Index<K, V>, r: Index<K, V>, hash: K -> nat, cap: nat, key: K, keep: B.Page<K, V>, fresh_: PageId, moved: B.Page<K, V>)
    requires Round(t, r, hash, cap, key, keep, fresh_, moved)
    ensures var i := Slot(hash, key, t.dir.gd); var l := t.dir.ld[i] + 1; var img := SplitImage(i, l);
            && Loose(r, cap) && r.dir.gd == (if l < t.dir.gd then t.dir.gd else l)
            && img < Size(r.dir) && r.dir.pg[img] == fresh_ && r.dir.ld[img] == l && r.pages[fresh_] == moved
            && i != img && i < Size(r.dir) && r.dir.ld[i] == l
            && (forall j {:trigger r.dir.pg[j]} :: 0 <= j < Size(r.dir) && j != img ==>
                 && r.dir.pg[j] == t.dir.pg[Low(j, t.dir.gd)]
                 && (j != i ==> r.dir.ld[j] == t.dir.ld[Low(j, t.dir.gd)])
                 && r.pages[r.dir.pg[j]] == if r.dir.pg[j] == t.dir.pg[i] then keep else t.pages[r.dir.pg[j]])
  {
    hide Low, Pow2, And, SplitImage, SplitDir, B.Pairs, B.Valid;
    var i := Slot(hash, key, t.dir.gd);
    var img := SplitImage(i, t.dir.ld[i] + 1);
    SplitEntries(t.dir, i, fresh_);
    assert r.dir == SplitDir(t.dir, i, fresh_) && r.pages[fresh_] == moved;
    forall j | 0 <= j < Size(r.dir)
      ensures 1 <= r.dir.ld[j] <= r.dir.gd && r.dir.pg[j] in r.pages && B.Valid(r.pages[r.dir.pg[j]], cap)
      ensures j != img ==>
                && Low(j, t.dir.gd) < Size(t.dir) && r.dir.pg[j] == t.dir.pg[Low(j, t.dir.gd)] && r.dir.pg[j] in t.pages
                && (j != i ==> r.dir.ld[j] == t.dir.ld[Low(j, t.dir.gd)])
                && r.pages[r.dir.pg[j]] == if r.dir.pg[j] == t.dir.pg[i] then keep else t.pages[r.dir.pg[j]]
    {
      RoundEntry(t, r, hash, cap, key, keep, fresh_, moved, j);
    }
    hide SplitIndex;
  }

  /** A pair dealt to the image shares the low bits of the target but for the top one. */
  lemma DealtToImage(i: nat, l: nat, h: nat)
    requires l >= 1
    ensures Low(h, l) == SplitImage(i, l) <==> Same(h, i, l - 1) && !Same(h, i, l)
  {
    hide Low, Pow2, SplitImage;
    SplitImageFlipsTopBit(i, l);
    LowSmall(SplitImage(i, l), l);
    LowLow(h, l - 1, l);
    LowLow(SplitImage(i, l), l - 1, l);
  }

  /** The exact effect of a round, on any table, on what the lookups find: those that go to the image
      find what was dealt there, those that still go to the target what stayed, and the others what
      they found before. */
  lemma RoundFinds<K, V>(t: Index<K, V>, r: Index<K, V>, hash: K -> nat, cap: nat, key: K, keep: B.Page<K, V>, fresh_: PageId, moved: B.Page<K, V>, p: (K, V))
    requires Round(t, r, hash, cap, key, keep, fresh_, moved)
    ensures Loose(r, cap)
    ensures var i := Slot(hash, key, t.dir.gd); var l := t.dir.ld[i] + 1; var img := SplitImage(i, l);
            var o := Low(hash(p.0), t.dir.gd); var b := B.Pairs(Bucket(t, hash, cap, key));
            && o < Size(t.dir)
            && (Finds(r, hash, cap, p) <==>
                  if Low(hash(p.0), r.dir.gd) == img then p in b
                  else if t.dir.pg[o] == t.dir.pg[i] then p in b && Low(hash(p.0), l) != img
                  else Finds(t, hash, cap, p))
  {
    hide Low, Pow2, And, SplitImage, SplitDir, B.Pairs, SplitIndex;
    RoundEntries(t, r, hash, cap, key, keep, fresh_, moved);
    var i := Slot(hash, key, t.dir.gd);
    var h, l := hash(p.0), t.dir.ld[i] + 1;
    var img := SplitImage(i, l);
    var o, s := Slot(hash, p.0, t.dir.gd), Slot(hash, p.0, r.dir.gd);
    LowLow(h, t.dir.gd, r.dir.gd);
    LowLow(h, l, r.dir.gd);
    SplitImageFlipsTopBit(i, l);
    LowSmall(img, l);
    if s != img {
      assert r.dir.pg[s] == t.dir.pg[o];
    }
  }

  /** Where the round was aimed, only this is lost: of the pairs dealt to the fresh page, those whose
      own entry is not the image. */
  lemma RoundLoses<K, V>(t: Index<K, V>, r: Index<K, V>, hash: K -> nat, cap: nat, key: K, keep: B.Page<K, V>, fresh_: PageId, moved: B.Page<K, V>, p: (K, V))
    requires Round(t, r, hash, cap, key, keep, fresh_, moved) && Aimed(t, hash, cap, key)
    ensures Loose(r, cap)
    ensures var l := t.dir.ld[Slot(hash, key, t.dir.gd)] + 1;
            Finds(r, hash, cap, p) <==>
            && Finds(t, hash, cap, p)
            && !(p in B.Pairs(Bucket(t, hash, cap, key)) && !Same(hash(p.0), hash(key), l) && Low(hash(p.0), r.dir.gd) != Low(hash(p.0), l))
  {
    hide Low, Pow2, And, SplitImage, SplitDir, B.Pairs, SplitIndex, SplitsInto;
    RoundEntries(t, r, hash, cap, key, keep, fresh_, moved);
    RoundFinds(t, r, hash, cap, key, keep, fresh_, moved, p);
    var i := Slot(hash, key, t.dir.gd);
    var h, l := hash(p.0), t.dir.ld[i] + 1;
    var img := SplitImage(i, l);
    var o := Slot(hash, p.0, t.dir.gd);
    LowLow(h, t.dir.gd, r.dir.gd);
    LowLow(h, l - 1, t.dir.gd);
    LowLow(h, l, r.dir.gd);
    LowLow(h, l - 1, l);
    LowLow(hash(key), l - 1, t.dir.gd);
    if l <= t.dir.gd { LowLow(hash(key), l, t.dir.gd); }
    DealtToImage(i, l, h);
    SplitImageFlipsTopBit(i, l);
    LowSmall(img, l);
    if p in B.Pairs(Bucket(t, hash, cap, key)) || Low(h, r.dir.gd) == img {
      assert Same(o, hash(key), l - 1);
      assert t.dir.pg[o] == t.dir.pg[i];
    }
  }

  /** After a round the key's entry lies one level deeper. */
  lemma RoundDeepens<K, V>(t: Index<K, V>, r: Index<K, V>, hash: K -> nat, cap: nat, key: K, keep: B.Page<K, V>, fresh_: PageId, moved: B.Page<K, V>)
    requires Round(t, r, hash, cap, key, keep, fresh_, moved)
    ensures Loose(r, cap)
    ensures var i, j := Slot(hash, key, t.dir.gd), Slot(hash, key, r.dir.gd);
            j < Size(r.dir) && r.dir.ld[j] == t.dir.ld[i] + 1
  {
    hide Low, Pow2, And, SplitImage, SplitDir, B.Pairs, SplitIndex, SplitsInto;
    RoundEntries(t, r, hash, cap, key, keep, fresh_, moved);
    var h := hash(key);
    var i, j := Slot(hash, key, t.dir.gd), Slot(hash, key, r.dir.gd);
    var l := t.dir.ld[i] + 1;
    LowSmall(i, t.dir.gd); LowSmall(i, r.dir.gd); LowSmall(j, r.dir.gd);
    LowLow(h, t.dir.gd, r.dir.gd); LowLow(h, l, r.dir.gd);
    DealtToImage(i, l, h);
  }

  /** A round keeps the aim: the key's bucket now holds the pairs that agree on one more bit. */
  lemma RoundKeepsAim<K, V>(t: Index<K, V>, r: Index<K, V>, hash: K -> nat, cap: nat, key: K, keep: B.Page<K, V>, fresh_: PageId, moved: B.Page<K, V>)
    requires Round(t, r, hash, cap, key, keep, fresh_, moved) && Aimed(t, hash, cap, key)
    ensures var i, j := Slot(hash, key, t.dir.gd), Slot(hash, key, r.dir.gd);
            && Aimed(r, hash, cap, key) && r.dir.ld[j] == t.dir.ld[i] + 1
            && forall p :: p in B.Pairs(Bucket(r, hash, cap, key)) <==>
                 p in B.Pairs(Bucket(t, hash, cap, key)) && Same(hash(p.0), hash(key), r.dir.ld[j])
  {
    hide Low, Pow2, And, SplitImage, SplitDir, B.Pairs, SplitIndex;
    RoundEntries(t, r, hash, cap, key, keep, fresh_, moved);
    var h := hash(key);
    var i, j := Slot(hash, key, t.dir.gd), Slot(hash, key, r.dir.gd);
    var l := t.dir.ld[i] + 1;
    var img := SplitImage(i, l);
    SplitImageFlipsTopBit(i, l);
    LowSmall(img, l); LowSmall(i, t.dir.gd); LowSmall(i, r.dir.gd); LowSmall(j, r.dir.gd);
    LowLow(h, t.dir.gd, r.dir.gd); LowLow(h, l, r.dir.gd); LowLow(h, l - 1, t.dir.gd); LowLow(h, l - 1, l);
    DealtToImage(i, l, h);
    forall p | p in B.Pairs(Bucket(t, hash, cap, key))
      ensures p in B.Pairs(Bucket(r, hash, cap, key)) <==> Same(hash(p.0), h, l)
    {
      DealtToImage(i, l, hash(p.0));
      LowLow(hash(p.0), l - 1, l);
    }
    forall k | 0 <= k < Size(r.dir) && Same(k, h, l)
      ensures r.dir.pg[k] == r.dir.pg[j]
    {
      LowSmall(k, r.dir.gd);
      SameWeaken(k, h, l - 1, l);
    }
  }

  // ---------------------------------------------------------------- a run of rounds

  ghost predicate Agree<K, V>(ps: set<(K, V)>, hash: K -> nat, key: K, l: nat) {
    forall p :: p in ps ==> Same(hash(p.0), hash(key), l)
  }

  ghost function Agreeing<K, V>(ps: set<(K, V)>, hash: K -> nat, key: K, l: nat): set<(K, V)> {
    set p | p in ps && Same(hash(p.0), hash(key), l)
  }

  /** Bit l-1 is the first on which the pairs part from the key, `p` does so there, and the entry
      of `p` is not the image that the split to depth l redirects. */
  ghost predicate Strays<K, V>(ps: set<(K, V)>, hash: K -> nat, key: K, gd: nat, p: (K, V), l: nat) {
    && 1 <= l < gd && Agree(ps, hash, key, l - 1) && p in ps
    && !Same(hash(p.0), hash(key), l) && Low(hash(p.0), gd) != Low(hash(p.0), l)
  }

  ghost function StraysAt<K, V>(ps: set<(K, V)>, hash: K -> nat, key: K, gd: nat, l: nat): set<(K, V)> {
    set p | p in ps && Strays(ps, hash, key, gd, p, l)
  }

  /** What strays at a depth above l and not above n. */
  ghost function Strayed<K, V>(ps: set<(K, V)>, hash: K -> nat, key: K, gd: nat, l: nat, n: nat): set<(K, V)> {
    set p, k | p in ps && l < k <= n && Strays(ps, hash, key, gd, p, k) :: p
  }

  /** The pairs that an insert of the key makes the lookups lose. */
  ghost function Lost<K, V>(t: Index<K, V>, hash: K -> nat, cap: nat, key: K): set<(K, V)>
    requires Loose(t, cap)
  {
    var b, i := Bucket(t, hash, cap, key), Slot(hash, key, t.dir.gd);
    assert i < Size(t.dir);
    if B.IsFull(b) then Strayed(B.Pairs(b), hash, key, t.dir.gd, t.dir.ld[i], t.dir.gd) else {}
  }

  /** No split can make room for the key: its bucket is full of pairs that agree with it on all
      the bits a directory of maximum size can look at. */
  ghost predicate Hopeless<K, V>(t: Index<K, V>, hash: K -> nat, cap: nat, key: K)
    requires Loose(t, cap)
  {
    var b := Bucket(t, hash, cap, key);
    B.IsFull(b) && Agree(B.Pairs(b), hash, key, MAX_DEPTH)
  }

  /** Some rounds on: the target holds the pairs that agree with the key to its present depth, and
      the lookups have lost what strayed so far. */
  ghost predicate Splitting<K, V>(t0: Index<K, V>, t: Index<K, V>, hash: K -> nat, cap: nat, key: K) {
    && Aimed(t0, hash, cap, key) && Aimed(t, hash, cap, key)
    && var ps0, ps := B.Pairs(Bucket(t0, hash, cap, key)), B.Pairs(Bucket(t, hash, cap, key));
    && var l0, l := t0.dir.ld[Slot(hash, key, t0.dir.gd)], t.dir.ld[Slot(hash, key, t.dir.gd)];
    && l0 <= l && t.dir.gd == (if l < t0.dir.gd then t0.dir.gd else l)
    && (l0 < l ==> B.IsFull(Bucket(t0, hash, cap, key)) && Agree(ps0, hash, key, l - 1))
    && ps == Agreeing(ps0, hash, key, l)
    && Found(t, hash, cap) == Found(t0, hash, cap) - Strayed(ps0, hash, key, t0.dir.gd, l0, l)
  }

  lemma SplittingStarts<K, V>(t: Index<K, V>, hash: K -> nat, cap: nat, key: K)
    requires Aimed(t, hash, cap, key)
    ensures Splitting(t, t, hash, cap, key)
  {
    hide Low, Pow2, And, B.Pairs;
  }

  /** While the target stays full, no pair has left it. */
  lemma FullKeepsAll<K, V>(t0: Index<K, V>, t: Index<K, V>, hash: K -> nat, cap: nat, key: K)
    requires Splitting(t0, t, hash, cap, key) && B.IsFull(Bucket(t, hash, cap, key))
    ensures B.IsFull(Bucket(t0, hash, cap, key))
    ensures B.Pairs(Bucket(t, hash, cap, key)) == B.Pairs(Bucket(t0, hash, cap, key))
    ensures Agree(B.Pairs(Bucket(t0, hash, cap, key)), hash, key, t.dir.ld[Slot(hash, key, t.dir.gd)])
  {
    hide Low, Pow2, And, B.Pairs, B.CountTrue;
    var b0, b := Bucket(t0, hash, cap, key), Bucket(t, hash, cap, key);
    B.NumReadableCountsPairs(b0, cap);
    B.NumReadableCountsPairs(b, cap);
    PairsFit(b0, cap);
    assert B.Pairs(b0) == B.Pairs(b) + (B.Pairs(b0) - B.Pairs(b));
    SubsetOfSameSize(B.Pairs(b), B.Pairs(b0));
  }

  lemma PairsFit<K, V>(b: B.Page<K, V>, cap: nat)
    requires B.Valid(b, cap)
    ensures |B.Pairs(b)| <= cap
  {
    B.NumReadableCountsPairs(b, cap);
  }

  /** A round on a full target loses the pairs that stray at the new depth. */
  lemma RoundStrays<K, V>(t0: Index<K, V>, t: Index<K, V>, r: Index<K, V>, hash: K -> nat, cap: nat, key: K, keep: B.Page<K, V>, fresh_: PageId, moved: B.Page<K, V>)
    requires Splitting(t0, t, hash, cap, key) && B.IsFull(Bucket(t, hash, cap, key))
    requires Round(t, r, hash, cap, key, keep, fresh_, moved)
    ensures var ps, l := B.Pairs(Bucket(t0, hash, cap, key)), t.dir.ld[Slot(hash, key, t.dir.gd)] + 1;
            Loose(r, cap) && Found(r, hash, cap) == Found(t, hash, cap) - StraysAt(ps, hash, key, t0.dir.gd, l)
  {
    hide Low, Pow2, And, SplitImage, SplitDir, B.Pairs, SplitIndex, SplitsInto, B.CountTrue, Found;
    FullKeepsAll(t0, t, hash, cap, key);
    RoundEntries(t, r, hash, cap, key, keep, fresh_, moved);
    var ps := B.Pairs(Bucket(t0, hash, cap, key));
    var l := t.dir.ld[Slot(hash, key, t.dir.gd)] + 1;
    FoundIsFinds(t, hash, cap); FoundIsFinds(r, hash, cap);
    var lost := StraysAt(ps, hash, key, t0.dir.gd, l);
    forall p
      ensures p in Found(r, hash, cap) <==> p in Found(t, hash, cap) && p !in lost
    {
      RoundLoses(t, r, hash, cap, key, keep, fresh_, moved, p);
    }
    SetsAgree(Found(r, hash, cap), Found(t, hash, cap), lost);
  }

  lemma SplittingGoesOn<K, V>(t0: Index<K, V>, t: Index<K, V>, r: Index<K, V>, hash: K -> nat, cap: nat, key: K, keep: B.Page<K, V>, fresh_: PageId, moved: B.Page<K, V>)
    requires Splitting(t0, t, hash, cap, key) && B.IsFull(Bucket(t, hash, cap, key))
    requires Round(t, r, hash, cap, key, keep, fresh_, moved)
    ensures Splitting(t0, r, hash, cap, key)
  {
    hide Low, Pow2, And, SplitImage, SplitDir, B.Pairs, SplitIndex, SplitsInto, B.CountTrue, Found, Strayed, Strays, Loose;
    FullKeepsAll(t0, t, hash, cap, key);
    RoundEntries(t, r, hash, cap, key, keep, fresh_, moved);
    RoundKeepsAim(t, r, hash, cap, key, keep, fresh_, moved);
    RoundStrays(t0, t, r, hash, cap, key, keep, fresh_, moved);
    var ps := B.Pairs(Bucket(t0, hash, cap, key));
    var l0, l := t0.dir.ld[Slot(hash, key, t0.dir.gd)], r.dir.ld[Slot(hash, key, r.dir.gd)];
    StrayedOneMore(ps, hash, key, t0.dir.gd, l0, l);
    AgreeingIs(ps, hash, key, l, B.Pairs(Bucket(r, hash, cap, key)));
  }

  lemma AgreeingIs<K, V>(ps: set<(K, V)>, hash: K -> nat, key: K, l: nat, qs: set<(K, V)>)
    requires forall p :: p in qs <==> p in ps && Same(hash(p.0), hash(key), l)
    ensures qs == Agreeing(ps, hash, key, l)
  {
    hide Low;
  }

  lemma StrayedOneMore<K, V>(ps: set<(K, V)>, hash: K -> nat, key: K, gd: nat, l: nat, n: nat)
    requires l < n
    ensures Strayed(ps, hash, key, gd, l, n) ==
              Strayed(ps, hash, key, gd, l, n - 1) + StraysAt(ps, hash, key, gd, n)
  {
    hide Strays;
  }

  lemma NothingStrayed<K, V>(ps: set<(K, V)>, hash: K -> nat, key: K, gd: nat, l: nat)
    ensures Strayed(ps, hash, key, gd, l, l) == {}
  {
  }

  lemma StrayedUpTo<K, V>(ps: set<(K, V)>, hash: K -> nat, key: K, gd: nat, l: nat, m: nat, n: nat)
    requires forall p, k :: (m < k <= n || n < k <= m) ==> !Strays(ps, hash, key, gd, p, k)
    ensures Strayed(ps, hash, key, gd, l, m) == Strayed(ps, hash, key, gd, l, n)
  {
    hide Strays;
  }

  /** When there is room at last, or no room can be made, the lookups have lost exactly the pairs
      that stray. */
  lemma SplittingEnds<K, V>(t0: Index<K, V>, t: Index<K, V>, hash: K -> nat, cap: nat, key: K)
    requires Splitting(t0, t, hash, cap, key)
    requires B.IsFull(Bucket(t, hash, cap, key)) ==> t.dir.ld[Slot(hash, key, t.dir.gd)] == MAX_DEPTH
    ensures Found(t, hash, cap) == Found(t0, hash, cap) - Lost(t0, hash, cap, key)
  {
    hide Low, Pow2, And, B.Pairs, B.CountTrue, Found, Strays, Strayed;
    var b0, b := Bucket(t0, hash, cap, key), Bucket(t, hash, cap, key);
    var ps := B.Pairs(b0);
    var l0, l := t0.dir.ld[Slot(hash, key, t0.dir.gd)], t.dir.ld[Slot(hash, key, t.dir.gd)];
    if B.IsFull(b0) {
      AgreeingStaysFull(t0, t, hash, cap, key);
      forall p, k | l < k <= t0.dir.gd || t0.dir.gd < k <= l
        ensures !Strays(ps, hash, key, t0.dir.gd, p, k)
      {
        StrayAgrees(ps, hash, key, t0.dir.gd, p, k, l);
      }
      StrayedUpTo(ps, hash, key, t0.dir.gd, l0, l, t0.dir.gd);
    } else {
      NothingStrayed(ps, hash, key, t0.dir.gd, l0);
    }
  }

  /** Splits run out of bits exactly when no split can make room. */
  lemma SplittingDecidesHopeless<K, V>(t0: Index<K, V>, t: Index<K, V>, hash: K -> nat, cap: nat, key: K)
    requires Splitting(t0, t, hash, cap, key)
    requires B.IsFull(Bucket(t, hash, cap, key)) ==> t.dir.ld[Slot(hash, key, t.dir.gd)] == MAX_DEPTH
    ensures Hopeless(t0, hash, cap, key) <==> B.IsFull(Bucket(t, hash, cap, key))
  {
    hide Low, Pow2, And, B.Pairs, B.CountTrue, Found, Strays, Strayed;
    var b0, b := Bucket(t0, hash, cap, key), Bucket(t, hash, cap, key);
    if B.IsFull(b) {
      FullKeepsAll(t0, t, hash, cap, key);
    } else {
      AgreeingStaysFull(t0, t, hash, cap, key);
      AgreeLess(B.Pairs(b0), hash, key, t.dir.ld[Slot(hash, key, t.dir.gd)], MAX_DEPTH);
    }
  }

  lemma StrayAgrees<K, V>(ps: set<(K, V)>, hash: K -> nat, key: K, gd: nat, p: (K, V), k: nat, l: nat)
    ensures Strays(ps, hash, key, gd, p, k) ==> 1 <= k < gd
    ensures Strays(ps, hash, key, gd, p, k) && l < k ==> Agree(ps, hash, key, l)
  {
    if Strays(ps, hash, key, gd, p, k) && l < k {
      AgreeLess(ps, hash, key, l, k - 1);
    }
  }

  lemma AgreeingStaysFull<K, V>(t0: Index<K, V>, t: Index<K, V>, hash: K -> nat, cap: nat, key: K)
    requires Splitting(t0, t, hash, cap, key)
    ensures Agree(B.Pairs(Bucket(t0, hash, cap, key)), hash, key, t.dir.ld[Slot(hash, key, t.dir.gd)]) ==>
              (B.IsFull(Bucket(t0, hash, cap, key)) <==> B.IsFull(Bucket(t, hash, cap, key)))
  {
    hide Low, Pow2, And, B.Pairs, B.CountTrue, Found, Strays, Strayed;
    var b0, b := Bucket(t0, hash, cap, key), Bucket(t, hash, cap, key);
    B.NumReadableCountsPairs(b0, cap);
    B.NumReadableCountsPairs(b, cap);
    if Agree(B.Pairs(b0), hash, key, t.dir.ld[Slot(hash, key, t.dir.gd)]) {
      assert B.Pairs(b) == B.Pairs(b0);
    }
  }

  lemma AgreeLess<K, V>(ps: set<(K, V)>, hash: K -> nat, key: K, l: nat, n: nat)
    requires l <= n
    ensures Agree(ps, hash, key, n) ==> Agree(ps, hash, key, l)
  {
    hide Low;
    forall p | p in ps && Same(hash(p.0), hash(key), n) ensures Same(hash(p.0), hash(key), l) {
      SameWeaken(hash(p.0), hash(key), l, n);
    }
  }

  // ---------------------------------------------------------------- the shape is gone for good

  /** Entry `far` was left on the target's page at depth l when its class was split off. */
  ghost predicate Stale(d: Dir, h: nat, l: nat, i: nat, far: nat)
    requires Shaped(d)
  {
    && i < Size(d) && far < Size(d) && d.pg[i] == d.pg[far] && d.ld[far] == l < d.ld[i]
    && !Same(far, h, l + 1)
    && (i == Low(h, d.gd) || (Low(h, d.gd) < Size(d) && d.ld[Low(h, d.gd)] == d.gd))
  }

  ghost predicate Broken(d: Dir, h: nat, l: nat)
    requires Shaped(d)
  {
    exists i: nat, far: nat :: Stale(d, h, l, i, far)
  }

  lemma BrokenIsNotCanonical(d: Dir, h: nat, l: nat)
    requires Shaped(d) && Broken(d, h, l)
    ensures !Canonical(d)
  {
    hide Low, Pow2;
    var i: nat, far: nat :| Stale(d, h, l, i, far);
    assert i < Size(d) && far < Size(d) && d.pg[i] == d.pg[far] && d.ld[far] != d.ld[i];
  }

  /** A deep round breaks the shape. */
  lemma DeepRoundBreaks<K, V>(t: Index<K, V>, r: Index<K, V>, hash: K -> nat, cap: nat, key: K, keep: B.Page<K, V>, fresh_: PageId, moved: B.Page<K, V>)
    requires Round(t, r, hash, cap, key, keep, fresh_, moved) && Canonical(t.dir)
    requires t.dir.ld[Slot(hash, key, t.dir.gd)] < t.dir.gd - 1
    ensures Loose(r, cap) && Broken(r.dir, hash(key), t.dir.ld[Slot(hash, key, t.dir.gd)])
  {
    hide Low, Pow2, And, SplitImage, SplitDir, B.Pairs, Canonical, SplitsInto;
    var i := Slot(hash, key, t.dir.gd);
    var l := t.dir.ld[i] + 1;
    RoundEntries(t, r, hash, cap, key, keep, fresh_, moved);
    var far := DeepSplitLeavesStaleEntry(t.dir, i, fresh_);
    SplitImageFlipsTopBit(i, l);
    LowLow(hash(key), l, t.dir.gd);
    assert Stale(r.dir, hash(key), l - 1, i, far);
  }

  /** A split of the entry that h leads to, deeper than l, leaves the stale entry alone. */
  lemma StaleStays(d: Dir, h: nat, p: PageId, l: nat, i: nat, far: nat)
    requires Shaped(d) && Stale(d, h, l, i, far)
    requires var idx := Low(h, d.gd); idx < Size(d) && l < d.ld[idx] <= d.gd && d.ld[idx] < MAX_DEPTH
    ensures Stale(SplitDir(d, Low(h, d.gd), p), h, l, i, far)
  {
    hide Low, Pow2, SplitImage, SplitDir;
    var idx := Low(h, d.gd);
    var r := SplitDir(d, idx, p);
    var m := d.ld[idx] + 1;
    var img := SplitImage(idx, m);
    SplitEntries(d, idx, p);
    SplitImageFlipsTopBit(idx, m);
    LowLow(h, l + 1, d.gd);
    LowLow(h, d.gd, r.gd); LowLow(h, m, r.gd);
    SameWeaken(img, idx, l + 1, m - 1);
    LowSmall(i, d.gd); LowSmall(far, d.gd); LowSmall(idx, d.gd);
    PowMono(d.gd, r.gd);
    if img < Size(d) { LowSmall(img, d.gd); }
    assert far != img && far != idx;
    assert m == d.gd + 1 ==> Low(img, d.gd) == idx && r.gd == m;
    assert i != img;
    assert r.pg[far] == d.pg[far] && r.ld[far] == l;
    assert r.pg[i] == d.pg[i] && r.ld[i] > l;
    if m <= d.gd {
      assert r.gd == d.gd;
    } else {
      DealtToImage(idx, m, h);
      assert Low(h, m) == idx || Low(h, m) == img by { LowSmall(idx, m); LowSmall(img, m); }
    }
  }

  /** Later rounds do not mend it. */
  lemma BrokenStays<K, V>(t: Index<K, V>, r: Index<K, V>, hash: K -> nat, cap: nat, key: K, keep: B.Page<K, V>, fresh_: PageId, moved: B.Page<K, V>, l: nat)
    requires Round(t, r, hash, cap, key, keep, fresh_, moved) && Broken(t.dir, hash(key), l)
    requires l < t.dir.ld[Slot(hash, key, t.dir.gd)]
    ensures Loose(r, cap) && Broken(r.dir, hash(key), l)
  {
    hide Low, Pow2, And, SplitImage, SplitDir, B.Pairs, SplitsInto;
    RoundEntries(t, r, hash, cap, key, keep, fresh_, moved);
    var i: nat, far: nat :| Stale(t.dir, hash(key), l, i, far);
    hide Stale;
    StaleStays(t.dir, hash(key), fresh_, l, i, far);
  }

  // ---------------------------------------------------------------- the insert itself

  /** Room in the key's bucket: the lookups find the pair and all they found before. */
  lemma InsertIntoBucket<K, V>(t: Index<K, V>, hash: K -> nat, cap: nat, key: K, value: V)
    requires Loose(t, cap) && !B.IsFull(Bucket(t, hash, cap, key))
    ensures var (b, ok) := B.Insert(Bucket(t, hash, cap, key), key, value);
            var i := Slot(hash, key, t.dir.gd);
            && i < Size(t.dir)
            && var r := t.(pages := t.pages[t.dir.pg[i] := b]);
            && Loose(r, cap) && Found(r, hash, cap) == Found(t, hash, cap) + {(key, value)}
            && (ok <==> (key, value) !in Found(t, hash, cap))
  {
    hide Low, Pow2, And, B.Pairs, B.CountTrue, B.Insert, Found;
    var i := Slot(hash, key, t.dir.gd);
    B.InsertAddsPair(Bucket(t, hash, cap, key), cap, key, value);
    var r := t.(pages := t.pages[t.dir.pg[i] := B.Insert(Bucket(t, hash, cap, key), key, value).0]);
    FoundIsFinds(t, hash, cap); FoundIsFinds(r, hash, cap);
    forall p
      ensures p in Found(r, hash, cap) <==> p in Found(t, hash, cap) || p in {(key, value)}
    {
      var j := Slot(hash, p.0, t.dir.gd);
      assert j < Size(t.dir);
    }
    SetsJoin(Found(r, hash, cap), Found(t, hash, cap), {(key, value)});
  }

  lemma InsertKeepsAim<K, V>(t: Index<K, V>, hash: K -> nat, cap: nat, key: K, value: V)
    requires Aimed(t, hash, cap, key) && !B.IsFull(Bucket(t, hash, cap, key))
    ensures var i := Slot(hash, key, t.dir.gd);
            i < Size(t.dir) && Aimed(t.(pages := t.pages[t.dir.pg[i] := B.Insert(Bucket(t, hash, cap, key), key, value).0]), hash, cap, key)
  {
    hide Low, Pow2, And, B.Pairs, B.CountTrue, B.Insert, Found;
    B.InsertAddsPair(Bucket(t, hash, cap, key), cap, key, value);
    InsertIntoBucket(t, hash, cap, key, value);
  }

  lemma SetsJoin<T>(a: set<T>, b: set<T>, c: set<T>)
    requires forall x :: x in a <==> x in b || x in c
    ensures a == b + c
  {
  }

  lemma KeyIsNeverLost<K, V>(t: Index<K, V>, hash: K -> nat, cap: nat, key: K, value: V)
    requires Aimed(t, hash, cap, key)
    ensures (key, value) !in Lost(t, hash, cap, key)
  {
    hide Low, Pow2, And, B.Pairs;
  }

  /** When the bucket of the key is full, its local depth is the global depth or one less. */
  ghost predicate Splittable<K, V>(t: Index<K, V>, hash: K -> nat, cap: nat, key: K)
    requires Loose(t, cap)
  {
    var i := Slot(hash, key, t.dir.gd);
    assert i < Size(t.dir);
    B.IsFull(Bucket(t, hash, cap, key)) ==> t.dir.ld[i] >= t.dir.gd - 1
  }

  /** At most one level below the global depth nothing is lost. */
  lemma SplittableLosesNothing<K, V>(t: Index<K, V>, hash: K -> nat, cap: nat, key: K)
    requires Aimed(t, hash, cap, key) && Splittable(t, hash, cap, key)
    ensures Lost(t, hash, cap, key) == {}
  {
    hide Low, Pow2, And, B.Pairs, B.CountTrue;
  }

  /** What the split loop keeps of a table that it found well formed. */
  ghost predicate Shapely<K, V>(t0: Index<K, V>, t: Index<K, V>, hash: K -> nat, cap: nat, key: K)
    requires Splitting(t0, t, hash, cap, key)
  {
    WellFormed(t0, hash, cap) ==>
      if Splittable(t0, hash, cap, key) then WellFormed(t, hash, cap)
      else t != t0 ==> Broken(t.dir, hash(key), t0.dir.ld[Slot(hash, key, t0.dir.gd)])
  }

  /** Entries that do not agree with h on l bits are copies of the old entries they extend. */
  ghost predicate Elsewhere(d0: Dir, d: Dir, h: nat, l: nat)
    requires Shaped(d0) && Shaped(d)
  {
    forall j {:trigger d.pg[j]} {:trigger d.ld[j]} :: 0 <= j < Size(d) && !Same(j, h, l) ==>
      var o := Low(j, d0.gd);
      o < Size(d0) && d.pg[j] == d0.pg[o] && d.ld[j] == d0.ld[o]
  }

  lemma ElsewhereGoesOn(d0: Dir, d: Dir, h: nat, p: PageId, l: nat)
    requires Shaped(d0) && Shaped(d) && d0.gd <= d.gd && l <= d0.gd && Elsewhere(d0, d, h, l)
    requires var i := Low(h, d.gd); i < Size(d) && l <= d.ld[i] <= d.gd && d.ld[i] < MAX_DEPTH
    ensures Elsewhere(d0, SplitDir(d, Low(h, d.gd), p), h, l)
  {
    hide Low, Pow2, SplitImage, SplitDir;
    var i := Low(h, d.gd);
    var r, m := SplitDir(d, i, p), d.ld[i] + 1;
    var img := SplitImage(i, m);
    SplitEntries(d, i, p);
    SplitImageFlipsTopBit(i, m);
    SameWeaken(img, i, l, m - 1);
    LowLow(h, l, d.gd);
    forall j | 0 <= j < Size(r) && !Same(j, h, l)
      ensures var o := Low(j, d0.gd); o < Size(d0) && r.pg[j] == d0.pg[o] && r.ld[j] == d0.ld[o]
    {
      LowLow(j, d0.gd, d.gd);
      LowLow(j, l, d.gd);
      assert d.pg[Low(j, d.gd)] == r.pg[j];
    }
  }

  /** How far the directory is split for the key: not at all if there is room for it, otherwise until the
      pairs of its bucket part from it, and the directory grows only when it must; entries of other
      classes are left alone. */
  ghost predicate SplitsAsNeeded<K, V>(t0: Index<K, V>, d: Dir, hash: K -> nat, cap: nat, key: K)
    requires Loose(t0, cap) && Shaped(d)
  {
    var i0, i := Slot(hash, key, t0.dir.gd), Slot(hash, key, d.gd);
    && i0 < Size(t0.dir) && i < Size(d)
    && var ps, l0, l := B.Pairs(Bucket(t0, hash, cap, key)), t0.dir.ld[i0], d.ld[i];
    && (if |ps| < cap then d == t0.dir
        else if l0 == MAX_DEPTH then d == t0.dir
        else l0 < l && Agree(ps, hash, key, l - 1) && (l < MAX_DEPTH ==> !Agree(ps, hash, key, l)))
    && d.gd == (if l < t0.dir.gd then t0.dir.gd else l)
    && Elsewhere(t0.dir, d, hash(key), l0)
  }

  /** What the split loop keeps. */
  ghost predicate Looping<K, V>(t0: Index<K, V>, t: Index<K, V>, hash: K -> nat, cap: nat, key: K) {
    && Splitting(t0, t, hash, cap, key)
    && Elsewhere(t0.dir, t.dir, hash(key), t0.dir.ld[Slot(hash, key, t0.dir.gd)])
    && (t0.dir.ld[Slot(hash, key, t0.dir.gd)] == t.dir.ld[Slot(hash, key, t.dir.gd)] ==> t == t0)
    && Shapely(t0, t, hash, cap, key)
  }

  lemma LoopStarts<K, V>(t: Index<K, V>, hash: K -> nat, cap: nat, key: K)
    requires Aimed(t, hash, cap, key)
    ensures Looping(t, t, hash, cap, key)
  {
    hide Low, Pow2, And, B.Pairs, WellFormed, Splitting;
    SplittingStarts(t, hash, cap, key);
    ElsewhereStarts(t.dir, hash(key), t.dir.ld[Slot(hash, key, t.dir.gd)]);
  }

  lemma ElsewhereStarts(d: Dir, h: nat, l: nat)
    requires Shaped(d)
    ensures Elsewhere(d, d, h, l)
  {
    hide Low, Pow2;
    forall j: nat | j < Size(d) ensures Low(j, d.gd) == j { LowSmall(j, d.gd); }
  }

  lemma LoopGoesOn<K, V>(t0: Index<K, V>, t: Index<K, V>, r: Index<K, V>, hash: K -> nat, cap: nat, key: K, keep: B.Page<K, V>, fresh_: PageId, moved: B.Page<K, V>)
    requires Looping(t0, t, hash, cap, key) && B.IsFull(Bucket(t, hash, cap, key))
    requires Round(t, r, hash, cap, key, keep, fresh_, moved)
    ensures Looping(t0, r, hash, cap, key)
  {
    hide Low, Pow2, And, SplitImage, SplitDir, B.Pairs, B.CountTrue, SplitsInto, SplitIndex, Found, Broken, Placed, Canonical, Strayed, Round;
    SplittingGoesOn(t0, t, r, hash, cap, key, keep, fresh_, moved);
    RoundDeepens(t, r, hash, cap, key, keep, fresh_, moved);
    FullKeepsAll(t0, t, hash, cap, key);
    RoundIsSplit(t, r, hash, cap, key, keep, fresh_, moved);
    ElsewhereGoesOn(t0.dir, t.dir, hash(key), fresh_, t0.dir.ld[Slot(hash, key, t0.dir.gd)]);
    hide Elsewhere;
    if WellFormed(t0, hash, cap) { ShapelyGoesOn(t0, t, r, hash, cap, key, keep, fresh_, moved); }
  }

  lemma RoundIsSplit<K, V>(t: Index<K, V>, r: Index<K, V>, hash: K -> nat, cap: nat, key: K, keep: B.Page<K, V>, fresh_: PageId, moved: B.Page<K, V>)
    requires Round(t, r, hash, cap, key, keep, fresh_, moved)
    ensures var i := Low(hash(key), t.dir.gd);
            && i == Slot(hash, key, t.dir.gd) && i < Size(t.dir) && t.dir.ld[i] < MAX_DEPTH && t.dir.ld[i] <= t.dir.gd
            && r.dir == SplitDir(t.dir, i, fresh_)
  {
    hide Low, Pow2, And, SplitDir, SplitsInto;
  }

  /** When the loop is through it has split as far as needed. */
  lemma LoopSplitsAsNeeded<K, V>(t0: Index<K, V>, t: Index<K, V>, hash: K -> nat, cap: nat, key: K)
    requires Looping(t0, t, hash, cap, key)
    requires B.IsFull(Bucket(t, hash, cap, key)) ==> t.dir.ld[Slot(hash, key, t.dir.gd)] == MAX_DEPTH
    ensures SplitsAsNeeded(t0, t.dir, hash, cap, key)
  {
    hide Low, Pow2, And, B.Pairs, B.CountTrue, Found, Shapely, Strayed, Elsewhere;
    B.NumReadableCountsPairs(Bucket(t0, hash, cap, key), cap);
    PairsFit(Bucket(t0, hash, cap, key), cap);
    AgreeingStaysFull(t0, t, hash, cap, key);
    if B.IsFull(Bucket(t, hash, cap, key)) { FullKeepsAll(t0, t, hash, cap, key); }
  }

  lemma ShapelyGoesOn<K, V>(t0: Index<K, V>, t: Index<K, V>, r: Index<K, V>, hash: K -> nat, cap: nat, key: K, keep: B.Page<K, V>, fresh_: PageId, moved: B.Page<K, V>)
    requires Looping(t0, t, hash, cap, key) && B.IsFull(Bucket(t, hash, cap, key)) && WellFormed(t0, hash, cap)
    requires Round(t, r, hash, cap, key, keep, fresh_, moved) && Splitting(t0, r, hash, cap, key)
    ensures Shapely(t0, r, hash, cap, key)
  {
    hide Low, Pow2, And, SplitImage, SplitDir, B.Pairs, B.CountTrue, SplitsInto, SplitIndex, Found, Broken, Placed, Canonical, Strayed;
    FullKeepsAll(t0, t, hash, cap, key);
    var l0 := t0.dir.ld[Slot(hash, key, t0.dir.gd)];
    if Splittable(t0, hash, cap, key) {
      SplitKeepsStore(t, hash, cap, Slot(hash, key, t.dir.gd), keep, fresh_, moved);
    } else if t == t0 {
      DeepRoundBreaks(t, r, hash, cap, key, keep, fresh_, moved);
    } else {
      BrokenStays(t, r, hash, cap, key, keep, fresh_, moved, l0);
    }
  }

  /** What the loop hands to the final insert, or leaves when no room can be made. */
  lemma LoopEnds<K, V>(t0: Index<K, V>, t: Index<K, V>, hash: K -> nat, cap: nat, key: K)
    requires Looping(t0, t, hash, cap, key)
    requires B.IsFull(Bucket(t, hash, cap, key)) ==> t.dir.ld[Slot(hash, key, t.dir.gd)] == MAX_DEPTH
    ensures Found(t, hash, cap) == Found(t0, hash, cap) - Lost(t0, hash, cap, key)
    ensures Hopeless(t0, hash, cap, key) <==> B.IsFull(Bucket(t, hash, cap, key))
    ensures WellFormed(t0, hash, cap) ==> ShapeEnds(t0, t, hash, cap, key)
  {
    hide Low, Pow2, And, B.Pairs, B.CountTrue, Found, Broken, Placed, Canonical, Strayed, Stored;
    SplittingEnds(t0, t, hash, cap, key);
    SplittingDecidesHopeless(t0, t, hash, cap, key);
    if WellFormed(t0, hash, cap) {
      WellFormedFinds(t0, hash, cap);
      if Splittable(t0, hash, cap, key) {
        SplittableLosesNothing(t0, hash, cap, key);
        WellFormedFinds(t, hash, cap);
      } else {
        assert t != t0;
        BrokenIsNotCanonical(t.dir, hash(key), t0.dir.ld[Slot(hash, key, t0.dir.gd)]);
      }
    }
  }

  /** A well-formed table is still one exactly when its target could be split, and then nothing is lost. */
  ghost predicate ShapeEnds<K, V>(t0: Index<K, V>, t: Index<K, V>, hash: K -> nat, cap: nat, key: K)
    requires WellFormed(t0, hash, cap) && Aimed(t0, hash, cap, key)
  {
    if Splittable(t0, hash, cap, key)
    then WellFormed(t, hash, cap) && Stored(t, cap) == Stored(t0, cap) && Lost(t0, hash, cap, key) == {}
    else !Canonical(t.dir) && !WellFormed(t, hash, cap)
  }

  // ---------------------------------------------------------------- merging and shrinking on any table

  lemma MergeKeepsLoose<K, V>(t: Index<K, V>, cap: nat, i: nat)
    requires Loose(t, cap) && i < Size(t.dir) && Mergeable(t.dir, i)
    ensures Loose(t.(dir := MergeDir(t.dir, i)), cap)
  {
    hide Low, Pow2, SplitImage;
    SplitImageFlipsTopBit(i, t.dir.ld[i]);
    PowMono(t.dir.ld[i], t.dir.gd);
  }

  lemma ShrinkKeepsLoose<K, V>(t: Index<K, V>, cap: nat)
    requires Loose(t, cap) && CanShrink(t.dir)
    ensures t.dir.gd >= 2 && Loose(t.(dir := t.dir.(gd := t.dir.gd - 1)), cap)
  {
    hide Low;
    assert 1 <= t.dir.ld[0] <= t.dir.gd && t.dir.ld[0] != t.dir.gd;
    PowMono(t.dir.gd - 1, t.dir.gd);
  }

  lemma SetsAgree<T>(a: set<T>, b: set<T>, c: set<T>)
    requires forall x :: x in a <==> x in b && x !in c
    ensures a == b - c
  {
  }
}
