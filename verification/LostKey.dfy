/** A well-formed index in which one more insert makes a stored pair unfindable. */
module LostKey {
  import opened Bits
  import opened Common
  import opened Directory
  import opened HashStore
  import opened DeepSplit
  import opened HashTable
  import B = Bucket

  function Itself(k: nat): nat { k }

  /** A bucket for one pair. */
  function One(k: nat): B.Page<nat, nat> { B.Page([true], [true], [(k, 0)]) }

  function Blank(): B.Page<nat, nat> { B.Empty(1, (0, 0)) }

  lemma OnePair(k: nat)
    ensures B.Valid(One(k), 1) && B.Pairs(One(k)) == {(k, 0)} && B.IsFull(One(k))
    ensures B.Valid(Blank(), 1) && B.Pairs(Blank()) == {}
  {
    assert One(k).readable[0] && One(k).slots[0] == (k, 0);
  }

  lemma SmallWords()
    ensures Pow2(1) == 2 && Pow2(3) == 8
    ensures Low(0, 1) == 0 && Low(1, 1) == 1 && Low(5, 1) == 1 && Low(7, 1) == 1
    ensures Low(0, 2) == 0 && Low(4, 2) == 0 && Low(0, 3) == 0 && Low(4, 3) == 4
    ensures Low(5, 2) == 1 && Low(7, 2) == 3 && Low(5, 3) == 5 && Low(7, 3) == 7
  {
    assert Low(7, 2) == 1 + 2 * Low(3, 1) && Low(3, 1) == 1;
    assert Low(5, 2) == 1 + 2 * Low(2, 1) && Low(2, 1) == 0;
    assert Pow2(3) == 2 * Pow2(2);
  }

  /** What a split of entry 0 at the global depth leaves of entries 0 and 1. */
  lemma EntriesZeroAndOne(d: Dir, p: PageId)
    requires Canonical(d) && d.gd < MAX_DEPTH && d.ld[0] == d.gd
    ensures var r := SplitDir(d, 0, p);
            && r.gd == d.gd + 1 && r.pg[0] == d.pg[0] && r.ld[0] == r.gd
            && r.pg[1] == d.pg[1] && r.ld[1] == d.ld[1] && d.pg[1] != d.pg[0] && 2 <= Size(d)
  {
    hide Pow2, Low, SplitImage, SplitDir;
    var img := SplitImage(0, d.gd + 1);
    SmallWords();
    PowMono(1, d.gd); PowMono(1, d.gd + 1);
    LowSmall(0, d.gd); LowSmall(1, d.gd);
    SplitImageFlipsTopBit(0, d.gd + 1);
    SplitEntries(d, 0, p);
    assert d.pg[0] == d.pg[1] <==> Same(0, 1, d.ld[0]);
  }

  /** The bucket of entry 0 holds the pair of key 0, and splits without giving any pair away. */
  lemma SplitOffNothing(t: Index<nat, nat>, fresh_: PageId) returns (r: Index<nat, nat>)
    requires WellFormed(t, Itself, 1) && t.dir.gd < MAX_DEPTH && t.dir.ld[0] == t.dir.gd && fresh_ !in t.pages
    requires t.pages[t.dir.pg[0]] == One(0)
    ensures WellFormed(r, Itself, 1) && r.dir.gd == t.dir.gd + 1 && r.dir.ld[0] == r.dir.gd
    ensures r.pages.Keys == t.pages.Keys + {fresh_} && r.pages[r.dir.pg[0]] == One(0)
    ensures r.dir.pg[1] == t.dir.pg[1] && r.dir.ld[1] == t.dir.ld[1]
    ensures t.dir.pg[1] in t.pages && r.pages[t.dir.pg[1]] == t.pages[t.dir.pg[1]]
    ensures var img := SplitImage(0, r.dir.gd);
            img < Size(r.dir) && r.dir.pg[img] == fresh_ && r.dir.ld[img] == r.dir.gd && r.pages[fresh_] == Blank()
    ensures Stored(r, 1) == Stored(t, 1) && fresh_ != t.dir.pg[0] && fresh_ != t.dir.pg[1]
  {
    hide Pow2, Low, SplitImage, SplitDir, B.Pairs, B.Valid, B.IsFull, Placed;
    OnePair(0);
    EntriesZeroAndOne(t.dir, fresh_);
    var l := t.dir.ld[0] + 1;
    DealtToImage(0, l, 0);
    SplitEntries(t.dir, 0, fresh_);
    r := SplitIndex(t, 0, One(0), fresh_, Blank());
    assert SplitsInto(One(0), One(0), Blank(), Itself, 1, l, SplitImage(0, l));
    SplitKeepsStore(t, Itself, 1, 0, One(0), fresh_, Blank());
  }

  /** The table that inserts of keys 0, 5 and 4 make of an empty one, with buckets of one pair: the
      third insert splits the bucket of key 0 twice and goes to the second fresh page. */
  lemma AfterThreeInserts() returns (t: Index<nat, nat>)
    ensures WellFormed(t, Itself, 1) && Stored(t, 1) == {(0, 0), (5, 0), (4, 0)}
    ensures t.dir.gd == 3 && t.dir.ld[1] == 1 && t.dir.pg[1] in t.pages && t.pages[t.dir.pg[1]] == One(5)
  {
    hide Pow2, Low, SplitImage, SplitDir, B.Pairs, B.Valid, B.IsFull, Placed, Canonical, Stored, And;
    var d := Dir(1, seq(DIRECTORY_ARRAY_SIZE, _ => 1), seq(DIRECTORY_ARRAY_SIZE, i => i));
    var e := Blank();
    SmallWords();
    var t0: Index<nat, nat> := Index(d, map[0 := e, 1 := e]);
    TwoEmptyBuckets(t0, Itself, 1, (0, 0));
    OnePair(0); OnePair(5); OnePair(4);
    ReplaceBucket(t0, Itself, 1, 0, One(0));
    var t1 := Index(d, t0.pages[0 := One(0)]);
    ReplaceBucket(t1, Itself, 1, 1, One(5));
    var t2 := Index(d, t1.pages[1 := One(5)]);
    var t3 := SplitOffNothing(t2, 2);
    var t4 := SplitOffNothing(t3, 3);
    DealtToImage(0, 3, 4);
    ReplaceBucket(t4, Itself, 1, 4, One(4));
    t := Index(t4.dir, t4.pages[3 := One(4)]);
  }

  /** An insert of key 7 then makes key 5 unfindable. */
  lemma InsertOfSevenLosesFive() returns (t: Index<nat, nat>)
    ensures WellFormed(t, Itself, 1) && Stored(t, 1) == {(0, 0), (5, 0), (4, 0)}
    ensures Aimed(t, Itself, 1, 7) && (5, 0) in Lost(t, Itself, 1, 7)
  {
    hide Pow2, Low, WellFormed, Stored, Aimed, Lost;
    t := AfterThreeInserts();
    WellFormedIsAimed(t, Itself, 1, 7);
    FiveIsLost(t);
  }

  lemma FiveIsLost(t: Index<nat, nat>)
    requires WellFormed(t, Itself, 1) && Aimed(t, Itself, 1, 7) && t.dir.gd == 3 && t.dir.ld[1] == 1
    requires t.dir.pg[1] in t.pages && t.pages[t.dir.pg[1]] == One(5)
    ensures (5, 0) in Stored(t, 1) && (5, 0) in Lost(t, Itself, 1, 7)
  {
    hide Pow2, Low, SplitImage, SplitDir, B.Pairs, B.Valid, B.IsFull, Placed, And;
    SmallWords();
    OnePair(5);
    SharePage(t.dir, 1, 7);
    var p: (nat, nat) := (5, 0);
    assert p in BucketPairs(t, 1, 1);
    assert B.Pairs(Bucket(t, Itself, 1, 7)) == {p};
    assert Strays({p}, Itself, 7, 3, p, 2);
  }
}
