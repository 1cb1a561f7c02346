/** What the merge sweep is for: which entries one turn redirects and when the directory halves, said
    in terms of hash bits, and what a whole sweep is sure to achieve. */
module Sweep {
  import opened Bits
  import opened Common
  import opened Directory
  import opened HashStore
  import B = Bucket

  // ---------------------------------------------------------------- one turn

  /** Entry j lies in the other half of the class that one bit less makes of entry i's, equally deep. */
  predicate Twin(d: Dir, i: nat, j: nat)
    requires Shaped(d) && i < Size(d)
  {
    && d.ld[i] > 1 && j < Size(d) && d.ld[j] == d.ld[i]
    && Same(i, j, d.ld[i] - 1) && !Same(i, j, d.ld[i])
  }

  predicate SameLive(d: Dir, f: Dir)
    requires Shaped(d) && Shaped(f)
  {
    Size(f) <= Size(d) && forall k :: 0 <= k < Size(f) ==> f.pg[k] == d.pg[k] && f.ld[k] == d.ld[k]
  }

  /** Every entry that agrees with i on one bit less is on the page of j, one level up; no other entry
      has changed. */
  predicate FoldsOnto(d: Dir, f: Dir, i: nat, j: nat)
    requires Shaped(d) && Shaped(f) && i < Size(d) && Twin(d, i, j)
  {
    && f.gd == d.gd
    && forall k :: 0 <= k < Size(d) ==>
         if Same(i, k, d.ld[i] - 1) then f.pg[k] == d.pg[j] && f.ld[k] == d.ld[i] - 1
         else f.pg[k] == d.pg[k] && f.ld[k] == d.ld[k]
  }

  ghost predicate FoldsIfTwin(d: Dir, f: Dir, i: nat)
    requires Shaped(d) && Shaped(f) && i < Size(d)
  {
    && f.gd == d.gd
    && (forall j: nat :: Twin(d, i, j) ==> FoldsOnto(d, f, i, j))
    && ((forall j: nat :: !Twin(d, i, j)) ==> SameLive(d, f))
  }

  /** The directory is half as large if no entry needs all its bits, and as large as it was otherwise. */
  predicate Halves(f: Dir, r: Dir)
    requires Shaped(f) && Shaped(r)
  {
    && SameLive(f, r)
    && r.gd == if exists k :: 0 <= k < Size(f) && f.ld[k] == f.gd then f.gd else f.gd - 1
  }

  ghost predicate EmptyBelow<K, V>(t: Index<K, V>, cap: nat, i: nat)
    requires PagesOk(t, cap) && i < Size(t.dir)
  {
    t.dir.ld[i] > 1 && BucketPairs(t, i, cap) == {}
  }

  /** One turn of the sweep at entry i: what becomes of the directory. */
  ghost predicate Turn<K, V>(t: Index<K, V>, r: Dir, cap: nat, i: nat)
    requires PagesOk(t, cap) && i < Size(t.dir) && Shaped(r)
  {
    if EmptyBelow(t, cap, i) then exists f: Dir :: Shaped(f) && FoldsIfTwin(t.dir, f, i) && Halves(f, r)
    else r == t.dir
  }

  lemma TwinIsImage(d: Dir, i: nat)
    requires Canonical(d) && i < Size(d) && d.ld[i] > 1
    ensures SplitImage(i, d.ld[i]) < Size(d)
    ensures forall j: nat :: Twin(d, i, j) ==> Mergeable(d, i) && d.pg[j] == d.pg[SplitImage(i, d.ld[i])]
    ensures Mergeable(d, i) ==> Twin(d, i, SplitImage(i, d.ld[i]))
  {
    hide Low, Pow2, SplitImage, Canonical;
    var l := d.ld[i];
    var img := SplitImage(i, l);
    SharePage(d, i, i);
    SplitImageFlipsTopBit(i, l);
    PowMono(l, d.gd);
    forall j: nat | Twin(d, i, j) ensures Mergeable(d, i) && d.pg[j] == d.pg[img] {
      LowSmall(img, l);
      SharePage(d, j, img);
    }
  }

  /** The redirecting loop does what a turn asks for. */
  lemma MergeFolds(d: Dir, i: nat)
    requires Canonical(d) && i < Size(d) && d.ld[i] > 1
    ensures FoldsIfTwin(d, if Mergeable(d, i) then MergeDir(d, i) else d, i)
  {
    hide Low, Pow2, SplitImage, Canonical;
    TwinIsImage(d, i);
    if Mergeable(d, i) {
      var f, img := MergeDir(d, i), SplitImage(i, d.ld[i]);
      forall k | 0 <= k < Size(d)
        ensures if Same(i, k, d.ld[i] - 1) then f.pg[k] == d.pg[img] && f.ld[k] == d.ld[i] - 1
                else f.pg[k] == d.pg[k] && f.ld[k] == d.ld[k]
      {
        MergeEntries(d, i, k);
        MergeEntries(d, i, i);
        MergeEntries(d, i, img);
      }
    }
  }

  // ---------------------------------------------------------------- a sweep

  ghost predicate TurnOf<K, V>(trace: seq<Dir>, t: Index<K, V>, hash: K -> nat, cap: nat, k: nat)
    requires k + 1 < |trace|
  {
    && WellFormed(t.(dir := trace[k]), hash, cap) && Shaped(trace[k + 1])
    && k < Size(trace[k]) && Turn(t.(dir := trace[k]), trace[k + 1], cap, k)
  }

  /** The directories of the first n turns over the buckets of t, one after another. */
  ghost predicate Turns<K, V>(trace: seq<Dir>, t: Index<K, V>, hash: K -> nat, cap: nat, n: nat) {
    && |trace| == n + 1 && trace[0] == t.dir && WellFormed(t.(dir := trace[n]), hash, cap)
    && forall k :: 0 <= k < n ==> TurnOf(trace, t, hash, cap, k)
  }

  lemma OneMoreTurn<K, V>(trace: seq<Dir>, t: Index<K, V>, hash: K -> nat, cap: nat, n: nat, r: Dir)
    requires Turns(trace, t, hash, cap, n) && n < Size(trace[n]) && Shaped(r)
    requires Turn(t.(dir := trace[n]), r, cap, n) && WellFormed(t.(dir := r), hash, cap)
    ensures Turns(trace + [r], t, hash, cap, n + 1)
  {
    hide Turn, WellFormed;
    forall k | 0 <= k < n + 1 ensures TurnOf(trace + [r], t, hash, cap, k) {
      if k < n { assert TurnOf(trace, t, hash, cap, k); }
    }
  }

  /** A sweep goes on until every entry that is left has had its turn. */
  ghost predicate IsSweep<K, V>(trace: seq<Dir>, t: Index<K, V>, hash: K -> nat, cap: nat) {
    && trace != [] && Turns(trace, t, hash, cap, |trace| - 1)
    && |trace| - 1 >= Size(trace[|trace| - 1])
  }

  ghost predicate Swept<K, V>(t: Index<K, V>, r: Dir, hash: K -> nat, cap: nat) {
    exists trace :: IsSweep(trace, t, hash, cap) && trace[|trace| - 1] == r
  }

  /** The pages in use. */
  ghost function LivePages(d: Dir): set<PageId>
    requires Shaped(d)
  {
    set i | 0 <= i < Size(d) :: d.pg[i]
  }

  ghost predicate HasTwin(d: Dir, i: nat)
    requires Shaped(d)
  {
    i < Size(d) && exists j: nat :: Twin(d, i, j)
  }

  ghost predicate Foldable<K, V>(t: Index<K, V>, cap: nat, i: nat)
    requires PagesOk(t, cap)
  {
    HasTwin(t.dir, i) && EmptyBelow(t, cap, i)
  }

  lemma TurnUsesNoNewPage<K, V>(t: Index<K, V>, r: Dir, hash: K -> nat, cap: nat, i: nat)
    requires WellFormed(t, hash, cap) && Shaped(r) && i < Size(t.dir) && Turn(t, r, cap, i)
    ensures LivePages(r) <= LivePages(t.dir)
    ensures Foldable(t, cap, i) ==> LivePages(r) < LivePages(t.dir)
  {
    hide Low, Pow2, Canonical, Placed, BucketPairs;
    if EmptyBelow(t, cap, i) {
      var f: Dir :| Shaped(f) && FoldsIfTwin(t.dir, f, i) && Halves(f, r);
      assert LivePages(r) <= LivePages(f);
      if HasTwin(t.dir, i) {
        var j: nat :| Twin(t.dir, i, j);
        FoldFreesPage(t.dir, f, i, j);
      } else {
        assert LivePages(f) <= LivePages(t.dir);
      }
    }
  }

  /** The page of the folded bucket is in use no more. */
  lemma FoldFreesPage(d: Dir, f: Dir, i: nat, j: nat)
    requires Canonical(d) && Shaped(f) && i < Size(d) && Twin(d, i, j) && FoldsOnto(d, f, i, j)
    ensures LivePages(f) < LivePages(d)
  {
    hide Low, Pow2, Canonical;
    SharePage(d, i, j);
    forall k | 0 <= k < Size(f) ensures f.pg[k] != d.pg[i] && f.pg[k] in LivePages(d) {
      SharePage(d, i, k);
      if Same(i, k, d.ld[i]) { SameWeaken(i, k, d.ld[i] - 1, d.ld[i]); }
    }
    assert d.pg[i] in LivePages(d) && d.pg[i] !in LivePages(f);
  }

  /** While nothing has been folded, the directory may have halved but has not changed otherwise, and
      what could be folded still can. */
  ghost predicate Waiting(d: Dir, r: Dir, i: nat)
    requires Shaped(d) && Shaped(r)
  {
    SameLive(d, r) && r.gd <= d.gd && HasTwin(r, i)
  }

  lemma TurnFoldsOrWaits<K, V>(t: Index<K, V>, s: Dir, r: Dir, hash: K -> nat, cap: nat, i: nat, k: nat)
    requires WellFormed(t, hash, cap) && WellFormed(t.(dir := s), hash, cap) && Shaped(r)
    requires k < Size(s) && Turn(t.(dir := s), r, cap, k) && Foldable(t, cap, i)
    requires Waiting(t.dir, s, i) && i < Pow2(s.ld[i])
    ensures LivePages(r) < LivePages(s) || (Waiting(t.dir, r, i) && k != i)
  {
    hide Low, Pow2, Canonical, Placed;
    var u := t.(dir := s);
    TurnUsesNoNewPage(u, r, hash, cap, k);
    if !Foldable(u, cap, k) {
      assert BucketPairs(u, i, cap) == BucketPairs(t, i, cap);
      var j: nat :| Twin(s, i, j);
      if EmptyBelow(u, cap, k) {
        var f: Dir :| Shaped(f) && FoldsIfTwin(s, f, k) && Halves(f, r);
        assert SameLive(s, f);
        HalvingKeepsTwin(s, f, r, i, j);
      }
    }
  }

  lemma HalvingKeepsTwin(d: Dir, f: Dir, r: Dir, i: nat, j: nat)
    requires Canonical(d) && Shaped(f) && Shaped(r) && SameLive(d, f) && f.gd == d.gd && Halves(f, r)
    requires i < Size(d) && Twin(d, i, j) && i < Pow2(d.ld[i])
    ensures i < Size(r) && r.ld[i] == d.ld[i] && r.pg[i] == d.pg[i] && HasTwin(r, i) && r.gd <= d.gd
  {
    hide Low, Pow2, Canonical, SplitImage;
    var l := d.ld[i];
    var img := SplitImage(i, l);
    SharePage(d, i, i);
    TwinIsImage(d, i);
    SplitImageFlipsTopBit(i, l);
    assert l <= r.gd;
    PowMono(l, r.gd);
    assert Twin(r, i, img);
  }

  /** A sweep over a table with a bucket to fold ends with fewer pages in use. */
  lemma SweepFolds<K, V>(t: Index<K, V>, r: Dir, hash: K -> nat, cap: nat, i: nat)
    requires WellFormed(t, hash, cap) && Swept(t, r, hash, cap) && Foldable(t, cap, i)
    ensures Shaped(r) && LivePages(r) < LivePages(t.dir)
  {
    hide Turn, Foldable, Low, Pow2, LivePages, Canonical, Placed;
    var trace :| IsSweep(trace, t, hash, cap) && trace[|trace| - 1] == r;
    var first := SmallestOfItsClass(t, hash, cap, i);
    SweepFoldsBy(trace, t, hash, cap, first, |trace| - 1);
  }

  lemma SmallestOfItsClass<K, V>(t: Index<K, V>, hash: K -> nat, cap: nat, i: nat) returns (first: nat)
    requires WellFormed(t, hash, cap) && Foldable(t, cap, i)
    ensures Foldable(t, cap, first) && first < Pow2(t.dir.ld[first])
  {
    hide Low, Pow2, Canonical, Placed;
    var l := t.dir.ld[i];
    first := Low(i, l);
    SharePage(t.dir, i, i);
    PowMono(l, t.dir.gd);
    LowSmall(first, l);
    SharePage(t.dir, i, first);
    var j: nat :| Twin(t.dir, i, j);
    LowLow(i, l - 1, l);
    assert BucketPairs(t, first, cap) == BucketPairs(t, i, cap);
    assert Twin(t.dir, first, j);
  }

  lemma WaitingUsesNoNewPage(d: Dir, s: Dir, i: nat)
    requires Shaped(d) && Shaped(s) && Waiting(d, s, i)
    ensures LivePages(s) <= LivePages(d)
  {}

  lemma FewerStays(a: set<PageId>, b: set<PageId>, c: set<PageId>)
    requires c <= b <= a
    ensures b < a || c < b ==> c < a
  {}

  lemma {:induction false} SweepFoldsBy<K, V>(trace: seq<Dir>, t: Index<K, V>, hash: K -> nat, cap: nat, i: nat, n: nat)
    requires IsSweep(trace, t, hash, cap) && n < |trace|
    requires WellFormed(t, hash, cap) && Foldable(t, cap, i) && i < Pow2(t.dir.ld[i])
    ensures WellFormed(t.(dir := trace[n]), hash, cap)
    ensures LivePages(trace[n]) < LivePages(t.dir) || (Waiting(t.dir, trace[n], i) && n <= i)
    ensures n == |trace| - 1 ==> LivePages(trace[n]) < LivePages(t.dir)
  {
    hide Turn, Low, Pow2, Canonical, Placed, LivePages;
    assert n < |trace| - 1 ==> TurnOf(trace, t, hash, cap, n);
    if n > 0 {
      assert TurnOf(trace, t, hash, cap, n - 1);
      SweepFoldsBy(trace, t, hash, cap, i, n - 1);
      var s, r := trace[n - 1], trace[n];
      TurnUsesNoNewPage(t.(dir := s), r, hash, cap, n - 1);
      if !(LivePages(s) < LivePages(t.dir)) {
        TurnFoldsOrWaits(t, s, r, hash, cap, i, n - 1);
        WaitingUsesNoNewPage(t.dir, s, i);
      }
      FewerStays(LivePages(t.dir), LivePages(s), LivePages(r));
    }
  }
}
