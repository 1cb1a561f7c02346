/** The directory page of the extendible hash index: its fields as a value, the canonical
    shape the index keeps, and the page itself, updated in place. */
module Directory {
  import opened Bits
  import opened Common

  const DIRECTORY_ARRAY_SIZE := 512
  /** 2^MAX_DEPTH == DIRECTORY_ARRAY_SIZE: a deeper directory does not fit the page. */
  const MAX_DEPTH := 9

  /** Both arrays always have 512 entries; only the first 2^gd of them mean anything. */
  datatype Dir = Dir(gd: nat, ld: seq<nat>, pg: seq<PageId>)

  predicate Shaped(d: Dir) {
    |d.ld| == |d.pg| == DIRECTORY_ARRAY_SIZE && d.gd <= MAX_DEPTH
  }

  lemma SizeFits(gd: nat)
    requires gd <= MAX_DEPTH
    ensures Pow2(gd) <= DIRECTORY_ARRAY_SIZE
  {
    PowMono(gd, MAX_DEPTH);
    assert Pow2(MAX_DEPTH) == 512 by { assert Pow2(4) == 16; assert Pow2(9) == 32 * Pow2(4); }
  }

  function Size(d: Dir): (n: nat)
    requires Shaped(d)
    ensures n == Pow2(d.gd) && n <= DIRECTORY_ARRAY_SIZE
  {
    SizeFits(d.gd);
    Pow2(d.gd)
  }

  /** Two live entries share a page exactly when their indices agree on the low `ld` bits,
      and entries that share a page carry the same local depth. */
  ghost predicate Canonical(d: Dir)
    ensures Canonical(d) ==> Shaped(d) && d.gd >= 1
  {
    && Shaped(d) && d.gd >= 1
    && (forall i :: 0 <= i < Size(d) ==> 1 <= d.ld[i] <= d.gd)
    && (forall i, j :: 0 <= i < Size(d) && 0 <= j < Size(d) ==> (d.pg[i] == d.pg[j] <==> Same(i, j, d.ld[i])))
    && (forall i, j :: 0 <= i < Size(d) && 0 <= j < Size(d) && d.pg[i] == d.pg[j] ==> d.ld[i] == d.ld[j])
  }

  // ---------------------------------------------------------------- split images

  function LocalHighBit(idx: nat, ld: nat): nat
    requires ld >= 1
  {
    Shl(Shr(idx, ld - 1) + 1, ld - 1)
  }

  function SplitImage(idx: nat, ld: nat): nat
    requires ld >= 1
  {
    And(Or(LocalHighBit(idx, ld), And(idx, Pow2(ld - 1) - 1)), Pow2(ld) - 1)
  }

  /** The split image is the one index below 2^ld that agrees with `idx` on the low ld-1 bits
      and differs in the next one. */
  lemma SplitImageFlipsTopBit(idx: nat, ld: nat)
    requires ld >= 1
    ensures SplitImage(idx, ld) < Pow2(ld)
    ensures Same(SplitImage(idx, ld), idx, ld - 1)
    ensures !Same(SplitImage(idx, ld), idx, ld)
    ensures forall j: nat :: Same(j, idx, ld - 1) && !Same(j, idx, ld) ==> Low(j, ld) == SplitImage(idx, ld)
  {
    hide Low, Pow2, Shr, Shl, And, Or;
    var k := ld - 1;
    var q, low, img := Shr(idx, k), Low(idx, k), SplitImage(idx, ld);
    AndMask(idx, k);
    OrAdds(q + 1, k, low);
    AndMask(Shl(q + 1, k) + low, ld);
    LowShl(q + 1, k, low);
    NextBit(idx, k);
    LowSmall(img, ld);
    LowLow(img, k, ld);
    NextBit(img, k);
    forall j: nat | Same(j, idx, k) && !Same(j, idx, ld)
      ensures Low(j, ld) == img
    {
      NextBit(j, k);
    }
  }

  // ---------------------------------------------------------------- splitting an entry

  predicate Grows(d: Dir, idx: nat)
    requires idx < |d.ld|
  {
    d.ld[idx] == d.gd
  }

  /** Where entry k takes its value from once the new entries below n are redirected. */
  function Source(oldDepth: nat, img: nat, n: nat, k: nat): (r: nat)
    ensures r <= k || r < Pow2(oldDepth)
  {
    if Pow2(oldDepth) <= k < n && k != img then Low(k, oldDepth) else k
  }

  /** Entries a grown directory gained, up to n and the image excepted, repeat the entries they extend. */
  function Redirected(d: Dir, oldDepth: nat, img: nat, n: nat): (r: Dir)
    requires Shaped(d) && oldDepth <= d.gd
    ensures Shaped(r) && r.gd == d.gd
  {
    SizeFits(oldDepth);
    d.(ld := seq(DIRECTORY_ARRAY_SIZE, k requires 0 <= k < DIRECTORY_ARRAY_SIZE => d.ld[Source(oldDepth, img, n, k)]),
       pg := seq(DIRECTORY_ARRAY_SIZE, k requires 0 <= k < DIRECTORY_ARRAY_SIZE => d.pg[Source(oldDepth, img, n, k)]))
  }

  /** What one round of the split loop does to the directory. */
  function SplitDir(d: Dir, idx: nat, fresh_: PageId): (r: Dir)
    requires Shaped(d) && idx < Size(d)
    requires d.ld[idx] < MAX_DEPTH
    ensures Shaped(r)
  {
    var l := d.ld[idx] + 1;
    var img := SplitImage(idx, l);
    SplitImageFlipsTopBit(idx, l); SizeFits(l);
    var gd := if Grows(d, idx) then d.gd + 1 else d.gd;
    Redirected(Dir(gd, d.ld[idx := l][img := l], d.pg[img := fresh_]), d.gd, img, Pow2(gd))
  }

  ghost predicate NotLive(d: Dir, p: PageId)
    requires Shaped(d)
  {
    forall i :: 0 <= i < Size(d) ==> d.pg[i] != p
  }

  /** Entry by entry: the target keeps its page, the image gets the fresh one, every other entry
      is a copy of the old entry it extends. */
  lemma SplitEntries(d: Dir, idx: nat, p: PageId)
    requires Shaped(d) && idx < Size(d) && d.ld[idx] < MAX_DEPTH && d.ld[idx] <= d.gd
    ensures var r := SplitDir(d, idx, p); var l := d.ld[idx] + 1; var img := SplitImage(idx, l);
            && r.gd == (if l < d.gd then d.gd else l) && idx < Size(r) && img < Size(r) && img != idx
            && r.pg[idx] == d.pg[idx] && r.ld[idx] == l && r.pg[img] == p && r.ld[img] == l
            && (forall i {:trigger r.pg[i]} {:trigger r.ld[i]} :: 0 <= i < Size(r) && i != idx && i != img ==>
                 Low(i, d.gd) < Size(d) && r.pg[i] == d.pg[Low(i, d.gd)] && r.ld[i] == d.ld[Low(i, d.gd)])
  {
    hide Low, Pow2, SplitImage;
    var r := SplitDir(d, idx, p);
    var l := d.ld[idx];
    var img := SplitImage(idx, l + 1);
    SplitImageFlipsTopBit(idx, l + 1);
    PowMono(d.gd, r.gd); PowMono(l + 1, r.gd);
    LowSmall(idx, d.gd); LowSmall(idx, r.gd); LowSmall(img, r.gd);
    forall i | 0 <= i < Size(r) && i != idx && i != img
      ensures 0 <= Low(i, d.gd) < Size(d) && r.pg[i] == d.pg[Low(i, d.gd)] && r.ld[i] == d.ld[Low(i, d.gd)]
    {
      LowSmall(i, r.gd);
      if i < Size(d) { LowSmall(i, d.gd); }
      var o := Low(i, d.gd);
      if o == idx && i != o {
        assert false;
      }
      if o == img && i != o {
        LowSmall(img, d.gd);
        assert false;
      }
    }
  }

  /** At depth gd or gd-1 the entries that are neither the target nor its image lie on other pages. */
  lemma OtherEntriesLieElsewhere(d: Dir, idx: nat, p: PageId, i: nat)
    requires Canonical(d) && idx < Size(d) && d.ld[idx] < MAX_DEPTH && d.ld[idx] >= d.gd - 1
    requires i < Size(SplitDir(d, idx, p)) && i != idx && i != SplitImage(idx, d.ld[idx] + 1)
    ensures Low(i, d.gd) < Size(d) && d.pg[Low(i, d.gd)] != d.pg[idx]
  {
    hide Low, Pow2, SplitImage;
    var r := SplitDir(d, idx, p);
    var l := d.ld[idx];
    var o := Low(i, d.gd);
    SplitEntries(d, idx, p);
    SplitImageFlipsTopBit(idx, l + 1);
    LowSmall(i, r.gd); LowSmall(idx, r.gd);
    LowLow(i, l, d.gd);
    assert d.pg[idx] == d.pg[o] <==> Same(idx, o, l);
  }

  lemma SplitKeepsCanonical(d: Dir, idx: nat, p: PageId)
    requires Canonical(d) && idx < Size(d) && d.ld[idx] < MAX_DEPTH && d.ld[idx] >= d.gd - 1
    requires NotLive(d, p)
    ensures Canonical(SplitDir(d, idx, p))
  {
    hide Low, Pow2, SplitImage;
    var r := SplitDir(d, idx, p);
    var img := SplitImage(idx, d.ld[idx] + 1);
    SplitEntries(d, idx, p);
    SplitImageFlipsTopBit(idx, d.ld[idx] + 1);
    forall i, j | 0 <= i < Size(r) && 0 <= j < Size(r)
      ensures r.pg[i] == r.pg[j] <==> Same(i, j, r.ld[i])
      ensures r.pg[i] == r.pg[j] ==> r.ld[i] == r.ld[j]
    {
      LowSmall(i, r.gd); LowSmall(j, r.gd);
      SplitPair(d, idx, p, i, j);
    }
  }

  /** The target's page and the fresh page are the pages of the two half-classes, and every
      other entry keeps the page of the entry it extends. */
  lemma SplitHalves(d: Dir, idx: nat, p: PageId, i: nat)
    requires Canonical(d) && idx < Size(d) && d.ld[idx] < MAX_DEPTH && d.ld[idx] >= d.gd - 1
    requires NotLive(d, p) && i < Size(SplitDir(d, idx, p))
    ensures var r := SplitDir(d, idx, p); var l := d.ld[idx] + 1;
            && (r.pg[i] == d.pg[idx] <==> Same(i, idx, l))
            && (r.pg[i] == p <==> Same(i, idx, l - 1) && !Same(i, idx, l))
            && (!Same(i, idx, l - 1) ==> Low(i, d.gd) < Size(d) && r.pg[i] == d.pg[Low(i, d.gd)])
  {
    hide Low, Pow2, SplitImage;
    var r := SplitDir(d, idx, p);
    var l := d.ld[idx] + 1;
    var img := SplitImage(idx, l);
    SplitEntries(d, idx, p);
    SplitImageFlipsTopBit(idx, l);
    LowSmall(i, r.gd); LowSmall(idx, r.gd);
    if i != idx && i != img {
      OtherEntriesLieElsewhere(d, idx, p, i);
    }
  }

  lemma SplitPair(d: Dir, idx: nat, p: PageId, i: nat, j: nat)
    requires Canonical(d) && idx < Size(d) && d.ld[idx] < MAX_DEPTH && d.ld[idx] >= d.gd - 1
    requires NotLive(d, p) && i < Size(SplitDir(d, idx, p)) && j < Size(SplitDir(d, idx, p))
    ensures var r := SplitDir(d, idx, p);
            (r.pg[i] == r.pg[j] <==> Same(i, j, r.ld[i])) && (r.pg[i] == r.pg[j] ==> r.ld[i] == r.ld[j])
  {
    hide Low, Pow2, SplitImage;
    var r := SplitDir(d, idx, p);
    var img := SplitImage(idx, d.ld[idx] + 1);
    SplitEntries(d, idx, p);
    SplitImageFlipsTopBit(idx, d.ld[idx] + 1);
    LowSmall(i, r.gd); LowSmall(j, r.gd); LowSmall(idx, d.gd);
    var oi, oj := Low(i, d.gd), Low(j, d.gd);
    if i != idx && i != img {
      OtherEntriesLieElsewhere(d, idx, p, i);
      LowLow(i, d.ld[oi], d.gd); LowLow(j, d.ld[oi], d.gd);
      assert Same(i, j, d.ld[oi]) <==> Same(oi, oj, d.ld[oi]);
      assert d.pg[oi] == d.pg[oj] <==> Same(oi, oj, d.ld[oi]);
      if j == img {
        LowLow(img, d.ld[idx], d.gd);
        assert Same(idx, oj, d.ld[idx]);
        assert d.pg[idx] == d.pg[oj] <==> Same(idx, oj, d.ld[idx]);
      } else if j == idx {
        assert oj == idx;
      }
    } else if j != idx && j != img {
      OtherEntriesLieElsewhere(d, idx, p, j);
    }
  }

  /** Two or more levels down, an entry `far` of the image's class other than the image itself is
      not redirected: it stays on the target's page, at the depth the target had. */
  lemma DeepSplitLeavesStaleEntry(d: Dir, idx: nat, p: PageId) returns (far: nat)
    requires Canonical(d) && idx < Size(d) && d.ld[idx] + 1 < d.gd
    ensures var r := SplitDir(d, idx, p); var l := d.ld[idx] + 1;
            && far < Size(r) && idx < Size(r)
            && Same(far, SplitImage(idx, l), l) && far != SplitImage(idx, l)
            && r.pg[far] == d.pg[idx] == r.pg[idx] && r.ld[far] == d.ld[idx] && r.ld[idx] == l
  {
    hide Low, Pow2, SplitImage;
    var l := d.ld[idx] + 1;
    var img := SplitImage(idx, l);
    SplitImageFlipsTopBit(idx, l);
    PowMono(l, d.gd); PowMono(l, d.gd - 1);
    LowSmall(img, d.gd - 1); LowSmall(img, d.gd); LowSmall(idx, d.gd);
    far := SplitImage(img, d.gd);
    SplitImageFlipsTopBit(img, d.gd);
    LowSmall(far, d.gd);
    SameWeaken(far, img, l, d.gd - 1);
    SameWeaken(far, img, l - 1, d.gd - 1);
    SplitEntries(d, idx, p);
    assert d.pg[idx] == d.pg[far] <==> Same(idx, far, l - 1);
  }

  /** The exact condition: one round leaves the directory canonical if and only if the target
      was at most one level below the global depth. */
  lemma SplitCanonicalIff(d: Dir, idx: nat, p: PageId)
    requires Canonical(d) && idx < Size(d) && d.ld[idx] < MAX_DEPTH && NotLive(d, p)
    ensures Canonical(SplitDir(d, idx, p)) <==> d.ld[idx] >= d.gd - 1
  {
    hide Low, Pow2, SplitImage, SplitDir;
    if d.ld[idx] >= d.gd - 1 {
      SplitKeepsCanonical(d, idx, p);
    } else {
      var far := DeepSplitLeavesStaleEntry(d, idx, p);
    }
  }

  // ---------------------------------------------------------------- merging an entry with its image

  predicate Mergeable(d: Dir, i: nat)
    requires Shaped(d) && i < Size(d)
  {
    1 < d.ld[i] <= d.gd &&
    (SplitImageFlipsTopBit(i, d.ld[i]); PowMono(d.ld[i], d.gd); d.ld[SplitImage(i, d.ld[i])] == d.ld[i])
  }

  /** Entry k is one of the pair, or lies below n on either page of the pair. */
  predicate Hit(d: Dir, i: nat, img: nat, n: nat, k: nat)
    requires i < |d.pg| && img < |d.pg| && k < |d.pg|
  {
    k == i || k == img || (k < n && (d.pg[k] == d.pg[i] || d.pg[k] == d.pg[img]))
  }

  /** The pair, and every entry below n on either page of it, on the image's page one level up. */
  function Folded(d: Dir, i: nat, n: nat): (r: Dir)
    requires Shaped(d) && i < Size(d) && Mergeable(d, i)
    ensures Shaped(r) && r.gd == d.gd
  {
    var img := SplitImage(i, d.ld[i]);
    SplitImageFlipsTopBit(i, d.ld[i]); PowMono(d.ld[i], d.gd);
    d.(ld := seq(DIRECTORY_ARRAY_SIZE, k requires 0 <= k < DIRECTORY_ARRAY_SIZE =>
               if Hit(d, i, img, n, k) then (d.ld[i] - 1) as nat else d.ld[k]),
       pg := seq(DIRECTORY_ARRAY_SIZE, k requires 0 <= k < DIRECTORY_ARRAY_SIZE =>
               if Hit(d, i, img, n, k) then d.pg[img] else d.pg[k]))
  }

  function MergeDir(d: Dir, i: nat): (r: Dir)
    requires Shaped(d) && i < Size(d) && Mergeable(d, i)
    ensures Shaped(r) && r.gd == d.gd
  {
    Folded(d, i, Size(d))
  }

  /** The entries a merge touches are exactly those that agree with `i` on one bit less. */
  lemma MergeEntries(d: Dir, i: nat, j: nat)
    requires Canonical(d) && i < Size(d) && Mergeable(d, i) && j < Size(d)
    ensures SplitImage(i, d.ld[i]) < Size(d)
    ensures d.pg[j] == d.pg[i] || d.pg[j] == d.pg[SplitImage(i, d.ld[i])] <==> Same(i, j, d.ld[i] - 1)
  {
    var l := d.ld[i];
    var img := SplitImage(i, l);
    SplitImageFlipsTopBit(i, l); PowMono(l, d.gd);
    assert d.pg[i] == d.pg[j] <==> Same(i, j, l);
    assert d.pg[img] == d.pg[j] <==> Same(img, j, l);
    if Same(i, j, l) {
      SameWeaken(i, j, l - 1, l);
    } else if Same(img, j, l) {
      SameWeaken(img, j, l - 1, l);
    } else if Same(i, j, l - 1) {
      LowSmall(img, l);
    }
  }

  lemma MergeKeepsCanonical(d: Dir, i: nat)
    requires Canonical(d) && i < Size(d) && Mergeable(d, i)
    ensures Canonical(MergeDir(d, i))
  {
    var r := MergeDir(d, i);
    var l := d.ld[i];
    forall a, b | 0 <= a < Size(r) && 0 <= b < Size(r)
      ensures r.pg[a] == r.pg[b] <==> Same(a, b, r.ld[a])
      ensures r.pg[a] == r.pg[b] ==> r.ld[a] == r.ld[b]
    {
      MergeEntries(d, i, a);
      MergeEntries(d, i, b);
      assert d.pg[a] == d.pg[b] <==> Same(a, b, d.ld[a]);
      if !Same(i, a, l - 1) && Same(i, b, l - 1) && Same(a, b, d.ld[a]) {
        assert false;
      }
    }
  }

  // ---------------------------------------------------------------- shrinking

  predicate CanShrink(d: Dir)
    requires Shaped(d)
  {
    forall i :: 0 <= i < Size(d) ==> d.ld[i] != d.gd
  }

  /** When no entry needs the top bit, the upper half repeats the lower half. */
  lemma UpperHalfRepeats(d: Dir, i: nat)
    requires Canonical(d) && CanShrink(d) && i < Size(d)
    ensures Low(i, d.gd - 1) < Pow2(d.gd - 1) < Size(d)
    ensures d.pg[i] == d.pg[Low(i, d.gd - 1)] && d.ld[i] == d.ld[Low(i, d.gd - 1)]
  {
    hide Low, Pow2;
    PowMono(d.gd - 1, d.gd);
    LowLow(i, d.ld[i], d.gd - 1);
    assert Same(i, Low(i, d.gd - 1), d.ld[i]);
  }

  lemma ShrinkKeepsCanonical(d: Dir)
    requires Canonical(d) && CanShrink(d)
    ensures d.gd >= 2 && Canonical(d.(gd := d.gd - 1))
  {
    hide Low, Pow2;
    assert d.ld[0] < d.gd;
    PowMono(d.gd - 1, d.gd);
  }
}
