/** The directory page in memory and its integrity check. */
module DirectoryPage {
  import opened Bits
  import opened Common
  import opened Directory

  /** How many of the first n entries point at page p. */
  function CountPage(pg: seq<PageId>, n: nat, p: PageId): nat
    requires n <= |pg|
  {
    if n == 0 then 0 else CountPage(pg, n - 1, p) + (if pg[n - 1] == p then 1 else 0)
  }

  function EntriesOn(pg: seq<PageId>, n: nat, p: PageId): set<nat>
    requires n <= |pg|
  {
    set j: nat | j < n && pg[j] == p
  }

  /** The count is the number of these entries. */
  lemma {:induction false} CountIsCardinality(pg: seq<PageId>, n: nat, p: PageId)
    requires n <= |pg|
    ensures CountPage(pg, n, p) == |EntriesOn(pg, n, p)|
  {
    if n == 0 {
      assert EntriesOn(pg, n, p) == {};
    } else {
      CountIsCardinality(pg, n - 1, p);
      var before := EntriesOn(pg, n - 1, p);
      assert EntriesOn(pg, n, p) == if pg[n - 1] == p then before + {n - 1} else before;
    }
  }

  /** The three assertions of the integrity check: no local depth above the global depth, equal
      depths at equal pages, and exactly 2^(gd - ld) pointers to every page. */
  ghost predicate Integrity(d: Dir)
    requires Shaped(d)
  {
    && (forall i :: 0 <= i < Size(d) ==> d.ld[i] <= d.gd)
    && (forall i, j :: 0 <= i < Size(d) && 0 <= j < Size(d) && d.pg[i] == d.pg[j] ==> d.ld[i] == d.ld[j])
    && (forall i :: 0 <= i < Size(d) ==> CountPage(d.pg, Size(d), d.pg[i]) == Pow2(d.gd - d.ld[i]))
  }

  /** The same in terms of the set of entries of each page. */
  ghost predicate ThreeInvariants(d: Dir)
    requires Shaped(d)
  {
    && (forall i :: 0 <= i < Size(d) ==> d.ld[i] <= d.gd)
    && (forall i :: 0 <= i < Size(d) ==> |EntriesOn(d.pg, Size(d), d.pg[i])| == Pow2(d.gd - d.ld[i]))
    && (forall i, j :: 0 <= i < Size(d) && 0 <= j < Size(d) && d.pg[i] == d.pg[j] ==> d.ld[i] == d.ld[j])
  }

  lemma IntegrityIs(d: Dir)
    requires Shaped(d)
    ensures Integrity(d) <==> ThreeInvariants(d)
  {
    hide Pow2, CountPage, EntriesOn;
    forall p { CountIsCardinality(d.pg, Size(d), p); }
  }

  // ---------------------------------------------------------------- counting congruent indices

  function CountSame(i: nat, l: nat, n: nat): nat {
    if n == 0 then 0 else CountSame(i, l, n - 1) + (if Same(i, n - 1, l) then 1 else 0)
  }

  lemma {:induction false} LowIgnoresHigh(a: nat, d: nat, e: nat)
    requires d <= e
    ensures Low(a + Pow2(e), d) == Low(a, d)
  {
    if d > 0 { LowIgnoresHigh(a / 2, d - 1, e - 1); }
  }

  lemma {:induction false} CountInOneRange(i: nat, l: nat, n: nat)
    requires n <= Pow2(l)
    ensures CountSame(i, l, n) == if Low(i, l) < n then 1 else 0
  {
    if n > 0 {
      CountInOneRange(i, l, n - 1);
      LowSmall(n - 1, l);
    }
  }

  lemma {:induction false} CountRepeats(i: nat, l: nat, e: nat, k: nat)
    requires l <= e && k <= Pow2(e)
    ensures CountSame(i, l, Pow2(e) + k) == CountSame(i, l, Pow2(e)) + CountSame(i, l, k)
  {
    if k > 0 {
      CountRepeats(i, l, e, k - 1);
      LowIgnoresHigh(k - 1, l, e);
    }
  }

  lemma {:induction false} CountIsPowerOfTwo(i: nat, l: nat, g: nat)
    requires l <= g
    ensures CountSame(i, l, Pow2(g)) == Pow2(g - l)
  {
    if g == l {
      CountInOneRange(i, l, Pow2(l));
    } else {
      CountIsPowerOfTwo(i, l, g - 1);
      CountRepeats(i, l, g - 1, Pow2(g - 1));
    }
  }

  lemma {:induction false} PagesCountAsSame(d: Dir, i: nat, n: nat)
    requires Canonical(d) && i < Size(d) && n <= Size(d)
    ensures CountPage(d.pg, n, d.pg[i]) == CountSame(i, d.ld[i], n)
  {
    hide Low, Pow2;
    if n > 0 {
      PagesCountAsSame(d, i, n - 1);
      assert d.pg[i] == d.pg[n - 1] <==> Same(i, n - 1, d.ld[i]);
    }
  }

  /** A canonical directory passes every assertion of the integrity check. */
  lemma CanonicalHasIntegrity(d: Dir)
    requires Canonical(d)
    ensures Integrity(d)
  {
    forall i | 0 <= i < Size(d)
      ensures CountPage(d.pg, Size(d), d.pg[i]) == Pow2(d.gd - d.ld[i])
    {
      PagesCountAsSame(d, i, Size(d));
      CountIsPowerOfTwo(i, d.ld[i], d.gd);
    }
  }

  // ---------------------------------------------------------------- the page

  class HashTableDirectoryPage {
    var globalDepth: nat
    const localDepths: array<nat>
    const bucketPageIds: array<PageId>

    ghost predicate Ok()
      reads this
    {
      && localDepths.Length == bucketPageIds.Length == DIRECTORY_ARRAY_SIZE
      && localDepths as object != bucketPageIds
      && globalDepth <= MAX_DEPTH
    }

    ghost function View(): (d: Dir)
      reads this, localDepths, bucketPageIds
      requires Ok()
      ensures Shaped(d)
    {
      Dir(globalDepth, localDepths[..], bucketPageIds[..])
    }

    constructor ()
      ensures Ok() && fresh(localDepths) && fresh(bucketPageIds)
      ensures View().gd == 0
    {
      globalDepth := 0;
      localDepths := new nat[DIRECTORY_ARRAY_SIZE];
      bucketPageIds := new PageId[DIRECTORY_ARRAY_SIZE];
    }

    method IncrGlobalDepth()
      requires Ok() && globalDepth < MAX_DEPTH
      modifies this
      ensures Ok() && View() == old(View()).(gd := old(globalDepth) + 1)
    {
      globalDepth := globalDepth + 1;
    }

    method DecrGlobalDepth()
      requires Ok() && globalDepth > 0
      modifies this
      ensures Ok() && View() == old(View()).(gd := old(globalDepth) - 1)
    {
      globalDepth := globalDepth - 1;
    }

    method SetBucketPageId(i: nat, p: PageId)
      requires Ok() && i < DIRECTORY_ARRAY_SIZE
      modifies bucketPageIds
      ensures Ok() && View() == old(View()).(pg := old(View().pg)[i := p])
    {
      bucketPageIds[i] := p;
    }

    method SetLocalDepth(i: nat, l: nat)
      requires Ok() && i < DIRECTORY_ARRAY_SIZE
      modifies localDepths
      ensures Ok() && View() == old(View()).(ld := old(View().ld)[i := l])
    {
      localDepths[i] := l;
    }

    method CanShrink() returns (r: bool)
      requires Ok()
      ensures r == Directory.CanShrink(View())
    {
      ghost var n := Size(View());
      var i := 0;
      while i < Pow2(globalDepth)
        invariant i <= n
        invariant forall j :: 0 <= j < i ==> localDepths[j] != globalDepth
      {
        if localDepths[i] == globalDepth { return false; }
        i := i + 1;
      }
      r := true;
    }

    /** Answers false where an assertion of the source would stop the program: some local depth exceeds
        the global depth, or entries of one page have different depths, or some page does not have its
        2^(gd - ld) entries. */
    method VerifyIntegrity() returns (ok: bool)
      requires Ok()
      ensures ok <==> ThreeInvariants(View())
    {
      IntegrityIs(View());
      hide Integrity, ThreeInvariants;
      ok := MeetsAssertions();
    }

    /** The two phases. */
    method MeetsAssertions() returns (ok: bool)
      requires Ok()
      ensures ok <==> Integrity(View())
    {
      hide Low, Pow2, Integrity;
      ghost var d := View();
      var counts: map<PageId, nat> := map[];
      var depths: map<PageId, nat> := map[];
      var i, n := 0, Pow2(globalDepth);
      SizeFits(globalDepth);
      while i < n
        invariant i <= n
        invariant Tallied(d, i, counts, depths)
      {
        var page, l := bucketPageIds[i], localDepths[i];
        TallyOne(d, i, counts, depths);
        counts := counts[page := (if page in counts then counts[page] else 0) + 1];
        if l > globalDepth || (page in depths && l != depths[page]) { return false; }
        depths := depths[page := l];
        i := i + 1;
      }
      TalliedDecides(d, counts, depths);
      ok := CountsMatch(counts, depths, globalDepth);
    }
  }

  /** What the two maps of the check hold after the first n entries. */
  ghost predicate Tallied(d: Dir, n: nat, counts: map<PageId, nat>, depths: map<PageId, nat>)
    requires Shaped(d) && n <= Size(d)
  {
    && (forall j :: 0 <= j < n ==> d.ld[j] <= d.gd && d.pg[j] in depths && depths[d.pg[j]] == d.ld[j])
    && counts.Keys == depths.Keys
    && (forall p :: p in counts ==> counts[p] == CountPage(d.pg, n, p))
    && (forall p :: p !in counts ==> CountPage(d.pg, n, p) == 0)
    && (forall p :: p in depths ==> exists j :: 0 <= j < n && d.pg[j] == p)
  }

  lemma TallyOne(d: Dir, n: nat, counts: map<PageId, nat>, depths: map<PageId, nat>)
    requires Shaped(d) && n < Size(d) && Tallied(d, n, counts, depths)
    ensures d.ld[n] > d.gd || (d.pg[n] in depths && depths[d.pg[n]] != d.ld[n]) ==> !Integrity(d)
    ensures d.ld[n] <= d.gd && (d.pg[n] in depths ==> depths[d.pg[n]] == d.ld[n]) ==>
              Tallied(d, n + 1, counts[d.pg[n] := (if d.pg[n] in counts then counts[d.pg[n]] else 0) + 1], depths[d.pg[n] := d.ld[n]])
  {
    hide Low, Pow2;
  }

  lemma TalliedDecides(d: Dir, counts: map<PageId, nat>, depths: map<PageId, nat>)
    requires Shaped(d) && Tallied(d, Size(d), counts, depths)
    ensures forall p :: p in depths ==> depths[p] <= d.gd
    ensures Integrity(d) <==> forall p :: p in counts ==> counts[p] == Pow2(d.gd - depths[p])
  {
    hide Low, Pow2, CountPage;
    if Integrity(d) {
      forall p | p in counts ensures counts[p] == Pow2(d.gd - depths[p]) {
        var j :| 0 <= j < Size(d) && d.pg[j] == p;
      }
    }
  }

  /** The second phase of the check: one pass over the pages met in the first. */
  method CountsMatch(counts: map<PageId, nat>, depths: map<PageId, nat>, gd: nat) returns (ok: bool)
    requires counts.Keys == depths.Keys
    requires forall p :: p in depths ==> depths[p] <= gd
    ensures ok <==> forall p :: p in counts ==> counts[p] == Pow2(gd - depths[p])
  {
    hide Pow2;
    var rest := counts.Keys;
    while exists p :: p in rest
      invariant rest <= counts.Keys
      invariant forall p :: p in counts && p !in rest ==> counts[p] == Pow2(gd - depths[p])
      decreases rest
    {
      var p :| p in rest;
      if counts[p] != Pow2(gd - depths[p]) { return false; }
      rest := rest - {p};
    }
    ok := true;
  }
}
