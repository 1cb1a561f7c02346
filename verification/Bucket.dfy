/** A bucket page of the index as a value: the two bitmaps, the slot array, and the operations
    of the page as functions, with their meaning as a set of pairs. */
module Bucket {

  /** `readable[i]`: slot i holds a live pair; `occupied[i]`: slot i has ever held one. */
  datatype Page<K, V> = Page(occupied: seq<bool>, readable: seq<bool>, slots: seq<(K, V)>)

  predicate Sized<K, V>(b: Page<K, V>, cap: nat) {
    cap > 0 && |b.occupied| == |b.readable| == |b.slots| == cap
  }

  /** Live slots were occupied, occupied slots form a prefix, no pair is stored twice. */
  ghost predicate Valid<K, V>(b: Page<K, V>, cap: nat) {
    && Sized(b, cap)
    && (forall i :: 0 <= i < cap && b.readable[i] ==> b.occupied[i])
    && (forall i, j :: 0 <= i < j < cap && b.occupied[j] ==> b.occupied[i])
    && (forall i, j :: 0 <= i < j < cap && b.readable[i] && b.readable[j] ==> b.slots[i] != b.slots[j])
  }

  ghost function Pairs<K, V>(b: Page<K, V>): set<(K, V)>
    requires |b.readable| == |b.slots|
  {
    set i | 0 <= i < |b.readable| && b.readable[i] :: b.slots[i]
  }

  /** A page of zero bytes. */
  function Empty<K, V>(cap: nat, zero: (K, V)): Page<K, V> {
    Page(seq(cap, _ => false), seq(cap, _ => false), seq(cap, _ => zero))
  }

  function CountTrue(s: seq<bool>): (n: nat)
    ensures n <= |s|
  {
    if s == [] then 0 else CountTrue(s[..|s| - 1]) + (if s[|s| - 1] then 1 else 0)
  }

  function NumReadable<K, V>(b: Page<K, V>): nat { CountTrue(b.readable) }

  predicate IsFull<K, V>(b: Page<K, V>) { NumReadable(b) == |b.readable| }

  predicate IsEmpty<K, V>(b: Page<K, V>) { NumReadable(b) == 0 }

  lemma {:induction false} CountIsAll(s: seq<bool>)
    ensures CountTrue(s) == |s| <==> forall i :: 0 <= i < |s| ==> s[i]
    ensures CountTrue(s) == 0 <==> forall i :: 0 <= i < |s| ==> !s[i]
  {
    if s != [] {
      CountIsAll(s[..|s| - 1]);
      assert forall i :: 0 <= i < |s| - 1 ==> s[..|s| - 1][i] == s[i];
    }
  }

  // ---------------------------------------------------------------- lookup

  /** The scan of the page from slot i on, stopping at the first never-occupied slot. */
  function Scan<K(==), V>(b: Page<K, V>, key: K, i: nat): seq<V>
    requires |b.occupied| == |b.readable| == |b.slots| && i <= |b.slots|
    decreases |b.slots| - i
  {
    if i == |b.slots| then []
    else if !b.readable[i] then
      if !b.occupied[i] then [] else Scan(b, key, i + 1)
    else if b.slots[i].0 == key then [b.slots[i].1] + Scan(b, key, i + 1)
    else Scan(b, key, i + 1)
  }

  /** The early stop loses nothing: the scan finds exactly the live values of the key, once each. */
  lemma {:induction false} ScanFindsAll<K, V>(b: Page<K, V>, cap: nat, key: K, i: nat)
    requires Valid(b, cap) && i <= cap
    ensures forall v :: v in Scan(b, key, i) <==>
              exists j {:trigger b.slots[j]} :: i <= j < cap && b.readable[j] && b.slots[j] == (key, v)
    ensures forall m, n :: 0 <= m < n < |Scan(b, key, i)| ==> Scan(b, key, i)[m] != Scan(b, key, i)[n]
    decreases cap - i
  {
    if i < cap {
      ScanFindsAll(b, cap, key, i + 1);
    }
  }

  lemma LookupIsExact<K, V>(b: Page<K, V>, cap: nat, key: K)
    requires Valid(b, cap)
    ensures forall v :: v in Scan(b, key, 0) <==> (key, v) in Pairs(b)
    ensures forall m, n :: 0 <= m < n < |Scan(b, key, 0)| ==> Scan(b, key, 0)[m] != Scan(b, key, 0)[n]
  {
    ScanFindsAll(b, cap, key, 0);
  }

  // ---------------------------------------------------------------- insertion

  /** First slot at or after i that holds no live pair. */
  function FirstFree<K, V>(b: Page<K, V>, i: nat): (r: nat)
    requires i <= |b.readable|
    ensures i <= r <= |b.readable|
    ensures r < |b.readable| ==> !b.readable[r]
    ensures forall j :: i <= j < r ==> b.readable[j]
    decreases |b.readable| - i
  {
    if i == |b.readable| || !b.readable[i] then i else FirstFree(b, i + 1)
  }

  function Put<K, V>(b: Page<K, V>, i: nat, key: K, value: V): Page<K, V>
    requires |b.occupied| == |b.readable| == |b.slots| && i < |b.slots|
  {
    Page(b.occupied[i := true], b.readable[i := true], b.slots[i := (key, value)])
  }

  function Insert<K(==), V(==)>(b: Page<K, V>, key: K, value: V): (Page<K, V>, bool)
    requires |b.occupied| == |b.readable| == |b.slots|
  {
    if IsFull(b) || value in Scan(b, key, 0) then (b, false)
    else
      var i := FirstFree(b, 0);
      if i == |b.slots| then (b, true) else (Put(b, i, key, value), true)
  }

  lemma InsertAddsPair<K, V>(b: Page<K, V>, cap: nat, key: K, value: V)
    requires Valid(b, cap)
    ensures Valid(Insert(b, key, value).0, cap)
    ensures Insert(b, key, value).1 <==> !IsFull(b) && (key, value) !in Pairs(b)
    ensures Pairs(Insert(b, key, value).0) ==
            if IsFull(b) then Pairs(b) else Pairs(b) + {(key, value)}
  {
    CountIsAll(b.readable);
    LookupIsExact(b, cap, key);
    var i := FirstFree(b, 0);
    var r := Insert(b, key, value).0;
    if !IsFull(b) && value !in Scan(b, key, 0) {
      assert r.slots[i] == (key, value) && r.readable[i];
      forall p | p in Pairs(b) + {(key, value)} ensures p in Pairs(r) {
        if p != (key, value) {
          var j :| 0 <= j < cap && b.readable[j] && b.slots[j] == p;
          assert r.readable[j] && r.slots[j] == p;
        }
      }
    }
  }

  // ---------------------------------------------------------------- removal

  function RemoveAt<K, V>(b: Page<K, V>, i: nat): Page<K, V>
    requires |b.occupied| == |b.readable| == |b.slots| && i < |b.slots|
  {
    b.(occupied := b.occupied[i := true], readable := b.readable[i := false])
  }

  /** First live slot at or after i that holds exactly this pair. */
  function Find<K(==), V(==)>(b: Page<K, V>, key: K, value: V, i: nat): (r: nat)
    requires |b.readable| == |b.slots| && i <= |b.slots|
    ensures i <= r <= |b.slots|
    ensures r < |b.slots| ==> b.readable[r] && b.slots[r] == (key, value)
    ensures forall j :: i <= j < r ==> !(b.readable[j] && b.slots[j] == (key, value))
    decreases |b.slots| - i
  {
    if i == |b.slots| || (b.readable[i] && b.slots[i].0 == key && b.slots[i].1 == value) then i
    else Find(b, key, value, i + 1)
  }

  function Remove<K(==), V(==)>(b: Page<K, V>, key: K, value: V): (Page<K, V>, bool)
    requires |b.occupied| == |b.readable| == |b.slots|
  {
    var i := Find(b, key, value, 0);
    if i == |b.slots| then (b, false) else (b.(readable := b.readable[i := false]), true)
  }

  lemma {:induction false} RemoveDropsPair<K, V>(b: Page<K, V>, cap: nat, key: K, value: V)
    requires Valid(b, cap)
    ensures Valid(Remove(b, key, value).0, cap)
    ensures Remove(b, key, value).1 <==> (key, value) in Pairs(b)
    ensures Pairs(Remove(b, key, value).0) == Pairs(b) - {(key, value)}
  {
    var i := Find(b, key, value, 0);
    var r := Remove(b, key, value).0;
    forall p | p in Pairs(b) - {(key, value)} ensures p in Pairs(r) {
      var j :| 0 <= j < cap && b.readable[j] && b.slots[j] == p;
      assert r.readable[j] && r.slots[j] == p;
    }
  }

  /** Counting live slots counts stored pairs, so a bucket is full or empty exactly when its set
      of pairs is. */
  lemma {:induction false} NumReadableCountsPairs<K, V>(b: Page<K, V>, cap: nat)
    requires Valid(b, cap)
    ensures NumReadable(b) == |Pairs(b)|
    ensures IsFull(b) <==> |Pairs(b)| == cap
    ensures IsEmpty(b) <==> Pairs(b) == {}
  {
    PrefixCount(b, cap, cap);
    assert b.readable[..cap] == b.readable;
    assert Pairs(b) == set i | 0 <= i < cap && b.readable[i] :: b.slots[i];
  }

  lemma {:induction false} PrefixCount<K, V>(b: Page<K, V>, cap: nat, n: nat)
    requires Valid(b, cap) && n <= cap
    ensures CountTrue(b.readable[..n]) == |set i | 0 <= i < n && b.readable[i] :: b.slots[i]|
  {
    if n > 0 {
      PrefixCount(b, cap, n - 1);
      var s, t := (set i | 0 <= i < n - 1 && b.readable[i] :: b.slots[i]), (set i | 0 <= i < n && b.readable[i] :: b.slots[i]);
      assert b.readable[..n][..n - 1] == b.readable[..n - 1];
      if b.readable[n - 1] {
        assert t == s + {b.slots[n - 1]};
        assert b.slots[n - 1] !in s;
      } else {
        assert t == s;
      }
    }
  }
}
