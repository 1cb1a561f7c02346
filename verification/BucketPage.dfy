/** The bucket page as it lies in memory: two bitmaps packed eight slots to a byte and an array
    of pairs, all updated in place. Every method is proved against the functions of `Bucket`. */
module BucketPage {
  import opened Bucket

  /** `1 << which`, for a position inside a byte. */
  function Mask(which: nat): (m: bv8)
    requires which < 8
    ensures m != 0
  {
    if which == 0 then 1 else if which == 1 then 2 else if which == 2 then 4 else if which == 3 then 8
    else if which == 4 then 16 else if which == 5 then 32 else if which == 6 then 64 else 128
  }

  predicate Bit(b: bv8, which: nat)
    requires which < 8
  {
    b & Mask(which) != 0
  }

  function WithBit(b: bv8, which: nat, on: bool): bv8
    requires which < 8
  {
    if on then b | Mask(which) else b & !Mask(which)
  }

  /** Setting one bit of a byte changes that bit and no other. */
  lemma WithBitChangesOne(b: bv8, which: nat, on: bool, j: nat)
    requires which < 8 && j < 8
    ensures Bit(WithBit(b, which, on), j) <==> if j == which then on else Bit(b, j)
  {
  }

  function BitCount(b: bv8, k: nat): (n: nat)
    requires k <= 8
    ensures n <= k
  {
    if k == 0 then 0 else BitCount(b, k - 1) + (if Bit(b, k - 1) then 1 else 0)
  }

  /** `b & (b - 1)` clears exactly one bit. */
  lemma ClearLowest(b: bv8)
    requires b != 0
    ensures BitCount(b, 8) == BitCount(b & (b - 1), 8) + 1
  {
    Unroll(b); Unroll(b & (b - 1));
  }

  lemma Unroll(b: bv8)
    ensures BitCount(b, 8) ==
            (if b & 1 != 0 then 1 else 0) + (if b & 2 != 0 then 1 else 0) + (if b & 4 != 0 then 1 else 0)
            + (if b & 8 != 0 then 1 else 0) + (if b & 16 != 0 then 1 else 0) + (if b & 32 != 0 then 1 else 0)
            + (if b & 64 != 0 then 1 else 0) + (if b & 128 != 0 then 1 else 0)
  {
    assert BitCount(b, 2) == (if b & 1 != 0 then 1 else 0) + (if b & 2 != 0 then 1 else 0);
    assert BitCount(b, 4) == BitCount(b, 2) + (if b & 4 != 0 then 1 else 0) + (if b & 8 != 0 then 1 else 0);
    assert BitCount(b, 6) == BitCount(b, 4) + (if b & 16 != 0 then 1 else 0) + (if b & 32 != 0 then 1 else 0);
  }

  // ---------------------------------------------------------------- bitmaps as bit sequences

  /** Slot i's bit, at `GetLocation(i)`. */
  predicate BitAt(bytes: seq<bv8>, i: nat)
    requires i < 8 * |bytes|
  {
    Bit(bytes[i / 8], i % 8)
  }

  function Flat(bytes: seq<bv8>, n: nat): seq<bool>
    requires n <= 8 * |bytes|
  {
    seq(n, i requires 0 <= i < n => BitAt(bytes, i))
  }

  predicate ClearFrom(bytes: seq<bv8>, cap: nat) {
    forall i: nat :: cap <= i < 8 * |bytes| ==> !BitAt(bytes, i)
  }

  function SumCounts(bytes: seq<bv8>): nat {
    if bytes == [] then 0 else SumCounts(bytes[..|bytes| - 1]) + BitCount(bytes[|bytes| - 1], 8)
  }

  lemma FlatSnoc(bytes: seq<bv8>, m: nat, k: nat)
    requires m < |bytes| && k < 8
    ensures CountTrue(Flat(bytes, 8 * m + k + 1)) == CountTrue(Flat(bytes, 8 * m + k)) + (if Bit(bytes[m], k) then 1 else 0)
  {
    var f := Flat(bytes, 8 * m + k + 1);
    assert f[..|f| - 1] == Flat(bytes, 8 * m + k);
    assert f[|f| - 1] == Bit(bytes[m], k);
    hide Flat, Bit;
  }

  lemma {:induction false} FlatCount(bytes: seq<bv8>, m: nat, k: nat)
    requires m < |bytes| && k <= 8
    ensures CountTrue(Flat(bytes, 8 * m + k)) == SumCounts(bytes[..m]) + BitCount(bytes[m], k)
    decreases m, k
  {
    if k > 0 {
      FlatCount(bytes, m, k - 1);
      FlatSnoc(bytes, m, k - 1);
      hide Flat, Bit, SumCounts;
    } else if m > 0 {
      FlatCount(bytes, m - 1, 8);
      assert bytes[..m][..m - 1] == bytes[..m - 1];
      hide Flat, Bit;
    }
  }

  /** Bits past the last slot are never set, so counting whole bytes counts the slots. */
  lemma {:induction false} TailAddsNothing(bytes: seq<bv8>, cap: nat, n: nat)
    requires cap <= n <= 8 * |bytes|
    requires ClearFrom(bytes, cap)
    ensures CountTrue(Flat(bytes, n)) == CountTrue(Flat(bytes, cap))
  {
    if n > cap {
      TailAddsNothing(bytes, cap, n - 1);
      assert Flat(bytes, n)[..n - 1] == Flat(bytes, n - 1);
      assert !BitAt(bytes, n - 1);
    }
  }

  lemma BytesCountSlots(bytes: seq<bv8>, cap: nat)
    requires 0 < cap && |bytes| == (cap - 1) / 8 + 1
    requires ClearFrom(bytes, cap)
    ensures SumCounts(bytes) == CountTrue(Flat(bytes, cap))
  {
    hide Bit, BitCount, CountTrue, Flat;
    FlatCount(bytes, |bytes| - 1, 8);
    TailAddsNothing(bytes, cap, 8 * |bytes|);
  }

  // ---------------------------------------------------------------- the page

  class HashTableBucketPage<K(==), V(==)> {
    const cap: nat
    const occupied: array<bv8>
    const readable: array<bv8>
    const slots: array<(K, V)>

    ghost predicate Ok()
      reads readable
    {
      && cap > 0 && occupied != readable
      && occupied.Length == readable.Length == (cap - 1) / 8 + 1
      && slots.Length == cap
      && slots as object != occupied && slots as object != readable
      && ClearFrom(readable[..], cap)
    }

    ghost function View(): Page<K, V>
      reads occupied, readable, slots
      requires Ok()
    {
      Page(Flat(occupied[..], cap), Flat(readable[..], cap), slots[..])
    }

    constructor (cap: nat, zero: (K, V))
      requires cap > 0
      ensures Ok() && this.cap == cap && fresh(occupied) && fresh(readable) && fresh(slots)
      ensures View() == Empty(cap, zero)
    {
      this.cap := cap;
      var n := (cap - 1) / 8 + 1;
      occupied := new bv8[n](_ => 0);
      readable := new bv8[n](_ => 0);
      slots := new (K, V)[cap](_ => zero);
    }

    function IsReadable(i: nat): (r: bool)
      reads readable, occupied, slots
      requires Ok() && i < cap
      ensures r == View().readable[i]
    {
      BitAt(readable[..], i)
    }

    function IsOccupied(i: nat): (r: bool)
      reads readable, occupied, slots
      requires Ok() && i < cap
      ensures r == View().occupied[i]
    {
      BitAt(occupied[..], i)
    }

    method SetReadable(i: nat, on: bool)
      requires Ok() && i < cap
      modifies readable
      ensures Ok() && View() == old(View()).(readable := old(View().readable)[i := on])
    {
      var at := i / 8;
      ghost var before := readable[..];
      readable[at] := WithBit(readable[at], i % 8, on);
      forall j: nat | j < 8 * readable.Length
        ensures BitAt(readable[..], j) <==> if j == i then on else BitAt(before, j)
      {
        WithBitChangesOne(before[at], i % 8, on, j % 8);
      }
      assert Flat(readable[..], cap) == Flat(before, cap)[i := on];
    }

    method SetOccupied(i: nat, on: bool)
      requires Ok() && i < cap
      modifies occupied
      ensures Ok() && View() == old(View()).(occupied := old(View().occupied)[i := on])
    {
      var at := i / 8;
      ghost var before := occupied[..];
      occupied[at] := WithBit(occupied[at], i % 8, on);
      forall j: nat | j < 8 * occupied.Length
        ensures BitAt(occupied[..], j) <==> if j == i then on else BitAt(before, j)
      {
        WithBitChangesOne(before[at], i % 8, on, j % 8);
      }
      assert Flat(occupied[..], cap) == Flat(before, cap)[i := on];
    }

    /** Byte by byte, clearing the lowest set bit until none is left. */
    method NumReadable() returns (n: nat)
      requires Ok()
      ensures n == Bucket.NumReadable(View())
    {
      n := 0;
      for i := 0 to readable.Length
        invariant n == SumCounts(readable[..i])
      {
        var byte := readable[i];
        while byte != 0
          invariant n + BitCount(byte, 8) == SumCounts(readable[..i]) + BitCount(readable[i], 8)
          decreases byte
        {
          ClearLowest(byte);
          byte := byte & (byte - 1);
          n := n + 1;
        }
        Unroll(0);
        assert readable[..i + 1][..i] == readable[..i];
      }
      assert readable[..readable.Length] == readable[..];
      BytesCountSlots(readable[..], cap);
    }

    method IsFull() returns (r: bool)
      requires Ok()
      ensures r == Bucket.IsFull(View())
    {
      var n := NumReadable();
      r := n == cap;
    }

    method IsEmpty() returns (r: bool)
      requires Ok()
      ensures r == Bucket.IsEmpty(View())
    {
      var n := NumReadable();
      r := n == 0;
    }

    /** Appends the live values of `key` to `result`; says whether `result` ends up nonempty. */
    method GetValue(key: K, result: seq<V>) returns (found: bool, values: seq<V>)
      requires Ok()
      ensures values == result + Scan(View(), key, 0)
      ensures found <==> values != []
    {
      values := result;
      var i := 0;
      while i < cap
        invariant i <= cap
        invariant values + Scan(View(), key, i) == result + Scan(View(), key, 0)
      {
        if !IsReadable(i) {
          if !IsOccupied(i) { break; }
        } else if slots[i].0 == key {
          assert values + [slots[i].1] + Scan(View(), key, i + 1) == values + ([slots[i].1] + Scan(View(), key, i + 1));
          values := values + [slots[i].1];
        }
        i := i + 1;
      }
      found := values != [];
    }

    method Insert(key: K, value: V) returns (success: bool)
      requires Ok()
      modifies occupied, readable, slots
      ensures Ok() && (View(), success) == Bucket.Insert(old(View()), key, value)
    {
      var full := IsFull();
      if full { return false; }
      var _, result := GetValue(key, []);
      if value in result { return false; }
      var i := 0;
      while i < cap
        invariant i <= cap && Ok() && View() == old(View())
        invariant FirstFree(View(), 0) == FirstFree(View(), i)
      {
        if !IsReadable(i) {
          slots[i] := (key, value);
          assert View() == old(View()).(slots := old(View().slots)[i := (key, value)]);
          SetReadable(i, true);
          SetOccupied(i, true);
          assert View() == Put(old(View()), i, key, value);
          return true;
        }
        i := i + 1;
      }
      success := true;
    }

    method Remove(key: K, value: V) returns (success: bool)
      requires Ok()
      modifies readable
      ensures Ok() && (View(), success) == Bucket.Remove(old(View()), key, value)
    {
      var i := 0;
      while i < cap
        invariant i <= cap && Ok() && View() == old(View())
        invariant Find(View(), key, value, 0) == Find(View(), key, value, i)
      {
        if IsReadable(i) && slots[i].0 == key && slots[i].1 == value {
          SetReadable(i, false);
          return true;
        }
        i := i + 1;
      }
      success := false;
    }

    method RemoveAt(i: nat)
      requires Ok() && i < cap
      modifies occupied, readable
      ensures Ok() && View() == Bucket.RemoveAt(old(View()), i)
    {
      SetOccupied(i, true);
      SetReadable(i, false);
    }
  }
}
