/** What several components share: page and record ids, bytes, transaction states, options. */
module Common {

  type Byte = b: nat | b < 256
  type Bytes = seq<Byte>

  type PageId = int

  const INVALID_PAGE_ID: PageId := -1

  /** The page size is a build constant; nothing depends on its value. */
  type PageSize = n: nat | 128 <= n < 0x8000_0000 witness 4096

  const PAGE_SIZE: PageSize

  function Zeros(n: nat): Bytes { seq(n, _ => 0) }

  datatype Rid = Rid(page: PageId, slot: nat)

  datatype TxnState = Growing | Shrinking | Committed | Aborted

  datatype Option<T> = None | Some(value: T)

  lemma SubsetOfSameSize<T>(a: set<T>, b: set<T>)
    requires a <= b && |a| == |b|
    ensures a == b
  {
    assert b == a + (b - a);
    assert |b| == |a| + |b - a|;
  }

  /** An injection leaves a set as large as it was. */
  lemma {:induction false} SameSize<A, B>(a: set<A>, b: set<B>, f: A -> B)
    requires forall x, y :: x in a && y in a && f(x) == f(y) ==> x == y
    requires forall x :: x in a ==> f(x) in b
    requires forall y :: y in b ==> exists x :: x in a && f(x) == y
    ensures |a| == |b|
  {
    if a == {} {
      assert b == {};
    } else {
      var x :| x in a;
      forall y | y in b - {f(x)} ensures exists z :: z in a - {x} && f(z) == y {
        var z :| z in a && f(z) == y;
        assert z in a - {x};
      }
      SameSize(a - {x}, b - {f(x)}, f);
    }
  }

  /** The remainder, from any quotient that leaves one. */
  lemma ModUnique(x: int, n: nat, q: int, r: nat)
    requires r < n && x == q * n + r
    ensures x % n == r
  {
    var d := q - x / n;
    assert d * n == x % n - r;
    Multiple(d, n);
  }

  lemma {:induction false} Multiple(d: int, n: int)
    requires n > 0
    ensures d > 0 ==> d * n >= n
    ensures d < 0 ==> d * n <= 0 - n
    decreases if d < 0 then 0 - d else d
  {
    if d > 1 { Multiple(d - 1, n); }
    if d < -1 { Multiple(d + 1, n); }
  }
}
