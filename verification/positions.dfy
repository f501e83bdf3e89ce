/** Board coordinates as the search code stores them (`std::pair<int, int>`), the pair order that
    `std::sort` uses on them, and a sort whose result depends only on the multiset sorted. */
module Positions {
  import opened Tiles

  datatype Pos = Pos(x: int, y: int) {
    function Plus(dx: int, dy: int): Pos {
      Pos(x + dx, y + dy)
    }
  }

  /** Whether a coordinate lies on a dim x dim board. */
  predicate OnBoard(dim: nat, p: Pos) {
    InRange(dim, p.x, p.y)
  }

  /** The row-major index of a coordinate. */
  function Index(dim: nat, p: Pos): (k: int)
    ensures OnBoard(dim, p) ==> 0 <= k < dim * dim
  {
    if OnBoard(dim, p) then IndexBounds(dim, p.x, p.y); p.x + p.y * dim
    else p.x + p.y * dim
  }

  /** The coordinate of a row-major index. */
  function PosOf(dim: nat, k: nat): (p: Pos)
    requires dim > 0
  {
    Pos(k % dim, k / dim)
  }

  /** Index and coordinate are inverse on the board. */
  lemma PosOfIndex(dim: nat, p: Pos)
    requires OnBoard(dim, p)
    ensures 0 <= Index(dim, p) < dim * dim && PosOf(dim, Index(dim, p)) == p
  {
    IndexBounds(dim, p.x, p.y);
    IndexDivMod(dim, p.x, p.y);
  }

  lemma IndexOfPos(dim: nat, k: nat)
    requires k < dim * dim
    ensures dim > 0 && OnBoard(dim, PosOf(dim, k)) && Index(dim, PosOf(dim, k)) == k
  {
    IndexSurjective(dim, k);
  }

  /** Distinct indices have distinct coordinates. */
  lemma PosOfInjective(dim: nat, k: nat, k': nat)
    requires dim > 0 && PosOf(dim, k) == PosOf(dim, k')
    ensures k == k'
  {
    assert k == k % dim + (k / dim) * dim;
    assert k' == k' % dim + (k' / dim) * dim;
  }

  /** Manhattan distance. */
  function Manhattan(a: Pos, b: Pos): (d: nat)
    ensures d == 0 <==> a == b
  {
    (if a.x < b.x then b.x - a.x else a.x - b.x) + (if a.y < b.y then b.y - a.y else a.y - b.y)
  }

  // ---------------------------------------------------------------------------
  // The order of std::pair: by first component, then by second

  predicate Below(a: Pos, b: Pos) {
    a.x < b.x || (a.x == b.x && a.y <= b.y)
  }

  predicate Sorted(s: seq<Pos>) {
    forall i, j :: 0 <= i < j < |s| ==> Below(s[i], s[j])
  }

  /** `x` inserted into a sorted sequence before the first element above it. */
  function Insert(x: Pos, s: seq<Pos>): (r: seq<Pos>)
    requires Sorted(s)
    ensures Sorted(r) && multiset(r) == multiset(s) + multiset{x}
    ensures |r| == |s| + 1 && (r[0] == x || (|s| > 0 && r[0] == s[0]))
  {
    if |s| == 0 then [x]
    else if Below(x, s[0]) then [x] + s
    else
      var rest := Insert(x, s[1..]);
      assert s == [s[0]] + s[1..];
      assert Below(s[0], rest[0]);
      [s[0]] + rest
  }

  /** The sorted arrangement of `s`: the order `std::sort` leaves it in. */
  function Sort(s: seq<Pos>): (r: seq<Pos>)
    ensures Sorted(r) && multiset(r) == multiset(s)
  {
    if |s| == 0 then []
    else
      assert s == s[..|s| - 1] + [s[|s| - 1]];
      Insert(s[|s| - 1], Sort(s[..|s| - 1]))
  }

  /** The least element of a sorted sequence is below every element of it. */
  lemma SortedHeadIsLeast(s: seq<Pos>, p: Pos)
    requires Sorted(s) && p in multiset(s)
    ensures |s| > 0 && Below(s[0], p)
  {
    var k :| 0 <= k < |s| && s[k] == p;
  }

  /** Two sorted sequences with the same elements are the same sequence. */
  lemma {:induction false} SortedUnique(a: seq<Pos>, b: seq<Pos>)
    requires Sorted(a) && Sorted(b) && multiset(a) == multiset(b)
    ensures a == b
  {
    if |a| > 0 {
      assert a[0] in multiset(b);
      assert b[0] in multiset(a) by {
        assert b[0] in multiset(b);
      }
      SortedHeadIsLeast(b, a[0]);
      SortedHeadIsLeast(a, b[0]);
      assert a[0] == b[0];
      MultisetTail(a);
      MultisetTail(b);
      SortedUnique(a[1..], b[1..]);
      assert a == [a[0]] + a[1..] && b == [b[0]] + b[1..];
    }
  }

  /** Dropping the head removes one copy of it from the multiset. */
  lemma MultisetTail(s: seq<Pos>)
    requires |s| > 0
    ensures multiset(s[1..]) == multiset(s) - multiset{s[0]}
  {
    assert s == [s[0]] + s[1..];
  }

  /** Every sorted arrangement of `s` is the one `Sort` gives. */
  lemma SortIsTheSortedArrangement(s: seq<Pos>)
    ensures forall t :: Sorted(t) && multiset(t) == multiset(s) ==> t == Sort(s)
  {
    forall t | Sorted(t) && multiset(t) == multiset(s)
      ensures t == Sort(s)
    {
      SortedUnique(t, Sort(s));
    }
  }

  /** Sorting forgets the order of its input. */
  lemma SortIgnoresOrder(s: seq<Pos>, t: seq<Pos>)
    requires multiset(s) == multiset(t)
    ensures Sort(s) == Sort(t)
  {
    SortedUnique(Sort(s), Sort(t));
  }
}
