/** The tile vocabulary shared by the level loader, the physics engine and the search node. */
module Tiles {

  /** One grid cell. `Code` gives the byte the C++ code stores for it. */
  datatype Tile = Wall | Empty | Target | BoxOnTarget | Box | Player | PlayerOnTarget {

    function Code(): (c: nat)
      ensures c <= 6
    {
      match this
      case Wall => 0
      case Empty => 1
      case Target => 2
      case BoxOnTarget => 3
      case Box => 4
      case Player => 5
      case PlayerOnTarget => 6
    }

    /** A box stands on the cell, with or without a target under it. */
    predicate IsBoxLike() {
      this == Box || this == BoxOnTarget
    }

    /** A target lies under the cell, whatever stands on it. */
    predicate IsTargetLike() {
      this == Target || this == BoxOnTarget || this == PlayerOnTarget
    }

    /** The player stands on the cell. */
    predicate IsPlayerLike() {
      this == Player || this == PlayerOnTarget
    }
  }

  /** The tile whose byte code is `c`, for the seven codes in use. */
  function FromCode(c: nat): (t: Tile)
    requires c <= 6
    ensures t.Code() == c
  {
    if c == 0 then Wall
    else if c == 1 then Empty
    else if c == 2 then Target
    else if c == 3 then BoxOnTarget
    else if c == 4 then Box
    else if c == 5 then Player
    else PlayerOnTarget
  }

  lemma CodeIsInjective(a: Tile, b: Tile)
    ensures a.Code() == b.Code() ==> a == b
  {
  }

  /** Reading a tile's code back gives the tile. */
  lemma CodeRoundTrip(t: Tile)
    ensures FromCode(t.Code()) == t
  {
    CodeIsInjective(FromCode(t.Code()), t);
  }

  type Grid = seq<Tile>

  /** Number of cells of `g` holding exactly `t`. */
  function Count(g: Grid, t: Tile): nat {
    multiset(g)[t]
  }

  /** Number of cells of `g` holding a box. */
  function CountBoxLike(g: Grid): nat {
    Count(g, Box) + Count(g, BoxOnTarget)
  }

  /** Number of cells of `g` with a target under them. */
  function CountTargetLike(g: Grid): nat {
    Count(g, Target) + Count(g, BoxOnTarget) + Count(g, PlayerOnTarget)
  }

  /** Overwriting one cell changes a count only by what that cell held before and after. */
  lemma CountUpdate(g: Grid, i: nat, v: Tile, t: Tile)
    requires i < |g|
    ensures Count(g[i := v], t) == Count(g, t) - (if g[i] == t then 1 else 0) + (if v == t then 1 else 0)
  {
  }

  /** The count over a prefix grows by the tile that extends it. */
  lemma PrefixCount(g: Grid, n: nat, t: Tile)
    requires 0 < n <= |g|
    ensures Count(g[..n], t) == Count(g[..n - 1], t) + B(g[n - 1] == t)
  {
    assert g[..n] == g[..n - 1] + [g[n - 1]];
    assert multiset(g[..n]) == multiset(g[..n - 1]) + multiset{g[n - 1]};
  }

  lemma UpdateCounts(g: Grid, i: nat, v: Tile)
    requires i < |g|
    ensures Count(g[i := v], Box) == Count(g, Box) - B(g[i] == Box) + B(v == Box)
    ensures CountBoxLike(g[i := v]) == CountBoxLike(g) - B(g[i].IsBoxLike()) + B(v.IsBoxLike())
    ensures CountTargetLike(g[i := v]) == CountTargetLike(g) - B(g[i].IsTargetLike()) + B(v.IsTargetLike())
  {
    CountUpdate(g, i, v, Box);
    CountUpdate(g, i, v, BoxOnTarget);
    CountUpdate(g, i, v, Target);
    CountUpdate(g, i, v, PlayerOnTarget);
  }

  function B(b: bool): int {
    if b then 1 else 0
  }

  // ---------------------------------------------------------------------------
  // Row-major layout: cell (x, y) of a dim x dim room lives at index x + y * dim.

  /** (x, y) lies inside a dim x dim room. */
  predicate InRange(dim: nat, x: int, y: int) {
    0 <= x < dim && 0 <= y < dim
  }

  lemma IndexBounds(dim: nat, x: int, y: int)
    requires InRange(dim, x, y)
    ensures 0 <= x + y * dim < dim * dim
  {
    var m := dim - 1 - y;
    assert 0 <= m * dim && 0 <= y * dim;
    assert m * dim + y * dim == dim * dim - dim;
  }

  /** Column and row are recovered from a cell index by remainder and quotient. */
  lemma IndexDivMod(dim: nat, x: int, y: int)
    requires 0 <= x < dim
    ensures (x + y * dim) / dim == y && (x + y * dim) % dim == x
  {
    var k := x + y * dim;
    var q, r := k / dim, k % dim;
    assert k == q * dim + r;
    var t := q - y;
    assert t * dim == x - r;
    if t >= 1 {
      assert false;
    } else if t <= -1 {
      assert false;
    }
  }

  lemma IndexInjective(dim: nat, x: int, y: int, x': int, y': int)
    requires InRange(dim, x, y) && InRange(dim, x', y')
    requires x + y * dim == x' + y' * dim
    ensures x == x' && y == y'
  {
    IndexDivMod(dim, x, y);
    IndexDivMod(dim, x', y');
  }

  lemma IndexSurjective(dim: nat, k: int)
    requires 0 <= k < dim * dim
    ensures dim > 0 && InRange(dim, k % dim, k / dim) && k % dim + (k / dim) * dim == k
  {
    if dim <= 0 {
      assert false;
    }
    assert k == (k / dim) * dim + k % dim;
    if k / dim >= dim {
      assert false;
    }
  }

}
