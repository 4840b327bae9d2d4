/**
 The 8-neighbour adjacency of the board, clipped to the cells the grid holds.
 */
module Adjacency {

  import opened Board

  /** p and q are distinct and differ by at most one in row and in column. */
  predicate Adjacent(p: Pos, q: Pos)
  {
    p != q && -1 <= q.0 - p.0 <= 1 && -1 <= q.1 - p.1 <= 1
  }

  /** The eight surrounding coordinates, in the bot's order, before clipping. */
  function Candidates(p: Pos): (r: seq<Pos>)
    ensures |r| == 8
    ensures forall q :: q in r <==> Adjacent(p, q)
  {
    var (row, col) := p;
    [(row - 1, col - 1), (row - 1, col), (row - 1, col + 1),
     (row, col - 1), (row, col + 1),
     (row + 1, col - 1), (row + 1, col), (row + 1, col + 1)]
  }

  /** Keeps, in order, the candidates that are cells of g. */
  function KeepOnGrid(cands: seq<Pos>, g: Grid): (r: seq<Pos>)
    ensures forall q :: q in r <==> q in cands && q in g
    ensures |r| <= |cands|
  {
    if cands == [] then []
    else (if cands[0] in g then [cands[0]] else []) + KeepOnGrid(cands[1..], g)
  }

  /** The neighbours of p: exactly the adjacent cells present on the grid. */
  function GridNeighbours(g: Grid, p: Pos): (r: seq<Pos>)
    ensures forall q :: q in r <==> q in g && Adjacent(p, q)
    ensures |r| <= 8
  {
    KeepOnGrid(Candidates(p), g)
  }

  /** The neighbour table of a grid, computed once per validation. */
  function AllNeighbours(g: Grid): (m: map<Pos, seq<Pos>>)
    ensures m.Keys == g.Keys
    ensures forall p, q | p in m :: q in m[p] <==> q in g && Adjacent(p, q)
  {
    map p | p in g :: GridNeighbours(g, p)
  }

  /** A sequence holds at least as many positions as the set of its elements. */
  lemma {:induction false} SetOfSeqBound(s: seq<Pos>)
    ensures |set x | x in s| <= |s|
  {
    if s != [] {
      SetOfSeqBound(s[1..]);
      assert (set x | x in s) == {s[0]} + (set x | x in s[1..]);
    }
  }

  /** Three distinct members force a sequence to have at least three elements. */
  lemma AtLeastThree(r: seq<Pos>, a: Pos, b: Pos, c: Pos)
    requires a in r && b in r && c in r
    requires a != b && b != c && a != c
    ensures 3 <= |r|
  {
    var seen := set x | x in r;
    assert {a, b, c} <= seen;
    assert |{a, b, c}| == 3;
    SetOfSeqBound(r);
  }

  /** On the full 4x4 board every cell has between 3 and 8 neighbours. */
  lemma NeighbourCount(g: Grid, p: Pos)
    requires g.Keys == Cells() && p in g
    ensures 3 <= |GridNeighbours(g, p)| <= 8
  {
    CellsMembership(p);
    var (row, col) := p;
    var dr := if row + 1 < Side then 1 else -1;
    var dc := if col + 1 < Side then 1 else -1;
    var a, b, c := (row + dr, col), (row, col + dc), (row + dr, col + dc);
    CellsMembership(a);
    CellsMembership(b);
    CellsMembership(c);
    assert Adjacent(p, a) && Adjacent(p, b) && Adjacent(p, c);
    AtLeastThree(GridNeighbours(g, p), a, b, c);
  }

  /** Adjacency on a grid is symmetric. */
  lemma NeighboursSymmetric(g: Grid, p: Pos, q: Pos)
    requires p in g && q in g
    ensures q in GridNeighbours(g, p) <==> p in GridNeighbours(g, q)
  {
  }
}
