/**
 The backtracking word tracer: a word is accepted when some path of distinct,
 successively adjacent cells spells it symbol by symbol.
 */
module Tracer {

  import opened Board
  import opened Adjacency

  predicate OnGrid(g: Grid, path: seq<Pos>)
  {
    forall i | 0 <= i < |path| :: path[i] in g
  }

  predicate Distinct(path: seq<Pos>)
  {
    forall i, j | 0 <= i < j < |path| :: path[i] != path[j]
  }

  /** The cells a path has already used. */
  function Visited(path: seq<Pos>): set<Pos>
  {
    set x | x in path
  }

  /** The string a path spells: its cells' symbols, joined in order. */
  function Spell(g: Grid, path: seq<Pos>): (s: string)
    requires OnGrid(g, path)
    ensures |s| == |path|
    ensures forall i | 0 <= i < |path| :: s[i] == g[path[i]]
  {
    if path == [] then [] else [g[path[0]]] + Spell(g, path[1..])
  }

  /** The proper, non-empty prefixes of the target: the strings worth extending. */
  function Stems(w: string): (r: set<string>)
    ensures forall s :: s in r <==> 0 < |s| < |w| && s == w[..|s|]
  {
    var r := set i | 1 <= i < |w| :: w[..i];
    assert forall s | 0 < |s| < |w| && s == w[..|s|] :: s in r by {
      forall s | 0 < |s| < |w| && s == w[..|s|] ensures s in r {
        var i := |s|;
        assert w[..i] in r;
      }
    }
    r
  }

  /**
   Depth-first search from a partial path: accepts when the path spells w,
   prunes when the spelled string is not a proper prefix of w, and otherwise
   tries every unvisited neighbour of the last cell.
   */
  function Search(g: Grid, w: string, path: seq<Pos>): (found: bool)
    requires |path| > 0 && OnGrid(g, path) && Distinct(path)
    ensures Spell(g, path) == w ==> found
    ensures found ==> |path| <= |w| && Spell(g, path) == w[..|path|]
    decreases g.Keys - Visited(path), 1
  {
    var s := Spell(g, path);
    s == w || (s in Stems(w) && Extend(g, w, path, AllNeighbours(g)[path[|path| - 1]]))
  }

  /** Tries the candidate cells in order, skipping the ones already on the path. */
  function Extend(g: Grid, w: string, path: seq<Pos>, cands: seq<Pos>): (found: bool)
    requires |path| > 0 && OnGrid(g, path) && Distinct(path)
    requires forall c | c in cands :: c in g
    ensures found ==> |path| < |w|
    decreases g.Keys - Visited(path), 0, |cands|
  {
    if cands == [] then false
    else
      var c := cands[0];
      (c !in path && (
        assert Visited(path + [c]) == Visited(path) + {c};
        Search(g, w, path + [c])))
      || Extend(g, w, path, cands[1..])
  }

  /** A non-empty path of distinct grid cells, each adjacent to the one before. */
  ghost predicate SimplePath(g: Grid, path: seq<Pos>)
  {
    && |path| > 0
    && OnGrid(g, path)
    && Distinct(path)
    && forall i | 0 < i < |path| :: Adjacent(path[i - 1], path[i])
  }

  /** The word can be traced on the board. */
  ghost predicate Traceable(g: Grid, w: string)
  {
    exists path :: SimplePath(g, path) && Spell(g, path) == w
  }

  /** Extend succeeds only through some candidate whose search succeeds. */
  lemma {:induction false} ExtendWitness(g: Grid, w: string, path: seq<Pos>, cands: seq<Pos>)
    returns (c: Pos)
    requires |path| > 0 && OnGrid(g, path) && Distinct(path)
    requires forall c | c in cands :: c in g
    requires Extend(g, w, path, cands)
    ensures c in cands && c !in path && Search(g, w, path + [c])
    decreases |cands|
  {
    if cands[0] !in path && Search(g, w, path + [cands[0]]) {
      c := cands[0];
    } else {
      c := ExtendWitness(g, w, path, cands[1..]);
    }
  }

  /** Extend succeeds as soon as one unvisited candidate's search does. */
  lemma {:induction false} ExtendFinds(g: Grid, w: string, path: seq<Pos>, cands: seq<Pos>, c: Pos)
    requires |path| > 0 && OnGrid(g, path) && Distinct(path)
    requires forall c | c in cands :: c in g
    requires c in cands && c !in path
    requires Search(g, w, path + [c])
    ensures Extend(g, w, path, cands)
    decreases |cands|
  {
    if cands[0] != c {
      ExtendFinds(g, w, path, cands[1..], c);
    }
  }

  /** A simple path stays simple when it grows by an unvisited neighbour of its last cell. */
  lemma ExtendSimple(g: Grid, path: seq<Pos>, c: Pos)
    requires SimplePath(g, path)
    requires c in g && c !in path && Adjacent(path[|path| - 1], c)
    ensures SimplePath(g, path + [c])
  {
    var next := path + [c];
    forall i | 0 < i < |next|
      ensures Adjacent(next[i - 1], next[i])
    {
      if i < |path| {
        assert next[i - 1] == path[i - 1] && next[i] == path[i];
      }
    }
  }

  /** Every non-empty prefix of a simple path is simple and spells the matching prefix. */
  lemma PrefixOfSimple(g: Grid, full: seq<Pos>, k: int)
    requires SimplePath(g, full) && 1 <= k <= |full|
    ensures SimplePath(g, full[..k])
    ensures Spell(g, full[..k]) == Spell(g, full)[..k]
  {
    var path := full[..k];
    assert forall i | 0 <= i < k :: path[i] == full[i];
  }

  /** A successful search that has not yet spelled w continues through some simple extension. */
  lemma SearchStep(g: Grid, w: string, path: seq<Pos>) returns (c: Pos)
    requires SimplePath(g, path)
    requires Search(g, w, path) && Spell(g, path) != w
    ensures c in g && c !in Visited(path)
    ensures SimplePath(g, path + [c]) && Search(g, w, path + [c])
  {
    var last := path[|path| - 1];
    var cands := AllNeighbours(g)[last];
    assert Extend(g, w, path, cands);
    c := ExtendWitness(g, w, path, cands);
    assert c in g && Adjacent(last, c);
    ExtendSimple(g, path, c);
  }

  /** A simple path is a witness for the word it spells. */
  lemma SpelledIsTraceable(g: Grid, path: seq<Pos>)
    requires SimplePath(g, path)
    ensures Traceable(g, Spell(g, path))
  {
  }

  /** Visiting one more cell shrinks the set of unvisited cells. */
  lemma VisitShrinks(g: Grid, path: seq<Pos>, c: Pos)
    requires c in g && c !in Visited(path)
    ensures g.Keys - Visited(path + [c]) < g.Keys - Visited(path)
  {
    assert Visited(path + [c]) == Visited(path) + {c};
  }

  /** Soundness: a successful search from a simple path ends in a simple path spelling w. */
  lemma {:induction false} SearchSound(g: Grid, w: string, path: seq<Pos>)
    requires SimplePath(g, path)
    requires Search(g, w, path)
    ensures Traceable(g, w)
    decreases g.Keys - Visited(path)
  {
    if Spell(g, path) == w {
      SpelledIsTraceable(g, path);
    } else {
      var c := SearchStep(g, w, path);
      VisitShrinks(g, path, c);
      SearchSound(g, w, path + [c]);
    }
  }

  /** Completeness: every prefix of a simple path spelling w is a successful search state. */
  lemma {:induction false} SearchComplete(g: Grid, w: string, full: seq<Pos>, k: int)
    requires SimplePath(g, full) && Spell(g, full) == w
    requires 1 <= k <= |full|
    ensures SimplePath(g, full[..k]) && Search(g, w, full[..k])
    decreases |full| - k
  {
    PrefixOfSimple(g, full, k);
    var path := full[..k];
    if k < |full| {
      SearchComplete(g, w, full, k + 1);
      var c := full[k];
      assert full[..k + 1] == path + [c];
      var cands := AllNeighbours(g)[path[k - 1]];
      assert c in g && Adjacent(full[k - 1], c);
      assert c in cands;
      assert c !in path;
      ExtendFinds(g, w, path, cands, c);
      assert Spell(g, path) in Stems(w);
    } else {
      assert path == full;
    }
  }

  /**
   The tracer: starts a search from every cell. It accepts exactly the words
   that some simple path of adjacent cells spells.
   */
  function Validate(g: Grid, w: string): (ok: bool)
    ensures ok <==> Traceable(g, w)
  {
    ValidateCorrect(g, w);
    exists p | p in g :: Search(g, w, [p])
  }

  lemma ValidateCorrect(g: Grid, w: string)
    ensures (exists p | p in g :: Search(g, w, [p])) <==> Traceable(g, w)
  {
    if p :| p in g && Search(g, w, [p]) {
      SearchSound(g, w, [p]);
    }
    if Traceable(g, w) {
      var full :| SimplePath(g, full) && Spell(g, full) == w;
      SearchComplete(g, w, full, 1);
      assert full[..1] == [full[0]];
    }
  }

  /** The empty word is never accepted. */
  lemma EmptyWordRejected(g: Grid)
    ensures !Validate(g, [])
  {
  }

  /** A word using a symbol absent from the board is never accepted. */
  lemma AbsentSymbolRejected(g: Grid, w: string, i: int)
    requires 0 <= i < |w| && w[i] !in g.Values
    ensures !Validate(g, w)
  {
  }

  /** A word longer than the board has cells is never accepted. */
  lemma TooLongRejected(g: Grid, w: string)
    requires |w| > |g|
    ensures !Validate(g, w)
  {
    if Traceable(g, w) {
      var path :| SimplePath(g, path) && Spell(g, path) == w;
      DistinctBound(g, path);
    }
  }

  lemma {:induction false} DistinctBound(g: Grid, path: seq<Pos>)
    requires OnGrid(g, path) && Distinct(path)
    ensures |path| <= |g|
  {
    DistinctCard(path);
    SubsetCard(Visited(path), g.Keys);
  }

  lemma {:induction false} SubsetCard(a: set<Pos>, b: set<Pos>)
    requires a <= b
    ensures |a| <= |b|
    decreases a
  {
    if a != {} {
      var x :| x in a;
      SubsetCard(a - {x}, b - {x});
    }
  }

  lemma {:induction false} DistinctCard(path: seq<Pos>)
    requires Distinct(path)
    ensures |Visited(path)| == |path|
  {
    if path != [] {
      var init := path[..|path| - 1];
      assert Distinct(init);
      DistinctCard(init);
      assert Visited(path) == Visited(init) + {path[|path| - 1]};
    }
  }
}
