/**
 The 4x4 letter board: die faces, the two game alphabets and the row-major
 construction of the coordinate-to-symbol grid that the word tracer searches.
 */
module Board {

  /** A cell coordinate: (row, column). */
  type Pos = (int, int)

  /** The board as the bot keeps it: every cell holds one lower-case symbol. */
  type Grid = map<Pos, char>

  /** Only a 4x4 dice set exists, so the side is fixed. */
  const Side: int := 4

  /** A die face: one upper-case letter, or the two-letter face "Qu". */
  datatype Face = Letter(c: char) | Qu

  /** The languages a chat can be set to. */
  datatype Lang = Ita | Eng

  /** The letters a submitted word may use, per language. */
  function Alphabet(lang: Lang): set<char>
  {
    match lang
    case Ita => set c | c in "abcdefghilmnopqrstuvz"
    case Eng => set c | c in "abcdefghijklmnopqrstuvwxyz"
  }

  predicate IsUpper(c: char)
  {
    'A' <= c <= 'Z'
  }

  /** Lower-casing of one character; only ASCII letters change. */
  function LowerChar(c: char): (r: char)
    ensures !IsUpper(r)
    ensures !IsUpper(c) ==> r == c
  {
    if IsUpper(c) then (c as int - 'A' as int + 'a' as int) as char else c
  }

  /** The search symbol of a face: "Qu" collapses to the single symbol 'q'. */
  function Symbol(f: Face): char
  {
    match f
    case Qu => 'q'
    case Letter(c) => LowerChar(c)
  }

  /** Every coordinate of the 4x4 board. */
  function Cells(): set<Pos>
  {
    set r, c | 0 <= r < Side && 0 <= c < Side :: (r, c)
  }

  predicate InCells(p: Pos)
  {
    0 <= p.0 < Side && 0 <= p.1 < Side
  }

  lemma CellsMembership(p: Pos)
    ensures p in Cells() <==> InCells(p)
  {
    if InCells(p) {
      var r, c := p.0, p.1;
      assert (r, c) in Cells();
    }
  }

  /** Lays the faces out row by row: face i goes to cell (i / 4, i % 4). */
  function BuildGrid(faces: seq<Face>): (g: Grid)
    requires |faces| == Side * Side
    ensures g.Keys == Cells()
    ensures forall p | p in g :: InCells(p) && g[p] == Symbol(faces[p.0 * Side + p.1])
  {
    map p | p in Cells() :: Symbol(faces[p.0 * Side + p.1])
  }

  /** Reads a board back in row-major order. */
  function RowMajor(g: Grid): (s: seq<char>)
    requires Cells() <= g.Keys
    ensures |s| == Side * Side
  {
    seq(Side * Side, i requires 0 <= i < Side * Side =>
      CellsMembership((i / Side, i % Side));
      g[(i / Side, i % Side)])
  }

  /** Building a board and reading it back row by row gives the faces' symbols in order. */
  lemma BuildGridRowMajor(faces: seq<Face>)
    requires |faces| == Side * Side
    ensures RowMajor(BuildGrid(faces)) == seq(Side * Side, i requires 0 <= i < Side * Side => Symbol(faces[i]))
  {
    var g := BuildGrid(faces);
    forall i | 0 <= i < Side * Side
      ensures RowMajor(g)[i] == Symbol(faces[i])
    {
      var p := (i / Side, i % Side);
      CellsMembership(p);
      assert p.0 * Side + p.1 == i;
    }
  }

  /** The "Qu" face is searched as 'q', and no other die of the game yields 'q'. */
  lemma QuIsSingleSymbol(faces: seq<Face>, i: int)
    requires |faces| == Side * Side && 0 <= i < Side * Side
    requires forall k | 0 <= k < |faces| :: faces[k].Letter? ==> IsUpper(faces[k].c) && faces[k].c != 'Q'
    ensures RowMajor(BuildGrid(faces))[i] == 'q' <==> faces[i] == Qu
  {
    BuildGridRowMajor(faces);
  }
}
