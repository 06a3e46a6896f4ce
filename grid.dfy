/** The board of the puzzle: coordinates, cells, the fixed letter template and the
    construction of the cell grid from that template. */
module Grid {

  /** A grid coordinate: the `{ row, col }` records the component keeps in its selection. */
  datatype Pos = Pos(row: int, col: int)

  /** One square of the board. `isBlank` marks the decorative squares, which can never
      be selected. Every template entry is a one-character string, so the letter is a `char`. */
  datatype Cell = Cell(letter: char, row: int, col: int, isBlank: bool)

  /** The marker the template uses for a blank square. */
  const BlankLetter: char := ' '

  const GridSize: nat := 12

  /** The pre-designed 12 x 12 board, one string per row. */
  const GridTemplate: seq<string> := [
    "AQUECERLMNOP",
    "VBCDEFGHIJKL",
    "ISOFANOPQRST",
    "AUVWXYZABCDE",
    "GFGHIJKLMNOP",
    "EQRSTUVWXYZA",
    "NPAI NATALBC",
    "SDEFRIOIJKLM",
    " OPQ STU WXY",
    "ARVOREBCDEFG",
    "ZABCDEFGHIJK",
    "LMNOPQRSTUVW"
  ]

  /** All rows have the length of the first one. */
  predicate Rectangular<T>(g: seq<seq<T>>) {
    forall r :: 0 <= r < |g| ==> |g[r]| == |g[0]|
  }

  predicate InBounds<T>(g: seq<seq<T>>, p: Pos) {
    0 <= p.row < |g| && 0 <= p.col < |g[p.row]|
  }

  predicate AllInBounds<T>(g: seq<seq<T>>, ps: seq<Pos>) {
    forall k :: 0 <= k < |ps| ==> InBounds(g, ps[k])
  }

  /** Every cell carries its own coordinates, and is blank exactly when its letter is the blank marker. */
  predicate WellFormed(g: seq<seq<Cell>>) {
    forall r, c :: 0 <= r < |g| && 0 <= c < |g[r]| ==>
      g[r][c].row == r && g[r][c].col == c && (g[r][c].isBlank <==> g[r][c].letter == BlankLetter)
  }

  /** The letters of a grid, row by row: the template the grid shows. */
  function Letters(g: seq<seq<Cell>>): seq<string> {
    seq(|g|, r requires 0 <= r < |g| => seq(|g[r]|, c requires 0 <= c < |g[r]| => g[r][c].letter))
  }

  /** The cell grid built from a template by a nested map over rows and columns. The result is
      well formed and shows exactly the template's letters, so nothing of the template is lost. */
  function BuildGrid(template: seq<string>): (g: seq<seq<Cell>>)
    ensures WellFormed(g)
    ensures Letters(g) == template
  {
    var g := seq(|template|, r requires 0 <= r < |template| =>
      seq(|template[r]|, c requires 0 <= c < |template[r]| =>
        Cell(template[r][c], r, c, template[r][c] == BlankLetter)));
    assert forall r :: 0 <= r < |g| ==> Letters(g)[r] == template[r];
    g
  }

  function IsBlankAt(g: seq<seq<Cell>>, p: Pos): bool
    requires InBounds(g, p)
  {
    g[p.row][p.col].isBlank
  }

  function LetterAt(g: seq<seq<Cell>>, p: Pos): char
    requires InBounds(g, p)
  {
    g[p.row][p.col].letter
  }

  /** A well-formed 12 x 12 grid. */
  predicate BoardShape(g: seq<seq<Cell>>) {
    |g| == GridSize && Rectangular(g) && |g[0]| == GridSize && WellFormed(g)
  }

  /** The default board is a well-formed 12 x 12 grid. */
  lemma DefaultGridShape()
    ensures BoardShape(BuildGrid(GridTemplate))
  {
    var g := BuildGrid(GridTemplate);
    assert Letters(g) == GridTemplate;
    forall r | 0 <= r < |g| ensures |g[r]| == GridSize {
      assert |Letters(g)[r]| == |g[r]|;
    }
  }
}
