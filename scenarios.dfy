/** Rounds played on the default board, from the press to the release. */
module Scenarios {
  import opened Grid
  import opened PathBuilder
  import opened Matching
  import opened WordSearch

  /** The first seven cells of row 0. */
  const AquecerCells: seq<Pos> := [Pos(0, 0), Pos(0, 1), Pos(0, 2), Pos(0, 3), Pos(0, 4), Pos(0, 5), Pos(0, 6)]

  /** A cell of the board is blank exactly when its template letter is the blank marker. */
  lemma BoardCell(p: Pos)
    requires InBounds(Board(), p)
    ensures IsBlankAt(Board(), p) <==> GridTemplate[p.row][p.col] == BlankLetter
    ensures LetterAt(Board(), p) == GridTemplate[p.row][p.col]
  {
  }

  /** Cells that read a text without a space are none of them blank. */
  lemma ReadingNoBlank(g: seq<seq<Cell>>, cells: seq<Pos>)
    requires WellFormed(g) && AllInBounds(g, cells)
    requires BlankLetter !in Reading(g, cells)
    ensures forall k :: 0 <= k < |cells| ==> !IsBlankAt(g, cells[k])
  {
    forall k | 0 <= k < |cells| ensures !IsBlankAt(g, cells[k]) {
      assert Reading(g, cells)[k] == LetterAt(g, cells[k]);
    }
  }

  /** A drag whose walk crosses no blank cell selects exactly the walked cells. */
  lemma PathOfWalk(g: seq<seq<Cell>>, a: Pos, b: Pos, cells: seq<Pos>)
    requires Rectangular(g) && InBounds(g, a) && InBounds(g, b) && Aligned(a, b)
    requires Segment(a, b) == cells && AllInBounds(g, cells)
    requires forall k :: 0 <= k < |cells| ==> !IsBlankAt(g, cells[k])
    ensures SelectionPath(g, a, b) == cells
  {
    NonBlankAll(g, cells);
  }

  /** A blank cell on its own leaves nothing to select. */
  lemma BlankDropped(g: seq<seq<Cell>>, p: Pos)
    requires InBounds(g, p) && IsBlankAt(g, p)
    ensures AllInBounds(g, [p]) && NonBlank(g, [p]) == []
  {
    assert [p][..0] == [];
  }

  /** A drag whose walk crosses one blank cell and no other selects the walked cells without it. */
  lemma PathOfGappedWalk(g: seq<seq<Cell>>, a: Pos, b: Pos, cells: seq<Pos>, n: nat, gap: Pos)
    requires Rectangular(g) && InBounds(g, a) && InBounds(g, b) && Aligned(a, b)
    requires n <= |cells| && Segment(a, b) == cells[..n] + [gap] + cells[n..]
    requires AllInBounds(g, cells) && InBounds(g, gap) && IsBlankAt(g, gap)
    requires forall k :: 0 <= k < |cells| ==> !IsBlankAt(g, cells[k])
    ensures SelectionPath(g, a, b) == cells
  {
    var left, right := cells[..n], cells[n..];
    assert left + right == cells;
    NonBlankAll(g, left);
    NonBlankAll(g, right);
    BlankDropped(g, gap);
    NonBlankAppend(g, left, [gap]);
    NonBlankAppend(g, left + [gap], right);
  }

  /** A walk along a row towards higher columns visits the columns one by one. */
  lemma RowWalk(r: int, c0: int, c1: int)
    requires c0 <= c1
    ensures |Segment(Pos(r, c0), Pos(r, c1))| == c1 - c0 + 1
    ensures forall k :: 0 <= k <= c1 - c0 ==> Segment(Pos(r, c0), Pos(r, c1))[k] == Pos(r, c0 + k)
  {
  }

  lemma AquecerSegment()
    ensures Segment(Pos(0, 0), Pos(0, 6)) == AquecerCells
  {
    RowWalk(0, 0, 6);
  }

  /** Dragging from the top-left corner along row 0 to column 6 selects the seven cells
      of the row in order. */
  lemma AquecerPath()
    ensures SelectionPath(Board(), Pos(0, 0), Pos(0, 6)) == AquecerCells
  {
    AquecerReading();
    assert BlankLetter !in "AQUECER";
    ReadingNoBlank(Board(), AquecerCells);
    AquecerSegment();
    PathOfWalk(Board(), Pos(0, 0), Pos(0, 6), AquecerCells);
  }

  /** The seven cells of row 0 read "AQUECER". */
  lemma AquecerReading()
    ensures AllInBounds(Board(), AquecerCells)
    ensures Reading(Board(), AquecerCells) == "AQUECER"
  {
    var cells := AquecerCells;
    forall k | 0 <= k < 7 ensures LetterAt(Board(), cells[k]) == "AQUECER"[k] {
      BoardCell(cells[k]);
    }
  }

  /** A fresh game finds "AQUECER", the fifth word, for that reading. */
  lemma AquecerMatch()
    ensures FirstMatch(InitialWords(WordsToFind), "AQUECER", Reverse("AQUECER")) == Some(4)
  {
    DefaultWordsUnambiguous();
    FirstMatchExact(InitialWords(WordsToFind), "AQUECER", 4);
  }

  /** Finding the first word leaves the game unfinished: "SOFA" is still to be found. */
  lemma AquecerNotLast()
    ensures !AllFound(MarkFound(InitialWords(WordsToFind), "AQUECER"))
  {
    var ws := InitialWords(WordsToFind);
    assert ws[0] == Word("SOFA", "SOF\U{00C1}", false);
    assert !MarkFound(ws, "AQUECER")[0].found;
  }

  /** Dragging the other way, from (0, 6) back to (0, 0), selects the same cells back to front. */
  lemma AquecerBackwardPath()
    ensures SelectionPath(Board(), Pos(0, 6), Pos(0, 0)) == Reverse(AquecerCells)
  {
    AquecerPath();
    SelectionPathReverse(Board(), Pos(0, 0), Pos(0, 6));
  }

  /** The backward selection reads "RECEUQA". */
  lemma AquecerBackwardReading()
    ensures AllInBounds(Board(), Reverse(AquecerCells))
    ensures Reading(Board(), Reverse(AquecerCells)) == "RECEUQA"
  {
    AquecerReading();
    ReadingReverse(Board(), AquecerCells);
  }

  lemma AquecerReversed()
    ensures Reverse("AQUECER") == "RECEUQA"
  {
  }

  /** A fresh game finds "AQUECER" for the backward reading too. */
  lemma AquecerBackwardMatch()
    ensures FirstMatch(InitialWords(WordsToFind), "RECEUQA", Reverse("RECEUQA")) == Some(4)
  {
    AquecerMatch();
    AquecerReversed();
    ReverseReverse("AQUECER");
    FirstMatchSymmetric(InitialWords(WordsToFind), "AQUECER", "RECEUQA");
  }

  /** The cells of "PAI NATAL" in row 6, without the blank at column 4. */
  const PaiNatalCells: seq<Pos> :=
    [Pos(6, 1), Pos(6, 2), Pos(6, 3), Pos(6, 5), Pos(6, 6), Pos(6, 7), Pos(6, 8), Pos(6, 9)]

  /** The letters of row 6 of the board, from column 1 to column 9. */
  lemma RowSix()
    ensures forall c :: 1 <= c <= 9 ==> InBounds(Board(), Pos(6, c))
    ensures forall c :: 1 <= c <= 9 ==> (IsBlankAt(Board(), Pos(6, c)) <==> c == 4)
  {
    var row := GridTemplate[6];
    assert row == "NPAI NATALBC";
    forall c | 1 <= c <= 9 ensures IsBlankAt(Board(), Pos(6, c)) <==> c == 4 {
      BoardCell(Pos(6, c));
    }
  }

  /** The walk along row 6 from column 1 to column 9: the cells of "PAI NATAL" around the
      blank at column 4. */
  lemma PaiNatalSegment()
    ensures Segment(Pos(6, 1), Pos(6, 9)) == PaiNatalCells[..3] + [Pos(6, 4)] + PaiNatalCells[3..]
  {
    RowWalk(6, 1, 9);
  }

  /** Dragging along row 6 from column 1 to column 9 crosses the blank at column 4, and the
      path leaves it out. */
  lemma PaiNatalPath()
    ensures SelectionPath(Board(), Pos(6, 1), Pos(6, 9)) == PaiNatalCells
  {
    PaiNatalReading();
    assert BlankLetter !in "PAINATAL";
    ReadingNoBlank(Board(), PaiNatalCells);
    RowSix();
    PaiNatalSegment();
    PathOfGappedWalk(Board(), Pos(6, 1), Pos(6, 9), PaiNatalCells, 3, Pos(6, 4));
  }

  /** The eight cells read "PAINATAL". */
  lemma PaiNatalReading()
    ensures AllInBounds(Board(), PaiNatalCells)
    ensures Reading(Board(), PaiNatalCells) == "PAINATAL"
  {
    var cells := PaiNatalCells;
    forall k | 0 <= k < 8 ensures LetterAt(Board(), cells[k]) == "PAINATAL"[k] {
      BoardCell(cells[k]);
    }
  }

  /** A fresh game finds "PAI NATAL", the third word, for that reading, since spaces are
      ignored. */
  lemma PaiNatalMatch()
    ensures FirstMatch(InitialWords(WordsToFind), "PAINATAL", Reverse("PAINATAL")) == Some(2)
  {
    var ws := InitialWords(WordsToFind);
    assert ws[2].word == "PAI NATAL";
    DefaultWordsUnambiguous();
    PaiNatalStripped();
    StripSpacesSpec("PAINATAL");
    FirstMatchExact(ws, "PAINATAL", 2);
  }

  /** The cells of "SOFA" in row 2. */
  const SofaCells: seq<Pos> := [Pos(2, 1), Pos(2, 2), Pos(2, 3), Pos(2, 4)]

  lemma SofaSegment()
    ensures Segment(Pos(2, 1), Pos(2, 4)) == SofaCells
  {
    RowWalk(2, 1, 4);
  }

  /** Dragging along row 2 from column 1 to column 4 selects those four cells in order. */
  lemma SofaPath()
    ensures SelectionPath(Board(), Pos(2, 1), Pos(2, 4)) == SofaCells
  {
    SofaReading();
    assert BlankLetter !in "SOFA";
    ReadingNoBlank(Board(), SofaCells);
    SofaSegment();
    PathOfWalk(Board(), Pos(2, 1), Pos(2, 4), SofaCells);
  }

  /** The four cells read "SOFA". */
  lemma SofaReading()
    ensures AllInBounds(Board(), SofaCells)
    ensures Reading(Board(), SofaCells) == "SOFA"
  {
    var cells := SofaCells;
    forall k | 0 <= k < 4 ensures LetterAt(Board(), cells[k]) == "SOFA"[k] {
      BoardCell(cells[k]);
    }
  }

  /** A fresh game finds "SOFA", the first word, for that reading. */
  lemma SofaMatch()
    ensures FirstMatch(InitialWords(WordsToFind), "SOFA", Reverse("SOFA")) == Some(0)
  {
    var ws := InitialWords(WordsToFind);
    assert ws[0].word == "SOFA";
    DefaultWordsUnambiguous();
    FirstMatchExact(ws, "SOFA", 0);
  }

  /** What the round below needs of the board and the fresh word list: both cells are
      usable, the drag is accepted and selects AQUECER, which is the fifth word and not the
      last one to find. */
  lemma AquecerRoundFacts()
    ensures InBounds(Board(), Pos(0, 0)) && !IsBlankAt(Board(), Pos(0, 0))
    ensures ExtendAccepted(Board(), true, [Pos(0, 0)], Pos(0, 6))
    ensures SelectionPath(Board(), Pos(0, 0), Pos(0, 6)) == AquecerCells
    ensures AllInBounds(Board(), AquecerCells)
    ensures SelectionMatch(Board(), InitialWords(WordsToFind), AquecerCells) == Some(4)
    ensures |InitialWords(WordsToFind)| == 6 && InitialWords(WordsToFind)[4] == Word("AQUECER", "AQUECER", false)
    ensures Notifications("AQUECER", MarkFound(InitialWords(WordsToFind), "AQUECER")) == [WordFound("AQUECER")]
  {
    BoardCell(Pos(0, 0));
    BoardCell(Pos(0, 6));
    AquecerPath();
    AquecerReading();
    AquecerMatch();
    AquecerNotLast();
  }

  /** A whole round on a fresh game: press (0, 0), drag to (0, 6), release. The word is found
      and exactly one notification is raised, since other words remain. */
  method AquecerRound() returns (events: seq<Event>)
    ensures events == [WordFound("AQUECER")]
  {
    AquecerRoundFacts();
    var game := new WordSearchGame();
    game.HandleCellMouseDown(0, 0);
    game.HandleCellMouseEnter(0, 6);
    events := game.HandleMouseUp();
  }
}
