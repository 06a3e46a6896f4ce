/** The state of the word-search component and its event handlers: a fresh game, the press
    that starts a selection, the drag that extends it, the release that checks it against the
    word list, and leaving the grid. Toast notifications become the events a release emits. */
module WordSearch {
  import opened Grid
  import opened CellKeys
  import opened PathBuilder
  import opened Matching

  /** The notifications a release raises: one for a found word, one when the last word falls. */
  datatype Event = WordFound(displayWord: string) | AllWordsFound

  /** The notifications of a successful release: the found word's, then the closing one when
      the updated list has no unfound word left. */
  function Notifications(displayWord: string, ws: seq<Word>): (es: seq<Event>)
    ensures 1 <= |es| <= 2 && es[0] == WordFound(displayWord)
    ensures AllWordsFound in es <==> AllFound(ws)
  {
    [WordFound(displayWord)] + (if AllFound(ws) then [AllWordsFound] else [])
  }

  /** Every guard of the drag handler passes: selecting, over a cell of the board that is not
      blank and not yet selected, on one of the anchor's lines. */
  predicate ExtendAccepted(g: seq<seq<Cell>>, selecting: bool, sel: seq<Pos>, p: Pos) {
    && selecting && InBounds(g, p) && !IsBlankAt(g, p)
    && |sel| > 0 && p !in sel && Aligned(sel[0], p)
  }

  /** The word a selection finds in a word list, as the index of that word: the first match
      for the selection read forward and reversed. */
  function SelectionMatch(g: seq<seq<Cell>>, ws: seq<Word>, sel: seq<Pos>): Option<nat>
    requires AllInBounds(g, sel)
  {
    FirstMatch(ws, Reading(g, sel), Reverse(Reading(g, sel)))
  }

  /** The board every game is played on. */
  function Board(): (g: seq<seq<Cell>>)
    ensures BoardShape(g)
  {
    DefaultGridShape();
    BuildGrid(GridTemplate)
  }

  /** The keys of the non-blank cells of a grid: the keys a found cell can have. */
  function NonBlankKeys(g: seq<seq<Cell>>): set<string> {
    set r, c | 0 <= r < |g| && 0 <= c < |g[r]| && !g[r][c].isBlank :: CellKey(Pos(r, c))
  }

  /** Walking from the candidate back to the anchor visits the same cells in the opposite order. */
  lemma SegmentReverse(a: Pos, b: Pos)
    requires Aligned(a, b)
    ensures Aligned(b, a)
    ensures Segment(b, a) == Reverse(Segment(a, b))
  {
    var d := Dist(a, b);
    assert Dist(b, a) == d;
    forall i | 0 <= i <= d ensures Segment(b, a)[i] == Reverse(Segment(a, b))[i] {
      assert Point(b, a, i) == Point(a, b, d - i);
    }
  }

  /** Dropping blank cells commutes with reading the cells back to front. */
  lemma {:induction false} NonBlankReverse(g: seq<seq<Cell>>, ps: seq<Pos>)
    requires AllInBounds(g, ps)
    ensures AllInBounds(g, Reverse(ps))
    ensures NonBlank(g, Reverse(ps)) == Reverse(NonBlank(g, ps))
  {
    if ps != [] {
      var init, last := ps[..|ps| - 1], ps[|ps| - 1];
      assert ps == init + [last];
      ReverseAppend(init, [last]);
      assert Reverse([last]) == [last];
      NonBlankReverse(g, init);
      NonBlankAppend(g, [last], Reverse(init));
      NonBlankAppend(g, init, [last]);
      var single := NonBlank(g, [last]);
      assert Reverse(single) == single;
      ReverseAppend(NonBlank(g, init), single);
    }
  }

  /** A drag from the candidate to the anchor selects the path of the opposite drag, reversed. */
  lemma SelectionPathReverse(g: seq<seq<Cell>>, anchor: Pos, candidate: Pos)
    requires Rectangular(g) && InBounds(g, anchor) && InBounds(g, candidate)
    requires Aligned(anchor, candidate)
    ensures Aligned(candidate, anchor)
    ensures SelectionPath(g, candidate, anchor) == Reverse(SelectionPath(g, anchor, candidate))
  {
    SegmentReverse(anchor, candidate);
    SegmentInBounds(g, anchor, candidate);
    NonBlankReverse(g, Segment(anchor, candidate));
  }

  /** The direction of a drag does not matter: dragging from either end to the other finds
      the same word. */
  lemma DragDirectionIrrelevant(g: seq<seq<Cell>>, ws: seq<Word>, anchor: Pos, candidate: Pos)
    requires Rectangular(g) && InBounds(g, anchor) && InBounds(g, candidate)
    requires Aligned(anchor, candidate)
    ensures Aligned(candidate, anchor)
    ensures AllInBounds(g, SelectionPath(g, anchor, candidate))
    ensures AllInBounds(g, SelectionPath(g, candidate, anchor))
    ensures SelectionMatch(g, ws, SelectionPath(g, candidate, anchor))
         == SelectionMatch(g, ws, SelectionPath(g, anchor, candidate))
  {
    SelectionPathReverse(g, anchor, candidate);
    SelectionPathCells(g, anchor, candidate);
    MatchReverseInvariant(ws, g, SelectionPath(g, anchor, candidate));
  }

  /** The keys of a selection of non-blank cells are keys of non-blank cells. */
  lemma KeysOfNonBlank(g: seq<seq<Cell>>, cells: seq<Pos>)
    requires AllInBounds(g, cells)
    requires forall k :: 0 <= k < |cells| ==> !IsBlankAt(g, cells[k])
    ensures KeysOf(cells) <= NonBlankKeys(g)
  {
    forall x | x in KeysOf(cells) ensures x in NonBlankKeys(g) {
      var k :| 0 <= k < |cells| && CellKey(cells[k]) == x;
      assert InBounds(g, cells[k]) && !IsBlankAt(g, cells[k]);
    }
  }

  /** The word list is the static list with its flags, and the completion flag says whether
      every word is found. */
  ghost predicate WordsOk(ws: seq<Word>, allFound: bool) {
    Entries(ws) == WordsToFind && allFound == AllFound(ws)
  }

  /** The selection holds non-blank cells of the grid, and is not empty while selecting. */
  ghost predicate SelectionOk(g: seq<seq<Cell>>, sel: seq<Pos>, selecting: bool) {
    && AllInBounds(g, sel)
    && (forall k :: 0 <= k < |sel| ==> !IsBlankAt(g, sel[k]))
    && (selecting ==> |sel| > 0)
  }

  /** The found cells are keys of non-blank cells, and there are none before a first find. */
  ghost predicate FoundOk(g: seq<seq<Cell>>, ws: seq<Word>, found: set<string>) {
    found <= NonBlankKeys(g) && (FoundCount(ws) == 0 ==> found == {})
  }

  /** A successful release keeps the invariant: the marked list still is the static list,
      the completion flag follows it, and the new found cells are keys of non-blank cells. */
  lemma MatchKeepsInvariant(g: seq<seq<Cell>>, ws: seq<Word>, sel: seq<Pos>, found: set<string>, allFound: bool, m: nat)
    requires WordsOk(ws, allFound) && SelectionOk(g, sel, true) && FoundOk(g, ws, found)
    requires m < |ws| && !ws[m].found
    ensures WordsOk(MarkFound(ws, ws[m].word), allFound || AllFound(MarkFound(ws, ws[m].word)))
    ensures FoundOk(g, MarkFound(ws, ws[m].word), found + KeysOf(sel))
  {
    KeysOfNonBlank(g, sel);
    MarkFoundProgress(ws, m);
  }

  /** The `forEach` that adds the key of every selected cell to a copy of the found cells. */
  method AddCellKeys(foundCells: set<string>, cells: seq<Pos>) returns (newFoundCells: set<string>)
    ensures newFoundCells == foundCells + KeysOf(cells)
  {
    newFoundCells := foundCells;
    for i := 0 to |cells|
      invariant newFoundCells == foundCells + KeysOf(cells[..i])
    {
      KeysOfSnoc(cells, i);
      newFoundCells := newFoundCells + {CellKey(cells[i])};
    }
    assert cells[..|cells|] == cells;
  }

  /** The `if (matchedWord)` block of the release: the matched word and every entry with
      the same word become found, the keys of the selected cells join the found cells, and
      the notifications are raised, the second one only when no word is left unfound. */
  method RecordMatch(words: seq<Word>, foundCells: set<string>, allFound: bool, cells: seq<Pos>, m: nat)
    returns (newWords: seq<Word>, newFoundCells: set<string>, newAllFound: bool, events: seq<Event>)
    requires m < |words| && !words[m].found
    ensures newWords == MarkFound(words, words[m].word)
    ensures FoundCount(words) < FoundCount(newWords)
    ensures newFoundCells == foundCells + KeysOf(cells)
    ensures newAllFound == (allFound || AllFound(newWords))
    ensures events == Notifications(words[m].displayWord, newWords)
  {
    newFoundCells := AddCellKeys(foundCells, cells);
    newWords := MarkFound(words, words[m].word);
    MarkFoundProgress(words, m);
    events := [WordFound(newWords[m].displayWord)];
    newAllFound := allFound;
    if AllFound(newWords) {
      newAllFound := true;
      events := events + [AllWordsFound];
    }
  }

  /** The release of an active selection, on the values it reads and writes: the selection
      is read forward and reversed and, when the first unfound word in list order equals either
      reading, that word is recorded. The game's invariant holds of the result. */
  method Release(g: seq<seq<Cell>>, ws: seq<Word>, sel: seq<Pos>, found: set<string>, allFound: bool)
    returns (newWords: seq<Word>, newFound: set<string>, newAllFound: bool, events: seq<Event>)
    requires WordsOk(ws, allFound) && SelectionOk(g, sel, true) && FoundOk(g, ws, found)
    ensures WordsOk(newWords, newAllFound) && FoundOk(g, newWords, newFound)
    ensures SelectionMatch(g, ws, sel).None? ==>
      events == [] && newWords == ws && newFound == found && newAllFound == allFound
    ensures SelectionMatch(g, ws, sel).Some? ==>
      var m := SelectionMatch(g, ws, sel).value;
      && newWords == MarkFound(ws, ws[m].word)
      && newFound == found + KeysOf(sel)
      && newAllFound == (allFound || AllFound(newWords))
      && events == Notifications(ws[m].displayWord, newWords)
  {
    var selectedLetters := Reading(g, sel);
    var reversedLetters := Reverse(selectedLetters);
    var matchedWord := FirstMatch(ws, selectedLetters, reversedLetters);
    if matchedWord.None? {
      return ws, found, allFound, [];
    }
    MatchKeepsInvariant(g, ws, sel, found, allFound, matchedWord.value);
    newWords, newFound, newAllFound, events := RecordMatch(ws, found, allFound, sel, matchedWord.value);
  }

  class WordSearchGame {
    var grid: seq<seq<Cell>>
    var words: seq<Word>
    var selectedCells: seq<Pos>
    var foundCells: set<string>
    var isSelecting: bool
    var allFound: bool

    ghost predicate Valid()
      reads this
    {
      && BoardShape(grid)
      && WordsOk(words, allFound)
      && SelectionOk(grid, selectedCells, isSelecting)
      && FoundOk(grid, words, foundCells)
    }

    /** Mounting the component: empty state, then the mount effect runs `initializeGame`. */
    constructor ()
      ensures Valid()
      ensures grid == Board() && words == InitialWords(WordsToFind)
      ensures selectedCells == [] && foundCells == {} && !isSelecting && !allFound
    {
      grid := [];
      words := [];
      selectedCells := [];
      foundCells := {};
      isSelecting := false;
      allFound := false;
      new;
      InitializeGame();
    }

    /** A fresh game: the board from the template, every word unfound, no found cells. The
        selection and the selecting flag are left as they are, which is sound because the grid
        already is the board (no handler changes it) or nothing is selected yet. */
    method InitializeGame()
      requires (Valid() && grid == Board()) || (selectedCells == [] && !isSelecting)
      modifies this
      ensures Valid()
      ensures grid == Board() && words == InitialWords(WordsToFind)
      ensures foundCells == {} && !allFound
      ensures selectedCells == old(selectedCells) && isSelecting == old(isSelecting)
    {
      grid := Board();
      words := InitialWords(WordsToFind);
      foundCells := {};
      allFound := false;
    }

    /** Pressing a cell: a blank cell is ignored; any other cell starts a new one-cell
        selection, whatever selection was there before. */
    method HandleCellMouseDown(row: int, col: int)
      requires Valid() && InBounds(grid, Pos(row, col))
      modifies this
      ensures Valid()
      ensures grid == old(grid) && words == old(words) && foundCells == old(foundCells) && allFound == old(allFound)
      ensures IsBlankAt(grid, Pos(row, col)) ==>
        selectedCells == old(selectedCells) && isSelecting == old(isSelecting)
      ensures !IsBlankAt(grid, Pos(row, col)) ==>
        selectedCells == [Pos(row, col)] && isSelecting
    {
      if grid[row][col].isBlank {
        return;
      }
      isSelecting := true;
      selectedCells := [Pos(row, col)];
    }

    /** Dragging over a cell. Nothing changes while not selecting, over a blank cell, with no
        selection, over a cell already selected, or over a cell off the anchor's lines. An
        aligned cell replaces the selection with the path rebuilt from the anchor to it. */
    method HandleCellMouseEnter(row: int, col: int)
      requires Valid() && (isSelecting ==> InBounds(grid, Pos(row, col)))
      modifies this
      ensures Valid()
      ensures grid == old(grid) && words == old(words) && foundCells == old(foundCells)
      ensures allFound == old(allFound) && isSelecting == old(isSelecting)
      ensures ExtendAccepted(grid, old(isSelecting), old(selectedCells), Pos(row, col)) ==>
        selectedCells == SelectionPath(grid, old(selectedCells)[0], Pos(row, col))
      ensures !ExtendAccepted(grid, old(isSelecting), old(selectedCells), Pos(row, col)) ==>
        selectedCells == old(selectedCells)
    {
      if !isSelecting || grid[row][col].isBlank {
        return;
      }
      if |selectedCells| == 0 {
        return;
      }
      if Pos(row, col) in selectedCells {
        return;
      }
      var rowDiff := Abs(row - selectedCells[0].row);
      var colDiff := Abs(col - selectedCells[0].col);
      var isHorizontal := rowDiff == 0;
      var isVertical := colDiff == 0;
      var isDiagonal := rowDiff == colDiff;
      if isHorizontal || isVertical || isDiagonal {
        var anchor := selectedCells[0];
        var newSelection := BuildPath(grid, anchor, Pos(row, col));
        SelectionPathCells(grid, anchor, Pos(row, col));
        SelectionPathEnds(grid, anchor, Pos(row, col));
        selectedCells := newSelection;
      }
    }

    /** Releasing: when selecting, the selecting flag drops, the selection is read forward and
        reversed, and the first unfound word in list order that equals either reading (spaces
        ignored) is marked found, its cells are added to the found cells and a notification
        is raised, then a second one if every word is now found. The selection is cleared. */
    method HandleMouseUp() returns (events: seq<Event>)
      requires Valid()
      modifies this
      ensures Valid()
      ensures grid == old(grid)
      ensures !old(isSelecting) ==>
        && events == [] && selectedCells == old(selectedCells) && !isSelecting
        && words == old(words) && foundCells == old(foundCells) && allFound == old(allFound)
      ensures old(isSelecting) ==> selectedCells == [] && !isSelecting
      ensures old(isSelecting) && SelectionMatch(grid, old(words), old(selectedCells)).None? ==>
        events == [] && words == old(words) && foundCells == old(foundCells) && allFound == old(allFound)
      ensures old(isSelecting) && SelectionMatch(grid, old(words), old(selectedCells)).Some? ==>
        var m := SelectionMatch(grid, old(words), old(selectedCells)).value;
        && words == MarkFound(old(words), old(words)[m].word)
        && foundCells == old(foundCells) + KeysOf(old(selectedCells))
        && allFound == (old(allFound) || AllFound(words))
        && events == Notifications(old(words)[m].displayWord, words)
    {
      if !isSelecting {
        return [];
      }
      words, foundCells, allFound, events := Release(grid, words, selectedCells, foundCells, allFound);
      isSelecting, selectedCells := false, [];
    }

    /** Leaving the grid while selecting drops the selecting flag and keeps the selection. */
    method HandleGridMouseLeave()
      requires Valid()
      modifies this
      ensures Valid()
      ensures !isSelecting
      ensures grid == old(grid) && words == old(words) && selectedCells == old(selectedCells)
      ensures foundCells == old(foundCells) && allFound == old(allFound)
    {
      if isSelecting {
        isSelecting := false;
      }
    }
  }
}
