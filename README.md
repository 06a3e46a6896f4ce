# Word-search selection engine

This project models the selection-and-matching engine of the Christmas word-search puzzle,
`src/components/WordSearchGame.tsx`, and proves the engine's properties.

The player presses a cell of a fixed 12 x 12 board, drags along a row, a column or a diagonal,
and releases. On release the letters under the selection are read forward and backward. With
spaces ignored, the first unfound word of the list that equals either reading is marked found.
Its cells join the set of found cells and a notification is raised. A second notification
follows when no word is left.

The model is organised as follows:

- `grid.dfy` (module `Grid`): cells, the letter template and the nested `map` that turns the
  template into the cell grid.
- `cell_keys.dfy` (module `CellKeys`): the `"row-col"` keys of `getCellKey`. It proves that,
  for grid coordinates, two cells share a key only when they are the same cell.
- `path_builder.dfy` (module `PathBuilder`):
  - the alignment test of the drag handler;
  - its `while` loop, as the method `BuildPath`;
  - the function `SelectionPath` that specifies it: the non-blank cells of the straight
    segment from the anchor to the candidate;
  - lemmas on the shape of the path.
- `matching.dfy` (module `Matching`):
  - the word list;
  - the reading of a selection, its reversal and the removal of spaces;
  - `words.find` as `FirstMatch` and `words.map` as `MarkFound`;
  - the lemmas of the matching rule;
  - the proof that the six default words cannot be confused with one another.
- `word_search_game.dfy` (module `WordSearch`):
  - the component as a class `WordSearchGame`, with one field per piece of React state;
  - one method per handler: `InitializeGame`, `HandleCellMouseDown`, `HandleCellMouseEnter`,
    `HandleMouseUp` and `HandleGridMouseLeave`;
  - the class invariant `Valid()`;
  - the heap-free methods `Release`, `RecordMatch` and `AddCellKeys`, which hold the release
    logic. `AddCellKeys` is the `forEach`/`add` loop;
  - toasts are returned as `Event` values.
- `scenarios.dfy` (module `Scenarios`): rounds on the real board. It covers:
  - the drag (0,0)→(0,6), which finds AQUECER, both as lemmas and as one full
    press/drag/release round on a fresh game object;
  - the backward drag (0,6)→(0,0);
  - the drag (6,1)→(6,9), which crosses the blank at (6,4) and finds PAI NATAL;
  - the drag (2,1)→(2,4), which finds SOFA.

Behaviours of the component worth noting, all modelled as written:

- A press on a non-blank cell always starts a new selection, even while one is active.
- Leaving the grid only clears the selecting flag. The stale `selectedCells` stays, and a later
  release returns early at `:162` without clearing it.
- `initializeGame` leaves `selectedCells` and `isSelecting` as they are.
- Found cells are `"row-col"` strings, not coordinates. `CellKeys.KeysOfMember` and
  `CellKeys.CellKeyInjective` show that the two views carry the same information.
- Dragging from either end of a line selects the same cells in opposite orders, and finds the
  same word (`WordSearch.SelectionPathReverse`, `WordSearch.DragDirectionIrrelevant`).

## Model

| member | source | states |
|---|---|---|
| Grid.BuildGrid | src/components/WordSearchGame.tsx:88-95 | every built cell carries its own row and column and is blank exactly when its letter is a space; the grid's letters are exactly the template, so nothing of it is lost |
| Grid.DefaultGridShape | src/components/WordSearchGame.tsx:20-45 | the board built from the template has 12 rows of 12 well-formed cells |
| CellKeys.CellKey | src/components/WordSearchGame.tsx:110 | `getCellKey`: the row in decimal, a `-`, the column in decimal; distinct non-negative cells get distinct keys (see `CellKeys.CellKeyInjective`) |
| CellKeys.KeysOf | src/components/WordSearchGame.tsx:179-180 | the set of keys the `forEach` of `add` collects from a selection; its members are exactly the keys of the selected cells (see `CellKeys.KeysOfMember`) |
| CellKeys.NatToString | src/components/WordSearchGame.tsx:110 | the decimal rendering is a non-empty string of digits, one digit long exactly for numbers below ten |
| CellKeys.NatToStringInjective | src/components/WordSearchGame.tsx:110 | two numbers with the same decimal rendering are equal |
| CellKeys.CellKeyInjective | src/components/WordSearchGame.tsx:110 | two cells with non-negative coordinates and the same key are the same cell |
| CellKeys.KeysOfMember | src/components/WordSearchGame.tsx:179-180 | a cell's key is among the keys added for a selection if and only if the cell is in that selection |
| CellKeys.KeysOfSnoc | src/components/WordSearchGame.tsx:180 | one more cell contributes exactly its own key |
| PathBuilder.Aligned | src/components/WordSearchGame.tsx:128-135 | the acceptance test: the candidate is on the anchor's row, column or a diagonal (`rowDiff === 0`, `colDiff === 0` or `rowDiff === colDiff`); on an accepted candidate every walked cell is on the same line as both ends (see `PathBuilder.PointFacts`, `PathBuilder.SelectionPathCells`) |
| PathBuilder.Step | src/components/WordSearchGame.tsx:139-140 | `rowStep`/`colStep` is 0, 1 or -1, is 0 exactly when the coordinates agree, and that many unit steps, as many as the coordinates differ by, lead from one coordinate to the other |
| PathBuilder.PointFacts | src/components/WordSearchGame.tsx:139-150 | after i steps of (rowStep, colStep) from the anchor the walk is i steps from the anchor and Dist − i steps from the candidate, stays between the two, stays on the anchor's line, and reaches the candidate exactly after Dist steps (the loop's termination measure) |
| PathBuilder.WalkStep | src/components/WordSearchGame.tsx:142-150 | while the walk is not on the candidate, its cell is in the grid and one step brings it one unit closer |
| PathBuilder.SegmentInBounds | src/components/WordSearchGame.tsx:139-150 | on a rectangular grid every cell between two aligned cells of the grid is in the grid |
| PathBuilder.NonBlank | src/components/WordSearchGame.tsx:143-153 | the pushed cells are exactly the walked cells that are not blank, and no more of them |
| PathBuilder.NonBlankAppend | src/components/WordSearchGame.tsx:143-146 | the cells pushed for two runs of the walk are those of the first run followed by those of the second |
| PathBuilder.NonBlankAll | src/components/WordSearchGame.tsx:143-146 | a run with no blank cell is pushed whole |
| PathBuilder.BuildPath | src/components/WordSearchGame.tsx:137-155 | the loop terminates and builds exactly `SelectionPath`: the non-blank cells of the anchor-to-candidate segment, in step order |
| PathBuilder.SelectionPath | src/components/WordSearchGame.tsx:139-155 | the selection the drag handler builds for an accepted candidate: the non-blank cells of the walk from the anchor to the candidate, in step order; what it holds, its order and its ends are proved in `PathBuilder.SelectionPathCells`, `PathBuilder.SelectionPathOrder` and `PathBuilder.SelectionPathEnds` |
| PathBuilder.SelectionPathCells | src/components/WordSearchGame.tsx:139-155 | a built path is in the grid, holds no blank cell, lies on a common line with the anchor and the candidate, and holds every non-blank cell of the segment and nothing else |
| PathBuilder.SelectionPathOrder | src/components/WordSearchGame.tsx:142-150 | the cells of a built path are strictly further from the anchor one after the other, so none is repeated |
| PathBuilder.SelectionPathEnds | src/components/WordSearchGame.tsx:139-155 | a built path starts at the anchor and ends at the candidate whenever those are not blank |
| PathBuilder.SelectionPathSingle | src/components/WordSearchGame.tsx:142-155 | the path from a non-blank cell to itself is that one cell |
| WordSearch.SegmentReverse | src/components/WordSearchGame.tsx:139-150 | the walk from the candidate back to the anchor visits the cells of the forward walk in reverse order |
| WordSearch.NonBlankReverse | src/components/WordSearchGame.tsx:143-153 | skipping blank cells commutes with reversing the walk |
| WordSearch.SelectionPathReverse | src/components/WordSearchGame.tsx:137-155 | the path built for the opposite drag is the forward path reversed |
| WordSearch.DragDirectionIrrelevant | src/components/WordSearchGame.tsx:137-176 | a drag from either end of a line finds the same word |
| Matching.AllFound | src/components/WordSearchGame.tsx:193 | `newWords.every((w) => w.found)`; it holds exactly when the found count equals the list length (see `Matching.FoundCount`) |
| Matching.FoundCount | src/components/WordSearchGame.tsx:193 | the number of found words (also the progress figure `words.filter((w) => w.found).length` at :326, and here the measure behind `MarkFoundProgress` and the found-cells invariant) is at most the list length, equals it exactly when `every` holds, and is zero exactly when nothing is found |
| Matching.InitialWords | src/components/WordSearchGame.tsx:98-104 | a fresh list is the static list in its order with no word found |
| Matching.FirstMatch | src/components/WordSearchGame.tsx:171-176 | the result is a word that is unfound and equals one reading with spaces removed, and no earlier word matches; there is no result exactly when no word matches |
| Matching.MarkFound | src/components/WordSearchGame.tsx:183-186 | every entry with the matched word becomes found, every other entry is unchanged, and the static list is the same |
| Matching.FoundCountGrows | src/components/WordSearchGame.tsx:183-186 | when found flags only grow and one of them flips, the number of found words grows |
| Matching.FoundCountMonotone | src/components/WordSearchGame.tsx:183-186 | when found flags only grow, the number of found words does not shrink |
| Matching.MarkFoundProgress | src/components/WordSearchGame.tsx:183-186 | a match strictly raises the number of found words; `Matching.MatchesBounded` turns this into the bound on the number of matches |
| Matching.MatchesBounded | src/components/WordSearchGame.tsx:178-186 | a run of successful matches, each on a word still unfound, is at most as long as the number of words left to find, so a game has at most as many matches as it has words |
| Matching.Reading | src/components/WordSearchGame.tsx:166-168 | the `map` and `join`: one letter per selected cell, in selection order, so the reading is as long as the selection |
| Matching.Reverse | src/components/WordSearchGame.tsx:169 | `[...selectedLetters].reverse().join("")`; reversing twice gives back the reading (see `Matching.ReverseReverse`), and reading the cells back to front gives the reversed reading (see `Matching.ReadingReverse`) |
| Matching.ReadingReverse | src/components/WordSearchGame.tsx:166-169 | reading the cells back to front gives the reversed reading |
| Matching.MatchReverseInvariant | src/components/WordSearchGame.tsx:166-176 | selecting the same cells in the opposite direction finds the same word |
| Matching.FirstMatchSymmetric | src/components/WordSearchGame.tsx:173-175 | swapping the forward and reversed readings does not change the match |
| Matching.StripSpaces | src/components/WordSearchGame.tsx:174-175 | `replace(/ /g, "")`; the result has no space and is never longer, and a text without spaces is unchanged (see `Matching.StripSpacesSpec`) |
| Matching.Matches | src/components/WordSearchGame.tsx:172-175 | the test passed to `find`: the word is unfound and, without spaces, equals the forward or the reversed reading without spaces; `Matching.FirstMatch` returns the first word that passes it |
| Matching.StripSpacesSpec | src/components/WordSearchGame.tsx:174-175 | `replace(/ /g, "")` leaves no space, is no longer than its input, and leaves a string without spaces as it is |
| Matching.StripAppend | src/components/WordSearchGame.tsx:174-175 | removing spaces from a concatenation is removing them from each part |
| Matching.StripReverse | src/components/WordSearchGame.tsx:168-175 | removing spaces commutes with reversal |
| Matching.DefaultWordsStripped | src/components/WordSearchGame.tsx:22-29 | the six words without spaces are SOFA, ARVORE, PAINATAL, FRIO, AQUECER and VIAGENS |
| Matching.StrippedWordsApart | src/components/WordSearchGame.tsx:22-29 | two different stripped default words differ, forward and reversed |
| Matching.DefaultWordsUnambiguous | src/components/WordSearchGame.tsx:22-29 | no default word equals another, or another reversed, once spaces are removed |
| Matching.FirstMatchExact | src/components/WordSearchGame.tsx:171-176 | on an unambiguous list a reading that spells an unfound word finds exactly that word |
| Matching.FirstMatchExactReversed | src/components/WordSearchGame.tsx:171-176 | the same for a reading that spells the word backwards |
| Matching.RepeatedSelectionNoMatch | src/components/WordSearchGame.tsx:171-186 | on an unambiguous list, repeating a selection after it has found its word finds nothing |
| WordSearch.Notifications | src/components/WordSearchGame.tsx:188-198 | a successful release raises the found word's notification first, and the closing one as well exactly when every word is found, so at most two |
| WordSearch.ExtendAccepted | src/components/WordSearchGame.tsx:119-135 | the guards of the drag handler in order: selecting, a non-blank cell, a non-empty selection, a cell not yet selected, aligned with the anchor; `WordSearch.WordSearchGame.HandleCellMouseEnter` rebuilds the path exactly when they all pass |
| WordSearch.SelectionMatch | src/components/WordSearchGame.tsx:166-176 | the word `find` returns for a selection's forward and reversed readings; it does not depend on the drag direction (see `WordSearch.DragDirectionIrrelevant`) |
| WordSearch.Board | src/components/WordSearchGame.tsx:88-95 | the board is well formed and 12 x 12 |
| WordSearch.KeysOfNonBlank | src/components/WordSearchGame.tsx:179-180 | the keys added for a selection of non-blank cells are keys of non-blank cells |
| WordSearch.MatchKeepsInvariant | src/components/WordSearchGame.tsx:178-199 | a match keeps the list equal to the static list, the completion flag equal to `every`, and the found cells among the keys of non-blank cells |
| WordSearch.AddCellKeys | src/components/WordSearchGame.tsx:178-180 | the `forEach` of `add` yields the old found cells together with the keys of every selected cell |
| WordSearch.RecordMatch | src/components/WordSearchGame.tsx:178-199 | the `if (matchedWord)` block marks the word, grows the found count, unions the keys in, sets the completion flag when every word is found, and raises the notifications in order |
| WordSearch.Release | src/components/WordSearchGame.tsx:164-200 | with no match nothing changes and nothing is raised; with a match, the effects of `RecordMatch` for the first matching word; the invariant holds afterwards |
| WordSearch.WordSearchGame.constructor | src/components/WordSearchGame.tsx:74-84 | mounting gives the board, the fresh word list, no selection, no found cell, not selecting and not complete |
| WordSearch.WordSearchGame.InitializeGame | src/components/WordSearchGame.tsx:86-108 | the board is rebuilt from the template, every word is unfound, the found cells are empty, the completion flag is false, and the selection is left as it is |
| WordSearch.WordSearchGame.HandleCellMouseDown | src/components/WordSearchGame.tsx:112-116 | a blank cell changes nothing; any other cell makes the selection exactly that cell and sets selecting, whatever came before |
| WordSearch.WordSearchGame.HandleCellMouseEnter | src/components/WordSearchGame.tsx:118-159 | when selecting over a non-blank, unselected cell aligned with the anchor, the selection becomes the path rebuilt from the anchor; otherwise nothing changes |
| WordSearch.WordSearchGame.HandleMouseUp | src/components/WordSearchGame.tsx:161-203 | not selecting: nothing changes; selecting: the flag drops and the selection empties, with no other change when nothing matches, and on a match only that word's entries become found, the keys are unioned in, completion is set exactly when every word is found, and the notifications are returned |
| WordSearch.WordSearchGame.HandleGridMouseLeave | src/components/WordSearchGame.tsx:245 | the selecting flag is false afterwards and nothing else changes |
| Scenarios.RowWalk | src/components/WordSearchGame.tsx:139-151 | along a row towards higher columns `rowStep` is 0 and `colStep` is 1, so the walk visits the columns one by one |
| Scenarios.PathOfWalk | src/components/WordSearchGame.tsx:142-155 | a drag whose walk crosses no blank cell selects exactly the walked cells |
| Scenarios.BlankDropped | src/components/WordSearchGame.tsx:147-149 | a blank cell on its own is not pushed, so it selects nothing |
| Scenarios.PathOfGappedWalk | src/components/WordSearchGame.tsx:142-155 | a drag whose walk crosses one blank cell and no other selects the walked cells without it |
| Scenarios.ReadingNoBlank | src/components/WordSearchGame.tsx:166-168 | cells whose reading has no space are none of them blank, since a cell is blank exactly when its letter is a space (:94) |
| Scenarios.AquecerSegment | src/components/WordSearchGame.tsx:139-151 | the walk (0,0)→(0,6) visits the seven first cells of row 0 |
| Scenarios.PaiNatalSegment | src/components/WordSearchGame.tsx:139-151 | the walk (6,1)→(6,9) visits the cells of PAI NATAL and the blank at (6,4) between them |
| Scenarios.SofaSegment | src/components/WordSearchGame.tsx:139-151 | the walk (2,1)→(2,4) visits the four cells of SOFA |
| Scenarios.AquecerPath | src/components/WordSearchGame.tsx:137-155 | on the board the drag (0,0)→(0,6) selects the seven first cells of row 0 in order |
| Scenarios.AquecerReading | src/components/WordSearchGame.tsx:166-168 | those seven cells read AQUECER |
| Scenarios.AquecerMatch | src/components/WordSearchGame.tsx:171-176 | a fresh list finds AQUECER, the fifth word, for that reading |
| Scenarios.AquecerNotLast | src/components/WordSearchGame.tsx:193 | after AQUECER alone the game is not complete |
| Scenarios.AquecerBackwardPath | src/components/WordSearchGame.tsx:137-155 | the drag (0,6)→(0,0) selects the same cells back to front |
| Scenarios.AquecerBackwardReading | src/components/WordSearchGame.tsx:166-168 | the backward selection reads RECEUQA |
| Scenarios.AquecerBackwardMatch | src/components/WordSearchGame.tsx:171-176 | a fresh list still finds AQUECER for RECEUQA |
| Scenarios.RowSix | src/components/WordSearchGame.tsx:39 | in row 6, from column 1 to 9, only column 4 is blank |
| Scenarios.PaiNatalPath | src/components/WordSearchGame.tsx:142-155 | the drag (6,1)→(6,9) skips the blank at (6,4) and selects the other eight cells |
| Scenarios.PaiNatalReading | src/components/WordSearchGame.tsx:166-168 | those eight cells read PAINATAL |
| Scenarios.PaiNatalMatch | src/components/WordSearchGame.tsx:171-176 | a fresh list finds PAI NATAL, the third word, for PAINATAL, since spaces are ignored |
| Scenarios.SofaPath | src/components/WordSearchGame.tsx:137-155 | the drag (2,1)→(2,4) selects the four cells of SOFA in order |
| Scenarios.SofaReading | src/components/WordSearchGame.tsx:166-168 | those four cells read SOFA |
| Scenarios.SofaMatch | src/components/WordSearchGame.tsx:171-176 | a fresh list finds SOFA, the first word, for that reading |
| Scenarios.AquecerRoundFacts | src/components/WordSearchGame.tsx:112-199 | on a fresh game (0,0) can be pressed, the drag to (0,6) passes every guard and selects AQUECER, the fifth word, and its release raises only the found-word notification |
| Scenarios.AquecerRound | src/components/WordSearchGame.tsx:112-203 | on a fresh game, press (0,0), drag to (0,6) and release: exactly one notification, for AQUECER |

## Left out

- Rendering, styling and `getCellClassName` (`src/components/WordSearchGame.tsx:214-229`, 232-356): these are UI only, and the engine never reads them.
- The progress display and the word-list markup: these are UI only.
- Toast presentation by `sonner` (`:188-198`): it is a foreign call. Each toast is an `Event`, and its text is reduced to the display word.
- Window `mouseup`/`touchend` listener registration (`:205-212`) and the touch handlers' hit-testing with `document.elementFromPoint` and `data-coords` parsing (`:260-270`): these are DOM plumbing. Handlers take `(row, col)` integers directly, and the release is called as a method.
- React `useState`, `useEffect` and `useCallback` closure mechanics: the state is one object updated in sequence. A handler sees the state left by the previous one.
- `WORD_POSITIONS` and `Word.cells` (`:48-72`, 103): these are stored but never read by the engine. Several entries do not match the template. For example, PAI NATAL is listed from (6,2) and includes the blank (6,4).
- `src/pages/Index.tsx` and `src/components/Snowflakes.tsx`: a static layout and a random decorative animation. They are not part of this model.
- The handlers require coordinates inside the board, as the rendered cells guarantee. The drag handler needs them only while selecting, because its first guard reads no cell otherwise.
- `InitializeGame` requires the grid to be the board already, or nothing to be selected, so the kept selection stays on non-blank cells. The constructor and every handler establish or preserve this, since no handler writes the grid.
- `Scenarios.AquecerRound`'s contract covers the events only. The found cells after the round follow from the `HandleMouseUp` contract, and no separate statement about them is proved.
- Matching.WordsToFind: the file spells the display forms as `SOF√Å` and `√ÅRVORE`, which is UTF-8 `Á` decoded wrongly, as in the toast strings at `:188` and `:195`. The model uses `SOFÁ` and `ÁRVORE`, so the `WordFound` event carries the intended text rather than the characters as written. The matched forms are plain ASCII and are unaffected.
