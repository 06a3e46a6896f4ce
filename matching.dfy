/** The matching rule of the mouse-up handler: the word list, the reading of a selection
    forward and reversed, the space-insensitive comparison, the first-match search over the
    list and the marking of a found word. */
module Matching {
  import opened Grid

  datatype Option<T> = None | Some(value: T)

  /** One entry of the static word list: the word to match and the form shown to the player. */
  datatype WordEntry = WordEntry(word: string, display: string)

  /** A word of the game state; `found` flips once from false to true. */
  datatype Word = Word(word: string, displayWord: string, found: bool)

  /** `WORDS_TO_FIND`, in list order. */
  const WordsToFind: seq<WordEntry> := [
    WordEntry("SOFA", "SOF\U{00C1}"),
    WordEntry("ARVORE", "\U{00C1}RVORE"),
    WordEntry("PAI NATAL", "PAI NATAL"),
    WordEntry("FRIO", "FRIO"),
    WordEntry("AQUECER", "AQUECER"),
    WordEntry("VIAGENS", "VIAGENS")
  ]

  function Entry(w: Word): WordEntry {
    WordEntry(w.word, w.displayWord)
  }

  /** The static part of a word list: everything but the `found` flags. */
  function Entries(ws: seq<Word>): (es: seq<WordEntry>)
    ensures |es| == |ws|
  {
    seq(|ws|, i requires 0 <= i < |ws| => Entry(ws[i]))
  }

  /** How many words of the list are found. */
  function FoundCount(ws: seq<Word>): (n: nat)
    ensures n <= |ws|
    ensures n == |ws| <==> AllFound(ws)
    ensures n == 0 <==> forall i :: 0 <= i < |ws| ==> !ws[i].found
  {
    if ws == [] then 0 else (if ws[0].found then 1 else 0) + FoundCount(ws[1..])
  }

  /** `words.every((w) => w.found)`. */
  predicate AllFound(ws: seq<Word>) {
    forall i :: 0 <= i < |ws| ==> ws[i].found
  }

  /** The word list of a fresh game: the static list in its order, nothing found. */
  function InitialWords(entries: seq<WordEntry>): (ws: seq<Word>)
    ensures Entries(ws) == entries
    ensures FoundCount(ws) == 0
  {
    seq(|entries|, i requires 0 <= i < |entries| => Word(entries[i].word, entries[i].display, false))
  }

  /** A sequence read back to front. */
  function Reverse<T>(s: seq<T>): seq<T> {
    seq(|s|, i requires 0 <= i < |s| => s[|s| - 1 - i])
  }

  /** `s.replace(/ /g, "")`: the string without its space characters. */
  function StripSpaces(s: string): string {
    if s == [] then [] else Kept(s[0]) + StripSpaces(s[1..])
  }

  /** What the stripping keeps of one character. */
  function Kept(c: char): string {
    if c == ' ' then [] else [c]
  }

  /** The letters of the selected cells, in selection order (the `map` and `join`). */
  function Reading(g: seq<seq<Cell>>, cells: seq<Pos>): (letters: string)
    requires AllInBounds(g, cells)
    ensures |letters| == |cells|
  {
    seq(|cells|, i requires 0 <= i < |cells| => LetterAt(g, cells[i]))
  }

  /** The test inside `words.find`: the word is not found yet and, without spaces, it equals
      the forward or the reversed reading without spaces. */
  predicate Matches(w: Word, forward: string, reversed: string) {
    !w.found && (StripSpaces(w.word) == StripSpaces(forward) || StripSpaces(w.word) == StripSpaces(reversed))
  }

  /** `words.find(...)`, as the index of the word found: the first word in list order that
      matches, or none when no word matches. */
  function FirstMatch(ws: seq<Word>, forward: string, reversed: string): (r: Option<nat>)
    ensures r.Some? ==> r.value < |ws| && Matches(ws[r.value], forward, reversed)
    ensures r.Some? ==> forall j :: 0 <= j < r.value ==> !Matches(ws[j], forward, reversed)
    ensures r.None? <==> forall j :: 0 <= j < |ws| ==> !Matches(ws[j], forward, reversed)
  {
    if ws == [] then None
    else if Matches(ws[0], forward, reversed) then Some(0)
    else match FirstMatch(ws[1..], forward, reversed)
      case None => None
      case Some(k) => Some(k + 1)
  }

  /** `words.map(...)` after a match: every entry whose word equals the matched word becomes
      found, every other entry is left as it was, and the static list does not change. */
  function MarkFound(ws: seq<Word>, word: string): (r: seq<Word>)
    ensures |r| == |ws| && Entries(r) == Entries(ws)
    ensures forall i :: 0 <= i < |ws| ==> r[i].found == (ws[i].found || ws[i].word == word)
    ensures forall i :: 0 <= i < |ws| && ws[i].word != word ==> r[i] == ws[i]
  {
    var r := seq(|ws|, i requires 0 <= i < |ws| => if ws[i].word == word then ws[i].(found := true) else ws[i]);
    assert forall i :: 0 <= i < |ws| ==> Entry(r[i]) == Entry(ws[i]);
    r
  }

  /** Found flags only ever grow; when one flips, the number of found words grows. */
  lemma {:induction false} FoundCountGrows(a: seq<Word>, b: seq<Word>, k: nat)
    requires |a| == |b| && forall i :: 0 <= i < |a| ==> a[i].found ==> b[i].found
    requires k < |a| && !a[k].found && b[k].found
    ensures FoundCount(a) < FoundCount(b)
  {
    if k > 0 {
      FoundCountGrows(a[1..], b[1..], k - 1);
    } else {
      FoundCountMonotone(a[1..], b[1..]);
    }
  }

  lemma {:induction false} FoundCountMonotone(a: seq<Word>, b: seq<Word>)
    requires |a| == |b| && forall i :: 0 <= i < |a| ==> a[i].found ==> b[i].found
    ensures FoundCount(a) <= FoundCount(b)
  {
    if a != [] {
      FoundCountMonotone(a[1..], b[1..]);
    }
  }

  /** A successful match finds at least one more word. */
  lemma {:induction false} MarkFoundProgress(ws: seq<Word>, m: nat)
    requires m < |ws| && !ws[m].found
    ensures FoundCount(ws) < FoundCount(MarkFound(ws, ws[m].word))
  {
    var next := MarkFound(ws, ws[m].word);
    assert next[m].found;
    FoundCountGrows(ws, next, m);
  }

  /** `ms` lists the words matched by successive releases, in order: each one is still
      unfound when it is matched, and the match marks it found. */
  predicate MatchRun(ws: seq<Word>, ms: seq<nat>)
    decreases |ms|
  {
    ms == [] || (ms[0] < |ws| && !ws[ms[0]].found && MatchRun(MarkFound(ws, ws[ms[0]].word), ms[1..]))
  }

  /** A game has at most as many successful matches as it has words left to find. */
  lemma {:induction false} MatchesBounded(ws: seq<Word>, ms: seq<nat>)
    requires MatchRun(ws, ms)
    ensures |ms| <= |ws| - FoundCount(ws)
    decreases |ms|
  {
    if ms != [] {
      var next := MarkFound(ws, ws[ms[0]].word);
      MarkFoundProgress(ws, ms[0]);
      MatchesBounded(next, ms[1..]);
      assert FoundCount(next) <= |next| == |ws|;
    }
  }

  /** Reading the selected cells in reverse order gives the reversed reading. */
  lemma ReadingReverse(g: seq<seq<Cell>>, cells: seq<Pos>)
    requires AllInBounds(g, cells)
    ensures AllInBounds(g, Reverse(cells))
    ensures Reading(g, Reverse(cells)) == Reverse(Reading(g, cells))
  {
  }

  lemma ReverseReverse<T>(s: seq<T>)
    ensures Reverse(Reverse(s)) == s
  {
  }

  /** The match does not depend on the direction of the selection: selecting the same cells
      back to front finds the same word. */
  lemma MatchReverseInvariant(ws: seq<Word>, g: seq<seq<Cell>>, cells: seq<Pos>)
    requires AllInBounds(g, cells)
    ensures AllInBounds(g, Reverse(cells))
    ensures FirstMatch(ws, Reading(g, Reverse(cells)), Reverse(Reading(g, Reverse(cells))))
         == FirstMatch(ws, Reading(g, cells), Reverse(Reading(g, cells)))
  {
    var f := Reading(g, cells);
    ReadingReverse(g, cells);
    ReverseReverse(f);
    FirstMatchSymmetric(ws, f, Reverse(f));
  }

  /** Swapping the two readings does not change the match. */
  lemma {:induction false} FirstMatchSymmetric(ws: seq<Word>, x: string, y: string)
    ensures FirstMatch(ws, x, y) == FirstMatch(ws, y, x)
  {
    if ws != [] {
      FirstMatchSymmetric(ws[1..], x, y);
    }
  }

  /** The stripped string holds no space, and a string without spaces is left as it is. */
  lemma {:induction false} StripSpacesSpec(s: string)
    ensures ' ' !in StripSpaces(s)
    ensures ' ' !in s ==> StripSpaces(s) == s
    ensures |StripSpaces(s)| <= |s|
  {
    if s != [] {
      StripSpacesSpec(s[1..]);
      assert s == [s[0]] + s[1..];
    }
  }

  lemma {:induction false} StripAppend(a: string, b: string)
    ensures StripSpaces(a + b) == StripSpaces(a) + StripSpaces(b)
  {
    if a == [] {
      assert a + b == b;
    } else {
      calc {
        StripSpaces(a + b);
      == { assert (a + b)[0] == a[0] && (a + b)[1..] == a[1..] + b; }
        Kept(a[0]) + StripSpaces(a[1..] + b);
      == { StripAppend(a[1..], b); }
        Kept(a[0]) + (StripSpaces(a[1..]) + StripSpaces(b));
      ==
        (Kept(a[0]) + StripSpaces(a[1..])) + StripSpaces(b);
      }
    }
  }

  lemma ReverseAppend<T>(a: seq<T>, b: seq<T>)
    ensures Reverse(a + b) == Reverse(b) + Reverse(a)
  {
  }

  /** Removing spaces commutes with reading backwards. */
  lemma {:induction false} StripReverse(s: string)
    ensures StripSpaces(Reverse(s)) == Reverse(StripSpaces(s))
  {
    if s != [] {
      var head := Kept(s[0]);
      assert s == [s[0]] + s[1..];
      assert Reverse(s) == Reverse(s[1..]) + [s[0]];
      StripAppend(Reverse(s[1..]), [s[0]]);
      StripReverse(s[1..]);
      ReverseAppend(head, StripSpaces(s[1..]));
      assert StripSpaces([s[0]]) == head;
      assert Reverse(head) == head;
    }
  }

  /** Among the six default words no two are equal, and none is another read backwards,
      once spaces are removed. */
  predicate Unambiguous(entries: seq<WordEntry>) {
    forall i, j :: 0 <= i < |entries| && 0 <= j < |entries| && i != j ==>
      StripSpaces(entries[i].word) != StripSpaces(entries[j].word) &&
      StripSpaces(entries[i].word) != Reverse(StripSpaces(entries[j].word))
  }

  /** The stripped forms of the default words. */
  const StrippedWords: seq<string> := ["SOFA", "ARVORE", "PAINATAL", "FRIO", "AQUECER", "VIAGENS"]

  lemma DefaultWordsStripped(i: nat)
    requires i < |WordsToFind|
    ensures StripSpaces(WordsToFind[i].word) == StrippedWords[i]
  {
    if i == 0 { SofaStripped(); }
    else if i == 1 { ArvoreStripped(); }
    else if i == 2 { PaiNatalStripped(); }
    else if i == 3 { FrioStripped(); }
    else if i == 4 { AquecerStripped(); }
    else { ViagensStripped(); }
  }

  lemma StrippedWordsApart(i: nat, j: nat)
    requires i < 6 && j < 6 && i != j
    ensures StrippedWords[i] != StrippedWords[j] && StrippedWords[i] != Reverse(StrippedWords[j])
  {
    var lengths := [4, 6, 8, 4, 7, 7];
    var firsts := ['S', 'A', 'P', 'F', 'A', 'V'];
    var lasts := ['A', 'E', 'L', 'O', 'R', 'S'];
    assert HasEnds(StrippedWords[i], lengths[i], firsts[i], lasts[i]);
    assert HasEnds(StrippedWords[j], lengths[j], firsts[j], lasts[j]);
    assert lengths[i] != lengths[j] || (firsts[i] != firsts[j] && firsts[i] != lasts[j]);
    Separated(StrippedWords[i], StrippedWords[j]);
  }

  /** No two of the default words can be confused: a reading matches at most one of them. */
  lemma DefaultWordsUnambiguous()
    ensures Unambiguous(WordsToFind)
  {
    forall i, j | 0 <= i < |WordsToFind| && 0 <= j < |WordsToFind| && i != j
      ensures StripSpaces(WordsToFind[i].word) != StripSpaces(WordsToFind[j].word)
      ensures StripSpaces(WordsToFind[i].word) != Reverse(StripSpaces(WordsToFind[j].word))
    {
      DefaultWordsStripped(i);
      DefaultWordsStripped(j);
      StrippedWordsApart(i, j);
    }
  }

  predicate HasEnds(x: string, length: nat, first: char, last: char) {
    |x| == length > 0 && x[0] == first && x[|x| - 1] == last
  }

  /** Two nonempty strings differ, and the first is not the second read backwards, when their
      lengths differ or the first one's initial letter is neither end of the second. */
  lemma Separated(x: string, y: string)
    requires |x| > 0 && |y| > 0
    requires |x| != |y| || (x[0] != y[0] && x[0] != y[|y| - 1])
    ensures x != y && x != Reverse(y)
  {
  }

  lemma SofaStripped()
    ensures StripSpaces("SOFA") == "SOFA"
  {
    StripSpacesSpec("SOFA");
  }

  lemma ArvoreStripped()
    ensures StripSpaces("ARVORE") == "ARVORE"
  {
    StripSpacesSpec("ARVORE");
  }

  lemma PaiNatalStripped()
    ensures StripSpaces("PAI NATAL") == "PAINATAL"
  {
    var s := "PAI NATAL";
    assert s[1..] == "AI NATAL";
    assert s[2..] == "I NATAL";
    assert s[3..] == " NATAL";
    assert s[4..] == "NATAL";
    assert s[5..] == "ATAL";
    assert s[6..] == "TAL";
    assert s[7..] == "AL";
    assert s[8..] == "L";
  }

  lemma FrioStripped()
    ensures StripSpaces("FRIO") == "FRIO"
  {
    StripSpacesSpec("FRIO");
  }

  lemma AquecerStripped()
    ensures StripSpaces("AQUECER") == "AQUECER"
  {
    StripSpacesSpec("AQUECER");
  }

  lemma ViagensStripped()
    ensures StripSpaces("VIAGENS") == "VIAGENS"
  {
    StripSpacesSpec("VIAGENS");
  }

  /** On an unambiguous list, a reading that spells an unfound word, spaces aside, finds
      exactly that word, wherever it stands in the list. */
  lemma FirstMatchExact(ws: seq<Word>, forward: string, k: nat)
    requires Unambiguous(Entries(ws))
    requires k < |ws| && !ws[k].found
    requires StripSpaces(forward) == StripSpaces(ws[k].word)
    ensures FirstMatch(ws, forward, Reverse(forward)) == Some(k)
  {
    StripReverse(forward);
    assert Matches(ws[k], forward, Reverse(forward));
    forall j | 0 <= j < |ws| && j != k ensures !Matches(ws[j], forward, Reverse(forward)) {
      assert Entries(ws)[j] == Entry(ws[j]) && Entries(ws)[k] == Entry(ws[k]);
    }
  }

  /** The same for a reading that spells the word backwards. */
  lemma FirstMatchExactReversed(ws: seq<Word>, forward: string, k: nat)
    requires Unambiguous(Entries(ws))
    requires k < |ws| && !ws[k].found
    requires StripSpaces(forward) == Reverse(StripSpaces(ws[k].word))
    ensures FirstMatch(ws, forward, Reverse(forward)) == Some(k)
  {
    StripReverse(forward);
    ReverseReverse(StripSpaces(ws[k].word));
    FirstMatchExact(ws, Reverse(forward), k);
    ReverseReverse(forward);
    FirstMatchSymmetric(ws, forward, Reverse(forward));
  }

  /** Once a selection has found its word, the same selection finds nothing more on an
      unambiguous word list: a repeated selection gives no second match. */
  lemma RepeatedSelectionNoMatch(ws: seq<Word>, forward: string, m: nat)
    requires Unambiguous(Entries(ws))
    requires FirstMatch(ws, forward, Reverse(forward)) == Some(m)
    ensures FirstMatch(MarkFound(ws, ws[m].word), forward, Reverse(forward)) == None
  {
    var next := MarkFound(ws, ws[m].word);
    StripReverse(forward);
    forall j | 0 <= j < |next| ensures !Matches(next[j], forward, Reverse(forward)) {
      if Matches(next[j], forward, Reverse(forward)) {
        assert Entries(ws)[j] == Entry(ws[j]) && Entries(ws)[m] == Entry(ws[m]);
        ReverseReverse(StripSpaces(forward));
      }
    }
  }
}
