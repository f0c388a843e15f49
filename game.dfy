/**
 * The game state of controller/GraphicalInterface.java, without its widgets: the words,
 * the grid's squares, the buttons of each word (by square index), the text on each
 * square's button, the selected word and the score; and the actions that change them:
 * resetGame with its loaders and populateGridPane, a click on a square, handleGuess,
 * and the SOLUTION and LETTERS buttons.
 */
module Game {
  import opened Options
  import opened JavaText
  import opened Cells
  import opened Words
  import opened GridParser
  import opened WordListParser
  import opened Association

  /** What a submitted guess led to. */
  datatype GuessOutcome =
    | NoSelection              // no word is selected: nothing happens
    | WrongLength(expected: nat) // the guess does not have the answer's length: an alert, nothing else
    | Incorrect                // the guess is shown, the word stays unsolved
    | Correct(points: nat)     // the word is solved and its points are added

  /** What position i of a word shows after a guess: the guessed letter where it is right, '-' where it is not. */
  function Shown(guess: string, solution: string, i: nat): string
    requires i < |guess| && i < |solution|
  {
    if guess[i] == solution[i] then [guess[i]] else "-"
  }

  /** The button texts after the first n positions of a guess are shown on a word's buttons, in order. */
  function Mask(labels: seq<string>, buttons: seq<nat>, guess: string, solution: string, n: nat): (r: seq<string>)
    requires n <= |buttons| && n <= |guess| && n <= |solution|
    requires forall t :: 0 <= t < |buttons| ==> buttons[t] < |labels|
    ensures |r| == |labels|
  {
    if n == 0 then labels
    else Mask(labels, buttons, guess, solution, n - 1)[buttons[n - 1] := Shown(guess, solution, n - 1)]
  }

  /**
   * On a word whose buttons are distinct, button t shows position t of the guess for each
   * t < n, and every other button keeps its text.
   */
  lemma {:induction false} MaskSpec(labels: seq<string>, buttons: seq<nat>, guess: string, solution: string, n: nat)
    requires n <= |buttons| && n <= |guess| && n <= |solution|
    requires forall t :: 0 <= t < |buttons| ==> buttons[t] < |labels|
    requires forall t, u :: 0 <= t < u < |buttons| ==> buttons[t] != buttons[u]
    ensures forall t :: 0 <= t < n ==> Mask(labels, buttons, guess, solution, n)[buttons[t]] == Shown(guess, solution, t)
    ensures forall i :: 0 <= i < |labels| && i !in buttons[..n] ==> Mask(labels, buttons, guess, solution, n)[i] == labels[i]
  {
    if n > 0 {
      MaskSpec(labels, buttons, guess, solution, n - 1);
      assert forall i :: i in buttons[..n - 1] ==> i in buttons[..n];
    }
  }

  /**
   * A guess handleGuess accepts (equal to the answer ignoring case) shows, once both are
   * upper-cased, the answer's upper-cased letter on every button of the word it reaches.
   */
  lemma MaskCorrect(labels: seq<string>, buttons: seq<nat>, guess: string, answer: string, n: nat)
    requires EqualsIgnoreCase(guess, answer)
    requires n <= |buttons| && n <= |answer| && |guess| == |answer|
    requires forall t :: 0 <= t < |buttons| ==> buttons[t] < |labels|
    requires forall t, u :: 0 <= t < u < |buttons| ==> buttons[t] != buttons[u]
    ensures forall t :: 0 <= t < n ==> Mask(labels, buttons, Upper(guess), Upper(answer), n)[buttons[t]] == [Upper(answer)[t]]
  {
    EqualsIgnoreCaseUpper(guess, answer);
    MaskSpec(labels, buttons, Upper(guess), Upper(answer), n);
  }

  /** The button texts after a word's buttons are emptied. */
  function Cleared(labels: seq<string>, buttons: seq<nat>): (r: seq<string>)
    ensures |r| == |labels|
    ensures forall i :: 0 <= i < |labels| ==> r[i] == if i in buttons then "" else labels[i]
  {
    seq(|labels|, i requires 0 <= i < |labels| => if i in buttons then "" else labels[i])
  }

  /**
   * handleGuess accepts a guess exactly when it equals the answer ignoring case: both
   * are upper-cased first, which changes nothing to that comparison.
   */
  lemma GuessAccepted(guess: string, solution: string)
    ensures EqualsIgnoreCase(Upper(guess), Upper(solution)) <==> EqualsIgnoreCase(guess, solution)
    ensures EqualsIgnoreCase(Upper(guess), Upper(solution)) <==> Upper(guess) == Upper(solution)
  {
    EqualsIgnoreCaseUpper(guess, solution);
    EqualsIgnoreCaseUpper(Upper(guess), Upper(solution));
    UpperIdempotent(guess);
    UpperIdempotent(solution);
  }

  /** The word a click on a square selects: only a square binding a word reacts to clicks. */
  function ClickTarget(c: CellInfo, wordCount: nat): (r: Option<nat>)
    ensures r.Some? <==> Binds(c, wordCount)
    ensures r.Some? ==> r.value < wordCount && r.value + 1 == c.wordNumber
  {
    if Binds(c, wordCount) then Some(c.wordNumber - 1) else None
  }

  /** The smaller of two lengths. */
  function Min(a: nat, b: nat): (r: nat)
    ensures r <= a && r <= b && (r == a || r == b)
  {
    if a <= b then a else b
  }

  /**
   * How handleGuess judges a guess for a word: both are upper-cased; a guess of another
   * length is refused; one equal to the answer ignoring case earns the word's score.
   */
  function Judge(w: WordView, guess: string): GuessOutcome
  {
    var g, solution := Upper(guess), Upper(w.solution);
    if |g| != |solution| then WrongLength(|solution|)
    else if EqualsIgnoreCase(g, solution) then Correct(SolveScore(w.solution, true))
    else Incorrect
  }

  /**
   * A guess of the answer's length is accepted exactly when it equals the answer ignoring
   * case, and then earns two points per letter; a guess of another length is refused and
   * names the answer's length.
   */
  lemma JudgeSpec(w: WordView, guess: string)
    ensures Judge(w, guess).WrongLength? <==> |guess| != |w.solution|
    ensures Judge(w, guess).WrongLength? ==> Judge(w, guess).expected == |w.solution|
    ensures Judge(w, guess).Correct? <==> EqualsIgnoreCase(guess, w.solution)
    ensures Judge(w, guess).Correct? ==> Judge(w, guess).points == 2 * |w.solution|
    ensures Judge(w, guess) != NoSelection
  {
    GuessAccepted(guess, w.solution);
  }

  /** The button texts after a judged guess is shown on the buttons of word number n. */
  function GuessLabels(labels: seq<string>, m: map<int, seq<nat>>, n: int, g: string, solution: string): (r: seq<string>)
    requires ButtonsIn(m, |labels|) && |g| == |solution|
    ensures |r| == |labels|
  {
    if n in m then Mask(labels, m[n], g, solution, Min(|solution|, |m[n]|)) else labels
  }

  /** A selected word exists and is unsolved, and the score is the sum of the words' scores. */
  predicate Scored(ws: seq<WordView>, selected: Option<nat>, totalScore: int) {
    && (selected.Some? ==> selected.value < |ws| && !ws[selected.value].solved)
    && totalScore == Total(ws)
  }

  /**
   * After a reset that reads both files, word n - 1 is bound to the grid exactly when
   * some open square carries n: its buttons are those of its walk from the first square
   * numbered n, and a word no open square names keeps the number 0.
   */
  lemma LoadedWordsBound(wordLines: seq<string>, gridLines: seq<string>)
    ensures var cells := ParseGrid(gridLines).cells;
            var ws := NewWordViews(ParseWords(wordLines).entries);
            var m := AttachWords(cells, NumberWords(cells, ws), AnchorMap(cells, |ws|));
            && (forall n :: n in m <==> 1 <= n <= |ws| && HasAnchor(cells, n))
            && (forall n :: n in m ==> FindStartCell(cells, n).Some? && m[n] == CellsOfNumber(cells, ws, n))
            && (forall k :: 0 <= k < |ws| && !HasAnchor(cells, k + 1) ==> NumberWords(cells, ws)[k].wordNumber == 0)
  {
    var cells := ParseGrid(gridLines).cells;
    GridSquaresMade(gridLines);
    forall i | 0 <= i < |cells|
      ensures cells[i].wordNumber != 0
    {
      MadeShape(cells[i]);
    }
    Associate(cells, NewWordViews(ParseWords(wordLines).entries));
  }

  /** A freshly read word list is unsolved and scores nothing. */
  lemma LoadedWordsUnsolved(entries: seq<WordEntry>)
    ensures forall k :: 0 <= k < |NewWordViews(entries)| ==> !NewWordViews(entries)[k].solved
    ensures Total(NewWordViews(entries)) == 0
  {
    TotalUnsolved(NewWordViews(entries));
  }

  class Crossword {
    var words: seq<Word>
    var gridCells: seq<Case>
    /** For each word number, the squares whose buttons show that word's letters. */
    var wordCellButtons: map<int, seq<nat>>
    /** The text on each square's button. */
    var labels: seq<string>
    /** The index of the selected word. */
    var selected: Option<nat>
    var totalScore: int

    /**
     * The words are distinct objects, a selected word exists and is unsolved, and the
     * score is the sum of the words' scores.
     */
    ghost predicate WordsValid()
      reads this`words, this`selected, this`totalScore, words
    {
      Distinct(words) && Scored(WordViews(words), selected, totalScore)
    }

    /** Besides, each square has a button, and every button a word lists is a square's. */
    ghost predicate Valid()
      reads this, words
    {
      && WordsValid()
      && |labels| == |gridCells|
      && ButtonsIn(wordCellButtons, |labels|)
    }

    /** A game with nothing loaded. */
    constructor ()
      ensures Valid()
      ensures words == [] && gridCells == [] && wordCellButtons == map[] && labels == []
      ensures selected == None && totalScore == 0
    {
      words, gridCells, wordCellButtons, labels := [], [], map[], [];
      selected, totalScore := None, 0;
    }

    /**
     * resetGame: everything is cleared, then the word list is read, then the grid, then
     * the buttons are made. A word-list line with a missing field stops the reset after
     * the words before it, with no grid; a grid problem keeps the squares read so far.
     */
    method Reset(wordLines: seq<string>, gridLines: seq<string>) returns (wordError: Option<WordListError>, gridError: Option<GridError>)
      modifies this
      ensures Valid()
      ensures selected == None && totalScore == 0
      ensures wordError == ParseWords(wordLines).error
      ensures wordError.Some? ==>
                && WordViews(words) == NewWordViews(ParseWords(wordLines).entries)
                && gridCells == [] && wordCellButtons == map[] && labels == [] && gridError == None
      ensures wordError.None? ==>
                var cells := ParseGrid(gridLines).cells;
                var ws := NumberWords(cells, NewWordViews(ParseWords(wordLines).entries));
                && gridError == ParseGrid(gridLines).error
                && CellViews(gridCells) == cells
                && WordViews(words) == ws
                && labels == Labels(cells)
                && wordCellButtons == AttachWords(cells, ws, AnchorMap(cells, |ws|))
    {
      words, gridCells, wordCellButtons, labels := [], [], map[], [];
      selected, totalScore := None, 0;
      var loaded;
      loaded, wordError := LoadWords(wordLines);
      words := loaded;
      LoadedWordsUnsolved(ParseWords(wordLines).entries);
      if wordError.Some? {
        gridError := None;
        return;
      }
      forall i | 0 <= i < |words|
        ensures fresh(words[i])
      {
        assert words[i] in loaded;
      }
      gridError := ReadGrid(gridLines);
    }

    /** loadGrid into the emptied grid, then populateGridPane. */
    method ReadGrid(gridLines: seq<string>) returns (gridError: Option<GridError>)
      requires WordsValid() && gridCells == [] && wordCellButtons == map[] && labels == []
      modifies this, words
      ensures Valid()
      ensures words == old(words) && selected == old(selected) && totalScore == old(totalScore)
      ensures gridError == ParseGrid(gridLines).error
      ensures CellViews(gridCells) == ParseGrid(gridLines).cells
      ensures WordViews(words) == NumberWords(ParseGrid(gridLines).cells, old(WordViews(words)))
      ensures labels == Labels(ParseGrid(gridLines).cells)
      ensures wordCellButtons == AttachWords(ParseGrid(gridLines).cells, WordViews(words), AnchorMap(ParseGrid(gridLines).cells, |words|))
    {
      var cells;
      cells, gridError := LoadGrid(gridLines);
      gridCells := cells;
      Populate();
    }

    /**
     * populateGridPane: the numbering pass, then the word-cell pass. Each square's button
     * is labelled with its number when it is open and numbered.
     */
    method Populate()
      requires WordsValid() && wordCellButtons == map[] && labels == []
      modifies this`wordCellButtons, this`labels, words
      ensures Valid()
      ensures words == old(words) && gridCells == old(gridCells)
      ensures selected == old(selected) && totalScore == old(totalScore)
      ensures CellViews(gridCells) == old(CellViews(gridCells))
      ensures WordViews(words) == NumberWords(CellViews(gridCells), old(WordViews(words)))
      ensures labels == Labels(CellViews(gridCells))
      ensures wordCellButtons == AttachWords(CellViews(gridCells), WordViews(words), AnchorMap(CellViews(gridCells), |words|))
    {
      NumberPass();
      WordCellPass();
    }

    /**
     * The first loop of populateGridPane: one button per square, labelled with its number
     * when it is open and numbered; each square numbered n > 0 with a word at index n - 1
     * gives that word the number n and an empty button list.
     */
    method NumberPass()
      requires WordsValid() && wordCellButtons == map[] && labels == []
      modifies this`wordCellButtons, this`labels, words
      ensures Valid()
      ensures words == old(words) && gridCells == old(gridCells)
      ensures selected == old(selected) && totalScore == old(totalScore)
      ensures CellViews(gridCells) == old(CellViews(gridCells))
      ensures WordViews(words) == NumberWords(CellViews(gridCells), old(WordViews(words)))
      ensures labels == Labels(CellViews(gridCells))
      ensures wordCellButtons == AnchorMap(CellViews(gridCells), |words|)
    {
      ghost var cells := CellViews(gridCells);
      ghost var before := WordViews(words);
      var i := 0;
      while i < |gridCells|
        invariant 0 <= i <= |gridCells|
        invariant CellViews(gridCells) == cells
        invariant WordViews(words) == NumberWords(cells[..i], before)
        invariant labels == Labels(cells[..i])
        invariant wordCellButtons == AnchorMap(cells[..i], |words|)
        invariant Distinct(words)
      {
        assert cells[..i + 1] == cells[..i] + [cells[i]];
        assert cells[..i + 1][..i] == cells[..i];
        LabelsAppend(cells[..i], cells[i]);
        NumberSquare(i);
        i := i + 1;
      }
      assert cells[..i] == cells;
      NumberWordsKeeps(cells, before);
    }

    /** One square of the first loop of populateGridPane. */
    method NumberSquare(i: nat)
      requires i < |gridCells|
      requires Distinct(words)
      modifies this`wordCellButtons, this`labels, words
      ensures CellViews(gridCells) == old(CellViews(gridCells))
      ensures labels == old(labels) + [Label(gridCells[i].View())]
      ensures var c := gridCells[i].View();
              if Binds(c, |words|) then
                && wordCellButtons == old(wordCellButtons)[c.wordNumber := []]
                && WordViews(words) == old(WordViews(words))[c.wordNumber - 1 := old(WordViews(words))[c.wordNumber - 1].(wordNumber := c.wordNumber)]
              else
                wordCellButtons == old(wordCellButtons) && WordViews(words) == old(WordViews(words))
    {
      var cell := gridCells[i];
      labels := labels + [Label(cell.View())];
      if cell.isPartOfWord && cell.wordNumber > 0 {
        var wordIndex := cell.wordNumber - 1;
        if wordIndex < |words| {
          words[wordIndex].SetWordNumber(cell.wordNumber);
          assert forall j :: 0 <= j < |words| && j != wordIndex ==> words[j].View() == old(words[j].View());
          wordCellButtons := wordCellButtons[cell.wordNumber := []];
        }
      }
    }

    /**
     * The second loop of populateGridPane: each word found at a square (the first one
     * carrying its number) gets the squares of its walk appended to its number's list.
     */
    method WordCellPass()
      requires |labels| == |gridCells| && ButtonsIn(wordCellButtons, |labels|)
      modifies this`wordCellButtons
      ensures ButtonsIn(wordCellButtons, |labels|)
      ensures wordCellButtons == AttachWords(CellViews(gridCells), WordViews(words), old(wordCellButtons))
    {
      var cells := CellViews(gridCells);
      ghost var ws := WordViews(words);
      ghost var start := wordCellButtons;
      var k := 0;
      while k < |words|
        invariant 0 <= k <= |words|
        invariant wordCellButtons == AttachWords(cells, ws[..k], start)
        invariant ButtonsIn(wordCellButtons, |labels|)
      {
        AttachWordsStep(cells, ws, k, start);
        AttachOne(cells, k);
        k := k + 1;
      }
      assert ws[..k] == ws;
    }

    /** One word of the second loop of populateGridPane. */
    method AttachOne(cells: seq<CellInfo>, k: nat)
      requires k < |words| && cells == CellViews(gridCells) && |cells| == |labels|
      requires ButtonsIn(wordCellButtons, |labels|)
      modifies this`wordCellButtons
      ensures ButtonsIn(wordCellButtons, |labels|)
      ensures wordCellButtons == AttachWord(cells, words[k].View(), old(wordCellButtons))
    {
      var word := words[k];
      var startCell := FindStartCell(cells, word.wordNumber);
      if startCell.Some? {
        var anchor := cells[startCell.value];
        var found := WalkWord(cells, anchor, word.isHorizontal, |word.solution|);
        WordCellsInGrid(cells, anchor, word.isHorizontal, |word.solution|);
        AppendButtons(wordCellButtons, word.wordNumber, found, |labels|);
        var buttons := if word.wordNumber in wordCellButtons then wordCellButtons[word.wordNumber] else [];
        wordCellButtons := wordCellButtons[word.wordNumber := buttons + found];
      }
    }

    /** clearWordCells: every button of word number n shows nothing. */
    method ClearWordCells(n: int)
      requires Valid()
      modifies this`labels
      ensures Valid()
      ensures labels == if n in wordCellButtons then Cleared(old(labels), wordCellButtons[n]) else old(labels)
    {
      if n in wordCellButtons {
        var buttons := wordCellButtons[n];
        var i := 0;
        while i < |buttons|
          invariant 0 <= i <= |buttons|
          invariant labels == Cleared(old(labels), buttons[..i])
        {
          assert buttons[..i + 1] == buttons[..i] + [buttons[i]];
          labels := labels[buttons[i] := ""];
          i := i + 1;
        }
        assert buttons[..i] == buttons;
      }
    }

    /**
     * A click on square i. A square binding a word selects that word unless it is solved;
     * the buttons of a different selected word that is not solved are emptied first.
     */
    method Click(i: nat)
      requires Valid() && i < |gridCells|
      modifies this`selected, this`labels
      ensures Valid()
      ensures match ClickTarget(gridCells[i].View(), |words|)
                case None => selected == old(selected) && labels == old(labels)
                case Some(w) =>
                  if WordViews(words)[w].solved then selected == old(selected) && labels == old(labels)
                  else
                    && selected == Some(w)
                    && labels == if old(selected).Some? && old(selected).value != w && !WordViews(words)[old(selected).value].solved
                                 then (var n := WordViews(words)[old(selected).value].wordNumber;
                                       if n in wordCellButtons then Cleared(old(labels), wordCellButtons[n]) else old(labels))
                                 else old(labels)
    {
      var cell := gridCells[i];
      if cell.isPartOfWord && cell.wordNumber > 0 && cell.wordNumber - 1 < |words| {
        var w := cell.wordNumber - 1;
        var word := words[w];
        if word.solved {
          return;
        }
        if selected.Some? && selected.value != w && !words[selected.value].solved {
          ClearWordCells(words[selected.value].wordNumber);
        }
        selected := Some(w);
      }
    }

    /**
     * handleGuess: with a word selected, the guess is judged against its answer; a guess of
     * the right length becomes the word's current answer and is shown on its buttons (the
     * right letters, '-' elsewhere); a right guess solves the word, adds its score and
     * ends the selection.
     */
    method HandleGuess(guess: string) returns (outcome: GuessOutcome)
      requires Valid()
      modifies this`selected, this`totalScore, this`labels, words
      ensures Valid()
      ensures words == old(words) && gridCells == old(gridCells) && wordCellButtons == old(wordCellButtons)
      ensures totalScore >= old(totalScore)
      ensures old(selected).None? ==> outcome == NoSelection && unchanged(this) && WordViews(words) == old(WordViews(words))
      ensures old(selected).Some? ==>
                var s := old(selected).value;
                var w := old(WordViews(words))[s];
                && outcome == Judge(w, guess)
                && (outcome.WrongLength? ==> unchanged(this) && WordViews(words) == old(WordViews(words)))
                && (!outcome.WrongLength? ==>
                      && WordViews(words) == old(WordViews(words))[s := w.(currentAnswer := Upper(guess), solved := outcome.Correct?)]
                      && labels == GuessLabels(old(labels), wordCellButtons, w.wordNumber, Upper(guess), Upper(w.solution))
                      && totalScore == old(totalScore) + (if outcome.Correct? then outcome.points else 0)
                      && selected == (if outcome.Correct? then None else old(selected)))
    {
      if selected.None? {
        return NoSelection;
      }
      var s := selected.value;
      var word := words[s];
      var g := Upper(guess);
      var solution := Upper(word.solution);
      if |g| != |solution| {
        return WrongLength(|solution|);
      }
      outcome := Answer(s, g, solution);
    }

    /** The rest of handleGuess once the guess g has the answer's length. */
    method Answer(s: nat, g: string, solution: string) returns (outcome: GuessOutcome)
      requires Valid() && selected == Some(s)
      requires solution == Upper(WordViews(words)[s].solution) && |g| == |solution|
      modifies this`selected, this`totalScore, this`labels, words
      ensures Valid()
      ensures words == old(words) && gridCells == old(gridCells) && wordCellButtons == old(wordCellButtons)
      ensures outcome == if EqualsIgnoreCase(g, solution) then Correct(SolveScore(old(WordViews(words))[s].solution, true)) else Incorrect
      ensures WordViews(words) == old(WordViews(words))[s := old(WordViews(words))[s].(currentAnswer := g, solved := outcome.Correct?)]
      ensures labels == GuessLabels(old(labels), wordCellButtons, old(WordViews(words))[s].wordNumber, g, solution)
      ensures totalScore == old(totalScore) + (if outcome.Correct? then outcome.points else 0)
      ensures selected == (if outcome.Correct? then None else old(selected))
    {
      var n := words[s].wordNumber;
      Record(s, g);
      ShowGuess(n, g, solution);
      outcome := Settle(s, EqualsIgnoreCase(g, solution));
    }

    /** handleGuess keeps the guess as the selected word's current answer. */
    method Record(s: nat, g: string)
      requires Valid() && selected == Some(s)
      modifies words
      ensures Valid()
      ensures WordViews(words) == old(WordViews(words))[s := old(WordViews(words))[s].(currentAnswer := g)]
    {
      ghost var before := WordViews(words);
      words[s].SetCurrentAnswer(g);
      ghost var after := before[s := before[s].(currentAnswer := g)];
      assert forall j :: 0 <= j < |words| ==> words[j].View() == after[j];
      assert WordViews(words) == after;
      TotalUpdate(before, s, after[s]);
    }

    /** The end of handleGuess: an accepted guess solves word s, adds its score and ends the selection. */
    method Settle(s: nat, accepted: bool) returns (outcome: GuessOutcome)
      requires Valid() && selected == Some(s)
      modifies this`selected, this`totalScore, words
      ensures Valid()
      ensures words == old(words)
      ensures outcome == if accepted then Correct(SolveScore(old(WordViews(words))[s].solution, true)) else Incorrect
      ensures WordViews(words) == old(WordViews(words))[s := old(WordViews(words))[s].(solved := accepted)]
      ensures totalScore == old(totalScore) + (if accepted then outcome.points else 0)
      ensures selected == (if accepted then None else old(selected))
    {
      ghost var before := WordViews(words);
      if accepted {
        var word := words[s];
        word.SetSolved(true);
        var points := word.GetScore();
        totalScore := totalScore + points;
        selected := None;
        outcome := Correct(points);
        ghost var after := before[s := before[s].(solved := true)];
        assert forall j :: 0 <= j < |words| ==> words[j].View() == after[j];
        assert WordViews(words) == after;
        TotalUpdate(before, s, after[s]);
      } else {
        outcome := Incorrect;
        assert before[s := before[s].(solved := false)] == before;
      }
    }

    /** The loop of handleGuess over the buttons of word number n. */
    method ShowGuess(n: int, g: string, solution: string)
      requires ButtonsIn(wordCellButtons, |labels|) && |g| == |solution|
      modifies this`labels
      ensures labels == GuessLabels(old(labels), wordCellButtons, n, g, solution)
    {
      if n in wordCellButtons {
        var buttons := wordCellButtons[n];
        var i := 0;
        while i < |solution| && i < |buttons|
          invariant 0 <= i <= Min(|solution|, |buttons|)
          invariant labels == Mask(old(labels), buttons, g, solution, i)
        {
          labels := labels[buttons[i] := Shown(g, solution, i)];
          i := i + 1;
        }
      }
    }

    /** The SOLUTION button: shows the selected word's answer and ends the selection. */
    method RevealSolution() returns (shown: Option<string>)
      requires Valid()
      modifies this`selected
      ensures Valid()
      ensures old(selected).None? ==> shown == None && selected == None
      ensures old(selected).Some? ==> shown == Some(WordViews(words)[old(selected).value].solution) && selected == None
    {
      shown := None;
      if selected.Some? {
        shown := Some(words[selected.value].solution);
        selected := None;
      }
    }

    /** The LETTERS button: shows the selected word's letters (in some order) and ends the selection. */
    method ShowLetters() returns (letters: Option<multiset<char>>)
      requires Valid()
      modifies this`selected
      ensures Valid()
      ensures old(selected).None? ==> letters == None && selected == None
      ensures old(selected).Some? ==> letters == Some(multiset(WordViews(words)[old(selected).value].solution)) && selected == None
    {
      letters := None;
      if selected.Some? {
        letters := Some(multiset(words[selected.value].solution));
        selected := None;
      }
    }
  }
}
