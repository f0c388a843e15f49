/**
 * How the grid's squares and the words are tied together, on values: findStartCell
 * and findCell, the numbering pass and the word-cell pass of populateGridPane
 * (controller/GraphicalInterface.java). Squares are named by their index in the
 * grid's list of squares; a square's button is named by the same index.
 */
module Association {
  import opened Options
  import opened Cells
  import opened Words
  import opened JavaText

  // ---------------------------------------------------------------------------
  // Searching the squares
  // ---------------------------------------------------------------------------

  /** The index of the first square, in list order, that satisfies p (a stream filter's findFirst). */
  function FirstWhere(cells: seq<CellInfo>, p: CellInfo -> bool): (r: Option<nat>)
    ensures r.Some? ==> r.value < |cells| && p(cells[r.value])
    ensures r.Some? ==> forall i :: 0 <= i < r.value ==> !p(cells[i])
    ensures r.None? ==> forall i :: 0 <= i < |cells| ==> !p(cells[i])
  {
    if cells == [] then None
    else if p(cells[0]) then Some(0)
    else match FirstWhere(cells[1..], p)
      case None => None
      case Some(i) => Some(i + 1)
  }

  /** findStartCell: the first square carrying number n, whether or not it is open. */
  function FindStartCell(cells: seq<CellInfo>, n: int): (r: Option<nat>)
    ensures r.Some? ==> r.value < |cells| && cells[r.value].wordNumber == n
    ensures r.Some? ==> forall i :: 0 <= i < r.value ==> cells[i].wordNumber != n
    ensures r.None? ==> forall i :: 0 <= i < |cells| ==> cells[i].wordNumber != n
  {
    FirstWhere(cells, (c: CellInfo) => c.wordNumber == n)
  }

  predicate At(c: CellInfo, row: int, col: int) {
    c.row == row && c.col == col
  }

  /** findCell: the first square placed at (row, col), blocked or not. */
  function FindCell(cells: seq<CellInfo>, row: int, col: int): (r: Option<nat>)
    ensures r.Some? ==> r.value < |cells| && At(cells[r.value], row, col)
    ensures r.Some? ==> forall i :: 0 <= i < r.value ==> !At(cells[i], row, col)
    ensures r.None? ==> forall i :: 0 <= i < |cells| ==> !At(cells[i], row, col)
  {
    FirstWhere(cells, (c: CellInfo) => At(c, row, col))
  }

  // ---------------------------------------------------------------------------
  // The squares of one word
  // ---------------------------------------------------------------------------

  /** Step i of a word's walk: i + 1 places right of its anchor when horizontal, i + 1 places below it otherwise. */
  function WalkPlace(anchor: CellInfo, isHorizontal: bool, i: nat): (int, int)
  {
    if isHorizontal then (anchor.row, anchor.col + 1 + i) else (anchor.row + 1 + i, anchor.col)
  }

  /** The first square at step i of the walk, if there is one. */
  function StepCell(cells: seq<CellInfo>, anchor: CellInfo, isHorizontal: bool, i: nat): Option<nat>
  {
    var place := WalkPlace(anchor, isHorizontal, i);
    FindCell(cells, place.0, place.1)
  }

  /** The squares of the first `len` steps of a walk, skipping the steps that find no square. */
  function WordCells(cells: seq<CellInfo>, anchor: CellInfo, isHorizontal: bool, len: nat): seq<nat>
  {
    if len == 0 then []
    else
      WordCells(cells, anchor, isHorizontal, len - 1)
        + match StepCell(cells, anchor, isHorizontal, len - 1)
          case Some(j) => [j]
          case None => []
  }

  /**
   * The inner loop of the word-cell pass: from the square after the anchor, look up each
   * of the next `len` places and keep the squares found.
   */
  method WalkWord(cells: seq<CellInfo>, anchor: CellInfo, isHorizontal: bool, len: nat) returns (found: seq<nat>)
    ensures found == WordCells(cells, anchor, isHorizontal, len)
  {
    var row, col;
    if isHorizontal {
      row, col := anchor.row, anchor.col + 1;
    } else {
      row, col := anchor.row + 1, anchor.col;
    }
    found := [];
    var i := 0;
    while i < len
      invariant 0 <= i <= len
      invariant found == WordCells(cells, anchor, isHorizontal, i)
    {
      var r, c := if isHorizontal then row else row + i, if isHorizontal then col + i else col;
      var cell := FindCell(cells, r, c);
      assert (r, c) == WalkPlace(anchor, isHorizontal, i);
      WordCellsStep(cells, anchor, isHorizontal, i);
      if cell.Some? {
        found := found + [cell.value];
      }
      i := i + 1;
    }
  }

  lemma WordCellsStep(cells: seq<CellInfo>, anchor: CellInfo, isHorizontal: bool, i: nat)
    ensures WordCells(cells, anchor, isHorizontal, i + 1)
              == WordCells(cells, anchor, isHorizontal, i)
                 + if StepCell(cells, anchor, isHorizontal, i).Some? then [StepCell(cells, anchor, isHorizontal, i).value] else []
  {
  }

  /** The steps below `len` at which the walk finds a square, in order. */
  ghost function FoundSteps(cells: seq<CellInfo>, anchor: CellInfo, isHorizontal: bool, len: nat): seq<nat>
  {
    if len == 0 then []
    else
      FoundSteps(cells, anchor, isHorizontal, len - 1)
        + if StepCell(cells, anchor, isHorizontal, len - 1).Some? then [len - 1] else []
  }

  /** The found steps are increasing, each below `len`, and they are exactly the steps that find a square. */
  lemma {:induction false} FoundStepsSpec(cells: seq<CellInfo>, anchor: CellInfo, isHorizontal: bool, len: nat)
    ensures forall t :: 0 <= t < |FoundSteps(cells, anchor, isHorizontal, len)| ==> FoundSteps(cells, anchor, isHorizontal, len)[t] < len
    ensures forall t, u :: 0 <= t < u < |FoundSteps(cells, anchor, isHorizontal, len)| ==>
              FoundSteps(cells, anchor, isHorizontal, len)[t] < FoundSteps(cells, anchor, isHorizontal, len)[u]
    ensures forall i :: 0 <= i < len ==>
              (i in FoundSteps(cells, anchor, isHorizontal, len) <==> StepCell(cells, anchor, isHorizontal, i).Some?)
  {
    if len > 0 {
      FoundStepsSpec(cells, anchor, isHorizontal, len - 1);
    }
  }

  /**
   * A word covers, in walk order, the first square at each step of its walk that finds
   * one: at most one square per letter, and blocked squares included.
   */
  lemma {:induction false} WordCellsAlongWalk(cells: seq<CellInfo>, anchor: CellInfo, isHorizontal: bool, len: nat)
    ensures |WordCells(cells, anchor, isHorizontal, len)| == |FoundSteps(cells, anchor, isHorizontal, len)| <= len
    ensures forall t :: 0 <= t < |WordCells(cells, anchor, isHorizontal, len)| ==>
              StepCell(cells, anchor, isHorizontal, FoundSteps(cells, anchor, isHorizontal, len)[t])
                == Some(WordCells(cells, anchor, isHorizontal, len)[t])
  {
    if len > 0 {
      WordCellsAlongWalk(cells, anchor, isHorizontal, len - 1);
    }
  }

  /** Every square a word covers is in the grid and sits on the word's walk. */
  lemma WordCellsOnWalk(cells: seq<CellInfo>, anchor: CellInfo, isHorizontal: bool, len: nat, t: nat)
    requires t < |WordCells(cells, anchor, isHorizontal, len)|
    ensures t < |FoundSteps(cells, anchor, isHorizontal, len)|
    ensures WordCells(cells, anchor, isHorizontal, len)[t] < |cells|
    ensures var i := FoundSteps(cells, anchor, isHorizontal, len)[t];
            i < len && At(cells[WordCells(cells, anchor, isHorizontal, len)[t]], WalkPlace(anchor, isHorizontal, i).0, WalkPlace(anchor, isHorizontal, i).1)
  {
    WordCellsAlongWalk(cells, anchor, isHorizontal, len);
    FoundStepsSpec(cells, anchor, isHorizontal, len);
  }

  /** Every square a word covers is in the grid. */
  lemma WordCellsInGrid(cells: seq<CellInfo>, anchor: CellInfo, isHorizontal: bool, len: nat)
    ensures forall t :: 0 <= t < |WordCells(cells, anchor, isHorizontal, len)| ==> WordCells(cells, anchor, isHorizontal, len)[t] < |cells|
  {
    forall t | 0 <= t < |WordCells(cells, anchor, isHorizontal, len)| {
      WordCellsOnWalk(cells, anchor, isHorizontal, len, t);
    }
  }

  /** A word covers no square twice: its steps are at different places. */
  lemma WordCellsDistinct(cells: seq<CellInfo>, anchor: CellInfo, isHorizontal: bool, len: nat)
    ensures var w := WordCells(cells, anchor, isHorizontal, len);
            forall t, u :: 0 <= t < u < |w| ==> w[t] != w[u]
  {
    var w := WordCells(cells, anchor, isHorizontal, len);
    var steps := FoundSteps(cells, anchor, isHorizontal, len);
    WordCellsAlongWalk(cells, anchor, isHorizontal, len);
    FoundStepsSpec(cells, anchor, isHorizontal, len);
    forall t, u | 0 <= t < u < |w|
      ensures w[t] != w[u]
    {
      var pt := WalkPlace(anchor, isHorizontal, steps[t]);
      var pu := WalkPlace(anchor, isHorizontal, steps[u]);
      assert At(cells[w[t]], pt.0, pt.1) && At(cells[w[u]], pu.0, pu.1);
      assert pt != pu;
    }
  }

  // ---------------------------------------------------------------------------
  // The numbering pass: each numbered square binds a word
  // ---------------------------------------------------------------------------

  /** A square whose button selects a word: open, numbered n > 0, with a word at index n - 1. */
  predicate Binds(c: CellInfo, wordCount: nat) {
    c.isPartOfWord && c.wordNumber > 0 && c.wordNumber - 1 < wordCount
  }

  /** Some open square carries number n. */
  ghost predicate HasAnchor(cells: seq<CellInfo>, n: int) {
    exists i :: 0 <= i < |cells| && cells[i].isPartOfWord && cells[i].wordNumber == n
  }

  /** The words after the numbering pass has gone over `cells`: a binding square numbered n gives word n - 1 the number n. */
  function NumberWords(cells: seq<CellInfo>, ws: seq<WordView>): (r: seq<WordView>)
    ensures |r| == |ws|
  {
    if cells == [] then ws
    else
      var c := cells[|cells| - 1];
      var before := NumberWords(cells[..|cells| - 1], ws);
      if Binds(c, |ws|) then before[c.wordNumber - 1 := before[c.wordNumber - 1].(wordNumber := c.wordNumber)]
      else before
  }

  /** Word k is numbered k + 1 exactly when some open square carries k + 1; no other word changes. */
  lemma {:induction false} NumberWordsSpec(cells: seq<CellInfo>, ws: seq<WordView>)
    ensures forall k :: 0 <= k < |ws| ==>
              NumberWords(cells, ws)[k] == if HasAnchor(cells, k + 1) then ws[k].(wordNumber := k + 1) else ws[k]
  {
    if cells != [] {
      var init := cells[..|cells| - 1];
      var c := cells[|cells| - 1];
      NumberWordsSpec(init, ws);
      forall k | 0 <= k < |ws|
        ensures NumberWords(cells, ws)[k] == if HasAnchor(cells, k + 1) then ws[k].(wordNumber := k + 1) else ws[k]
      {
        if HasAnchor(init, k + 1) {
          var i :| 0 <= i < |init| && init[i].isPartOfWord && init[i].wordNumber == k + 1;
          assert cells[i] == init[i];
        }
        if HasAnchor(cells, k + 1) && !HasAnchor(init, k + 1) {
          var i :| 0 <= i < |cells| && cells[i].isPartOfWord && cells[i].wordNumber == k + 1;
          assert i == |init|;
        }
      }
    }
  }

  /** The numbering pass changes no answer, direction or solved flag, and so no score. */
  lemma NumberWordsKeeps(cells: seq<CellInfo>, ws: seq<WordView>)
    ensures forall k :: 0 <= k < |ws| ==>
              NumberWords(cells, ws)[k] == ws[k].(wordNumber := NumberWords(cells, ws)[k].wordNumber)
    ensures Total(NumberWords(cells, ws)) == Total(ws)
  {
    NumberWordsSpec(cells, ws);
    TotalSameScores(NumberWords(cells, ws), ws);
  }

  /** The word lists after the numbering pass: an empty list for each binding square's number. */
  function AnchorMap(cells: seq<CellInfo>, wordCount: nat): (m: map<int, seq<nat>>)
    ensures forall n :: n in m ==> m[n] == []
  {
    if cells == [] then map[]
    else
      var c := cells[|cells| - 1];
      var before := AnchorMap(cells[..|cells| - 1], wordCount);
      if Binds(c, wordCount) then before[c.wordNumber := []] else before
  }

  /** The numbers with a list after the numbering pass are those of the words that some open square binds. */
  lemma {:induction false} AnchorMapKeys(cells: seq<CellInfo>, wordCount: nat)
    ensures forall n :: n in AnchorMap(cells, wordCount) <==> 1 <= n <= wordCount && HasAnchor(cells, n)
  {
    if cells != [] {
      var init := cells[..|cells| - 1];
      AnchorMapKeys(init, wordCount);
      forall n
        ensures n in AnchorMap(cells, wordCount) <==> 1 <= n <= wordCount && HasAnchor(cells, n)
      {
        if HasAnchor(init, n) {
          var i :| 0 <= i < |init| && init[i].isPartOfWord && init[i].wordNumber == n;
          assert cells[i] == init[i];
        }
        if HasAnchor(cells, n) {
          var i :| 0 <= i < |cells| && cells[i].isPartOfWord && cells[i].wordNumber == n;
          if i < |init| {
            assert init[i] == cells[i];
          }
        }
      }
    }
  }

  /** The text on each square's button: its number when it is open and numbered, nothing otherwise. */
  function Label(c: CellInfo): string
  {
    if c.isPartOfWord && c.wordNumber > 0 then IntString(c.wordNumber) else ""
  }

  /**
   * A square's button has text exactly when the square is open and numbered, and that
   * text reads back as the square's number.
   */
  lemma LabelNumber(c: CellInfo)
    ensures Label(c) != "" <==> c.isPartOfWord && c.wordNumber > 0
    ensures Label(c) != "" && c.wordNumber <= INT_MAX ==> ParseInt(Label(c)) == Some(c.wordNumber)
  {
    if Label(c) != "" && c.wordNumber <= INT_MAX {
      ParseIntString(c.wordNumber);
    }
  }

  /** The button texts of a list of squares. */
  function Labels(cells: seq<CellInfo>): seq<string>
  {
    seq(|cells|, i requires 0 <= i < |cells| => Label(cells[i]))
  }

  lemma LabelsAppend(cells: seq<CellInfo>, c: CellInfo)
    ensures Labels(cells + [c]) == Labels(cells) + [Label(c)]
  {
  }

  // ---------------------------------------------------------------------------
  // The word-cell pass: each anchored word gets the squares of its walk
  // ---------------------------------------------------------------------------

  /** The word lists after the word-cell pass has gone over `ws`: each word found at a square appends its walk to its number's list. */
  function AttachWords(cells: seq<CellInfo>, ws: seq<WordView>, m: map<int, seq<nat>>): map<int, seq<nat>>
  {
    if ws == [] then m
    else AttachWord(cells, ws[|ws| - 1], AttachWords(cells, ws[..|ws| - 1], m))
  }

  /**
   * One word of the second loop: when a square carries the word's number, the squares of
   * the walk from the first such square are appended to that number's list.
   */
  function AttachWord(cells: seq<CellInfo>, w: WordView, m: map<int, seq<nat>>): map<int, seq<nat>>
  {
    match FindStartCell(cells, w.wordNumber)
      case None => m
      case Some(s) =>
        m[w.wordNumber := (if w.wordNumber in m then m[w.wordNumber] else [])
                          + WordCells(cells, cells[s], w.isHorizontal, |w.solution|)]
  }

  /** Attaching the first k + 1 words attaches the first k, then word k. */
  lemma AttachWordsStep(cells: seq<CellInfo>, ws: seq<WordView>, k: nat, m: map<int, seq<nat>>)
    requires k < |ws|
    ensures AttachWords(cells, ws[..k + 1], m) == AttachWord(cells, ws[k], AttachWords(cells, ws[..k], m))
  {
    assert ws[..k + 1][..k] == ws[..k];
  }

  /** Every square a list of word numbers names is one of the first `size` squares. */
  predicate ButtonsIn(m: map<int, seq<nat>>, size: nat) {
    forall n, t :: n in m && 0 <= t < |m[n]| ==> m[n][t] < size
  }

  /** Appending squares of the grid to a number's list keeps every list inside the grid. */
  lemma AppendButtons(m: map<int, seq<nat>>, n: int, found: seq<nat>, size: nat)
    requires ButtonsIn(m, size)
    requires forall t :: 0 <= t < |found| ==> found[t] < size
    ensures ButtonsIn(m[n := (if n in m then m[n] else []) + found], size)
  {
  }

  /** The squares word n - 1 covers once numbered n. */
  function CellsOfNumber(cells: seq<CellInfo>, ws: seq<WordView>, n: int): seq<nat>
    requires 1 <= n <= |ws| && FindStartCell(cells, n).Some?
  {
    WordCells(cells, cells[FindStartCell(cells, n).value], ws[n - 1].isHorizontal, |ws[n - 1].solution|)
  }

  /** The words numbered so far: word k is numbered k + 1 or still 0. */
  ghost predicate NumberedByPosition(ws: seq<WordView>) {
    forall k :: 0 <= k < |ws| ==> ws[k].wordNumber == 0 || ws[k].wordNumber == k + 1
  }

  /** Word n - 1 carries number n and some square carries it too. */
  ghost predicate Anchored(cells: seq<CellInfo>, ws: seq<WordView>, n: int) {
    1 <= n <= |ws| && ws[n - 1].wordNumber == n && FindStartCell(cells, n).Some?
  }

  /**
   * The word-cell pass over words numbered by position, on squares none of which carries 0,
   * starting from empty lists for (at least) every number a word carries: it keeps the
   * numbers that have a list, and the list of number n becomes the squares word n - 1
   * covers when that word carries n and some square does too; every other list stays empty.
   */
  lemma {:induction false} AttachWordsSpec(cells: seq<CellInfo>, ws: seq<WordView>, m: map<int, seq<nat>>)
    requires NumberedByPosition(ws)
    requires forall i :: 0 <= i < |cells| ==> cells[i].wordNumber != 0
    requires forall n :: n in m ==> m[n] == []
    requires forall k :: 0 <= k < |ws| && ws[k].wordNumber != 0 ==> ws[k].wordNumber in m
    ensures AttachWords(cells, ws, m).Keys == m.Keys
    ensures forall n :: n in m ==>
              AttachWords(cells, ws, m)[n] == if Anchored(cells, ws, n) then CellsOfNumber(cells, ws, n) else []
    decreases |ws|
  {
    if ws != [] {
      var last := |ws| - 1;
      var init := ws[..last];
      var w := ws[last];
      assert NumberedByPosition(init) by {
        forall k | 0 <= k < |init| ensures init[k].wordNumber == 0 || init[k].wordNumber == k + 1 {
          assert init[k] == ws[k];
        }
      }
      forall k | 0 <= k < |init| && init[k].wordNumber != 0 ensures init[k].wordNumber in m {
        assert init[k] == ws[k];
      }
      AttachWordsSpec(cells, init, m);
      var before := AttachWords(cells, init, m);
      var after := AttachWords(cells, ws, m);
      var start := FindStartCell(cells, w.wordNumber);
      if start.Some? {
        assert w.wordNumber != 0;
        assert w.wordNumber == last + 1 == |ws|;
        assert w.wordNumber in m;
        assert !Anchored(cells, init, |ws|);
        assert |ws| in before && before[|ws|] == [];
        AttachWordsLast(cells, ws, m);
        assert after == before[|ws| := [] + WordCells(cells, cells[start.value], w.isHorizontal, |w.solution|)];
        assert after[|ws|] == CellsOfNumber(cells, ws, |ws|);
      } else {
        AttachWordsLast(cells, ws, m);
      }
      forall n | n in m && 1 <= n < |ws|
        ensures after[n] == if Anchored(cells, ws, n) then CellsOfNumber(cells, ws, n) else []
      {
        AnchoredPrefix(cells, ws, n);
      }
    }
  }

  /** The last word's step of the word-cell pass. */
  lemma AttachWordsLast(cells: seq<CellInfo>, ws: seq<WordView>, m: map<int, seq<nat>>)
    requires ws != []
    ensures var w := ws[|ws| - 1];
            var before := AttachWords(cells, ws[..|ws| - 1], m);
            match FindStartCell(cells, w.wordNumber)
              case None => AttachWords(cells, ws, m) == before
              case Some(s) =>
                AttachWords(cells, ws, m)
                  == before[w.wordNumber := (if w.wordNumber in before then before[w.wordNumber] else [])
                                            + WordCells(cells, cells[s], w.isHorizontal, |w.solution|)]
  {
  }

  /** Whether a word other than the last is anchored, and the squares it covers, do not depend on the last word. */
  lemma AnchoredPrefix(cells: seq<CellInfo>, ws: seq<WordView>, n: int)
    requires 1 <= n < |ws|
    ensures Anchored(cells, ws, n) == Anchored(cells, ws[..|ws| - 1], n)
    ensures Anchored(cells, ws, n) ==> CellsOfNumber(cells, ws, n) == CellsOfNumber(cells, ws[..|ws| - 1], n)
  {
    assert ws[..|ws| - 1][n - 1] == ws[n - 1];
  }

  /**
   * populateGridPane's two passes over freshly read words (all numbered 0) and squares none
   * of which carries 0: number n has a list exactly when 1 <= n <= |ws| and some open square
   * carries n; its list is then the squares word n - 1 covers from the first square
   * carrying n. A word no open square names keeps the number 0, which has no list.
   */
  lemma Associate(cells: seq<CellInfo>, ws: seq<WordView>)
    requires forall k :: 0 <= k < |ws| ==> ws[k].wordNumber == 0
    requires forall i :: 0 <= i < |cells| ==> cells[i].wordNumber != 0
    ensures var m := AttachWords(cells, NumberWords(cells, ws), AnchorMap(cells, |ws|));
            && (forall n :: n in m <==> 1 <= n <= |ws| && HasAnchor(cells, n))
            && (forall n :: n in m ==> FindStartCell(cells, n).Some? && m[n] == CellsOfNumber(cells, ws, n))
            && (forall k :: 0 <= k < |ws| && !HasAnchor(cells, k + 1) ==> NumberWords(cells, ws)[k].wordNumber == 0)
  {
    var numbered := NumberWords(cells, ws);
    var m0 := AnchorMap(cells, |ws|);
    NumberWordsSpec(cells, ws);
    AnchorMapKeys(cells, |ws|);
    forall k | 0 <= k < |numbered| && numbered[k].wordNumber != 0
      ensures numbered[k].wordNumber in m0
    {
    }
    AttachWordsSpec(cells, numbered, m0);
    forall n | n in m0
      ensures FindStartCell(cells, n).Some?
      ensures AttachWords(cells, numbered, m0)[n] == CellsOfNumber(cells, ws, n)
    {
      var i :| 0 <= i < |cells| && cells[i].isPartOfWord && cells[i].wordNumber == n;
      assert Anchored(cells, numbered, n);
    }
  }
}
