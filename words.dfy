/** One clue and its answer (model/Word.java), and the scores of a list of them. */
module Words {

  /** Everything a Word holds, as a value. */
  datatype WordView = WordView(
    clue: string,
    solution: string,
    isHorizontal: bool,
    row: int,
    col: int,
    currentAnswer: string,
    solved: bool,
    wordNumber: int)

  /** What a word is worth: nothing until it is solved, then two points per letter. */
  function SolveScore(solution: string, solved: bool): nat
  {
    if solved then |solution| * 2 else 0
  }

  /** A word of the puzzle. Its clue, answer, direction and position never change. */
  class Word {
    const clue: string
    const solution: string
    const isHorizontal: bool
    const row: int
    const col: int
    var currentAnswer: string
    var solved: bool
    var wordNumber: int

    function View(): WordView
      reads this
    {
      WordView(clue, solution, isHorizontal, row, col, currentAnswer, solved, wordNumber)
    }

    /** A new word: no answer given yet, unsolved, and numbered 0 until it is bound to a square. */
    constructor (clue: string, solution: string, isHorizontal: bool, row: int, col: int)
      ensures View() == WordView(clue, solution, isHorizontal, row, col, "", false, 0)
    {
      this.clue := clue;
      this.solution := solution;
      this.isHorizontal := isHorizontal;
      this.row := row;
      this.col := col;
      this.currentAnswer := "";
      this.solved := false;
      this.wordNumber := 0;
    }

    method SetWordNumber(n: int)
      modifies this`wordNumber
      ensures View() == old(View()).(wordNumber := n)
    {
      wordNumber := n;
    }

    method SetSolved(s: bool)
      modifies this`solved
      ensures View() == old(View()).(solved := s)
    {
      solved := s;
    }

    method SetCurrentAnswer(a: string)
      modifies this`currentAnswer
      ensures View() == old(View()).(currentAnswer := a)
    {
      currentAnswer := a;
    }

    /** getScore: nothing while the word is unsolved, two points per letter once it is solved. */
    function GetScore(): (s: nat)
      reads this
      ensures !solved ==> s == 0
      ensures solved ==> s == 2 * |solution|
    {
      SolveScore(solution, solved)
    }
  }

  /** No word object appears twice in the list. */
  predicate Distinct(words: seq<Word>) {
    forall i, j :: 0 <= i < j < |words| ==> words[i] != words[j]
  }

  /** The values held by a list of words, in list order. */
  function WordViews(words: seq<Word>): seq<WordView>
    reads words
  {
    seq(|words|, i requires 0 <= i < |words| reads words => words[i].View())
  }

  /** The values of two lists of words put together are the values of each, put together. */
  lemma WordViewsAppend(a: seq<Word>, b: seq<Word>)
    ensures WordViews(a + b) == WordViews(a) + WordViews(b)
  {
  }

  /** The score of a list of words: the sum of their scores. */
  function Total(ws: seq<WordView>): int
  {
    if ws == [] then 0 else Total(ws[..|ws| - 1]) + SolveScore(ws[|ws| - 1].solution, ws[|ws| - 1].solved)
  }

  /** The best score a list of words allows: two points per letter of every answer. */
  function MaxTotal(ws: seq<WordView>): int
  {
    if ws == [] then 0 else MaxTotal(ws[..|ws| - 1]) + 2 * |ws[|ws| - 1].solution|
  }

  /** Replacing one word changes the total by the difference of the two words' scores. */
  lemma {:induction false} TotalUpdate(ws: seq<WordView>, k: nat, w: WordView)
    requires k < |ws|
    ensures Total(ws[k := w]) == Total(ws) - SolveScore(ws[k].solution, ws[k].solved) + SolveScore(w.solution, w.solved)
    decreases |ws|
  {
    var ws' := ws[k := w];
    var n := |ws| - 1;
    if k < n {
      assert ws'[..n] == ws[..n][k := w];
      TotalUpdate(ws[..n], k, w);
    } else {
      assert ws'[..n] == ws[..n];
    }
  }

  /** Two lists whose words have the same answers and the same solved flags score the same. */
  lemma {:induction false} TotalSameScores(a: seq<WordView>, b: seq<WordView>)
    requires |a| == |b|
    requires forall k :: 0 <= k < |a| ==> a[k].solution == b[k].solution && a[k].solved == b[k].solved
    ensures Total(a) == Total(b)
  {
    if a != [] {
      TotalSameScores(a[..|a| - 1], b[..|b| - 1]);
    }
  }

  /** The total lies between nothing and the best possible score. */
  lemma {:induction false} TotalBounds(ws: seq<WordView>)
    ensures 0 <= Total(ws) <= MaxTotal(ws)
  {
    if ws != [] {
      TotalBounds(ws[..|ws| - 1]);
    }
  }

  /** A list of unsolved words scores nothing. */
  lemma {:induction false} TotalUnsolved(ws: seq<WordView>)
    requires forall i :: 0 <= i < |ws| ==> !ws[i].solved
    ensures Total(ws) == 0
  {
    if ws != [] {
      TotalUnsolved(ws[..|ws| - 1]);
    }
  }

  /** A list of solved words scores the maximum. */
  lemma {:induction false} TotalAllSolved(ws: seq<WordView>)
    requires forall i :: 0 <= i < |ws| ==> ws[i].solved
    ensures Total(ws) == MaxTotal(ws)
  {
    if ws != [] {
      TotalAllSolved(ws[..|ws| - 1]);
    }
  }
}
