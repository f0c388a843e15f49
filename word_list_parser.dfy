/**
 * The word-list reader (loadWords in controller/GraphicalInterface.java).
 *
 * A word-list file is a theme line that is skipped, then one line per word of the
 * form "orientation;clue;answer". The reader appends one word per line, in file
 * order. A line with fewer than three fields makes it fail with an exception the
 * reader does not catch; the words appended before that line stay in the list.
 */
module WordListParser {
  import opened Options
  import opened JavaText
  import opened Words

  /** What one line of the file says about its word. */
  datatype WordEntry = WordEntry(clue: string, solution: string, isHorizontal: bool)

  /** A line (counted from 1, the theme line being line 1) with fewer than three ';'-separated fields. */
  datatype WordListError = MissingField(line: nat)

  /** The entries the reader appended, and the line it failed on, if any. */
  datatype WordsLoad = WordsLoad(entries: seq<WordEntry>, error: Option<WordListError>)

  /**
   * One line: split on ';' at most twice; the orientation is horizontal exactly when the
   * trimmed first field is "H" in either case; the clue loses every '"' and is trimmed;
   * the answer is trimmed.
   */
  function ParseLine(line: string): Option<WordEntry>
  {
    var parts := SplitAtMost3(line, ';');
    if |parts| < 3 then None
    else Some(WordEntry(Trim(RemoveChar(parts[1], '"')), Trim(parts[2]), EqualsIgnoreCase(Trim(parts[0]), "H")))
  }

  /**
   * The outcomes of the lines after the theme line, read one after the other: the
   * entries up to the first line that cannot be read, which is reported (`lineNo` is
   * the file line of the first outcome).
   */
  function Collect(results: seq<Option<WordEntry>>, lineNo: nat): WordsLoad
  {
    if results == [] then WordsLoad([], None)
    else match results[0]
      case None => WordsLoad([], Some(MissingField(lineNo)))
      case Some(e) =>
        var rest := Collect(results[1..], lineNo + 1);
        WordsLoad([e] + rest.entries, rest.error)
  }

  /** Each line, read on its own. */
  function LineResults(data: seq<string>): seq<Option<WordEntry>>
  {
    seq(|data|, k requires 0 <= k < |data| => ParseLine(data[k]))
  }

  /** loadWords: the whole file, whose first line is the theme. An empty file gives no words. */
  function ParseWords(lines: seq<string>): WordsLoad
  {
    if lines == [] then WordsLoad([], None) else Collect(LineResults(lines[1..]), 2)
  }

  // ---------------------------------------------------------------------------
  // One line
  // ---------------------------------------------------------------------------

  /** A line is read exactly when it holds at least two ';'. */
  lemma ParseLineOk(line: string)
    ensures ParseLine(line).Some? <==> Count(line, ';') >= 2
  {
    SplitAtMost3Fields(line, ';');
  }

  /**
   * The fields of "orientation;clue;answer", when neither the orientation nor the clue
   * holds a ';'. The answer keeps any later ';'.
   */
  lemma ParseLineFields(orientation: string, clue: string, answer: string)
    requires ';' !in orientation && ';' !in clue
    ensures ParseLine(orientation + ";" + clue + ";" + answer)
              == Some(WordEntry(Trim(RemoveChar(clue, '"')), Trim(answer), EqualsIgnoreCase(Trim(orientation), "H")))
  {
    assert orientation + ";" + clue + ";" + answer == orientation + [';'] + clue + [';'] + answer;
    SplitAtMost3Of(orientation, clue, answer, ';');
  }

  /** The line a word list holds for an entry: "H" or "V", the clue and the answer. */
  function FormatLine(e: WordEntry): string
  {
    (if e.isHorizontal then "H" else "V") + ";" + e.clue + ";" + e.solution
  }

  /** An entry the file format can carry: a clue with no ';' or '"', and no blanks at either end of clue or answer. */
  predicate Writable(e: WordEntry) {
    ';' !in e.clue && '"' !in e.clue && CleanEnds(e.clue) && CleanEnds(e.solution)
  }

  /** The orientation field written for a direction is read back as that direction. */
  lemma OrientationRead(isHorizontal: bool)
    ensures EqualsIgnoreCase(Trim(if isHorizontal then "H" else "V"), "H") == isHorizontal
  {
    var o := if isHorizontal then "H" else "V";
    TrimClean(o);
    if !isHorizontal {
      assert UpperChar(o[0]) != UpperChar("H"[0]);
    }
  }

  /** Reading the line written for an entry gives the entry back. */
  lemma ParseFormatLine(e: WordEntry)
    requires Writable(e)
    ensures ParseLine(FormatLine(e)) == Some(e)
  {
    ParseLineFields(if e.isHorizontal then "H" else "V", e.clue, e.solution);
    RemoveCharAbsent(e.clue, '"');
    TrimClean(e.clue);
    TrimClean(e.solution);
    OrientationRead(e.isHorizontal);
  }

  // ---------------------------------------------------------------------------
  // The whole list
  // ---------------------------------------------------------------------------

  /**
   * The entries are the outcomes that were read, in order, up to the first outcome
   * that is not an entry; that one is reported.
   */
  lemma {:induction false} CollectPlaces(results: seq<Option<WordEntry>>, lineNo: nat)
    ensures |Collect(results, lineNo).entries| <= |results|
    ensures forall k :: 0 <= k < |Collect(results, lineNo).entries| ==> results[k] == Some(Collect(results, lineNo).entries[k])
    ensures Collect(results, lineNo).error.None? <==> forall k :: 0 <= k < |results| ==> results[k].Some?
    ensures Collect(results, lineNo).error.None? ==> |Collect(results, lineNo).entries| == |results|
    ensures Collect(results, lineNo).error.Some? ==>
              var n := |Collect(results, lineNo).entries|;
              n < |results| && results[n].None? && Collect(results, lineNo).error == Some(MissingField(lineNo + n))
    decreases |results|
  {
    if results != [] && results[0].Some? {
      var rest := results[1..];
      CollectPlaces(rest, lineNo + 1);
      var r := Collect(rest, lineNo + 1);
      var all := Collect(results, lineNo);
      assert all.entries == [results[0].value] + r.entries;
      forall k | 1 <= k < |all.entries|
        ensures results[k] == Some(all.entries[k])
      {
        assert all.entries[k] == r.entries[k - 1] && rest[k - 1] == results[k];
      }
      assert forall k :: 1 <= k < |results| ==> rest[k - 1] == results[k];
      if all.error.Some? {
        assert rest[|r.entries|] == results[|all.entries|];
      }
    }
  }

  /**
   * loadWords reads one word per line after the theme line, in file order, and fails
   * exactly on the first line that does not have three fields.
   */
  lemma ParseWordsPlaces(lines: seq<string>)
    ensures |ParseWords(lines).entries| < |lines| || ParseWords(lines).entries == []
    ensures ParseWords(lines).error.None? <==> forall k :: 1 <= k < |lines| ==> ParseLine(lines[k]).Some?
    ensures ParseWords(lines).error.None? ==> |ParseWords(lines).entries| == if lines == [] then 0 else |lines| - 1
    ensures forall k :: 0 <= k < |ParseWords(lines).entries| ==> ParseLine(lines[k + 1]) == Some(ParseWords(lines).entries[k])
    ensures ParseWords(lines).error.Some? ==>
              var n := |ParseWords(lines).entries|;
              n + 1 < |lines| && ParseLine(lines[n + 1]).None? && ParseWords(lines).error == Some(MissingField(n + 2))
  {
    if lines != [] {
      var results := LineResults(lines[1..]);
      CollectPlaces(results, 2);
      forall k | 1 <= k < |lines|
        ensures results[k - 1] == ParseLine(lines[k])
      {
        LineResultAt(lines, k);
      }
    }
  }

  /** The outcome of file line k + 1 is the reading of that line. */
  lemma LineResultAt(lines: seq<string>, k: nat)
    requires 1 <= k < |lines|
    ensures LineResults(lines[1..])[k - 1] == ParseLine(lines[k])
  {
    assert lines[1..][k - 1] == lines[k];
  }

  // ---------------------------------------------------------------------------
  // The reader itself
  // ---------------------------------------------------------------------------

  /** The word made for an entry: placed nowhere yet (row and column -1), unanswered, unsolved, unnumbered. */
  function NewWordView(e: WordEntry): WordView
  {
    WordView(e.clue, e.solution, e.isHorizontal, -1, -1, "", false, 0)
  }

  function NewWordViews(entries: seq<WordEntry>): seq<WordView>
  {
    seq(|entries|, i requires 0 <= i < |entries| => NewWordView(entries[i]))
  }

  lemma NewWordViewsAppend(entries: seq<WordEntry>, e: WordEntry)
    ensures NewWordViews(entries + [e]) == NewWordViews(entries) + [NewWordView(e)]
  {
  }

  /** One step of Collect: the first outcome is refused, or gives the first entry. */
  lemma CollectStep(results: seq<Option<WordEntry>>, i: nat, lineNo: nat)
    requires i < |results|
    ensures results[i].None? ==> Collect(results[i..], lineNo) == WordsLoad([], Some(MissingField(lineNo)))
    ensures results[i].Some? ==>
              Collect(results[i..], lineNo)
                == WordsLoad([results[i].value] + Collect(results[i + 1..], lineNo + 1).entries,
                             Collect(results[i + 1..], lineNo + 1).error)
  {
    assert results[i..][0] == results[i] && results[i..][1..] == results[i + 1..];
  }

  /** The outcome of the lines from file line li + 1 on (li counted from 0). */
  function Remaining(lines: seq<string>, li: nat): WordsLoad
    requires 1 <= li <= |lines|
  {
    Collect(LineResults(lines[1..])[li - 1..], li + 1)
  }

  /** Entries already read, followed by the outcome of the rest. */
  function Joined(entries: seq<WordEntry>, rest: WordsLoad): WordsLoad
  {
    WordsLoad(entries + rest.entries, rest.error)
  }

  /** One line of the reader's loop: the line is refused and reported, or its entry is appended. */
  lemma LoadStep(lines: seq<string>, li: nat, entries: seq<WordEntry>)
    requires 1 <= li < |lines|
    ensures ParseLine(lines[li]).None? ==> Joined(entries, Remaining(lines, li)) == WordsLoad(entries, Some(MissingField(li + 1)))
    ensures ParseLine(lines[li]).Some? ==>
              Joined(entries, Remaining(lines, li)) == Joined(entries + [ParseLine(lines[li]).value], Remaining(lines, li + 1))
  {
    var results := LineResults(lines[1..]);
    CollectStep(results, li - 1, li + 1);
    LineResultAt(lines, li);
  }

  /** Past the last line nothing remains. */
  lemma RemainingEnd(lines: seq<string>)
    requires 1 <= |lines|
    ensures Remaining(lines, |lines|) == WordsLoad([], None)
  {
    assert LineResults(lines[1..])[|lines| - 1..] == [];
  }

  /** The whole file is the outcome of the lines after the theme line. */
  lemma RemainingStart(lines: seq<string>)
    requires 1 <= |lines|
    ensures ParseWords(lines) == Joined([], Remaining(lines, 1))
  {
    assert LineResults(lines[1..])[0..] == LineResults(lines[1..]);
  }

  /** The Word made for one line of the file. */
  method NewWord(e: WordEntry) returns (word: Word)
    ensures fresh(word) && word.View() == NewWordView(e)
  {
    word := new Word(e.clue, e.solution, e.isHorizontal, -1, -1);
  }

  /**
   * The head of loadWords' loop: line li (counted from 0) is split into its fields.
   * It is refused and reported, or its entry joins those read before it.
   */
  method ReadLine(lines: seq<string>, li: nat, ghost entries: seq<WordEntry>) returns (entry: Option<WordEntry>)
    requires 1 <= li < |lines|
    ensures entry.None? ==> Joined(entries, Remaining(lines, li)) == WordsLoad(entries, Some(MissingField(li + 1)))
    ensures entry.Some? ==> Joined(entries, Remaining(lines, li)) == Joined(entries + [entry.value], Remaining(lines, li + 1))
  {
    LoadStep(lines, li, entries);
    entry := ParseLine(lines[li]);
  }

  /** The body of loadWords' loop for a line that was read: a new Word for its entry, to go at the end of the list. */
  method AppendWord(ws: seq<Word>, e: WordEntry) returns (word: Word)
    requires forall i, j :: 0 <= i < j < |ws| ==> ws[i] != ws[j]
    ensures fresh(word)
    ensures WordViews(ws + [word]) == WordViews(ws) + [NewWordView(e)]
    ensures forall i, j :: 0 <= i < j < |ws + [word]| ==> (ws + [word])[i] != (ws + [word])[j]
  {
    word := NewWord(e);
    WordViewsAppend(ws, [word]);
  }

  /**
   * loadWords: one fresh, distinct Word per line after the theme line, stopping at
   * the first line without three fields.
   */
  method LoadWords(lines: seq<string>) returns (ws: seq<Word>, error: Option<WordListError>)
    ensures WordViews(ws) == NewWordViews(ParseWords(lines).entries) && error == ParseWords(lines).error
    ensures forall w :: w in ws ==> fresh(w)
    ensures forall i, j :: 0 <= i < j < |ws| ==> ws[i] != ws[j]
  {
    ws, error := [], None;
    if lines == [] {
      return;
    }
    ghost var entries: seq<WordEntry> := [];
    RemainingStart(lines);
    var li := 1;
    while li < |lines|
      invariant 1 <= li <= |lines|
      invariant forall w :: w in ws ==> fresh(w)
      invariant forall i, j :: 0 <= i < j < |ws| ==> ws[i] != ws[j]
      invariant WordViews(ws) == NewWordViews(entries)
      invariant ParseWords(lines) == Joined(entries, Remaining(lines, li))
    {
      var entry := ReadLine(lines, li, entries);
      if entry.None? {
        return ws, Some(MissingField(li + 1));
      }
      var word := AppendWord(ws, entry.value);
      ws := ws + [word];
      NewWordViewsAppend(entries, entry.value);
      entries := entries + [entry.value];
      li := li + 1;
    }
    RemainingEnd(lines);
  }
}
