# Crossword game core, in Dafny

A model of the puzzle logic of a JavaFX crossword game, with proofs about it. The
game's controller, `GraphicalInterface`, reads two text files and keeps the game state.

- **Word list.** The first line is a theme. Each later line is `orientation;clue;answer`.
- **Grid.** The first line is a theme. The second is `rows,cols`. Then come `rows` lines of `cols` integers:
  - `-1` is a blocked square;
  - `0` is an open square with no number;
  - `n` is an open square carrying number `n`.
- **Numbering.** The square numbered `n` anchors word `n - 1`. The word's letters go on the squares that follow the anchor, to the right or downwards.
- **State.** The player selects a word by clicking its anchor and types guesses. The controller keeps the score.

The model follows the source's own structure:

| file | models |
|---|---|
| `options.dfy` | `Option` |
| `java_text.dfy` | the parts of `java.lang.String` and `Integer.parseInt` the core relies on: `trim`, `split` (with and without a limit), `replace` of one character, ASCII `toUpperCase`/`equalsIgnoreCase`, and `Integer.parseInt` restricted to ASCII digits |
| `cells.dfy` | the `Case` class (a square). `row`/`col` are constants; the other fields are mutable |
| `words.dfy` | the `Word` class, its score rule, and the sum of the scores |
| `grid_parser.dfy` | `loadGrid` |
| `word_list_parser.dfy` | `loadWords` |
| `association.dfy` | the numbering pass and the word-cell pass of `populateGridPane`, with `findStartCell` and `findCell` |
| `game.dfy` | the class `Crossword`, with the game actions listed below |

The actions in `Crossword` are:

- `resetGame`;
- a click on a numbered square;
- `handleGuess`;
- `clearWordCells`;
- the SOLUTION and LETTERS buttons.

Each loader has two halves:

- a pure function over the already-read lines (`ParseGrid`, `ParseWords`), which states what the file means and returns the cells or entries with an optional error;
- an imperative method (`LoadGrid`, `LoadWords`) with the source's loops, which creates fresh `Case`/`Word` objects. Its postcondition ties the objects' values to that function.

The source reports grid problems without undoing anything. So on an error, `ParseGrid` keeps the squares read before the problem, as `gridCells` does.

A word-list line with fewer than three fields makes `loadWords` throw an exception it does not catch, and that ends `resetGame`. The model returns the words read so far together with a `MissingField(line)` error. `Crossword.Reset` then stops before reading the grid.

The game state keeps the following, all as fields that the methods reassign:

- the words;
- the squares;
- the buttons of each word number (as square indices);
- the text on each square's button;
- the selected word (an index);
- the score.

`Crossword.Valid` is preserved by every action. It says:

- the selected word exists and is unsolved;
- the score is the sum of the words' scores;
- every button index names a square.

## Model

| member | source | states |
|---|---|---|
| Cells.Case.constructor | src/main/java/org/example/crossword/model/Case.java:11-17 | a new square has the given row and column, a blank character, is not part of a word and carries number -1 |
| Cells.Case.SetCurrentChar | src/main/java/org/example/crossword/model/Case.java:32-34 | only the character changes |
| Cells.Case.SetPartOfWord | src/main/java/org/example/crossword/model/Case.java:40-43 | only the open flag and the number change, to the given values |
| Words.Word.constructor | src/main/java/org/example/crossword/model/Word.java:14-22 | the clue, answer, direction, row and column are stored; the current answer is empty, the word is unsolved, and its number is 0 (the field is never initialised) |
| Words.Word.SetWordNumber | src/main/java/org/example/crossword/model/Word.java:25-27 | only the number changes |
| Words.Word.SetSolved | src/main/java/org/example/crossword/model/Word.java:33-35 | only the solved flag changes |
| Words.Word.SetCurrentAnswer | src/main/java/org/example/crossword/model/Word.java:61-63 | only the current answer changes |
| Words.Word.GetScore | src/main/java/org/example/crossword/model/Word.java:66-71 | an unsolved word is worth 0 and a solved one two points per letter of its answer; `TotalUnsolved`, `TotalAllSolved` and `TotalBounds` carry the rule over to the whole list |
| Words.TotalUpdate | src/main/java/org/example/crossword/model/Word.java:66-71 | replacing one word changes the sum of scores by exactly the difference of that word's scores |
| Words.TotalSameScores | src/main/java/org/example/crossword/model/Word.java:66-71 | words with the same answers and solved flags have the same total score |
| Words.TotalBounds | src/main/java/org/example/crossword/model/Word.java:66-71 | the total score is between 0 and two points per letter of every answer |
| Words.TotalUnsolved | src/main/java/org/example/crossword/model/Word.java:66-71 | unsolved words score nothing |
| Words.TotalAllSolved | src/main/java/org/example/crossword/model/Word.java:66-71 | when every word is solved, the score is the maximum, two points per letter |
| JavaText.TrimCleanEnds | src/main/java/org/example/crossword/controller/GraphicalInterface.java:231 | a trimmed string starts and ends with no character at or below U+0020 (space or a C0 control) |
| JavaText.TrimClean | src/main/java/org/example/crossword/controller/GraphicalInterface.java:231 | trimming a string with clean ends changes nothing |
| JavaText.TrimRemovesPadding | src/main/java/org/example/crossword/controller/GraphicalInterface.java:243 | trimming removes exactly the leading and trailing padding around a clean string |
| JavaText.SplitAllJoin | src/main/java/org/example/crossword/controller/GraphicalInterface.java:226 | the unlimited split yields pieces free of the separator that join back to the input |
| JavaText.SplitJoin | src/main/java/org/example/crossword/controller/GraphicalInterface.java:226 | splitting a join of separator-free pieces gives those pieces back |
| JavaText.SplitAllCount | src/main/java/org/example/crossword/controller/GraphicalInterface.java:237 | the unlimited split has one more piece than the string has separators |
| JavaText.JavaSplitFields | src/main/java/org/example/crossword/controller/GraphicalInterface.java:237 | `split(",")` is the unlimited split with its trailing empty pieces dropped: a prefix of it, ending in a non-empty piece, with only empty pieces removed |
| JavaText.SplitAtMost3Join | src/main/java/org/example/crossword/controller/GraphicalInterface.java:677 | `split(";", 3)` yields 1 to 3 pieces that join back to the line; only the last piece may hold the separator, and only when there are 3 |
| JavaText.SplitAtMost3Of | src/main/java/org/example/crossword/controller/GraphicalInterface.java:677 | a line `a;b;rest` with `a` and `b` free of `;` splits into exactly `[a, b, rest]`, so later `;` stay in the answer |
| JavaText.SplitAtMost3Fields | src/main/java/org/example/crossword/controller/GraphicalInterface.java:677 | the split has 3 pieces if and only if the line holds at least two separators |
| JavaText.RemoveCharCounts | src/main/java/org/example/crossword/controller/GraphicalInterface.java:679 | removing `"` leaves no `"` and keeps every other character's count |
| JavaText.RemoveCharAbsent | src/main/java/org/example/crossword/controller/GraphicalInterface.java:679 | removing a character that does not occur changes nothing |
| JavaText.RemoveCharAppend | src/main/java/org/example/crossword/controller/GraphicalInterface.java:679 | removal distributes over concatenation |
| JavaText.UpperChar | src/main/java/org/example/crossword/controller/GraphicalInterface.java:168-169 | upper-casing a character maps an ASCII lower-case letter 32 code points down and leaves every other character alone |
| JavaText.Upper | src/main/java/org/example/crossword/controller/GraphicalInterface.java:168-169 | upper-casing keeps the length, maps each character by `UpperChar`, leaves no lower-case ASCII letter, and keeps every other character |
| JavaText.EqualsIgnoreCaseUpper | src/main/java/org/example/crossword/controller/GraphicalInterface.java:194 | two strings are equal ignoring case if and only if their upper-cased forms are equal |
| JavaText.UpperIdempotent | src/main/java/org/example/crossword/controller/GraphicalInterface.java:168-169 | upper-casing twice is upper-casing once |
| JavaText.ParseInt | src/main/java/org/example/crossword/controller/GraphicalInterface.java:231-232 | a parsed value lies in the 32-bit range, everything after the first character is a digit, and the value is not positive after a minus sign |
| JavaText.ParseIntSyntax | src/main/java/org/example/crossword/controller/GraphicalInterface.java:231-232 | a string that parses is non-empty and is a sign or a digit followed by digits only; a sign alone does not parse |
| JavaText.ParseIntSigned | src/main/java/org/example/crossword/controller/GraphicalInterface.java:231-232 | digits alone or after `+` give their value and after `-` its negation, each only when it fits in 32 bits (so "+5" is 5) |
| JavaText.LeadingZero | src/main/java/org/example/crossword/controller/GraphicalInterface.java:243 | a leading zero does not change the value of a run of digits (so "007" is 7) |
| JavaText.ParseIntString | src/main/java/org/example/crossword/controller/GraphicalInterface.java:243 | every 32-bit integer's decimal form parses back to it |
| GridParser.CellValueRoundTrip | src/main/java/org/example/crossword/controller/GraphicalInterface.java:244-252 | the square made from value v at (row, col) sits at (row, col), and v can be read back from it: -1 blocked, 0 open with number -1, any other value open with that number |
| GridParser.CellNumberNeverZero | src/main/java/org/example/crossword/controller/GraphicalInterface.java:246-252 | a square never carries number 0; it carries a positive number exactly when its value is positive, and is then open |
| GridParser.MadeShape | src/main/java/org/example/crossword/controller/GraphicalInterface.java:244-252 | a square the reader made is blank, never numbered 0, and numbered positively only if open |
| GridParser.ParseTokensOk | src/main/java/org/example/crossword/controller/GraphicalInterface.java:242-255 | a data line's fields raise no error exactly when every trimmed field is an integer, and then make one square each |
| GridParser.ParseTokensPlaces | src/main/java/org/example/crossword/controller/GraphicalInterface.java:242-255 | every square a data line gives, including the ones made before a bad field, is the square of the field at its position, at column col + j of that row |
| GridParser.ParseTokensCoords | src/main/java/org/example/crossword/controller/GraphicalInterface.java:244 | the squares of a data line sit in that row, in consecutive columns |
| GridParser.ParseRowOk | src/main/java/org/example/crossword/controller/GraphicalInterface.java:237-255 | a data line is read without error if and only if it has exactly `cols` fields, all integers, and then gives `cols` squares |
| GridParser.ParseRowsOk | src/main/java/org/example/crossword/controller/GraphicalInterface.java:234-256 | the data lines are read without error if and only if every one of them is well formed |
| GridParser.GridOkIffWellFormed | src/main/java/org/example/crossword/controller/GraphicalInterface.java:218-265 | the grid file loads without error if and only if it has a two-integer `rows,cols` line, exactly `rows` data lines, and `cols` integer fields on each |
| GridParser.GridLayout | src/main/java/org/example/crossword/controller/GraphicalInterface.java:218-265 | a grid that loads without error is well formed, has as many data lines as it declares, and its squares are those of its data lines read from row 0 |
| GridParser.RowsSize | src/main/java/org/example/crossword/controller/GraphicalInterface.java:234-256 | well-formed data lines give exactly lines × cols squares and no error |
| GridParser.RowsPlaced | src/main/java/org/example/crossword/controller/GraphicalInterface.java:234-256 | in row-major order, the square at k × cols + j is the one made from field j of data line k, at row k and column j |
| GridParser.GridSize | src/main/java/org/example/crossword/controller/GraphicalInterface.java:218-265 | a grid that loads without error has exactly rows × cols squares |
| GridParser.ColumnMismatchReported | src/main/java/org/example/crossword/controller/GraphicalInterface.java:237-240 | the first data line with the wrong number of fields is reported by its 1-based number, and the squares kept are exactly the squares of the good lines before it (which `RowsPlaced` places), `k * cols` of them; a negative column count, which `parseInt` accepts, fails on the first line |
| GridParser.ColumnMismatchKeeps | src/main/java/org/example/crossword/controller/GraphicalInterface.java:237-240 | the same for a column count that is not negative, with the kept squares counted row by row |
| GridParser.ChainFirstError | src/main/java/org/example/crossword/controller/GraphicalInterface.java:254-264 | the first failing line's error is the file's error; the squares kept are exactly those of the lines before it, followed by the ones that line made before the failure |
| GridParser.ParseRowsBounds | src/main/java/org/example/crossword/controller/GraphicalInterface.java:234-256 | every square read lies within the rows read and the declared columns |
| GridParser.GridSquaresMade | src/main/java/org/example/crossword/controller/GraphicalInterface.java:243-254 | every square of a loaded grid, complete or partial, is one the value mapping makes |
| GridParser.NewCell | src/main/java/org/example/crossword/controller/GraphicalInterface.java:244-252 | a fresh square holding the mapping of its value |
| GridParser.LoadRow | src/main/java/org/example/crossword/controller/GraphicalInterface.java:242-255 | the column loop creates fresh squares equal to the pure reading of the line, and stops at the first field that is not an integer |
| GridParser.LoadRows | src/main/java/org/example/crossword/controller/GraphicalInterface.java:234-256 | the line loop's fresh squares and error equal the pure reading of the data lines |
| GridParser.LoadGrid | src/main/java/org/example/crossword/controller/GraphicalInterface.java:218-265 | loadGrid's fresh squares and error equal `ParseGrid` of the file's lines |
| WordListParser.ParseLineOk | src/main/java/org/example/crossword/controller/GraphicalInterface.java:677-680 | a line gives a word if and only if it holds at least two `;` |
| WordListParser.ParseLineFields | src/main/java/org/example/crossword/controller/GraphicalInterface.java:677-680 | a line `o;c;a` gives the clue `c` with every `"` removed and trimmed, the answer `a` trimmed, and horizontal exactly when the trimmed `o` equals `H` ignoring case |
| WordListParser.OrientationRead | src/main/java/org/example/crossword/controller/GraphicalInterface.java:678 | `H` reads as horizontal and `V` as vertical |
| WordListParser.ParseFormatLine | src/main/java/org/example/crossword/controller/GraphicalInterface.java:677-680 | round trip: a word written as a line is read back unchanged |
| WordListParser.CollectPlaces | src/main/java/org/example/crossword/controller/GraphicalInterface.java:676-683 | the words kept are the results of the lines, in order, up to the first line that has too few fields, which is reported by its line number |
| WordListParser.ParseWordsPlaces | src/main/java/org/example/crossword/controller/GraphicalInterface.java:673-687 | the first line is skipped; word k comes from line k + 1, in file order; there is no error if and only if every later line has three fields; otherwise the error names the first bad line (1-based) and the words before it are kept |
| WordListParser.NewWord | src/main/java/org/example/crossword/controller/GraphicalInterface.java:681 | a fresh word at (-1, -1), unsolved, with an empty answer and number 0 |
| WordListParser.ReadLine | src/main/java/org/example/crossword/controller/GraphicalInterface.java:677-680 | reading one line either ends the list with that line's error or extends it by that line's word |
| WordListParser.AppendWord | src/main/java/org/example/crossword/controller/GraphicalInterface.java:681-682 | appending a fresh word adds exactly its entry to the list and keeps the objects distinct |
| WordListParser.LoadWords | src/main/java/org/example/crossword/controller/GraphicalInterface.java:673-687 | loadWords' fresh, distinct words and error equal `ParseWords` of the file's lines |
| Association.FindStartCell | src/main/java/org/example/crossword/controller/GraphicalInterface.java:377-382 | the first square, in grid order, carrying the given number, or none if no square carries it |
| Association.FindCell | src/main/java/org/example/crossword/controller/GraphicalInterface.java:384-389 | the first square at the given row and column, or none |
| Association.WalkWord | src/main/java/org/example/crossword/controller/GraphicalInterface.java:329-348 | the walk loop's squares equal the specification `WordCells` |
| Association.WordCellsAlongWalk | src/main/java/org/example/crossword/controller/GraphicalInterface.java:329-348 | a word covers, in walk order, the square found at each step that finds one; at most one per letter, and blocked squares are included |
| Association.WordCellsOnWalk | src/main/java/org/example/crossword/controller/GraphicalInterface.java:329-348 | each covered square is in the grid, at step i < length of the walk: (r, c + 1 + i) across, (r + 1 + i, c) down |
| Association.WordCellsInGrid | src/main/java/org/example/crossword/controller/GraphicalInterface.java:329-348 | every covered square is a square of the grid |
| Association.WordCellsDistinct | src/main/java/org/example/crossword/controller/GraphicalInterface.java:329-348 | a word never covers the same square twice |
| Association.NumberWordsSpec | src/main/java/org/example/crossword/controller/GraphicalInterface.java:285-295 | after the numbering pass, word k carries k + 1 exactly when some open square carries k + 1, and is otherwise unchanged |
| Association.NumberWordsKeeps | src/main/java/org/example/crossword/controller/GraphicalInterface.java:291-295 | the numbering pass changes only word numbers, so not the score |
| Association.LabelNumber | src/main/java/org/example/crossword/controller/GraphicalInterface.java:285-288 | the button text `Label` gives a square is non-empty exactly when the square is open and numbered, and it then reads back as the square's number |
| Association.AnchorMapKeys | src/main/java/org/example/crossword/controller/GraphicalInterface.java:291-295 | the numbering pass gives an empty button list to number n exactly when 1 <= n <= the number of words and some open square carries n |
| Association.AppendButtons | src/main/java/org/example/crossword/controller/GraphicalInterface.java:350-356 | adding squares of the grid to a word's list keeps every listed button a square's |
| Association.AttachWordsSpec | src/main/java/org/example/crossword/controller/GraphicalInterface.java:325-358 | the word-cell pass adds no numbers, and fills number n's list with the squares word n - 1 covers from the first square carrying n |
| Association.Associate | src/main/java/org/example/crossword/controller/GraphicalInterface.java:285-358 | for freshly read words on a grid with no 0-numbered square, the two passes give number n a list exactly when an open square carries n and a word n - 1 exists; that list is the word's walk from the first such square; a word no square names keeps number 0 |
| Game.MaskSpec | src/main/java/org/example/crossword/controller/GraphicalInterface.java:181-192 | showing a guess sets button t to position t of the guess for each t shown, and leaves every other button's text alone |
| Game.MaskCorrect | src/main/java/org/example/crossword/controller/GraphicalInterface.java:181-194 | when the guess is accepted (equal to the answer ignoring case), every button the word's display loop reaches shows the answer's upper-cased letter at that position |
| Game.GuessAccepted | src/main/java/org/example/crossword/controller/GraphicalInterface.java:168-194 | comparing the upper-cased guess and answer ignoring case is the same as comparing the originals ignoring case, and the same as plain equality of the upper-cased forms |
| Game.JudgeSpec | src/main/java/org/example/crossword/controller/GraphicalInterface.java:165-216 | a guess of another length is refused, naming the answer's length; one of the right length is accepted if and only if it equals the answer ignoring case, and earns two points per letter |
| Game.LoadedWordsBound | src/main/java/org/example/crossword/controller/GraphicalInterface.java:66-79 | after both files are read, word n - 1 has buttons exactly when an open square carries n; they are its walk from the first such square; unnamed words keep number 0 |
| Game.LoadedWordsUnsolved | src/main/java/org/example/crossword/controller/GraphicalInterface.java:673-687 | freshly read words are all unsolved and score nothing |
| Game.Crossword.constructor | src/main/java/org/example/crossword/controller/GraphicalInterface.java:53-60 | empty lists, no selection, score 0 |
| Game.Crossword.Reset | src/main/java/org/example/crossword/controller/GraphicalInterface.java:66-79 | the score is 0, nothing is selected, the words are the fresh words read, numbered by the grid; the squares, button texts and button lists are those of the grid file; after a bad word line, no grid is read |
| Game.Crossword.ReadGrid | src/main/java/org/example/crossword/controller/GraphicalInterface.java:76-77 | loadGrid then populateGridPane: the squares are `ParseGrid`'s, the words are numbered by them, and the buttons are attached; the score and selection are unchanged |
| Game.Crossword.Populate | src/main/java/org/example/crossword/controller/GraphicalInterface.java:267-358 | both passes: the button texts are the squares' labels, words are numbered by the squares, and each number's list is its word's walk |
| Game.Crossword.NumberPass | src/main/java/org/example/crossword/controller/GraphicalInterface.java:271-323 | the first pass labels every square, numbers the words, and makes an empty list per binding number |
| Game.Crossword.NumberSquare | src/main/java/org/example/crossword/controller/GraphicalInterface.java:285-296 | one square of the first pass: its label is appended, and a binding square numbers its word and opens an empty list for it |
| Game.Crossword.WordCellPass | src/main/java/org/example/crossword/controller/GraphicalInterface.java:325-358 | the second pass attaches, word by word, the squares of each anchored word's walk |
| Game.Crossword.AttachOne | src/main/java/org/example/crossword/controller/GraphicalInterface.java:326-357 | one word of the second pass: an anchored word's walk is appended to its number's list |
| Game.Crossword.ClearWordCells | src/main/java/org/example/crossword/controller/GraphicalInterface.java:391-398 | a word's buttons lose their text; with no list for its number, nothing changes; `Valid` is kept |
| Game.Crossword.Click | src/main/java/org/example/crossword/controller/GraphicalInterface.java:297-313 | a click on a binding square of an unsolved word selects it, first clearing the buttons of a different, unsolved selected word; a solved word or a non-binding square changes nothing |
| Game.Crossword.HandleGuess | src/main/java/org/example/crossword/controller/GraphicalInterface.java:165-216 | with no selection or a guess of the wrong length, nothing changes; otherwise the upper-cased guess becomes the current answer and is shown, and a right guess solves the word, adds two points per letter and clears the selection; the score never decreases |
| Game.Crossword.Answer | src/main/java/org/example/crossword/controller/GraphicalInterface.java:180-215 | the part of handleGuess after the length check, with its whole new state |
| Game.Crossword.Record | src/main/java/org/example/crossword/controller/GraphicalInterface.java:180 | only the selected word's current answer changes |
| Game.Crossword.Settle | src/main/java/org/example/crossword/controller/GraphicalInterface.java:194-215 | an accepted guess solves the word, adds its score and clears the selection; a refused one changes nothing |
| Game.Crossword.ShowGuess | src/main/java/org/example/crossword/controller/GraphicalInterface.java:181-192 | the loop over the word's buttons leaves the texts `GuessLabels` describes (see MaskSpec) |
| Game.Crossword.RevealSolution | src/main/java/org/example/crossword/controller/GraphicalInterface.java:566-594 | with a selection, the selected word's answer is shown and the selection ends; without one, nothing happens |
| Game.Crossword.ShowLetters | src/main/java/org/example/crossword/controller/GraphicalInterface.java:596-635 | with a selection, the letters of its answer (as a multiset) are shown and the selection ends; without one, nothing happens |

## Left out

- **Presentation.** All JavaFX presentation is out:
  - styles, colours and themes (`applyThemeColors`);
  - the highlighted `selectedButton`;
  - the guess box (`createGuessInputSection`);
  - layout geometry;
  - the clue dialog on a double click;
  - the help dialog, and the alert texts.

  Buttons are modelled by their text only. A button is the index of its square.
- **File reading.** `BufferedReader`/`FileReader` and the theme-to-file maps are out. The parsers take the file's lines as a parameter.
- **IOException.** The `IOException` that `loadWords` catches (a missing file) is not modelled.
- **Guess text field.** The guess text field is the `guess` parameter of `HandleGuess`. Its null check is not modelled.
- **`start`.** The application start (`start`) is modelled as the constructor followed by `Reset`, which performs the same loads and passes. They differ in two ways:
  - the theme: `start` reads fixed files, and `Reset` reads the current theme's files;
  - a bad word line: the uncaught exception aborts the launch in `start`, so no window is shown. The model gives the partial state that `resetGame` leaves instead (the words read so far, no grid).
- **Shuffle.** `Collections.shuffle` in the LETTERS action is left out. `ShowLetters` returns the multiset of the answer's letters, which is all a shuffle keeps.
- **Maximum score label.** The hard-coded maximum-score label "125" is a constant, not computed. `Words.TotalBounds` and `Words.TotalAllSolved` state the computed maximum instead.
- JavaText.ParseInt: accepts ASCII digits only. `Integer.parseInt` goes through `Character.digit`, which also accepts other Unicode decimal digits, so a grid line such as `１,２` (full-width digits) loads in Java and is a `NotAnInteger` error in the model. The Unicode digit tables are not modelled.
- **String lengths.** A Dafny string's length counts Unicode characters, and Java's `length()` counts UTF-16 code units. The two differ for characters outside the Basic Multilingual Plane, such as emoji: an answer like "😀A" has length 3 in Java and 2 in the model. Where this matters:
  - the score (two points per code unit);
  - the number of walk steps;
  - the guess-length check;
  - the LETTERS action, where `toCharArray` splits such a character into its two UTF-16 halves, and `ShowLetters`' multiset keeps it whole.
- **Case mapping.** Case mapping is ASCII only, in `JavaText.Upper` and `JavaText.EqualsIgnoreCase`. Java's Unicode `toUpperCase` can change a string's length, and the model does not capture that. `toUpperCase()` also uses the default locale: the model assumes a locale that maps ASCII letters to ASCII letters, which a Turkish locale does not (there 'i' becomes 'İ').
- **Score overflow.** The score is an unbounded integer. The source's `int` could wrap, but only after about 1.07 billion solved letters (2 points each).
- **Exceptions.** Exceptions are modelled as error values. An exception's message text is replaced by the error's fields:
  - `GridError` carries the bad line's number or the bad token;
  - `WordListError` carries the 1-based line number.
- **Button map.** Each `wordCellButtons` list holds square indices instead of `Button` objects. The `allButtons.get(cell) != null` check in the second pass always holds, because every square has a button.
- **Unused members.** `Case.getCurrentChar`/`setCurrentChar` are not used by the core. `SetCurrentChar` is modelled for completeness.
- **Launch and wiring.** `Main.java` and `module-info.java` are application launch and module wiring.
