# KrystaliumSpyTelegraph core, modelled in Dafny

The project models three self-contained parts of the KrystaliumSpyTelegraph
telegraph game:

- **The letter grid `EncryptionGrid` (GridBasedEncryption.py).** It hides
  messages in a grid of letters, using two methods.
  - The *row method* writes one message letter into a free column of each
    row. Its key is the 1-based column per row, or 0 for none.
  - The *skip method* walks the grid in row-major order. For each letter it
    either uses a cell that already holds that letter within the next
    `max_skip` cells, or overwrites a free cell in that window. Its key is the
    number of cells skipped per letter.
  - Written cells are locked, so that later messages cannot overwrite them.
  - The two decoders read a key back.
- **The Morse translator (MorseTranslator.py).** It uses a 44-entry table
  for 26 letters, 10 figures and 8 punctuation marks. The encoder emits each character's
  code followed by a space. The decoder is a scan with a code buffer and a
  space counter: one space ends a code and two spaces make a word space.
- **The integer and string parts of `SentenceSplitter` (SentenceSplitter.py).**
  - `simpleSplit` splits a sentence into a number of balanced parts.
  - `_wrapMinWidth` wraps words greedily.
  - `_calcLengths`, `_getIndexesHighestValueInList` and
    `_getIndexesLowestValueInList` compute lengths and their argmax/argmin.
  - `decreaseLargeStringParts` moves a word in place from a longest line to
    a neighbour when that makes the neighbour still shorter than the longest
    line.
  - `findOptimalSplit` repeats that call until it returns false; the model
    calls that loop `Settle`.

Modules:

| file | module | what it holds |
|---|---|---|
| outcomes.dfy | `Outcomes` | `Result<T>`: a value, or the Python exception (`IndexError`, `ValueError`, `ZeroDivisionError`) the source raises |
| grid_cells.dfy | `GridCells` | grids as `seq<seq<char>>`, the row-major flattening, both decoders as functions, and frame lemmas: keys whose cells are locked still decode after any write to unlocked cells |
| encryption_grid.dfy | `EncryptionGrids` | `class EncryptionGrid`, with the grid and the lock set as fields, and both encoders as methods with loop invariants |
| morse.dfy | `Morse` | the code table, the encoder as a recursive function, the decoder as a step function and a method, and the round trip |
| py_strings.dfy | `PyStrings` | Python's `str.split(" ")`, `str.split()`, `" ".join` and `str.strip()`, and how they undo each other |
| balanced_split.dfy | `BalancedSplit` | `simpleSplit` |
| wrap_min_width.dfy | `Wrapping` | `_wrapMinWidth` |
| extremes.dfy | `Extremes` | `_calcLengths` and the two `_getIndexes…` helpers |
| rebalance.dfy | `Rebalancing` | `decreaseLargeStringParts` on an `array<string>`, its specification as functions on sequences, and the repeat loop `Settle` |

Random choices are nondeterministic: `random.choice` becomes `:|` over the
candidates the source offers, so every property holds whatever the choice.
The initial random fill becomes an arbitrary grid of upper-case letters.

A Python list index that the source can push out of range is modelled as a
`Raise(IndexError)` result, not as a precondition. So are the `ValueError`s
of `simpleSplit`, `addMessageSkipMethod` and `morseToText`. Dafny's `/` and
`%` agree with Python's `//` and `%` for the positive divisors used in
`simpleSplit`. For a negative `num_parts` the model returns the empty list,
as Python does.

## Model

| member | source | states |
|---|---|---|
| EncryptionGrids.EncryptionGrid.constructor | GridBasedEncryption.py:7-9 | a rows×columns grid of upper-case letters with no locked cell |
| EncryptionGrids.EncryptionGrid.AddMessageRowMethod | GridBasedEncryption.py:11-40 | key has one entry per row, each 0 or a 1-based column; entry r is non-zero exactly when row r had a free column and fewer message letters than earlier free rows were placed; only unlocked cells are written and each is locked; every previously locked cell keeps its letter; the key decodes to the first min(len(message), free rows) letters, so a longer message is silently cut |
| EncryptionGrids.EncryptionGrid.PlaceRows | GridBasedEncryption.py:19-38 | the row loop keeps the row-progress invariant (entries, changed cells, decoded prefix) for every row |
| EncryptionGrids.EncryptionGrid.PlaceInRow | GridBasedEncryption.py:24-37 | a row with a free column gets the letter in a column that was unlocked, which is then locked; a row without one changes nothing and records 0 |
| EncryptionGrids.RowProgressDone | GridBasedEncryption.py:19-40 | after the last row the invariant gives the key shape, the locks added, the untouched locked cells and the decoded prefix |
| EncryptionGrids.SameFreeColumn | GridBasedEncryption.py:24-28 | whether a row has a free column depends only on the locks in that row |
| EncryptionGrids.EncryptionGrid.AddMessageSkipMethod | GridBasedEncryption.py:42-100 | on success the key has one entry in [0, max_skip) per letter, the lock set grows by exactly the key's cells and the key decodes to the message; on failure ValueError with the lock set unchanged; in both cases no previously locked cell changes; a non-empty message with max_skip ≤ 0 fails, and so does one whose first letter cannot be placed at position 0 (`SkipFails`); on failure a ghost key prefix `done` names the letter that failed, the cells it placed still hold their letters, and `SkipFails` holds at the cursor after `done` for the grid and the locks at that point; on a lock-free grid a message fits when len(message) × max_skip ≤ rows × columns |
| EncryptionGrids.EncryptionGrid.PlaceSkipLetter | GridBasedEncryption.py:63-91 | one letter: a natural hit is the first cell in the window holding the letter and writes nothing; otherwise a cell outside the tentative locks, inside the grid, is written; it fails, leaving the grid alone, exactly when `SkipFails` holds: the scan runs off the grid before a natural hit, or the window holds neither a natural hit nor a free cell |
| EncryptionGrids.EncryptionGrid.FindNaturalHit | GridBasedEncryption.py:66-73 | the first cell of the window that holds the letter, or the window running off the grid (the IndexError), or no hit |
| EncryptionGrids.SkipProgressDone | GridBasedEncryption.py:63-98 | after the last letter the skip invariant gives the untouched locked cells, the locks and the decoded message |
| EncryptionGrids.LockFreeRoom | GridBasedEncryption.py:66-82 | on a grid with no locks, len(message) × max_skip ≤ rows × columns leaves the window of each next letter inside the grid and with a free cell |
| GridCells.FlattenAt | GridBasedEncryption.py:49-53 | the row-major flattening has rows × columns cells and cell p is grid[p // columns][p % columns] |
| GridCells.FlatCoordInjective | GridBasedEncryption.py:49-53 | different flat positions name different (row, column) cells |
| GridCells.CellAtWrite | GridBasedEncryption.py:85 | writing one cell changes that flat position and no other |
| GridCells.DecodeRowOk | GridBasedEncryption.py:115-124 | decodeRowMethod succeeds exactly when every non-zero entry names a cell of its row, and then yields one letter per non-zero entry |
| GridCells.DecodeRowSnoc | GridBasedEncryption.py:121-123 | one more key entry adds nothing for 0 and the named cell's letter otherwise |
| GridCells.RowKeySurvives | GridBasedEncryption.py:115-124 | a row key whose cells are locked decodes the same after any change to unlocked cells, so row and skip messages coexist in either order |
| GridCells.VisitedIncreasing | GridBasedEncryption.py:133-137 | with non-negative skips the decoder's positions strictly increase, so no cell is read twice |
| GridCells.DecodeSkipAt | GridBasedEncryption.py:126-140 | decodeSkipMethod succeeds exactly when every visited position is a valid Python index (negative ones count from the end), and with in-range positions letter k is the cell at the k-th position |
| GridCells.SkipKeySurvives | GridBasedEncryption.py:126-140 | a skip key whose cells are locked decodes the same after any change to unlocked cells |
| Morse.CodesWellFormed | MorseTranslator.py:5-19 | every code is a non-empty string of dots and dashes |
| Morse.CodesDistinct | MorseTranslator.py:5-19 | the codes are pairwise distinct, so the reverse lookup of lines 51-52 is well defined |
| Morse.KeysDistinct | MorseTranslator.py:5-19 | the keys are pairwise distinct |
| Morse.KeysUpperCase | MorseTranslator.py:5-19 | every key is its own upper-case form |
| Morse.UpperKey | MorseTranslator.py:26 | `str.upper()` as far as it yields a table key: a-z map to A-Z, dotless i and long s map to I and S, other characters are kept |
| Morse.Code | MorseTranslator.py:26 | a character's code after upper-casing, empty exactly when the upper-cased character is not a key |
| Morse.TextToMorse | MorseTranslator.py:22-28 | the output is empty exactly when the input is, is at least as long, and holds only dots, dashes and spaces |
| Morse.TextToMorseAppend | MorseTranslator.py:25-26 | encoding is per character: the encoding of a concatenation is the concatenation of the encodings |
| Morse.TextToMorseChar | MorseTranslator.py:26 | one character encodes to its code and one space, of length code + 1 |
| Morse.TextToMorseUpper | MorseTranslator.py:26 | encoding the upper-cased text gives the same output: the encoder is case-insensitive |
| Morse.KeyOf | MorseTranslator.py:51-52 | the reverse lookup succeeds exactly for table codes and otherwise raises ValueError |
| Morse.KeyOfEntry | MorseTranslator.py:51-52 | every code looks up its own key |
| Morse.DecodeMorse | MorseTranslator.py:31-55 | the decoding loop computes the scan over the input with one space appended |
| Morse.RunAppend | MorseTranslator.py:38-53 | the scan over a concatenation continues the scan over the first part |
| Morse.DecodeGroup | MorseTranslator.py:39-53 | a code followed by one space emits its key; a second space emits a word space |
| Morse.DecodeEmpty | MorseTranslator.py:33 | empty input raises ValueError (the appended space ends an empty group) |
| Morse.DecodeLeadingSpace | MorseTranslator.py:33-52 | input starting with a space raises ValueError |
| Morse.DecodeTripleSpace | MorseTranslator.py:39-52 | three spaces in a row raise ValueError |
| Morse.DecodeBadGroup | MorseTranslator.py:39-52 | a group of dots and dashes that is not a code raises ValueError |
| Morse.RunText | MorseTranslator.py:22-55 | decoding the encoding of table characters with single spaces appends their upper-case form |
| Morse.RoundTrip | MorseTranslator.py:22-55 | for non-empty text of table characters with single spaces and no space at either end, morseToText(textToMorse(t)) is upper(t) followed by one space |
| Extremes.Lengths | SentenceSplitter.py:172-174 | one length per part, in order |
| Extremes.IndexesHighest | SentenceSplitter.py:140-154 | the loop, including its switch from one index to a list, returns the specified index list |
| Extremes.HighestPositive | SentenceSplitter.py:140-154 | with a positive maximum, the result is exactly the indices holding the maximum, ascending |
| Extremes.HighestAllZero | SentenceSplitter.py:140-154 | an all-zero list yields index 0 twice, then every other index |
| Extremes.HighestNonPositive | SentenceSplitter.py:140-154 | without a positive element, the result is 0 followed by exactly the indices holding 0 |
| Extremes.HighestInRange | SentenceSplitter.py:140-154 | the result is never empty and its indices are valid for a non-empty list |
| Extremes.IndexesLowest | SentenceSplitter.py:156-170 | the loop returns the specified index list |
| Extremes.LowestExact | SentenceSplitter.py:156-170 | for a non-empty list, the result is exactly the indices holding the minimum, ascending |
| BalancedSplit.SimpleSplit | SentenceSplitter.py:119-138 | ValueError exactly when num_parts exceeds the word count; ZeroDivisionError for 0 parts; no parts for negative num_parts; otherwise the specified parts |
| BalancedSplit.BuildParts | SentenceSplitter.py:127-136 | the loop builds exactly num_parts parts, as specified |
| BalancedSplit.PartSizes | SentenceSplitter.py:127-136 | the first (words mod parts) parts join ⌊words/parts⌋ + 1 consecutive words and the rest join ⌊words/parts⌋ |
| BalancedSplit.PartsCover | SentenceSplitter.py:127-136 | the part boundaries end exactly at the last word |
| BalancedSplit.PartsKeepWords | SentenceSplitter.py:133-136 | the parts joined with single spaces equal the words joined with single spaces, which split back into the same words |
| Wrapping.WrapMinWidth | SentenceSplitter.py:44-54 | the loop returns the specified lines |
| Wrapping.WrapKeepsWords | SentenceSplitter.py:44-54 | splitting the lines back gives the words in order, after an empty first line that appears exactly when the first word alone exceeds n |
| Wrapping.WrapNoWords | SentenceSplitter.py:44-54 | no words give a single empty line |
| Wrapping.WrapWidth | SentenceSplitter.py:49 | every line of two or more words is at most n + 1 long |
| Wrapping.WrapGreedy | SentenceSplitter.py:48-53 | a line ends only because the next line's first word would have made it longer than n |
| Rebalancing.DecreaseLargeStringParts | SentenceSplitter.py:176-222 | IndexError for an empty list; otherwise the array becomes the specified rebalancing, and the result is true exactly when a word moved |
| Rebalancing.MoveWords | SentenceSplitter.py:187-221 | the loop over the longest indices applies one move per index and reports whether any moved |
| Rebalancing.Scores | SentenceSplitter.py:188-202 | the two scores computed from the current lengths |
| Rebalancing.MoveWord | SentenceSplitter.py:189-221 | one index: the array takes the specified step, and the result says whether a score was non-zero |
| Rebalancing.MoveFront | SentenceSplitter.py:215-216 | the donor loses its last word and is stripped; the next part gains the word in front |
| Rebalancing.MoveBack | SentenceSplitter.py:218-219 | the donor loses its first word and is stripped; the previous part gains the word at its end |
| Rebalancing.StepFront | SentenceSplitter.py:206-216 | with a non-zero front score and a zero back score (line 212 never picks front), the step is the forward move of lines 215-216 on the donor's last word |
| Rebalancing.StepBack | SentenceSplitter.py:206-219 | with a non-zero back score, and a zero front score or line 212 picking back, the step is the backward move of lines 218-219 on the donor's first word |
| Rebalancing.BothMovesGoBack | SentenceSplitter.py:206-212 | when both neighbours qualify the first word always moves back, because line 212 compares the front score with itself |
| Rebalancing.StepShape | SentenceSplitter.py:195-219 | a move changes only the donor and one neighbour; the neighbour ends strictly shorter than the donor was, and the donor shrinks by at least the word and a space |
| Rebalancing.StepStill | SentenceSplitter.py:203-204 | with both scores 0 nothing changes |
| Rebalancing.NoSpaceNoDonor | SentenceSplitter.py:195-202 | a part without a space never gives a word away, so the step leaves the list unchanged |
| Rebalancing.StepLosesWordAsWritten | SentenceSplitter.py:199-216 | as written, the donor "bbb " of `["a", "bbb ", "c"]` gives away its empty last piece, `[:-0]` empties it, and the step yields `["a", "", " c"]`: the word "bbb" is lost |
| Rebalancing.DonorHasTwoWords | SentenceSplitter.py:195-202 | a part that gives a word away holds at least two words |
| Rebalancing.StepLongest | SentenceSplitter.py:195-219 | one move never lengthens the longest part |
| Rebalancing.StepPotential | SentenceSplitter.py:195-219 | one move strictly lowers the sum of squared lengths |
| Rebalancing.FrontWords | SentenceSplitter.py:215-216 | moving the last word forward keeps the two parts' words and their order |
| Rebalancing.BackWords | SentenceSplitter.py:218-219 | moving the first word back keeps the two parts' words and their order |
| Rebalancing.StepKeepsWords | SentenceSplitter.py:214-219 | for parts of non-empty words with single spaces, a move keeps the overall word sequence |
| Rebalancing.PassProgress | SentenceSplitter.py:187-221 | a pass that moved a word lowers the sum of squared lengths; one that did not leaves the list unchanged |
| Rebalancing.RebalanceLongest | SentenceSplitter.py:176-222 | the call keeps the number of parts and never lengthens the longest part |
| Rebalancing.RebalanceKeepsWords | SentenceSplitter.py:176-222 | for parts of non-empty words with single spaces, the call keeps the overall word sequence |
| Rebalancing.RebalanceProgress | SentenceSplitter.py:221-222 | the result is true exactly when the list changed, and then the sum of squared lengths dropped |
| Rebalancing.Settle | SentenceSplitter.py:20-23 | repeating the call until it returns false terminates (IndexError for an empty list); it ends at a list no call changes, with the longest part no longer and, for tidy parts, the same words |
| PyStrings.JoinSplit | SentenceSplitter.py:189 | `" ".join(s.split(" "))` is `s` |
| PyStrings.SplitJoin | SentenceSplitter.py:135 | words without spaces, joined with spaces, split back into themselves |
| PyStrings.SplitWhitespaceJoin | SentenceSplitter.py:121 | `str.split()` of whitespace-free words joined with spaces gives the words back |
| PyStrings.StripOneSpace | SentenceSplitter.py:215-218 | `str.strip()` removes the one space a move leaves at an end of the donor |

## Left out

- `findOptimalSplit`'s choice among candidate splits (SentenceSplitter.py:12-42), `minRaggedSplit` and `recursiveSplit` are not part of this model: they use float costs, `float('inf')` and float division. Only the repeat loop of lines 20-23 is modelled, as `Settle`.
- `_wrapMinWidth`'s width `n` is an integer in the model. Its callers pass floats, and a fractional width is not modelled.
- The distributions of `random.choice` and `_fillGridRandomly` are not modelled. Choices are nondeterministic, and the initial grid is any grid of A-Z.
- `displayGrid` and the `__main__` demonstrations only print and are left out.
- Morse.UpperKey: `str.upper()` is modelled only for the characters whose upper-case form is a table key (a-z, dotless i, long s). Every other character is kept as it is. None of those upper-cases to a key, so its code is empty either way, but `UpperText` does not show its true upper-case form.
- Wrapping.WrapKeepsWords: it is stated for words that are non-empty and have no space. For other words `str.split(" ")` does not give them back.
- Rebalancing.RebalanceKeepsWords: it is stated for parts made of non-empty words separated by single spaces, the form `simpleSplit` produces from a sentence with single spaces. A part that ends in a space gives away its empty last piece, and `[:-0]` then empties the part, so a whole word is lost (`StepLosesWordAsWritten`; see Findings).
- EncryptionGrids.EncryptionGrid.constructor: the dimensions are `nat`. Python's `range` turns a negative count into an empty range, which gives the same grid as a count of 0.
- EncryptionGrids.EncryptionGrid.AddMessageSkipMethod: the default `max_skip = 6` (GridBasedEncryption.py:42) is not modelled; callers pass the bound explicitly. On success the contract does not restate, letter by letter, that no earlier letter's window failed; on failure it names the failing letter through the ghost key prefix `done`.
- Threads, serial ports, printing, sound, images and the web layer are not part of this model.

## Findings

| source | as written | input that shows it | evidently intended | confidence | as-written member | corrected member |
|---|---|---|---|---|---|---|
| SentenceSplitter.py:178-216 | the front move takes `split(" ")[-1]` as the word and cuts `[:-len(word)]`; for a part ending in a space the word is `""` and `[:-0]` is `""`, so the whole part is dropped | `decreaseLargeStringParts(["a", "bbb ", "c"])`, longest part at index 1: the parts become `["a", "", " c"]` | the docstring promises to respect word boundaries: moving a word keeps every word | low: not executed; reachable only from a sentence with double or trailing spaces | Rebalancing.StepLosesWordAsWritten | Rebalancing.RebalanceKeepsWords (for parts of non-empty words with single spaces, where no empty piece can move) |
