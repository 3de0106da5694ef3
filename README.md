# Claustrowordia's board engine in Dafny

Claustrowordia is a word game played on a 7 by 7 board. The player drops
letter tiles on the board. After each placement the row and the column
through the new tile are read forwards and backwards. Every dictionary word
of three or more letters that runs through the placed cell is recorded.

The words of one check pay out in ascending length order (a stable sort).
Each word pays the square of its length times a multiplier. The multiplier
starts at 1 and grows by `multiAddition` for each further word.

The game keeps two copies of the board:
- **The presentation board (`Field`).** It holds tile objects. It marks the
  tiles of every word it finds. It shows a ×10 "full match" bonus when every
  tile on the board is marked or belongs to the word being announced.
- **The server replica (`Arcade`).** It holds letter strings and keeps the
  authoritative score, which gets no bonus. The game is over once all 49
  cells are filled.

Between rounds, twists change the board:
- slides towards one edge;
- destroying every tile of one letter, or replacing each with another letter;
- a larger multiplier step.

Around the engine sit the word list, a pending-score accumulator, the twist
record and the wikitext scanners of the Wikipedia client:
- The word list answers membership ignoring case, and keeps a bag of letters
  taken from random words.
- The pending-score accumulator collects additions, which are then flushed
  into the total.
- The wikitext scanners extract link targets, category names and the short
  description.

Modules, one per file:
- `Grid` (TileGrid.dfy): the generic grid, a class over `array2<Option<T>>`. C#'s `null`/`default` is `None`.
- `Matching` (Matching.dfy): the matcher and sequencer that both boards share. It covers:
  - the scan of one row or column string;
  - the reversal;
  - the four scans of a check;
  - the stable length sort;
  - the payout.
- `Board` (Board.dfy): the slide loops. Field.cs and Arcade.cs have identical copies of them, one per grid type.
- `Presentation` (Field.dfy): `Card` and `Field`.
- `Server` (Arcade.dfy): `Arcade`.
- `Words` (WordDictionary.dfy), `Scoring` (Score.dfy), `Twists` (Twist.dfy), `Wiki` (Wikier.dfy).
- `Strings` (Strings.dfy) and `Wrappers` (Wrappers.dfy): the .NET string operations the source relies on, and `Option`/`Result`.

How the model stands in for the source:
- Each coroutine pass is one sequential method. The `yield`s only pace the animation.
- Randomness becomes a parameter:
  - a `draws` oracle for `Random.Range` and the `OrderBy(Random.value)` shuffle;
  - given coordinates instead of rounded world positions.
- An exception becomes the `Err` case of a `Result`. The one exception is the null tile that stops a check; a `completed` flag models it (see below).
- An exception inside a coroutine ends that coroutine and every coroutine waiting on it with `yield return`. It does not end a coroutine that only started it.

Behaviours of the source that the model reproduces as written:
- **Slides on the server.** `Remove` on a `TileGrid<string>` compares letters
  by value. So every cell anywhere that holds a letter of the dropped edge
  is emptied, not only the edge row.
- **Slides on the presentation board.** Tiles are distinct objects, so the
  same removal drops exactly the edge tiles (`Board.ClearedOnlyEdgeRow`).
- **`Arcade.DestroyAll`.** It looks up the positions of the removed letters
  only after removing them. So it finds none: no replacement is written and
  no check runs.
- **`Field.DestroyAll`.** It keeps the removed tiles' positions. Column by
  column, it puts a new tile carrying the replacement letter at each
  position, then checks there.
- **A word across an empty cell.** A check renders an empty cell as a space
  (Field.cs:180-181). So a dictionary key that holds a space can match across
  that cell, and its tile list then holds a null. Examples are `ad hoc`, or
  `cat ` from a list line `cat \tnoun`. Such a word stops the check:
  - Its announcement throws when it reads the null tile's position (Field.cs:500).
  - The colouring loop colours the word's tiles before the gap, then throws at the gap (Field.cs:203).
  - Later words are neither announced nor coloured, and `undoing` is not cleared.
  - After `AddCard` only the check ends.
  - In `DestroyAll`, which waits on each check with `yield return`, the refill ends there too.

## Model

| member | source | states |
|---|---|---|
| Grid.TileGrid.constructor | Assets/Scripts/TileGrid.cs:12-23 | a board of the given width and height whose every cell is empty |
| Grid.TileGrid.Get | Assets/Scripts/TileGrid.cs:71-75 | any coordinate off the board reads as empty; on the board it reads the stored cell |
| Grid.TileGrid.Set | Assets/Scripts/TileGrid.cs:25-27 | the cell then holds the value, read back by `Get`; every other cell and every `Get` elsewhere is unchanged |
| Grid.TileGrid.GetNeighbours | Assets/Scripts/TileGrid.cs:29-38 | the result holds exactly the cells of the in-bounds orthogonal neighbours, empty ones included; it has at most four, and exactly four away from the border |
| Grid.TileGrid.GetRow | Assets/Scripts/TileGrid.cs:122-125 | width elements; element x is cell (x, y) |
| Grid.TileGrid.GetColumn | Assets/Scripts/TileGrid.cs:127-130 | height elements; element y is cell (x, y) |
| Grid.TileGrid.RowColumnCrossing | Assets/Scripts/TileGrid.cs:122-130 | row y and column x agree on cell (x, y) |
| Grid.TileGrid.All | Assets/Scripts/TileGrid.cs:54-57 | width × height values, empties included; a value occurs exactly when some cell holds it |
| Grid.TileGrid.Remove | Assets/Scripts/TileGrid.cs:59-69 | every cell whose value equals an element of the list becomes empty; every other cell is unchanged |
| Grid.TileGrid.Swap | Assets/Scripts/TileGrid.cs:105-120 | cells equal to `first` hold `second`, cells equal to `second` hold `first`, other cells are unchanged |
| Grid.TileGrid.GetPosition | Assets/Scripts/TileGrid.cs:132-145 | None exactly when no cell equals the value; otherwise a cell holding it with none before it in row-by-row order |
| Grid.TileGrid.RowText | Assets/Scripts/TileGrid.cs:87-91 | one line of the dump: width characters, `X` for a filled cell and `.` for an empty one, no newline |
| Grid.TileGrid.AppendRowText | Assets/Scripts/TileGrid.cs:88-90 | the inner loop appends exactly that row's line |
| Grid.TileGrid.DataAsString | Assets/Scripts/TileGrid.cs:77-98 | the row lines joined by newlines, no trailing newline; splitting the dump at newlines gives back the lines |
| Matching.Reverse | Assets/Scripts/Field.cs:536-541 | same length; element i is element `n - 1 - i` of the input |
| Matching.ReverseInvolution | Assets/Scripts/Field.cs:536-541 | reversing twice gives back the input |
| Matching.ReversedSlice | Assets/Scripts/Field.cs:175-178 | a slice of the reversed list is the reversal of the mirrored slice |
| Matching.Render | Assets/Scripts/Field.cs:180-184 | with one-letter tiles the text has one character per cell; character i is cell i's letter, or `' '` for an empty cell |
| Matching.RenderSlice | Assets/Scripts/Field.cs:551-557 | rendering a slice of cells is the same slice of the rendered text, so a substring and its `GetRange` cards agree |
| Matching.RenderReverse | Assets/Scripts/Field.cs:175-191 | rendering the reversed cells is reversing the rendered text, so the reversed scans read the reversed cards |
| Matching.SpansFromSound | Assets/Scripts/Field.cs:549-561 | one length's pass keeps only spans of that length that are at least three long, lie in the text, are words and cover the placed index |
| Matching.SpansFromAscending | Assets/Scripts/Field.cs:549-561 | one length's pass records its spans strictly left to right |
| Matching.SpansFromComplete | Assets/Scripts/Field.cs:549-561 | one length's pass misses no qualifying span of that length |
| Matching.SpansDownSound | Assets/Scripts/Field.cs:547-564 | the passes from a length down to 3 keep only qualifying spans, none longer than that length |
| Matching.SpansDownOrdered | Assets/Scripts/Field.cs:547-564 | longer spans come first, equal lengths left to right |
| Matching.SpansDownComplete | Assets/Scripts/Field.cs:547-564 | the passes miss no qualifying span |
| Matching.HitsExact | Assets/Scripts/Field.cs:545-552 | a span is recorded if and only if it is at least three long, a dictionary word, and covers the placed index |
| Matching.HitsOrdered | Assets/Scripts/Field.cs:547-560 | the recorded spans run in decreasing length, then increasing start, so no span is recorded twice |
| Matching.ShortTextNoHits | Assets/Scripts/Field.cs:545 | a text shorter than three records nothing |
| Matching.MirroredCover | Assets/Scripts/Field.cs:190-191 | in the reversed text the placed index is `6 - x`; a span covers it exactly when its mirror covers `x` |
| Matching.ScanStep | Assets/Scripts/Field.cs:551-552 | the substring at `start` is recorded exactly when it is a word covering the placed index |
| Matching.CheckLength | Assets/Scripts/Field.cs:549-561 | the inner loop records the matches of that one length's pass, each with its substring and its `GetRange` cells |
| Matching.CheckString | Assets/Scripts/Field.cs:543-565 | records exactly the matches of the recorded spans, in scan order, each with the substring, the cells `GetRange(start, len)` and the reversed flag; nothing for a text shorter than three |
| Matching.MatchesAligned | Assets/Scripts/Field.cs:551-558 | every recorded word is the rendering of its own recorded cells |
| Matching.MatchesOfCells | Assets/Scripts/Field.cs:557 | every recorded cell comes from the scanned list |
| Matching.Scan | Assets/Scripts/Field.cs:186-191 | the four scans of a check (row, column, reversed row from `6 - x`, reversed column from `6 - y`), concatenated in that order |
| Matching.FourWayCells | Assets/Scripts/Field.cs:172-191 | a check records only cells of the row and the column through the placed cell |
| Matching.SortByLength | Assets/Scripts/Field.cs:195 | the sorted matches are a permutation of the found ones |
| Matching.SortByLengthSorted | Assets/Scripts/Field.cs:195 | the sorted matches are in ascending length order |
| Matching.SortByLengthStable | Assets/Scripts/Field.cs:195 | for every length, the matches of that length keep their found order (`OrderBy` is stable) |
| Matching.GetScore | Assets/Scripts/Field.cs:486-489 | a word of three or more letters scores at least 9 |
| Matching.GetScoreGrows | Assets/Scripts/Field.cs:486-489 | a longer word scores strictly more |
| Matching.MultiplierStep | Assets/Scripts/Field.cs:214 | each further word adds `multiAddition` to the multiplier |
| Matching.PayStep | Assets/Scripts/Arcade.cs:73-79 | one step of the paying loop adds the word's score times the current multiplier, and the multiplier then grows by the step |
| Matching.AwardsAtLeastScore | Assets/Scripts/Arcade.cs:75 | with a non-negative step each award is at least the word's score |
| Matching.PayoutNonNegative | Assets/Scripts/Arcade.cs:71-80 | with a non-negative step a check never pays a negative total |
| Board.NonEmpty | Assets/Scripts/Field.cs:361 | exactly the non-empty cells of the line |
| Board.ShiftColumn | Assets/Scripts/Arcade.cs:171-175 | walking column x from the edge row, each cell takes its neighbour's value at `y + diff`; the far cell becomes empty; other columns are unchanged |
| Board.SlideVertical | Assets/Scripts/Arcade.cs:162-177 | the edge row's non-empty values are removed everywhere by equality; then cell (x, y) holds what (x, y + diff) held after that removal, and the far row is empty |
| Board.ShiftRow | Assets/Scripts/Arcade.cs:188-192 | the same walk along row y from the edge column, each cell taking the value at `x - diff` |
| Board.SlideHorizontal | Assets/Scripts/Arcade.cs:179-194 | the same for the edge column: cell (x, y) holds what (x - diff, y) held after the removal, and the far column is empty |
| Board.ClearedOnlyEdgeRow | Assets/Scripts/Field.cs:360-362 | when no tile stands on two cells, removing the edge row's tiles empties that row and nothing else |
| Board.ClearedOnlyEdgeColumn | Assets/Scripts/Field.cs:394-396 | the same for the edge column |
| Board.ClearedNonEmpty | Assets/Scripts/Arcade.cs:165-167 | with letters compared by value, a cell is emptied exactly when its value occurs in the edge line |
| Presentation.Card.constructor | Assets/Scripts/Card.cs:23-31 | the tile carries the given letter and is not matched |
| Presentation.Card.Colorize | Assets/Scripts/Card.cs:33-38 | the tile is matched |
| Presentation.ColorizeAll | Assets/Scripts/Field.cs:201-212 | the word's tiles are coloured in order until its first empty cell, where the loop throws: afterwards exactly the tiles that were matched or stand before that cell are matched |
| Presentation.FirstGap | Assets/Scripts/Field.cs:201-203 | the index of the first empty cell (the end when none is): every cell before it holds a tile |
| Presentation.FirstGapWhole | Assets/Scripts/Field.cs:201-212 | the colouring reaches the end of a word exactly when none of its cells is empty |
| Presentation.Reach | Assets/Scripts/Field.cs:195-203 | how many words a check gets through: none of them spans an empty cell, and the word after them does |
| Presentation.ReachIntact | Assets/Scripts/Field.cs:193-221 | a check gets through all its words exactly when none spans an empty cell |
| Presentation.SortedIntact | Assets/Scripts/Field.cs:195 | sorting the words by length does not change whether one spans an empty cell |
| Presentation.Field.constructor | Assets/Scripts/Field.cs:44-50 | an empty 7 by 7 board, no words, no undoable move, multiplier step 1 |
| Presentation.Field.Place | Assets/Scripts/Field.cs:151-155 | the tile stands at (x, y), no other cell changes, and the tile is the undoable move exactly when it came from the hand |
| Presentation.Field.AddCard | Assets/Scripts/Field.cs:144-166 | places the tile. With `check`, the words become those found through (x, y); the check completes exactly when none spans an empty cell, and then shows one announcement per word and clears `undoing`; otherwise it shows fewer and keeps `undoing`. Without `check` nothing is announced and the words are kept |
| Presentation.Field.CheckIf | Assets/Scripts/Field.cs:164-165 | the check runs only when asked; when it does not, nothing is announced and words and `undoing` are kept |
| Presentation.Field.Scan | Assets/Scripts/Field.cs:172-191 | the four scans of the current row and column through (x, y) |
| Presentation.Field.FullStep | Assets/Scripts/Field.cs:513 | the ×10 test of a word holds exactly when every cell is empty, or holds a tile marked before the check, a tile of an earlier word of this check, or a tile of this word |
| Presentation.Field.Announce | Assets/Scripts/Field.cs:193-217 | the words before the first one that spans an empty cell are announced, the k-th (0-based) with its score and multiplier `1 + k·multiAddition`, times ten exactly when the board is then fully covered. Afterwards exactly these tiles are matched: those marked before, those of the announced words, and those of the stopping word before its gap. It completes exactly when no word spans a gap |
| Presentation.Field.Check | Assets/Scripts/Field.cs:168-222 | the word list is replaced by the words through (x, y), which are announced and marked in stable ascending length order as `Announce` says. The check completes exactly when no word spans an empty cell, which is exactly when it shows one announcement per word, and only then is `undoing` cleared |
| Presentation.Field.Undo | Assets/Scripts/Field.cs:567-594 | with an undoable move its cell is emptied, the move is forgotten and `undoing` is set; without one nothing changes; no other cell changes |
| Presentation.Field.SlideVertical | Assets/Scripts/Field.cs:356-388 | cell (x, y) holds the former (x, y + diff) unless that tile stood in the edge row; the far row is empty; with distinct tiles this is exactly a one-row shift that drops the edge row |
| Presentation.Field.SlideHorizontal | Assets/Scripts/Field.cs:390-421 | the same along the rows: cell (x, y) holds the former (x - diff, y), the far column is empty |
| Presentation.Field.Spots | Assets/Scripts/Field.cs:437 | the positions holding tiles of that letter, in column-by-column enumeration order, with no repeats |
| Presentation.Field.SpotsComplete | Assets/Scripts/Field.cs:437 | every cell holding a tile of that letter is among the spots |
| Presentation.Field.ClearedIffHolds | Assets/Scripts/Field.cs:437-439 | removing the tiles at the spots empties a cell exactly when it holds that letter |
| Presentation.Field.Clear | Assets/Scripts/Field.cs:437-444 | the cells holding the letter become empty, every other cell keeps its tile, and their positions are returned |
| Presentation.Field.Replace | Assets/Scripts/Field.cs:456-468 | a new tile with the letter stands at (x, y) and no other cell changes; the placement is not undoable; its check completes exactly when no word spans an empty cell, and clears `undoing` only then |
| Presentation.Field.Refill | Assets/Scripts/Field.cs:446-469 | the spots in turn get a new tile with the replacement letter, each followed by a check there, until a check stops at a word spanning an empty cell. The later spots get no tile. Cells off the refilled spots are unchanged |
| Presentation.Field.DestroyAll | Assets/Scripts/Field.cs:431-470 | cells without the letter are unchanged, and cells with it become empty. With a replacement, the emptied cells get new tiles carrying it in column order, one check per cell, up to the first check that stops; the rest stay empty |
| Presentation.Field.ApplyTwist | Assets/Scripts/Field.cs:302-354 | each of the eight twist types has its board effect (slides in their directions, destroy, replace, none for adding cards); a replacement refills the emptied cells until a check stops; only `MoreMulti` raises the step, by exactly one |
| Server.EqualTo | Assets/Scripts/Arcade.cs:199 | the cells equal to the letter, and only those |
| Server.CountFilledAll | Assets/Scripts/Arcade.cs:25 | the count of filled cells reaches the number of cells exactly when every cell is filled |
| Server.Arcade.GameOverIffFull | Assets/Scripts/Arcade.cs:25 | the game is over exactly when all 49 cells hold a non-empty letter |
| Server.Payout | Assets/Scripts/Arcade.cs:71-80 | with a step of at least zero a check's payout is not negative |
| Server.Arcade.constructor | Assets/Scripts/Arcade.cs:20-23 | an empty board, no words, score 0, multiplier step 1 |
| Server.Arcade.Scan | Assets/Scripts/Arcade.cs:50-69 | the four scans of the current row and column through (x, y) |
| Server.Arcade.Check | Assets/Scripts/Arcade.cs:48-81 | the words through (x, y) are recorded; the score grows by exactly the sum over the length-sorted words of score × `(1 + k·multiAddition)`, with no ×10 bonus, and never decreases |
| Server.Arcade.PlaceLetter | Assets/Scripts/Arcade.cs:148-153 | the letter is written at (x, y), nothing else on the board changes, then the check at (x, y) runs |
| Server.Arcade.RemoveLetter | Assets/Scripts/Arcade.cs:155-160 | (x, y) is emptied, nothing else on the board changes, then the check at (x, y) runs |
| Server.Arcade.SlideVertical | Assets/Scripts/Arcade.cs:162-177 | cell (x, y) holds the former (x, y + diff) unless that letter occurs in the edge row (by value, anywhere); the far row is empty |
| Server.Arcade.SlideHorizontal | Assets/Scripts/Arcade.cs:179-194 | the same along the rows with the edge column |
| Server.Arcade.DestroyAll | Assets/Scripts/Arcade.cs:196-212 | exactly the cells equal to the letter become empty; the replacement is never written and no check runs |
| Server.Arcade.MoreMulti | Assets/Scripts/Arcade.cs:237-241 | the multiplier step grows by exactly one |
| Words.Normalize | Assets/Scripts/WordDictionary.cs:28-31 | a key has no tab, is lower case, and is a prefix of the trimmed, lower-cased line |
| Words.Distinct | Assets/Scripts/WordDictionary.cs:31 | no repeats, and exactly the values of the input |
| Words.Prep | Assets/Scripts/WordDictionary.cs:26-37 | the keys are distinct; every line's key is among them; every key comes from some line |
| Words.NormalizedMembers | Assets/Scripts/WordDictionary.cs:28-31 | the lines normalised one by one hold the key of every line and nothing else |
| Words.IsWordIgnoresCase | Assets/Scripts/WordDictionary.cs:39-42 | a text is a word exactly when its lower-case form is |
| Words.LinesAreWords | Assets/Scripts/WordDictionary.cs:39-42 | every line of the list, normalised, is a word |
| Words.Shuffle | Assets/Scripts/WordDictionary.cs:70 | any sequence of random picks gives a permutation of the letters |
| Words.SplitCharsKeepsLetters | Assets/Scripts/WordDictionary.cs:70-76 | splitting a word into characters and keeping the pieces that pass `IsOk` gives exactly its letters, in order |
| Words.WordDictionary.Setup | Assets/Scripts/WordDictionary.cs:19-24 | the bag is empty and the keys are those of the list |
| Words.WordDictionary.RandomWord | Assets/Scripts/WordDictionary.cs:59-64 | always a key of the dictionary |
| Words.WordDictionary.Refill | Assets/Scripts/WordDictionary.cs:66-71 | a permutation of the letters of one dictionary word, each a one-character letter |
| Words.WordDictionary.PopulateLetterPool | Assets/Scripts/WordDictionary.cs:66-71 | appends that refill to the bag and uses one draw of the generator |
| Words.WordDictionary.GetRandomLetter | Assets/Scripts/WordDictionary.cs:44-57 | an empty bag is refilled first; without `remove` the head is returned and kept; with `remove` it is taken out and the following letter becomes `next`; taking the head of a bag still empty is an error |
| Words.DrawTwice | Assets/Scripts/WordDictionary.cs:44-57 | after a successful draw the preview `GetNext` is set and is the letter the next draw hands out |
| Scoring.Wrap32 | Assets/Scripts/Score.cs:31 | C#'s unchecked `int` addition: the result is a 32-bit value congruent to the sum, and equal to it when it fits |
| Scoring.ToUlong | Assets/Scripts/Score.cs:43 | the `(ulong)` cast: a non-negative amount is kept, a negative one becomes 2^64 plus it |
| Scoring.Label | Assets/Scripts/Score.cs:32 | `+` followed by the digits of a positive amount, `-` and the digits of a negative one, `0` for zero |
| Scoring.PendingIsSum | Assets/Scripts/Score.cs:31 | without overflow the pending amount is the sum of the additions |
| Scoring.FlushAdds | Assets/Scripts/Score.cs:43 | flushing a non-negative pending amount raises the total by exactly that amount |
| Scoring.FlushNegative | Assets/Scripts/Score.cs:43 | flushing a negative pending amount lowers the total by its magnitude (modulo 2^64) |
| Scoring.AddsThenFlush | Assets/Scripts/Score.cs:29-46 | several additions and one flush raise the total by exactly their sum when nothing overflows and the sum is not negative |
| Scoring.Score.constructor | Assets/Scripts/Score.cs:16-18 | total and pending amount both zero |
| Scoring.Score.Add | Assets/Scripts/Score.cs:29-39 | returns the amount unchanged; the pending amount grows by it with 32-bit wrap-around; the total is untouched |
| Scoring.Score.HideAddition | Assets/Scripts/Score.cs:41-46 | the total grows by the cast pending amount modulo 2^64, and the pending amount is reset to 0 |
| Scoring.Score.TotalScore | Assets/Scripts/Score.cs:20 | the total fits a `ulong` |
| Twists.Ordinal | Assets/Scripts/Twist.cs:24-33 | each variant's underlying value is below 8 |
| Twists.FromOrdinal | Assets/Scripts/Twist.cs:24-33 | an integer names a variant exactly when it is between 0 and 7 |
| Twists.EightVariants | Assets/Scripts/Twist.cs:24-33 | the values 0 to 7 name each variant exactly once |
| Twists.Twist.constructor | Assets/Scripts/Twist.cs:10-15 | type, title and description are stored as given; both letters are null |
| Twists.Twist.SetLetters | Assets/Scripts/Twist.cs:17-21 | sets both letters; type, title and description are fixed |
| Wiki.Entry | Assets/Wikipedia/Wikier.cs:176-177 | an entry holds no `|` and is a prefix of its bracket body |
| Wiki.NextBody | Assets/Wikipedia/Wikier.cs:170-174 | a found body lies after the key and inside the text |
| Wiki.NextBodyShape | Assets/Wikipedia/Wikier.cs:170-174 | the body found is delimited by the first key after the position and the next `]]`; the scan ends exactly when no key follows |
| Wiki.Bodies | Assets/Wikipedia/Wikier.cs:168-179 | a successful scan keeps at most 100 bodies, all inside the text |
| Wiki.BodiesShape | Assets/Wikipedia/Wikier.cs:168-179 | the kept bodies come in text order after the start, each delimited by the key and the next `]]`, and hold no `:` when those are skipped |
| Wiki.BodiesComplete | Assets/Wikipedia/Wikier.cs:168-179 | when a scan succeeds below the 100-entry cap, every key occurrence after the start lies in the span of a kept body, or of a body skipped for its `:` |
| Wiki.NextEntry | Assets/Wikipedia/Wikier.cs:195-203 | the loop body finds the next body and yields its first `|`-part, unless that body holds a `:` and those are skipped |
| Wiki.Scan | Assets/Wikipedia/Wikier.cs:193-207 | the loop returns the entries of the kept bodies in order, or the error of a key without its `]]` |
| Wiki.EntriesShape | Assets/Wikipedia/Wikier.cs:176-177 | at most 100 entries, none containing `|`, each a prefix of its body |
| Wiki.EntryHasNoColon | Assets/Wikipedia/Wikier.cs:201-203 | the entry of a body without `:` holds no `:` |
| Wiki.FindCategories | Assets/Wikipedia/Wikier.cs:159-182 | null for an empty text; otherwise the entries of the `[[Category:` bodies, or the `Substring` error |
| Wiki.CategoriesShape | Assets/Wikipedia/Wikier.cs:159-182 | the categories are at most 100, in text order, none containing `|`, each a prefix of a `[[Category:` body |
| Wiki.FindWords | Assets/Wikipedia/Wikier.cs:184-208 | an empty list for an empty text; otherwise the entries of the `[[` bodies without `:`, or the `Substring` error |
| Wiki.WordsShape | Assets/Wikipedia/Wikier.cs:184-208 | the words are at most 100, in text order, containing neither `|` nor `:`, each a prefix of a `[[` body |
| Wiki.TemplateShape | Assets/Wikipedia/Wikier.cs:111-116 | what the search finds lies between the first opening and the next closing; it finds nothing exactly when the opening never occurs |
| Wiki.TemplateFinds | Assets/Wikipedia/Wikier.cs:111-116 | conversely, text between the first opening and the next closing is what the search returns |
| Wiki.TemplateUnclosed | Assets/Wikipedia/Wikier.cs:115-116 | an opening without a closing after it is an error |
| Wiki.FindExcerpt | Assets/Wikipedia/Wikier.cs:108-117 | null exactly for an empty text |
| Wiki.ExcerptIsFirstDescription | Assets/Wikipedia/Wikier.cs:111-116 | a short description is the text between the first `{{short description|` (ignoring case) and the next `}}` |
| Wiki.FromBodyIffNoTemplate | Assets/Wikipedia/Wikier.cs:112-113 | the excerpt falls back to the article body exactly when the text is not empty and never opens the template |
| Wiki.ShortDescriptionRoundTrip | Assets/Wikipedia/Wikier.cs:108-117 | an article opening with `{{short description|d}}` yields exactly `d` |
| Wiki.UnclosedTemplateThrows | Assets/Wikipedia/Wikier.cs:115-116 | an opened template with no `}}` is an error |
| Strings.ToLowerIdempotent | Assets/Scripts/WordDictionary.cs:41 | lower-casing twice is lower-casing once |
| Strings.SplitJoin | Assets/Scripts/WordDictionary.cs:28 | splitting at a separator undoes joining pieces without it |
| Strings.JoinSplit | Assets/Scripts/WordDictionary.cs:28 | joining the pieces of a split gives back the text |
| Strings.IndexOfFirst | Assets/Wikipedia/Wikier.cs:170 | `IndexOf` returns an occurrence with none between the start and it, or -1 when none occurs |
| Strings.IndexOfUnique | Assets/Wikipedia/Wikier.cs:170 | the first occurrence after the start is what `IndexOf` returns |
| Strings.ParseNatToString | Assets/Scripts/Score.cs:32 | reading the decimal digits back gives the number |

## Left out

- Rendering, tweening, particles, audio, speech bubbles, tutorials, the mascot, and `Card.Explode`'s effects. `Explode` only deactivates the tile, so its position stays readable. Each presentation concern is left out, and only its state is kept.
- Coroutine timing. Each pass is one sequential method, so the interleaving of several running coroutines is not modelled.
- The announcements' `WaitForSeconds` ordering is left out. Each word's full-match test is taken where the source takes it: before that word's tiles are coloured, after the earlier words' tiles are.
- Networking:
  - `Field` forwarding each move to `Arcade` is not modelled; each board is modelled on its own.
  - `AddScore`, `InitPlayer`, `SubmitScore` and the server API are left out.
  - `Field.AddCard` calls `PlaceLetter` with four arguments while `Arcade` declares three; the three-argument server version is modelled.
- Twist offering, `Arcade.AddCards` and the hand: the hand is not part of this model.
- `Field.ApplyTwist` with `AddCards` therefore leaves the board alone.
- The `default` branch of `ApplyTwist` throws only for a value outside the eight variants. `TwistType` has no such value in the model (`Twists.EightVariants`).
- World positions. `AddCard` and `Undo` get grid coordinates directly instead of rounding a world position.
- Randomness is an oracle parameter: `draws` in the word list, and the draws of the shuffle.
- `ShowWordDefinition` picks a random word and loads a definition. It is left out.
- `hand.SetState`, `undoButton` and `undoArrow` are presentation only.
- `Strings.ToLower`: `char.ToLower` is modelled on ASCII and Latin-1 only. Capitals from U+0100 on (such as `Ā`) are left unchanged, where .NET lowers them.
- `Strings.IsLetter`: `char.IsLetter` is modelled on ASCII, Latin-1 and Latin Extended-A and -B (up to U+024F) only. Letters of other scripts count as non-letters.
- `Strings.IsWhiteSpace` covers every character that .NET's `char.IsWhiteSpace` accepts.
- `Wiki.FindExcerpt`: case-insensitive matching is lower-casing under the same approximation.
- `Wiki.FindExcerpt` returns `FromBody` where the source calls `FindSomeText`. That fallback (`Clean`'s regular expressions) is not modelled.
- `FindImages`, `GetImageUrl` and `CreateMD5` are left out: MD5 hashing and URL building.
- The HTTP requests and the JSON types of the Wikipedia client are left out.
- Null letters, null tiles and null texts are not modelled. Letters are non-null strings, and a null wikitext is the empty text.
- Multi-character letters are not modelled. Tiles and server letters hold one-character letters, so string index equals grid coordinate; this is `Valid()` in both boards, `PlaceLetter`'s and `AddCard`'s precondition, and the refill letters.
- Slides with `diff` other than 1 or -1 are not modelled: the source never passes another value, and with 0 the loop would never end.
- Coordinates off the board, for which C# `Set` throws, are a precondition.
- `Matching.GetScore`: the source rounds a float `Pow(len, 2)`. The model uses the exact integer square, which the float computes exactly for board-sized words.
- `Server.Arcade.Check`: the score is an unbounded integer. The 32-bit wrap-around of `score += amount` is not modelled; it is out of reach on a 7 by 7 board.
- `Presentation.Field.AddCard`: the announcements are stated only by their count; their full contract is on `Presentation.Field.Check`.
- `Presentation.Field.Replace`: the announcements of its check are not stated; each check satisfies `Presentation.Field.Check`.
- `Presentation.Field.Refill`: the announcements are stated only by their count; each satisfies `Presentation.Field.Check`.
- `Presentation.Field.DestroyAll`: the announcements are stated only by their count; each satisfies `Presentation.Field.Check`.
- `Presentation.Field.ApplyTwist`: the announcements of a replacement are stated only as empty for the other twists.
- `Score.Update` and `ScoreString` are left out: float scrolling and culture-specific number formatting.
