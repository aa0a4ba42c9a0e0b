# Tetris engine, function demos, download sorter and coin scraper — a Dafny model

This project models four Python scripts and proves properties about them.

- **`test.py`, a Tetris game.** Modelled: the rotation tables, the shape names and their colours.
  - The `Piece` class (`Tetris.Piece`) covers spawning, `_collide`, `move`, `rotate` with its wall kicks −1, +1, −2, +2, `hard_drop` and `lock`.
  - `create_grid` and `clear_lines` are modelled too.
  - The bookkeeping in the main loop is a `Game` class (`TetrisGame.Game`). It covers pause, quit, the moves, soft drop with its one point, rotation and hard drop. It also covers gravity and the shared landing sequence: lock, clear, score, level, promote the queued piece, queue a new one, and end the game on a collision at spawn.
- **`demoFunction.py`.** `setValue`, `swap`, `func`/`func2` (global and local `x`), `times` with default arguments, `connectURI`, and the order-keeping, duplicate-free `intersect` and `union` loops.
- **`organize_downloads.py`.** The `FILE_CATEGORIES` table and `get_file_category`. That function takes the final suffix of a bare file name, lower-cases it, and looks it up in the table.
- **`kimpga_top20.py`.** The post-processing half of the scraper, over strings already pulled out of the page:
  - the header test and row-to-entry mapping of `try_parse_table`;
  - the keyword test and tokenising of `try_parse_cards`;
  - span-name choice, de-duplication by upper-cased symbol and rank numbering in `try_parse_kimpga`;
  - the parser fallback order and the `top_n` caps of `get_top_coins`.
  Python's `s[:n]` is modelled exactly, negative `n` included.

Modules:
- `Wrappers` holds `Option`.
- `Text` holds the string built-ins the scripts use (case mapping, `isupper`, `isdigit`/`int`, `strip`, `split`, `join`, `in`).
- `Tetris` and `TetrisGame` hold the game.
- `DemoFunction`, `OrganizeDownloads` and `KimpgaTop20` hold the other three scripts.

Where a loop in the source updates state, the model is a method with a loop, proved against a specification function. The properties are then proved about that function.

The hard-drop and gravity branches of the main loop differ in one place. After a landing with cleared rows, the gravity branch recomputes the level as `1 + lines // 10` (`test.py:275`). The hard-drop branch (`test.py:251-263`) adds the lines and the points and leaves the level as it was. `TetrisGame.Game.HardDrop` states that the level is unchanged, and the `Game` invariant guarantees `1 <= level <= 1 + lines / 10`.

## Model

| member | source | states |
|---|---|---|
| Tetris.ShapeIndex | test.py:80-89 | `SHAPE_NAMES.index(name)`: the position of the name in the list, and no earlier position holds it |
| Tetris.ColorOf | test.py:89 | a piece's colour is the entry of `COLORS` at its shape's position in `SHAPE_NAMES` |
| Tetris.Tetromino | test.py:44-78 | each shape has between one and four rotation states, listed in the order `rotate` cycles through them |
| Tetris.ShapeTable | test.py:44-78 | every rotation state of every shape is a non-empty rectangle of at most 4 x 4 with an occupied top row; only O has a single state |
| Tetris.CreateGrid | test.py:146-147 | the new grid has ROWS rows of COLUMNS cells, all empty |
| Tetris.SpawnFitsEmptyGrid | test.py:84-92 | a piece spawned at `COLUMNS // 2 - width // 2`, row 0, never collides with the empty grid |
| Tetris.SpawnX | test.py:91 | the spawn column is `COLUMNS // 2` less half the width of the first rotation state, rounded down |
| Tetris.Piece.constructor | test.py:84-92 | rotation state 0, the table's states and colour for the given name, spawn column and row 0 |
| Tetris.Piece.Collide | test.py:111-122 | the nested scan returns true exactly when some occupied cell, shifted by (dx, dy), is left of column 0, right of the last column, at or below the floor, or on an occupied cell at a non-negative row |
| Tetris.CollidesAt | test.py:111-122 | a matrix at (px, py) collides when some occupied cell lies left of, right of or below the board, or on a filled cell at a row at or below the top; cells above the top are free |
| Tetris.FloorCollides | test.py:118-119 | a piece whose origin is at or below the floor collides, so a non-colliding piece is above the floor |
| Tetris.Piece.Move | test.py:124-129 | moves by exactly (dx, dy) and reports true iff the shifted piece did not collide; otherwise changes nothing; after a move the piece does not collide |
| Tetris.DropRow | test.py:131-133 | the hard-drop row is never above the starting row; `DropRowIsRestingRow` states that it is the first row from which one more row down collides |
| Tetris.FirstFitIsFirst | test.py:98-104 | the chosen offset is the first of 0, -1, 1, -2, 2 at which the piece fits, all earlier ones collide, and none is chosen only if all collide |
| Tetris.Piece.Kick | test.py:98-104 | the column search keeps the first fitting offset, or restores the column when none fits; a kept position does not collide |
| Tetris.Piece.Rotate | test.py:94-109 | on success the state advances by one modulo the number of states and the column moves by the first fitting kick; on failure state, matrix and column are restored; the row never changes; after success the piece does not collide; a one-state shape keeps state 0 and its matrix |
| Tetris.FirstFit | test.py:98-104 | the search over the trial offsets in order; `FirstFitIsFirst` states that it picks the first fitting one |
| Tetris.DropRowIsRestingRow | test.py:131-133 | the drop row is at or below the start, every row passed is free, and one row further collides |
| Tetris.Piece.HardDrop | test.py:131-133 | the loop ends (measure ROWS - y) at the drop row, with the piece colliding one row down, the column and state unchanged, and a piece that did not collide still not colliding |
| Tetris.Stamp | test.py:135-143 | the locked grid is again ROWS rows of COLUMNS cells; `StampSpec` states which cells change |
| Tetris.StampSpec | test.py:135-143 | locking colours every in-bounds cell under an occupied piece cell, and every changed cell lies under an occupied piece cell |
| Tetris.StampFillsOnlyEmptyCells | test.py:135-143 | locking a non-colliding piece overwrites no occupied cell, and each of its cells at a non-negative row lies in the field, was empty and now has the piece colour |
| Tetris.Piece.Lock | test.py:135-143 | the nested loop writes the colour into exactly the in-bounds occupied cells, dropping cells outside the field (the stamped grid) |
| Tetris.OpenRowsCount | test.py:150-152 | kept rows plus full rows make up the grid, and no kept row is full |
| Tetris.ClearLines | test.py:150-156 | the result is ROWS rows, and the count is the number of full rows, between 0 and ROWS |
| Tetris.ClearLinesSpec | test.py:150-156 | the result has ROWS rows of COLUMNS cells; the count is the number of full rows; the top rows up to the count are empty; the rest are the non-full input rows in order; no row is full |
| Tetris.ClearLinesWithoutFullRows | test.py:150-156 | a grid with no full row comes back unchanged with count 0 |
| Tetris.ClearLinesIdempotent | test.py:150-156 | clearing the result again removes nothing |
| Tetris.LockClearsAtMostHeight | test.py:135-156 | locking a piece of height h into a grid without full rows completes at most h rows |
| TetrisGame.LineScoreTable | test.py:256-258 | one to four lines score 100, 200, 400 and 800; none scores 0 |
| TetrisGame.LineScore | test.py:258 | clearing n rows scores nothing for n = 0 and `100 * 2 ** (n - 1)` otherwise (the same formula at test.py:274) |
| TetrisGame.LineScoreDoubles | test.py:258 | each extra line in one lock doubles the points |
| TetrisGame.LineScoreMonotone | test.py:258 | more lines never score fewer points |
| TetrisGame.LevelForMonotone | test.py:275 | the level computed from the line count never decreases as lines grow |
| TetrisGame.LevelFor | test.py:275 | the level is one more than the number of whole tens of cleared lines |
| TetrisGame.FallIntervalMs | test.py:266 | the gravity interval in milliseconds is never below 50 |
| TetrisGame.FallIntervalShrinks | test.py:266 | a higher level never falls more slowly, and from level 16 on the interval is the 50 ms floor |
| TetrisGame.LandingSpec | test.py:254-256 | a landing leaves a well-formed grid with no full row and clears between 0 and 4 rows, the number of full rows after locking |
| TetrisGame.Landing | test.py:254-258 | a landing stamps the piece into the grid and then clears the full rows, returning the new grid and the count (the same steps at test.py:270-275) |
| TetrisGame.EmptyGridHasNoFullRows | test.py:146-147 | the empty grid has no full row |
| TetrisGame.Game.constructor | test.py:216-226 | empty grid, score 0, lines 0, level 1, running and not paused; both pieces fresh, of the given shapes, with the table's rotations and colour, in rotation state 0 at their spawn column on row 0; the first piece does not collide |
| TetrisGame.Game.TogglePause | test.py:239-240 | P flips the pause flag |
| TetrisGame.Game.Quit | test.py:234-238 | Esc, Q or closing the window stops the game |
| TetrisGame.Game.MoveLeft | test.py:241-243 | one column left unless paused or blocked; the row is unchanged |
| TetrisGame.Game.MoveRight | test.py:244-245 | one column right unless paused or blocked; the row is unchanged |
| TetrisGame.Game.SoftDrop | test.py:246-248 | one row down and one point exactly when not paused and the move succeeds; otherwise neither |
| TetrisGame.Game.RotatePiece | test.py:249-250 | rotation with kicks as in `rotate` when not paused; nothing when paused |
| TetrisGame.Game.Tally | test.py:256-258 | a clear of n rows adds n lines and 100·2^(n-1) points and, on the gravity path only, sets the level to 1 + lines // 10; no clear changes nothing |
| TetrisGame.Game.LockAndClear | test.py:254-255 | the grid becomes the locked-and-cleared grid, and the count is at most 4 |
| TetrisGame.Game.Land | test.py:270-279 | lock and clear; lines, score and, on the gravity path, level as tallied; the queued piece becomes current; a fresh piece of the given shape, with the table's rotations and colour, is queued in state 0 at its spawn position; the game stops iff it was stopped already or the promoted piece collides |
| TetrisGame.Game.HardDrop | test.py:251-263 | when not paused, the piece drops to its drop row and lands there, the level unchanged, and a fresh piece of the given shape with the table's rotations and colour is queued in state 0 at its spawn position; when paused nothing changes |
| TetrisGame.Game.Fall | test.py:266-279 | when not paused, the piece moves down a row if it can and otherwise lands, recomputing the level after a clear and queueing a fresh piece of the given shape with the table's rotations and colour in state 0 at its spawn position; when paused nothing changes |
| DemoFunction.SetValue | demoFunction.py:3-9 | the call evaluates to `None` |
| DemoFunction.Swap | demoFunction.py:12-13 | the pair comes back in reverse order |
| DemoFunction.SwapInvolution | demoFunction.py:12-17 | swapping twice gives back the original pair |
| DemoFunction.Func | demoFunction.py:34-35 | `func` adds the module-level `x`; `ScopeRule` states its value |
| DemoFunction.Func2 | demoFunction.py:40-43 | `func2` adds its local `x`, which hides the global; `ScopeRule` states its value |
| DemoFunction.ScopeRule | demoFunction.py:33-46 | `func` adds the global 5 and `func2` the local 10, so they differ by 5; `func(1) == 6`, `func2(1) == 11` |
| DemoFunction.Times | demoFunction.py:49-50 | the product, with defaults 10 and 20; `TimesDefaults` states the calls |
| DemoFunction.TimesDefaults | demoFunction.py:49-55 | `times()` is 200, `times(5)` 100, `times(5, 6)` 30 |
| DemoFunction.ConnectUri | demoFunction.py:58-60 | the URL starts with "https://" and is nine characters longer than the server and the port together |
| DemoFunction.ConnectUriParts | demoFunction.py:58-60 | the URL is "https://", the server, ":" and the port, each readable back at its fixed place |
| DemoFunction.ConnectUriCalls | demoFunction.py:58-64 | keyword arguments in either order give the positional result, e.g. "https://naver.com:80" |
| DemoFunction.Dedup | demoFunction.py:67-73 | keeping the first occurrence of each element keeps exactly the same elements, with no repeats |
| DemoFunction.DedupKeepsFirstOrder | demoFunction.py:67-73 | the kept elements appear in the order of their first occurrence |
| DemoFunction.FilterKeepsFirstOrder | demoFunction.py:22-23 | selecting the elements found in the other list keeps their relative first-occurrence order |
| DemoFunction.Intersect | demoFunction.py:20-25 | the loop computes the common elements, each once, in first-occurrence order (specification function) |
| DemoFunction.IntersectSpec | demoFunction.py:20-25 | an element is in the result iff it is in both lists; no repeats; ordered by first occurrence in the first list |
| DemoFunction.IntersectExample | demoFunction.py:28 | `intersect("HAM", "SPAM")` is "AM" |
| DemoFunction.Flatten | demoFunction.py:69-70 | an element is in the concatenation iff it is in some argument |
| DemoFunction.Union | demoFunction.py:67-73 | the nested loop computes the de-duplicated concatenation of the arguments |
| DemoFunction.AppendNew | demoFunction.py:70-72 | the inner loop extends the de-duplicated list of what came before by the new elements of one argument |
| DemoFunction.UnionSpec | demoFunction.py:67-73 | every element of every argument appears exactly once, in the order of first appearance across the arguments |
| DemoFunction.DedupOfDistinct | demoFunction.py:67-73 | a list without repeats is left as it is |
| DemoFunction.UnionExamples | demoFunction.py:76-77 | `union("HAM", "EGG")` is "HAMEG" and `union("HAM", "EGG", "SPAM")` is "HAMEGSP" |
| OrganizeDownloads.LastIndexOf | organize_downloads.py:27 | the position of the last dot, or -1 exactly when there is none |
| OrganizeDownloads.Suffix | organize_downloads.py:27 | the suffix is empty, or a dot followed by at least one character, shorter than the name |
| OrganizeDownloads.SuffixIsFinal | organize_downloads.py:27 | the suffix is empty exactly when the last dot is missing, leading or trailing; otherwise it is a tail of the name starting at its only dot |
| OrganizeDownloads.SuffixAt | organize_downloads.py:27 | the suffix starts at the last dot whenever that dot is neither first nor last |
| OrganizeDownloads.SuffixNone | organize_downloads.py:27 | a name with no dot strictly between its first and last character has no suffix, so a dot that leads or trails does not start one |
| OrganizeDownloads.Lookup | organize_downloads.py:28-31 | a folder found is the folder of some table entry that lists the extension |
| OrganizeDownloads.LookupSpec | organize_downloads.py:28-31 | no folder exactly when no entry lists the extension; otherwise the folder of the first entry listing it |
| OrganizeDownloads.GetFileCategory | organize_downloads.py:25-31 | the answer is one of the four folders, and a name without a suffix has no folder |
| OrganizeDownloads.FileCategoriesLookup | organize_downloads.py:10-15 | .jpg/.jpeg go to `\images`, .csv/.xlsx to `\data`, .txt/.doc/.pdf to `\docs`, .zip to `\archive`, anything else nowhere |
| OrganizeDownloads.CategoryOfEachExtension | organize_downloads.py:25-31 | the lower-cased suffix of a name picks its folder from that list, or no folder when it is not listed |
| OrganizeDownloads.SuffixOfLower | organize_downloads.py:27 | taking the suffix and lower-casing commute |
| OrganizeDownloads.CategoryIgnoresCase | organize_downloads.py:27 | names equal up to case get the same folder |
| OrganizeDownloads.DoubleSuffixExample | organize_downloads.py:25-31 | "a.tar.zip" goes to `\archive` |
| OrganizeDownloads.OtherFinalSuffixExample | organize_downloads.py:25-31 | "x.zip.bak" goes nowhere |
| OrganizeDownloads.UpperCaseSuffixExample | organize_downloads.py:25-31 | "REPORT.PDF" goes to `\docs` |
| OrganizeDownloads.LeadingDotExample | organize_downloads.py:25-31 | ".zip" has no suffix and goes nowhere |
| OrganizeDownloads.FileCategoriesUnambiguous | organize_downloads.py:10-15 | no extension is listed under two folders |
| OrganizeDownloads.LookupIsMembership | organize_downloads.py:28-30 | in an unambiguous table the answer is the folder whose list holds the extension, wherever that entry stands |
| OrganizeDownloads.LookupIgnoresOrder | organize_downloads.py:28-30 | scanning an unambiguous table in any order gives the same answer |
| Text.Lower | organize_downloads.py:27 | lower-casing maps each character on its own and keeps the length |
| Text.LowerIdempotent | organize_downloads.py:27 | lower-casing twice is lower-casing once |
| Text.Upper | kimpga_top20.py:141 | upper-casing maps each character on its own and keeps the length |
| Text.IsUpper | kimpga_top20.py:144 | `isupper`: some upper-case letter and no lower-case one |
| Text.CaseFoldingAgrees | kimpga_top20.py:141 | two strings agree lower-cased exactly when they agree upper-cased |
| Text.IsUpperFixed | kimpga_top20.py:144 | a string `isupper` accepts is its own upper-case form |
| Text.Decimal | kimpga_top20.py:68 | the decimal form of a number is all digits |
| Text.DecimalRoundTrip | kimpga_top20.py:68-69 | `int` of the decimal form of n is n |
| Text.IsDigits | kimpga_top20.py:68 | `isdigit`: non-empty and made only of the digits 0 to 9 |
| Text.DigitsValue | kimpga_top20.py:69 | `int` of a digit string: the value of its digits read in base ten, leading zeros allowed |
| Text.TrimStartSpec | kimpga_top20.py:126 | trimming the front leaves a tail starting with a non-space, and all that was cut was whitespace |
| Text.TrimEndSpec | kimpga_top20.py:126 | trimming the back leaves a head ending with a non-space, and all that was cut was whitespace |
| Text.StripSpec | kimpga_top20.py:126 | `strip` leaves the slice between the whitespace at the two ends, neither starting nor ending with whitespace |
| Text.Strip | kimpga_top20.py:126 | `strip`: the leading whitespace and then the trailing whitespace removed |
| Text.StripIdempotent | kimpga_top20.py:126 | stripping twice is stripping once |
| Text.Word | kimpga_top20.py:99 | the longest whitespace-free prefix |
| Text.Split | kimpga_top20.py:99 | `split()` yields non-empty parts without whitespace; `SplitSkipsSpace`, `SplitWordFirst` and `SplitPaddedPair` state which parts |
| Text.Join | kimpga_top20.py:56 | joining a single part gives that part; `JoinContainsParts` states that every part appears in the joined text |
| Text.SplitWordFirst | kimpga_top20.py:99 | a word followed by whitespace or nothing splits off as the first part |
| Text.SplitSkipsSpace | kimpga_top20.py:99 | whitespace of any kind and length before the text does not change the parts |
| Text.SplitWordAfterSpace | kimpga_top20.py:99 | a word after any run of whitespace, ended by whitespace or the end, is the first part |
| Text.SplitPaddedPair | kimpga_top20.py:99 | two words with any whitespace before, between and after them split into exactly those two words |
| Text.SplitJoinRoundTrip | kimpga_top20.py:99 | splitting words joined by single spaces gives back the words |
| Text.JoinContainsParts | kimpga_top20.py:56 | every part occurs in the text joined with any separator |
| Text.Occurs | kimpga_top20.py:57 | `pat in text`: the pattern appears at some position of the text (the same test at kimpga_top20.py:97) |
| KimpgaTop20.Take | kimpga_top20.py:84 | Python's `s[:n]`: a prefix of length min(n, len) for n ≥ 0 and len + n (at least 0) for negative n |
| KimpgaTop20.Prefix | kimpga_top20.py:60-61 | the first n elements, all of them when there are fewer, none for n ≤ 0 |
| KimpgaTop20.TakeOfPrefix | kimpga_top20.py:84 | slicing an already capped list to n changes nothing |
| KimpgaTop20.HeaderMatches | kimpga_top20.py:55-57 | a table without header cells is never a candidate |
| KimpgaTop20.MapRow | kimpga_top20.py:62-82 | the row is kept as `raw` and no symbol is set; the rank is `int(cols[0])` exactly when the first cell is all digits and None otherwise; name, price and change are present exactly when the row has 2, 3 and 4 cells, and each then holds cell 1, 2 and 3 |
| KimpgaTop20.MapRowReadsFields | kimpga_top20.py:65-82 | a row written from a rank, a name, a price and a change reads back into exactly those fields |
| KimpgaTop20.MapRowReadsShortRow | kimpga_top20.py:68-80 | a row of one to three cells whose first cell is not all digits has rank None and exactly the keys its cells reach, with their values |
| KimpgaTop20.MapRowReadsRank | kimpga_top20.py:68-69 | a first cell holding the decimal form of n gives rank n |
| KimpgaTop20.RowEntries | kimpga_top20.py:62-64 | empty rows are skipped, so there are never more entries than rows |
| KimpgaTop20.RowEntriesFromRows | kimpga_top20.py:62-82 | each entry is the mapping of a non-empty row |
| KimpgaTop20.CollectRows | kimpga_top20.py:59-82 | the row loop yields the entries of the first `top_n` non-empty rows |
| KimpgaTop20.TryParseTable | kimpga_top20.py:51-85 | the first candidate table that yields an entry decides; otherwise the result is empty |
| KimpgaTop20.ParseTable | kimpga_top20.py:51-85 | never more than `max(top_n, 0)` entries; `ParseTableSpec` states which table they come from |
| KimpgaTop20.ParseTableSpec | kimpga_top20.py:55-85 | at most `max(top_n, 0)` entries, each the mapping of a non-empty row of a table whose header matches a keyword |
| KimpgaTop20.CardEntry | kimpga_top20.py:99-105 | raw is the token list; name is present iff there is a first token and equals it; price is present iff there is a second token and equals it; no other keys |
| KimpgaTop20.CardMatches | kimpga_top20.py:97 | a card is kept when its text contains one of BTC, ETH, 코인, 가격, 원, KRW or USD |
| KimpgaTop20.CardEntryOfWords | kimpga_top20.py:99-104 | a card of words joined by spaces has the first word as name and the second as price |
| KimpgaTop20.CardEntries | kimpga_top20.py:95-105 | never more entries than cards |
| KimpgaTop20.TryParseCards | kimpga_top20.py:92-108 | the loop returns the entries of the keyword cards, capped at `top_n` |
| KimpgaTop20.SpanNameIsFirst | kimpga_top20.py:133-147 | the name is the first span that is non-empty, differs from the symbol ignoring case and is not a label of at most four capitals; None iff no span qualifies |
| KimpgaTop20.NameCandidate | kimpga_top20.py:137-145 | a span text is a name unless it is empty, equals the symbol ignoring case, or is at most four characters and all capitals |
| KimpgaTop20.SpanName | kimpga_top20.py:133-147 | a chosen name is one of the spans and qualifies as a name for the symbol |
| KimpgaTop20.SpanNameIgnoresSymbolCase | kimpga_top20.py:141 | symbols that agree ignoring case choose the same name |
| KimpgaTop20.LongCapitalsNameTheCoin | kimpga_top20.py:143-146 | an all-capitals text longer than four characters that is not the symbol in capitals is accepted as the name |
| KimpgaTop20.ChooseName | kimpga_top20.py:133-147 | the span loop returns that name |
| KimpgaTop20.ImgEntries | kimpga_top20.py:122-128 | never more entries than images |
| KimpgaTop20.ImgEntry | kimpga_top20.py:126-168 | the symbol is the stripped `alt`, no rank is set yet, and a name is one of the spans and differs from the symbol ignoring case |
| KimpgaTop20.ImgEntriesHaveSymbols | kimpga_top20.py:126-128 | every image entry has a non-empty symbol and no rank |
| KimpgaTop20.CollectImages | kimpga_top20.py:122-169 | the image loop yields the entries of the images with a non-empty stripped symbol, capped at `top_n` |
| KimpgaTop20.Unique | kimpga_top20.py:172-179 | de-duplication never adds entries |
| KimpgaTop20.SymbolKey | kimpga_top20.py:175 | the de-duplication key is the symbol upper-cased, or the empty string when there is no symbol |
| KimpgaTop20.UniqueAtFirstPositions | kimpga_top20.py:172-179 | the kept entries are exactly those with a non-empty key seen for the first time, in their original order |
| KimpgaTop20.UniqueDistinct | kimpga_top20.py:175-178 | every kept entry has a non-empty key and no two kept entries share one |
| KimpgaTop20.UniqueCoversKeys | kimpga_top20.py:175-179 | every non-empty key of the input is the key of a kept entry |
| KimpgaTop20.DedupBySymbol | kimpga_top20.py:172-181 | the loop keeps the first entry of each upper-cased symbol, in order, stopping once `top_n` are kept (at least one when `top_n` ≤ 0) |
| KimpgaTop20.WithDefaultRank | kimpga_top20.py:185 | `setdefault`: a missing rank becomes the index and everything else stays |
| KimpgaTop20.Ranked | kimpga_top20.py:184-185 | numbering keeps the number of entries |
| KimpgaTop20.AssignRanks | kimpga_top20.py:184-185 | the loop gives each entry without a rank its 1-based position |
| KimpgaTop20.TryParseKimpga | kimpga_top20.py:118-187 | collect, de-duplicate, number and slice to `top_n` |
| KimpgaTop20.ParseKimpga | kimpga_top20.py:118-187 | never more results than images; `ParseKimpgaEntry` and `ParseKimpgaDistinct` state what each result is |
| KimpgaTop20.ParseKimpgaBound | kimpga_top20.py:187 | at most `max(top_n, 0)` entries |
| KimpgaTop20.ParseKimpgaEntry | kimpga_top20.py:172-187 | result k has rank k + 1 and, apart from the rank, is the first image entry with its symbol |
| KimpgaTop20.ParseKimpgaDistinct | kimpga_top20.py:172-187 | every result has a non-empty symbol, and no two are equal up to case |
| KimpgaTop20.GetTopCoins | kimpga_top20.py:229-246 | no page gives nothing; otherwise the tables' result, else the cards', else nothing |
| KimpgaTop20.TopCoins | kimpga_top20.py:229-246 | no page gives nothing, and the answer never exceeds `max(top_n, 0)` entries |
| KimpgaTop20.TopCoinsSpec | kimpga_top20.py:235-246 | the cards are used only when the tables yield nothing, and there are never more than `max(top_n, 0)` entries |

## Left out

- Drawing, the pygame event queue, the window and the frame clock (`test.py` 159-207, 211-214, 228-233, 281-309) are not modelled. Each key press or elapsed fall interval is one call on `Game`, in the order the caller chooses.
- The fall timer is not modelled. The interval is given as integer milliseconds, `max(50, 800 - (level - 1) * 50)`, in place of float seconds. Gravity is the `Fall` event.
- The random shape choice (`test.py:85`) is a parameter: the shape of every new piece is passed in.
- Tetris.Piece.Lock: returns the stamped grid, which the caller stores. It does not write into the caller's row lists in place, so aliasing of those lists is not modelled.
- The `Game` methods do not check `running`. The caller stops calling them once it is false, which stands for the source's loop ending. The rest of the frame after a game over is not modelled.
- Text.Lower, Text.Upper, Text.IsUpper and Text.IsDigits: ASCII only. Python's Unicode case mapping and Unicode digits are not modelled.
- Text.IsSpace: Python's whitespace set is written out as a fixed list of code points.
- `fetch_html`, the Selenium path, BeautifulSoup traversal, `save_csv` and `main` of `kimpga_top20.py` are not modelled (network, HTML library, file output). A failed fetch is `None`. An empty page and a page without tables or cards give the same empty result.
- KimpgaTop20.TryParseKimpga: the regex price and change detection (`kimpga_top20.py:150-166`) is not modelled. Each image arrives with the price, change and row text already picked.
- KimpgaTop20.TryParseTable: in the source, `results` is shared across tables. Every candidate table either returns or leaves it empty, so it is modelled per table with the same outcome.
- `create_folders`, `is_today_file` and `organize_downloads` are not modelled (filesystem, clock and `shutil.move`). `get_file_category` is modelled on bare file names; directory parts of a path are not.
- The `print` inside `setValue` and the module-level `print` calls of `demoFunction.py` are not modelled (console output).
