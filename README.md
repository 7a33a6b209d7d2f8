# Word-search solver: a verified model

This project models the core of a word-search solver. The solver is given an
image of a square letter grid. It cuts the image into one pixel block per
letter. A classifier, which is outside this model, turns those blocks into a
grid of letter codes ('A' is 1, 'B' is 2, and so on). The solver then looks
for every word of its list in that grid.

The search for a word visits the cells row by row. At each cell that holds
the word's first letter it tries three matchers in turn:

- horizontal: right, then left;
- vertical: down, then up;
- diagonal: the four diagonals.

A matcher accepts a placement that stays on the grid and has at most
`tolerance` wrong letters (three by default). The first letter is never
compared.

Every placement a matcher returns is appended to the list of found words. A
cell counts as a hit when some matcher was exact and nothing appended from it
had errors. The first hit ends the search for that word.

Finally the resolver sorts the found words by error count. For each word it
deletes every entry that another entry for the same word beats with strictly
fewer errors.

Modules, one per concern:

- `FoundWords` (`found_word.dfy`): the placement record and the letter codec.
- `Search` (`search.dfy`): the three directional matchers as loop methods. Each
  is proved equal to `FirstSuccess`, a declarative definition. That definition
  takes the first direction whose path lies on the grid and whose defect set
  fits the tolerance.
- `Image` (`image.dfy`): the grid size and the cutting of the image into
  letter blocks. `GetLettersFromImage` is proved equal to the declarative
  `ImageLetters`.
- `Points` (`points.dfy`): what one start cell appends and whether it reports
  a hit.
- `Cells` and `Scanning` (`cells.dfy`, `scanning.dfy`): the row-major sweep
  over the grid. It is proved equal to a scan over the cells that hold the
  first letter, and that scan stops at the first hit.
- `Ranking` and `Resolving` (`ranking.dfy`, `resolving.dfy`): the resolver's
  specification is `Filtered`, a stable sort followed by dropping beaten
  entries. Its marking pass is proved to mark exactly the beaten positions.
- `WordSearches` (`word_search.dfy`): the `WordSearch` class. Its methods
  update `foundWords` in place, and each is proved against the functions
  above.

## Model

| member | source | states |
|---|---|---|
| FoundWords.NewFoundWord | found_word.py:10-25 | the record keeps both end points, the word and the error count unchanged; the line colour starts as black ('K') |
| FoundWords.LetterToInt | found_word.py:37-43 | a character is an upper-case letter exactly when its code is between 1 and 26 |
| FoundWords.LetterToIntMonotone | found_word.py:37-43 | the codec preserves the order of characters in both directions, so distinct letters get distinct codes |
| Search.LookHorizontal | search.py:9-49 | the result is the first of right and left whose path stays inside the row and has at most `tolerance` wrong letters (letters 1 to n-1 compared); the record starts at (x, y), stays on row y, ends len-1 columns away and counts at most `tolerance` errors |
| Search.LookVertical | search.py:52-91 | the same along the column: down first, then up; the record stays in column x and ends len-1 rows away |
| Search.LookDiagonal | search.py:94-144 | the same along the four diagonals in the order (+1,+1), (-1,+1), (+1,-1), (-1,-1); the record ends len-1 steps away on both axes |
| Search.WalkRow | search.py:28-41 | one direction of the row walk: it succeeds exactly when that direction's attempt does, and then reports the number of wrong letters |
| Search.WalkColumn | search.py:70-83 | one direction of the column walk, with the same guarantee |
| Search.WalkDiagonal | search.py:116-133 | one diagonal direction of the walk, with the same guarantee |
| Search.DefectsMonotone | search.py:37-41 | the count of wrong letters never decreases as the walk goes on, which justifies the early exit once the tolerance is exceeded |
| Search.AttemptOffGrid | search.py:32-35 | a direction in which any probed cell falls off the grid yields no match |
| Search.AttemptOverTolerance | search.py:38-41 | a direction whose wrong letters exceed the tolerance on some prefix yields no match |
| Search.FirstSuccessNone | search.py:26-43 | the search finds nothing exactly when every direction's attempt fails |
| Search.FirstSuccessMatch | search.py:26-49 | a match comes from a direction whose attempt succeeded, after every earlier direction failed, and it carries that attempt's error count |
| Search.FirstSuccessAt | search.py:26-49 | when direction k is the first to succeed, the result is the placement along direction k |
| Search.OneLetterWord | search.py:31-49 | a one-letter word matches at its start cell with no errors, whatever the grid holds there |
| Search.HorizontalShape | search.py:44-46 | a horizontal match starts at (x, y), stays on row y and ends exactly len-1 columns to the right or to the left |
| Search.VerticalShape | search.py:87-89 | a vertical match stays in column x and ends exactly len-1 rows below or above |
| Search.DiagonalShape | search.py:139-142 | a diagonal match ends exactly len-1 steps away on both axes |
| Image.GridSize | word_search.py:28 | the grid size is the truncated quotient of the image side by the letter size: that many whole letters fit and one more does not |
| Image.SpanLess | word_search.py:53-54 | letter starts are ordered like letter indices, in both directions |
| Image.FlattenLength | word_search.py:55-59 | concatenating rows of equal length m gives a list of length rows times m |
| Image.FlattenAt | word_search.py:55-59 | element b of row a sits at position a*m + b of the concatenation |
| Image.ReadLetter | word_search.py:55-59 | one letter's pixels are read row by row, each pixel at matrix[column][row] (transposed) |
| Image.GetLettersFromImage | word_search.py:42-61 | the letters are read block by block, rows of blocks outermost, and the result equals the declarative image cut |
| Image.ImageLettersCount | word_search.py:51-61 | the image yields grid size squared letters (each letter holds letter size squared pixels, as `Image.LetterPixel` states) |
| Image.ImageLettersAt | word_search.py:53-59 | the letter of block (a, b) is at position a*g + b of the list |
| Image.LetterPixel | word_search.py:56-58 | pixel (p, q) of block (a, b) is matrix[b*ls + q][a*ls + p], at position p*ls + q of that letter |
| WordSearches.WordSearch.constructor | word_search.py:14-40 | the solver keeps the image, letter size and words, computes the grid size and the letter blocks, takes the classified grid, sets the error tolerance to the matchers' default of 3, and starts with no found words |
| Points.Somes | word_search.py:122-124 | keeping the present results never lengthens the list |
| Points.SomesMember | word_search.py:122-124 | a record is appended exactly when some matcher returned it |
| Points.PointResultsEntries | word_search.py:109-124 | a start cell appends at most three records; each starts at (x, y), is for the word searched and is within the tolerance |
| Points.PointHorizontalExact | word_search.py:109-111 | an exact horizontal match is the only record a start cell appends; vertical and diagonal are not consulted |
| Points.PointFoundIff | word_search.py:105-128 | a cell reports a hit exactly when some matcher was exact and no result before or at the last one consulted had errors |
| Points.PointFoundSingle | word_search.py:105-128 | a cell that reports a hit appended exactly one record, with no errors |
| WordSearches.WordSearch.MatchAtPoint | word_search.py:105-119 | the matchers are consulted in the order horizontal, vertical, diagonal, each only when the previous gave no exact match; the flag is true exactly when one was exact |
| WordSearches.WordSearch.FindWordAtPoint | word_search.py:96-128 | the found words grow by exactly the present results, in matcher order; the result is true exactly when something was appended and none of it has errors |
| Cells.CandidatesSound | word_search.py:87-89 | every cell the sweep tries is on the grid and holds the first letter's code |
| Cells.CandidatesComplete | word_search.py:87-89 | every grid cell holding the first letter's code is among the cells the sweep tries in turn (an earlier hit can still end the sweep before it) |
| Cells.CandidatesOrdered | word_search.py:87-88 | cells are tried row by row, each row left to right |
| Cells.RowCandidatesMember | word_search.py:88-89 | the cells tried in a row are exactly those left of the bound that hold the code |
| Scanning.ScanStops | word_search.py:90-94 | once a cell reports a hit, no later cell changes the found words |
| Scanning.ScanFirstFound | word_search.py:90-94 | the additions for a word are those of every tried cell up to and including the first hit, in order |
| Scanning.ScanNoneFound | word_search.py:87-94 | when no cell reports a hit, every tried cell's additions are appended and the search ends unsuccessful |
| Scanning.SweptStops | word_search.py:91-94 | the two break statements end the search for the word: the state after the hit is the final state |
| Scanning.SweptRows | word_search.py:87-94 | the nested loops over rows and columns are the scan over the candidate cells |
| Scanning.FindAddedScan | word_search.py:79-94 | searching for a word appends what the scan over the cells holding its first letter appends, in row-major order |
| Scanning.FindAddedEntries | word_search.py:79-94 | every record appended for a word starts at a grid cell holding the word's first letter, is for that word and is within the tolerance |
| WordSearches.WordSearch.FindWord | word_search.py:79-94 | the found words grow by exactly the additions the row-major scan makes up to the first hit |
| Scanning.UpperChar | word_search.py:158 | upper case maps 'a'..'z' to 'A'..'Z' and leaves every other character alone |
| Scanning.Upper | word_search.py:158 | upper-casing keeps the length and maps each character |
| Scanning.UpperIdempotent | word_search.py:158 | an upper-cased word holds no lower-case letter, so upper-casing it again changes nothing |
| Scanning.SolveAddedEntries | word_search.py:153-158 | every record solving appends is for one of the words, upper-cased, and within the tolerance |
| WordSearches.WordSearch.Solve | word_search.py:153-158 | the found words grow by each word's additions, word after word in list order, each word searched in upper case |
| Ranking.Insert | word_search.py:137 | inserting adds the record to the multiset of records |
| Ranking.InsertSorted | word_search.py:137 | insertion into a sorted list keeps it sorted by error count |
| Ranking.SortByErrorCount | word_search.py:137 | the sort is a permutation and its result is sorted by error count |
| Ranking.SortIsStable | word_search.py:137 | the sort is stable: the records with any one error count keep their relative order |
| Ranking.SortSorted | word_search.py:137 | sorting an already sorted list leaves it unchanged |
| Ranking.SurvivorsCount | word_search.py:149-151 | a beaten record is removed entirely, and any other record keeps its multiplicity |
| Ranking.BeatenPermutation | word_search.py:137-146 | whether a record is beaten does not depend on the order of the list, so sorting first does not change what is deleted |
| Resolving.MarkRowMember | word_search.py:140-144 | comparing entry i with the entries after it marks exactly the later same-word entries with more errors |
| Resolving.BeatenBeforeWitness | word_search.py:139-144 | the recursive "beaten by an earlier entry" predicate holds exactly when such an entry exists |
| Resolving.MarksMember | word_search.py:139-146 | the marking pass marks position k exactly when an earlier entry for the same word has fewer errors |
| Resolving.BeatenSorted | word_search.py:137-146 | in a sorted list, an entry is beaten by some entry exactly when it is beaten by an earlier one |
| Resolving.MarksBeaten | word_search.py:137-146 | on a sorted list, the marking pass marks exactly the positions of beaten records |
| Resolving.KeepBeaten | word_search.py:149-151 | deleting the marked positions leaves exactly the survivors, in order |
| Resolving.MarkedSurvivors | word_search.py:139-151 | deleting what the marking pass marks leaves exactly the unbeaten records, in sorted order |
| WordSearches.WordSearch.MarkBeaten | word_search.py:139-146 | the nested loops collect the marked positions of the sorted list, in the order the comparisons happen |
| WordSearches.WordSearch.FilterFoundWords | word_search.py:130-151 | after the resolver the found words are the sorted list with every beaten record deleted |
| Ranking.FilteredCount | word_search.py:130-151 | after the resolver a beaten record is gone, and every other record keeps its multiplicity |
| Ranking.FilteredMembership | word_search.py:130-151 | a record survives exactly when it was found and no record for the same word has fewer errors |
| Ranking.FilteredSorted | word_search.py:130-151 | the resolver's output is sorted by error count |
| Ranking.FilteredTies | word_search.py:130-151 | all surviving records for one word have the same error count, the lowest found |
| Ranking.FilteredIdempotent | word_search.py:130-151 | running the resolver a second time changes nothing |

## Left out

- The classifier, the optional dimensionality reduction and the column-major reshape of its output (word_search.py:32-38) are not modelled. `classifier.py` is not part of this model. The letter-code grid is a parameter of the constructor, required to be grid size by grid size.
- The image is taken to be square (the source reads `len(matrix[0])` columns but indexes `matrix[column][row]`), and its side a multiple of the letter size. Otherwise the source indexes past the image and raises an error. The constructor requires both.
- The numpy arrays are sequences. The conversion with `np.array` is the identity on the letter list.
- The `int(len / letter_size)` float division is truncating integer division in `GridSize`. The two agree for non-negative sizes below 2^53.
- The source's class constant `Search.error_tolerance` (3, search.py:6) is `Search.ErrorTolerance`. The matchers take it as their parameter `tolerance`, and the `WordSearch` constructor sets the solver's `tolerance` field to it. A subclass overriding the class constant is not modelled.
- `WordSearches.WordSearch.FindWord` requires a non-empty word when the grid is non-empty. The source raises an indexing error on `word[0]` there, and that error path is not modelled.
- `WordSearches.WordSearch.Solve` carries the same requirement for every word of the list, for the same reason.
- `Scanning.FindAddedEntries` carries the same requirement as `FindWord`, whose additions it describes.
- `Scanning.SolveAdded` and `Scanning.SolveAddedEntries` carry the same requirement as `Solve`, for every word of the list.
- `WordSearches.WordSearch.constructor` and `Image.GridSize` require a positive letter size. With a letter size of 0 the source raises a division-by-zero error at word_search.py:28, and that error path is not modelled.
- `upper()` is modelled for ASCII letters only. Unicode case mapping is not modelled.
- Removing the records in the deletion set removes objects by identity. Each record object occurs once in the list, so the model deletes the marked positions. The `elif` branch of the marking loop (word_search.py:145-146) cannot run on a sorted list and is a proved-dead branch.
- The order in which the source iterates the deletion set does not matter. The model removes all marked positions at once.
- Drawing (`show`, `draw_line`, `grid_to_pixels`, `to_pixels`) and printing the grid are output only and are not modelled.
- `Image.ReadLetter` and `WordSearches.WordSearch.MatchAtPoint` are the two inner parts of `get_letters_from_image` and `find_word_at_point`, written as separate methods.
