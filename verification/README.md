# Advent of Code 2023 solutions, modelled in Dafny

This project models the shared helpers and the puzzle solutions of a
TypeScript Advent of Code 2023 repository. Each solution becomes pure Dafny
functions over the records its grammar produces. The model covers:

- the rectangle helper `Rect` of `lib/rect.ts` and the older string grid
  of `rect.ts`;
- the integer helpers (`mod`, `divmod`, `gcd`, `lcm`) of `utils.ts`;
- the counting map of `counter.ts`;
- days 1, 2, 3, 4, 5, 7, 8, 9, 10, 11, 12, 13, 14, 15, 16, 18, 19, 20
  and 22.

Reading files, running the parsers and printing are not modelled. Every
module takes the records the parser would have produced.

The modelling conventions are:

- Exceptions become the `Err` case of `Outcomes.Result`, carrying the
  message the source throws.
- Loops that need not end (`while (true)`, a work queue, a button pressed
  until a state repeats) take an explicit `fuel` bound. Lemmas show that
  more fuel never changes a reached result.
- JavaScript's truncating `/` and `%` on integers are written out as
  `Utils.Quot` and `Utils.Rem`.
- Numbers are unbounded integers. No solution here depends on the 53-bit
  limit of doubles.

Modules follow the files: `Outcomes` (result and option types, sums and
filters), `Utils`, `Counting`, `Grid` (lib/rect.ts), `RaggedRect`
(rect.ts), `Sorting` (the stable sorts the days call), and `Day1` …
`Day22`.

## Model

| member | source | states |
|---|---|---|
| Utils.Rem | utils.ts:167 | JavaScript's `%` on integers: x is the truncated quotient times y plus the remainder, whose magnitude is below \|y\| and whose sign is the sign of x |
| Utils.QuotRemUnique | utils.ts:178 | truncated quotient and remainder are forced: any q, r with x = q·y + r, \|r\| < \|y\| and r signed like x are exactly `x / y` and `x % y` |
| Utils.FloorMod | utils.ts:167 | `((x % y) + y) % y` lies in [0, y) for a positive divisor and in (y, 0] for a negative one, and x is the floored quotient times y plus it |
| Utils.Mod | utils.ts:159-168 | `mod` raises 'Division by zero' exactly when y is 0; otherwise its result has the divisor's sign, is smaller than y in magnitude, and x minus it is a multiple of y |
| Utils.DivModNumber | utils.ts:177-179 | `divmod` on numbers (`Math.floor(x / y)` with `mod`) raises exactly on a zero divisor; otherwise q·y + r = x and q is the floor of x / y for either sign of y |
| Utils.DivModBig | utils.ts:177-190 | `divmod` on bigints as written raises exactly on a zero divisor, and its remainder is `mod(x, y)` |
| Utils.DivModBigAgrees | utils.ts:185-189 | the bigint `divmod` as written equals floor division exactly when the division is exact, the operands share a sign, or y > 0 and x ≤ −y |
| Utils.DivModBigCounterexamples | utils.ts:185 | on (−3, 4) the bigint `divmod` returns [0, 1] and on (5, −4) it returns [−1, −3]; neither satisfies q·y + r = x, while floor division gives [−1, 1] and [−2, −3] |
| Utils.DivModBigFloor | utils.ts:177-190 | the corrected bigint `divmod` satisfies q·y + r = x with r = `mod(x, y)`, and raises exactly on a zero divisor |
| Utils.DivModBigFloorIsNumber | utils.ts:177-194 | the corrected bigint `divmod` and the number `divmod` are the same function |
| Utils.DivModExamples | test/utils.test.ts:9-27 | the `divmod` and `mod` values the tests check: (4, 4) → [1, 0], (−5, 4) → [−2, 3], (−5, −4) → [1, −1], mod(−5, −4) = −1, and a zero divisor raises |
| Utils.Gcd2 | utils.ts:206-213 | Euclid's loop on `mod` returns a common divisor of both arguments that every common divisor divides |
| Utils.Gcd2Positive | utils.ts:206-213 | for non-negative arguments, not both zero, the two-argument gcd is positive |
| Utils.GcdFoldDivides | utils.ts:216 | the reduce of the two-argument gcd over the arguments divides the start and every argument, and every common divisor divides it |
| Utils.Gcd | utils.ts:200-217 | `gcd()` raises 'Invalid input' exactly when there are no arguments; otherwise the result divides every argument and every common divisor divides it |
| Utils.LcmStepLeast | utils.ts:224 | for positive t and v, the step `t * v / gcd(t, v)` is a positive common multiple of both that divides every common multiple |
| Utils.LcmFoldMultiple | utils.ts:223-226 | reducing positive arguments from a positive start is never NaN and gives a positive multiple of the start and of each argument, dividing every common multiple |
| Utils.LcmStepZero | utils.ts:206-224 | on numbers the step is NaN (`0 / 0`) exactly when both arguments are 0, since only then is their gcd 0; otherwise it is 0 exactly when one argument is |
| Utils.LcmFoldNaN | utils.ts:221-225 | the reduce from an accumulator is NaN exactly when two zeros meet in it: the accumulator and an argument, or two arguments |
| Utils.Lcm | utils.ts:220-226 | `lcm` on numbers: of no arguments 1; of positive arguments their least common multiple: positive, a multiple of each, a divisor of every common multiple; NaN exactly when two of the arguments are 0 |
| Utils.GcdExamples | test/utils.test.ts:31-42 | the values the unit tests of utils.ts assert: `gcd()` raises, gcd(8) = 8, gcd(8, 12) = 4, gcd(8, 12, 16) = 4, lcm(8, 12) = 24 |
| Counting.Keys | counter.ts:8 | a key is written exactly when the entries hold it |
| Counting.Empty | counter.ts:8 | a new counter is well formed and has no keys |
| Counting.Get | counter.ts:17-20 | `get` of a key never written is 0 |
| Counting.Update | counter.ts:42-47 | adding `count` to key k raises k's count by `count` and leaves every other count alone; keys gain only k, there is one more entry exactly when k was new, and distinct keys stay distinct |
| Counting.Sum | counter.ts:42-47 | `sum` returns the old count plus `count`, stores it for the key, and changes no other key |
| Counting.Add | counter.ts:28-33 | `add` returns the old count plus one, stores it, and changes no other key |
| Counting.SumKeys | counter.ts:42-47 | after `sum` the keys are the old keys plus k, and a well-formed counter stays well formed |
| Counting.SumTotal | counter.ts:42-66 | `sum(count, k)` raises the default `total()` by exactly `count` |
| Counting.TotalTest | counter.ts:56-66 | `total` with a yes/no filter is the number of keys the filter accepts |
| Counting.Max | counter.ts:73-83 | `max()` is null exactly on an empty counter; otherwise it is an entry with the largest count, and no earlier entry has that count |
| Counting.Size | counter.ts:90-92 | `size()` of a well-formed counter is the number of distinct keys written |
| Counting.SumSize | counter.ts:42-47 | `sum` on a new key raises `size()` by one; on a written key it leaves the size alone |
| Counting.LookupEntry | counter.ts:13-20 | in a well-formed counter each entry holds the count `get` returns for its key |
| Grid.OfSize | lib/rect.ts:43-58 | `ofSize(w, h, val)` has h rows of width w and is uniform exactly when h > 0; `get(x, y)` is the constant or `val(x, y)` inside and a RangeError outside |
| Grid.Check | lib/rect.ts:66-73 | `#check` passes exactly when the row index is in range and the column lies inside that row |
| Grid.Width | lib/rect.ts:81-83 | the width is the number of columns of row 0: x lies in row 0 exactly when 0 <= x < width |
| Grid.Get | lib/rect.ts:106-111 | `get(x, y, dx, dy)` succeeds exactly when (x + dx, y + dy) is inside and returns that cell; otherwise it raises RangeError |
| Grid.Set | lib/rect.ts:120-123 | `set` succeeds exactly inside the rect; afterwards the cell reads `val`, the shape is unchanged, and every other position reads as before |
| Grid.ForEach | lib/rect.ts:130-136 | `forEach` visits every cell once with its own value, in strictly increasing row-major order, and makes no other visits |
| Grid.Map | lib/rect.ts:144-158 | `map` succeeds exactly when no row is shorter than row 0; the result is uniform with row 0's width and holds `fn(value, x, y)` at each cell; on a uniform rect it never fails and keeps the shape |
| Grid.Reduce | lib/rect.ts:169-183 | `reduce` with an initial value over a rect without cells returns that value |
| Grid.ReduceConcat | lib/rect.ts:169-183 | `reduce` with concatenation yields the initial value followed by every cell in row-major order; with no initial value, cell (0, 0) seeds the fold and is not passed to the callback |
| Grid.ReduceCounts | lib/rect.ts:169-183 | `reduce` with a counting callback, starting from 0, counts every cell once |
| Grid.Columns | lib/rect.ts:195-197 | `columns()` of a uniform rect has one column per unit of width, each as long as the rect is high |
| Grid.Transpose | lib/rect.ts:202-204 | `transpose()` swaps the axes: at every position, including out-of-range ones, `get(x, y)` of the result is `get(y, x)` of the original |
| Grid.TransposeTwice | lib/rect.ts:202-204 | transposing twice gives back a uniform rect with at least one column |
| Grid.Copy | lib/rect.ts:209-211 | `copy()` has the same shape and reads the same at every position |
| Grid.With | lib/rect.ts:219-223 | `with` raises exactly outside the rect; otherwise the copy reads `val` at (x, y) and the old value at every other position |
| Grid.RotateClockwise | lib/rect.ts:228-235 | the rotated rect has the width as its height; cell (k, c) of the result is cell (c, h − 1 − k) of the original, so column c read bottom to top becomes row c |
| Grid.RotateCounterClockwise | lib/rect.ts:240-246 | the rotated rect has the width as its height; row c of the result is column w − 1 − c of the original, read top to bottom |
| Grid.RotationsInverse | lib/rect.ts:228-246 | the two rotations undo each other on a uniform rect with at least one column |
| Grid.Wrap | lib/rect.ts:254-259 | `wrap(val)` adds two rows and two columns: `val` at both ends of every row and across the top row, the literal '#' inside the bottom row, and every original cell moved by (1, 1) |
| Grid.Equals | lib/rect.ts:265-278 | `equals` is false for null, a different height or a different width; for a rect of the same shape it is true exactly when every cell agrees |
| Grid.EqFoldSameShape | lib/rect.ts:277 | the reduce of `t && val === other.get(x, y)` over a rect of the same shape is true exactly when the two rects are equal |
| Grid.SplitJoin | lib/rect.ts:287 | lines joined with '\n' split back into the same lines when none contains '\n' |
| Grid.ToString | lib/rect.ts:284-288 | with no separator and no '\n' in any row, splitting `toString()` at '\n' gives back the rows |
| Grid.ToStringRoundTrip | lib/rect.ts:284-288 | with no separator each row's string is the row, so joining with '\n' and splitting gives the rows back |
| RaggedRect.Width | rect.ts:17-19 | `width(y)` exists exactly for a row index in range; it is the bound `get` checks x against on that row, and on a uniform rect it is lib/rect.ts's width |
| RaggedRect.SetKeepsWidths | rect.ts:32-35 | `set` never changes the width of any row |
| RaggedRect.Map | rect.ts:49-63 | `map` keeps every row's own length, and cell (x, y) of the result is `fn(get(x, y), x, y)` |
| RaggedRect.MapForEach | rect.ts:37-63 | iterating the mapped rect visits the same coordinates, in the same order, as iterating the original, with each value passed through the callback |
| RaggedRect.ToString | rect.ts:65-69 | splitting `toString()` at '\n' gives back the rows when there is a row and no row contains '\n' |
| Sorting.Sort | day7.ts:74 | the comparator sort returns a permutation of its input |
| Sorting.SortSorted | day22.ts:110 | under a total preorder the sort's result is ordered |
| Sorting.SortIdempotent | day5.ts:108 | sorting an already ordered sequence changes nothing |
| Sorting.InsertPeers | day7.ts:92 | inserting an element that only moves past elements it cannot be a peer of leaves every peer group in input order |
| Sorting.InsertPeersOrdered | day7.ts:92 | under a total preorder every insertion leaves every peer group in input order |
| Sorting.SortStable | day7.ts:74 | the sort is stable: elements the comparator calls equal come out in the order they went in |
| Day1.Digits | day1.ts:5 | the matches of `/[0-9]/g` are digit characters, and there are no more of them than characters in the line |
| Day1.DigitsAppend | day1.ts:5 | the digits of two joined strings are the digits of the first followed by those of the second |
| Day1.Calibration | day1.ts:7 | `parseInt` of the first digit written before the last is at most 99, with the first digit as tens and the last as units |
| Day1.Part1Line | day1.ts:4-10 | a part-1 line scores 0 when it has at most one digit (the test is `m.length > 1`), and otherwise the number formed by its first and last digit |
| Day1.Part1 | day1.ts:3-11 | part 1 is at most 99 per line, at least each line's value, and 0 exactly when every line has fewer than two digits |
| Day1.WordDigit | day1.ts:25 | word i of the list is replaced by the digit whose value is i + 1 |
| Day1.WordFrom | day1.ts:26 | the alternation matches the first listed word that starts the remaining text, and matches nothing when no listed word does |
| Day1.WordsAreLetters | day1.ts:14-24 | every digit word has at least three letters, all lower-case |
| Day1.NoWordStart | day1.ts:14-24 | a digit word can start only at one of the letters o, t, f, s, e, n |
| Day1.ReplacePass | day1.ts:31-33 | one `replace` keeps the line's length, since each word becomes its digit followed by the word's tail |
| Day1.ReplacePassDigits | day1.ts:31-33 | a pass only turns letters into digits and keeps every other character in place |
| Day1.ReplacePassFixed | day1.ts:29-34 | a pass leaves the line unchanged exactly when no digit word occurs anywhere in it, which is when the do/while exits |
| Day1.FewerNonDigits | day1.ts:29-34 | turning letters into digits lowers the number of non-digit characters whenever anything changed, so the do/while ends |
| Day1.Rewrite | day1.ts:28-34 | the rewrite loop keeps the length and ends on a line in which no digit word occurs |
| Day1.LineValue | day1.ts:35-40 | a part-2 line scores 0 with no digit, and otherwise the number formed by its first and last digit, one digit serving as both |
| Day1.Part2 | day1.ts:13-42 | part 2 is at most 99 per line, at least each line's value, and 0 exactly when every line's value is 0 |
| Day1.PartsAgree | day1.ts:6-36 | on a line without digit words the parts agree when there are two or more digits; a lone digit d scores 0 in part 1 and 11·d in part 2 |
| Day1.FirstPass | day1.ts:31-33 | one pass over "twone" replaces only "two", giving "2wone", because the scan resumes after a match |
| Day1.OverlapExample | day1.ts:28-34 | "twone" rewrites to "2w1ne": a word overlapping the tail of a replaced word is found on a later pass |
| Day1.OverlapScore | day1.ts:27-41 | "twone" scores 21 in part 2 |
| Day2.Exceeds | day2.ts:22-28 | the inner loops jump to the next game exactly when the game is impossible, i.e. some draw shows more of a colour than the bag's 12 red, 13 green or 14 blue; a colour a draw does not mention is skipped |
| Day2.Part1 | day2.ts:12-32 | part 1's total is the sum of the numbers of the possible games |
| Day2.MaxShown | day2.ts:38-50 | the per-colour maximum, starting from 0, bounds every count of that colour shown in a draw and is either 0 or one of those counts |
| Day2.MinimumSetSuffices | day2.ts:38-50 | a bag suffices for the game exactly when it holds at least the minimum set in every colour, so the minimum set is the least bag that works |
| Day2.Power | day2.ts:51 | the power `red * green * blue` of the minimum set is zero exactly when some colour's maximum is zero |
| Day2.AbsentColourNoPower | day2.ts:46-51 | a game in which no draw shows some colour has power 0 |
| Day2.Part2 | day2.ts:34-54 | part 2 is at least each game's power, and 0 exactly when every game's power is 0 |
| Day3.NearIff | day3.ts:34-53 | `near` holds exactly when a symbol on the number's line is adjacent to it or a symbol on the line above or below is stacked over it; a line with no symbols counts as empty |
| Day3.Syms | day3.ts:56 | the symbols collected from the parsed entries are exactly the symbol entries |
| Day3.Nums | day3.ts:58 | the numbers collected are exactly the number entries |
| Day3.NearSumAtMostOnce | day3.ts:60-66 | part 1 counts each number at most once however many symbols touch it: with non-negative numbers the total is between 0 and their plain sum, and listing a symbol again changes nothing |
| Day3.NearSum | day3.ts:60-66 | with no symbols the sum is 0; with non-negative numbers it is non-negative and at least every number near a symbol |
| Day3.Part1 | day3.ts:55-68 | with no symbol part 1 is 0; with non-negative numbers it is non-negative and at least every number near a symbol |
| Day3.NumsNear | day3.ts:70-82 | `numsNear(g)` has one value per listed number entry |
| Day3.NearEntriesIff | day3.ts:70-82 | a number is listed by `numsNear(g)` exactly when it is a number of the input and is near the one symbol g |
| Day3.Ratio | day3.ts:89-92 | a '*' contributes nothing unless exactly two numbers are near it |
| Day3.RatioSum | day3.ts:89-92 | when no gear has exactly two numbers near it the sum is 0 |
| Day3.Part2 | day3.ts:84-93 | when no '*' has exactly two numbers near it part 2 is 0 |
| Day3.RatioExample | day3.ts:84-93 | a '*' at column 3 between 467 (columns 0-2) and 35 (columns 4-5) on its line contributes 467·35 |
| Day4.MatchesMultiplicity | day4.ts:13-19 | winning numbers act as a set (listing one twice changes nothing), while each extra winning number in the held list adds one match |
| Day4.Pow2 | day4.ts:17 | every power of two is at least one |
| Day4.ScoreIsPower | day4.ts:14-19 | the doubling loop leaves 0 for a card with no matches and 2^(k-1) for a card with k matches |
| Day4.CardScore | day4.ts:12-21 | a card's score is 0 without matches and 2^(matches-1) otherwise |
| Day4.ScoreSum | day4.ts:11-22 | the sum is at least each winning card's score 2^(m-1), and 0 exactly when no card has a match |
| Day4.Part1 | day4.ts:10-23 | part 1 is at least each winning card's score, and 0 exactly when no card has a match |
| Day4.SpreadGet | day4.ts:36-38 | the inner loop gives each of the following cards (num+1 .. num+f) as many copies as card num holds, and leaves card num and every other card unchanged |
| Day4.SpreadValid | day4.ts:36-38 | the inner loop keeps each counter key listed once |
| Day4.SpreadTotal | day4.ts:36-38 | the inner loop raises the counter's total by f times card num's count |
| Day4.TimesIsProduct | day4.ts:36-38 | adding x up n times gives n * x |
| Day4.CopyGet | day4.ts:35-38 | processing a card adds its original copy, gives each of its f successors its new count, and changes no other card |
| Day4.CopyValid | day4.ts:35-38 | processing a card keeps the counter well formed |
| Day4.CopyTotal | day4.ts:35-38 | processing a card raises the total by 1 plus f times the card's new count |
| Day4.ProcessAllValid | day4.ts:26-39 | the counter stays well formed over the whole pile |
| Day4.CountsAtLeastOne | day4.ts:27-39 | every card ends up with at least its original copy |
| Day4.NonNegative | day4.ts:27-39 | no card's count ever drops below zero |
| Day4.TimesNonNegative | day4.ts:36-38 | repeated addition of a non-negative count is non-negative |
| Day4.Part2Step | day4.ts:25-41 | appending a card adds its original copy plus, per match, that card's final count to the answer |
| Day4.Part2AtLeastCards | day4.ts:25-41 | the part 2 answer is at least the number of cards |
| Day4.Part2 | day4.ts:25-41 | part 2 counts at least one copy of every card, and is 0 exactly when there are no cards |
| Day5.RangeMapFirst | day5.ts:13-20 | the first range holding n shifts it by dest - src, and a number no range holds maps to itself |
| Day5.FindMap | day5.ts:26 | the map found is one of the almanac's maps and leaves the wanted category; none is found exactly when no map leaves it |
| Day5.MapAll | day5.ts:31 | every number is replaced, in place, by its image under the map's ranges |
| Day5.ChainMoreFuel | day5.ts:25-32 | once the chain of maps ends, a larger step bound gives the same numbers |
| Day5.ChainLength | day5.ts:25-32 | following the maps keeps one number per seed |
| Day5.Min | day5.ts:33 | the minimum is one of the numbers and no larger than any of them; there is none exactly when the list is empty |
| Day5.Part1 | day5.ts:22-34 | part 1 is one of the locations the seeds reach, one per seed, and no location is lower; there is none exactly when the chain of maps does not end or there are no seeds |
| Day5.SplitAsWritten | day5.ts:37-80 | as written, `splitRanges` makes at most one piece per range plus the leftover |
| Day5.Split | day5.ts:37-80 | corrected: the split makes at most one piece per range plus the leftover |
| Day5.SplitAsWrittenGrows | day5.ts:59-66 | the input [0, 5) against a 10-number range from 3 comes out as 11 numbers as written, but as 5 in the corrected split |
| Day5.SplitAsWrittenTouching | day5.ts:59 | an input ending just where a range starts gains a spurious piece at the range's destination as written, and none in the corrected split |
| Day5.LengthsAppend | day5.ts:96-97 | the numbers covered by two lists of pieces add up |
| Day5.SplitKeepsLength | day5.ts:37-80 | corrected: the split hands on exactly as many numbers as it receives |
| Day5.SplitPiecesNonEmpty | day5.ts:37-80 | corrected: every piece of the split of a non-empty input is non-empty |
| Day5.SplitAgrees | day5.ts:37-80 | on contiguous ranges, for an input starting at or after the first range, the split as written and the corrected split agree |
| Day5.SplitInside | day5.ts:45-52 | an input inside one range comes out, in both splits, as a single piece starting where rangeMap sends the input's first number |
| Day5.SplitPrefix | day5.ts:53-58 | an input starting inside a range and running past it is mapped up to the range's end and the rest carries on with the following ranges, in both splits |
| Day5.SplitSuffix | day5.ts:59-66 | an input starting before a range and ending inside it is cut at the range's start with the first part unmoved; as written the moved piece has endSrc − endInp numbers, corrected it has the endInp − r.src numbers the input covers |
| Day5.SplitUntouched | day5.ts:42-78 | corrected: an input no range overlaps comes out whole and unmapped |
| Day5.SplitStarts | day5.ts:37-80 | both splits keep every start non-negative when the input's start and every destination are |
| Day5.SplitAll | day5.ts:94-99 | one category step of part 2 as written keeps every start non-negative when the intervals' starts and the map's destinations are |
| Day5.SplitAllKeepsLength | day5.ts:94-99 | corrected: one category step of part 2 keeps the number of seeds covered |
| Day5.SplitAllNonEmpty | day5.ts:94-99 | corrected: one category step of part 2 yields only non-empty intervals |
| Day5.SplitAllAgrees | day5.ts:94-99 | on a map of contiguous ranges starting at or below 0 with non-negative destinations, the step as written equals the corrected step on intervals with non-negative starts and positive lengths, and hands on such intervals |
| Day5.Pairs | day5.ts:85 | the seeds are read as consecutive (start, length) pairs |
| Day5.ChainIntervals | day5.ts:87-100 | the loop of part 2 as written keeps every start non-negative when the seed starts and all destinations are |
| Day5.ChainIntervalsKeepsLength | day5.ts:87-100 | corrected: following all the maps keeps the number of seeds covered, and every interval non-empty |
| Day5.ChainIntervalsAgree | day5.ts:87-100 | when every map is such a map, the loop as written and the corrected loop give the same intervals |
| Day5.Starts | day5.ts:102 | the starts of the intervals, in order |
| Day5.Part2 | day5.ts:82-103 | as written, part 2 is never negative when the seed starts and all destinations are not |
| Day5.Part2Agrees | day5.ts:82-103 | when every map is such a map and every seed pair is a proper interval, part 2 as written gives the corrected answer |
| Day5.Part2Diverges | day5.ts:82-112 | the map sending 10..14 to 0..4 is prepared with the filler 0..8; on the one seed 9 part 2 as written answers 0 and corrected answers 9 |
| Day5.Prepare | day5.ts:107-112 | a prepared map keeps its categories and ranges, starts with a range from 0, adds at most the one filler range, and fails exactly when the map has no ranges |
| Day5.PrepareSorted | day5.ts:108-111 | with non-negative sources, a prepared map's ranges are in source order |
| Day5.FillerSorted | day5.ts:109-111 | putting the filler in front of sorted ranges keeps them sorted |
| Day5.FillerMapsNothing | day5.ts:109-111 | the filler range maps every number exactly as the ranges without it would |
| Day7.RankInjective | day7.ts:4-12 | distinct hand types have distinct numbers, so subtracting them compares types |
| Day7.ValueInjective | day7.ts:20-29 | distinct cards have distinct values in both tables, and with jokers J is below every other card |
| Day7.TallyCounts | day7.ts:71 | the tally of a hand counts each card's occurrences, its keys are exactly the hand's cards, and each is listed once |
| Day7.DescPreorder | day7.ts:72 | "largest first" is a total preorder on counts |
| Day7.LargestGroup | day7.ts:71-72 | the first of the sorted counts is the size of the hand's largest group of equal cards |
| Day7.LargestUnique | day7.ts:72 | a hand has a single largest group size |
| Day7.TypeByLargestGroup | day7.ts:31-50 | five and four of a kind are exactly the hands whose largest group has 5 or 4 cards; full house or three of a kind exactly those with 3; two pairs or one pair exactly those with 2; high card the rest |
| Day7.DeleteAbsent | day7.ts:86 | deleting a card the hand does not hold leaves its tally unchanged |
| Day7.JokerCountsKeep | day7.ts:85-89 | a tally without jokers keeps its sorted counts under the joker rule (an empty tally reads as the single count 0) |
| Day7.HeadPlusZero | day7.ts:89 | adding no jokers to the largest count leaves the counts unchanged |
| Day7.NoJokers | day7.ts:79-91 | a hand without jokers gets the same type under both rules |
| Day7.AllJokers | day7.ts:84-90 | five jokers make five of a kind |
| Day7.CmpCardsZero | day7.ts:59-64 | the card-by-card comparison is zero exactly when the cards are the same |
| Day7.CmpCardsAntisymmetric | day7.ts:59-64 | swapping the hands flips the sign of the card-by-card comparison |
| Day7.CmpCardsTransitive | day7.ts:59-64 | the card-by-card comparison is transitive |
| Day7.CmpZeroIff | day7.ts:52-66 | two hands compare equal exactly when they have the same type and cards, and swapping them flips the sign |
| Day7.CmpPreorder | day7.ts:52-66 | the hand comparison is a total preorder, so sorting with it is well defined |
| Day7.WinningsAppend | day7.ts:76-93 | the strongest hand adds its bid times the number of hands to the winnings |
| Day7.Classify | day7.ts:70-91 | each hand keeps its cards and bid and is given its type under the chosen rule |
| Day7.RankedInOrder | day7.ts:74-92 | the ranking lists every typed hand exactly once, weakest first |
| Day7.BidSumRemove | day7.ts:76 | the bids of a list are one hand's bid plus the bids of the others |
| Day7.RemoveMatching | day7.ts:74 | taking one matching element out of two lists with the same elements leaves lists with the same elements |
| Day7.BidSumPermutation | day7.ts:74-76 | reordering the hands does not change the sum of their bids |
| Day7.BidSumClassify | day7.ts:70-73 | classifying the hands keeps the sum of their bids |
| Day7.WinningsBounds | day7.ts:76 | with non-negative bids, ranks base + 1 .. base + n give winnings between (base + 1) and (base + n) times the sum of the bids |
| Day7.BidsNonNegative | day7.ts:70-76 | sorting and classifying keep every bid non-negative when the input's are |
| Day7.Solve | day7.ts:68-94 | with non-negative bids, the winnings of either part lie between the sum of the bids and the number of hands times that sum |
| Day8.WalkFrom | day8.ts:16-24 | a finished walk counts at least the steps already taken, and stops at once only on an end node |
| Day8.WalkFirstEnd | day8.ts:14-25 | a walk that finishes in n steps stands on an end node after n steps and on no end node before |
| Day8.WalkFindsEnd | day8.ts:14-25 | conversely, a walk with enough steps allowed reaches the first end node and reports its step count |
| Day8.PathLengthIsFirstEnd | day8.ts:14-25 | `pathLength` returns n exactly when step n is the first to reach an end node (given enough steps allowed) |
| Day8.Part1 | day8.ts:27-29 | with no directions part 1 is 0; otherwise a finished walk from AAA is at ZZZ after its steps and nowhere earlier |
| Day8.StartAtEnd | day8.ts:18-20 | a start that is already an end takes no steps |
| Day8.WalkMoreFuel | day8.ts:17-23 | allowing more steps does not change a walk that has already ended |
| Day8.FirstStop | day8.ts:33 | the index of the first start, in order, whose walk does not finish: every earlier walk finishes and that one does not (the number of starts when all finish) |
| Day8.Lengths | day8.ts:14-33 | `pos.map(pathLength)`: when every walk finishes, one step count per start in order; otherwise the first walk that does not finish decides, with the TypeError when it steps from an undefined name and no answer when it runs out of steps |
| Day8.StartsLengths | day8.ts:31-33 | there is one walk length per name ending in A, each positive when there are directions, and each is the number of steps that name's walk takes to a name ending in Z |
| Day8.LcmOfWalks | day8.ts:31-35 | with directions, the lcm of the walk lengths is a number, is positive, is a multiple of every walk, and divides every common multiple; without directions every length is 0 and the lcm is NaN exactly when there are two or more walks |
| Day8.Part2 | day8.ts:14-35 | the first part 2 walk, in key order, that does not finish decides the outcome: the TypeError when it steps from an undefined name, no answer exactly when it runs out of steps; with directions the answer succeeds exactly when every walk from a name ending in A reaches a name ending in Z, and is then the least common multiple of the first-arrival lengths: positive, a multiple of every walk's length, and a divisor of every such common multiple; with no directions every walk has length 0, and the answer is NaN exactly when two or more names end in A |
| Day8.NoDirectionsNaN | day8.ts:31-35 | with no directions and the starts AAA and BBA, part 2 is `lcm(0, 0)`, which is NaN |
| Day8.StartsAreNotEnds | day8.ts:32-33 | a start whose name ends in A is never a ..Z end, so each part 2 walk takes at least one step |
| Day9.Diffs | day9.ts:16 | the differences of a row have one element fewer, each the step between neighbours |
| Day9.Rows | day9.ts:12-24 | the rows start with the history, number at least two, and end with an all-zero row, so the do-while loop ends |
| Day9.RowsShape | day9.ts:13-24 | each pushed row is the differences of the row before it, and no pushed row but the last is all zeros |
| Day9.ValueIsExtrapolate | day9.ts:26 | the right-to-left reduce over the pushed rows equals extrapolation by recursion on the history |
| Day9.DiffsReverse | day9.ts:16 | the differences of a reversed row are the reversed differences negated |
| Day9.DiffsNeg | day9.ts:16 | the differences of a negated row are the differences negated |
| Day9.ZeroNeg | day9.ts:18-20 | a negated row is all zeros exactly when the row is |
| Day9.ZeroReverse | day9.ts:18-20 | a reversed row is all zeros exactly when the row is |
| Day9.StepNeg | day9.ts:33-37 | both reducers commute with negation |
| Day9.ExtrapolateNeg | day9.ts:4-30 | negating a history negates its extrapolated value, in both directions |
| Day9.StepReverse | day9.ts:33-37 | part 2's reducer on a row is part 1's on the reversed row, fed the negated running value |
| Day9.BackIsReversedForward | day9.ts:32-38 | extrapolating backwards is extrapolating the reversed history forwards |
| Day9.Constant | day9.ts:13-26 | a constant history of at least two numbers extrapolates to that constant both ways |
| Day9.BelowConstant | day9.ts:13-26 | below a row of constant differences k the rows supply k |
| Day9.Arithmetic | day9.ts:32-38 | on an arithmetic progression of at least three terms with step k, part 1 gives the last term plus k and part 2 the first term minus k |
| Day9.SumAll | day9.ts:26 | the total is NaN exactly when some history's value is NaN |
| Day9.ValuesExtrapolate | day9.ts:12-26 | the value the difference rows give each history is its extrapolation |
| Day9.Total | day9.ts:4-30 | the total fails exactly when some history cannot be extrapolated; no histories give 0 and one history gives its own extrapolation |
| Day9.TotalBack | day9.ts:32-38 | part 2's total equals part 1's total over the reversed histories |
| Day10.DirsAreCardinal | day10.ts:18-43 | every exit in the pipe table is one of the four unit steps with the code CARDINAL gives it, and the four codes are distinct |
| Day10.EntryCount | day10.ts:18-36 | each of the six pipe shapes has exactly two entries, ground and the start have none, and every entry code is in 1..4 |
| Day10.TwoWay | day10.ts:18-36 | pipes are two-way: entering a pipe against the way one left it leads back out against the way one came in |
| Day10.FirstExitFound | day10.ts:58-60 | the exit found from the start is an accepting step, and every earlier step of CARDINAL lands inside without being accepted |
| Day10.FirstExitFirst | day10.ts:58-60 | conversely the first accepting step is the one found |
| Day10.WalkUnfold | day10.ts:66-72 | each successful step follows the table to a cell inside the sketch, and the walk closes on 'S' or carries on from that cell |
| Day10.ChaseIs | day10.ts:50-73 | a successful chase is the walk from the start's first exit, one unit step away |
| Day10.WalkShape | day10.ts:66-72 | a successful walk starts where it was put, meets only the six pipe shapes, and every later visit is a cell of the sketch other than 'S' |
| Day10.WalkShapes | day10.ts:66-72 | every visit of a successful walk is at one of the six pipe shapes |
| Day10.WalkLinks | day10.ts:66-72 | consecutive visits are joined by the step the table gives |
| Day10.WalkCloses | day10.ts:72 | the step out of the last visit lands on an 'S' |
| Day10.LinkedCons | day10.ts:66-72 | a visit linked to the first of a linked walk extends it |
| Day10.WalkFirst | day10.ts:67 | the first visit is the cell the walk started from |
| Day10.WalkParity | day10.ts:66-72 | each step changes x + y by one, so a walk that returns to the only 'S' has a length whose parity the positions fix |
| Day10.Part1 | day10.ts:75-80 | part 1 fails exactly when the chase does; otherwise twice its answer is the loop's length, one for 'S' plus the cells visited, so the answer is a real that may end in .5, as `len / 2` does |
| Day10.Part1Exact | day10.ts:75-80 | with a single 'S' the loop has even length, so twice the part 1 answer is exactly the number of loop cells |
| Day10.LoopEven | day10.ts:50-80 | with a single 'S' the loop, start included, has an even number of cells |
| Day10.WalkEven | day10.ts:62-72 | a walk that starts one unit step from the only 'S' and returns to it has odd length |
| Day10.MarkAt | day10.ts:84-108 | every cell carries a mark a ray can read: '.', 'P' or 'N' |
| Day10.MarkAtDot | day10.ts:84-108 | a cell reads '.' exactly when it is not the start and no visit there wrote a mark |
| Day10.DiagCells | day10.ts:118-148 | a ray runs to the nearer of the right and bottom edges and reads the marks along the diagonal |
| Day10.InsideCons | day10.ts:122-147 | the parity count of a ray splits into its first cell and the rest with the crossing flag updated |
| Day10.ScanIsInside | day10.ts:118-148 | a ray fails exactly when it meets a mark other than '.', 'P' or 'N', and otherwise counts the ground cells met after an odd number of crossings |
| Day10.RaysPartition | day10.ts:150-158 | the top-edge and left-edge rays cover each cell of the box exactly once, so no ray meets a cell another ray rewrote |
| Day10.DiagKnown | day10.ts:118-148 | a ray reads only the marks '.', 'P' and 'N' |
| Day10.RayInside | day10.ts:118-148 | a ray never throws and returns its parity count |
| Day10.TopRaysCount | day10.ts:150-153 | the top-edge rays never throw and add up their parity counts |
| Day10.LeftRaysCount | day10.ts:155-158 | the left-edge rays never throw and add up their parity counts |
| Day10.RaysCount | day10.ts:150-158 | all the rays together never throw and add up their parity counts |
| Day10.Part2Count | day10.ts:82-163 | on a sketch whose rows are as long as row 0, once the loop is walked part 2 succeeds with the parity count summed over all the rays |
| Day10.Part2 | day10.ts:82-163 | part 2 raises RangeError when the start is off the grid, succeeds only when the loop can be chased, and on a uniform grid with the start inside always succeeds when it can |
| Day10.VisitMark | day10.ts:87-107 | every visited loop cell is marked, so it never counts as inside |
| Day10.ChaseShapes | day10.ts:87-107 | every visit of a successful chase is at one of the six shapes, so the callback never throws |
| Day10.ShapesMarked | day10.ts:88-101 | a visit at one of the six shapes leaves its cell marked |
| Day11.Range | day11.ts:19-22 | the range lo..hi lists every integer from lo to hi inclusive, in order |
| Day11.EmptyLinesIff | day11.ts:16-23 | the empty lines are exactly the indices 1..n holding no galaxy, in strictly ascending order |
| Day11.FilterAscending | day11.ts:18-23 | filtering an ascending list keeps it ascending |
| Day11.Expanded | day11.ts:24-31 | the growth keeps one galaxy per galaxy |
| Day11.CountBelowSplit | day11.ts:27-29 | the empty lines below w are those below v plus those in [v, w) |
| Day11.BeforeGap | day11.ts:24-31 | the gap between two lines grows by the expansion once per empty line from the lower up to (not including) the higher one |
| Day11.ExpandedGap | day11.ts:24-31 | after the growth, two galaxies' rows (and columns) differ by the original difference plus the expansion per empty line between them |
| Day11.LastLineIrrelevant | day11.ts:19-22 | whether the range includes the last index does not change any galaxy's growth |
| Day11.EmptyLinesSnoc | day11.ts:19-22 | the empty lines up to n are those up to n - 1 plus n itself when it is empty |
| Day11.TopNotUnder | day11.ts:27-29 | the top index is never below a galaxy inside the sketch |
| Day11.Pairs | day11.ts:33 | there are n(n-1)/2 pairs of n galaxies |
| Day11.PairsMembers | day11.ts:33 | the pairs listed are exactly (s[i], s[j]) for i < j |
| Day11.Dists | day11.ts:34 | one distance per pair |
| Day11.PairTotalCons | day11.ts:32-37 | the total splits into the first galaxy's distances to the others plus the total of the others |
| Day11.PairTotalNonNegative | day11.ts:32-37 | the total distance is never negative |
| Day11.PairTotalTwo | day11.ts:34 | distance is symmetric, so the total for two galaxies does not depend on their order |
| Day11.StretchAbs | day11.ts:24-34 | along one axis the grown gap between two galaxies is their original gap plus the expansion per empty line between them |
| Day11.ExpandedTwo | day11.ts:24-37 | for two galaxies and a non-negative expansion the total is the Manhattan distance grown by the expansion per empty row and per empty column between them |
| Day11.StretchedTotalCons | day11.ts:32-37 | the stretched total splits into the first galaxy's stretched distances to the others plus the stretched total of the others |
| Day11.ExpandDist | day11.ts:24-34 | for a non-negative expansion, the Manhattan distance between two grown galaxies is their original distance plus the expansion per empty row and per empty column between them |
| Day11.GrownTotal | day11.ts:24-37 | for a non-negative expansion, the sum of the pairwise distances after the growth equals the sum, over every pair of original galaxies, of their distance plus the expansion per empty line between them |
| Day11.ExpandedDistance | day11.ts:16-38 | `expandedDistance` is never negative, 0 with fewer than two galaxies, and for a non-negative expansion the sum over all pairs of galaxies of their Manhattan distance plus the expansion per empty row and per empty column between them |
| Day11.Part1 | day11.ts:40-42 | part 1 is the sum over all pairs of galaxies of their distance with each empty row and column between them counted twice; never negative, 0 with fewer than two galaxies |
| Day11.Part2 | day11.ts:44-46 | part 2 is the sum over all pairs of galaxies of their distance with each empty row and column between them counted a million times; never negative, 0 with fewer than two galaxies |
| Day12.CountEmpty | day12.ts:21-23 | with no springs left there is one way exactly when no group is left, and none otherwise |
| Day12.CountNoGroups | day12.ts:24-26 | with no groups left there is one way exactly when no damaged spring remains, and none otherwise |
| Day12.CountDot | day12.ts:29-31 | a leading working spring is skipped |
| Day12.CountUnknown | day12.ts:32-38 | a leading unknown is tried as working and as damaged and the counts add up |
| Day12.CountHash | day12.ts:39-58 | a leading damaged spring needs a run of exactly the first group: too few springs, a working one inside the run or a damaged one right after give no way, an exact fit counts only for the last group, and otherwise the count goes on after the run's separator |
| Day12.CountInvalid | day12.ts:59-60 | any other leading character raises the invalid-input error |
| Day12.HashRun | day12.ts:39-58 | the leading run of damaged springs is no longer than the row |
| Day12.CountRunsAppend | day12.ts:36 | counting over two lists of completions adds up |
| Day12.CountRunsPrepend | day12.ts:32-38 | prefixing every completion with c is counting with c added to the prefix |
| Day12.CountRunsSame | day12.ts:29-31 | two prefixes that give every completion the same runs count alike |
| Day12.CountRunsNone | day12.ts:40-52 | a prefix that gives no completion the wanted runs counts nothing |
| Day12.Hashes | day12.ts:39-58 | n damaged springs |
| Day12.HashRunHashes | day12.ts:39-58 | k damaged springs in front lengthen the leading run by k |
| Day12.RunsAfterHashes | day12.ts:46-57 | k leading damaged springs start a run of at least k, exactly k when a working spring or the end follows, and the rest is then read on its own |
| Day12.RunsDot | day12.ts:29-31 | a leading working spring changes no runs |
| Day12.RunsEmptyIff | day12.ts:24-26 | a row has no runs exactly when it has no damaged spring |
| Day12.SplitFirst | day12.ts:28-38 | the completions split on the first spring into those that make it working and those that make it damaged |
| Day12.DotPrefix | day12.ts:29-31 | counting after a leading working spring is counting without it |
| Day12.HashPrefixNoGroups | day12.ts:24-26 | a leading damaged spring always makes a run, so it matches no empty group list |
| Day12.WaysNoGroups | day12.ts:24-26 | with no groups there is one completion exactly when no spring is known damaged |
| Day12.DotChoice | day12.ts:40-45 | ending a run before its group's length gives no way; ending it at that length leaves the other groups to the rest |
| Day12.HashChoiceDone | day12.ts:50-52 | going on past a run of exactly the group's length gives no way |
| Day12.WaysInRun | day12.ts:39-58 | inside a run of k fixed damaged springs, the completions that finish the run at exactly the group's length and then match the other groups are counted as `count` counts them from a leading '#' |
| Day12.WaysInRunEmpty | day12.ts:46-49 | with no springs left inside a run, there is one way when the run is complete and no group follows |
| Day12.WaysInRunMore | day12.ts:40-45 | inside an incomplete run the next spring must be damaged |
| Day12.WaysInRunDone | day12.ts:50-57 | after a complete run the next spring must be working, or unknown read as working |
| Day12.CountRunsShift | day12.ts:53-57 | when a prefix always reads as one run followed by the rest's runs, matching that run and then the other groups is matching the other groups on the rest |
| Day12.CountIsWays | day12.ts:9-65 | `count` gives exactly the number of completions whose runs of damaged springs have the groups' lengths, for every row of '.', '#' and '?' |
| Day12.CountDotLead | day12.ts:29-31 | the leading-'.' case of the count agrees with the completions |
| Day12.WaysQuery | day12.ts:32-38 | the completions of a row with a leading unknown are those of the row with a working spring there plus those with a damaged spring there |
| Day12.CountQuery | day12.ts:32-38 | a leading unknown adds the counts of its two replacements |
| Day12.CountHashLead | day12.ts:39-58 | the leading-'#' case of the count agrees with the completions |
| Day12.HashLeadStep | day12.ts:39-58 | past the recursive call, the run at the front is matched the way `count` matches it |
| Day12.HashLeadEmptyRun | day12.ts:40-45 | a group of length 0 cannot follow a leading '#' |
| Day12.HashLeadRun | day12.ts:39-58 | a positive group after a leading '#' counts the completions that carry that run on from the first spring |
| Day12.CountHashFront | day12.ts:39-58 | `count` from a leading '#' follows the branches of the source in order |
| Day12.Count | day12.ts:9-65 | `count` fails only with its invalid-input error, and never on a row of '.', '#' and '?' |
| Day12.CountMemo | day12.ts:14-64 | the memo table never changes an answer: the count with the table is the count without it, the table stays correct, and a computed count is stored |
| Day12.Joined | day12.ts:79 | n copies joined by a separator have length n times the row plus n - 1 |
| Day12.Copies | day12.ts:78 | n copies of the groups have n times their length |
| Day12.UnfoldIsFiveCopies | day12.ts:78-79 | the unfolded row is five copies of the springs joined by '?' and five copies of the groups |
| Day12.UnfoldAll | day12.ts:77-79 | each row is unfolded in place |
| Day12.Total | day12.ts:67-73 | the sum over rows fails only with the invalid-input error, never on rows of '.', '#' and '?', and no row's count exceeds it |
| Day12.Part1 | day12.ts:67-73 | part 1 fails only with the invalid-input error, never on valid rows, and every row's count is at most the answer |
| Day12.Part2 | day12.ts:75-83 | part 2 fails only with the invalid-input error, never on valid rows, and every unfolded row's count is at most the answer |
| Day12.UnfoldValid | day12.ts:78-79 | an unfolded valid row is still valid, since only copies of it and '?' are added |
| Day13.ToNums | day13.ts:41-43 | one number per row, each that row read in binary |
| Day13.BinaryInjective | day13.ts:41-43 | two 0/1 rows of one length are equal exactly when their binary values are |
| Day13.SameIffEqualRows | day13.ts:5-43 | for non-empty 0/1 rows of one length, comparing the numbers is comparing the rows |
| Day13.CheckFromIff | day13.ts:3-10 | the loop from step k succeeds exactly when every pair of rows at distance k or more from the line, as far as both exist, is equal |
| Day13.CheckReflectionIff | day13.ts:3-10 | `checkReflection` holds exactly when the line between row - 1 and row is a mirror |
| Day13.FindFrom | day13.ts:24-39 | the search from i returns the least candidate at or after i, and none exactly when there is no candidate there |
| Day13.FindReflectionLeast | day13.ts:24-39 | `findReflection` returns the least index that equals its predecessor, is not excluded and mirrors; never 0; and null exactly when there is none |
| Day13.Transpose | day13.ts:12-22 | transposing succeeds exactly when there is a row 0 no other row is longer than, gives row-0-width rows of the pattern's height, and holds p[y][x] where row y reaches column x and 0 elsewhere |
| Day13.TransposeTwice | day13.ts:12-22 | on a rectangular pattern transposing gives res[x][y] = p[y][x], keeps it rectangular, and done twice gives the pattern back |
| Day13.FlipOnly | day13.ts:67-72 | the copy keeps the pattern's shape and every cell but (x, y), flips that cell between 0 and 1, and flipping twice restores the pattern |
| Day13.FindExceptHorizontal | day13.ts:45-50 | a horizontal line wins whenever there is one, scoring 100 times its index |
| Day13.FindExceptVertical | day13.ts:45-53 | otherwise the answer is the vertical line of the transposed pattern, and a pattern without rows raises |
| Day13.FindExceptNew | day13.ts:45-53 | no answer is 0, and the excluded old answer is never found again, horizontal or vertical |
| Day13.Part1 | day13.ts:55-65 | part 1 succeeds exactly when every pattern has a line, and is then at least one per pattern |
| Day13.TotalAtLeast | day13.ts:57-63 | when every found line is positive, a sum that succeeds is at least one per pattern |
| Day13.TotalOk | day13.ts:57-63 | the sum succeeds exactly when every pattern's score is a found, non-zero line |
| Day13.Cells | day13.ts:80-81 | the cells listed from row y on all lie in the pattern |
| Day13.CellsCover | day13.ts:80-81 | every cell from row y on is listed |
| Day13.SmudgeFirst | day13.ts:80-89 | the smudge found is the first cell whose flip gives a new line, and no earlier flip gives one |
| Day13.SmudgeNone | day13.ts:80-90 | when no flip gives a new line the search reports none |
| Day13.RepairedIsNew | day13.ts:74-93 | the repaired line is positive and is never the old one |
| Day13.Part2 | day13.ts:74-93 | part 2 succeeds exactly when every pattern has a smudge whose flip gives a new line, and is then at least one per pattern |
| Day13.SumOk | day13.ts:76-91 | the running sum succeeds exactly when every term does, and with positive terms is at least their number |
| Day14.Slide | day14.ts:17-24 | the drop loop keeps the line's length |
| Day14.Step | day14.ts:16-25 | one step of the outer loops keeps the line's length |
| Day14.RollTo | day14.ts:14-27 | stepping the indices f .. k - 1 keeps the line's length |
| Day14.RollFront | day14.ts:14-43 | a tilt toward index 0 keeps the line's length |
| Day14.RollBack | day14.ts:46-75 | a tilt toward the last index keeps the line's length |
| Day14.SlideSwaps | day14.ts:17-24 | the drop loop only swaps a rock with a neighbouring empty cell: walls stay and the cells are a permutation of the old ones |
| Day14.RollToSwaps | day14.ts:14-27 | stepping a line keeps its walls and is a permutation of it |
| Day14.SlideSettles | day14.ts:17-24 | after a rock's drop loop, no rock from the floor up to where it started can roll further |
| Day14.RollToSettles | day14.ts:14-27 | after stepping indices f .. k - 1, no rock there has an empty cell before it |
| Day14.RollToSettled | day14.ts:14-27 | stepping a line that is already settled changes nothing |
| Day14.RollFrontTwice | day14.ts:14-43 | rolling a line toward the front twice is rolling it once |
| Day14.RollBackTwice | day14.ts:46-75 | rolling a line toward the end twice is rolling it once |
| Day14.RollBackFixed | day14.ts:46-75 | a line whose reversal is settled does not move when rolled toward the end |
| Day14.RollFrontSwaps | day14.ts:14-43 | rolling toward the front keeps the walls and the rocks |
| Day14.RollBackSwaps | day14.ts:46-75 | rolling toward the end keeps the walls and the rocks |
| Day14.ReverseMultiset | day14.ts:46-75 | reversing a line keeps its cells |
| Day14.Column | day14.ts:14-27 | column c holds g[r][c] for every row r |
| Day14.TiltRows | day14.ts:29-76 | rows from 1 on are each rolled on their own, and row 0 stays |
| Day14.Flip | day14.ts:13-60 | exchanging rows and columns gives t[c][r] = g[r][c] |
| Day14.FlipTwice | day14.ts:13-60 | exchanging rows and columns twice gives the platform back |
| Day14.Tilt | day14.ts:10-78 | a tilt keeps the platform's shape |
| Day14.TiltLines | day14.ts:10-78 | each line a tilt rolls is rolled on its own, and line 0 stays |
| Day14.TiltTwice | day14.ts:10-78 | tilting twice in one direction is tilting once |
| Day14.TiltKeeps | day14.ts:10-78 | a tilt only swaps round rocks with empty cells: every line keeps its walls and its rocks |
| Day14.EnrobeShape | day14.ts:88-95 | the enrobed platform is two larger each way, ringed with '#', and holds the original at offset (1, 1) |
| Day14.TiltRests | day14.ts:10-95 | on a ringed platform, after a tilt no rock has an empty cell next to it in the tilt's direction |
| Day14.RolledSettled | day14.ts:14-75 | a rolled line has no rock with an empty cell before it, past the floor |
| Day14.RestsOnRows | day14.ts:29-76 | after a west or east tilt of a ringed platform every rock is blocked |
| Day14.RestsOnColumns | day14.ts:13-60 | after a north or south tilt of a ringed platform every rock is blocked |
| Day14.SetCell | day14.ts:19-20 | writing one cell changes only that cell of its column |
| Day14.TiltNorth | day14.ts:13-28 | the in-place loops of the north tilt give the north tilt |
| Day14.NorthRow | day14.ts:15-26 | one pass of the column loop rolls the rocks of one row up, each in its own column |
| Day14.DropNorth | day14.ts:17-24 | the drop loop changes only its column, as one step of the rolled column |
| Day14.ColumnsMeet | day14.ts:13-28 | a platform whose columns are the rolled columns is the north tilt |
| Day14.LoadByRows | day14.ts:80-86 | the load depends only on how many rocks each row holds |
| Day14.TiltSidewaysLoad | day14.ts:29-86 | a west or east tilt leaves the load alone |
| Day14.LoadBottom | day14.ts:83 | rocks in the bottom row weigh nothing |
| Day14.LoadNonNegative | day14.ts:80-86 | no load is negative |
| Day14.Part1 | day14.ts:97-101 | part 1 fails only on a platform without rows; otherwise every rock of the ringed platform has come to rest against the north, and the answer is that platform's load, never negative |
| Day14.Cycle | day14.ts:120-123 | a spin cycle keeps the platform's shape |
| Day14.Projected | day14.ts:114 | the projected cache index lies in the loop, between the first sight of the state and now |
| Day14.IndexOf | day14.ts:111-114 | the index recorded for a state is its first position in the cache |
| Day14.IterateShift | day14.ts:108-124 | once state i repeats state s, every later state repeats the one i - s before it |
| Day14.IterateLaps | day14.ts:108-124 | and the one any whole number of periods before it |
| Day14.IteratePeriodic | day14.ts:114 | every state from s on equals the state at its place in the first period |
| Day14.FindLoopIsValue | day14.ts:106-125 | the loop answers with the measure of the state after a billion steps when some state repeats within them, and 0 otherwise |
| Day14.FindLoopRepeat | day14.ts:111-116 | a state found in the cache repeats an earlier one, and the loop answers with the measure of the state after a billion steps |
| Day14.FindLoopFresh | day14.ts:118-123 | a new state is cached and the loop goes on, the cache still holding distinct states in order |
| Day14.SpinLoopIsLoad | day14.ts:106-125 | the loop from an empty cache is the load after a billion spin cycles whenever a state repeats within them, and 0 otherwise |
| Day14.Part2 | day14.ts:103-126 | part 2 fails only on a platform without rows, and is the load of the ringed platform after a billion spin cycles whenever a state repeats within them, and 0 otherwise |
| Day15.Hash | day15.ts:12-21 | the loop computes the HASH value defined character by character, and the value fits a byte |
| Day15.HashAppend | day15.ts:12-21 | the HASH of a concatenation carries on from the HASH of its first part |
| Day15.Part1 | day15.ts:23-25 | the sum of the step hashes lies between 0 and 255 times the number of steps, and one step gives its own hash |
| Day15.HashOf | day15.ts:18 | every HASH value is below 256 |
| Day15.FindIndex | day15.ts:31-40 | the index found is the first slot holding the label, and -1 exactly when no slot holds it |
| Day15.ContentsAt | day15.ts:28 | in a box without repeated labels, each slot's focal length is what the box maps its label to |
| Day15.ContentsKeys | day15.ts:28 | the labels the box maps are exactly the labels in its slots |
| Day15.SameContents | day15.ts:28 | a box whose labels and focal lengths agree with a map reads as that map |
| Day15.AddShape | day15.ts:30-37 | adding puts a new label in a new last slot or changes its own slot in place, keeping every other slot and their order, and labels stay unique |
| Day15.AddContents | day15.ts:30-37 | after adding, the box maps the label to the new focal length and every other label as before |
| Day15.AddSlot | day15.ts:30-37 | every slot after adding agrees with the updated map |
| Day15.RemoveSlots | day15.ts:39-44 | removing splices out the label's slot and keeps the others in order, or does nothing when the label is absent |
| Day15.RemoveShape | day15.ts:39-44 | after removing, labels stay unique and only the removed label leaves |
| Day15.RemovedLabel | day15.ts:42 | the spliced box holds every label but the removed one |
| Day15.RemoveContents | day15.ts:39-44 | after removing, the box maps every other label as before and the removed label not at all |
| Day15.Apply | day15.ts:50-62 | a step succeeds exactly when its operation is '-' or '=', raises the bad-op error otherwise, and touches no box but box hash(lens) |
| Day15.Run | day15.ts:48-63 | the steps succeed exactly when every operation is '-' or '=', and then leave 256 boxes |
| Day15.ApplyTouchesOne | day15.ts:50-62 | a step succeeds exactly when its operation is '-' or '=', touches only box hash(lens), and keeps every box holding distinct labels that hash to it |
| Day15.RunWellFiled | day15.ts:47-63 | whatever the steps, every box holds distinct labels, each hashing to that box |
| Day15.PowerUpdate | day15.ts:65-73 | changing one box changes the total power by that box's change alone |
| Day15.BoxPowerScales | day15.ts:68-71 | a box's power is (box number + 1) times its power as box 0 |
| Day15.PowerEmpty | day15.ts:65-73 | empty boxes have no focusing power |
| Day15.Part2 | day15.ts:47-74 | part 2 succeeds exactly when every operation is '-' or '=', and is 0 with no steps |
| Day16.XlateUnit | day16.ts:11-16 | every step moves one cell along one axis, vertical directions along y, and opposite directions step oppositely |
| Day16.MirrorsInvolutions | day16.ts:18-30 | each mirror table undoes itself, turns a beam through a right angle, and the two mirrors send a beam in opposite directions |
| Day16.InBoundsInside | day16.ts:45-48 | on a board whose rows have row 0's length, `check` agrees with the bounds `get` enforces |
| Day16.GoReturns | day16.ts:50-55 | stepping forward and then in the opposite direction returns to the start |
| Day16.Turn | day16.ts:89-123 | the switch fails, with the invalid-cell message, exactly on a character other than '.', '|', '-', '/' and '\' |
| Day16.SplitterOutputs | day16.ts:89-120 | empty space lets a beam through; a splitter hit across sends the beam one way along it and splits off one the other way; one hit along it lets the beam through; only splitters split |
| Day16.Visit | day16.ts:82-125 | a seen beam is dropped unchanged; an unseen one is recorded with its cell energized and fails exactly off the board or on an unknown cell; each call appends at most one kept and one split-off beam |
| Day16.InUniverse | day16.ts:45-48 | the beam states are exactly the positions on the board in each direction |
| Day16.InCells | day16.ts:45-48 | the board's positions are exactly those `get` accepts |
| Day16.PositionsGrow | day16.ts:88 | more seen states energize at least as many cells |
| Day16.PositionsInCells | day16.ts:88 | the states on the board energize only board cells |
| Day16.RoundRecords | day16.ts:82-126 | after a round every beam of it has been seen and nothing else, new states are on the board, the energized cells are the positions of the seen states, and a round that saw nothing new produced no beams |
| Day16.Progress | day16.ts:79-127 | a round that saw a new state leaves fewer states unseen, so the loop ends |
| Day16.Spread | day16.ts:79-129 | the loop's answer is at least the cells already energized and at most the board's cells |
| Day16.ReachStep | day16.ts:82-125 | whatever a reachable state hands on is reachable |
| Day16.ClosedHoldsReach | day16.ts:79-127 | a set holding the start and everything its members hand on holds every state reachable from the start |
| Day16.VisitNext | day16.ts:82-125 | visiting a seen beam collects nothing; visiting an unseen one collects exactly the states it hands on: the beam one step on and the split-off beam, each only if it stays on the board |
| Day16.RoundNext | day16.ts:81-126 | a round collects exactly the states its beams unseen at the start hand on: nothing else, and all of those |
| Day16.ExploredStep | day16.ts:79-127 | a round keeps the loop explored: everything seen or pending stays reachable from the start, the start stays seen or pending, and what a seen state hands on is seen or pending |
| Day16.ExploredDone | day16.ts:79-129 | when the loop stops with nothing pending, the seen states are exactly those reachable from the start |
| Day16.SpreadReach | day16.ts:79-129 | from an explored state the loop answers with the number of cells covered by the states reachable from the start |
| Day16.RoundOk | day16.ts:82-126 | on a board whose rows have row 0's length and hold only known characters, a round over beams on the board never raises and collects only beams on the board |
| Day16.SpreadOk | day16.ts:79-127 | on such a board the loop never raises while its beams are on the board |
| Day16.SpreadFromStart | day16.ts:74-129 | the loop started from the start alone succeeds on such a board, and its answer counts the cells of the states reachable from the start |
| Day16.Energize | day16.ts:74-130 | a start off the board raises the range error; on a board whose rows have row 0's length and hold only known characters every start on it succeeds; a success is the number of cells covered by the beam states reachable from the start, between one and every cell |
| Day16.CellsCount | day16.ts:45-48 | a board whose rows have row 0's length has width times height cells |
| Day16.RowOfMembers | day16.ts:45-48 | row y of the box holds exactly the positions (x, y) with 0 <= x < w |
| Day16.BlockMembers | day16.ts:45-48 | the box holds exactly the positions inside w by h |
| Day16.RowOfCount | day16.ts:45-48 | a row of the box has w positions |
| Day16.BlockCount | day16.ts:45-48 | the box has w times h positions |
| Day16.Part1 | day16.ts:132-134 | part 1 succeeds exactly when the top-left start does, and energizes at most width times height cells |
| Day16.EdgeColumnsMembers | day16.ts:138-144 | the first loop tries exactly the top-row starts moving down and the bottom-row starts moving in the given direction |
| Day16.EdgeRowsMembers | day16.ts:145-151 | the second loop tries exactly the left-column starts moving right and the right-column starts moving left |
| Day16.Starts | day16.ts:136-151 | part 2 tries two starts per column and two per row |
| Day16.EdgeLength | day16.ts:138-151 | each loop tries two starts per remaining column or row |
| Day16.ColumnsLength | day16.ts:138-144 | the first loop tries two starts per column |
| Day16.RowsLength | day16.ts:145-151 | the second loop tries two starts per row |
| Day16.Best | day16.ts:137-153 | the maximum succeeds exactly when every start's energize succeeds |
| Day16.BestIsMax | day16.ts:137-153 | the maximum is the energy of some start and no start beats it |
| Day16.BestFirstError | day16.ts:137-153 | a failing maximum fails with the first failing start's error |
| Day16.Part2 | day16.ts:136-154 | as written: a board without rows raises, and otherwise the answer is the largest energy over the starts with the bottom row moving down |
| Day16.Part2Inward | day16.ts:136-154 | corrected: the same maximum over the starts with the bottom row moving up |
| Day16.StartsInward | day16.ts:136-154 | with the bottom row moving up, part 2 tries exactly the beams that enter the board from an edge |
| Day16.StartsAsWritten | day16.ts:142 | as written, a board of two or more rows has a start that does not enter it |
| Day16.Lone | day16.ts:79-130 | a beam whose first round energizes only its cell and leaves nothing energizes one cell |
| Day16.VisitLeaves | day16.ts:82-125 | an unseen beam sent off the board, with any split, is recorded and produces no beam |
| Day16.VisitMoves | day16.ts:82-125 | an unseen beam that stays on the board without a split is recorded and kept, one step on |
| Day16.LeavesAtOnce | day16.ts:74-130 | a start sent straight off the board energizes one cell |
| Day16.TallLone | day16.ts:74-130 | on a one-column board of '-' above '.', every start but the bottom one moving up energizes one cell |
| Day16.TallTop | day16.ts:104-114 | on that board a beam at the splitter energizes one cell in any direction |
| Day16.TallAlong | day16.ts:104-114 | a beam moving along the splitter passes through and leaves |
| Day16.TallSplit | day16.ts:104-114 | a beam moving across the splitter splits into two halves that both leave |
| Day16.MovesOnce | day16.ts:79-130 | a start that moves to a second position which then leaves energizes two cells |
| Day16.TallUp | day16.ts:74-130 | on that board the beam entering from the bottom moving up energizes both cells |
| Day16.TallStarts | day16.ts:136-151 | the starts part 2 tries on that board, as written and corrected |
| Day16.BottomStartsCounterexample | day16.ts:142 | on that board part 2 as written answers 1, while the corrected part 2 answers 2 |
| Day16.TallAsWritten | day16.ts:136-154 | on that board part 2 as written answers 1 |
| Day16.TallInward | day16.ts:136-154 | on that board the corrected part 2 answers 2 |
| Day18.CardinalUnit | day18.ts:9-14 | exactly the four letters U, R, D, L have a step, and each step is one cell along one axis |
| Day18.Corners | day18.ts:26-34 | the walk gives one corner per leg plus the origin, and fails, with the destructuring error, exactly when some leg walked has no direction |
| Day18.TrapezoidsCross | day18.ts:31 | the source's shoelace accumulation differs from the textbook cross-product sum only by the telescoping x_0 y_0 - x_n y_n |
| Day18.Expand | day18.ts:31 | one shoelace term expands into a cross product plus the telescoping terms |
| Day18.Area | day18.ts:18-39 | `area` succeeds exactly when each of the first n - 1 legs has a direction |
| Day18.AreaLoop | day18.ts:18-39 | the loop of `area`, one leg at a time, computes the same value as the walk over the corners |
| Day18.NoCornersAfter | day18.ts:26-34 | once a leg has no direction, every longer walk fails |
| Day18.HexValue | day18.ts:47 | k hex digits read a value below 16^k |
| Day18.HexChar | day18.ts:47 | the digit written for a value below 16 reads back as that value |
| Day18.HexString | day18.ts:47 | a value is written as exactly k hex digits |
| Day18.HexRoundTrip | day18.ts:47 | reading back k hex digits recovers any value below 16^k |
| Day18.Encode | day18.ts:46-49 | the colour written for a leg is one part 2 can read |
| Day18.DecodeEncode | day18.ts:16-49 | part 2's decoding of an encoded leg gives back its direction and length |
| Day18.Part1 | day18.ts:41-43 | part 1 succeeds exactly when each of the first n - 1 legs has a direction, and is then the textbook shoelace area of the closed loop plus one plus half the trench, the closing leg counted as x + y |
| Day18.Part2 | day18.ts:45-50 | part 2 succeeds exactly when the direction digit of each of the first n - 1 colours names a direction |
| Day18.Part2Encoded | day18.ts:45-50 | on colours written from a plan, part 2 measures that plan |
| Day18.AreaIsShoelace | day18.ts:18-39 | on a plan that walks, `area` is the textbook shoelace area of the closed loop plus one plus half the trench, with the closing leg counted as x + y |
| Day18.AreaFixed | day18.ts:18-39 | the corrected area succeeds exactly when `area` does |
| Day18.AreaFixedAgrees | day18.ts:35-38 | the corrected area equals `area` on a clockwise loop whose last corner before the origin has no negative coordinate |
| Day18.CornersStep | day18.ts:27-30 | each leg adds the corner one leg length further along its direction |
| Day18.RectFixed | day18.ts:18-39 | every way to dig an a by b rectangle, from any corner and in either orientation, gives the (a + 1)(b + 1) cells it covers |
| Day18.RectCount | day18.ts:37-38 | Pick's formula on an a by b rectangle counts (a + 1)(b + 1) cells |
| Day18.UnitCross | day18.ts:9-14 | two perpendicular unit steps scaled by a and b span an a by b rectangle, each along one axis |
| Day18.RectTrapezoids | day18.ts:31-36 | the source's sum over an axis-aligned rectangle is twice its signed area |
| Day18.EndsDownCounterexample | day18.ts:35 | a clockwise 2 by 2 square whose last leg runs down comes out as 7 cells as written and as 9 corrected |
| Day18.CounterClockwiseCounterexample | day18.ts:37-38 | a counter-clockwise 2 by 2 square comes out as 1 cell as written and as 9 corrected |
| Day19.Scan | day19.ts:37-55 | one pass over the rules leaves the workflow name unchanged or sets it to some rule's destination, and unchanged when no rule fires |
| Day19.FirstFiring | day19.ts:38-55 | the index found is the first rule that fires |
| Day19.ScanFirstFiring | day19.ts:37-55 | in a well-formed workflow the pass sends the part to the destination of the first rule that fires |
| Day19.Verdict | day19.ts:34-56 | routing ends only at A or R, a terminal start is its own verdict, and a missing workflow raises the not-iterable error |
| Day19.VerdictFuel | day19.ts:35-56 | more steps allowed never change a verdict or error already reached |
| Day19.Part1 | day19.ts:31-62 | a total is reported only when every part's routing ends, and a missing `in` workflow raises |
| Day19.Part1Append | day19.ts:33-60 | the part 1 total over a + b is the total over a plus the total over b |
| Day19.Part1Single | day19.ts:57-59 | an accepted part adds the sum of its ratings and a rejected one nothing |
| Day19.WithBounds | day19.ts:95-104 | replacing one category's range leaves the other three alone |
| Day19.CutBy | day19.ts:91-111 | a comparison clones the state for its destination and whittles the state down, only in the rule's category, and the two ranges' sizes add up to the old one; a jump renames the state and pushes it by reference |
| Day19.CutParts | day19.ts:91-107 | of the parts in the box, the clone keeps exactly those the comparison holds for and the remainder the others |
| Day19.CutInside | day19.ts:91-107 | with the cut kept inside, both boxes lie inside the box that was cut |
| Day19.Process | day19.ts:90-112 | one push per rule |
| Day19.Resolve | day19.ts:90-112 | a clone is queued as it was taken, a pushed-by-reference state as the pass left it |
| Day19.Expand | day19.ts:90 | expanding fails, with the not-iterable error, exactly when the state's workflow does not exist, and queues one state per rule |
| Day19.Run | day19.ts:79-113 | an empty queue reports the total so far, and the only error is the missing-workflow one |
| Day19.RunOffset | day19.ts:77-113 | the running total only offsets the result |
| Day19.RunFuel | day19.ts:79-113 | more steps allowed never change a total or error already reached |
| Day19.Part2 | day19.ts:64-116 | part 2 as written raises when there is no `in` workflow |
| Day19.Part2Fixed | day19.ts:64-116 | corrected part 2 raises when there is no `in` workflow |
| Day19.OutcomeCons | day19.ts:90-112 | a comparison at the head of the rules queues its clone first, and the rest of the pass works on the whittled state |
| Day19.OutcomeJump | day19.ts:108-110 | a pass that is a single jump queues the whole box, renamed |
| Day19.OutcomeInside | day19.ts:90-112 | with kept-inside cuts every box a well-formed pass queues lies inside the box it started from |
| Day19.PartitionCovers | day19.ts:90-112 | with kept-inside cuts every part of the box lands in a queued box whose workflow is where part 1 would send it |
| Day19.PartitionDisjoint | day19.ts:90-112 | with kept-inside cuts no part lies in two queued boxes |
| Day19.VolumeFactor | day19.ts:81-84 | a box's volume is one category's size times the product of the other three |
| Day19.OthersKept | day19.ts:95-104 | replacing one range leaves the product of the other three sizes alone |
| Day19.VolumeCut | day19.ts:91-107 | cutting one range into two whose sizes add up cuts the volume the same way |
| Day19.VolumeConserved | day19.ts:90-112 | a well-formed pass conserves volume: the queued boxes add up to the box it started from |
| Day19.SizeCounts | day19.ts:82 | a clamped size is never negative, is zero for an empty range, and grows by one with the maximum |
| Day19.RedundantPart1 | day19.ts:31-62 | with workflows `in{x<100:A,x<50:A,R}` part 1 accepts exactly the parts with x < 100 |
| Day19.RedundantOutcome | day19.ts:90-112 | on those workflows the pass as written queues a remainder whose minimum has dropped back to 50 |
| Day19.RedundantOutcomeFixed | day19.ts:90-112 | with kept-inside cuts the second clone is empty and the remainder keeps x >= 100 |
| Day19.RedundantCounterexample | day19.ts:95-104 | as written the part (60, 1, 1, 1) lies in two queued boxes, and part 2 counts 49 * 4000^3 combinations instead of 99 * 4000^3 |
| Day19.RedundantFixedCount | day19.ts:64-116 | the corrected part 2 counts 99 * 4000^3 on the same workflows |
| Day20.Factory | day20.ts:24-35 | a new module has the operator's kind and the given outputs, is off, has no inputs and an empty memory |
| Day20.RememberAppend | day20.ts:49-50 | remembering two lists of senders one after the other is remembering their concatenation |
| Day20.GrownTrans | day20.ts:43-54 | two rounds of wiring compose into one that adds the senders of both, in order |
| Day20.GrownTransKeys | day20.ts:46-48 | after two rounds of wiring a name has a module exactly when it had one or some round wired to it |
| Day20.GrownTransLike | day20.ts:43-54 | wiring never changes an existing module's kind, outputs or state |
| Day20.GrownTransNew | day20.ts:47-48 | every module wiring creates is a terminal with no outputs that has not seen a low pulse |
| Day20.GrownTransInputs | day20.ts:52 | after two rounds of wiring each module's inputs are its old inputs followed by the senders both rounds added |
| Day20.GrownTransMemory | day20.ts:49-50 | after two rounds of wiring each conjunction remembers a low pulse from every sender both rounds added |
| Day20.GrownSame | day20.ts:43-54 | wirings that add the same senders everywhere have the same effect |
| Day20.GrownNone | day20.ts:43-54 | wiring that adds no sender changes nothing |
| Day20.AttachGrows | day20.ts:46-52 | wiring one output creates a terminal if it is missing, marks the sender low in a conjunction and appends the sender to its inputs |
| Day20.WireGrows | day20.ts:45-53 | wiring a declaration's outputs adds its name once per occurrence of each output |
| Day20.ConnectGrows | day20.ts:43-54 | the second loop of `load` adds, to each name, every declaration that lists it, in input order |
| Day20.SendersListed | day20.ts:43-54 | a name has senders exactly when some declaration lists it as an output |
| Day20.OccurrencesListed | day20.ts:45 | a declaration adds itself to a name exactly when the name is among its outputs, and adds nothing else |
| Day20.DeclareDefines | day20.ts:37-42 | the first loop of `load` defines exactly the declared names, the last declaration of a name wins, and each module has its declaration's outputs |
| Day20.LoadModules | day20.ts:37-55 | the two loops, run from an empty table, give a table in which every output names a module, each module's inputs are its senders in input order, each conjunction remembers a low pulse from exactly its senders, an undeclared name is a terminal, and the last declaration of a name fixes its kind and outputs |
| Day20.Load | day20.ts:37-55 | `load` returns such a table |
| Day20.RememberedLow | day20.ts:49-50 | remembering senders in an empty memory holds exactly those senders, each as low |
| Day20.RememberLow | day20.ts:49-50 | remembering senders keeps the old entries and adds the senders, each as low |
| Day20.Send | day20.ts:145-153 | one event per output, from the module, in output order, all with the same pulse |
| Day20.Receive | day20.ts:160-204 | a module keeps its kind, outputs and inputs, sends nothing or one event to each output in order, and only flip-flops and terminals change on/off state |
| Day20.BroadcasterForwards | day20.ts:160-162 | the broadcaster is unchanged and forwards the pulse it receives |
| Day20.FlipFlopToggles | day20.ts:170-175 | a flip-flop ignores a high pulse; a low pulse flips it and it sends its new state |
| Day20.ConjunctionRemembers | day20.ts:183-190 | a conjunction stores the sender's pulse, keeps the rest, and sends low exactly when every remembered pulse is high |
| Day20.TerminalLatches | day20.ts:199-203 | a terminal sends nothing and is marked once it has seen a low pulse |
| Day20.Start | day20.ts:57-63 | a press appends one low pulse from the button and changes nothing else |
| Day20.Tick | day20.ts:69-87 | an empty queue reports false, an event to no module fails the assertion, otherwise the oldest event is removed and counted as high or low and only its module changes |
| Day20.TickKeepsLatch | day20.ts:199-203 | a terminal's low mark survives a tick |
| Day20.Drain | day20.ts:212-214 | draining ends with an empty queue, and its only error is the failed assertion |
| Day20.DrainLoop | day20.ts:212-214 | the loop computes the drain, and keeps the count equal to high plus low |
| Day20.LowsAppend | day20.ts:79-83 | the low pulses of two event lists add up |
| Day20.DrainCounts | day20.ts:78-83 | draining counts at least every low pulse that was queued, and keeps the count equal to high plus low |
| Day20.PressesCount | day20.ts:210-215 | n presses count at least n low pulses |
| Day20.Part1 | day20.ts:206-218 | part 1 is the product of the high and low counts after 1000 presses, with at least 1000 lows |
| Day22.Ascending | day22.ts:32-53 | the pair sorted with `asc` is the two numbers, in non-decreasing order |
| Day22.MakeBlock | day22.ts:48-54 | a block keeps its end points and its bounds on each axis are those end points' coordinates, low first |
| Day22.MakeBlockSymmetric | day22.ts:48-54 | swapping the end points leaves every bound unchanged |
| Day22.Lower | day22.ts:87-92 | lowering moves both end points and both z bounds down by one and changes nothing else |
| Day22.ColumnCells | day22.ts:63-65 | the innermost loop yields exactly the cells of the column between the z bounds |
| Day22.SlabCells | day22.ts:62-66 | the middle loop yields exactly the cells of the slab |
| Day22.CuboidMembers | day22.ts:61-67 | the iterator yields exactly the cells within all three bounds |
| Day22.CuboidDistinct | day22.ts:61-67 | the iterator yields no cell twice |
| Day22.CuboidLength | day22.ts:61-67 | the iterator yields as many cells as the product of the three spans |
| Day22.CellsOfBlock | day22.ts:56-68 | a block's cells are exactly the points within its bounds, each once |
| Day22.Intersect | day22.ts:70-79 | the result lists only placed blocks, and is empty exactly when no cell of the block has a placed cell under it |
| Day22.Add | day22.ts:81-85 | adding marks every cell of the block as held by it and keeps every other cell as it was |
| Day22.AddValues | day22.ts:81-85 | adding a block keeps every held cell naming a placed block |
| Day22.Dedup | day22.ts:127 | the set of blocks hit holds the same blocks, without repetitions |
| Day22.Drop | day22.ts:121-124 | the block moves straight down, stops only above z = 2 when something is under it, and never goes below z = 2 when it started there |
| Day22.AddSupport | day22.ts:127-130 | each block under the new one lists it as supported once more, and no other block changes |
| Day22.Place | day22.ts:113-135 | placing a block changes only that block, moves it straight down, and leaves it on the ground or resting on something |
| Day22.PlaceShaped | day22.ts:113-135 | after placing block i, the blocks after i are still unmoved and every held cell names a placed block |
| Day22.PlaceMirrored | day22.ts:127-130 | placing a block keeps rests-on and supports mirror images of each other, without repetitions |
| Day22.PlaceUnder | day22.ts:127 | the blocks a placed block rests on are distinct and placed before it |
| Day22.PlaceFrom | day22.ts:113-136 | placing the remaining blocks keeps the number of blocks |
| Day22.PlaceFromMirrors | day22.ts:113-136 | placing the remaining blocks keeps every block a downward move of its original and the relations mirrored |
| Day22.PlaceFromGrounds | day22.ts:113-136 | placing the remaining blocks leaves every block on the ground or resting on something |
| Day22.Sorted | day22.ts:104-110 | sorting keeps one block per input line |
| Day22.Settle | day22.ts:103-138 | settling gives one block, one rests-on list and one supports list per input line |
| Day22.SettledMirrored | day22.ts:103-138 | after settling each block is its sorted original moved straight down, and rests-on and supports mirror each other without repetitions, each block resting only on earlier ones |
| Day22.SettledGrounded | day22.ts:114-133 | with every input z at least 1, after settling every block is on the ground or rests on something |
| Day22.RemovableIff | day22.ts:143-145 | a block passes the filter of part 1 exactly when no block rests on it alone |
| Day22.CountRemovable | day22.ts:143-145 | the count of blocks passing the filter is at most the number of blocks looked at |
| Day22.Part1 | day22.ts:140-146 | part 1 counts at most every block |
| Day22.Part1AllFree | day22.ts:140-146 | when no block rests on exactly one block, every block is counted |
| Day22.CountAll | day22.ts:143-145 | when no block rests on exactly one block, every block looked at is counted |
| Day22.Fall | day22.ts:158-164 | the falling set only grows, and stays within the blocks |
| Day22.FallCloses | day22.ts:158-164 | when the loop ends, the falling set is closed: everything other than the first block rests only on falling blocks, and every block all of whose supports fall, falls |
| Day22.FallStep | day22.ts:158-164 | one turn of the loop keeps every pending block a valid block |
| Day22.FallingDone | day22.ts:158-164 | a loop invariant with nothing pending is the closed property |
| Day22.FallStepIn | day22.ts:160-163 | a block whose supports all fall joins the falling set and queues what it supports, keeping the invariant |
| Day22.FallStepOut | day22.ts:160 | a block with a support that stays put is dropped from the queue, keeping the invariant |
| Day22.FallFrom | day22.ts:152-164 | the falling set of a block contains that block |
| Day22.FallFromCloses | day22.ts:152-164 | the falling set of a block is closed |
| Day22.Part2From | day22.ts:151-166 | the sum over the remaining blocks is at most their number times the number of blocks |
| Day22.FallingBound | day22.ts:152-165 | no more blocks fall than there are |
| Day22.Part2 | day22.ts:148-169 | part 2 is at most the square of the number of blocks |
| Day22.Part2Alone | day22.ts:148-169 | when no block supports another, part 2 is 0 |
| Day22.Part2Closed | day22.ts:148-169 | when part 2 finishes, the set it counted for every block is closed |
| Day22.Solve | day22.ts:171-175 | both parts, on the settled blocks, within their bounds |

## Left out

- Input and output: reading the puzzle files, the grammars that parse them, `day.ts` and the command-line driver. Each day takes the records its parser would produce.
- lib/counter.ts, which day 7 imports for `addAll` and `values()`, is not part of this model. Day 7 reads `addAll` as one `add` of counter.ts per card. It reads `values()` as the counts in entry order. The counts are sorted before use, so their order does not matter.
- Counting: keys are values with equality rather than the strings `String(vals)` makes, and entries stay in insertion order. `Object.entries` lists integer-like keys first, in numeric order, and the rest in insertion order.
- Counting.Max: a tie goes to the entry inserted first. The source walks `Object.entries`, so after `add('b')` then `add('1')` it returns `['1', 1]` where the model returns the entry for `b`. No day modelled here calls `max`, and day 7 sorts the counts it reads.
- Error messages: a thrown error becomes `Err` with the error's class and a short text. The coordinates the source puts into its `RangeError` texts, and the exact V8 wording of a `TypeError`, are not modelled.
- Grid.Width, Grid.Map, Grid.Wrap, Grid.Equals: require at least one row. With no rows the source raises a `TypeError` when it reads row 0's length, and that raise is not modelled.
- Grid.Columns, Grid.Transpose, Grid.RotateClockwise, Grid.RotateCounterClockwise: require a uniform rect with at least one row. The source takes row 0's length as the width, so on a ragged rect it fills the missing cells with `undefined` and drops the cells beyond that width, and with no rows it raises a `TypeError`. Neither is modelled.
- Grid.ReduceSeeded: requires a non-empty row 0. Without one the source seeds the fold with `undefined` from `this.#vals[0][0]` and still skips the first cell it visits, which then lies in a later row; a seed of `undefined` has no counterpart here.
- Day12: the memo table of `count` is a map keyed by the (springs, groups) pair, where the source joins them into one string. It is proved never to change an answer.
- Loops with no bound in the source take a `fuel` argument. These are day 5's chain of maps, day 8's walks, day 10's pipe chase, day 19's routing and work queue, day 20's event queue and day 22's falling loop. Running out of fuel gives `None` or a dedicated error, and a lemma shows that more fuel keeps any result already reached. Inputs on which the source never ends have no modelled answer.
- Day5.Pairs: a trailing seed without a partner is dropped, as `chunks(2)` of a full pair list would do. The grammar always gives pairs.
- Day5.Part2: the source sorts the intervals before taking the lowest start. The model takes the minimum directly, because sorting cannot change it.
- Day8: part 2 starts from the nodes in the order `Object.keys` lists them. That order is given with the network.
- Day9: a NaN from an empty history becomes `None`.
- Day10, Day16: a rect's width is row 0's length, as in lib/rect.ts, and shorter rows reach the range error. Both days import rect.ts instead, whose `width(y = 0)` at rect.ts:17 is a method. As written, `x < state.width` (day10.ts:123, 151) and `this.x < this.r.width` (day16.ts:47) compare a number with a function, which is always false. So day 10's part 2 as written always counts 0 enclosed tiles. Day 16's `energize` drops every beam after its first cell, so part 1 returns 1. Day 16's part 2 skips its first loop (`x < inp.width`). In its second loop, `inp.width - 1` at day16.ts:149 is NaN, which `#check` (rect.ts:8-15) does not reject. So `get` returns `undefined` and day16.ts:121-122 throws `Invalid cell: undefined` on any board with a row. The model reads the width as row 0's length, as the lib/rect.ts getter gives it.
- Day13: rows hold the 0s and 1s the parser makes of `.` and `#`, and a row reads as the binary number they spell. An empty row reads as NaN, which is `None` here and equals nothing. A row holding any other value is not modelled; the source would read `[1, 10]` as the number 6.
- Day14.Part1, Day14.Part2: require every row to be as long as row 0. On a ragged platform the source's tilts read `undefined` cells, which is not modelled. The tilt loops are proved once for all four directions. `structuredClone` and the string keys of the seen-state table become value equality on platforms.
- Day16.Spread: its own contract only bounds the answer between the cells already energized and every cell. That the answer counts the cells of the states reachable from the start is stated by Day16.SpreadReach, for the explored states the loop passes through.
- Day18.Part2: requires every colour to start with five hex digits followed by the direction digit, as the grammar ensures. `parseInt` of anything else is not modelled.
- Day19.Part2, Day19.Part2Fixed: each queued state is a value of its own. For a rule with no comparison the source pushes the very range object it holds, and a later clone-and-narrow step on one alias also narrows the other. With `in{y,y}` and `y{x<100:A,R}` the source counts 99 * 4000^3 and the model 2 * 99 * 4000^3. Workflows that send one state to one place per rule are not affected.
- Day19.Part2Fixed: the whole count is not proved equal to the number of parts part 1 accepts. What is proved is narrower. Each pass splits its box into queued boxes that partition it by part 1's routing (Day19.PartitionCovers, Day19.PartitionDisjoint), and each pass conserves volume. The worked example is also proved.
- Day20: `part2`, `controllers` and `toDot` are left out. They write a Graphviz file and rely on the shape of one specific puzzle input. The failed `assert(mod)` is `Err("AssertionError")`.
- Day22: cells and falling blocks are keyed by value and by position instead of by their `toString` strings. Two identical input blocks are therefore two blocks here. The sort comparator `a.lowZ - b.lowZ` is a stable sort on "lowZ at most".
- Day22.SettledGrounded: requires every input z to be at least 1, as the puzzle promises. A block given at z <= 0 is not proved to rest on anything.
- Day15.Code: a character's code is its Unicode scalar value. `charCodeAt` gives UTF-16 code units, which differ above U+FFFF. The puzzle input is ASCII.
- Utils.Lcm: models `lcm` on numbers, the only way the modelled days call it. On bigints `0n / 0n` raises a `RangeError` instead of giving NaN. On numbers, a NaN followed by a non-zero argument makes `gcd(NaN, v)` loop for ever, since `mod` of NaN is NaN and never 0. The model keeps `None` for that case too. Either way the source gives no number.
- Utils.Mod, Utils.DivModBig: a zero divisor gives `Err("Division by zero")`. That is the source's error for the number 0 only. For the bigint `0n` the test `y === 0` at utils.ts:162 is false, so `mod` raises a `RangeError` from `%`, and `divmod` raises one from `x / y` before it calls `mod`. The model does not tell these errors apart.
- Floating point: day 18's area is a `real`. The division by 2 is exact there, and no rounding is modelled.

## Findings

| source | as written | input that shows it | evidently intended | confidence | as-written member | corrected member |
|---|---|---|---|---|---|---|
| utils.ts:185-189 | the bigint quotient is floored only when it is negative and the remainder positive, so a truncated quotient of 0, or a divisor whose sign the remainder takes, is left unfloored and `q * y + r` no longer equals `x` | `divmod(-3n, 4n)` gives `[0n, 1n]` (0 * 4 + 1 != -3); `divmod(5n, -4n)` gives `[-1n, -3n]` ((-1) * (-4) - 3 != 5) | the floored quotient with the same remainder, as the number branch computes: `[-1n, 1n]` and `[-2n, -3n]` | not executed | Utils.DivModBig, Utils.DivModBigCounterexamples | Utils.DivModBigFloor, Utils.DivModBigFloorIsNumber |
| day5.ts:64 | when an interval ends inside a range, the mapped piece gets length `endSrc - endInp`, the part of the range beyond the interval | [0, 5) against the range of 10 numbers from 3 to 100 gives pieces of 3 and 8 numbers, 11 in all | length `endInp - r.src`: pieces of 3 and 2 numbers, as many as went in | not executed | Day5.SplitAsWrittenGrows | Day5.Split, Day5.SplitKeepsLength |
| day5.ts:59 | the test `endInp >= r.src` also fires when the interval stops just before the range | [0, 3) against the range from 3 yields an extra piece at the range's destination 100, which no seed reaches | `endInp > r.src`: the interval passes through unmapped | not executed | Day5.SplitAsWrittenTouching | Day5.Split, Day5.SplitPiecesNonEmpty |
| day16.ts:142 | the beam started on the bottom row travels `Dir.Down`, off the board, instead of up into it | on the 1 by 2 layout `-` over `.`, every start tried energizes one cell, so part 2 is 1 (reading the width as lib/rect.ts's getter gives it; with rect.ts's method `width` part 2 throws first) | `Dir.Up` from the bottom row: that beam reaches the splitter and energizes 2 cells | not executed | Day16.Part2, Day16.BottomStartsCounterexample | Day16.Part2Inward, Day16.StartsInward |
| day18.ts:35 | the closing leg's length is added to the perimeter as `x + y`, which is right only when the closing leg runs left or up, from a corner with no negative coordinate, and falls short when it runs right or down | L 2, U 2, R 2, D 2 (a 3 by 3 lagoon whose closing leg runs down from (0, -2)) gives 7 | the absolute values `abs(x) + abs(y)`: 9 | not executed | Day18.Area, Day18.EndsDownCounterexample | Day18.AreaFixed, Day18.RectFixed |
| day18.ts:37-38 | the shoelace sum is halved without taking its absolute value, so a counter-clockwise loop has negative area | D 2, R 2, U 2, L 2 (a 3 by 3 lagoon) gives 1 | `abs(tot) / 2`: 9 | not executed | Day18.Area, Day18.CounterClockwiseCounterexample | Day18.AreaFixed, Day18.RectFixed |
| day19.ts:82, 95-96, 103-104 | a comparison sets the clone's bound to `n - 1` or `n + 1` and the remainder's to `n` without keeping them inside the current range, and a box's count `max - min + 1` is not clamped at zero | with `in{x<100:A,x<50:A,R}` the remainder's minimum falls back from 100 to 50, so the part (60, 1, 1, 1) lies in a box queued for A and in the one queued for R; the empty box x in [100, 49] counts -50 * 4000^3, and part 2 gives 49 * 4000^3 | cuts kept inside the current bounds and empty boxes counted as 0: the queued boxes partition the original, and part 2 gives 99 * 4000^3, the parts part 1 accepts | not executed | Day19.Part2, Day19.RedundantCounterexample | Day19.Part2Fixed, Day19.PartitionCovers, Day19.PartitionDisjoint, Day19.RedundantFixedCount |
