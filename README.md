# Game of Life engine — a Dafny model

This project models the core of a browser Game of Life (`src/lib/game.js`)
and two small helpers it ships with (`src/lib/clamp.js`, `src/lib/range.js`).

The engine stores a finite, non-wrapping board as one arbitrary-precision
integer. Cell (x, y) is bit `y * cols + x`. Outside the engine a game travels
as the text `"{cols}x{rows}/{board in lower-case hexadecimal}"`, for example
`"3x3/1e2"` for the glider `. x . / . . x / x x x`. The model follows the
engine's modules:

- `Bits` (bits.dfy). The board is a `nat`, and `Bit(b, i)` reads bit `i`.
  AND, OR, XOR, AND-NOT and the two shifts are defined and characterised bit
  by bit. Two boards with the same bits are equal.
- `Numerals` (numerals.dfy). `Number.prototype.toString(base)` and the digit
  reading behind `parseInt` and `BigInt("0x…")`/`BigInt("0b…")`.
- `Codec` (codec.dfy). The `Game` value, `serialize`, and `unserialize`.
  `unserialize` is modelled with the pattern's real search: the leftmost
  match, greedy digit runs, and the `i` flag. Every text that has no match
  decodes to one dead cell.
- `Cells` (cells.dfy). `get` and `toggle`. A negative index is included,
  since `1n << -k` is zero.
- `Generation` (generation.dfy). `next`.
  - The edge masks are built as binary strings, as the engine builds them.
  - The four shifts and the eight neighbour boards follow.
  - The counter loop is a method, `Generation.NextBoard`, whose loop
    invariant is that the four counters hold "at least one / two / three /
    four" of the boards seen so far.
  - The final bit expression is proved equal to a cell-by-cell statement of
    the rule (`NextGen`).
- `Enumeration` (enumeration.dfy). `createIterator`, as a loop that collects
  the records it would yield.
- `Ascii` (ascii.dfy). `fromString` and `toString`. Both are proved against a
  reference layout of rows of `cols` cells, and their round trips are proved.
- `Clamping` (clamp.dfy) and `Ranges` (range.dfy). `clamp` and `range`.

One behaviour of `next` is easy to miss. The shift `n` (`board >> cols`)
moves the bits just below the last row onto it. On a board whose integer has
bits beyond its `cols * rows` cells, those bits count as an extra neighbour
of the last row's cells. `NextGen` states this exactly, with `Overhang`. On
boards without such bits (`Canonical`), `Generation.StepRule` proves the rule
with every off-board cell dead. `Generation.PhantomNeighbour` shows the
difference on "3x1/15". `fromString` never produces such a board, and `toggle` and
`next` never add such bits, but `unserialize` accepts them.

## Model

| member | source | states |
|---|---|---|
| `Numerals.ToNumeral` | src/lib/game.js:61 | `toString(base)` writes at least one character, each a hexadecimal digit |
| `Numerals.NumeralDigits` | src/lib/game.js:61 | each digit is lower-case and below the base; there is no leading zero unless the number is 0 |
| `Numerals.NumeralRoundTrip` | src/lib/game.js:75-76 | reading back what `toString(base)` wrote gives the number, for bases 2 to 16 |
| `Codec.Run` | src/lib/game.js:73 | a greedy digit run never reaches past the end of the text |
| `Codec.RunIsMaximal` | src/lib/game.js:73 | the run is made of digits of its class and is followed by the end or by a character outside the class |
| `Codec.MatchAt` | src/lib/game.js:73 | a match has three non-empty groups: decimal columns, decimal rows, hexadecimal board |
| `Codec.Search` | src/lib/game.js:73 | the leftmost match, if there is one, has the same three well-formed groups |
| `Codec.MatchWellFormed` | src/lib/game.js:73 | the text of a well-formed game matches at its start, and the groups are exactly its three fields |
| `Codec.SerializeRoundTrip` | src/lib/game.js:60-78 | `unserialize(serialize(g)) == g` for every size and every board, taken as exact integers |
| `Numerals.WrittenRoundTrip` | src/lib/game.js:61 | a numeral without a leading zero, in lower-case digits below the base, is what `toString(base)` writes for the number it denotes |
| `Codec.TextRoundTrip` | src/lib/game.js:60-78 | a text "{cols}x{rows}/{board}" whose fields are written without leading zeros, the board in lower-case hexadecimal, comes back unchanged from `serialize(unserialize(text))` |
| `Codec.SerializeExample` | src/lib/game.js:52-67 | the glider board 0b111_100_010 of a 3 by 3 game is stored as "3x3/1e2", and that text decodes back to it |
| `Codec.BadBoardFallsBack` | src/lib/game.test.js:68-73 | "3x3/g" decodes to the fallback game of one dead cell instead of failing |
| `Codec.MissingRowsFallsBack` | src/lib/game.test.js:68-73 | "3x/0" decodes to the fallback game |
| `Codec.BareNumberFallsBack` | src/lib/game.test.js:68-73 | "3" decodes to the fallback game |
| `Cells.OneAtBit` | src/lib/game.js:167 | `1n << BigInt(index)` has exactly bit `index` set, and no bit at all for a negative index |
| `Cells.GetIsBit` | src/lib/game.js:164-168 | `get` is true exactly when the index `y * cols + x` is non-negative and that bit of the decoded board is set |
| `Cells.GetOffBoard` | src/lib/game.test.js:75-82 | on a board without bits beyond its cells, every coordinate pair whose index is outside the board reads as dead |
| `Cells.ToggleBit` | src/lib/game.js:180-186 | the new board differs from the old one in the selected bit when that bit is on the board, and in no other bit |
| `Cells.GetAfterToggle` | src/lib/game.test.js:86-97 | through the text: after `toggle`, `get` changes at the toggled on-board cell and nowhere else |
| `Cells.ToggleTwice` | src/lib/game.js:180-186 | toggling the same cell twice gives back the stored text |
| `Cells.ToggleOffBoard` | src/lib/game.test.js:106-113 | coordinates whose index is off the board leave the stored text unchanged |
| `Cells.ToggleCanonical` | src/lib/game.js:183-184 | the valid-cell mask keeps every toggled board below `2^(cols*rows)` |
| `Cells.ToggleStored` | src/lib/game.js:180-186 | `toggle` keeps the size and writes the toggled board |
| `Cells.GliderToggle` | src/lib/game.js:170-174 | `toggle("3x3/1e2", [1, 0]) == "3x3/1e0"` |
| `Cells.GliderGet` | src/lib/game.js:154-158 | `get("3x3/1e2", [0, 1])` is false |
| `Generation.BinaryBit` | src/lib/game.js:209-213 | bit `j` of `BigInt("0b" + s)` is the `j`-th digit of `s` from the right |
| `Generation.LeftRow` | src/lib/game.js:209 | one row of the `exceptLeftCol` text is `cols` binary digits |
| `Generation.RightRow` | src/lib/game.js:211 | one row of the `exceptRightCol` text is `cols` binary digits |
| `Generation.LastRowDigits` | src/lib/game.js:213 | the `exceptLastRow` text has `rows * cols` binary digits, and digit `i` is a one exactly when `i >= cols` |
| `Generation.ExceptLeftColBit` | src/lib/game.js:209 | `exceptLeftCol` holds exactly the on-board cells outside column 0 |
| `Generation.ExceptRightColBit` | src/lib/game.js:211 | `exceptRightCol` holds exactly the on-board cells outside the last column |
| `Generation.ExceptLastRowBit` | src/lib/game.js:213 | `exceptLastRow` holds exactly the cells of the rows above the last |
| `Generation.NorthAt` | src/lib/game.js:216 | after `n`, each cell holds the bit of the cell below it, including the bit just under the last row |
| `Generation.EastAt` | src/lib/game.js:217 | after `e`, each cell holds its left neighbour, and column 0 and everything off the board are empty |
| `Generation.WestAt` | src/lib/game.js:219 | after `w`, each cell holds its right neighbour, and the last column and everything off the board are empty |
| `Generation.SouthAt` | src/lib/game.js:218 | after `s`, each cell holds the cell above it, and row 0 and everything off the board are empty |
| `Generation.NeighbourCount` | src/lib/game.js:222-226 | for an on-board cell, the eight boards hold its live neighbours plus the phantom one below the last row; below the board only `n` can hold a bit |
| `Generation.CountersStart` | src/lib/game.js:229-232 | the four zero counters are right for no boards |
| `Generation.CountersStep` | src/lib/game.js:233-238 | the four updates of the loop body, in their order, keep the counters at "at least 1/2/3/4 of the boards so far" |
| `Generation.NextBoard` | src/lib/game.js:228-240 | the counter loop and the final expression compute the board of `NextGen`, the rule applied to every cell |
| `Generation.CountRule` | src/lib/game.js:240 | each bit of the next board depends only on its old value and how many of the eight boards have it set, through the rule |
| `Generation.RuleOfCounters` | src/lib/game.js:240 | the final expression (the board or-ed with `atLeastThree`, and-ed with `atLeastTwo`, with `moreThanThree` cleared), over correct counters, is the next board |
| `Generation.Next` | src/lib/game.js:201-242 | `next` throws for a zero dimension and otherwise returns the stored text of the next generation |
| `Generation.NextGenBit` | src/lib/game.js:188-193 | every on-board cell of the next generation follows the rule: it survives with two or three live neighbours and is born with exactly three |
| `Generation.NoOverhang` | src/lib/game.js:216 | a board without bits beyond its cells gives no phantom neighbour |
| `Generation.StepRule` | src/lib/game.js:188-193 | on such a board, the next generation has the same size and no bits beyond its cells, and each cell follows the rule with off-board cells dead |
| `Generation.StepOffBoard` | src/lib/game.js:240-241 | the next board has no bit beyond `cols * rows` |
| `Generation.NextGenOfCells` | src/lib/game.js:188-193 | a board that fits and has the rule's value in every cell is the next board |
| `Generation.GliderNext` | src/lib/game.js:194-196 | every board whose cells are the glider's, with nothing under its last row, steps to board 0x1a8 |
| `Generation.GliderNextText` | src/lib/game.js:194-196 | the documented example on text: "3x3/1e2" decodes to the glider, and the stored next generation of the decoded game is "3x3/1a8" |
| `Generation.PhantomNeighbour` | src/lib/game.js:216-226 | on a one-row board with cells 0 and 2 alive and a bit under cell 1, the dead-border rule leaves cell 1 dead, but the next generation has it alive |
| `Generation.PhantomText` | src/lib/game.js:201-242 | the same on the text "3x1/15": it decodes to that board, and the stored next generation of the decoded game is "3x1/2" |
| `Enumeration.Enumerate` | src/lib/game.js:140-152 | `createIterator` yields `cols * rows` records in index order, record `i` as the loop computes it |
| `Enumeration.CellAtSquare` | src/lib/game.test.js:29-51 | record `i` carries bit `i` and the row `i / cols`; on a square board its `(x, y)` names cell `i`, and its value is what `get` answers there |
| `Enumeration.IteratorMislabels` | src/lib/game.js:148 | on "4x2/4", record 2 reports cell (0, 0) as live, and `get` finds that cell dead |
| `Enumeration.IntendedCellAtAgreesWithGet` | src/lib/game.js:146-150 | with `x = i % cols`, every record names the on-board cell of index `i` and carries the value `get` answers there |
| `Ascii.CollapseOnlyKept` | src/lib/game.js:118 | the clean-up leaves only `.`, `x`, `X` and line breaks |
| `Ascii.CollapseKeeps` | src/lib/game.js:118 | a text made only of those characters is left as it is |
| `Ascii.TrimStartSuffix` | src/lib/game.js:118 | trimming removes only leading line breaks |
| `Ascii.TrimEndPrefix` | src/lib/game.js:118 | trimming removes only trailing line breaks |
| `Ascii.OnelineNoBreaks` | src/lib/game.js:120 | removing the line breaks leaves none |
| `Ascii.OnelineKeeps` | src/lib/game.js:120 | a text without line breaks is left as it is |
| `Ascii.BoardOfBit` | src/lib/game.js:124-127 | the reduce sets bit `i` exactly when character `i` is not `.` |
| `Ascii.BoardOfFits` | src/lib/game.js:124-127 | the board read from `n` characters has no bit at or beyond `n` |
| `Ascii.CellCharsAt` | src/lib/game.js:97-100 | character `i` of the cells is `x` exactly when bit `i` is set |
| `Ascii.BoardOfCellChars` | src/lib/game.js:97-127 | reading back the characters drawn for a board that fits gives the board |
| `Ascii.CellCharsOfBoard` | src/lib/game.js:97-127 | drawing the board read from a string of `.` and `x` gives that string |
| `Ascii.JoinAt` | src/lib/game.js:101 | joining with spaces puts cell `i` at position `2i` and a space at every odd position |
| `Ascii.RowAtJoin` | src/lib/game.js:102 | the row pattern matches at the start of the joined cells exactly when more than a row's worth of cells is left |
| `Ascii.BreakRowsLayout` | src/lib/game.js:101-102 | the replace puts a line break after each full row except the last, giving the reference layout |
| `Ascii.ToStringLayout` | src/lib/game.js:91-103 | `toString` of a game with at least one column draws its cells in rows of `cols`, cells separated by spaces, each row but the last ending in " \n" |
| `Ascii.FromStringReads` | src/lib/game.js:117-129 | a text made of a drawing that starts and ends with a cell, with anything but `.`, `x` and `X` around it, reads as its `.`/`x`/`X` characters in order, in one more row than the drawing has line breaks |
| `Ascii.FromStringNoCells` | src/lib/game.js:117-129 | a text without a single `.`, `x` or `X` reads as no columns and one row |
| `Ascii.WholeWidthDivides` | src/lib/game.js:122 | the width `oneline.length / rows` is a whole number exactly when the rows divide the cells, and it is then their quotient |
| `Ascii.ShapeWhole` | src/lib/game.js:121-129 | when the cells split into whole rows, the width is their number divided by the rows, and the game is serialized |
| `Ascii.ShapeFractional` | src/lib/game.js:122 | otherwise the width is not a whole number |
| `Ascii.TwoRows` | src/lib/game.js:117-129 | two non-empty rows of cells joined by a line break read as their cells, all of them in order, in two rows |
| `Ascii.OddRows` | src/lib/game.js:117-129 | two such rows with an odd number of cells in all give a width that is not a whole number |
| `Ascii.EmptyDrawing` | src/lib/game.js:117-130 | an empty drawing reads as no columns and one row |
| `Ascii.FromStringLayout` | src/lib/game.js:117-130 | a layout of whole rows reads back as the game of that width and height whose bits are its `x` cells |
| `Ascii.FromToString` | src/lib/game.js:91-130 | drawing a game with no bits beyond its cells and reading the drawing back gives the stored text |
| `Ascii.ToFromString` | src/lib/game.js:91-130 | reading a layout of whole rows and drawing it again gives the same text |
| `Ascii.GliderDrawing` | src/lib/game.test.js:22-27 | `fromString(". x . \n. . x \nx x x") == "3x3/1e2"` and `toString("3x3/1e2")` is that drawing |
| `Clamping.Clamp` | src/lib/clamp.js:8-10 | the result is at least `min`, at most `max` when the bounds are ordered, and is one of `num`, `min` and `max` |
| `Clamping.ClampWithin` | src/lib/clamp.js:8-10 | with ordered bounds, the number comes back unchanged exactly when it lies between them |
| `Clamping.ClampOutside` | src/lib/clamp.js:9 | with ordered bounds, a number below `min` gives `min` and one above `max` gives `max` |
| `Clamping.ClampCrossed` | src/lib/clamp.js:9 | with `min > max`, the result is always `min`, because `Math.max` comes last |
| `Clamping.ClampIdempotent` | src/lib/clamp.js:9 | clamping twice with the same bounds is clamping once |
| `Clamping.ClampUnbounded` | src/lib/clamp.js:8 | with both bounds omitted, every number comes back unchanged |
| `Clamping.ClampExamples` | src/lib/clamp.test.js:4-18 | the cases of the clamp test file on integers, each bound omitted in turn |
| `Ranges.RangeShape` | src/lib/range.js:8-11 | the list has as many elements as the absolute value of `end - start`, starts at `start`, and each element is one more than the one before |
| `Ranges.RangeExtend` | src/lib/range.js:10 | for `start <= end`, one more step appends `end` |
| `Ranges.RangeInterval` | src/lib/range.js:1-11 | for `start <= end`, the list holds exactly the integers of `[start, end)`, strictly increasing |
| `Ranges.RangeBackwards` | src/lib/range.js:9-10 | for `start > end`, the list still counts up from `start`, over `[start, 2*start - end)` |
| `Ranges.RangeEmpty` | src/lib/range.test.js:12-14 | `range(a, a)` is empty |
| `Ranges.RangeExamples` | src/lib/range.test.js:4-14 | `range(1, 2) == [1]`, `range(-1, 2) == [-1, 0, 1]`, and `range(1, 1)` is empty |

## Left out

- `isSupported` (src/lib/game.js:50) checks whether the runtime has `BigInt`. The model has unbounded integers throughout.
- The UI actions and routes are outside the engine: `src/lib/actions/*` and the route that calls `fromString` on a fixed pattern.
- Enumeration.Enumerate: `createIterator` is a generator. The model takes it by the finite list of records it yields, in order; laziness is not modelled.
- Generation.Next: returns one `Thrown` outcome for a zero dimension. It does not say which exception is raised. A zero column count makes `'1'.repeat(-1)` throw a RangeError. A zero row count leaves the mask text `'0b'`, which `BigInt` rejects with a SyntaxError.
- Codec.Serialize, Codec.Unserialize, Cells.Get, Cells.Toggle, Ranges.Range: sizes, indices and bounds are exact integers in the model. In the source they are JavaScript numbers. `parseInt` rounds numerals above 2^53, and a template literal prints 10^21 and above in exponent form (`1e+21`). `1n << BigInt(index)` and `2n ** …` throw a RangeError past the engine's BigInt size limit. `range` also accepts non-integer bounds. None of this is modelled.
- Clamping.Clamp: is modelled over integers, with `None` for an omitted bound (`-Infinity`/`Infinity`), because the model has no floating point.
- Clamping.ClampExamples: leaves out the fractional test inputs `-1.1` and `1.1`, for the same reason.
- Ascii.FromString: returns `Fractional` where the width `cells / rows` is not a whole number. The source goes on to print that width as a JavaScript decimal, such as `"2.5x2/…"`; that text is not modelled.
- The regular expression of `toString` is modelled only as its scan over the joined text (`BreakRows`). Regular expressions in general are not modelled.
- `Ascii.Trim` removes only line breaks, where `String.prototype.trim` removes all white space. The model is still exact, because after the clean-up the line break is the only white space that can be left.
- The four generation scenarios of the test file (src/lib/game.test.js:123-177) are covered by the general `Generation.StepRule`. They are not restated as separate examples.

## Findings

| source | as written | input that shows it | evidently intended | confidence | as-written member | corrected member |
|---|---|---|---|---|---|---|
| src/lib/game.js:148 | `createIterator` computes the column as `i % rows` | "4x2/4" (4 columns, 2 rows, only cell (2, 0) alive): record 2 says `{ value: true, x: 0, y: 0 }`, but `get` finds (0, 0) dead | `x = i % cols`, which matches `get`, `toggle` and the coordinate comments | not executed | `Enumeration.IteratorMislabels` | `Enumeration.IntendedCellAtAgreesWithGet` |
