/** One generation of the game (`next` in src/lib/game.js).

    The engine never looks at a cell on its own. It builds three edge masks,
    shifts the whole board one cell in each direction, folds the eight
    shifted boards through a bitwise saturating counter and applies the
    rule to every bit at once. This module states the per-cell rule
    directly (`NextGen`) and proves that the shift-and-count construction
    computes it. */
module Generation {
  import opened Bits
  import opened Numerals
  import opened Codec

  // ---------------------------------------------------------------------
  // Coordinates

  /** The bit of cell (x, y) on a board `cols` wide. */
  function Offset(cols: nat, x: nat, y: nat): nat
  {
    y * cols + x
  }

  /** A cell of an on-board column lies inside `rows * cols` bits exactly
      when its row does; then counting the bits from the top gives the
      mirrored cell. */
  lemma OffsetBound(cols: nat, rows: nat, x: nat, y: nat)
    requires x < cols
    ensures Offset(cols, x, y) < cols * rows <==> y < rows
    ensures y < rows ==>
      cols * rows - 1 - Offset(cols, x, y) == Offset(cols, cols - 1 - x, rows - 1 - y)
  {
    if y < rows {
      MulMono(y + 1, rows, cols);
      assert (y + 1) * cols == y * cols + cols;
      assert (rows - 1 - y) * cols == rows * cols - y * cols - cols;
    } else {
      MulMono(rows, y, cols);
    }
    assert rows * cols == cols * rows;
  }

  /** The next row starts `cols` bits further. */
  lemma OffsetNextRow(cols: nat, x: nat, y: nat)
    ensures Offset(cols, x, y + 1) == Offset(cols, x, y) + cols
  {
    assert (y + 1) * cols == y * cols + cols;
  }

  /** Every bit is the cell of exactly one column and row. */
  lemma OffsetDivMod(cols: nat, x: nat, y: nat)
    requires x < cols
    ensures Offset(cols, x, y) / cols == y && Offset(cols, x, y) % cols == x
  {
    var j := Offset(cols, x, y);
    var q, r := j / cols, j % cols;
    assert j == q * cols + r;
    if q < y {
      assert (q + 1) * cols == q * cols + cols;
      MulMono(q + 1, y, cols);
    } else if q > y {
      assert (y + 1) * cols == y * cols + cols;
      MulMono(y + 1, q, cols);
    }
  }

  lemma Decompose(cols: nat, j: nat)
    requires cols >= 1
    ensures j % cols < cols && Offset(cols, j % cols, j / cols) == j
  {
  }

  // ---------------------------------------------------------------------
  // The edge masks, built as binary strings as the source does

  /** `u.repeat(k)` */
  function Repeat(u: string, k: nat): (r: string)
    ensures |r| == k * |u|
  {
    if k == 0 then [] else Repeat(u, k - 1) + u
  }

  lemma {:induction false} RepeatAt(u: string, k: nat, q: nat, i: nat)
    requires q < k && i < |u|
    ensures q * |u| + i < |Repeat(u, k)| && Repeat(u, k)[q * |u| + i] == u[i]
    decreases k
  {
    assert (k - 1) * |u| + |u| == k * |u|;
    if q < k - 1 {
      RepeatAt(u, k - 1, q, i);
      MulMono(q + 1, k - 1, |u|);
      assert (q + 1) * |u| == q * |u| + |u|;
    }
  }

  lemma RepeatCharAt(c: char, k: nat, i: nat)
    requires i < k
    ensures Repeat([c], k)[i] == c
  {
    RepeatAt([c], k, i, 0);
  }

  predicate IsBinary(s: string)
  {
    forall i :: 0 <= i < |s| ==> s[i] == '0' || s[i] == '1'
  }

  lemma {:induction false} RepeatBinary(u: string, k: nat)
    requires IsBinary(u)
    ensures IsBinary(Repeat(u, k))
  {
    if k > 0 {
      RepeatBinary(u, k - 1);
      var p := Repeat(u, k - 1);
      forall i | 0 <= i < |p| + |u|
        ensures (p + u)[i] == '0' || (p + u)[i] == '1'
      {
        if i < |p| {
          assert (p + u)[i] == p[i];
        } else {
          assert (p + u)[i] == u[i - |p|];
        }
      }
    }
  }

  /** `BigInt("0b" + s)` for a non-empty string of binary digits. */
  function ParseBinary(s: string): nat
    requires IsBinary(s)
  {
    FromNumeral(s, 2)
  }

  /** Bit `j` of a binary numeral is its `j`-th digit from the right. */
  lemma {:induction false} BinaryBit(s: string, j: nat)
    requires IsBinary(s)
    ensures Bit(ParseBinary(s), j) == (j < |s| && s[|s| - 1 - j] == '1')
    decreases |s|
  {
    if s == [] {
      BitZero(j);
    } else {
      var p, c := s[..|s| - 1], s[|s| - 1];
      assert IsBinary(p) by {
        forall i | 0 <= i < |p| ensures p[i] == '0' || p[i] == '1' {
          assert p[i] == s[i];
        }
      }
      var h := ParseBinary(p);
      var d := DigitValue(c);
      assert d == if c == '1' then 1 else 0;
      assert ParseBinary(s) == h * 2 + d;
      if j > 0 {
        assert (h * 2 + d) / 2 == h;
        BinaryBit(p, j - 1);
        if j - 1 < |p| {
          assert p[|p| - 1 - (j - 1)] == s[|s| - 1 - j];
        }
      }
    }
  }

  /** `'1'.repeat(cols - 1) + '0'` and `'0' + '1'.repeat(cols - 1)`: one row
      of the left- and right-column masks, most significant digit first. */
  function LeftRow(cols: nat): (u: string)
    requires cols >= 1
    ensures |u| == cols && IsBinary(u)
  {
    RepeatBinary("1", cols - 1);
    Repeat("1", cols - 1) + "0"
  }

  function RightRow(cols: nat): (u: string)
    requires cols >= 1
    ensures |u| == cols && IsBinary(u)
  {
    RepeatBinary("1", cols - 1);
    "0" + Repeat("1", cols - 1)
  }

  /** `exceptLeftCol`: every cell but those of column 0. */
  function ExceptLeftCol(cols: nat, rows: nat): nat
    requires cols >= 1 && rows >= 1
  {
    RepeatBinary(LeftRow(cols), rows);
    ParseBinary(Repeat(LeftRow(cols), rows))
  }

  /** `exceptRightCol`: every cell but those of column `cols - 1`. */
  function ExceptRightCol(cols: nat, rows: nat): nat
    requires cols >= 1 && rows >= 1
  {
    RepeatBinary(RightRow(cols), rows);
    ParseBinary(Repeat(RightRow(cols), rows))
  }

  /** `exceptLastRow` as a digit string: `cols` zeros, then a one for
      every cell of the other rows. */
  function LastRowDigits(cols: nat, rows: nat): (s: string)
    requires cols >= 1 && rows >= 1
    ensures |s| == rows * cols && IsBinary(s)
    ensures forall i :: 0 <= i < |s| ==> (s[i] == '1' <==> cols <= i)
  {
    var above: nat := cols * (rows - 1);
    assert above + cols == rows * cols;
    var s := Repeat("0", cols) + Repeat("1", above);
    assert forall i :: 0 <= i < |s| ==> (s[i] == '1' <==> cols <= i) && s[i] in "01" by {
      forall i | 0 <= i < |s| ensures (s[i] == '1' <==> cols <= i) && s[i] in "01" {
        if i < cols {
          RepeatCharAt('0', cols, i);
          assert s[i] == Repeat("0", cols)[i];
        } else {
          RepeatCharAt('1', above, i - cols);
          assert s[i] == Repeat("1", above)[i - cols];
        }
      }
    }
    s
  }

  /** `exceptLastRow`: every cell but those of row `rows - 1`. */
  function ExceptLastRow(cols: nat, rows: nat): nat
    requires cols >= 1 && rows >= 1
  {
    ParseBinary(LastRowDigits(cols, rows))
  }

  /** `exceptLeftCol` has exactly the on-board cells outside column 0. */
  lemma ExceptLeftColBit(cols: nat, rows: nat, x: nat, y: nat)
    requires cols >= 1 && rows >= 1 && x < cols
    ensures Bit(ExceptLeftCol(cols, rows), Offset(cols, x, y)) == (y < rows && x != 0)
  {
    var u := LeftRow(cols);
    RepeatBinary(u, rows);
    var s := Repeat(u, rows);
    BinaryBit(s, Offset(cols, x, y));
    OffsetBound(cols, rows, x, y);
    if y < rows {
      RepeatAt(u, rows, rows - 1 - y, cols - 1 - x);
      if x != 0 {
        RepeatCharAt('1', cols - 1, cols - 1 - x);
      }
    }
  }

  /** `exceptRightCol` has exactly the on-board cells outside the last
      column. */
  lemma ExceptRightColBit(cols: nat, rows: nat, x: nat, y: nat)
    requires cols >= 1 && rows >= 1 && x < cols
    ensures Bit(ExceptRightCol(cols, rows), Offset(cols, x, y)) == (y < rows && x != cols - 1)
  {
    var u := RightRow(cols);
    RepeatBinary(u, rows);
    var s := Repeat(u, rows);
    BinaryBit(s, Offset(cols, x, y));
    OffsetBound(cols, rows, x, y);
    if y < rows {
      RepeatAt(u, rows, rows - 1 - y, cols - 1 - x);
      if x != cols - 1 {
        RepeatCharAt('1', cols - 1, cols - 2 - x);
      }
    }
  }

  /** `exceptLastRow` has exactly the cells of the rows above the last. */
  lemma ExceptLastRowBit(cols: nat, rows: nat, x: nat, y: nat)
    requires cols >= 1 && rows >= 1 && x < cols
    ensures Bit(ExceptLastRow(cols, rows), Offset(cols, x, y)) == (y < rows - 1)
  {
    var s := LastRowDigits(cols, rows);
    var j := Offset(cols, x, y);
    BinaryBit(s, j);
    OffsetBound(cols, rows - 1, x, y);
    assert cols * (rows - 1) + cols == rows * cols;
  }

  // ---------------------------------------------------------------------
  // The four shifts

  /** `n`: every cell takes the value of the cell below it. */
  function North(cols: nat, c: nat): nat
  {
    Shr(c, cols)
  }

  /** `e`: every cell takes the value of the cell to its left. */
  function East(cols: nat, rows: nat, c: nat): nat
    requires cols >= 1 && rows >= 1
  {
    Shl(And(c, ExceptRightCol(cols, rows)), 1)
  }

  /** `s`: every cell takes the value of the cell above it. */
  function South(cols: nat, rows: nat, c: nat): nat
    requires cols >= 1 && rows >= 1
  {
    Shl(And(c, ExceptLastRow(cols, rows)), cols)
  }

  /** `w`: every cell takes the value of the cell to its right. */
  function West(cols: nat, rows: nat, c: nat): nat
    requires cols >= 1 && rows >= 1
  {
    Shr(And(c, ExceptLeftCol(cols, rows)), 1)
  }

  /** `n` reads the next row; under the last row it reads whatever bits
      lie beyond the board. */
  lemma NorthAt(cols: nat, c: nat, x: nat, y: nat)
    ensures Bit(North(cols, c), Offset(cols, x, y)) == Bit(c, Offset(cols, x, y + 1))
  {
    ShrBit(c, cols, Offset(cols, x, y));
    OffsetNextRow(cols, x, y);
  }

  /** `e` never carries a bit from the end of one row into the next. */
  lemma EastAt(cols: nat, rows: nat, c: nat, x: nat, y: nat)
    requires cols >= 1 && rows >= 1 && x < cols
    ensures Bit(East(cols, rows, c), Offset(cols, x, y))
         == (1 <= x && y < rows && Bit(c, Offset(cols, x - 1, y)))
  {
    var m := ExceptRightCol(cols, rows);
    var j := Offset(cols, x, y);
    ShlBit(And(c, m), 1, j);
    if x >= 1 {
      AndBit(c, m, j - 1);
      ExceptRightColBit(cols, rows, x - 1, y);
    } else if y >= 1 {
      assert j - 1 == Offset(cols, cols - 1, y - 1) by {
        OffsetNextRow(cols, cols - 1, y - 1);
      }
      AndBit(c, m, j - 1);
      ExceptRightColBit(cols, rows, cols - 1, y - 1);
    }
  }

  /** `w` never carries a bit from the start of one row into the previous. */
  lemma WestAt(cols: nat, rows: nat, c: nat, x: nat, y: nat)
    requires cols >= 1 && rows >= 1 && x < cols
    ensures Bit(West(cols, rows, c), Offset(cols, x, y))
         == (x + 1 < cols && y < rows && Bit(c, Offset(cols, x + 1, y)))
  {
    var m := ExceptLeftCol(cols, rows);
    var j := Offset(cols, x, y);
    ShrBit(And(c, m), 1, j);
    AndBit(c, m, j + 1);
    if x + 1 < cols {
      ExceptLeftColBit(cols, rows, x + 1, y);
    } else {
      assert j + 1 == Offset(cols, 0, y + 1) by {
        OffsetNextRow(cols, 0, y);
      }
      ExceptLeftColBit(cols, rows, 0, y + 1);
    }
  }

  /** `s` drops the last row and leaves the first row empty. */
  lemma SouthAt(cols: nat, rows: nat, c: nat, x: nat, y: nat)
    requires cols >= 1 && rows >= 1 && x < cols
    ensures Bit(South(cols, rows, c), Offset(cols, x, y))
         == (1 <= y < rows && Bit(c, Offset(cols, x, y - 1)))
  {
    var m := ExceptLastRow(cols, rows);
    var j := Offset(cols, x, y);
    ShlBit(And(c, m), cols, j);
    if y >= 1 {
      OffsetNextRow(cols, x, y - 1);
      AndBit(c, m, j - cols);
      ExceptLastRowBit(cols, rows, x, y - 1);
    } else {
      assert j < cols;
    }
  }

  // ---------------------------------------------------------------------
  // The rule, cell by cell

  /** Whether (x, y) is a live cell of the board; every cell off the board
      is dead. */
  predicate Live(g: Game, x: int, y: int)
  {
    0 <= x < g.cols && 0 <= y < g.rows && Bit(g.board, Offset(g.cols, x, y))
  }

  /** The number of live cells among the eight around (x, y). */
  function LiveNeighbours(g: Game, x: int, y: int): nat
  {
    Ind(Live(g, x - 1, y - 1)) + Ind(Live(g, x, y - 1)) + Ind(Live(g, x + 1, y - 1))
    + Ind(Live(g, x - 1, y)) + Ind(Live(g, x + 1, y))
    + Ind(Live(g, x - 1, y + 1)) + Ind(Live(g, x, y + 1)) + Ind(Live(g, x + 1, y + 1))
  }

  /** The bit below a cell of the last row: `n` moves it onto the board, so
      a board with bits beyond its cells gives the last row a phantom
      neighbour. */
  predicate Overhang(g: Game, x: int, y: int)
  {
    0 <= x < g.cols && y == g.rows - 1 && Bit(g.board, Offset(g.cols, x, g.rows))
  }

  /** A live cell survives with two or three live neighbours; a dead cell
      comes alive with exactly three. */
  predicate LifeRule(alive: bool, neighbours: nat)
  {
    neighbours == 3 || (alive && neighbours == 2)
  }

  /** The next state of cell (x, y), counting the phantom neighbour. */
  predicate NextCell(g: Game, x: int, y: int)
  {
    LifeRule(Live(g, x, y), LiveNeighbours(g, x, y) + Ind(Overhang(g, x, y)))
  }

  /** The next states of the first `k` cells, in bit order. */
  function NextCells(g: Game, k: nat): (cells: seq<bool>)
    requires g.cols >= 1
    ensures |cells| == k
  {
    if k == 0 then [] else NextCells(g, k - 1) + [NextCell(g, (k - 1) % g.cols, (k - 1) / g.cols)]
  }

  lemma {:induction false} NextCellsAt(g: Game, k: nat, j: nat)
    requires g.cols >= 1 && j < k
    ensures NextCells(g, k)[j] == NextCell(g, j % g.cols, j / g.cols)
    decreases k
  {
    if j < k - 1 {
      NextCellsAt(g, k - 1, j);
    }
  }

  /** The game after one generation: the same size, every cell by the rule. */
  function NextGen(g: Game): Game
    requires g.cols >= 1 && g.rows >= 1
  {
    Game(g.cols, g.rows, Pack(NextCells(g, Size(g))))
  }

  // ---------------------------------------------------------------------
  // The eight neighbour boards and the counter

  /** `neighbors`: the board shifted towards each of the eight directions. */
  function Neighbours(g: Game): (boards: seq<nat>)
    requires g.cols >= 1 && g.rows >= 1
    ensures |boards| == 8
  {
    var cols, rows, b := g.cols, g.rows, g.board;
    var w, e := West(cols, rows, b), East(cols, rows, b);
    [ North(cols, w), North(cols, b), North(cols, e),
      w, e,
      South(cols, rows, w), South(cols, rows, b), South(cols, rows, e) ]
  }

  /** How many of `boards` have bit `j` set. */
  function Count(boards: seq<nat>, j: nat): (n: nat)
    ensures n <= |boards|
  {
    if |boards| == 0 then 0
    else Count(boards[..|boards| - 1], j) + Ind(Bit(boards[|boards| - 1], j))
  }

  /** On the board, the neighbour boards hold exactly the live neighbours
      (and the phantom one); below it only the `n` board can hold a bit. */
  lemma NeighbourCount(g: Game, x: nat, y: nat)
    requires g.cols >= 1 && g.rows >= 1 && x < g.cols
    ensures Count(Neighbours(g), Offset(g.cols, x, y))
         == if y < g.rows then LiveNeighbours(g, x, y) + Ind(Overhang(g, x, y))
            else Ind(Bit(g.board, Offset(g.cols, x, y + 1)))
  {
    if y < g.rows {
      NeighbourCountOn(g, x, y);
    } else {
      NeighbourCountBelow(g, x, y);
    }
  }

  lemma NeighbourCountOn(g: Game, x: nat, y: nat)
    requires g.cols >= 1 && g.rows >= 1 && x < g.cols && y < g.rows
    ensures Count(Neighbours(g), Offset(g.cols, x, y)) == LiveNeighbours(g, x, y) + Ind(Overhang(g, x, y))
  {
    var j := Offset(g.cols, x, y);
    CountOfEight(Neighbours(g), j);
    BelowBits(g, x, y);
    BesideBits(g, x, y);
    AboveBits(g, x, y);
    assert Ind(Bit(Neighbours(g)[1], j)) == Ind(Live(g, x, y + 1)) + Ind(Overhang(g, x, y)) by {
      if y + 1 == g.rows {
        assert Offset(g.cols, x, y + 1) == Offset(g.cols, x, g.rows);
      }
    }
  }

  lemma NeighbourCountBelow(g: Game, x: nat, y: nat)
    requires g.cols >= 1 && g.rows >= 1 && x < g.cols && y >= g.rows
    ensures Count(Neighbours(g), Offset(g.cols, x, y)) == Ind(Bit(g.board, Offset(g.cols, x, y + 1)))
  {
    var j := Offset(g.cols, x, y);
    CountOfEight(Neighbours(g), j);
    BelowBits(g, x, y);
    BesideBits(g, x, y);
    AboveBits(g, x, y);
  }

  lemma CountOfEight(boards: seq<nat>, j: nat)
    requires |boards| == 8
    ensures Count(boards, j)
         == Ind(Bit(boards[0], j)) + Ind(Bit(boards[1], j)) + Ind(Bit(boards[2], j))
          + Ind(Bit(boards[3], j)) + Ind(Bit(boards[4], j)) + Ind(Bit(boards[5], j))
          + Ind(Bit(boards[6], j)) + Ind(Bit(boards[7], j))
  {
    assert Count(boards[..1], j) == Ind(Bit(boards[0], j)) by {
      CountPrefix(boards, 1, j);
    }
    assert Count(boards[..2], j) == Count(boards[..1], j) + Ind(Bit(boards[1], j)) by {
      CountPrefix(boards, 2, j);
    }
    assert Count(boards[..3], j) == Count(boards[..2], j) + Ind(Bit(boards[2], j)) by {
      CountPrefix(boards, 3, j);
    }
    assert Count(boards[..4], j) == Count(boards[..3], j) + Ind(Bit(boards[3], j)) by {
      CountPrefix(boards, 4, j);
    }
    assert Count(boards[..5], j) == Count(boards[..4], j) + Ind(Bit(boards[4], j)) by {
      CountPrefix(boards, 5, j);
    }
    assert Count(boards[..6], j) == Count(boards[..5], j) + Ind(Bit(boards[5], j)) by {
      CountPrefix(boards, 6, j);
    }
    assert Count(boards[..7], j) == Count(boards[..6], j) + Ind(Bit(boards[6], j)) by {
      CountPrefix(boards, 7, j);
    }
    assert Count(boards, j) == Count(boards[..7], j) + Ind(Bit(boards[7], j)) by {
      CountPrefix(boards, 8, j);
      assert boards[..8] == boards;
    }
  }

  /** Counting one more board of a list. */
  lemma CountPrefix(boards: seq<nat>, k: nat, j: nat)
    requires 0 < k <= |boards|
    ensures Count(boards[..k], j) == Count(boards[..k - 1], j) + Ind(Bit(boards[k - 1], j))
  {
    assert boards[..k][..k - 1] == boards[..k - 1];
  }

  /** The three boards shifted by `n`, read at one cell: the row below. */
  lemma BelowBits(g: Game, x: nat, y: nat)
    requires g.cols >= 1 && g.rows >= 1 && x < g.cols
    ensures var cols, rows, b := g.cols, g.rows, g.board;
      var w, e, j := West(cols, rows, b), East(cols, rows, b), Offset(cols, x, y);
      && Bit(North(cols, w), j) == (y + 1 < rows && Live(g, x + 1, y + 1))
      && Bit(North(cols, b), j)
         == (if y + 1 < rows then Live(g, x, y + 1) else Bit(b, Offset(cols, x, y + 1)))
      && Bit(North(cols, e), j) == (y + 1 < rows && Live(g, x - 1, y + 1))
  {
    var cols, rows, b := g.cols, g.rows, g.board;
    var w, e := West(cols, rows, b), East(cols, rows, b);
    NorthAt(cols, w, x, y);
    WestAt(cols, rows, b, x, y + 1);
    NorthAt(cols, b, x, y);
    NorthAt(cols, e, x, y);
    EastAt(cols, rows, b, x, y + 1);
  }

  /** The boards shifted by `w` and `e`, read at one cell: the same row. */
  lemma BesideBits(g: Game, x: nat, y: nat)
    requires g.cols >= 1 && g.rows >= 1 && x < g.cols
    ensures var cols, rows, b := g.cols, g.rows, g.board;
      var w, e, j := West(cols, rows, b), East(cols, rows, b), Offset(cols, x, y);
      && Bit(w, j) == (y < rows && Live(g, x + 1, y))
      && Bit(e, j) == (y < rows && Live(g, x - 1, y))
  {
    var cols, rows, b := g.cols, g.rows, g.board;
    WestAt(cols, rows, b, x, y);
    EastAt(cols, rows, b, x, y);
  }

  /** The three boards shifted by `s`, read at one cell: the row above. */
  lemma AboveBits(g: Game, x: nat, y: nat)
    requires g.cols >= 1 && g.rows >= 1 && x < g.cols
    ensures var cols, rows, b := g.cols, g.rows, g.board;
      var w, e, j := West(cols, rows, b), East(cols, rows, b), Offset(cols, x, y);
      && Bit(South(cols, rows, w), j) == (y < rows && Live(g, x + 1, y - 1))
      && Bit(South(cols, rows, b), j) == (y < rows && Live(g, x, y - 1))
      && Bit(South(cols, rows, e), j) == (y < rows && Live(g, x - 1, y - 1))
  {
    var cols, rows, b := g.cols, g.rows, g.board;
    var w, e := West(cols, rows, b), East(cols, rows, b);
    SouthAt(cols, rows, w, x, y);
    SouthAt(cols, rows, b, x, y);
    SouthAt(cols, rows, e, x, y);
    if 1 <= y {
      WestAt(cols, rows, b, x, y - 1);
      EastAt(cols, rows, b, x, y - 1);
    }
  }

  // ---------------------------------------------------------------------
  // The rule as computed

  /** The next state of every on-board cell is the rule applied to it. */
  lemma NextGenBit(g: Game, x: nat, y: nat)
    requires g.cols >= 1 && g.rows >= 1 && x < g.cols && y < g.rows
    ensures Bit(NextGen(g).board, Offset(g.cols, x, y)) == NextCell(g, x, y)
  {
    var j := Offset(g.cols, x, y);
    OffsetBound(g.cols, g.rows, x, y);
    OffsetDivMod(g.cols, x, y);
    PackBit(NextCells(g, Size(g)), j);
    NextCellsAt(g, Size(g), j);
  }

  /** The four counters hold, bit by bit, whether at least one, two, three
      and four of `boards` have that bit set. */
  ghost predicate Counters(boards: seq<nat>, one: nat, two: nat, three: nat, four: nat)
  {
    forall j: nat ::
      && Bit(one, j) == (Count(boards, j) >= 1)
      && Bit(two, j) == (Count(boards, j) >= 2)
      && Bit(three, j) == (Count(boards, j) >= 3)
      && Bit(four, j) == (Count(boards, j) >= 4)
  }

  /** Before the first board, all counters are zero. */
  lemma CountersStart(boards: seq<nat>)
    ensures Counters(boards[..0], 0, 0, 0, 0)
  {
    forall j: nat
      ensures !Bit(0, j) && Count(boards[..0], j) == 0
    {
      BitZero(j);
    }
  }

  /** Folding in one more board, in the order of the loop body: each counter
      is raised where the one below it was already set and the board has
      the bit. */
  lemma CountersStep(boards: seq<nat>, k: nat, one: nat, two: nat, three: nat, four: nat)
    requires k < |boards| && Counters(boards[..k], one, two, three, four)
    ensures var b := boards[k];
      Counters(boards[..k + 1], Or(one, b), Or(two, And(one, b)),
               Or(three, And(two, b)), Or(four, And(three, b)))
  {
    var b := boards[k];
    forall j: nat
      ensures && Bit(Or(one, b), j) == (Count(boards[..k + 1], j) >= 1)
              && Bit(Or(two, And(one, b)), j) == (Count(boards[..k + 1], j) >= 2)
              && Bit(Or(three, And(two, b)), j) == (Count(boards[..k + 1], j) >= 3)
              && Bit(Or(four, And(three, b)), j) == (Count(boards[..k + 1], j) >= 4)
    {
      CountPrefix(boards, k + 1, j);
      OrBit(four, And(three, b), j);
      AndBit(three, b, j);
      OrBit(three, And(two, b), j);
      AndBit(two, b, j);
      OrBit(two, And(one, b), j);
      AndBit(one, b, j);
      OrBit(one, b, j);
    }
  }

  /** The next generation depends on each bit only through its own value
      and how many of the eight neighbour boards have it set. */
  lemma CountRule(g: Game, j: nat)
    requires g.cols >= 1 && g.rows >= 1
    ensures Bit(NextGen(g).board, j) == LifeRule(Bit(g.board, j), Count(Neighbours(g), j))
  {
    Decompose(g.cols, j);
    var x, y := j % g.cols, j / g.cols;
    NeighbourCount(g, x, y);
    OffsetBound(g.cols, g.rows, x, y);
    if y < g.rows {
      NextGenBit(g, x, y);
    } else {
      FitsHighBit(NextGen(g).board, Size(g), j);
    }
  }

  /** `(board | atLeastThree) & atLeastTwo & ~moreThanThree`, given counters
      that hold the neighbour counts, is the board of the next generation. */
  lemma RuleOfCounters(g: Game, one: nat, two: nat, three: nat, four: nat)
    requires g.cols >= 1 && g.rows >= 1
    requires Counters(Neighbours(g), one, two, three, four)
    ensures AndNot(And(Or(g.board, three), two), four) == NextGen(g).board
  {
    var nextBoard := AndNot(And(Or(g.board, three), two), four);
    forall j: nat
      ensures Bit(nextBoard, j) == Bit(NextGen(g).board, j)
    {
      AndNotBit(And(Or(g.board, three), two), four, j);
      AndBit(Or(g.board, three), two, j);
      OrBit(g.board, three, j);
      CountRule(g, j);
    }
    BitsDetermine(nextBoard, NextGen(g).board);
  }

  /** What `next` does: the text of the next generation, or an exception
      when a dimension is zero. */
  datatype Outcome = Returned(text: string) | Thrown

  /** `next`: the size and board of the text, an exception for an empty
      dimension, otherwise the text of the next generation. */
  method Next(s: string) returns (r: Outcome)
    ensures var g := Unserialize(s);
      r == if g.cols == 0 || g.rows == 0 then Thrown else Returned(Serialize(NextGen(g)))
  {
    var g := Unserialize(s);
    if g.cols == 0 || g.rows == 0 {
      // `'1'.repeat(-1)` throws a RangeError, and with no rows the mask
      // text `'0b'` is not a BigInt literal
      return Thrown;
    }
    var nextBoard := NextBoard(g);
    return Returned(Serialize(Game(g.cols, g.rows, nextBoard)));
  }

  /** The body of `next` after decoding: the eight neighbour boards are
      folded through the counters `atLeastOne`, `atLeastTwo`, `atLeastThree`
      and `moreThanThree`, and the rule is applied to all cells at once. */
  method NextBoard(g: Game) returns (nextBoard: nat)
    requires g.cols >= 1 && g.rows >= 1
    ensures nextBoard == NextGen(g).board
  {
    var board := g.board;
    var neighbors := Neighbours(g);
    var atLeastOne, atLeastTwo, atLeastThree, moreThanThree := 0, 0, 0, 0;
    CountersStart(neighbors);
    for k := 0 to |neighbors|
      invariant Counters(neighbors[..k], atLeastOne, atLeastTwo, atLeastThree, moreThanThree)
    {
      var neighbor := neighbors[k];
      CountersStep(neighbors, k, atLeastOne, atLeastTwo, atLeastThree, moreThanThree);
      moreThanThree := Or(moreThanThree, And(atLeastThree, neighbor));
      atLeastThree := Or(atLeastThree, And(atLeastTwo, neighbor));
      atLeastTwo := Or(atLeastTwo, And(atLeastOne, neighbor));
      atLeastOne := Or(atLeastOne, neighbor);
    }
    assert neighbors[..|neighbors|] == neighbors;
    nextBoard := AndNot(And(Or(board, atLeastThree), atLeastTwo), moreThanThree);
    RuleOfCounters(g, atLeastOne, atLeastTwo, atLeastThree, moreThanThree);
  }

  // ---------------------------------------------------------------------
  // Properties of a generation

  /** A board without bits beyond its cells has no phantom neighbour. */
  lemma NoOverhang(g: Game, x: int, y: int)
    requires Canonical(g)
    ensures !Overhang(g, x, y)
  {
    if 0 <= x < g.cols {
      OffsetBound(g.cols, g.rows, x, g.rows);
      FitsHighBit(g.board, Size(g), Offset(g.cols, x, g.rows));
    }
  }

  /** On a board without bits beyond its cells, the next generation has the
      same size, again no bits beyond its cells, and every cell follows the
      rule with the cells off the board counted as dead. */
  lemma StepRule(g: Game, x: int, y: int)
    requires g.cols >= 1 && g.rows >= 1 && Canonical(g)
    requires 0 <= x < g.cols && 0 <= y < g.rows
    ensures NextGen(g).cols == g.cols && NextGen(g).rows == g.rows
    ensures Canonical(NextGen(g))
    ensures Live(NextGen(g), x, y) == LifeRule(Live(g, x, y), LiveNeighbours(g, x, y))
  {
    NextGenBit(g, x, y);
    NoOverhang(g, x, y);
  }

  /** Cells off the board are never alive in the next generation's text. */
  lemma StepOffBoard(g: Game, j: nat)
    requires g.cols >= 1 && g.rows >= 1 && Size(g) <= j
    ensures !Bit(NextGen(g).board, j)
  {
    FitsHighBit(NextGen(g).board, Size(g), j);
  }

  /** A board of the right size whose bit `j`, for every cell `j`, is the
      next state of that cell is the next generation's board. */
  lemma NextGenOfCells(g: Game, t: nat)
    requires g.cols >= 1 && g.rows >= 1 && Fits(t, Size(g))
    requires forall j: nat | j < Size(g) :: Bit(t, j) == NextCell(g, j % g.cols, j / g.cols)
    ensures NextGen(g).board == t
  {
    forall j: nat
      ensures Bit(NextGen(g).board, j) == Bit(t, j)
    {
      Decompose(g.cols, j);
      var x, y := j % g.cols, j / g.cols;
      OffsetBound(g.cols, g.rows, x, y);
      if y < g.rows {
        NextGenBit(g, x, y);
      } else {
        FitsHighBit(NextGen(g).board, Size(g), j);
        FitsHighBit(t, Size(g), j);
      }
    }
    BitsDetermine(NextGen(g).board, t);
  }

  // ---------------------------------------------------------------------
  // Worked examples

  /** The documented glider ". x . / . . x / x x x" (board 0x1e2) becomes
      ". . . / x . x / . x x" (board 0x1a8). */
  lemma GliderBits()
    ensures !Bit(0x1e2, 0) && Bit(0x1e2, 1) && !Bit(0x1e2, 2)
    ensures !Bit(0x1e2, 3) && !Bit(0x1e2, 4) && Bit(0x1e2, 5)
    ensures Bit(0x1e2, 6) && Bit(0x1e2, 7) && Bit(0x1e2, 8)
    ensures !Bit(0x1e2, 9) && !Bit(0x1e2, 10) && !Bit(0x1e2, 11)
    ensures !Bit(0x1a8, 0) && !Bit(0x1a8, 1) && !Bit(0x1a8, 2)
    ensures Bit(0x1a8, 3) && !Bit(0x1a8, 4) && Bit(0x1a8, 5)
    ensures !Bit(0x1a8, 6) && Bit(0x1a8, 7) && Bit(0x1a8, 8)
    ensures Fits(0x1a8, 9)
  {
  }

  /** The cells of the glider and the three bits below its last row. */
  predicate GliderShape(b: nat)
  {
    && !Bit(b, 0) && Bit(b, 1) && !Bit(b, 2)
    && !Bit(b, 3) && !Bit(b, 4) && Bit(b, 5)
    && Bit(b, 6) && Bit(b, 7) && Bit(b, 8)
    && !Bit(b, 9) && !Bit(b, 10) && !Bit(b, 11)
  }

  // One lemma per cell, over any board with the glider's bits: the solver
  // evaluates the rule at one cell cheaply, but not at several within one
  // proof, nor on a literal board, whose bits it tries to compute.
  lemma GliderCell0(b: nat)
    requires GliderShape(b)
    ensures !Bit(NextGen(Game(3, 3, b)).board, 0)
  {
    NextGenBit(Game(3, 3, b), 0, 0);
  }

  lemma GliderCell1(b: nat)
    requires GliderShape(b)
    ensures !Bit(NextGen(Game(3, 3, b)).board, 1)
  {
    NextGenBit(Game(3, 3, b), 1, 0);
  }

  lemma GliderCell2(b: nat)
    requires GliderShape(b)
    ensures !Bit(NextGen(Game(3, 3, b)).board, 2)
  {
    NextGenBit(Game(3, 3, b), 2, 0);
  }

  lemma GliderCell3(b: nat)
    requires GliderShape(b)
    ensures Bit(NextGen(Game(3, 3, b)).board, 3)
  {
    NextGenBit(Game(3, 3, b), 0, 1);
  }

  lemma GliderCell4(b: nat)
    requires GliderShape(b)
    ensures !Bit(NextGen(Game(3, 3, b)).board, 4)
  {
    NextGenBit(Game(3, 3, b), 1, 1);
  }

  lemma GliderCell5(b: nat)
    requires GliderShape(b)
    ensures Bit(NextGen(Game(3, 3, b)).board, 5)
  {
    NextGenBit(Game(3, 3, b), 2, 1);
  }

  lemma GliderCell6(b: nat)
    requires GliderShape(b)
    ensures !Bit(NextGen(Game(3, 3, b)).board, 6)
  {
    NextGenBit(Game(3, 3, b), 0, 2);
  }

  lemma GliderCell7(b: nat)
    requires GliderShape(b)
    ensures Bit(NextGen(Game(3, 3, b)).board, 7)
  {
    NextGenBit(Game(3, 3, b), 1, 2);
  }

  lemma GliderCell8(b: nat)
    requires GliderShape(b)
    ensures Bit(NextGen(Game(3, 3, b)).board, 8)
  {
    NextGenBit(Game(3, 3, b), 2, 2);
  }

  /** Every board whose first nine bits are the glider's, with nothing
      below its last row, steps to "3x3/1a8"'s board. */
  lemma GliderNext(b: nat)
    requires GliderShape(b)
    ensures NextGen(Game(3, 3, b)) == Game(3, 3, 0x1a8)
  {
    GliderCell0(b); GliderCell1(b); GliderCell2(b);
    GliderCell3(b); GliderCell4(b); GliderCell5(b);
    GliderCell6(b); GliderCell7(b); GliderCell8(b);
    assert Size(Game(3, 3, b)) == 9;
    GliderNextBoard(NextGen(Game(3, 3, b)).board);
  }

  /** The only board of nine cells with the glider's next cells is 0x1a8. */
  lemma GliderNextBoard(n: nat)
    requires Fits(n, 9)
    requires !Bit(n, 0) && !Bit(n, 1) && !Bit(n, 2) && Bit(n, 3) && !Bit(n, 4)
    requires Bit(n, 5) && !Bit(n, 6) && Bit(n, 7) && Bit(n, 8)
    ensures n == 0x1a8
  {
    GliderBits();
    forall j: nat
      ensures Bit(n, j) == Bit(0x1a8, j)
    {
      if j >= 9 {
        FitsHighBit(n, 9, j);
        FitsHighBit(0x1a8, 9, j);
      } else {
        assert j in {0, 1, 2, 3, 4, 5, 6, 7, 8};
      }
    }
    BitsDetermine(n, 0x1a8);
  }

  /** `next("3x3/1e2")` returns "3x3/1a8". */
  lemma GliderNextText()
    ensures Unserialize("3x3/1e2") == Game(3, 3, 0x1e2)
    ensures Serialize(NextGen(Unserialize("3x3/1e2"))) == "3x3/1a8"
  {
    SerializeExample();
    GliderBits();
    GliderNext(0x1e2);
    GliderNextStored();
  }

  lemma GliderNextStored()
    ensures Serialize(Game(3, 3, 0x1a8)) == "3x3/1a8"
  {
  }

  /** A board with bits beyond its cells: in "3x1/15" the cells (0, 0) and
      (2, 0) are alive and bit 4 lies under cell (1, 0). That bit is the
      third neighbour which brings (1, 0) to life, where the rule with dead
      borders would leave the row empty. */
  lemma PhantomText()
    ensures Unserialize("3x1/15") == Game(3, 1, 0x15)
    ensures !LifeRule(Live(Game(3, 1, 0x15), 1, 0), LiveNeighbours(Game(3, 1, 0x15), 1, 0))
    ensures Serialize(NextGen(Unserialize("3x1/15"))) == "3x1/2"
  {
    PhantomRead();
    PhantomCells();
    PhantomNeighbour(0x15);
    PhantomStored();
  }

  lemma PhantomRead()
    ensures Unserialize("3x1/15") == Game(3, 1, 0x15)
  {
    SerializeRoundTrip(Game(3, 1, 0x15));
    assert Serialize(Game(3, 1, 0x15)) == "3x1/15";
  }

  lemma PhantomStored()
    ensures Serialize(Game(3, 1, 2)) == "3x1/2"
  {
  }

  /** The same holds on every board of one row of three cells with those
      bits. */
  lemma PhantomNeighbour(b: nat)
    requires PhantomShape(b)
    ensures !LifeRule(Live(Game(3, 1, b), 1, 0), LiveNeighbours(Game(3, 1, b), 1, 0))
    ensures NextGen(Game(3, 1, b)) == Game(3, 1, 2)
  {
    PhantomDeadBorder(b);
    PhantomCell0(b); PhantomCell1(b); PhantomCell2(b);
    assert Size(Game(3, 1, b)) == 3;
    PhantomNextBoard(NextGen(Game(3, 1, b)).board);
  }

  lemma PhantomDeadBorder(b: nat)
    requires PhantomShape(b)
    ensures !LifeRule(Live(Game(3, 1, b), 1, 0), LiveNeighbours(Game(3, 1, b), 1, 0))
  {
  }

  /** The only board of three cells with just the middle one alive is 2. */
  lemma PhantomNextBoard(n: nat)
    requires Fits(n, 3) && !Bit(n, 0) && Bit(n, 1) && !Bit(n, 2)
    ensures n == 2
  {
    PhantomCells();
    forall j: nat
      ensures Bit(n, j) == Bit(2, j)
    {
      if j >= 3 {
        FitsHighBit(n, 3, j);
        FitsHighBit(2, 3, j);
      } else {
        assert j in {0, 1, 2};
      }
    }
    BitsDetermine(n, 2);
  }

  /** The cells of "3x1/15" and the three bits below them. */
  predicate PhantomShape(b: nat)
  {
    Bit(b, 0) && !Bit(b, 1) && Bit(b, 2) && !Bit(b, 3) && Bit(b, 4) && !Bit(b, 5)
  }

  lemma PhantomCell0(b: nat)
    requires PhantomShape(b)
    ensures !Bit(NextGen(Game(3, 1, b)).board, 0)
  {
    NextGenBit(Game(3, 1, b), 0, 0);
  }

  lemma PhantomCell1(b: nat)
    requires PhantomShape(b)
    ensures Bit(NextGen(Game(3, 1, b)).board, 1)
  {
    NextGenBit(Game(3, 1, b), 1, 0);
  }

  lemma PhantomCell2(b: nat)
    requires PhantomShape(b)
    ensures !Bit(NextGen(Game(3, 1, b)).board, 2)
  {
    NextGenBit(Game(3, 1, b), 2, 0);
  }

  lemma PhantomCells()
    ensures Bit(0x15, 0) && !Bit(0x15, 1) && Bit(0x15, 2) && !Bit(0x15, 3) && Bit(0x15, 4)
    ensures !Bit(0x15, 5)
    ensures !Bit(2, 0) && Bit(2, 1) && !Bit(2, 2) && Fits(2, 3)
  {
  }
}
