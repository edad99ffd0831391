/** The drawn form of a game (`fromString` and `toString` in
    src/lib/game.js): live cells are drawn `x`, dead cells `.`, the cells
    of a row separated by spaces and the rows by line breaks. */
module Ascii {
  import opened Bits
  import opened Codec
  import opened Generation
  import opened Numerals
  import opened Options

  // ---------------------------------------------------------------------
  // fromString

  /** The characters `/[^.x\n]+/gi` does not remove: the class is matched
      without regard to case, so `X` stays as well. */
  predicate Kept(c: char)
  {
    c == '.' || c == 'x' || c == 'X' || c == '\n'
  }

  /** `str.replaceAll(/[^.x\n]+/gi, '')` */
  function Collapse(s: string): (r: string)
    ensures |r| <= |s|
  {
    if |s| == 0 then "" else (if Kept(s[0]) then [s[0]] else "") + Collapse(s[1..])
  }

  /** Only kept characters are left. */
  lemma {:induction false} CollapseOnlyKept(s: string)
    ensures forall i :: 0 <= i < |Collapse(s)| ==> Kept(Collapse(s)[i])
  {
    if |s| > 0 {
      CollapseOnlyKept(s[1..]);
    }
  }

  /** A text made only of kept characters is left as it is. */
  lemma {:induction false} CollapseKeeps(s: string)
    requires forall i :: 0 <= i < |s| ==> Kept(s[i])
    ensures Collapse(s) == s
  {
    if |s| > 0 {
      CollapseKeeps(s[1..]);
    }
  }

  /** `.trim()` on a collapsed text, where the line break is the only
      white space left: leading line breaks go ... */
  function TrimStart(s: string): (r: string)
    ensures |r| == 0 || r[0] != '\n'
  {
    if |s| > 0 && s[0] == '\n' then TrimStart(s[1..]) else s
  }

  /** Only leading line breaks go: the rest of the text is kept. */
  lemma {:induction false} TrimStartSuffix(s: string)
    ensures var r := TrimStart(s);
      && |r| <= |s| && r == s[|s| - |r|..]
      && forall i :: 0 <= i < |s| - |r| ==> s[i] == '\n'
  {
    if |s| > 0 && s[0] == '\n' {
      TrimStartSuffix(s[1..]);
    }
  }

  /** ... and so do trailing ones. */
  function TrimEnd(s: string): (r: string)
    ensures |r| == 0 || r[|r| - 1] != '\n'
  {
    if |s| > 0 && s[|s| - 1] == '\n' then TrimEnd(s[..|s| - 1]) else s
  }

  /** Only trailing line breaks go: the rest of the text is kept. */
  lemma {:induction false} TrimEndPrefix(s: string)
    ensures var r := TrimEnd(s);
      && |r| <= |s| && r == s[..|r|]
      && forall i :: |r| <= i < |s| ==> s[i] == '\n'
  {
    if |s| > 0 && s[|s| - 1] == '\n' {
      TrimEndPrefix(s[..|s| - 1]);
    }
  }

  function Trim(s: string): string
  {
    TrimEnd(TrimStart(s))
  }

  /** `collapsed.replaceAll('\n', '')` */
  function Oneline(s: string): (r: string)
    ensures |r| <= |s|
  {
    if |s| == 0 then "" else (if s[0] == '\n' then "" else [s[0]]) + Oneline(s[1..])
  }

  /** No line break is left. */
  lemma {:induction false} OnelineNoBreaks(s: string)
    ensures forall i :: 0 <= i < |Oneline(s)| ==> Oneline(s)[i] != '\n'
  {
    if |s| > 0 {
      OnelineNoBreaks(s[1..]);
    }
  }

  /** A text without line breaks is left as it is. */
  lemma {:induction false} OnelineKeeps(s: string)
    requires forall i :: 0 <= i < |s| ==> s[i] != '\n'
    ensures Oneline(s) == s
  {
    if |s| > 0 {
      OnelineKeeps(s[1..]);
    }
  }

  /** The `reduce` of `fromString`: bit `i` is set for every character
      other than `.`. */
  function BoardOf(cells: string): nat
  {
    if |cells| == 0 then 0
    else
      var i := |cells| - 1;
      Or(BoardOf(cells[..i]), Shl(if cells[i] == '.' then 0 else 1, i))
  }

  /** What `fromString` returns: the stored text, or, when the cells do not
      divide evenly into the rows, a width that is not a whole number. */
  datatype Parsed = Text(text: string) | Fractional(cells: nat, rows: nat, board: nat)

  /** `fromString`: the number of rows is one more than the number of line
      breaks left after trimming, and the width is the number of cells
      divided by it. */
  function FromString(s: string): Parsed
  {
    var collapsed := Trim(Collapse(s));
    var oneline := Oneline(collapsed);
    var rows := |collapsed| - |oneline| + 1;
    Shape(|oneline|, rows, BoardOf(oneline))
  }

  /** The width `cells / rows` of `fromString`, serialized when it is a
      whole number. */
  function Shape(cells: nat, rows: nat, board: nat): Parsed
    requires rows >= 1
  {
    match WholeWidth(cells, rows)
    case Some(w) => Text(Serialize(Game(w, rows, board)))
    case None => Fractional(cells, rows, board)
  }

  /** `cells / rows` when it is a whole number, counted one row of cells
      at a time. */
  function WholeWidth(cells: nat, rows: nat): Option<nat>
    requires rows >= 1
    decreases cells
  {
    if cells == 0 then Some(0)
    else if cells < rows then None
    else match WholeWidth(cells - rows, rows)
      case Some(w) => Some(w + 1)
      case None => None
  }

  /** The width is a whole number exactly when the rows divide the cells,
      and it is then their quotient. */
  lemma {:induction false} WholeWidthDivides(cells: nat, rows: nat)
    requires rows >= 1
    ensures WholeWidth(cells, rows) == if cells % rows == 0 then Some(cells / rows) else None
    decreases cells
  {
    if cells == 0 {
      DivUnique(0, rows, 0, 0);
    } else if cells < rows {
      DivUnique(cells, rows, 0, cells);
    } else {
      WholeWidthDivides(cells - rows, rows);
      var q, d := (cells - rows) / rows, (cells - rows) % rows;
      assert cells == (q + 1) * rows + d;
      DivUnique(cells, rows, q + 1, d);
    }
  }

  // ---------------------------------------------------------------------
  // toString

  function CellChar(alive: bool): char
  {
    if alive then 'x' else '.'
  }

  /** `Array.from({ length }, ...)`: one character per cell. */
  function CellChars(b: nat, n: nat): (r: string)
    ensures |r| == n
  {
    if n == 0 then "" else CellChars(b, n - 1) + [CellChar(Bit(b, n - 1))]
  }

  /** `.join(' ')` */
  function Join(cs: string): string
  {
    if |cs| <= 1 then cs else [cs[0], ' '] + Join(cs[1..])
  }

  predicate IsCell(c: char)
  {
    c == '.' || c == 'x'
  }

  /** Whether `(?:[.x][ ]){cols}` matches at the start of `t`. */
  predicate RowAt(t: string, cols: nat)
  {
    && 2 * cols <= |t|
    && forall i :: 0 <= i < 2 * cols ==> if i % 2 == 0 then IsCell(t[i]) else t[i] == ' '
  }

  /** `.replace(new RegExp(..., 'g'), '$&\n')` for a positive `cols`: the
      scan tries each position in turn, and after a match it appends a line
      break and goes on after the matched text. */
  function BreakRows(t: string, cols: nat): string
    requires cols >= 1
    decreases |t|
  {
    if |t| == 0 then ""
    else if RowAt(t, cols) then t[..2 * cols] + "\n" + BreakRows(t[2 * cols..], cols)
    else [t[0]] + BreakRows(t[1..], cols)
  }

  /** The drawing of a decoded game. With no columns there are no cells,
      and the pattern `(?:[.x][ ]){0}` matches the empty text once. */
  function Render(g: Game): string
  {
    if g.cols == 0 then "\n"
    else BreakRows(Join(CellChars(g.board, Size(g))), g.cols)
  }

  /** `toString` */
  function ToString(s: string): string
  {
    Render(Unserialize(s))
  }

  // ---------------------------------------------------------------------
  // Reference layouts

  /** Rows of `cols` cells, the cells separated by a space, each row but
      the last followed by a space and a line break. */
  function Layout(cells: string, cols: nat): string
    requires cols >= 1
    decreases |cells|
  {
    if |cells| <= cols then Join(cells)
    else Join(cells[..cols]) + " \n" + Layout(cells[cols..], cols)
  }

  /** The same rows with the spaces left out. */
  function Grid(cells: string, cols: nat): string
    requires cols >= 1
    decreases |cells|
  {
    if |cells| <= cols then cells
    else cells[..cols] + "\n" + Grid(cells[cols..], cols)
  }

  predicate AllCells(cs: string)
  {
    forall i :: 0 <= i < |cs| ==> IsCell(cs[i])
  }

  // ---------------------------------------------------------------------
  // The board and the cell characters

  /** The reduce sets bit `j` exactly for a character other than `.` at
      position `j`. */
  lemma {:induction false} BoardOfBit(cells: string, j: nat)
    ensures Bit(BoardOf(cells), j) == (j < |cells| && cells[j] != '.')
    decreases |cells|
  {
    if |cells| == 0 {
      BitZero(j);
    } else {
      var i := |cells| - 1;
      var v := if cells[i] == '.' then 0 else 1;
      OrBit(BoardOf(cells[..i]), Shl(v, i), j);
      BoardOfBit(cells[..i], j);
      ShlBit(v, i, j);
      if i <= j {
        BitZero(j - i);
        OneShlBit(0, j - i);
      }
    }
  }

  /** The board read from `n` characters has no bit beyond them. */
  lemma BoardOfFits(cells: string)
    ensures Fits(BoardOf(cells), |cells|)
  {
    forall i: nat | |cells| <= i
      ensures !Bit(BoardOf(cells), i)
    {
      BoardOfBit(cells, i);
    }
    HighBitsFit(BoardOf(cells), |cells|);
  }

  lemma {:induction false} CellCharsAt(b: nat, n: nat, i: nat)
    requires i < n
    ensures CellChars(b, n)[i] == CellChar(Bit(b, i))
    decreases n
  {
    if i < n - 1 {
      CellCharsAt(b, n - 1, i);
    }
  }

  lemma CellCharsAreCells(b: nat, n: nat)
    ensures AllCells(CellChars(b, n))
  {
    forall i | 0 <= i < n
      ensures IsCell(CellChars(b, n)[i])
    {
      CellCharsAt(b, n, i);
    }
  }

  /** Reading back the characters of a board that fits gives the board. */
  lemma BoardOfCellChars(b: nat, n: nat)
    requires Fits(b, n)
    ensures BoardOf(CellChars(b, n)) == b
  {
    forall j: nat
      ensures Bit(BoardOf(CellChars(b, n)), j) == Bit(b, j)
    {
      BoardOfBit(CellChars(b, n), j);
      if j < n {
        CellCharsAt(b, n, j);
      } else {
        FitsHighBit(b, n, j);
      }
    }
    BitsDetermine(BoardOf(CellChars(b, n)), b);
  }

  /** Drawing the board read from cells gives the cells back. */
  lemma CellCharsOfBoard(cs: string)
    requires AllCells(cs)
    ensures CellChars(BoardOf(cs), |cs|) == cs
  {
    forall i | 0 <= i < |cs|
      ensures CellChars(BoardOf(cs), |cs|)[i] == cs[i]
    {
      CellCharsAt(BoardOf(cs), |cs|, i);
      BoardOfBit(cs, i);
    }
  }

  // ---------------------------------------------------------------------
  // Joining and breaking rows

  /** The joined text alternates the cells with spaces. */
  lemma {:induction false} JoinAt(cs: string)
    requires |cs| >= 1
    ensures |Join(cs)| == 2 * |cs| - 1
    ensures forall i :: 0 <= i < |Join(cs)| ==>
      Join(cs)[i] == if i % 2 == 0 then cs[i / 2] else ' '
    decreases |cs|
  {
    if |cs| > 1 {
      var rest := cs[1..];
      JoinAt(rest);
      var t := Join(cs);
      assert t == [cs[0], ' '] + Join(rest);
      forall i | 2 <= i < |t|
        ensures t[i] == if i % 2 == 0 then cs[i / 2] else ' '
      {
        assert t[i] == Join(rest)[i - 2];
        if i % 2 == 0 {
          assert (i - 2) / 2 == i / 2 - 1;
          assert rest[i / 2 - 1] == cs[i / 2];
        }
      }
    }
  }

  /** Joining splits at any cell boundary. */
  lemma {:induction false} JoinSplit(cs: string, k: nat)
    requires 1 <= k < |cs|
    ensures Join(cs) == Join(cs[..k]) + " " + Join(cs[k..])
    decreases k
  {
    if k > 1 {
      JoinSplit(cs[1..], k - 1);
      assert cs[..k][1..] == cs[1..][..k - 1];
      assert cs[1..][k - 1..] == cs[k..];
    }
  }

  /** A row pattern matches at the start of joined cells exactly when more
      than one row's worth of cells is left. */
  lemma RowAtJoin(cs: string, cols: nat)
    requires cols >= 1 && AllCells(cs)
    ensures RowAt(Join(cs), cols) == (|cs| > cols)
  {
    if |cs| > cols {
      JoinAt(cs);
    } else if |cs| >= 1 {
      JoinAt(cs);
    }
  }

  /** A text shorter than one row pattern is left as it is. */
  lemma {:induction false} ShortUnchanged(t: string, cols: nat)
    requires cols >= 1 && |t| < 2 * cols
    ensures BreakRows(t, cols) == t
    decreases |t|
  {
    if |t| > 0 {
      ShortUnchanged(t[1..], cols);
    }
  }

  /** With more than one row of cells left, the first row is matched and
      broken off. */
  lemma BreakRowsStep(cs: string, cols: nat)
    requires cols >= 1 && AllCells(cs) && |cs| > cols
    ensures BreakRows(Join(cs), cols)
      == Join(cs[..cols]) + " \n" + BreakRows(Join(cs[cols..]), cols)
  {
    var t := Join(cs);
    RowAtJoin(cs, cols);
    JoinSplit(cs, cols);
    JoinAt(cs[..cols]);
    var head := Join(cs[..cols]);
    assert t[..2 * cols] == head + " ";
    assert t[2 * cols..] == Join(cs[cols..]);
  }

  /** Breaking the joined cells gives the reference layout. */
  lemma {:induction false} BreakRowsLayout(cs: string, cols: nat)
    requires cols >= 1 && AllCells(cs)
    ensures BreakRows(Join(cs), cols) == Layout(cs, cols)
    decreases |cs|
  {
    if |cs| <= cols {
      if |cs| >= 1 {
        JoinAt(cs);
      }
      ShortUnchanged(Join(cs), cols);
    } else {
      BreakRowsStep(cs, cols);
      assert AllCells(cs[cols..]);
      BreakRowsLayout(cs[cols..], cols);
    }
  }

  /** `toString` of a stored game with at least one column draws its cells
      row by row as in the reference layout. */
  lemma ToStringLayout(g: Game)
    requires g.cols >= 1
    ensures ToString(Serialize(g)) == Layout(CellChars(g.board, Size(g)), g.cols)
  {
    SerializeRoundTrip(g);
    CellCharsAreCells(g.board, Size(g));
    BreakRowsLayout(CellChars(g.board, Size(g)), g.cols);
  }

  // ---------------------------------------------------------------------
  // Reading a layout back

  lemma {:induction false} CollapseAppend(a: string, b: string)
    ensures Collapse(a + b) == Collapse(a) + Collapse(b)
    decreases |a|
  {
    if |a| == 0 {
      assert a + b == b;
    } else {
      var c := if Kept(a[0]) then [a[0]] else "";
      assert (a + b)[0] == a[0];
      assert (a + b)[1..] == a[1..] + b;
      assert Collapse(a + b) == c + Collapse(a[1..] + b);
      CollapseAppend(a[1..], b);
      assert Collapse(a) == c + Collapse(a[1..]);
      assert c + (Collapse(a[1..]) + Collapse(b)) == (c + Collapse(a[1..])) + Collapse(b);
    }
  }

  lemma {:induction false} OnelineAppend(a: string, b: string)
    ensures Oneline(a + b) == Oneline(a) + Oneline(b)
    decreases |a|
  {
    if |a| == 0 {
      assert a + b == b;
    } else {
      var c := if a[0] == '\n' then "" else [a[0]];
      assert (a + b)[0] == a[0];
      assert (a + b)[1..] == a[1..] + b;
      OnelineAppend(a[1..], b);
      assert c + (Oneline(a[1..]) + Oneline(b)) == (c + Oneline(a[1..])) + Oneline(b);
    }
  }

  /** Collapsing joined cells leaves the cells. */
  lemma {:induction false} CollapseJoin(cs: string)
    requires AllCells(cs)
    ensures Collapse(Join(cs)) == cs
    decreases |cs|
  {
    if |cs| > 1 {
      CollapseAppend([cs[0], ' '], Join(cs[1..]));
      CollapseJoin(cs[1..]);
      assert Collapse([cs[0], ' ']) == [cs[0]];
    }
  }

  /** Collapsing the layout drops exactly its spaces. */
  lemma {:induction false} CollapseLayout(cs: string, cols: nat)
    requires cols >= 1 && AllCells(cs)
    ensures Collapse(Layout(cs, cols)) == Grid(cs, cols)
    decreases |cs|
  {
    CollapseJoin(cs);
    if |cs| > cols {
      CollapseJoin(cs[..cols]);
      CollapseAppend(Join(cs[..cols]) + " \n", Layout(cs[cols..], cols));
      CollapseAppend(Join(cs[..cols]), " \n");
      assert Collapse(" \n") == "\n";
      CollapseLayout(cs[cols..], cols);
    }
  }

  lemma RowsStep(cols: nat, rows: nat)
    requires cols >= 1 && rows > 1
    ensures cols * rows == cols * (rows - 1) + cols && cols * (rows - 1) >= cols
  {
    MulMono(1, rows - 1, cols);
  }

  /** Dropping the line breaks of the grid gives back its cells. */
  lemma {:induction false} GridOneline(cs: string, cols: nat)
    requires cols >= 1 && AllCells(cs)
    ensures Oneline(Grid(cs, cols)) == cs
    decreases |cs|
  {
    if |cs| <= cols {
      assert forall i :: 0 <= i < |cs| ==> cs[i] != '\n';
      OnelineKeeps(cs);
    } else {
      var row, rest := cs[..cols], cs[cols..];
      FirstRowOneline(cs, cols);
      GridOneline(rest, cols);
      OnelineAppend(row + "\n", Grid(rest, cols));
      assert row + rest == cs;
    }
  }

  /** The first row loses only its line break, and the rest are cells. */
  lemma FirstRowOneline(cs: string, cols: nat)
    requires cols < |cs| && AllCells(cs)
    ensures Oneline(cs[..cols] + "\n") == cs[..cols] && AllCells(cs[cols..])
  {
    var row := cs[..cols];
    assert forall i :: 0 <= i < |row| ==> row[i] != '\n';
    OnelineKeeps(row);
    OnelineAppend(row, "\n");
    assert Oneline("\n") == "";
    assert row + "" == row;
  }

  /** The grid starts with the first cell and ends with the last. */
  lemma {:induction false} GridEnds(cs: string, cols: nat)
    requires cols >= 1 && |cs| >= 1
    ensures |Grid(cs, cols)| >= 1
    ensures Grid(cs, cols)[0] == cs[0]
    ensures Grid(cs, cols)[|Grid(cs, cols)| - 1] == cs[|cs| - 1]
    decreases |cs|
  {
    if |cs| > cols {
      var rest := cs[cols..];
      GridEnds(rest, cols);
      var r := Grid(rest, cols);
      assert Grid(cs, cols) == cs[..cols] + "\n" + r;
      assert rest[|rest| - 1] == cs[|cs| - 1];
    }
  }

  /** A grid of `rows` full rows has one line break fewer than rows. */
  lemma {:induction false} GridLength(cs: string, cols: nat, rows: nat)
    requires cols >= 1 && rows >= 1 && |cs| == cols * rows
    ensures |Grid(cs, cols)| == |cs| + rows - 1
    decreases rows
  {
    if rows > 1 {
      RowsStep(cols, rows);
      GridLength(cs[cols..], cols, rows - 1);
    }
  }

  /** The grid of `rows` full rows: its cells are `cs`, it has one line
      break fewer than rows, and it starts and ends with a cell. */
  lemma GridShape(cs: string, cols: nat, rows: nat)
    requires cols >= 1 && rows >= 1 && |cs| == cols * rows && AllCells(cs)
    ensures Oneline(Grid(cs, cols)) == cs
    ensures |Grid(cs, cols)| == |cs| + rows - 1
    ensures Grid(cs, cols)[0] == cs[0]
    ensures Grid(cs, cols)[|Grid(cs, cols)| - 1] == cs[|cs| - 1]
  {
    MulMono(1, rows, cols);
    GridOneline(cs, cols);
    GridEnds(cs, cols);
    GridLength(cs, cols, rows);
  }

  /** A drawing of whole rows, however it is spaced, reads as its cells. */
  lemma FromStringLayout(cs: string, cols: nat, rows: nat)
    requires cols >= 1 && rows >= 1 && |cs| == cols * rows && AllCells(cs)
    ensures FromString(Layout(cs, cols)) == Text(Serialize(Game(cols, rows, BoardOf(cs))))
  {
    var grid := Grid(cs, cols);
    CollapseLayout(cs, cols);
    GridShape(cs, cols, rows);
    assert Trim(grid) == grid by {
      assert TrimStart(grid) == grid;
      assert TrimEnd(grid) == grid;
    }
    FromStringParts(Layout(cs, cols), grid, cs, rows);
    ShapeWhole(|cs|, rows, BoardOf(cs), cols);
  }

  // ---------------------------------------------------------------------
  // Round trips

  /** Drawing a stored game and reading the drawing back gives the stored
      text, for every game with a cell and no bits beyond its cells. */
  lemma FromToString(g: Game)
    requires g.cols >= 1 && g.rows >= 1 && Canonical(g)
    ensures FromString(ToString(Serialize(g))) == Text(Serialize(g))
  {
    var cs := CellChars(g.board, Size(g));
    ToStringLayout(g);
    CellCharsAreCells(g.board, Size(g));
    FromStringLayout(cs, g.cols, g.rows);
    BoardOfCellChars(g.board, Size(g));
  }

  /** Reading a drawing of whole rows of `.` and `x` and drawing it again
      gives the same text. */
  lemma ToFromString(cs: string, cols: nat, rows: nat)
    requires cols >= 1 && rows >= 1 && |cs| == cols * rows && AllCells(cs)
    ensures FromString(Layout(cs, cols)).Text?
    ensures ToString(FromString(Layout(cs, cols)).text) == Layout(cs, cols)
  {
    var g := Game(cols, rows, BoardOf(cs));
    FromStringLayout(cs, cols, rows);
    ToStringLayout(g);
    CellCharsOfBoard(cs);
  }

  /** Three cells joined. */
  lemma JoinThree(x: char, y: char, z: char)
    ensures Join([x, y, z]) == [x, ' ', y, ' ', z]
  {
    assert [x, y, z][1..] == [y, z];
    assert [y, z][1..] == [z];
    assert Join([z]) == [z];
    assert Join([y, z]) == [y, ' '] + [z];
    assert Join([x, y, z]) == [x, ' '] + Join([y, z]);
  }

  /** Nine cells laid out in three rows of three. */
  lemma LayoutThreeRows(a: string, b: string, c: string)
    requires |a| == 3 && |b| == 3 && |c| == 3
    ensures Layout(a + (b + c), 3) == Join(a) + " \n" + (Join(b) + " \n" + Join(c))
  {
    var bc := b + c;
    assert bc[..3] == b && bc[3..] == c;
    assert Layout(c, 3) == Join(c);
    assert Layout(bc, 3) == Join(b) + " \n" + Join(c);
    var cs := a + bc;
    assert cs[..3] == a && cs[3..] == bc;
  }

  /** The drawing of the glider in the `toString` test is the layout of its
      cells in rows of three. */
  lemma GliderLayout(cs: string)
    requires cs == ".x...xxxx"
    ensures Layout(cs, 3) == ". x . \n. . x \nx x x"
  {
    assert cs == ".x." + ("..x" + "xxx");
    LayoutThreeRows(".x.", "..x", "xxx");
    JoinThree('.', 'x', '.');
    JoinThree('.', '.', 'x');
    JoinThree('x', 'x', 'x');
  }

  /** The documented drawing of the glider reads as "3x3/1e2", and it
      comes back unchanged from `toString`. */
  lemma GliderDrawing()
    ensures FromString(". x . \n. . x \nx x x") == Text("3x3/1e2")
    ensures ToString("3x3/1e2") == ". x . \n. . x \nx x x"
  {
    GliderLaidOut(".x...xxxx", ". x . \n. . x \nx x x");
  }

  lemma GliderLaidOut(cs: string, s: string)
    requires cs == ".x...xxxx" && s == ". x . \n. . x \nx x x"
    ensures FromString(s) == Text("3x3/1e2")
    ensures ToString("3x3/1e2") == s
  {
    GliderBoardOf(cs);
    ToFromString(cs, 3, 3);
    FromStringLayout(cs, 3, 3);
    SerializeExample();
    GliderLayout(cs);
  }

  lemma GliderBoardOf(cs: string)
    requires cs == ".x...xxxx"
    ensures AllCells(cs) && BoardOf(cs) == 0x1e2
  {
    BoardOfFits(cs);
    forall j: nat
      ensures Bit(BoardOf(cs), j) == Bit(0x1e2, j)
    {
      BoardOfBit(cs, j);
      if j >= 9 {
        FitsHighBit(0x1e2, 9, j);
      } else {
        assert j in {0, 1, 2, 3, 4, 5, 6, 7, 8};
      }
    }
    BitsDetermine(BoardOf(cs), 0x1e2);
  }

  /** Nothing drawn reads as no columns and one row. */
  lemma EmptyDrawing()
    ensures FromString("") == Text(Serialize(Game(0, 1, 0)))
  {
  }

  /** `fromString` depends on its text only through the cells left after
      the clean-up and the number of rows. */
  lemma FromStringParts(s: string, text: string, cells: string, rows: nat)
    requires rows >= 1
    requires Trim(Collapse(s)) == text && Oneline(text) == cells
    requires |text| == |cells| + rows - 1
    ensures FromString(s) == Shape(|cells|, rows, BoardOf(cells))
  {
  }

  /** When the cells split into `rows` rows of `w`, the drawing reads as
      the stored text of the `w` by `rows` game. */
  lemma ShapeWhole(cells: nat, rows: nat, board: nat, w: nat)
    requires rows >= 1 && cells == w * rows
    ensures Shape(cells, rows, board) == Text(Serialize(Game(w, rows, board)))
  {
    assert cells == Offset(rows, 0, w);
    OffsetDivMod(rows, 0, w);
    WholeWidthDivides(cells, rows);
  }

  /** Two rows made only of characters that draw cells, joined by a line
      break, read as their cells in two rows. */
  lemma TwoRows(a: string, b: string)
    requires |a| >= 1 && |b| >= 1 && DrawnRow(a) && DrawnRow(b)
    ensures FromString(a + "\n" + b) == Shape(|a| + |b|, 2, BoardOf(a + b))
  {
    TwoRowsDrawn(a, b);
    ReadsTwoRows(a, b);
  }

  /** Two rows holding an odd number of cells give a width that is not a
      whole number. */
  lemma OddRows(a: string, b: string)
    requires |a| >= 1 && |b| >= 1 && DrawnRow(a) && DrawnRow(b) && (|a| + |b|) % 2 == 1
    ensures FromString(a + "\n" + b).Fractional?
  {
    TwoRowsDrawn(a, b);
    ReadsOddRows(a, b);
  }

  lemma ReadsTwoRows(a: string, b: string)
    requires var t := a + "\n" + b;
      && |t| >= 1 && Drawn(t[0]) && Drawn(t[|t| - 1])
      && CellsOf(t) == a + b && |a + b| == |a| + |b| && Breaks(t) + 1 == 2
    ensures FromString(a + "\n" + b) == Shape(|a| + |b|, 2, BoardOf(a + b))
  {
    ReadsDrawn(a + "\n" + b, a + b, |a| + |b|, 2);
  }

  lemma ReadsOddRows(a: string, b: string)
    requires var t := a + "\n" + b;
      && |t| >= 1 && Drawn(t[0]) && Drawn(t[|t| - 1])
      && CellsOf(t) == a + b && |a + b| == |a| + |b| && Breaks(t) + 1 == 2
    requires (|a| + |b|) % 2 == 1
    ensures FromString(a + "\n" + b).Fractional?
  {
    ReadsDrawn(a + "\n" + b, a + b, |a| + |b|, 2);
    ShapeFractional(|a| + |b|, 2, BoardOf(a + b));
  }

  /** Cells that do not divide into the rows give a width that is not a
      whole number. */
  lemma ShapeFractional(cells: nat, rows: nat, board: nat)
    requires rows >= 1 && cells % rows != 0
    ensures Shape(cells, rows, board).Fractional?
  {
    WholeWidthDivides(cells, rows);
  }

  /** A text that starts and ends with a cell reads its cells, in rows
      one more than its line breaks. */
  lemma ReadsDrawn(t: string, cells: string, n: nat, rows: nat)
    requires |t| >= 1 && Drawn(t[0]) && Drawn(t[|t| - 1])
    requires CellsOf(t) == cells && |cells| == n && Breaks(t) + 1 == rows
    ensures FromString(t) == Shape(n, rows, BoardOf(cells))
  {
    assert t == "" + t + "";
    FromStringReads(t, "", t, "");
  }

  lemma TwoRowsDrawn(a: string, b: string)
    requires |a| >= 1 && |b| >= 1 && DrawnRow(a) && DrawnRow(b)
    ensures var t := a + "\n" + b;
      && |t| >= 1 && Drawn(t[0]) && Drawn(t[|t| - 1])
      && CellsOf(t) == a + b && |a + b| == |a| + |b| && Breaks(t) + 1 == 2
  {
    TwoRowsEnds(a, b);
    TwoRowsCells(a, b);
  }

  lemma TwoRowsEnds(a: string, b: string)
    requires |a| >= 1 && |b| >= 1 && DrawnRow(a) && DrawnRow(b)
    ensures var t := a + "\n" + b; |t| >= 1 && Drawn(t[0]) && Drawn(t[|t| - 1])
  {
    RowDrawn(a);
    RowDrawn(b);
    var t := a + "\n" + b;
    assert t[0] == a[0];
    assert t[|t| - 1] == b[|b| - 1];
  }

  lemma TwoRowsCells(a: string, b: string)
    requires DrawnRow(a) && DrawnRow(b)
    ensures var t := a + "\n" + b;
      CellsOf(t) == a + b && |a + b| == |a| + |b| && Breaks(t) + 1 == 2
  {
    RowDrawn(a);
    RowDrawn(b);
    var nb := "\n" + b;
    assert a + "\n" + b == a + nb;
    assert CellsOf("\n") == "" && Breaks("\n") == 1 by {
      assert "\n"[1..] == "";
    }
    CellsOfAppend(a, nb);
    CellsOfAppend("\n", b);
    BreaksAppend(a, nb);
    BreaksAppend("\n", b);
    assert "" + b == b;
  }

  /** A row made only of characters that draw cells. */
  predicate DrawnRow(a: string)
  {
    |a| == 0 || (Drawn(a[0]) && DrawnRow(a[1..]))
  }

  /** A row of drawn characters draws exactly its own characters, holds no
      line break, and starts and ends with a cell. */
  lemma {:induction false} RowDrawn(a: string)
    requires DrawnRow(a)
    ensures CellsOf(a) == a && Breaks(a) == 0
    ensures |a| >= 1 ==> Drawn(a[0]) && Drawn(a[|a| - 1])
    decreases |a|
  {
    if |a| > 0 {
      RowDrawn(a[1..]);
      assert [a[0]] + a[1..] == a;
      if |a| > 1 {
        assert a[1..][|a| - 2] == a[|a| - 1];
      }
    }
  }

  lemma {:induction false} CellsOfShorter(s: string)
    ensures |CellsOf(s)| <= |s|
    decreases |s|
  {
    if |s| > 0 {
      CellsOfShorter(s[1..]);
    }
  }

  // ---------------------------------------------------------------------
  // What `fromString` reads from any text

  /** A character that draws a cell: `.`, or `x` in either case. */
  predicate Drawn(c: char)
  {
    c == '.' || c == 'x' || c == 'X'
  }

  /** The characters of `s` that draw cells, in order. */
  function CellsOf(s: string): string
  {
    if |s| == 0 then "" else (if Drawn(s[0]) then [s[0]] else "") + CellsOf(s[1..])
  }

  /** The number of line breaks in `s`. */
  function Breaks(s: string): nat
  {
    if |s| == 0 then 0 else (if s[0] == '\n' then 1 else 0) + Breaks(s[1..])
  }

  predicate AllBreaks(s: string)
  {
    forall i :: 0 <= i < |s| ==> s[i] == '\n'
  }

  /** For any text, split as `u + m + v` where `u` and `v` draw no cell
      and `m` is empty or starts and ends with a cell: `fromString` reads
      the cells of the text in order, with one row more than the line
      breaks between the first and the last cell. */
  lemma FromStringReads(s: string, u: string, m: string, v: string)
    requires s == u + m + v && CellsOf(u) == "" && CellsOf(v) == ""
    requires m == "" || (Drawn(m[0]) && Drawn(m[|m| - 1]))
    ensures FromString(s) == Shape(|CellsOf(s)|, Breaks(m) + 1, BoardOf(CellsOf(s)))
  {
    MiddleParts(s, u, m, v);
    ReadsParts(s, m);
  }

  lemma ReadsParts(s: string, m: string)
    requires Trim(Collapse(s)) == Collapse(m) && Oneline(Collapse(m)) == CellsOf(s)
    requires |Collapse(m)| == |CellsOf(s)| + (Breaks(m) + 1) - 1
    ensures FromString(s) == Shape(|CellsOf(s)|, Breaks(m) + 1, BoardOf(CellsOf(s)))
  {
    FromStringParts(s, Collapse(m), CellsOf(s), Breaks(m) + 1);
  }

  lemma MiddleParts(s: string, u: string, m: string, v: string)
    requires s == u + m + v && CellsOf(u) == "" && CellsOf(v) == ""
    requires m == "" || (Drawn(m[0]) && Drawn(m[|m| - 1]))
    ensures Trim(Collapse(s)) == Collapse(m) && Oneline(Collapse(m)) == CellsOf(s)
    ensures |Collapse(m)| == |CellsOf(s)| + (Breaks(m) + 1) - 1
  {
    CleanedMiddle(s, u, m, v);
    MiddleCells(s, u, m, v);
    CleanedCounts(m);
  }

  /** A text that draws no cell reads as no columns and one row. */
  lemma FromStringNoCells(s: string)
    requires CellsOf(s) == ""
    ensures FromString(s) == Text(Serialize(Game(0, 1, 0)))
  {
    assert s == s + "" + "";
    FromStringReads(s, s, "", "");
    EmptyShape(CellsOf(s), Breaks("") + 1);
  }

  lemma EmptyShape(cells: string, rows: nat)
    requires cells == "" && rows == 1
    ensures Shape(|cells|, rows, BoardOf(cells)) == Text(Serialize(Game(0, 1, 0)))
  {
  }

  /** Around a middle that starts and ends with a cell, the clean-up drops
      everything but the middle's own kept characters. */
  lemma CleanedMiddle(s: string, u: string, m: string, v: string)
    requires s == u + m + v && CellsOf(u) == "" && CellsOf(v) == ""
    requires m == "" || (Drawn(m[0]) && Drawn(m[|m| - 1]))
    ensures Trim(Collapse(s)) == Collapse(m)
  {
    CollapseAppend(u + m, v);
    CollapseAppend(u, m);
    NoCellsEmpty(u);
    NoCellsEmpty(v);
    if m != "" {
      CollapseEnds(m);
    }
    TrimMiddle(Collapse(u), Collapse(m), Collapse(v));
  }

  /** The text draws exactly the middle's cells. */
  lemma MiddleCells(s: string, u: string, m: string, v: string)
    requires s == u + m + v && CellsOf(u) == "" && CellsOf(v) == ""
    ensures CellsOf(s) == CellsOf(m)
  {
    CellsOfAppend(u + m, v);
    CellsOfAppend(u, m);
  }

  /** The cleaned middle reads its cells once the line breaks are gone,
      and it is longer than its cells by its line breaks. */
  lemma CleanedCounts(m: string)
    ensures Oneline(Collapse(m)) == CellsOf(m)
    ensures |Collapse(m)| == |CellsOf(m)| + Breaks(m)
  {
    OnelineCollapse(m);
    CollapseBreaks(m);
    OnelineBreaks(Collapse(m));
  }

  lemma {:induction false} CellsOfAppend(a: string, b: string)
    ensures CellsOf(a + b) == CellsOf(a) + CellsOf(b)
    decreases |a|
  {
    if |a| == 0 {
      assert a + b == b;
    } else {
      var c := if Drawn(a[0]) then [a[0]] else "";
      assert (a + b)[0] == a[0];
      assert (a + b)[1..] == a[1..] + b;
      CellsOfAppend(a[1..], b);
      assert c + (CellsOf(a[1..]) + CellsOf(b)) == (c + CellsOf(a[1..])) + CellsOf(b);
    }
  }

  lemma {:induction false} BreaksAppend(a: string, b: string)
    ensures Breaks(a + b) == Breaks(a) + Breaks(b)
    decreases |a|
  {
    if |a| == 0 {
      assert a + b == b;
    } else {
      assert (a + b)[0] == a[0];
      assert (a + b)[1..] == a[1..] + b;
      BreaksAppend(a[1..], b);
    }
  }

  /** A text that draws no cell leaves only line breaks after the
      clean-up. */
  lemma {:induction false} NoCellsEmpty(u: string)
    requires CellsOf(u) == ""
    ensures AllBreaks(Collapse(u))
    decreases |u|
  {
    if |u| > 0 {
      CellsOfShorter(u[1..]);
      assert !Drawn(u[0]);
      NoCellsEmpty(u[1..]);
      var c := if Kept(u[0]) then [u[0]] else "";
      assert Collapse(u) == c + Collapse(u[1..]);
      assert AllBreaks(c);
    }
  }

  /** The clean-up keeps the first and the last character of a text that
      starts and ends with a cell. */
  lemma CollapseEnds(m: string)
    requires |m| >= 1 && Drawn(m[0]) && Drawn(m[|m| - 1])
    ensures var cm := Collapse(m); |cm| >= 1 && cm[0] != '\n' && cm[|cm| - 1] != '\n'
  {
    var k := |m| - 1;
    var c := m[k];
    assert m == m[..k] + [c];
    CollapseAppend(m[..k], [c]);
    assert [c][1..] == "";
    assert Collapse([c]) == [c];
    assert Collapse(m) == [m[0]] + Collapse(m[1..]);
  }

  /** Trimming removes line breaks around a text that neither starts nor
      ends with one. */
  lemma TrimMiddle(before: string, x: string, after: string)
    requires AllBreaks(before) && AllBreaks(after)
    requires x == "" || (x[0] != '\n' && x[|x| - 1] != '\n')
    ensures Trim(before + x + after) == x
  {
    assert before + x + after == before + (x + after);
    TrimStartBreaks(before, x + after);
    if x == "" {
      assert x + after == after + "";
      TrimStartBreaks(after, "");
    } else {
      assert (x + after)[0] == x[0];
      TrimEndBreaks(x, after);
    }
  }

  lemma {:induction false} TrimStartBreaks(nl: string, x: string)
    requires AllBreaks(nl)
    ensures TrimStart(nl + x) == TrimStart(x)
    decreases |nl|
  {
    if |nl| == 0 {
      assert nl + x == x;
    } else {
      assert (nl + x)[0] == '\n';
      assert (nl + x)[1..] == nl[1..] + x;
      TrimStartBreaks(nl[1..], x);
    }
  }

  lemma {:induction false} TrimEndBreaks(x: string, nl: string)
    requires AllBreaks(nl)
    ensures TrimEnd(x + nl) == TrimEnd(x)
    decreases |nl|
  {
    if |nl| == 0 {
      assert x + nl == x;
    } else {
      var k := |nl| - 1;
      assert (x + nl)[|x + nl| - 1] == '\n';
      assert (x + nl)[..|x + nl| - 1] == x + nl[..k];
      TrimEndBreaks(x, nl[..k]);
    }
  }

  /** Removing the line breaks from the cleaned text leaves its cells. */
  lemma {:induction false} OnelineCollapse(s: string)
    ensures Oneline(Collapse(s)) == CellsOf(s)
    decreases |s|
  {
    if |s| > 0 {
      var c := if Kept(s[0]) then [s[0]] else "";
      OnelineCollapse(s[1..]);
      OnelineAppend(c, Collapse(s[1..]));
      if Kept(s[0]) {
        assert c[1..] == "";
      }
    }
  }

  /** The clean-up keeps every line break. */
  lemma {:induction false} CollapseBreaks(s: string)
    ensures Breaks(Collapse(s)) == Breaks(s)
    decreases |s|
  {
    if |s| > 0 {
      var c := if Kept(s[0]) then [s[0]] else "";
      CollapseBreaks(s[1..]);
      BreaksAppend(c, Collapse(s[1..]));
      if Kept(s[0]) {
        assert c[1..] == "";
      }
    }
  }

  /** Removing the line breaks shortens a text by their number. */
  lemma {:induction false} OnelineBreaks(s: string)
    ensures |s| - |Oneline(s)| == Breaks(s)
    decreases |s|
  {
    if |s| > 0 {
      OnelineBreaks(s[1..]);
    }
  }
}
