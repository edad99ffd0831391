/** Reading and flipping one cell of a stored game (`get` and `toggle` in
    src/lib/game.js). Coordinates are not checked against the size: they
    only select the bit `y * cols + x`, and a bit outside the board reads
    as dead and is never flipped. */
module Cells {
  import opened Bits
  import opened Codec

  /** The bit a coordinate pair selects on a board `cols` wide. */
  function Index(cols: nat, x: int, y: int): int
  {
    y * cols + x
  }

  /** `1n << BigInt(index)`: a negative shift count shifts right, and
      `1n >> k` is zero for every positive `k`. */
  function OneAt(index: int): nat
  {
    if index >= 0 then Shl(1, index) else 0
  }

  /** `get`: `!!(board & (1n << BigInt(index)))`. */
  predicate Get(s: string, x: int, y: int)
  {
    var g := Unserialize(s);
    And(g.board, OneAt(Index(g.cols, x, y))) != 0
  }

  /** The new board `toggle` computes: the single-bit mask restricted to the
      valid cells `2n ** BigInt(cols * rows) - 1n`, then XOR-ed in. */
  function ToggleBoard(g: Game, x: int, y: int): nat
  {
    var validCells := LowMask(Size(g));
    Xor(g.board, And(OneAt(Index(g.cols, x, y)), validCells))
  }

  /** `toggle` */
  function Toggle(s: string, x: int, y: int): string
  {
    var g := Unserialize(s);
    Serialize(Game(g.cols, g.rows, ToggleBoard(g, x, y)))
  }

  /** Whether (x, y) selects a bit inside the board. */
  predicate OnBoard(g: Game, x: int, y: int)
  {
    0 <= Index(g.cols, x, y) < Size(g)
  }

  lemma OneAtBit(index: int, i: nat)
    ensures Bit(OneAt(index), i) == (i == index)
  {
    if index >= 0 {
      OneShlBit(index, i);
    } else {
      BitZero(i);
    }
  }

  /** `get` reads exactly the bit `y * cols + x` of the decoded board, and a
      negative index reads as dead. */
  lemma GetIsBit(s: string, x: int, y: int)
    ensures var g := Unserialize(s); var i := Index(g.cols, x, y);
      Get(s, x, y) == (i >= 0 && Bit(g.board, i))
  {
    var g := Unserialize(s);
    var i := Index(g.cols, x, y);
    var m := And(g.board, OneAt(i));
    forall j: nat
      ensures Bit(m, j) == (j == i && Bit(g.board, j))
    {
      AndBit(g.board, OneAt(i), j);
      OneAtBit(i, j);
    }
    if i >= 0 && Bit(g.board, i) {
      BitZero(i);
    } else {
      NoBitsZero(m);
    }
  }

  /** On a canonical board, every coordinate pair whose index falls outside
      the board reads as dead. */
  lemma GetOffBoard(g: Game, x: int, y: int)
    requires Canonical(g) && !OnBoard(g, x, y)
    ensures !Get(Serialize(g), x, y)
  {
    SerializeRoundTrip(g);
    GetIsBit(Serialize(g), x, y);
    var i := Index(g.cols, x, y);
    if i >= 0 {
      FitsHighBit(g.board, Size(g), i);
    }
  }

  /** `toggle` keeps the size and flips exactly the selected bit when it is
      on the board; every other bit, and every bit when it is off the
      board, stays as it was. */
  lemma ToggleBit(g: Game, x: int, y: int, j: nat)
    ensures Bit(ToggleBoard(g, x, y), j)
         == (Bit(g.board, j) != (j == Index(g.cols, x, y) && OnBoard(g, x, y)))
  {
    var i := Index(g.cols, x, y);
    var n := Size(g);
    XorBit(g.board, And(OneAt(i), LowMask(n)), j);
    AndBit(OneAt(i), LowMask(n), j);
    OneAtBit(i, j);
    LowMaskBit(n, j);
  }

  /** Read through the text: after a toggle, `get` answers differently at
      the toggled on-board cell and the same everywhere else. */
  lemma GetAfterToggle(g: Game, x: int, y: int, x': int, y': int)
    ensures var i, i' := Index(g.cols, x, y), Index(g.cols, x', y');
      Get(Toggle(Serialize(g), x, y), x', y')
        == (Get(Serialize(g), x', y') != (i' == i && OnBoard(g, x, y)))
  {
    SerializeRoundTrip(g);
    var t := Game(g.cols, g.rows, ToggleBoard(g, x, y));
    SerializeRoundTrip(t);
    GetIsBit(Serialize(g), x', y');
    GetIsBit(Toggle(Serialize(g), x, y), x', y');
    var i' := Index(g.cols, x', y');
    if i' >= 0 {
      ToggleBit(g, x, y, i');
    }
  }

  /** Toggling the same cell twice gives back the stored text. */
  lemma ToggleTwice(g: Game, x: int, y: int)
    ensures Toggle(Toggle(Serialize(g), x, y), x, y) == Serialize(g)
  {
    var t := Game(g.cols, g.rows, ToggleBoard(g, x, y));
    ToggleStored(g, x, y);
    ToggleStored(t, x, y);
    assert ToggleBoard(t, x, y) == g.board by {
      XorTwice(g.board, And(OneAt(Index(g.cols, x, y)), LowMask(Size(g))));
    }
    assert Game(t.cols, t.rows, ToggleBoard(t, x, y)) == g;
  }

  /** A coordinate pair off the board leaves the stored text unchanged. */
  lemma ToggleOffBoard(g: Game, x: int, y: int)
    requires !OnBoard(g, x, y)
    ensures Toggle(Serialize(g), x, y) == Serialize(g)
  {
    SerializeRoundTrip(g);
    forall j: nat
      ensures Bit(ToggleBoard(g, x, y), j) == Bit(g.board, j)
    {
      ToggleBit(g, x, y, j);
    }
    BitsDetermine(ToggleBoard(g, x, y), g.board);
  }

  /** Toggling never sets a bit outside a canonical board. */
  lemma ToggleCanonical(g: Game, x: int, y: int)
    requires Canonical(g)
    ensures Canonical(Unserialize(Toggle(Serialize(g), x, y)))
  {
    SerializeRoundTrip(g);
    var t := Game(g.cols, g.rows, ToggleBoard(g, x, y));
    SerializeRoundTrip(t);
    var n := Size(g);
    forall j: nat | n <= j
      ensures !Bit(t.board, j)
    {
      ToggleBit(g, x, y, j);
      FitsHighBit(g.board, n, j);
    }
    HighBitsFit(t.board, n);
  }

  /** `toggle` on a stored game writes the same size with the toggled board. */
  lemma ToggleStored(g: Game, x: int, y: int)
    ensures Toggle(Serialize(g), x, y) == Serialize(Game(g.cols, g.rows, ToggleBoard(g, x, y)))
  {
    SerializeRoundTrip(g);
  }

  /** The values `toggle` works with on the glider at (1, 0): the cell mask
      `1n << 1n` restricted to the valid cells `2n ** 9n - 1n`, and the new
      board. */
  lemma GliderMask()
    ensures OneAt(Index(3, 1, 0)) == 2 && LowMask(3 * 3) == 0x1ff
  {
  }

  lemma GliderBoard()
    ensures ToggleBoard(Game(3, 3, 0x1e2), 1, 0) == 0x1e0
  {
    GliderMask();
    GliderAnd();
    GliderXor();
  }

  lemma GliderAnd()
    ensures And(2, 0x1ff) == 2
  {
  }

  lemma GliderXor()
    ensures Xor(0x1e2, 2) == 0x1e0
  {
  }

  lemma GliderStored()
    ensures Serialize(Game(3, 3, 0x1e0)) == "3x3/1e0"
  {
  }

  /** The documented examples on the 3 by 3 glider "3x3/1e2": toggling
      (1, 0) clears that cell, and (0, 1) reads as dead. */
  lemma GliderToggle()
    ensures Toggle("3x3/1e2", 1, 0) == "3x3/1e0"
  {
    SerializeExample();
    GliderBoard();
    GliderStored();
    ToggleStored(Game(3, 3, 0x1e2), 1, 0);
  }

  lemma GliderGet()
    ensures !Get("3x3/1e2", 0, 1)
  {
    SerializeExample();
    GetIsBit("3x3/1e2", 0, 1);
    assert !Bit(0x1e2, 3);
  }
}
