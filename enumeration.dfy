/** Listing the cells of a stored game (`createIterator` in
    src/lib/game.js). The generator is modelled by the finite list of the
    records it yields, in order. */
module Enumeration {
  import opened Bits
  import opened Codec
  import opened Cells
  import opened Generation

  /** One yielded record `{ value, x, y }`. */
  datatype CellRecord = CellRecord(value: bool, x: int, y: int)

  /** Record `i` as the source computes it: the column is `i % rows` and the
      row `Math.trunc(i / cols)`. */
  function CellAt(g: Game, i: nat): CellRecord
    requires i < Size(g)
  {
    assert g.rows != 0;
    CellRecord(Bit(g.board, i), i % g.rows, i / g.cols)
  }

  /** `createIterator`: a record for every index below `cols * rows`, in
      increasing order. */
  method Enumerate(s: string) returns (cells: seq<CellRecord>)
    ensures var g := Unserialize(s);
      && |cells| == Size(g)
      && forall i :: 0 <= i < |cells| ==> cells[i] == CellAt(g, i)
  {
    var g := Unserialize(s);
    var length := Size(g);
    cells := [];
    for i := 0 to length
      invariant |cells| == i
      invariant forall k :: 0 <= k < i ==> cells[k] == CellAt(g, k)
    {
      var value := Bit(g.board, i);
      var x := i % g.rows;
      var y := i / g.cols;
      cells := cells + [CellRecord(value, x, y)];
    }
  }

  /** Every record carries the value of its own bit and the row that bit is
      in; on a square board its coordinates also name that cell, so its
      value is what `get` answers there. */
  lemma CellAtSquare(g: Game, i: nat)
    requires i < Size(g)
    ensures CellAt(g, i).value == Bit(g.board, i)
    ensures CellAt(g, i).y == i / g.cols && CellAt(g, i).y < g.rows
    ensures g.cols == g.rows ==>
      var r := CellAt(g, i);
      && 0 <= r.x < g.cols
      && Index(g.cols, r.x, r.y) == i
      && r.value == Get(Serialize(g), r.x, r.y)
  {
    Decompose(g.cols, i);
    OffsetBound(g.cols, g.rows, i % g.cols, i / g.cols);
    SerializeRoundTrip(g);
    var r := CellAt(g, i);
    if g.cols == g.rows {
      GetIsBit(Serialize(g), r.x, r.y);
    }
  }

  /** On a board four cells wide and two high, record 2 names cell (0, 0)
      but carries the value of cell (2, 0): for "4x2/4", whose only live
      cell is (2, 0), it reports (0, 0) as live although `get` finds it
      dead. */
  lemma IteratorMislabels()
    ensures var r := CellAt(Game(4, 2, 4), 2);
      && r == CellRecord(true, 0, 0)
      && !Get(Serialize(Game(4, 2, 4)), 0, 0)
  {
    SerializeRoundTrip(Game(4, 2, 4));
    GetIsBit(Serialize(Game(4, 2, 4)), 0, 0);
    assert Bit(4, 2) && !Bit(4, 0);
  }

  /** Record `i` as the coordinate comments of src/lib/game.js describe
      it: column `i % cols`, row `i / cols`. */
  function IntendedCellAt(g: Game, i: nat): CellRecord
    requires i < Size(g)
  {
    CellRecord(Bit(g.board, i), i % g.cols, i / g.cols)
  }

  /** On every board, the intended record names an on-board cell whose
      index is `i`, and its value is what `get` answers there. */
  lemma IntendedCellAtAgreesWithGet(g: Game, i: nat)
    requires i < Size(g)
    ensures var r := IntendedCellAt(g, i);
      && 0 <= r.x < g.cols && 0 <= r.y < g.rows
      && Index(g.cols, r.x, r.y) == i
      && r.value == Get(Serialize(g), r.x, r.y)
  {
    Decompose(g.cols, i);
    OffsetBound(g.cols, g.rows, i % g.cols, i / g.cols);
    SerializeRoundTrip(g);
    GetIsBit(Serialize(g), i % g.cols, i / g.cols);
  }
}
