/** The game value and its storable text `"{cols}x{rows}/{hex board}"`
    (`serialize` and `unserialize` in src/lib/game.js). */
module Codec {
  import opened Bits
  import opened Numerals
  import opened Options

  /** A board of `cols` by `rows` cells; cell (x, y) is bit `y * cols + x`
      of `board`. */
  datatype Game = Game(cols: nat, rows: nat, board: nat)

  /** The number of cells, `cols * rows`. */
  function Size(g: Game): nat
  {
    g.cols * g.rows
  }

  /** Whether the board has no bit set outside its `cols * rows` cells. */
  predicate Canonical(g: Game)
  {
    Fits(g.board, Size(g))
  }

  /** The game `unserialize` falls back to: one dead cell. */
  const Fallback := Game(1, 1, 0)

  /** `serialize`: decimal size, lower-case hexadecimal board. */
  function Serialize(g: Game): string
  {
    ToNumeral(g.cols, 10) + "x" + ToNumeral(g.rows, 10) + "/" + ToNumeral(g.board, 16)
  }

  /** The two character classes of the pattern: `\d` and `[0-9a-f]` (flag `i`). */
  datatype Class = Dec | Hex

  predicate InClass(c: char, cls: Class)
  {
    match cls
    case Dec => IsDecDigit(c)
    case Hex => IsHexDigit(c)
  }

  /** The length of the longest run of `cls` characters from `p`: how far
      a greedy `\d+` or `[0-9a-f]+` reaches. */
  function Run(s: string, p: nat, cls: Class): (k: nat)
    requires p <= |s|
    ensures p + k <= |s|
    decreases |s| - p
  {
    if p < |s| && InClass(s[p], cls) then 1 + Run(s, p + 1, cls) else 0
  }

  /** The run is made of `cls` characters and cannot be extended. */
  lemma {:induction false} RunIsMaximal(s: string, p: nat, cls: Class)
    requires p <= |s|
    ensures Digits(s[p..p + Run(s, p, cls)], cls) || Run(s, p, cls) == 0
    ensures p + Run(s, p, cls) == |s| || !InClass(s[p + Run(s, p, cls)], cls)
    decreases |s| - p
  {
    if p < |s| && InClass(s[p], cls) {
      RunIsMaximal(s, p + 1, cls);
      var k := Run(s, p + 1, cls);
      assert s[p..p + 1 + k] == [s[p]] + s[p + 1..p + 1 + k];
    }
  }

  /** The three captured groups of a match. */
  datatype Groups = Groups(cols: string, rows: string, board: string)

  /** A non-empty string of `cls` characters. */
  predicate Digits(t: string, cls: Class)
  {
    |t| > 0 && forall j :: 0 <= j < |t| ==> InClass(t[j], cls)
  }

  /** The match of `(\d+)x(\d+)\/([0-9a-f]+)` (flag `i`) that starts at `p`,
      if any. Backtracking cannot help the greedy digit groups: a shorter
      group would be followed by a digit, not by `x` or `/`. */
  function MatchAt(s: string, p: nat): (m: Option<Groups>)
    requires p <= |s|
    ensures m.Some? ==> Digits(m.value.cols, Dec) && Digits(m.value.rows, Dec)
                        && Digits(m.value.board, Hex)
  {
    var q := p + Run(s, p, Dec);
    if q == p || q >= |s| || !(s[q] == 'x' || s[q] == 'X') then None
    else
      var r := q + 1 + Run(s, q + 1, Dec);
      if r == q + 1 || r >= |s| || s[r] != '/' then None
      else
        var e := r + 1 + Run(s, r + 1, Hex);
        if e == r + 1 then None
        else
          RunIsMaximal(s, p, Dec);
          assert Digits(s[p..q], Dec);
          RunIsMaximal(s, q + 1, Dec);
          assert Digits(s[q + 1..r], Dec);
          RunIsMaximal(s, r + 1, Hex);
          assert Digits(s[r + 1..e], Hex);
          Some(Groups(s[p..q], s[q + 1..r], s[r + 1..e]))
  }

  /** `str.match(...)`: the match at the leftmost position where there is one. */
  function Search(s: string, p: nat): (m: Option<Groups>)
    requires p <= |s|
    ensures m.Some? ==> Digits(m.value.cols, Dec) && Digits(m.value.rows, Dec)
                        && Digits(m.value.board, Hex)
    decreases |s| - p
  {
    if p == |s| then None
    else match MatchAt(s, p)
      case Some(m) => Some(m)
      case None => Search(s, p + 1)
  }

  /** Every decimal digit is also a hexadecimal one. */
  lemma DecIsHex(t: string)
    requires Digits(t, Dec)
    ensures Digits(t, Hex)
  {
  }

  /** `unserialize`: fail-soft, every text decodes to some game. */
  function Unserialize(s: string): Game
  {
    match Search(s, 0)
    case Some(m) =>
      DecIsHex(m.cols);
      DecIsHex(m.rows);
      Game(FromNumeral(m.cols, 10), FromNumeral(m.rows, 10), FromNumeral(m.board, 16))
    case None => Fallback
  }

  lemma {:induction false} RunStops(s: string, p: nat, k: nat, cls: Class)
    requires p + k <= |s|
    requires forall j :: p <= j < p + k ==> InClass(s[j], cls)
    requires p + k == |s| || !InClass(s[p + k], cls)
    ensures Run(s, p, cls) == k
    decreases k
  {
    if k > 0 {
      RunStops(s, p + 1, k - 1, cls);
    }
  }

  /** A run of digits that ends at a non-digit (or at the end) is read whole. */
  lemma RunOver(u: string, v: string, w: string, cls: Class)
    requires Digits(v, cls)
    requires w == [] || !InClass(w[0], cls)
    ensures Run(u + v + w, |u|, cls) == |v|
  {
    var s := u + v + w;
    forall j | |u| <= j < |u| + |v|
      ensures InClass(s[j], cls)
    {
      assert s[j] == v[j - |u|];
    }
    if w != [] {
      assert s[|u| + |v|] == w[0];
    }
    RunStops(s, |u|, |v|, cls);
  }

  /** The text of a well-formed game matches at its first character, with
      the three groups being exactly its three fields. */
  lemma MatchWellFormed(a: string, b: string, h: string)
    requires Digits(a, Dec) && Digits(b, Dec) && Digits(h, Hex)
    ensures MatchAt(a + "x" + b + "/" + h, 0) == Some(Groups(a, b, h))
  {
    var s := a + "x" + b + "/" + h;
    var q, r := |a|, |a| + 1 + |b|;
    assert Run(s, 0, Dec) == q by {
      RunOver([], a, "x" + b + "/" + h, Dec);
      assert [] + a + ("x" + b + "/" + h) == s;
    }
    assert Run(s, q + 1, Dec) == |b| by {
      RunOver(a + "x", b, "/" + h, Dec);
      assert a + "x" + b + ("/" + h) == s;
    }
    assert Run(s, r + 1, Hex) == |h| by {
      RunOver(a + "x" + b + "/", h, [], Hex);
      assert a + "x" + b + "/" + h + [] == s;
    }
    assert s[q] == 'x' && s[r] == '/';
    assert s[0..q] == a && s[q + 1..r] == b && s[r + 1..|s|] == h;
    MatchOfRuns(s, q, r);
  }

  lemma MatchOfRuns(s: string, q: nat, r: nat)
    requires 0 < q && q + 1 < r && r + 1 < |s|
    requires Run(s, 0, Dec) == q && s[q] == 'x'
    requires Run(s, q + 1, Dec) == r - q - 1 && s[r] == '/'
    requires Run(s, r + 1, Hex) == |s| - r - 1
    ensures MatchAt(s, 0) == Some(Groups(s[0..q], s[q + 1..r], s[r + 1..|s|]))
  {
  }

  /** Decoding what `serialize` wrote gives back the same game, for every
      size and board. */
  lemma SerializeRoundTrip(g: Game)
    ensures Unserialize(Serialize(g)) == g
  {
    var a, b, h := ToNumeral(g.cols, 10), ToNumeral(g.rows, 10), ToNumeral(g.board, 16);
    NumeralDigits(g.cols, 10);
    NumeralDigits(g.rows, 10);
    MatchWellFormed(a, b, h);
    assert Search(Serialize(g), 0) == Some(Groups(a, b, h));
    NumeralRoundTrip(g.cols, 10);
    NumeralRoundTrip(g.rows, 10);
    NumeralRoundTrip(g.board, 16);
  }

  /** The other direction: a text written as `serialize` writes it (decimal
      sizes and a lower-case hexadecimal board, none with a leading zero)
      decodes to a game that is written back as the same text. */
  lemma TextRoundTrip(a: string, b: string, h: string)
    requires Written(a, 10) && Written(b, 10) && Written(h, 16)
    ensures Serialize(Unserialize(a + "x" + b + "/" + h)) == a + "x" + b + "/" + h
  {
    assert Digits(a, Dec) && Digits(b, Dec) && Digits(h, Hex);
    MatchWellFormed(a, b, h);
    assert Search(a + "x" + b + "/" + h, 0) == Some(Groups(a, b, h));
    WrittenRoundTrip(a, 10);
    WrittenRoundTrip(b, 10);
    WrittenRoundTrip(h, 16);
  }

  /** The documented example: a 3 by 3 glider is stored as "3x3/1e2". */
  lemma SerializeExample()
    ensures Serialize(Game(3, 3, 0x1e2)) == "3x3/1e2"
    ensures Unserialize("3x3/1e2") == Game(3, 3, 0x1e2)
  {
    SerializeRoundTrip(Game(3, 3, 0x1e2));
  }

  /** Malformed texts decode to the one-dead-cell game instead of failing:
      a board that is not hexadecimal, a missing row count, a bare number. */
  lemma BadBoardFallsBack()
    ensures Unserialize("3x3/g") == Fallback
  {
    assert MatchAt("3x3/g", 0).None?;
  }

  lemma MissingRowsFallsBack()
    ensures Unserialize("3x/0") == Fallback
  {
  }

  lemma BareNumberFallsBack()
    ensures Unserialize("3") == Fallback
  {
  }
}
