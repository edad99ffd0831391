/** Non-negative arbitrary-precision integers seen as bit vectors.

    The engine keeps a whole board in one BigInt and only ever applies
    `&`, `|`, `^`, `& ~`, `<<` and `>>` to non-negative values. This module
    gives those operators on `nat` and states each of them bit by bit, so
    that every later proof can reason about one cell at a time. */
module Bits {

  function Pow2(k: nat): (r: nat)
    ensures r >= 1
  {
    if k == 0 then 1 else 2 * Pow2(k - 1)
  }

  /** Whether bit `i` of `b` is set, i.e. `(b >> i) & 1 == 1`. */
  predicate Bit(b: nat, i: nat)
  {
    if i == 0 then b % 2 == 1 else Bit(b / 2, i - 1)
  }

  function Ind(p: bool): nat
  {
    if p then 1 else 0
  }

  /** The four bitwise connectives the engine uses. */
  datatype BitOp = AndOp | OrOp | XorOp | AndNotOp

  predicate Apply(op: BitOp, p: bool, q: bool)
  {
    match op
    case AndOp => p && q
    case OrOp => p || q
    case XorOp => p != q
    case AndNotOp => p && !q
  }

  /** `a op b` computed one bit at a time from the least significant end. */
  function Bitwise(op: BitOp, a: nat, b: nat): nat
    decreases a + b
  {
    if a == 0 && b == 0 then 0
    else 2 * Bitwise(op, a / 2, b / 2) + Ind(Apply(op, a % 2 == 1, b % 2 == 1))
  }

  /** `a & b` */
  function And(a: nat, b: nat): nat { Bitwise(AndOp, a, b) }
  /** `a | b` */
  function Or(a: nat, b: nat): nat { Bitwise(OrOp, a, b) }
  /** `a ^ b` */
  function Xor(a: nat, b: nat): nat { Bitwise(XorOp, a, b) }
  /** `a & ~b`: the result of a BigInt `~` is negative, but masked by a
      non-negative `a` it is again a natural number. */
  function AndNot(a: nat, b: nat): nat { Bitwise(AndNotOp, a, b) }

  /** `a << k` */
  function Shl(a: nat, k: nat): nat
  {
    if k == 0 then a else 2 * Shl(a, k - 1)
  }

  /** `a >> k` (floor division by 2^k) */
  function Shr(a: nat, k: nat): nat
  {
    if k == 0 then a else Shr(a / 2, k - 1)
  }

  /** A board of `n` cells is canonical when no bit at or above `n` is set. */
  predicate Fits(b: nat, n: nat)
  {
    b < Pow2(n)
  }

  /** The bits of a sequence of booleans, element 0 least significant. */
  function Pack(bits: seq<bool>): (r: nat)
    ensures Fits(r, |bits|)
  {
    if |bits| == 0 then 0 else 2 * Pack(bits[1..]) + Ind(bits[0])
  }

  lemma {:induction false} BitZero(i: nat)
    ensures !Bit(0, i)
  {
    if i > 0 {
      BitZero(i - 1);
    }
  }

  lemma {:induction false} BitwiseBit(op: BitOp, a: nat, b: nat, i: nat)
    ensures Bit(Bitwise(op, a, b), i) == Apply(op, Bit(a, i), Bit(b, i))
    decreases i
  {
    if a == 0 && b == 0 {
      BitZero(i);
    } else if i > 0 {
      BitwiseBit(op, a / 2, b / 2, i - 1);
    }
  }

  lemma AndBit(a: nat, b: nat, i: nat)
    ensures Bit(And(a, b), i) == (Bit(a, i) && Bit(b, i))
  {
    BitwiseBit(AndOp, a, b, i);
  }

  lemma OrBit(a: nat, b: nat, i: nat)
    ensures Bit(Or(a, b), i) == (Bit(a, i) || Bit(b, i))
  {
    BitwiseBit(OrOp, a, b, i);
  }

  lemma XorBit(a: nat, b: nat, i: nat)
    ensures Bit(Xor(a, b), i) == (Bit(a, i) != Bit(b, i))
  {
    BitwiseBit(XorOp, a, b, i);
  }

  lemma AndNotBit(a: nat, b: nat, i: nat)
    ensures Bit(AndNot(a, b), i) == (Bit(a, i) && !Bit(b, i))
  {
    BitwiseBit(AndNotOp, a, b, i);
  }

  /** Two naturals with the same bits are equal. */
  lemma {:induction false} BitsDetermine(a: nat, b: nat)
    requires forall i: nat :: Bit(a, i) == Bit(b, i)
    ensures a == b
    decreases a + b
  {
    if a != 0 || b != 0 {
      assert Bit(a, 0) == Bit(b, 0);
      forall i: nat
        ensures Bit(a / 2, i) == Bit(b / 2, i)
      {
        assert Bit(a, i + 1) == Bit(b, i + 1);
      }
      BitsDetermine(a / 2, b / 2);
    }
  }

  lemma {:induction false} ShlBit(a: nat, k: nat, i: nat)
    ensures Bit(Shl(a, k), i) == (k <= i && Bit(a, i - k))
    decreases k
  {
    if k > 0 {
      if i > 0 {
        ShlBit(a, k - 1, i - 1);
      }
    }
  }

  lemma {:induction false} ShrBit(a: nat, k: nat, i: nat)
    ensures Bit(Shr(a, k), i) == Bit(a, i + k)
    decreases k
  {
    if k > 0 {
      ShrBit(a / 2, k - 1, i);
    }
  }

  /** `1 << k` is `2 ** k`, the number whose only bit is `k`. */
  lemma {:induction false} OneShlBit(k: nat, i: nat)
    ensures Shl(1, k) == Pow2(k)
    ensures Bit(Pow2(k), i) == (i == k)
    decreases k
  {
    if k == 0 {
      if i > 0 {
        BitZero(i - 1);
      }
    } else {
      OneShlBit(k - 1, if i == 0 then 0 else i - 1);
    }
  }

  /** `2 ** n - 1`: the mask of the `n` lowest bits. */
  function LowMask(n: nat): nat
  {
    Pow2(n) - 1
  }

  /** `2 ** n - 1` has exactly the bits below `n`. */
  lemma {:induction false} LowMaskBit(n: nat, i: nat)
    ensures Bit(LowMask(n), i) == (i < n)
    decreases n
  {
    if n == 0 {
      BitZero(i);
    } else if i > 0 {
      LowMaskBit(n - 1, i - 1);
    }
  }

  lemma {:induction false} FitsHighBit(b: nat, n: nat, i: nat)
    requires Fits(b, n) && n <= i
    ensures !Bit(b, i)
    decreases n
  {
    if n == 0 {
      BitZero(i);
    } else {
      FitsHighBit(b / 2, n - 1, i - 1);
    }
  }

  lemma {:induction false} HighBitsFit(b: nat, n: nat)
    requires forall i: nat :: n <= i ==> !Bit(b, i)
    ensures Fits(b, n)
    decreases n
  {
    if n == 0 {
      forall i: nat
        ensures Bit(b, i) == Bit(0, i)
      {
        BitZero(i);
      }
      BitsDetermine(b, 0);
    } else {
      forall i: nat | n - 1 <= i
        ensures !Bit(b / 2, i)
      {
        assert !Bit(b, i + 1);
      }
      HighBitsFit(b / 2, n - 1);
    }
  }

  lemma {:induction false} PackBit(bits: seq<bool>, i: nat)
    ensures Bit(Pack(bits), i) == (i < |bits| && bits[i])
    decreases |bits|
  {
    if |bits| == 0 {
      BitZero(i);
    } else if i > 0 {
      PackBit(bits[1..], i - 1);
    }
  }

  /** Toggling the same bits twice restores the original value. */
  lemma XorTwice(a: nat, m: nat)
    ensures Xor(Xor(a, m), m) == a
  {
    forall i: nat
      ensures Bit(Xor(Xor(a, m), m), i) == Bit(a, i)
    {
      XorBit(Xor(a, m), m, i);
      XorBit(a, m, i);
    }
    BitsDetermine(Xor(Xor(a, m), m), a);
  }

  /** A natural none of whose bits is set is zero. */
  lemma NoBitsZero(a: nat)
    requires forall i: nat :: !Bit(a, i)
    ensures a == 0
  {
    forall i: nat
      ensures Bit(a, i) == Bit(0, i)
    {
      BitZero(i);
    }
    BitsDetermine(a, 0);
  }
}
