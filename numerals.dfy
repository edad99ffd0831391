/** Positional numerals as JavaScript writes and reads them: `Number`'s
    and `BigInt`'s `toString(base)` (lower-case digits, no prefix, no
    leading zeros) and the digit strings accepted by `parseInt(s, 10)`,
    `BigInt("0x" + s)` and `BigInt("0b" + s)`. */
module Numerals {

  predicate IsDecDigit(c: char)
  {
    '0' <= c <= '9'
  }

  /** A hexadecimal digit in either case, as `[0-9a-f]` matches it under
      the `i` flag. */
  predicate IsHexDigit(c: char)
  {
    '0' <= c <= '9' || 'a' <= c <= 'f' || 'A' <= c <= 'F'
  }

  /** The value of one digit, upper- and lower-case letters alike. */
  function DigitValue(c: char): (d: nat)
    requires IsHexDigit(c)
    ensures d < 16
    ensures IsDecDigit(c) <==> d < 10
  {
    if '0' <= c <= '9' then c as int - '0' as int
    else if 'a' <= c <= 'f' then c as int - 'a' as int + 10
    else c as int - 'A' as int + 10
  }

  /** The lower-case character for digit `d`. */
  function DigitChar(d: nat): (c: char)
    requires d < 16
    ensures IsHexDigit(c) && DigitValue(c) == d
    ensures '0' <= c <= '9' || 'a' <= c <= 'f'
  {
    if d < 10 then ('0' as int + d) as char else ('a' as int + d - 10) as char
  }

  /** `n.toString(base)` */
  function ToNumeral(n: nat, base: nat): (s: string)
    requires 2 <= base <= 16
    ensures |s| >= 1
    ensures forall j :: 0 <= j < |s| ==> IsHexDigit(s[j])
    decreases n
  {
    if n < base then [DigitChar(n)]
    else
      var q, r := n / base, n % base;
      DivideByBase(n, base);
      ToNumeral(q, base) + [DigitChar(r)]
  }

  lemma DivideByBase(n: nat, base: nat)
    requires 2 <= base <= n
    ensures 1 <= n / base < n && n % base < base
    ensures n == (n / base) * base + n % base
  {
  }

  /** `toString(base)` writes only lower-case digits below `base`, and no
      leading zero. */
  lemma {:induction false} NumeralDigits(n: nat, base: nat)
    requires 2 <= base <= 16
    ensures var s := ToNumeral(n, base);
      && (forall j :: 0 <= j < |s| ==> IsHexDigit(s[j]) && DigitValue(s[j]) < base)
      && (forall j :: 0 <= j < |s| ==> '0' <= s[j] <= '9' || 'a' <= s[j] <= 'f')
      && (s[0] == '0' ==> n == 0)
    decreases n
  {
    if n >= base {
      DivideByBase(n, base);
      NumeralDigits(n / base, base);
    }
  }

  /** The value of a digit string in `base`, most significant digit first. */
  function FromNumeral(s: string, base: nat): nat
    requires forall j :: 0 <= j < |s| ==> IsHexDigit(s[j])
  {
    if s == [] then 0
    else FromNumeral(s[..|s| - 1], base) * base + DigitValue(s[|s| - 1])
  }

  /** Reading back what `toString(base)` wrote gives the number again. */
  lemma {:induction false} NumeralRoundTrip(n: nat, base: nat)
    requires 2 <= base <= 16
    ensures FromNumeral(ToNumeral(n, base), base) == n
    decreases n
  {
    if n >= base {
      var s, p, c := ToNumeral(n, base), ToNumeral(n / base, base), DigitChar(n % base);
      assert s == p + [c];
      assert s[..|s| - 1] == p;
      DivideByBase(n, base);
      NumeralRoundTrip(n / base, base);
      assert FromNumeral(s, base) == FromNumeral(p, base) * base + DigitValue(c);
    }
  }

  /** A numeral in the form `toString(base)` writes: at least one digit,
      each lower-case and below `base`, and no leading zero unless the
      numeral is "0". */
  predicate Written(t: string, base: nat)
  {
    && |t| >= 1
    && (forall j :: 0 <= j < |t| ==>
          ('0' <= t[j] <= '9' || 'a' <= t[j] <= 'f') && DigitValue(t[j]) < base)
    && (t[0] == '0' ==> |t| == 1)
  }

  /** A numeral that does not start with `0` has a positive value. */
  lemma {:induction false} FromNumeralPositive(t: string, base: nat)
    requires base >= 2 && Written(t, base) && t[0] != '0'
    ensures FromNumeral(t, base) >= 1
    decreases |t|
  {
    var p := t[..|t| - 1];
    if |t| > 1 {
      WrittenPrefix(t, base);
      FromNumeralPositive(p, base);
      MulMono(1, FromNumeral(p, base), base);
    } else {
      assert p == [];
    }
  }

  /** Writing the value of a numeral in that form gives the numeral back:
      together with `NumeralDigits`, these are exactly the texts
      `toString(base)` produces. */
  lemma {:induction false} WrittenRoundTrip(t: string, base: nat)
    requires 2 <= base <= 16 && Written(t, base)
    ensures ToNumeral(FromNumeral(t, base), base) == t
    decreases |t|
  {
    if |t| == 1 {
      WrittenDigit(t, base);
    } else {
      var p := t[..|t| - 1];
      WrittenPrefix(t, base);
      WrittenRoundTrip(p, base);
      FromNumeralPositive(p, base);
      AppendDigit(t, base);
      assert p + [t[|t| - 1]] == t;
    }
  }

  lemma WrittenDigit(t: string, base: nat)
    requires 2 <= base <= 16 && Written(t, base) && |t| == 1
    ensures ToNumeral(FromNumeral(t, base), base) == t
  {
    var c := t[0];
    DigitCharOfValue(c);
    assert t[..0] == [];
    assert FromNumeral(t, base) == DigitValue(c);
    assert t == [c];
  }

  /** Reading a numeral with one more digit, then writing it back, adds
      that digit to what the shorter numeral writes back as. */
  lemma AppendDigit(t: string, base: nat)
    requires 2 <= base <= 16 && Written(t, base) && |t| > 1
    requires FromNumeral(t[..|t| - 1], base) >= 1
    ensures ToNumeral(FromNumeral(t, base), base)
         == ToNumeral(FromNumeral(t[..|t| - 1], base), base) + [t[|t| - 1]]
  {
    var c := t[|t| - 1];
    var q, d := FromNumeral(t[..|t| - 1], base), DigitValue(c);
    assert FromNumeral(t, base) == q * base + d;
    DigitCharOfValue(c);
    LastDigit(q, base, d);
  }

  lemma DigitCharOfValue(c: char)
    requires '0' <= c <= '9' || 'a' <= c <= 'f'
    ensures DigitChar(DigitValue(c)) == c
  {
  }

  lemma WrittenPrefix(t: string, base: nat)
    requires Written(t, base) && |t| > 1
    ensures Written(t[..|t| - 1], base) && t[..|t| - 1][0] == t[0]
  {
    var p := t[..|t| - 1];
    assert forall j :: 0 <= j < |p| ==> p[j] == t[j];
  }

  /** Appending digit `d` to `q` and dividing by the base gives both back. */
  lemma LastDigit(q: nat, base: nat, d: nat)
    requires 2 <= base <= 16 && q >= 1 && d < base
    ensures ToNumeral(q * base + d, base) == ToNumeral(q, base) + [DigitChar(d)]
  {
    var n := q * base + d;
    MulMono(1, q, base);
    DivUnique(n, base, q, d);
  }

  lemma MulMono(a: nat, b: nat, c: nat)
    ensures a <= b ==> a * c <= b * c
  {
  }

  /** Division by `base` undoes `q * base + d` for a digit `d`. */
  lemma DivUnique(n: nat, base: nat, q: nat, d: nat)
    requires base >= 1 && d < base && n == q * base + d
    ensures n / base == q && n % base == d
  {
    var q', r' := n / base, n % base;
    assert n == q' * base + r';
    assert (q' + 1) * base == q' * base + base;
    assert (q + 1) * base == q * base + base;
    MulMono(q' + 1, q, base);
    MulMono(q + 1, q', base);
  }
}
