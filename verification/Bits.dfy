/**
 Bit-level arithmetic on mathematical integers, read as two's complement with
 infinitely many sign bits. C's `&`, `|`, `^`, `<<`, `>>` are the functions
 below; conversions to a fixed width are `Low` (unsigned) and `SignExt` (signed).
 Every fact about them is stated bit by bit.
 */
module Bits {

  /** Bit `i` of `x`. */
  predicate Bit(x: int, i: nat)
    decreases i, Abs(x)
  {
    if i == 0 then x % 2 == 1 else Bit(x / 2, i - 1)
  }

  function Pow2(k: nat): (r: int)
    ensures r >= 1
  {
    if k == 0 then 1 else 2 * Pow2(k - 1)
  }

  function Shl(x: int, k: nat): int {
    if k == 0 then x else 2 * Shl(x, k - 1)
  }

  /** Arithmetic shift right (rounds towards minus infinity). */
  function Shr(x: int, k: nat): int
    decreases k, Abs(x)
  {
    if k == 0 then x else Shr(x / 2, k - 1)
  }

  function Abs(x: int): nat {
    if x < 0 then -x else x
  }

  function And(x: int, y: int): int
    decreases Abs(x) + Abs(y)
  {
    if x == 0 || y == 0 then 0
    else if x == -1 then y
    else if y == -1 then x
    else 2 * And(x / 2, y / 2) + (x % 2) * (y % 2)
  }

  function Or(x: int, y: int): int {
    -1 - And(-1 - x, -1 - y)
  }

  function Xor(x: int, y: int): int
    decreases Abs(x) + Abs(y)
  {
    if x == 0 then y
    else if x == -1 then -1 - y
    else if y == 0 then x
    else if y == -1 then -1 - x
    else 2 * Xor(x / 2, y / 2) + (x % 2 + y % 2) % 2
  }

  /** The low `w` bits of `x` as an unsigned number: `x` modulo `2^w`. */
  function Low(x: int, w: nat): (r: nat)
    ensures r < Pow2(w)
    decreases w, Abs(x)
  {
    if w == 0 then 0 else x % 2 + 2 * Low(x / 2, w - 1)
  }

  /** The low `w` bits of `x` as a signed number. */
  function SignExt(x: int, w: nat): int
    requires w >= 1
    decreases w, Abs(x)
  {
    if w == 1 then -(x % 2) else x % 2 + 2 * SignExt(x / 2, w - 1)
  }

  function Min(a: nat, b: nat): nat {
    if a <= b then a else b
  }

  // ----- bits of each operation

  lemma BitOfDouble(x: int, c: int, i: nat)
    requires 0 <= c <= 1
    ensures Bit(2 * x + c, i) <==> if i == 0 then c == 1 else Bit(x, i - 1)
  {
    assert (2 * x + c) / 2 == x;
  }

  lemma {:induction false} ShlBit(x: int, k: nat, i: nat)
    ensures Bit(Shl(x, k), i) <==> i >= k && Bit(x, i - k)
  {
    if k > 0 {
      BitOfDouble(Shl(x, k - 1), 0, i);
      if i > 0 { ShlBit(x, k - 1, i - 1); }
    }
  }

  lemma {:induction false} ShrBit(x: int, k: nat, i: nat)
    ensures Bit(Shr(x, k), i) <==> Bit(x, i + k)
    decreases k
  {
    if k > 0 { ShrBit(x / 2, k - 1, i); }
  }

  lemma {:induction false} ConstBit(x: int, i: nat)
    requires x == 0 || x == -1
    ensures Bit(x, i) <==> x == -1
    decreases i
  {
    if i > 0 { ConstBit(x / 2, i - 1); }
  }

  lemma {:induction false} AndBit(x: int, y: int, i: nat)
    ensures Bit(And(x, y), i) <==> Bit(x, i) && Bit(y, i)
    decreases i
  {
    if x == 0 || x == -1 {
      ConstBit(x, i);
      ConstBit(0, i);
    } else if y == 0 || y == -1 {
      ConstBit(y, i);
      ConstBit(0, i);
    } else {
      BitOfDouble(And(x / 2, y / 2), (x % 2) * (y % 2), i);
      if i > 0 { AndBit(x / 2, y / 2, i - 1); }
    }
  }

  lemma {:induction false} NotBit(x: int, i: nat)
    ensures Bit(-1 - x, i) <==> !Bit(x, i)
    decreases i
  {
    if i > 0 {
      assert (-1 - x) / 2 == -1 - x / 2;
      NotBit(x / 2, i - 1);
    }
  }

  lemma OrBit(x: int, y: int, i: nat)
    ensures Bit(Or(x, y), i) <==> Bit(x, i) || Bit(y, i)
  {
    NotBit(And(-1 - x, -1 - y), i);
    AndBit(-1 - x, -1 - y, i);
    NotBit(x, i);
    NotBit(y, i);
  }

  /** A sum without carries is a bitwise or. */
  lemma {:induction false} AddBit(x: int, y: int, i: nat)
    requires forall j: nat :: !(Bit(x, j) && Bit(y, j))
    ensures Bit(x + y, i) <==> Bit(x, i) || Bit(y, i)
    decreases i
  {
    assert !(Bit(x, 0) && Bit(y, 0));
    if i > 0 {
      assert (x + y) / 2 == x / 2 + y / 2;
      forall j: nat ensures !(Bit(x / 2, j) && Bit(y / 2, j)) {
        assert !(Bit(x, j + 1) && Bit(y, j + 1));
      }
      AddBit(x / 2, y / 2, i - 1);
    }
  }

  lemma {:induction false} XorBit(x: int, y: int, i: nat)
    ensures Bit(Xor(x, y), i) <==> (Bit(x, i) != Bit(y, i))
    decreases i
  {
    if x == 0 || x == -1 {
      ConstBit(x, i);
      NotBit(y, i);
    } else if y == 0 || y == -1 {
      ConstBit(y, i);
      NotBit(x, i);
    } else {
      BitOfDouble(Xor(x / 2, y / 2), (x % 2 + y % 2) % 2, i);
      if i > 0 { XorBit(x / 2, y / 2, i - 1); }
    }
  }

  lemma {:induction false} LowBit(x: int, w: nat, i: nat)
    ensures Bit(Low(x, w), i) <==> i < w && Bit(x, i)
    decreases w
  {
    if w == 0 {
      ConstBit(0, i);
    } else {
      BitOfDouble(Low(x / 2, w - 1), x % 2, i);
      if i > 0 { LowBit(x / 2, w - 1, i - 1); }
    }
  }

  lemma {:induction false} SignExtBit(x: int, w: nat, i: nat)
    requires w >= 1
    ensures Bit(SignExt(x, w), i) <==> Bit(x, Min(i, w - 1))
    decreases w
  {
    if w == 1 {
      ConstBit(-(x % 2), i);
    } else {
      BitOfDouble(SignExt(x / 2, w - 1), x % 2, i);
      if i > 0 { SignExtBit(x / 2, w - 1, i - 1); }
    }
  }

  // ----- numbers are determined by their bits

  lemma {:induction false} SameBits(x: int, y: int)
    requires forall i: nat :: Bit(x, i) <==> Bit(y, i)
    ensures x == y
    decreases Abs(x) + Abs(y)
  {
    assert Bit(x, 0) <==> Bit(y, 0);
    if !((x == 0 || x == -1) && (y == 0 || y == -1)) {
      forall i: nat ensures Bit(x / 2, i) <==> Bit(y / 2, i) {
        assert Bit(x, i + 1) <==> Bit(y, i + 1);
      }
      SameBits(x / 2, y / 2);
    }
  }

  lemma {:induction false} HighBitsZero(x: int, w: nat, i: nat)
    requires 0 <= x < Pow2(w) && i >= w
    ensures !Bit(x, i)
    decreases w
  {
    if w == 0 { ConstBit(0, i); } else { HighBitsZero(x / 2, w - 1, i - 1); }
  }

  // ----- what the conversions mean as arithmetic

  lemma {:induction false} LowIsMod(x: int, w: nat)
    ensures Low(x, w) == x % Pow2(w)
    decreases w
  {
    if w > 0 {
      LowIsMod(x / 2, w - 1);
      var p := Pow2(w - 1);
      var q := x / 2 / p;
      assert x == 2 * (q * p + x / 2 % p) + x % 2;
      assert 2 * (q * p) == q * (2 * p);
      ModUnique(x, 2 * p, q, 2 * (x / 2 % p) + x % 2);
    }
  }

  lemma ModUnique(x: int, m: int, q: int, r: int)
    requires m > 0 && 0 <= r < m && x == q * m + r
    ensures x % m == r
  {
    var d := x / m - q;
    assert r - x % m == d * m;
    assert -m < d * m < m;
    if d != 0 { MulBig(d, m); }
  }

  lemma {:induction false} MulBig(d: int, m: int)
    requires m > 0 && d != 0
    ensures d >= 1 ==> d * m >= m
    ensures d <= -1 ==> d * m <= -m
    decreases Abs(d)
  {
    if d > 1 { MulBig(d - 1, m); } else if d < -1 { MulBig(d + 1, m); }
  }

  lemma {:induction false} LowOfSmall(x: int, w: nat)
    requires 0 <= x < Pow2(w)
    ensures Low(x, w) == x
    decreases w
  {
    if w > 0 { LowOfSmall(x / 2, w - 1); }
  }

  /** `SignExt` is the representative of `x` modulo `2^w` in `[-2^(w-1), 2^(w-1))`. */
  lemma {:induction false} SignExtMeaning(x: int, w: nat)
    requires w >= 1
    ensures -Pow2(w - 1) <= SignExt(x, w) < Pow2(w - 1)
    ensures SignExt(x, w) == if Bit(x, w - 1) then Low(x, w) - Pow2(w) else Low(x, w)
    decreases w
  {
    if w > 1 { SignExtMeaning(x / 2, w - 1); }
  }

  lemma {:induction false} SignExtOfSmall(x: int, w: nat)
    requires w >= 1 && -Pow2(w - 1) <= x < Pow2(w - 1)
    ensures SignExt(x, w) == x
    decreases w
  {
    if w > 1 { SignExtOfSmall(x / 2, w - 1); }
  }

  lemma {:induction false} ShlIsMul(x: int, k: nat)
    ensures Shl(x, k) == x * Pow2(k)
  {
    if k > 0 { ShlIsMul(x, k - 1); }
  }

  lemma {:induction false} Pow2Mono(a: nat, b: nat)
    requires a <= b
    ensures Pow2(a) <= Pow2(b)
  {
    if a < b { Pow2Mono(a, b - 1); }
  }
}
