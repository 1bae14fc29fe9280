/** The multiplication and division helpers of the M extension (cpu_m.c), against
    sections 7.1 and 7.2 of the RISC-V Unprivileged ISA.  A helper receives two register
    words; where its parameter is an int32_t, the word is read as a signed number. */
module MulDiv {
  import opened Words

  /** Conversion to int64_t. */
  function Wrap64(n: int): int {
    var m := n % 0x1_0000_0000_0000_0000;
    if m < 0x8000_0000_0000_0000 then m else m - 0x1_0000_0000_0000_0000
  }

  /** >> 32 on an int64_t, then conversion to uint32_t. */
  function UpperWord(n: int): Word {
    ToWord(n / 0x1_0000_0000)
  }

  function Mul32(a: Word, b: Word): Word {
    ToWord(Signed(a) * Signed(b))
  }

  function Mulh32(a: Word, b: Word): Word {
    UpperWord(Wrap64(Signed(a) * Signed(b)))
  }

  function Mulhsu32(a: Word, b: Word): Word {
    UpperWord(Wrap64(Signed(a) * b))
  }

  function Mulhu32(a: Word, b: Word): Word {
    UpperWord(Wrap64(a * b))
  }

  /** The / operator of C, which truncates towards zero. */
  function TruncDiv(a: int, b: int): int
    requires b != 0
  {
    if a >= 0 && b > 0 then a / b
    else if a >= 0 then -(a / -b)
    else if b > 0 then -(-a / b)
    else -a / -b
  }

  /** The % operator of C. */
  function TruncMod(a: int, b: int): int
    requires b != 0
  {
    a - b * TruncDiv(a, b)
  }

  function Div32(a: Word, b: Word): Word {
    if b == 0 then ToWord(-1)
    else if a == 0x8000_0000 && Signed(b) == -1 then a
    else ToWord(TruncDiv(Signed(a), Signed(b)))
  }

  function Divu32(a: Word, b: Word): Word {
    if b == 0 then ToWord(-1) else QuotientWord(a, b); a / b
  }

  function Rem32(a: Word, b: Word): Word {
    if b == 0 then a
    else if a == 0x8000_0000 && Signed(b) == -1 then 0
    else ToWord(TruncMod(Signed(a), Signed(b)))
  }

  function Remu32(a: Word, b: Word): Word {
    if b == 0 then a else a % b
  }

  lemma QuotientWord(a: Word, b: Word)
    requires b != 0
    ensures 0 <= a / b <= a
  {
    if a / b > a {
      MulAtLeast(a / b, b);
    }
  }

  // ---------------------------------------------------------------- multiplication

  /** Products of operands that agree modulo 2^32 agree modulo 2^32. */
  lemma ProductMod(x: int, y: int, i: int, j: int)
    ensures ToWord((x + i * 0x1_0000_0000) * (y + j * 0x1_0000_0000)) == ToWord(x * y)
  {
    var k := x * j + y * i + i * j * 0x1_0000_0000;
    assert (x + i * 0x1_0000_0000) * (y + j * 0x1_0000_0000) == x * y + k * 0x1_0000_0000 by {
      Expand(x, i, y, j, 0x1_0000_0000);
    }
    AddMultiple(x * y, k);
  }

  lemma Expand(x: int, i: int, y: int, j: int, m: int)
    ensures (x + i * m) * (y + j * m) == x * y + (x * j + y * i + i * j * m) * m
  {
    assert (x + i * m) * (y + j * m) == x * (y + j * m) + i * m * (y + j * m);
    assert x * (y + j * m) == x * y + x * j * m;
    assert i * m * (y + j * m) == i * m * y + i * m * (j * m);
    assert i * m * y == y * i * m;
    assert i * m * (j * m) == i * j * m * m;
  }

  lemma AddMultiple(n: int, k: int)
    ensures ToWord(n + k * 0x1_0000_0000) == ToWord(n)
  {
  }

  /** The low word of the product is the same for every reading of the operands. */
  lemma LowWord(a: Word, b: Word)
    ensures Mul32(a, b) == ToWord(Signed(a) * Signed(b)) == ToWord(Signed(a) * b) == ToWord(a * b)
  {
    var i, j := if a < 0x8000_0000 then 0 else -1, if b < 0x8000_0000 then 0 else -1;
    ProductMod(a, b, i, j);
    ProductMod(a, b, i, 0);
  }

  lemma ProductBounds(x: int, y: int, m: int, n: int)
    requires -m <= x <= m && -n <= y <= n
    ensures -(m * n) <= x * y <= m * n
  {
    var p, q := if x < 0 then -x else x, if y < 0 then -y else y;
    assert p * q <= m * n by {
      Monotone(p, m, q);
      Monotone(q, n, m);
    }
    assert x * y == p * q || x * y == -(p * q);
    assert p * q >= 0;
  }

  lemma Monotone(x: int, y: int, z: int)
    requires 0 <= x <= y && z >= 0
    ensures x * z <= y * z
  {
    assert (y - x) * z >= 0;
  }

  lemma HalfProduct(n: int)
    requires -0x8000_0000_0000_0000 <= n < 0x8000_0000_0000_0000
    ensures Wrap64(n) == n
    ensures Signed(UpperWord(n)) * 0x1_0000_0000 + ToWord(n) == n
  {
  }

  /** MULH and MUL give the exact 64-bit product of two signed operands. */
  lemma SignedProduct(a: Word, b: Word)
    ensures Signed(Mulh32(a, b)) * 0x1_0000_0000 + Mul32(a, b) == Signed(a) * Signed(b)
  {
    ProductBounds(Signed(a), Signed(b), 0x8000_0000, 0x8000_0000);
    HalfProduct(Signed(a) * Signed(b));
  }

  /** MULHSU and MUL give the exact product of a signed and an unsigned operand. */
  lemma MixedProduct(a: Word, b: Word)
    ensures Signed(Mulhsu32(a, b)) * 0x1_0000_0000 + Mul32(a, b) == Signed(a) * b
  {
    ProductBounds(Signed(a), b, 0x8000_0000, 0xFFFF_FFFF);
    HalfProduct(Signed(a) * b);
    LowWord(a, b);
  }

  lemma WrappedHalf(n: int)
    requires 0 <= n < 0x1_0000_0000_0000_0000
    ensures UpperWord(Wrap64(n)) * 0x1_0000_0000 + ToWord(n) == n
  {
  }

  lemma UnsignedBounds(a: Word, b: Word)
    ensures 0 <= a * b < 0x1_0000_0000_0000_0000
  {
    Monotone(a, 0xFFFF_FFFF, b);
    Monotone(0, a, b);
  }

  /** MULHU and MUL give the exact product of two unsigned operands, although the 64-bit
      product wraps to a negative number and is shifted arithmetically. */
  lemma UnsignedProduct(a: Word, b: Word)
    ensures Mulhu32(a, b) * 0x1_0000_0000 + Mul32(a, b) == a * b
  {
    UnsignedBounds(a, b);
    LowWord(a, b);
    WrappedHalf(a * b);
  }

  // ---------------------------------------------------------------- division

  /** q and r are a quotient and remainder of a by b, rounded towards zero. */
  ghost predicate Divides(a: int, b: int, q: int, r: int) {
    a == q * b + r && -Abs(b) < r < Abs(b) && (r != 0 ==> (r < 0 <==> a < 0))
  }

  function Abs(n: int): int {
    if n < 0 then -n else n
  }

  lemma NatDivision(m: nat, d: nat)
    requires d > 0
    ensures m == m / d * d + m % d && 0 <= m % d < d && 0 <= m / d <= m
    ensures m > 0 && d > 1 ==> m / d < m
  {
    var q := m / d;
    assert m == d * q + m % d;
    assert (d - 1) * q >= 0 by {
      Monotone(0, d - 1, q);
    }
    if d > 1 && q > 0 {
      Monotone(1, d - 1, q);
    }
  }

  lemma Negations(q: int, d: int)
    ensures -q * d == -(q * d) && q * -d == -(q * d) && -q * -d == q * d
  {
  }

  lemma TruncDivides(a: int, b: int)
    requires b != 0
    ensures Divides(a, b, TruncDiv(a, b), TruncMod(a, b))
    ensures Abs(TruncDiv(a, b)) <= Abs(a) && (Abs(TruncDiv(a, b)) == Abs(a) ==> a == 0 || Abs(b) == 1)
  {
    hide TruncDiv;
    var q := Abs(a) / Abs(b);
    NatDivision(Abs(a), Abs(b));
    TruncDivSign(a, b);
    SignedParts(a, b, q, Abs(a) % Abs(b), TruncDiv(a, b));
  }

  /** From magnitudes to signed operands. */
  lemma SignedParts(a: int, b: int, q: nat, r: nat, t: int)
    requires b != 0 && Abs(a) == q * Abs(b) + r && r < Abs(b)
    requires if (a < 0) == (b < 0) || a == 0 then t == q else t + q == 0
    ensures Divides(a, b, t, a - b * t)
  {
    Negations(q, Abs(b));
    assert b * t == if a < 0 then -(q * Abs(b)) else q * Abs(b);
  }

  lemma TruncDivSign(a: int, b: int)
    requires b != 0
    ensures TruncDiv(a, b) == if (a < 0) == (b < 0) || a == 0 then Abs(a) / Abs(b) else -(Abs(a) / Abs(b))
  {
  }

  /** There is only one such pair. */
  lemma DividesUnique(a: int, b: int, q: int, r: int, q': int, r': int)
    requires b != 0 && Divides(a, b, q, r) && Divides(a, b, q', r')
    ensures q == q' && r == r'
  {
    assert (q - q') * b == r' - r;
    if q != q' {
      ProductAtLeast(q - q', b);
    }
  }

  lemma ProductAtLeast(e: int, b: int)
    requires e != 0 && b != 0
    ensures Abs(e * b) >= Abs(b)
  {
    MulAtLeast(Abs(b), Abs(e));
    assert e * b == Abs(b) * Abs(e) || e * b == Abs(b) * -Abs(e);
  }

  /** DIV and REM on every pair of operands (section 7.2): division by zero gives all ones
      and the dividend, the one overflow gives the dividend and zero, and every other pair
      is the quotient and remainder of the signed operands, rounded towards zero. */
  lemma SignedDivision(a: Word, b: Word)
    ensures b == 0 ==> Div32(a, b) == 0xFFFF_FFFF && Rem32(a, b) == a
    ensures Signed(a) == -0x8000_0000 && Signed(b) == -1 ==> Div32(a, b) == a && Rem32(a, b) == 0
    ensures b != 0 && !(Signed(a) == -0x8000_0000 && Signed(b) == -1) ==>
      Divides(Signed(a), Signed(b), Signed(Div32(a, b)), Signed(Rem32(a, b)))
  {
    if b != 0 && !(Signed(a) == -0x8000_0000 && Signed(b) == -1) {
      TruncDivides(Signed(a), Signed(b));
      QuotientFits(Signed(a), Signed(b));
      SignedToWord(TruncDiv(Signed(a), Signed(b)));
      SignedToWord(TruncMod(Signed(a), Signed(b)));
    }
  }

  lemma QuotientFits(a: int, b: int)
    requires b != 0 && -0x8000_0000 <= a < 0x8000_0000 && -0x8000_0000 <= b < 0x8000_0000
    requires !(a == -0x8000_0000 && b == -1)
    ensures -0x8000_0000 <= TruncDiv(a, b) < 0x8000_0000
    ensures -0x8000_0000 <= TruncMod(a, b) < 0x8000_0000
  {
    TruncDivides(a, b);
    TruncDivSign(a, b);
  }

  lemma SignedToWord(n: int)
    requires -0x8000_0000 <= n < 0x8000_0000
    ensures Signed(ToWord(n)) == n
  {
  }

  lemma UnsignedDivision(a: Word, b: Word)
    ensures b == 0 ==> Divu32(a, b) == 0xFFFF_FFFF && Remu32(a, b) == a
    ensures b != 0 ==> a == Divu32(a, b) * b + Remu32(a, b) && Remu32(a, b) < b
  {
  }

  /** For all operands, zero divisors and overflow included, quotient times divisor plus
      remainder is the dividend modulo 2^32. */
  lemma QuotientTimesDivisor(a: Word, b: Word)
    ensures ToWord(Div32(a, b) * b + Rem32(a, b)) == a
    ensures ToWord(Divu32(a, b) * b + Remu32(a, b)) == a
  {
    SignedTimesDivisor(a, b);
    UnsignedTimesDivisor(a, b);
  }

  lemma UnsignedTimesDivisor(a: Word, b: Word)
    ensures ToWord(Divu32(a, b) * b + Remu32(a, b)) == a
  {
    UnsignedDivision(a, b);
  }

  lemma SignedTimesDivisor(a: Word, b: Word)
    ensures ToWord(Div32(a, b) * b + Rem32(a, b)) == a
  {
    SignedDivision(a, b);
    if b != 0 && !(Signed(a) == -0x8000_0000 && Signed(b) == -1) {
      hide Div32, Rem32, Signed;
      SameModulo(a, b, Div32(a, b), Rem32(a, b));
    } else if b != 0 {
      assert b == 0xFFFF_FFFF && Div32(a, b) == a && Rem32(a, b) == 0 && a == 0x8000_0000;
    }
  }

  lemma SameModulo(a: Word, b: Word, q: Word, r: Word)
    requires Signed(a) == Signed(q) * Signed(b) + Signed(r)
    ensures ToWord(q * b + r) == a
  {
    hide Signed, ToWord, Mul32;
    LowWord(q, b);
    SignedSame(r);
    SignedSame(a);
    SumMod(Signed(q) * Signed(b), q * b, Signed(r), r);
  }

  lemma SignedSame(w: Word)
    ensures ToWord(Signed(w)) == ToWord(w) == w
  {
  }

  lemma SumMod(x: int, x': int, y: int, y': int)
    requires ToWord(x) == ToWord(x') && ToWord(y) == ToWord(y')
    ensures ToWord(x + y) == ToWord(x' + y')
  {
    var k, l := (x - x') / 0x1_0000_0000, (y - y') / 0x1_0000_0000;
    assert x == x' + k * 0x1_0000_0000;
    assert y == y' + l * 0x1_0000_0000;
    AddMultiple(x' + y', k + l);
  }
}
