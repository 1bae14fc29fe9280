/** Machine words of the emulator: 32-bit unsigned integers, with the C operators that
    the sources apply to them.  A word is an integer below 2^32; every operator wraps
    explicitly.  The bitwise operators and the shifts are defined by recursion on the
    binary digits, and the lemmas give their arithmetic meaning. */
module Words {

  type Word = n: int | 0 <= n < 0x1_0000_0000
  type Byte = n: int | 0 <= n < 256

  // ---------------------------------------------------------------- conversions

  /** Conversion of any C integer to uint32_t. */
  function ToWord(n: int): Word {
    n % 0x1_0000_0000
  }

  /** The (sword) cast: the two's-complement reading of a word. */
  function Signed(w: Word): int {
    if w < 0x8000_0000 then w else w - 0x1_0000_0000
  }

  // ---------------------------------------------------------------- binary digits

  function Pow2(k: nat): (p: nat)
    ensures p >= 1
  {
    if k == 0 then 1 else 2 * Pow2(k - 1)
  }

  /** Digit i of n. */
  predicate Bit(n: nat, i: nat) {
    if i == 0 then n % 2 == 1 else Bit(n / 2, i - 1)
  }

  /** The digits of a from position k up. */
  function High(a: nat, k: nat): (r: nat)
    ensures r <= a
  {
    if k == 0 then a else High(a / 2, k - 1)
  }

  /** The digits of a below position k. */
  function Low(a: nat, k: nat): nat {
    if k == 0 then 0 else a % 2 + 2 * Low(a / 2, k - 1)
  }

  /** a moved up by k digits. */
  function Scale(a: nat, k: nat): nat {
    if k == 0 then a else 2 * Scale(a, k - 1)
  }

  function And(a: nat, b: nat): (r: nat)
    ensures r <= a && r <= b
  {
    if a == 0 || b == 0 then 0
    else (if a % 2 == 1 && b % 2 == 1 then 1 else 0) + 2 * And(a / 2, b / 2)
  }

  function Or(a: nat, b: nat): (r: nat)
    decreases a + b
  {
    if a == 0 then b else if b == 0 then a
    else (if a % 2 == 1 || b % 2 == 1 then 1 else 0) + 2 * Or(a / 2, b / 2)
  }

  function Xor(a: nat, b: nat): (r: nat)
    decreases a + b
  {
    if a == 0 then b else if b == 0 then a
    else (if a % 2 != b % 2 then 1 else 0) + 2 * Xor(a / 2, b / 2)
  }

  // ---------------------------------------------------------------- word operators

  function Add32(a: Word, b: Word): Word { ToWord(a + b) }
  function Sub32(a: Word, b: Word): Word { ToWord(a - b) }
  function Not32(a: Word): Word { 0xFFFF_FFFF - a }
  function And32(a: Word, b: Word): Word { And(a, b) }

  function Or32(a: Word, b: Word): Word {
    WordDigits();
    BitwiseBound(a, b, 32);
    Or(a, b)
  }

  function Xor32(a: Word, b: Word): Word {
    WordDigits();
    BitwiseBound(a, b, 32);
    Xor(a, b)
  }

  function Shl32(a: Word, s: nat): Word { ToWord(Scale(a, s)) }
  function Shr32(a: Word, s: nat): Word { High(a, s) }

  /** The >> operator on a signed operand: shifting the complement of a negative word
      brings in copies of its sign bit. */
  function Sar32(a: Word, s: nat): Word {
    if a < 0x8000_0000 then Shr32(a, s) else Not32(Shr32(Not32(a), s))
  }

  // ---------------------------------------------------------------- powers of two

  lemma Pow2Values()
    ensures Pow2(1) == 2 && Pow2(2) == 4 && Pow2(3) == 8 && Pow2(4) == 16 && Pow2(5) == 32
    ensures Pow2(6) == 64 && Pow2(7) == 128 && Pow2(8) == 256 && Pow2(10) == 0x400
    ensures Pow2(11) == 0x800 && Pow2(12) == 0x1000 && Pow2(13) == 0x2000 && Pow2(15) == 0x8000
    ensures Pow2(16) == 0x1_0000 && Pow2(20) == 0x10_0000 && Pow2(21) == 0x20_0000
    ensures Pow2(24) == 0x100_0000 && Pow2(25) == 0x200_0000
    ensures Pow2(31) == 0x8000_0000 && Pow2(32) == 0x1_0000_0000
  {
    Pow2Add(8, 8);
    Pow2Add(5, 5);
    Pow2Add(10, 10);
    Pow2Add(20, 4);
    Pow2Add(16, 16);
    assert Pow2(25) == 2 * Pow2(24);
    assert Pow2(32) == 2 * Pow2(31);
  }

  lemma WordDigits()
    ensures Pow2(32) == 0x1_0000_0000
  {
    Pow2Values();
  }

  lemma {:induction false} Pow2Add(j: nat, k: nat)
    ensures Pow2(j + k) == Pow2(j) * Pow2(k)
  {
    if j == 0 {
    } else {
      Pow2Add(j - 1, k);
      Twice(Pow2(j - 1), Pow2(k));
    }
  }

  lemma {:induction false} Pow2Monotone(j: nat, k: nat)
    requires j <= k
    ensures Pow2(j) <= Pow2(k)
  {
    if j == k {
    } else {
      Pow2Monotone(j, k - 1);
    }
  }

  lemma Twice(p: int, x: int)
    ensures 2 * p * x == 2 * (p * x)
  {
  }

  lemma DivUnique(n: int, d: int, q: int, r: int)
    requires d > 0 && 0 <= r < d && n == d * q + r
    ensures n / d == q && n % d == r
  {
    var e := n / d - q;
    assert d * e == d * (n / d) - d * q;
    if e >= 1 {
      MulAtLeast(d, e);
    } else if e <= -1 {
      MulAtLeast(d, -e);
    }
  }

  lemma MulAtLeast(d: int, e: int)
    requires d > 0 && e >= 1
    ensures d * e >= d && d * -e <= -d
  {
    assert d * (e - 1) >= 0;
  }

  lemma DivDiv(n: int, a: nat, b: nat)
    requires a > 0 && b > 0
    ensures a * b > 0 && n / a / b == n / (a * b) && n % (a * b) % a == n % a
  {
    var q := n / a;
    var r := a * (q % b) + n % a;
    assert n == a * (b * (q / b) + q % b) + n % a;
    assert a * (b * (q / b) + q % b) == a * b * (q / b) + a * (q % b) by {
      Distribute(a, b, q / b, q % b);
    }
    assert a * (q % b) + n % a < a * b by {
      ProductBelow(q % b, b, a);
    }
    DivUnique(n, a * b, q / b, r);
    DivUnique(r, a, q % b, n % a);
  }

  lemma Distribute(a: int, b: int, x: int, y: int)
    ensures a * (b * x + y) == a * b * x + a * y
  {
  }

  lemma ProductBelow(g: int, b: int, a: int)
    requires 0 <= g < b && a >= 1
    ensures 0 <= a * g <= a * b - a
  {
    var d := b - 1 - g;
    assert b == g + 1 + d && a * d >= 0;
    assert a * (g + 1 + d) == a * g + a + a * d;
    assert a * g >= 0;
  }

  // ---------------------------------------------------------------- meaning of the digits

  /** Taking digits off and moving digits up are division and multiplication. */
  lemma {:induction false} HighLow(a: nat, k: nat)
    ensures a == Pow2(k) * High(a, k) + Low(a, k) && Low(a, k) < Pow2(k)
    ensures High(a, k) == a / Pow2(k) && Low(a, k) == a % Pow2(k)
  {
    if k == 0 {
    } else {
      HighLow(a / 2, k - 1);
      Twice(Pow2(k - 1), High(a, k));
    }
    DivUnique(a, Pow2(k), High(a, k), Low(a, k));
  }

  /** The same with the power given as a number. */
  lemma HighLowAt(a: nat, k: nat, d: nat)
    requires d == Pow2(k)
    ensures High(a, k) == a / d && Low(a, k) == a % d
  {
    HighLow(a, k);
  }

  lemma ScaleAt(a: nat, k: nat, d: nat)
    requires d == Pow2(k)
    ensures Scale(a, k) == a * d
  {
    ScaleValue(a, k);
  }

  lemma {:induction false} ScaleValue(a: nat, k: nat)
    ensures Scale(a, k) == a * Pow2(k)
  {
    if k == 0 {
    } else {
      ScaleValue(a, k - 1);
      assert a * (2 * Pow2(k - 1)) == 2 * (a * Pow2(k - 1));
    }
  }

  lemma {:induction false} ScaleBelow(a: nat, len: nat, k: nat)
    requires a < Pow2(len)
    ensures Scale(a, k) < Pow2(k + len)
  {
    if k == 0 {
    } else {
      ScaleBelow(a, len, k - 1);
    }
  }

  lemma {:induction false} LowSmall(a: nat, k: nat)
    ensures a < Pow2(k) ==> Low(a, k) == a && High(a, k) == 0
    ensures Low(a, k) < Pow2(k)
  {
    if k == 0 {
    } else {
      LowSmall(a / 2, k - 1);
    }
  }

  lemma {:induction false} LowOfScale(a: nat, k: nat)
    ensures Low(Scale(a, k), k) == 0 && High(Scale(a, k), k) == a
  {
    if k == 0 {
    } else {
      LowOfScale(a, k - 1);
    }
  }

  lemma {:induction false} ScaleSum(a: nat, b: nat, k: nat)
    ensures Scale(a + b, k) == Scale(a, k) + Scale(b, k)
  {
    if k == 0 {
    } else {
      ScaleSum(a, b, k - 1);
    }
  }

  lemma {:induction false} Digits(a: nat, k: nat)
    ensures a == Low(a, k) + Scale(High(a, k), k)
  {
    if k == 0 {
    } else {
      Digits(a / 2, k - 1);
    }
  }

  lemma {:induction false} AndBit(a: nat, b: nat, i: nat)
    ensures Bit(And(a, b), i) == (Bit(a, i) && Bit(b, i))
  {
    ZeroBit(i);
    if a == 0 || b == 0 || i == 0 {
    } else {
      AndBit(a / 2, b / 2, i - 1);
    }
  }

  lemma {:induction false} OrBit(a: nat, b: nat, i: nat)
    ensures Bit(Or(a, b), i) == (Bit(a, i) || Bit(b, i))
    decreases a + b
  {
    ZeroBit(i);
    if a == 0 || b == 0 || i == 0 {
    } else {
      OrBit(a / 2, b / 2, i - 1);
    }
  }

  lemma {:induction false} XorBit(a: nat, b: nat, i: nat)
    ensures Bit(Xor(a, b), i) == (Bit(a, i) != Bit(b, i))
    decreases a + b
  {
    ZeroBit(i);
    if a == 0 || b == 0 || i == 0 {
    } else {
      XorBit(a / 2, b / 2, i - 1);
    }
  }

  lemma {:induction false} ZeroBit(i: nat)
    ensures !Bit(0, i)
  {
    if i == 0 {
    } else {
      ZeroBit(i - 1);
    }
  }

  lemma {:induction false} NotBit(a: nat, k: nat, i: nat)
    requires a < Pow2(k) && i < k
    ensures Bit(Pow2(k) - 1 - a, i) == !Bit(a, i)
  {
    if i == 0 {
    } else {
      NotBit(a / 2, k - 1, i - 1);
      assert (Pow2(k) - 1 - a) / 2 == Pow2(k - 1) - 1 - a / 2;
    }
  }

  lemma {:induction false} LowBit(n: nat, k: nat, i: nat)
    ensures Bit(Low(n, k), i) == (i < k && Bit(n, i))
  {
    if k == 0 {
      ZeroBit(i);
    } else if i > 0 {
      LowBit(n / 2, k - 1, i - 1);
    }
  }

  lemma {:induction false} HighBit(n: nat, k: nat, i: nat)
    ensures Bit(High(n, k), i) == Bit(n, i + k)
  {
    if k == 0 {
    } else {
      HighBit(n / 2, k - 1, i);
    }
  }

  lemma {:induction false} ScaleBit(n: nat, k: nat, i: nat)
    ensures Bit(Scale(n, k), i) == (i >= k && Bit(n, i - k))
  {
    if k == 0 || i == 0 {
    } else {
      ScaleBit(n, k - 1, i - 1);
    }
  }

  /** Truncation to a word keeps the low 32 digits. */
  lemma ToWordLow(n: nat)
    ensures ToWord(n) == Low(n, 32)
  {
    WordDigits();
    HighLow(n, 32);
  }

  /** Numbers with the same digits are equal. */
  lemma {:induction false} SameBits(a: nat, b: nat, k: nat)
    requires a < Pow2(k) && b < Pow2(k)
    requires forall i: nat :: i < k ==> Bit(a, i) == Bit(b, i)
    ensures a == b
  {
    if k == 0 {
    } else {
      forall i: nat | i < k - 1
        ensures Bit(a / 2, i) == Bit(b / 2, i)
      {
        assert Bit(a, i + 1) == Bit(b, i + 1);
      }
      SameBits(a / 2, b / 2, k - 1);
      assert Bit(a, 0) == Bit(b, 0);
    }
  }

  // ---------------------------------------------------------------- algebra of the operators

  lemma AndDouble(a: nat, m: nat)
    ensures And(a, m) == (if a % 2 == 1 && m % 2 == 1 then 1 else 0) + 2 * And(a / 2, m / 2)
  {
  }

  lemma OrDouble(a: nat, m: nat)
    ensures Or(a, m) == (if a % 2 == 1 || m % 2 == 1 then 1 else 0) + 2 * Or(a / 2, m / 2)
  {
  }

  /** And works on the lower and the upper digits separately. */
  lemma {:induction false} AndSplit(a: nat, m: nat, k: nat)
    ensures And(a, m) == And(Low(a, k), Low(m, k)) + Scale(And(High(a, k), High(m, k)), k)
  {
    if k == 0 {
    } else {
      AndSplit(a / 2, m / 2, k - 1);
      AndDouble(a, m);
      AndDouble(Low(a, k), Low(m, k));
      LowHalf(a, k);
      LowHalf(m, k);
    }
  }

  lemma {:induction false} OrSplit(a: nat, m: nat, k: nat)
    ensures Or(a, m) == Or(Low(a, k), Low(m, k)) + Scale(Or(High(a, k), High(m, k)), k)
  {
    if k == 0 {
    } else {
      OrSplit(a / 2, m / 2, k - 1);
      OrDouble(a, m);
      OrDouble(Low(a, k), Low(m, k));
      LowHalf(a, k);
      LowHalf(m, k);
    }
  }

  lemma LowHalf(a: nat, k: nat)
    requires k > 0
    ensures Low(a, k) % 2 == a % 2 && Low(a, k) / 2 == Low(a / 2, k - 1)
  {
  }

  lemma {:induction false} AndOnes(a: nat, k: nat)
    ensures And(a, Pow2(k) - 1) == Low(a, k)
  {
    if k == 0 {
    } else {
      AndDouble(a, Pow2(k) - 1);
      AndOnes(a / 2, k - 1);
      assert (Pow2(k) - 1) / 2 == Pow2(k - 1) - 1;
    }
  }

  /** Or of numbers with no common digit is addition. */
  lemma {:induction false} OrDisjoint(a: nat, b: nat)
    requires And(a, b) == 0
    ensures Or(a, b) == a + b
    decreases a + b
  {
    if a == 0 || b == 0 {
    } else {
      OrDisjoint(a / 2, b / 2);
    }
  }

  lemma {:induction false} BitwiseBound(a: nat, b: nat, k: nat)
    requires a < Pow2(k) && b < Pow2(k)
    ensures Or(a, b) < Pow2(k) && Xor(a, b) < Pow2(k)
    decreases k
  {
    if k == 0 || a == 0 || b == 0 {
    } else {
      BitwiseBound(a / 2, b / 2, k - 1);
    }
  }

  /** And with a mask whose parts below and above position k are given. */
  lemma AndParts(w: nat, mask: nat, k: nat, d: nat, low: nat, high: nat)
    requires d == Pow2(k) && low == Low(mask, k) && high == High(mask, k)
    ensures And(w, mask) == And(Low(w, k), low) + And(High(w, k), high) * d
  {
    AndSplit(w, mask, k);
    ScaleValue(And(High(w, k), high), k);
  }

  lemma AndOnesAt(n: nat, k: nat, d: nat)
    requires d == Pow2(k)
    ensures And(n, d - 1) == n % d
    ensures n < d ==> And(n, d - 1) == n
  {
    AndOnes(n, k);
    HighLow(n, k);
    LowSmall(n, k);
  }
}
