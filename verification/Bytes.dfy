/** Bytes in memory: words in the little-endian order of the host, words in the big-endian
    order of a flattened device tree, bswap_32 between the two, and the library routines
    memcpy, memset and realloc on byte arrays. */
module Bytes {
  import opened Words
  import opened Decode

  /** A little-endian word. */
  function WordAt(bytes: seq<Byte>, o: nat): Word
    requires o + 4 <= |bytes|
  {
    var b0: int, b1: int, b2: int, b3: int := bytes[o], bytes[o + 1], bytes[o + 2], bytes[o + 3];
    b0 + b1 * 0x100 + b2 * 0x1_0000 + b3 * 0x100_0000
  }

  method StoreWord(ram: array<Byte>, o: nat, w: Word)
    requires o + 4 <= ram.Length
    modifies ram
    ensures WordAt(ram[..], o) == w
    ensures forall j :: 0 <= j < ram.Length && !(o <= j < o + 4) ==> ram[j] == old(ram[j])
  {
    ram[o] := w % 0x100;
    ram[o + 1] := w / 0x100 % 0x100;
    ram[o + 2] := w / 0x1_0000 % 0x100;
    ram[o + 3] := w / 0x100_0000;
    BytesOfWord(w);
  }

  lemma BytesOfWord(w: Word)
    ensures w % 0x100 + w / 0x100 % 0x100 * 0x100 + w / 0x1_0000 % 0x100 * 0x1_0000 + w / 0x100_0000 * 0x100_0000 == w
  {
    DivDiv(w, 0x100, 0x100);
    DivDiv(w, 0x1_0000, 0x100);
  }

  // ---------------------------------------------------------------- big-endian words

  function Be32(v: Word): (s: seq<Byte>)
    ensures |s| == 4
  {
    [v / 0x100_0000, v / 0x1_0000 % 0x100, v / 0x100 % 0x100, v % 0x100]
  }

  /** The big-endian word at an offset. */
  function BeAt(s: seq<Byte>, o: nat): Word
    requires o + 4 <= |s|
  {
    var b0: int, b1: int, b2: int, b3: int := s[o], s[o + 1], s[o + 2], s[o + 3];
    b0 * 0x100_0000 + b1 * 0x1_0000 + b2 * 0x100 + b3
  }

  lemma BeOfWord(v: Word, rest: seq<Byte>)
    ensures BeAt(Be32(v) + rest, 0) == v
  {
    BytesOfWord(v);
  }

  lemma WordOfBe(s: seq<Byte>, o: nat)
    requires o + 4 <= |s|
    ensures s[o..o + 4] == Be32(BeAt(s, o))
  {
    var b0: int, b1: int, b2: int, b3: int := s[o], s[o + 1], s[o + 2], s[o + 3];
    BigDigits(b0, b1, b2, b3);
  }

  lemma BigDigits(b0: Byte, b1: Byte, b2: Byte, b3: Byte)
    ensures Be32(b0 * 0x100_0000 + b1 * 0x1_0000 + b2 * 0x100 + b3) == [b0, b1, b2, b3]
  {
    var v := b0 * 0x100_0000 + b1 * 0x1_0000 + b2 * 0x100 + b3;
    DivUnique(v, 0x100, b0 * 0x1_0000 + b1 * 0x100 + b2, b3);
    DivUnique(v, 0x1_0000, b0 * 0x100 + b1, b2 * 0x100 + b3);
    DivUnique(v, 0x100_0000, b0, b1 * 0x1_0000 + b2 * 0x100 + b3);
    DivUnique(b0 * 0x100 + b1, 0x100, b0, b1);
    DivUnique(b0 * 0x1_0000 + b1 * 0x100 + b2, 0x100, b0 * 0x100 + b1, b2);
  }

  /** bswap_32 */
  function Bswap32(v: Word): Word {
    Or32(Or32(Or32(Shr32(And32(v, 0xFF00_0000), 24), Shr32(And32(v, 0xFF_0000), 8)),
              Shl32(And32(v, 0xFF00), 8)),
         Shl32(And32(v, 0xFF), 24))
  }

  /** One byte cut out in its place. */
  lemma ByteMask(v: Word, k: nat, d: nat)
    requires d == Pow2(k)
    ensures And(v, 0xFF * d) == v / d % 0x100 * d
  {
    hide And, High, Low, Scale, Pow2;
    JoinedDigits(0, 0xFF, k, d);
    AndParts(v, 0xFF * d, k, d, 0, 0xFF);
    AndZero(Low(v, k));
    HighLow(v, k);
    Pow2Values();
    AndOnesAt(v / d, 8, 0x100);
  }

  lemma AndZero(a: nat)
    ensures And(a, 0) == 0
  {
  }

  lemma OrAbove(low: nat, high: nat, k: nat, d: nat)
    requires d == Pow2(k) && low < d
    ensures Or(low, high * d) == low + high * d
  {
    hide Or, And, Scale, High, Low, Pow2;
    LowSmall(low, k);
    JoinedDigits(0, high, k, d);
    NoCommonDigit(low, high * d, k);
    OrDisjoint(low, high * d);
  }

  lemma TopByte(v: Word)
    ensures Shr32(And32(v, 0xFF00_0000), 24) == v / 0x100_0000
  {
    hide And, High, Pow2;
    Pow2Values();
    ByteMask(v, 24, 0x100_0000);
    HighLowAt(And(v, 0xFF00_0000), 24, 0x100_0000);
    TopSmall(v);
  }

  lemma TopSmall(v: Word)
    ensures v / 0x100_0000 % 0x100 * 0x100_0000 / 0x100_0000 == v / 0x100_0000
  {
  }

  lemma ThirdByte(v: Word)
    ensures Shr32(And32(v, 0xFF_0000), 8) == v / 0x1_0000 % 0x100 * 0x100
  {
    hide And, High, Pow2;
    Pow2Values();
    ByteMask(v, 16, 0x1_0000);
    HighLowAt(And(v, 0xFF_0000), 8, 0x100);
    DivUnique(And(v, 0xFF_0000), 0x100, v / 0x1_0000 % 0x100 * 0x100, 0);
  }

  lemma SecondByte(v: Word)
    ensures Shl32(And32(v, 0xFF00), 8) == v / 0x100 % 0x100 * 0x1_0000
  {
    hide And, Scale, Pow2;
    Pow2Values();
    ByteMask(v, 8, 0x100);
    ScaleAt(And(v, 0xFF00), 8, 0x100);
  }

  lemma LowByte(v: Word)
    ensures Shl32(And32(v, 0xFF), 24) == v % 0x100 * 0x100_0000
  {
    hide And, Scale, Pow2;
    Pow2Values();
    AndOnesAt(v, 8, 0x100);
    ScaleAt(And(v, 0xFF), 24, 0x100_0000);
  }

  /** bswap_32 reverses the bytes. */
  lemma SwapValue(v: Word)
    ensures Bswap32(v) == v / 0x100_0000 + v / 0x1_0000 % 0x100 * 0x100 + v / 0x100 % 0x100 * 0x1_0000
                          + v % 0x100 * 0x100_0000
  {
    hide And32, Shr32, Shl32, Or, Pow2;
    TopByte(v);
    ThirdByte(v);
    SecondByte(v);
    LowByte(v);
    Pow2Values();
    OrAbove(v / 0x100_0000, v / 0x1_0000 % 0x100, 8, 0x100);
    OrAbove(v / 0x100_0000 + v / 0x1_0000 % 0x100 * 0x100, v / 0x100 % 0x100, 16, 0x1_0000);
    OrAbove(v / 0x100_0000 + v / 0x1_0000 % 0x100 * 0x100 + v / 0x100 % 0x100 * 0x1_0000, v % 0x100, 24, 0x100_0000);
  }

  /** A swapped word in the memory of a little-endian host is the word in big-endian order. */
  lemma SwappedIsBig(s: seq<Byte>, o: nat, v: Word)
    requires o + 4 <= |s| && WordAt(s, o) == Bswap32(v)
    ensures s[o..o + 4] == Be32(v) && BeAt(s, o) == v
  {
    hide Bswap32;
    SwapValue(v);
    LittleDigits(s[o], s[o + 1], s[o + 2], s[o + 3], v / 0x100_0000, v / 0x1_0000 % 0x100, v / 0x100 % 0x100, v % 0x100);
    BytesOfWord(v);
  }

  lemma LittleDigits(a0: Byte, a1: Byte, a2: Byte, a3: Byte, b0: Byte, b1: Byte, b2: Byte, b3: Byte)
    requires a0 + a1 * 0x100 + a2 * 0x1_0000 + a3 * 0x100_0000 == b0 + b1 * 0x100 + b2 * 0x1_0000 + b3 * 0x100_0000
    ensures a0 == b0 && a1 == b1 && a2 == b2 && a3 == b3
  {
    LastByte(a0, a1 + a2 * 0x100 + a3 * 0x1_0000, b0, b1 + b2 * 0x100 + b3 * 0x1_0000);
    LastByte(a1, a2 + a3 * 0x100, b1, b2 + b3 * 0x100);
    LastByte(a2, a3, b2, b3);
  }

  lemma LastByte(a: Byte, high: nat, b: Byte, high': nat)
    requires a + high * 0x100 == b + high' * 0x100
    ensures a == b && high == high'
  {
    DivUnique(a + high * 0x100, 0x100, high, a);
    DivUnique(a + high * 0x100, 0x100, high', b);
  }

  /** cpu_to_be32 and a store through a uint32_t pointer. */
  method StoreBe(ram: array<Byte>, o: nat, v: Word)
    requires o + 4 <= ram.Length
    modifies ram
    ensures ram[o..o + 4] == Be32(v) && BeAt(ram[..], o) == v
    ensures ram[..o] == old(ram[..o]) && ram[o + 4..] == old(ram[o + 4..])
  {
    hide Bswap32, Be32, BeAt;
    StoreWord(ram, o, Bswap32(v));
    SwappedIsBig(ram[..], o, v);
    assert ram[..][o..o + 4] == ram[o..o + 4];
  }

  // ---------------------------------------------------------------- memcpy, memset, realloc

  method CopyBytes(dst: array<Byte>, at: nat, src: seq<Byte>)
    requires at + |src| <= dst.Length
    modifies dst
    ensures dst[at..at + |src|] == src
    ensures dst[..at] == old(dst[..at]) && dst[at + |src|..] == old(dst[at + |src|..])
  {
    for i := 0 to |src|
      invariant dst[at..at + i] == src[..i]
      invariant dst[..at] == old(dst[..at]) && dst[at + i..] == old(dst[at + i..])
    {
      assert dst[at + i + 1..] == dst[at + i..][1..];
      dst[at + i] := src[i];
    }
  }

  function Zeros(n: nat): (s: seq<Byte>)
    ensures |s| == n && forall i :: 0 <= i < n ==> s[i] == 0
  {
    seq(n, i => 0)
  }

  method ClearBytes(dst: array<Byte>, at: nat, n: nat)
    requires at + n <= dst.Length
    modifies dst
    ensures dst[at..at + n] == Zeros(n)
    ensures dst[..at] == old(dst[..at]) && dst[at + n..] == old(dst[at + n..])
  {
    CopyBytes(dst, at, Zeros(n));
  }

  /** realloc to a larger block: the old contents first, what follows is arbitrary. */
  method Realloc(block: array<Byte>, size: nat) returns (larger: array<Byte>)
    requires block.Length <= size
    ensures fresh(larger) && larger.Length == size && larger[..block.Length] == block[..]
  {
    larger := new Byte[size];
    CopyBytes(larger, 0, block[..]);
    assert larger[..block.Length] == larger[0..0 + |block[..]|];
  }
}
