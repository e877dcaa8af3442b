/**
 The operations on words, bit by bit and byte by byte, and the rounds run backwards: what
 section 4.1.2 and section 6.2.2 of FIPS 180-4 ask of them.
 */
module Sha256Words {
  import opened Sha256

  function BitOf(x: bv32, i: bv5): bv32 {
    (x >> i) & 1
  }

  /** Bit i of a word is one; bit 0 is the least significant, and indices count modulo 32. */
  predicate On(x: bv32, i: bv5) {
    BitOf(x, i) == 1
  }

  lemma ZeroOrOne(x: bv32, i: bv5)
    ensures BitOf(x, i) == 0 || BitOf(x, i) == 1
  {
  }

  lemma XorBit(x: bv32, y: bv32, i: bv5)
    ensures BitOf(Xor(x, y), i) == BitOf(x, i) ^ BitOf(y, i)
  {
  }

  lemma AndBit(x: bv32, y: bv32, i: bv5)
    ensures BitOf(And(x, y), i) == BitOf(x, i) & BitOf(y, i)
  {
  }

  lemma NotBit(x: bv32, i: bv5)
    ensures BitOf(Not(x), i) == 1 - BitOf(x, i)
  {
  }

  lemma XorOn(x: bv32, y: bv32, i: bv5)
    ensures On(Xor(x, y), i) == (On(x, i) != On(y, i))
  {
    hide BitOf, Xor;
    XorBit(x, y, i);
    ZeroOrOne(x, i);
    ZeroOrOne(y, i);
  }

  lemma AndOn(x: bv32, y: bv32, i: bv5)
    ensures On(And(x, y), i) == (On(x, i) && On(y, i))
  {
    hide BitOf, And;
    AndBit(x, y, i);
    ZeroOrOne(x, i);
    ZeroOrOne(y, i);
  }

  lemma NotOn(x: bv32, i: bv5)
    ensures On(Not(x), i) == !On(x, i)
  {
    hide BitOf, Not;
    NotBit(x, i);
    ZeroOrOne(x, i);
  }

  lemma Rotated2(x: bv32, i: bv5)
    ensures On(Rotr(x, 2), i) == On(x, i + 2)
  {
  }

  lemma Rotated13(x: bv32, i: bv5)
    ensures On(Rotr(x, 13), i) == On(x, i + 13)
  {
  }

  lemma Rotated22(x: bv32, i: bv5)
    ensures On(Rotr(x, 22), i) == On(x, i + 22)
  {
  }

  lemma Rotated6(x: bv32, i: bv5)
    ensures On(Rotr(x, 6), i) == On(x, i + 6)
  {
  }

  lemma Rotated11(x: bv32, i: bv5)
    ensures On(Rotr(x, 11), i) == On(x, i + 11)
  {
  }

  lemma Rotated25(x: bv32, i: bv5)
    ensures On(Rotr(x, 25), i) == On(x, i + 25)
  {
  }

  lemma Rotated7(x: bv32, i: bv5)
    ensures On(Rotr(x, 7), i) == On(x, i + 7)
  {
  }

  lemma Rotated18(x: bv32, i: bv5)
    ensures On(Rotr(x, 18), i) == On(x, i + 18)
  {
  }

  lemma Rotated17(x: bv32, i: bv5)
    ensures On(Rotr(x, 17), i) == On(x, i + 17)
  {
  }

  lemma Rotated19(x: bv32, i: bv5)
    ensures On(Rotr(x, 19), i) == On(x, i + 19)
  {
  }

  lemma Shifted3(x: bv32, i: bv5)
    ensures On(Shr(x, 3), i) == (i < 29 && On(x, i + 3))
  {
  }

  lemma Shifted10(x: bv32, i: bv5)
    ensures On(Shr(x, 10), i) == (i < 22 && On(x, i + 10))
  {
  }

  /** A bit of the upper-case sigmas is on when an odd number of three bits of the word is. */
  lemma BigSigma0Bits(x: bv32, i: bv5)
    ensures On(BigSigma0(x), i) == ((On(x, i + 2) != On(x, i + 13)) != On(x, i + 22))
  {
    hide On, Rotr, Xor;
    Rotated2(x, i);
    Rotated13(x, i);
    Rotated22(x, i);
    XorOn(Rotr(x, 2), Rotr(x, 13), i);
    XorOn(Xor(Rotr(x, 2), Rotr(x, 13)), Rotr(x, 22), i);
  }

  lemma BigSigma1Bits(x: bv32, i: bv5)
    ensures On(BigSigma1(x), i) == ((On(x, i + 6) != On(x, i + 11)) != On(x, i + 25))
  {
    hide On, Rotr, Xor;
    Rotated6(x, i);
    Rotated11(x, i);
    Rotated25(x, i);
    XorOn(Rotr(x, 6), Rotr(x, 11), i);
    XorOn(Xor(Rotr(x, 6), Rotr(x, 11)), Rotr(x, 25), i);
  }

  /** For the lower-case sigmas the third bit is missing at the upper end. */
  lemma SmallSigma0Bits(x: bv32, i: bv5)
    ensures On(SmallSigma0(x), i) == ((On(x, i + 7) != On(x, i + 18)) != (i < 29 && On(x, i + 3)))
  {
    hide On, Rotr, Xor, Shr;
    Rotated7(x, i);
    Rotated18(x, i);
    Shifted3(x, i);
    XorOn(Rotr(x, 7), Rotr(x, 18), i);
    XorOn(Xor(Rotr(x, 7), Rotr(x, 18)), Shr(x, 3), i);
  }

  lemma SmallSigma1Bits(x: bv32, i: bv5)
    ensures On(SmallSigma1(x), i) == ((On(x, i + 17) != On(x, i + 19)) != (i < 22 && On(x, i + 10)))
  {
    hide On, Rotr, Xor, Shr;
    Rotated17(x, i);
    Rotated19(x, i);
    Shifted10(x, i);
    XorOn(Rotr(x, 17), Rotr(x, 19), i);
    XorOn(Xor(Rotr(x, 17), Rotr(x, 19)), Shr(x, 10), i);
  }

  /** Ch chooses between two bits by the first. */
  lemma ChBits(x: bv32, y: bv32, z: bv32, i: bv5)
    ensures On(Ch(x, y, z), i) == if On(x, i) then On(y, i) else On(z, i)
  {
    hide On, Xor, And, Not;
    AndOn(x, y, i);
    NotOn(x, i);
    AndOn(Not(x), z, i);
    XorOn(And(x, y), And(Not(x), z), i);
  }

  /** Maj is the bit that at least two of the three have. */
  lemma MajBits(x: bv32, y: bv32, z: bv32, i: bv5)
    ensures On(Maj(x, y, z), i) == if On(x, i) == On(y, i) then On(x, i) else On(z, i)
  {
    hide On, Xor, And;
    AndOn(x, y, i);
    AndOn(x, z, i);
    AndOn(y, z, i);
    XorOn(And(x, y), And(x, z), i);
    XorOn(Xor(And(x, y), And(x, z)), And(y, z), i);
  }

  /** A word is put together from its bytes, most significant byte first. */
  lemma WordBytes(b0: Byte, b1: Byte, b2: Byte, b3: Byte)
    ensures var w := WordOf(b0, b1, b2, b3);
      && w >> 24 == b0 as bv32 && (w >> 16) & 255 == b1 as bv32
      && (w >> 8) & 255 == b2 as bv32 && w & 255 == b3 as bv32
  {
  }

  /** The number a hexadecimal digit stands for. */
  function DigitValue(c: char): bv32 {
    if c == '0' then 0 else if c == '1' then 1 else if c == '2' then 2 else if c == '3' then 3
    else if c == '4' then 4 else if c == '5' then 5 else if c == '6' then 6 else if c == '7' then 7
    else if c == '8' then 8 else if c == '9' then 9 else if c == 'a' then 10 else if c == 'b' then 11
    else if c == 'c' then 12 else if c == 'd' then 13 else if c == 'e' then 14 else if c == 'f' then 15 else 16
  }

  lemma DigitReads(d: bv32)
    requires d < 16
    ensures DigitValue(HexDigit(d)) == d
  {
  }

  /** A printed word is eight digits, and they spell the word, most significant digit first. */
  lemma HexWordSpells(w: bv32)
    ensures var s := HexWord(w);
      && |s| == 8
      && (DigitValue(s[0]) << 28) | (DigitValue(s[1]) << 24) | (DigitValue(s[2]) << 20) | (DigitValue(s[3]) << 16)
         | (DigitValue(s[4]) << 12) | (DigitValue(s[5]) << 8) | (DigitValue(s[6]) << 4) | DigitValue(s[7]) == w
  {
    hide DigitValue, HexDigit;
    DigitReads(w >> 28);
    DigitReads((w >> 24) & 15);
    DigitReads((w >> 20) & 15);
    DigitReads((w >> 16) & 15);
    DigitReads((w >> 12) & 15);
    DigitReads((w >> 8) & 15);
    DigitReads((w >> 4) & 15);
    DigitReads(w & 15);
  }

  /** A digest is its words, one behind the other, eight digits each. */
  lemma {:induction false} DigestWords(h: seq<bv32>, k: nat)
    requires k < |h|
    ensures |HexText(h)| == 8 * |h| && HexText(h)[8 * k..8 * k + 8] == HexWord(h[k])
    decreases |h|
  {
    hide HexWord;
    var n := |h| - 1;
    EightDigits(h[n]);
    if n > 0 {
      DigestWords(h[..n], if k < n then k else 0);
    } else {
      assert h[..0] == [] && HexText([]) == "";
    }
    assert HexText(h) == HexText(h[..n]) + HexWord(h[n]);
  }

  lemma EightDigits(w: bv32)
    ensures |HexWord(w)| == 8
  {
  }

  /** The working variables are the words of the hash in their order. */
  lemma WorkingInOrder(h: seq<bv32>)
    requires |h| == 8
    ensures WordsOf(WorkingOf(h)) == h
  {
  }

  function Minus(x: bv32, y: bv32): bv32 {
    x - y
  }

  lemma DifferenceOfSum(x: bv32, y: bv32)
    ensures (x + y) - y == x
  {
  }

  lemma MinusUndoesPlus(x: bv32, y: bv32)
    ensures Minus(Plus(x, y), y) == x
  {
    DifferenceOfSum(x, y);
    PlusIs(x, y);
    hide Plus;
  }

  /** The round run backwards. */
  function Unround(s: Working, k: bv32, w: bv32): Working {
    var t1 := Minus(s.a, Plus(BigSigma0(s.b), Maj(s.b, s.c, s.d)));
    var h := Minus(Minus(Minus(Minus(t1, w), k), Ch(s.f, s.g, s.h)), BigSigma1(s.f));
    Working(s.b, s.c, s.d, Minus(s.e, t1), s.f, s.g, s.h, h)
  }

  /** A round loses nothing: running it backwards gives the working variables back. */
  lemma RoundUndone(s: Working, k: bv32, w: bv32)
    ensures Unround(Round(s, k, w), k, w) == s
  {
    hide BigSigma0, BigSigma1, Ch, Maj, Plus, Minus;
    var a := Plus(s.h, BigSigma1(s.e));
    var b := Plus(a, Ch(s.e, s.f, s.g));
    var c := Plus(b, k);
    var t1 := Plus(c, w);
    MinusUndoesPlus(t1, Plus(BigSigma0(s.a), Maj(s.a, s.b, s.c)));
    MinusUndoesPlus(s.d, t1);
    MinusUndoesPlus(c, w);
    MinusUndoesPlus(b, k);
    MinusUndoesPlus(a, Ch(s.e, s.f, s.g));
    MinusUndoesPlus(s.h, BigSigma1(s.e));
  }

  /** Padding as section 5.1.1 has it: the message, a one bit, zeros, and the length in bits. */
  lemma PaddedAsStandard(message: seq<Byte>)
    requires |message| < TWO61
    ensures var p, n := Padded(message), |message|;
      && |p| % 64 == 0 && n + 9 <= |p| < n + 9 + 64 && p[..n] == message && p[n] == 128
      && (forall i :: n < i < |p| - 8 ==> p[i] == 0)
      && BytesValue(p[|p|-8..]) == 8 * n
  {
    hide BigEndian, Zeros, ZeroBytes, BytesValue;
    var n := |message|;
    var z := ZeroBytes(n);
    assert LeavesRoom(n, z);
    LeastRoom(n, z);
    var p := Padded(message);
    assert p[|p|-8..] == BigEndian(8 * n, 8);
    LengthIsKept(8 * n);
    assert forall i :: n < i < |p| - 8 ==> p[i] == Zeros(z)[i - n - 1];
  }

  lemma LeastRoom(n: nat, z: nat)
    requires LeavesRoom(n, z) && forall y: nat :: y < z ==> !LeavesRoom(n, y)
    ensures z < 64
  {
    if z >= 64 {
      assert LeavesRoom(n, z - 64);
    }
  }
}
