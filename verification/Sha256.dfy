/**
 The SHA-256 fingerprint of a library file, read 64 bytes at a time, against FIPS 180-4.
 */
module Sha256 {

  type Byte = b: int | 0 <= b < 256

  const TWO32: int := 0x1_0000_0000
  const TWO61: int := 0x2000_0000_0000_0000
  const TWO64: int := 0x1_0000_0000_0000_0000

  type Word32 = w: int | 0 <= w < TWO32

  // ------------------------------------------- FIPS 180-4, sections 4.1.2 and 4.2.2

  /** In rows of eight. */
  const CONSTANTS: seq<seq<Word32>> := [
    [0x428a2f98, 0x71374491, 0xb5c0fbcf, 0xe9b5dba5, 0x3956c25b, 0x59f111f1, 0x923f82a4, 0xab1c5ed5],
    [0xd807aa98, 0x12835b01, 0x243185be, 0x550c7dc3, 0x72be5d74, 0x80deb1fe, 0x9bdc06a7, 0xc19bf174],
    [0xe49b69c1, 0xefbe4786, 0x0fc19dc6, 0x240ca1cc, 0x2de92c6f, 0x4a7484aa, 0x5cb0a9dc, 0x76f988da],
    [0x983e5152, 0xa831c66d, 0xb00327c8, 0xbf597fc7, 0xc6e00bf3, 0xd5a79147, 0x06ca6351, 0x14292967],
    [0x27b70a85, 0x2e1b2138, 0x4d2c6dfc, 0x53380d13, 0x650a7354, 0x766a0abb, 0x81c2c92e, 0x92722c85],
    [0xa2bfe8a1, 0xa81a664b, 0xc24b8b70, 0xc76c51a3, 0xd192e819, 0xd6990624, 0xf40e3585, 0x106aa070],
    [0x19a4c116, 0x1e376c08, 0x2748774c, 0x34b0bcb5, 0x391c0cb3, 0x4ed8aa4a, 0x5b9cca4f, 0x682e6ff3],
    [0x748f82ee, 0x78a5636f, 0x84c87814, 0x8cc70208, 0x90befffa, 0xa4506ceb, 0xbef9a3f7, 0xc67178f2]]

  const INITIAL: seq<Word32> := [
    0x6a09e667, 0xbb67ae85, 0x3c6ef372, 0xa54ff53a, 0x510e527f, 0x9b05688c, 0x1f83d9ab, 0x5be0cd19]

  /** The initial hash value of section 5.3.3. */
  function H0(): (h: seq<bv32>)
    ensures |h| == 8
  {
    seq(8, t requires 0 <= t < 8 => INITIAL[t] as bv32)
  }

  /** The round constants of section 4.2.2. */
  function Constant(t: nat): Word32
    requires t < 64
  {
    CONSTANTS[t / 8][t % 8]
  }

  function K(t: nat): bv32
    requires t < 64
  {
    Constant(t) as bv32
  }

  /** Addition modulo 2^32. */
  function Plus(x: bv32, y: bv32): bv32 {
    x + y
  }

  function Xor(x: bv32, y: bv32): bv32 {
    x ^ y
  }

  function And(x: bv32, y: bv32): bv32 {
    x & y
  }

  function Not(x: bv32): bv32 {
    !x
  }

  function Shr(x: bv32, n: bv32): bv32
    requires 0 < n < 32
  {
    x >> n
  }

  function Rotr(x: bv32, n: bv32): bv32
    requires 0 < n < 32
  {
    (x >> n) | (x << (32 - n))
  }

  function Ch(x: bv32, y: bv32, z: bv32): bv32 {
    Xor(And(x, y), And(Not(x), z))
  }

  function Maj(x: bv32, y: bv32, z: bv32): bv32 {
    Xor(Xor(And(x, y), And(x, z)), And(y, z))
  }

  function BigSigma0(x: bv32): bv32 {
    Xor(Xor(Rotr(x, 2), Rotr(x, 13)), Rotr(x, 22))
  }

  function BigSigma1(x: bv32): bv32 {
    Xor(Xor(Rotr(x, 6), Rotr(x, 11)), Rotr(x, 25))
  }

  function SmallSigma0(x: bv32): bv32 {
    Xor(Xor(Rotr(x, 7), Rotr(x, 18)), Shr(x, 3))
  }

  function SmallSigma1(x: bv32): bv32 {
    Xor(Xor(Rotr(x, 17), Rotr(x, 19)), Shr(x, 10))
  }

  // ----------------------------------------------------- section 6.2.2, one block

  /** Four bytes as a word, most significant byte first. */
  function WordOf(b0: Byte, b1: Byte, b2: Byte, b3: Byte): bv32 {
    ((b0 as bv32) << 24) | ((b1 as bv32) << 16) | ((b2 as bv32) << 8) | (b3 as bv32)
  }

  /** The t-th word of a block. */
  function Word(block: seq<Byte>, t: nat): bv32
    requires |block| == 64 && t < 16
  {
    WordOf(block[4*t], block[4*t+1], block[4*t+2], block[4*t+3])
  }

  /** The message schedule. */
  function W(block: seq<Byte>, t: nat): bv32
    requires |block| == 64
  {
    if t < 16 then Word(block, t)
    else Plus(Plus(Plus(SmallSigma1(W(block, t - 2)), W(block, t - 7)), SmallSigma0(W(block, t - 15))), W(block, t - 16))
  }

  datatype Working = Working(a: bv32, b: bv32, c: bv32, d: bv32, e: bv32, f: bv32, g: bv32, h: bv32)

  function Round(s: Working, k: bv32, w: bv32): Working {
    var t1 := Plus(Plus(Plus(Plus(s.h, BigSigma1(s.e)), Ch(s.e, s.f, s.g)), k), w);
    var t2 := Plus(BigSigma0(s.a), Maj(s.a, s.b, s.c));
    Working(Plus(t1, t2), s.a, s.b, s.c, Plus(s.d, t1), s.e, s.f, s.g)
  }

  function Rounds(s: Working, block: seq<Byte>, t: nat): Working
    requires |block| == 64 && t <= 64
  {
    if t == 0 then s else Round(Rounds(s, block, t - 1), K(t - 1), W(block, t - 1))
  }

  function WorkingOf(h: seq<bv32>): Working
    requires |h| == 8
  {
    Working(h[0], h[1], h[2], h[3], h[4], h[5], h[6], h[7])
  }

  function WordsOf(s: Working): (w: seq<bv32>)
    ensures |w| == 8
  {
    [s.a, s.b, s.c, s.d, s.e, s.f, s.g, s.h]
  }

  function Added(s: Working, h: seq<bv32>): (r: seq<bv32>)
    requires |h| == 8
    ensures |r| == 8
  {
    seq(8, i requires 0 <= i < 8 => Plus(WordsOf(s)[i], h[i]))
  }

  /** The next intermediate hash value. */
  function Compress(h: seq<bv32>, block: seq<Byte>): (r: seq<bv32>)
    requires |h| == 8 && |block| == 64
    ensures |r| == 8
  {
    Added(Rounds(WorkingOf(h), block, 64), h)
  }

  // ------------------------------------------------- section 5.1.1, padding a message

  function Pow256(n: nat): (p: nat)
    ensures p > 0
  {
    if n == 0 then 1 else 256 * Pow256(n - 1)
  }

  /** The byte that is left at the right end after shifting by k bytes. */
  function ByteAt(n: nat, k: nat): Byte {
    if k == 0 then n % 256 else ByteAt(n / 256, k - 1)
  }

  /** A number in that many bytes, most significant byte first. */
  function BigEndian(n: nat, count: nat): (b: seq<Byte>)
    ensures |b| == count
  {
    seq(count, i requires 0 <= i < count => ByteAt(n, count - 1 - i))
  }

  function BytesValue(b: seq<Byte>): nat {
    if b == [] then 0 else 256 * BytesValue(b[..|b|-1]) + b[|b|-1]
  }

  lemma {:induction false} BytesKeepNumber(n: nat, count: nat)
    requires n < Pow256(count)
    ensures BytesValue(BigEndian(n, count)) == n
    decreases count
  {
    if count > 0 {
      BytesKeepNumber(n / 256, count - 1);
      forall k | 0 < k < count ensures ByteAt(n, k) == ByteAt(n / 256, k - 1) {
      }
      assert ByteAt(n, 0) == n % 256;
      assert BigEndian(n, count)[..count-1] == BigEndian(n / 256, count - 1);
    }
  }

  /** The eight bytes of the length stand for it. */
  lemma LengthIsKept(n: nat)
    requires n < TWO64
    ensures BytesValue(BigEndian(n, 8)) == n
  {
    assert Pow256(4) == TWO32;
    BytesKeepNumber(n, 8);
  }

  /** After n bytes, the 0x80 byte and z zeros there is just room for the length: 448 bits modulo 512. */
  predicate LeavesRoom(n: nat, z: nat) {
    (n + 1 + z) % 64 == 56
  }

  /** The least number of zero bytes that leaves room for the length at the end of a block. */
  function ZeroBytes(n: nat): (z: nat)
    ensures LeavesRoom(n, z) && forall y: nat :: y < z ==> !LeavesRoom(n, y)
  {
    (119 - n % 64) % 64
  }

  function Zeros(n: nat): (z: seq<Byte>)
    ensures |z| == n && forall i :: 0 <= i < n ==> z[i] == 0
  {
    seq(n, i => 0)
  }

  function Padded(message: seq<Byte>): seq<Byte>
    requires |message| < TWO61
  {
    message + [0x80] + Zeros(ZeroBytes(|message|)) + BigEndian(8 * |message|, 8)
  }

  /** Hashes the blocks of 64 bytes one after the other. */
  function HashBlocks(h: seq<bv32>, blocks: seq<Byte>): (r: seq<bv32>)
    requires |h| == 8
    ensures |r| == 8
    decreases |blocks|
  {
    if |blocks| < 64 then h else HashBlocks(Compress(h, blocks[..64]), blocks[64..])
  }

  function HexDigit(d: bv32): char {
    if d == 0 then '0' else if d == 1 then '1' else if d == 2 then '2' else if d == 3 then '3'
    else if d == 4 then '4' else if d == 5 then '5' else if d == 6 then '6' else if d == 7 then '7'
    else if d == 8 then '8' else if d == 9 then '9' else if d == 10 then 'a' else if d == 11 then 'b'
    else if d == 12 then 'c' else if d == 13 then 'd' else if d == 14 then 'e' else 'f'
  }

  /** A word as the output stream prints it: hexadecimal, eight wide, filled with zeros. */
  function HexWord(w: bv32): string {
    [HexDigit(w >> 28), HexDigit((w >> 24) & 15), HexDigit((w >> 20) & 15), HexDigit((w >> 16) & 15),
     HexDigit((w >> 12) & 15), HexDigit((w >> 8) & 15), HexDigit((w >> 4) & 15), HexDigit(w & 15)]
  }

  function HexText(h: seq<bv32>): string {
    if h == [] then "" else HexText(h[..|h|-1]) + HexWord(h[|h|-1])
  }

  /** The digest of section 6.2, as text. */
  function Digest(message: seq<Byte>): string
    requires |message| < TWO61
  {
    HexText(HashBlocks(H0(), Padded(message)))
  }

  // -------------------------------------------------------------- hashing one block

  lemma PlusIs(a: bv32, b: bv32)
    ensures Plus(a, b) == a + b && Plus(a, b) == Plus(b, a)
  {
  }

  lemma Reassociate(a: bv32, b: bv32, c: bv32)
    ensures a + b + c == a + (b + c)
  {
  }

  lemma PlusOfSums(a: bv32, b: bv32, c: bv32)
    ensures Plus(a + b, c) == Plus(a, b + c)
  {
    Reassociate(a, b, c);
  }

  lemma PlusAssociates(a: bv32, b: bv32, c: bv32)
    ensures Plus(Plus(a, b), c) == Plus(a, Plus(b, c))
  {
    hide Plus;
    PlusIs(a, b);
    PlusIs(b, c);
    PlusOfSums(a, b, c);
  }

  lemma SumOrder(a: bv32, b: bv32, c: bv32, d: bv32)
    ensures Plus(Plus(Plus(a, b), c), d) == Plus(Plus(Plus(d, c), b), a)
  {
    hide Plus;
    PlusIs(Plus(Plus(a, b), c), d);
    PlusIs(Plus(a, b), c);
    PlusIs(a, b);
    PlusAssociates(d, c, Plus(b, a));
    PlusAssociates(Plus(d, c), b, a);
  }

  lemma ScheduleStep(block: seq<Byte>, t: nat)
    requires |block| == 64
    ensures W(block, t) ==
      if t < 16 then Word(block, t)
      else Plus(Plus(Plus(SmallSigma1(W(block, t - 2)), W(block, t - 7)), SmallSigma0(W(block, t - 15))), W(block, t - 16))
  {
    hide SmallSigma0, SmallSigma1, Word, Plus;
  }

  lemma RoundsStep(s: Working, block: seq<Byte>, t: nat)
    requires |block| == 64 && t < 64
    ensures Rounds(s, block, 0) == s
    ensures Rounds(s, block, t + 1) == Round(Rounds(s, block, t), K(t), W(block, t))
  {
    hide Round, W, K;
  }

  method MessageSchedule(p: array<Byte>, at: nat) returns (w: array<bv32>)
    requires at + 64 <= p.Length
    ensures fresh(w) && w.Length == 64
    ensures forall t :: 0 <= t < 64 ==> w[t] == W(p[at..at+64], t)
  {
    hide W, WordOf, SmallSigma0, SmallSigma1, Plus;
    ghost var block := p[at..at+64];
    w := new bv32[64];
    for i := 0 to 16
      invariant forall t :: 0 <= t < i ==> w[t] == W(block, t)
    {
      ScheduleStep(block, i);
      w[i] := WordOf(p[at + 4*i], p[at + 4*i + 1], p[at + 4*i + 2], p[at + 4*i + 3]);
    }
    for i := 16 to 64
      invariant forall t :: 0 <= t < i ==> w[t] == W(block, t)
    {
      var a, b := w[i - 15], w[i - 2];
      ScheduleStep(block, i);
      SumOrder(SmallSigma1(b), w[i - 7], SmallSigma0(a), w[i - 16]);
      w[i] := Plus(Plus(Plus(w[i - 16], SmallSigma0(a)), w[i - 7]), SmallSigma1(b));
    }
  }

  /** The block function: updates the intermediate hash in place. */
  method Block(h: array<bv32>, p: array<Byte>, at: nat)
    requires h.Length == 8 && at + 64 <= p.Length
    modifies h
    ensures h[..] == Compress(old(h[..]), p[at..at+64])
  {
    hide W, Round, Rounds, Plus, K;
    ghost var block := p[at..at+64];
    var w := MessageSchedule(p, at);
    var s := WorkingOf(h[..]);
    RoundsStep(s, block, 0);
    ghost var s0 := s;
    for i := 0 to 64
      invariant s == Rounds(s0, block, i)
      invariant h[..] == old(h[..])
      invariant forall t :: 0 <= t < 64 ==> w[t] == W(block, t)
    {
      RoundsStep(s0, block, i);
      s := Round(s, K(i), w[i]);
    }
    AddTo(h, s);
  }

  method AddTo(h: array<bv32>, s: Working)
    requires h.Length == 8
    modifies h
    ensures h[..] == Added(s, old(h[..]))
  {
    hide Plus, WordsOf;
    var words := WordsOf(s);
    for i := 0 to 8
      invariant forall k :: 0 <= k < i ==> h[k] == Plus(words[k], old(h[k]))
      invariant forall k :: i <= k < 8 ==> h[k] == old(h[k])
    {
      h[i] := Plus(words[i], h[i]);
    }
  }

  // ------------------------------------------------------------------ the stream

  /** A file as a byte stream: whether it opens, what it holds, whether reading fails at the end. */
  datatype Source = Source(opens: bool, bytes: seq<Byte>, fails: bool)

  datatype Outcome = Hash(text: string) | CannotRead | ReadFailed

  lemma {:induction false} HashConcat(h: seq<bv32>, a: seq<Byte>, b: seq<Byte>)
    requires |h| == 8 && |a| % 64 == 0
    ensures HashBlocks(h, a + b) == HashBlocks(HashBlocks(h, a), b)
    decreases |a|
  {
    hide Compress;
    if a == [] {
      assert a + b == b;
    } else {
      assert (a + b)[..64] == a[..64] && (a + b)[64..] == a[64..] + b;
      HashConcat(Compress(h, a[..64]), a[64..], b);
    }
  }

  lemma OneBlock(h: seq<bv32>, block: seq<Byte>)
    requires |h| == 8 && |block| == 64
    ensures HashBlocks(h, block) == Compress(h, block)
  {
    hide Compress;
    assert block[..64] == block && block[64..] == [];
  }

  /** The last, incomplete block with its padding; the length is kept in 64 bits. */
  function LastBlocks(tail: seq<Byte>, length: nat): seq<Byte> {
    tail + [0x80] + Zeros(ZeroBytes(length)) + BigEndian(8 * length % TWO64, 8)
  }

  lemma PaddedSplits(message: seq<Byte>, full: nat)
    requires |message| < TWO61 && full <= |message| < full + 64 && full % 64 == 0
    ensures Padded(message) == message[..full] + LastBlocks(message[full..], |message|)
  {
    hide BigEndian, Zeros, ZeroBytes;
    assert message == message[..full] + message[full..];
  }

  /** Writes the 0x80 byte, the zeros and the length behind the tail; gives the padded length. */
  method FinishBuffer(buffer: array<Byte>, tail: nat, size: nat) returns (padded: nat)
    requires buffer.Length == 128 && tail < 64 && size % 64 == tail
    modifies buffer
    ensures padded == if tail < 56 then 64 else 128
    ensures buffer[..padded] == LastBlocks(old(buffer[..tail]), size)
  {
    hide BigEndian, ByteAt, ZeroBytes;
    ghost var front := buffer[..tail];
    buffer[tail] := 0x80;
    assert buffer[..tail] == front;
    padded := if tail + 1 <= 56 then 64 else 128;
    for i := tail + 1 to padded
      invariant buffer[..tail+1] == front + [0x80]
      invariant forall k :: tail < k < i ==> buffer[k] == 0
    {
      buffer[i] := 0;
    }
    ZerosNeeded(tail, size);
    assert buffer[..padded-8] == front + [0x80] + Zeros(ZeroBytes(size));
    WriteLength(buffer, padded, 8 * size % TWO64);
    assert buffer[..padded] == buffer[..padded-8] + buffer[padded-8..padded];
  }

  lemma ZerosNeeded(tail: nat, size: nat)
    requires tail < 64 && size % 64 == tail
    ensures ZeroBytes(size) == if tail < 56 then 55 - tail else 119 - tail
  {
    hide LeavesRoom;
    assert ZeroBytes(size) == (119 - tail) % 64;
    Remainder64(119 - tail);
  }

  lemma Remainder64(n: nat)
    requires n < 128
    ensures n % 64 == if n < 64 then n else n - 64
  {
  }

  method WriteLength(buffer: array<Byte>, padded: nat, bits: nat)
    requires 8 <= padded <= buffer.Length
    modifies buffer
    ensures buffer[..padded-8] == old(buffer[..padded-8])
    ensures buffer[padded-8..padded] == BigEndian(bits, 8)
  {
    hide ByteAt;
    for i := 0 to 8
      invariant forall k :: 0 <= k < padded - 8 ==> buffer[k] == old(buffer[k])
      invariant forall j :: padded - i <= j < padded ==> buffer[j] == ByteAt(bits, padded - 1 - j)
    {
      buffer[padded - 1 - i] := ByteAt(bits, i);
    }
  }

  /** One read: at most 64 bytes, fewer only at the end. */
  method ReadChunk(bytes: seq<Byte>, pos: nat, buffer: array<Byte>) returns (got: nat)
    requires pos <= |bytes| && buffer.Length == 128
    modifies buffer
    ensures got == if |bytes| - pos < 64 then |bytes| - pos else 64
    ensures buffer[..got] == bytes[pos..pos+got]
  {
    got := if |bytes| - pos < 64 then |bytes| - pos else 64;
    for i := 0 to got
      invariant buffer[..i] == bytes[pos..pos+i]
    {
      buffer[i] := bytes[pos + i];
    }
  }

  /** What is hashed at any length: the standard's padding, but with the length kept in 64 bits. */
  function StreamHash(bytes: seq<Byte>): seq<bv32> {
    var full := |bytes| / 64 * 64;
    HashBlocks(HashBlocks(H0(), bytes[..full]), LastBlocks(bytes[full..], |bytes|))
  }

  lemma StreamIsStandard(bytes: seq<Byte>)
    requires |bytes| < TWO61
    ensures HexText(StreamHash(bytes)) == Digest(bytes)
  {
    hide HashBlocks, LastBlocks, HexText, Padded;
    var full := |bytes| / 64 * 64;
    PaddedSplits(bytes, full);
    HashConcat(H0(), bytes[..full], LastBlocks(bytes[full..], |bytes|));
  }

  /**
   The streaming hash is the digest of the standard for every length below 2^61 bytes; a file
   that cannot be opened or read is reported and never hashed.
   */
  method Sha256File(input: Source) returns (r: Outcome)
    ensures !input.opens ==> r == CannotRead
    ensures input.opens && input.fails ==> r == ReadFailed
    ensures input.opens && !input.fails ==> r.Hash?
    ensures input.opens && !input.fails && |input.bytes| < TWO61 ==> r == Hash(Digest(input.bytes))
  {
    hide HashBlocks, LastBlocks, HexText, Padded, Compress, Digest, StreamHash;
    if !input.opens {
      return CannotRead;
    }
    var h := new bv32[8](i requires 0 <= i < 8 => H0()[i]);
    assert h[..] == H0();
    var buffer := new Byte[128](i => 0);
    var size, tail := HashFullBlocks(input.bytes, h, buffer);
    if input.fails {
      return ReadFailed;
    }
    FinishHash(h, buffer, tail, size + tail);
    StreamParts(input.bytes, size);
    r := Hash(HexText(h[..]));
    if |input.bytes| < TWO61 {
      StreamIsStandard(input.bytes);
    }
  }

  /** The reading loop: hashes block after block until a read comes up short. */
  method HashFullBlocks(bytes: seq<Byte>, h: array<bv32>, buffer: array<Byte>) returns (size: nat, tail: nat)
    requires h.Length == 8 && buffer.Length == 128
    modifies h, buffer
    ensures size % 64 == 0 && tail < 64 && size + tail == |bytes|
    ensures buffer[..tail] == bytes[size..]
    ensures h[..] == HashBlocks(old(h[..]), bytes[..size])
  {
    hide HashBlocks, Compress;
    size, tail := 0, 0;
    ghost var start := h[..];
    NoBlocks(start);
    assert bytes[..0] == [];
    while true
      invariant size <= |bytes| && size % 64 == 0
      invariant h[..] == HashBlocks(start, bytes[..size])
      decreases |bytes| - size
    {
      tail := ReadChunk(bytes, size, buffer);
      if tail < 64 {
        break;
      }
      OneMoreBlock(start, bytes, size);
      assert buffer[0..64] == bytes[size..size+64];
      Block(h, buffer, 0);
      size := size + 64;
    }
  }

  lemma OneMoreBlock(h: seq<bv32>, bytes: seq<Byte>, size: nat)
    requires |h| == 8 && size % 64 == 0 && size + 64 <= |bytes|
    ensures HashBlocks(h, bytes[..size+64]) == Compress(HashBlocks(h, bytes[..size]), bytes[size..size+64])
  {
    hide HashBlocks, Compress;
    assert bytes[..size+64] == bytes[..size] + bytes[size..size+64];
    HashConcat(h, bytes[..size], bytes[size..size+64]);
    OneBlock(HashBlocks(h, bytes[..size]), bytes[size..size+64]);
  }

  lemma StreamParts(bytes: seq<Byte>, size: nat)
    requires size <= |bytes| < size + 64 && size % 64 == 0
    ensures StreamHash(bytes) == HashBlocks(HashBlocks(H0(), bytes[..size]), LastBlocks(bytes[size..], |bytes|))
  {
    hide HashBlocks, LastBlocks, H0;
  }

  lemma NoBlocks(h: seq<bv32>)
    requires |h| == 8
    ensures HashBlocks(h, []) == h
  {
  }

  /** Pads, and hashes the one or two blocks that are left. */
  method FinishHash(h: array<bv32>, buffer: array<Byte>, tail: nat, size: nat)
    requires h.Length == 8 && buffer.Length == 128 && tail < 64 && size % 64 == tail
    modifies h, buffer
    ensures h[..] == HashBlocks(old(h[..]), LastBlocks(old(buffer[..tail]), size))
  {
    hide HashBlocks, LastBlocks, Compress;
    var padded := FinishBuffer(buffer, tail, size);
    ghost var last := buffer[..padded];
    ghost var first := buffer[0..64];
    OneBlock(h[..], first);
    Block(h, buffer, 0);
    if padded == 128 {
      ghost var second := buffer[64..128];
      assert last == first + second;
      HashConcat(old(h[..]), first, second);
      OneBlock(h[..], second);
      Block(h, buffer, 64);
    } else {
      assert last == first;
    }
  }

  // ------------------------------------- where the constants come from: 4.2.2 and 5.3.3

  const PRIMES: seq<seq<nat>> := [
    [2, 3, 5, 7, 11, 13, 17, 19],
    [23, 29, 31, 37, 41, 43, 47, 53],
    [59, 61, 67, 71, 73, 79, 83, 89],
    [97, 101, 103, 107, 109, 113, 127, 131],
    [137, 139, 149, 151, 157, 163, 167, 173],
    [179, 181, 191, 193, 197, 199, 211, 223],
    [227, 229, 233, 239, 241, 251, 257, 263],
    [269, 271, 277, 281, 283, 293, 307, 311]]

  function Prime(t: nat): nat
    requires t < 64
  {
    PRIMES[t / 8][t % 8]
  }

  function Square(x: nat): nat {
    x * x
  }

  function Cube(x: nat): nat {
    x * x * x
  }

  /** The integer part of the cube root of a number below 343. */
  function WholeCubeRoot(p: nat): nat {
    if p < 8 then 1 else if p < 27 then 2 else if p < 64 then 3 else if p < 125 then 4 else if p < 216 then 5 else 6
  }

  /** The integer part of the square root of a number below 25. */
  function WholeSquareRoot(p: nat): nat {
    if p < 4 then 1 else if p < 9 then 2 else if p < 16 then 3 else 4
  }

  /** The word holds the first 32 bits of the fractional part of the cube root of p. */
  predicate CubeRootBits(p: nat, word: nat) {
    var root := WholeCubeRoot(p) * TWO32 + word;
    Cube(root) <= p * Cube(TWO32) < Cube(root + 1)
  }

  /** The word holds the first 32 bits of the fractional part of the square root of p. */
  predicate SquareRootBits(p: nat, word: nat) {
    var root := WholeSquareRoot(p) * TWO32 + word;
    Square(root) <= p * Square(TWO32) < Square(root + 1)
  }

  /** The round constants come from the cube roots of the first 64 primes. */
  lemma RoundConstants(t: nat)
    requires t < 64
    ensures CubeRootBits(Prime(t), Constant(t))
  {
    hide CubeRootBits;
    CubeRoots0();
    CubeRoots1();
    CubeRoots2();
    CubeRoots3();
    match t
    case 0 => case 1 => case 2 => case 3 => case 4 => case 5 => case 6 => case 7 =>
    case 8 => case 9 => case 10 => case 11 => case 12 => case 13 => case 14 => case 15 =>
    case 16 => case 17 => case 18 => case 19 => case 20 => case 21 => case 22 => case 23 =>
    case 24 => case 25 => case 26 => case 27 => case 28 => case 29 => case 30 => case 31 =>
    case 32 => case 33 => case 34 => case 35 => case 36 => case 37 => case 38 => case 39 =>
    case 40 => case 41 => case 42 => case 43 => case 44 => case 45 => case 46 => case 47 =>
    case 48 => case 49 => case 50 => case 51 => case 52 => case 53 => case 54 => case 55 =>
    case 56 => case 57 => case 58 => case 59 => case 60 => case 61 => case 62 => case 63 =>
  }

  /** The initial hash value comes from the square roots of the first eight. */
  lemma InitialHash(t: nat)
    requires t < 8
    ensures SquareRootBits(Prime(t), INITIAL[t])
  {
    hide SquareRootBits;
    SquareRoots();
    match t
    case 0 => case 1 => case 2 => case 3 => case 4 => case 5 => case 6 => case 7 =>
  }

  lemma SquareRoots()
    ensures SquareRootBits(2, 0x6a09e667) && SquareRootBits(3, 0xbb67ae85)
    ensures SquareRootBits(5, 0x3c6ef372) && SquareRootBits(7, 0xa54ff53a)
    ensures SquareRootBits(11, 0x510e527f) && SquareRootBits(13, 0x9b05688c)
    ensures SquareRootBits(17, 0x1f83d9ab) && SquareRootBits(19, 0x5be0cd19)
  {
  }

  lemma CubeRoots0()
    ensures CubeRootBits(2, 0x428a2f98) && CubeRootBits(3, 0x71374491)
    ensures CubeRootBits(5, 0xb5c0fbcf) && CubeRootBits(7, 0xe9b5dba5)
    ensures CubeRootBits(11, 0x3956c25b) && CubeRootBits(13, 0x59f111f1)
    ensures CubeRootBits(17, 0x923f82a4) && CubeRootBits(19, 0xab1c5ed5)
    ensures CubeRootBits(23, 0xd807aa98) && CubeRootBits(29, 0x12835b01)
    ensures CubeRootBits(31, 0x243185be) && CubeRootBits(37, 0x550c7dc3)
    ensures CubeRootBits(41, 0x72be5d74) && CubeRootBits(43, 0x80deb1fe)
    ensures CubeRootBits(47, 0x9bdc06a7) && CubeRootBits(53, 0xc19bf174)
  {
  }

  lemma CubeRoots1()
    ensures CubeRootBits(59, 0xe49b69c1) && CubeRootBits(61, 0xefbe4786)
    ensures CubeRootBits(67, 0x0fc19dc6) && CubeRootBits(71, 0x240ca1cc)
    ensures CubeRootBits(73, 0x2de92c6f) && CubeRootBits(79, 0x4a7484aa)
    ensures CubeRootBits(83, 0x5cb0a9dc) && CubeRootBits(89, 0x76f988da)
    ensures CubeRootBits(97, 0x983e5152) && CubeRootBits(101, 0xa831c66d)
    ensures CubeRootBits(103, 0xb00327c8) && CubeRootBits(107, 0xbf597fc7)
    ensures CubeRootBits(109, 0xc6e00bf3) && CubeRootBits(113, 0xd5a79147)
    ensures CubeRootBits(127, 0x06ca6351) && CubeRootBits(131, 0x14292967)
  {
  }

  lemma CubeRoots2()
    ensures CubeRootBits(137, 0x27b70a85) && CubeRootBits(139, 0x2e1b2138)
    ensures CubeRootBits(149, 0x4d2c6dfc) && CubeRootBits(151, 0x53380d13)
    ensures CubeRootBits(157, 0x650a7354) && CubeRootBits(163, 0x766a0abb)
    ensures CubeRootBits(167, 0x81c2c92e) && CubeRootBits(173, 0x92722c85)
    ensures CubeRootBits(179, 0xa2bfe8a1) && CubeRootBits(181, 0xa81a664b)
    ensures CubeRootBits(191, 0xc24b8b70) && CubeRootBits(193, 0xc76c51a3)
    ensures CubeRootBits(197, 0xd192e819) && CubeRootBits(199, 0xd6990624)
    ensures CubeRootBits(211, 0xf40e3585) && CubeRootBits(223, 0x106aa070)
  {
  }

  lemma CubeRoots3()
    ensures CubeRootBits(227, 0x19a4c116) && CubeRootBits(229, 0x1e376c08)
    ensures CubeRootBits(233, 0x2748774c) && CubeRootBits(239, 0x34b0bcb5)
    ensures CubeRootBits(241, 0x391c0cb3) && CubeRootBits(251, 0x4ed8aa4a)
    ensures CubeRootBits(257, 0x5b9cca4f) && CubeRootBits(263, 0x682e6ff3)
    ensures CubeRootBits(269, 0x748f82ee) && CubeRootBits(271, 0x78a5636f)
    ensures CubeRootBits(277, 0x84c87814) && CubeRootBits(281, 0x8cc70208)
    ensures CubeRootBits(283, 0x90befffa) && CubeRootBits(293, 0xa4506ceb)
    ensures CubeRootBits(307, 0xbef9a3f7) && CubeRootBits(311, 0xc67178f2)
  {
  }
}
