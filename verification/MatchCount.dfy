/**
 Comparing bytes a machine word at a time: LZ4_read32/LZ4_read_ARCH as little-endian loads,
 LZ4_NbCommonBytes, and LZ4_count, which finds the first difference of two stretches of a buffer.
 */
module MatchCount {
  import opened Bytes

  /** Number of equal bytes from `p` and `q` on, while `p` is below `limit`. */
  function CommonLen(buf: seq<byte>, p: nat, q: nat, limit: int): (n: nat)
    ensures p + n <= Max(p, limit)
    ensures p + n <= Max(p, |buf|)
    decreases limit - p
  {
    if p < limit && p < |buf| && q < |buf| && buf[p] == buf[q]
    then 1 + CommonLen(buf, p + 1, q + 1, limit)
    else 0
  }

  // ----- Little-endian loads -----

  /** Eight bits as a machine word, most significant first. */
  function Bits(b7: bool, b6: bool, b5: bool, b4: bool, b3: bool, b2: bool, b1: bool, b0: bool): bv64 {
    (if b7 then 0x80 else 0) | (if b6 then 0x40 else 0) | (if b5 then 0x20 else 0) | (if b4 then 0x10 else 0)
    | (if b3 then 0x08 else 0) | (if b2 then 0x04 else 0) | (if b1 then 0x02 else 0) | (if b0 then 0x01 else 0)
  }

  predicate Odd(n: nat) {
    n % 2 == 1
  }

  /** A byte as a machine word. */
  function Word(b: byte): bv64 {
    Bits(Odd(b / 128), Odd(b / 64), Odd(b / 32), Odd(b / 16), Odd(b / 8), Odd(b / 4), Odd(b / 2), Odd(b))
  }

  /** Eight bytes as one little-endian word. */
  function Pack(b0: bv64, b1: bv64, b2: bv64, b3: bv64, b4: bv64, b5: bv64, b6: bv64, b7: bv64): bv64 {
    b0 | (b1 << 8) | (b2 << 16) | (b3 << 24) | (b4 << 32) | (b5 << 40) | (b6 << 48) | (b7 << 56)
  }

  function ReadWord(buf: seq<byte>, p: nat): bv64
    requires p + 8 <= |buf|
  {
    Pack(Word(buf[p]), Word(buf[p + 1]), Word(buf[p + 2]), Word(buf[p + 3]),
         Word(buf[p + 4]), Word(buf[p + 5]), Word(buf[p + 6]), Word(buf[p + 7]))
  }

  function Read32(buf: seq<byte>, p: nat): bv64
    requires p + 4 <= |buf|
  {
    Pack(Word(buf[p]), Word(buf[p + 1]), Word(buf[p + 2]), Word(buf[p + 3]), 0, 0, 0, 0)
  }

  function Read16(buf: seq<byte>, p: nat): bv64
    requires p + 2 <= |buf|
  {
    Pack(Word(buf[p]), Word(buf[p + 1]), 0, 0, 0, 0, 0, 0)
  }

  /** A byte is recovered from its word, bit by bit. */
  lemma BitsReadBack(b7: bool, b6: bool, b5: bool, b4: bool, b3: bool, b2: bool, b1: bool, b0: bool)
    ensures var w := Bits(b7, b6, b5, b4, b3, b2, b1, b0);
            && w < 256
            && (w & 0x80 != 0) == b7 && (w & 0x40 != 0) == b6 && (w & 0x20 != 0) == b5 && (w & 0x10 != 0) == b4
            && (w & 0x08 != 0) == b3 && (w & 0x04 != 0) == b2 && (w & 0x02 != 0) == b1 && (w & 0x01 != 0) == b0
  {
  }

  lemma WordReadBack(b: byte)
    ensures var w := Word(b);
            && w < 256
            && (w & 0x80 != 0) == Odd(b / 128) && (w & 0x40 != 0) == Odd(b / 64)
            && (w & 0x20 != 0) == Odd(b / 32) && (w & 0x10 != 0) == Odd(b / 16)
            && (w & 0x08 != 0) == Odd(b / 8) && (w & 0x04 != 0) == Odd(b / 4)
            && (w & 0x02 != 0) == Odd(b / 2) && (w & 0x01 != 0) == Odd(b)
  {
    hide Bits, Odd;
    BitsReadBack(Odd(b / 128), Odd(b / 64), Odd(b / 32), Odd(b / 16), Odd(b / 8), Odd(b / 4), Odd(b / 2), Odd(b));
  }

  lemma BitsDetermine(a: byte, b: byte)
    requires Odd(a / 128) == Odd(b / 128) && Odd(a / 64) == Odd(b / 64) && Odd(a / 32) == Odd(b / 32)
    requires Odd(a / 16) == Odd(b / 16) && Odd(a / 8) == Odd(b / 8) && Odd(a / 4) == Odd(b / 4)
    requires Odd(a / 2) == Odd(b / 2) && Odd(a) == Odd(b)
    ensures a == b
  {
    hide Odd;
    Halves(a);
    Halves(b);
  }

  lemma Halve(n: nat, q: nat)
    requires n / 2 == q
    ensures n == 2 * q + (if Odd(n) then 1 else 0)
  {
  }

  lemma Quotients(a: byte)
    ensures a / 128 / 2 == 0 && a / 64 / 2 == a / 128 && a / 32 / 2 == a / 64 && a / 16 / 2 == a / 32
    ensures a / 8 / 2 == a / 16 && a / 4 / 2 == a / 8 && a / 2 / 2 == a / 4
  {
  }

  /** A byte by repeated halving. */
  lemma Halves(a: byte)
    ensures a / 128 == (if Odd(a / 128) then 1 else 0)
    ensures a / 64 == 2 * (a / 128) + (if Odd(a / 64) then 1 else 0)
    ensures a / 32 == 2 * (a / 64) + (if Odd(a / 32) then 1 else 0)
    ensures a / 16 == 2 * (a / 32) + (if Odd(a / 16) then 1 else 0)
    ensures a / 8 == 2 * (a / 16) + (if Odd(a / 8) then 1 else 0)
    ensures a / 4 == 2 * (a / 8) + (if Odd(a / 4) then 1 else 0)
    ensures a / 2 == 2 * (a / 4) + (if Odd(a / 2) then 1 else 0)
    ensures a == 2 * (a / 2) + (if Odd(a) then 1 else 0)
  {
    hide Odd;
    Quotients(a);
    Halve(a / 128, 0);
    Halve(a / 64, a / 128);
    Halve(a / 32, a / 64);
    Halve(a / 16, a / 32);
    Halve(a / 8, a / 16);
    Halve(a / 4, a / 8);
    Halve(a / 2, a / 4);
    Halve(a, a / 2);
  }

  lemma WordInjective(a: byte, b: byte)
    ensures Word(a) == Word(b) <==> a == b
    ensures Word(a) < 256
  {
    hide Word, Odd;
    WordReadBack(a);
    WordReadBack(b);
    if Word(a) == Word(b) {
      BitsDetermine(a, b);
    }
  }

  lemma PackShift(b0: bv64, b1: bv64, b2: bv64, b3: bv64, b4: bv64, b5: bv64, b6: bv64, b7: bv64)
    requires b0 < 256 && b1 < 256 && b2 < 256 && b3 < 256 && b4 < 256 && b5 < 256 && b6 < 256 && b7 < 256
    ensures Pack(b0, b1, b2, b3, b4, b5, b6, b7) & 0xFF == b0
    ensures Pack(b0, b1, b2, b3, b4, b5, b6, b7) >> 8 == Pack(b1, b2, b3, b4, b5, b6, b7, 0)
  {
  }

  function Diff(a: bv64, b: bv64): bv64 {
    a ^ b
  }

  lemma DiffOfPack(a0: bv64, a1: bv64, a2: bv64, a3: bv64, a4: bv64, a5: bv64, a6: bv64, a7: bv64,
                b0: bv64, b1: bv64, b2: bv64, b3: bv64, b4: bv64, b5: bv64, b6: bv64, b7: bv64)
    requires a0 < 256 && a1 < 256 && a2 < 256 && a3 < 256 && a4 < 256 && a5 < 256 && a6 < 256 && a7 < 256
    requires b0 < 256 && b1 < 256 && b2 < 256 && b3 < 256 && b4 < 256 && b5 < 256 && b6 < 256 && b7 < 256
    ensures Diff(Pack(a0, a1, a2, a3, a4, a5, a6, a7), Pack(b0, b1, b2, b3, b4, b5, b6, b7))
            == Pack(Diff(a0, b0), Diff(a1, b1), Diff(a2, b2), Diff(a3, b3),
                    Diff(a4, b4), Diff(a5, b5), Diff(a6, b6), Diff(a7, b7))
  {
  }

  // ----- Counting trailing zero bytes -----

  function TrailingZeros(v: bv64): (n: nat)
    decreases v
  {
    if v == 0 || v & 1 == 1 then 0 else 1 + TrailingZeros(v >> 1)
  }

  /** Index of the lowest non-zero byte. */
  function FirstByte(v: bv64): nat
    decreases v
  {
    if v == 0 || v & 0xFF != 0 then 0 else 1 + FirstByte(v >> 8)
  }

  /** Trailing zeros of a word, a group of bits at a time. */
  lemma TwoTrailingZeros(v: bv64)
    ensures v != 0 && v & 0x3 == 0 ==> TrailingZeros(v) == 2 + TrailingZeros(v >> 2)
    ensures v & 0x3 != 0 ==> TrailingZeros(v) < 2
  {
    if v != 0 && v & 0x3 == 0 {
      assert v & 1 == 0 && (v >> 1) & 1 == 0 && v >> 1 != 0 && v >> 1 >> 1 == v >> 2;
    } else if v & 1 == 0 && v != 0 {
      assert (v >> 1) & 1 == 1;
    }
  }

  lemma FourTrailingZeros(v: bv64)
    ensures v != 0 && v & 0xF == 0 ==> TrailingZeros(v) == 4 + TrailingZeros(v >> 4)
    ensures v & 0xF != 0 ==> TrailingZeros(v) < 4
  {
    hide TrailingZeros;
    TwoTrailingZeros(v);
    TwoTrailingZeros(v >> 2);
    assert v >> 2 >> 2 == v >> 4;
    assert v & 0x3 == 0 && v & 0xF != 0 ==> (v >> 2) & 0x3 != 0;
    assert v != 0 && v & 0xF == 0 ==> v & 0x3 == 0 && v >> 2 != 0 && (v >> 2) & 0x3 == 0;
  }

  lemma TrailingZeroByte(v: bv64)
    ensures v != 0 && v & 0xFF == 0 ==> TrailingZeros(v) == 8 + TrailingZeros(v >> 8)
    ensures v & 0xFF != 0 ==> TrailingZeros(v) < 8
  {
    hide TrailingZeros;
    FourTrailingZeros(v);
    FourTrailingZeros(v >> 4);
    assert v >> 4 >> 4 == v >> 8;
    assert v & 0xF == 0 && v & 0xFF != 0 ==> (v >> 4) & 0xF != 0;
    assert v != 0 && v & 0xFF == 0 ==> v & 0xF == 0 && v >> 4 != 0 && (v >> 4) & 0xF == 0;
  }

  /** LZ4_NbCommonBytes as gcc builds it. */
  function NbCommonBytes(v: bv64): nat {
    TrailingZeros(v) / 8
  }

  /** LZ4_NbCommonBytes as gcc builds it (trailing zero bits / 8) finds the lowest non-zero byte. */
  lemma {:induction false} NbCommonBytesIsFirstByte(v: bv64)
    ensures TrailingZeros(v) / 8 == FirstByte(v)
    decreases v
  {
    if v != 0 {
      TrailingZeroByte(v);
      if v & 0xFF == 0 {
        assert v >> 8 < v;
        NbCommonBytesIsFirstByte(v >> 8);
      }
    }
  }

  /** The portable form of LZ4_NbCommonBytes: isolate the bits below and including the lowest set
      one, keep one bit a byte, and add the bytes up by a multiplication. */
  function NbCommonBytesByMultiply(v: bv64): bv64 {
    (((v ^ (v - 1)) & 0x0101010101010100) * 0x0101010101010101) >> 56
  }

  lemma MaskOfLowestByte(v: bv64)
    requires v != 0
    ensures var m := (v ^ (v - 1)) & 0x0101010101010100;
            m == if v & 0xFF != 0 then 0
                 else if v & 0xFF00 != 0 then 0x0100
                 else if v & 0xFF_0000 != 0 then 0x01_0100
                 else if v & 0xFF00_0000 != 0 then 0x0101_0100
                 else if v & 0xFF_0000_0000 != 0 then 0x01_0101_0100
                 else if v & 0xFF00_0000_0000 != 0 then 0x0101_0101_0100
                 else if v & 0xFF_0000_0000_0000 != 0 then 0x01_0101_0101_0100
                 else 0x0101_0101_0101_0100
  {
  }

  lemma MultiplySums()
    ensures (0x0100 * 0x0101010101010101) >> 56 == 1 as bv64
    ensures (0x01_0100 * 0x0101010101010101) >> 56 == 2 as bv64
    ensures (0x0101_0100 * 0x0101010101010101) >> 56 == 3 as bv64
    ensures (0x01_0101_0100 * 0x0101010101010101) >> 56 == 4 as bv64
    ensures (0x0101_0101_0100 * 0x0101010101010101) >> 56 == 5 as bv64
    ensures (0x01_0101_0101_0100 * 0x0101010101010101) >> 56 == 6 as bv64
    ensures (0x0101_0101_0101_0100 * 0x0101010101010101) >> 56 == 7 as bv64
  {
  }

  /** The eight results the multiplication can give. */
  function SmallWord(n: nat): bv64 {
    if n == 0 then 0 else if n == 1 then 1 else if n == 2 then 2 else if n == 3 then 3
    else if n == 4 then 4 else if n == 5 then 5 else if n == 6 then 6 else 7
  }

  lemma FirstByteCases(v: bv64)
    requires v != 0
    ensures FirstByte(v)
            == if v & 0xFF != 0 then 0
               else if v & 0xFF00 != 0 then 1
               else if v & 0xFF_0000 != 0 then 2
               else if v & 0xFF00_0000 != 0 then 3
               else if v & 0xFF_0000_0000 != 0 then 4
               else if v & 0xFF00_0000_0000 != 0 then 5
               else if v & 0xFF_0000_0000_0000 != 0 then 6
               else 7
  {
    UnpackWord(v);
    var b0, b1, b2, b3 := v & 0xFF, (v >> 8) & 0xFF, (v >> 16) & 0xFF, (v >> 24) & 0xFF;
    var b4, b5, b6, b7 := (v >> 32) & 0xFF, (v >> 40) & 0xFF, (v >> 48) & 0xFF, (v >> 56) & 0xFF;
    FirstByteOfPack(b0, b1, b2, b3, b4, b5, b6, b7);
  }

  lemma UnpackWord(v: bv64)
    ensures v == Pack(v & 0xFF, (v >> 8) & 0xFF, (v >> 16) & 0xFF, (v >> 24) & 0xFF,
                      (v >> 32) & 0xFF, (v >> 40) & 0xFF, (v >> 48) & 0xFF, (v >> 56) & 0xFF)
  {
  }

  /** Both forms of LZ4_NbCommonBytes agree on every non-zero word. */
  lemma MultiplyFormAgrees(v: bv64)
    requires v != 0
    ensures NbCommonBytesByMultiply(v) == SmallWord(TrailingZeros(v) / 8)
    ensures TrailingZeros(v) / 8 < 8
  {
    hide TrailingZeros, FirstByte;
    NbCommonBytesIsFirstByte(v);
    FirstByteCases(v);
    MaskOfLowestByte(v);
    MultiplySums();
  }

  lemma FirstByteStep(b0: bv64, b1: bv64, b2: bv64, b3: bv64, b4: bv64, b5: bv64, b6: bv64, b7: bv64)
    requires b0 < 256 && b1 < 256 && b2 < 256 && b3 < 256 && b4 < 256 && b5 < 256 && b6 < 256 && b7 < 256
    ensures b0 != 0 ==> FirstByte(Pack(b0, b1, b2, b3, b4, b5, b6, b7)) == 0
    ensures b0 == 0 && Pack(b0, b1, b2, b3, b4, b5, b6, b7) != 0
            ==> FirstByte(Pack(b0, b1, b2, b3, b4, b5, b6, b7)) == 1 + FirstByte(Pack(b1, b2, b3, b4, b5, b6, b7, 0))
  {
    hide Pack;
    PackShift(b0, b1, b2, b3, b4, b5, b6, b7);
  }

  lemma PackZero(b0: bv64, b1: bv64, b2: bv64, b3: bv64, b4: bv64, b5: bv64, b6: bv64, b7: bv64)
    requires b0 < 256 && b1 < 256 && b2 < 256 && b3 < 256 && b4 < 256 && b5 < 256 && b6 < 256 && b7 < 256
    ensures Pack(b0, b1, b2, b3, b4, b5, b6, b7) == 0
            <==> b0 == 0 && b1 == 0 && b2 == 0 && b3 == 0 && b4 == 0 && b5 == 0 && b6 == 0 && b7 == 0
  {
  }

  /** Index of the first condition that holds among eight. */
  function FirstSet(b0: bool, b1: bool, b2: bool, b3: bool, b4: bool, b5: bool, b6: bool, b7: bool): nat {
    if b0 then 0 else if b1 then 1 else if b2 then 2 else if b3 then 3
    else if b4 then 4 else if b5 then 5 else if b6 then 6 else if b7 then 7 else 8
  }

  lemma FirstByteOfPack(b0: bv64, b1: bv64, b2: bv64, b3: bv64, b4: bv64, b5: bv64, b6: bv64, b7: bv64)
    requires b0 < 256 && b1 < 256 && b2 < 256 && b3 < 256 && b4 < 256 && b5 < 256 && b6 < 256 && b7 < 256
    requires Pack(b0, b1, b2, b3, b4, b5, b6, b7) != 0
    ensures FirstByte(Pack(b0, b1, b2, b3, b4, b5, b6, b7)) 
            == FirstSet(b0 != 0, b1 != 0, b2 != 0, b3 != 0, b4 != 0, b5 != 0, b6 != 0, b7 != 0) < 8
  {
    hide Pack, FirstByte;
    PackZero(b0, b1, b2, b3, b4, b5, b6, b7);
    FirstByteStep(b0, b1, b2, b3, b4, b5, b6, b7);
    if b0 == 0 {
      PackZero(b1, b2, b3, b4, b5, b6, b7, 0);
      FirstByteStep(b1, b2, b3, b4, b5, b6, b7, 0);
      if b1 == 0 {
        PackZero(b2, b3, b4, b5, b6, b7, 0, 0);
        FirstByteStep(b2, b3, b4, b5, b6, b7, 0, 0);
        if b2 == 0 {
          PackZero(b3, b4, b5, b6, b7, 0, 0, 0);
          FirstByteStep(b3, b4, b5, b6, b7, 0, 0, 0);
          if b3 == 0 {
            PackZero(b4, b5, b6, b7, 0, 0, 0, 0);
            FirstByteStep(b4, b5, b6, b7, 0, 0, 0, 0);
            if b4 == 0 {
              PackZero(b5, b6, b7, 0, 0, 0, 0, 0);
              FirstByteStep(b5, b6, b7, 0, 0, 0, 0, 0);
              if b5 == 0 {
                PackZero(b6, b7, 0, 0, 0, 0, 0, 0);
                FirstByteStep(b6, b7, 0, 0, 0, 0, 0, 0);
                if b6 == 0 {
                  FirstByteStep(b7, 0, 0, 0, 0, 0, 0, 0);
                }
              }
            }
          }
        }
      }
    }
  }

  // ----- LZ4_count -----

  lemma DiffOfPacks(a0: bv64, a1: bv64, a2: bv64, a3: bv64, a4: bv64, a5: bv64, a6: bv64, a7: bv64,
                    b0: bv64, b1: bv64, b2: bv64, b3: bv64, b4: bv64, b5: bv64, b6: bv64, b7: bv64)
    requires a0 < 256 && a1 < 256 && a2 < 256 && a3 < 256 && a4 < 256 && a5 < 256 && a6 < 256 && a7 < 256
    requires b0 < 256 && b1 < 256 && b2 < 256 && b3 < 256 && b4 < 256 && b5 < 256 && b6 < 256 && b7 < 256
    ensures var d := Diff(Pack(a0, a1, a2, a3, a4, a5, a6, a7), Pack(b0, b1, b2, b3, b4, b5, b6, b7));
            && FirstSet(a0 != b0, a1 != b1, a2 != b2, a3 != b3, a4 != b4, a5 != b5, a6 != b6, a7 != b7)
               == (if d == 0 then 8 else NbCommonBytes(d))
            && (d != 0 ==> NbCommonBytes(d) < 8)
  {
    hide Diff, Pack, TrailingZeros, FirstByte;
    DiffOfPack(a0, a1, a2, a3, a4, a5, a6, a7, b0, b1, b2, b3, b4, b5, b6, b7);
    DiffSmall(a0, b0);
    DiffSmall(a1, b1);
    DiffSmall(a2, b2);
    DiffSmall(a3, b3);
    DiffSmall(a4, b4);
    DiffSmall(a5, b5);
    DiffSmall(a6, b6);
    DiffSmall(a7, b7);
    var d0, d1, d2, d3 := Diff(a0, b0), Diff(a1, b1), Diff(a2, b2), Diff(a3, b3);
    var d4, d5, d6, d7 := Diff(a4, b4), Diff(a5, b5), Diff(a6, b6), Diff(a7, b7);
    PackZero(d0, d1, d2, d3, d4, d5, d6, d7);
    if Pack(d0, d1, d2, d3, d4, d5, d6, d7) != 0 {
      FirstByteOfPack(d0, d1, d2, d3, d4, d5, d6, d7);
      NbCommonBytesIsFirstByte(Pack(d0, d1, d2, d3, d4, d5, d6, d7));
    }
  }

  lemma DiffSmall(a: bv64, b: bv64)
    requires a < 256 && b < 256
    ensures Diff(a, b) < 256
    ensures Diff(a, b) != 0 <==> a != b
  {
  }

  lemma DiffSwaps(a: bv64, b: bv64)
    ensures Diff(a, b) == Diff(b, a)
  {
  }

  lemma WordsSmall(buf: seq<byte>, p: nat)
    requires p + 8 <= |buf|
    ensures Word(buf[p]) < 256 && Word(buf[p + 1]) < 256 && Word(buf[p + 2]) < 256 && Word(buf[p + 3]) < 256
    ensures Word(buf[p + 4]) < 256 && Word(buf[p + 5]) < 256 && Word(buf[p + 6]) < 256 && Word(buf[p + 7]) < 256
  {
    hide Word;
    WordReadBack(buf[p]);
    WordReadBack(buf[p + 1]);
    WordReadBack(buf[p + 2]);
    WordReadBack(buf[p + 3]);
    WordReadBack(buf[p + 4]);
    WordReadBack(buf[p + 5]);
    WordReadBack(buf[p + 6]);
    WordReadBack(buf[p + 7]);
  }

  /** Index of the first of eight byte pairs that differ. */
  function FirstDifference(buf: seq<byte>, p: nat, q: nat): nat
    requires p + 8 <= |buf| && q + 8 <= |buf|
  {
    FirstSet(buf[p] != buf[q], buf[p + 1] != buf[q + 1], buf[p + 2] != buf[q + 2], buf[p + 3] != buf[q + 3],
             buf[p + 4] != buf[q + 4], buf[p + 5] != buf[q + 5], buf[p + 6] != buf[q + 6], buf[p + 7] != buf[q + 7])
  }

  /** The XOR of two loads is zero when eight bytes agree, and otherwise its lowest non-zero byte
      is the first place where they differ. */
  lemma DiffOfWords(buf: seq<byte>, p: nat, q: nat)
    requires p + 8 <= |buf| && q + 8 <= |buf|
    ensures var d := Diff(ReadWord(buf, p), ReadWord(buf, q));
            && FirstDifference(buf, p, q) == (if d == 0 then 8 else NbCommonBytes(d))
            && (d != 0 ==> NbCommonBytes(d) < 8)
  {
    hide Word, Pack, FirstSet, NbCommonBytes, Diff;
    WordsSmall(buf, p);
    WordsSmall(buf, q);
    WordInjective(buf[p], buf[q]);
    WordInjective(buf[p + 1], buf[q + 1]);
    WordInjective(buf[p + 2], buf[q + 2]);
    WordInjective(buf[p + 3], buf[q + 3]);
    WordInjective(buf[p + 4], buf[q + 4]);
    WordInjective(buf[p + 5], buf[q + 5]);
    WordInjective(buf[p + 6], buf[q + 6]);
    WordInjective(buf[p + 7], buf[q + 7]);
    DiffOfPacks(Word(buf[p]), Word(buf[p + 1]), Word(buf[p + 2]), Word(buf[p + 3]),
                Word(buf[p + 4]), Word(buf[p + 5]), Word(buf[p + 6]), Word(buf[p + 7]),
                Word(buf[q]), Word(buf[q + 1]), Word(buf[q + 2]), Word(buf[q + 3]),
                Word(buf[q + 4]), Word(buf[q + 5]), Word(buf[q + 6]), Word(buf[q + 7]));
  }

  lemma CommonLenByte(buf: seq<byte>, p: nat, q: nat, limit: int)
    requires p < limit <= |buf| && q < |buf|
    ensures CommonLen(buf, p, q, limit) == if buf[p] == buf[q] then 1 + CommonLen(buf, p + 1, q + 1, limit) else 0
  {
  }

  lemma CommonLenOfDifference(buf: seq<byte>, p: nat, q: nat, limit: int)
    requires p + 8 <= limit <= |buf| && q + 8 <= |buf|
    ensures var n := FirstDifference(buf, p, q);
            CommonLen(buf, p, q, limit) == if n == 8 then 8 + CommonLen(buf, p + 8, q + 8, limit) else n
  {
    hide CommonLen;
    CommonLenByte(buf, p, q, limit);
    CommonLenByte(buf, p + 1, q + 1, limit);
    CommonLenByte(buf, p + 2, q + 2, limit);
    CommonLenByte(buf, p + 3, q + 3, limit);
    CommonLenByte(buf, p + 4, q + 4, limit);
    CommonLenByte(buf, p + 5, q + 5, limit);
    CommonLenByte(buf, p + 6, q + 6, limit);
    CommonLenByte(buf, p + 7, q + 7, limit);
  }

  lemma CommonLenEight(buf: seq<byte>, p: nat, q: nat, limit: int)
    requires p + 8 <= limit <= |buf| && q + 8 <= |buf|
    ensures var d := Diff(ReadWord(buf, q), ReadWord(buf, p));
            CommonLen(buf, p, q, limit)
            == if d == 0 then 8 + CommonLen(buf, p + 8, q + 8, limit) else NbCommonBytes(d)
  {
    hide ReadWord, FirstDifference, NbCommonBytes, CommonLen, Diff;
    DiffOfWords(buf, p, q);
    DiffSwaps(ReadWord(buf, p), ReadWord(buf, q));
    CommonLenOfDifference(buf, p, q, limit);
  }

  lemma Read32Equal(buf: seq<byte>, p: nat, q: nat)
    requires p + 4 <= |buf| && q + 4 <= |buf|
    ensures Read32(buf, p) == Read32(buf, q)
            <==> buf[p] == buf[q] && buf[p + 1] == buf[q + 1] && buf[p + 2] == buf[q + 2] && buf[p + 3] == buf[q + 3]
  {
    hide Word, Pack;
    WordInjective(buf[p], buf[q]);
    WordInjective(buf[p + 1], buf[q + 1]);
    WordInjective(buf[p + 2], buf[q + 2]);
    WordInjective(buf[p + 3], buf[q + 3]);
    WordReadBack(buf[q]);
    WordReadBack(buf[q + 1]);
    WordReadBack(buf[q + 2]);
    WordReadBack(buf[q + 3]);
    PackInjective(Word(buf[p]), Word(buf[p + 1]), Word(buf[p + 2]), Word(buf[p + 3]),
                  Word(buf[q]), Word(buf[q + 1]), Word(buf[q + 2]), Word(buf[q + 3]));
  }

  lemma PackInjective(a0: bv64, a1: bv64, a2: bv64, a3: bv64, b0: bv64, b1: bv64, b2: bv64, b3: bv64)
    requires a0 < 256 && a1 < 256 && a2 < 256 && a3 < 256 && b0 < 256 && b1 < 256 && b2 < 256 && b3 < 256
    ensures Pack(a0, a1, a2, a3, 0, 0, 0, 0) == Pack(b0, b1, b2, b3, 0, 0, 0, 0)
            <==> a0 == b0 && a1 == b1 && a2 == b2 && a3 == b3
  {
  }

  lemma CommonLenFour(buf: seq<byte>, p: nat, q: nat, limit: int)
    requires p + 4 <= limit <= |buf| && q + 4 <= |buf|
    ensures Read32(buf, p) == Read32(buf, q) ==> CommonLen(buf, p, q, limit) == 4 + CommonLen(buf, p + 4, q + 4, limit)
    ensures Read32(buf, p) != Read32(buf, q) ==> CommonLen(buf, p, q, limit) < 4
  {
    hide Read32, CommonLen;
    Read32Equal(buf, p, q);
    CommonLenByte(buf, p, q, limit);
    CommonLenByte(buf, p + 1, q + 1, limit);
    CommonLenByte(buf, p + 2, q + 2, limit);
    CommonLenByte(buf, p + 3, q + 3, limit);
  }

  lemma CommonLenTwo(buf: seq<byte>, p: nat, q: nat, limit: int)
    requires p + 2 <= limit <= |buf| && q + 2 <= |buf|
    ensures Read16(buf, p) == Read16(buf, q) ==> CommonLen(buf, p, q, limit) == 2 + CommonLen(buf, p + 2, q + 2, limit)
    ensures Read16(buf, p) != Read16(buf, q) ==> CommonLen(buf, p, q, limit) < 2
  {
    WordInjective(buf[p], buf[q]);
    WordInjective(buf[p + 1], buf[q + 1]);
    WordInjective(buf[q], buf[p]);
    WordInjective(buf[q + 1], buf[p + 1]);
    hide Word, Pack, CommonLen;
    PackInjective(Word(buf[p]), Word(buf[p + 1]), 0, 0, Word(buf[q]), Word(buf[q + 1]), 0, 0);
    CommonLenByte(buf, p, q, limit);
    CommonLenByte(buf, p + 1, q + 1, limit);
  }

  /** What is counted is equal, and it is all there is: a difference or the limit follows. */
  lemma {:induction false} CommonLenIsLongest(buf: seq<byte>, p: nat, q: nat, limit: int)
    requires q <= p && limit <= |buf|
    ensures var n := CommonLen(buf, p, q, limit);
            && (n == 0 || p + n <= limit)
            && (forall i :: p <= i < p + n ==> buf[i] == buf[q + (i - p)])
            && (p + n < limit ==> buf[p + n] != buf[q + n])
    decreases limit - p
  {
    if p < limit && buf[p] == buf[q] {
      CommonLenIsLongest(buf, p + 1, q + 1, limit);
    }
  }

  /** LZ4_count: the length of the longest common run of the stretches at `pStart` and `pMatch`, below
      `limit`. */
  method Count(buf: seq<byte>, pStart: nat, pMatch: nat, limit: int) returns (n: nat)
    requires pMatch <= pStart && limit <= |buf|
    ensures n == CommonLen(buf, pStart, pMatch, limit)
    ensures n == 0 || pStart + n <= limit
    ensures forall i :: pStart <= i < pStart + n ==> buf[i] == buf[pMatch + (i - pStart)]
    ensures pStart + n < limit ==> buf[pStart + n] != buf[pMatch + n]
  {
    hide ReadWord, Diff, NbCommonBytes, CommonLen;
    CommonLenIsLongest(buf, pStart, pMatch, limit);
    var p, q := pStart, pMatch;
    if p < limit - 7 {
      var diff := Diff(ReadWord(buf, q), ReadWord(buf, p));
      CommonLenEight(buf, p, q, limit);
      if diff == 0 {
        p, q := p + 8, q + 8;
      } else {
        return NbCommonBytes(diff);
      }
    }
    while p < limit - 7
      invariant pStart <= p && q == pMatch + (p - pStart)
      invariant CommonLen(buf, pStart, pMatch, limit) == p - pStart + CommonLen(buf, p, q, limit)
    {
      var diff := Diff(ReadWord(buf, q), ReadWord(buf, p));
      CommonLenEight(buf, p, q, limit);
      if diff == 0 {
        p, q := p + 8, q + 8;
      } else {
        p := p + NbCommonBytes(diff);
        return p - pStart;
      }
    }
    var tail := CountTail(buf, p, q, limit);
    n := p - pStart + tail;
  }

  /** The last up to seven bytes: four, then two, then one. */
  method CountTail(buf: seq<byte>, p0: nat, q0: nat, limit: int) returns (n: nat)
    requires q0 <= p0 && limit - 7 <= p0 && limit <= |buf|
    ensures n == CommonLen(buf, p0, q0, limit)
  {
    hide Read32, Read16;
    var p, q := p0, q0;
    if p < limit - 3 {
      CommonLenFour(buf, p, q, limit);
      if Read32(buf, q) == Read32(buf, p) {
        p, q := p + 4, q + 4;
      }
    }
    if p < limit - 1 {
      CommonLenTwo(buf, p, q, limit);
      if Read16(buf, q) == Read16(buf, p) {
        p, q := p + 2, q + 2;
      }
    }
    if p < limit && buf[q] == buf[p] {
      p := p + 1;
    }
    n := p - p0;
  }
}
