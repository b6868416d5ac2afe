/** The operations of Sha1Standard, said in another way: rotations of bit vectors, sums of numbers
    mod 2^32, and words as the numbers that their bytes stand for. */
module Sha1Numbers {
  import opened Octets
  import opened Sha1Standard

  /** The number that a word stands for. */
  function Num(x: bv32): (n: nat)
    ensures n < 0x1_0000_0000
  {
    x as int
  }

  // ----- halves: the solver does not count bits, but it knows this much ----------------------------

  function Halved(x: bv32): bv32 { x >> 1 }

  function IsOdd(x: bv32): bool { x & 1 != 0 }

  function Twice(y: bv32): bv32 { y << 1 }

  function TwiceAndOne(y: bv32): bv32 { (y << 1) | 1 }

  function Up(x: bv32): bv32 { x + 1 }

  lemma TwiceIs(y: bv32)
    requires y < 0x8000_0000
    ensures (y << 1) as int == 2 * y as int
  {
  }

  lemma OneMore(y: bv32)
    requires y < 0x8000_0000
    ensures ((y << 1) | 1) as int == (y << 1) as int + 1
  {
  }

  lemma HalvedIsSmall(x: bv32)
    ensures Halved(x) < 0x8000_0000
  {
  }

  lemma Bits(x: bv32)
    ensures x & 1 == 0 ==> x == (x >> 1) << 1
    ensures x & 1 != 0 ==> x == ((x >> 1) << 1) | 1
  {
  }

  lemma Even(x: bv32)
    requires !IsOdd(x)
    ensures x == Twice(Halved(x))
  {
    Bits(x);
  }

  lemma Odd(x: bv32)
    requires IsOdd(x)
    ensures x == TwiceAndOne(Halved(x))
  {
    Bits(x);
  }

  lemma NumTwice(y: bv32)
    requires y < 0x8000_0000
    ensures Num(Twice(y)) == 2 * Num(y)
  {
    TwiceIs(y);
  }

  lemma NumTwiceAndOne(y: bv32)
    requires y < 0x8000_0000
    ensures Num(TwiceAndOne(y)) == Num(Twice(y)) + 1
  {
    OneMore(y);
  }

  lemma Half(x: bv32)
    ensures Num(x) == 2 * Num(Halved(x)) + if IsOdd(x) then 1 else 0
  {
    hide *;
    HalvedIsSmall(x);
    NumTwice(Halved(x));
    if IsOdd(x) {
      Odd(x);
      NumTwiceAndOne(Halved(x));
    } else {
      Even(x);
    }
  }

  lemma ZeroIs(x: bv32)
    requires Num(x) == 0
    ensures x == 0
  {
  }

  lemma {:induction false} NumIsInjective(x: bv32, y: bv32)
    requires Num(x) == Num(y)
    ensures x == y
    decreases Num(x)
  {
    hide Num, Halved, IsOdd, Twice, TwiceAndOne;
    if Num(x) == 0 {
      ZeroIs(x);
      ZeroIs(y);
    } else {
      Half(x);
      Half(y);
      NumIsInjective(Halved(x), Halved(y));
      if IsOdd(x) {
        Odd(x);
        Odd(y);
      } else {
        Even(x);
        Even(y);
      }
    }
  }

  lemma UpBits(x: bv32)
    requires x < 0xFFFF_FFFF
    ensures x & 1 == 0 ==> (x + 1) >> 1 == x >> 1 && (x + 1) & 1 != 0
    ensures x & 1 != 0 ==> (x + 1) >> 1 == (x >> 1) + 1 && (x + 1) & 1 == 0 && x >> 1 < 0xFFFF_FFFF
  {
  }

  lemma UpEven(x: bv32)
    requires x < 0xFFFF_FFFF && !IsOdd(x)
    ensures Halved(Up(x)) == Halved(x) && IsOdd(Up(x))
  {
    UpBits(x);
  }

  lemma UpOdd(x: bv32)
    requires x < 0xFFFF_FFFF && IsOdd(x)
    ensures Halved(Up(x)) == Up(Halved(x)) && !IsOdd(Up(x)) && Halved(x) < 0xFFFF_FFFF
  {
    UpBits(x);
  }

  /** Counting up by one, as long as it does not wrap. */
  lemma {:induction false} NumUp(x: bv32)
    requires x < 0xFFFF_FFFF
    ensures Num(Up(x)) == Num(x) + 1
    decreases Num(x)
  {
    hide Num, Halved, IsOdd, Up;
    Half(x);
    Half(Up(x));
    if IsOdd(x) {
      UpOdd(x);
      NumUp(Halved(x));
    } else {
      UpEven(x);
    }
  }

  // ----- sums ------------------------------------------------------------------------------------

  function Down(y: bv32): bv32 { y - 1 }

  lemma DownUp(x: bv32, y: bv32)
    requires y != 0
    ensures Up(Down(y)) == y && Down(y) < 0xFFFF_FFFF && Plus(x, y) == Up(Plus(x, Down(y)))
  {
  }

  lemma PlusZero(x: bv32)
    ensures Plus(x, 0) == x && Num(0) == 0
  {
  }

  lemma LastWord(x: bv32)
    ensures Num(x) < 0xFFFF_FFFF || (x == 0xFFFF_FFFF && Num(x) == 0xFFFF_FFFF && Num(Up(x)) == 0)
  {
    if x == 0xFFFF_FFFF {
      assert (0xFFFF_FFFF as bv32) as int == 0xFFFF_FFFF && Up(x) == 0;
    } else {
      NumUp(x);
    }
  }

  lemma ModNext(s: nat)
    ensures (s + 1) % 0x1_0000_0000
         == if s % 0x1_0000_0000 == 0xFFFF_FFFF then 0 else s % 0x1_0000_0000 + 1
  {
  }

  /** The sum of section 6.1.2, which the code forms in 32 bits, is that of the numbers mod 2^32. */
  lemma {:induction false} PlusIs(x: bv32, y: bv32)
    ensures Num(Plus(x, y)) == (Num(x) + Num(y)) % 0x1_0000_0000
    decreases Num(y)
  {
    hide Num, Up, Down, Plus;
    if y == 0 {
      PlusZero(x);
    } else {
      DownUp(x, y);
      NumUp(Down(y));
      PlusIs(x, Down(y));
      ModNext(Num(x) + Num(Down(y)));
      NotLast(Plus(x, Down(y)));
    }
  }

  lemma NotLast(x: bv32)
    ensures Num(Up(x)) == if Num(x) == 0xFFFF_FFFF then 0 else Num(x) + 1
  {
    hide Num, Up;
    LastWord(x);
    if Num(x) < 0xFFFF_FFFF {
      IsNotLast(x);
      NumUp(x);
    }
  }

  lemma IsNotLast(x: bv32)
    requires Num(x) < 0xFFFF_FFFF
    ensures x < 0xFFFF_FFFF
  {
    hide Num;
    LastIs();
    NotLastBits(x);
  }

  lemma LastIs()
    ensures Num(0xFFFF_FFFF) == 0xFFFF_FFFF
  {
  }

  lemma NotLastBits(x: bv32)
    ensures x < 0xFFFF_FFFF || x == 0xFFFF_FFFF
  {
  }

  /** The five terms of a round. */
  lemma Sum5Is(v: bv32, w: bv32, x: bv32, y: bv32, z: bv32)
    ensures Num(Sum5(v, w, x, y, z)) == (Num(v) + Num(w) + Num(x) + Num(y) + Num(z)) % 0x1_0000_0000
  {
    hide Num, Plus;
    PlusIs(v, w);
    AddOne(Plus(v, w), x, Num(v) + Num(w));
    AddOne(Plus(Plus(v, w), x), y, Num(v) + Num(w) + Num(x));
    AddOne(Plus(Plus(Plus(v, w), x), y), z, Num(v) + Num(w) + Num(x) + Num(y));
  }

  lemma AddOne(p: bv32, q: bv32, s: nat)
    requires Num(p) == s % 0x1_0000_0000
    ensures Num(Plus(p, q)) == (s + Num(q)) % 0x1_0000_0000
  {
    hide Num, Plus;
    PlusIs(p, q);
    ModSum(s, Num(q));
  }

  lemma ModSum(a: nat, b: nat)
    ensures (a % 0x1_0000_0000 + b) % 0x1_0000_0000 == (a + b) % 0x1_0000_0000
  {
  }

  // ----- rotations -------------------------------------------------------------------------------

  lemma RotationsAre(x: bv32)
    ensures Rotl1(x) == x.RotateLeft(1) && Rotl5(x) == x.RotateLeft(5) && Rotl30(x) == x.RotateLeft(30)
  {
  }

  /** The recurrence of the schedule: the four words are added bit by bit and the sum is rotated. */
  lemma ExpandIs(w3: bv32, w8: bv32, w14: bv32, w16: bv32)
    ensures Expand(w3, w8, w14, w16) == w3.RotateLeft(1) ^ w8.RotateLeft(1) ^ w14.RotateLeft(1) ^ w16.RotateLeft(1)
  {
  }

  lemma ChBits(x: bv32, y: bv32, z: bv32)
    ensures (x & y) ^ (!x & z) == (x & y) | (!x & z)
  {
  }

  lemma MajBits(x: bv32, y: bv32, z: bv32)
    ensures (x & y) ^ (x & z) ^ (y & z) == (x & y) | (x & z) | (y & z)
  {
  }

  lemma ParityBits(x: bv32, y: bv32, z: bv32)
    ensures x ^ y ^ z == (x & y & z) | (x & !y & !z) | (!x & y & !z) | (!x & !y & z)
  {
  }

  /** Ch takes its bits from y where x has ones and from z elsewhere. */
  lemma ChIs(x: bv32, y: bv32, z: bv32)
    ensures Ch(x, y, z) == (x & y) | (!x & z)
  {
    ChBits(x, y, z);
  }

  /** Maj has the bits that two of the three words have. */
  lemma MajIs(x: bv32, y: bv32, z: bv32)
    ensures Maj(x, y, z) == (x & y) | (x & z) | (y & z)
  {
    MajBits(x, y, z);
  }

  /** Parity has the bits that one or three of them have. */
  lemma ParityIs(x: bv32, y: bv32, z: bv32)
    ensures Parity(x, y, z) == (x & y & z) | (x & !y & !z) | (!x & y & !z) | (!x & !y & z)
  {
    ParityBits(x, y, z);
  }

  // ----- bytes -----------------------------------------------------------------------------------

  function Higher(w: bv32): bv32 { w >> 8 }

  function Lowest(w: bv32): bv32 { w & 255 }

  lemma UpWithin(w: bv32)
    requires w < 0xFFFF_FFFF && Lowest(w) != 255
    ensures Higher(Up(w)) == Higher(w) && Lowest(Up(w)) == Up(Lowest(w)) && Lowest(w) < 0xFFFF_FFFF
  {
  }

  lemma UpCarries(w: bv32)
    requires w < 0xFFFF_FFFF && Lowest(w) == 255
    ensures Higher(Up(w)) == Up(Higher(w)) && Lowest(Up(w)) == 0 && Higher(w) < 0xFFFF_FFFF
  {
  }

  lemma ByteNumbers()
    ensures Num(0) == 0 && Num(255) == 255 && Higher(0) == 0 && Lowest(0) == 0
  {
  }

  lemma {:induction false} NumParts(w: bv32)
    ensures Num(w) == 256 * Num(Higher(w)) + Num(Lowest(w))
    decreases Num(w)
  {
    hide Num, Up, Down, Higher, Lowest, Plus;
    ByteNumbers();
    if w != 0 {
      var v := Down(w);
      DownUp(0, w);
      NumUp(v);
      NumParts(v);
      if Lowest(v) == 255 {
        UpCarries(v);
        NumUp(Higher(v));
      } else {
        UpWithin(v);
        NumUp(Lowest(v));
      }
    }
  }

  lemma ByteAsWord(w: bv32)
    requires w < 256
    ensures (w as bv8) as int == w as int
  {
  }

  lemma WordAsByte(b: bv8)
    ensures (b as bv32) as int == b as int
  {
  }

  lemma LowestByte(w: bv32)
    ensures Val(WordByte(w, 0)) == Num(Lowest(w))
  {
    ByteAsWord(w & 255);
  }

  lemma HigherByte(w: bv32, k: nat)
    requires 0 < k < 4
    ensures WordByte(w, k) == WordByte(Higher(w), k - 1)
  {
    HigherBits(w);
  }

  lemma HigherBits(w: bv32)
    ensures (w >> 24) & 255 == ((w >> 8) >> 16) & 255 && (w >> 16) & 255 == ((w >> 8) >> 8) & 255
  {
  }

  /** Byte k of a word is byte k of its number. */
  lemma {:induction false} WordByteIs(w: bv32, k: nat)
    requires k < 4
    ensures WordByte(w, k) == ByteOf(Num(w), k)
    decreases k
  {
    hide Num, Higher, Lowest, WordByte, ByteOf, Low, Val;
    NumParts(w);
    LowestByte(w);
    Digit(Num(w), Num(Lowest(w)), Num(Higher(w)));
    ByteUnfolds(Num(w), k);
    if k == 0 {
      SameVal(WordByte(w, 0), Low(Num(w)));
    } else {
      HigherByte(w, k);
      WordByteIs(Higher(w), k - 1);
    }
  }

  lemma ByteUnfolds(x: nat, k: nat)
    ensures ByteOf(x, k) == if k == 0 then Low(x) else ByteOf(x / 256, k - 1)
  {
    hide Low;
  }

  lemma WordParts(b0: bv8, b1: bv8, b2: bv8, b3: bv8)
    ensures Higher(Word(b0, b1, b2, b3)) == Word(0, b0, b1, b2) && Lowest(Word(b0, b1, b2, b3)) == b3 as bv32
  {
  }

  lemma WordNumber(b0: bv8, b1: bv8, b2: bv8, b3: bv8)
    ensures Num(Word(b0, b1, b2, b3)) == 256 * Num(Word(0, b0, b1, b2)) + Val(b3)
  {
    hide Word, Higher, Lowest;
    WordParts(b0, b1, b2, b3);
    NumParts(Word(b0, b1, b2, b3));
    WordAsByte(b3);
  }

  /** A word of a block is the number of its four bytes in network order. */
  lemma WordIs(b0: bv8, b1: bv8, b2: bv8, b3: bv8)
    ensures Num(Word(b0, b1, b2, b3)) == FromBigEndian([b0, b1, b2, b3])
  {
    hide Num, Val, Word, FromBigEndian;
    WordNumber(b0, b1, b2, b3);
    WordNumber(0, b0, b1, b2);
    WordNumber(0, 0, b0, b1);
    WordNumber(0, 0, 0, b0);
    NoBytes();
    FromBigNothing([]);
    FromBigAppend([], b0);
    FromBigAppend([b0], b1);
    FromBigAppend([b0, b1], b2);
    FromBigAppend([b0, b1, b2], b3);
    assert [] + [b0] == [b0] && [b0] + [b1] == [b0, b1] && [b0, b1] + [b2] == [b0, b1, b2];
    assert [b0, b1, b2] + [b3] == [b0, b1, b2, b3];
  }

  lemma NoBytes()
    ensures Num(Word(0, 0, 0, 0)) == 0
  {
  }

  // ----- constants and padding -------------------------------------------------------------------

  /** The round constants are the square roots of 2, 3, 5 and 10, times 2^30 and without their
      fractions; the initial value counts up and down in half-bytes. */
  lemma ConstantsAre()
    ensures forall t :: 0 <= t < 80 ==>
              var r := if t < 20 then 2 else if t < 40 then 3 else if t < 60 then 5 else 10;
              var k := Num(K(t)); k * k <= r * 0x1000_0000_0000_0000 < (k + 1) * (k + 1)
    ensures WordBytes(H0.a) == [0x67, 0x45, 0x23, 0x01] && WordBytes(H0.b) == [0xEF, 0xCD, 0xAB, 0x89]
    ensures WordBytes(H0.c) == [0x98, 0xBA, 0xDC, 0xFE] && WordBytes(H0.d) == [0x10, 0x32, 0x54, 0x76]
    ensures WordBytes(H0.e) == [0xC3, 0xD2, 0xE1, 0xF0]
  {
    RootsAre();
    hide Num;
    forall t | 0 <= t < 80
      ensures var r := if t < 20 then 2 else if t < 40 then 3 else if t < 60 then 5 else 10;
              var k := Num(K(t)); k * k <= r * 0x1000_0000_0000_0000 < (k + 1) * (k + 1)
    {
    }
  }

  lemma RootsAre()
    ensures Num(0x5A827999) == 0x5A827999 && Num(0x6ED9EBA1) == 0x6ED9EBA1
    ensures Num(0x8F1BBCDC) == 0x8F1BBCDC && Num(0xCA62C1D6) == 0xCA62C1D6
  {
  }

  /** The padded message is the shortest that ends a block: the message, one bit, zeros, and eight
      bytes that read as the number of bits. */
  lemma PadIs(m: Bytes)
    requires 8 * |m| < COUNT_LIMIT
    ensures var p := Pad(m);
            && |p| % 64 == 0 && |m| + 9 <= |p| < |m| + 9 + 64 && p[..|m|] == m && p[|m|] == 128
            && (forall i :: |m| < i < |p| - 8 ==> p[i] == 0)
            && FromBigEndian(p[|p| - 8..]) == 8 * |m|
  {
    hide BigEndian, FromBigEndian;
    var p, count := Pad(m), BigEndian(8 * |m|, 8);
    assert Power256(4) == 0x1_0000_0000 && Power256(8) == COUNT_LIMIT;
    BigEndianReads(8 * |m|, 8);
    assert p == m + [0x80] + Zeros(PadZeros(|m|)) + count;
    assert p[|p| - 8..] == count;
  }
}
