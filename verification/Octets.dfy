/** Bytes, and the numbers they stand for. */
module Octets {

  type Byte = bv8
  type Bytes = seq<bv8>

  function Val(b: Byte): (n: nat)
    ensures n < 256
  {
    b as int
  }

  /** The byte that stands for n. It is counted up from zero because the solver knows
      successors of bytes better than it knows the cast of a number to a byte. */
  function Small(n: nat): (b: Byte)
    requires n < 256
    ensures Val(b) == n
  {
    if n == 0 then 0
    else
      Successor(Small(n - 1));
      Small(n - 1) + 1
  }

  /** The cast to uint8_t. */
  function Low(n: nat): (b: Byte)
    ensures Val(b) == n % 256
  {
    Small(n % 256)
  }

  lemma Successor(b: Byte)
    requires Val(b) < 255
    ensures Val(b + 1) == Val(b) + 1
  {
    Below(b);
    Next(b);
  }

  lemma Below(b: Byte)
    requires b as int < 255
    ensures b < 255
  {
  }

  lemma Next(b: Byte)
    requires b < 255
    ensures (b + 1) as int == b as int + 1
  {
  }

  lemma SameVal(a: Byte, b: Byte)
    requires Val(a) == Val(b)
    ensures a == b
  {
    Distinct(a, b);
  }

  lemma Distinct(a: Byte, b: Byte)
    requires a as int == b as int
    ensures a == b
  {
  }

  // ----- numbers of several bytes ------------------------------------------------------------

  /** n as k bytes, most significant first; higher bytes of n are dropped. */
  function BigEndian(n: nat, k: nat): (s: Bytes)
    ensures |s| == k
  {
    if k == 0 then [] else BigEndian(n / 256, k - 1) + [Low(n)]
  }

  /** (x >> 8 * k) & 255 */
  function ByteOf(x: nat, k: nat): Byte {
    if k == 0 then Low(x) else ByteOf(x / 256, k - 1)
  }

  lemma {:induction false} BigEndianAt(n: nat, k: nat, j: nat)
    requires j < k
    ensures BigEndian(n, k)[j] == ByteOf(n, k - 1 - j)
  {
    if j < k - 1 {
      BigEndianAt(n / 256, k - 1, j);
    }
  }

  function Power256(r: nat): (p: nat)
    ensures p > 0
  {
    if r == 0 then 1 else 256 * Power256(r - 1)
  }

  function FromBigEndian(s: Bytes): nat {
    if s == [] then 0 else FromBigEndian(s[..|s| - 1]) * 256 + Val(s[|s| - 1])
  }

  function FromLittleEndian(s: Bytes): nat {
    if s == [] then 0 else Val(s[0]) + 256 * FromLittleEndian(s[1..])
  }

  lemma {:induction false} BigEndianBound(s: Bytes)
    ensures FromBigEndian(s) < Power256(|s|)
  {
    hide Val;
    if s != [] {
      BigEndianBound(s[..|s| - 1]);
      assert Power256(|s|) == 256 * Power256(|s| - 1);
    }
  }

  lemma {:induction false} BigEndianReads(n: nat, k: nat)
    requires n < Power256(k)
    ensures FromBigEndian(BigEndian(n, k)) == n
  {
    hide Low, Val, BigEndian, FromBigEndian;
    if k > 0 {
      Quotient(n, Power256(k - 1));
      BigEndianReads(n / 256, k - 1);
      BigUnfolds(n, k);
      FromBigAppend(BigEndian(n / 256, k - 1), Low(n));
    } else {
      FromBigNothing(BigEndian(n, 0));
    }
  }

  lemma Quotient(n: nat, p: nat)
    requires n < 256 * p
    ensures n / 256 < p && n / 256 * 256 + n % 256 == n
  {
  }

  lemma FromBigAppend(s: Bytes, x: Byte)
    ensures FromBigEndian(s + [x]) == FromBigEndian(s) * 256 + Val(x)
  {
    hide Val;
    assert (s + [x])[..|s|] == s;
  }

  lemma FromBigNothing(s: Bytes)
    requires s == []
    ensures FromBigEndian(s) == 0
  {
  }

  lemma {:induction false} BigEndianWrites(s: Bytes)
    ensures BigEndian(FromBigEndian(s), |s|) == s
  {
    hide Val, Low, BigEndian, FromBigEndian;
    if s == [] {
      assert BigEndian(FromBigEndian(s), 0) == [];
    } else {
      var front, x := s[..|s| - 1], s[|s| - 1];
      BigEndianWrites(front);
      FromBigAppend(front, x);
      assert s == front + [x];
      Digit(FromBigEndian(s), Val(x), FromBigEndian(front));
      BigUnfolds(FromBigEndian(s), |s|);
      SameVal(Low(FromBigEndian(s)), x);
    }
  }

  /** htons and htobe64 of a k-byte number on a little-endian host; ntohs and be64toh too. */
  function Swapped(n: nat, k: nat): nat { FromLittleEndian(BigEndian(n, k)) }

  lemma {:induction false} ByteOfLittle(s: Bytes, i: nat)
    requires i < |s|
    ensures ByteOf(FromLittleEndian(s), i) == s[i]
  {
    hide Val, Low;
    var rest := FromLittleEndian(s[1..]);
    var x := Val(s[0]) + 256 * rest;
    Digit(FromLittleEndian(s), Val(s[0]), rest);
    if i == 0 {
      SameVal(Low(x), s[0]);
    } else {
      ByteOfLittle(s[1..], i - 1);
    }
  }

  /** Storing the swapped number byte by byte, least significant first, is network order. */
  lemma SwappedBytes(n: nat, k: nat, i: nat)
    requires i < k
    ensures ByteOf(Swapped(n, k), i) == BigEndian(n, k)[i]
  {
    ByteOfLittle(BigEndian(n, k), i);
  }

  lemma {:induction false} LittleAppend(u: Bytes, x: Byte)
    ensures FromLittleEndian(u + [x]) == FromLittleEndian(u) + Val(x) * Power256(|u|)
  {
    hide Val;
    var s := u + [x];
    if u == [] {
      assert s == [x] && FromLittleEndian(s) == Val(x) + 256 * FromLittleEndian(s[1..]);
    } else {
      assert s[0] == u[0] && s[1..] == u[1..] + [x];
      LittleAppend(u[1..], x);
      Regroup(Power256(|u| - 1), Val(x));
    }
  }

  lemma {:induction false} BigPrepend(x: Byte, t: Bytes)
    ensures FromBigEndian([x] + t) == Val(x) * Power256(|t|) + FromBigEndian(t)
  {
    hide Val;
    var s := [x] + t;
    if t == [] {
      assert s == [x] && s[..|s| - 1] == [];
    } else {
      assert s[..|s| - 1] == [x] + t[..|t| - 1];
      BigPrepend(x, t[..|t| - 1]);
      Regroup(Power256(|t| - 1), Val(x));
    }
  }

  lemma Regroup(p: nat, v: nat)
    ensures 256 * (v * p) == v * (256 * p) == v * p * 256
  {
  }

  /** Loading bytes in network order and swapping gives the number they stand for. */
  lemma {:induction false} SwappedLoad(s: Bytes)
    ensures Swapped(FromLittleEndian(s), |s|) == FromBigEndian(s)
  {
    hide Val, BigEndian, FromLittleEndian, FromBigEndian, Power256;
    if s == [] {
      SwappedNothing();
    } else {
      var x, t := s[0], s[1..];
      LittleReversed(s);
      LittleAppend(BigEndian(FromLittleEndian(t), |t|), x);
      SwappedLoad(t);
      assert s == [x] + t;
      BigPrepend(x, t);
    }
  }

  lemma SwappedNothing()
    ensures Swapped(FromLittleEndian([]), 0) == FromBigEndian([])
  {
  }

  lemma LittleReversed(s: Bytes)
    requires s != []
    ensures BigEndian(FromLittleEndian(s), |s|) == BigEndian(FromLittleEndian(s[1..]), |s| - 1) + [s[0]]
  {
    hide Val, Low, BigEndian, FromLittleEndian;
    var n := FromLittleEndian(s[1..]);
    var m := FromLittleEndian(s);
    LittleUnfolds(s);
    BigUnfolds(m, |s|);
    Digit(m, Val(s[0]), n);
    SameVal(Low(m), s[0]);
  }

  lemma LittleUnfolds(s: Bytes)
    requires s != []
    ensures FromLittleEndian(s) == Val(s[0]) + 256 * FromLittleEndian(s[1..])
  {
    hide Val;
  }

  lemma BigUnfolds(n: nat, k: nat)
    requires k > 0
    ensures BigEndian(n, k) == BigEndian(n / 256, k - 1) + [Low(n)]
  {
    hide Low;
  }

  lemma Digit(m: nat, v: nat, n: nat)
    requires v < 256 && m == v + 256 * n
    ensures m / 256 == n && m % 256 == v
  {
  }
}
