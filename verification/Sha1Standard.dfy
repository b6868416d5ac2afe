/** SHA-1 as FIPS 180-4 defines it: the functions of section 4.1.1, the constants of
    section 4.2.1, the padding of section 5.1.1, the initial value of section 5.3.1 and the
    80-word computation of section 6.1.2. Nothing here follows the shape of the code in
    sha1.cpp; the Sha1 module proves that code against these definitions. */
module Sha1Standard {
  import opened Octets

  type Words = seq<bv32>

  const WORD_LIMIT: nat := 0x1_0000_0000
  const COUNT_LIMIT: nat := 0x1_0000_0000_0000_0000

  /** The five working variables, or the five words of a hash value. */
  datatype Regs = Regs(a: bv32, b: bv32, c: bv32, d: bv32, e: bv32)

  const H0 := Regs(0x67452301, 0xEFCDAB89, 0x98BADCFE, 0x10325476, 0xC3D2E1F0)

  // The circular left shifts of section 3.2, one per distance used.
  function Rotl1(x: bv32): bv32 { (x << 1) | (x >> 31) }

  function Rotl5(x: bv32): bv32 { (x << 5) | (x >> 27) }

  function Rotl30(x: bv32): bv32 { (x << 30) | (x >> 2) }

  function Ch(x: bv32, y: bv32, z: bv32): bv32 { (x & y) ^ (!x & z) }

  function Parity(x: bv32, y: bv32, z: bv32): bv32 { x ^ y ^ z }

  function Maj(x: bv32, y: bv32, z: bv32): bv32 { (x & y) ^ (x & z) ^ (y & z) }

  function F(t: nat, x: bv32, y: bv32, z: bv32): bv32 {
    if t < 20 then Ch(x, y, z)
    else if t < 40 then Parity(x, y, z)
    else if t < 60 then Maj(x, y, z)
    else Parity(x, y, z)
  }

  function K(t: nat): bv32 {
    if t < 20 then 0x5A827999
    else if t < 40 then 0x6ED9EBA1
    else if t < 60 then 0x8F1BBCDC
    else 0xCA62C1D6
  }

  /** A later schedule word from the words 3, 8, 14 and 16 places before it. */
  function Expand(w3: bv32, w8: bv32, w14: bv32, w16: bv32): bv32 {
    Rotl1(w3 ^ w8 ^ w14 ^ w16)
  }

  /** The first n words of the message schedule of a 16-word block. */
  function Schedule(block: Words, n: nat): (ws: Words)
    requires |block| == 16 <= n
    ensures |ws| == n
  {
    if n == 16 then block
    else
      var ws := Schedule(block, n - 1);
      ws + [Expand(ws[n - 4], ws[n - 9], ws[n - 15], ws[n - 17])]
  }

  function Plus(x: bv32, y: bv32): bv32 { x + y }

  function Sum5(v: bv32, w: bv32, x: bv32, y: bv32, z: bv32): bv32 { Plus(Plus(Plus(Plus(v, w), x), y), z) }

  function Temp(t: nat, w: bv32, r: Regs): bv32 {
    Sum5(Rotl5(r.a), F(t, r.b, r.c, r.d), r.e, K(t), w)
  }

  function Round(t: nat, w: bv32, r: Regs): Regs {
    Regs(Temp(t, w, r), r.a, Rotl30(r.b), r.c, r.d)
  }

  function Rounds(h: Regs, ws: Words, t: nat): Regs
    requires t <= |ws|
  {
    if t == 0 then h else Round(t - 1, ws[t - 1], Rounds(h, ws, t - 1))
  }

  function AddRegs(g: Regs, h: Regs): Regs {
    Regs(Plus(g.a, h.a), Plus(g.b, h.b), Plus(g.c, h.c), Plus(g.d, h.d), Plus(g.e, h.e))
  }

  function Compress(h: Regs, block: Words): Regs
    requires |block| == 16
  {
    AddRegs(h, Rounds(h, Schedule(block, 80), 80))
  }

  /** Four bytes as a word, most significant first. */
  function Word(b0: bv8, b1: bv8, b2: bv8, b3: bv8): bv32 {
    (b0 as bv32 << 24) | (b1 as bv32 << 16) | (b2 as bv32 << 8) | (b3 as bv32)
  }

  function BlockWords(s: Bytes): (ws: Words)
    requires |s| == 64
    ensures |ws| == 16
  {
    seq(16, j requires 0 <= j < 16 => Word(s[4 * j], s[4 * j + 1], s[4 * j + 2], s[4 * j + 3]))
  }

  /** The hash value after the whole blocks of s; a last partial block is ignored. */
  function HashBlocks(h: Regs, s: Bytes): Regs
    decreases |s|
  {
    if |s| < 64 then h else HashBlocks(Compress(h, BlockWords(s[..64])), s[64..])
  }

  function Zeros(k: nat): (s: Bytes)
    ensures |s| == k
  {
    seq(k, _ => 0)
  }

  /** The number of zero bytes between the 0x80 byte and the length. */
  function PadZeros(n: nat): nat { (119 - n % 64) % 64 }

  function Pad(m: Bytes): (p: Bytes)
    requires 8 * |m| < COUNT_LIMIT
    ensures |p| % 64 == 0 && m <= p
  {
    PadAligns(|m|);
    m + [0x80] + Zeros(PadZeros(|m|)) + BigEndian(8 * |m|, 8)
  }

  lemma PadAligns(n: nat)
    ensures (n + 1 + PadZeros(n) + 8) % 64 == 0
  {
    var q, r := n / 64, n % 64;
    assert r <= 55 ==> n + 1 + PadZeros(n) + 8 == 64 * (q + 1);
    assert r > 55 ==> n + 1 + PadZeros(n) + 8 == 64 * (q + 2);
  }

  /** Byte k of a word, counting from the least significant. */
  function WordByte(w: bv32, k: nat): bv8
    requires k < 4
  {
    if k == 3 then ((w >> 24) & 255) as bv8
    else if k == 2 then ((w >> 16) & 255) as bv8
    else if k == 1 then ((w >> 8) & 255) as bv8
    else (w & 255) as bv8
  }

  function WordBytes(w: bv32): (s: Bytes)
    ensures |s| == 4
  {
    [WordByte(w, 3), WordByte(w, 2), WordByte(w, 1), WordByte(w, 0)]
  }

  function DigestBytes(h: Regs): (s: Bytes)
    ensures |s| == 20
  {
    WordBytes(h.a) + WordBytes(h.b) + WordBytes(h.c) + WordBytes(h.d) + WordBytes(h.e)
  }

  function Digest(m: Bytes): (s: Bytes)
    requires 8 * |m| < COUNT_LIMIT
    ensures |s| == 20
  {
    DigestBytes(HashBlocks(H0, Pad(m)))
  }
}
