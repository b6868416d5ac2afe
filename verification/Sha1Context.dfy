/** The streaming context of sha1.cpp. The ghost message m that its contracts carry is what
    the context has been given since Init; Absorbed says what the fields hold for it. */
module Sha1Context {
  import opened Octets
  import opened Sha1Standard
  import opened Sha1

  // ----- hashing in pieces -----------------------------------------------------------------

  lemma {:induction false} HashAppend(h: Regs, a: Bytes, b: Bytes)
    requires |a| % 64 == 0
    ensures HashBlocks(h, a + b) == HashBlocks(HashBlocks(h, a), b)
    decreases |a|
  {
    hide Compress, BlockWords;
    if |a| == 0 {
      assert a + b == b;
    } else {
      var s := a + b;
      assert s[..64] == a[..64] && s[64..] == a[64..] + b;
      HashAppend(Compress(h, BlockWords(a[..64])), a[64..], b);
    }
  }

  lemma HashOneMore(h: Regs, a: Bytes, block: Bytes)
    requires |a| % 64 == 0 && |block| == 64
    ensures HashBlocks(h, a + block) == Compress(HashBlocks(h, a), BlockWords(block))
  {
    hide Compress, BlockWords;
    HashAppend(h, a, block);
    var g := HashBlocks(h, a);
    assert block[..64] == block && block[64..] == [];
    assert HashBlocks(Compress(g, BlockWords(block)), []) == Compress(g, BlockWords(block));
  }

  lemma HashTail(h: Regs, a: Bytes, tail: Bytes)
    requires |a| % 64 == 0 && |tail| < 64
    ensures HashBlocks(h, a + tail) == HashBlocks(h, a)
  {
    HashAppend(h, a, tail);
  }

  /** data completes blocks up to its byte i, and ends inside the next one. */
  lemma LongTail(h: Regs, m: Bytes, data: Bytes, i: nat)
    requires (|m| + i) % 64 == 0 && i <= |data| < i + 64
    ensures |m + data| % 64 == |data| - i && (m + data)[|m| + i..] == data[i..]
    ensures HashBlocks(h, m + data) == HashBlocks(h, m + data[..i])
  {
    hide Compress, BlockWords, HashBlocks;
    assert m + data == (m + data[..i]) + data[i..];
    HashTail(h, m + data[..i], data[i..]);
  }

  /** The block left open by m, completed by the first i bytes of data. */
  lemma FirstBlock(h: Regs, m: Bytes, data: Bytes, j: nat, i: nat)
    requires j == |m| % 64 && i == 64 - j <= |data|
    ensures (|m| + i) % 64 == 0
    ensures HashBlocks(h, m + data[..i]) == Compress(HashBlocks(h, m), BlockWords(m[|m| - j..] + data[..i]))
  {
    hide Compress, BlockWords, HashBlocks;
    var whole, open := m[..|m| - j], m[|m| - j..];
    assert m == whole + open && m + data[..i] == whole + (open + data[..i]);
    HashTail(h, whole, open);
    HashOneMore(h, whole, open + data[..i]);
  }

  lemma NextBlock(h: Regs, m: Bytes, data: Bytes, i: nat)
    requires (|m| + i) % 64 == 0 && i + 64 <= |data|
    ensures HashBlocks(h, m + data[..i + 64])
         == Compress(HashBlocks(h, m + data[..i]), BlockWords(data[i..i + 64]))
    ensures (|m| + (i + 64)) % 64 == 0
  {
    hide Compress, BlockWords, HashBlocks;
    HashOneMore(h, m + data[..i], data[i..i + 64]);
    assert m + data[..i] + data[i..i + 64] == m + data[..i + 64];
  }

  /** data does not complete the block that m left open. */
  lemma ShortTail(h: Regs, m: Bytes, data: Bytes, j: nat)
    requires j == |m| % 64 && j + |data| < 64
    ensures |m + data| % 64 == j + |data| && (m + data)[|m| - j..] == m[|m| - j..] + data
    ensures HashBlocks(h, m + data) == HashBlocks(h, m)
  {
    hide Compress, BlockWords, HashBlocks;
    var whole, open := m[..|m| - j], m[|m| - j..];
    assert m == whole + open && m + data == whole + (open + data);
    HashTail(h, whole, open);
    HashTail(h, whole, open + data);
  }

  // ----- the two-word bit count ------------------------------------------------------------

  /** What is left of a number in a uint32_t. */
  function Wrap(x: nat): (r: uint32)
    ensures r <= x
  {
    x % WORD_LIMIT
  }

  ghost predicate Counts(low: nat, high: nat, n: nat) {
    low < WORD_LIMIT && high < WORD_LIMIT && high * WORD_LIMIT + low == (8 * n) % COUNT_LIMIT
  }

  lemma WrapSplits(x: nat) returns (q: nat)
    ensures x == q * 0x1_0000_0000 + Wrap(x)
  {
    q := x / WORD_LIMIT;
  }

  /** Update adds the bits of len bytes: the carry of the low word shows as a result smaller
      than the old word, and len >> 29 are the bits that len << 3 loses. */
  lemma CountAdds(low: nat, high: nat, n: nat, len: nat, low1: nat, high1: nat)
    requires Counts(low, high, n) && len < WORD_LIMIT
    requires low1 == Wrap(low + Wrap(8 * len))
    requires high1 == Wrap((if low1 < low then Wrap(high + 1) else high) + len / 0x2000_0000)
    ensures Counts(low1, high1, n + len)
  {
    hide Wrap;
    var lo, up := Wrap(8 * len), len / 0x2000_0000;
    var up' := WrapSplits(8 * len);
    assert up == up';
    var carry := WrapSplits(low + lo);
    assert carry == if low1 < low then 1 else 0;
    var q1 := WrapSplits(high + 1);
    var q2 := WrapSplits((if low1 < low then Wrap(high + 1) else high) + up);
    var q := (8 * n) / COUNT_LIMIT;
    var r := if low1 < low then q1 + q2 else q2;
    assert high + carry + up == r * 0x1_0000_0000 + high1;
    assert 8 * (n + len) == (q + r) * COUNT_LIMIT + (high1 * WORD_LIMIT + low1);
    ModIs(8 * (n + len), q + r, high1 * WORD_LIMIT + low1);
  }

  lemma WrapSmall(x: nat)
    requires x < WORD_LIMIT
    ensures Wrap(x) == x
  {
  }

  lemma ModIs(x: nat, q: nat, r: nat)
    requires x == q * COUNT_LIMIT + r && r < COUNT_LIMIT
    ensures x % COUNT_LIMIT == r
  {
  }

  lemma CountGivesOffset(low: nat, high: nat, n: nat)
    requires Counts(low, high, n)
    ensures (low / 8) % 64 == n % 64
  {
    var q := (8 * n) / COUNT_LIMIT;
    assert 8 * n == q * COUNT_LIMIT + high * WORD_LIMIT + low;
    assert low == 8 * (n - q * 0x2000_0000_0000_0000 - high * 0x2000_0000);
    SameOffset(n, low / 8, q * 0x80_0000_0000_0000 + high * 0x80_0000);
  }

  lemma SameOffset(n: nat, x: nat, k: nat)
    requires n == 64 * k + x
    ensures n % 64 == x % 64
  {
  }

  /** The seven bits the padding loop looks at: x & 504. */
  function And504(x: nat): nat { x / 8 % 64 * 8 }

  // ----- the bytes of the count and of the digest -------------------------------------------

  /** The bytes of a number of two halves are those of its halves. */
  lemma {:induction false} ByteOfHalves(high: nat, low: nat, r: nat, k: nat)
    requires low < Power256(r)
    ensures ByteOf(high * Power256(r) + low, k) == if k < r then ByteOf(low, k) else ByteOf(high, k - r)
    decreases r
  {
    if r > 0 {
      ByteOfShift(high, low, Power256(r - 1), k);
      if k > 0 {
        ByteOfHalves(high, low / 256, r - 1, k - 1);
      }
    }
  }

  lemma WordIsFourBytes()
    ensures Power256(4) == WORD_LIMIT
  {
  }

  lemma ByteOfShift(high: nat, low: nat, scale: nat, k: nat)
    requires 0 < scale && low < 256 * scale
    ensures k == 0 ==> ByteOf(high * (256 * scale) + low, k) == ByteOf(low, k)
    ensures k > 0 ==> ByteOf(high * (256 * scale) + low, k) == ByteOf(high * scale + low / 256, k - 1)
    ensures k > 0 ==> ByteOf(low, k) == ByteOf(low / 256, k - 1)
  {
    hide ByteOf, Low;
    var n, q := high * (256 * scale) + low, low / 256;
    Times256(high, scale);
    Digit(low, low % 256, q);
    Digit(n, low % 256, high * scale + q);
    ByteUnfolds(n, k);
    ByteUnfolds(low, k);
    SameVal(Low(n), Low(low));
  }

  lemma Times256(high: nat, scale: nat)
    ensures high * (256 * scale) == 256 * (high * scale)
  {
  }

  lemma ByteUnfolds(x: nat, k: nat)
    ensures ByteOf(x, k) == if k == 0 then Low(x) else ByteOf(x / 256, k - 1)
  {
    hide Low;
  }

  /** The eight bytes that Final takes from the two count words are the length field. */
  lemma CountBytes(low: nat, high: nat, n: nat, i: nat)
    requires Counts(low, high, n) && 8 * n < COUNT_LIMIT && i < 8
    ensures ByteOf(if i >= 4 then low else high, 3 - i % 4) == BigEndian(8 * n, 8)[i]
  {
    hide BigEndian, ByteOf, Power256;
    BigEndianAt(8 * n, 8, i);
    WordIsFourBytes();
    ByteOfHalves(high, low, 4, 7 - i);
  }

  lemma DigestAt(state: Words, i: nat)
    requires |state| == 5 && i < 20
    ensures WordByte(state[i / 4], 3 - i % 4) == DigestBytes(Loaded(state))[i]
  {
    hide WordByte, WordBytes;
    var q, k := i / 4, i % 4;
    assert i == 4 * q + k;
    JoinAt(WordBytes(state[0]), WordBytes(state[1]), WordBytes(state[2]), WordBytes(state[3]), WordBytes(state[4]),
           q, k);
    WordBytesAt(state[q], k);
  }

  lemma JoinAt(a: Bytes, b: Bytes, c: Bytes, d: Bytes, e: Bytes, q: nat, k: nat)
    requires |a| == |b| == |c| == |d| == |e| == 4 && q < 5 && k < 4
    ensures (a + b + c + d + e)[4 * q + k]
         == if q == 0 then a[k] else if q == 1 then b[k] else if q == 2 then c[k] else if q == 3 then d[k] else e[k]
  {
  }

  lemma WordBytesAt(w: bv32, k: nat)
    requires k < 4
    ensures WordBytes(w)[k] == WordByte(w, 3 - k)
  {
    hide WordByte;
  }

  /** The padding loop stops at the first count that leaves room for the length alone. */
  lemma PaddingStep(low: nat, high: nat, m: Bytes, mm: Bytes, z: nat)
    requires Counts(low, high, |mm|) && mm == m + [0x80] + Zeros(z) && z <= PadZeros(|m|)
    ensures And504(low) == 448 <==> z == PadZeros(|m|)
    ensures mm + [0] == m + [0x80] + Zeros(z + 1)
  {
    CountGivesOffset(low, high, |mm|);
    assert Zeros(z + 1) == Zeros(z) + [0];
    assert |mm| == |m| + 1 + z;
    OffsetIs56(|m|, z);
  }

  lemma OffsetIs56(n: nat, z: nat)
    requires z <= PadZeros(n)
    ensures (n + 1 + z) % 64 == 56 <==> z == PadZeros(n)
  {
    var r := n % 64;
    if r <= 55 {
      SameOffset(n + 1 + z, r + 1 + z, n / 64);
    } else if r + 1 + z < 64 {
      SameOffset(n + 1 + z, r + 1 + z, n / 64);
    } else {
      SameOffset(n + 1 + z, r + 1 + z - 64, n / 64 + 1);
    }
  }

  // ----- the context -----------------------------------------------------------------------

  lemma NoWrap(n: nat, j: nat, len: nat, i: nat)
    requires j == n % 64 && j + len < WORD_LIMIT && i <= len && (n + i) % 64 == 0
    ensures Wrap(i + 63) == i + 63
  {
    assert (i + j) % 64 == 0;
  }

  /** Every copy of Update stays inside the 64 bytes of the buffer if and only if the offset and
      the length do not wrap around. */
  lemma CopyFits(offset: nat, len: nat)
    requires offset < 64 && len < WORD_LIMIT
    ensures Wrap(offset + len) > 63 || offset + len <= 64 <==> offset + len < WORD_LIMIT
  {
  }

  /** With one byte in the buffer and 2^32 - 1 more to come, it does not. */
  lemma CopyOverruns()
    ensures !(Wrap(1 + 0xFFFF_FFFF) > 63 || 1 + 0xFFFF_FFFF <= 64)
  {
  }

  class Context {
    const state: array<bv32>
    const count: array<uint32>
    const buffer: array<bv8>

    ghost predicate Valid() {
      state.Length == 5 && count.Length == 2 && buffer.Length == 64
    }

    ghost predicate Hashed(m: Bytes)
      requires Valid()
      reads state
    {
      Loaded(state[..]) == HashBlocks(H0, m)
    }

    /** What the fields hold once the bytes m have been given to the context. */
    ghost predicate Absorbed(m: Bytes)
      requires Valid()
      reads state, count, buffer
    {
      && Hashed(m)
      && Counts(count[0], count[1], |m|)
      && Holds(m)
    }

    /** The block that m leaves open is at the start of the buffer. */
    ghost predicate Holds(m: Bytes)
      requires Valid()
      reads buffer
    {
      buffer[..|m| % 64] == m[|m| - |m| % 64..]
    }

    constructor ()
      ensures Valid() && fresh(state) && fresh(count) && fresh(buffer)
      ensures Absorbed([])
    {
      state := new bv32[5][0x67452301, 0xEFCDAB89, 0x98BADCFE, 0x10325476, 0xC3D2E1F0];
      count := new uint32[2][0, 0];
      buffer := new bv8[64](_ => 0);
    }

    method CountBits(len: uint32, ghost n: nat)
      requires Valid() && Counts(count[0], count[1], n)
      modifies count
      ensures Counts(count[0], count[1], n + len)
    {
      hide Counts, Wrap;
      var j := count[0];
      ghost var high := count[1];
      var shifted: nat := Wrap(8 * len);
      count[0] := Wrap(j as nat + shifted);
      if count[0] < j {
        count[1] := Wrap(count[1] as nat + 1);
      }
      count[1] := Wrap(count[1] as nat + len / 0x2000_0000);
      CountAdds(j, high, n, len, count[0], count[1]);
    }

    /** memcpy into the buffer. */
    method Copy(at: nat, data: Bytes)
      requires Valid() && at + |data| <= 64
      modifies buffer
      ensures buffer[..at + |data|] == old(buffer[..at]) + data
      ensures buffer[at + |data|..] == old(buffer[at + |data|..])
    {
      forall k | 0 <= k < |data| {
        buffer[at + k] := data[k];
      }
    }

    /** SHA1Transform on the context's state. */
    method Compress1(block: Bytes, ghost m: Bytes, ghost m1: Bytes)
      requires Valid() && Hashed(m) && |block| == 64
      requires HashBlocks(H0, m1) == Compress(HashBlocks(H0, m), BlockWords(block))
      modifies state
      ensures Hashed(m1)
    {
      hide Compress, BlockWords, HashBlocks, Loaded;
      Transform(state, block);
    }

    /** The for loop over the whole blocks of data from i on. */
    method MoreBlocks(data: Bytes, i0: nat, j: nat, ghost m: Bytes) returns (i: nat)
      requires Valid() && i0 <= |data| && Hashed(m + data[..i0])
      requires j == |m| % 64 && j + |data| < WORD_LIMIT && (|m| + i0) % 64 == 0
      modifies state
      ensures i <= |data| < i + 64 && (|m| + i) % 64 == 0
      ensures Hashed(m + data[..i])
    {
      hide Compress, BlockWords, HashBlocks, Hashed, Wrap;
      i := i0;
      NoWrap(|m|, j, |data|, i);
      while Wrap(i + 63) < |data|
        invariant i <= |data| && (|m| + i) % 64 == 0 && Wrap(i + 63) == i + 63
        invariant Hashed(m + data[..i])
        decreases |data| - i
      {
        NextBlock(H0, m, data, i);
        Compress1(data[i..i + 64], m + data[..i], m + data[..i + 64]);
        WrapSmall(i + 64);
        i := Wrap(i + 64);
        NoWrap(|m|, j, |data|, i);
      }
    }

    /** The blocks that m and data complete; i is the number of bytes of data used. */
    method CompressBlocks(data: Bytes, j: nat, ghost m: Bytes) returns (i: nat)
      requires Valid() && Hashed(m)
      requires j == |m| % 64 && 64 <= j + |data| < WORD_LIMIT && buffer[..j] == m[|m| - j..]
      modifies state, buffer
      ensures i <= |data| < i + 64 && (|m| + i) % 64 == 0
      ensures Hashed(m + data)
    {
      hide Compress, BlockWords, HashBlocks, Hashed;
      i := 64 - j;
      FirstBlock(H0, m, data, j, i);
      Copy(j, data[..i]);
      assert buffer[..] == buffer[..64];
      Compress1(buffer[..], m, m + data[..i]);
      i := MoreBlocks(data, i, j, m);
      LongTail(H0, m, data, i);
      Settle(m + data[..i], m + data);
    }

    /** Two messages with the same whole blocks. */
    lemma Settle(m: Bytes, m1: Bytes)
      requires Valid() && Hashed(m) && HashBlocks(H0, m) == HashBlocks(H0, m1)
      ensures Hashed(m1)
    {
    }

    /** The length is cast to 32 bits: only the first |data| mod 2^32 bytes are absorbed. When the
        offset and these do not add up to less than 2^32 the sum wraps around, no block is taken for
        complete, and the last memcpy would run over the end of the buffer: fits is false then, and
        what follows is undefined. */
    method Update(data: Bytes, ghost m: Bytes) returns (fits: bool)
      requires Valid() && Absorbed(m)
      modifies state, count, buffer
      ensures fits <==> |m| % 64 + Wrap(|data|) < WORD_LIMIT
      ensures fits ==> Absorbed(m + data[..Wrap(|data|)])
      ensures !fits ==> Hashed(m) && Holds(m) && Counts(count[0], count[1], |m| + Wrap(|data|))
    {
      hide Compress, BlockWords, HashBlocks, Counts, Hashed, Wrap;
      var len := Wrap(|data|);
      var j: nat := count[0];
      CountGivesOffset(count[0], count[1], |m|);
      CountBits(len, |m|);
      j := j / 8 % 64;
      CopyFits(j, len);
      fits := Wrap(j + len) > 63 || j + len <= 64;
      if fits {
        Absorb(data[..len], j, m);
      }
    }

    /** The blocks and the copies of Update, when they fit. */
    method Absorb(used: Bytes, offset: nat, ghost m: Bytes)
      requires Valid() && Hashed(m) && Holds(m) && Counts(count[0], count[1], |m| + |used|)
      requires offset == |m| % 64 && offset + |used| < WORD_LIMIT
      modifies state, buffer
      ensures Absorbed(m + used)
    {
      hide Counts, Hashed, Holds, Wrap;
      WrapSmall(offset + |used|);
      if Wrap(offset + |used|) > 63 {
        AbsorbBlocks(used, offset, m);
      } else {
        AbsorbFew(used, offset, m);
      }
    }

    method AbsorbBlocks(used: Bytes, offset: nat, ghost m: Bytes)
      requires Valid() && Hashed(m) && Holds(m)
      requires offset == |m| % 64 && 64 <= offset + |used| < WORD_LIMIT
      modifies state, buffer
      ensures Hashed(m + used) && Holds(m + used)
    {
      hide HashBlocks, Hashed, Wrap;
      var i := CompressBlocks(used, offset, m);
      LongTail(H0, m, used, i);
      assert buffer[..0] + used[i..] == used[i..];
      CopyTail(0, used[i..], m + used);
    }

    method AbsorbFew(used: Bytes, offset: nat, ghost m: Bytes)
      requires Valid() && Hashed(m) && Holds(m)
      requires offset == |m| % 64 && offset + |used| < 64
      modifies state, buffer
      ensures Hashed(m + used) && Holds(m + used)
    {
      hide HashBlocks, Hashed, Wrap;
      ShortTail(H0, m, used, offset);
      Settle(m, m + used);
      CopyTail(offset, used, m + used);
    }

    method CopyTail(j: nat, tail: Bytes, ghost m: Bytes)
      requires Valid() && j + |tail| == |m| % 64
      requires buffer[..j] + tail == m[|m| - |m| % 64..]
      modifies buffer
      ensures Holds(m)
    {
      Copy(j, tail);
    }

    /** Update with a few bytes, as Final calls it. */
    method UpdateFew(data: Bytes, ghost m: Bytes)
      requires Valid() && Absorbed(m) && |data| <= 8
      modifies state, count, buffer
      ensures Absorbed(m + data)
    {
      hide Absorbed;
      WrapSmall(|data|);
      assert data[..Wrap(|data|)] == data;
      var fits := Update(data, m);
      assert fits;
    }

    /** finalcount: the bit count, most significant byte first. */
    method FinalCount(ghost n: nat) returns (finalcount: Bytes)
      requires Valid() && Counts(count[0], count[1], n) && 8 * n < COUNT_LIMIT
      ensures finalcount == BigEndian(8 * n, 8)
    {
      hide BigEndian, ByteOf;
      finalcount := [];
      for i := 0 to 8
        invariant finalcount == BigEndian(8 * n, 8)[..i]
      {
        CountBytes(count[0], count[1], n, i);
        finalcount := finalcount + [ByteOf(count[if i >= 4 then 0 else 1], 3 - i % 4)];
      }
    }

    /** The byte 0x80, then zero bytes until the length just fits. */
    method PadBlock(ghost m: Bytes) returns (ghost mm: Bytes)
      requires Valid() && Absorbed(m)
      modifies state, count, buffer
      ensures mm == m + [0x80] + Zeros(PadZeros(|m|)) && Absorbed(mm)
    {
      hide Hashed, PadZeros, Counts, And504, Zeros;
      UpdateFew([0x80], m);
      ghost var z := 0;
      mm := m + [0x80];
      assert mm == m + [0x80] + Zeros(0);
      while And504(count[0]) != 448
        invariant z <= PadZeros(|m|) && mm == m + [0x80] + Zeros(z)
        invariant Absorbed(mm)
        decreases PadZeros(|m|) - z
      {
        PaddingStep(count[0], count[1], m, mm, z);
        UpdateFew([0], mm);
        mm, z := mm + [0], z + 1;
      }
      PaddingStep(count[0], count[1], m, mm, z);
    }

    method StoreDigest(digest: array<bv8>)
      requires Valid() && digest.Length >= 20
      modifies digest
      ensures digest[..20] == DigestBytes(Loaded(state[..])) && digest[20..] == old(digest[20..])
    {
      hide WordByte, DigestBytes;
      for i := 0 to 20
        invariant digest[..i] == DigestBytes(Loaded(state[..]))[..i]
        invariant digest[20..] == old(digest[20..])
      {
        DigestAt(state[..], i);
        digest[i] := WordByte(state[i / 4], 3 - i % 4);
      }
    }

    /** memset of the context. */
    method Wipe()
      requires Valid()
      modifies state, count, buffer
      ensures forall k :: 0 <= k < 5 ==> state[k] == 0
      ensures count[0] == count[1] == 0
      ensures forall k :: 0 <= k < 64 ==> buffer[k] == 0
    {
      forall k | 0 <= k < 5 { state[k] := 0; }
      count[0], count[1] := 0, 0;
      forall k | 0 <= k < 64 { buffer[k] := 0; }
    }

    /** Padding, the length, the digest, and the wipe. */
    method Final(digest: array<bv8>, ghost m: Bytes)
      requires Valid() && Absorbed(m) && 8 * |m| < COUNT_LIMIT
      requires digest.Length >= 20 && digest != buffer
      modifies digest, state, count, buffer
      ensures digest[..20] == Digest(m) && digest[20..] == old(digest[20..])
      ensures forall k :: 0 <= k < 5 ==> state[k] == 0
      ensures count[0] == count[1] == 0
      ensures forall k :: 0 <= k < 64 ==> buffer[k] == 0
    {
      hide HashBlocks, BigEndian, DigestBytes, PadZeros, Counts, Loaded, Zeros;
      var finalcount := FinalCount(|m|);
      ghost var mm := PadBlock(m);
      UpdateFew(finalcount, mm);
      assert mm + finalcount == Pad(m);
      StoreDigest(digest);
      Wipe();
    }
  }

  /** Two contexts that have been given the same bytes agree in state, count and the live part of
      the buffer, however the bytes were cut into calls of Update. */
  lemma SameBytesSameContext(c: Context, d: Context, m: Bytes)
    requires c.Valid() && d.Valid() && c.Absorbed(m) && d.Absorbed(m)
    ensures c.state[..] == d.state[..] && c.count[..] == d.count[..]
    ensures c.buffer[..|m| % 64] == d.buffer[..|m| % 64]
  {
    hide HashBlocks, Counts;
    SameWords(c.state[..], d.state[..]);
    SameCounts(c.count[0], c.count[1], d.count[0], d.count[1], |m|);
  }

  lemma SameWords(a: Words, b: Words)
    requires |a| == |b| == 5 && Loaded(a) == Loaded(b)
    ensures a == b
  {
  }

  lemma SameCounts(low: nat, high: nat, low1: nat, high1: nat, n: nat)
    requires Counts(low, high, n) && Counts(low1, high1, n)
    ensures low == low1 && high == high1
  {
  }

  // ----- when a cut does not matter --------------------------------------------------------------

  /** What is absorbed of data: its length is cast to 32 bits. */
  function Used(data: Bytes): Bytes { data[..Wrap(|data|)] }

  /** For lengths x and y, Update(a) and Update(b) absorb the bytes that Update(a + b) absorbs, for
      all contents, if and only if no cast drops bytes that the other way keeps. */
  lemma SplitExactly(x: nat, y: nat)
    ensures (forall a: Bytes, b: Bytes | |a| == x && |b| == y :: Used(a) + Used(b) == Used(a + b))
            <==> Wrap(x) + Wrap(y) < WORD_LIMIT && (Wrap(y) == 0 || x < WORD_LIMIT)
  {
    hide Wrap;
    WrapOfSum(x, y);
    if Wrap(x) + Wrap(y) < WORD_LIMIT && (Wrap(y) == 0 || x < WORD_LIMIT) {
      forall a: Bytes, b: Bytes | |a| == x && |b| == y
        ensures Used(a) + Used(b) == Used(a + b)
      {
        if x < WORD_LIMIT {
          WrapSmall(x);
        }
      }
    } else {
      var a: Bytes, b: Bytes := seq(x, _ => 0), seq(y, _ => 1);
      if Wrap(x) + Wrap(y) < WORD_LIMIT {
        WrapBelow(x);
        assert (Used(a) + Used(b))[Wrap(x)] == 1 && Used(a + b)[Wrap(x)] == 0;
      } else {
        assert |Used(a) + Used(b)| != |Used(a + b)|;
      }
    }
  }

  lemma WrapOfSum(x: nat, y: nat)
    ensures Wrap(x + y) == if Wrap(x) + Wrap(y) < WORD_LIMIT then Wrap(x) + Wrap(y) else Wrap(x) + Wrap(y) - WORD_LIMIT
  {
    var p := WrapSplits(x);
    var q := WrapSplits(y);
    var sum := Wrap(x) + Wrap(y);
    if sum < WORD_LIMIT {
      WrapIs(x + y, p + q, sum);
    } else {
      WrapIs(x + y, p + q + 1, sum - WORD_LIMIT);
    }
  }

  lemma WrapIs(x: nat, q: nat, r: nat)
    requires x == q * WORD_LIMIT + r && r < WORD_LIMIT
    ensures Wrap(x) == r
  {
  }

  lemma WrapBelow(x: nat)
    requires x >= WORD_LIMIT
    ensures Wrap(x) < x
  {
  }

  /** After any m, for a and b shorter than 2^32 bytes: a context that was given a and then b and one
      that was given a + b hold the same count if and only if a + b is shorter than 2^32 bytes too,
      and then they agree in everything. */
  lemma SplitContexts(c: Context, d: Context, m: Bytes, a: Bytes, b: Bytes)
    requires c.Valid() && d.Valid() && |a| < WORD_LIMIT && |b| < WORD_LIMIT
    requires c.Absorbed(m + Used(a) + Used(b)) && d.Absorbed(m + Used(a + b))
    ensures c.count[..] == d.count[..] <==> |a| + |b| < WORD_LIMIT
    ensures |a| + |b| < WORD_LIMIT ==>
              && c.state[..] == d.state[..]
              && var n := (|m| + |a| + |b|) % 64; c.buffer[..n] == d.buffer[..n]
  {
    hide HashBlocks, Counts, Wrap, Loaded;
    WrapSmall(|a|);
    WrapSmall(|b|);
    WrapOfSum(|a|, |b|);
    if |a| + |b| < WORD_LIMIT {
      assert m + Used(a) + Used(b) == m + Used(a + b);
      SameBytesSameContext(c, d, m + Used(a + b));
    } else {
      var n := |m| + Wrap(|a| + |b|);
      CountsDiffer(c.count[0], c.count[1], d.count[0], d.count[1], n);
    }
  }

  lemma CountsDiffer(low: nat, high: nat, low1: nat, high1: nat, n: nat)
    requires Counts(low, high, n + WORD_LIMIT) && Counts(low1, high1, n)
    ensures low != low1 || high != high1
  {
    var x, q, r := 8 * n, 8 * n / COUNT_LIMIT, 8 * n % COUNT_LIMIT;
    var more := 8 * WORD_LIMIT;
    assert 8 * (n + WORD_LIMIT) == x + more && x == q * COUNT_LIMIT + r;
    if r + more < COUNT_LIMIT {
      ModIs(x + more, q, r + more);
    } else {
      ModIs(x + more, q + 1, r + more - COUNT_LIMIT);
    }
  }

  // ----- util.cpp --------------------------------------------------------------------------

  /** SHA1 of util.cpp hands the length of the string to Update as size_t; Update keeps its
      low 32 bits. The digest is that of the whole string below 4 GB, and of a prefix above. */
  method HashString(data: Bytes, digest: array<bv8>)
    requires digest.Length >= 20
    modifies digest
    ensures digest[..20] == Digest(data[..Wrap(|data|)])
    ensures digest[20..] == old(digest[20..])
  {
    hide Digest, Context.Absorbed;
    ghost var used := data[..Wrap(|data|)];
    assert [] + used == used && 8 * |used| < COUNT_LIMIT;
    var context := new Context();
    var fits := context.Update(data, []);
    assert fits;
    context.Final(digest, used);
  }
}
