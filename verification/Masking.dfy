/** apply_mask of WebSocket.cpp and the transformation of section 5.3 of RFC 6455. */
module Masking {
  import opened Octets

  function Xor(a: Byte, b: Byte): Byte { a ^ b }

  /** The bits that exactly one of the two has. */
  lemma XorIs(a: Byte, b: Byte)
    ensures Xor(a, b) == (a | b) - (a & b) && Xor(a, 0) == a && Xor(0, b) == b && Xor(a, 255) == 255 - a
  {
  }

  lemma XorTwice(a: Byte, b: Byte)
    ensures Xor(Xor(a, b), b) == a
  {
  }

  /** Octet i of the result is octet i of the data XOR octet i modulo 4 of the key. */
  function Masked(data: Bytes, mask: Bytes): (r: Bytes)
    requires |mask| == 4
    ensures |r| == |data|
  {
    seq(|data|, i requires 0 <= i < |data| => Xor(data[i], mask[i % 4]))
  }

  /** Octet by octet: the bits that exactly one of data and key has, so that zeros show the key itself. */
  lemma MaskedIs(data: Bytes, mask: Bytes, i: nat)
    requires |mask| == 4 && i < |data|
    ensures Masked(data, mask)[i] == (data[i] | mask[i % 4]) - (data[i] & mask[i % 4])
    ensures data[i] == 0 ==> Masked(data, mask)[i] == mask[i % 4]
  {
    hide Xor;
    XorIs(data[i], mask[i % 4]);
  }

  lemma MaskTwice(data: Bytes, mask: Bytes)
    requires |mask| == 4
    ensures Masked(Masked(data, mask), mask) == data
  {
    forall i | 0 <= i < |data|
      ensures Masked(Masked(data, mask), mask)[i] == data[i]
    {
      XorTwice(data[i], mask[i % 4]);
    }
  }

  /** The mask may be restarted after any multiple of four bytes, such as a 1024-byte block. */
  lemma MaskRestarts(a: Bytes, b: Bytes, mask: Bytes)
    requires |mask| == 4 && |a| % 4 == 0
    ensures Masked(a + b, mask) == Masked(a, mask) + Masked(b, mask)
  {
    hide Xor;
    forall k | 0 <= k < |b|
      ensures Masked(a + b, mask)[|a| + k] == Masked(b, mask)[k]
    {
      FourLater(k, |a| / 4);
    }
  }

  lemma FourLater(k: nat, q: nat)
    ensures (4 * q + k) % 4 == k % 4
  {
  }

  /** The key byte is the same whether the key goes on behind n bytes or starts again. */
  predicate SameKey(mask: Bytes, n: nat, i: nat)
    requires |mask| == 4
  {
    mask[(n + i) % 4] == mask[i % 4]
  }

  /** Restarting the key behind any bytes a is right if and only if the key looks the same from there
      on, as far as b reaches: for an a that is no multiple of four bytes long, a matter of luck. */
  lemma MaskRestartMatters(a: Bytes, b: Bytes, mask: Bytes)
    requires |mask| == 4
    ensures Masked(a + b, mask) == Masked(a, mask) + Masked(b, mask)
            <==> forall i :: 0 <= i < |b| ==> SameKey(mask, |a|, i)
  {
    hide Xor;
    var whole, parts := Masked(a + b, mask), Masked(a, mask) + Masked(b, mask);
    forall k | 0 <= k < |a|
      ensures whole[k] == parts[k]
    {
    }
    forall i | 0 <= i < |b|
      ensures whole[|a| + i] == parts[|a| + i] <==> SameKey(mask, |a|, i)
    {
      XorCancels(b[i], mask[(|a| + i) % 4], mask[i % 4]);
    }
    if forall i :: 0 <= i < |b| ==> SameKey(mask, |a|, i) {
      forall k | 0 <= k < |whole|
        ensures whole[k] == parts[k]
      {
        if k >= |a| {
          assert SameKey(mask, |a|, k - |a|);
          assert whole[|a| + (k - |a|)] == parts[|a| + (k - |a|)];
        }
      }
    }
  }

  lemma XorCancels(x: Byte, a: Byte, b: Byte)
    ensures Xor(x, a) == Xor(x, b) <==> a == b
  {
    assert (x ^ a) ^ x == a && (x ^ b) ^ x == b;
  }

  /** out may be input itself: the server unmasks in place. */
  method ApplyMask(out: array<Byte>, input: array<Byte>, length: nat, mask: Bytes)
    requires |mask| == 4 && length <= out.Length && length <= input.Length
    modifies out
    ensures out[..length] == Masked(old(input[..length]), mask)
    ensures out[length..] == old(out[length..])
  {
    ghost var was := input[..length];
    var i, j := 0, 0;
    while i < length
      invariant i <= length && j == i % 4
      invariant forall k :: 0 <= k < i ==> out[k] == Masked(was, mask)[k]
      invariant forall k :: i <= k < length ==> input[k] == was[k]
      invariant out[length..] == old(out[length..])
    {
      out[i] := Xor(input[i], mask[j]);
      j := j + 1;
      i := i + 1;
      if j == 4 {
        j := 0;
      }
    }
  }

  /** The payload cut into blocks of 1024 bytes, each masked from the start of the key. */
  function MaskedInBlocks(data: Bytes, mask: Bytes): Bytes
    requires |mask| == 4
    decreases |data|
  {
    if |data| <= 1024 then Masked(data, mask)
    else Masked(data[..1024], mask) + MaskedInBlocks(data[1024..], mask)
  }

  lemma {:induction false} BlocksAreWhole(data: Bytes, mask: Bytes)
    requires |mask| == 4
    ensures MaskedInBlocks(data, mask) == Masked(data, mask)
    decreases |data|
  {
    if |data| > 1024 {
      BlocksAreWhole(data[1024..], mask);
      MaskRestarts(data[..1024], data[1024..], mask);
      assert data == data[..1024] + data[1024..];
    }
  }
}
