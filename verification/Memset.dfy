/** memset to zero (kernel/src/arch/x86/lib/string.S), byte by byte over little-endian words. */
module Memset {
  import opened Words
  import opened Bitset

  /** Zeroing byte k of the memory that starts at word b. */
  function ZeroByte(mem: seq<Word>, b: nat, k: nat): (r: seq<Word>)
    requires b + k / 4 < |mem|
    ensures |r| == |mem|
  {
    BitClearBound(mem[b + k / 4], 255 * Pow2(8 * (k % 4)));
    mem[b + k / 4 := BitClear(mem[b + k / 4], 255 * Pow2(8 * (k % 4)))]
  }

  function ZeroBytes(mem: seq<Word>, b: nat, n: nat): (r: seq<Word>)
    requires b + CeilDiv(n, 4) <= |mem|
    ensures |r| == |mem|
  {
    if n == 0 then mem else ZeroByte(ZeroBytes(mem, b, n - 1), b, n - 1)
  }

  lemma ByteMaskBit(j: nat, k: nat)
    ensures Bit(255 * Pow2(8 * j), k) <==> 8 * j <= k < 8 * j + 8
  {
    assert Pow2(8) == 256 by { assert Pow2(4) == 16; assert Pow2(8) == 16 * Pow2(4); }
    ShiftedBit(255, 8 * j, k);
    if 8 * j <= k { OnesBit(8, k - 8 * j); }
  }

  lemma ZeroByteBit(mem: seq<Word>, b: nat, k: nat, x: nat)
    requires b + k / 4 < |mem| && InStore(mem, b, x)
    ensures Test(ZeroByte(mem, b, k), b, x) <==> x / 8 != k && Test(mem, b, x)
  {
    var w := mem[b + k / 4];
    BitClearBit(w, 255 * Pow2(8 * (k % 4)), x % 32);
    ByteMaskBit(k % 4, x % 32);
    ByteOfBit(k, x);
  }

  lemma ByteOfBit(k: nat, x: nat)
    ensures x / 8 == k <==> x / 32 == k / 4 && 8 * (k % 4) <= x % 32 < 8 * (k % 4) + 8
  {
  }

  /** After memset of n bytes the first 8n bits are clear and all later bits are what they were,
      also the rest of a word that was only partly covered. */
  lemma {:induction false} ZeroBytesBit(mem: seq<Word>, b: nat, n: nat, x: nat)
    requires b + CeilDiv(n, 4) <= |mem| && InStore(mem, b, x)
    ensures Test(ZeroBytes(mem, b, n), b, x) <==> 8 * n <= x && Test(mem, b, x)
  {
    if n > 0 {
      ZeroBytesBit(mem, b, n - 1, x);
      ZeroByteBit(ZeroBytes(mem, b, n - 1), b, n - 1, x);
    }
  }

  lemma {:induction false} ZeroBytesFrame(mem: seq<Word>, b: nat, n: nat, i: nat)
    requires b + CeilDiv(n, 4) <= |mem| && i < |mem| && (i < b || b + CeilDiv(n, 4) <= i)
    ensures ZeroBytes(mem, b, n)[i] == mem[i]
  {
    if n > 0 { ZeroBytesFrame(mem, b, n - 1, i); }
  }

  /** A whole number of words becomes zero words. */
  lemma ZeroWholeWords(mem: seq<Word>, b: nat, words: nat, i: nat)
    requires b + words <= |mem| && b <= i < b + words
    ensures ZeroBytes(mem, b, 4 * words)[i] == 0
  {
    var r := ZeroBytes(mem, b, 4 * words);
    forall k: nat | k < 32 ensures Bit(r[i], k) == Bit(0, k) {
      var x := 32 * (i - b) + k;
      assert x / BITSET_SIZE == i - b && x % BITSET_SIZE == k;
      ZeroBytesBit(mem, b, 4 * words, x);
      ZeroBit(k);
    }
    SameWord(r[i], 0);
  }

  method MemsetZero(ram: array<Word>, b: nat, n: nat)
    requires b + CeilDiv(n, 4) <= ram.Length
    modifies ram
    ensures ram[..] == ZeroBytes(old(ram[..]), b, n)
  {
    var k := 0;
    while k < n
      invariant 0 <= k <= n
      invariant ram[..] == ZeroBytes(old(ram[..]), b, k)
    {
      var i, mask := b + k / 4, 255 * Pow2(8 * (k % 4));
      BitClearBound(ram[i], mask);
      ram[i] := BitClear(ram[i], mask);
      k := k + 1;
    }
  }
}
