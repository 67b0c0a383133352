/** SHA-1 over a message that arrives in parts (sha1.c), against the padding and blocks of FIPS PUB 180-1. */
module Sha1Stream {
  import opened Pieces
  import opened Sha1

  const WORD := 0x1_0000_0000

  /** Sections 7 and 8: one block after another. */
  function HashBlocks(s: seq<Byte>): Regs
    requires |s| % 64 == 0
  {
    if s == [] then INITIAL else Compress(HashBlocks(s[..|s| - 64]), s[|s| - 64..])
  }

  lemma HashBlocksStep(s: seq<Byte>, block: seq<Byte>)
    requires |s| % 64 == 0 && |block| == 64
    ensures HashBlocks(s + block) == Compress(HashBlocks(s), block)
  {
    assert (s + block)[..|s|] == s && (s + block)[|s|..] == block;
  }

  function Pow256(k: nat): (p: nat)
    ensures p > 0
  {
    if k == 0 then 1 else 256 * Pow256(k - 1)
  }

  /** Byte `k` of the big-endian form of `n` in 64 bits. */
  function LengthByte(n: nat, k: nat): Byte
    requires k < 8
  {
    (n / Pow256(7 - k) % 256) as Byte
  }

  function LengthBytes(n: nat): (r: seq<Byte>)
    ensures |r| == 8
  {
    seq(8, k requires 0 <= k < 8 => LengthByte(n, k))
  }

  function Zeros(k: nat): seq<Byte> {
    seq(k, i => 0)
  }

  /** Section 4: a one bit, zeros, and the length in bits fill up the last block. */
  function Pad(m: seq<Byte>): (r: seq<Byte>)
    ensures |r| % 64 == 0
  {
    m + [0x80] + Zeros((55 - |m|) % 64) + LengthBytes(8 * |m|)
  }

  lemma PadIs(m: seq<Byte>)
    ensures Pad(m) == m + [0x80] + Zeros((55 - |m|) % 64) + LengthBytes(8 * |m|)
  {
  }

  function WordByte(w: Word, k: nat): Byte
    requires k < 4
  {
    var shift: Word := if k == 0 then 24 else if k == 1 then 16 else if k == 2 then 8 else 0;
    ((w >> shift) & 255) as Byte
  }

  function RegWord(r: Regs, i: nat): Word
    requires i < 5
  {
    if i == 0 then r.a else if i == 1 then r.b else if i == 2 then r.c else if i == 3 then r.d else r.e
  }

  function RegBytes(h: Regs): (r: seq<Byte>)
    ensures |r| == 20
  {
    seq(20, i requires 0 <= i < 20 => WordByte(RegWord(h, i / 4), i % 4))
  }

  /** The message digest. */
  function Digest(m: seq<Byte>): seq<Byte> {
    RegBytes(HashBlocks(Pad(m)))
  }

  lemma LowBits(c: nat, len: nat)
    requires c < WORD && len < WORD
    ensures var bits := len * 8 % WORD;
      var sum := (c + bits) % WORD;
      && sum == (c + 8 * len) % WORD
      && (c + 8 * len) / WORD == len / 0x2000_0000 + (if sum < bits then 1 else 0)
  {
    var bits, high := len * 8 % WORD, len / 0x2000_0000;
    assert 8 * len == high * WORD + bits;
  }

  lemma ModAdd(a: nat, b: nat, c: nat)
    ensures b == (a + 1) % WORD ==> (b + c) % WORD == (a + 1 + c) % WORD
  {
    if b == (a + 1) % WORD {
      var q := (a + 1) / WORD;
      assert a + 1 == q * WORD + b;
      assert a + 1 + c == q * WORD + (b + c);
      ModMultiple(q, b + c);
    }
  }

  lemma ModMultiple(q: nat, x: nat)
    ensures (q * WORD + x) % WORD == x % WORD && (q * WORD + x) / WORD == q + x / WORD
  {
  }

  class Context {
    var state: Regs
    var count0: nat
    var count1: nat
    const buffer: array<Byte>
    /** All that has been put in. */
    ghost var m: seq<Byte>

    /** The whole blocks are in the state, and the rest is in the buffer. */
    ghost predicate Holding()
      reads this`state, this`m, buffer
    {
      var q := 64 * (|m| / 64);
      buffer.Length == 64 && state == HashBlocks(m[..q]) && buffer[..|m| - q] == m[q..]
    }

    ghost predicate Valid()
      reads this, buffer
    {
      Holding() && count0 == 8 * |m| % WORD && count1 == 8 * |m| / WORD % WORD
    }

    /** SHA1Init */
    constructor ()
      ensures Valid() && m == [] && fresh(buffer)
    {
      state, count0, count1, m := INITIAL, 0, 0, [];
      buffer := new Byte[64];
    }

    /** Counts the bits of `len` more bytes. */
    method Count(len: nat)
      requires len < WORD && count0 < WORD && count1 < WORD
      modifies this`count0, this`count1
      ensures count0 == (old(count0) + 8 * len) % WORD
      ensures count1 == (old(count1) + (old(count0) + 8 * len) / WORD) % WORD
    {
      var bits := len * 8 % WORD;
      LowBits(count0, len);
      ghost var c1 := count1;
      count0 := (count0 + bits) % WORD;
      if count0 < bits {
        count1 := (count1 + 1) % WORD;
      }
      ModAdd(c1, count1, len / 0x2000_0000);
      count1 := (count1 + len / 0x2000_0000) % WORD;
    }

    /** SHA1Transform on the state. */
    method Absorb(block: seq<Byte>)
      requires |block| == 64
      modifies this`state
      ensures state == Compress(old(state), block)
    {
      state := Transform(state, block);
    }

    /** memcpy into the buffer */
    method Store(j: nat, data: seq<Byte>)
      requires j + |data| <= 64 == buffer.Length
      modifies buffer
      ensures buffer[..] == old(buffer[..j]) + data + old(buffer[j + |data|..])
    {
      ghost var s := buffer[..];
      forall k | 0 <= k < |data| {
        buffer[j + k] := data[k];
      }
    }

    /** Transforms all the blocks that the data completes; the result is how much of the data they take. */
    method Whole(data: seq<Byte>, j: nat) returns (i: nat)
      requires Holding() && j == |m| % 64 && j + |data| > 63
      modifies this`state, buffer
      ensures i <= |data| < i + 64 && (|m| + i) % 64 == 0 && state == HashBlocks((m + data)[..|m| + i])
    {
      hide Compress, HashBlocks;
      ghost var all, n := m + data, |m|;
      i := 64 - j;
      FirstBlock(m, data, j);
      ghost var rest := buffer[..j];
      Store(j, data[..i]);
      assert buffer[..] == rest + data[..i];
      HashBlocksStep(m[..n - j], m[n - j..] + data[..i]);
      Absorb(buffer[..]);
      while i + 63 < |data|
        invariant i <= |data| && (n + i) % 64 == 0 && state == HashBlocks(all[..n + i])
      {
        NextBlock(all, n + i, data, n);
        HashBlocksStep(all[..n + i], data[i..i + 64]);
        Absorb(data[i..i + 64]);
        i := i + 64;
      }
    }

    /** Transforms the blocks that the data completes, and keeps the rest. */
    method Take(data: seq<Byte>, j: nat)
      requires Holding() && j == |m| % 64
      modifies this`state, this`m, buffer
      ensures Holding() && m == old(m) + data
    {
      hide HashBlocks;
      ghost var all, rest := m + data, buffer[..j];
      if j + |data| > 63 {
        var i := Whole(data, j);
        LastBytes(m, data, i);
        Store(0, data[i..]);
      } else {
        FewBytes(m, data);
        Store(j, data);
      }
      m := all;
    }

    /** SHA1Update: the context depends on the whole message only. */
    method Update(data: seq<Byte>)
      requires Valid() && |data| <= WORD - 64
      modifies this`state, this`count0, this`count1, this`m, buffer
      ensures Valid() && m == old(m) + data
    {
      hide Holding;
      var j := count0 / 8 % 64;
      Places(|m|);
      Counts(|m|, |data|);
      Count(|data|);
      Take(data, j);
    }

    /** The bytes of the count. */
    method CountBytes() returns (finalcount: seq<Byte>)
      requires Valid()
      ensures finalcount == LengthBytes(8 * |m|)
    {
      hide HashBlocks, LengthByte, Pow256;
      finalcount := [];
      for i := 0 to 8
        invariant |finalcount| == i && forall k :: 0 <= k < i ==> finalcount[k] == LengthByte(8 * |m|, k)
      {
        CountByte(8 * |m|, i);
        var word := if i >= 4 then count0 else count1;
        finalcount := finalcount + [(word / Pow256(3 - i % 4) % 256) as Byte];
      }
    }

    /** Adds the padding that goes before the length. */
    method Fill()
      requires Valid()
      modifies this`state, this`count0, this`count1, this`m, buffer
      ensures Valid() && m == old(m) + [0x80] + Zeros((55 - |old(m)|) % 64)
    {
      hide HashBlocks, Holding;
      ghost var m0 := m;
      Update([0x80]);
      ghost var k: nat := 0;
      Places(|m|);
      while count0 / 8 % 64 != 56
        invariant Valid() && m == m0 + [0x80] + Zeros(k) && k <= (55 - |m0|) % 64
        invariant count0 / 8 % 64 == |m| % 64
        decreases 64 - k
      {
        PadLength(|m0|, k);
        Update([0]);
        k := k + 1;
        Places(|m|);
      }
      PadLength(|m0|, k);
    }

    method WriteOut() returns (digest: seq<Byte>)
      ensures digest == RegBytes(state)
    {
      hide WordByte, RegWord;
      digest := [];
      for i := 0 to 20
        invariant |digest| == i && forall k :: 0 <= k < i ==> digest[k] == RegBytes(state)[k]
      {
        digest := digest + [WordByte(RegWord(state, i / 4), i % 4)];
      }
    }

    lemma Whole64()
      requires Valid() && |m| % 64 == 0
      ensures state == HashBlocks(m)
    {
      assert m[..|m|] == m;
    }

    /** SHA1Final: pads the message, and writes out the state. */
    method Final() returns (digest: seq<Byte>)
      requires Valid()
      modifies this`state, this`count0, this`count1, this`m, buffer
      ensures digest == Digest(old(m)) && m == Pad(old(m))
    {
      hide HashBlocks, LengthBytes, Holding, Pad;
      ghost var m0 := m;
      PadIs(m0);
      var finalcount := CountBytes();
      Fill();
      Update(finalcount);
      Whole64();
      digest := WriteOut();
    }
  }

  lemma LowByte(x: nat, k: nat)
    requires k < 4
    ensures x % WORD / Pow256(k) % 256 == x / Pow256(k) % 256
  {
    assert Pow256(1) == 0x100 && Pow256(2) == 0x1_0000 && Pow256(3) == 0x100_0000;
    Digit(x, Pow256(k), 256, Pow256(3 - k));
  }

  /** The two count words hold the bytes of the length in bits. */
  lemma CountByte(n: nat, i: nat)
    requires i < 8
    ensures ((if i >= 4 then n % WORD else n / WORD % WORD) / Pow256(3 - i % 4) % 256) as Byte == LengthByte(n, i)
  {
    LowByte(if i >= 4 then n else n / WORD, 3 - i % 4);
    HighByte(n, i);
  }

  lemma HighByte(n: nat, i: nat)
    requires i < 8
    ensures (if i >= 4 then n else n / WORD) / Pow256(3 - i % 4) % 256 == n / Pow256(7 - i) % 256
  {
    hide Pow256;
    if i < 4 {
      assert i % 4 == i;
      Pow256Four(3 - i);
      DivDiv(n, WORD, Pow256(3 - i));
    } else {
      assert i % 4 == i - 4;
    }
  }

  lemma Pow256Four(k: nat)
    ensures Pow256(k + 4) == WORD * Pow256(k)
  {
    assert Pow256(k + 2) == 0x1_0000 * Pow256(k);
  }

  /** One more zero is missing until the length is 56 bytes past a whole block. */
  lemma PadLength(n: nat, k: nat)
    requires k <= (55 - n) % 64
    ensures (n + 1 + k) % 64 == 56 <==> k == (55 - n) % 64
  {
    var z := (55 - n) % 64;
    var q := (55 - n) / 64;
    assert n + 1 + k == 56 - 64 * q - (z - k);
  }

  /** Data that completes no block. */
  lemma FewBytes(m: seq<Byte>, data: seq<Byte>)
    requires |m| % 64 + |data| < 64
    ensures var q := 64 * (|m| / 64);
      && 64 * (|m + data| / 64) == q && (m + data)[..q] == m[..q] && (m + data)[q..] == m[q..] + data
  {
    var q := |m| / 64;
    assert |m| + |data| == 64 * q + (|m| % 64 + |data|);
  }

  lemma Places(n: nat)
    ensures 8 * n % WORD / 8 % 64 == n % 64
  {
    Digit(8 * n, 8, 64, 0x80_0000);
    DivExact(n, 0, 8);
  }

  lemma Counts(n: nat, k: nat)
    ensures (8 * n % WORD + 8 * k) % WORD == 8 * (n + k) % WORD
    ensures (8 * n / WORD % WORD + (8 * n % WORD + 8 * k) / WORD) % WORD == 8 * (n + k) / WORD % WORD
  {
    var q, r := 8 * n / WORD, 8 * n % WORD;
    ModMultiple(q, r + 8 * k);
    var x, y := q / WORD, (r + 8 * k) / WORD;
    assert q == x * WORD + q % WORD;
    ModMultiple(x, q % WORD + y);
  }

  /** The buffer filled up from the data is the block that follows the whole blocks of the message. */
  lemma FirstBlock(m: seq<Byte>, data: seq<Byte>, j: nat)
    requires j == |m| % 64 && j + |data| > 63
    ensures var all := m + data;
      all[..|m| + 64 - j] == m[..|m| - j] + (m[|m| - j..] + data[..64 - j])
    ensures (|m| - j) % 64 == 0 && |m| - j == 64 * (|m| / 64)
  {
  }

  lemma NextBlock(all: seq<Byte>, p: nat, data: seq<Byte>, n: nat)
    requires n <= p && p + 64 <= |all| && all[n..] == data
    ensures all[..p + 64] == all[..p] + data[p - n..p - n + 64]
  {
    assert data[p - n..p - n + 64] == all[p..p + 64];
  }

  lemma LastBytes(m: seq<Byte>, data: seq<Byte>, i: nat)
    requires i <= |data| && (|m| + i) % 64 == 0 && |data| - i < 64
    ensures var all := m + data;
      var q := 64 * (|all| / 64);
      q == |m| + i && all[q..] == data[i..]
  {
  }

  function Concat(parts: seq<seq<Byte>>): seq<Byte> {
    if parts == [] then [] else Concat(parts[..|parts| - 1]) + parts[|parts| - 1]
  }

  /** However a message is split, the digest is that of the whole. */
  method Hash(parts: seq<seq<Byte>>) returns (digest: seq<Byte>)
    requires forall i :: 0 <= i < |parts| ==> |parts[i]| <= WORD - 64
    ensures digest == Digest(Concat(parts))
  {
    var context := new Context();
    for i := 0 to |parts|
      invariant context.Valid() && context.m == Concat(parts[..i]) && fresh(context) && fresh(context.buffer)
    {
      assert parts[..i + 1][..i] == parts[..i];
      context.Update(parts[i]);
    }
    assert parts[..|parts|] == parts;
    digest := context.Final();
  }
}
