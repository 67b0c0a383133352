/** SHA-1 as the standard describes it (FIPS PUB 180-1) and as sha1.c computes it. */
module Sha1 {

  type Byte = bv8
  type Word = bv32

  function Rol(x: Word, n: Word): Word
    requires 0 < n < 32
  {
    (x << n) | (x >> (32 - n))
  }

  function BigWord(b0: Byte, b1: Byte, b2: Byte, b3: Byte): Word {
    (b0 as Word << 24) | (b1 as Word << 16) | (b2 as Word << 8) | b3 as Word
  }

  // Section 5: the functions and constants of the rounds.

  function F(t: nat, b: Word, c: Word, d: Word): Word
    requires t < 80
  {
    if t < 20 then (b & c) | (!b & d)
    else if t < 40 then b ^ c ^ d
    else if t < 60 then (b & c) | (b & d) | (c & d)
    else b ^ c ^ d
  }

  function K(t: nat): Word
    requires t < 80
  {
    if t < 20 then 0x5A827999 else if t < 40 then 0x6ED9EBA1 else if t < 60 then 0x8F1BBCDC else 0xCA62C1D6
  }

  datatype Regs = Regs(a: Word, b: Word, c: Word, d: Word, e: Word)

  // Section 7: the schedule of 80 words, and the rounds on shifting registers.

  function BlockWord(block: seq<Byte>, t: nat): Word
    requires |block| == 64 && t < 16
  {
    BigWord(block[4 * t], block[4 * t + 1], block[4 * t + 2], block[4 * t + 3])
  }

  function Expand(w3: Word, w8: Word, w14: Word, w16: Word): Word {
    Rol(w3 ^ w8 ^ w14 ^ w16, 1)
  }

  function Schedule(block: seq<Byte>, t: nat): Word
    requires |block| == 64
  {
    if t < 16 then BlockWord(block, t)
    else Expand(Schedule(block, t - 3), Schedule(block, t - 8), Schedule(block, t - 14), Schedule(block, t - 16))
  }

  function Temp(a: Word, f: Word, e: Word, w: Word, k: Word): Word {
    a + f + e + w + k
  }

  function Round(t: nat, r: Regs, w: Word): Regs
    requires t < 80
  {
    Regs(Temp(Rol(r.a, 5), F(t, r.b, r.c, r.d), r.e, w, K(t)), r.a, Rol(r.b, 30), r.c, r.d)
  }

  function Rounds(t: nat, r: Regs, block: seq<Byte>): Regs
    requires |block| == 64 && t <= 80
  {
    if t == 0 then r else Round(t - 1, Rounds(t - 1, r, block), Schedule(block, t - 1))
  }

  function Compress(h: Regs, block: seq<Byte>): Regs
    requires |block| == 64
  {
    Plus(h, Rounds(80, h, block))
  }

  function Plus(h: Regs, r: Regs): Regs {
    Regs(h.a + r.a, h.b + r.b, h.c + r.c, h.d + r.d, h.e + r.e)
  }

  const INITIAL := Regs(0x67452301, 0xEFCDAB89, 0x98BADCFE, 0x10325476, 0xC3D2E1F0)

  // The transformation in sixteen words and with registers that change their names instead of moving.

  function LittleWord(b0: Byte, b1: Byte, b2: Byte, b3: Byte): Word {
    BigWord(b3, b2, b1, b0)
  }

  /** blk0 */
  function Swap(x: Word): Word {
    (Rol(x, 24) & 0xFF00FF00) | (Rol(x, 8) & 0x00FF00FF)
  }

  lemma SwapBytes(b0: Byte, b1: Byte, b2: Byte, b3: Byte)
    ensures Swap(LittleWord(b0, b1, b2, b3)) == BigWord(b0, b1, b2, b3)
  {
  }

  /** What the macros R0 to R4 use in place of the functions of the standard. */
  function Mix(i: nat, w: Word, x: Word, y: Word): Word
    requires i < 80
  {
    if i < 20 then (w & (x ^ y)) ^ y
    else if i < 40 then w ^ x ^ y
    else if i < 60 then ((w | x) & y) | (w & x)
    else w ^ x ^ y
  }

  lemma Choose(w: Word, x: Word, y: Word)
    ensures (w & (x ^ y)) ^ y == (w & x) | (!w & y)
  {
  }

  lemma Majority(w: Word, x: Word, y: Word)
    ensures ((w | x) & y) | (w & x) == (w & x) | (w & y) | (x & y)
  {
  }

  lemma MixIsF(i: nat, w: Word, x: Word, y: Word)
    requires i < 80
    ensures Mix(i, w, x, y) == F(i, w, x, y)
  {
    Choose(w, x, y);
    Majority(w, x, y);
  }

  /** The workspace after `i` rounds: words of the block not yet swapped, and the last sixteen of the schedule. */
  ghost predicate Workspace(l: seq<Word>, block: seq<Byte>, i: nat)
    requires |block| == 64
  {
    && |l| == 16
    && (forall j :: i <= j < 16 ==>
      l[j] == LittleWord(block[4 * j], block[4 * j + 1], block[4 * j + 2], block[4 * j + 3]))
    && (forall t {:trigger Schedule(block, t)} :: 0 <= t < i && i <= t + 16 ==> l[t % 16] == Schedule(block, t))
  }

  lemma ModDiffer(t: nat, i: nat)
    requires t < i < t + 16
    ensures t % 16 != i % 16
  {
  }

  lemma WorkspaceStep(l: seq<Word>, block: seq<Byte>, i: nat, w: Word)
    requires |block| == 64 && Workspace(l, block, i) && w == Schedule(block, i)
    ensures Workspace(l[i % 16 := w], block, i + 1)
  {
    hide Schedule, BigWord;
    var m := l[i % 16 := w];
    forall t {:trigger Schedule(block, t)} | 0 <= t < i + 1 && i + 1 <= t + 16 ensures m[t % 16] == Schedule(block, t) {
      if t < i {
        ModDiffer(t, i);
      }
    }
  }

  /** Where the words are that the next one is made from. */
  lemma WorkspaceWords(l: seq<Word>, block: seq<Byte>, i: nat)
    requires |block| == 64 && Workspace(l, block, i) && i >= 16
    ensures Schedule(block, i) == Expand(l[(i + 13) % 16], l[(i + 8) % 16], l[(i + 2) % 16], l[i % 16])
  {
    hide Expand, BigWord;
    assert (i + 13) % 16 == (i - 3) % 16 && (i + 8) % 16 == (i - 8) % 16 && (i + 2) % 16 == (i - 14) % 16;
    assert i % 16 == (i - 16) % 16;
    assert l[(i - 3) % 16] == Schedule(block, i - 3) && l[(i - 8) % 16] == Schedule(block, i - 8);
    assert l[(i - 14) % 16] == Schedule(block, i - 14) && l[(i - 16) % 16] == Schedule(block, i - 16);
  }

  /** blk0 and blk: the next word of the schedule, put where it takes its place. */
  method Blk(l: array<Word>, i: nat, ghost block: seq<Byte>) returns (w: Word)
    requires |block| == 64 && i < 80 && Workspace(l[..], block, i)
    modifies l
    ensures w == Schedule(block, i) && l.Length == 16 && Workspace(l[..], block, i + 1)
  {
    hide Expand, BigWord, Swap;
    ghost var s := l[..];
    if i < 16 {
      SwapBytes(block[4 * i], block[4 * i + 1], block[4 * i + 2], block[4 * i + 3]);
      w := Swap(l[i]);
    } else {
      WorkspaceWords(s, block, i);
      w := Expand(l[(i + 13) % 16], l[(i + 8) % 16], l[(i + 2) % 16], l[i % 16]);
    }
    WorkspaceStep(s, block, i, w);
    l[i % 16] := w;
    assert l[..] == s[i % 16 := w];
  }

  /** What the macros add to a register. */
  function Sum(z: Word, mix: Word, blk: Word, k: Word, rol: Word): Word {
    z + (mix + blk + k + rol)
  }

  lemma SumIsTemp(z: Word, mix: Word, blk: Word, k: Word, rol: Word)
    ensures Sum(z, mix, blk, k, rol) == Temp(rol, mix, z, blk, k)
  {
  }

  /** R0 to R4 */
  method R(l: array<Word>, v: Word, w: Word, x: Word, y: Word, z: Word, i: nat, ghost block: seq<Byte>)
    returns (w1: Word, z1: Word)
    requires |block| == 64 && i < 80 && Workspace(l[..], block, i)
    modifies l
    ensures Regs(z1, v, w1, x, y) == Round(i, Regs(v, w, x, y, z), Schedule(block, i))
    ensures l.Length == 16 && Workspace(l[..], block, i + 1)
  {
    hide Rol, Mix, F, K, Workspace, Schedule, Sum, Temp;
    var blk := Blk(l, i, block);
    MixIsF(i, w, x, y);
    SumIsTemp(z, Mix(i, w, x, y), blk, K(i), Rol(v, 5));
    z1 := Sum(z, Mix(i, w, x, y), blk, K(i), Rol(v, 5));
    w1 := Rol(w, 30);
  }

  /** SHA1Transform */
  method Transform(state: Regs, buffer: seq<Byte>) returns (after: Regs)
    requires |buffer| == 64
    ensures after == Compress(state, buffer)
  {
    hide Round, Rounds, Schedule, LittleWord, Workspace, Plus;
    var l := new Word[16](i requires 0 <= i < 16 =>
      LittleWord(buffer[4 * i], buffer[4 * i + 1], buffer[4 * i + 2], buffer[4 * i + 3]));
    WorkspaceStart(l[..], buffer);
    var a, b, c, d, e := state.a, state.b, state.c, state.d, state.e;
    NoRounds(state, buffer);
    var i := 0;
    while i < 80
      invariant i % 5 == 0 && i <= 80 && l.Length == 16 && Workspace(l[..], buffer, i)
      invariant Regs(a, b, c, d, e) == Rounds(i, state, buffer)
    {
      FiveRounds(i, state, buffer);
      b, e := R(l, a, b, c, d, e, i, buffer);
      a, d := R(l, e, a, b, c, d, i + 1, buffer);
      e, c := R(l, d, e, a, b, c, i + 2, buffer);
      d, b := R(l, c, d, e, a, b, i + 3, buffer);
      c, a := R(l, b, c, d, e, a, i + 4, buffer);
      i := i + 5;
    }
    after := Plus(state, Regs(a, b, c, d, e));
  }

  lemma WorkspaceStart(l: seq<Word>, block: seq<Byte>)
    requires |block| == 64 && |l| == 16
    requires forall j :: 0 <= j < 16 ==>
      l[j] == LittleWord(block[4 * j], block[4 * j + 1], block[4 * j + 2], block[4 * j + 3])
    ensures Workspace(l, block, 0)
  {
    hide LittleWord;
  }

  lemma NoRounds(r: Regs, block: seq<Byte>)
    requires |block| == 64
    ensures Rounds(0, r, block) == r
  {
  }

  lemma FiveRounds(t: nat, r: Regs, block: seq<Byte>)
    requires |block| == 64 && t + 5 <= 80
    ensures var r1 := Round(t, Rounds(t, r, block), Schedule(block, t));
      var r2 := Round(t + 1, r1, Schedule(block, t + 1));
      var r3 := Round(t + 2, r2, Schedule(block, t + 2));
      var r4 := Round(t + 3, r3, Schedule(block, t + 3));
      Rounds(t + 5, r, block) == Round(t + 4, r4, Schedule(block, t + 4))
  {
    hide *;
    OneRound(t, r, block);
    OneRound(t + 1, r, block);
    OneRound(t + 2, r, block);
    OneRound(t + 3, r, block);
    OneRound(t + 4, r, block);
  }

  lemma OneRound(t: nat, r: Regs, block: seq<Byte>)
    requires |block| == 64 && t < 80
    ensures Rounds(t + 1, r, block) == Round(t, Rounds(t, r, block), Schedule(block, t))
  {
    hide Round, Schedule;
  }
}
