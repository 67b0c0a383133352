/** Bytes as rows of eight bits, the first one highest (bitfield.cpp). */
module Bits {
  import opened Sets

  /** BIT_HEX[k] */
  function Mask(k: nat): bv8
    requires k < 8
  {
    if k == 0 then 0x80 else if k == 1 then 0x40 else if k == 2 then 0x20 else if k == 3 then 0x10
    else if k == 4 then 0x08 else if k == 5 then 0x04 else if k == 6 then 0x02 else 0x01
  }

  predicate Bit(v: bv8, k: nat)
    requires k < 8
  {
    v & Mask(k) != 0
  }

  /** The bytes whose first `n` bits are set, and no other. */
  function Leading(n: nat): bv8
    requires 0 < n < 8
  {
    !(Mask(n - 1) - 1)
  }

  lemma BitOps(v: bv8, w: bv8, k: nat)
    requires k < 8
    ensures Bit(v | w, k) <==> Bit(v, k) || Bit(w, k)
    ensures Bit(v & w, k) <==> Bit(v, k) && Bit(w, k)
    ensures Bit(!v, k) <==> !Bit(v, k)
    ensures !Bit(0, k) && Bit(0xff, k)
  {
    hide Mask;
    OneBit(k);
    BitsOf(v, w, Mask(k));
  }

  /** A mask is a single bit. */
  lemma OneBit(k: nat)
    requires k < 8
    ensures Single(Mask(k))
  {
  }

  predicate Single(m: bv8) {
    m != 0 && m & (m - 1) == 0
  }

  lemma BitsOf(v: bv8, w: bv8, m: bv8)
    requires Single(m)
    ensures (v | w) & m != 0 <==> v & m != 0 || w & m != 0
    ensures (v & w) & m != 0 <==> v & m != 0 && w & m != 0
    ensures !v & m != 0 <==> v & m == 0
    ensures 0 & m == 0 && 0xff & m != 0
  {
  }

  lemma BitLeading(n: nat, k: nat)
    requires 0 < n < 8 && k < 8
    ensures Bit(Leading(n), k) <==> k < n
  {
  }

  function One(v: bv8, k: nat): nat
    requires k < 8
  {
    if Bit(v, k) then 1 else 0
  }

  /** The number that the first `k` bits of a byte stand for. */
  function Value(v: bv8, k: nat): nat
    requires k <= 8
  {
    if k == 0 then 0 else 2 * Value(v, k - 1) + One(v, k - 1)
  }

  lemma ValueIs(v: bv8)
    ensures Value(v, 8) == v as nat
  {
    hide Value;
    ValueSum(v);
  }

  lemma ValueSum(v: bv8)
    ensures Value(v, 8) == 128 * One(v, 0) + 64 * One(v, 1) + 32 * One(v, 2) + 16 * One(v, 3) +
      8 * One(v, 4) + 4 * One(v, 5) + 2 * One(v, 6) + One(v, 7)
  {
    hide One;
    assert Value(v, 1) == One(v, 0);
    assert Value(v, 2) == 2 * Value(v, 1) + One(v, 1);
    assert Value(v, 3) == 2 * Value(v, 2) + One(v, 2);
    assert Value(v, 4) == 2 * Value(v, 3) + One(v, 3);
    assert Value(v, 5) == 2 * Value(v, 4) + One(v, 4);
    assert Value(v, 6) == 2 * Value(v, 5) + One(v, 5);
    assert Value(v, 7) == 2 * Value(v, 6) + One(v, 6);
  }

  /** How many ones there are in the binary form of `n`. */
  function Ones(n: nat): nat {
    if n == 0 then 0 else n % 2 + Ones(n / 2)
  }

  function Pow2(i: nat): (p: nat)
    ensures p > 0
  {
    if i == 0 then 1 else 2 * Pow2(i - 1)
  }

  lemma OnesStep(m: nat, r: nat)
    requires r < 2
    ensures Ones(2 * m + r) == r + Ones(m)
  {
  }

  /** A leading one more. */
  lemma {:induction false} OnesHigh(i: nat, j: nat)
    requires j < Pow2(i)
    ensures Ones(Pow2(i) + j) == Ones(j) + 1
  {
    if i > 0 {
      OnesHigh(i - 1, j / 2);
      OnesStep(Pow2(i - 1) + j / 2, j % 2);
      OnesStep(j / 2, j % 2);
    }
  }

  /** How many of the first `k` bits of a byte are set. */
  function BitsIn(v: bv8, k: nat): nat
    requires k <= 8
  {
    if k == 0 then 0 else BitsIn(v, k - 1) + One(v, k - 1)
  }

  lemma {:induction false} OnesValue(v: bv8, k: nat)
    requires k <= 8
    ensures Ones(Value(v, k)) == BitsIn(v, k)
  {
    if k > 0 {
      OnesValue(v, k - 1);
      OnesStep(Value(v, k - 1), One(v, k - 1));
    }
  }

  /** Bit `i` of a row of bytes. */
  predicate BitAt(s: seq<bv8>, i: nat)
    requires i < 8 * |s|
  {
    Bit(s[i / 8], i % 8)
  }

  /** The places below `n` whose bits are set. */
  ghost function Members(s: seq<bv8>, n: nat): (r: set<nat>)
    requires n <= 8 * |s|
    ensures forall i :: i in r ==> i < n
  {
    set i: nat | i < n && BitAt(s, i)
  }

  lemma MembersStep(s: seq<bv8>, n: nat)
    requires n < 8 * |s|
    ensures Members(s, n + 1) == if BitAt(s, n) then Members(s, n) + {n} else Members(s, n)
    ensures n !in Members(s, n)
    ensures |Members(s, n + 1)| == |Members(s, n)| + if BitAt(s, n) then 1 else 0
  {
  }

  lemma {:induction false} MembersByte(s: seq<bv8>, j: nat, k: nat)
    requires j < |s| && k <= 8
    ensures |Members(s, 8 * j + k)| == |Members(s, 8 * j)| + BitsIn(s[j], k)
  {
    hide Bit, Members;
    if k > 0 {
      MembersByte(s, j, k - 1);
      MembersStep(s, 8 * j + k - 1);
    }
  }

  /** How many bytes hold `n` bits. */
  function BytesFor(n: nat): nat {
    if n % 8 != 0 then n / 8 + 1 else n / 8
  }

  lemma BytesHold(n: nat)
    ensures n <= 8 * BytesFor(n)
  {
  }

  /** Nothing is set from place `n` on. */
  ghost predicate Clean(s: seq<bv8>, n: nat) {
    forall i: nat :: n <= i < 8 * |s| ==> !BitAt(s, i)
  }

  /** How the bits of one row of bytes come from those of another. */
  lemma MembersWhere(s: seq<bv8>, n: nat, r: set<nat>)
    requires n <= 8 * |s| && forall i: nat :: i < n ==> (BitAt(s, i) <==> i in r)
    requires forall i :: i in r ==> i < n
    ensures Members(s, n) == r
  {
  }

  lemma {:induction false} MembersMonotone(s: seq<bv8>, i: nat, n: nat)
    requires i <= n <= 8 * |s|
    ensures Members(s, i) <= Members(s, n) && |Members(s, i)| <= |Members(s, n)| <= n
    decreases n - i
  {
    Subset(Members(s, i), Members(s, n));
    Subset(Members(s, n), Below(n));
  }

  lemma BitChange(s: seq<bv8>, t: seq<bv8>, i: nat, on: bool)
    requires |s| == |t| && i < 8 * |s|
    requires forall j :: 0 <= j < |s| && j != i / 8 ==> t[j] == s[j]
    requires t[i / 8] == if on then s[i / 8] | Mask(i % 8) else s[i / 8] & !Mask(i % 8)
    ensures forall k: nat :: k < 8 * |s| ==> (BitAt(t, k) <==> if k == i then on else BitAt(s, k))
  {
    hide Bit, Mask;
    forall k: nat | k < 8 * |s| ensures BitAt(t, k) <==> if k == i then on else BitAt(s, k) {
      var q, r, p, c := i / 8, i % 8, k / 8, k % 8;
      assert k == i <==> p == q && c == r;
      ByteChange(s[p], r, c);
    }
  }

  lemma ByteChange(v: bv8, r: nat, c: nat)
    requires r < 8 && c < 8
    ensures Bit(v | Mask(r), c) <==> c == r || Bit(v, c)
    ensures Bit(v & !Mask(r), c) <==> c != r && Bit(v, c)
  {
  }

  /** What writing one bit does to what is set. */
  lemma BitPut(s: seq<bv8>, t: seq<bv8>, n: nat, i: nat, on: bool)
    requires |s| == |t| && i < n <= 8 * |s| && Clean(s, n)
    requires forall j :: 0 <= j < |s| && j != i / 8 ==> t[j] == s[j]
    requires t[i / 8] == if on then s[i / 8] | Mask(i % 8) else s[i / 8] & !Mask(i % 8)
    ensures Clean(t, n) && forall k: nat :: k < n ==> (BitAt(t, k) <==> if k == i then on else BitAt(s, k))
    ensures Members(t, n) == if on then Members(s, n) + {i} else Members(s, n) - {i}
  {
    BitChange(s, t, i, on);
    hide Bit, BitAt, Mask;
    MembersWhere(t, n, if on then Members(s, n) + {i} else Members(s, n) - {i});
  }

  /** Bytes combined one by one. */
  datatype Op = OrOp | AndOp | ExceptOp | NotOp

  function Combine(op: Op, v: bv8, w: bv8): bv8 {
    match op
    case OrOp => v | w
    case AndOp => v & w
    case ExceptOp => v & !w
    case NotOp => !v
  }

  /** What that means for sets. */
  ghost function CombineSets(op: Op, a: set<nat>, c: set<nat>, all: set<nat>): set<nat> {
    match op
    case OrOp => a + c
    case AndOp => a * c
    case ExceptOp => a - c
    case NotOp => all - a
  }

  predicate Decide(op: Op, x: bool, y: bool) {
    match op
    case OrOp => x || y
    case AndOp => x && y
    case ExceptOp => x && !y
    case NotOp => !x
  }

  lemma BitCombine(op: Op, v: bv8, w: bv8, k: nat)
    requires k < 8
    ensures Bit(Combine(op, v, w), k) <==> Decide(op, Bit(v, k), Bit(w, k))
  {
    hide Bit;
    BitOps(v, w, k);
    BitOps(w, 0, k);
    BitOps(v, !w, k);
  }

  lemma MembersCombine(op: Op, s: seq<bv8>, t: seq<bv8>, r: seq<bv8>, n: nat)
    requires |s| == |t| == |r| && n <= 8 * |s|
    requires forall j :: 0 <= j < |s| ==> r[j] == Combine(op, s[j], t[j])
    ensures Members(r, n) == CombineSets(op, Members(s, n), Members(t, n), Below(n))
    ensures Clean(s, n) && Clean(t, n) && !op.NotOp? ==> Clean(r, n)
  {
    hide Bit, Combine;
    forall i: nat | i < 8 * |s| ensures BitAt(r, i) <==> Decide(op, BitAt(s, i), BitAt(t, i)) {
      BitCombine(op, s[i / 8], t[i / 8], i % 8);
    }
    hide BitAt;
    assert forall i: nat :: i < n ==> (i in Members(r, n) <==> Decide(op, i in Members(s, n), i in Members(t, n)));
  }
}
