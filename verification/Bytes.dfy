/** Bytes, and 32-bit numbers in the order of the network. */
module Bytes {

  newtype byte = x: int | 0 <= x < 256

  const POW32 := 0x1_0000_0000

  /** get_bt_int: the number in the first four bytes. */
  function BigEndian(s: seq<byte>): (n: nat)
    requires |s| >= 4
    ensures n < POW32
  {
    0x100_0000 * s[0] as nat + 0x1_0000 * s[1] as nat + 0x100 * s[2] as nat + s[3] as nat
  }

  /** put_bt_int */
  function PutInt(n: nat): (s: seq<byte>)
    requires n < POW32
    ensures |s| == 4
  {
    [(n / 0x100_0000) as byte, (n / 0x1_0000 % 0x100) as byte, (n / 0x100 % 0x100) as byte, (n % 0x100) as byte]
  }

  lemma GetPut(n: nat, rest: seq<byte>)
    requires n < POW32
    ensures BigEndian(PutInt(n) + rest) == n
  {
    assert n == 0x100 * (n / 0x100) + n % 0x100;
    assert n / 0x100 == 0x100 * (n / 0x1_0000) + n / 0x100 % 0x100;
    assert n / 0x1_0000 == 0x100 * (n / 0x100_0000) + n / 0x1_0000 % 0x100;
    var s := PutInt(n) + rest;
    assert s[..4] == PutInt(n);
  }

  lemma PutGet(s: seq<byte>)
    requires |s| >= 4
    ensures PutInt(BigEndian(s)) == s[..4]
  {
    var n := BigEndian(s);
    var a, b, c, d := s[0] as nat, s[1] as nat, s[2] as nat, s[3] as nat;
    assert n / 0x100 == 0x1_0000 * a + 0x100 * b + c && n % 0x100 == d;
    assert n / 0x1_0000 == 0x100 * a + b && n / 0x100_0000 == a;
  }

  /** The first byte at which two rows of four differ decides. */
  predicate Earlier(s: seq<byte>, t: seq<byte>)
    requires |s| == |t| == 4
  {
    s[0] < t[0] || (s[0] == t[0] && (s[1] < t[1] || (s[1] == t[1] && (s[2] < t[2] || (s[2] == t[2] && s[3] < t[3])))))
  }

  /** The first byte weighs most. As every number has its four bytes, this and GetPut leave one way only to read them. */
  lemma NetworkOrder(s: seq<byte>, t: seq<byte>)
    requires |s| == |t| == 4
    ensures BigEndian(s) < BigEndian(t) <==> Earlier(s, t)
  {
  }
}
