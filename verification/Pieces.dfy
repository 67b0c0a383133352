/** The division of a torrent into pieces (btcontent.cpp, GetPieceLength and its users). */
module Pieces {

  type pos = x: int | 0 < x witness 1

  /** The piece that holds the torrent offset `off`. */
  function PieceOf(off: nat, pieceLength: pos): nat {
    off / pieceLength
  }

  /** How many pieces a torrent of `total` bytes has. */
  function NPieces(total: nat, pieceLength: pos): nat {
    (total + pieceLength - 1) / pieceLength
  }

  /** GetPieceLength: every piece is full length, except a last piece that the total does not fill. */
  function PieceLen(total: nat, pieceLength: pos, npieces: nat, idx: nat): nat {
    if idx == npieces - 1 && idx == total / pieceLength then total % pieceLength else pieceLength
  }

  lemma DivRange(x: nat, q: nat, d: pos)
    requires x / d == q
    ensures q * d <= x < q * d + d && x == q * d + x % d
  {
  }

  lemma MulCancel(d: nat, x: nat, y: nat)
    requires d * x < d * y
    ensures x < y
  {
  }

  lemma MulMonotone(d: nat, x: nat, y: nat)
    requires x <= y
    ensures d * x <= d * y
  {
  }

  lemma DivMonotone(a: nat, b: nat, d: pos)
    requires a <= b
    ensures a / d <= b / d
  {
    DivRange(a, a / d, d);
    DivRange(b, b / d, d);
    MulCancel(d, a / d, b / d + 1);
  }

  lemma DivExact(q: nat, r: nat, d: pos)
    requires r < d
    ensures (q * d + r) / d == q && (q * d + r) % d == r
  {
    DivRange(q * d + r, (q * d + r) / d, d);
    MulCancel(d, q, (q * d + r) / d + 1);
    MulCancel(d, (q * d + r) / d, q + 1);
  }

  lemma DivPlus(k: nat, y: nat, d: pos)
    ensures (k * d + y) / d == k + y / d && (k * d + y) % d == y % d
  {
    DivRange(y, y / d, d);
    assert k * d + y == (k + y / d) * d + y % d;
    DivExact(k + y / d, y % d, d);
  }

  lemma DivDiv(n: nat, a: pos, b: pos)
    ensures a * b > 0 && n / a / b == n / (a * b)
  {
    var q, q2 := n / a, n / a / b;
    var r, r2 := n % a, q % b;
    DivRange(n, q, a);
    DivRange(q, q2, b);
    MulMonotone(a, r2 + 1, b);
    assert n == q2 * (a * b) + (a * r2 + r);
    DivExact(q2, a * r2 + r, a * b);
  }

  /** A digit does not depend on what lies far above it. */
  lemma Digit(x: nat, a: pos, b: pos, c: pos)
    ensures a * (b * c) > 0 && x % (a * (b * c)) / a % b == x / a % b
  {
    var m: pos := a * (b * c);
    var q, r := x / m, x % m;
    DivRange(x, q, m);
    assert x == q * (b * c) * a + r;
    DivPlus(q * (b * c), r, a);
    assert q * (b * c) == q * c * b;
    DivPlus(q * c, r / a, b);
  }

  /** If `n` parts of `d` are needed, all but the last full, then no more than it takes to fill `l`. */
  lemma PartsMost(n: nat, d: pos, l: nat)
    requires n > 0 && (n - 1) * d < l
    ensures n <= l / d + if l % d == 0 then 0 else 1
  {
    var q := l / d;
    DivRange(l, q, d);
    if l % d == 0 {
      MulCancel(d, n - 1, q);
    } else {
      assert (n - 1) * d < (q + 1) * d;
      MulCancel(d, n - 1, q + 1);
    }
  }

  /** What lies between two offsets of a piece lies in that piece. */
  lemma PieceBetween(a: nat, i: nat, b: nat, pieceLength: pos)
    requires a <= i <= b && PieceOf(a, pieceLength) == PieceOf(b, pieceLength)
    ensures PieceOf(i, pieceLength) == PieceOf(a, pieceLength)
  {
    DivMonotone(a, i, pieceLength);
    DivMonotone(i, b, pieceLength);
  }

  lemma NPiecesCases(total: nat, pieceLength: pos)
    ensures NPieces(total, pieceLength) == total / pieceLength + if total % pieceLength == 0 then 0 else 1
  {
    var q, r := total / pieceLength, total % pieceLength;
    DivRange(total, q, pieceLength);
    if r == 0 {
      DivExact(q, pieceLength - 1, pieceLength);
    } else {
      assert total + pieceLength - 1 == (q + 1) * pieceLength + (r - 1);
      DivExact(q + 1, r - 1, pieceLength);
    }
  }

  /** Piece `idx` is non-empty and ends at its full length or at the end of the torrent. */
  lemma PieceEnd(total: nat, pieceLength: pos, idx: nat)
    requires idx < NPieces(total, pieceLength)
    ensures var len := PieceLen(total, pieceLength, NPieces(total, pieceLength), idx);
      && 0 < len <= pieceLength
      && idx * pieceLength + len == (if idx + 1 == NPieces(total, pieceLength) then total else (idx + 1) * pieceLength)
      && idx * pieceLength + len <= total
  {
    NPiecesCases(total, pieceLength);
    hide NPieces;
    var q := total / pieceLength;
    DivRange(total, q, pieceLength);
    if idx < q {
      MulMonotone(pieceLength, idx + 1, q);
    }
  }

  /** The lengths of the first `k` pieces, added up. */
  function SumLens(total: nat, pieceLength: pos, k: nat): nat {
    if k == 0 then 0
    else SumLens(total, pieceLength, k - 1) + PieceLen(total, pieceLength, NPieces(total, pieceLength), k - 1)
  }

  /** The pieces tile the torrent: piece `k` starts where the first `k` end, and all of them make up the total. */
  lemma {:induction false} PiecesTile(total: nat, pieceLength: pos, k: nat)
    requires k <= NPieces(total, pieceLength)
    ensures SumLens(total, pieceLength, k) == if k == NPieces(total, pieceLength) then total else k * pieceLength
  {
    if k > 0 {
      PiecesTile(total, pieceLength, k - 1);
      PieceEnd(total, pieceLength, k - 1);
    } else if NPieces(total, pieceLength) == 0 {
      DivRange(total + pieceLength - 1, 0, pieceLength);
    }
  }

  /** A slice of an existing piece stays in that piece and in the torrent. */
  lemma SliceInPiece(total: nat, pieceLength: pos, idx: nat, off: nat, len: nat)
    requires idx < NPieces(total, pieceLength)
    requires 0 < len && off + len <= PieceLen(total, pieceLength, NPieces(total, pieceLength), idx)
    ensures PieceOf(idx * pieceLength + off, pieceLength) == idx == PieceOf(idx * pieceLength + off + len - 1, pieceLength)
    ensures idx * pieceLength + off + len <= total
  {
    PieceEnd(total, pieceLength, idx);
    DivExact(idx, off, pieceLength);
    DivExact(idx, off + len - 1, pieceLength);
  }
}
