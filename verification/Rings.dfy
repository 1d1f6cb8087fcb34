/**
 A ring of bytes between a read and a write offset, as values. One slot always
 stays empty.
 */
module Rings {
  import opened Words

  /** The bytes between the read and the write offset, oldest first. */
  function Unread(b: seq<u8>, rd: nat, wr: nat): (s: seq<u8>)
    requires rd < |b| && wr < |b|
    ensures |s| == Used(|b|, rd, wr)
  {
    if rd <= wr then b[rd..wr] else b[rd..] + b[..wr]
  }

  function Used(size: nat, rd: nat, wr: nat): (u: nat)
    requires rd < size && wr < size
    ensures u < size
  {
    if rd <= wr then wr - rd else size - rd + wr
  }

  /** Room left: one slot always stays empty. */
  function Free(size: nat, rd: nat, wr: nat): (f: nat)
    requires rd < size && wr < size
    ensures f < size
  {
    size - 1 - Used(size, rd, wr)
  }

  /** An offset moved forward around the ring by less than twice its size. */
  function Advance(size: nat, off: nat, k: nat): (r: nat)
    requires off < size && k <= size
    ensures r < size
  {
    if off + k < size then off + k else off + k - size
  }

  /** The buffer with `data` written at `at`, not reaching past the end. */
  function Splice(b: seq<u8>, at: nat, data: seq<u8>): (r: seq<u8>)
    requires at + |data| <= |b|
    ensures |r| == |b|
  {
    b[..at] + data + b[at + |data|..]
  }

  lemma SpliceSnoc(b: seq<u8>, at: nat, data: seq<u8>, x: u8)
    requires at + |data| < |b|
    ensures Splice(b, at, data)[at + |data| := x] == Splice(b, at, data + [x])
  {
  }

  lemma SpliceNone(b: seq<u8>, at: nat)
    requires at <= |b|
    ensures Splice(b, at, []) == b
  {
  }

  /** The slot at `p` holds a byte the reader has not taken yet. */
  predicate Held(rd: nat, wr: nat, p: nat) {
    if rd <= wr then rd <= p < wr else p < wr || rd <= p
  }

  /** Taking `k` bytes leaves the rest of the contents. */
  lemma TakeFront(b: seq<u8>, rd: nat, wr: nat, k: nat)
    requires rd < |b| && wr < |b| && k <= Used(|b|, rd, wr)
    ensures Unread(b, Advance(|b|, rd, k), wr) == Unread(b, rd, wr)[k..]
    ensures Used(|b|, Advance(|b|, rd, k), wr) == Used(|b|, rd, wr) - k
  {
    if rd <= wr {
      assert b[rd..wr][k..] == b[rd + k..wr];
    } else if rd + k < |b| {
      assert (b[rd..] + b[..wr])[k..] == b[rd + k..] + b[..wr];
    } else {
      assert (b[rd..] + b[..wr])[k..] == b[rd + k - |b|..wr];
    }
  }

  /** The slots from the write offset on, as many as there is room for, hold nothing. */
  lemma FreeSlot(size: nat, rd: nat, wr: nat, j: nat)
    requires rd < size && wr < size && j <= Free(size, rd, wr)
    ensures !Held(rd, wr, Advance(size, wr, j))
  {
  }

  function Min(a: nat, b: nat): (m: nat)
    ensures m <= a && m <= b && (m == a || m == b)
  {
    if a < b then a else b
  }

  /** Two buffers that agree on the held slots have the same contents. */
  lemma SameContents(b: seq<u8>, b': seq<u8>, rd: nat, wr: nat)
    requires rd < |b| && wr < |b| && |b'| == |b|
    requires forall p: nat :: p < |b| && Held(rd, wr, p) ==> b[p] == b'[p]
    ensures Unread(b, rd, wr) == Unread(b', rd, wr)
  {
    if rd <= wr {
      assert forall p: nat :: rd <= p < wr ==> Held(rd, wr, p);
      assert b[rd..wr] == b'[rd..wr];
    } else {
      assert forall p: nat :: p < wr || rd <= p < |b| ==> Held(rd, wr, p);
      assert b[rd..] == b'[rd..] && b[..wr] == b'[..wr];
    }
  }

  /** Moving the write offset past bytes already in place appends them to the contents. */
  lemma ChunkAppends(b: seq<u8>, rd: nat, wr: nat, data: seq<u8>)
    requires rd < |b| && wr < |b| && wr + |data| <= |b| && |data| <= Free(|b|, rd, wr)
    requires b[wr..wr + |data|] == data
    ensures Unread(b, rd, Advance(|b|, wr, |data|)) == Unread(b, rd, wr) + data
    ensures Free(|b|, rd, Advance(|b|, wr, |data|)) == Free(|b|, rd, wr) - |data|
  {
    var end := wr + |data|;
    if rd > wr {
      assert b[..end] == b[..wr] + data;
      assert b[rd..] + b[..wr] + data == b[rd..] + (b[..wr] + data);
    } else {
      assert b[rd..end] == b[rd..wr] + data;
      if end == |b| { assert b[rd..] + b[..0] == b[rd..end]; }
    }
  }

  lemma Rejoin(base: seq<u8>, data: seq<u8>, k: nat)
    requires k <= |data|
    ensures base + data[..k] + data[k..] == base + data
  {
    assert data == data[..k] + data[k..];
  }

  /** The bytes the reader takes lie from the read offset on. */
  lemma ReadsHeld(b: seq<u8>, rd: nat, wr: nat, j: nat)
    requires rd < |b| && wr < |b| && j < Used(|b|, rd, wr)
    ensures Unread(b, rd, wr)[j] == b[Advance(|b|, rd, j)]
  {
  }

  /** Whatever stands in the free slots, publishing some of it keeps what was there. */
  lemma MorePublished(b: seq<u8>, rd: nat, wr: nat, k: nat)
    requires rd < |b| && wr < |b| && k <= Free(|b|, rd, wr)
    ensures Unread(b, rd, wr) <= Unread(b, rd, Advance(|b|, wr, k))
  {
    if rd > wr {
      assert b[rd..] + b[..wr + k] == b[rd..] + b[..wr] + b[wr..wr + k];
    } else if wr + k < |b| {
      assert b[rd..wr + k] == b[rd..wr] + b[wr..wr + k];
    } else {
      assert b[rd..] + b[..wr + k - |b|] == b[rd..wr] + (b[wr..] + b[..wr + k - |b|]);
    }
  }

  lemma SpliceJoin(b: seq<u8>, x: seq<u8>, y: seq<u8>)
    requires |x| + |y| <= |b|
    ensures Splice(Splice(b, 0, x), |x|, y) == Splice(b, 0, x + y)
    ensures Splice(b, 0, x)[..|x|] == x && Splice(b, 0, x)[|x|..] == b[|x|..]
    ensures Splice(b, |x|, []) == b
  {
  }

  lemma Within<T>(x: seq<T>, n: nat, i: nat, j: nat)
    requires i <= j <= n <= |x|
    ensures x[..n][i..j] == x[i..j]
  {
  }
}
