/**
 The RTT ring buffers (SystemView/SEGGER_RTT.c, memcpy variant): what its writers
 and its reader do to the contents of a ring, as values.
 */
module RttContents {
  import opened Words
  import opened Rings

  /** The buffer after writing `data` at `wr`, wrapping at the end. */
  function Stored(b: seq<u8>, wr: nat, data: seq<u8>): (r: seq<u8>)
    requires wr < |b| && |data| < |b|
    ensures |r| == |b|
  {
    if wr + |data| < |b| then b[..wr] + data + b[wr + |data|..]
    else var rem := |b| - wr; data[rem..] + b[|data| - rem..wr] + data[..rem]
  }

  /** How many of `want` bytes `_WriteBlocking` stores in one turn: no more than fit, nor past the end. */
  function Run(size: nat, rd: nat, wr: nat, want: nat): (n: nat)
    requires rd < size && wr < size
    ensures n <= Free(size, rd, wr) && n <= want && wr + n <= size
    ensures n < want <= Free(size, rd, wr) ==> wr + n == size
    ensures want <= Free(size, rd, wr) && wr == 0 ==> n == want
    ensures n == 0 ==> want == 0 || Free(size, rd, wr) == 0
  {
    var n := if rd > wr then rd - wr - 1 else size - (wr - rd + 1);
    Min(Min(n, size - wr), want)
  }

  lemma PrefixStep(base: seq<u8>, data: seq<u8>, w: nat, n: nat)
    requires w + n <= |data|
    ensures base + data[..w] + data[w..w + n] == base + data[..w + n]
  {
  }

  /** Writing within the free room, wrapping or not, appends to the contents. */
  lemma StoredAppends(b: seq<u8>, rd: nat, wr: nat, data: seq<u8>)
    requires rd < |b| && wr < |b| && |data| <= Free(|b|, rd, wr)
    requires Stored(b, wr, data) == b
    ensures Unread(b, rd, Advance(|b|, wr, |data|)) == Unread(b, rd, wr) + data
    ensures Free(|b|, rd, Advance(|b|, wr, |data|)) == Free(|b|, rd, wr) - |data|
  {
    hide Unread;
    StoredInPlace(b, wr, data);
    if wr + |data| < |b| {
      ChunkAppends(b, rd, wr, data);
    } else {
      var rem := |b| - wr;
      ChunkAppends(b, rd, wr, data[..rem]);
      ChunkAppends(b, rd, 0, data[rem..]);
      Rejoin(Unread(b, rd, wr), data, rem);
    }
  }

  lemma StoredInPlace(b: seq<u8>, wr: nat, data: seq<u8>)
    requires wr < |b| && |data| < |b| && Stored(b, wr, data) == b
    ensures wr + |data| < |b| ==> b[wr..wr + |data|] == data
    ensures wr + |data| >= |b| ==> var rem := |b| - wr;
      b[wr..wr + rem] == data[..rem] && b[0..0 + |data| - rem] == data[rem..]
  {
    var r := Stored(b, wr, data);
    if wr + |data| < |b| {
      assert r[wr..wr + |data|] == data;
    } else {
      var rem := |b| - wr;
      assert r[wr..] == data[..rem];
      assert r[..|data| - rem] == data[rem..];
    }
  }

  /** Storing the same bytes again changes nothing. */
  lemma StoredIdempotent(b: seq<u8>, wr: nat, data: seq<u8>)
    requires wr < |b| && |data| < |b|
    ensures Stored(Stored(b, wr, data), wr, data) == Stored(b, wr, data)
  {
  }

  /** The two runs of slots that hold `data` after it was stored at `wr`. */
  lemma StoredRuns(b: seq<u8>, wr: nat, data: seq<u8>)
    requires wr < |b| && |data| < |b|
    ensures wr + |data| < |b| ==> Stored(b, wr, data) == Splice(b, wr, data)
    ensures wr + |data| >= |b| ==> var rem := |b| - wr;
      Stored(b, wr, data) == Splice(Splice(b, wr, data[..rem]), 0, data[rem..])
  {
  }

  /** How many bytes `SEGGER_RTT_ReadNoLock` takes before the end of the buffer. */
  function FirstRead(size: nat, rd: nat, wr: nat, want: nat): (k: nat)
    requires rd < size && wr < size
    ensures rd + k <= size && k <= want
  {
    if rd > wr then Min(size - rd, want) else 0
  }

  /** Where it goes on reading. */
  function ReadOn(size: nat, rd: nat, wr: nat, want: nat): (r: nat)
    requires rd < size && wr < size
    ensures r < size
  {
    var k := FirstRead(size, rd, wr, want);
    if rd + k == size then 0 else rd + k
  }

  /** The two reads together take the oldest bytes, the wrapped difference included. */
  lemma TwoReads(b: seq<u8>, rd: nat, wr: nat, want: nat)
    requires |b| < 0x1_0000_0000 && rd < |b| && wr < |b| && want < 0x1_0000_0000
    ensures var k := FirstRead(|b|, rd, wr, want); var rd1 := ReadOn(|b|, rd, wr, want);
      var j := Min(Sub32(wr, rd1), want - k);
      && k + j == Min(want, Used(|b|, rd, wr)) && rd1 + j <= |b|
      && b[rd..rd + k] + b[rd1..rd1 + j] == Unread(b, rd, wr)[..k + j]
      && rd1 == Advance(|b|, rd, k)
      && (k + j > 0 ==> rd1 + j == Advance(|b|, rd, k + j))
  {
    var k := FirstRead(|b|, rd, wr, want);
    var rd1 := ReadOn(|b|, rd, wr, want);
    if rd1 <= wr {
      assert Sub32(wr, rd1) == wr - rd1;
    } else {
      assert k == want;
    }
  }

  // ---------------------------------------------------------------------
  // Writing with overwrite

  // ---------------------------------------------------------------------

  /** The last `n` bytes, or all if there are fewer. */
  function Last(s: seq<u8>, n: nat): seq<u8> { if |s| <= n then s else s[|s| - n..] }

  /** Rounds of the overwrite loop after the first: each starts at the front and stops one slot short of the end. */
  function WrapWrites(b: seq<u8>, data: seq<u8>): (r: (seq<u8>, nat))
    requires |b| > 1
    ensures |r.0| == |b| && r.1 < |b| - 1 && r.0[|b| - 1] == b[|b| - 1]
    decreases |data|
  {
    if data == [] then (b, 0)
    else if |b| - 1 > |data| then (Splice(b, 0, data), |data|)
    else WrapWrites(Splice(b, 0, data[..|b| - 1]), data[|b| - 1..])
  }

  /** Buffer and write offset after `SEGGER_RTT_WriteWithOverwriteNoLock`. */
  function OverwriteStore(b: seq<u8>, wr: nat, data: seq<u8>): (r: (seq<u8>, nat))
    requires wr < |b| && (|b| > 1 || |data| <= 1)
    ensures |r.0| == |b| && r.1 < |b|
  {
    Rounds(b, wr, |b| - wr, data)
  }

  /** The loop of the overwriting writer: a round at `wr` that may take `avail` bytes, then rounds from the front. */
  function Rounds(b: seq<u8>, wr: nat, avail: nat, data: seq<u8>): (r: (seq<u8>, nat))
    requires wr < |b| && 0 < avail <= |b| - wr && (|b| > 1 || |data| <= 1)
    ensures |r.0| == |b| && r.1 < |b|
    decreases |data|
  {
    if avail > |data| then (Splice(b, wr, data), wr + |data|)
    else
      var after, rest := Splice(b, wr, data[..avail]), data[avail..];
      if rest == [] then (after, 0) else Rounds(after, 0, |b| - 1, rest)
  }

  /** Rounds from the front are what the loop does after its first. */
  lemma {:induction false} RoundsWrap(b: seq<u8>, data: seq<u8>)
    requires |b| > 1 && data != []
    ensures Rounds(b, 0, |b| - 1, data) == WrapWrites(b, data)
    decreases |data|
  {
    hide Splice;
    var n := |b| - 1;
    if |data| >= n {
      var after, rest := Splice(b, 0, data[..n]), data[n..];
      if rest != [] { RoundsWrap(after, rest); }
    }
  }

  lemma OverwriteRounds(b: seq<u8>, wr: nat, data: seq<u8>)
    requires wr < |b| && |b| > 1
    ensures var rem := |b| - wr;
      OverwriteStore(b, wr, data) == if rem > |data| then (Splice(b, wr, data), wr + |data|)
        else WrapWrites(Splice(b, wr, data[..rem]), data[rem..])
  {
    hide Splice;
    var rem := |b| - wr;
    if rem < |data| { RoundsWrap(Splice(b, wr, data[..rem]), data[rem..]); }
  }

  /** Read offset after it: pushed ahead of the bytes about to be lost, with a sum of 32 bits. */
  function OverwriteRead(size: nat, rd: nat, wr: nat, n: nat): (r: nat)
    requires rd < size && wr < size
    ensures r < size
  {
    var free := Free(size, rd, wr);
    if n > free then (rd + (n - free)) % 0x1_0000_0000 % size else rd
  }

  /** The sum that moves the read offset does not wrap around. */
  predicate Fits32(size: nat, rd: nat, wr: nat, n: nat)
    requires rd < size && wr < size
  {
    n <= Free(size, rd, wr) || rd + (n - Free(size, rd, wr)) < 0x1_0000_0000
  }

  /** The ring keeps the newest bytes of the old contents followed by `data`. */
  ghost predicate KeepsNewest(b: seq<u8>, rd: nat, wr: nat, data: seq<u8>)
    requires rd < |b| && wr < |b| && |b| > 1
  {
    var (b', wr') := OverwriteStore(b, wr, data);
    Unread(b', OverwriteRead(|b|, rd, wr, |data|), wr') == Last(Unread(b, rd, wr) + data, |b| - 1)
  }

  lemma SmallMod(x: nat, n: nat)
    requires n > 0 && x < 2 * n
    ensures x % n == if x < n then x else x - n
  {
    if x >= n { DivModUnique(x, n, 1, x - n); } else { DivModUnique(x, n, 0, x); }
  }

  /** Old bytes that `n` new ones push out. */
  function Lost(size: nat, rd: nat, wr: nat, n: nat): nat
    requires rd < size && wr < size
  {
    var free := Free(size, rd, wr);
    if n > free then n - free else 0
  }

  lemma ReadPastLost(size: nat, rd: nat, wr: nat, n: nat)
    requires rd < size && wr < size && n < size && Fits32(size, rd, wr, n)
    ensures var lost := Lost(size, rd, wr, n); var rd' := OverwriteRead(size, rd, wr, n);
      && lost <= Used(size, rd, wr) && rd' == Advance(size, rd, lost)
      && n <= Free(size, rd', wr)
  {
    var lost := Lost(size, rd, wr, n);
    SmallMod(rd + lost, size);
    if lost > 0 { SmallMod(rd + lost, 0x1_0000_0000); }
  }

  lemma LastOf(s: seq<u8>, t: seq<u8>, lost: nat, n: nat)
    requires lost <= |s| && (lost == 0 ==> |s| + |t| <= n) && (lost > 0 ==> |s| - lost + |t| == n)
    ensures s[lost..] + t == Last(s + t, n)
  {
  }

  lemma KeepsNewestShort(b: seq<u8>, rd: nat, wr: nat, data: seq<u8>)
    requires rd < |b| && wr < |b| && |b| > 1 && |data| < |b| && Fits32(|b|, rd, wr, |data|)
    ensures KeepsNewest(b, rd, wr, data)
  {
    hide Unread, Stored, Splice, OverwriteStore, OverwriteRead, Advance, Last;
    var lost := Lost(|b|, rd, wr, |data|);
    var rd' := OverwriteRead(|b|, rd, wr, |data|);
    ReadPastLost(|b|, rd, wr, |data|);
    TakeFront(b, rd, wr, lost);
    OverwriteIsStored(b, wr, data);
    StoredIdempotent(b, wr, data);
    SameHeld(b, wr, data, rd');
    StoredAppends(Stored(b, wr, data), rd', wr, data);
    LastOf(Unread(b, rd, wr), data, lost, |b| - 1);
  }

  lemma OverwriteIsStored(b: seq<u8>, wr: nat, data: seq<u8>)
    requires wr < |b| && |b| > 1 && |data| < |b|
    ensures OverwriteStore(b, wr, data) == (Stored(b, wr, data), Advance(|b|, wr, |data|))
  {
    hide Stored, Splice, OverwriteStore;
    OverwriteRounds(b, wr, data);
    StoredRuns(b, wr, data);
    if wr + |data| == |b| {
      SpliceNone(Splice(b, wr, data[..|b| - wr]), 0);
    }
  }

  /** Storing into free slots leaves the contents alone until the offset moves. */
  lemma SameHeld(b: seq<u8>, wr: nat, data: seq<u8>, rd: nat)
    requires rd < |b| && wr < |b| && |data| <= Free(|b|, rd, wr)
    ensures Unread(Stored(b, wr, data), rd, wr) == Unread(b, rd, wr)
  {
  }

  lemma LongRead(size: nat, rd: nat, wr: nat, n: nat)
    requires rd < size && wr < size && size <= n && n + wr < 2 * size - 1 && Fits32(size, rd, wr, n)
    ensures OverwriteRead(size, rd, wr, n) == n - (size - wr) + 1
  {
    var rest := n - (size - wr);
    var x := rd + n - Free(size, rd, wr);
    SmallMod(x, 0x1_0000_0000);
    assert x == rest + 1 + size || x == rest + 1;
    if x == rest + 1 + size { DivModUnique(x, size, 1, rest + 1); } else { DivModUnique(x, size, 0, rest + 1); }
  }

  lemma LongStore(b: seq<u8>, wr: nat, data: seq<u8>)
    requires wr < |b| && |b| > 1 && |b| <= |data| && |data| + wr < 2 * |b| - 1
    ensures var rem := |b| - wr;
      OverwriteStore(b, wr, data) == (Splice(Splice(b, wr, data[..rem]), 0, data[rem..]), |data| - rem)
  {
    hide Splice, OverwriteStore;
    var rem := |b| - wr;
    OverwriteRounds(b, wr, data);
    if |data| == rem { SpliceNone(Splice(b, wr, data[..rem]), 0); }
  }

  lemma LongContents(b: seq<u8>, wr: nat, data: seq<u8>)
    requires wr < |b| && |b| > 1 && |b| <= |data| && |data| + wr < 2 * |b| - 1
    ensures var rem := |b| - wr; var rest := |data| - rem;
      Unread(Splice(Splice(b, wr, data[..rem]), 0, data[rem..]), rest + 1, rest) == data[|data| - (|b| - 1)..]
  {
    var rem := |b| - wr;
    var rest := |data| - rem;
    var b' := Splice(Splice(b, wr, data[..rem]), 0, data[rem..]);
    assert b'[rest + 1..] == data[rest + 1 - wr..rem];
    assert b'[..rest] == data[rem..];
    assert data[rest + 1 - wr..] == data[rest + 1 - wr..rem] + data[rem..];
  }

  /** A write that takes up the whole ring but still fits two rounds. */
  lemma KeepsNewestLong(b: seq<u8>, rd: nat, wr: nat, data: seq<u8>)
    requires rd < |b| && wr < |b| && |b| > 1 && |b| <= |data| && |data| + wr < 2 * |b| - 1 && Fits32(|b|, rd, wr, |data|)
    ensures KeepsNewest(b, rd, wr, data)
  {
    hide Unread, Splice, OverwriteStore, OverwriteRead;
    LongRead(|b|, rd, wr, |data|);
    LongStore(b, wr, data);
    LongContents(b, wr, data);
    assert Last(Unread(b, rd, wr) + data, |b| - 1) == data[|data| - (|b| - 1)..];
  }

  /** `n` zero bytes but for a one at `mark`. */
  function Marked(n: nat, mark: nat): (data: seq<u8>)
    ensures |data| == n
  {
    seq(n, i => if i == mark then 1 else 0)
  }

  lemma NewestZeros(s: seq<u8>, n: nat, mark: nat, keep: nat)
    requires keep <= n && mark < n - keep
    ensures |Last(s + Marked(n, mark), keep)| == keep
    ensures forall x <- Last(s + Marked(n, mark), keep) :: x == 0
  {
    assert Last(s + Marked(n, mark), keep) == Marked(n, mark)[n - keep..];
  }

  lemma MarkStored(b: seq<u8>, wr: nat, n: nat)
    requires wr < |b| && |b| - wr <= n
    ensures Splice(b, wr, Marked(n, |b| - 1 - wr)[..|b| - wr])[|b| - 1] == 1
  {
  }

  /** A longer write loses its place: some data of that length does not survive. */
  lemma TooLong(b: seq<u8>, rd: nat, wr: nat, n: nat) returns (data: seq<u8>)
    requires rd < |b| && wr < |b| && |b| > 1 && n + wr >= 2 * |b| - 1
    ensures |data| == n && !KeepsNewest(b, rd, wr, data)
  {
    hide Unread, Splice, WrapWrites, Marked, Last, OverwriteRead, OverwriteStore;
    var size, rem := |b|, |b| - wr;
    var mark := size - 1 - wr;
    data := Marked(n, mark);
    MarkStored(b, wr, n);
    NewestZeros(Unread(b, rd, wr), n, mark, size - 1);
    OverwriteRounds(b, wr, data);
    var (b', wr') := WrapWrites(Splice(b, wr, data[..rem]), data[rem..]);
    StaleByte(b', OverwriteRead(size, rd, wr, n), wr', Last(Unread(b, rd, wr) + data, size - 1));
  }

  /** The last slot is never rewritten after the first round, and it is still in the ring. */
  lemma StaleByte(b: seq<u8>, rd: nat, wr: nat, newest: seq<u8>)
    requires rd < |b| && wr < |b| - 1 && b[|b| - 1] == 1
    requires |newest| == |b| - 1 && forall x <- newest :: x == 0
    ensures Unread(b, rd, wr) != newest
  {
    hide Unread;
    if |Unread(b, rd, wr)| == |b| - 1 {
      HeldIn(b, rd, wr, |b| - 1);
    }
  }

  lemma HeldIn(b: seq<u8>, rd: nat, wr: nat, p: nat)
    requires rd < |b| && wr < |b| && p < |b| && Held(rd, wr, p)
    ensures b[p] in Unread(b, rd, wr)
  {
    if rd <= wr {
      assert Unread(b, rd, wr)[p - rd] == b[p];
    } else if rd <= p {
      assert Unread(b, rd, wr)[p - rd] == b[p];
    } else {
      assert Unread(b, rd, wr)[|b| - rd + p] == b[p];
    }
  }

  /** One round of the loop. */
  lemma RoundsStep(b: seq<u8>, wr: nat, avail: nat, data: seq<u8>)
    requires wr < |b| && 0 < avail <= |b| - wr && (|b| > 1 || |data| <= 1)
    ensures Rounds(b, wr, avail, data) ==
      if avail > |data| then (Splice(b, wr, data), wr + |data|)
      else if |data| == avail then (Splice(b, wr, data[..avail]), 0)
      else Rounds(Splice(b, wr, data[..avail]), 0, |b| - 1, data[avail..])
  {
    hide Splice;
  }

  lemma NewestAre(b: seq<u8>, rd: nat, wr: nat, data: seq<u8>)
    requires rd < |b| && wr < |b| && |b| > 1 && KeepsNewest(b, rd, wr, data)
    ensures var (b', wr') := OverwriteStore(b, wr, data);
      Unread(b', OverwriteRead(|b|, rd, wr, |data|), wr') == Last(Unread(b, rd, wr) + data, |b| - 1)
  {
  }

  /** A difference that wraps below zero wraps back when the size is added. */
  lemma WrapsBack(rd: u32, wr: u32, size: u32)
    requires rd < wr < size
    ensures Add32(Sub32(Sub32(rd, wr), 1), size) == rd - wr - 1 + size
  {
  }

  /** Where the write offset ends, for a write that keeps to two rounds. */
  lemma OverwriteEnd(b: seq<u8>, wr: nat, data: seq<u8>)
    requires wr < |b| && |b| > 1 && |data| + wr < 2 * |b| - 1
    ensures OverwriteStore(b, wr, data).1 == if wr + |data| < |b| then wr + |data| else wr + |data| - |b|
  {
    hide OverwriteStore, Stored, Splice;
    if |data| < |b| { OverwriteIsStored(b, wr, data); } else { LongStore(b, wr, data); }
  }

  /** A ring holds all it can only if the read offset stands right behind the write offset. */
  lemma FullOffsets(size: nat, rd: nat, wr: nat)
    requires rd < size && wr < size
    ensures Used(size, rd, wr) == size - 1 <==> rd == if wr + 1 < size then wr + 1 else 0
  {
  }

  /** When the sum for the read offset wraps around, the ring loses its place. */
  lemma WrappedSum(b: seq<u8>, rd: nat, wr: nat, data: seq<u8>)
    requires |b| < 0x1_0000_0000 && rd < |b| && wr < |b| && |b| > 1
    requires |data| + wr < 2 * |b| - 1 && !Fits32(|b|, rd, wr, |data|)
    ensures !KeepsNewest(b, rd, wr, data)
  {
    hide Unread, OverwriteStore;
    var size, n := |b|, |data|;
    var x := rd + (n - Free(size, rd, wr));
    SmallMod(x, 0x1_0000_0000);
    SmallMod(x - 0x1_0000_0000, size);
    OverwriteEnd(b, wr, data);
    FullOffsets(size, OverwriteRead(size, rd, wr, n), OverwriteStore(b, wr, data).1);
    assert |Last(Unread(b, rd, wr) + data, size - 1)| == size - 1;
  }

  /**
   Overwriting keeps the newest bytes for all data of length `n` exactly when `n`
   ends before the second pass over the ring would be full and the sum for the read
   offset keeps to 32 bits; in particular for every `n` below a ring size of at
   most 2^31.
   */
  lemma OverwriteExact(b: seq<u8>, rd: nat, wr: nat, n: nat)
    requires rd < |b| && wr < |b| && 1 < |b| < 0x1_0000_0000
    ensures (forall data :: |data| == n ==> KeepsNewest(b, rd, wr, data))
       <==> n + wr < 2 * |b| - 1 && Fits32(|b|, rd, wr, n)
    ensures n < |b| <= 0x8000_0000 ==> n + wr < 2 * |b| - 1 && Fits32(|b|, rd, wr, n)
  {
    hide KeepsNewest;
    if n + wr >= 2 * |b| - 1 {
      var data := TooLong(b, rd, wr, n);
    } else if !Fits32(|b|, rd, wr, n) {
      var data := Marked(n, 0);
      WrappedSum(b, rd, wr, data);
    } else {
      forall data: seq<u8> | |data| == n ensures KeepsNewest(b, rd, wr, data) {
        if n < |b| { KeepsNewestShort(b, rd, wr, data); } else { KeepsNewestLong(b, rd, wr, data); }
      }
    }
  }
}

/**
 One ring shared by the target, which writes, and the host, which reads. Memory is
 sequentially consistent. The host may advance `rdOff` before any access the
 target makes, between any two byte stores included: `HostReads` stands at each
 of those points and takes any number of unread bytes.
 */
module RttRing {
  import opened Words
  import opened Rings
  import opened RttContents

  /** Buffer flags; the numeric values are in a header. */
  datatype Mode = Skip | Trim | Block | OtherMode

  class Ring {
    const buf: array<u8>
    var wrOff: nat
    var rdOff: nat
    /** Every byte ever put into the ring, and the prefix of it the reader has taken. */
    ghost var accepted: seq<u8>
    ghost var taken: seq<u8>

    ghost predicate Valid()
      reads this, buf
    {
      && 0 < buf.Length < 0x1_0000_0000
      && wrOff < buf.Length && rdOff < buf.Length
      && accepted == taken + Contents()
    }

    /** What the reader can still take. */
    ghost function Contents(): seq<u8>
      requires wrOff < buf.Length && rdOff < buf.Length
      reads this, buf
    {
      Unread(buf[..], rdOff, wrOff)
    }

    ghost function Room(): nat
      requires wrOff < buf.Length && rdOff < buf.Length
      reads this
    {
      Free(buf.Length, rdOff, wrOff)
    }

    constructor (size: nat)
      requires 0 < size < 0x1_0000_0000
      ensures Valid() && fresh(buf) && buf.Length == size && accepted == [] && Room() == size - 1
    {
      buf := new u8[size];
      wrOff, rdOff := 0, 0;
      accepted, taken := [], [];
    }

    /** The host has done nothing but take bytes: in order, and never one that was not there. */
    twostate predicate OnlyTaken()
      requires old(Valid())
      reads this, buf
    {
      && Valid() && wrOff == old(wrOff) && accepted == old(accepted)
      && old(taken) <= taken && Room() >= old(Room())
    }

    /** The host takes `k` of the unread bytes, the oldest. */
    method HostTakes(k: nat)
      requires Valid() && k <= |Contents()|
      modifies this`rdOff, this`taken
      ensures OnlyTaken() && buf[..] == old(buf[..])
      ensures taken == old(taken) + old(Contents())[..k] && Contents() == old(Contents())[k..]
    {
      assert |buf[..]| == buf.Length;
      TakeFront(buf[..], rdOff, wrOff, k);
      taken := taken + Contents()[..k];
      rdOff := Advance(buf.Length, rdOff, k);
    }

    /** The host takes any number of them. */
    method HostReads()
      requires Valid()
      modifies this`rdOff, this`taken
      ensures OnlyTaken()
    {
      var k: nat :| k <= Used(buf.Length, rdOff, wrOff);
      HostTakes(k);
    }

    /** `memcpy` into free slots, `j` places past the write offset, with the host reading between the bytes. */
    method CopyIn(at: nat, src: seq<u8>, ghost j: nat)
      requires Valid() && j + |src| <= Room() && at + |src| <= buf.Length
      requires src != [] ==> at == Advance(buf.Length, wrOff, j)
      modifies this`rdOff, this`taken, buf
      ensures OnlyTaken()
      ensures buf[..] == Splice(old(buf[..]), at, src)
    {
      hide Unread, Used, Free, Held, Splice;
      ghost var before := buf[..];
      var i: nat := 0;
      SpliceNone(before, at);
      HostReads();
      while i < |src|
        invariant i <= |src| && OnlyTaken()
        invariant src[..0] == [] && buf[..] == Splice(before, at, src[..i])
      {
        FreeSlot(buf.Length, rdOff, wrOff, j + i);
        SpliceSnoc(before, at, src[..i], src[i]);
        assert src[..i + 1] == src[..i] + [src[i]];
        Store(at + i, src[i]);
        HostReads();
        i := i + 1;
      }
      assert src[..i] == src;
    }

    method Store(p: nat, x: u8)
      requires Valid() && p < buf.Length && !Held(rdOff, wrOff, p)
      modifies buf
      ensures Valid() && buf[..] == old(buf[..])[p := x]
    {
      ghost var was := buf[..];
      buf[p] := x;
      SameContents(was, buf[..], rdOff, wrOff);
    }

    /** Publish a new write offset once the bytes before it are in place. */
    method Publish(wr: nat, ghost data: seq<u8>)
      requires Valid() && wrOff + |data| <= buf.Length && |data| <= Room()
      requires buf[wrOff..wrOff + |data|] == data && wr == Advance(buf.Length, wrOff, |data|)
      modifies this`wrOff, this`accepted
      ensures Valid() && wrOff == wr && accepted == old(accepted) + data
      ensures Room() == old(Room()) - |data|
    {
      ChunkAppends(buf[..], rdOff, wrOff, data);
      wrOff := wr;
      accepted := accepted + data;
    }

    /** `_GetAvailWriteSpace`: a lower bound on the room, exact when `rdOff` is read. */
    method GetAvailWriteSpace() returns (r: nat)
      requires Valid()
      modifies this`rdOff, this`taken
      ensures OnlyTaken() && r == old(Room()) <= Room()
    {
      var rd := rdOff;
      HostReads();
      var wr := wrOff;
      if rd <= wr {
        r := buf.Length - 1 - wr + rd;
      } else {
        r := rd - wr - 1;
      }
    }

    /** One turn of the loop in `_WriteBlocking`: copy a run of bytes, wrap the offset, publish it. */
    method WriteChunk(wr: nat, chunk: seq<u8>) returns (wr': nat)
      requires Valid() && wr == wrOff && wr + |chunk| <= buf.Length && |chunk| <= Room()
      modifies this`wrOff, this`rdOff, this`accepted, this`taken, buf
      ensures Valid() && old(taken) <= taken && accepted == old(accepted) + chunk
      ensures wr' == wrOff < buf.Length && (wr + |chunk| == buf.Length ==> wr' == 0)
      ensures Room() >= old(Room()) - |chunk|
    {
      hide Unread, Used, Free;
      CopyIn(wr, chunk, 0);
      wr' := wr + |chunk|;
      if wr' == buf.Length {
        wr' := 0;
      }
      Publish(wr', chunk);
    }

    /** The host has read at least a byte of a full ring. */
    method HostReadsOne()
      requires Valid()
      modifies this`rdOff, this`taken
      ensures OnlyTaken() && (buf.Length > 1 ==> Room() > 0)
    {
      HostReads();
      if rdOff == if wrOff + 1 < buf.Length then wrOff + 1 else 0 {
        if buf.Length > 1 {
          TakeFront(buf[..], rdOff, wrOff, 1);
          taken := taken + Contents()[..1];
          rdOff := Advance(buf.Length, rdOff, 1);
        }
      }
    }

    /**
     `_WriteBlocking`, cut off after `rounds` turns of its loop, since the C loop
     waits for ever when the host never reads. Whatever the host does, the bytes
     go in once and in order, and two turns suffice when there is room at the
     start. If the host is `eager`, so that it never leaves the ring full for a
     whole turn, a turn for each byte suffices.
     */
    method WriteBlocking(data: seq<u8>, rounds: nat, eager: bool := false) returns (written: nat, done: bool)
      requires Valid()
      modifies this`wrOff, this`rdOff, this`accepted, this`taken, buf
      ensures Valid() && old(taken) <= taken
      ensures written <= |data| && accepted == old(accepted) + data[..written]
      ensures done ==> written == |data|
      ensures rounds >= 2 && |data| <= old(Room()) ==> done
      ensures eager && buf.Length > 1 && rounds > 0 && rounds >= |data| ==> done
      ensures done && |data| <= old(Room()) ==> Room() >= old(Room()) - |data|
    {
      hide Unread, Used, Free, Run, Advance;
      var numBytes: nat := |data|;
      var wr := wrOff;
      var r := rounds;
      written, done := 0, false;
      while r > 0 && !done
        invariant Valid() && old(taken) <= taken && wr == wrOff
        invariant written + numBytes == |data| && accepted == old(accepted) + data[..written]
        invariant r <= rounds && (done ==> numBytes == 0)
        invariant |data| <= old(Room()) ==> Room() >= old(Room()) - written
        invariant |data| <= old(Room()) && !done ==> r == rounds || (wr == 0 && r == rounds - 1)
        invariant eager && buf.Length > 1 && !done ==> written >= rounds - r && (r < rounds ==> numBytes > 0)
        decreases r
      {
        var n;
        n, wr := Turn(data[written..], wr, eager);
        PrefixStep(old(accepted), data, written, n);
        assert data[written..][..n] == data[written..written + n];
        written, numBytes := written + n, numBytes - n;
        r := r - 1;
        done := numBytes == 0;
      }
    }

    /** The body of that loop: the host's offset is read once and may be stale by the time it is used. */
    method Turn(left: seq<u8>, wr: nat, eager: bool) returns (n: nat, wr': nat)
      requires Valid() && wr == wrOff
      modifies this`wrOff, this`rdOff, this`accepted, this`taken, buf
      ensures Valid() && old(taken) <= taken && wr' == wrOff && n <= |left|
      ensures accepted == old(accepted) + left[..n] && Room() >= old(Room()) - n
      ensures |left| <= old(Room()) && n < |left| ==> wr != 0 && wr' == 0
      ensures (eager && buf.Length > 1) || old(Room()) > 0 ==> n > 0 || left == []
    {
      hide Unread, Used, Free, Run, Advance;
      if eager { HostReadsOne(); } else { HostReads(); }
      var rd := rdOff;
      HostReads();
      n := Run(buf.Length, rd, wr, |left|);
      wr' := WriteChunk(wr, left[..n]);
    }

    /** Publish data stored by one or two copies. */
    method PublishStored(wr: nat, ghost before: seq<u8>, ghost data: seq<u8>)
      requires Valid() && |before| == buf.Length && |data| <= Room()
      requires buf[..] == Stored(before, wrOff, data) && wr == Advance(buf.Length, wrOff, |data|)
      modifies this`wrOff, this`accepted
      ensures Valid() && wrOff == wr && accepted == old(accepted) + data
      ensures Room() == old(Room()) - |data|
    {
      hide Unread, Used, Free, Stored;
      StoredIdempotent(before, wrOff, data);
      StoredAppends(buf[..], rdOff, wrOff, data);
      wrOff := wr;
      accepted := accepted + data;
    }

    /** Store bytes that end before the end of the buffer. */
    method StoreStraight(data: seq<u8>)
      requires Valid() && |data| <= Room() && wrOff + |data| < buf.Length
      modifies this`wrOff, this`rdOff, this`accepted, this`taken, buf
      ensures Wrote(data)
    {
      hide Unread, Used, Free, Stored, Splice;
      ghost var before := buf[..];
      CopyIn(wrOff, data, 0);
      StoredRuns(before, wrOff, data);
      PublishStored(wrOff + |data|, before, data);
    }

    /** Store bytes that reach the end of the buffer, in two copies. */
    method StoreWrapped(data: seq<u8>)
      requires Valid() && |data| <= Room() && wrOff + |data| >= buf.Length
      modifies this`wrOff, this`rdOff, this`accepted, this`taken, buf
      ensures Wrote(data)
    {
      hide Unread, Used, Stored, Splice;
      ghost var before := buf[..];
      var rem := buf.Length - wrOff;
      CopyIn(wrOff, data[..rem], 0);
      CopyIn(0, data[rem..], rem);
      StoredRuns(before, wrOff, data);
      PublishStored(|data| - rem, before, data);
    }

    /** All of `data` went in: buffer bytes, write offset, and history. */
    twostate predicate Wrote(data: seq<u8>)
      requires old(Valid()) && |data| <= old(Room())
      reads this, buf
    {
      && Valid() && old(taken) <= taken && accepted == old(accepted) + data
      && buf[..] == Stored(old(buf[..]), old(wrOff), data)
      && wrOff == Advance(buf.Length, old(wrOff), |data|)
      && Room() >= old(Room()) - |data|
    }

    /** `_WriteNoCheck`; its callers have checked the room. */
    method WriteNoCheck(data: seq<u8>)
      requires Valid() && |data| <= Room()
      modifies this`wrOff, this`rdOff, this`accepted, this`taken, buf
      ensures Wrote(data)
    {
      var rem := buf.Length - wrOff;
      if rem > |data| {
        StoreStraight(data);
      } else {
        StoreWrapped(data);
      }
    }

    /**
     `SEGGER_RTT_WriteSkipNoLock`: all or nothing, and it accepts exactly when
     `_GetAvailWriteSpace` would report enough room.
     */
    method WriteSkipNoLock(data: seq<u8>) returns (status: bool)
      requires Valid()
      modifies this`wrOff, this`rdOff, this`accepted, this`taken, buf
      ensures status <==> |data| <= old(Room())
      ensures status ==> Wrote(data)
      ensures !status ==> OnlyTaken() && buf[..] == old(buf[..])
    {
      hide Unread, Stored, Splice;
      var rd, wr := rdOff, wrOff;
      var avail;
      if rd <= wr {
        avail := buf.Length - 1 - wr;
        if avail >= |data| {
          StoreStraight(data);
          return true;
        }
        avail := avail + rd;
        if avail >= |data| {
          var rem := buf.Length - wr;
          if rem > |data| {
            assert false;      // no caller gets here: the first test would have accepted
          } else {
            StoreWrapped(data);
          }
          return true;
        }
      } else {
        avail := rd - wr - 1;
        if avail >= |data| {
          StoreStraight(data);
          return true;
        }
      }
      HostReads();
      return false;
    }

    /** `SEGGER_RTT_WriteNoLock`: skip, trim or block according to the buffer's mode. */
    method WriteNoLock(mode: Mode, data: seq<u8>, rounds: nat, eager: bool := false) returns (status: nat, done: bool)
      requires Valid()
      modifies this`wrOff, this`rdOff, this`accepted, this`taken, buf
      ensures Valid() && old(taken) <= taken
      ensures mode != Block ==> done
      ensures status <= |data| && accepted == old(accepted) + data[..status]
      ensures mode == Skip ==> status == if |data| <= old(Room()) then |data| else 0
      ensures mode == Trim ==> status == Min(|data|, old(Room()))
      ensures mode == Block && done ==> status == |data|
      ensures rounds >= 2 && |data| <= old(Room()) ==> done
      ensures eager && buf.Length > 1 && rounds > 0 && rounds >= |data| ==> done
      ensures mode == OtherMode ==> status == 0
    {
      done := true;
      match mode
      case Skip =>
        var avail := GetAvailWriteSpace();
        if avail < |data| {
          status := 0;
        } else {
          status := |data|;
          WriteNoCheck(data);
        }
        assert data[..|data|] == data;
      case Trim =>
        var avail := GetAvailWriteSpace();
        status := if avail < |data| then avail else |data|;
        WriteNoCheck(data[..status]);
      case Block =>
        status, done := WriteBlocking(data, rounds, eager);
      case OtherMode =>
        status := 0;
    }

    /**
     `SEGGER_RTT_WriteWithOverwriteNoLock`, which must not run beside a reading
     host; a one-slot ring would loop for ever on two bytes.
     */
    method WriteWithOverwriteNoLock(data: seq<u8>)
      requires Valid() && (buf.Length > 1 || |data| <= 1) && |data| < 0x1_0000_0000
      modifies this`wrOff, this`rdOff, this`accepted, buf
      ensures Valid()
      ensures (buf[..], wrOff) == OverwriteStore(old(buf[..]), old(wrOff), data)
      ensures rdOff == OverwriteRead(buf.Length, old(rdOff), old(wrOff), |data|)
      ensures buf.Length > 1 && |data| + old(wrOff) < 2 * buf.Length - 1
              && Fits32(buf.Length, old(rdOff), old(wrOff), |data|) ==>
                Contents() == Last(old(Contents()) + data, buf.Length - 1)
    {
      hide Unread, Rounds, OverwriteRead, KeepsNewest;
      ghost var before, wr0, rd0 := buf[..], wrOff, rdOff;
      PushReadOffset(|data|);
      StoreRounds(data);
      accepted := taken + Contents();
      if buf.Length > 1 && |data| + wr0 < 2 * buf.Length - 1 && Fits32(buf.Length, rd0, wr0, |data|) {
        OverwriteExact(before, rd0, wr0, |data|);
        NewestAre(before, rd0, wr0, data);
      }
    }

    /** The second part: all data in rounds, the last one short. */
    method StoreRounds(data: seq<u8>)
      requires 0 < buf.Length < 0x1_0000_0000 && wrOff < buf.Length && (buf.Length > 1 || |data| <= 1)
      modifies this`wrOff, buf
      ensures (buf[..], wrOff) == Rounds(old(buf[..]), old(wrOff), buf.Length - old(wrOff), data)
      ensures wrOff < buf.Length
    {
      hide Splice, Rounds;
      var avail := buf.Length - wrOff;
      ghost var goal := Rounds(buf[..], wrOff, avail, data);
      var left := data;
      var more := true;
      assert goal.1 < buf.Length;
      while more
        invariant |left| <= |data| && (buf.Length > 1 || |left| <= 1)
        invariant more ==> wrOff < buf.Length && 0 < avail <= buf.Length - wrOff
        invariant more ==> Rounds(buf[..], wrOff, avail, left) == goal
        invariant !more ==> (buf[..], wrOff) == goal
        decreases more, |left|
      {
        RoundsStep(buf[..], wrOff, avail, left);
        if avail > |left| {
          PutBytes(wrOff, left);
          wrOff := wrOff + |left|;
          more := false;
        } else {
          PutBytes(wrOff, left[..avail]);
          wrOff := 0;
          left := left[avail..];
          avail := buf.Length - 1;
          more := |left| > 0;
        }
      }
    }

    /** The first part of the overwriting writer: move `rdOff` past what is about to be lost. */
    method PushReadOffset(n: u32)
      requires 0 < buf.Length < 0x1_0000_0000 && rdOff < buf.Length && wrOff < buf.Length
      modifies this`rdOff
      ensures rdOff == OverwriteRead(buf.Length, old(rdOff), wrOff, n) < buf.Length
    {
      var avail: u32;
      if wrOff == rdOff {
        avail := buf.Length - 1;
      } else if wrOff < rdOff {
        avail := rdOff - wrOff - 1;
      } else {
        avail := Add32(Sub32(Sub32(rdOff, wrOff), 1), buf.Length);
        WrapsBack(rdOff, wrOff, buf.Length);
      }
      if n > avail {
        rdOff := Add32(rdOff, n - avail);
        ghost var x := rdOff;
        while rdOff >= buf.Length
          invariant rdOff % buf.Length == x % buf.Length
        {
          ModAdd(rdOff - buf.Length, buf.Length, 1);
          rdOff := rdOff - buf.Length;
        }
        SmallMod(rdOff, buf.Length);
      }
    }

    /** `memcpy` into the buffer. */
    method PutBytes(at: nat, src: seq<u8>)
      requires at + |src| <= buf.Length
      modifies buf
      ensures buf[..] == Splice(old(buf[..]), at, src)
    {
      hide Splice;
      ghost var before := buf[..];
      var i: nat := 0;
      SpliceNone(before, at);
      while i < |src|
        invariant i <= |src| && src[..0] == [] && buf[..] == Splice(before, at, src[..i])
      {
        SpliceSnoc(before, at, src[..i], src[i]);
        assert src[..i + 1] == src[..i] + [src[i]];
        buf[at + i] := src[i];
        i := i + 1;
      }
      assert src[..i] == src;
    }

    /** On a ring that the host fills, it has done nothing but add bytes. */
    twostate predicate OnlyAdded()
      requires old(Valid())
      reads this, buf
    {
      && Valid() && rdOff == old(rdOff) && taken == old(taken)
      && old(accepted) <= accepted && old(Contents()) <= Contents()
    }

    /** The host changes free slots as it likes and publishes any number of them. */
    method HostWrites()
      requires Valid()
      modifies this`wrOff, this`accepted, buf
      ensures OnlyAdded()
    {
      hide Unread, Used, Free;
      var was := buf[..];
      var b: seq<u8> :| |b| == buf.Length && forall p: nat :: p < |b| && Held(rdOff, wrOff, p) ==> was[p] == b[p];
      forall p | 0 <= p < buf.Length { buf[p] := b[p]; }
      assert buf[..] == b;
      SameContents(was, b, rdOff, wrOff);
      var k: nat :| k <= Free(buf.Length, rdOff, wrOff);
      MorePublished(b, rdOff, wrOff, k);
      wrOff := Advance(buf.Length, wrOff, k);
      accepted := taken + Contents();
    }

    /**
     `SEGGER_RTT_ReadNoLock`, while the host may add bytes before every access: the
     oldest bytes, as many as fit the caller's buffer. `seen` is what the ring held
     when the write offset was read. When the buffer fills before the wrap,
     `WrOff - RdOff` underflows and the minimum with zero discards it.
     */
    method ReadNoLock(dst: array<u8>, bufferSize: u32) returns (numBytesRead: nat, ghost seen: seq<u8>)
      requires Valid() && bufferSize <= dst.Length && dst != buf
      modifies this`rdOff, this`taken, this`wrOff, this`accepted, buf, dst
      ensures Valid() && old(accepted) <= accepted
      ensures old(Contents()) <= seen && old(taken) + seen <= accepted
      ensures numBytesRead == Min(bufferSize, |seen|)
      ensures dst[..numBytesRead] == seen[..numBytesRead]
      ensures dst[numBytesRead..] == old(dst[numBytesRead..])
      ensures taken == old(taken) + dst[..numBytesRead] && seen[numBytesRead..] <= Contents()
    {
      hide Unread, Used, Splice, Advance, Min;
      ghost var before := dst[..];
      HostWrites();
      var rd;
      numBytesRead, rd, seen := CopyOldest(dst, bufferSize);
      ghost var got := seen[..numBytesRead];
      SpliceJoin(before, got, []);
      TakeFront(buf[..], rdOff, wrOff, numBytesRead);
      PrefixTail(seen, Contents(), numBytesRead);
      if numBytesRead > 0 {
        taken := taken + got;
        rdOff := rd;
      }
    }

    /** The copying part of `SEGGER_RTT_ReadNoLock`, up to the wrap and past it. */
    method CopyOldest(dst: array<u8>, bufferSize: u32) returns (numBytesRead: nat, rd: nat, ghost seen: seq<u8>)
      requires Valid() && bufferSize <= dst.Length && dst != buf
      modifies this`wrOff, this`accepted, buf, dst
      ensures seen == old(Contents()) && OnlyAdded()
      ensures numBytesRead == Min(bufferSize, |seen|)
      ensures numBytesRead > 0 ==> rd == Advance(buf.Length, rdOff, numBytesRead)
      ensures dst[..] == Splice(old(dst[..]), 0, seen[..numBytesRead])
    {
      hide Unread, Used, Splice, Advance, FirstRead, ReadOn, Min;
      ghost var before := dst[..];
      var wr := wrOff;
      seen := Contents();
      TwoReads(buf[..], rdOff, wr, bufferSize);
      numBytesRead, rd := CopyToEnd(dst, bufferSize, wr, seen);
      ghost var k := numBytesRead;
      var rem := Min(Sub32(wr, rd), bufferSize - numBytesRead);
      if rem > 0 {
        CopyOut(dst, numBytesRead, rd, rem, seen);
        numBytesRead, rd := numBytesRead + rem, rd + rem;
      } else {
        SpliceNone(dst[..], k);
      }
      SpliceJoin(before, seen[..k], seen[k..k + rem]);
      assert seen[..k] + seen[k..k + rem] == seen[..k + rem];
    }

    /** Read from the current position up to the wrap. */
    method CopyToEnd(dst: array<u8>, bufferSize: u32, wr: nat, ghost seen: seq<u8>) returns (n: nat, rd: nat)
      requires Valid() && bufferSize <= dst.Length && dst != buf && wr == wrOff && seen == Contents()
      modifies this`wrOff, this`accepted, buf, dst
      ensures OnlyAdded()
      ensures n == FirstRead(buf.Length, rdOff, wr, bufferSize) <= |seen|
      ensures rd == ReadOn(buf.Length, rdOff, wr, bufferSize)
      ensures dst[..] == Splice(old(dst[..]), 0, seen[..n])
    {
      hide Unread, Splice;
      SpliceNone(dst[..], 0);
      rd, n := rdOff, 0;
      if rd > wr {
        n := Min(buf.Length - rd, bufferSize);
        CopyOut(dst, 0, rd, n, seen);
        rd := rd + n;
        if rd == buf.Length {
          rd := 0;
        }
      } else {
        HostWrites();
      }
    }

    /** `memcpy` out of the ring, with the host adding bytes in between. */
    method CopyOut(dst: array<u8>, at: nat, from: nat, n: nat, ghost seen: seq<u8>)
      requires Valid() && seen <= Contents() && at + n <= |seen|
      requires at + n <= dst.Length && from + n <= buf.Length && dst != buf
      requires n > 0 ==> from == Advance(buf.Length, rdOff, at)
      modifies this`wrOff, this`accepted, buf, dst
      ensures OnlyAdded()
      ensures dst[..] == Splice(old(dst[..]), at, seen[at..at + n])
    {
      hide Splice, Unread, Used, Free;
      ghost var before := dst[..];
      var i: nat := 0;
      SpliceNone(before, at);
      HostWrites();
      while i < n
        invariant i <= n && OnlyAdded() && seen[at..at + 0] == []
        invariant dst[..] == Splice(before, at, seen[at..at + i])
      {
        ReadsHeld(buf[..], rdOff, wrOff, at + i);
        assert buf[from + i] == Contents()[at + i] == seen[at + i];
        SpliceSnoc(before, at, seen[at..at + i], seen[at + i]);
        assert seen[at..at + i + 1] == seen[at..at + i] + [seen[at + i]];
        dst[at + i] := buf[from + i];
        HostWrites();
        i := i + 1;
      }
    }
  }

  lemma PrefixTail<T>(x: seq<T>, y: seq<T>, n: nat)
    requires x <= y && n <= |x|
    ensures x[..n] == y[..n] && x[n..] <= y[n..]
  {
  }
}
