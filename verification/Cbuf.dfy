/**
 The circular buffer of XBee/xbee_cbuf.c as a value: both indices run from 0 up to
 and including `mask + 1`, and are read modulo `mask + 1`.
 */
module CbufContents {
  import opened Words
  import opened Rings

  /** `data` is the buffer and the one byte that happens to follow it. */
  datatype Cbuf = Cbuf(data: seq<u8>, head: nat, tail: nat) {
    predicate Good() { |data| >= 5 && head < |data| && tail < |data| }

    /** `mask + 1` */
    function Size(): (n: nat)
      requires Good()
      ensures n >= 4
    {
      |data| - 1
    }

    function Buffer(): (b: seq<u8>)
      requires Good()
      ensures |b| == Size()
    {
      data[..Size()]
    }

    function Index(i: nat): (r: nat)
      requires Good() && i <= Size()
      ensures r < Size()
    {
      if i == Size() then 0 else i
    }

    /** The bytes put and not yet got, oldest first. */
    function Contents(): (s: seq<u8>)
      requires Good()
      ensures |s| < Size()
    {
      Unread(Buffer(), Index(head), Index(tail))
    }

    /** After `xbee_cbuf_put` of `bytes`, no more than there is room for. */
    function Put(bytes: seq<u8>): (r: Cbuf)
      requires Good() && |bytes| <= Size() - 1 - |Contents()|
      ensures r.Good() && r.Size() == Size()
    {
      var room := Size() - tail;
      if |bytes| > room then
        Cbuf(Splice(Splice(data, tail, bytes[..room]), 0, bytes[room..]), head, |bytes| - room)
      else
        Cbuf(Splice(data, tail, bytes), head, tail + |bytes|)
    }

    /** After `xbee_cbuf_get` of `k` bytes, no more than there are. */
    function Drop(k: nat): (r: Cbuf)
      requires Good() && k <= |Contents()|
      ensures r.Good() && r.Size() == Size()
    {
      var room := Size() - head;
      if k > room then this.(head := k - room) else this.(head := head + k)
    }

    /** The `k` bytes from the head on. */
    function Front(k: nat): (s: seq<u8>)
      requires Good() && k < Size()
      ensures |s| == k
    {
      var room := Size() - head;
      if k > room then data[head..Size()] + data[..k - room] else data[head..head + k]
    }

    /** `(i + 1) & mask` */
    function Next(i: nat): (r: nat)
      requires Good() && i <= Size()
      ensures r < Size()
    {
      if i + 1 < Size() then i + 1 else i + 1 - Size()
    }

    /** What `xbee_cbuf_putch` does, from any state. */
    function Putch(ch: u8): (r: (Cbuf, bool))
      requires Good()
      ensures r.0.Good() && r.0.Size() == Size()
    {
      var s := this.(data := data[tail := ch]);
      if Next(tail) == head then (s, false) else (s.(tail := Next(tail)), true)
    }

    /** What `xbee_cbuf_getch` does, from any state; -1 for an empty buffer. */
    function Getch(): (r: (Cbuf, int))
      requires Good()
      ensures r.0.Good() && r.0.Size() == Size()
    {
      if head == tail then (this, -1) else (this.(head := Next(head)), data[head] as int)
    }
  }

  /** A first-in first-out queue that holds one byte less than the buffer has. */
  predicate Takes(s: Cbuf, ch: u8, r: Cbuf, ok: bool)
    requires s.Good() && r.Good()
  {
    && ok == (|s.Contents()| < s.Size() - 1)
    && r.Contents() == if ok then s.Contents() + [ch] else s.Contents()
  }

  predicate Gives(s: Cbuf, r: Cbuf, result: int)
    requires s.Good() && r.Good()
  {
    if s.Contents() == [] then result == -1 && r.Contents() == []
    else result == s.Contents()[0] && r.Contents() == s.Contents()[1..]
  }

  lemma PutAppends(s: Cbuf, bytes: seq<u8>)
    requires s.Good() && |bytes| <= s.Size() - 1 - |s.Contents()|
    ensures s.Put(bytes).Contents() == s.Contents() + bytes
  {
    hide Cbuf.Contents, Splice;
    var room := s.Size() - s.tail;
    if |bytes| > room {
      Write(s, bytes[..room]);
      var s1 := Cbuf(Splice(s.data, s.tail, bytes[..room]), s.head, 0);
      SumLength(s.Contents(), bytes[..room]);
      Write(s1, bytes[room..]);
      Rejoin(s.Contents(), bytes, room);
    } else {
      Write(s, bytes);
    }
  }

  lemma SumLength(x: seq<u8>, y: seq<u8>)
    ensures |x + y| == |x| + |y|
  {
  }

  /** One `memcpy` of `bytes` to the place the tail stands at. */
  lemma Write(s: Cbuf, bytes: seq<u8>)
    requires s.Good() && |bytes| <= s.Size() - 1 - |s.Contents()| && s.tail + |bytes| <= s.Size()
    ensures Cbuf(Splice(s.data, s.tail, bytes), s.head, s.tail + |bytes|).Contents() == s.Contents() + bytes
    ensures s.tail + |bytes| == s.Size() ==>
      Cbuf(Splice(s.data, s.tail, bytes), s.head, 0).Contents() == s.Contents() + bytes
  {
    hide Unread, Splice;
    var n, at := s.Size(), s.tail;
    if at == n {
      assert bytes == [];
      SpliceNone(s.data, at);
      assert s.Contents() + bytes == s.Contents();
    } else {
      SpliceFront(s.data, n, at, bytes);
      WriteInside(s.Buffer(), s.Index(s.head), at, bytes);
    }
  }

  lemma SpliceFront(data: seq<u8>, n: nat, at: nat, bytes: seq<u8>)
    requires at + |bytes| <= n <= |data|
    ensures Splice(data, at, bytes)[..n] == Splice(data[..n], at, bytes)
  {
  }

  lemma WriteInside(b: seq<u8>, rd: nat, wr: nat, bytes: seq<u8>)
    requires rd < |b| && wr < |b| && |bytes| <= Free(|b|, rd, wr) && wr + |bytes| <= |b|
    ensures Unread(Splice(b, wr, bytes), rd, Advance(|b|, wr, |bytes|)) == Unread(b, rd, wr) + bytes
  {
    hide Unread, Splice, Held;
    var r := Splice(b, wr, bytes);
    SpliceKeeps(b, rd, wr, bytes);
    SameContents(b, r, rd, wr);
    ChunkAppends(r, rd, wr, bytes);
  }

  lemma SpliceKeeps(b: seq<u8>, rd: nat, wr: nat, bytes: seq<u8>)
    requires rd < |b| && wr < |b| && |bytes| <= Free(|b|, rd, wr) && wr + |bytes| <= |b|
    ensures Splice(b, wr, bytes)[wr..wr + |bytes|] == bytes
    ensures forall p: nat :: p < |b| && Held(rd, wr, p) ==> b[p] == Splice(b, wr, bytes)[p]
  {
  }

  lemma DropTakes(s: Cbuf, k: nat)
    requires s.Good() && k <= |s.Contents()|
    ensures s.Drop(k).Contents() == s.Contents()[k..]
    ensures s.Contents()[..k] == s.Front(k)
  {
    hide Unread, Cbuf.Front, Cbuf.Drop;
    var b, rd, wr := s.Buffer(), s.Index(s.head), s.Index(s.tail);
    TakeFront(b, rd, wr, k);
    DropIndex(s, k);
    UnreadFront(b, rd, wr, k);
    FrontIs(s, k);
  }

  lemma DropIndex(s: Cbuf, k: nat)
    requires s.Good() && k <= |s.Contents()|
    ensures s.Drop(k).data == s.data && s.Drop(k).tail == s.tail
    ensures s.Index(s.Drop(k).head) == Advance(s.Size(), s.Index(s.head), k)
  {
    hide Unread;
  }

  lemma FrontIs(s: Cbuf, k: nat)
    requires s.Good() && k < s.Size()
    ensures var b, rd := s.Buffer(), s.Index(s.head);
      s.Front(k) == if k > |b| - rd then b[rd..] + b[..k - (|b| - rd)] else b[rd..rd + k]
  {
    var n, room := s.Size(), s.Size() - s.head;
    if s.head == n {
      Within(s.data, n, 0, k);
      assert s.data[n..n] + s.data[0..k] == s.data[0..k];
    } else {
      Within(s.data, n, s.head, n);
      if k > room { Within(s.data, n, 0, k - room); } else { Within(s.data, n, s.head, s.head + k); }
    }
  }

  lemma UnreadFront(b: seq<u8>, rd: nat, wr: nat, k: nat)
    requires rd < |b| && wr < |b| && k <= |Unread(b, rd, wr)|
    ensures var room := |b| - rd;
      Unread(b, rd, wr)[..k] == if k > room then b[rd..] + b[..k - room] else b[rd..rd + k]
  {
    var room := |b| - rd;
    if rd <= wr {
      assert b[rd..wr][..k] == b[rd..rd + k];
    } else if k > room {
      assert (b[rd..] + b[..wr])[..k] == b[rd..] + b[..k - room];
    } else {
      assert (b[rd..] + b[..wr])[..k] == b[rd..rd + k];
    }
  }

  /**
   `xbee_cbuf_putch` is the queue's put unless the tail has passed the end, where the
   byte goes behind the buffer, or the head has and the buffer is full.
   */
  lemma PutchExact(s: Cbuf, ch: u8)
    requires s.Good()
    ensures Takes(s, ch, s.Putch(ch).0, s.Putch(ch).1)
      <==> if s.tail == s.Size() then s.head == 1 || s.data[0] == ch
           else !(s.head == s.Size() && s.tail == s.Size() - 1)
  {
    if s.tail == s.Size() {
      PutchBehind(s, ch);
    } else {
      PutchInside(s, ch);
    }
  }

  lemma PutchBehind(s: Cbuf, ch: u8)
    requires s.Good() && s.tail == s.Size()
    ensures Takes(s, ch, s.Putch(ch).0, s.Putch(ch).1) <==> s.head == 1 || s.data[0] == ch
  {
    var r := s.Putch(ch).0;
    assert r.Buffer() == s.Buffer();
    if s.head != 1 {
      var b, rd := s.Buffer(), s.Index(s.head);
      assert b[0..0 + 1] == [s.data[0]];
      hide Unread;
      ChunkAppends(b, rd, 0, [s.data[0]]);
      LastOf(s.Contents(), s.data[0], ch);
    }
  }

  lemma LastOf(c: seq<u8>, x: u8, y: u8)
    ensures c + [x] == c + [y] <==> x == y
    ensures c + [x] != c
  {
    assert (c + [x])[|c|] == x && (c + [y])[|c|] == y;
  }

  lemma PutchInside(s: Cbuf, ch: u8)
    requires s.Good() && s.tail < s.Size()
    ensures Takes(s, ch, s.Putch(ch).0, s.Putch(ch).1) <==> !(s.head == s.Size() && s.tail == s.Size() - 1)
  {
    var n, rd, wr := s.Size(), s.Index(s.head), s.tail;
    var b := s.data[wr := ch][..n];
    SameContents(s.Buffer(), b, rd, wr);
    assert b[wr..wr + 1] == [ch];
    hide Unread;
    var r := s.Putch(ch).0;
    assert r.Buffer() == b;
    if Free(n, rd, wr) > 0 {
      ChunkAppends(b, rd, wr, [ch]);
    } else if s.head == n {
      assert r.Contents() == [] by { NoneBetween(b, 0); }
      assert |s.Contents()| == n - 1;
    }
  }

  lemma NoneBetween(b: seq<u8>, at: nat)
    requires at < |b|
    ensures Unread(b, at, at) == []
  {
  }

  /**
   `xbee_cbuf_getch` is the queue's get unless the head has passed the end and the
   tail has not, or the head is at the front and the tail has passed the end.
   */
  lemma GetchExact(s: Cbuf)
    requires s.Good()
    ensures Gives(s, s.Getch().0, s.Getch().1)
      <==> if s.head == s.Size() then s.tail == s.Size() || (s.tail > 0 && s.data[s.Size()] == s.data[0])
           else !(s.head == 0 && s.tail == s.Size())
  {
    var b, rd, wr := s.Buffer(), s.Index(s.head), s.Index(s.tail);
    if rd == wr {
      NoneBetween(b, rd);
    } else {
      Oldest(b, rd, wr);
      TakeFront(b, rd, wr, 1);
    }
    hide Unread;
    assert s.head < s.Size() ==> s.data[s.head] == b[rd];
  }

  lemma Oldest(b: seq<u8>, rd: nat, wr: nat)
    requires rd < |b| && wr < |b| && rd != wr
    ensures Unread(b, rd, wr) != [] && Unread(b, rd, wr)[0] == b[rd]
  {
  }

  /** With both indices inside the buffer, as single-character use keeps them, both are exact. */
  lemma CharactersInside(s: Cbuf, ch: u8)
    requires s.Good() && s.head < s.Size() && s.tail < s.Size()
    ensures Takes(s, ch, s.Putch(ch).0, s.Putch(ch).1) && Gives(s, s.Getch().0, s.Getch().1)
    ensures s.Putch(ch).0.head < s.Size() && s.Putch(ch).0.tail < s.Size()
    ensures s.Getch().0.head < s.Size() && s.Getch().0.tail < s.Size()
  {
    PutchExact(s, ch);
    GetchExact(s);
  }

  /** Bulk use that ends exactly at the end of the buffer leads to a state where a character is lost. */
  lemma ExactFitBreaksPutch(a: u8, ch: u8, spare: u8)
    requires a != ch
    ensures var s := Cbuf([a, a, a, a, spare], 0, 0).Put([a, a, a]).Drop(3).Put([a]);
      s.tail == s.Size() && !Takes(s, ch, s.Putch(ch).0, s.Putch(ch).1)
  {
    var s0 := Cbuf([a, a, a, a, spare], 0, 0);
    PutAppends(s0, [a, a, a]);
    var s1 := s0.Put([a, a, a]);
    DropTakes(s1, 3);
    var s := s1.Drop(3).Put([a]);
    assert s.data[0] == a;
    PutchExact(s, ch);
  }

  /** And one where a byte comes out that was never put in. */
  lemma ExactFitBreaksGetch(a: u8, b: u8, spare: u8)
    requires b != spare
    ensures var s := Cbuf([a, a, a, a, spare], 0, 0).Put([a, a, a]).Drop(3).Put([a]).Drop(1).Put([b]);
      s.head == s.Size() && s.Contents() == [b] && s.Getch().1 == spare as int && !Gives(s, s.Getch().0, s.Getch().1)
  {
    var s0 := Cbuf([a, a, a, a, spare], 0, 0);
    PutAppends(s0, [a, a, a]);
    var s1 := s0.Put([a, a, a]);
    DropTakes(s1, 3);
    var s2 := s1.Drop(3);
    PutAppends(s2, [a]);
    var s3 := s2.Put([a]);
    DropTakes(s3, 1);
    var s4 := s3.Drop(1);
    PutAppends(s4, [b]);
    var s := s4.Put([b]);
    assert s.data[0] == b && s.data[4] == spare;
    GetchExact(s);
  }
}

/** The queue that the bulk operations are to be, over any sequence of calls. */
module CbufQueue {
  import opened Words
  import opened Rings

  datatype Op = Put(bytes: seq<u8>) | Get(length: nat)

  /** How many bytes were taken in, or which ones came out. */
  datatype Answer = Took(n: nat) | Gave(bytes: seq<u8>)

  /** One call on a queue with room for `room` bytes. */
  function Step(room: nat, q: seq<u8>, op: Op): (r: (seq<u8>, Answer))
    requires |q| <= room
    ensures |r.0| <= room
  {
    match op
    case Put(bytes) => var n := Min(|bytes|, room - |q|); (q + bytes[..n], Took(n))
    case Get(length) => var n := Min(length, |q|); (q[n..], Gave(q[..n]))
  }

  function Run(room: nat, q: seq<u8>, ops: seq<Op>): (r: (seq<u8>, seq<Answer>))
    requires |q| <= room
    ensures |r.0| <= room && |r.1| == |ops|
    decreases |ops|
  {
    if ops == [] then (q, [])
    else
      var (q1, a) := Step(room, q, ops[0]);
      var (q2, rest) := Run(room, q1, ops[1..]);
      (q2, [a] + rest)
  }

  lemma {:induction false} RunSnoc(room: nat, q: seq<u8>, ops: seq<Op>, op: Op)
    requires |q| <= room
    ensures var (q1, answers) := Run(room, q, ops);
      Run(room, q, ops + [op]) == (Step(room, q1, op).0, answers + [Step(room, q1, op).1])
    decreases |ops|
  {
    hide Step;
    var all := ops + [op];
    if ops == [] {
      assert all == [op] && all[1..] == [];
      var (q1, a) := Step(room, q, op);
      assert Run(room, q1, all[1..]) == (q1, []);
      assert [a] + [] == [] + [a];
    } else {
      assert all[1..] == ops[1..] + [op];
      assert all[0] == ops[0];
      var (q1, a) := Step(room, q, ops[0]);
      RunSnoc(room, q1, ops[1..], op);
      var (q2, rest) := Run(room, q1, ops[1..]);
      var last := Step(room, q2, op).1;
      assert Run(room, q, all).1 == [a] + (rest + [last]);
      assert [a] + (rest + [last]) == [a] + rest + [last];
    }
  }

  /** What the calls put in, as far as it was taken. */
  function Accepted(ops: seq<Op>, answers: seq<Answer>): seq<u8>
    requires |ops| == |answers|
    decreases |ops|
  {
    if ops == [] then []
    else
      (if ops[0].Put? && answers[0].Took? && answers[0].n <= |ops[0].bytes| then ops[0].bytes[..answers[0].n] else [])
      + Accepted(ops[1..], answers[1..])
  }

  function Given(answers: seq<Answer>): seq<u8> {
    if answers == [] then [] else (if answers[0].Gave? then answers[0].bytes else []) + Given(answers[1..])
  }

  /** First in, first out: what came out and what is left is what was there and what went in, in order. */
  lemma {:induction false} FirstInFirstOut(room: nat, q: seq<u8>, ops: seq<Op>)
    requires |q| <= room
    ensures var (left, answers) := Run(room, q, ops);
      Given(answers) + left == q + Accepted(ops, answers)
    decreases |ops|
  {
    var (left, answers) := Run(room, q, ops);
    if ops == [] {
      assert [] + left == q + [];
    } else {
      var (q1, a) := Step(room, q, ops[0]);
      FirstInFirstOut(room, q1, ops[1..]);
      assert answers[1..] == Run(room, q1, ops[1..]).1;
      var given, accepted := Given(answers[1..]), Accepted(ops[1..], answers[1..]);
      assert given + left == q1 + accepted;
      if ops[0].Put? {
        Regroup([], given, left, q, ops[0].bytes[..a.n], accepted);
      } else {
        assert q == a.bytes + q1;
        Regroup(a.bytes, given, left, a.bytes + q1, [], accepted);
      }
    }
  }

  /** `g` bytes out first, or `p` bytes in: the rest of the run closes the equation. */
  lemma Regroup(g: seq<u8>, given: seq<u8>, left: seq<u8>, q: seq<u8>, p: seq<u8>, accepted: seq<u8>)
    requires g <= q && given + left == (q + p)[|g|..] + accepted
    ensures (g + given) + left == q + (p + accepted)
  {
    assert (g + given) + left == g + (given + left);
    assert q + (p + accepted) == (q + p) + accepted;
    assert q + p == g + (q + p)[|g|..];
  }
}

/** The buffer itself, and the index arithmetic with `mask`. */
module CbufBuffer {
  import opened Words
  import opened Rings
  import opened CbufContents
  import CbufQueue

  ghost predicate BelowPower(d: nat) { exists k: nat :: d == Pow2(k) - 1 }

  lemma BelowPowerHalves(d: nat)
    requires d > 0
    ensures BelowPower(d) <==> d % 2 == 1 && BelowPower(d / 2)
  {
    if k: nat :| d == Pow2(k) - 1 {
      assert d / 2 == Pow2(k - 1) - 1;
    }
    if d % 2 == 1 && BelowPower(d / 2) {
      var k: nat :| d / 2 == Pow2(k) - 1;
      assert d == Pow2(k + 1) - 1;
    }
  }

  /** A number has no bit in common with its successor exactly if it is one less than a power of two. */
  lemma {:induction false} MaskShape(d: nat)
    ensures And(d, d + 1) == 0 <==> BelowPower(d)
  {
    if d == 0 {
      assert d == Pow2(0) - 1;
    } else {
      hide BelowPower;
      BelowPowerHalves(d);
      var m := d / 2;
      if d % 2 == 0 {
        assert (d + 1) / 2 == m;
        AndSelf(m);
      } else {
        assert (d + 1) / 2 == m + 1;
        MaskShape(m);
      }
    }
  }

  lemma {:induction false} AndSelf(x: nat)
    ensures And(x, x) == x
  {
    if x > 0 { AndSelf(x / 2); }
  }

  /** Masking a 32-bit difference, wrapped or not, is the remainder. */
  lemma MaskDifference(x: int, k: nat)
    requires k <= 31
    ensures And(x % 0x1_0000_0000, Pow2(k) - 1) == x % Pow2(k)
  {
    hide And;
    var n, m := Pow2(k), Pow2(32 - k);
    assert n * m == 0x1_0000_0000 by {
      Pow2Add(k, 32 - k);
      Pow2Values();
    }
    AndMask(x % 0x1_0000_0000, k);
    hide Pow2;
    MultipleVanishes(x, n, m);
  }

  lemma MultipleVanishes(x: int, n: nat, m: nat)
    requires n > 0 && n * m == 0x1_0000_0000
    ensures (x % 0x1_0000_0000) % n == x % n
  {
    var r, q := x % 0x1_0000_0000, x / 0x1_0000_0000;
    assert x == r + (n * m) * q;
    assert (n * m) * q == n * (m * q);
    ModAdd(r, n, m * q);
  }

  ghost predicate IsMask(mask: nat) { exists k: nat :: 2 <= k <= 31 && mask == Pow2(k) - 1 }

  lemma MaskIsRemainder(x: int, mask: nat)
    requires IsMask(mask)
    ensures And(x % 0x1_0000_0000, mask) == x % (mask + 1)
  {
    var k: nat :| 2 <= k <= 31 && mask == Pow2(k) - 1;
    MaskDifference(x, k);
  }

  lemma MaskRange(mask: nat)
    requires IsMask(mask)
    ensures 3 <= mask < 0x8000_0000
  {
    var k: nat :| 2 <= k <= 31 && mask == Pow2(k) - 1;
    Pow2Monotone(2, k);
    Pow2Monotone(k, 31);
    Pow2Values();
  }

  lemma {:induction false} Pow2Monotone(j: nat, k: nat)
    requires j <= k
    ensures Pow2(j) <= Pow2(k)
  {
    if 0 < j { Pow2Monotone(j - 1, k - 1); }
  }

  /** `(tail - head) & mask` and `(head - tail - 1) & mask`, wrapped subtractions included. */
  lemma MaskedDistances(s: Cbuf, mask: nat)
    requires s.Good() && IsMask(mask) && s.Size() == mask + 1
    ensures And((s.tail - s.head) % 0x1_0000_0000, mask) == |s.Contents()|
    ensures And((s.head - s.tail - 1) % 0x1_0000_0000, mask) == mask - |s.Contents()|
  {
    hide And;
    MaskIsRemainder(s.tail - s.head, mask);
    MaskIsRemainder(s.head - s.tail - 1, mask);
    Distances(mask + 1, s.tail - s.head, |s.Contents()|);
  }

  lemma Distances(n: int, d: int, u: int)
    requires 0 <= u < n && (d == u || d == u - n || d == u + n)
    ensures d % n == u && (-d - 1) % n == n - 1 - u
  {
    var q: int := if d == u then 0 else if d < u then -1 else 1;
    assert n * 0 == 0 && n * -1 == -n && n * 1 == n && n * -2 == -n - n;
    DivModUnique(d, n, q, u);
    DivModUnique(-d - 1, n, -q - 1, n - 1 - u);
  }

  lemma MaskedNext(s: Cbuf, i: u32, mask: nat)
    requires s.Good() && IsMask(mask) && s.Size() == mask + 1 && i <= mask + 1
    ensures And(Add32(i, 1), mask) == s.Next(i) == (i + 1) % (mask + 1)
  {
    hide And;
    MaskIsRemainder(i + 1, mask);
    var n := mask + 1;
    DivModUnique(i + 1, n, if i + 1 < n then 0 else 1, s.Next(i));
  }

  /** `data` is the buffer and the byte behind it. */
  class Buffer {
    var head: u32
    var tail: u32
    var mask: u32
    const data: array<u8>

    ghost predicate Valid()
      reads this
    {
      IsMask(mask) && data.Length == mask + 2 && head <= mask + 1 && tail <= mask + 1 && 3 <= mask < 0x8000_0000
    }

    ghost function State(): (s: Cbuf)
      reads this, data
      requires Valid()
      ensures s.Good() && s.Size() == mask + 1
    {
      Cbuf(data[..], head, tail)
    }

    ghost function Contents(): seq<u8>
      reads this, data
      requires Valid()
    {
      State().Contents()
    }

    constructor (storage: array<u8>)
      ensures data == storage
    {
      data := storage;
    }

    /**
     `xbee_cbuf_init` accepts the numbers one below a power of two from 3 on, and
     with 0xFFFFFFFF one that no memory holds.
     */
    method Init(datasize: u32) returns (error: bool)
      requires data.Length == datasize + 2
      modifies this
      ensures !error <==> datasize >= 3 && BelowPower(datasize)
      ensures !error && datasize < 0xFFFF_FFFF ==> Valid() && mask == datasize && Contents() == []
      ensures error ==> head == old(head) && tail == old(tail) && mask == old(mask)
    {
      hide And;
      AcceptedSizes(datasize);
      if IsMask(datasize) { MaskRange(datasize); }
      if datasize < 3 || And(datasize, Add32(datasize, 1)) != 0 { return true; }
      mask := datasize;
      head := 0;
      tail := 0;
      return false;
    }

    /** `xbee_cbuf_used` */
    method GetUsed() returns (n: u32)
      requires Valid()
      ensures n == |Contents()|
    {
      hide And, IsMask, Cbuf.Contents;
      MaskedDistances(State(), mask);
      n := And(Sub32(tail, head), mask);
    }

    /** `xbee_cbuf_free` */
    method GetFree() returns (n: u32)
      requires Valid()
      ensures n + |Contents()| == mask
    {
      hide And, IsMask, Cbuf.Contents;
      MaskedDistances(State(), mask);
      SubTwice(head, tail);
      n := And(Sub32(Sub32(head, tail), 1), mask);
    }

    method Flush()
      requires Valid()
      modifies this`head
      ensures Valid() && Contents() == [] && head == tail
    {
      head := tail;
    }

    method Putch(ch: u8) returns (ok: bool)
      requires Valid()
      modifies this`tail, data
      ensures Valid() && (State(), ok) == old(State()).Putch(ch)
      ensures data[..] == old(data[..])[old(tail) := ch]
      ensures ok <==> head != (old(tail) + 1) % (mask + 1)
      ensures tail == if ok then (old(tail) + 1) % (mask + 1) else old(tail)
    {
      hide And, IsMask, Cbuf.Contents;
      MaskedNext(State(), tail, mask);
      var t := tail;
      data[t] := ch;
      t := And(Add32(t, 1), mask);
      if t == head { return false; }
      tail := t;
      return true;
    }

    method Getch() returns (result: int)
      requires Valid()
      modifies this`head
      ensures Valid() && (State(), result) == old(State()).Getch()
      ensures old(head) == tail ==> result == -1 && head == old(head)
      ensures old(head) != tail ==> result == data[old(head)] as int && head == (old(head) + 1) % (mask + 1)
    {
      hide And, IsMask, Cbuf.Contents;
      MaskedNext(State(), head, mask);
      var h := head;
      if h == tail { return -1; }
      result := data[h];
      head := And(Add32(h, 1), mask);
    }

    /** `memcpy` into the buffer. */
    method CopyIn(at: nat, bytes: seq<u8>)
      requires at + |bytes| <= data.Length
      modifies data
      ensures data[..] == Splice(old(data[..]), at, bytes)
    {
      forall k | 0 <= k < |bytes| { data[at + k] := bytes[k]; }
    }

    /** `memcpy` out of the buffer. */
    method CopyOut(buffer: array<u8>, to: nat, at: nat, n: nat)
      requires at + n <= data.Length && to + n <= buffer.Length && buffer != data
      modifies buffer
      ensures buffer[..] == Splice(old(buffer[..]), to, data[..][at..at + n])
    {
      forall k | 0 <= k < n { buffer[to + k] := data[at + k]; }
    }

    /** As many bytes as there is room for go behind those the queue holds. */
    method Put(bytes: seq<u8>) returns (copied: nat)
      requires Valid() && |bytes| < 0x1_0000_0000
      modifies this`tail, data
      ensures Valid()
      ensures copied == Min(|bytes|, mask - |old(Contents())|)
      ensures Contents() == old(Contents()) + bytes[..copied]
    {
      hide Cbuf.Contents, Cbuf.Put, And, IsMask;
      var free := GetFree();
      copied := |bytes|;
      if copied > free { copied := free; }
      PutAppends(State(), bytes[..copied]);
      StoreTail(bytes[..copied]);
    }

    /** The one or two `memcpy` of `xbee_cbuf_put`, and the tail behind them. */
    method StoreTail(bytes: seq<u8>)
      requires Valid() && |bytes| <= mask - |Contents()|
      modifies this`tail, data
      ensures Valid() && State() == old(State()).Put(bytes)
    {
      hide Cbuf.Contents, Splice, IsMask;
      var rest, endSpace := bytes, mask + 1 - tail;
      if |rest| > endSpace {
        CopyIn(tail, rest[..endSpace]);
        rest := rest[endSpace..];
        tail := 0;
      }
      CopyIn(tail, rest);
      tail := tail + |rest|;
    }

    /** As many bytes as there are, up to `length`, come out in the order they went in. */
    method Get(buffer: array<u8>, length: nat) returns (copied: nat)
      requires Valid() && length <= buffer.Length && length < 0x1_0000_0000 && buffer != data
      modifies this`head, buffer
      ensures Valid()
      ensures copied == Min(length, |old(Contents())|)
      ensures buffer[..copied] == old(Contents())[..copied]
      ensures buffer[copied..] == old(buffer[copied..])
      ensures Contents() == old(Contents())[copied..]
    {
      hide Cbuf.Contents, Cbuf.Front, And, IsMask;
      ghost var s := State();
      var used := GetUsed();
      copied := length;
      if copied > used { copied := used; }
      DropTakes(s, copied);
      CopyFront(buffer, copied);
      assert State() == s.Drop(copied);
    }

    /** The one or two `memcpy` of `xbee_cbuf_get`, and the head behind them. */
    method CopyFront(buffer: array<u8>, length: nat)
      requires Valid() && length <= buffer.Length && length <= mask && buffer != data
      modifies this`head, buffer
      ensures Valid()
      ensures buffer[..length] == old(State()).Front(length)
      ensures buffer[length..] == old(buffer[length..])
      ensures head == if length > mask + 1 - old(head) then length - (mask + 1 - old(head)) else old(head) + length
    {
      hide Cbuf.Contents, Cbuf.Front, Splice, IsMask;
      ghost var s, was := State(), buffer[..];
      var copied := CopyToEnd(buffer, length);
      var left := length - copied;
      CopyOut(buffer, copied, head, left);
      TwoCopies(s, length, copied, head, was, buffer[..]);
      head := head + left;
    }

    /** The first `memcpy`, when more is wanted than there is up to the end, and the head back at the front. */
    method CopyToEnd(buffer: array<u8>, length: nat) returns (copied: nat)
      requires Valid() && length <= buffer.Length && length <= mask && buffer != data
      modifies this`head, buffer
      ensures Valid()
      ensures copied == if length > mask + 1 - old(head) then mask + 1 - old(head) else 0
      ensures head == if length > mask + 1 - old(head) then 0 else old(head)
      ensures buffer[..] == Splice(old(buffer[..]), 0, data[..][old(head)..old(head) + copied])
    {
      hide Splice, IsMask;
      copied := 0;
      assert data[..][head..head + 0] == [];
      SpliceNone(buffer[..], 0);
      var endSpace := mask + 1 - head;
      if length > endSpace {
        CopyOut(buffer, 0, head, endSpace);
        head := 0;
        copied := copied + endSpace;
      }
    }

    /** Bulk calls in any sequence behave as the queue does. */
    method Run(ops: seq<CbufQueue.Op>) returns (answers: seq<CbufQueue.Answer>)
      requires Valid()
      requires forall op <- ops :: if op.Put? then |op.bytes| < 0x1_0000_0000 else op.length < 0x1_0000_0000
      modifies this`head, this`tail, data
      ensures Valid()
      ensures (Contents(), answers) == CbufQueue.Run(mask, old(Contents()), ops)
    {
      hide Cbuf.Contents, CbufQueue.Step, CbufQueue.Run, IsMask;
      answers := [];
      ghost var start := Contents();
      assert (start, []) == CbufQueue.Run(mask, start, []) by { EmptyRun(mask, start); }
      assert ops[..0] == [];
      for k := 0 to |ops|
        invariant Valid()
        invariant (Contents(), answers) == CbufQueue.Run(mask, start, ops[..k])
      {
        CbufQueue.RunSnoc(mask, start, ops[..k], ops[k]);
        assert ops[..k + 1] == ops[..k] + [ops[k]];
        var answer := Perform(ops[k]);
        answers := answers + [answer];
      }
      assert ops[..|ops|] == ops;
    }

    method Perform(op: CbufQueue.Op) returns (answer: CbufQueue.Answer)
      requires Valid() && if op.Put? then |op.bytes| < 0x1_0000_0000 else op.length < 0x1_0000_0000
      modifies this`head, this`tail, data
      ensures Valid()
      ensures (Contents(), answer) == CbufQueue.Step(mask, old(Contents()), op)
    {
      hide Cbuf.Contents;
      match op
      case Put(bytes) =>
        var n := Put(bytes);
        answer := CbufQueue.Took(n);
      case Get(length) =>
        var buffer := new u8[length];
        var n := Get(buffer, length);
        answer := CbufQueue.Gave(buffer[..n]);
    }
  }

  lemma EmptyRun(room: nat, q: seq<u8>)
    requires |q| <= room
    ensures CbufQueue.Run(room, q, []) == (q, [])
  {
  }

  /** The two copies together are the bytes from the head on. */
  lemma TwoCopies(s: Cbuf, length: nat, copied: nat, head: nat, was: seq<u8>, after: seq<u8>)
    requires s.Good() && length < s.Size() && length <= |was|
    requires copied == if length > s.Size() - s.head then s.Size() - s.head else 0
    requires head == if length > s.Size() - s.head then 0 else s.head
    requires after == Splice(Splice(was, 0, s.data[s.head..s.head + copied]), copied, s.data[head..head + (length - copied)])
    ensures after[..length] == s.Front(length) && after[length..] == was[length..]
  {
    hide Splice, Cbuf.Front;
    var first, second := s.data[s.head..s.head + copied], s.data[head..head + (length - copied)];
    FrontIsBoth(s, length, copied, head);
    SpliceJoin(was, first, second);
    SpliceJoin(was, first + second, []);
  }

  lemma FrontIsBoth(s: Cbuf, length: nat, copied: nat, head: nat)
    requires s.Good() && length < s.Size()
    requires copied == if length > s.Size() - s.head then s.Size() - s.head else 0
    requires head == if length > s.Size() - s.head then 0 else s.head
    ensures s.data[s.head..s.head + copied] + s.data[head..head + (length - copied)] == s.Front(length)
  {
  }

  lemma SubTwice(x: u32, y: u32)
    ensures Sub32(Sub32(x, y), 1) == (x - y - 1) % 0x1_0000_0000
  {
  }

  lemma AcceptedSizes(d: u32)
    ensures And(d, Add32(d, 1)) == 0 <==> BelowPower(d)
    ensures 3 <= d < 0xFFFF_FFFF && BelowPower(d) ==> IsMask(d)
  {
    hide And;
    MaskShape(d);
    if d == 0xFFFF_FFFF {
      assert d == Pow2(32) - 1 by { Pow2Values(); }
      assert Add32(d, 1) == 0;
      AndZero(d);
    } else {
      assert Add32(d, 1) == d + 1;
    }
    if 3 <= d < 0xFFFF_FFFF && BelowPower(d) { MaskExponent(d); }
  }

  lemma MaskExponent(d: nat)
    requires 3 <= d < 0xFFFF_FFFF && BelowPower(d)
    ensures IsMask(d)
  {
    var k: nat :| d == Pow2(k) - 1;
    Pow2Values();
    if k < 2 {
      Pow2Monotone(k, 1);
    } else if k >= 32 {
      Pow2Monotone(32, k);
    }
    hide Pow2;
  }

  lemma AndZero(d: nat)
    ensures And(d, 0) == 0
  {
  }
}
