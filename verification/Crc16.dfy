/**
 The cyclic code behind XBee/xmodem_crc16.c: remainders modulo
 x^16 + x^12 + x^5 + 1 over GF(2), as in section 2 of ITU-T Recommendation V.41.
 Polynomials of degree below 16 are 16-bit words and their sum is `Xor`.
 */
module CrcPolynomial {

  function Xor(x: bv16, y: bv16): bv16 { x ^ y }

  /** Multiply the running remainder by x, and subtract the divisor if x^16 appears. */
  function Step(r: bv16): bv16 { if r & 0x8000 != 0 then (r << 1) ^ 0x1021 else r << 1 }

  // ---------------------------------------------------------------------
  // Bit-by-bit division
  // ---------------------------------------------------------------------

  /** Bring down one bit of the dividend. */
  function Feed(r: bv16, bit: bv16): bv16 { Xor(Step(r), bit) }

  /** Bit `i` of a byte. */
  function Bit(b: bv8, i: nat): bv16
    requires i < 8
  {
    ((b as bv16) >> i) & 1
  }

  function FeedByte(r: bv16, b: bv8): bv16 {
    Feed(Feed(Feed(Feed(Feed(Feed(Feed(Feed(r,
      Bit(b, 7)), Bit(b, 6)), Bit(b, 5)), Bit(b, 4)), Bit(b, 3)), Bit(b, 2)), Bit(b, 1)), Bit(b, 0))
  }

  /** Long division, continued from remainder `r`, of the polynomial whose coefficients are the bits of `data`. */
  function Divide(r: bv16, data: seq<bv8>): bv16
    decreases |data|
  {
    if data == [] then r else Divide(FeedByte(r, data[0]), data[1..])
  }

  function Zeros(n: nat): seq<bv8> { seq(n, _ => 0) }

  /** A word as two bytes, high byte first. */
  function Bytes(c: bv16): seq<bv8> { [(c >> 8) as bv8, (c & 0xFF) as bv8] }

  /**
   The CRC by its definition: the remainder of start(x) x^(8n) + data(x) x^16, for n bytes of data.
   */
  function Remainder(data: seq<bv8>, start: bv16): bv16 {
    Xor(Divide(0, Bytes(start) + Zeros(|data|)), Divide(0, data + Zeros(2)))
  }

  // ---------------------------------------------------------------------
  // The shift register
  // ---------------------------------------------------------------------

  /** Division continued over `n` zero bits. */
  function Steps(n: nat, r: bv16): bv16
    decreases n
  {
    if n == 0 then r else Steps(n - 1, Step(r))
  }

  /** A byte in the top half of a word. */
  function Up(b: bv8): bv16 { (b as bv16) << 8 }

  /** One byte of the CRC register: add it at the top and divide eight more places. */
  function Next(c: bv16, b: bv8): bv16 { Steps(8, Xor(c, Up(b))) }

  function Register(data: seq<bv8>, c: bv16): bv16
    decreases |data|
  {
    if data == [] then c else Register(data[1..], Next(c, data[0]))
  }

  // ---------------------------------------------------------------------
  // Algebra
  // ---------------------------------------------------------------------

  lemma XorAssoc(x: bv16, y: bv16, z: bv16)
    ensures Xor(Xor(x, y), z) == Xor(x, Xor(y, z))
  {
  }

  lemma XorZero(x: bv16, y: bv16)
    ensures Xor(x, y) == Xor(y, x)
    ensures Xor(x, 0) == x
    ensures Xor(x, y) == 0 <==> x == y
  {
  }

  lemma ShiftXor(r: bv16, t: bv16)
    ensures (r ^ t) << 1 == (r << 1) ^ (t << 1)
    ensures (r ^ t) & 0x8000 == (r & 0x8000) ^ (t & 0x8000)
    ensures r & 0x8000 == 0 || r & 0x8000 == 0x8000
    ensures t & 0x8000 == 0 || t & 0x8000 == 0x8000
  {
  }

  lemma XorPull(a: bv16, b: bv16, p: bv16)
    ensures (a ^ p) ^ (b ^ p) == a ^ b
    ensures (a ^ p) ^ b == (a ^ b) ^ p
    ensures a ^ (b ^ p) == (a ^ b) ^ p
  {
  }

  lemma StepCases(r: bv16)
    ensures r & 0x8000 == 0 ==> Step(r) == r << 1
    ensures r & 0x8000 == 0x8000 ==> Step(r) == (r << 1) ^ 0x1021
  {
  }

  lemma StepLinear(r: bv16, t: bv16)
    ensures Step(Xor(r, t)) == Xor(Step(r), Step(t))
  {
    hide Step;
    ShiftXor(r, t);
    XorPull(r << 1, t << 1, 0x1021);
    StepCases(r);
    StepCases(t);
    StepCases(r ^ t);
  }

  lemma {:induction false} StepsLinear(n: nat, r: bv16, t: bv16)
    ensures Steps(n, Xor(r, t)) == Xor(Steps(n, r), Steps(n, t))
    decreases n
  {
    hide Step, Xor;
    if n > 0 {
      StepLinear(r, t);
      StepsLinear(n - 1, Step(r), Step(t));
    }
  }

  lemma {:induction false} StepsAdd(m: nat, n: nat, r: bv16)
    ensures Steps(n, Steps(m, r)) == Steps(m + n, r)
    decreases m
  {
    hide Step;
    if m > 0 { StepsAdd(m - 1, n, Step(r)); }
  }

  /** The divisor has a constant term, so dividing one more place loses nothing. */
  lemma StepKernel(z: bv16)
    ensures Step(z) == 0 <==> z == 0
  {
  }

  lemma {:induction false} StepsKernel(n: nat, z: bv16)
    ensures Steps(n, z) == 0 <==> z == 0
    decreases n
  {
    hide Step;
    if n > 0 {
      StepKernel(z);
      StepsKernel(n - 1, Step(z));
    }
  }

  lemma StepsInjective(n: nat, r: bv16, t: bv16)
    ensures Steps(n, r) == Steps(n, t) <==> r == t
  {
    hide Steps, Xor;
    StepsLinear(n, r, t);
    XorZero(Steps(n, r), Steps(n, t));
    StepsKernel(n, Xor(r, t));
    XorZero(r, t);
  }

  // ---------------------------------------------------------------------
  // The register computes the remainder
  // ---------------------------------------------------------------------

  /** One more bit brought down; `low` holds the bits brought down so far. */
  lemma FeedStage(k: nat, r: bv16, x: bv16, low: bv16, bit: bv16, low': bv16)
    requires x == Xor(Steps(k, r), low) && low' == Xor(Step(low), bit)
    ensures Feed(x, bit) == Xor(Steps(k + 1, r), low')
  {
    hide Step, Xor;
    StepLinear(Steps(k, r), low);
    StepsAdd(k, 1, r);
    assert Steps(1, Steps(k, r)) == Step(Steps(k, r));
    XorAssoc(Step(Steps(k, r)), Step(low), bit);
  }

  /** The top bits of a byte, one more at a time. */
  lemma BitsOfByte(b: bv8)
    ensures var w := b as bv16;
      && w >> 7 == Xor(Step(0), Bit(b, 7)) && w >> 6 == Xor(Step(w >> 7), Bit(b, 6))
      && w >> 5 == Xor(Step(w >> 6), Bit(b, 5)) && w >> 4 == Xor(Step(w >> 5), Bit(b, 4))
      && w >> 3 == Xor(Step(w >> 4), Bit(b, 3)) && w >> 2 == Xor(Step(w >> 3), Bit(b, 2))
      && w >> 1 == Xor(Step(w >> 2), Bit(b, 1)) && w == Xor(Step(w >> 1), Bit(b, 0))
  {
  }

  /** Bringing down a byte is eight steps with the byte added at the low end. */
  lemma FeedByteIsSteps(r: bv16, b: bv8)
    ensures FeedByte(r, b) == Xor(Steps(8, r), b as bv16)
  {
    hide Step, Xor, Bit;
    var w := b as bv16;
    BitsOfByte(b);
    XorZero(r, 0);
    var x7 := Feed(r, Bit(b, 7));
    var x6 := Feed(x7, Bit(b, 6));
    var x5 := Feed(x6, Bit(b, 5));
    var x4 := Feed(x5, Bit(b, 4));
    var x3 := Feed(x4, Bit(b, 3));
    var x2 := Feed(x3, Bit(b, 2));
    var x1 := Feed(x2, Bit(b, 1));
    FeedStage(0, r, r, 0, Bit(b, 7), w >> 7);
    FeedStage(1, r, x7, w >> 7, Bit(b, 6), w >> 6);
    FeedStage(2, r, x6, w >> 6, Bit(b, 5), w >> 5);
    FeedStage(3, r, x5, w >> 5, Bit(b, 4), w >> 4);
    FeedStage(4, r, x4, w >> 4, Bit(b, 3), w >> 3);
    FeedStage(5, r, x3, w >> 3, Bit(b, 2), w >> 2);
    FeedStage(6, r, x2, w >> 2, Bit(b, 1), w >> 1);
    FeedStage(7, r, x1, w >> 1, Bit(b, 0), w);
  }

  lemma {:induction false} DivideAppend(r: bv16, x: seq<bv8>, y: seq<bv8>)
    ensures Divide(r, x + y) == Divide(Divide(r, x), y)
    decreases |x|
  {
    hide FeedByte;
    if x == [] {
      assert x + y == y;
    } else {
      assert (x + y)[1..] == x[1..] + y;
      DivideAppend(FeedByte(r, x[0]), x[1..], y);
    }
  }

  /** The CRC of a concatenation continues from the CRC of its first part. */
  lemma {:induction false} RegisterAppend(x: seq<bv8>, y: seq<bv8>, c: bv16)
    ensures Register(x + y, c) == Register(y, Register(x, c))
    decreases |x|
  {
    hide Next;
    if x == [] {
      assert x + y == y;
    } else {
      assert (x + y)[1..] == x[1..] + y;
      RegisterAppend(x[1..], y, Next(c, x[0]));
    }
  }

  lemma DivideOne(r: bv16, b: bv8)
    ensures Divide(r, [b]) == Xor(Steps(8, r), b as bv16)
  {
    hide FeedByte, Steps, Xor;
    FeedByteIsSteps(r, b);
    assert [b][1..] == [];
  }

  lemma {:induction false} DivideZeros(r: bv16, n: nat)
    ensures Divide(r, Zeros(n)) == Steps(8 * n, r)
    decreases n
  {
    hide FeedByte, Xor, Step;
    if n > 0 {
      assert Zeros(n)[1..] == Zeros(n - 1);
      FeedByteIsSteps(r, 0);
      XorZero(Steps(8, r), 0);
      DivideZeros(Steps(8, r), n - 1);
      StepsAdd(8, 8 * (n - 1), r);
    }
  }

  /** Eight steps of a byte move it to the top: nothing reaches x^16. */
  lemma ByteRises(b: bv8)
    ensures Steps(8, b as bv16) == Up(b)
  {
  }

  /** Two bytes brought down from nothing are the word they spell. */
  lemma DivideBytes(c: bv16)
    ensures Divide(0, Bytes(c)) == c
  {
    hide FeedByte, Steps, Xor;
    var hi, lo := (c >> 8) as bv8, (c & 0xFF) as bv8;
    assert Bytes(c) == [hi] + [lo];
    DivideAppend(0, [hi], [lo]);
    DivideOne(0, hi);
    StepsKernel(8, 0);
    XorZero(hi as bv16, 0);
    DivideOne(hi as bv16, lo);
    ByteRises(hi);
    Respell(c, hi, lo);
  }

  lemma Respell(c: bv16, hi: bv8, lo: bv8)
    requires hi == (c >> 8) as bv8 && lo == (c & 0xFF) as bv8
    ensures Xor(Up(hi), lo as bv16) == c
  {
  }

  /** The register form of the CRC is the remainder it is defined to be, for every start value. */
  lemma {:induction false} RegisterIsRemainder(data: seq<bv8>, start: bv16)
    ensures Register(data, start) == Remainder(data, start)
    decreases |data|
  {
    hide Divide, Steps, Xor, Bytes;
    var n := |data|;
    var zero: seq<bv8> := Zeros(n);
    DivideAppend(0, Bytes(start), Zeros(n));
    DivideBytes(start);
    DivideZeros(start, n);
    DivideAppend(0, data, Zeros(2));
    DivideZeros(Divide(0, data), 2);
    if n == 0 {
      assert data == [];
      assert Divide(0, []) == 0 by { EmptyDivide(); }
      StepsKernel(16, 0);
      XorZero(start, 0);
      assert Steps(0, start) == start by { NoSteps(start); }
    } else {
      var rest, b := data[..n - 1], data[n - 1];
      assert data == rest + [b];
      RegisterAppend(rest, [b], start);
      OneByte(Register(rest, start), b);
      RegisterIsRemainder(rest, start);
      DivideAppend(0, Bytes(start), Zeros(n - 1));
      DivideZeros(start, n - 1);
      DivideAppend(0, rest, Zeros(2));
      DivideZeros(Divide(0, rest), 2);
      DivideAppend(0, rest, [b]);
      DivideOne(Divide(0, rest), b);
      RemainderStep(Steps(8 * (n - 1), start), Divide(0, rest), b);
      StepsAdd(8 * (n - 1), 8, start);
    }
  }

  lemma EmptyDivide()
    ensures Divide(0, []) == 0
  {
  }

  lemma NoSteps(r: bv16)
    ensures Steps(0, r) == r
  {
  }

  lemma OneByte(c: bv16, b: bv8)
    ensures Register([b], c) == Next(c, b)
  {
    hide Next;
    assert [b][1..] == [];
  }

  /** `s` and `r` are the remainders of the start value and of the data before byte `b`. */
  lemma RemainderStep(s: bv16, r: bv16, b: bv8)
    ensures Next(Xor(s, Steps(16, r)), b) == Xor(Steps(8, s), Steps(16, Xor(Steps(8, r), b as bv16)))
  {
    hide Steps, Xor;
    var w := b as bv16;
    var t := Steps(16, r);
    StepsLinear(8, Xor(s, t), Up(b));
    StepsLinear(8, s, t);
    StepsLinear(16, Steps(8, r), w);
    StepsAdd(16, 8, r);
    StepsAdd(8, 16, r);
    StepsAdd(8, 8, w);
    ByteRises(b);
    XorAssoc(Steps(8, s), Steps(8, t), Steps(8, Up(b)));
  }

  // ---------------------------------------------------------------------
  // What the code detects
  // ---------------------------------------------------------------------

  lemma {:induction false} RegisterInjective(data: seq<bv8>, c: bv16, d: bv16)
    ensures Register(data, c) == Register(data, d) <==> c == d
    decreases |data|
  {
    hide Steps, Xor;
    if data != [] {
      var b := data[0];
      RegisterInjective(data[1..], Next(c, b), Next(d, b));
      StepsInjective(8, Xor(c, Up(b)), Xor(d, Up(b)));
      XorCancel(c, d, Up(b));
    }
  }

  lemma XorCancel(c: bv16, d: bv16, u: bv16)
    ensures Xor(c, u) == Xor(d, u) <==> c == d
  {
  }

  /** Two bytes go through the register as one word added to it and divided sixteen places. */
  lemma TwoBytes(c: bv16, a: bv8, b: bv8)
    ensures Next(Next(c, a), b) == Steps(16, Xor(c, Xor(Up(a), b as bv16)))
  {
    hide Steps, Xor;
    var w := b as bv16;
    ByteRises(b);
    StepsLinear(8, Xor(c, Up(a)), w);
    StepsAdd(8, 8, Xor(Xor(c, Up(a)), w));
    XorAssoc(c, Up(a), w);
  }

  lemma Spelling(a: bv8, b: bv8)
    ensures (Xor(Up(a), b as bv16) >> 8) as bv8 == a
    ensures (Xor(Up(a), b as bv16) & 0xFF) as bv8 == b
  {
  }

  lemma WordInjective(c: bv16, a: bv8, b: bv8, a': bv8, b': bv8)
    requires Xor(c, Xor(Up(a), b as bv16)) == Xor(c, Xor(Up(a'), b' as bv16))
    ensures a == a' && b == b'
  {
    hide Xor, Up;
    var v, v' := Xor(Up(a), b as bv16), Xor(Up(a'), b' as bv16);
    XorZero(c, v);
    XorZero(c, v');
    XorCancel(v, v', c);
    Spelling(a, b);
    Spelling(a', b');
  }

  /** Damage confined to two adjacent bytes always changes the CRC. */
  lemma BurstDetected(x: seq<bv8>, y: seq<bv8>, k: nat, c: bv16)
    requires |x| == |y| && k + 2 <= |x| && x != y
    requires x[..k] == y[..k] && x[k + 2..] == y[k + 2..]
    ensures Register(x, c) != Register(y, c)
  {
    var head, tail := x[..k], x[k + 2..];
    assert x == head + [x[k], x[k + 1]] + tail && y == head + [y[k], y[k + 1]] + tail;
    if Register(x, c) == Register(y, c) {
      SameDamage(head, x[k], x[k + 1], y[k], y[k + 1], tail, c);
    }
  }

  lemma SameDamage(head: seq<bv8>, a: bv8, b: bv8, a': bv8, b': bv8, tail: seq<bv8>, c: bv16)
    requires Register(head + [a, b] + tail, c) == Register(head + [a', b'] + tail, c)
    ensures a == a' && b == b'
  {
    hide Steps, Xor, Next, Up, Register;
    Damaged(head, a, b, tail, c);
    Damaged(head, a', b', tail, c);
    var s := Register(head, c);
    var u, v := Xor(s, Xor(Up(a), b as bv16)), Xor(s, Xor(Up(a'), b' as bv16));
    RegisterInjective(tail, Steps(16, u), Steps(16, v));
    StepsInjective(16, u, v);
    WordInjective(s, a, b, a', b');
  }

  lemma Damaged(head: seq<bv8>, a: bv8, b: bv8, tail: seq<bv8>, c: bv16)
    ensures Register(head + [a, b] + tail, c)
         == Register(tail, Steps(16, Xor(Register(head, c), Xor(Up(a), b as bv16))))
  {
    hide Steps, Xor, Next, Up, Register;
    RegisterAppend(head + [a, b], tail, c);
    RegisterAppend(head, [a, b], c);
    Pair(Register(head, c), a, b);
    TwoBytes(Register(head, c), a, b);
  }

  lemma Pair(c: bv16, a: bv8, b: bv8)
    ensures Register([a, b], c) == Next(Next(c, a), b)
  {
    hide Next;
    assert [a, b] == [a] + [b];
    RegisterAppend([a], [b], c);
    OneByte(c, a);
    OneByte(Next(c, a), b);
  }

  /** Two trailing bytes bring the register to zero if and only if they are the CRC, high byte first. */
  lemma TrailerCheck(data: seq<bv8>, c: bv16, a: bv8, b: bv8)
    ensures Register(data + [a, b], c) == 0 <==> [a, b] == Bytes(Register(data, c))
  {
    hide Steps, Xor, Next, Up, Register, Bytes;
    var s := Register(data, c);
    var w := Xor(Up(a), b as bv16);
    RegisterAppend(data, [a, b], c);
    Pair(s, a, b);
    TwoBytes(s, a, b);
    StepsKernel(16, Xor(s, w));
    XorZero(s, w);
    WordSpelled(s, a, b);
  }

  lemma WordSpelled(s: bv16, a: bv8, b: bv8)
    ensures s == Xor(Up(a), b as bv16) <==> [a, b] == Bytes(s)
  {
    hide Xor, Up, Bytes;
    if s == Xor(Up(a), b as bv16) { SpelledTo(s, a, b); }
    if [a, b] == Bytes(s) { SpelledFrom(s, a, b); }
  }

  lemma SpelledTo(s: bv16, a: bv8, b: bv8)
    requires s == Xor(Up(a), b as bv16)
    ensures [a, b] == Bytes(s)
  {
    Spelling(a, b);
  }

  lemma SpelledFrom(s: bv16, a: bv8, b: bv8)
    requires [a, b] == Bytes(s)
    ensures s == Xor(Up(a), b as bv16)
  {
    hide Xor, Up;
    assert [a, b][0] == Bytes(s)[0] && [a, b][1] == Bytes(s)[1];
    Respell(s, a, b);
  }
}

/** What the CRC detects, told of the bits in which two messages of one length differ. */
module CrcErrors {
  import opened CrcPolynomial

  /** The bits of a byte, highest first. */
  function BitList(b: bv8): (s: seq<bv16>)
    ensures |s| == 8
  {
    [Bit(b, 7), Bit(b, 6), Bit(b, 5), Bit(b, 4), Bit(b, 3), Bit(b, 2), Bit(b, 1), Bit(b, 0)]
  }

  function Bits(data: seq<bv8>): (s: seq<bv16>)
    ensures |s| == 8 * |data|
  {
    if data == [] then [] else BitList(data[0]) + Bits(data[1..])
  }

  function FeedAll(r: bv16, bits: seq<bv16>): bv16
    decreases |bits|
  {
    if bits == [] then r else FeedAll(Feed(r, bits[0]), bits[1..])
  }

  /** The bits in which two messages differ. */
  function Diff(a: seq<bv16>, b: seq<bv16>): (d: seq<bv16>)
    requires |a| == |b|
    ensures |d| == |a|
    ensures forall i :: 0 <= i < |a| ==> d[i] == Xor(a[i], b[i])
  {
    seq(|a|, i requires 0 <= i < |a| => Xor(a[i], b[i]))
  }

  function Errors(x: seq<bv8>, y: seq<bv8>): (d: seq<bv16>)
    requires |x| == |y|
    ensures |d| == 8 * |x|
  {
    Diff(Bits(x), Bits(y))
  }

  predicate BitOnly(bits: seq<bv16>) { forall b <- bits :: b == 0 || b == 1 }

  lemma {:induction false} FeedAllAppend(r: bv16, a: seq<bv16>, b: seq<bv16>)
    ensures FeedAll(r, a + b) == FeedAll(FeedAll(r, a), b)
    decreases |a|
  {
    hide Feed;
    if a == [] {
      assert a + b == b;
    } else {
      assert (a + b)[1..] == a[1..] + b;
      FeedAllAppend(Feed(r, a[0]), a[1..], b);
    }
  }

  lemma FeedByteIsAll(r: bv16, b: bv8)
    ensures FeedAll(r, BitList(b)) == FeedByte(r, b)
  {
    hide Feed, Bit;
    var s := BitList(b);
    FeedFour(r, s[..4]);
    FeedFour(FeedAll(r, s[..4]), s[4..]);
    assert s == s[..4] + s[4..];
    FeedAllAppend(r, s[..4], s[4..]);
  }

  lemma FeedFour(r: bv16, s: seq<bv16>)
    requires |s| == 4
    ensures FeedAll(r, s) == Feed(Feed(Feed(Feed(r, s[0]), s[1]), s[2]), s[3])
  {
    hide Feed;
    assert s[1..][1..] == s[2..] && s[2..][1..] == s[3..] && s[3..][1..] == [];
    var r1 := Feed(r, s[0]);
    var r2 := Feed(r1, s[1]);
    var r3 := Feed(r2, s[2]);
    assert FeedAll(r3, s[3..]) == Feed(r3, s[3]);
    assert FeedAll(r2, s[2..]) == FeedAll(r3, s[3..]);
    assert FeedAll(r1, s[1..]) == FeedAll(r2, s[2..]);
  }

  lemma {:induction false} DivideIsAll(r: bv16, data: seq<bv8>)
    ensures Divide(r, data) == FeedAll(r, Bits(data))
    decreases |data|
  {
    hide FeedByte, BitList;
    if data != [] {
      FeedByteIsAll(r, data[0]);
      FeedAllAppend(r, BitList(data[0]), Bits(data[1..]));
      DivideIsAll(FeedByte(r, data[0]), data[1..]);
    }
  }

  lemma {:induction false} FeedAllLinear(r: bv16, t: bv16, a: seq<bv16>, b: seq<bv16>)
    requires |a| == |b|
    ensures FeedAll(Xor(r, t), Diff(a, b)) == Xor(FeedAll(r, a), FeedAll(t, b))
    decreases |a|
  {
    hide Xor, Step;
    if a != [] {
      assert Diff(a, b)[1..] == Diff(a[1..], b[1..]);
      StepLinear(r, t);
      Shuffle(Step(r), Step(t), a[0], b[0]);
      FeedAllLinear(Feed(r, a[0]), Feed(t, b[0]), a[1..], b[1..]);
    }
  }

  lemma Shuffle(r: bv16, t: bv16, a: bv16, b: bv16)
    ensures Xor(Xor(r, t), Xor(a, b)) == Xor(Xor(r, a), Xor(t, b))
  {
    hide Xor;
    XorAssoc(r, t, Xor(a, b));
    XorAssoc(t, a, b);
    XorZero(t, a);
    XorAssoc(a, t, b);
    XorAssoc(r, a, Xor(t, b));
  }

  /** Errors stay undetected exactly if the polynomial of the differing bits is divisible. */
  lemma SameCrc(x: seq<bv8>, y: seq<bv8>, c: bv16)
    requires |x| == |y|
    ensures Register(x, c) == Register(y, c) <==> FeedAll(0, Errors(x, y)) == 0
  {
    hide Register, Divide, Steps, Xor, Bytes;
    RegisterIsRemainder(x, c);
    RegisterIsRemainder(y, c);
    var s := Divide(0, Bytes(c) + Zeros(|x|));
    var u, v := Divide(0, x), Divide(0, y);
    DivideAppend(0, x, Zeros(2));
    DivideAppend(0, y, Zeros(2));
    DivideZeros(u, 2);
    DivideZeros(v, 2);
    XorLeft(s, Steps(16, u), Steps(16, v));
    StepsInjective(16, u, v);
    DivideIsAll(0, x);
    DivideIsAll(0, y);
    FeedAllLinear(0, 0, Bits(x), Bits(y));
    XorZero(u, v);
    XorZero(0, 0);
  }

  lemma XorLeft(s: bv16, u: bv16, v: bv16)
    ensures Xor(s, u) == Xor(s, v) <==> u == v
  {
  }

  // ---------------------------------------------------------------------
  // Odd numbers of errors
  // ---------------------------------------------------------------------

  /** Whether an odd number of the bits of a word are set. */
  predicate Odd(r: bv16)
    decreases r
  {
    if r == 0 then false
    else
      assert r >> 1 < r by { Halved(r); }
      LowBit(r) != Odd(r >> 1)
  }

  predicate LowBit(r: bv16) { r & 1 == 1 }

  lemma Halved(r: bv16)
    requires r != 0
    ensures r >> 1 < r
  {
  }

  lemma OddUnfold(r: bv16)
    ensures Odd(r) <==> (LowBit(r) != Odd(r >> 1))
  {
    if r == 0 { assert r >> 1 == 0 && !LowBit(r); }
  }

  lemma HalvedXor(a: bv16, b: bv16)
    ensures Xor(a, b) >> 1 == Xor(a >> 1, b >> 1)
  {
  }

  lemma LowXor(a: bv16, b: bv16)
    ensures LowBit(Xor(a, b)) <==> (LowBit(a) != LowBit(b))
  {
  }

  lemma {:induction false} XorOdd(a: bv16, b: bv16)
    ensures Odd(Xor(a, b)) <==> (Odd(a) != Odd(b))
    decreases a
  {
    hide Xor, Odd, LowBit;
    if a == 0 {
      XorZero(b, 0);
      assert !Odd(0) by { NotOdd(); }
    } else {
      Halved(a);
      HalvedXor(a, b);
      LowXor(a, b);
      XorOdd(a >> 1, b >> 1);
      OddUnfold(a);
      OddUnfold(b);
      OddUnfold(Xor(a, b));
    }
  }

  function Count(bits: seq<bv16>): nat {
    if bits == [] then 0 else (if bits[0] == 0 then 0 else 1) + Count(bits[1..])
  }

  predicate Top(r: bv16) { r & 0x8000 != 0 }

  /** The word without its top bit. */
  function Clear(r: bv16): bv16 { r & 0x7FFF }

  function Twofold(r: bv16): bv16 { r << 1 }

  /** The divisor has an even number of terms, so x + 1 divides it and a step keeps the parity. */
  lemma StepOdd(r: bv16)
    ensures Odd(Step(r)) <==> Odd(r)
  {
    hide Odd, Xor, Step, Top, Clear, Twofold;
    var low := Clear(r);
    StepClear(r);
    TwofoldOdd(r);
    if Top(r) {
      XorOdd(Twofold(low), 0x1021);
      ClearTop(r);
      XorOdd(0x8000, low);
      assert Odd(0x1021) && Odd(0x8000) by { OddConstants(); }
    } else {
      ClearNone(r);
    }
  }

  lemma StepClear(r: bv16)
    ensures Step(r) == if Top(r) then Xor(Twofold(Clear(r)), 0x1021) else Twofold(Clear(r))
  {
    hide Step, Top, Xor, Clear, Twofold;
    StepTop(r);
    TwofoldClear(r);
  }

  lemma StepTop(r: bv16)
    ensures Step(r) == if Top(r) then Xor(Twofold(r), 0x1021) else Twofold(r)
  {
  }

  lemma TwofoldClear(r: bv16)
    ensures Twofold(Clear(r)) == Twofold(r)
  {
  }

  lemma ClearTop(r: bv16)
    requires Top(r)
    ensures r == Xor(0x8000, Clear(r))
  {
  }

  lemma ClearNone(r: bv16)
    requires !Top(r)
    ensures r == Clear(r)
  {
  }

  lemma TwofoldOdd(r: bv16)
    ensures Odd(Twofold(Clear(r))) <==> Odd(Clear(r))
  {
    hide Odd, Clear, Twofold, LowBit;
    OddUnfold(Twofold(Clear(r)));
    BackDown(r);
  }

  lemma BackDown(r: bv16)
    ensures Twofold(Clear(r)) >> 1 == Clear(r) && !LowBit(Twofold(Clear(r)))
  {
  }

  lemma OddConstants()
    ensures Odd(0x1021) && Odd(0x8000) && Odd(1)
  {
    assert !Odd(0);
    assert Odd(1);
    assert Odd(2) && Odd(4) && Odd(8);
    assert Odd(0x10) && Odd(0x20) && Odd(0x40) && Odd(0x80);
    assert !Odd(0x81) && !Odd(0x102) && !Odd(0x204) && !Odd(0x408) && !Odd(0x810);
    assert Odd(0x100) && Odd(0x200) && Odd(0x400) && Odd(0x800) && Odd(0x1000) && Odd(0x2000) && Odd(0x4000);
  }

  lemma FeedOdd(r: bv16, bit: bv16)
    requires bit == 0 || bit == 1
    ensures Odd(Feed(r, bit)) <==> (Odd(r) != (bit == 1))
  {
    hide Step, Odd, Xor;
    StepOdd(r);
    XorOdd(Step(r), bit);
    assert Odd(1) && !Odd(0) by { OddConstants(); NotOdd(); }
  }

  lemma {:induction false} FeedAllOdd(r: bv16, bits: seq<bv16>)
    requires BitOnly(bits)
    ensures Odd(FeedAll(r, bits)) <==> (Odd(r) != (Count(bits) % 2 == 1))
    decreases |bits|
  {
    hide Odd, Feed;
    if bits != [] {
      assert bits[0] in bits && forall b <- bits[1..] :: b in bits;
      FeedOdd(r, bits[0]);
      FeedAllOdd(Feed(r, bits[0]), bits[1..]);
    }
  }

  lemma OneBit(b: bv8)
    ensures BitOnly(BitList(b))
  {
  }

  lemma {:induction false} BitsOnly(data: seq<bv8>)
    ensures BitOnly(Bits(data))
  {
    hide BitList;
    if data != [] {
      OneBit(data[0]);
      BitsOnly(data[1..]);
    }
  }

  lemma ErrorsOnly(x: seq<bv8>, y: seq<bv8>)
    requires |x| == |y|
    ensures BitOnly(Errors(x, y))
  {
    hide Bits;
    BitsOnly(x);
    BitsOnly(y);
    var a, b := Bits(x), Bits(y);
    forall i | 0 <= i < |a| ensures Errors(x, y)[i] == 0 || Errors(x, y)[i] == 1 {
      assert a[i] in a && b[i] in b;
      BitSum(a[i], b[i]);
    }
  }

  lemma BitSum(a: bv16, b: bv16)
    requires (a == 0 || a == 1) && (b == 0 || b == 1)
    ensures Xor(a, b) == 0 || Xor(a, b) == 1
  {
  }

  /** Every odd number of wrong bits, wherever they are, changes the CRC. */
  lemma OddErrorsDetected(x: seq<bv8>, y: seq<bv8>, c: bv16)
    requires |x| == |y| && Count(Errors(x, y)) % 2 == 1
    ensures Register(x, c) != Register(y, c)
  {
    hide Register, Errors, Odd;
    SameCrc(x, y, c);
    ErrorsOnly(x, y);
    FeedAllOdd(0, Errors(x, y));
    assert !Odd(0) by { NotOdd(); }
  }

  lemma NotOdd()
    ensures !Odd(0)
  {
  }

  // ---------------------------------------------------------------------
  // Bursts
  // ---------------------------------------------------------------------

  function AllZero(n: nat): seq<bv16> { seq(n, _ => 0) }

  /** Zero bits brought down keep a remainder zero, or not zero. */
  lemma {:induction false} FeedZeros(r: bv16, n: nat)
    ensures FeedAll(r, AllZero(n)) == 0 <==> r == 0
    decreases n
  {
    hide Feed;
    if n > 0 {
      assert AllZero(n)[1..] == AllZero(n - 1);
      FeedZero(r);
      FeedZeros(Feed(r, 0), n - 1);
    }
  }

  lemma FeedZero(r: bv16)
    ensures Feed(r, 0) == 0 <==> r == 0
  {
    hide Step;
    StepKernel(r);
    XorZero(Step(r), 0);
  }

  /** A bound for the first `n` bits read as a number. */
  function Limit(n: nat): bv16
    requires n < 16
  {
    if n == 0 then 1 else Limit(n - 1) << 1
  }

  predicate Below(r: bv16, limit: bv16) { r < limit }

  /** `next` is twice `limit`, and still a word. */
  predicate Twice(limit: bv16, next: bv16) { 0 < limit <= 0x4000 && next == limit << 1 }

  lemma LimitTwice(n: nat)
    requires n < 15
    ensures Twice(Limit(n), Limit(n + 1))
  {
    LimitSmall(n);
  }

  lemma LimitSmall(n: nat)
    requires n < 15
    ensures 0 < Limit(n) <= 0x4000
  {
    assert Limit(1) == 2 && Limit(2) == 4 && Limit(3) == 8 && Limit(4) == 0x10 && Limit(5) == 0x20;
    assert Limit(6) == 0x40 && Limit(7) == 0x80 && Limit(8) == 0x100 && Limit(9) == 0x200 && Limit(10) == 0x400;
    assert Limit(11) == 0x800 && Limit(12) == 0x1000 && Limit(13) == 0x2000 && Limit(14) == 0x4000;
  }

  /** Up to sixteen bits only stand in the register: it is zero only if all of them are. */
  lemma {:induction false} ShortFeed(r: bv16, bits: seq<bv16>, n: nat)
    requires BitOnly(bits) && n + |bits| <= 16
    requires n < 16 ==> Below(r, Limit(n))
    ensures FeedAll(r, bits) == 0 <==> r == 0 && Count(bits) == 0
    decreases |bits|
  {
    hide Feed, Limit, FeedAll, Count, Below;
    ShortUnfold(r, bits);
    if bits != [] {
      assert bits[0] in bits && forall b <- bits[1..] :: b in bits;
      ShortStep(r, bits[0], n);
      ShortFeed(Feed(r, bits[0]), bits[1..], n + 1);
    }
  }

  lemma ShortStep(r: bv16, bit: bv16, n: nat)
    requires n < 16 && Below(r, Limit(n)) && (bit == 0 || bit == 1)
    ensures n < 15 ==> Below(Feed(r, bit), Limit(n + 1))
    ensures Feed(r, bit) == 0 <==> r == 0 && bit == 0
  {
    hide Feed, Limit, Below;
    if n < 15 { EarlyStep(r, bit, n); } else { LastStep(r, bit, n); }
  }

  lemma EarlyStep(r: bv16, bit: bv16, n: nat)
    requires n < 15 && Below(r, Limit(n)) && (bit == 0 || bit == 1)
    ensures Below(Feed(r, bit), Limit(n + 1))
    ensures Feed(r, bit) == 0 <==> r == 0 && bit == 0
  {
    hide Feed, Limit, Below, Twice;
    LimitTwice(n);
    FeedLow(r, bit, Limit(n), Limit(n + 1));
  }

  lemma LastStep(r: bv16, bit: bv16, n: nat)
    requires n == 15 && Below(r, Limit(n)) && (bit == 0 || bit == 1)
    ensures Feed(r, bit) == 0 <==> r == 0 && bit == 0
  {
    hide Feed, Limit;
    LimitLast();
    FeedHigh(r, bit);
  }

  lemma ShortUnfold(r: bv16, bits: seq<bv16>)
    ensures bits == [] ==> FeedAll(r, bits) == r && Count(bits) == 0
    ensures bits != [] ==> FeedAll(r, bits) == FeedAll(Feed(r, bits[0]), bits[1..])
    ensures bits != [] ==> (Count(bits) == 0 <==> bits[0] == 0 && Count(bits[1..]) == 0)
  {
    hide Feed;
  }

  lemma LimitLast()
    ensures Limit(15) == 0x8000
  {
    LimitSmall(14);
    assert Limit(1) == 2 && Limit(2) == 4 && Limit(3) == 8 && Limit(4) == 0x10 && Limit(5) == 0x20;
    assert Limit(6) == 0x40 && Limit(7) == 0x80 && Limit(8) == 0x100 && Limit(9) == 0x200 && Limit(10) == 0x400;
    assert Limit(11) == 0x800 && Limit(12) == 0x1000 && Limit(13) == 0x2000 && Limit(14) == 0x4000;
  }

  lemma FeedLow(r: bv16, bit: bv16, limit: bv16, next: bv16)
    requires Below(r, limit) && Twice(limit, next) && (bit == 0 || bit == 1)
    ensures Below(Feed(r, bit), next)
    ensures Feed(r, bit) == 0 <==> r == 0 && bit == 0
  {
  }

  lemma FeedHigh(r: bv16, bit: bv16)
    requires r < 0x8000 && (bit == 0 || bit == 1)
    ensures Feed(r, bit) == 0 <==> r == 0 && bit == 0
  {
  }

  /** All wrong bits lie among the sixteen from bit `from` on. */
  ghost predicate Burst(d: seq<bv16>, from: nat) {
    forall i :: 0 <= i < |d| && d[i] != 0 ==> from <= i < from + 16
  }

  lemma {:induction false} NoneCounted(bits: seq<bv16>)
    requires Count(bits) == 0
    ensures forall i :: 0 <= i < |bits| ==> bits[i] == 0
  {
    if bits != [] {
      NoneCounted(bits[1..]);
      assert forall i :: 0 < i < |bits| ==> bits[i] == bits[1..][i - 1];
    }
  }

  /** A burst of up to sixteen bits, at any bit offset, is not divisible. */
  lemma BurstNotDivisible(d: seq<bv16>, from: nat)
    requires BitOnly(d) && Burst(d, from) && FeedAll(0, d) == 0
    ensures forall b <- d :: b == 0
  {
    hide FeedAll, Count, Burst, AllZero;
    if from < |d| {
      var to := if from + 16 < |d| then from + 16 else |d|;
      var before, bits, after := d[..from], d[from..to], d[to..];
      forall i | 0 <= i < |d| && !(from <= i < to) ensures d[i] == 0 {
        OutsideBurst(d, from, i);
      }
      SameZeros(before);
      SameZeros(after);
      assert d == before + (bits + after);
      FeedAllAppend(0, before, bits + after);
      FeedZeros(0, from);
      FeedAllAppend(0, bits, after);
      FeedZeros(FeedAll(0, bits), |d| - to);
      assert BitOnly(bits) by { assert forall b <- bits :: b in d; }
      assert Below(0, Limit(0));
      ShortFeed(0, bits, 0);
      NoneCounted(bits);
      forall i | 0 <= i < |d| ensures d[i] == 0 {
        if from <= i < to { assert d[i] == bits[i - from]; }
      }
    } else {
      forall i | 0 <= i < |d| ensures d[i] == 0 { OutsideBurst(d, from, i); }
    }
  }

  lemma OutsideBurst(d: seq<bv16>, from: nat, i: nat)
    requires Burst(d, from) && i < |d| && !(from <= i < from + 16)
    ensures d[i] == 0
  {
  }

  lemma SameZeros(s: seq<bv16>)
    requires forall i :: 0 <= i < |s| ==> s[i] == 0
    ensures s == AllZero(|s|)
  {
  }

  lemma ByteOfBits(a: bv8, b: bv8)
    requires BitList(a) == BitList(b)
    ensures a == b
  {
    var s, t := BitList(a), BitList(b);
    assert s[0] == t[0] && s[1] == t[1] && s[2] == t[2] && s[3] == t[3];
    assert s[4] == t[4] && s[5] == t[5] && s[6] == t[6] && s[7] == t[7];
  }

  lemma {:induction false} BitsInjective(x: seq<bv8>, y: seq<bv8>)
    requires Bits(x) == Bits(y)
    ensures x == y
    decreases |x|
  {
    hide BitList;
    assert |x| == |y|;
    if x != [] {
      var s, t := BitList(x[0]), BitList(y[0]);
      assert Bits(x)[..8] == s && Bits(y)[..8] == t && Bits(x)[8..] == Bits(x[1..]) && Bits(y)[8..] == Bits(y[1..]);
      ByteOfBits(x[0], y[0]);
      BitsInjective(x[1..], y[1..]);
    }
  }

  /** Damage confined to sixteen consecutive bits, at any offset, always changes the CRC. */
  lemma BurstsDetected(x: seq<bv8>, y: seq<bv8>, c: bv16, from: nat)
    requires |x| == |y| && x != y && Burst(Errors(x, y), from)
    ensures Register(x, c) != Register(y, c)
  {
    hide Register, Bits, FeedAll, BitOnly;
    if Register(x, c) == Register(y, c) {
      SameCrc(x, y, c);
      ErrorsOnly(x, y);
      BurstNotDivisible(Errors(x, y), from);
      var a, b := Bits(x), Bits(y);
      forall i | 0 <= i < |a| ensures a[i] == b[i] {
        assert Errors(x, y)[i] in Errors(x, y);
        XorZero(a[i], b[i]);
      }
      assert a == b;
      BitsInjective(x, y);
    }
  }
}

/** The table-driven CRC-16 of XBee/xmodem_crc16.c. */
module Crc16 {
  import opened CrcPolynomial

  /** `crc16_table`, sixteen entries a row. */
  const TABLE: seq<seq<bv16>> := [
    [0x0000, 0x1021, 0x2042, 0x3063, 0x4084, 0x50A5, 0x60C6, 0x70E7,
     0x8108, 0x9129, 0xA14A, 0xB16B, 0xC18C, 0xD1AD, 0xE1CE, 0xF1EF],
    [0x1231, 0x0210, 0x3273, 0x2252, 0x52B5, 0x4294, 0x72F7, 0x62D6,
     0x9339, 0x8318, 0xB37B, 0xA35A, 0xD3BD, 0xC39C, 0xF3FF, 0xE3DE],
    [0x2462, 0x3443, 0x0420, 0x1401, 0x64E6, 0x74C7, 0x44A4, 0x5485,
     0xA56A, 0xB54B, 0x8528, 0x9509, 0xE5EE, 0xF5CF, 0xC5AC, 0xD58D],
    [0x3653, 0x2672, 0x1611, 0x0630, 0x76D7, 0x66F6, 0x5695, 0x46B4,
     0xB75B, 0xA77A, 0x9719, 0x8738, 0xF7DF, 0xE7FE, 0xD79D, 0xC7BC],
    [0x48C4, 0x58E5, 0x6886, 0x78A7, 0x0840, 0x1861, 0x2802, 0x3823,
     0xC9CC, 0xD9ED, 0xE98E, 0xF9AF, 0x8948, 0x9969, 0xA90A, 0xB92B],
    [0x5AF5, 0x4AD4, 0x7AB7, 0x6A96, 0x1A71, 0x0A50, 0x3A33, 0x2A12,
     0xDBFD, 0xCBDC, 0xFBBF, 0xEB9E, 0x9B79, 0x8B58, 0xBB3B, 0xAB1A],
    [0x6CA6, 0x7C87, 0x4CE4, 0x5CC5, 0x2C22, 0x3C03, 0x0C60, 0x1C41,
     0xEDAE, 0xFD8F, 0xCDEC, 0xDDCD, 0xAD2A, 0xBD0B, 0x8D68, 0x9D49],
    [0x7E97, 0x6EB6, 0x5ED5, 0x4EF4, 0x3E13, 0x2E32, 0x1E51, 0x0E70,
     0xFF9F, 0xEFBE, 0xDFDD, 0xCFFC, 0xBF1B, 0xAF3A, 0x9F59, 0x8F78],
    [0x9188, 0x81A9, 0xB1CA, 0xA1EB, 0xD10C, 0xC12D, 0xF14E, 0xE16F,
     0x1080, 0x00A1, 0x30C2, 0x20E3, 0x5004, 0x4025, 0x7046, 0x6067],
    [0x83B9, 0x9398, 0xA3FB, 0xB3DA, 0xC33D, 0xD31C, 0xE37F, 0xF35E,
     0x02B1, 0x1290, 0x22F3, 0x32D2, 0x4235, 0x5214, 0x6277, 0x7256],
    [0xB5EA, 0xA5CB, 0x95A8, 0x8589, 0xF56E, 0xE54F, 0xD52C, 0xC50D,
     0x34E2, 0x24C3, 0x14A0, 0x0481, 0x7466, 0x6447, 0x5424, 0x4405],
    [0xA7DB, 0xB7FA, 0x8799, 0x97B8, 0xE75F, 0xF77E, 0xC71D, 0xD73C,
     0x26D3, 0x36F2, 0x0691, 0x16B0, 0x6657, 0x7676, 0x4615, 0x5634],
    [0xD94C, 0xC96D, 0xF90E, 0xE92F, 0x99C8, 0x89E9, 0xB98A, 0xA9AB,
     0x5844, 0x4865, 0x7806, 0x6827, 0x18C0, 0x08E1, 0x3882, 0x28A3],
    [0xCB7D, 0xDB5C, 0xEB3F, 0xFB1E, 0x8BF9, 0x9BD8, 0xABBB, 0xBB9A,
     0x4A75, 0x5A54, 0x6A37, 0x7A16, 0x0AF1, 0x1AD0, 0x2AB3, 0x3A92],
    [0xFD2E, 0xED0F, 0xDD6C, 0xCD4D, 0xBDAA, 0xAD8B, 0x9DE8, 0x8DC9,
     0x7C26, 0x6C07, 0x5C64, 0x4C45, 0x3CA2, 0x2C83, 0x1CE0, 0x0CC1],
    [0xEF1F, 0xFF3E, 0xCF5D, 0xDF7C, 0xAF9B, 0xBFBA, 0x8FD9, 0x9FF8,
     0x6E17, 0x7E36, 0x4E55, 0x5E74, 0x2E93, 0x3EB2, 0x0ED1, 0x1EF0]
  ]

  function Entry(i: bv16): bv16
    requires i < 256
  {
    TABLE[(i >> 4) as int][(i & 0xF) as int]
  }

  lemma LowerTable(i: bv16)
    requires i < 0x80
    ensures Entry(i) == Steps(8, i << 8)
  {
  }

  lemma UpperTable(i: bv16)
    requires 0x80 <= i < 0x100
    ensures Entry(i) == Steps(8, i << 8)
  {
  }

  /** Every table entry is its index divided eight places. */
  lemma TableIsDivision(i: bv16)
    requires i < 256
    ensures Entry(i) == Steps(8, i << 8)
  {
    hide Entry, Steps;
    if i < 0x80 { LowerTable(i); } else { UpperTable(i); }
  }

  /** `crc16_calc`: the table-driven loop computes the defined remainder for every start value. */
  method Calc(data: seq<bv8>, start: bv16) returns (current: bv16)
    ensures current == Remainder(data, start)
  {
    current := start;
    var i := 0;
    while i < |data|
      invariant 0 <= i <= |data|
      invariant Register(data, start) == Register(data[i..], current)
    {
      TableStep(current, data[i]);
      RegisterUnfold(data, i, current);
      current := Xor(current << 8, Entry(Xor(current >> 8, data[i] as bv16)));
      i := i + 1;
    }
    RegisterIsRemainder(data, start);
  }

  lemma RegisterUnfold(data: seq<bv8>, i: nat, c: bv16)
    requires i < |data|
    ensures Register(data[i..], c) == Register(data[i + 1..], Next(c, data[i]))
  {
    assert data[i..][1..] == data[i + 1..];
  }

  /** One table look-up is one byte of the register. */
  lemma TableStep(c: bv16, b: bv8)
    ensures Xor(c >> 8, b as bv16) < 256
    ensures Xor(c << 8, Entry(Xor(c >> 8, b as bv16))) == Next(c, b)
  {
    hide Steps, Entry, Step, Xor, Up;
    SplitWord(c, b);
    var i, low := Xor(c >> 8, b as bv16), (c & 0xFF) as bv8;
    TableIsDivision(i);
    ByteRises(low);
    StepsLinear(8, i << 8, low as bv16);
    XorZero(Steps(8, i << 8), Up(low));
  }

  lemma SplitWord(c: bv16, b: bv8)
    ensures Xor(c >> 8, b as bv16) < 256
    ensures Xor(c, Up(b)) == Xor(Xor(c >> 8, b as bv16) << 8, ((c & 0xFF) as bv8) as bv16)
    ensures c << 8 == Up((c & 0xFF) as bv8)
  {
  }
}
