/**
 Unsigned 64-bit division (XBee/jslong.c): schoolbook long division by half-words
 with normalisation and digit correction.
 */
module JsDivision {
  import opened Words
  import opened JsLong

  /** What the estimate of one half-digit is off by: never more than two. */
  lemma HalfDigitEstimate(x: u32, b: u32, h: u16, d1: u16, d0: u16, q: int, r: int, m: int)
    requires 0x8000_0000 <= b && x < b && d1 == Hi16(b) && d0 == Lo16(b)
    requires q == x / d1 && r == (x % d1) * 0x1_0000 + h && m == q * d0
    ensures 0 <= q <= 0x1_0001 && 0 <= m <= 0xFFFF_FFFF && 0 <= r < b
    ensures x * 0x1_0000 + h == q * b + r - m
    ensures m > 0 ==> q >= 1
    ensures m > b ==> q >= 2
  {
    assert x == q * d1 + x % d1;
    QuotientShrinks(x, d1, q, x % d1);
    if q > 0x1_0001 {
      MulMono(0x1_0002, q, d1);
    }
    MulBound(q, d0, 0x1_0001, 0xFFFF);
    MulSplit(q, d1, d0);
  }

  lemma MulSplit(q: int, d1: int, d0: int)
    ensures q * (d1 * 0x1_0000 + d0) == q * d1 * 0x1_0000 + q * d0
  {
  }

  lemma DigitBound(n: nat, b: nat, k: int, r: nat, top: nat)
    requires n == k * b + r && r < b && n < top * b
    ensures 0 <= k < top
  {
    if k >= top { MulMono(top, k, b); }
    if k < 0 { MulMono(k, -1, b); }
  }

  /** The two corrections, with their wrapped additions, end on the true remainder. */
  lemma Corrections(n: int, b: u32, q: u32, r: u32, m: u32, q': u32, r': u32, qb: int)
    requires 0x8000_0000 <= b && r < b && n == qb + r - m
    requires m > 0 ==> q >= 1
    requires m > b ==> q >= 2
    requires q' == if !(r < m) then q
                   else if Add32(r, b) >= b && Add32(r, b) < m then Sub32(Sub32(q, 1), 1)
                   else Sub32(q, 1)
    requires r' == if !(r < m) then r
                   else if Add32(r, b) >= b && Add32(r, b) < m then Add32(Add32(r, b), b)
                   else Add32(r, b)
    ensures Sub32(r', m) < b
    ensures var c := q - q'; 0 <= c <= 2 && n == qb - (if c == 0 then 0 else if c == 1 then b else 2 * b) + Sub32(r', m)
  {
    if !(r < m) {
      Residue(r - m, r - m, 0);
    } else if r + b >= 0x1_0000_0000 {
      Residue(r + b, r + b - 0x1_0000_0000, 1);
      Residue(r + b - 0x1_0000_0000 - m, r + b - m, -1);
    } else if r + b >= m {
      Residue(r + b, r + b, 0);
      Residue(r + b - m, r + b - m, 0);
    } else {
      Residue(r + b, r + b, 0);
      WrapTwice(r + b, b, m);
    }
  }

  lemma Residue(x: int, y: int, k: int)
    requires 0 <= y < 0x1_0000_0000 && x == y + k * 0x1_0000_0000
    ensures x % 0x1_0000_0000 == y
  {
    DivModUnique(x, 0x1_0000_0000, k, y);
  }

  /** Adding the divisor once more may wrap around; taking the product off wraps back. */
  lemma WrapTwice(s: u32, b: u32, m: u32)
    requires s < m && 0x8000_0000 <= b <= s
    ensures Sub32(Add32(s, b), m) == s + b - m < b
  {
    var k := if s + b >= 0x1_0000_0000 then 1 else 0;
    var w: int := s + b - k * 0x1_0000_0000;
    Residue(s + b, w, k);
    Residue(w - m, s + b - m, -k);
  }

  lemma TakeBack(q: int, c: int, b: int)
    requires 0 <= c <= 2
    ensures (q - c) * b == q * b - (if c == 0 then 0 else if c == 1 then b else 2 * b)
  {
  }

  lemma HalfDigitExact(x: u32, b: u32, h: u16, q0: u32, r0: u32, m: u32, q: u32, r: u32)
    requires 0x8000_0000 <= b && x < b
    requires q0 == x / Hi16(b) && r0 == (x % Hi16(b)) * 0x1_0000 + h && m == q0 * Lo16(b)
    requires q == if !(r0 < m) then q0
                  else if Add32(r0, b) >= b && Add32(r0, b) < m then Sub32(Sub32(q0, 1), 1)
                  else Sub32(q0, 1)
    requires r == if !(r0 < m) then r0
                  else if Add32(r0, b) >= b && Add32(r0, b) < m then Add32(Add32(r0, b), b)
                  else Add32(r0, b)
    ensures x * 0x1_0000 + h == q * b + Sub32(r, m) && Sub32(r, m) < b && q < 0x1_0000
  {
    var n: int := x * 0x1_0000 + h;
    HalfDigitEstimate(x, b, h, Hi16(b), Lo16(b), q0, r0, m);
    Corrections(n, b, q0, r0, m, q, r, q0 * b);
    TakeBack(q0, q0 - q, b);
    DigitBound(n, b, q, Sub32(r, m), 0x1_0000);
  }

  /** The estimate stays within 32 bits, so its product with `d0` does not wrap. */
  lemma EstimateFits(x: u32, b: u32, h: u16)
    requires 0x8000_0000 <= b && x < b
    ensures Hi16(b) > 0 && 0 <= x / Hi16(b) <= 0x1_0001 && 0 <= x % Hi16(b) < 0x1_0000
    ensures Mul32(x / Hi16(b), Lo16(b)) == (x / Hi16(b)) * Lo16(b)
  {
    var d1 := Hi16(b);
    HalfDigitEstimate(x, b, h, d1, Lo16(b), x / d1, (x % d1) * 0x1_0000 + h, (x / d1) * Lo16(b));
  }

  /**
   One half-digit of `norm_udivmod32`, which the C text writes out twice: estimate
   with the top half of the divisor, then correct at most twice.
   */
  method HalfDigit(x: u32, b: u32, h: u16) returns (q: u32, r: u32)
    requires b >= 0x8000_0000 && x < b
    ensures x * 0x1_0000 + h == q * b + r && r < b && q < 0x1_0000
  {
    var d1, d0 := Hi16(b), Lo16(b);
    EstimateFits(x, b, h);
    r, q := x % d1, x / d1;
    var m := Mul32(q, d0);
    Join16(r, h);
    r := Or(Shl32(r, 16), h);
    ghost var q0, r0 := q, r;
    if r < m {
      q, r := Sub32(q, 1), Add32(r, b);
      if r >= b && r < m {      // no carry out of the addition
        q, r := Sub32(q, 1), Add32(r, b);
      }
    }
    HalfDigitExact(x, b, h, q0, r0, m, q, r);
    r := Sub32(r, m);
  }

  /** `norm_udivmod32` is exact for every divisor with its top bit set. */
  method NormUdivmod32(a: U64, b: u32) returns (qp: u32, rp: u32)
    requires b >= 0x8000_0000 && a.hi < b
    ensures a.Val() == qp * b + rp && rp < b
  {
    var q1, r1 := HalfDigit(a.hi, b, Hi16(a.lo));
    var q0, r0 := HalfDigit(r1, b, Lo16(a.lo));
    Join16(q1, q0);
    qp, rp := Or(Shl32(q1, 16), q0), r0;
    TwoDigits(q1, q0, b);
  }

  lemma TwoDigits(q1: int, q0: int, b: int)
    ensures (q1 * 0x1_0000 + q0) * b == (q1 * b) * 0x1_0000 + q0 * b
  {
  }

  // ---------------------------------------------------------------------
  // Normalising shifts
  // ---------------------------------------------------------------------

  /** `v` is what is left of `a` after dropping `32 - r` bits, and it fits in `w` bits. */
  ghost predicate TopBits(a: nat, v: nat, r: nat, w: nat) {
    w <= r <= 32 && v == Shr(a, 32 - r) && v < Pow2(w) && (r < 32 ==> v > 0)
  }

  lemma TopBitsStep(a: nat, v: nat, r: nat, k: nat)
    requires TopBits(a, v, r, 2 * k)
    ensures Shr(v, k) == 0 ==> TopBits(a, v, r, k)
    ensures Shr(v, k) != 0 ==> TopBits(a, Shr(v, k), r - k, k)
  {
    ShrZero(v, k);
    ShrAdd(a, 32 - r, k);
    assert 32 - r + k == 32 - (r - k);
    ShrLess(v, k, k);
  }

  /** One of the five tests of `CountLeadingZeros`: if `v >> k` is not zero, keep it and lower `r` by `k`. */
  method TryShift(ghost a: u32, v: u32, r: nat, k: nat) returns (v': u32, r': nat)
    requires TopBits(a, v, r, 2 * k)
    ensures TopBits(a, v', r', k)
  {
    TopBitsStep(a, v, r, k);
    v', r' := v, r;
    if Shr(v, k) != 0 {
      r', v' := r - k, Shr(v, k);
    }
  }

  /** The shift count that brings the top set bit of `a` to bit 31. */
  method CountLeadingZeros(a: u32) returns (r: nat)
    ensures a == 0 <==> r == 32
    ensures a > 0 ==> r < 32 && Pow2(31 - r) <= a < Pow2(32 - r)
  {
    var v := a;
    Pow2Values();
    v, r := TryShift(a, v, 32, 16);
    v, r := TryShift(a, v, r, 8);
    v, r := TryShift(a, v, r, 4);
    v, r := TryShift(a, v, r, 2);
    v, r := TryShift(a, v, r, 1);
    LastBit(a, v, r);
    if And(v, 1) != 0 {
      r := r - 1;
    }
  }

  lemma LastBit(a: u32, v: nat, r: nat)
    requires TopBits(a, v, r, 1)
    ensures And(v, 1) != 0 ==> a > 0 && Pow2(32 - r) <= a < Pow2(33 - r)
    ensures And(v, 1) == 0 ==> a == 0 && r == 32
  {
    assert Pow2(1) == 2;
    if v == 1 { ShrOne(a, 32 - r); }
  }

  /** The bits a left shift drops are the ones the matching right shift keeps. */
  lemma ShiftSplit(x: u32, k: nat) returns (c: nat)
    requires 0 < k < 32
    ensures Shl32(x, k) == c * Pow2(k)
    ensures x * Pow2(k) == Shr(x, 32 - k) * 0x1_0000_0000 + Shl32(x, k)
    ensures Shr(x, 32 - k) < Pow2(k)
    ensures x == Shr(x, 32 - k) * Pow2(32 - k) + c
  {
    ShrBounds(x, 32 - k);
    Pow2Add(32 - k, k);
    Pow2Values();
    ShrLess(x, 32 - k, k);
    c := ShiftParts(x, Pow2(32 - k), Pow2(k), Shr(x, 32 - k), Shl32(x, k));
  }

  lemma ShiftParts(x: nat, q: nat, p: nat, n2: nat, shl: nat) returns (c: nat)
    requires q * p == 0x1_0000_0000 && n2 * q <= x < (n2 + 1) * q
    requires shl == (x * p) % 0x1_0000_0000
    ensures shl == c * p && x * p == n2 * 0x1_0000_0000 + shl && x == n2 * q + c
  {
    c := x - n2 * q;
    assert c < q by { assert (n2 + 1) * q == n2 * q + q; }
    MulMono(c + 1, q, p);
    assert (c + 1) * p == c * p + p;
    assert x * p == n2 * (q * p) + c * p by { MulAssoc(n2, q, p); }
    MulMono(0, c, p);
    DivModUnique(x * p, 0x1_0000_0000, n2, c * p);
  }

  lemma MulAssoc(x: int, y: int, z: int)
    ensures (x * y) * z == x * (y * z)
  {
  }

  /** Normalising a double word shifts it left by `k` bits into three words. */
  lemma ShiftLeft(n1: u32, n0: u32, k: nat)
    requires 0 < k < 32
    ensures Or(Shl32(n1, k), Shr(n0, 32 - k)) < 0x1_0000_0000
    ensures Shr(n1, 32 - k) < Pow2(k)
    ensures (n1 * 0x1_0000_0000 + n0) * Pow2(k)
         == Shr(n1, 32 - k) * 0x1_0000_0000_0000_0000
          + Or(Shl32(n1, k), Shr(n0, 32 - k)) * 0x1_0000_0000 + Shl32(n0, k)
  {
    var c1 := ShiftSplit(n1, k);
    var c0 := ShiftSplit(n0, k);
    OrDisjoint(c1, k, Shr(n0, 32 - k));
    JoinFits(c1, Shr(n0, 32 - k), k);
    Spread(n1, n0, Pow2(k));
  }

  lemma JoinFits(c: nat, e: nat, k: nat)
    requires k <= 32 && c * Pow2(k) < 0x1_0000_0000 && e < Pow2(k)
    ensures c * Pow2(k) + e < 0x1_0000_0000
  {
    Pow2Add(32 - k, k);
    Pow2Values();
    MultipleGap(c, Pow2(32 - k), Pow2(k));
  }

  lemma MultipleGap(c: nat, d: nat, p: nat)
    requires c * p < d * p || c < d
    ensures c * p + p <= d * p
  {
    if c >= d { MulMono(d, c, p); }
    MulMono(c + 1, d, p);
    assert (c + 1) * p == c * p + p;
  }

  lemma Spread(n1: int, n0: int, p: int)
    ensures (n1 * 0x1_0000_0000 + n0) * p == (n1 * p) * 0x1_0000_0000 + n0 * p
  {
  }

  lemma {:induction false} Pow2Mono(j: nat, k: nat)
    requires j <= k
    ensures Pow2(j) <= Pow2(k)
  {
    if j < k { Pow2Mono(j, k - 1); }
  }

  /** Shifting a divisor left by its leading zeros loses no bit and sets the top one. */
  lemma NormalisedDivisor(d: u32, k: nat)
    requires k < 32 && Pow2(31 - k) <= d < Pow2(32 - k)
    ensures Shl32(d, k) == d * Pow2(k) >= 0x8000_0000
  {
    Pow2Add(31 - k, k);
    Pow2Add(32 - k, k);
    Pow2Values();
    MulMono(Pow2(31 - k), d, Pow2(k));
    MulMono(d + 1, Pow2(32 - k), Pow2(k));
    assert (d + 1) * Pow2(k) == d * Pow2(k) + Pow2(k);
  }

  /** Dividing after scaling both operands gives the same quotient and the scaled remainder. */
  lemma Unscale(v: nat, d: nat, p: nat, q: int, r: nat)
    requires p > 0 && v * p == q * (d * p) + r && r < d * p
    ensures d > 0 && q == v / d && r == (v % d) * p
  {
    var t := v - q * d;
    assert t * p == r by {
      assert t * p == v * p - (q * d) * p;
      MulAssoc(q, d, p);
    }
    if t < 0 { MulMono(t, -1, p); }
    if t >= d { MulMono(d, t, p); }
    DivModUnique(v, d, q, t);
  }

  /** Two quotient digits read as one number. */
  lemma JoinDigits(v: nat, n2: nat, n1: nat, n0: nat, d: nat, q1: u32, r1: nat, q0: u32, r0: nat)
    requires v == n2 * 0x1_0000_0000_0000_0000 + n1 * 0x1_0000_0000 + n0
    requires n2 * 0x1_0000_0000 + n1 == q1 * d + r1
    requires r1 * 0x1_0000_0000 + n0 == q0 * d + r0
    ensures v == U64(q1, q0).Val() * d + r0
  {
    Spread(q1, q0, d);
  }

  /** Shifting a double word right by `k` bits, when the bits dropped are zero. */
  lemma ShiftRight(a: U64, k: nat, t: nat)
    requires 0 < k < 32 && a.Val() == t * Pow2(k)
    ensures Or(Shl32(a.hi, 32 - k), Shr(a.lo, k)) < 0x1_0000_0000
    ensures Shr(a.hi, k) * 0x1_0000_0000 + Or(Shl32(a.hi, 32 - k), Shr(a.lo, k)) == t
  {
    var c := ShiftSplit(a.hi, 32 - k);
    var e := ShiftSplit(a.lo, 32 - k);
    assert 32 - (32 - k) == k;
    OrDisjoint(c, 32 - k, Shr(a.lo, k));
    JoinFits(c, Shr(a.lo, k), 32 - k);
    Pow2Add(32 - k, k);
    Pow2Values();
    var res := Shr(a.hi, k) * 0x1_0000_0000 + (c * Pow2(32 - k) + Shr(a.lo, k));
    ShrBounds(a.lo, k);
    ShiftRightParts(a, Pow2(32 - k), Pow2(k), Shr(a.hi, k), c, Shr(a.lo, k), t, res);
  }

  lemma ShiftRightParts(a: U64, q: nat, p: nat, h: nat, c: nat, e: nat, t: nat, res: nat)
    requires q * p == 0x1_0000_0000 && a.Val() == t * p
    requires a.hi == h * p + c && e * p <= a.lo < (e + 1) * p
    requires res == h * 0x1_0000_0000 + (c * q + e)
    ensures res == t
  {
    var z := h * 0x1_0000_0000 + c * q;
    Regrouped(h, c, p, q, z);
    assert t * p == z * p + a.lo;
    Spread2(z, e, p);
    Squeeze(t, z + e, p);
  }

  lemma Regrouped(h: int, c: int, p: int, q: int, z: int)
    requires q * p == 0x1_0000_0000 && z == h * 0x1_0000_0000 + c * q
    ensures z * p == (h * p + c) * 0x1_0000_0000
  {
    MulAssoc(c, q, p);
    Spread2(h * 0x1_0000_0000, c * q, p);
  }

  lemma Spread2(x: int, y: int, p: int)
    ensures (x + y) * p == x * p + y * p && (x + y + 1) * p == x * p + (y + 1) * p
  {
  }

  lemma Squeeze(t: int, y: int, p: nat)
    requires y * p <= t * p < (y + 1) * p
    ensures t == y
  {
    if t < y { MulMono(t + 1, y, p); } else if t > y { MulMono(y + 1, t, p); }
  }

  /**
   The estimated digit of the two-word division is at most one too large. With a
   shift of 31 the digit may need all 32 bits, but then the low word of the
   normalised divisor is 0 or 2^31.
   */
  lemma OneCorrection(n2: nat, n1: u32, b: U64, k: nat, q: u32, r: u32, c: nat)
    requires 0 < k < 32 && n2 < Pow2(k) && b.hi >= 0x8000_0000 && b.lo == c * Pow2(k)
    requires n2 * 0x1_0000_0000 + n1 == q * b.hi + r
    ensures 0 <= q * b.lo <= b.Val()
  {
    Pow2Values();
    if k == 31 {
      SmallMultiple(c, b.lo);
      MulBound(q, b.lo, 0x1_0000_0000, 0x8000_0000);
    } else {
      Pow2Mono(k, 30);
      SmallDigit(n2, n1, b.hi, q, r);
      MulBound(q, b.lo, 0x8000_0000, 0x1_0000_0000);
    }
  }

  lemma SmallMultiple(c: nat, x: u32)
    requires x == c * 0x8000_0000
    ensures x <= 0x8000_0000
  {
  }

  lemma SmallDigit(n2: nat, n1: u32, b: u32, q: u32, r: u32)
    requires n2 < Pow2(30) && b >= 0x8000_0000 && n2 * 0x1_0000_0000 + n1 == q * b + r
    ensures q < 0x8000_0000
  {
    Pow2Values();
    assert Pow2(31) == 2 * Pow2(30);
    if q >= 0x8000_0000 { MulBound(0x8000_0000, 0x8000_0000, q, b); }
  }

  /** The estimate, corrected at most once with a wrapped subtraction, is exact. */
  lemma CorrectedDigit(v: nat, n2: nat, n1: u32, n0: u32, b: U64, q: u32, r: u32, m: U64, q': u32, m': U64)
    requires v == n2 * 0x1_0000_0000_0000_0000 + n1 * 0x1_0000_0000 + n0
    requires n2 * 0x1_0000_0000 + n1 == q * b.hi + r && r < b.hi
    requires m.Val() == q * b.lo && m.Val() <= b.Val()
    requires q' == if m.Val() > U64(r, n0).Val() then Sub32(q, 1) else q
    requires m' == if m.Val() > U64(r, n0).Val() then Sub64(m, b) else m
    ensures v == q' * b.Val() + Sub64(U64(r, n0), m').Val()
    ensures Sub64(U64(r, n0), m').Val() < b.Val()
  {
    hide U64.Val, Sub64;
    var x := U64(r, n0);
    HighLess(x, b);
    EstimateError(v, n2, n1, n0, b, q, r, m);
    WrapOnce(m, b, x, m');
    CorrectedStep(v, b.Val(), x.Val(), m.Val(), q, q', m'.Val(), Sub64(x, m').Val(), q * b.Val());
    TakeBack(q, q - q', b.Val());
    assert q - (q - q') == q';
  }

  lemma WrapOnce(m: U64, b: U64, x: U64, m': U64)
    requires m' == if m.Val() > x.Val() then Sub64(m, b) else m
    ensures m'.Val() == if m.Val() > x.Val() then (m.Val() - b.Val()) % 0x1_0000_0000_0000_0000 else m.Val()
    ensures Sub64(x, m').Val() == (x.Val() - m'.Val()) % 0x1_0000_0000_0000_0000
    ensures b.Val() < 0x1_0000_0000_0000_0000
  {
    Sub64Val(x, m');
    if m.Val() > x.Val() {
      Sub64Val(m, b);
    }
  }

  lemma EstimateError(v: nat, n2: nat, n1: u32, n0: u32, b: U64, q: u32, r: u32, m: U64)
    requires v == n2 * 0x1_0000_0000_0000_0000 + n1 * 0x1_0000_0000 + n0
    requires n2 * 0x1_0000_0000 + n1 == q * b.hi + r
    requires m.Val() == q * b.lo
    ensures v == q * b.Val() + U64(r, n0).Val() - m.Val()
    ensures m.Val() > 0 ==> q > 0
  {
    Spread(b.hi, b.lo, q);
  }

  lemma CorrectedStep(v: nat, b: nat, x: nat, m: nat, q: u32, q': u32, w: int, d: int, qb: int)
    requires v == qb + x - m && x < b && m <= b < 0x1_0000_0000_0000_0000
    requires m > 0 ==> q > 0
    requires q' == if m > x then Sub32(q, 1) else q
    requires w == if m > x then (m - b) % 0x1_0000_0000_0000_0000 else m
    requires d == (x - w) % 0x1_0000_0000_0000_0000
    ensures 0 <= q - q' <= 1
    ensures v == (if q' == q then qb else qb - b) + d
    ensures d < b
  {
    if m > x {
      WrappedDifference(x, m, b, w, d);
    }
  }

  /** Subtracting a difference that wrapped below zero wraps back. */
  lemma WrappedDifference(x: int, m: int, b: int, w: int, d: int)
    requires 0 <= x < m <= b < 0x1_0000_0000_0000_0000
    requires w == (m - b) % 0x1_0000_0000_0000_0000
    requires d == (x - w) % 0x1_0000_0000_0000_0000
    ensures d == x + b - m
  {
  }

  lemma HighLess(x: U64, b: U64)
    requires x.hi < b.hi
    ensures x.Val() < b.Val()
  {
  }

  /** A dividend whose high word is below the divisor still fits in two words once normalised. */
  lemma NormalisedFits(n1: u32, n0: u32, d: u32, k: nat)
    requires 0 < k < 32 && n1 < d < Pow2(32 - k)
    ensures Or(Shl32(n1, k), Shr(n0, 32 - k)) < 0x1_0000_0000
    ensures Or(Shl32(n1, k), Shr(n0, 32 - k)) < d * Pow2(k)
    ensures U64(n1, n0).Val() * Pow2(k) == U64(Or(Shl32(n1, k), Shr(n0, 32 - k)), Shl32(n0, k)).Val()
  {
    ShiftLeft(n1, n0, k);
    ShrZero(n1, 32 - k);
    var w: int := Or(Shl32(n1, k), Shr(n0, 32 - k));
    ScaledLess(n1, n0, d, Pow2(k), w, Shl32(n0, k));
  }

  lemma ScaledLess(n1: nat, n0: u32, d: nat, p: nat, w: nat, z: nat)
    requires n1 < d && p > 0 && (n1 * 0x1_0000_0000 + n0) * p == w * 0x1_0000_0000 + z
    ensures w < d * p
  {
    MulMono(n1 * 0x1_0000_0000 + n0 + 1, d * 0x1_0000_0000, p);
    Spread(d, 0, p);
    assert (n1 * 0x1_0000_0000 + n0 + 1) * p == (n1 * 0x1_0000_0000 + n0) * p + p;
  }

  /** (0 q0) = (n1 n0) / (0 d), normalised. */
  method DivideNarrow(a: U64, d: u32, lsh: nat) returns (q0: u32, r0: u32)
    requires a.hi < d && lsh < 32 && Pow2(31 - lsh) <= d < Pow2(32 - lsh)
    ensures a.Val() * Pow2(lsh) == q0 * (d * Pow2(lsh)) + r0 && r0 < d * Pow2(lsh)
  {
    var n1, n0, b := a.hi, a.lo, d;
    NormalisedDivisor(d, lsh);
    if lsh != 0 {
      b := Shl32(d, lsh);
      NormalisedFits(n1, n0, d, lsh);
      n1, n0 := Or(Shl32(n1, lsh), Shr(n0, 32 - lsh)), Shl32(n0, lsh);
    }
    q0, r0 := NormUdivmod32(U64(n1, n0), b);
  }

  /** (q1 q0) = (n1 n0) / (0 d), normalised. */
  method DivideWide(a: U64, d: u32, lsh: nat) returns (q1: u32, q0: u32, r0: u32)
    requires d <= a.hi && lsh < 32 && Pow2(31 - lsh) <= d < Pow2(32 - lsh)
    ensures a.Val() * Pow2(lsh) == U64(q1, q0).Val() * (d * Pow2(lsh)) + r0 && r0 < d * Pow2(lsh)
  {
    NormalisedDivisor(d, lsh);
    if lsh == 0 {
      // the leading quotient digit is 1
      q1 := 1;
      q0, r0 := NormUdivmod32(U64(a.hi - d, a.lo), d);
      JoinDigits(a.Val(), 0, a.hi, a.lo, d, q1, a.hi - d, q0, r0);
    } else {
      var b := Shl32(d, lsh);
      ShiftLeft(a.hi, a.lo, lsh);
      HighPartSmall(lsh);
      var n2: u32 := Shr(a.hi, 32 - lsh);
      var m1, n0 := Or(Shl32(a.hi, lsh), Shr(a.lo, 32 - lsh)), Shl32(a.lo, lsh);
      var n1: u32;
      q1, n1 := NormUdivmod32(U64(n2, m1), b);
      q0, r0 := NormUdivmod32(U64(n1, n0), b);
      ghost var scaled := a.Val() * Pow2(lsh);
      JoinDigits(scaled, n2, m1, n0, b, q1, n1, q0, r0);
    }
  }

  lemma HighPartSmall(k: nat)
    requires k < 32
    ensures Pow2(k) <= 0x8000_0000
  {
    Pow2Mono(k, 31);
    Pow2Values();
  }

  /** The branch of `jsll_udivmod` for a one-word divisor. */
  method UdivmodByWord(a: U64, d: u32) returns (qp: U64, rp: U64)
    requires d > 0
    ensures qp.Val() == a.Val() / d && rp == U64(0, a.Val() % d)
  {
    var q1, q0, n0: u32;
    var lsh := CountLeadingZeros(d);
    if d > a.hi {
      q0, n0 := DivideNarrow(a, d, lsh);
      q1 := 0;
    } else {
      q1, q0, n0 := DivideWide(a, d, lsh);
    }
    Unscale(a.Val(), d, Pow2(lsh), U64(q1, q0).Val(), n0);
    ShrExact(a.Val() % d, lsh);
    qp, rp := U64(q1, q0), U64(0, Shr(n0, lsh));    // the remainder is in n0 >> lsh
  }

  /** What `jsll_udivmod` leaves in `*rp`: the dividend itself in the branch that forgets to subtract. */
  ghost function UdivmodRemainder(a: U64, b: U64): U64
    requires b.Val() > 0
  {
    if b.hi >= 0x8000_0000 && a.Val() >= b.Val() then a else OfInt(a.Val() % b.Val())
  }

  /** The quotient digit of a two-word division with both operands normalised by `lsh` > 0. */
  method DivideDouble(a: U64, b: U64, lsh: nat) returns (q0: u32, rest: U64)
    requires 0 < lsh < 32 && Pow2(31 - lsh) <= b.hi < Pow2(32 - lsh)
    ensures a.Val() * Pow2(lsh) == q0 * (b.Val() * Pow2(lsh)) + rest.Val()
    ensures rest.Val() < b.Val() * Pow2(lsh)
  {
    var rsh := 32 - lsh;
    ShiftLeft(a.hi, a.lo, lsh);
    ghost var c := NormalisedDouble(b, lsh);
    var d := U64(Or(Shl32(b.hi, lsh), Shr(b.lo, rsh)), Shl32(b.lo, lsh));
    var n2: u32 := Shr(a.hi, rsh);
    var m1: u32, n0: u32 := Or(Shl32(a.hi, lsh), Shr(a.lo, rsh)), Shl32(a.lo, lsh);
    ghost var scaled := a.Val() * Pow2(lsh);
    q0, rest := EstimateAndCorrect(scaled, n2, m1, n0, d, lsh, c);
  }

  method EstimateAndCorrect(ghost v: nat, n2: u32, m1: u32, n0: u32, d: U64, ghost k: nat, ghost c: nat)
    returns (q0: u32, rest: U64)
    requires 0 < k < 32 && n2 < Pow2(k) <= 0x8000_0000 <= d.hi && d.lo == c * Pow2(k)
    requires v == n2 * 0x1_0000_0000_0000_0000 + m1 * 0x1_0000_0000 + n0
    ensures v == q0 * d.Val() + rest.Val() && rest.Val() < d.Val()
  {
    var n1: u32;
    q0, n1 := NormUdivmod32(U64(n2, m1), d.hi);
    var m := Mul32Wide(q0, d.lo);
    OneCorrection(n2, m1, d, k, q0, n1, c);
    ghost var q, p := q0, m;
    if m.hi > n1 || (m.hi == n1 && m.lo > n0) {
      q0, m := Sub32(q0, 1), Sub64(m, d);
    }
    CorrectedDigit(v, n2, m1, n0, d, q, n1, p, q0, m);
    rest := Sub64(U64(n1, n0), m);
  }

  /** The branch of `jsll_udivmod` for a two-word divisor whose high word is not above the dividend's. */
  method UdivmodByDouble(a: U64, b: U64) returns (qp: U64, rp: U64)
    requires 0 < b.hi <= a.hi
    ensures qp.Val() == a.Val() / b.Val()
    ensures rp == UdivmodRemainder(a, b)
  {
    var lsh := CountLeadingZeros(b.hi);
    Pow2Values();
    if lsh == 0 {
      // the quotient is 0 or 1
      var q0: u32;
      if a.hi > b.hi || a.lo >= b.lo {
        q0 := 1;
        DivModUnique(a.Val(), b.Val(), 1, a.Val() - b.Val());
      } else {
        q0 := 0;
        DivModUnique(a.Val(), b.Val(), 0, a.Val());
      }
      qp, rp := U64(0, q0), a;
      OfVal(a);
    } else {
      var q0, rest := DivideDouble(a, b, lsh);
      ScaledResult(a, b, lsh, q0, rest);
      qp := U64(0, q0);
      rp := U64(Shr(rest.hi, lsh), Or(Shl32(rest.hi, 32 - lsh), Shr(rest.lo, lsh)));
    }
  }

  lemma ScaledResult(a: U64, b: U64, k: nat, q0: u32, rest: U64)
    requires 0 < k < 32 && 0 < b.hi < Pow2(32 - k)
    requires a.Val() * Pow2(k) == q0 * (b.Val() * Pow2(k)) + rest.Val()
    requires rest.Val() < b.Val() * Pow2(k)
    ensures q0 == a.Val() / b.Val()
    ensures Or(Shl32(rest.hi, 32 - k), Shr(rest.lo, k)) < 0x1_0000_0000
    ensures U64(Shr(rest.hi, k), Or(Shl32(rest.hi, 32 - k), Shr(rest.lo, k))) == UdivmodRemainder(a, b)
  {
    Unscale(a.Val(), b.Val(), Pow2(k), q0, rest.Val());
    ShiftRight(rest, k, a.Val() % b.Val());
    var rp := U64(Shr(rest.hi, k), Or(Shl32(rest.hi, 32 - k), Shr(rest.lo, k)));
    OfVal(rp);
    HighPartSmall(32 - k);
  }

  lemma NormalisedDouble(b: U64, k: nat) returns (c: nat)
    requires 0 < k < 32 && Pow2(31 - k) <= b.hi < Pow2(32 - k)
    ensures Or(Shl32(b.hi, k), Shr(b.lo, 32 - k)) < 0x1_0000_0000
    ensures var d := U64(Or(Shl32(b.hi, k), Shr(b.lo, 32 - k)), Shl32(b.lo, k));
      d.Val() == b.Val() * Pow2(k) && d.hi >= 0x8000_0000 && d.lo == c * Pow2(k)
    ensures Pow2(k) <= 0x8000_0000
  {
    Pow2Values();
    Pow2Mono(k, 31);
    ShiftLeft(b.hi, b.lo, k);
    ShrZero(b.hi, 32 - k);
    c := ShiftSplit(b.lo, k);
    NormalisedDivisor(b.hi, k);
    var e := ShiftSplit(b.hi, k);
    OrDisjoint(e, k, Shr(b.lo, 32 - k));
  }

  /** `jsll_udivmod`; a zero divisor hangs the C code. */
  method Udivmod(a: U64, b: U64) returns (qp: U64, rp: U64)
    requires b.Val() != 0
    ensures qp.Val() == a.Val() / b.Val()
    ensures rp == UdivmodRemainder(a, b)
    ensures if b.hi >= 0x8000_0000 && a.Val() >= b.Val() then rp == a else rp.Val() == a.Val() % b.Val()
  {
    hide UdivmodRemainder;
    if b.hi == 0 {
      qp, rp := UdivmodByWord(a, b.lo);
      ShortDivisor(a, b, rp);
    } else if b.hi > a.hi {
      LargeDivisor(a, b);
      qp, rp := U64(0, 0), a;
    } else {
      qp, rp := UdivmodByDouble(a, b);
    }
    RemainderCases(a, b);
  }

  lemma ShortDivisor(a: U64, b: U64, r: U64)
    requires b.hi == 0 && b.lo > 0 && r == U64(0, a.Val() % b.lo)
    ensures b.Val() == b.lo && r == UdivmodRemainder(a, b)
  {
    OfVal(r);
  }

  lemma LargeDivisor(a: U64, b: U64)
    requires b.hi > a.hi
    ensures a.Val() / b.Val() == 0 && UdivmodRemainder(a, b) == a
  {
    DivModUnique(a.Val(), b.Val(), 0, a.Val());
    OfVal(a);
  }

  lemma RemainderCases(a: U64, b: U64)
    requires b.Val() > 0
    ensures if b.hi >= 0x8000_0000 && a.Val() >= b.Val() then UdivmodRemainder(a, b) == a
            else UdivmodRemainder(a, b).Val() == a.Val() % b.Val()
  {
    RemainderExact(a, b);
  }

  /**
   The remainder is the mathematical one exactly when the branch that forgets to
   subtract is not taken.
   */
  lemma RemainderExact(a: U64, b: U64)
    requires b.Val() > 0
    ensures UdivmodRemainder(a, b).Val() == a.Val() % b.Val()
       <==> !(b.hi >= 0x8000_0000 && a.Val() >= b.Val())
  {
    ModLess(a.Val(), b.Val());
    DivModUnique(a.Val() % b.Val(), 0x1_0000_0000_0000_0000, 0, a.Val() % b.Val());
  }

  lemma ModLess(a: nat, b: nat)
    requires b > 0
    ensures 0 <= a % b < b
  {
  }
}
