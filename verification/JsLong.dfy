/**
 64-bit arithmetic on pairs of 32-bit words (XBee/jslong.c): half-word
 multiplication. Division and printing are in the modules that import this one.
 Out-pointers of the C code are out-parameters here.
 */
module JsLong {
  import opened Words

  datatype U64 = U64(hi: u32, lo: u32) {
    function Val(): (v: nat)
      ensures v < 0x1_0000_0000_0000_0000
    {
      hi * 0x1_0000_0000 + lo
    }

    /** The two's complement reading. */
    function Signed(): int {
      if hi < 0x8000_0000 then Val() else Val() - 0x1_0000_0000_0000_0000
    }
  }

  lemma OfVal(a: U64)
    ensures OfInt(a.Val()) == a
  {
    DivModUnique(a.Val(), 0x1_0000_0000, a.hi, a.lo);
    DivModUnique(a.Val(), 0x1_0000_0000_0000_0000, 0, a.Val());
  }

  /** The U64 of a value modulo 2^64. */
  function OfInt(v: int): (r: U64)
    ensures r.Val() == v % 0x1_0000_0000_0000_0000
  {
    var w := v % 0x1_0000_0000_0000_0000;
    U64(w / 0x1_0000_0000, w % 0x1_0000_0000)
  }

  lemma Sub64Val(a: U64, b: U64)
    ensures Sub64(a, b).Val() == (a.Val() - b.Val()) % 0x1_0000_0000_0000_0000
  {
  }

  function Sub64(a: U64, b: U64): U64 { OfInt(a.Val() - b.Val()) }

  function Neg64(a: U64): U64 { OfInt(0 - a.Val()) }

  // ---------------------------------------------------------------------
  // Multiplication
  // ---------------------------------------------------------------------

  lemma MulBound(x: nat, y: nat, m: nat, n: nat)
    requires x <= m && y <= n
    ensures 0 <= x * y <= m * n
  {
    MulMono(x, m, y);
    MulMono(y, n, m);
  }

  lemma MulExpand(a1: int, a0: int, b1: int, b0: int, k: int)
    ensures (a1 * k + a0) * (b1 * k + b0) == (a1 * b1) * k * k + (a1 * b0 + a0 * b1) * k + a0 * b0
  {
    calc {
      (a1 * k + a0) * (b1 * k + b0);
      (a1 * k) * (b1 * k + b0) + a0 * (b1 * k + b0);
      (a1 * k) * (b1 * k) + (a1 * k) * b0 + a0 * (b1 * k) + a0 * b0;
      { assert (a1 * k) * (b1 * k) == (a1 * b1) * k * k;
        assert (a1 * k) * b0 == (a1 * b0) * k;
        assert a0 * (b1 * k) == (a0 * b1) * k; }
      (a1 * b1) * k * k + (a1 * b0) * k + (a0 * b1) * k + a0 * b0;
      (a1 * b1) * k * k + (a1 * b0 + a0 * b1) * k + a0 * b0;
    }
  }

  /** A product of half-words needs no wrap-around. */
  lemma HalfProduct(x: u16, y: u16)
    ensures 0 <= x * y == Mul32(x, y) <= 0xFFFE_0001
  {
    MulBound(x, y, 0xFFFF, 0xFFFF);
  }

  lemma Shift16(x: u32)
    ensures Shl32(x, 16) == (x * 0x1_0000) % 0x1_0000_0000
  {
    Pow2Values();
  }

  /** Shifting a half-word up and OR-ing another one below it joins the two. */
  lemma Join16(x: u16, y: u16)
    ensures Or(Shl32(x, 16), y) == x * 0x1_0000 + y < 0x1_0000_0000
  {
    hide Pow2, Or;
    assert Pow2(16) == 0x1_0000 by { Pow2Values(); }
    OrDisjoint(x, 16, y);
  }

  /** The half-word products of `jsll_mul32`, carry included, add up to the product. */
  method Mul32Wide(a: u32, b: u32) returns (r: U64)
    ensures r.Val() == a * b
  {
    var a1, a0 := Hi16(a), Lo16(a);
    var b1, b0 := Hi16(b), Lo16(b);
    var y0 := Mul32(a0, b0);
    var y1 := Mul32(a0, b1);
    var y2 := Mul32(a1, b0);
    var y3 := Mul32(a1, b1);
    ghost var p1, p2 := y1, y2;
    y1 := Add32(y1, Hi16(y0));     // cannot carry
    y1 := Add32(y1, y2);           // might carry
    ghost var p3 := y3;
    if y1 < y2 {
      y3 := Add32(y3, 0x0001_0000);
    }
    r := U64(Add32(y3, Hi16(y1)), Add32(Shl32(Lo16(y1), 16), Lo16(y0)));
    WideProduct(a, b, a1, a0, b1, b0);
    Shift16(Lo16(y1));
    HalfSums(p3, p2, p1, y0, a * b, y1, y3, r);
  }

  lemma WideProduct(a: u32, b: u32, a1: u16, a0: u16, b1: u16, b0: u16)
    requires a1 == Hi16(a) && a0 == Lo16(a) && b1 == Hi16(b) && b0 == Lo16(b)
    ensures 0 <= a * b <= 0xFFFF_FFFE_0000_0001
    ensures a * b == Mul32(a1, b1) * 0x1_0000_0000
                   + (Mul32(a1, b0) + Mul32(a0, b1)) * 0x1_0000 + Mul32(a0, b0)
    ensures Mul32(a0, b1) <= 0xFFFE_0001
  {
    MulBound(a, b, 0xFFFF_FFFF, 0xFFFF_FFFF);
    HalfProduct(a0, b0);
    HalfProduct(a0, b1);
    HalfProduct(a1, b0);
    HalfProduct(a1, b1);
    MulExpand(a1, a0, b1, b0, 0x1_0000);
  }

  /** Adding up the four half-word products with one carry bit loses nothing. */
  lemma HalfSums(p3: u32, p2: u32, p1: u32, p0: u32, n: nat, y1: u32, y3: u32, r: U64)
    requires n <= 0xFFFF_FFFE_0000_0001 && p1 <= 0xFFFE_0001
    requires n == p3 * 0x1_0000_0000 + (p2 + p1) * 0x1_0000 + p0
    requires y1 == Add32(Add32(p1, Hi16(p0)), p2)
    requires y3 == if y1 < p2 then Add32(p3, 0x1_0000) else p3
    requires r.lo == Add32((Lo16(y1) * 0x1_0000) % 0x1_0000_0000, Lo16(p0))
    requires r.hi == Add32(y3, Hi16(y1))
    ensures r.Val() == n
  {
    hide Add32, Hi16, Lo16;
    var carry: int := if y1 < p2 then 1 else 0;
    CarryOut(p1, Hi16(p0), p2, y1);
    LowHalves(Lo16(y1), Lo16(p0));
    var top: int := p3 + carry * 0x1_0000 + Hi16(y1);
    HighHalves(n, p3, p2, p1, p0, carry, y1);
    NoWrap(p3, carry * 0x1_0000, Hi16(y1));
  }

  lemma LowHalves(x: u16, y: u16)
    ensures Add32((x * 0x1_0000) % 0x1_0000_0000, y) == x * 0x1_0000 + y
  {
  }

  lemma HighHalves(n: int, p3: int, p2: int, p1: int, p0: u32, carry: int, y1: u32)
    requires 0 <= n <= 0xFFFF_FFFE_0000_0001
    requires n == p3 * 0x1_0000_0000 + (p2 + p1) * 0x1_0000 + p0
    requires y1 + carry * 0x1_0000_0000 == p1 + Hi16(p0) + p2
    ensures var top := p3 + carry * 0x1_0000 + Hi16(y1);
      0 <= top < 0x1_0000_0000 && n == top * 0x1_0000_0000 + Lo16(y1) * 0x1_0000 + Lo16(p0)
  {
    assert p0 == Hi16(p0) * 0x1_0000 + Lo16(p0) && y1 == Hi16(y1) * 0x1_0000 + Lo16(y1);
  }

  lemma NoWrap(x: u32, y: int, z: u16)
    requires 0 <= y && x + y + z < 0x1_0000_0000
    ensures Add32(x + y, z) == x + y + z && x + y < 0x1_0000_0000
    ensures y == 0x1_0000 ==> Add32(x, 0x1_0000) == x + y
  {
  }

  lemma CarryOut(x: u32, h: u16, y: u32, sum: u32)
    requires x <= 0xFFFE_0001 && sum == Add32(Add32(x, h), y)
    ensures sum as int + (if sum < y then 0x1_0000_0000 else 0) == x as int + h as int + y as int
  {
    assert Add32(x, h) == x + h;
  }

  /** `jsll_mul` is multiplication modulo 2^64. */
  method Mul(a: U64, b: U64) returns (r: U64)
    ensures r.Val() == (a.Val() * b.Val()) % 0x1_0000_0000_0000_0000
  {
    r := Mul32Wide(a.lo, b.lo);
    ghost var low := r;
    r := r.(hi := Add32(r.hi, Add32(Mul32(a.hi, b.lo), Mul32(a.lo, b.hi))));
    CrossProducts(a, b);
    HighWord(low, a.hi * b.lo, a.lo * b.hi, a.hi * b.hi, r.hi);
  }

  lemma CrossProducts(a: U64, b: U64)
    ensures a.hi * b.lo >= 0 && a.lo * b.hi >= 0 && a.hi * b.hi >= 0
    ensures a.Val() * b.Val() == (a.hi * b.hi) * 0x1_0000_0000 * 0x1_0000_0000
                               + (a.hi * b.lo + a.lo * b.hi) * 0x1_0000_0000 + a.lo * b.lo
  {
    MulExpand(a.hi, a.lo, b.hi, b.lo, 0x1_0000_0000);
  }

  lemma HighWord(low: U64, c: nat, d: nat, e: nat, hi: u32)
    requires hi == Add32(low.hi, Add32(c % 0x1_0000_0000, d % 0x1_0000_0000))
    ensures U64(hi, low.lo).Val()
         == (e * 0x1_0000_0000 * 0x1_0000_0000 + (c + d) * 0x1_0000_0000 + low.Val())
            % 0x1_0000_0000_0000_0000
  {
    var total: int := e * 0x1_0000_0000 * 0x1_0000_0000 + (c + d) * 0x1_0000_0000 + low.Val();
    var q := SumCarry(low.hi, c, d, hi);
    DivModUnique(total, 0x1_0000_0000_0000_0000, e + q, U64(hi, low.lo).Val());
  }

  /** Sums modulo 2^32 of terms modulo 2^32. */
  lemma SumCarry(x: u32, c: nat, d: nat, hi: u32) returns (q: int)
    requires hi == Add32(x, Add32(c % 0x1_0000_0000, d % 0x1_0000_0000))
    ensures x + c + d == q * 0x1_0000_0000 + hi
  {
    var s: int := c % 0x1_0000_0000 + d % 0x1_0000_0000;
    var u: int := x + s % 0x1_0000_0000;
    q := c / 0x1_0000_0000 + d / 0x1_0000_0000 + s / 0x1_0000_0000 + u / 0x1_0000_0000;
  }
}
