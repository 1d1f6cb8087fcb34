/**
 Fixed-width machine words as integers, with every wrap-around written out, and
 the bitwise operators the C modules use on them.
 */
module Words {

  type u8 = x: int | 0 <= x < 0x100
  type u16 = x: int | 0 <= x < 0x1_0000
  type u32 = x: int | 0 <= x < 0x1_0000_0000

  function Add32(x: u32, y: u32): u32 { (x + y) % 0x1_0000_0000 }

  function Sub32(x: u32, y: u32): u32 { (x - y) % 0x1_0000_0000 }

  function Mul32(x: u32, y: u32): u32 { (x * y) % 0x1_0000_0000 }

  function Pow2(k: nat): (p: nat)
    ensures p > 0
  {
    if k == 0 then 1 else 2 * Pow2(k - 1)
  }

  function Shl32(x: u32, k: nat): u32 { (x * Pow2(k)) % 0x1_0000_0000 }

  /** Right shift: halve `k` times. */
  function Shr(x: nat, k: nat): (r: nat)
    ensures r <= x
    decreases k
  {
    if k == 0 then x else Shr(x / 2, k - 1)
  }

  function Hi16(x: u32): u16 { x / 0x1_0000 }

  function Lo16(x: u32): u16 { x % 0x1_0000 }

  /** Bitwise OR, bit by bit from the least significant end. */
  function Or(x: nat, y: nat): nat {
    if x == 0 && y == 0 then 0
    else (if x % 2 == 1 || y % 2 == 1 then 1 else 0) + 2 * Or(x / 2, y / 2)
  }

  /** Bitwise AND, bit by bit from the least significant end. */
  function And(x: nat, y: nat): nat {
    if x == 0 || y == 0 then 0
    else (if x % 2 == 1 && y % 2 == 1 then 1 else 0) + 2 * And(x / 2, y / 2)
  }

  lemma QuotientShrinks(x: nat, p: nat, q: int, r: int)
    requires 0 <= r < p && x == p * q + r
    ensures 0 <= q <= x
  {
    if q < 0 {
      MulMono(q, -1, p);
    } else {
      MulMono(1, p, q);
    }
  }

  lemma MulMono(x: int, y: int, p: nat)
    requires x <= y
    ensures x * p <= y * p
  {
  }

  lemma Pow2Add(j: nat, k: nat)
    ensures Pow2(j + k) == Pow2(j) * Pow2(k)
  {
    if j > 0 {
      Pow2Add(j - 1, k);
      assert Pow2(j + k) == 2 * (Pow2(j - 1) * Pow2(k));
    }
  }

  lemma Pow2Values()
    ensures Pow2(4) == 16 && Pow2(7) == 128 && Pow2(8) == 256 && Pow2(16) == 0x1_0000
    ensures Pow2(31) == 0x8000_0000 && Pow2(32) == 0x1_0000_0000
  {
    assert Pow2(4) == 16;
    assert Pow2(8) == 256;
    Pow2Add(8, 8);
    Pow2Add(16, 15);
    Pow2Add(8, 7);
    Pow2Add(16, 16);
  }

  lemma {:induction false} ShrAdd(x: nat, j: nat, k: nat)
    ensures Shr(Shr(x, j), k) == Shr(x, j + k)
    decreases j
  {
    if j > 0 { ShrAdd(x / 2, j - 1, k); }
  }

  /** A right shift by `k` is the quotient of the division by 2^k. */
  lemma {:induction false} ShrBounds(x: nat, k: nat)
    ensures Shr(x, k) * Pow2(k) <= x < (Shr(x, k) + 1) * Pow2(k)
    decreases k
  {
    if k > 0 {
      ShrBounds(x / 2, k - 1);
      Halve(x, Shr(x, k), Pow2(k - 1));
    }
  }

  lemma {:induction false} ShrExact(x: nat, k: nat)
    ensures Shr(x * Pow2(k), k) == x
    decreases k
  {
    if k > 0 {
      var p := Pow2(k - 1);
      assert x * (2 * p) == 2 * (x * p);
      ShrExact(x, k - 1);
    }
  }

  lemma Halve(x: nat, s: int, p: int)
    requires s * p <= x / 2 < (s + 1) * p
    ensures s * (2 * p) <= x < (s + 1) * (2 * p)
  {
    assert s * (2 * p) == 2 * (s * p) && (s + 1) * (2 * p) == 2 * ((s + 1) * p);
  }

  lemma {:induction false} ShrOne(x: nat, k: nat)
    requires Shr(x, k) == 1
    ensures Pow2(k) <= x < Pow2(k + 1)
    decreases k
  {
    if k > 0 { ShrOne(x / 2, k - 1); }
  }

  lemma {:induction false} ShrLess(x: nat, j: nat, k: nat)
    requires x < Pow2(j + k)
    ensures Shr(x, j) < Pow2(k)
    decreases j
  {
    if j > 0 { ShrLess(x / 2, j - 1, k); }
  }

  lemma {:induction false} ShrZero(x: nat, k: nat)
    ensures Shr(x, k) == 0 <==> x < Pow2(k)
    decreases k
  {
    if k > 0 { ShrZero(x / 2, k - 1); }
  }

  /** OR of a multiple of 2^k with a value below 2^k is their sum. */
  lemma {:induction false} OrDisjoint(x: nat, k: nat, y: nat)
    requires y < Pow2(k)
    ensures Or(x * Pow2(k), y) == x * Pow2(k) + y
    decreases k
  {
    if k == 0 {
      OrZero(x);
    } else {
      var p := Pow2(k - 1);
      assert x * Pow2(k) == 2 * (x * p);
      assert (x * Pow2(k)) / 2 == x * p && (x * Pow2(k)) % 2 == 0;
      OrDisjoint(x, k - 1, y / 2);
    }
  }

  lemma {:induction false} OrZero(x: nat)
    ensures Or(x, 0) == x
  {
    if x > 0 { OrZero(x / 2); }
  }

  /** AND with 2^k - 1 keeps the remainder modulo 2^k. */
  lemma {:induction false} AndMask(x: nat, k: nat)
    ensures And(x, Pow2(k) - 1) == x % Pow2(k)
    decreases k
  {
    if k > 0 {
      var p := Pow2(k - 1);
      AndMask(x / 2, k - 1);
      ModDouble(x, p);
      assert (2 * p - 1) / 2 == p - 1 && (2 * p - 1) % 2 == 1;
    }
  }

  lemma ModDouble(x: nat, p: nat)
    requires p > 0
    ensures x % (2 * p) == x % 2 + 2 * ((x / 2) % p)
  {
    var h := x / 2;
    var q, r := h / p, h % p;
    assert h == p * q + r;
    assert x == (2 * p) * q + (2 * r + x % 2) by {
      assert x == 2 * h + x % 2;
      assert 2 * (p * q) == (2 * p) * q;
    }
    DivModUnique(x, 2 * p, q, 2 * r + x % 2);
  }

  /** Division with remainder is unique. */
  lemma DivModUnique(a: int, b: nat, q: int, r: int)
    requires 0 <= r < b && a == b * q + r
    ensures a / b == q && a % b == r
  {
    var q', r' := a / b, a % b;
    assert a == b * q' + r';
    if q' > q {
      MulMono(q + 1, q', b);
    } else if q' < q {
      MulMono(q' + 1, q, b);
    }
  }

  /** Adding a multiple of the modulus leaves the remainder alone. */
  lemma ModAdd(x: int, m: nat, k: int)
    requires m > 0
    ensures (x + m * k) % m == x % m
  {
    var q, r := x / m, x % m;
    assert x == m * q + r;
    assert x + m * k == m * (q + k) + r;
    DivModUnique(x + m * k, m, q + k, r);
  }

  /** A right shift by `k` is division by 2^k. */
  lemma ShrIsDiv(x: nat, k: nat)
    ensures Shr(x, k) == x / Pow2(k)
  {
    ShrBounds(x, k);
    var s, p := Shr(x, k), Pow2(k);
    assert (s + 1) * p == s * p + p;
    DivModUnique(x, p, s, x - s * p);
  }

  /** AND with a single bit is not zero exactly if that bit is set. */
  lemma AndPower(x: nat, k: nat)
    ensures And(x, Pow2(k)) != 0 <==> x / Pow2(k) % 2 == 1
  {
    AndBit(x, k);
    ShrIsDiv(x, k);
  }

  lemma {:induction false} AndBit(x: nat, k: nat)
    ensures And(x, Pow2(k)) != 0 <==> Shr(x, k) % 2 == 1
    decreases k
  {
    if k == 0 {
      assert And(x, 1) == if x % 2 == 1 then 1 + 2 * And(x / 2, 0) else 2 * And(x / 2, 0);
    } else {
      AndBit(x / 2, k - 1);
      ShrNone(k);
    }
  }

  lemma {:induction false} ShrNone(k: nat)
    ensures Shr(0, k) == 0
    decreases k
  {
    if k > 0 { ShrNone(k - 1); }
  }

  /** Bit by bit: AND. */
  lemma {:induction false} AndBits(x: nat, y: nat, k: nat)
    ensures Shr(And(x, y), k) % 2 == 1 <==> Shr(x, k) % 2 == 1 && Shr(y, k) % 2 == 1
    decreases k
  {
    ShrNone(k);
    if k > 0 && x > 0 && y > 0 { AndBits(x / 2, y / 2, k - 1); }
  }

  /** Bit by bit: OR. */
  lemma {:induction false} OrBits(x: nat, y: nat, k: nat)
    ensures Shr(Or(x, y), k) % 2 == 1 <==> Shr(x, k) % 2 == 1 || Shr(y, k) % 2 == 1
    decreases k
  {
    hide Or;
    OrHalf(x, y);
    if k > 0 { OrBits(x / 2, y / 2, k - 1); }
  }

  lemma OrHalf(x: nat, y: nat)
    ensures Or(x, y) / 2 == Or(x / 2, y / 2)
    ensures Or(x, y) % 2 == 1 <==> x % 2 == 1 || y % 2 == 1
  {
  }

  /** Bit by bit: the complement in `w` bits. */
  lemma {:induction false} NotBits(x: nat, w: nat, k: nat)
    requires x < Pow2(w) && k < w
    ensures Shr(Pow2(w) - 1 - x, k) % 2 == 1 <==> Shr(x, k) % 2 == 0
    decreases k
  {
    var y := Pow2(w) - 1 - x;
    assert y % 2 == 1 <==> x % 2 == 0;
    if k > 0 {
      assert y / 2 == Pow2(w - 1) - 1 - x / 2;
      NotBits(x / 2, w - 1, k - 1);
    }
  }

  lemma {:induction false} OrBound(x: nat, y: nat, w: nat)
    requires x < Pow2(w) && y < Pow2(w)
    ensures Or(x, y) < Pow2(w)
    decreases w
  {
    if w > 0 { OrBound(x / 2, y / 2, w - 1); }
  }

  lemma {:induction false} AndBound(x: nat, y: nat)
    ensures And(x, y) <= x
  {
    if x > 0 && y > 0 { AndBound(x / 2, y / 2); }
  }
}
