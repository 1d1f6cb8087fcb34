/** Signed 64-bit quotient and remainder (XBee/jslong.c). */
module JsSigned {
  import opened Words
  import opened JsLong
  import opened JsDivision

  const MIN64 := -0x8000_0000_0000_0000

  function Abs(x: int): nat { if x < 0 then -x else x }

  /** Quotient truncated toward zero. */
  function TruncDiv(x: int, y: int): int
    requires y != 0
  {
    if (x < 0) != (y < 0) then -(Abs(x) / Abs(y)) else Abs(x) / Abs(y)
  }

  /** Remainder with the sign of the dividend. */
  function TruncMod(x: int, y: int): int
    requires y != 0
  {
    if x < 0 then -(Abs(x) % Abs(y)) else Abs(x) % Abs(y)
  }

  /** Truncated quotient and remainder recompose the dividend. */
  lemma TruncDivMod(x: int, y: int)
    requires y != 0
    ensures x == y * TruncDiv(x, y) + TruncMod(x, y)
    ensures Abs(TruncMod(x, y)) < Abs(y)
    ensures TruncMod(x, y) != 0 ==> (TruncMod(x, y) < 0 <==> x < 0)
  {
    var m: int, n: int := Abs(x), Abs(y);
    var q: int, r: int := m / n, m % n;
    assert m == n * q + r;
    Signs(n, q);
  }

  lemma Signs(n: int, q: int)
    ensures -n * q == -(n * q) && n * -q == -(n * q) && -n * -q == n * q
  {
  }

  /** Taking the magnitude of a two's complement word never loses a value, MIN64 included. */
  lemma Magnitude(a: U64)
    ensures (if a.hi >= 0x8000_0000 then Neg64(a) else a).Val() == Abs(a.Signed())
    ensures a.Signed() < 0 <==> a.hi >= 0x8000_0000
    ensures MIN64 <= a.Signed() <= -MIN64 - 1
  {
    if a.hi >= 0x8000_0000 {
      DivModUnique(0 - a.Val(), 0x1_0000_0000_0000_0000, -1, 0x1_0000_0000_0000_0000 - a.Val());
    }
  }

  lemma SignedOf(a: U64, v: int)
    requires a.Val() == v % 0x1_0000_0000_0000_0000 && MIN64 <= v <= -MIN64
    ensures a.Signed() == v <==> v != -MIN64
    ensures v == -MIN64 ==> a.Signed() == MIN64
  {
    if v < 0 {
      DivModUnique(v, 0x1_0000_0000_0000_0000, -1, v + 0x1_0000_0000_0000_0000);
    } else {
      DivModUnique(v, 0x1_0000_0000_0000_0000, 0, v);
    }
  }

  /** `jsll_div` truncates toward zero; only MIN64 / -1 does not fit and wraps. */
  method Div(a: U64, b: U64) returns (r: U64)
    requires b.Val() != 0
    ensures r.Val() == TruncDiv(a.Signed(), b.Signed()) % 0x1_0000_0000_0000_0000
    ensures r.Signed() == TruncDiv(a.Signed(), b.Signed())
       <==> !(a.Signed() == MIN64 && b.Signed() == -1)
  {
    var negative := a.hi >= 0x8000_0000;
    var a', b' := a, b;
    if negative { a' := Neg64(a); }
    if b.hi >= 0x8000_0000 {
      negative := !negative;
      b' := Neg64(b);
    }
    Magnitude(a);
    Magnitude(b);
    var m: U64;
    r, m := Udivmod(a', b');
    ghost var q := r;
    if negative { r := Neg64(r); }
    QuotientRange(Abs(a.Signed()), Abs(b.Signed()));
    NegVal(q);
    SignedOf(r, TruncDiv(a.Signed(), b.Signed()));
  }

  lemma NegVal(q: U64)
    ensures Neg64(q).Val() == (-(q.Val() as int)) % 0x1_0000_0000_0000_0000
    ensures q.Val() == q.Val() % 0x1_0000_0000_0000_0000
  {
    DivModUnique(q.Val(), 0x1_0000_0000_0000_0000, 0, q.Val());
  }

  lemma QuotientRange(x: nat, y: nat)
    requires y > 0 && x <= -MIN64
    ensures 0 <= x / y <= x
    ensures x / y == -MIN64 <==> x == -MIN64 && y == 1
  {
    var q, r := x / y, x % y;
    assert x == y * q + r;
    QuotientShrinks(x, y, q, r);
    if y == 1 {
      assert q == x;
    } else if q == -MIN64 {
      MulMono(2, y, q);
    }
  }

  /** `jsll_mod` is the truncated remainder except for MIN64 mod MIN64, which it leaves at MIN64. */
  method Mod(a: U64, b: U64) returns (r: U64)
    requires b.Val() != 0
    ensures r.Signed() == TruncMod(a.Signed(), b.Signed())
       <==> !(a.Signed() == MIN64 && b.Signed() == MIN64)
    ensures a.Signed() == MIN64 && b.Signed() == MIN64 ==> r.Signed() == MIN64
  {
    var negative := a.hi >= 0x8000_0000;
    var a', b' := a, b;
    if negative { a' := Neg64(a); }
    if b.hi >= 0x8000_0000 { b' := Neg64(b); }
    Magnitude(a);
    Magnitude(b);
    var q: U64;
    q, r := Udivmod(a', b');
    ghost var m := r;
    RemainderExact(a', b');
    RemainderBranch(a', b', a.Signed(), b.Signed());
    if negative { r := Neg64(r); }
    NegVal(m);
    ModLess(a'.Val(), b'.Val());
    SignedOf(r, if negative then -(m.Val() as int) else m.Val());
  }

  lemma RemainderBranch(a: U64, b: U64, x: int, y: int)
    requires a.Val() == Abs(x) && b.Val() == Abs(y) && y != 0
    requires MIN64 <= x <= -MIN64 - 1 && MIN64 <= y <= -MIN64 - 1
    ensures (b.hi >= 0x8000_0000 && a.Val() >= b.Val()) <==> x == MIN64 && y == MIN64
    ensures x == MIN64 && y == MIN64 ==> a.Val() % b.Val() == 0 && UdivmodRemainder(a, b) == a
  {
    if x == MIN64 && y == MIN64 {
      DivModUnique(a.Val(), b.Val(), 1, 0);
    }
  }
}
