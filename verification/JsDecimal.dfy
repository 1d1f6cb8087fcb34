/** Decimal printing of 64-bit values (XBee/jslong.c). */
module JsDecimal {
  import opened Words
  import opened JsLong
  import opened JsDivision
  import opened JsSigned

  function Digit(d: nat): char
    requires d < 10
  {
    '0' + d as char
  }

  predicate IsDigit(c: char) { '0' <= c <= '9' }

  function DigitValue(c: char): nat
    requires IsDigit(c)
  {
    c as int - '0' as int
  }

  /** The ten digits, lowest first. */
  lemma TenDigits(d: nat)
    requires d < 10
    ensures Digit(d) == "0123456789"[d]
  {
  }

  lemma DigitRoundTrip(c: char)
    requires IsDigit(c)
    ensures DigitValue(c) < 10 && Digit(DigitValue(c)) == c
  {
  }

  /** Decimal digits without leading zeros; zero has none. */
  function Digits(n: nat): string {
    if n == 0 then "" else Digits(n / 10) + [Digit(n % 10)]
  }

  function Numeral(n: nat): string { if n == 0 then "0" else Digits(n) }

  /** The number a digit string denotes. */
  function Read(s: string): nat
    requires forall c <- s :: IsDigit(c)
  {
    if s == "" then 0 else 10 * Read(s[..|s| - 1]) + DigitValue(s[|s| - 1])
  }

  function Pow10(k: nat): (p: nat)
    ensures p > 0
  {
    if k == 0 then 1 else 10 * Pow10(k - 1)
  }

  /** The canonical numeral: digits only, no leading zero, and it reads back. */
  ghost predicate Canonical(s: string, n: nat) {
    && |s| > 0 && (forall c <- s :: IsDigit(c))
    && (s[0] == '0' ==> |s| == 1)
    && Read(s) == n
  }

  lemma {:induction false} DigitsCanonical(n: nat)
    requires n > 0
    ensures Canonical(Digits(n), n) && Digits(n)[0] != '0'
  {
    var s := Digits(n / 10);
    if n >= 10 { DigitsCanonical(n / 10); }
    assert Digits(n)[..|Digits(n)| - 1] == s;
  }

  /** A numeral of one character. */
  lemma OneCharacter(s: string)
    requires |s| == 1 && IsDigit(s[0])
    ensures Read(s) == DigitValue(s[0]) < 10
    ensures s == Numeral(Read(s))
  {
    var d := DigitValue(s[0]);
    DigitRoundTrip(s[0]);
    assert s[..0] == "" && Read("") == 0;
    assert s == [Digit(d)];
    NumeralOfDigit(d);
  }

  lemma NumeralOfDigit(d: nat)
    requires d < 10
    ensures Numeral(d) == [Digit(d)]
  {
    if d > 0 {
      assert d / 10 == 0 && d % 10 == d && Digits(0) == "";
      assert Digits(d) == Digits(0) + [Digit(d)] == [Digit(d)];
    }
  }

  /** A longer one is the numeral of the rest, and its last digit. */
  lemma LastCharacter(s: string, t: string, c: char)
    requires s == t + [c] && t != [] && (forall x <- t :: IsDigit(x)) && IsDigit(c)
    requires Read(t) > 0 && t == Numeral(Read(t))
    ensures s == Numeral(Read(s))
  {
    assert s[..|s| - 1] == t;
    DigitRoundTrip(c);
    var n := Read(s);
    assert n == 10 * Read(t) + DigitValue(c);
    assert n / 10 == Read(t) && n % 10 == DigitValue(c);
  }

  lemma {:induction false} CanonicalIsNumeral(s: string)
    requires |s| > 0 && (forall c <- s :: IsDigit(c)) && (s[0] == '0' ==> |s| == 1)
    ensures s == Numeral(Read(s))
    decreases |s|
  {
    hide Read, Numeral;
    assert s[0] in s && s[|s| - 1] in s;
    if |s| == 1 {
      OneCharacter(s);
    } else {
      var t := s[..|s| - 1];
      assert t[0] == s[0] && forall c <- t :: c in s;
      PositiveRead(t);
      CanonicalIsNumeral(t);
      LastCharacter(s, t, s[|s| - 1]);
    }
  }

  /** A string is the numeral of `n` if and only if it is canonical for `n`. */
  lemma NumeralUnique(s: string, n: nat)
    ensures s == Numeral(n) <==> Canonical(s, n)
  {
    hide Digits;
    if n > 0 { DigitsCanonical(n); }
    assert Canonical("0", 0) by {
      assert "0"[..0] == "" && Read("") == 0;
    }
    if Canonical(s, n) { CanonicalIsNumeral(s); }
  }

  lemma {:induction false} PositiveRead(s: string)
    requires |s| > 0 && (forall c <- s :: IsDigit(c)) && s[0] != '0'
    ensures Read(s) > 0
  {
    if |s| > 1 {
      PositiveRead(s[..|s| - 1]);
    }
  }

  lemma {:induction false} DigitsBound(n: nat, k: nat)
    requires n < Pow10(k)
    ensures |Digits(n)| <= k
    decreases k
  {
    if n > 0 { DigitsBound(n / 10, k - 1); }
  }

  /** No 64-bit value needs more than the 20 characters of `temp`. */
  lemma TwentyDigits(v: U64)
    ensures |Digits(v.Val())| <= 20
  {
    assert Pow10(5) == 100000;
    Pow10Add(5, 5);
    Pow10Add(10, 10);
    DigitsBound(v.Val(), 20);
  }

  lemma Pow10Add(j: nat, k: nat)
    ensures Pow10(j + k) == Pow10(j) * Pow10(k)
  {
    if j > 0 {
      Pow10Add(j - 1, k);
      assert Pow10(j + k) == 10 * (Pow10(j - 1) * Pow10(k));
    }
  }

  function Reverse(s: string): (r: string)
    ensures |r| == |s|
  {
    seq(|s|, i requires 0 <= i < |s| => s[|s| - 1 - i])
  }

  lemma ReverseSnoc(s: string, c: char)
    ensures Reverse(s + [c]) == [c] + Reverse(s)
  {
  }

  lemma SmallWord(r: U64)
    requires r.Val() < 10000
    ensures r.lo == r.Val()
  {
  }

  lemma FourDigits(before: nat, quot: U64, rem: U64, v: U64)
    requires v.Val() == before && quot.Val() == before / 10000 && rem == UdivmodRemainder(v, U64(0, 10000))
    ensures before == quot.Val() * Pow10(4) + rem.lo && rem.lo < Pow10(4)
    ensures before > 0 ==> quot.Val() < before
    ensures quot == U64(0, 0) <==> quot.Val() == 0
  {
    assert Pow10(4) == 10000;
    RemainderExact(v, U64(0, 10000));
    SmallWord(rem);
  }

  /** Peeling one digit off the low four moves it in front of the digits written so far. */
  lemma NextDigit(q: nat, rem: nat, i: nat)
    requires i > 0 && rem < Pow10(i) && (q > 0 || rem > 0)
    ensures rem / 10 < Pow10(i - 1) && q * Pow10(i - 1) >= 0
    ensures Digits(q * Pow10(i) + rem) == Digits(q * Pow10(i - 1) + rem / 10) + [Digit(rem % 10)]
  {
    MulMono(0, q, Pow10(i - 1));
    var x := q * Pow10(i) + rem;
    assert q * Pow10(i) == 10 * (q * Pow10(i - 1));
    if q > 0 { MulMono(1, q, Pow10(i)); }
    assert x > 0 && x / 10 == q * Pow10(i - 1) + rem / 10 && x % 10 == rem % 10;
  }

  /** `text` and a NUL stand at `at`, and nothing else changed. */
  twostate predicate Wrote(buffer: array<char>, at: nat, text: string)
    reads buffer
  {
    && at + |text| < buffer.Length
    && buffer[at..at + |text|] == text && buffer[at + |text|] == '\0'
    && buffer[..at] == old(buffer[..at])
    && buffer[at + |text| + 1..] == old(buffer[at + |text| + 1..])
  }

  /** The final loop of `jsll_udecstr`: copy `temp[..length]` backwards and terminate it. */
  method CopyReversed(buffer: array<char>, at: nat, temp: array<char>, length: nat)
    requires buffer != temp && length <= temp.Length && at + length < buffer.Length
    modifies buffer
    ensures Wrote(buffer, at, Reverse(temp[..length]))
  {
    hide Reverse;
    var i: nat, b: nat, p: nat := length, at, length;
    assert buffer[at..at] == "";
    while i > 0
      invariant i <= length && p == i && b == at + length - i
      invariant buffer[..at] == old(buffer[..at]) && buffer[b..] == old(buffer[b..])
      invariant Reverse(temp[..length]) == buffer[at..b] + Reverse(temp[..i])
    {
      p := p - 1;
      ghost var done, rest := buffer[at..b], old(buffer[b..]);
      ReverseLast(temp[..i]);
      assert temp[..i][..p] == temp[..p] && temp[..i][p] == temp[p];
      assert done + ([temp[p]] + Reverse(temp[..p])) == (done + [temp[p]]) + Reverse(temp[..p]);
      assert rest[1..] == old(buffer[b + 1..]);
      PutChar(buffer, at, b, temp[p]);
      b, i := b + 1, i - 1;
    }
    assert temp[..0] == [];
    ReverseNone();
    ghost var text, rest := buffer[at..b], old(buffer[b..]);
    assert rest[1..] == old(buffer[b + 1..]);
    PutChar(buffer, at, b, '\0');
    assert buffer[at..b] == buffer[at..b + 1][..b - at] == text;
    assert buffer[b] == buffer[at..b + 1][b - at];
  }

  method PutChar(buffer: array<char>, at: nat, b: nat, c: char)
    requires at <= b < buffer.Length
    modifies buffer
    ensures buffer[at..b + 1] == old(buffer[at..b]) + [c]
    ensures buffer[..at] == old(buffer[..at]) && buffer[b + 1..] == old(buffer[b..])[1..]
  {
    buffer[b] := c;
  }

  lemma ReverseLast(s: string)
    requires s != []
    ensures Reverse(s) == [s[|s| - 1]] + Reverse(s[..|s| - 1])
  {
    assert s == s[..|s| - 1] + [s[|s| - 1]];
    ReverseSnoc(s[..|s| - 1], s[|s| - 1]);
  }

  lemma ReverseNone()
    ensures Reverse("") == ""
  {
  }

  /** The inner loop of `jsll_udecstr`: up to four digits, all four when more are to follow. */
  method StoreDigits(temp: array<char>, p: nat, ghost q: nat, rem: nat, fill: bool,
                     ghost v: nat, ghost all: string)
    returns (p': nat)
    requires p <= temp.Length && |all| <= temp.Length
    requires rem < Pow10(4) && (fill <==> q > 0)
    requires v == q * Pow10(4) + rem && all == Digits(v) + Reverse(temp[..p])
    modifies temp
    ensures p' <= temp.Length && all == Digits(q) + Reverse(temp[..p'])
  {
    hide Digits, Pow10;
    p' := p;
    var rem16: nat := rem;
    var i: nat := 4;
    ghost var left := v;
    while i > 0 && (fill || rem16 > 0)
      invariant i <= 4 && p' <= temp.Length && rem16 < Pow10(i)
      invariant left == q * Pow10(i) + rem16
      invariant all == Digits(left) + Reverse(temp[..p'])
    {
      var d := Digit(rem16 % 10);
      NextDigit(q, rem16, i);
      left := q * Pow10(i - 1) + rem16 / 10;
      PushDigit(all, Digits(left), temp[..p'], d);
      ghost var was := temp[..p'];
      temp[p'] := d;
      assert temp[..p' + 1] == was + [d];
      rem16 := rem16 / 10;
      p', i := p' + 1, i - 1;
    }
    AllStored(q, i, rem16, fill);
  }

  lemma PushDigit(all: string, high: string, low: string, d: char)
    requires all == high + [d] + Reverse(low)
    ensures all == high + Reverse(low + [d]) && |low| < |all|
  {
    ReverseSnoc(low, d);
    assert high + [d] + Reverse(low) == high + ([d] + Reverse(low));
  }

  lemma AllStored(q: nat, i: nat, rem: nat, fill: bool)
    requires rem < Pow10(i) && (fill <==> q > 0) && (i == 0 || (!fill && rem == 0))
    ensures q * Pow10(i) + rem == q
  {
    if i == 0 { assert Pow10(i) == 1; }
  }

  /** The low four digits, and what is left above them. */
  method TakeFour(v: U64) returns (quot: U64, low: nat)
    ensures v.Val() == quot.Val() * Pow10(4) + low && low < Pow10(4)
    ensures v.Val() > 0 ==> quot.Val() < v.Val()
  {
    hide UdivmodRemainder;
    var rem: U64;
    quot, rem := Udivmod(v, U64(0, 10000));
    FourDigits(v.Val(), quot, rem, v);
    low := rem.lo;
  }

  lemma NumeralIs(n: nat)
    ensures n > 0 ==> Numeral(n) == Digits(n)
    ensures n == 0 ==> Numeral(n) == "0" && Digits(n) == ""
  {
  }

  /** The loop of `jsll_udecstr`: the digits of `v`, last one first, four at a time. */
  method AllDigits(temp: array<char>, v: U64) returns (p: nat)
    requires temp.Length == 20
    modifies temp
    ensures p <= 20 && Reverse(temp[..p]) == Digits(v.Val())
  {
    hide Reverse, Digits;
    ghost var text := Digits(v.Val());
    TwentyDigits(v);
    ReverseNone();
    NumeralIs(0);
    var quot := v;
    var fill := v.Val() > 0;
    p := 0;
    assert temp[..0] == "" && text == text + "";
    while fill
      invariant fill <==> quot.Val() > 0
      invariant p <= 20 && text == Digits(quot.Val()) + Reverse(temp[..p])
      decreases quot.Val()
    {
      ghost var before := quot.Val();
      var low: nat;
      quot, low := TakeFour(quot);
      fill := quot.Val() != 0;
      p := StoreDigits(temp, p, quot.Val(), low, fill, before, text);
    }
  }

  /** `jsll_udecstr` writes the decimal numeral and a terminating NUL at `buffer + at`. */
  method Udecstr(buffer: array<char>, at: nat, v: U64) returns (length: nat)
    requires at + |Numeral(v.Val())| < buffer.Length
    modifies buffer
    ensures length == |Numeral(v.Val())| <= 20 && Wrote(buffer, at, Numeral(v.Val()))
  {
    hide Reverse, Digits, Numeral;
    NumeralIs(v.Val());
    TwentyDigits(v);
    if v.Val() == 0 {
      buffer[at], buffer[at + 1] := '0', '\0';
      assert buffer[at..at + 1] == "0";
      return 1;
    }
    var temp := new char[20];
    length := AllDigits(temp, v);
    CopyReversed(buffer, at, temp, length);
  }

  /** What `jsll_decstr` prints. */
  function SignedNumeral(x: int): string {
    if x < 0 then ['-'] + Numeral(-x) else Numeral(x)
  }

  /** `jsll_decstr` writes the signed numeral; the length it returns leaves the sign out. */
  method Decstr(buffer: array<char>, v: U64) returns (length: nat)
    requires |SignedNumeral(v.Signed())| < buffer.Length
    modifies buffer
    ensures length == |Numeral(Abs(v.Signed()))| && Wrote(buffer, 0, SignedNumeral(v.Signed()))
    ensures length == |SignedNumeral(v.Signed())| <==> v.Signed() >= 0
  {
    Magnitude(v);
    if v.hi >= 0x8000_0000 {
      var abs := Neg64(v);
      buffer[0] := '-';
      length := Udecstr(buffer, 1, abs);
      assert buffer[..1] == ['-'];
      assert buffer[0..1 + length] == buffer[..1] + buffer[1..1 + length];
    } else {
      length := Udecstr(buffer, 0, v);
    }
  }

  /** A minus sign exactly for values below 0, and then the numeral of the magnitude. */
  lemma SignedNumeralReads(x: int)
    ensures var s := SignedNumeral(x);
      if x < 0 then s != [] && s[0] == '-' && Canonical(s[1..], -x) else Canonical(s, x)
  {
    NumeralUnique(Numeral(Abs(x)), Abs(x));
    if x < 0 { assert SignedNumeral(x)[1..] == Numeral(-x); }
  }

  /** Two signed values never print alike. */
  lemma SignedNumeralInjective(x: int, y: int)
    requires SignedNumeral(x) == SignedNumeral(y)
    ensures x == y
  {
    NumeralUnique(Numeral(Abs(x)), Abs(x));
    NumeralUnique(Numeral(Abs(y)), Abs(y));
    if x < 0 && y < 0 {
      assert Numeral(-x) == SignedNumeral(x)[1..];
      assert Numeral(-y) == SignedNumeral(y)[1..];
    } else if x < 0 || y < 0 {
      SignDiffers(if x < 0 then y else x, if x < 0 then x else y);
    }
  }

  lemma SignDiffers(x: nat, y: int)
    requires y < 0
    ensures SignedNumeral(x) != SignedNumeral(y)
  {
    NumeralUnique(Numeral(x), x);
    assert Numeral(x)[0] in Numeral(x);
  }
}
