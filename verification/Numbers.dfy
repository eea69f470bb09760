/** Numbers on the console (sys/kprintf.c) and on the command line (bin/sleep/sleep.c). */
module Numbers {
  import opened Integers

  function DigitChar(r: nat): (c: char)
    requires r < 16
    ensures c != '\0'
  {
    if r >= 10 then (r - 10 + 97) as char else (r + 48) as char
  }

  function DigitValue(c: char): int {
    if c >= 'a' then c as int - 97 + 10 else c as int - 48
  }

  /** The canonical numeral: no leading zero. */
  function Numeral(n: nat, b: nat): (s: string)
    requires 2 <= b <= 16
    ensures |s| > 0
  {
    if n < b then [DigitChar(n)] else Numeral(n / b, b) + [DigitChar(n % b)]
  }

  /** The number that a numeral stands for. */
  function Value(s: string, b: nat): int
    decreases |s|
  {
    if s == "" then 0 else Value(s[..|s| - 1], b) * b + DigitValue(s[|s| - 1])
  }

  /** Digits are written as everybody writes them. */
  lemma DigitIs(r: nat)
    requires r < 16
    ensures DigitChar(r) == "0123456789abcdef"[r]
  { }

  /** Only the digits of the base are used. */
  lemma {:induction false} NumeralDigits(n: nat, b: nat)
    requires b == 10 || b == 16
    ensures forall i :: 0 <= i < |Numeral(n, b)| ==> Numeral(n, b)[i] in "0123456789abcdef"[..b]
    decreases n
  {
    DigitIs(n % b);
    assert "0123456789abcdef"[..b][n % b] == DigitChar(n % b);
    if n < b {
    } else {
      NumeralDigits(n / b, b);
    }
  }

  lemma {:induction false} NumeralValue(n: nat, b: nat)
    requires b == 10 || b == 16
    ensures Value(Numeral(n, b), b) == n
    ensures n > 0 ==> Numeral(n, b)[0] != '0'
    decreases n
  {
    if n < b {
      DigitRoundTrip(n);
      assert [DigitChar(n)][..0] == "";
    } else {
      var q, r := n / b, n % b;
      assert n == q * b + r && 0 < q < n;
      DigitRoundTrip(r);
      NumeralValue(q, b);
      SnocValue(Numeral(q, b), DigitChar(r), b);
    }
  }

  lemma DigitRoundTrip(r: nat)
    requires r < 16
    ensures DigitValue(DigitChar(r)) == r && (r > 0 ==> DigitChar(r) != '0')
  { }

  lemma SnocValue(s: string, c: char, b: nat)
    ensures Value(s + [c], b) == Value(s, b) * b + DigitValue(c)
  {
    assert (s + [c])[..|s|] == s;
  }

  function Pow(b: nat, k: nat): nat { if k == 0 then 1 else b * Pow(b, k - 1) }

  /** A numeral of n has at most k digits exactly when n is below b to the k. */
  lemma {:induction false} NumeralLength(n: nat, b: nat, k: nat)
    requires 2 <= b <= 16 && k > 0
    ensures |Numeral(n, b)| <= k <==> n < Pow(b, k)
    decreases k
  {
    if k == 1 {
      assert Pow(b, 1) == b * Pow(b, 0) == b;
    } else if n < b {
      PowGrows(b, k);
    } else {
      NumeralLength(n / b, b, k - 1);
      DivLess(n, b, Pow(b, k - 1));
    }
  }

  lemma {:induction false} PowGrows(b: nat, k: nat)
    requires 2 <= b && k > 0
    ensures b <= Pow(b, k)
  {
    if k == 1 {
      assert Pow(b, 1) == b * Pow(b, 0) == b;
    } else {
      PowGrows(b, k - 1);
      assert b * Pow(b, k - 1) >= b * 1;
    }
  }

  lemma DivLess(n: nat, b: nat, p: nat)
    requires b > 0
    ensures n / b < p <==> n < b * p
  {
    var q, r := n / b, n % b;
    assert n == b * q + r;
    if q < p {
      assert b * (q + 1) <= b * p;
    } else {
      assert b * p <= b * q;
    }
  }

  lemma PowersOfTen()
    ensures Pow(10, 19) == 10_000_000_000_000_000_000 && Pow(10, 20) == 100_000_000_000_000_000_000
    ensures Pow(16, 16) == TWO64
  {
    assert Pow(10, 4) == 1_0000 && Pow(16, 4) == 0x1_0000;
    assert Pow(10, 8) == 1_0000_0000 && Pow(16, 8) == 0x1_0000_0000;
    assert Pow(10, 12) == 1_0000_0000_0000 && Pow(16, 12) == 0x1_0000_0000_0000;
    assert Pow(10, 16) == 1_0000_0000_0000_0000;
  }

  /** No 64-bit number needs more than 20 digits, and the largest needs exactly 20. */
  lemma TwentyDigits(n: nat)
    requires n < TWO64
    ensures |Numeral(n, 10)| <= 20 && |Numeral(n, 16)| <= 16
    ensures |Numeral(TWO64 - 1, 10)| == 20
  {
    PowersOfTen();
    NumeralLength(n, 10, 20);
    NumeralLength(n, 16, 16);
    NumeralLength(TWO64 - 1, 10, 20);
    NumeralLength(TWO64 - 1, 10, 19);
  }

  function Reverse(s: string): (r: string)
    ensures |r| == |s|
  {
    if s == "" then "" else Reverse(s[1..]) + [s[0]]
  }

  lemma {:induction false} ReverseSnoc(s: string, c: char)
    ensures Reverse(s + [c]) == [c] + Reverse(s)
    decreases |s|
  {
    if s == "" {
      assert s + [c] == [c];
    } else {
      assert (s + [c])[1..] == s[1..] + [c];
      ReverseSnoc(s[1..], c);
    }
  }

  /** One more digit, from the left of what is done. */
  lemma NextDigit(n: nat, d: nat, b: nat, digits: string)
    requires (b == 10 || b == 16) && Numeral(n, b) == Numeral(d, b) + Reverse(digits)
    ensures Numeral(n, b) == (if d < b then "" else Numeral(d / b, b)) + Reverse(digits + [DigitChar(d % b)])
    ensures |digits| < |Numeral(n, b)|
  {
    hide Numeral, Reverse, Digit;
    NumeralUnfold(d, b);
    var c := DigitChar(d % b);
    ReverseSnoc(digits, c);
    Regroup(if d < b then "" else Numeral(d / b, b), c, Reverse(digits), Numeral(n, b), Reverse(digits + [c]));
  }

  lemma Regroup(a: string, c: char, r: string, whole: string, rest: string)
    requires whole == (a + [c]) + r && rest == [c] + r
    ensures whole == a + rest
  { }

  lemma NumeralUnfold(d: nat, b: nat)
    requires b == 10 || b == 16
    ensures Numeral(d, b) == (if d < b then "" else Numeral(d / b, b)) + [DigitChar(d % b)]
  {
    if d < b { assert d % b == d; }
  }

  /** The first loop of convert: the digits, lowest first, in a scratch array of 20
      characters, which is never overrun. */
  method LowDigits(dec: nat, base: nat, fmt: array<char>) returns (i: nat)
    requires dec < TWO64 && (base == 10 || base == 16) && fmt.Length == 20
    modifies fmt
    ensures i == |Numeral(dec, base)| <= 20 && Reverse(fmt[..i]) == Numeral(dec, base)
  {
    TwentyDigits(dec);
    hide Numeral, Reverse, Digit;
    i := 0;
    var d := dec;
    assert Reverse(fmt[..0]) == "";
    while true
      invariant 0 <= d && i < 20 && Numeral(dec, base) == Numeral(d, base) + Reverse(fmt[..i])
      decreases d
    {
      NextDigit(dec, d, base, fmt[..i]);
      ghost var before := fmt[..i];
      fmt[i] := DigitChar(d % base);
      assert fmt[..i + 1] == before + [DigitChar(d % base)];
      i := i + 1;
      if d / base == 0 {
        break;
      }
      d := d / base;
    }
  }

  /** convert, for the two kinds that its callers ask for: the numeral, ended by NUL. */
  method Convert(dec: nat, base: nat, out: array<char>) returns (j: nat)
    requires dec < TWO64 && (base == 10 || base == 16) && out.Length == 1000
    modifies out
    ensures j == |Numeral(dec, base)| <= 20
    ensures out[..j] == Numeral(dec, base) && out[j] == '\0'
    ensures Value(out[..j], base) == dec && forall i :: 0 <= i < j ==> out[i] in "0123456789abcdef"[..base]
  {
    var fmt := new char[20];
    var i := LowDigits(dec, base, fmt);
    hide Numeral, Reverse;
    ghost var n, digits := i, fmt[..i];
    j := 0;
    while i > 0
      invariant i <= n <= 20 && j == n - i && fmt[..n] == digits
      invariant out[..j] == Reverse(digits)[..j]
    {
      i := i - 1;
      ReverseAt(digits, j);
      out[j] := fmt[i];
      assert fmt[i] == digits[i];
      assert Reverse(digits)[..j + 1] == Reverse(digits)[..j] + [Reverse(digits)[j]];
      j := j + 1;
    }
    assert Reverse(digits)[..j] == Reverse(digits);
    out[j] := '\0';
    NumeralValue(dec, base);
    NumeralDigits(dec, base);
    assert forall i :: 0 <= i < j ==> out[..j][i] == out[i];
  }

  lemma {:induction false} ReverseAt(s: string, k: nat)
    requires k < |s|
    ensures Reverse(s)[k] == s[|s| - 1 - k]
    decreases |s|
  {
    if k == |s| - 1 {
    } else {
      ReverseAt(s[1..], k);
    }
  }

  // ------------------------------------------------------------------ printd

  /** printd shows the number itself exactly when it is not negative. */
  lemma PrintdShowsNumberIff(num: int)
    requires IsInt(num)
    ensures Value(Numeral(Widened(num), 10), 10) == num <==> num >= 0
    ensures num < 0 ==> |Numeral(Widened(num), 10)| == 20
  {
    NumeralValue(Widened(num), 10);
    if num < 0 {
      PowersOfTen();
      NumeralLength(Widened(num), 10, 19);
      NumeralLength(Widened(num), 10, 20);
    }
  }

  // ------------------------------------------------------------------- sleep

  predicate Decimal(s: string) { forall i :: 0 <= i < |s| ==> '0' <= s[i] <= '9' }

  /** A leading digit counts with the power of ten of its place. */
  lemma {:induction false} ValueLeft(s: string, c: char)
    ensures Value([c] + s, 10) == DigitValue(c) * Pow(10, |s|) + Value(s, 10)
    decreases |s|
  {
    if s == "" {
      assert [c] + s == [c] && [c][..0] == "";
    } else {
      var low, e := s[..|s| - 1], s[|s| - 1];
      assert s == low + [e] && [c] + s == ([c] + low) + [e];
      ValueLeft(low, c);
      SnocValue(low, e, 10);
      SnocValue([c] + low, e, 10);
      Shift(DigitValue(c), Pow(10, |low|), Value(low, 10), DigitValue(e));
    }
  }

  lemma Shift(d: int, p: int, v: int, e: int)
    ensures (d * p + v) * 10 + e == d * (10 * p) + (v * 10 + e)
  { }

  lemma {:induction false} DecimalValue(s: string)
    requires Decimal(s)
    ensures 0 <= Value(s, 10)
    decreases |s|
  {
    if s == "" {
    } else {
      DecimalValue(s[..|s| - 1]);
    }
  }

  lemma {:induction false} TensGrow(j: nat, k: nat)
    requires j <= k
    ensures 1 <= Pow(10, j) <= Pow(10, k)
    decreases k
  {
    if k == 0 {
    } else if j == k {
      TensGrow(j - 1, k - 1);
    } else {
      TensGrow(j, k - 1);
    }
  }

  /** A number without leading zero is at least the power of ten of its first place. */
  lemma FirstPlace(s: string)
    requires Decimal(s) && s != "" && s[0] != '0'
    ensures Pow(10, |s| - 1) <= Value(s, 10)
  {
    hide Pow, Value;
    assert s == [s[0]] + s[1..];
    ValueLeft(s[1..], s[0]);
    DecimalValue(s[1..]);
    TensGrow(0, |s| - 1);
    AtLeastOnce(DigitValue(s[0]), Pow(10, |s| - 1));
  }

  lemma AtLeastOnce(d: int, p: int)
    requires 1 <= d && 0 <= p
    ensures p <= d * p
  { }

  /** The inner loop of the sleep program. */
  method PowerOfTen(n: nat) returns (m: int, ghost inRange: bool)
    ensures m == Wrap(Pow(10, n)) && (Pow(10, n) < TWO31 ==> inRange)
  {
    hide Wrap;
    WrapShift(1, 0);
    m, inRange := 1, true;
    var j := 0;
    while j < n
      invariant 0 <= j <= n && m == Wrap(Pow(10, j))
      invariant Pow(10, n) < TWO31 ==> inRange
    {
      WrapTimes(Pow(10, j), 10);
      TensGrow(j, n);
      TensGrow(j + 1, n);
      WrapShift(Pow(10, j), 0);
      inRange := inRange && IsInt(m * 10);
      m := Wrap(m * 10);
      j := j + 1;
    }
  }

  /** One digit `d` more, at the place with power `p`. */
  lemma AddDigit(sum: nat, d: nat, p: nat)
    ensures Wrap(Wrap(sum) + Wrap(d * Wrap(p))) == Wrap(sum + d * p)
    ensures p < TWO31 && sum + d * p < TWO31 ==>
              IsInt(d * Wrap(p)) && IsInt(Wrap(sum) + Wrap(d * Wrap(p)))
  {
    hide Wrap;
    WrapTimes(p, d);
    WrapPlus(sum, d * p);
    WrapShift(p, 0);
    WrapShift(sum, 0);
    WrapShift(d * p, 0);
  }

  /** The digits from place `k` on. */
  lemma SplitDigit(arg: string, k: nat)
    requires Decimal(arg) && k < |arg|
    ensures Value(arg[k..], 10) == (arg[k] as int - 48) * Pow(10, |arg| - k - 1) + Value(arg[k + 1..], 10)
    ensures 0 <= Value(arg[k + 1..], 10) && 1 <= Pow(10, |arg| - k - 1) <= Pow(10, |arg| - 1)
  {
    hide Value, Pow;
    assert arg[k..] == [arg[k]] + arg[k + 1..];
    ValueLeft(arg[k + 1..], arg[k]);
    DecimalValue(arg[k + 1..]);
    TensGrow(|arg| - k - 1, |arg| - 1);
  }

  /** The nested loops of the sleep program: each digit times the power of ten of its
      place, the power counted up anew every time.  The result is the value, wrapped to an
      int; for an int without leading zeros no operation on the way leaves the range. */
  method ParseSeconds(arg: string) returns (sec: int, ghost inRange: bool)
    requires arg != "" && Decimal(arg)
    ensures sec == Wrap(Value(arg, 10))
    ensures Value(arg, 10) < TWO31 ==> sec == Value(arg, 10)
    ensures Value(arg, 10) < TWO31 && (arg[0] != '0' || |arg| == 1) ==> inRange
  {
    hide Wrap, Pow, Value;
    sec, inRange := 0, true;
    var i, in_ := arg[0], 1;
    ghost var sum: nat := 0;
    ghost var small := Value(arg, 10) < TWO31 && (arg[0] != '0' || |arg| == 1);
    SmallStart(arg);
    WrapShift(0, 0);
    assert arg[0..] == arg;
    while true
      invariant 1 <= in_ <= |arg| && i == arg[in_ - 1]
      invariant sec == Wrap(sum) && sum + Value(arg[in_ - 1..], 10) == Value(arg, 10)
      invariant small ==> inRange
      decreases |arg| - in_
    {
      var m;
      ghost var fits;
      m, fits := PowerOfTen(|arg| - in_);
      ghost var d, p := i as int - 48, Pow(10, |arg| - in_);
      SplitDigit(arg, in_ - 1);
      AddDigit(sum, d, p);
      var k := Wrap((i as int - 48) * m);
      inRange := inRange && fits && IsInt((i as int - 48) * m) && IsInt(sec + k);
      sec := Wrap(sec + k);
      sum := sum + d * p;
      if in_ == |arg| {
        break;
      }
      i := arg[in_];
      in_ := in_ + 1;
    }
    NoDigits(arg);
    WrapShift(sum, 0);
  }

  lemma NoDigits(arg: string)
    ensures Value(arg[|arg|..], 10) == 0
  { }

  lemma SmallStart(arg: string)
    requires arg != "" && Decimal(arg)
    ensures Value(arg, 10) < TWO31 && (arg[0] != '0' || |arg| == 1) ==> Pow(10, |arg| - 1) < TWO31
  {
    if arg[0] != '0' { FirstPlace(arg); }
  }

  lemma {:induction false} NumeralIsDecimal(n: nat)
    ensures Decimal(Numeral(n, 10))
    decreases n
  {
    if n < 10 {
    } else {
      NumeralIsDecimal(n / 10);
    }
  }

  /** What the console prints for a number, the sleep program reads back. */
  method PrintThenSleep(n: nat) returns (sec: int)
    requires n < TWO31
    ensures sec == n
  {
    var out := new char[1000];
    var j := Convert(n, 10, out);
    NumeralIsDecimal(n);
    NumeralValue(n, 10);
    ghost var inRange;
    sec, inRange := ParseSeconds(out[..j]);
  }
}
