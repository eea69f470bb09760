/** Integers of the C programs: widths, sign, and the bytes of a number. */
module Integers {

  const TWO31: int := 0x8000_0000
  const TWO64: nat := 0x1_0000_0000_0000_0000

  // -------------------------------------------------------------- C ints

  predicate IsInt(x: int) { -TWO31 <= x < TWO31 }

  /** An int register keeps the lowest 32 bits, read as two's complement. */
  function Wrap(x: int): (r: int)
    ensures IsInt(r)
  {
    (x + TWO31) % (2 * TWO31) - TWO31
  }

  /** An int widened to an unsigned 64-bit number. */
  function Widened(x: int): (r: nat)
    requires IsInt(x)
    ensures r < TWO64 && (r == x <==> 0 <= x) && (r == x || r == x + 0x1_0000_0000_0000_0000)
  {
    x % TWO64
  }

  lemma WrapShift(x: int, q: int)
    ensures Wrap(x + q * (2 * TWO31)) == Wrap(x)
    ensures IsInt(x) <==> Wrap(x) == x
    ensures IsInt(x) <==> -0x8000_0000 <= x <= 0x7FFF_FFFF
  { }

  /** Wrapping before a product, or before a sum, makes no difference after it. */
  lemma WrapTimes(x: int, c: int)
    ensures Wrap(c * Wrap(x)) == Wrap(c * x)
  {
    var q := (x - Wrap(x)) / (2 * TWO31);
    assert x == Wrap(x) + q * (2 * TWO31);
    assert c * x == c * Wrap(x) + (c * q) * (2 * TWO31);
    WrapShift(c * Wrap(x), c * q);
  }

  lemma WrapPlus(x: int, y: int)
    ensures Wrap(Wrap(x) + Wrap(y)) == Wrap(x + y)
  {
    var p, q := (x - Wrap(x)) / (2 * TWO31), (y - Wrap(y)) / (2 * TWO31);
    assert x + y == Wrap(x) + Wrap(y) + (p + q) * (2 * TWO31);
    WrapShift(Wrap(x) + Wrap(y), p + q);
  }

  // ---------------------------------------------------- bytes of a number

  type Byte = x: nat | x < 256

  /** Digit `k` of a number in base 256, lowest first. */
  function Digit(n: nat, k: nat): Byte {
    if k == 0 then n % 256 else Digit(n / 256, k - 1)
  }

  function SetDigit(n: nat, k: nat, b: Byte): nat {
    if k == 0 then n / 256 * 256 + b else SetDigit(n / 256, k - 1, b) * 256 + n % 256
  }

  lemma {:induction false} DigitSet(n: nat, k: nat, b: Byte, j: nat)
    ensures Digit(SetDigit(n, k, b), j) == if j == k then b else Digit(n, j)
  {
    var n' := SetDigit(n, k, b);
    if k == 0 {
      assert n' / 256 == n / 256 && n' % 256 == b;
    } else {
      assert n' / 256 == SetDigit(n / 256, k - 1, b) && n' % 256 == n % 256;
      if j > 0 {
        DigitSet(n / 256, k - 1, b, j - 1);
      }
    }
  }

  lemma {:induction false} DigitOfZero(k: nat)
    ensures Digit(0, k) == 0
  {
    if k == 0 {
    } else {
      DigitOfZero(k - 1);
    }
  }

  /** Byte `k` counts 256 to the power `k`. */
  lemma {:induction false} DigitIs(n: nat, k: nat)
    ensures Digit(n, k) == n / Pow256(k) % 256
    decreases k
  {
    if k == 0 {
    } else {
      DigitIs(n / 256, k - 1);
      DivideTwice(n, Pow256(k - 1));
    }
  }

  lemma DivideTwice(n: nat, p: nat)
    requires p > 0
    ensures n / 256 / p == n / (256 * p)
  {
    var q := n / 256 / p;
    var r := n / 256 % p;
    assert n == 256 * (q * p + r) + n % 256;
    assert n == q * (256 * p) + (256 * r + n % 256) && 256 * r + n % 256 < 256 * p;
    QuotientIs(n, 256 * p, q, 256 * r + n % 256);
  }

  lemma QuotientIs(n: nat, d: nat, q: nat, r: nat)
    requires n == q * d + r && r < d
    ensures n / d == q
  {
    var q', r' := n / d, n % d;
    assert n == q' * d + r';
    if q' < q {
      TimesGrows(q' + 1, q, d);
      assert false;
    } else if q < q' {
      TimesGrows(q + 1, q', d);
      assert false;
    }
  }

  lemma TimesGrows(a: nat, b: nat, d: nat)
    requires a <= b
    ensures a * d <= b * d
  { }

  /** The lowest `n` bytes of a number, lowest first. */
  function ToBytes(v: nat, n: nat): (s: seq<Byte>)
    ensures |s| == n && forall k :: 0 <= k < n ==> s[k] == Digit(v, k)
  {
    if n == 0 then [] else [Digit(v, 0)] + ToBytes(v / 256, n - 1)
  }

  function FromBytes(s: seq<Byte>): nat {
    if s == [] then 0 else s[0] + 256 * FromBytes(s[1..])
  }

  function Pow256(n: nat): (r: nat)
    ensures r > 0
  {
    if n == 0 then 1 else 256 * Pow256(n - 1)
  }

  /** Bytes give back the number they came from, if they are enough. */
  lemma {:induction false} BytesBack(v: nat, n: nat)
    requires v < Pow256(n)
    ensures FromBytes(ToBytes(v, n)) == v
    decreases n
  {
    if n == 0 {
    } else {
      BytesBack(v / 256, n - 1);
    }
  }

  lemma Powers()
    ensures Pow256(4) == 0x1_0000_0000 && Pow256(8) == TWO64
  {
    assert Pow256(1) == 256 && Pow256(2) == 0x1_0000 && Pow256(3) == 0x100_0000;
    assert Pow256(5) == 0x100_0000_0000 && Pow256(6) == 0x1_0000_0000_0000 && Pow256(7) == 0x100_0000_0000_0000;
  }
}
