/** Fixed-width unsigned integers of the C headers, and the digit view of a
    packed integer: extracting k-bit fields with shifts and masks is reading
    the base-2^k digits of the integer, least significant first. */
module Words {

  type Uint8 = x: int | 0 <= x < 0x100
  type Uint16 = x: int | 0 <= x < 0x1_0000
  type Uint32 = x: int | 0 <= x < 0x1_0000_0000

  /** The 16-bit value stored little-endian in the bytes lo, hi. */
  function Le16(lo: Uint8, hi: Uint8): (v: Uint16)
    ensures v % 0x100 == lo && v / 0x100 == hi
  {
    lo as int + 0x100 * hi as int
  }

  datatype Option<T> = None | Some(value: T)

  function Pow(base: nat, n: nat): (p: nat)
    ensures base > 0 ==> p > 0
  {
    if n == 0 then 1 else base * Pow(base, n - 1)
  }

  /** The n lowest base-`base` digits of x, least significant first. For
      base 2^k, digit i is `(x >> k*i) & (2^k - 1)`. */
  function ToDigits(x: nat, base: nat, n: nat): (ds: seq<nat>)
    requires base >= 2
    ensures |ds| == n
    ensures forall i :: 0 <= i < n ==> ds[i] < base
  {
    if n == 0 then [] else [x % base] + ToDigits(x / base, base, n - 1)
  }

  /** The integer whose base-`base` digits, least significant first, are ds. */
  function FromDigits(ds: seq<nat>, base: nat): nat
  {
    if ds == [] then 0 else ds[0] + base * FromDigits(ds[1..], base)
  }

  /** Multiplying by a natural number keeps order. */
  lemma MulLe(a: nat, b: nat, c: nat)
    ensures b <= c ==> a * b <= a * c
  {
  }

  /** Euclidean division is determined by quotient and remainder. */
  lemma DivModOf(d: nat, q: nat, r: nat)
    requires r < d
    ensures (d * q + r) / d == q && (d * q + r) % d == r
  {
    var x := d * q + r;
    var q', r' := x / d, x % d;
    assert d * q' + r' == d * q + r;
    MulLe(d, q' + 1, q);
    MulLe(d, q + 1, q');
  }

  /** x is its quotient and remainder by d put back together. */
  lemma Split(x: nat, d: nat)
    requires d > 0
    ensures x == d * (x / d) + x % d && x % d < d
  {
  }

  lemma DivBelow(x: nat, b: nat, p: nat)
    requires b > 0 && x < b * p
    ensures x / b < p
  {
    Split(x, b);
    MulLe(b, p, x / b);
  }

  /** A value between n * lo and n * hi has its quotient by n between lo and hi. */
  lemma DivBounds(s: nat, n: nat, lo: nat, hi: nat)
    requires n > 0 && n * lo <= s <= n * hi
    ensures lo <= s / n <= hi
  {
    Split(s, n);
    MulLe(n, s / n + 1, lo);
    MulLe(n, hi + 1, s / n);
  }

  /** Division by n is monotone. */
  lemma DivMono(x: nat, y: nat, n: nat)
    requires n > 0 && x <= y
    ensures x / n <= y / n
  {
    Split(x, n);
    Split(y, n);
    MulLe(n, y / n + 1, x / n);
  }

  /** Adding at least n raises the quotient by n. */
  lemma DivStep(x: nat, y: nat, n: nat)
    requires n > 0
    ensures x + n <= y ==> x / n < y / n
  {
    Split(x, n);
    Split(y, n);
    MulLe(n, y / n, x / n);
  }

  /** Merging an n-digit split is its first digit plus base times the
      merged split of the rest. */
  lemma MergeSplit(x: nat, base: nat, n: nat)
    requires base >= 2 && n > 0
    ensures FromDigits(ToDigits(x, base, n), base) == x % base + base * FromDigits(ToDigits(x / base, base, n - 1), base)
  {
    var ds := ToDigits(x, base, n);
    assert ds[0] == x % base && ds[1..] == ToDigits(x / base, base, n - 1);
  }

  /** Splitting x into n digits loses nothing when x fits in n digits. */
  lemma {:induction false} FromToDigits(x: nat, base: nat, n: nat)
    requires base >= 2 && x < Pow(base, n)
    ensures FromDigits(ToDigits(x, base, n), base) == x
  {
    if n > 0 {
      DivBelow(x, base, Pow(base, n - 1));
      FromToDigits(x / base, base, n - 1);
      MergeSplit(x, base, n);
      Split(x, base);
    }
  }

  /** Packing digits that are each below the base and splitting the result
      again gives back the same digits, and the packed value fits. */
  lemma {:induction false} ToFromDigits(ds: seq<nat>, base: nat)
    requires base >= 2
    requires forall i :: 0 <= i < |ds| ==> ds[i] < base
    ensures FromDigits(ds, base) < Pow(base, |ds|)
    ensures ToDigits(FromDigits(ds, base), base, |ds|) == ds
  {
    if ds != [] {
      var rest := ds[1..];
      ToFromDigits(rest, base);
      var y := FromDigits(rest, base);
      LowPartBelow(base, Pow(base, |rest|), y, ds[0]);
      DivModOf(base, y, ds[0]);
      SplitFirst(base * y + ds[0], base, |ds|);
      assert [ds[0]] + rest == ds;
    }
  }

  lemma SplitFirst(x: nat, base: nat, n: nat)
    requires base >= 2 && n > 0
    ensures ToDigits(x, base, n) == [x % base] + ToDigits(x / base, base, n - 1)
  {
  }

  /** Each digit of a merged value is recovered by the shift-and-mask formula. */
  lemma MergedDigit(ds: seq<nat>, base: nat, j: nat)
    requires base >= 2 && j < |ds|
    requires forall i :: 0 <= i < |ds| ==> ds[i] < base
    ensures FromDigits(ds, base) / Pow(base, j) % base == ds[j]
  {
    ToFromDigits(ds, base);
    DigitAt(FromDigits(ds, base), base, |ds|, j);
  }

  /** Digit i of the n-digit split is the shift-and-mask formula `x / base^i % base`. */
  lemma {:induction false} DigitAt(x: nat, base: nat, n: nat, i: nat)
    requires base >= 2 && i < n
    ensures ToDigits(x, base, n)[i] == x / Pow(base, i) % base
  {
    DigitIsShifted(x, base, n, i);
    ShiftedIsDiv(x, base, i);
  }

  /** x with its i lowest base-`base` digits dropped, one digit at a time. */
  function Shifted(x: nat, base: nat, i: nat): nat
    requires base >= 2
  {
    if i == 0 then x else Shifted(x / base, base, i - 1)
  }

  lemma {:induction false} DigitIsShifted(x: nat, base: nat, n: nat, i: nat)
    requires base >= 2 && i < n
    ensures ToDigits(x, base, n)[i] == Shifted(x, base, i) % base
  {
    if i > 0 {
      DigitIsShifted(x / base, base, n - 1, i - 1);
    }
  }

  lemma {:induction false} ShiftedIsDiv(x: nat, base: nat, i: nat)
    requires base >= 2
    ensures Shifted(x, base, i) == x / Pow(base, i)
  {
    if i > 0 {
      var p := Pow(base, i - 1);
      ShiftedIsDiv(x / base, base, i - 1);
      DivDiv(x, base, p);
    }
  }

  lemma DivDiv(x: nat, b: nat, c: nat)
    requires b > 0 && c > 0
    ensures x / b / c == x / (b * c)
  {
    var q, r := x / b, x % b;
    var q2, r2 := q / c, q % c;
    Split(x, b);
    Split(q, c);
    Regroup(b, c, q2, r2, r);
    LowPartBelow(b, c, r2, r);
    DivModOf(b * c, q2, b * r2 + r);
  }

  lemma Regroup(b: nat, c: nat, q2: nat, r2: nat, r: nat)
    ensures b * (c * q2 + r2) + r == (b * c) * q2 + (b * r2 + r)
  {
  }

  lemma LowPartBelow(b: nat, c: nat, r2: nat, r: nat)
    requires r < b && r2 < c
    ensures b * r2 + r < b * c
  {
    MulLe(b, r2 + 1, c);
  }
}
