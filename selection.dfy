/** `make_selection_matrix` and the deterministic branches of
    `make_selection_matrix2`: the 2^(m-1) ways of putting m samples into two
    groups, sample 0 always in group 0, as rows of 0/1 bits. */
module Selection {
  import opened Common

  function Pow2(k: nat): (r: nat)
    ensures r >= 1
  {
    if k == 0 then 1 else 2 * Pow2(k - 1)
  }

  /** Bit k of r (bit 0 is the lowest). */
  function Digit(r: nat, k: nat): (d: nat)
    ensures d <= 1
  {
    (r / Pow2(k)) % 2
  }

  /** r in m binary digits, most significant first. */
  function Bits(r: nat, m: nat): (s: seq<int>)
    ensures |s| == m
  {
    seq(m, c requires 0 <= c < m => Digit(r, m - 1 - c) as int)
  }

  /** The number whose binary digits, most significant first, are s. */
  function FromBits(s: seq<int>): int
  {
    if s == [] then 0 else 2 * FromBits(s[..|s| - 1]) + s[|s| - 1]
  }

  // ---------------------------------------------------------- digit facts

  lemma {:induction false} Pow2Mono(a: nat, b: nat)
    requires a <= b
    ensures Pow2(a) <= Pow2(b)
    decreases b - a
  {
    if a < b {
      Pow2Mono(a + 1, b);
    }
  }

  /** Powers of two below and above a number bound their exponents. */
  lemma Pow2Between(i: nat, a: nat, b: nat)
    requires Pow2(a) <= i < Pow2(b)
    ensures a < b
  {
    if b <= a {
      Pow2Mono(b, a);
    }
  }

  lemma MulAtLeast(p: int, d: int)
    requires p > 0 && d >= 1
    ensures p * d >= p
  {
    assert p * d == p + p * (d - 1);
  }

  /** Quotient and remainder are determined by `n == p * q + rem`. */
  lemma DivUnique(n: int, p: int, q: int, rem: int)
    requires p > 0 && 0 <= rem < p && n == p * q + rem
    ensures n / p == q && n % p == rem
  {
    var q', r' := n / p, n % p;
    assert p * q' + r' == p * q + rem;
    if q' < q {
      assert p * (q - q') == r' - rem;
      MulAtLeast(p, q - q');
    } else if q' > q {
      assert p * (q' - q) == rem - r';
      MulAtLeast(p, q' - q);
    }
  }

  lemma DoubleMul(p: int, d: int)
    ensures (2 * p) * d == 2 * (p * d)
  {
  }

  lemma DigitZero(r: nat, k: nat)
    requires r < Pow2(k)
    ensures Digit(r, k) == 0
  {
    var p := Pow2(k);
    DivUnique(r, p, 0, r);
  }

  /** Digits at or above n of a number below 2^n are 0. */
  lemma DigitAbove(i: nat, n: nat, k: nat)
    requires i < Pow2(n) && n <= k
    ensures Digit(i, k) == 0
  {
    Pow2Mono(n, k);
    DigitZero(i, k);
  }

  lemma DigitHigh(r: nat, k: nat)
    requires Pow2(k) <= r < Pow2(k + 1)
    ensures Digit(r, k) == 1
  {
    var p := Pow2(k);
    assert Pow2(k + 1) == 2 * p;
    DivUnique(r, p, 1, r - p);
  }

  /** Halving shifts the digits down by one. */
  lemma DigitHalf(r: nat, k: nat)
    ensures Digit(r / 2, k) == Digit(r, k + 1)
  {
    var p := Pow2(k);
    assert Pow2(k + 1) == 2 * p;
    var q := r / 2;
    var d := q / p;
    var rem := 2 * (q % p) + r % 2;
    DoubleMul(p, d);
    assert r == (2 * p) * d + rem;
    DivUnique(r, 2 * p, d, rem);
  }

  lemma HalfPlus(r: nat, h: nat)
    ensures (r + 2 * h) / 2 == r / 2 + h && (r + 2 * h) % 2 == r % 2
  {
    DivUnique(r + 2 * h, 2, r / 2 + h, r % 2);
  }

  /** Digit 0 is the parity. */
  lemma DigitLow(r: nat)
    ensures Digit(r, 0) == r % 2
  {
    assert Pow2(0) == 1;
    DivUnique(r, 1, r, 0);
  }

  lemma DigitEvenPlus(r: nat, h: nat, k: nat)
    ensures Digit(r + 2 * h, k + 1) == Digit(r / 2 + h, k)
  {
    HalfPlus(r, h);
    DigitHalf(r + 2 * h, k);
  }

  /** Adding 2^l leaves the digits below l alone. */
  lemma {:induction false} DigitShift(r: nat, k: nat, l: nat)
    requires k < l
    ensures Digit(r + Pow2(l), k) == Digit(r, k)
  {
    var h := Pow2(l - 1);
    assert Pow2(l) == 2 * h;
    if k == 0 {
      HalfPlus(r, h);
      DigitLow(r);
      DigitLow(r + 2 * h);
    } else {
      var a := r / 2;
      DigitEvenPlus(r, h, k - 1);
      DigitShift(a, k - 1, l - 1);
      DigitHalf(r, k - 1);
      assert Digit(r + 2 * h, k) == Digit(a + h, k - 1) == Digit(a, k - 1) == Digit(r, k);
    }
  }

  // -------------------------------------------------------- bit rows

  /** Every entry is 0 or 1. */
  lemma BitsBinary(r: nat, m: nat)
    ensures forall c :: 0 <= c < m ==> Bits(r, m)[c] == 0 || Bits(r, m)[c] == 1
  {
    forall c | 0 <= c < m ensures Bits(r, m)[c] == 0 || Bits(r, m)[c] == 1 {
      assert Bits(r, m)[c] == Digit(r, m - 1 - c) as int;
    }
  }

  /** Below 2^(m-1) the first digit is 0: sample 0 is always in group 0; and
      row 0 puts every sample in group 0. */
  lemma BitsFirstZero(r: nat, m: nat)
    requires m >= 1 && r < Pow2(m - 1)
    ensures Bits(r, m)[0] == 0
    ensures forall c :: 0 <= c < m ==> Bits(0, m)[c] == 0
  {
    DigitZero(r, m - 1);
    forall c | 0 <= c < m ensures Bits(0, m)[c] == 0 {
      DigitZero(0, m - 1 - c);
    }
  }

  /** Reading the digits back gives r: distinct rows are distinct splits. */
  lemma {:induction false} FromBitsBits(r: nat, m: nat)
    requires r < Pow2(m)
    ensures FromBits(Bits(r, m)) == r
  {
    if m > 0 {
      var s := Bits(r, m);
      var t := s[..m - 1];
      forall c | 0 <= c < m - 1 ensures t[c] == Bits(r / 2, m - 1)[c] {
        DigitHalf(r, m - 2 - c);
      }
      assert t == Bits(r / 2, m - 1);
      FromBitsBits(r / 2, m - 1);
      DivUnique(r, 1, r, 0);
      assert Pow2(0) == 1;
      assert s[m - 1] == Digit(r, 0) == r % 2;
    }
  }

  lemma BitsInjective(r: nat, r': nat, m: nat)
    requires r < Pow2(m) && r' < Pow2(m) && Bits(r, m) == Bits(r', m)
    ensures r == r'
  {
    FromBitsBits(r, m);
    FromBitsBits(r', m);
  }

  // ---------------------------------------------------- the bin() branch

  /** `bin(i)[2:]` as digits. */
  function BinDigits(i: nat): (s: seq<int>)
    ensures |s| >= 1
  {
    if i < 2 then [i] else BinDigits(i / 2) + [i % 2]
  }

  /** `str.zfill(m)`: zeros in front up to length m. */
  function ZFill(s: seq<int>, m: nat): (r: seq<int>)
  {
    if |s| >= m then s else seq(m - |s|, _ => 0) + s
  }

  /** `np.array(tuple(bin(i)[2:].zfill(m)), dtype=np.byte)`. */
  function BinRow(i: nat, m: nat): seq<int>
  {
    ZFill(BinDigits(i), m)
  }

  lemma {:induction false} BinDigitsValue(i: nat)
    ensures var s := BinDigits(i);
      (i < Pow2(|s|)) && (i > 0 ==> Pow2(|s| - 1) <= i) &&
      forall j :: 0 <= j < |s| ==> s[j] == Digit(i, |s| - 1 - j)
  {
    if i >= 2 {
      BinDigitsValue(i / 2);
      var t := BinDigits(i / 2);
      var s := t + [i % 2];
      forall j | 0 <= j < |s| ensures s[j] == Digit(i, |s| - 1 - j) {
        if j < |t| {
          DigitHalf(i, |t| - 1 - j);
        }
      }
    }
  }

  lemma ZFillCell(s: seq<int>, i: nat, m: nat, c: nat)
    requires |s| <= m && i < Pow2(|s|) && c < m
    requires forall j :: 0 <= j < |s| ==> s[j] == Digit(i, |s| - 1 - j)
    ensures ZFill(s, m)[c] == Digit(i, m - 1 - c) as int
  {
    var d := m - |s|;
    if c < d {
      DigitAbove(i, |s|, m - 1 - c);
    } else {
      assert ZFill(s, m)[c] == s[c - d];
    }
  }

  /** Zero-filling the digits of i gives i in m digits. */
  lemma ZFillDigits(s: seq<int>, i: nat, m: nat)
    requires |s| <= m && i < Pow2(|s|)
    requires forall j :: 0 <= j < |s| ==> s[j] == Digit(i, |s| - 1 - j)
    ensures ZFill(s, m) == Bits(i, m)
  {
    var z, b := ZFill(s, m), Bits(i, m);
    assert |z| == m;
    forall c | 0 <= c < m ensures z[c] == b[c] {
      ZFillCell(s, i, m, c);
      assert b[c] == Digit(i, m - 1 - c) as int;
    }
    assert z == b;
  }

  lemma BinDigitsShort(i: nat, m: nat)
    requires m >= 1 && i < Pow2(m)
    ensures |BinDigits(i)| <= m
  {
    BinDigitsValue(i);
    if i > 0 {
      Pow2Between(i, |BinDigits(i)| - 1, m);
    }
  }

  /** `bin(i)[2:].zfill(m)` is i in m digits when i < 2^m. */
  lemma BinRowBits(i: nat, m: nat)
    requires m >= 1 && i < Pow2(m)
    ensures BinRow(i, m) == Bits(i, m)
  {
    BinDigitsValue(i);
    BinDigitsShort(i, m);
    ZFillDigits(BinDigits(i), i, m);
  }

  /** The `else` branch: `for i in xrange(2**(m-1))`, one `bin` row each. */
  method BinSelection(m: nat) returns (rows: seq<seq<int>>)
    requires m >= 1
    ensures |rows| == Pow2(m - 1)
    ensures forall r :: 0 <= r < |rows| ==> rows[r] == Bits(r, m)
  {
    rows := [];
    var i := 0;
    while i < Pow2(m - 1)
      invariant 0 <= i <= Pow2(m - 1) && |rows| == i
      invariant forall r :: 0 <= r < i ==> rows[r] == Bits(r, m)
    {
      BinRowBits(i, m);
      rows := rows + [BinRow(i, m)];
      i := i + 1;
    }
  }

  // ------------------------------------------------ the slice-filling branch

  /** `y[r0:r0+len(x), c0:c0+w] = x`. */
  method WriteBlock(y: array2<int>, r0: nat, c0: nat, x: seq<seq<int>>, w: nat)
    modifies y
    requires r0 + |x| <= y.Length0 && c0 + w <= y.Length1
    requires forall r :: 0 <= r < |x| ==> |x[r]| == w
    ensures forall r, c :: 0 <= r < y.Length0 && 0 <= c < y.Length1 ==>
      y[r, c] == if r0 <= r < r0 + |x| && c0 <= c < c0 + w then x[r - r0][c - c0] else old(y[r, c])
  {
    var i := 0;
    while i < |x|
      invariant 0 <= i <= |x|
      invariant forall r, c :: 0 <= r < y.Length0 && 0 <= c < y.Length1 ==>
        y[r, c] == if r0 <= r < r0 + i && c0 <= c < c0 + w then x[r - r0][c - c0] else old(y[r, c])
    {
      var j := 0;
      while j < w
        invariant 0 <= j <= w
        invariant forall r, c :: 0 <= r < y.Length0 && 0 <= c < y.Length1 ==>
          y[r, c] == if (r0 <= r < r0 + i && c0 <= c < c0 + w) || (r == r0 + i && c0 <= c < c0 + j)
                     then x[r - r0][c - c0] else old(y[r, c])
      {
        y[r0 + i, c0 + j] := x[i][j];
        j := j + 1;
      }
      i := i + 1;
    }
  }

  /** `y[r0:r1, c] = v`. */
  method SetColumn(y: array2<int>, r0: nat, r1: nat, c0: nat, v: int)
    modifies y
    requires r0 <= r1 <= y.Length0 && c0 < y.Length1
    ensures forall r, c :: 0 <= r < y.Length0 && 0 <= c < y.Length1 ==>
      y[r, c] == if r0 <= r < r1 && c == c0 then v else old(y[r, c])
  {
    var i := r0;
    while i < r1
      invariant r0 <= i <= r1
      invariant forall r, c :: 0 <= r < y.Length0 && 0 <= c < y.Length1 ==>
        y[r, c] == if r0 <= r < i && c == c0 then v else old(y[r, c])
    {
      y[i, c0] := v;
      i := i + 1;
    }
  }

  /** `y[r0:r1, c0:c1]`, as a copy. */
  function Region(y: array2<int>, r0: nat, r1: nat, c0: nat, c1: nat): (x: seq<seq<int>>)
    reads y
    requires r0 <= r1 <= y.Length0 && c0 <= c1 <= y.Length1
    ensures |x| == r1 - r0 && forall r :: 0 <= r < |x| ==> |x[r]| == c1 - c0
  {
    seq(r1 - r0, r requires 0 <= r < r1 - r0 reads y =>
      seq(c1 - c0, c requires 0 <= c < c1 - c0 reads y => y[r0 + r, c0 + c]))
  }

  /** The rows of x are the numbers below 2^(l-1) in l digits. */
  ghost predicate Level(x: seq<seq<int>>, l: nat)
  {
    l >= 1 && |x| == Pow2(l - 1) &&
    forall r :: 0 <= r < |x| ==> |x[r]| == l && forall c :: 0 <= c < l ==> x[r][c] == Digit(r, l - 1 - c) as int
  }

  /** y holds the first `filled` rows in m digits, zeros below. */
  ghost predicate Filled(y: array2<int>, m: nat, filled: nat)
    reads y
  {
    y.Length1 == m && filled <= y.Length0 &&
    forall r, c :: 0 <= r < y.Length0 && 0 <= c < m ==>
      y[r, c] == if r < filled then Digit(r, m - 1 - c) as int else 0
  }

  /** A row in the upper half of a doubling: its digits from l-1 up are 0. */
  lemma LowRow(r: nat, k: nat, l: nat)
    requires l >= 1 && r < Pow2(l - 1) && l - 1 <= k
    ensures Digit(r, k) == 0
  {
    DigitAbove(r, l - 1, k);
  }

  /** A row in the lower half: digit l-1 is the 1 the source writes, the
      digits below are those of the copied row, the digits above are 0. */
  lemma HighRow(r: nat, k: nat, l: nat)
    requires l >= 1 && Pow2(l - 1) <= r < Pow2(l)
    ensures Digit(r, k) == if k == l - 1 then 1 else if k < l - 1 then Digit(r - Pow2(l - 1), k) else 0
  {
    if k == l - 1 {
      DigitHigh(r, k);
    } else if k < l - 1 {
      DigitShift(r - Pow2(l - 1), k, l - 1);
    } else {
      DigitAbove(r, l, k);
    }
  }

  /** One pass of the `for i in xrange(m-3)` loop with `a, b = x.shape`: x
      is copied to rows 0..a-1 and a..2a-1 of the last b columns, the first of
      those columns is set to 1 in the lower copy, and x becomes the upper 2a
      rows of the last b+1 columns. */
  method Double(y: array2<int>, m: nat, x: seq<seq<int>>, l: nat, filled: nat) returns (x': seq<seq<int>>)
    modifies y
    requires Level(x, l) && l < m && 2 * |x| <= y.Length0
    requires Filled(y, m, filled) && (filled == 0 || filled == |x|)
    ensures Level(x', l + 1) && Filled(y, m, 2 * |x|)
  {
    var a := |x|;
    WriteBlock(y, 0, m - l, x, l);
    WriteBlock(y, a, m - l, x, l);
    SetColumn(y, a, 2 * a, m - l, 1);
    assert Pow2(l) == 2 * a;
    forall r, c | 0 <= r < y.Length0 && 0 <= c < m
      ensures y[r, c] == if r < 2 * a then Digit(r, m - 1 - c) as int else 0
    {
      if r < a && c < m - l {
        LowRow(r, m - 1 - c, l);
      } else if a <= r < 2 * a {
        HighRow(r, m - 1 - c, l);
      }
    }
    x' := Region(y, 0, 2 * a, m - l - 1, m);
    forall r | 0 <= r < |x'| ensures forall c :: 0 <= c < l + 1 ==> x'[r][c] == Digit(r, l - c) as int {
    }
  }

  /** `x` before the loop: `bin(0..3)` zero-filled to 3 digits. */
  function InitialRows(): (x: seq<seq<int>>)
    ensures Level(x, 3)
  {
    var x := seq(4, r requires 0 <= r < 4 => BinRow(r, 3));
    forall r | 0 <= r < 4 ensures x[r] == Bits(r, 3) {
      BinRowBits(r, 3);
    }
    x
  }

  /** The `3 < m <= t` branch: y starts as zeros and x as the four rows
      `bin(0..3)` in 3 digits; after m-3 doublings y holds every row. */
  method SliceSelection(m: nat) returns (y: array2<int>)
    requires 3 < m
    ensures y.Length0 == Pow2(m - 1) && y.Length1 == m
    ensures forall r, c :: 0 <= r < Pow2(m - 1) && 0 <= c < m ==> y[r, c] == Bits(r, m)[c]
  {
    var x := InitialRows();
    y := new int[Pow2(m - 1), m]((_, _) => 0);
    var i := 0;
    while i < m - 3
      invariant 0 <= i <= m - 3
      invariant Level(x, i + 3) && Filled(y, m, if i == 0 then 0 else |x|)
      invariant y.Length0 == Pow2(m - 1)
    {
      Pow2Mono(i + 3, m - 1);
      x := Double(y, m, x, i + 3, if i == 0 then 0 else |x|);
      i := i + 1;
    }
  }

  /** `for s in y: yield s`. */
  function RowsOf(y: array2<int>): (rows: seq<seq<int>>)
    reads y
  {
    seq(y.Length0, r requires 0 <= r < y.Length0 reads y => seq(y.Length1, c requires 0 <= c < y.Length1 reads y => y[r, c]))
  }

  /** `make_selection_matrix(m, t)`. Python's `2**(m-1)` is a float for
      m = 0, which `xrange` rejects, so m >= 1. */
  method SelectionMatrix(m: nat, t: nat) returns (rows: seq<seq<int>>)
    requires m >= 1
    ensures |rows| == Pow2(m - 1)
    ensures forall r :: 0 <= r < |rows| ==> rows[r] == Bits(r, m)
  {
    if 3 < m <= t {
      var y := SliceSelection(m);
      rows := RowsOf(y);
      forall r | 0 <= r < |rows| ensures rows[r] == Bits(r, m) {
        assert forall c :: 0 <= c < m ==> rows[r][c] == Bits(r, m)[c];
      }
    } else {
      rows := BinSelection(m);
    }
  }

  /** The deterministic branches of `make_selection_matrix2(m, t)`; for
      m > max(3, t) the source samples at random instead. */
  method SelectionMatrix2(m: nat, t: nat) returns (rows: seq<seq<int>>)
    requires m >= 1 && (m <= 3 || m <= t)
    ensures |rows| == Pow2(m - 1)
    ensures forall r :: 0 <= r < |rows| ==> rows[r] == Bits(r, m)
  {
    if 3 < m {
      var y := SliceSelection(m);
      rows := RowsOf(y);
      forall r | 0 <= r < |rows| ensures rows[r] == Bits(r, m) {
        assert forall c :: 0 <= c < m ==> rows[r][c] == Bits(r, m)[c];
      }
    } else {
      rows := BinSelection(m);
    }
  }
}
