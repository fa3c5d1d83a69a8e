/** Decimal formatting with a minimum width (Rust's `{:0w}`), its inverse and its order. */
module DecimalFormat {
  function Digit(d: int): char
    requires 0 <= d < 10
  {
    (48 + d) as char
  }

  predicate AllDigits(s: string) { forall c | c in s :: '0' <= c <= '9' }

  function Digits(n: nat): string {
    if n < 10 then [Digit(n)] else Digits(n / 10) + [Digit(n % 10)]
  }

  function Zeros(k: nat): string { seq(k, _ => '0') }

  /** `{:0w}`: zeros are put in front up to width w; longer numbers are not cut. */
  function Padded(n: nat, w: nat): string {
    var s := Digits(n);
    if |s| < w then Zeros(w - |s|) + s else s
  }

  function Pow10(w: nat): (p: nat)
    ensures p > 0
  {
    if w == 0 then 1 else 10 * Pow10(w - 1)
  }

  /** The number a digit string spells. */
  function Parsed(s: string): int {
    if s == [] then 0 else Parsed(s[..|s| - 1]) * 10 + (s[|s| - 1] as int - 48)
  }

  lemma {:induction false} ParsedDigits(n: nat)
    ensures Parsed(Digits(n)) == n && AllDigits(Digits(n)) && |Digits(n)| >= 1
  {
    if n >= 10 {
      ParsedDigits(n / 10);
      var s := Digits(n);
      assert s[..|s| - 1] == Digits(n / 10);
    } else {
      assert Digits(n)[..0] == [];
    }
  }

  lemma {:induction false} ParsedZeros(k: nat, s: string)
    ensures Parsed(Zeros(k) + s) == Parsed(s)
  {
    if s != [] {
      var t := Zeros(k) + s;
      assert t[..|t| - 1] == Zeros(k) + s[..|s| - 1];
      ParsedZeros(k, s[..|s| - 1]);
    } else if k > 0 {
      assert (Zeros(k) + [])[..k - 1] == Zeros(k - 1) + [];
      ParsedZeros(k - 1, []);
    }
  }

  /** Padding is read back exactly, so it is injective for every width. */
  lemma ParsedPadded(n: nat, w: nat)
    ensures Parsed(Padded(n, w)) == n && AllDigits(Padded(n, w)) && |Padded(n, w)| >= w
  {
    ParsedDigits(n);
    if |Digits(n)| < w {
      ParsedZeros(w - |Digits(n)|, Digits(n));
    }
  }

  lemma {:induction false} DigitsLength(n: nat, w: nat)
    requires w >= 1
    ensures |Digits(n)| <= w <==> n < Pow10(w)
  {
    if n >= 10 {
      if w > 1 {
        DigitsLength(n / 10, w - 1);
      } else {
        ParsedDigits(n / 10);
      }
    }
  }

  lemma PaddedLength(n: nat, w: nat)
    requires w >= 1
    ensures |Padded(n, w)| == w <==> n < Pow10(w)
  {
    DigitsLength(n, w);
  }

  /** Only the digits needed: beyond the width a number takes exactly as many as it has. */
  lemma PaddedIsShort(n: nat, w: nat, v: nat)
    requires 1 <= w <= v
    ensures |Padded(n, w)| <= v <==> n < Pow10(v)
  {
    DigitsLength(n, v);
    DigitsLength(n, w);
    PowGrows(w, v);
  }

  lemma {:induction false} PowGrows(w: nat, v: nat)
    requires w <= v
    ensures Pow10(w) <= Pow10(v)
  {
    if w < v {
      PowGrows(w, v - 1);
    }
  }

  /** The last digit of a padded number. */
  lemma PaddedStep(n: nat, w: nat)
    requires w >= 2
    ensures Padded(n, w) == Padded(n / 10, w - 1) + [Digit(n % 10)]
  {
    if n < 10 {
      assert Zeros(w - 1) == Zeros(w - 2) + ['0'];
    }
  }

  // ---------------------------------------------------------------------
  //  Lexicographic order
  // ---------------------------------------------------------------------

  predicate LexLess(a: string, b: string) {
    b != [] && (a == [] || a[0] < b[0] || (a[0] == b[0] && LexLess(a[1..], b[1..])))
  }

  lemma {:induction false} LexConcat(a: string, x: string, b: string, y: string)
    requires |a| == |b|
    ensures LexLess(a + x, b + y) <==> LexLess(a, b) || (a == b && LexLess(x, y))
  {
    if a == [] {
      assert a + x == x && b + y == y;
    } else {
      LexConcat(a[1..], x, b[1..], y);
      assert (a + x)[1..] == a[1..] + x && (b + y)[1..] == b[1..] + y;
      if a[0] == b[0] && a[1..] == b[1..] {
        assert a == [a[0]] + a[1..] && b == [b[0]] + b[1..];
      }
    }
  }

  lemma DigitOrder(d: nat, e: nat)
    requires d < e < 10
    ensures LexLess([Digit(d)], [Digit(e)])
  {
  }

  lemma OneDigitOrder(n: nat, m: nat)
    requires n < m < 10
    ensures LexLess(Padded(n, 1), Padded(m, 1))
  {
    DigitOrder(n, m);
  }

  /** Equal widths compare like numbers. */
  lemma {:induction false} PaddedOrder(n: nat, m: nat, w: nat)
    requires w >= 1 && n < m < Pow10(w)
    ensures LexLess(Padded(n, w), Padded(m, w))
  {
    hide Padded, LexLess, Digit;
    if w == 1 {
      assert Pow10(1) == 10 * Pow10(0);
      OneDigitOrder(n, m);
    } else {
      PaddedStep(n, w);
      PaddedStep(m, w);
      PaddedLength(n / 10, w - 1);
      PaddedLength(m / 10, w - 1);
      LexConcat(Padded(n / 10, w - 1), [Digit(n % 10)], Padded(m / 10, w - 1), [Digit(m % 10)]);
      if n / 10 < m / 10 {
        PaddedOrder(n / 10, m / 10, w - 1);
      } else {
        DigitOrder(n % 10, m % 10);
      }
    }
  }
}
