/** Characters, decimal digits and the byte order of text. */
module Text {

  datatype Option<+T> = None | Some(value: T)

  predicate IsDigit(c: char) {
    '0' <= c <= '9'
  }

  ghost predicate AllDigits(s: string) {
    forall i :: 0 <= i < |s| ==> IsDigit(s[i])
  }

  function Digit(k: int): (c: char)
    requires 0 <= k < 10
    ensures IsDigit(c) && DigitValue(c) == k
  {
    ('0' as int + k) as char
  }

  function DigitValue(c: char): (k: int)
    requires IsDigit(c)
    ensures 0 <= k < 10
  {
    c as int - '0' as int
  }

  /** The number a digit string denotes. */
  function Number(s: string): (n: nat)
    requires AllDigits(s)
  {
    if s == "" then 0 else Number(s[..|s| - 1]) * 10 + DigitValue(s[|s| - 1])
  }

  function Pow10(k: nat): (r: nat)
    ensures 1 <= r
  {
    if k == 0 then 1 else 10 * Pow10(k - 1)
  }

  /** The last `width` decimal digits of `n`. */
  function FixedDigits(n: nat, width: nat): (s: string)
    ensures |s| == width && AllDigits(s)
  {
    if width == 0 then "" else FixedDigits(n / 10, width - 1) + [Digit(n % 10)]
  }

  lemma TenthFits(n: nat, p: nat)
    requires n < 10 * p
    ensures n / 10 < p && n == n / 10 * 10 + n % 10
  {
  }

  lemma {:induction false} NumberOfFixedDigits(n: nat, width: nat)
    requires n < Pow10(width)
    ensures Number(FixedDigits(n, width)) == n
  {
    if width > 0 {
      assert Pow10(width) == 10 * Pow10(width - 1);
      TenthFits(n, Pow10(width - 1));
      NumberOfFixedDigits(n / 10, width - 1);
      assert FixedDigits(n, width)[..width - 1] == FixedDigits(n / 10, width - 1);
    }
  }

  lemma {:induction false} FixedDigitsOfNumber(s: string)
    requires AllDigits(s)
    ensures Number(s) < Pow10(|s|) && FixedDigits(Number(s), |s|) == s
  {
    if s != "" {
      FixedDigitsOfNumber(s[..|s| - 1]);
      assert s == s[..|s| - 1] + [s[|s| - 1]];
    }
  }

  // ----- zero-padded formatting -----

  function Decimal(n: nat): (s: string)
    ensures s != "" && AllDigits(s)
  {
    if n < 10 then [Digit(n)] else Decimal(n / 10) + [Digit(n % 10)]
  }

  function ZeroPad(s: string, width: int): (r: string)
    ensures |r| == if |s| < width then width else |s|
    ensures AllDigits(s) ==> AllDigits(r)
    decreases width - |s|
  {
    if |s| < width then ZeroPad("0" + s, width) else s
  }

  /** Formatting with a minimum width: the sign counts, and long numbers are not cut. */
  function Padded(n: int, width: nat): string {
    if n < 0 then "-" + ZeroPad(Decimal(-n), width - 1) else ZeroPad(Decimal(n), width)
  }

  lemma {:induction false} ZeroPadSplit(s: string, t: string, width: nat)
    ensures ZeroPad(s + t, width + |t|) == ZeroPad(s, width) + t
    decreases width - |s|
  {
    if |s| < width {
      assert "0" + (s + t) == ("0" + s) + t;
      ZeroPadSplit("0" + s, t, width);
    }
  }

  lemma {:induction false} ZeroesAreFixedDigits(width: nat)
    ensures ZeroPad("", width) == FixedDigits(0, width)
  {
    if width > 0 {
      assert "0" + "" == "0" && "" + "0" == "0";
      ZeroPadSplit("", "0", width - 1);
      ZeroesAreFixedDigits(width - 1);
      assert "0" == [Digit(0)];
    }
  }

  lemma {:induction false} PaddedIsFixedDigits(n: nat, width: nat)
    requires 0 < width && n < Pow10(width)
    ensures Padded(n, width) == FixedDigits(n, width)
  {
    if n < 10 {
      ZeroPadSplit("", [Digit(n)], width - 1);
      assert "" + [Digit(n)] == [Digit(n)];
      ZeroesAreFixedDigits(width - 1);
    } else {
      assert width > 1;
      PaddedIsFixedDigits(n / 10, width - 1);
      ZeroPadSplit(Decimal(n / 10), [Digit(n % 10)], width - 1);
    }
  }

  lemma {:induction false} DecimalLength(n: nat, width: nat)
    requires Pow10(width) <= n
    ensures width < |Decimal(n)|
  {
    if width > 0 {
      assert n >= 10;
      DecimalLength(n / 10, width - 1);
    }
  }

  // ----- byte order -----

  predicate Less(a: string, b: string) {
    b != "" && (a == "" || a[0] < b[0] || (a[0] == b[0] && Less(a[1..], b[1..])))
  }

  lemma {:induction false} LessIrreflexive(a: string)
    ensures !Less(a, a)
  {
    if a != "" {
      LessIrreflexive(a[1..]);
    }
  }

  /** Texts whose heads have equal length compare head first. */
  lemma {:induction false} LessOfConcat(a: string, b: string, x: string, y: string)
    requires |a| == |b|
    ensures Less(a + x, b + y) == (Less(a, b) || (a == b && Less(x, y)))
  {
    if a == "" {
      assert a + x == x && b + y == y;
    } else {
      LessOfConcat(a[1..], b[1..], x, y);
      assert (a + x)[1..] == a[1..] + x && (b + y)[1..] == b[1..] + y;
      assert a == b <==> a[0] == b[0] && a[1..] == b[1..];
    }
  }

  lemma {:induction false} FixedDigitsOrder(m: nat, n: nat, width: nat)
    requires m < Pow10(width) && n < Pow10(width)
    ensures Less(FixedDigits(m, width), FixedDigits(n, width)) <==> m < n
    ensures FixedDigits(m, width) == FixedDigits(n, width) <==> m == n
  {
    NumberOfFixedDigits(m, width);
    NumberOfFixedDigits(n, width);
    if width > 0 {
      FixedDigitsOrder(m / 10, n / 10, width - 1);
      var x, y := [Digit(m % 10)], [Digit(n % 10)];
      LessOfConcat(FixedDigits(m / 10, width - 1), FixedDigits(n / 10, width - 1), x, y);
      assert Less(x, y) <==> m % 10 < n % 10;
    }
  }
}
