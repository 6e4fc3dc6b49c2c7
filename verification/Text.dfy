/** The printf conversions the programs use: decimal and hexadecimal digits, padded to a width. */
module Text {

  predicate IsDigit(c: char) { '0' <= c <= '9' }

  function Digit(d: nat): char
    requires d < 10
  {
    '0' + d as char
  }

  /** "%d" of a non-negative number. */
  function Decimal(n: nat): (s: string)
    ensures |s| >= 1 && forall i :: 0 <= i < |s| ==> IsDigit(s[i])
  {
    if n < 10 then [Digit(n)] else Decimal(n / 10) + [Digit(n % 10)]
  }

  function DigitValue(c: char): nat {
    if IsDigit(c) then (c - '0') as nat else 0
  }

  /** The number a digit string stands for. */
  function Value(s: string): nat
  {
    if s == [] then 0 else 10 * Value(s[..|s| - 1]) + DigitValue(s[|s| - 1])
  }

  lemma {:induction false} ValueDecimal(n: nat)
    ensures Value(Decimal(n)) == n
  {
    var s := Decimal(n);
    if n >= 10 {
      ValueDecimal(n / 10);
      assert s[..|s| - 1] == Decimal(n / 10);
    }
  }

  function Pow10(k: nat): nat {
    if k == 0 then 1 else 10 * Pow10(k - 1)
  }

  /** A number takes at most k digits exactly when it is below 10^k. */
  lemma {:induction false} DecimalLength(n: nat, k: nat)
    requires k >= 1
    ensures |Decimal(n)| <= k <==> n < Pow10(k)
  {
    if n >= 10 {
      if k > 1 {
        DecimalLength(n / 10, k - 1);
      } else {
        assert |Decimal(n / 10)| >= 1;
      }
    } else {
      Pow10Positive(k - 1);
    }
  }

  lemma {:induction false} Pow10Positive(k: nat)
    ensures Pow10(k) >= 1
  {
    if k > 0 {
      Pow10Positive(k - 1);
    }
  }

  /** Padding on the left with c to width w; longer strings are left alone. */
  function PadLeft(s: string, w: nat, c: char): string {
    if |s| < w then seq(w - |s|, _ => c) + s else s
  }

  lemma {:induction false} ValueLeadingZeros(k: nat, s: string)
    ensures Value(seq(k, _ => '0') + s) == Value(s)
  {
    var z := seq(k, _ => '0') + s;
    if s != [] {
      assert z[..|z| - 1] == seq(k, _ => '0') + s[..|s| - 1];
      ValueLeadingZeros(k, s[..|s| - 1]);
    } else if k > 0 {
      assert z[..|z| - 1] == seq(k - 1, _ => '0') + s;
      ValueLeadingZeros(k - 1, s);
    }
  }

  function HexDigit(d: nat): char
    requires d < 16
  {
    if d < 10 then '0' + d as char else 'a' + (d - 10) as char
  }

  function HexValue(c: char): nat {
    if '0' <= c <= '9' then (c - '0') as nat
    else if 'a' <= c <= 'f' then (c - 'a') as nat + 10
    else 0
  }

  lemma HexRoundTrip(d: nat)
    requires d < 16
    ensures HexValue(HexDigit(d)) == d && HexDigit(d) != ' '
  {
  }

  // The characters themselves

  lemma DigitIs(d: nat)
    requires d < 10
    ensures Digit(d) == "0123456789"[d]
  {
  }

  lemma HexDigitIs(d: nat)
    requires d < 16
    ensures HexDigit(d) == "0123456789abcdef"[d]
  {
  }

  /** n divided by ten k times. */
  function Tens(n: nat, k: nat): nat {
    if k == 0 then n else Tens(n / 10, k - 1)
  }

  lemma {:induction false} TensOfZero(k: nat)
    ensures Tens(0, k) == 0
  {
    if k > 0 {
      TensOfZero(k - 1);
    }
  }

  /** The digit k places from the right, and how many places there are. */
  lemma {:induction false} DecimalAt(n: nat, k: nat)
    ensures var s := Decimal(n);
      if k < |s| then s[|s| - 1 - k] == "0123456789"[Tens(n, k) % 10] && (k > 0 ==> Tens(n, k) > 0)
      else Tens(n, k) == 0
    decreases k
  {
    var s := Decimal(n);
    DigitIs(n % 10);
    if k > 0 {
      if n >= 10 {
        DecimalAt(n / 10, k - 1);
      } else {
        TensOfZero(k - 1);
      }
    }
  }

  /** A padded number, from the right: its digits, then the padding. */
  lemma PaddedAt(n: nat, w: nat, c: char, k: nat)
    requires k < w && |Decimal(n)| <= w
    ensures |PadLeft(Decimal(n), w, c)| == w
    ensures PadLeft(Decimal(n), w, c)[w - 1 - k] ==
      if k > 0 && Tens(n, k) == 0 then c else "0123456789"[Tens(n, k) % 10]
  {
    DecimalAt(n, k);
  }
}
