/** The numbers printf writes into the protocol: `%llx` for the correlation
    id, `%lld` for the seconds and `%06ld` for the microseconds of a
    timestamp, together with their readers. */
module Numerals {
  import opened CText

  type Base = b: nat | 2 <= b <= 16 witness 10

  function Pow(b: nat, k: nat): nat
  {
    if k == 0 then 1 else b * Pow(b, k - 1)
  }

  /** The lower-case digit printf uses for `d`. */
  function DigitChar(d: nat): (c: char)
    requires d < 16
    ensures DigitValue(c) == d
  {
    if d < 10 then ('0' as int + d) as char else ('a' as int + d - 10) as char
  }

  /** The value of a digit character, or 16 for anything that is not one. */
  function DigitValue(c: char): nat
  {
    if '0' <= c <= '9' then c as int - '0' as int
    else if 'a' <= c <= 'f' then c as int - 'a' as int + 10
    else 16
  }

  /** `n` written in `base` without leading zeros, as `%llx` (base 16) or
      `%lld` (base 10, for `n >= 0`) write it. */
  function Numeral(n: nat, base: Base): (s: string)
    ensures |s| >= 1
    decreases n
  {
    if n < base then [DigitChar(n)] else Numeral(n / base, base) + [DigitChar(n % base)]
  }

  predicate IsNumeral(s: string, base: Base)
  {
    |s| >= 1 && forall i :: 0 <= i < |s| ==> DigitValue(s[i]) < base
  }

  /** The number a string of digits denotes; leading zeros are allowed. */
  function Value(s: string, base: Base): nat
    decreases |s|
  {
    if s == [] then 0 else Value(s[..|s| - 1], base) * base + DigitValue(s[|s| - 1])
  }

  function ParseUnsigned(s: string, base: Base): Option<nat>
  {
    if IsNumeral(s, base) then Some(Value(s, base)) else None
  }

  lemma {:induction false} NumeralRoundTrip(n: nat, base: Base)
    ensures IsNumeral(Numeral(n, base), base)
    ensures Value(Numeral(n, base), base) == n
    decreases n
  {
    if n < base {
      assert [DigitChar(n)][..0] == [];
    } else {
      var q, d := n / base, n % base;
      var s := Numeral(q, base);
      assert Numeral(n, base) == s + [DigitChar(d)];
      Shrinks(n, base);
      NumeralRoundTrip(q, base);
      AppendDigit(s, d, base);
      Recompose(n, base, q);
    }
  }

  lemma Shrinks(n: nat, base: Base)
    requires n >= base
    ensures n / base < n
  {
  }

  lemma AppendDigit(s: string, d: nat, base: Base)
    requires IsNumeral(s, base) && d < base
    ensures IsNumeral(s + [DigitChar(d)], base)
    ensures Value(s + [DigitChar(d)], base) == Value(s, base) * base + d
  {
  }

  lemma Recompose(n: nat, base: Base, v: nat)
    requires v == n / base
    ensures v * base + n % base == n
  {
  }

  /** A number below base^k takes at most k digits. */
  lemma {:induction false} NumeralWidth(n: nat, base: Base, k: nat)
    requires 1 <= k && n < Pow(base, k)
    ensures |Numeral(n, base)| <= k
    decreases k
  {
    assert Pow(base, 1) == base;
    if n >= base {
      var q := n / base;
      var p := Pow(base, k - 1);
      assert n < base * p;
      assert base * q <= n;
      assert q < p;
      NumeralWidth(q, base, k - 1);
    }
  }

  /** No character that is not a digit of `base` occurs in a numeral. */
  lemma NumeralAvoids(s: string, base: Base, c: char)
    requires IsNumeral(s, base) && DigitValue(c) >= base
    ensures c !in s
  {
  }

  function Zeros(k: nat): (z: string)
    ensures |z| == k
  {
    seq(k, _ => '0')
  }

  /** `%0<width>` padding: zeros in front up to `width` characters. */
  function ZeroPad(s: string, width: nat): string
  {
    if |s| >= width then s else Zeros(width - |s|) + s
  }

  lemma {:induction false} ZerosValue(k: nat, base: Base)
    ensures Value(Zeros(k), base) == 0
    decreases k
  {
    if k > 0 {
      assert Zeros(k)[..k - 1] == Zeros(k - 1);
      ZerosValue(k - 1, base);
    }
  }

  lemma {:induction false} LeadingZeros(k: nat, s: string, base: Base)
    ensures Value(Zeros(k) + s, base) == Value(s, base)
    decreases |s|
  {
    var t := Zeros(k) + s;
    if s == [] {
      assert t == Zeros(k);
      ZerosValue(k, base);
    } else {
      assert t[..|t| - 1] == Zeros(k) + s[..|s| - 1];
      LeadingZeros(k, s[..|s| - 1], base);
    }
  }

  /** Padding a numeral with zeros keeps it a numeral of the same value. */
  lemma ZeroPadValue(s: string, width: nat, base: Base)
    requires IsNumeral(s, base)
    ensures IsNumeral(ZeroPad(s, width), base)
    ensures Value(ZeroPad(s, width), base) == Value(s, base)
  {
    if |s| < width {
      var k := width - |s|;
      var t := Zeros(k) + s;
      LeadingZeros(k, s, base);
      forall i | 0 <= i < |t| ensures DigitValue(t[i]) < base {
        if i >= k { assert t[i] == s[i - k]; }
      }
    }
  }

  /** `%lld`: a minus sign in front of a negative number. */
  function Decimal(n: int): string
  {
    if n < 0 then "-" + Numeral(-n, 10) else Numeral(n, 10)
  }

  function ParseDecimal(s: string): Option<int>
  {
    if |s| >= 1 && s[0] == '-' then
      (if IsNumeral(s[1..], 10) then Some(0 - Value(s[1..], 10)) else None)
    else if IsNumeral(s, 10) then Some(Value(s, 10))
    else None
  }

  lemma DecimalRoundTrip(n: int)
    ensures ParseDecimal(Decimal(n)) == Some(n)
    ensures forall c :: DigitValue(c) >= 10 && c != '-' ==> c !in Decimal(n)
  {
    var m := if n < 0 then -n else n;
    NumeralRoundTrip(m, 10);
    var s := Numeral(m, 10);
    forall c | DigitValue(c) >= 10 && c != '-' ensures c !in Decimal(n) {
      NumeralAvoids(s, 10, c);
    }
    if n < 0 {
      assert Decimal(n)[1..] == s;
    } else {
      assert DigitValue(s[0]) < 10;
    }
  }

  /** `%06ld` of a count of microseconds: always six digits for a value below one second. */
  lemma MicrosecondsWidth(usec: nat)
    requires usec < 1000000
    ensures |ZeroPad(Numeral(usec, 10), 6)| == 6
  {
    assert Pow(10, 6) == 1000000;
    NumeralWidth(usec, 10, 6);
  }
}
