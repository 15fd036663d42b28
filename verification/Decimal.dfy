/** Decimal text of natural numbers: printing, zero padding and the standard library's parser. */
module Decimal {
  import opened Base

  predicate IsDigit(c: char) { '0' <= c <= '9' }

  predicate AllDigits(s: string) { forall i | 0 <= i < |s| :: IsDigit(s[i]) }

  function Digit(d: nat): (c: char)
    requires d < 10
    ensures IsDigit(c) && c as int - '0' as int == d
  {
    ('0' as int + d) as char
  }

  function Print(n: nat): (s: string)
    ensures |s| > 0 && AllDigits(s)
  {
    if n < 10 then [Digit(n)] else Print(n / 10) + [Digit(n % 10)]
  }

  /** The number a string of digits denotes. */
  function Value(s: string): nat
    requires AllDigits(s)
  {
    if s == "" then 0 else 10 * Value(s[..|s| - 1]) + (s[|s| - 1] as int - '0' as int)
  }

  lemma ValuePrint(n: nat)
    ensures Value(Print(n)) == n
  {
    if n >= 10 {
      ValuePrint(n / 10);
      assert Print(n)[..|Print(n)| - 1] == Print(n / 10);
    }
  }

  /** No superfluous zero in front, and at least four digits from a thousand on. */
  lemma PrintLeads(n: nat)
    ensures n > 0 ==> Print(n)[0] != '0'
    ensures n >= 10 ==> |Print(n)| >= 2
    ensures n >= 1000 ==> |Print(n)| >= 4
  {
    if n >= 10 {
      PrintLeads(n / 10);
      if n >= 100 { assert |Print(n / 10)| == |Print(n / 100)| + 1 && |Print(n)| == |Print(n / 10)| + 1; }
      if n >= 1000 { assert |Print(n / 100)| == |Print(n / 1000)| + 1; }
    }
  }

  function Zeros(k: nat): (s: string)
    ensures |s| == k && forall i | 0 <= i < k :: s[i] == '0'
  {
    seq(k, _ => '0')
  }

  /** At least `w` characters wide, zero filled. */
  function Padded(w: nat, n: nat): (s: string)
    ensures AllDigits(s)
  {
    if |Print(n)| >= w then Print(n) else Zeros(w - |Print(n)|) + Print(n)
  }

  lemma {:induction false} ValueZeros(k: nat, s: string)
    requires AllDigits(s)
    ensures AllDigits(Zeros(k) + s) && Value(Zeros(k) + s) == Value(s)
    decreases |s|, k
  {
    if s == "" {
      assert Zeros(k) + s == Zeros(k);
      if k > 0 {
        assert Zeros(k)[..k - 1] == Zeros(k - 1) == Zeros(k - 1) + "";
        ValueZeros(k - 1, "");
      }
    } else {
      assert (Zeros(k) + s)[..|Zeros(k) + s| - 1] == Zeros(k) + s[..|s| - 1];
      ValueZeros(k, s[..|s| - 1]);
    }
  }

  lemma ValuePadded(w: nat, n: nat)
    ensures Value(Padded(w, n)) == n
  {
    ValuePrint(n);
    if |Print(n)| < w { ValueZeros(w - |Print(n)|, Print(n)); }
  }

  /** `str::parse::<u16>`: an optional plus sign, then digits, without overflow. */
  function ParseU16(s: string): Option<u16> {
    var t := if |s| > 0 && s[0] == '+' then s[1..] else s;
    if t != "" && AllDigits(t) && Value(t) < 0x1_0000 then Some(Value(t)) else None
  }

  lemma ParsePrintU16(n: u16)
    ensures ParseU16(Print(n)) == Some(n)
  {
    ValuePrint(n);
    assert IsDigit(Print(n)[0]);
  }

  /** A string of digits is some zeros and then the number as it is printed. */
  lemma {:induction false} DigitsAre(t: string)
    requires t != "" && AllDigits(t)
    ensures |Print(Value(t))| <= |t| && t == Zeros(|t| - |Print(Value(t))|) + Print(Value(t))
    decreases |t|
  {
    var n := |t| - 1;
    var front, d := t[..n], t[n] as int - '0' as int;
    assert t == front + [Digit(d)];
    if n == 0 {
      assert Value(front) == 0 && Value(t) == d;
      assert t == Print(d);
    } else {
      DigitsAre(front);
      var v := Value(front);
      if v == 0 {
        assert Print(0) == "0";
        assert front == Zeros(n);
        assert Value(t) == d && Print(d) == [Digit(d)];
      } else {
        assert Value(t) / 10 == v && Value(t) % 10 == d;
        assert Print(Value(t)) == Print(v) + [Digit(d)];
      }
    }
  }

  /** A printed number with zeros before it. */
  lemma DigitsBack(k: nat, n: nat)
    ensures var t := Zeros(k) + Print(n); t != "" && AllDigits(t) && Value(t) == n && t[0] != '+'
  {
    ValueZeros(k, Print(n));
    ValuePrint(n);
    var t := Zeros(k) + Print(n);
    assert IsDigit(t[0]);
  }

  lemma ParsedIsPrinted(s: string, n: u16)
    requires ParseU16(s) == Some(n)
    ensures exists k: nat :: s == Zeros(k) + Print(n) || s == "+" + (Zeros(k) + Print(n))
  {
    hide Value, Print, Zeros, AllDigits;
    var t := if s[0] == '+' then s[1..] else s;
    DigitsAre(t);
    assert s == t || s == "+" + t;
  }

  lemma PrintedIsParsed(s: string, n: u16, k: nat)
    requires s == Zeros(k) + Print(n) || s == "+" + (Zeros(k) + Print(n))
    ensures ParseU16(s) == Some(n)
  {
    hide Value, Print, Zeros, AllDigits;
    DigitsBack(k, n);
    var t := Zeros(k) + Print(n);
    if s != t { assert s[1..] == t; }
  }

  /** The parser accepts a printed number below 2^16 with any zeros and one plus sign before it, and nothing else. */
  lemma ParseU16Exactly(s: string, n: u16)
    ensures ParseU16(s) == Some(n) <==>
              exists k: nat :: s == Zeros(k) + Print(n) || s == "+" + (Zeros(k) + Print(n))
  {
    hide ParseU16, Print, Zeros;
    if ParseU16(s) == Some(n) { ParsedIsPrinted(s, n); }
    if k: nat :| s == Zeros(k) + Print(n) || s == "+" + (Zeros(k) + Print(n)) { PrintedIsParsed(s, n, k); }
  }
}
