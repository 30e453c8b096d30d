/**
 * Decimal text as Go's strconv and fmt produce and read it: Itoa for
 * non-negative values, the zero padding of the "%0*d" verb, and Atoi.
 */
module Decimal {
  import opened Wrappers

  predicate IsDigit(c: char)
  {
    '0' <= c <= '9'
  }

  predicate AllDigits(s: string)
  {
    forall i | 0 <= i < |s| :: IsDigit(s[i])
  }

  function DigitChar(d: nat): (c: char)
    requires d < 10
    ensures IsDigit(c) && c as int - '0' as int == d
  {
    ('0' as int + d) as char
  }

  function Pow10(k: nat): (r: nat)
    ensures r >= 1
  {
    if k == 0 then 1 else 10 * Pow10(k - 1)
  }

  /** strconv.Itoa of a non-negative value: its decimal digits, no leading zero. */
  function Itoa(n: nat): (r: string)
    ensures |r| >= 1 && AllDigits(r)
    ensures |r| > 1 ==> r[0] != '0'
  {
    if n < 10 then [DigitChar(n)] else Itoa(n / 10) + [DigitChar(n % 10)]
  }

  /** The number a string of decimal digits denotes. */
  function Value(s: string): nat
    requires AllDigits(s)
  {
    if s == [] then 0 else Value(s[..|s| - 1]) * 10 + (s[|s| - 1] as int - '0' as int)
  }

  /** Reading back what Itoa writes gives the original number. */
  lemma {:induction false} ValueOfItoa(n: nat)
    ensures Value(Itoa(n)) == n
  {
    if n >= 10 {
      var s := Itoa(n);
      assert s[..|s| - 1] == Itoa(n / 10);
      ValueOfItoa(n / 10);
    }
  }

  /** k digits never denote more than 10^k - 1. */
  lemma {:induction false} ValueBound(s: string)
    requires AllDigits(s)
    ensures Value(s) < Pow10(|s|)
  {
    if s != [] {
      ValueBound(s[..|s| - 1]);
    }
  }

  /** A larger number never has fewer digits. */
  lemma {:induction false} ItoaLengthMonotone(a: nat, b: nat)
    requires a <= b
    ensures |Itoa(a)| <= |Itoa(b)|
  {
    if a >= 10 {
      ItoaLengthMonotone(a / 10, b / 10);
    }
  }

  /** The numbers from 1000 to 9999 are exactly the ones with four digits and no sign. */
  lemma FourDigitItoa(y: nat)
    requires 1000 <= y <= 9999
    ensures |Itoa(y)| == 4
  {
    assert |Itoa(y / 1000)| == 1;
    assert (y / 10) / 10 == y / 100 && (y / 100) / 10 == y / 1000;
    assert |Itoa(y / 100)| == 2;
    assert |Itoa(y / 10)| == 3;
  }

  function Zeros(k: nat): (r: string)
    ensures |r| == k
    ensures forall i | 0 <= i < k :: r[i] == '0'
  {
    if k == 0 then "" else Zeros(k - 1) + "0"
  }

  /**
   * The digits s left-padded with '0' to at least width characters, as the
   * fmt verb "%0*d" pads a non-negative value: never truncated.
   */
  function ZeroPad(s: string, width: nat): (r: string)
    ensures |r| == if |s| >= width then |s| else width
    ensures r[|r| - |s|..] == s
    ensures forall i | 0 <= i < |r| - |s| :: r[i] == '0'
  {
    if |s| >= width then s else Zeros(width - |s|) + s
  }

  /** Leading zeros do not change the number a digit string denotes. */
  lemma {:induction false} ValueIgnoresLeadingZeros(k: nat, s: string)
    requires AllDigits(s)
    ensures AllDigits(Zeros(k) + s)
    ensures Value(Zeros(k) + s) == Value(s)
  {
    if s == [] {
      ValueOfZeros(k);
      assert Zeros(k) + s == Zeros(k);
    } else {
      ValueIgnoresLeadingZeros(k, s[..|s| - 1]);
      assert (Zeros(k) + s)[..|Zeros(k) + s| - 1] == Zeros(k) + s[..|s| - 1];
    }
  }

  lemma {:induction false} ValueOfZeros(k: nat)
    ensures AllDigits(Zeros(k)) && Value(Zeros(k)) == 0
  {
    if k > 0 {
      ValueOfZeros(k - 1);
      assert Zeros(k)[..k - 1] == Zeros(k - 1);
    }
  }

  /** A zero-padded Itoa reads back as the original number. */
  lemma ValueOfPaddedItoa(n: nat, width: nat)
    ensures AllDigits(ZeroPad(Itoa(n), width))
    ensures Value(ZeroPad(Itoa(n), width)) == n
  {
    ValueOfItoa(n);
    if |Itoa(n)| < width {
      ValueIgnoresLeadingZeros(width - |Itoa(n)|, Itoa(n));
    }
  }

  /**
   * strconv.Atoi as its syntax goes: an optional '+' or '-', then one or
   * more ASCII digits; anything else is a syntax error (None).
   */
  function Atoi(s: string): (r: Option<int>)
    ensures r.Some? <==> (AllDigits(s) && s != []) || (|s| >= 2 && (s[0] == '+' || s[0] == '-') && AllDigits(s[1..]))
  {
    if |s| == 0 then None
    else if s[0] == '+' || s[0] == '-' then
      var digits := s[1..];
      if |digits| == 0 || !AllDigits(digits) then None
      else if s[0] == '-' then Some(-(Value(digits) as int))
      else Some(Value(digits))
    else if AllDigits(s) then Some(Value(s))
    else None
  }

  /** Atoi reads back every non-negative number Itoa writes, with or without a sign. */
  lemma AtoiOfItoa(n: nat)
    ensures Atoi(Itoa(n)) == Some(n)
    ensures Atoi("+" + Itoa(n)) == Some(n)
    ensures Atoi("-" + Itoa(n)) == Some(-(n as int))
  {
    ValueOfItoa(n);
    assert ("+" + Itoa(n))[1..] == Itoa(n);
    assert ("-" + Itoa(n))[1..] == Itoa(n);
  }

  /** Atoi only ever accepts ASCII text. */
  lemma AtoiAcceptsAscii(s: string)
    ensures Atoi(s).Some? ==> forall i | 0 <= i < |s| :: s[i] as int < 0x80
  {
  }
}
