// Decimal printing and parsing of 64-bit integers: fmt's %d and strconv.Atoi.
module Decimal {
  import opened Common

  const MIN_INT64: int := -0x8000_0000_0000_0000
  const MAX_INT64: int := 0x7FFF_FFFF_FFFF_FFFF

  predicate IsInt64(n: int) {
    MIN_INT64 <= n <= MAX_INT64
  }

  const TWO_TO_64: int := 0x1_0000_0000_0000_0000

  // The value an int64 holds after wrapping around.
  function Wrapped(n: int): int {
    (n - MIN_INT64) % TWO_TO_64 + MIN_INT64
  }

  lemma {:induction false} WrappedIff(n: int)
    ensures IsInt64(Wrapped(n))
    ensures (Wrapped(n) - n) % 0x1_0000_0000_0000_0000 == 0
    ensures Wrapped(n) == n <==> IsInt64(n)
  {
  }

  predicate IsDigit(c: char) {
    '0' <= c <= '9'
  }

  predicate AllDigits(s: string) {
    forall i :: 0 <= i < |s| ==> IsDigit(s[i])
  }

  function DigitChar(d: nat): (c: char)
    requires d < 10
    ensures IsDigit(c) && DigitValue(c) == d
  {
    ('0' as int + d) as char
  }

  function DigitValue(c: char): (d: nat)
    requires IsDigit(c)
    ensures d < 10
  {
    c as int - '0' as int
  }

  function PrintNat(n: nat): (s: string)
    ensures s != "" && AllDigits(s)
  {
    if n < 10 then [DigitChar(n)] else PrintNat(n / 10) + [DigitChar(n % 10)]
  }

  // %d
  function Print(n: int): (s: string)
    ensures s != "" && AllDigits(if n < 0 then s[1..] else s)
    ensures n < 0 ==> s[0] == '-'
  {
    if n < 0 then "-" + PrintNat(-n) else PrintNat(n)
  }

  function NatOf(s: string): nat
    requires AllDigits(s)
  {
    if s == "" then 0 else NatOf(s[..|s| - 1]) * 10 + DigitValue(s[|s| - 1])
  }

  lemma {:induction false} NatOfPrint(n: nat)
    ensures NatOf(PrintNat(n)) == n
  {
    if n < 10 {
      assert PrintNat(n)[..0] == "";
    } else {
      NatOfPrint(n / 10);
      assert PrintNat(n)[..|PrintNat(n)| - 1] == PrintNat(n / 10);
    }
  }

  // The number of 64 bits some digits stand for.
  function Signed(negative: bool, digits: string): Option<int>
    requires AllDigits(digits)
  {
    if digits == "" then None
    else
      var v: int := NatOf(digits);
      var n := if negative then -v else v;
      if IsInt64(n) then Some(n) else None
  }

  predicate HasSign(s: string) {
    s != "" && (s[0] == '-' || s[0] == '+')
  }

  // strconv.Atoi: an optional sign, digits, and a value of 64 bits.
  function Atoi(s: string): Option<int> {
    var digits := if HasSign(s) then s[1..] else s;
    if AllDigits(digits) then Signed(HasSign(s) && s[0] == '-', digits) else None
  }

  predicate IsSign(sign: string) {
    sign == "" || sign == "+" || sign == "-"
  }

  lemma {:induction false} SignOf(sign: string, digits: string)
    requires IsSign(sign) && digits != "" && IsDigit(digits[0])
    ensures HasSign(sign + digits) <==> sign != ""
    ensures (if sign != "" then (sign + digits)[1..] else sign + digits) == digits
    ensures (sign + digits)[0] == '-' <==> sign == "-"
  {
    if sign == "" {
      assert sign + digits == digits;
    } else {
      assert (sign + digits)[1..] == digits;
    }
  }

  lemma {:induction false} AtoiOfDigits(sign: string, digits: string)
    requires IsSign(sign) && digits != "" && AllDigits(digits)
    ensures Atoi(sign + digits) == Signed(sign == "-", digits)
  {
    SignOf(sign, digits);
  }

  lemma {:induction false} AtoiOfPrint(n: int)
    requires IsInt64(n)
    ensures Atoi(Print(n)) == Some(n)
  {
    var m: nat := if n < 0 then -n else n;
    var sign := if n < 0 then "-" else "";
    NatOfPrint(m);
    AtoiOfDigits(sign, PrintNat(m));
    assert Print(n) == sign + PrintNat(m);
  }

  // ---- What the digits mean ---------------------------------------------

  function Pow10(n: nat): (p: nat)
    ensures p > 0
  {
    if n == 0 then 1 else 10 * Pow10(n - 1)
  }

  lemma {:induction false} PrintNatStep(n: nat)
    requires n >= 10
    ensures |PrintNat(n)| == |PrintNat(n / 10)| + 1
    ensures PrintNat(n)[|PrintNat(n)| - 1] as int == '0' as int + n % 10
    ensures forall j :: 0 <= j < |PrintNat(n / 10)| ==> PrintNat(n)[j] == PrintNat(n / 10)[j]
  {
  }

  lemma {:induction false} DigitsOfPrintNat(n: nat, i: nat)
    requires i < |PrintNat(n)|
    ensures PrintNat(n)[|PrintNat(n)| - 1 - i] as int == '0' as int + n / Pow10(i) % 10
    decreases n
  {
    if n >= 10 {
      PrintNatStep(n);
      if i > 0 {
        DigitsOfPrintNat(n / 10, i - 1);
        DivideTwice(n, 10, Pow10(i - 1));
      }
    }
  }

  lemma {:induction false} LengthOfPrintNat(n: nat)
    ensures n < Pow10(|PrintNat(n)|)
    ensures n > 0 ==> PrintNat(n)[0] != '0'
  {
    if n >= 10 {
      PrintNatStep(n);
      LengthOfPrintNat(n / 10);
    }
  }

  // A printed number reads its decimal digits, from the last one on, without
  // a leading zero; a negative one has a dash in front of them.
  lemma {:induction false} DigitsOfPrint(n: nat, i: nat)
    requires i < |Print(n)|
    ensures Print(n)[|Print(n)| - 1 - i] as int == '0' as int + n / Pow10(i) % 10
    ensures n < Pow10(|Print(n)|)
    ensures n > 0 ==> Print(n)[0] != '0'
    ensures n > 0 ==> Print(-(n as int)) == "-" + Print(n)
  {
    DigitsOfPrintNat(n, i);
    LengthOfPrintNat(n);
  }

  function Zeros(k: nat): (z: string)
    ensures |z| == k && AllDigits(z)
  {
    seq(k, _ => '0')
  }

  // The text is a sign, zeros, and the number as it is printed.
  predicate Reads(s: string, sign: string, zeros: nat, n: int) {
    && IsSign(sign) && (n < 0 ==> sign == "-") && (n > 0 ==> sign != "-")
    && s == sign + (Zeros(zeros) + PrintNat(if n < 0 then -n else n))
  }

  // Atoi reads a number of 64 bits off exactly the texts that are its digits
  // after an optional sign and any zeros.
  lemma {:induction false} AtoiIff(s: string, n: int)
    ensures Atoi(s) == Some(n) <==> IsInt64(n) && exists sign, zeros :: Reads(s, sign, zeros, n)
  {
    if Atoi(s) == Some(n) {
      var sign, zeros := ParsedReads(s, n);
    }
    if IsInt64(n) {
      forall sign, zeros | Reads(s, sign, zeros, n)
        ensures Atoi(s) == Some(n)
      {
        ReadsParses(s, sign, zeros, n);
      }
    }
  }

  lemma {:induction false} ReadsParses(s: string, sign: string, zeros: nat, n: int)
    requires IsInt64(n) && Reads(s, sign, zeros, n)
    ensures Atoi(s) == Some(n)
  {
    var m: nat := if n < 0 then -n else n;
    var digits := Zeros(zeros) + PrintNat(m);
    NatOfZeros(zeros, PrintNat(m));
    NatOfPrint(m);
    AtoiOfDigits(sign, digits);
  }

  lemma {:induction false} ParsedReads(s: string, n: int) returns (sign: string, zeros: nat)
    requires Atoi(s) == Some(n)
    ensures IsInt64(n) && Reads(s, sign, zeros, n)
  {
    var digits;
    sign, digits := SignAndDigits(s);
    zeros := Numeral(digits);
    AtoiOfDigits(sign, digits);
    SignedIs(sign == "-", digits, n);
    var m: nat := if n < 0 then -n else n;
    assert digits == Zeros(zeros) + PrintNat(m);
  }

  lemma {:induction false} SignedIs(negative: bool, digits: string, n: int)
    requires AllDigits(digits) && Signed(negative, digits) == Some(n)
    ensures IsInt64(n) && NatOf(digits) == (if n < 0 then -n else n)
    ensures (n < 0 ==> negative) && (n > 0 ==> !negative)
  {
  }

  lemma {:induction false} SignAndDigits(s: string) returns (sign: string, digits: string)
    requires Atoi(s).Some?
    ensures s == sign + digits && IsSign(sign) && digits != "" && AllDigits(digits)
  {
    if HasSign(s) {
      sign, digits := s[..1], s[1..];
      assert s[..1] == [s[0]];
    } else {
      sign, digits := "", s;
    }
  }

  // Digits are zeros followed by the number they denote, as printed.
  lemma {:induction false} Numeral(digits: string) returns (zeros: nat)
    requires digits != "" && AllDigits(digits)
    ensures digits == Zeros(zeros) + PrintNat(NatOf(digits))
  {
    var n := |digits| - 1;
    var init, d := digits[..n], DigitValue(digits[n]);
    assert digits == init + [DigitChar(d)];
    if n == 0 {
      assert NatOf(digits) == d;
      zeros := 0;
    } else {
      zeros := Numeral(init);
      if NatOf(init) == 0 {
        assert Zeros(zeros) + "0" == Zeros(zeros + 1);
        zeros := zeros + 1;
      } else {
        assert NatOf(digits) / 10 == NatOf(init) && NatOf(digits) % 10 == d;
      }
    }
  }

  lemma {:induction false} NatOfZeros(zeros: nat, s: string)
    requires AllDigits(s)
    ensures NatOf(Zeros(zeros) + s) == NatOf(s)
  {
    if s != "" {
      var n := |s| - 1;
      assert (Zeros(zeros) + s)[..zeros + n] == Zeros(zeros) + s[..n];
      NatOfZeros(zeros, s[..n]);
    } else {
      assert Zeros(zeros) + s == Zeros(zeros);
      NatOfOnlyZeros(zeros);
    }
  }

  lemma {:induction false} NatOfOnlyZeros(zeros: nat)
    ensures NatOf(Zeros(zeros)) == 0
  {
    if zeros > 0 {
      assert Zeros(zeros)[..zeros - 1] == Zeros(zeros - 1);
      NatOfOnlyZeros(zeros - 1);
    }
  }
}
