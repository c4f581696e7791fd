/** The decimal page tokens of ListVolumes: strconv.Itoa and strconv.Atoi on 64-bit ints. */
module ListTokens {
  import opened Wrappers

  const MAX_INT: int := 0x7FFF_FFFF_FFFF_FFFF

  function Digit(d: nat): char
    requires d < 10
  {
    '0' + d as char
  }

  predicate IsDigit(c: char) {
    '0' <= c <= '9'
  }

  function DigitValue(c: char): nat
    requires IsDigit(c)
  {
    c as int - '0' as int
  }

  function Itoa(n: nat): string {
    if n < 10 then [Digit(n)] else Itoa(n / 10) + [Digit(n % 10)]
  }

  predicate AllDigits(s: string) {
    forall i | 0 <= i < |s| :: IsDigit(s[i])
  }

  function Value(digits: string): nat
    requires AllDigits(digits)
  {
    if digits == "" then 0
    else 10 * Value(digits[..|digits| - 1]) + DigitValue(digits[|digits| - 1])
  }

  /** An optional sign, at least one digit, nothing else, and within the range of an int. */
  function Atoi(s: string): Option<int> {
    var negative := s != "" && s[0] == '-';
    var digits := if negative || (s != "" && s[0] == '+') then s[1..] else s;
    if digits == "" || !AllDigits(digits) then None
    else
      var value: int := if negative then 0 - Value(digits) else Value(digits);
      if -MAX_INT - 1 <= value <= MAX_INT then Some(value) else None
  }

  lemma {:induction false} ItoaDigits(n: nat)
    ensures Itoa(n) != "" && AllDigits(Itoa(n)) && Value(Itoa(n)) == n
    ensures n > 0 ==> Itoa(n)[0] != '0'
  {
    if n < 10 {
      assert Itoa(n)[..0] == "";
    } else {
      ItoaDigits(n / 10);
      assert Itoa(n)[..|Itoa(n)| - 1] == Itoa(n / 10);
    }
  }

  /** A token names the position it was made from. */
  lemma TokenRoundTrip(n: nat)
    requires n <= MAX_INT
    ensures Itoa(n) != "" && Atoi(Itoa(n)) == Some(n)
  {
    ItoaDigits(n);
    assert IsDigit(Itoa(n)[0]);
  }

  // ---------- what is a numeral ----------

  function PowerOfTen(k: nat): nat {
    if k == 0 then 1 else 10 * PowerOfTen(k - 1)
  }

  /** Digits count by their place, the most significant first. */
  lemma {:induction false} ValueIsPositional(a: string, b: string)
    requires AllDigits(a) && AllDigits(b)
    ensures AllDigits(a + b) && Value(a + b) == Value(a) * PowerOfTen(|b|) + Value(b)
    ensures |b| == 1 ==> Value(b) == b[0] as int - 48
  {
    if b == "" {
      assert a + b == a;
    } else {
      var front := b[..|b| - 1];
      assert (a + b)[..|a + b| - 1] == a + front;
      ValueIsPositional(a, front);
      Shift(Value(a), PowerOfTen(|front|), Value(front), DigitValue(b[|b| - 1]));
    }
  }

  lemma Shift(v: nat, p: nat, w: nat, d: nat)
    ensures 10 * (v * p + w) + d == v * (10 * p) + (10 * w + d)
  {
    assert v * (10 * p) == 10 * (v * p);
  }

  predicate AllZeros(s: string) {
    forall i | 0 <= i < |s| :: s[i] == '0'
  }

  lemma {:induction false} NumeralOf(digits: string) returns (zeros: string)
    requires AllDigits(digits) && digits != ""
    ensures AllZeros(zeros) && digits == zeros + Itoa(Value(digits))
  {
    var n := |digits| - 1;
    var front, d := digits[..n], DigitValue(digits[n]);
    assert digits == front + [Digit(d)];
    if front == "" {
      zeros := "";
      assert digits == Itoa(d);
    } else {
      zeros := NumeralOf(front);
      if Value(front) == 0 {
        assert Itoa(0) == "0" && Itoa(d) == [Digit(d)];
        zeros := front;
      } else {
        assert Itoa(Value(digits)) == Itoa(Value(front)) + [Digit(d)];
      }
    }
  }

  lemma {:induction false} ZerosInFront(zeros: string, digits: string)
    requires AllZeros(zeros) && AllDigits(digits)
    ensures AllDigits(zeros + digits) && Value(zeros + digits) == Value(digits)
  {
    if digits != "" {
      assert (zeros + digits)[..|zeros + digits| - 1] == zeros + digits[..|digits| - 1];
      ZerosInFront(zeros, digits[..|digits| - 1]);
    } else if zeros != "" {
      assert zeros + digits == zeros;
      ZerosInFront(zeros[..|zeros| - 1], "");
      assert zeros[..|zeros| - 1] + "" == zeros[..|zeros| - 1];
    }
  }

  predicate SignFits(sign: string, n: int) {
    if n < 0 then sign == "-" else sign == "" || sign == "+" || (sign == "-" && n == 0)
  }

  predicate IsSpelled(s: string, sign: string, zeros: string, n: int) {
    SignFits(sign, n) && AllZeros(zeros) && s == sign + (zeros + Itoa(if n < 0 then -n else n))
  }

  /** A decimal spelling of n: a sign that fits, or none, then zeros and the digits. */
  ghost predicate IsNumeral(s: string, n: int) {
    exists sign, zeros :: IsSpelled(s, sign, zeros, n)
  }

  /** A token is read as the number it spells, within the range of an int, and as none if it spells none. */
  lemma AtoiExactly(s: string, n: int)
    ensures Atoi(s) == Some(n) <==> IsNumeral(s, n) && -9223372036854775808 <= n <= 9223372036854775807
  {
    hide Itoa, Value;
    if Atoi(s) == Some(n) {
      var sign := if s != "" && (s[0] == '-' || s[0] == '+') then [s[0]] else "";
      var digits := s[|sign|..];
      var zeros := NumeralOf(digits);
      assert IsSpelled(s, sign, zeros, n);
    }
    if IsNumeral(s, n) { NumeralIsRead(s, n); }
  }

  lemma NumeralIsRead(s: string, n: int)
    requires IsNumeral(s, n)
    ensures Atoi(s) == if -MAX_INT - 1 <= n <= MAX_INT then Some(n) else None
  {
    hide Itoa, Value;
    var size := if n < 0 then -n else n;
    var sign, zeros :| IsSpelled(s, sign, zeros, n);
    ItoaDigits(size);
    ZerosInFront(zeros, Itoa(size));
    var digits := zeros + Itoa(size);
    assert IsDigit(digits[0]) && s[|sign|..] == digits;
  }
}
