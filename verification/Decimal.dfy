/** strconv.Atoi and strconv.Itoa on 64-bit integers. */
module Decimal {
  import opened Options

  const MIN_INT := -0x8000_0000_0000_0000
  const MAX_INT := 0x7FFF_FFFF_FFFF_FFFF

  predicate IsDigit(c: char) {
    '0' <= c <= '9'
  }

  predicate AllDigits(s: string) {
    forall i | 0 <= i < |s| :: IsDigit(s[i])
  }

  function DigitsValue(s: string): nat
    requires AllDigits(s)
  {
    if s == "" then 0
    else
      assert IsDigit(s[|s| - 1]);
      10 * DigitsValue(s[..|s| - 1]) + (s[|s| - 1] as int - '0' as int)
  }

  /** An optional sign and at least one digit, in range; anything else is an error. */
  function Atoi(s: string): (r: Option<int>)
    ensures r.Some? ==> MIN_INT <= r.value <= MAX_INT
  {
    var signed := s != "" && (s[0] == '-' || s[0] == '+');
    var digits := if signed then s[1..] else s;
    if digits == "" || !AllDigits(digits) then None
    else
      var n: int := DigitsValue(digits);
      var v := if signed && s[0] == '-' then -n else n;
      if MIN_INT <= v <= MAX_INT then Some(v) else None
  }

  function DigitsOf(n: nat): (s: string)
    ensures s != "" && AllDigits(s)
  {
    var last := ['0' + (n % 10) as char];
    if n < 10 then last else DigitsOf(n / 10) + last
  }

  function Itoa(n: int): string {
    if n < 0 then "-" + DigitsOf(-n) else DigitsOf(n)
  }

  lemma {:induction false} DigitsRoundTrip(n: nat)
    ensures DigitsValue(DigitsOf(n)) == n
  {
    var s := DigitsOf(n);
    if n >= 10 {
      DigitsRoundTrip(n / 10);
      assert s[..|s| - 1] == DigitsOf(n / 10);
    } else {
      assert s[..|s| - 1] == "";
    }
  }

  lemma AtoiItoa(n: int)
    requires MIN_INT <= n <= MAX_INT
    ensures Atoi(Itoa(n)) == Some(n)
  {
    hide DigitsValue, DigitsOf;
    if n < 0 {
      DigitsRoundTrip(-n);
      assert Itoa(n)[1..] == DigitsOf(-n);
    } else {
      DigitsRoundTrip(n);
      assert IsDigit(Itoa(n)[0]);
    }
  }
  // ----- exactly which texts are numbers

  function Zeros(k: nat): (s: string)
    ensures |s| == k && forall i | 0 <= i < k :: s[i] == '0'
  {
    seq(k, _ => '0')
  }

  lemma {:induction false} LeadingZeros(k: nat, d: string)
    requires AllDigits(d)
    ensures AllDigits(Zeros(k) + d) && DigitsValue(Zeros(k) + d) == DigitsValue(d)
    decreases |d|, k
  {
    if d != "" {
      LeadingZeros(k, d[..|d| - 1]);
      assert (Zeros(k) + d)[..k + |d| - 1] == Zeros(k) + d[..|d| - 1];
    } else if k > 0 {
      LeadingZeros(k - 1, "");
      assert (Zeros(k) + "")[..k - 1] == Zeros(k - 1) + "";
    }
  }

  /** Digits are some zeros and then a number without leading zeros. */
  lemma {:induction false} DigitsAre(d: string) returns (k: nat)
    requires AllDigits(d) && d != ""
    ensures d == Zeros(k) + DigitsOf(DigitsValue(d))
  {
    var init, last := d[..|d| - 1], [d[|d| - 1]];
    assert d == init + last;
    assert IsDigit(d[|d| - 1]);
    if init == "" {
      k := 0;
      assert DigitsValue(init) == 0;
    } else {
      k := DigitsAre(init);
      if DigitsValue(init) == 0 {
        assert init == Zeros(k) + "0" == Zeros(k + 1);
        k := k + 1;
      }
    }
  }

  lemma {:induction false} NoLeadingZero(n: nat)
    ensures DigitsOf(n)[0] == '0' <==> n == 0
  {
    if n >= 10 {
      NoLeadingZero(n / 10);
    }
  }

  /** An optional plus or a minus, any zeros, and the digits of the number. */
  predicate IsNumeral(s: string, n: int, k: nat) {
    || (n >= 0 && (s == Zeros(k) + DigitsOf(n) || s == "+" + (Zeros(k) + DigitsOf(n))))
    || (n <= 0 && s == "-" + (Zeros(k) + DigitsOf(-n)))
  }

  /** A text reads as a number exactly if it is such a numeral of it and 64 bits hold it. */
  lemma AtoiExactly(s: string, n: int)
    ensures Atoi(s) == Some(n) <==>
              -9223372036854775808 <= n <= 9223372036854775807 && exists k: nat :: IsNumeral(s, n, k)
  {
    hide DigitsValue, DigitsOf, IsNumeral;
    if Atoi(s) == Some(n) {
      var k := NumeralOf(s, n);
      assert IsNumeral(s, n, k);
    }
    if k: nat :| MIN_INT <= n <= MAX_INT && IsNumeral(s, n, k) {
      NumeralReads(s, n, k);
    }
  }

  lemma NumeralOf(s: string, n: int) returns (k: nat)
    requires Atoi(s) == Some(n)
    ensures IsNumeral(s, n, k)
  {
    hide DigitsValue, DigitsOf;
    var signed := s[0] == '-' || s[0] == '+';
    var digits := if signed then s[1..] else s;
    k := DigitsAre(digits);
    assert signed ==> s == [s[0]] + digits;
  }

  lemma NumeralReads(s: string, n: int, k: nat)
    requires MIN_INT <= n <= MAX_INT && IsNumeral(s, n, k)
    ensures Atoi(s) == Some(n)
  {
    hide DigitsValue, DigitsOf;
    var m: nat := if n < 0 then -n else n;
    var digits := Zeros(k) + DigitsOf(m);
    LeadingZeros(k, DigitsOf(m));
    DigitsRoundTrip(m);
    assert digits != "" && IsDigit(digits[0]);
    if s != digits {
      assert s[1..] == digits;
    }
  }

  /** A number is written without zeros in front, and with a sign only if it is negative. */
  lemma ItoaIsCanonical(n: int)
    ensures n > 0 ==> '1' <= Itoa(n)[0] <= '9' && AllDigits(Itoa(n))
    ensures n < 0 ==> |Itoa(n)| > 1 && Itoa(n)[0] == '-' && '1' <= Itoa(n)[1] <= '9' && AllDigits(Itoa(n)[1..])
    ensures Itoa(0) == "0"
  {
    hide DigitsOf;
    var m: nat := if n < 0 then -n else n;
    NoLeadingZero(m);
    assert IsDigit(DigitsOf(m)[0]);
    if n < 0 {
      assert Itoa(n)[1..] == DigitsOf(m);
    }
    ZeroIs();
  }

  lemma ZeroIs()
    ensures DigitsOf(0) == "0"
  {}
}
