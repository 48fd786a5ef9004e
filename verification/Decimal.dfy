/** Decimal numbers as `boost::lexical_cast` and `boost::format` read and write them in the
    default locale. */
module Decimal {
  import opened Bytes

  /** One more than the largest `std::size_t` and `unsigned int` of a 64-bit platform. */
  const SIZE_LIMIT: nat := 0x1_0000_0000_0000_0000
  const UINT_LIMIT: nat := 0x1_0000_0000

  predicate IsDigit(c: char) {
    In(Digit, c)
  }

  function DigitChar(d: nat): char
    requires d < 10
  {
    '0' + d as char
  }

  function Print(n: nat): (s: string)
    ensures |s| > 0
    ensures forall i | 0 <= i < |s| :: IsDigit(s[i])
  {
    if n < 10 then [DigitChar(n)] else Print(n / 10) + [DigitChar(n % 10)]
  }

  predicate AllDigits(s: string) {
    forall i | 0 <= i < |s| :: IsDigit(s[i])
  }

  function Value(s: string): nat
    requires AllDigits(s)
  {
    if s == [] then 0 else 10 * Value(s[..|s| - 1]) + (s[|s| - 1] as int - '0' as int)
  }

  /** Conversion to an unsigned type with `limit` values: an optional sign, at least one digit,
      no overflow; a minus sign wraps the value around. */
  function ParseUnsigned(s: string, limit: nat): (r: Option<nat>)
    requires limit > 0
    ensures r.Some? ==> r.value < limit
  {
    var signed := s != [] && (s[0] == '-' || s[0] == '+');
    var digits := if signed then s[1..] else s;
    if digits == [] || !AllDigits(digits) || Value(digits) >= limit then None
    else if signed && s[0] == '-' then Some((limit - Value(digits)) % limit)
    else Some(Value(digits))
  }

  lemma {:induction false} ValuePrint(n: nat)
    ensures AllDigits(Print(n)) && Value(Print(n)) == n
  {
    if n >= 10 {
      ValuePrint(n / 10);
      assert Print(n)[..|Print(n)| - 1] == Print(n / 10);
    }
  }

  /** Reading back a printed number gives the number, as long as the type can hold it. */
  lemma ParsePrint(n: nat, limit: nat)
    requires limit > 0
    ensures ParseUnsigned(Print(n), limit) == if n < limit then Some(n) else None
  {
    ValuePrint(n);
    assert IsDigit(Print(n)[0]);
  }

  /** A number with a minus sign wraps around. */
  lemma ParseNegative(n: nat, limit: nat)
    requires 0 < n < limit
    ensures ParseUnsigned("-" + Print(n), limit) == Some(limit - n)
  {
    hide Print, Value;
    var digits := Print(n);
    ValuePrint(n);
    assert ("-" + digits)[1..] == digits;
    Wraps(limit - n, limit);
  }

  lemma Wraps(n: nat, limit: nat)
    requires n < limit
    ensures n % limit == n
  {
  }

  /** Digits mean what they mean in base ten. */
  lemma BaseTen()
    ensures forall d | 0 <= d < 10 :: Print(d) == ["0123456789"[d]]
    ensures forall n: nat, d | 0 < n && 0 <= d < 10 :: Print(10 * n + d) == Print(n) + Print(d)
  {
    forall n: nat, d | 0 < n && 0 <= d < 10 ensures Print(10 * n + d) == Print(n) + Print(d) {
      assert (10 * n + d) / 10 == n && (10 * n + d) % 10 == d;
    }
  }

  function Zeros(k: nat): string {
    if k == 0 then "" else Zeros(k - 1) + "0"
  }

  /** `s` is a printed number, perhaps with zeros and a sign in front; a minus sign wraps around. */
  ghost predicate Denotes(s: string, limit: nat, v: nat)
    requires limit > 0
  {
    exists sign, k, n :: DenotesAs(s, limit, v, sign, k, n)
  }

  predicate DenotesAs(s: string, limit: nat, v: nat, sign: string, k: nat, n: nat)
    requires limit > 0
  {
    && (sign == "" || sign == "+" || sign == "-")
    && n < limit
    && s == sign + (Zeros(k) + Print(n))
    && v == if sign == "-" then (limit - n) % limit else n
  }

  lemma {:induction false} ValueOfZeros(k: nat, s: string)
    requires AllDigits(s)
    ensures AllDigits(Zeros(k) + s) && Value(Zeros(k) + s) == Value(s)
    decreases |s|, k
  {
    var t := Zeros(k) + s;
    if s == "" {
      assert t == Zeros(k);
      if k > 0 {
        ValueOfZeros(k - 1, "");
        assert Zeros(k - 1) + "" == Zeros(k - 1);
        assert Zeros(k)[..|Zeros(k)| - 1] == Zeros(k - 1);
      }
    } else {
      var init := s[..|s| - 1];
      ValueOfZeros(k, init);
      assert t[..|t| - 1] == Zeros(k) + init;
      assert t == Zeros(k) + init + [s[|s| - 1]];
    }
  }

  lemma PrintStep(v: nat, d: nat)
    requires d < 10
    ensures Print(d) == [DigitChar(d)] && (v > 0 ==> Print(10 * v + d) == Print(v) + [DigitChar(d)])
  {
    assert (10 * v + d) / 10 == v && (10 * v + d) % 10 == d;
  }

  lemma ValueStep(init: string, last: char)
    requires AllDigits(init) && IsDigit(last)
    ensures AllDigits(init + [last]) && Value(init + [last]) == 10 * Value(init) + (last as int - '0' as int)
  {
    assert (init + [last])[..|init|] == init;
  }

  lemma {:induction false} DigitsAreZerosAndNumber(s: string) returns (k: nat)
    requires s != "" && AllDigits(s)
    ensures s == Zeros(k) + Print(Value(s))
  {
    hide Print, Value;
    var init, last := s[..|s| - 1], s[|s| - 1];
    var d := last as int - '0' as int;
    assert s == init + [last] && IsDigit(last) && DigitChar(d) == last;
    ValueStep(init, last);
    if init == "" {
      k := 0;
      assert Value("") == 0 by { NoValue(); }
      PrintStep(0, d);
    } else {
      k := DigitsAreZerosAndNumber(init);
      var v := Value(init);
      PrintStep(v, d);
      if v == 0 {
        PrintStep(0, 0);
        k := k + 1;
      }
    }
  }

  lemma NoValue()
    ensures Value("") == 0
  {
  }

  lemma DenotesIsParsed(s: string, limit: nat, v: nat)
    requires limit > 0 && Denotes(s, limit, v)
    ensures ParseUnsigned(s, limit) == Some(v)
  {
    var sign, k, n :| DenotesAs(s, limit, v, sign, k, n);
    hide Zeros, Print, Value, AllDigits;
    var digits := Zeros(k) + Print(n);
    ValuePrint(n);
    ValueOfZeros(k, Print(n));
    SignedDigits(sign, digits, limit);
  }

  lemma SignedDigits(sign: string, digits: string, limit: nat)
    requires limit > 0 && (sign == "" || sign == "+" || sign == "-") && digits != "" && AllDigits(digits)
    ensures ParseUnsigned(sign + digits, limit)
         == if Value(digits) >= limit then None
            else Some(if sign == "-" then (limit - Value(digits)) % limit else Value(digits))
  {
    hide Value;
    assert IsDigit(digits[0]);
    var s := sign + digits;
    if sign == "" {
      assert s == digits;
    } else {
      assert s[0] == sign[0] && s[1..] == digits;
    }
  }

  lemma ParsedDenotes(s: string, limit: nat)
    requires limit > 0 && ParseUnsigned(s, limit).Some?
    ensures Denotes(s, limit, ParseUnsigned(s, limit).value)
  {
    hide Zeros, Print, Value;
    var sign := if s[0] == '-' || s[0] == '+' then s[..1] else "";
    var digits := s[|sign|..];
    var k := DigitsAreZerosAndNumber(digits);
    assert s == sign + digits;
    assert DenotesAs(s, limit, ParseUnsigned(s, limit).value, sign, k, Value(digits));
  }

  /** Exactly these texts are read, and as these numbers. */
  lemma ParseExactly(s: string, limit: nat, v: nat)
    requires limit > 0
    ensures ParseUnsigned(s, limit) == Some(v) <==> Denotes(s, limit, v)
  {
    hide ParseUnsigned, Denotes;
    if Denotes(s, limit, v) {
      DenotesIsParsed(s, limit, v);
    }
    if ParseUnsigned(s, limit).Some? {
      ParsedDenotes(s, limit);
    }
  }

  lemma Limits()
    ensures SIZE_LIMIT == 0x1_0000_0000_0000_0000 && UINT_LIMIT == 0x1_0000_0000
  {
  }
}
