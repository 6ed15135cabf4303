/** Decimal text of integers: `str(n)` / f-string formatting on the way out,
    and `try_parse_int` (Python's `int(num)` behind a `BadRequest`) on the way in. */
module Numbers {
  import opened Basics

  predicate IsDigit(c: char) {
    '0' <= c <= '9'
  }

  predicate AllDigits(s: string) {
    forall i :: 0 <= i < |s| ==> IsDigit(s[i])
  }

  function DigitChar(d: nat): (c: char)
    requires d < 10
    ensures IsDigit(c) && c as int - '0' as int == d
  {
    ('0' as int + d) as char
  }

  /** `str(n)` for a non-negative integer: digits only, no leading zero. */
  function NatToDecimal(n: nat): (r: string)
    ensures |r| >= 1 && AllDigits(r)
    ensures |r| > 1 ==> r[0] != '0'
    decreases n
  {
    if n < 10 then [DigitChar(n)] else NatToDecimal(n / 10) + [DigitChar(n % 10)]
  }

  /** `str(i)` for any integer. */
  function IntToDecimal(i: int): (r: string)
    ensures |r| >= 1 && (r[0] == '-' <==> i < 0)
    ensures forall k :: 0 <= k < |r| ==> r[k] != ' ' && r[k] != '?'
  {
    if i < 0 then "-" + NatToDecimal(-i) else NatToDecimal(i)
  }

  /** The value of a string of decimal digits, read most significant first. */
  function DigitsValue(s: string): nat
    requires AllDigits(s)
  {
    if s == [] then 0
    else DigitsValue(s[..|s| - 1]) * 10 + (s[|s| - 1] as int - '0' as int)
  }

  /** The integer literals this model accepts: an optional sign and at least
      one ASCII digit. */
  predicate IsIntLiteral(s: string) {
    || (|s| >= 1 && AllDigits(s))
    || (|s| >= 2 && (s[0] == '+' || s[0] == '-') && AllDigits(s[1..]))
  }

  /** `try_parse_int(num, error_message)`. */
  function TryParseInt(num: string, errorMessage: string): (r: Result<int>)
    ensures r.Ok? <==> IsIntLiteral(num)
    ensures r.Err? ==> r.error == BadRequest(errorMessage)
    ensures r.Ok? ==> (r.value < 0 ==> num[0] == '-')
    ensures r.Ok? ==> r.value == (if num[0] == '-' then -(DigitsValue(num[1..]) as int)
                                  else if num[0] == '+' then DigitsValue(num[1..])
                                  else DigitsValue(num))
  {
    if |num| >= 1 && AllDigits(num) then Ok(DigitsValue(num))
    else if |num| >= 2 && (num[0] == '+' || num[0] == '-') && AllDigits(num[1..]) then
      var magnitude: int := DigitsValue(num[1..]);
      Ok(if num[0] == '-' then -magnitude else magnitude)
    else Err(BadRequest(errorMessage))
  }

  lemma {:induction false} DigitsOfDecimal(n: nat)
    ensures DigitsValue(NatToDecimal(n)) == n
    decreases n
  {
    if n >= 10 {
      DigitsOfDecimal(n / 10);
      var s := NatToDecimal(n);
      assert s[..|s| - 1] == NatToDecimal(n / 10);
    }
  }

  /** A leading zero does not change a digit string's value. */
  lemma {:induction false} LeadingZero(s: string)
    requires AllDigits(s)
    ensures AllDigits(['0'] + s) && DigitsValue(['0'] + s) == DigitsValue(s)
    decreases |s|
  {
    if s != [] {
      var t := ['0'] + s;
      LeadingZero(s[..|s| - 1]);
      assert t[..|t| - 1] == ['0'] + s[..|s| - 1];
    }
  }

  function Zeros(k: nat): (r: string)
    ensures |r| == k && AllDigits(r)
  {
    seq(k, _ => '0')
  }

  /** Any number of leading zeros leaves the value alone. */
  lemma {:induction false} LeadingZeros(k: nat, s: string)
    requires AllDigits(s)
    ensures AllDigits(Zeros(k) + s) && DigitsValue(Zeros(k) + s) == DigitsValue(s)
    decreases k
  {
    if k > 0 {
      LeadingZeros(k - 1, s);
      assert Zeros(k) == ['0'] + Zeros(k - 1);
      assert Zeros(k) + s == ['0'] + (Zeros(k - 1) + s);
      LeadingZero(Zeros(k - 1) + s);
    } else {
      assert Zeros(k) + s == s;
    }
  }

  /** `int()` reads a zero-padded decimal, with or without a sign, as the
      number it writes: `"007"` and `"+7"` are 7, `"-07"` is -7 and `"-0"`
      is 0. */
  lemma PaddedDecimal(k: nat, n: nat, errorMessage: string)
    ensures var digits := Zeros(k) + NatToDecimal(n);
      && TryParseInt(digits, errorMessage) == Ok(n)
      && TryParseInt("+" + digits, errorMessage) == Ok(n)
      && TryParseInt("-" + digits, errorMessage) == Ok(-(n as int))
  {
    var digits := Zeros(k) + NatToDecimal(n);
    LeadingZeros(k, NatToDecimal(n));
    DigitsOfDecimal(n);
    assert ("+" + digits)[1..] == digits;
    assert ("-" + digits)[1..] == digits;
  }

  /** Parsing reads back exactly the integer that formatting wrote. */
  lemma ParseDecimal(i: int, errorMessage: string)
    ensures TryParseInt(IntToDecimal(i), errorMessage) == Ok(i)
  {
    if i < 0 {
      DigitsOfDecimal(-i);
      assert IntToDecimal(i)[1..] == NatToDecimal(-i);
    } else {
      DigitsOfDecimal(i);
    }
  }
}
