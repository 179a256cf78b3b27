/**
 * `str::parse::<u16>`: Rust's `u16::from_str`, which the scraper applies to
 * each side of a win/loss record. An optional leading `+` is accepted; every
 * other character must be an ASCII digit; the value is accumulated left to
 * right with a checked multiply and a checked add, and either overflowing
 * 16 bits is an error.
 */
module ParseInt {
  import opened Wrappers
  import opened Text

  const U16_LIMIT: nat := 0x1_0000

  /** Rust's `u16`. */
  newtype uint16 = x: int | 0 <= x < 0x1_0000

  /** The kinds of `ParseIntError` `u16::from_str` can report. */
  datatype ParseIntError = Empty | InvalidDigit | PosOverflow

  function DigitValue(c: char): (d: nat)
    requires IsDigit(c)
    ensures d < 10
  {
    c as int - '0' as int
  }

  function Pow10(n: nat): (p: nat)
    ensures p >= 1
  {
    if n == 0 then 1 else 10 * Pow10(n - 1)
  }

  /** The positional value of a digit string: the sum of d[k] * 10^(n-1-k). */
  function DecimalValue(ds: string): nat
    requires AllDigits(ds)
  {
    if ds == [] then 0 else DigitValue(ds[0]) * Pow10(|ds| - 1) + DecimalValue(ds[1..])
  }

  /**
   * The digit loop of `from_str`, starting from the accumulator `acc`: a
   * non-digit is `InvalidDigit`; `acc * 10` or `acc * 10 + d` leaving the
   * 16-bit range is `PosOverflow`.
   */
  function AccumulateDigits(acc: uint16, ds: string): (r: Result<uint16, ParseIntError>)
    ensures r.Ok? ==> AllDigits(ds)
    ensures r.Err? ==> r.error != Empty
    decreases |ds|
  {
    if ds == [] then Ok(acc)
    else if !IsDigit(ds[0]) then Err(InvalidDigit)
    else if acc as int * 10 >= U16_LIMIT then Err(PosOverflow)
    else if acc as int * 10 + DigitValue(ds[0]) >= U16_LIMIT then Err(PosOverflow)
    else AccumulateDigits((acc as int * 10 + DigitValue(ds[0])) as uint16, ds[1..])
  }

  /** What an optional leading `+` leaves for the digit loop. */
  function UnsignedDigits(s: string): string
  {
    if |s| > 0 && s[0] == '+' then s[1..] else s
  }

  /** `u16::from_str`. */
  function ParseU16(s: string): (r: Result<uint16, ParseIntError>)
    ensures r == Err(Empty) <==> s == []
    ensures r.Ok? ==> |UnsignedDigits(s)| > 0 && AllDigits(UnsignedDigits(s))
  {
    if |s| == 0 then Err(Empty)
    else if |s| == 1 && (s[0] == '+' || s[0] == '-') then Err(InvalidDigit)
    else AccumulateDigits(0, UnsignedDigits(s))
  }

  /**
   * On a digit string the checked loop computes `acc` shifted left by the
   * digits plus their value, and fails with `PosOverflow` exactly when that
   * leaves the 16-bit range.
   */
  lemma {:induction false} AccumulateDigitsValue(acc: uint16, ds: string)
    requires AllDigits(ds)
    ensures var v := acc as int * Pow10(|ds|) + DecimalValue(ds);
      AccumulateDigits(acc, ds) == if v < U16_LIMIT then Ok(v as uint16) else Err(PosOverflow)
    decreases |ds|
  {
    if ds != [] {
      var n := |ds| - 1;
      var d := DigitValue(ds[0]);
      var rest := ds[1..];
      var v := acc as int * Pow10(|ds|) + DecimalValue(ds);
      assert Pow10(|ds|) == 10 * Pow10(n);
      assert DecimalValue(ds) == d * Pow10(n) + DecimalValue(rest);
      ShiftDigit(acc as int, d, Pow10(n), DecimalValue(rest));
      MulAtLeast(acc as int * 10 + d, Pow10(n));
      if acc as int * 10 + d < U16_LIMIT {
        AccumulateDigitsValue((acc as int * 10 + d) as uint16, rest);
      }
    }
  }

  lemma ShiftDigit(a: nat, d: nat, p: nat, r: nat)
    ensures a * (10 * p) + (d * p + r) == (a * 10 + d) * p + r
  {
  }

  lemma MulAtLeast(a: nat, b: nat)
    requires b >= 1
    ensures a * b >= a
  {
  }

  /**
   * A non-empty ASCII digit string parses to its decimal value when that fits
   * in 16 bits, and is `PosOverflow` otherwise (never truncated).
   */
  lemma ParseDigits(ds: string)
    requires |ds| > 0 && AllDigits(ds)
    ensures ParseU16(ds) == if DecimalValue(ds) < U16_LIMIT then Ok(DecimalValue(ds) as uint16) else Err(PosOverflow)
  {
    assert UnsignedDigits(ds) == ds;
    AccumulateDigitsValue(0, ds);
  }

  /**
   * `ParseU16` succeeds exactly on a non-empty digit string, optionally
   * preceded by `+`, whose value is below 2^16, and then yields that value.
   */
  lemma ParseU16Ok(s: string)
    ensures ParseU16(s).Ok? <==>
      var ds := UnsignedDigits(s);
      |ds| > 0 && AllDigits(ds) && DecimalValue(ds) < U16_LIMIT
    ensures ParseU16(s).Ok? ==> ParseU16(s).value as int == DecimalValue(UnsignedDigits(s))
  {
    var ds := UnsignedDigits(s);
    if AllDigits(ds) {
      AccumulateDigitsValue(0, ds);
    } else {
      NotAllDigitsInvalid(0, ds);
    }
  }

  /** A non-digit anywhere makes the loop fail (with either error). */
  lemma {:induction false} NotAllDigitsInvalid(acc: uint16, ds: string)
    requires !AllDigits(ds)
    ensures AccumulateDigits(acc, ds).Err?
    decreases |ds|
  {
    if IsDigit(ds[0]) && acc as int * 10 + DigitValue(ds[0]) < U16_LIMIT {
      assert !AllDigits(ds[1..]) by {
        var i :| 0 <= i < |ds| && !IsDigit(ds[i]);
        assert ds[1..][i - 1] == ds[i];
      }
      NotAllDigitsInvalid((acc as int * 10 + DigitValue(ds[0])) as uint16, ds[1..]);
    }
  }

  /** The decimal spelling of a natural number, as `u16::to_string` writes it. */
  function ToDecimal(n: nat): (s: string)
    ensures |s| > 0 && AllDigits(s)
  {
    if n < 10 then ['0' + n as char] else ToDecimal(n / 10) + ['0' + (n % 10) as char]
  }

  /** Appending a digit multiplies the value by ten and adds the digit. */
  lemma {:induction false} DecimalValueSnoc(ds: string, c: char)
    requires AllDigits(ds) && IsDigit(c)
    ensures AllDigits(ds + [c])
    ensures DecimalValue(ds + [c]) == 10 * DecimalValue(ds) + DigitValue(c)
    decreases |ds|
  {
    if ds != [] {
      var a, p, v := DigitValue(ds[0]), Pow10(|ds| - 1), DecimalValue(ds[1..]);
      assert (ds + [c])[0] == ds[0];
      assert (ds + [c])[1..] == ds[1..] + [c];
      DecimalValueSnoc(ds[1..], c);
      assert DecimalValue(ds + [c]) == a * Pow10(|ds|) + DecimalValue(ds[1..] + [c]);
      assert Pow10(|ds|) == 10 * p;
      MulTen(a, p);
    }
  }

  lemma MulTen(a: nat, p: nat)
    ensures a * (10 * p) == 10 * (a * p)
  {
  }

  /** The decimal spelling of `n` has value `n`. */
  lemma {:induction false} ToDecimalValue(n: nat)
    ensures DecimalValue(ToDecimal(n)) == n
  {
    if n >= 10 {
      ToDecimalValue(n / 10);
      DecimalValueSnoc(ToDecimal(n / 10), '0' + (n % 10) as char);
    }
  }

  /** Every `u16` written in decimal parses back to itself. */
  lemma ParseToDecimal(n: uint16)
    ensures ParseU16(ToDecimal(n as nat)) == Ok(n)
  {
    ToDecimalValue(n as nat);
    ParseDigits(ToDecimal(n as nat));
  }
}
