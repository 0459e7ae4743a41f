/** `java.math.BigInteger`'s decimal string constructor and `toString()`,
    on Dafny's unbounded integers. */
module BigInteger {
  import opened Common
  import opened JavaStrings

  /** The value of a string of decimal digits, most significant first;
      leading zeros are allowed. */
  function DigitsValue(s: string): nat
    requires AllDigits(s)
    decreases |s|
  {
    if |s| == 0 then 0 else DigitsValue(s[..|s| - 1]) * 10 + DigitValue(s[|s| - 1])
  }

  /** An optional `-` or `+` followed by one or more decimal digits. */
  predicate IsIntegerLiteral(s: string)
  {
    var digits := if |s| > 0 && (s[0] == '-' || s[0] == '+') then s[1..] else s;
    |digits| > 0 && AllDigits(digits)
  }

  /** `new BigInteger(s)`: an optional sign and one or more decimal digits;
      anything else, the empty string and a lone sign included, raises
      `NumberFormatException`. */
  function Parse(s: string): (r: Result<int>)
    ensures r.Ok? <==> IsIntegerLiteral(s)
  {
    if |s| == 0 then Err(NumberFormat)
    else
      var digits := if s[0] == '-' || s[0] == '+' then s[1..] else s;
      if |digits| == 0 || !AllDigits(digits) then Err(NumberFormat)
      else if s[0] == '-' then Ok(-(DigitsValue(digits) as int))
      else Ok(DigitsValue(digits))
  }

  /** The decimal digits of a natural number, without leading zeros. */
  function NatToString(n: nat): (s: string)
    ensures |s| > 0 && AllDigits(s)
    decreases n
  {
    if n < 10 then [DigitChar(n)] else NatToString(n / 10) + [DigitChar(n % 10)]
  }

  /** `BigInteger.toString()`: a minus sign for negative values, then the
      digits of the magnitude. */
  function ToString(n: int): (r: string)
    ensures |r| > 0 && (r[0] == '-' <==> n < 0)
  {
    if n < 0 then "-" + NatToString(-n) else NatToString(n)
  }

  lemma {:induction false} DigitsOfNat(n: nat)
    ensures DigitsValue(NatToString(n)) == n
    decreases n
  {
    var s := NatToString(n);
    if n >= 10 {
      DigitsOfNat(n / 10);
      assert s[..|s| - 1] == NatToString(n / 10);
    }
  }

  /** Parsing what `toString()` prints gives the number back. */
  lemma ParseToString(n: int)
    ensures Parse(ToString(n)) == Ok(n)
  {
    if n < 0 {
      DigitsOfNat(-n);
      var s := ToString(n);
      assert s[1..] == NatToString(-n);
    } else {
      DigitsOfNat(n);
    }
  }

  /** Digits without a leading zero (and "0" itself), as `toString()` prints them. */
  predicate Canonical(digits: string)
  {
    |digits| > 0 && AllDigits(digits) && (digits[0] == '0' ==> |digits| == 1)
  }

  lemma {:induction false} DigitsValuePositive(d: string)
    requires |d| > 0 && AllDigits(d) && d[0] != '0'
    ensures DigitsValue(d) > 0
    decreases |d|
  {
    if |d| > 1 {
      DigitsValuePositive(d[..|d| - 1]);
    }
  }

  lemma {:induction false} NatOfDigits(d: string)
    requires Canonical(d)
    ensures NatToString(DigitsValue(d)) == d
    decreases |d|
  {
    if |d| > 1 {
      var front := d[..|d| - 1];
      var last := d[|d| - 1];
      DigitsValuePositive(front);
      NatOfDigits(front);
      var q, r := DigitsValue(front), DigitValue(last);
      DivMod10(q, r);
      assert DigitChar(r) == last;
      assert d == front + [last];
    }
  }

  lemma DivMod10(q: nat, r: nat)
    requires r < 10
    ensures (q * 10 + r) / 10 == q && (q * 10 + r) % 10 == r && q * 10 + r >= 10 * q
  {
  }

  /** Printing what was parsed from a canonical literal gives the literal
      back; with the round trip above this makes `toString()` and the parser
      inverse on canonical text. */
  lemma ToStringParse(s: string)
    requires (|s| > 0 && s[0] == '-' && Canonical(s[1..]) && s[1] != '0') || Canonical(s)
    ensures Parse(s) == Ok(Parse(s).value) && ToString(Parse(s).value) == s
  {
    if |s| > 0 && s[0] == '-' && Canonical(s[1..]) && s[1] != '0' {
      DigitsValuePositive(s[1..]);
      NatOfDigits(s[1..]);
      assert s == "-" + s[1..];
    } else {
      NatOfDigits(s);
    }
  }
}
