/** Discord user ids as the program sees them through serenity's `UserId`:
    a non-zero 64-bit integer, displayed in decimal and parsed back from a
    string of decimal digits. */
module UserIds {
  import opened Prelude

  type UserId = n: nat | 0 < n < U64Limit witness 1

  predicate IsDigit(c: char)
  {
    '0' <= c <= '9'
  }

  predicate AllDigits(s: string)
  {
    forall k :: 0 <= k < |s| ==> IsDigit(s[k])
  }

  function DigitChar(d: nat): (c: char)
    requires d < 10
    ensures IsDigit(c) && c as int - '0' as int == d
  {
    ('0' as int + d) as char
  }

  /** The `Display` text of an unsigned integer: decimal, no sign, no padding. */
  function Decimal(n: nat): (s: string)
    ensures |s| >= 1 && AllDigits(s)
    ensures n < 10 <==> |s| == 1
    ensures s[0] == '0' <==> n == 0
  {
    if n < 10 then [DigitChar(n)] else Decimal(n / 10) + [DigitChar(n % 10)]
  }

  /** The number a string of decimal digits stands for (leading zeros allowed). */
  function DigitsValue(s: string): nat
    requires AllDigits(s)
  {
    if s == [] then 0
    else DigitsValue(s[..|s| - 1]) * 10 + (s[|s| - 1] as int - '0' as int)
  }

  /** Reading back the decimal text of a number gives the number. */
  lemma {:induction false} DecimalRoundTrip(n: nat)
    ensures DigitsValue(Decimal(n)) == n
  {
    if n >= 10 {
      DecimalRoundTrip(n / 10);
      var s := Decimal(n);
      assert s[..|s| - 1] == Decimal(n / 10);
    }
  }

  /** `str::parse::<UserId>`: the digits must denote a non-zero value that fits
      in 64 bits; anything else is a parse error. */
  function ParseUserId(digits: string): (r: Option<UserId>)
    requires AllDigits(digits)
    ensures r.Some? <==> 0 < DigitsValue(digits) < U64Limit
    ensures r.Some? ==> r.value == DigitsValue(digits)
  {
    var v := DigitsValue(digits);
    if 0 < v < U64Limit then Some(v) else None
  }

  /** Leading zeros do not change the value of a decimal text. */
  lemma {:induction false} DigitsValueLeadingZeros(z: nat, t: string)
    requires AllDigits(t)
    ensures AllDigits(seq(z, _ => '0') + t) && DigitsValue(seq(z, _ => '0') + t) == DigitsValue(t)
  {
    var zs: string := seq(z, _ => '0');
    var s := zs + t;
    if t == [] {
      assert s == zs;
      if z > 0 {
        DigitsValueLeadingZeros(z - 1, []);
        assert s[..|s| - 1] == seq(z - 1, _ => '0') + [];
      }
    } else {
      DigitsValueLeadingZeros(z, t[..|t| - 1]);
      assert s[..|s| - 1] == zs + t[..|t| - 1];
    }
  }

  /** A decimal number written with any number of leading zeros parses to
      that number exactly when it is between 1 and 2^64 - 1, and fails
      otherwise. */
  lemma ParseLeadingZeros(z: nat, n: nat)
    ensures AllDigits(seq(z, _ => '0') + Decimal(n))
    ensures ParseUserId(seq(z, _ => '0') + Decimal(n)) == if 0 < n < U64Limit then Some(n) else None
  {
    DigitsValueLeadingZeros(z, Decimal(n));
    DecimalRoundTrip(n);
  }

  /** The display text of an id parses back to the same id. */
  lemma ParseDisplayedId(id: UserId)
    ensures ParseUserId(Decimal(id)) == Some(id)
  {
    DecimalRoundTrip(id);
  }
}
