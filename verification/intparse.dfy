/** Swift's failable `Int(_: String)` initialiser on a 64-bit platform: an
    optional `+` or `-`, then one or more ASCII decimal digits and nothing
    else; a value outside the `Int` range yields no result. */
module IntParse {
  import opened Optional

  const Int64Min: int := -0x8000_0000_0000_0000
  const Int64Max: int := 0x7FFF_FFFF_FFFF_FFFF

  predicate InInt64(v: int)
  {
    Int64Min <= v <= Int64Max
  }

  predicate IsDigit(c: char)
  {
    '0' <= c <= '9'
  }

  function DigitValue(c: char): (d: nat)
    requires IsDigit(c)
    ensures d < 10
  {
    (c as int) - ('0' as int)
  }

  predicate AllDigits(s: string)
  {
    forall i :: 0 <= i < |s| ==> IsDigit(s[i])
  }

  /** The value of a decimal numeral, most significant digit first. */
  function NumeralValue(s: string): nat
    requires AllDigits(s)
  {
    if |s| == 0 then 0 else 10 * NumeralValue(s[..|s| - 1]) + DigitValue(s[|s| - 1])
  }

  /** Length of the optional sign in front of the digits. */
  function SignLength(s: string): nat
  {
    if |s| > 0 && (s[0] == '+' || s[0] == '-') then 1 else 0
  }

  /** The shape `Int(_:)` accepts, whatever the magnitude. */
  predicate IsIntLiteral(s: string)
  {
    |s| > SignLength(s) && AllDigits(s[SignLength(s)..])
  }

  /** The mathematical value of a literal, before any range check. */
  function LiteralValue(s: string): int
    requires IsIntLiteral(s)
  {
    var m: int := NumeralValue(s[SignLength(s)..]);
    if s[0] == '-' then -m else m
  }

  /** `Int(s)`: the literal's value when `s` is a literal and the value fits
      in 64 bits, otherwise nothing. */
  function ParseInt(s: string): (r: Option<int>)
    ensures r.Some? ==> InInt64(r.value)
  {
    if IsIntLiteral(s) && InInt64(LiteralValue(s)) then Some(LiteralValue(s)) else None
  }

  /** The digit-by-digit parse with the overflow check after every step, as
      the standard library performs it on a fixed-width accumulator. */
  method ParseIntDigitwise(s: string) returns (r: Option<int>)
    ensures r == ParseInt(s)
  {
    if |s| == 0 {
      return None;
    }
    var negative := s[0] == '-';
    var start := SignLength(s);
    if start == |s| {
      return None;
    }
    var digits := s[start..];
    var acc: int := 0;
    var j := 0;
    while j < |digits|
      invariant 0 <= j <= |digits|
      invariant AllDigits(digits[..j])
      invariant acc == if negative then 0 - NumeralValue(digits[..j]) else NumeralValue(digits[..j])
      invariant InInt64(acc)
    {
      if !IsDigit(digits[j]) {
        return None;
      }
      var d := DigitValue(digits[j]);
      var next: int := if negative then acc * 10 - d else acc * 10 + d;
      assert digits[..j + 1][..j] == digits[..j];
      if !InInt64(next) {
        if AllDigits(digits) {
          NumeralPrefixBound(digits, j + 1);
        }
        return None;
      }
      acc := next;
      j := j + 1;
    }
    assert digits[..j] == digits;
    return Some(acc);
  }

  /** A numeral is worth at least as much as any of its prefixes. */
  lemma {:induction false} NumeralPrefixBound(s: string, j: nat)
    requires AllDigits(s) && j <= |s|
    ensures NumeralValue(s[..j]) <= NumeralValue(s)
    decreases |s|
  {
    if j < |s| {
      var s' := s[..|s| - 1];
      assert s'[..j] == s[..j];
      NumeralPrefixBound(s', j);
    } else {
      assert s[..j] == s;
    }
  }

  // ---------------------------------------------------------------------------
  // Rendering, the inverse of parsing
  // ---------------------------------------------------------------------------

  function DigitChar(d: nat): (c: char)
    requires d < 10
    ensures IsDigit(c) && DigitValue(c) == d
  {
    ('0' as int + d) as char
  }

  /** The shortest decimal numeral for `n`. */
  function ShowNat(n: nat): (s: string)
    ensures |s| > 0 && AllDigits(s)
  {
    if n < 10 then [DigitChar(n)] else ShowNat(n / 10) + [DigitChar(n % 10)]
  }

  /** The decimal text Swift's `String(n)` produces: a `-` for negative
      values, never a `+`, no leading zeros. */
  function ShowInt(n: int): (s: string)
    ensures |s| > 0
  {
    if n < 0 then "-" + ShowNat(-n) else ShowNat(n)
  }

  lemma {:induction false} NumeralValueShowNat(n: nat)
    ensures NumeralValue(ShowNat(n)) == n
  {
    if n >= 10 {
      NumeralValueShowNat(n / 10);
      var s := ShowNat(n);
      assert s[..|s| - 1] == ShowNat(n / 10);
    }
  }

  /** Every 64-bit integer survives being printed and parsed back. */
  lemma ParseShowRoundTrip(n: int)
    requires InInt64(n)
    ensures ParseInt(ShowInt(n)) == Some(n)
  {
    var s := ShowInt(n);
    if n < 0 {
      var digits := ShowNat(-n);
      NumeralValueShowNat(-n);
      assert s == "-" + digits;
      assert SignLength(s) == 1;
      assert s[1..] == digits;
      assert IsIntLiteral(s);
      assert LiteralValue(s) == 0 - NumeralValue(digits) == n;
    } else {
      var digits := ShowNat(n);
      NumeralValueShowNat(n);
      assert s == digits;
      assert IsDigit(s[0]);
      assert SignLength(s) == 0;
      assert s[0..] == s;
      assert IsIntLiteral(s);
      assert LiteralValue(s) == NumeralValue(digits) == n;
    }
  }

  /** Anything other than a digit after the optional sign, such as a space
      or a decimal point, makes the parse fail. This only unfolds
      `IsIntLiteral`. */
  lemma ParseRejectsStrayCharacter(s: string, k: nat)
    requires SignLength(s) <= k < |s| && !IsDigit(s[k])
    ensures ParseInt(s) == None
  {
  }
}
