/** Printing 128-bit decimals (src/write/aggregate.rs:368-389). */
module Decimal {
  import opened Wrappers
  import opened Text

  const I128_MIN: int := -0x8000_0000_0000_0000_0000_0000_0000_0000
  const I128_MAX: int := 0x7FFF_FFFF_FFFF_FFFF_FFFF_FFFF_FFFF_FFFF

  predicate InI128(x: int) { I128_MIN <= x <= I128_MAX }

  // ----- printing -----

  function DigitChar(d: nat): (c: char)
    requires d < 10
    ensures '0' <= c <= '9'
  {
    '0' + d as char
  }

  /** Decimal digits without leading zeros. */
  function Digits(n: nat): (s: string)
    ensures s != "" && IsDigits(s)
  {
    if n < 10 then [DigitChar(n)] else Digits(n / 10) + [DigitChar(n % 10)]
  }

  function Magnitude(x: int): nat { if x < 0 then -x else x }

  function Sign(negative: bool): string { if negative then "-" else "" }

  function IntText(x: int): string {
    Sign(x < 0) + Digits(Magnitude(x))
  }

  /** The printed digits for a positive scale: at least one more than the scale. */
  function Padded(digits: string, scale: nat): string {
    if |digits| <= scale then Repeat("0", scale + 1 - |digits|) + digits else digits
  }

  function Printed(value: int, scale: int): string {
    PrintedDigits(value < 0, Digits(Magnitude(value)), scale)
  }

  function PrintedDigits(negative: bool, digits: string, scale: int): string {
    if scale <= 0 then Sign(negative) + digits + Repeat("0", -scale)
    else Sign(negative) + Pointed(Padded(digits, scale), scale)
  }

  /** The digits with a point before the last `scale` of them. */
  function Pointed(padded: string, scale: nat): string {
    var point := if scale <= |padded| then |padded| - scale else 0;
    padded[..point] + "." + padded[point..]
  }

  lemma {:induction false} RepeatZeros(n: nat)
    ensures |Repeat("0", n)| == n && forall i | 0 <= i < n :: Repeat("0", n)[i] == '0'
  {
    if n > 0 {
      RepeatZeros(n - 1);
    }
  }

  lemma {:induction false} PaddedLength(digits: string, scale: nat)
    ensures |Padded(digits, scale)| > scale
  {
    if |digits| <= scale {
      RepeatZeros(scale + 1 - |digits|);
    }
  }

  method InsertPoint(digits0: string, scale: nat) returns (digits: string)
    ensures digits == Pointed(Padded(digits0, scale), scale)
  {
    digits := digits0;
    if |digits| <= scale {
      var zeros := Repeat("0", scale + 1 - |digits|);
      digits := zeros + digits;
    }
    PaddedLength(digits0, scale);
    var point := |digits| - scale;
    digits := digits[..point] + "." + digits[point..];
  }

  /** Scales are signed bytes; -128 has no negation and is not covered. */
  method FormatDecimal128(value: int, scale: int) returns (text: string)
    requires InI128(value) && -128 < scale <= 127
    ensures text == Printed(value, scale)
  {
    if scale <= 0 {
      return IntText(value) + Repeat("0", -scale);
    }
    var negative := value < 0;
    var digits := InsertPoint(Digits(Magnitude(value)), scale);
    if negative {
      return "-" + digits;
    }
    assert "" + digits == digits;
    return digits;
  }

  // ----- reading -----

  predicate IsDigits(s: string) {
    forall i | 0 <= i < |s| :: '0' <= s[i] <= '9'
  }

  function NatOf(s: string): nat
    requires IsDigits(s)
    decreases |s|
  {
    if s == "" then 0 else NatOf(s[..|s| - 1]) * 10 + (s[|s| - 1] - '0') as nat
  }

  function PointAt(s: string): (p: nat)
    ensures p <= |s| && (forall i | 0 <= i < p :: s[i] != '.') && (p < |s| ==> s[p] == '.')
  {
    if s == "" || s[0] == '.' then 0 else PointAt(s[1..]) + 1
  }

  /** A number `mantissa` / 10^`fraction` in decimal notation. */
  datatype Number = Number(mantissa: int, fraction: nat)

  function ReadUnsigned(s: string): Option<Number> {
    var p := PointAt(s);
    var whole, rest := s[..p], if p < |s| then s[p + 1..] else "";
    if whole == "" || (p < |s| && rest == "") || !IsDigits(whole + rest) then None
    else Some(Number(NatOf(whole + rest), |rest|))
  }

  /** What a decimal text denotes: an optional sign, digits, and optionally a point and digits. */
  function Read(s: string): Option<Number> {
    if s != "" && s[0] == '-' then
      var n :- ReadUnsigned(s[1..]);
      Some(Number(-n.mantissa, n.fraction))
    else ReadUnsigned(s)
  }

  function Pow10(n: nat): nat {
    if n == 0 then 1 else 10 * Pow10(n - 1)
  }

  lemma {:induction false} DigitsRead(n: nat)
    ensures NatOf(Digits(n)) == n
  {
    var s := Digits(n);
    if n >= 10 {
      DigitsRead(n / 10);
      assert s[..|s| - 1] == Digits(n / 10);
    } else {
      assert s[..|s| - 1] == "";
    }
  }

  lemma {:induction false} TrailingZeros(s: string, k: nat)
    requires IsDigits(s)
    ensures IsDigits(s + Repeat("0", k)) && NatOf(s + Repeat("0", k)) == NatOf(s) * Pow10(k)
  {
    if k == 0 {
      assert s + "" == s;
    } else {
      TrailingZeros(s, k - 1);
      var t := s + Repeat("0", k - 1);
      assert s + Repeat("0", k) == t + ['0'];
      TimesTen(NatOf(t), NatOf(s), Pow10(k - 1));
    }
  }

  lemma {:induction false} TimesTen(m: int, a: int, b: int)
    requires m == a * b
    ensures m * 10 == a * (10 * b)
  {
  }

  /** Digits that denote zero change nothing in front. */
  lemma {:induction false} ZeroInFront(zeros: string, s: string)
    requires IsDigits(zeros) && NatOf(zeros) == 0 && IsDigits(s)
    ensures IsDigits(zeros + s) && NatOf(zeros + s) == NatOf(s)
    decreases |s|
  {
    if s == "" {
      assert zeros + s == zeros;
    } else {
      var before, c := s[..|s| - 1], s[|s| - 1];
      ZeroInFront(zeros, before);
      ZeroStep(zeros, before, c);
      assert s == before + [c];
    }
  }

  lemma {:induction false} ZeroStep(zeros: string, s: string, c: char)
    requires IsDigits(zeros + s) && IsDigits(s) && '0' <= c <= '9' && NatOf(zeros + s) == NatOf(s)
    ensures IsDigits(zeros + (s + [c])) && IsDigits(s + [c]) && NatOf(zeros + (s + [c])) == NatOf(s + [c])
  {
    assert zeros + (s + [c]) == zeros + s + [c];
  }

  lemma {:induction false} ZerosDenoteZero(k: nat)
    ensures IsDigits(Repeat("0", k)) && NatOf(Repeat("0", k)) == 0
  {
    if k > 0 {
      ZerosDenoteZero(k - 1);
      assert Repeat("0", k) == Repeat("0", k - 1) + ['0'];
    }
  }

  // ----- printing is exact -----

  lemma {:induction false} PaddedDenotes(digits: string, scale: nat)
    requires IsDigits(digits)
    ensures var padded := Padded(digits, scale);
            IsDigits(padded) && |padded| > scale && NatOf(padded) == NatOf(digits)
  {
    PaddedLength(digits, scale);
    if |digits| <= scale {
      ZerosDenoteZero(scale + 1 - |digits|);
      ZeroInFront(Repeat("0", scale + 1 - |digits|), digits);
    }
  }

  lemma {:induction false} ReadsParts(whole: string, rest: string)
    requires whole != "" && rest != "" && IsDigits(whole + rest)
    ensures ReadUnsigned(whole + "." + rest) == Some(Number(NatOf(whole + rest), |rest|))
    ensures (whole + "." + rest)[0] != '-'
  {
    var s := whole + "." + rest;
    assert forall i | 0 <= i < |whole| :: s[i] == (whole + rest)[i];
    assert s[|whole|] == '.';
    assert PointAt(s) == |whole|;
    assert s[..|whole|] == whole && s[|whole| + 1..] == rest;
  }

  lemma {:induction false} ReadsWhole(s: string)
    requires s != "" && IsDigits(s)
    ensures ReadUnsigned(s) == Some(Number(NatOf(s), 0)) && s[0] != '-'
  {
    assert PointAt(s) == |s|;
    assert s[..|s|] == s && s + "" == s;
  }

  lemma {:induction false} SignedRead(negative: bool, s: string, mantissa: int, fraction: nat)
    requires s != "" && s[0] != '-' && ReadUnsigned(s) == Some(Number(mantissa, fraction))
    ensures Read(Sign(negative) + s) == Some(Number(if negative then -mantissa else mantissa, fraction))
  {
    if negative {
      assert ("-" + s)[1..] == s;
    } else {
      assert "" + s == s;
    }
  }

  lemma {:induction false} SignedParts(negative: bool, whole: string, rest: string, m: int)
    requires whole != "" && rest != "" && IsDigits(whole + rest) && NatOf(whole + rest) == m
    ensures Read(Sign(negative) + (whole + "." + rest)) == Some(Number(if negative then -m else m, |rest|))
  {
    ReadsParts(whole, rest);
    SignedRead(negative, whole + "." + rest, m, |rest|);
  }

  lemma {:induction false} ExactFraction(negative: bool, padded: string, scale: nat, m: int)
    requires 0 < scale < |padded| && IsDigits(padded) && NatOf(padded) == m
    ensures Read(Sign(negative) + Pointed(padded, scale)) == Some(Number(if negative then -m else m, scale))
  {
    var whole, rest := padded[..|padded| - scale], padded[|padded| - scale..];
    assert whole + rest == padded;
    SignedParts(negative, whole, rest, m);
  }

  lemma {:induction false} ExactWhole(negative: bool, s: string, m: int)
    requires IsDigits(s) && s != "" && NatOf(s) == m
    ensures Read(Sign(negative) + s) == Some(Number(if negative then -m else m, 0))
  {
    ReadsWhole(s);
    SignedRead(negative, s, m, 0);
  }

  /** The printed text denotes value / 10^scale; for a positive scale it has exactly `scale`
      digits behind the point and at least one before it. */
  lemma {:induction false} PrintingIsExact(value: int, scale: int)
    ensures Read(Printed(value, scale)) ==
            Some(if scale > 0 then Number(value, scale) else Number(value * Pow10(-scale), 0))
  {
    DigitsRead(Magnitude(value));
    DigitsExact(value < 0, Digits(Magnitude(value)), scale, Magnitude(value));
  }

  lemma {:induction false} DigitsExact(negative: bool, digits: string, scale: int, m: int)
    requires IsDigits(digits) && digits != "" && NatOf(digits) == m
    ensures var value := if negative then -m else m;
            Read(PrintedDigits(negative, digits, scale)) ==
            Some(if scale > 0 then Number(value, scale) else Number(value * Pow10(-scale), 0))
  {
    var text := PrintedDigits(negative, digits, scale);
    if scale > 0 {
      ExactPadded(negative, digits, scale, m);
      assert text == Sign(negative) + Pointed(Padded(digits, scale), scale);
    } else {
      ExactZeros(negative, digits, -scale, m);
      assert text == Sign(negative) + digits + Repeat("0", -scale);
    }
  }

  lemma {:induction false} ExactPadded(negative: bool, digits: string, scale: nat, m: int)
    requires scale > 0 && IsDigits(digits) && NatOf(digits) == m
    ensures Read(Sign(negative) + Pointed(Padded(digits, scale), scale)) ==
            Some(Number(if negative then -m else m, scale))
  {
    PaddedDenotes(digits, scale);
    ExactFraction(negative, Padded(digits, scale), scale, m);
  }

  lemma {:induction false} ExactZeros(negative: bool, digits: string, zeros: nat, m: int)
    requires IsDigits(digits) && digits != "" && NatOf(digits) == m
    ensures Read(Sign(negative) + digits + Repeat("0", zeros)) ==
            Some(Number((if negative then -m else m) * Pow10(zeros), 0))
  {
    TrailingZeros(digits, zeros);
    var s := digits + Repeat("0", zeros);
    ExactWhole(negative, s, m * Pow10(zeros));
    assert Sign(negative) + digits + Repeat("0", zeros) == Sign(negative) + s;
    NegativeProduct(m, Pow10(zeros));
  }

  lemma {:induction false} NegativeProduct(a: int, b: int)
    ensures (-a) * b == -(a * b)
  {
  }

  /** For a fixed scale, different values print differently. */
  lemma {:induction false} PrintingIsInjective(a: int, b: int, scale: int)
    requires Printed(a, scale) == Printed(b, scale)
    ensures a == b
  {
    PrintingIsExact(a, scale);
    PrintingIsExact(b, scale);
    if scale <= 0 {
      SameFactor(a, b, -scale);
    }
  }

  lemma {:induction false} SameFactor(a: int, b: int, k: nat)
    requires a * Pow10(k) == b * Pow10(k)
    ensures a == b
    decreases k
  {
    if k > 0 {
      TimesTen(a * Pow10(k - 1), a, Pow10(k - 1));
      TimesTen(b * Pow10(k - 1), b, Pow10(k - 1));
      SameFactor(a, b, k - 1);
    }
  }
}
