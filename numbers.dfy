/** Decimal text of integers as the renamer produces and reads it:
    `Int32.ToString()`, the custom zero-padding format `"000…"`, `Int32.Parse`
    with its default number style, and C#'s unchecked 32-bit increment. */
module Numbers {
  import opened Wrappers
  import opened Text

  const MinInt32: int := -0x8000_0000
  const MaxInt32: int := 0x7FFF_FFFF

  predicate IsInt32(x: int)
  {
    MinInt32 <= x <= MaxInt32
  }

  predicate IsDigit(c: char)
  {
    '0' <= c <= '9'
  }

  predicate AllDigits(s: string)
  {
    forall i :: 0 <= i < |s| ==> IsDigit(s[i])
  }

  function DigitChar(d: nat): (c: char)
    requires d < 10
    ensures IsDigit(c) && c as int - '0' as int == d
  {
    ('0' as int + d) as char
  }

  /** The value a string of decimal digits denotes (leading zeros allowed). */
  function DigitsValue(s: string): nat
    requires AllDigits(s)
  {
    if s == [] then 0
    else DigitsValue(s[..|s| - 1]) * 10 + (s[|s| - 1] as int - '0' as int)
  }

  /** Shortest decimal text of `n`: digits only, no leading zero unless `n` is 0. */
  function Decimal(n: nat): (r: string)
    ensures |r| >= 1 && AllDigits(r)
    ensures |r| > 1 ==> r[0] != '0'
  {
    if n < 10 then [DigitChar(n)] else Decimal(n / 10) + [DigitChar(n % 10)]
  }

  /** `Decimal` denotes the number it was made from. */
  lemma {:induction false} DecimalValue(n: nat)
    ensures DigitsValue(Decimal(n)) == n
  {
    if n >= 10 {
      DecimalValue(n / 10);
      var r := Decimal(n);
      assert r[..|r| - 1] == Decimal(n / 10);
    }
  }

  /** Distinct numbers have distinct decimal texts. */
  lemma DecimalInjective(a: nat, b: nat)
    requires Decimal(a) == Decimal(b)
    ensures a == b
  {
    DecimalValue(a);
    DecimalValue(b);
  }

  /** Leading zeros do not change the denoted value. */
  lemma {:induction false} ZerosDoNotCount(z: nat, s: string)
    requires AllDigits(s)
    ensures AllDigits(Zeros(z) + s) && DigitsValue(Zeros(z) + s) == DigitsValue(s)
    decreases |s|, z
  {
    var t := Zeros(z) + s;
    if s == [] {
      assert t == Zeros(z);
      if z > 0 {
        assert t[..|t| - 1] == Zeros(z - 1);
        ZerosDoNotCount(z - 1, []);
        assert Zeros(z - 1) + [] == Zeros(z - 1);
      }
    } else {
      assert t[..|t| - 1] == Zeros(z) + s[..|s| - 1];
      ZerosDoNotCount(z, s[..|s| - 1]);
    }
  }

  function Zeros(z: nat): (r: string)
    ensures |r| == z && AllDigits(r)
  {
    seq(z, _ => '0')
  }

  /** `String.PadLeft(width, '0')`. */
  function PadZeros(s: string, width: nat): (r: string)
    ensures |r| == if |s| < width then width else |s|
  {
    if |s| < width then Zeros(width - |s|) + s else s
  }

  function Abs(n: int): nat
  {
    if n < 0 then -n else n
  }

  /** `n.ToString(new string('0', width))`: a minus sign for a negative value,
      then the magnitude zero-padded to `width` digits. */
  function Padded(n: int, width: nat): (r: string)
    ensures |r| >= width && |r| >= 1
    ensures forall i :: 0 <= i < |r| ==> IsDigit(r[i]) || (i == 0 && n < 0 && r[i] == '-')
    ensures n < 0 ==> r[0] == '-'
  {
    var d := Decimal(Abs(n));
    ZerosDoNotCount(if |d| < width then width - |d| else 0, d);
    (if n < 0 then "-" else "") + PadZeros(d, width)
  }

  /** A non-negative value's padded text is all digits, denotes the value and is
      exactly as long as the wider of `width` and the value's own digit count. */
  lemma PaddedDenotes(n: nat, width: nat)
    ensures AllDigits(Padded(n, width))
    ensures DigitsValue(Padded(n, width)) == n
    ensures |Padded(n, width)| == if |Decimal(n)| < width then width else |Decimal(n)|
  {
    PaddedNatural(n, width);
    DecimalValue(n);
    PadZerosDenotes(Decimal(n), width);
  }

  /** Without a sign, the padded text is the zero-padded decimal text. */
  lemma PaddedNatural(n: nat, width: nat)
    ensures Padded(n, width) == PadZeros(Decimal(n), width)
  {
    var z := PadZeros(Decimal(n), width);
    assert Abs(n) == n;
    assert "" + z == z;
  }

  /** Zero-padding a digit string keeps it a digit string of the same value. */
  lemma PadZerosDenotes(d: string, width: nat)
    requires AllDigits(d)
    ensures AllDigits(PadZeros(d, width)) && DigitsValue(PadZeros(d, width)) == DigitsValue(d)
  {
    if |d| < width {
      ZerosDoNotCount(width - |d|, d);
    }
  }

  /** `Int32.ToString()` in the invariant culture. */
  function IntText(n: int): (r: string)
    ensures r != []
    ensures forall i :: 0 <= i < |r| ==> IsDigit(r[i]) || (i == 0 && n < 0 && r[i] == '-')
    ensures n >= 0 ==> AllDigits(r) && DigitsValue(r) == n
  {
    DecimalValue(Abs(n));
    if n < 0 then "-" + Decimal(Abs(n)) else Decimal(Abs(n))
  }

  /** White space allowed around a number by `NumberStyles.Integer`. */
  predicate IsNumberSpace(c: char)
  {
    c == ' ' || '\U{0009}' <= c <= '\U{000D}'
  }

  /** The value of a non-empty run of ASCII digits; `None` for any other
      string. */
  function DigitsOf(s: string): Option<nat>
  {
    if s == [] || !IsDigit(s[|s| - 1]) then None
    else
      var d := s[|s| - 1] as int - '0' as int;
      if |s| == 1 then Some(d)
      else
        match DigitsOf(s[..|s| - 1])
        case None => None
        case Some(v) => Some(v * 10 + d)
  }

  /** A non-empty digit string reads as the value it denotes. */
  lemma {:induction false} DigitsOfValue(s: string)
    requires s != [] && AllDigits(s)
    ensures DigitsOf(s) == Some(DigitsValue(s))
  {
    if |s| > 1 {
      DigitsOfValue(s[..|s| - 1]);
    }
  }

  /** `Int32.Parse(s)` with `NumberStyles.Integer`: surrounding white space is
      skipped, then an optional sign and at least one ASCII digit, with a value
      in the 32-bit range; `None` where .NET throws a format or overflow
      exception. */
  function ParseInt32(s: string): (r: Option<int>)
    ensures r.Some? ==> IsInt32(r.value)
    decreases |s|
  {
    if s != [] && IsNumberSpace(s[0]) then ParseInt32(s[1..])
    else if s != [] && IsNumberSpace(s[|s| - 1]) then ParseInt32(s[..|s| - 1])
    else
      var neg := s != [] && s[0] == '-';
      var digits := if s != [] && (s[0] == '-' || s[0] == '+') then s[1..] else s;
      match DigitsOf(digits)
      case None => None
      case Some(m) =>
        var v: int := if neg then -(m as int) else m;
        if IsInt32(v) then Some(v) else None
  }

  /** Without surrounding white space, an optional minus sign followed by
      digits reads as the signed value they denote, when it fits. */
  lemma ParseSignedDigits(neg: bool, d: string)
    requires d != [] && AllDigits(d)
    ensures var v: int := if neg then -(DigitsValue(d) as int) else DigitsValue(d);
      ParseInt32((if neg then "-" else "") + d) == if IsInt32(v) then Some(v) else None
  {
    var t := (if neg then "-" else "") + d;
    DigitsOfValue(d);
    assert t[|t| - 1] == d[|d| - 1];
    if neg {
      assert t[1..] == d;
    } else {
      assert t == d;
    }
  }

  /** Every 32-bit value survives a print-then-parse round trip. */
  lemma IntTextRoundTrip(n: int)
    requires IsInt32(n)
    ensures ParseInt32(IntText(n)) == Some(n)
  {
    DecimalValue(Abs(n));
    ParseSignedDigits(n < 0, Decimal(Abs(n)));
    assert IntText(n) == (if n < 0 then "-" else "") + Decimal(Abs(n));
  }

  /** C#'s unchecked `x++` on an `int`. */
  function Inc32(x: int): (r: int)
    requires IsInt32(x)
    ensures IsInt32(r)
  {
    if x == MaxInt32 then MinInt32 else x + 1
  }

  /** The 32-bit value an unbounded integer wraps to. */
  function Wrap32(x: int): (r: int)
    ensures IsInt32(r)
    ensures (x - r) % 0x1_0000_0000 == 0
  {
    (x - MinInt32) % 0x1_0000_0000 + MinInt32
  }

  /** Incrementing a wrapped value is wrapping the successor. */
  lemma Inc32Wraps(x: int)
    ensures Inc32(Wrap32(x)) == Wrap32(x + 1)
  {
  }
}
