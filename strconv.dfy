/** Go's `strconv.ParseInt(s, 10, 64)` and `strconv.FormatInt(x, 10)` (also
    what `fmt` prints for `%d`), as the handlers use them on path
    variables, query values and response bodies. */
module DecimalText {
  import opened Base

  const MaxUint64: int := 0xFFFF_FFFF_FFFF_FFFF

  /** The two kinds of `*strconv.NumError`. */
  datatype NumError = Syntax | Range

  predicate IsDigit(b: byte) { 0x30 <= b <= 0x39 }

  function DigitValue(b: byte): nat
    requires IsDigit(b)
  {
    (b - 0x30) as nat
  }

  /** The number a digit string denotes. */
  function Value(ds: Bytes): nat
    requires forall i :: 0 <= i < |ds| ==> IsDigit(ds[i])
  {
    if ds == [] then 0 else Value(ds[..|ds| - 1]) * 10 + DigitValue(ds[|ds| - 1])
  }

  /** `ParseUint`'s scan for base 10 and 64 bits, resumed with `acc` after
      the digits already read: a non-digit is a syntax error with value 0;
      a digit that takes the value past 2^64 - 1 stops the scan at once
      with a range error and the largest value. */
  function ScanUint(s: Bytes, acc: nat): (r: (nat, Option<NumError>))
    requires acc <= MaxUint64
    ensures r.0 <= MaxUint64
    ensures r.1 == Some(Syntax) ==> r.0 == 0
    ensures r.1 == Some(Range) ==> r.0 == MaxUint64
    decreases |s|
  {
    if s == [] then (acc, None)
    else if !IsDigit(s[0]) then (0, Some(Syntax))
    else if acc * 10 + DigitValue(s[0]) > MaxUint64 then (MaxUint64, Some(Range))
    else ScanUint(s[1..], acc * 10 + DigitValue(s[0]))
  }

  function ParseUint(s: Bytes): (r: (nat, Option<NumError>))
    ensures r.0 <= MaxUint64
    ensures s == [] ==> r == (0, Some(Syntax))
  {
    if s == [] then (0, Some(Syntax)) else ScanUint(s, 0)
  }

  const Plus: byte := 0x2B
  const Minus: byte := 0x2D

  /** `strconv.ParseInt(s, 10, 64)`: an optional sign, then `ParseUint` of
      the rest; out-of-range magnitudes clamp to the int64 bound of that
      sign with a range error. */
  function ParseInt(s: Bytes): (r: (int, Option<NumError>))
    ensures MinInt64 <= r.0 <= MaxInt64
    ensures r.1 == Some(Syntax) ==> r.0 == 0
    ensures r.1 == Some(Range) ==> r.0 == MaxInt64 || r.0 == MinInt64
  {
    if s == [] then (0, Some(Syntax))
    else
      var neg := s[0] == Minus;
      var body := if s[0] == Plus || s[0] == Minus then s[1..] else s;
      var (un, err) := ParseUint(body);
      if err == Some(Syntax) then (0, Some(Syntax))
      else if !neg && un >= MaxInt64 + 1 then (MaxInt64, Some(Range))
      else if neg && un > MaxInt64 + 1 then (MinInt64, Some(Range))
      else
        var v: int := if neg then -(un as int) else un;
        (v, None)
  }

  /** The decimal digits of `n`, most significant first, with no leading zero. */
  function Digits(n: nat): (ds: Bytes)
    ensures |ds| >= 1
    ensures forall i :: 0 <= i < |ds| ==> IsDigit(ds[i])
    ensures n > 0 ==> ds[0] != 0x30
  {
    if n < 10 then [(0x30 + n) as byte] else Digits(n / 10) + [(0x30 + n % 10) as byte]
  }

  /** `strconv.FormatInt(x, 10)` and `fmt.Sprintf("%d", x)`. */
  function FormatInt(x: int): (s: Bytes)
    ensures |s| >= 1
    ensures x < 0 <==> s[0] == Minus
  {
    if x < 0 then [Minus] + Digits(-x) else Digits(x)
  }

  lemma {:induction false} ValueOfDigits(n: nat)
    ensures Value(Digits(n)) == n
  {
    if n >= 10 {
      ValueOfDigits(n / 10);
      var ds := Digits(n);
      assert ds[..|ds| - 1] == Digits(n / 10);
    }
  }

  lemma {:induction false} ValuePrefix(ds: Bytes, i: nat)
    requires forall k :: 0 <= k < |ds| ==> IsDigit(ds[k])
    requires i <= |ds|
    ensures Value(ds[..i]) <= Value(ds)
    decreases |ds| - i
  {
    if i < |ds| {
      ValuePrefix(ds, i + 1);
      assert ds[..i + 1][..i] == ds[..i];
    } else {
      assert ds[..i] == ds;
    }
  }

  /** Scanning the rest of a digit string whose value fits reproduces its value. */
  lemma {:induction false} ScanValue(ds: Bytes, i: nat)
    requires forall k :: 0 <= k < |ds| ==> IsDigit(ds[k])
    requires i <= |ds|
    requires Value(ds) <= MaxUint64
    ensures Value(ds[..i]) <= MaxUint64
    ensures ScanUint(ds[i..], Value(ds[..i])) == (Value(ds), None)
    decreases |ds| - i
  {
    ValuePrefix(ds, i);
    if i < |ds| {
      assert ds[..i + 1][..i] == ds[..i];
      ValuePrefix(ds, i + 1);
      ScanValue(ds, i + 1);
      assert ds[i..][1..] == ds[i + 1..];
    } else {
      assert ds[..i] == ds;
    }
  }

  /** Every int64 printed in decimal parses back to itself without error. */
  lemma ParseFormat(x: int)
    requires MinInt64 <= x <= MaxInt64
    ensures ParseInt(FormatInt(x)) == (x, None)
  {
    var n: nat := if x < 0 then -x else x;
    ValueOfDigits(n);
    ScanValue(Digits(n), 0);
    assert Digits(n)[..0] == [];
    assert Digits(n)[0..] == Digits(n);
    if x < 0 {
      assert FormatInt(x)[1..] == Digits(n);
    }
  }

  /** A value that is not a number reads as 0 when its error is ignored: the
      empty string, and anything whose first byte after the sign is not a digit. */
  lemma NonNumberIsZero(s: Bytes)
    requires s == [] || (!IsDigit(s[0]) && s[0] != Plus && s[0] != Minus)
    ensures ParseInt(s) == (0, Some(Syntax))
  {
  }

  /** A digit string too long for int64 clamps instead of failing to 0. */
  lemma HugeClamps(s: Bytes)
    requires |s| >= 1 && IsDigit(s[0]) && (forall i :: 0 <= i < |s| ==> IsDigit(s[i]))
    requires Value(s) > MaxInt64
    ensures ParseInt(s) == (MaxInt64, Some(Range))
  {
    if Value(s) <= MaxUint64 {
      ScanValue(s, 0);
      assert s[..0] == [] && s[0..] == s;
    } else {
      assert s[..|s|] == s;
      assert s[..0] == [] && s[0..] == s;
      ScanOverflow(s, 0, |s|);
    }
  }

  /** A digit string whose prefix up to `j` exceeds 2^64 - 1 scans to a range error. */
  lemma {:induction false} ScanOverflow(ds: Bytes, i: nat, j: nat)
    requires forall k :: 0 <= k < |ds| ==> IsDigit(ds[k])
    requires i < j <= |ds|
    requires Value(ds[..i]) <= MaxUint64 < Value(ds[..j])
    ensures ScanUint(ds[i..], Value(ds[..i])) == (MaxUint64, Some(Range))
    decreases |ds| - i
  {
    assert ds[..i + 1][..i] == ds[..i];
    assert ds[i..][1..] == ds[i + 1..];
    if Value(ds[..i + 1]) <= MaxUint64 {
      ValuePrefix(ds[..j], i + 1);
      assert ds[..j][..i + 1] == ds[..i + 1];
      ScanOverflow(ds, i + 1, j);
    }
  }
}
