/** Go's `strconv.Atoi` on a 64-bit platform, including what it returns on
    failure: 0 after a syntax error, and the clamped extreme after an overflow
    (callers that ignore the error still see that value). */
module Strconv {
  import opened Strings

  const MaxInt64: int := 0x7fff_ffff_ffff_ffff
  const MinInt64: int := -0x8000_0000_0000_0000
  const MaxUint64: int := 0xffff_ffff_ffff_ffff

  predicate AllDigits(s: string) {
    forall i :: 0 <= i < |s| ==> IsDigit(s[i])
  }

  /** The decimal value of a run of digits. */
  function DigitsValue(s: string): nat
    requires AllDigits(s)
  {
    if |s| == 0 then 0
    else DigitsValue(s[..|s| - 1]) * 10 + (s[|s| - 1] as int - '0' as int)
  }

  /** How `strconv.ParseUint` ends on a sign-free string. */
  datatype Scan = Value(n: nat) | SyntaxError | RangeError

  /** `ParseUint(s, 10, 64)` from position `i` with `n` accumulated: a non-digit
      is a syntax error, exceeding 2^64-1 a range error, whichever comes first. */
  function ScanUint(s: string, i: nat, n: nat): Scan
    requires i <= |s|
    decreases |s| - i
  {
    if i == |s| then Value(n)
    else if !IsDigit(s[i]) then SyntaxError
    else
      var n' := n * 10 + (s[i] as int - '0' as int);
      if n' > MaxUint64 then RangeError else ScanUint(s, i + 1, n')
  }

  function ParseUint(s: string): Scan {
    if |s| == 0 then SyntaxError else ScanUint(s, 0, 0)
  }

  /** `strconv.Atoi`: the returned value and whether the error was nil. */
  datatype Parsed = Parsed(value: int, ok: bool)

  function Atoi(s: string): (r: Parsed)
    ensures MinInt64 <= r.value <= MaxInt64
    ensures !r.ok ==> r.value in {0, MaxInt64, MinInt64}
  {
    var neg := |s| > 0 && s[0] == '-';
    var digits := if |s| > 0 && (s[0] == '-' || s[0] == '+') then s[1..] else s;
    match ParseUint(digits)
    case SyntaxError => Parsed(0, false)
    case RangeError => Parsed(if neg then MinInt64 else MaxInt64, false)
    case Value(n) =>
      if !neg && n > MaxInt64 then Parsed(MaxInt64, false)
      else if neg && n > -MinInt64 then Parsed(MinInt64, false)
      else Parsed(if neg then 0 - (n as int) else n as int, true)
  }

  lemma {:induction false} DigitsValuePrefixMonotone(s: string, i: nat)
    requires AllDigits(s) && i <= |s|
    ensures DigitsValue(s[..i]) <= DigitsValue(s)
    decreases |s| - i
  {
    if i < |s| {
      assert s[..i] == s[..i + 1][..i];
      assert AllDigits(s[..i + 1]);
      DigitsValuePrefixMonotone(s, i + 1);
    } else {
      assert s[..i] == s;
    }
  }

  /** Scanning a digit run accumulates the value of the prefix read so far. */
  lemma {:induction false} ScanUintDigits(s: string, i: nat)
    requires AllDigits(s) && i <= |s|
    ensures DigitsValue(s) <= MaxUint64 ==> ScanUint(s, i, DigitsValue(s[..i])) == Value(DigitsValue(s))
    ensures DigitsValue(s) > MaxUint64 && DigitsValue(s[..i]) <= MaxUint64 ==> ScanUint(s, i, DigitsValue(s[..i])) == RangeError
    decreases |s| - i
  {
    if i == |s| {
      assert s[..i] == s;
    } else {
      assert s[..i + 1][..i] == s[..i];
      assert DigitsValue(s[..i + 1]) == DigitsValue(s[..i]) * 10 + (s[i] as int - '0' as int);
      DigitsValuePrefixMonotone(s, i + 1);
      ScanUintDigits(s, i + 1);
    }
  }

  /** On a run of digits, `Atoi` succeeds exactly when the value fits in an
      int64, and then returns that value. */
  lemma AtoiDigits(s: string)
    requires |s| > 0 && AllDigits(s)
    ensures Atoi(s).ok <==> DigitsValue(s) <= MaxInt64
    ensures Atoi(s).ok ==> Atoi(s).value == DigitsValue(s)
  {
    assert s[..0] == "";
    ScanUintDigits(s, 0);
  }

  /** A run of digits too large for an int64 parses, with an error, to the
      largest int64. */
  lemma AtoiSaturates(s: string)
    requires |s| > 0 && AllDigits(s) && DigitsValue(s) > MaxInt64
    ensures Atoi(s) == Parsed(MaxInt64, false)
  {
    assert s[..0] == "";
    ScanUintDigits(s, 0);
  }

  /** The decimal digits of `n` without leading zeros: `%d` of a non-negative number. */
  function NatDigits(n: nat): (s: string)
    ensures |s| > 0 && AllDigits(s) && DigitsValue(s) == n
    decreases n
  {
    var last := [('0' as int + n % 10) as char];
    if n < 10 then
      assert DigitsValue(last) == DigitsValue(last[..0]) * 10 + n;
      last
    else
      var front := NatDigits(n / 10);
      var s := front + last;
      assert s[..|s| - 1] == front;
      s
  }

  /** `strconv.Itoa` and `fmt`'s `%d`. */
  function Itoa(n: int): string {
    if n < 0 then "-" + NatDigits(-n) else NatDigits(n)
  }

  /** Formatting then parsing any int64 gives back the same number. */
  lemma AtoiItoa(n: int)
    requires MinInt64 <= n <= MaxInt64
    ensures Atoi(Itoa(n)) == Parsed(n, true)
  {
    var m: nat := if n < 0 then -n else n;
    var d := NatDigits(m);
    assert d[..0] == "";
    ScanUintDigits(d, 0);
    if n < 0 {
      assert Itoa(n)[1..] == d;
    }
  }
}
