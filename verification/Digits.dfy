/** Decimal digit strings: their value, their printing, and the integer parsers built on them. */
module Digits {
  import opened GoInts

  /** x * 10^k. */
  function Shl10(x: int, k: nat): int {
    if k == 0 then x else 10 * Shl10(x, k - 1)
  }

  lemma {:induction false} Shl10Twice(x: int, j: nat, k: nat)
    ensures Shl10(Shl10(x, j), k) == Shl10(x, j + k)
    decreases k
  {
    if k > 0 {
      Shl10Twice(x, j, k - 1);
      assert j + k - 1 == j + (k - 1);
    }
  }

  lemma {:induction false} Shl10Product(x: int, y: int, k: nat)
    ensures Shl10(x * y, k) == x * Shl10(y, k)
  {
    if k > 0 {
      Shl10Product(x, y, k - 1);
      var z := Shl10(y, k - 1);
      assert 10 * (x * z) == x * (10 * z);
    }
  }

  lemma {:induction false} Shl10Linear(x: int, y: int, k: nat)
    ensures Shl10(x + y, k) == Shl10(x, k) + Shl10(y, k)
    ensures Shl10(-x, k) == -Shl10(x, k)
    ensures x >= 0 ==> Shl10(x, k) >= x
  {
    if k > 0 { Shl10Linear(x, y, k - 1); }
  }

  lemma {:induction false} Shl10Grows(x: nat, j: nat, k: nat)
    requires j <= k
    ensures Shl10(x, j) <= Shl10(x, k)
    decreases k
  {
    if j < k {
      Shl10Grows(x, j, k - 1);
      Shl10Linear(x, 0, k - 1);
    }
  }

  lemma {:induction false} Shl10Of19()
    ensures Shl10(1, 19) == 10_000_000_000_000_000_000
  {
    assert Shl10(1, 4) == 10_000;
    assert Shl10(1, 8) == 100_000_000;
    assert Shl10(1, 12) == 1_000_000_000_000;
    assert Shl10(1, 16) == 10_000_000_000_000_000;
  }

  predicate IsDigit(c: char) { '0' <= c <= '9' }

  predicate AllDigits(s: string) { forall i | 0 <= i < |s| :: IsDigit(s[i]) }

  function DigitChar(d: nat): (c: char)
    requires d < 10
    ensures IsDigit(c) && (c as int - '0' as int) == d
  {
    (d + '0' as int) as char
  }

  function Value(s: string): nat
    requires AllDigits(s)
  {
    if s == [] then 0 else Value(s[..|s| - 1]) * 10 + (s[|s| - 1] as int - '0' as int)
  }

  lemma {:induction false} ValueConcat(a: string, b: string)
    requires AllDigits(a) && AllDigits(b)
    ensures AllDigits(a + b)
    ensures Value(a + b) == Shl10(Value(a), |b|) + Value(b)
    decreases |b|
  {
    if b == [] {
      assert a + b == a;
    } else {
      assert (a + b)[..|a + b| - 1] == a + b[..|b| - 1];
      ValueConcat(a, b[..|b| - 1]);
    }
  }

  function FormatUint(n: nat): (s: string)
    ensures |s| >= 1 && AllDigits(s)
  {
    if n < 10 then [DigitChar(n)] else FormatUint(n / 10) + [DigitChar(n % 10)]
  }

  lemma {:induction false} ValueOfFormat(n: nat)
    ensures Value(FormatUint(n)) == n
    decreases n
  {
    if n >= 10 {
      ValueOfFormat(n / 10);
      var s := FormatUint(n);
      assert s[..|s| - 1] == FormatUint(n / 10);
    } else {
      assert [DigitChar(n)][..0] == [];
    }
  }

  lemma {:induction false} NoLeadingZero(n: nat)
    ensures n > 0 ==> FormatUint(n)[0] != '0'
    ensures n < 10 ==> |FormatUint(n)| == 1
    decreases n
  {
    if n >= 10 { NoLeadingZero(n / 10); }
  }

  lemma {:induction false} LeadingZeros(k: nat, s: string)
    requires AllDigits(s)
    ensures AllDigits(Zeros(k) + s) && Value(Zeros(k) + s) == Value(s)
    decreases k
  {
    ZerosValue(k);
    ValueConcat(Zeros(k), s);
    Shl10Product(0, 0, |s|);
  }

  function Zeros(k: nat): (z: string)
    ensures |z| == k && AllDigits(z)
  {
    seq(k, _ => '0')
  }

  lemma {:induction false} ZerosValue(k: nat)
    ensures Value(Zeros(k)) == 0
  {
    if k > 0 {
      ZerosValue(k - 1);
      assert Zeros(k)[..k - 1] == Zeros(k - 1);
    }
  }

  /** strconv.ParseUint(s, 10, 64) on a string of digits. */
  function ParseUint64(s: string): Option<uint64> {
    if s == [] || !AllDigits(s) || Value(s) > UINT64_MAX then None else Some(Value(s))
  }

  /** strconv.Atoi: an optional sign, then at least one digit, within int64. */
  function Atoi(s: string): Option<int64> {
    if s == [] then None
    else
      var digits := if s[0] == '+' || s[0] == '-' then s[1..] else s;
      if digits == [] || !AllDigits(digits) then None
      else
        var v := if s[0] == '-' then -(Value(digits) as int) else Value(digits) as int;
        if InInt64(v) then Some(v) else None
  }

  /** The value of a signed digit string. */
  function SignedValue(sign: string, digits: string): int
    requires AllDigits(digits)
  {
    if sign == "-" then -(Value(digits) as int) else Value(digits)
  }

  /** A sign and the digits after it. */
  predicate IsNumber(sign: string, digits: string) {
    (sign == "" || sign == "+" || sign == "-") && digits != [] && AllDigits(digits)
  }

  /** Digits with an optional sign read as their value when that is an int64. */
  lemma AtoiOfNumber(sign: string, digits: string)
    requires IsNumber(sign, digits)
    ensures Atoi(sign + digits) == if InInt64(SignedValue(sign, digits)) then Some(SignedValue(sign, digits)) else None
  {
    var s := sign + digits;
    assert sign != "" ==> s[1..] == digits;
    assert sign == "" ==> s == digits && IsDigit(s[0]);
    hide Value;
  }

  /** Nothing else is accepted. */
  lemma AtoiAcceptsNumbers(s: string) returns (sign: string, digits: string)
    requires Atoi(s).Some?
    ensures IsNumber(sign, digits) && s == sign + digits
  {
    if s[0] == '+' || s[0] == '-' { sign, digits := s[..1], s[1..]; } else { sign, digits := "", s; }
    hide Value;
  }

  function Itoa(n: int): (s: string)
    ensures s != []
  {
    if n < 0 then "-" + FormatUint(-n) else FormatUint(n)
  }

  lemma AtoiOfItoa(n: int64)
    ensures Atoi(Itoa(n)) == Some(n)
  {
    if n < 0 {
      ValueOfFormat(0 - n);
      assert Itoa(n)[1..] == FormatUint(0 - n);
    } else {
      ValueOfFormat(n);
      assert IsDigit(FormatUint(n)[0]);
    }
  }
}
