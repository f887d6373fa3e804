/** The decimal text of an amount: parsing into fixed point, printing back, and the wire fields. */
module AmountText {
  import opened GoInts
  import opened Digits
  import opened Ledger

  // ---- The code ----

  /** A magnitude that an int64 can hold. */
  type uint63 = x: int | 0 <= x <= 0x7fff_ffff_ffff_ffff

  /** base * 10^power if it is a uint64; a zero base is accepted at any power. */
  function ScaleUp(base: uint64, power: int): Option<uint64> {
    if base == 0 then Some(0)
    else if power >= 0 && 0 <= Shl10(base, power) <= UINT64_MAX then Some(Shl10(base, power))
    else None
  }

  method MulPow10(base: uint64, power: int) returns (r: Option<uint64>)
    ensures r == ScaleUp(base, power)
    ensures power >= 0 ==> (r.Some? <==> Shl10(base, power) <= UINT64_MAX)
    ensures power >= 0 && r.Some? ==> r.value == Shl10(base, power)
  {
    if power >= 0 {
      Shl10Linear(base, 0, power);
      Shl10Product(0, 0, power);
    }
    if base == 0 {
      return Some(0);
    }
    if power < 0 || power > 19 {
      if power > 19 { TooManyZeros(base, power); }
      return None;
    }
    var result: int := base;
    var i := 0;
    while i < power
      invariant 0 <= i <= power && base <= result <= UINT64_MAX
      invariant result == Shl10(base, i)
    {
      if result > UINT64_MAX / 10 {
        Shl10Grows(base, i + 1, power);
        return None;
      }
      result := result * 10;
      i := i + 1;
    }
    return Some(result);
  }

  lemma TooManyZeros(base: uint64, power: int)
    requires base > 0 && power > 19
    ensures Shl10(base, power) > UINT64_MAX
  {
    Shl10Of19();
    Shl10Linear(1, base - 1, 20);
    Shl10Linear(base - 1, 0, 20);
    Shl10Grows(base, 20, power);
  }

  method IsDigits(s: string) returns (ok: bool)
    ensures ok <==> AllDigits(s)
  {
    var i := 0;
    while i < |s|
      invariant 0 <= i <= |s| && AllDigits(s[..i])
    {
      if s[i] < '0' || s[i] > '9' {
        assert !IsDigit(s[i]);
        return false;
      }
      i := i + 1;
    }
    assert s[..i] == s;
    return true;
  }

  predicate IsMarker(c: char) { c == 'e' || c == 'E' }

  /** Index of the first exponent marker, or the length when there is none. */
  function MarkerIndex(s: string): (i: nat)
    ensures i <= |s|
    ensures forall k | 0 <= k < i :: !IsMarker(s[k])
    ensures i < |s| ==> IsMarker(s[i])
  {
    if s == [] || IsMarker(s[0]) then 0 else 1 + MarkerIndex(s[1..])
  }

  /** Index of the first decimal point, or the length when there is none. */
  function PointIndex(s: string): (i: nat)
    ensures i <= |s|
    ensures forall k | 0 <= k < i :: s[k] != '.'
    ensures i < |s| ==> s[i] == '.'
  {
    if s == [] || s[0] == '.' then 0 else 1 + PointIndex(s[1..])
  }

  function After(s: string, i: nat): string {
    if i < |s| then s[i + 1..] else []
  }

  function Divide(magnitude: uint64, divisor: uint64): Option<uint63> {
    if divisor != 0 && magnitude % divisor == 0 &&
        magnitude / divisor <= INT64_MAX then Some(magnitude / divisor) else None
  }

  /** The magnitude shifted by `power` decimal places, if that is exact and representable. */
  function Shift(magnitude: uint64, power: int): Option<uint63> {
    if power >= 0 then
      match ScaleUp(magnitude, power)
      case Some(v) => if v <= INT64_MAX then Some(v) else None
      case None => None
    else
      match ScaleUp(1, -power)
      case Some(divisor) => Divide(magnitude, divisor)
      case None => None
  }

  function ParseUnsigned(rest: string): Option<uint63> {
    var m := MarkerIndex(rest);
    var exponent := if m < |rest| then Atoi(rest[m + 1..]) else Some(0);
    if exponent.None? || exponent.value < -1000 || exponent.value > 1000 then None
    else
      var mantissa := rest[..m];
      var p := PointIndex(mantissa);
      var whole, frac := mantissa[..p], After(mantissa, p);
      if whole == [] || !AllDigits(whole) || !AllDigits(frac) then None
      else match ParseUint64(whole + frac)
        case None => None
        case Some(magnitude) => Shift(magnitude, exponent.value - |frac| + AMOUNT_FRACTION_DIGITS)
  }

  predicate IsSign(c: char) { c == '-' || c == '+' }

  function Parse(value: string): Option<int64> {
    if value == [] then None
    else
      var rest := if IsSign(value[0]) then value[1..] else value;
      if rest == [] then None
      else match ParseUnsigned(rest)
        case None => None
        case Some(r) => Some(if value[0] == '-' then -(r as int) else r)
  }

  method ParseAmount(value: string) returns (r: Option<int64>)
    ensures r == Parse(value)
  {
    hide ParseUnsigned;
    if value == [] {
      return None;
    }
    var negative, rest := false, value;
    if value[0] == '-' || value[0] == '+' {
      negative := value[0] == '-';
      rest := rest[1..];
    }
    if rest == [] {
      return None;
    }
    var magnitude := ParseMagnitude(rest);
    if magnitude.None? {
      return None;
    }
    return Some(if negative then -(magnitude.value as int) else magnitude.value);
  }

  /** The part of the parser after the sign. */
  method ParseMagnitude(rest: string) returns (r: Option<uint63>)
    ensures r == ParseUnsigned(rest)
  {
    hide Value, Atoi, Shift, ParseUint64, MarkerIndex, PointIndex, AllDigits;
    var mantissa, exponent := rest, 0;
    var idx := MarkerIndex(rest);
    assert idx == |rest| ==> rest[..idx] == rest;
    if idx < |rest| {
      mantissa := rest[..idx];
      var parsed := Atoi(rest[idx + 1..]);
      if parsed.None? || parsed.value < -1000 || parsed.value > 1000 {
        return None;
      }
      exponent := parsed.value;
    }
    var point := PointIndex(mantissa);
    var wholePart, fracPart := mantissa[..point], After(mantissa, point);
    var wholeOk := IsDigits(wholePart);
    var fracOk := IsDigits(fracPart);
    if wholePart == [] || !wholeOk || !fracOk {
      return None;
    }
    var magnitude := ParseUint64(wholePart + fracPart);
    if magnitude.None? {
      return None;
    }
    r := ScaleMagnitude(magnitude.value, exponent - |fracPart| + AMOUNT_FRACTION_DIGITS);
  }

  method ScaleMagnitude(magnitude: uint64, power: int) returns (r: Option<uint63>)
    ensures r == Shift(magnitude, power)
  {
    var scaled: int;
    if power >= 0 {
      var product := MulPow10(magnitude, power);
      if product.None? {
        return None;
      }
      scaled := product.value;
    } else {
      var divisor := MulPow10(1, -power);
      Shl10Linear(1, 0, -power);
      if divisor.None? || magnitude % divisor.value != 0 {
        return None;
      }
      Quotient(magnitude, divisor.value);
      scaled := magnitude / divisor.value;
    }
    if scaled > INT64_MAX {
      return None;
    }
    return Some(scaled);
  }

  function Magnitude(v: int64): nat {
    if v < 0 then -(v + 1) + 1 else v
  }

  function PaddedDigits(n: nat): (d: string)
    ensures |d| > AMOUNT_FRACTION_DIGITS && AllDigits(d)
  {
    var digits := FormatUint(n);
    if |digits| <= AMOUNT_FRACTION_DIGITS then Zeros(AMOUNT_FRACTION_DIGITS - |digits| + 1) + digits else digits
  }

  function FormatAmount(v: int64): string {
    var digits := PaddedDigits(Magnitude(v));
    var split := |digits| - AMOUNT_FRACTION_DIGITS;
    (if v < 0 then "-" else "") + digits[..split] + "." + digits[split..]
  }

  // ---- The grammar, stated apart from the scanner ----

  /** The magnitude ends in n zeros and what is left is an int64. */
  ghost predicate Strips(magnitude: nat, n: nat) {
    exists q: nat :: ShiftsTo(q, n, magnitude)
  }

  predicate ShiftsTo(q: nat, n: nat, magnitude: nat) {
    q <= INT64_MAX && Shl10(q, n) == magnitude
  }

  /** A decimal literal by its pieces; an absent exponent has no marker. */
  datatype Literal = Literal(sign: string, whole: string, point: bool, frac: string, marker: Option<char>,
                             expSign: string, expDigits: string)
  {
    predicate WellFormed() {
      && (sign == "" || sign == "-" || sign == "+")
      && whole != [] && AllDigits(whole) && AllDigits(frac)
      && (!point ==> frac == [])
      && (marker.None? ==> expSign == [] && expDigits == [])
      && (marker.Some? ==> (marker.value == 'e' || marker.value == 'E') && IsNumber(expSign, expDigits))
    }

    function Mantissa(): string {
      whole + (if point then "." + frac else "")
    }

    function Unsigned(): string {
      Mantissa() + (if marker.Some? then [marker.value] + (expSign + expDigits) else "")
    }

    function Spell(): string {
      sign + Unsigned()
    }

    function Exp(): int
      requires WellFormed()
    {
      if marker.Some? then (if expSign == "-" then -(Value(expDigits) as int) else Value(expDigits)) else 0
    }

    /** All digits of the literal read as one integer. */
    function Digits(): nat
      requires WellFormed()
    {
      ValueConcat(whole, frac);
      Value(whole + frac)
    }

    function Power(): int
      requires WellFormed()
    {
      Exp() - |frac| + AMOUNT_FRACTION_DIGITS
    }

    /** r / 10^8 is exactly ±(whole + frac / 10^|frac|) * 10^exp, cleared of denominators. */
    predicate Denotes(r: int)
      requires WellFormed()
    {
      var e := Exp();
      var numerator := Shl10(Value(whole), |frac|) + Value(frac);
      Shl10(r, |frac| + (if e < 0 then -e else 0))
      == Shl10(if sign == "-" then -numerator else numerator, 8 + (if e > 0 then e else 0))
    }

    /** Accepted literals: bounded exponent, digits in uint64, and an exact int64 result reached by
        stripping at most 19 zeros. */
    ghost predicate Representable()
      requires WellFormed()
    {
      && -1000 <= Exp() <= 1000
      && Digits() <= UINT64_MAX
      && (Power() >= 0 ==> Shl10(Digits(), Power()) <= INT64_MAX)
      && (Power() < 0 ==> -Power() <= 19 && Strips(Digits(), -Power()))
    }
  }

  lemma MarkerAt(s: string, i: nat)
    requires i <= |s| && (forall k | 0 <= k < i :: !IsMarker(s[k])) && (i < |s| ==> IsMarker(s[i]))
    ensures MarkerIndex(s) == i
  {
  }

  lemma PointAt(s: string, i: nat)
    requires i <= |s| && (forall k | 0 <= k < i :: s[k] != '.') && (i < |s| ==> s[i] == '.')
    ensures PointIndex(s) == i
  {
  }

  lemma StripIff(n: nat)
    ensures ScaleUp(1, n).Some? <==> n <= 19
    ensures n <= 19 ==> ScaleUp(1, n).value == Shl10(1, n) > 0
  {
    Shl10Linear(1, 0, n);
    if n > 19 { TooManyZeros(1, n); }
    else {
      Shl10Grows(1, n, 19);
      Shl10Of19();
    }
  }

  /** Dividing by a power of ten succeeds exactly when the quotient shifts back to the magnitude. */
  lemma DivideIff(magnitude: uint64, n: nat)
    requires 0 < Shl10(1, n) <= UINT64_MAX
    ensures Divide(magnitude, Shl10(1, n)).Some? <==> Strips(magnitude, n)
    ensures Divide(magnitude, Shl10(1, n)).Some? ==> Shl10(Divide(magnitude, Shl10(1, n)).value, n) == magnitude
  {
    var d := Shl10(1, n);
    if Divide(magnitude, d).Some? {
      var q := magnitude / d;
      Shl10Product(q, 1, n);
      Quotient(magnitude, d);
      assert ShiftsTo(q, n, magnitude);
    }
    forall q: nat | ShiftsTo(q, n, magnitude)
      ensures Divide(magnitude, d).Some?
    {
      Shl10Product(q, 1, n);
      ExactQuotient(q, d);
    }
  }

  lemma Quotient(n: nat, d: nat)
    requires d > 0 && n % d == 0
    ensures n == (n / d) * d && n / d >= 0
  {
  }

  lemma ExactQuotient(q: nat, d: nat)
    requires d > 0
    ensures (q * d) % d == 0 && (q * d) / d == q
  {
    var n := q * d;
    var k, r := n / d, n % d;
    assert n == k * d + r;
    assert (q - k) * d == r;
    NoMultipleBelow(q - k, d, r);
  }

  lemma NoMultipleBelow(k: int, d: nat, r: nat)
    requires k * d == r < d
    ensures k == 0 && r == 0
  {
    assert (k - 1) * d < 0;
    assert (k + 1) * d > 0;
  }

  lemma ShiftIff(l: Literal)
    requires l.WellFormed() && -1000 <= l.Exp() <= 1000 && l.Digits() <= UINT64_MAX
    ensures Shift(l.Digits(), l.Power()).Some? <==> l.Representable()
    ensures Shift(l.Digits(), l.Power()).Some? && l.Power() >= 0 ==>
            Shift(l.Digits(), l.Power()).value == Shl10(l.Digits(), l.Power())
    ensures Shift(l.Digits(), l.Power()).Some? && l.Power() < 0 ==>
            Shl10(Shift(l.Digits(), l.Power()).value, -l.Power()) == l.Digits()
  {
    var d, p := l.Digits(), l.Power();
    if p >= 0 {
      Shl10Linear(d, 0, p);
      Shl10Product(0, 0, p);
    } else {
      StripIff(-p);
      if -p <= 19 { DivideIff(d, -p); }
    }
  }

  /** Scanning a spelled literal recovers exactly its pieces. */
  lemma ScanLiteral(l: Literal)
    requires l.WellFormed()
    ensures ParseUnsigned(l.Unsigned()) ==
            if -1000 <= l.Exp() <= 1000 && l.Digits() <= UINT64_MAX then Shift(l.Digits(), l.Power()) else None
  {
    hide Shift, Value, Atoi, MarkerIndex, PointIndex, After;
    ScanMarker(l);
    ScanPoint(l);
    ValueConcat(l.whole, l.frac);
    if l.marker.Some? { AtoiOfNumber(l.expSign, l.expDigits); }
  }

  lemma ScanMarker(l: Literal)
    requires l.WellFormed()
    ensures var s, m := l.Unsigned(), MarkerIndex(l.Unsigned());
            && s[..m] == l.Mantissa() && (m < |s| <==> l.marker.Some?)
            && (m < |s| ==> s[m + 1..] == l.expSign + l.expDigits)
  {
    var s, mantissa := l.Unsigned(), l.Mantissa();
    assert forall k | 0 <= k < |mantissa| :: mantissa[k] == '.' || IsDigit(mantissa[k]);
    MarkerAt(s, |mantissa|);
    hide MarkerIndex;
    assert s[..|mantissa|] == mantissa;
    if l.marker.Some? { assert s[|mantissa| + 1..] == l.expSign + l.expDigits; }
  }

  lemma ScanPoint(l: Literal)
    requires l.WellFormed()
    ensures var mantissa, p := l.Mantissa(), PointIndex(l.Mantissa());
            mantissa[..p] == l.whole && After(mantissa, p) == l.frac
  {
    var mantissa := l.Mantissa();
    PointAt(mantissa, |l.whole|);
    hide PointIndex;
    assert mantissa[..|l.whole|] == l.whole;
    assert After(mantissa, |l.whole|) == l.frac;
  }

  /** Every well-formed literal parses exactly when it is representable, to its exact meaning. */
  lemma ParseLiteral(l: Literal)
    requires l.WellFormed()
    ensures Parse(l.Spell()).Some? <==> l.Representable()
    ensures Parse(l.Spell()).Some? ==> l.Denotes(Parse(l.Spell()).value)
  {
    hide Shift, ParseUnsigned, Shl10;
    ScanLiteral(l);
    ParseSigned(l);
    if -1000 <= l.Exp() <= 1000 && l.Digits() <= UINT64_MAX {
      ShiftIff(l);
      if l.Representable() { ShiftDenotes(l); }
    }
  }

  lemma ParseSigned(l: Literal)
    requires l.WellFormed()
    ensures Parse(l.Spell()) == match ParseUnsigned(l.Unsigned())
              case None => None
              case Some(r) => Some(if l.sign == "-" then -(r as int) else r)
  {
    hide ParseUnsigned;
    var s, rest := l.Spell(), l.Unsigned();
    assert rest[0] == l.whole[0] && IsDigit(rest[0]);
    assert l.sign != "" ==> s[1..] == rest;
    assert l.sign == "" ==> s == rest;
  }

  lemma ShiftDenotes(l: Literal)
    requires l.WellFormed() && l.Representable() && Shift(l.Digits(), l.Power()).Some?
    ensures var r := Shift(l.Digits(), l.Power()).value;
            l.Denotes(if l.sign == "-" then -(r as int) else r)
  {
    hide Shift, Value, Shl10;
    ValueConcat(l.whole, l.frac);
    ShiftIff(l);
    BalancePowers(Shift(l.Digits(), l.Power()).value, l.Digits(), |l.frac|, l.Exp());
  }

  lemma BalancePowers(r: int, d: int, f: nat, e: int)
    requires var p := e - f + 8; if p >= 0 then r == Shl10(d, p) else Shl10(r, -p) == d
    ensures Shl10(r, f + (if e < 0 then -e else 0)) == Shl10(d, 8 + (if e > 0 then e else 0))
    ensures Shl10(-r, f + (if e < 0 then -e else 0)) == Shl10(-d, 8 + (if e > 0 then e else 0))
  {
    var p, pos, neg := e - f + 8, if e > 0 then e else 0, if e < 0 then -e else 0;
    if p >= 0 {
      Shl10Twice(d, p, f + neg);
    } else {
      Shl10Twice(r, -p, 8 + pos);
    }
    Shl10Linear(r, 0, f + neg);
    Shl10Linear(d, 0, 8 + pos);
  }

  lemma SplitAtPoint(s: string, p: nat)
    requires p < |s| && s[p] == '.'
    ensures s == s[..p] + ("." + s[p + 1..])
  {
    assert s == s[..p] + s[p..];
    assert s[p..] == "." + s[p + 1..];
  }

  lemma CutMantissa(mantissa: string)
    ensures var p := PointIndex(mantissa);
            mantissa == mantissa[..p] + (if p < |mantissa| then "." + After(mantissa, p) else "")
  {
    hide PointIndex;
    var p := PointIndex(mantissa);
    if p < |mantissa| {
      SplitAtPoint(mantissa, p);
    }
  }

  lemma AcceptedUnsigned(rest: string) returns (l: Literal)
    requires rest != [] && ParseUnsigned(rest).Some?
    ensures l.WellFormed() && l.sign == "" && l.Unsigned() == rest
  {
    hide Shift, Value, Atoi, ParseUint64;
    var m := MarkerIndex(rest);
    var mantissa := rest[..m];
    CutMantissa(mantissa);
    var p := PointIndex(mantissa);
    var marker, sign, digits := None, "", "";
    if m < |rest| {
      marker := Some(rest[m]);
      sign, digits := AtoiAcceptsNumbers(rest[m + 1..]);
    }
    l := Literal("", mantissa[..p], p < |mantissa|, After(mantissa, p), marker, sign, digits);
    assert l.Mantissa() == mantissa;
    assert m < |rest| ==> rest == mantissa + ([rest[m]] + rest[m + 1..]);
  }

  /** Nothing but the spelling of a well-formed literal is accepted. */
  lemma AcceptedIsLiteral(value: string) returns (l: Literal)
    requires Parse(value).Some?
    ensures l.WellFormed() && l.Spell() == value
  {
    hide ParseUnsigned, Value, Atoi;
    if IsSign(value[0]) {
      l := AcceptedUnsigned(value[1..]);
      l := l.(sign := value[..1]);
      assert value == value[..1] + value[1..];
    } else {
      l := AcceptedUnsigned(value);
    }
  }

  /** Parser exactness over every string: acceptance is being a representable literal, and the result
      is the exact decimal times 10^8. */
  lemma ParserExactness(value: string)
    ensures Parse(value).Some? <==> exists l: Literal :: l.WellFormed() && l.Spell() == value && l.Representable()
    ensures forall l: Literal | l.WellFormed() && l.Spell() == value &&
            Parse(value).Some? :: l.Denotes(Parse(value).value)
  {
    if Parse(value).Some? {
      var l := AcceptedIsLiteral(value);
      ParseLiteral(l);
    }
    forall l: Literal | l.WellFormed() && l.Spell() == value
      ensures l.Representable() <==> Parse(value).Some?
      ensures Parse(value).Some? ==> l.Denotes(Parse(value).value)
    {
      ParseLiteral(l);
    }
  }

  /** A whole number is read as that many units of the accounting scale. */
  lemma WholeUnits(n: nat)
    ensures Parse(FormatUint(n)) == if n * AMOUNT_SCALE <= INT64_MAX then Some(n * AMOUNT_SCALE) else None
  {
    hide Parse, FormatUint, Value, Shl10;
    var text := FormatUint(n);
    var l := Literal("", text, false, "", None, "", "");
    ValueOfFormat(n);
    assert text + "" == text && l.Spell() == text && l.Digits() == n && l.Power() == 8;
    EightZeros(n);
    ParseLiteral(l);
    assert l.Representable() <==> n * AMOUNT_SCALE <= INT64_MAX;
    if Parse(text).Some? { WholeDenotes(l, Parse(text).value); }
  }

  lemma WholeDenotes(l: Literal, r: int)
    requires l.WellFormed() && l.sign == "" && l.frac == [] && l.marker.None? && l.Denotes(r)
    ensures r == Shl10(Value(l.whole), 8)
  {
    assert Shl10(r, 0) == r && Shl10(Value(l.whole), 0) == Value(l.whole) && Value("") == 0;
    hide Shl10;
  }

  lemma EightZeros(n: int)
    ensures Shl10(n, 8) == n * 100_000_000
  {
    assert Shl10(n, 1) == n * 10;
    assert Shl10(n, 2) == n * 100;
    assert Shl10(n, 3) == n * 1_000;
    assert Shl10(n, 4) == n * 10_000;
    assert Shl10(n, 5) == n * 100_000;
    assert Shl10(n, 6) == n * 1_000_000;
    assert Shl10(n, 7) == n * 10_000_000;
  }

  /** A zero that needs more than 19 digits stripped is rejected although its value is exact. */
  lemma ZeroWithDeepExponentIsRejected()
    ensures Parse("0e-28") == None
  {
    var l := Literal("", "0", false, "", Some('e'), "-", "28");
    assert Value("28") == 28 by { assert "28"[..1] == "2"; assert "2"[..0] == ""; }
    assert l.Spell() == "0e-28";
    ParseLiteral(l);
  }

  // ---- Round trip ----

  function Printed(v: int64): Literal {
    var digits := PaddedDigits(Magnitude(v));
    var split := |digits| - AMOUNT_FRACTION_DIGITS;
    Literal(if v < 0 then "-" else "", digits[..split], true, digits[split..], None, "", "")
  }

  lemma PrintedSpells(v: int64)
    ensures var l := Printed(v);
            l.WellFormed() && l.Spell() == FormatAmount(v) && l.whole + l.frac == PaddedDigits(Magnitude(v)) &&
                |l.frac| == 8
  {
    hide PaddedDigits, Value;
    var l, d := Printed(v), PaddedDigits(Magnitude(v));
    assert d[..|d| - 8] + d[|d| - 8..] == d;
  }

  lemma PrintedFacts(v: int64)
    ensures var l := Printed(v);
            && l.WellFormed() && l.Spell() == FormatAmount(v)
            && l.sign == (if v < 0 then "-" else "") && l.Exp() == 0 && l.Power() == 0 && l.Digits() == Magnitude(v)
            && Magnitude(v) == if v < 0 then -(v as int) else v
  {
    PrintedSpells(v);
    PaddedValue(Magnitude(v));
    hide PaddedDigits, Value, FormatAmount;
  }

  lemma ShiftByNothing(n: uint64)
    ensures Shift(n, 0) == if n <= INT64_MAX then Some(n) else None
  {
    assert Shl10(n, 0) == n;
  }

  /** Every int64, the least included, prints its exact value with eight fraction digits, no exponent, a minus sign
      exactly when negative, and no superfluous leading zero. */
  lemma FormatIsExact(v: int64)
    ensures var l := Printed(v);
            && l.WellFormed() && FormatAmount(v) == l.Spell() && l.Denotes(v)
            && l.point && |l.frac| == 8 && l.marker.None? && (l.sign == if v < 0 then "-" else "")
            && (|l.whole| > 1 ==> l.whole[0] != '0')
  {
    PrintedSpells(v);
    PrintedFacts(v);
    var l, n := Printed(v), Magnitude(v);
    ValueConcat(l.whole, l.frac);
    NoLeadingZero(n);
    hide Value, FormatAmount, FormatUint;
  }

  /** Every int64 but the least survives printing and parsing; the least prints but does not parse. */
  lemma RoundTrip(v: int64)
    ensures Parse(FormatAmount(v)) == if v == INT64_MIN then None else Some(v)
  {
    hide Parse, ParseUnsigned, Printed, FormatAmount, Value, Shift, Magnitude;
    var l := Printed(v);
    PrintedFacts(v);
    ScanLiteral(l);
    ParseSigned(l);
    ShiftByNothing(Magnitude(v));
  }

  lemma PaddedValue(n: nat)
    ensures Value(PaddedDigits(n)) == n
  {
    ValueOfFormat(n);
    var digits := FormatUint(n);
    if |digits| <= AMOUNT_FRACTION_DIGITS { LeadingZeros(AMOUNT_FRACTION_DIGITS - |digits| + 1, digits); }
  }

  /** The amount fields of the wire event, as published and as decoded. */
  datatype WireAmounts = WireAmounts(quantity: string, price: string)

  function Publish(quantity: int64, price: int64): WireAmounts {
    WireAmounts(FormatAmount(quantity), FormatAmount(price))
  }

  function Decode(w: WireAmounts): Option<(int64, int64)> {
    match Parse(w.quantity)
    case None => None
    case Some(q) => match Parse(w.price)
      case None => None
      case Some(p) => Some((q, p))
  }

  /** What the publisher writes decodes to the same amounts exactly when neither is the least int64. */
  lemma WireRoundTrip(quantity: int64, price: int64)
    ensures Decode(Publish(quantity, price)) == Some((quantity, price)) <==> quantity != INT64_MIN && price != INT64_MIN
    ensures Publish(quantity, price).quantity == FormatAmount(quantity) &&
            Publish(quantity, price).price == FormatAmount(price)
  {
    RoundTrip(quantity);
    RoundTrip(price);
  }
}
