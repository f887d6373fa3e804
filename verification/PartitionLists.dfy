/** A tenant's partitions as the dedicated processor receives them: expanded from a map entry, or printed
    into an environment variable by the operator and parsed back. */
module PartitionLists {
  import opened GoInts
  import opened Digits

  /** One tenant's published block. */
  datatype Entry = Entry(start: int32, count: int32)

  /** The block [start, start+count) with every index reduced to int32. */
  function Indices(start: int32, count: nat): (s: seq<int32>)
    requires count <= INT32_MAX
    ensures |s| == count && forall i | 0 <= i < count :: s[i] == Wrap32(start + i)
  {
    if count == 0 then [] else Indices(start, count - 1) + [Wrap32(start + count - 1)]
  }

  function IndexSet(s: seq<int32>): set<int32> { set p | p in s }

  ghost function EntrySet(start: int32, count: int32): Option<set<int32>> {
    if count < 1 then None else Some(IndexSet(Indices(start, count)))
  }

  method PartitionsForEntry(start: int32, count: int32) returns (r: Option<set<int32>>)
    ensures r == EntrySet(start, count)
  {
    if count < 1 {
      return None;
    }
    var partitions: set<int32> := {};
    var index := 0;
    while index < count
      invariant 0 <= index <= count && partitions == IndexSet(Indices(start, index))
    {
      partitions := partitions + {Wrap32(start + index)};
      index := index + 1;
    }
    return Some(partitions);
  }

  // ---- Printing ----

  function JoinComma(parts: seq<string>): string {
    if parts == [] then ""
    else if |parts| == 1 then parts[0]
    else parts[0] + "," + JoinComma(parts[1..])
  }

  function Texts(ns: seq<int32>): (parts: seq<string>)
    ensures |parts| == |ns| && forall i | 0 <= i < |ns| :: parts[i] == Itoa(ns[i])
  {
    if ns == [] then [] else Texts(ns[..|ns| - 1]) + [Itoa(ns[|ns| - 1])]
  }

  /** The printed indices of the block. */
  function Printed(start: int32, count: nat): seq<string>
    requires count <= INT32_MAX
  {
    Texts(Indices(start, count))
  }

  function ListText(start: int32, count: int32): string {
    if count <= 0 then "" else JoinComma(Printed(start, count))
  }

  lemma NextPrinted(start: int32, index: int32)
    requires 0 <= index < INT32_MAX
    ensures Printed(start, 0) == []
    ensures Printed(start, index + 1) == Printed(start, index) + [Itoa(Wrap32(start + index))]
  {
    hide Itoa;
    var ns, ns' := Indices(start, index), Indices(start, index + 1);
    assert |Texts(ns')| == |Texts(ns)| + 1;
    assert forall i | 0 <= i < index :: ns'[i] == ns[i];
  }

  method PartitionListString(start: int32, count: int32) returns (s: string)
    ensures s == ListText(start, count)
  {
    if count <= 0 {
      return "";
    }
    var partitions: seq<string> := [];
    var index := 0;
    hide Itoa, JoinComma, Printed;
    NextPrinted(start, 0);
    while index < count
      invariant 0 <= index <= count && partitions == Printed(start, index)
    {
      NextPrinted(start, index);
      partitions := partitions + [Itoa(Wrap32(start + index))];
      index := index + 1;
    }
    return JoinComma(partitions);
  }

  // ---- Parsing ----

  function SplitComma(s: string): (parts: seq<string>)
    ensures parts != []
  {
    if s == [] then [""]
    else
      var rest := SplitComma(s[1..]);
      if s[0] == ',' then [""] + rest else [[s[0]] + rest[0]] + rest[1..]
  }

  /** The UTF-8 bytes of one Unicode white space character: U+0009 to U+000D and U+0020; U+0085 and U+00A0; U+1680,
      U+2000 to U+200A, U+2028, U+2029, U+202F, U+205F and U+3000. */
  predicate IsSpace(bytes: string) {
    if |bytes| == 1 then bytes[0] == ' ' || '\t' <= bytes[0] <= '\r'
    else if |bytes| == 2 then bytes[0] as int == 0xC2 && bytes[1] as int in {0x85, 0xA0}
    else |bytes| == 3 && IsWideSpace(bytes[0] as int, bytes[1] as int, bytes[2] as int)
  }

  predicate IsWideSpace(a: int, b: int, c: int) {
    || (a == 0xE1 && b == 0x9A && c == 0x80)
    || (a == 0xE2 && b == 0x80 && (0x80 <= c <= 0x8A || c in {0xA8, 0xA9, 0xAF}))
    || (a == 0xE2 && b == 0x81 && c == 0x9F)
    || (a == 0xE3 && b == 0x80 && c == 0x80)
  }

  /** Unicode's white space characters. */
  predicate WhiteSpace(c: nat) {
    || 0x09 <= c <= 0x0D || c == 0x20 || c == 0x85 || c == 0xA0 || c == 0x1680 || 0x2000 <= c <= 0x200A
    || c == 0x2028 || c == 0x2029 || c == 0x202F || c == 0x205F || c == 0x3000
  }

  /** The UTF-8 encoding of a character below 2^16. */
  function Utf8(c: nat): seq<nat> {
    if c < 0x80 then [c]
    else if c < 0x800 then [0xC0 + c / 64, 0x80 + c % 64]
    else [0xE0 + c / 4096, 0x80 + c / 64 % 64, 0x80 + c % 64]
  }

  function Codes(bytes: string): seq<nat> {
    seq(|bytes|, i requires 0 <= i < |bytes| => bytes[i] as nat)
  }

  lemma SpaceBytes(c: nat)
    requires WhiteSpace(c)
    ensures c < 0x80 ==> Utf8(c) == [c]
    ensures 0x80 <= c < 0x800 ==> Utf8(c) == [0xC2, c]
    ensures 0x800 <= c ==> |Utf8(c)| == 3 && IsWideSpace(Utf8(c)[0], Utf8(c)[1], Utf8(c)[2])
  {
    assert 0x1680 / 4096 == 1 && 0x1680 / 64 % 64 == 0x1A && 0x1680 % 64 == 0;
    assert 0x205F / 4096 == 2 && 0x205F / 64 % 64 == 1 && 0x205F % 64 == 0x1F;
    assert 0x3000 / 4096 == 3 && 0x3000 / 64 % 64 == 0 && 0x3000 % 64 == 0;
    assert 0x2000 <= c < 0x2040 ==> c / 4096 == 2 && c / 64 == 0x80 && c % 64 == c - 0x2000;
  }

  /** Exactly the encodings of white space characters are trimmed. */
  lemma SpaceIff(bytes: string)
    ensures IsSpace(bytes) <==> exists c: nat :: WhiteSpace(c) && Codes(bytes) == Utf8(c)
  {
    var codes := Codes(bytes);
    if IsSpace(bytes) {
      var c: nat := if |bytes| == 1 then codes[0] else if |bytes| == 2 then codes[1]
                    else 4096 * (codes[0] - 0xE0) + 64 * (codes[1] - 0x80) + (codes[2] - 0x80);
      assert WhiteSpace(c) && codes == Utf8(c);
    }
    forall c: nat | WhiteSpace(c) && codes == Utf8(c) ensures IsSpace(bytes) {
      SpaceBytes(c);
      hide Utf8;
      assert forall i | 0 <= i < |bytes| :: codes[i] == bytes[i] as nat;
    }
  }

  /** The length of the white space character that s starts with, or 0. */
  function LeadingSpace(s: string): (n: nat)
    ensures n <= |s|
  {
    if |s| >= 1 && IsSpace(s[..1]) then 1
    else if |s| >= 2 && IsSpace(s[..2]) then 2
    else if |s| >= 3 && IsSpace(s[..3]) then 3
    else 0
  }

  function TrailingSpace(s: string): (n: nat)
    ensures n <= |s|
  {
    if |s| >= 1 && IsSpace(s[|s| - 1..]) then 1
    else if |s| >= 2 && IsSpace(s[|s| - 2..]) then 2
    else if |s| >= 3 && IsSpace(s[|s| - 3..]) then 3
    else 0
  }

  function TrimSpace(s: string): string
    decreases |s|
  {
    var lead, trail := LeadingSpace(s), TrailingSpace(s);
    if lead > 0 then TrimSpace(s[lead..])
    else if trail > 0 then TrimSpace(s[..|s| - trail])
    else s
  }

  /** Trimming leaves no white space at either end and drops nothing from the middle. */
  lemma {:induction false} TrimmedIsBare(s: string) returns (i: nat)
    ensures LeadingSpace(TrimSpace(s)) == 0 == TrailingSpace(TrimSpace(s))
    ensures i + |TrimSpace(s)| <= |s| && TrimSpace(s) == s[i..i + |TrimSpace(s)|]
    decreases |s|
  {
    hide LeadingSpace, TrailingSpace;
    var lead, trail, t := LeadingSpace(s), TrailingSpace(s), TrimSpace(s);
    if lead > 0 {
      i := TrimmedIsBare(s[lead..]);
      assert s[lead..][i..i + |t|] == s[lead + i..lead + i + |t|];
      i := i + lead;
    } else if trail > 0 {
      i := TrimmedIsBare(s[..|s| - trail]);
      assert s[..|s| - trail][i..i + |t|] == s[i..i + |t|];
    } else {
      i := 0;
    }
  }

  /** The int32 conversion of a parsed index. */
  function Truncate32(x: int): int32 { (x - INT32_MIN) % UINT32_MOD + INT32_MIN }

  function ParseField(field: string): Option<int32> {
    match Atoi(TrimSpace(field))
    case None => None
    case Some(v) => if v < 0 then None else Some(Truncate32(v))
  }

  function ParseFields(fields: seq<string>): Option<seq<int32>> {
    if fields == [] then Some([])
    else match (ParseFields(fields[..|fields| - 1]), ParseField(fields[|fields| - 1]))
      case (Some(front), Some(last)) => Some(front + [last])
      case _ => None
  }

  method ParsePartitionList(value: string) returns (r: Option<seq<int32>>)
    ensures r == ParseFields(SplitComma(value))
  {
    var fields := SplitComma(value);
    var partitions: seq<int32> := [];
    var i := 0;
    while i < |fields|
      invariant 0 <= i <= |fields| && ParseFields(fields[..i]) == Some(partitions)
    {
      assert fields[..i + 1][..i] == fields[..i];
      var parsed := Atoi(TrimSpace(fields[i]));
      if parsed.None? || parsed.value < 0 {
        StaysNone(fields, i + 1);
        return None;
      }
      partitions := partitions + [Truncate32(parsed.value)];
      i := i + 1;
    }
    assert fields[..i] == fields;
    return Some(partitions);
  }

  lemma {:induction false} StaysNone(fields: seq<string>, i: nat)
    requires i <= |fields| && ParseFields(fields[..i]).None?
    ensures ParseFields(fields).None?
    decreases |fields| - i
  {
    if i == |fields| {
      assert fields[..i] == fields;
    } else {
      assert fields[..i + 1][..i] == fields[..i];
      StaysNone(fields, i + 1);
    }
  }

  // ---- Round trip ----

  lemma {:induction false} SplitPart(part: string, s: string)
    requires ',' !in part
    ensures SplitComma(part + "," + s) == [part] + SplitComma(s)
    ensures SplitComma(part) == [part]
    decreases |part|
  {
    if part == [] {
      assert part + "," + s == "," + s;
    } else {
      assert (part + "," + s)[1..] == part[1..] + "," + s;
      SplitPart(part[1..], s);
      assert part == [part[0]] + part[1..];
    }
  }

  lemma {:induction false} SplitOfJoin(parts: seq<string>)
    requires parts != [] && forall i | 0 <= i < |parts| :: ',' !in parts[i]
    ensures SplitComma(JoinComma(parts)) == parts
    decreases |parts|
  {
    SplitPart(parts[0], JoinComma(parts[1..]));
    if |parts| > 1 {
      SplitOfJoin(parts[1..]);
      assert parts == [parts[0]] + parts[1..];
    }
  }

  lemma ItoaIsNumerals(n: int)
    ensures forall i | 0 <= i < |Itoa(n)| :: IsNumeral(Itoa(n)[i])
  {
  }

  lemma ItoaShape(n: int)
    ensures ',' !in Itoa(n) && TrimSpace(Itoa(n)) == Itoa(n)
  {
    hide Itoa, LeadingSpace, TrailingSpace;
    ItoaIsNumerals(n);
    NumeralsAreBare(Itoa(n));
  }

  predicate IsNumeral(c: char) { c == '-' || IsDigit(c) }

  lemma NumeralsAreBare(s: string)
    requires s != [] && IsNumeral(s[0]) && IsNumeral(s[|s| - 1])
    ensures LeadingSpace(s) == 0 == TrailingSpace(s)
  {
    forall k | 1 <= k <= 3 && k <= |s| ensures !IsSpace(s[..k]) && !IsSpace(s[|s| - k..]) {
      SpaceIsNoNumeral(s[..k]);
      SpaceIsNoNumeral(s[|s| - k..]);
    }
    hide IsSpace;
  }

  lemma SpaceIsNoNumeral(bytes: string)
    requires bytes != []
    ensures IsNumeral(bytes[0]) || IsNumeral(bytes[|bytes| - 1]) ==> !IsSpace(bytes)
  {
  }

  /** The conversion keeps the value modulo 2^32. */
  lemma TruncateCongruent(x: int) returns (k: int)
    ensures Truncate32(x) == x + k * 0x1_0000_0000
  {
    k := -((x - INT32_MIN) / UINT32_MOD);
  }

  /** A field is accepted exactly when, trimmed, it is a number that is not negative and fits int64. */
  lemma FieldIff(field: string)
    ensures ParseField(field).Some? <==>
            exists sign, digits :: IsNumber(sign, digits) && TrimSpace(field) == sign + digits &&
                                   0 <= SignedValue(sign, digits) <= INT64_MAX
    ensures forall sign, digits | IsNumber(sign, digits) && TrimSpace(field) == sign + digits &&
            ParseField(field).Some? ::
              ParseField(field).value == Truncate32(SignedValue(sign, digits))
  {
    hide TrimSpace, Truncate32, Value, Atoi;
    var s := TrimSpace(field);
    if ParseField(field).Some? {
      var sign, digits := AtoiAcceptsNumbers(s);
      AtoiOfNumber(sign, digits);
      assert IsNumber(sign, digits) && s == sign + digits;
    }
    forall sign, digits | IsNumber(sign, digits) && s == sign + digits
      ensures Atoi(s) == if InInt64(SignedValue(sign, digits)) then Some(SignedValue(sign, digits)) else None
    {
      AtoiOfNumber(sign, digits);
    }
  }

  lemma TruncateExact(n: int32)
    ensures Truncate32(n) == n
  {
  }

  lemma FieldRoundTrip(n: int32)
    ensures ParseField(Itoa(n)) == if n < 0 then None else Some(n)
  {
    hide Itoa, Atoi, TrimSpace, Truncate32;
    ItoaShape(n);
    AtoiOfItoa(n);
    TruncateExact(n);
  }

  predicate NonNegative(ns: seq<int32>) { forall i | 0 <= i < |ns| :: ns[i] >= 0 }

  lemma {:induction false} FieldsRoundTrip(ns: seq<int32>)
    ensures ParseFields(Texts(ns)).Some? <==> NonNegative(ns)
    ensures ParseFields(Texts(ns)).Some? ==> ParseFields(Texts(ns)).value == ns
    decreases |ns|
  {
    hide Itoa, ParseField;
    if ns == [] {
      assert Texts(ns) == [];
    } else {
      var front, last := ns[..|ns| - 1], ns[|ns| - 1];
      assert Texts(ns)[..|ns| - 1] == Texts(front);
      FieldsRoundTrip(front);
      FieldRoundTrip(last);
      assert ns == front + [last];
    }
  }

  lemma IndicesSigns(start: int32, count: int32)
    requires count >= 1
    ensures NonNegative(Indices(start, count)) <==> start >= 0 && start + count - 1 <= INT32_MAX
  {
    var ns := Indices(start, count);
    assert ns[0] == start && ns[count - 1] == Wrap32(start + (count - 1));
  }

  /** The printed list parses back to exactly the block when the block is a non-empty range of valid
      partition indices, and is rejected in every other case. */
  lemma ListRoundTrip(start: int32, count: int32)
    ensures ParseFields(SplitComma(ListText(start, count))) ==
            if count >= 1 && start >= 0 && start + count - 1 <= INT32_MAX then Some(Indices(start, count)) else None
  {
    if count <= 0 {
      assert SplitComma("") == [""] && [""][..0] == [];
    } else {
      var ns := Indices(start, count);
      var parts := Texts(ns);
      forall i | 0 <= i < |parts| ensures ',' !in parts[i] { ItoaShape(ns[i]); }
      SplitOfJoin(parts);
      FieldsRoundTrip(ns);
      hide *;
      IndicesSigns(start, count);
    }
  }
}
