/** The pieces of the .NET text library that the core's behaviour rests on:
    the line break `StringBuilder.AppendLine` writes, the `"X2"` byte format,
    and the number parsers `byte.Parse(s, NumberStyles.HexNumber)` and
    `int.TryParse(s, out v)`. */
module NetText {
  import opened Base

  /** `Environment.NewLine` on Windows, the platform of this WPF program. */
  const NewLine: string := "\r\n"

  const Int32Min: int := -0x8000_0000
  const Int32Max: int := 0x7FFF_FFFF

  /** The white space that `NumberStyles.AllowLeadingWhite` and
      `AllowTrailingWhite` skip: U+0009 to U+000D and U+0020. */
  predicate IsWhite(c: char) {
    c == ' ' || '\t' <= c <= '\r'
  }

  predicate IsDecimalDigit(c: char) {
    '0' <= c <= '9'
  }

  predicate IsHexDigit(c: char) {
    '0' <= c <= '9' || 'a' <= c <= 'f' || 'A' <= c <= 'F'
  }

  predicate IsUpperHexDigit(c: char) {
    '0' <= c <= '9' || 'A' <= c <= 'F'
  }

  predicate AllHex(s: string) {
    forall k :: 0 <= k < |s| ==> IsHexDigit(s[k])
  }

  predicate AllDecimal(s: string) {
    forall k :: 0 <= k < |s| ==> IsDecimalDigit(s[k])
  }

  function HexDigitValue(c: char): (v: nat)
    requires IsHexDigit(c)
    ensures v < 16
  {
    if '0' <= c <= '9' then c as int - '0' as int
    else if 'a' <= c <= 'f' then c as int - 'a' as int + 10
    else c as int - 'A' as int + 10
  }

  /** The upper-case digit for a value below 16. */
  function HexDigit(n: nat): (c: char)
    requires n < 16
    ensures IsUpperHexDigit(c) && IsHexDigit(c) && HexDigitValue(c) == n
  {
    if n < 10 then ('0' as int + n) as char else ('A' as int + n - 10) as char
  }

  /** The number a string of hex digits denotes, read from the left. */
  function HexValue(ds: string): nat
    requires AllHex(ds)
  {
    if ds == [] then 0
    else HexValue(ds[..|ds| - 1]) * 16 + HexDigitValue(ds[|ds| - 1])
  }

  function DecimalDigitValue(c: char): (v: nat)
    requires IsDecimalDigit(c)
    ensures v < 10
  {
    c as int - '0' as int
  }

  /** The number a string of decimal digits denotes, read from the left. */
  function DecimalValue(ds: string): nat
    requires AllDecimal(ds)
  {
    if ds == [] then 0
    else DecimalValue(ds[..|ds| - 1]) * 10 + DecimalDigitValue(ds[|ds| - 1])
  }

  /** The shortest decimal numeral of `n`, as `n.ToString()` writes it. */
  function Decimal(n: nat): (s: string)
    ensures s != [] && AllDecimal(s) && s[0] != '-' && s[0] != '+'
    ensures !IsWhite(s[0]) && !IsWhite(s[|s| - 1])
  {
    if n < 10 then [('0' as int + n) as char]
    else Decimal(n / 10) + [('0' as int + n % 10) as char]
  }

  function TrimStart(s: string): (t: string)
    ensures |t| <= |s| && t == s[|s| - |t|..]
    ensures t == [] || !IsWhite(t[0])
    ensures forall k :: 0 <= k < |s| - |t| ==> IsWhite(s[k])
  {
    if s != [] && IsWhite(s[0]) then TrimStart(s[1..]) else s
  }

  function TrimEnd(s: string): (t: string)
    ensures |t| <= |s| && t == s[..|t|]
    ensures t == [] || !IsWhite(t[|t| - 1])
    ensures forall k :: |t| <= k < |s| ==> IsWhite(s[k])
  {
    if s != [] && IsWhite(s[|s| - 1]) then TrimEnd(s[..|s| - 1]) else s
  }

  /** What the parsers look at once leading and trailing white space is skipped. */
  function Trim(s: string): string {
    TrimEnd(TrimStart(s))
  }

  predicate AllWhite(s: string) {
    forall k :: 0 <= k < |s| ==> IsWhite(s[k])
  }

  /** Trimming keeps one contiguous run of the text and drops only white
      space around it. */
  lemma TrimShape(s: string)
    ensures var t, lead := Trim(s), |s| - |TrimStart(s)|;
      && lead + |t| <= |s| && s == s[..lead] + t + s[lead + |t|..]
      && AllWhite(s[..lead]) && AllWhite(s[lead + |t|..])
  {
    var u := TrimStart(s);
    var t, lead := TrimEnd(u), |s| - |u|;
    SliceOfSlice(s, u, t, lead);
    AllWhiteSlice(s, 0, lead);
    forall k | lead + |t| <= k < |s| ensures IsWhite(s[k]) {
      assert s[k] == u[k - lead];
    }
    AllWhiteSlice(s, lead + |t|, |s|);
  }

  lemma SliceOfSlice(s: string, u: string, t: string, lead: nat)
    requires lead <= |s| && u == s[lead..] && |t| <= |u| && t == u[..|t|]
    ensures lead + |t| <= |s| && s == s[..lead] + t + s[lead + |t|..]
    ensures s[lead + |t|..] == u[|t|..]
  {
    assert s == s[..lead] + u;
    assert u == t + u[|t|..];
  }

  lemma AllWhiteSlice(s: string, i: nat, j: nat)
    requires i <= j <= |s| && forall k :: i <= k < j ==> IsWhite(s[k])
    ensures AllWhite(s[i..j]) && (j == |s| ==> AllWhite(s[i..]))
  {
    assert forall k :: 0 <= k < j - i ==> s[i..j][k] == s[i + k];
  }

  /** Trimmed text has no white space at either end. */
  lemma TrimEnds(s: string)
    ensures Trim(s) == [] || (!IsWhite(Trim(s)[0]) && !IsWhite(Trim(s)[|Trim(s)| - 1]))
  {
    var u := TrimStart(s);
    if Trim(s) != [] {
      assert Trim(s)[0] == u[0];
    }
  }

  /** The NUL characters .NET number parsing lets follow a number
      (its `TrailingZeros` step), dropped from the end. */
  function DropTrailingNul(s: string): (t: string)
    ensures |t| <= |s| && t == s[..|t|]
    ensures t == [] || t[|t| - 1] != '\0'
    ensures forall k :: |t| <= k < |s| ==> s[k] == '\0'
  {
    if s != [] && s[|s| - 1] == '\0' then DropTrailingNul(s[..|s| - 1]) else s
  }

  /** The numeral the .NET parsers read: the text without its trailing NUL
      characters and without the white space around it. */
  function NumberText(s: string): string {
    Trim(DropTrailingNul(s))
  }

  /** `data[i].ToString("X2")`: exactly two upper-case hex digits. */
  function X2(b: byte): (r: string)
    ensures |r| == 2 && IsUpperHexDigit(r[0]) && IsUpperHexDigit(r[1])
    ensures AllHex(r) && !IsWhite(r[0]) && !IsWhite(r[1])
  {
    [HexDigit(b / 16), HexDigit(b % 16)]
  }

  /** The two digits `X2` writes denote the byte: the high nibble first. */
  lemma X2Value(b: byte)
    ensures HexValue(X2(b)) == b
  {
    var r := X2(b);
    assert r[..1] == [r[0]] && r[..1][..0] == [];
    assert HexValue(r[..1]) == b / 16;
  }

  /** The two exceptions `byte.Parse` throws. */
  datatype ParseError = FormatError | OverflowError

  /** `byte.Parse(s, NumberStyles.HexNumber)`: white space may surround one or
      more hex digits of either case, with no sign and no `0x` prefix, and NUL
      characters may follow; a value above 255 overflows. */
  function ParseByteHex(s: string): (r: Result<byte, ParseError>)
    ensures r.Ok? <==> NumberText(s) != [] && AllHex(NumberText(s)) && HexValue(NumberText(s)) < 256
    ensures r.Ok? ==> r.value == HexValue(NumberText(s))
  {
    var t := NumberText(s);
    if t == [] || !AllHex(t) then Err(FormatError)
    else if HexValue(t) > 255 then Err(OverflowError)
    else Ok(HexValue(t))
  }

  /** `int.TryParse(s, out v)` with `NumberStyles.Integer`: white space may
      surround an optional sign followed by one or more decimal digits, and
      NUL characters may follow; the value must fit in 32 bits; null never
      parses. */
  function TryParseInt32(s: Option<string>): (r: Option<int>)
    ensures r.Some? ==> Int32Min <= r.value <= Int32Max
    ensures s.None? ==> r.None?
  {
    match s
    case None => None
    case Some(text) => ParseTrimmedInt32(NumberText(text))
  }

  /** `int.TryParse` once the surrounding white space is skipped: an
      optional sign, then one or more decimal digits, in the 32-bit range. */
  function ParseTrimmedInt32(t: string): (r: Option<int>)
    ensures r.Some? ==> Int32Min <= r.value <= Int32Max
  {
    var signed := t != [] && (t[0] == '-' || t[0] == '+');
    var digits := if signed then t[1..] else t;
    if digits == [] || !AllDecimal(digits) then None
    else
      var v: int := if signed && t[0] == '-' then -(DecimalValue(digits) as int) else DecimalValue(digits);
      if Int32Min <= v <= Int32Max then Some(v) else None
  }

  /** A string with no white space at either end and no NUL at its end is
      read by the parsers as it stands. */
  lemma TrimUnpadded(s: string)
    requires s != [] && !IsWhite(s[0]) && !IsWhite(s[|s| - 1]) && s[|s| - 1] != '\0'
    ensures NumberText(s) == s
  {
  }

  /** Of the two exceptions, overflow is thrown exactly for a well-formed
      numeral above 255. */
  lemma ParseByteHexOverflow(s: string)
    ensures ParseByteHex(s) == Err(OverflowError) <==>
      NumberText(s) != [] && AllHex(NumberText(s)) && HexValue(NumberText(s)) > 255
  {
  }

  /** NUL characters after a hex numeral are ignored: "A\0" parses like "A". */
  lemma ParseTrailingNul(s: string, k: nat)
    requires s == [] || s[|s| - 1] != '\0'
    ensures ParseByteHex(s + seq(k, _ => '\0')) == ParseByteHex(s)
  {
    DropNulSuffix(s, k);
  }

  lemma {:induction false} DropNulSuffix(s: string, k: nat)
    requires s == [] || s[|s| - 1] != '\0'
    ensures DropTrailingNul(s + seq(k, _ => '\0')) == s
  {
    if k > 0 {
      var z := s + seq(k, _ => '\0');
      assert z[..|z| - 1] == s + seq(k - 1, _ => '\0');
      DropNulSuffix(s, k - 1);
    } else {
      assert s + seq(0, _ => '\0') == s;
    }
  }

  /** A leading zero never changes the value of a hex numeral. */
  lemma {:induction false} HexValueLeadingZero(ds: string)
    requires AllHex(ds)
    ensures AllHex(['0'] + ds) && HexValue(['0'] + ds) == HexValue(ds)
  {
    var z := ['0'] + ds;
    if ds != [] {
      assert z[..|z| - 1] == ['0'] + ds[..|ds| - 1];
      HexValueLeadingZero(ds[..|ds| - 1]);
    } else {
      assert z[..|z| - 1] == [];
    }
  }

  /** Every byte written with "X2" parses back to itself. */
  lemma ParseX2(b: byte)
    ensures ParseByteHex(X2(b)) == Ok(b)
  {
    TrimUnpadded(X2(b));
    X2Value(b);
  }

  /** One-digit tokens are accepted: "A" is 0x0A. */
  lemma ParseSingleDigit(c: char)
    requires IsHexDigit(c)
    ensures ParseByteHex([c]) == Ok(HexDigitValue(c))
  {
    TrimUnpadded([c]);
    assert [c][..0] == [];
    assert HexValue([c]) == HexDigitValue(c);
  }

  /** Leading zeros are accepted: "00FF" parses like "FF". */
  lemma ParseLeadingZero(ds: string)
    requires ds != [] && AllHex(ds)
    ensures ParseByteHex(['0'] + ds) == ParseByteHex(ds)
  {
    TrimUnpadded(ds);
    TrimUnpadded(['0'] + ds);
    HexValueLeadingZero(ds);
  }

  lemma {:induction false} DecimalValueOfDecimal(n: nat)
    ensures DecimalValue(Decimal(n)) == n
  {
    if n >= 10 {
      var s := Decimal(n);
      assert s[..|s| - 1] == Decimal(n / 10);
      DecimalValueOfDecimal(n / 10);
    }
  }

  /** A decimal numeral parses to its value when that fits in 32 bits and
      does not parse otherwise. */
  lemma ParseUnsignedDecimal(n: nat)
    ensures TryParseInt32(Some(Decimal(n))) == if n <= Int32Max then Some(n) else None
  {
    var d := Decimal(n);
    TrimUnpadded(d);
    DecimalValueOfDecimal(n);
    assert ParseTrimmedInt32(d) == if n <= Int32Max then Some(n) else None;
  }

  /** A minus sign followed by digits parses to the negated digits' value
      when that is not below the 32-bit range. */
  lemma ParseMinusDigits(t: string)
    requires |t| > 1 && t[0] == '-' && AllDecimal(t[1..])
    ensures ParseTrimmedInt32(t) ==
      if -(DecimalValue(t[1..]) as int) >= Int32Min then Some(-(DecimalValue(t[1..]) as int)) else None
  {
    var v: int := -(DecimalValue(t[1..]) as int);
    assert v <= Int32Max;
  }

  /** A minus sign in front of a decimal numeral negates its value, down to
      the least 32-bit value. */
  lemma ParseNegativeDecimal(n: nat)
    ensures TryParseInt32(Some("-" + Decimal(n))) == if n <= -Int32Min then Some(-(n as int)) else None
  {
    var d := Decimal(n);
    var t := "-" + d;
    assert t[0] == '-' && t[|t| - 1] == d[|d| - 1] && t[1..] == d;
    TrimUnpadded(t);
    ParseMinusDigits(t);
    DecimalValueOfDecimal(n);
  }

  /** Every 32-bit value written in decimal parses back to itself, and a
      numeral above the 32-bit range does not parse at all. */
  lemma TryParseInt32Decimal(n: nat)
    ensures n <= Int32Max ==> TryParseInt32(Some(Decimal(n))) == Some(n)
    ensures n <= -Int32Min ==> TryParseInt32(Some("-" + Decimal(n))) == Some(-(n as int))
    ensures n > Int32Max ==> TryParseInt32(Some(Decimal(n))).None?
  {
    ParseUnsignedDecimal(n);
    ParseNegativeDecimal(n);
  }
}
