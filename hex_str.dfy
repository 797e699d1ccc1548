/** Serial.Core/HexStr.cs: the hex text form of a byte payload and its parser.
    `Format` writes two upper-case digits per byte, sixteen bytes to a row,
    one space between the bytes of a row and a line break between rows;
    `Parse` cuts a string at space, tab, CR and LF, skips the empty pieces
    and reads every other piece as one hex byte. */
module HexStr {
  import opened Base
  import opened NetText

  // ---------------------------------------------------------------------
  // Format

  /** What `Format` writes in front of byte `i`: nothing before the first
      byte, a line break before every later multiple of 16, a space otherwise. */
  function Gap(i: nat): (g: string)
    ensures i == 0 ==> g == ""
    ensures i != 0 && i % 16 == 0 ==> g == NewLine
    ensures i % 16 != 0 ==> g == " "
  {
    if i % 16 == 0 then (if i == 0 then "" else NewLine) else " "
  }

  /** The text `Format` builds for `data`, one byte at a time from the left. */
  function Formatted(data: seq<byte>): string {
    if data == [] then ""
    else
      var n := |data| - 1;
      Formatted(data[..n]) + Gap(n) + X2(data[n])
  }

  /** The position at which the two digits of byte `i` start: the bytes before
      it take two characters each, every gap one more, and every line break
      (the CR-LF pair, one per full row before it) one more again. */
  function Offset(i: nat): nat {
    3 * i + i / 16
  }

  method Format(data: seq<byte>) returns (s: string)
    ensures s == Formatted(data)
  {
    s := "";
    var i := 0;
    while i < |data|
      invariant 0 <= i <= |data|
      invariant s == Formatted(data[..i])
    {
      if i % 16 == 0 {
        if i != 0 {
          s := s + NewLine;
        }
      } else {
        s := s + " ";
      }
      s := s + X2(data[i]);
      FormattedStep(data, i);
      i := i + 1;
    }
    assert data[..|data|] == data;
  }

  /** One more byte adds its gap and its two digits. */
  lemma FormattedStep(data: seq<byte>, i: nat)
    requires i < |data|
    ensures Formatted(data[..i + 1]) == Formatted(data[..i]) + Gap(i) + X2(data[i])
  {
    assert data[..i + 1][..i] == data[..i];
  }

  /** The text of a payload's first `k` bytes is the start of the payload's text. */
  lemma {:induction false} FormattedPrefix(data: seq<byte>, k: nat)
    requires k <= |data|
    ensures Formatted(data[..k]) <= Formatted(data)
  {
    if k < |data| {
      var n := |data| - 1;
      assert data[..n][..k] == data[..k];
      FormattedPrefix(data[..n], k);
      PrefixOfAppend(Formatted(data[..k]), Formatted(data[..n]), Gap(n) + X2(data[n]));
      assert Formatted(data) == Formatted(data[..n]) + (Gap(n) + X2(data[n]));
    } else {
      assert data[..k] == data;
    }
  }

  /** A prefix stays a prefix when more is appended. */
  lemma PrefixOfAppend(a: string, b: string, c: string)
    requires a <= b
    ensures a <= b + c
  {
    assert (b + c)[..|a|] == b[..|a|];
  }

  /** Byte `n` starts right after byte `n - 1`'s two digits and its own gap. */
  lemma OffsetStep(n: nat)
    requires n > 0
    ensures Offset(n - 1) + 2 + |Gap(n)| == Offset(n)
  {
    var q, r := n / 16, n % 16;
    assert n == 16 * q + r;
    if r == 0 {
      assert n - 1 == 16 * (q - 1) + 15;
    } else {
      assert n - 1 == 16 * q + (r - 1);
    }
  }

  /** `Format` of n > 0 bytes is 3n - 1 characters plus one for every line
      break: there is no trailing space or line break, and `Format` of no
      bytes is the empty string. */
  lemma {:induction false} FormattedLength(data: seq<byte>)
    ensures |Formatted(data)| == if data == [] then 0 else Offset(|data| - 1) + 2
  {
    if data != [] {
      var n := |data| - 1;
      FormattedLength(data[..n]);
      if n > 0 {
        OffsetStep(n);
      }
    }
  }

  /** The last byte's digits end the text, right after its gap. */
  lemma LastLayout(data: seq<byte>)
    requires data != []
    ensures var n, f := |data| - 1, Formatted(data);
      && |f| == Offset(n) + 2 && |Gap(n)| <= Offset(n)
      && f[Offset(n)..] == X2(data[n])
      && f[Offset(n) - |Gap(n)|..Offset(n)] == Gap(n)
  {
    var n := |data| - 1;
    var front := Formatted(data[..n]);
    FormattedLength(data[..n]);
    if n > 0 {
      OffsetStep(n);
    }
    assert |front| + |Gap(n)| == Offset(n);
    var f := Formatted(data);
    assert f == front + Gap(n) + X2(data[n]);
    assert f[|front| + |Gap(n)|..] == X2(data[n]);
    assert f[|front|..|front| + |Gap(n)|] == Gap(n);
  }

  /** The layout of `Format`: byte `i` stands at `Offset(i)` as its two "X2"
      digits, and right in front of it stands its gap, so the text consists of
      exactly the bytes and gaps in order. */
  lemma FormattedLayout(data: seq<byte>, i: nat)
    requires i < |data|
    ensures Offset(i) + 2 <= |Formatted(data)|
    ensures Formatted(data)[Offset(i)..Offset(i) + 2] == X2(data[i])
    ensures |Gap(i)| <= Offset(i)
    ensures Formatted(data)[Offset(i) - |Gap(i)|..Offset(i)] == Gap(i)
  {
    var p := data[..i + 1];
    LastLayout(p);
    FormattedPrefix(data, i + 1);
    var f := Formatted(p);
    SliceOfPrefix(f, Formatted(data), Offset(i), Offset(i) + 2);
    SliceOfPrefix(f, Formatted(data), Offset(i) - |Gap(i)|, Offset(i));
  }

  /** A slice that lies within a prefix is the same slice of the whole. */
  lemma SliceOfPrefix(f: string, g: string, lo: nat, hi: nat)
    requires f <= g && lo <= hi <= |f|
    ensures g[lo..hi] == f[lo..hi]
  {
    assert g[..|f|] == f;
  }

  // ---------------------------------------------------------------------
  // Parse

  /** The characters `Parse` splits at. */
  predicate IsSeparator(c: char) {
    c == ' ' || c == '\t' || c == '\r' || c == '\n'
  }

  /** `s.Split(new char[] { ' ', '\t', '\r', '\n' })`: every separator ends a
      piece, so the pieces, empty ones included, are one more than the
      separators, and no piece holds a separator. */
  function Split(s: string): (pieces: seq<string>)
    ensures |pieces| >= 1
  {
    if s == [] then [""]
    else
      var rest := Split(s[1..]);
      if IsSeparator(s[0]) then [""] + rest
      else [[s[0]] + rest[0]] + rest[1..]
  }

  /** The pieces that are not empty, in order. */
  function NonEmpty(pieces: seq<string>): (words: seq<string>)
    ensures |words| <= |pieces|
  {
    if pieces == [] then []
    else
      var n := |pieces| - 1;
      NonEmpty(pieces[..n]) + (if pieces[n] == "" then [] else [pieces[n]])
  }

  /** The tokens are exactly the pieces that are not empty. */
  lemma {:induction false} NonEmptyMembers(pieces: seq<string>)
    ensures forall w :: w in NonEmpty(pieces) <==> w in pieces && w != ""
  {
    if pieces != [] {
      var n := |pieces| - 1;
      NonEmptyMembers(pieces[..n]);
      assert pieces == pieces[..n] + [pieces[n]];
    }
  }

  /** The tokens `Parse` reads. */
  function Words(s: string): seq<string> {
    NonEmpty(Split(s))
  }

  /** Reads the tokens from the left and stops at the first that
      `byte.Parse` rejects. */
  function ParseWords(words: seq<string>): (r: Result<seq<byte>, ParseError>)
    ensures r.Ok? ==> |r.value| == |words|
  {
    if words == [] then Ok([])
    else
      var n := |words| - 1;
      match ParseWords(words[..n])
      case Err(e) => Err(e)
      case Ok(bs) =>
        match ParseByteHex(words[n])
        case Err(e) => Err(e)
        case Ok(b) => Ok(bs + [b])
  }

  /** What `Parse` returns for `hexStr`, or the exception it throws. */
  function Parsed(hexStr: string): Result<seq<byte>, ParseError> {
    ParseWords(Words(hexStr))
  }

  method Parse(hexStr: string) returns (r: Result<seq<byte>, ParseError>)
    ensures r == Parsed(hexStr)
  {
    var items := Split(hexStr);
    var data: seq<byte> := [];
    var k := 0;
    while k < |items|
      invariant 0 <= k <= |items|
      invariant ParseWords(NonEmpty(items[..k])) == Ok(data)
    {
      var item := items[k];
      var words := NonEmpty(items[..k]);
      assert items[..k + 1][..k] == items[..k];
      if item == "" {
        assert NonEmpty(items[..k + 1]) == words + [];
        assert words + [] == words;
      } else {
        assert NonEmpty(items[..k + 1]) == words + [item];
        assert (words + [item])[..|words|] == words;
        var b := ParseByteHex(item);
        if b.Err? {
          ParseErrorPersists(items, k + 1);
          return Err(b.error);
        }
        data := data + [b.value];
      }
      k := k + 1;
    }
    assert items[..k] == items;
    r := Ok(data);
  }

  /** Once a token throws, the pieces after it are never read. */
  lemma {:induction false} ParseErrorPersists(items: seq<string>, j: nat)
    requires j <= |items| && ParseWords(NonEmpty(items[..j])).Err?
    ensures ParseWords(NonEmpty(items)) == ParseWords(NonEmpty(items[..j]))
    decreases |items|
  {
    if j == |items| {
      assert items[..j] == items;
    } else {
      var n := |items| - 1;
      assert items[..n][..j] == items[..j];
      ParseErrorPersists(items[..n], j);
      var words := NonEmpty(items[..n]);
      if items[n] == "" {
        assert NonEmpty(items) == words + [];
        assert words + [] == words;
      } else {
        assert NonEmpty(items) == words + [items[n]];
        assert (words + [items[n]])[..|words|] == words;
      }
    }
  }

  /** Dropping empty pieces commutes with joining two runs of pieces. */
  lemma {:induction false} NonEmptyAppend(a: seq<string>, b: seq<string>)
    ensures NonEmpty(a + b) == NonEmpty(a) + NonEmpty(b)
    decreases |b|
  {
    if b == [] {
      assert a + b == a;
    } else {
      var n := |b| - 1;
      assert (a + b)[..|a| + n] == a + b[..n];
      assert (a + b)[|a| + n] == b[n];
      NonEmptyAppend(a, b[..n]);
      var last: seq<string> := if b[n] == "" then [] else [b[n]];
      assert NonEmpty(a) + NonEmpty(b[..n]) + last == NonEmpty(a) + (NonEmpty(b[..n]) + last);
    }
  }

  /** Splitting at a separator splits the text in two. */
  lemma {:induction false} SplitAtSeparator(u: string, c: char, v: string)
    requires IsSeparator(c)
    ensures Split(u + [c] + v) == Split(u) + Split(v)
  {
    if u == [] {
      assert u + [c] + v == [c] + v;
      assert ([c] + v)[1..] == v;
    } else {
      var w := u + [c] + v;
      assert w[0] == u[0] && w[1..] == u[1..] + [c] + v;
      SplitAtSeparator(u[1..], c, v);
    }
  }

  /** Text with no separator is a single piece. */
  lemma {:induction false} SplitPlain(t: string)
    requires forall k :: 0 <= k < |t| ==> !IsSeparator(t[k])
    ensures Split(t) == [t]
  {
    if t != [] {
      SplitPlain(t[1..]);
      assert [t[0]] + t[1..] == t;
    }
  }

  /** A separator between two texts contributes no token, so runs of
      separators and separators at either end add no bytes. */
  lemma WordsAtSeparator(u: string, c: char, v: string)
    requires IsSeparator(c)
    ensures Words(u + [c] + v) == Words(u) + Words(v)
  {
    SplitAtSeparator(u, c, v);
    NonEmptyAppend(Split(u), Split(v));
  }

  /** The tokens of `Format`'s text are the "X2" forms of the bytes, in order. */
  lemma {:induction false} WordsOfFormatted(data: seq<byte>)
    ensures Words(Formatted(data)) == seq(|data|, i requires 0 <= i < |data| => X2(data[i]))
  {
    if data != [] {
      var n := |data| - 1;
      var x := X2(data[n]);
      var tokens := seq(|data|, i requires 0 <= i < |data| => X2(data[i]));
      var frontTokens := seq(n, i requires 0 <= i < n => X2(data[..n][i]));
      assert tokens == frontTokens + [x];
      WordsOfFormatted(data[..n]);
      WordsAfterGap(Formatted(data[..n]), n, x);
    }
  }

  /** A byte's digits after its gap add exactly one token. */
  lemma WordsAfterGap(front: string, n: nat, x: string)
    requires |x| == 2 && IsUpperHexDigit(x[0]) && IsUpperHexDigit(x[1])
    requires n == 0 ==> front == []
    ensures Words(front + Gap(n) + x) == Words(front) + [x]
  {
    SplitPlain(x);
    assert Words(x) == NonEmpty([x]) == [x];
    if n == 0 {
      assert front + Gap(n) + x == x;
      assert Words(front) == [];
    } else if n % 16 == 0 {
      assert front + Gap(n) + x == front + ['\r'] + (['\n'] + x);
      WordsAtSeparator(front, '\r', ['\n'] + x);
      assert ['\n'] + x == [] + ['\n'] + x;
      WordsAtSeparator([], '\n', x);
      assert Words([]) == [];
    } else {
      assert front + Gap(n) + x == front + [' '] + x;
      WordsAtSeparator(front, ' ', x);
    }
  }

  /** When every token parses, `Parse` yields their bytes, one per token. */
  lemma {:induction false} ParseWordsAllOk(words: seq<string>)
    requires forall i :: 0 <= i < |words| ==> ParseByteHex(words[i]).Ok?
    ensures ParseWords(words).Ok?
    ensures forall i :: 0 <= i < |words| ==> ParseWords(words).value[i] == ParseByteHex(words[i]).value
  {
    if words != [] {
      var n := |words| - 1;
      var front := words[..n];
      assert forall i :: 0 <= i < n ==> front[i] == words[i];
      ParseWordsAllOk(front);
      ParseWordsLast(words);
      ValuesExtend(words, ParseWords(front).value, ParseByteHex(words[n]).value);
    }
  }

  lemma ParseWordsLast(words: seq<string>)
    requires words != [] && ParseWords(words[..|words| - 1]).Ok? && ParseByteHex(words[|words| - 1]).Ok?
    ensures ParseWords(words) ==
      Ok(ParseWords(words[..|words| - 1]).value + [ParseByteHex(words[|words| - 1]).value])
  {
  }

  lemma ValuesExtend(words: seq<string>, bs: seq<byte>, b: byte)
    requires |words| == |bs| + 1
    requires forall i :: 0 <= i < |words| ==> ParseByteHex(words[i]).Ok?
    requires forall i :: 0 <= i < |bs| ==> bs[i] == ParseByteHex(words[..|bs|][i]).value
    requires b == ParseByteHex(words[|bs|]).value
    ensures forall i :: 0 <= i < |words| ==> (bs + [b])[i] == ParseByteHex(words[i]).value
  {
    forall i | 0 <= i < |words| ensures (bs + [b])[i] == ParseByteHex(words[i]).value {
      if i < |bs| {
        assert words[..|bs|][i] == words[i];
      }
    }
  }

  /** One token that does not parse makes `Parse` throw. */
  lemma {:induction false} ParseWordsSomeErr(words: seq<string>, j: nat)
    requires j < |words| && ParseByteHex(words[j]).Err?
    ensures ParseWords(words).Err?
  {
    var n := |words| - 1;
    if j < n {
      assert words[..n][j] == words[j];
      ParseWordsSomeErr(words[..n], j);
      assert ParseWords(words) == Err(ParseWords(words[..n]).error);
    } else {
      var last := ParseByteHex(words[n]);
      assert last.Err?;
    }
  }

  /** `Parse` reads one byte per token, in token order, and succeeds exactly
      when every token is a hex byte; otherwise it throws. */
  lemma ParseWordsOk(words: seq<string>)
    ensures ParseWords(words).Ok? <==> forall i :: 0 <= i < |words| ==> ParseByteHex(words[i]).Ok?
    ensures ParseWords(words).Ok? ==>
      |ParseWords(words).value| == |words| &&
      forall i :: 0 <= i < |words| ==> ParseWords(words).value[i] == ParseByteHex(words[i]).value
  {
    if forall i :: 0 <= i < |words| ==> ParseByteHex(words[i]).Ok? {
      ParseWordsAllOk(words);
    } else {
      var j :| 0 <= j < |words| && !ParseByteHex(words[j]).Ok?;
      ParseWordsSomeErr(words, j);
    }
  }

  /** The round trip: parsing `Format`'s text gives the bytes back, for every
      payload including the empty one. */
  lemma FormatParseRoundTrip(data: seq<byte>)
    ensures Parsed(Formatted(data)) == Ok(data)
  {
    var words := seq(|data|, i requires 0 <= i < |data| => X2(data[i]));
    WordsOfFormatted(data);
    forall i | 0 <= i < |words| ensures ParseByteHex(words[i]) == Ok(data[i]) {
      ParseX2(data[i]);
    }
    ParseWordsOk(words);
    assert ParseWords(words).value == data;
  }

  /** Parsing the empty string gives no bytes. */
  lemma ParseEmpty()
    ensures Parsed("") == Ok([])
  {
  }

  /** A separator at the front or the end of the text changes nothing. */
  lemma ParseIgnoresOuterSeparators(c: char, s: string)
    requires IsSeparator(c)
    ensures Parsed([c] + s) == Parsed(s)
    ensures Parsed(s + [c]) == Parsed(s)
  {
    WordsAtSeparator([], c, s);
    assert [] + [c] + s == [c] + s;
    WordsAtSeparator(s, c, []);
    assert s + [c] + [] == s + [c];
    assert Words([]) == [];
    assert Words([]) + Words(s) == Words(s);
    assert Words(s) + Words([]) == Words(s);
  }
}
