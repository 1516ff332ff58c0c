/**
 * The generator of the Mac Roman to UTF-8 lookup table: it splits the text of the
 * character list into tokens, builds the 256-entry table of escaped strings and lengths,
 * and prints both as C array initialisers.
 */
module MacRomanLut {
  import opened Bytes

  /** U+FFFD REPLACEMENT CHARACTER encoded in UTF-8 (RFC 3629 section 3). */
  const Unrecognised: seq<byte> := [0xEF, 0xBF, 0xBD]

  /** Tab, line feed and carriage return separate tokens. */
  predicate IsSeparator(b: byte) {
    b == 9 || b == 10 || b == 13
  }

  // ---------------------------------------------------------------------------
  // Tokenising

  function Flush(accum: seq<byte>): seq<seq<byte>> {
    if |accum| > 0 then [accum] else []
  }

  /** The tokens of `rest` when `accum` holds the bytes of the token read so far. */
  function TokensFrom(accum: seq<byte>, rest: seq<byte>): seq<seq<byte>>
    decreases |rest|
  {
    if |rest| == 0 then Flush(accum)
    else if IsSeparator(rest[0]) then Flush(accum) + TokensFrom([], rest[1..])
    else TokensFrom(accum + [rest[0]], rest[1..])
  }

  function Tokens(bs: seq<byte>): seq<seq<byte>> {
    TokensFrom([], bs)
  }

  /** The tokeniser loop of the generator. */
  method Tokenize(bs: seq<byte>) returns (strs: seq<seq<byte>>)
    ensures strs == Tokens(bs)
  {
    strs := [];
    var accum: seq<byte> := [];
    for i := 0 to |bs|
      invariant strs + TokensFrom(accum, bs[i..]) == Tokens(bs)
    {
      assert bs[i..][1..] == bs[i + 1..];
      if !IsSeparator(bs[i]) {
        accum := accum + [bs[i]];
      } else {
        if |accum| > 0 {
          strs := strs + [accum];
          accum := [];
        }
      }
    }
    assert bs[|bs|..] == [];
    if |accum| > 0 {
      strs := strs + [accum];
    }
  }

  predicate NoSeparator(t: seq<byte>) {
    forall k :: 0 <= k < |t| ==> !IsSeparator(t[k])
  }

  /** A token is a non-empty run of bytes that are not separators. */
  predicate WellFormedToken(t: seq<byte>) {
    |t| > 0 && NoSeparator(t)
  }

  lemma {:induction false} TokensFromWellFormed(accum: seq<byte>, rest: seq<byte>)
    requires NoSeparator(accum)
    ensures forall t :: t in TokensFrom(accum, rest) ==> WellFormedToken(t)
    decreases |rest|
  {
    if |rest| > 0 {
      if IsSeparator(rest[0]) {
        TokensFromWellFormed([], rest[1..]);
      } else {
        TokensFromWellFormed(accum + [rest[0]], rest[1..]);
      }
    }
  }

  /** Every token is non-empty and holds no separator. */
  lemma TokensWellFormed(bs: seq<byte>)
    ensures forall t :: t in Tokens(bs) ==> WellFormedToken(t)
  {
    TokensFromWellFormed([], bs);
  }

  /** The input with every separator removed. */
  function Strip(bs: seq<byte>): seq<byte> {
    if |bs| == 0 then []
    else if IsSeparator(bs[0]) then Strip(bs[1..])
    else [bs[0]] + Strip(bs[1..])
  }

  function Flatten(ts: seq<seq<byte>>): seq<byte> {
    if |ts| == 0 then [] else ts[0] + Flatten(ts[1..])
  }

  lemma {:induction false} FlattenAppend(a: seq<seq<byte>>, b: seq<seq<byte>>)
    ensures Flatten(a + b) == Flatten(a) + Flatten(b)
  {
    if |a| > 0 {
      assert (a + b)[1..] == a[1..] + b;
      FlattenAppend(a[1..], b);
    } else {
      assert a + b == b;
    }
  }

  lemma {:induction false} FlattenTokensFrom(accum: seq<byte>, rest: seq<byte>)
    ensures Flatten(TokensFrom(accum, rest)) == accum + Strip(rest)
    decreases |rest|
  {
    if |rest| == 0 {
      assert Flatten(Flush(accum)) == accum by {
        if |accum| > 0 {
          assert Flatten([accum]) == accum + Flatten([accum][1..]);
        }
      }
    } else if IsSeparator(rest[0]) {
      FlattenTokensFrom([], rest[1..]);
      FlattenAppend(Flush(accum), TokensFrom([], rest[1..]));
      assert Flatten(Flush(accum)) == accum by {
        if |accum| > 0 {
          assert Flatten([accum]) == accum + Flatten([accum][1..]);
        }
      }
      assert Strip(rest) == Strip(rest[1..]);
      assert [] + Strip(rest[1..]) == Strip(rest[1..]);
    } else {
      FlattenTokensFrom(accum + [rest[0]], rest[1..]);
      assert Strip(rest) == [rest[0]] + Strip(rest[1..]);
      assert accum + [rest[0]] + Strip(rest[1..]) == accum + ([rest[0]] + Strip(rest[1..]));
    }
  }

  /** No byte is lost or reordered: the tokens concatenate to the input without its separators. */
  lemma TokensCoverInput(bs: seq<byte>)
    ensures Flatten(Tokens(bs)) == Strip(bs)
  {
    FlattenTokensFrom([], bs);
  }

  /** A file holding one token per line. */
  function Lines(ts: seq<seq<byte>>): seq<byte> {
    if |ts| == 0 then [] else ts[0] + [10] + Lines(ts[1..])
  }

  lemma {:induction false} TokensFromRun(accum: seq<byte>, t: seq<byte>, rest: seq<byte>)
    requires NoSeparator(t)
    ensures TokensFrom(accum, t + rest) == TokensFrom(accum + t, rest)
    decreases |t|
  {
    if |t| > 0 {
      assert (t + rest)[0] == t[0];
      assert (t + rest)[1..] == t[1..] + rest;
      assert accum + [t[0]] + t[1..] == accum + t;
      TokensFromRun(accum + [t[0]], t[1..], rest);
    } else {
      assert t + rest == rest && accum + t == accum;
    }
  }

  /** Reading back a file of one token per line gives exactly those tokens. */
  lemma {:induction false} TokensOfLines(ts: seq<seq<byte>>)
    requires forall k :: 0 <= k < |ts| ==> WellFormedToken(ts[k])
    ensures Tokens(Lines(ts)) == ts
  {
    if |ts| > 0 {
      var rest := [10] + Lines(ts[1..]);
      assert Lines(ts) == ts[0] + rest;
      TokensFromRun([], ts[0], rest);
      assert [] + ts[0] == ts[0];
      assert rest[0] == 10 && rest[1..] == Lines(ts[1..]);
      TokensOfLines(ts[1..]);
      assert Tokens(Lines(ts)) == [ts[0]] + Tokens(Lines(ts[1..]));
    }
  }

  // ---------------------------------------------------------------------------
  // Escaping

  function HexDigit(d: int): char
    requires 0 <= d < 16
  {
    if d < 10 then (48 + d) as char else (87 + d) as char
  }

  /** One byte as the four characters of a C hexadecimal escape, `\x` and two lower-case digits. */
  function EscapeByte(b: byte): string {
    ['\\', 'x', HexDigit(b / 16), HexDigit(b % 16)]
  }

  function Escaped(bs: seq<byte>): string
    decreases |bs|
  {
    if |bs| == 0 then "" else Escaped(bs[..|bs| - 1]) + EscapeByte(bs[|bs| - 1])
  }

  /** The generator's `escapedString`. */
  method EscapedString(bs: seq<byte>) returns (s: string)
    ensures s == Escaped(bs)
  {
    s := "";
    for i := 0 to |bs|
      invariant s == Escaped(bs[..i])
    {
      assert bs[..i + 1][..i] == bs[..i];
      s := s + EscapeByte(bs[i]);
    }
    assert bs[..|bs|] == bs;
  }

  /** The value a C compiler gives a hexadecimal digit. */
  function HexValue(c: char): (v: int)
    ensures 0 <= v < 16
  {
    if '0' <= c <= '9' then c as int - 48
    else if 'a' <= c <= 'f' then c as int - 87
    else if 'A' <= c <= 'F' then c as int - 55
    else 0
  }

  /** The bytes a C compiler reads from a string literal made of `\xHH` escapes. */
  function CompileEscapes(s: string): seq<byte>
    requires |s| % 4 == 0
    decreases |s|
  {
    if |s| == 0 then []
    else CompileEscapes(s[..|s| - 4]) + [16 * HexValue(s[|s| - 2]) + HexValue(s[|s| - 1])]
  }

  lemma {:induction false} EscapedLength(bs: seq<byte>)
    ensures |Escaped(bs)| == 4 * |bs|
    decreases |bs|
  {
    if |bs| > 0 {
      EscapedLength(bs[..|bs| - 1]);
    }
  }

  lemma EscapeByteCompiles(b: byte)
    ensures 16 * HexValue(HexDigit(b / 16)) + HexValue(HexDigit(b % 16)) == b
  {
    assert HexValue(HexDigit(b / 16)) == b / 16;
    assert HexValue(HexDigit(b % 16)) == b % 16;
  }

  lemma CompileAppend(p: string, e: string)
    requires |p| % 4 == 0 && |e| == 4
    ensures |p + e| % 4 == 0
    ensures CompileEscapes(p + e) == CompileEscapes(p) + [16 * HexValue(e[2]) + HexValue(e[3])]
  {
    var s := p + e;
    assert s[..|s| - 4] == p;
    assert s[|s| - 2] == e[2] && s[|s| - 1] == e[3];
  }

  /** Compiling the printed literal gives back the bytes that were escaped. */
  lemma {:induction false} CompileEscaped(bs: seq<byte>)
    ensures |Escaped(bs)| % 4 == 0 && CompileEscapes(Escaped(bs)) == bs
    decreases |bs|
  {
    EscapedLength(bs);
    if |bs| > 0 {
      var init, last := bs[..|bs| - 1], bs[|bs| - 1];
      EscapedLength(init);
      CompileEscaped(init);
      CompileAppend(Escaped(init), EscapeByte(last));
      EscapeByteCompiles(last);
      assert init + [last] == bs;
    }
  }

  /** An escaped string holds only backslashes, `x` and hexadecimal digits: no quote and no white space. */
  lemma {:induction false} EscapedAlphabet(bs: seq<byte>)
    ensures forall k :: 0 <= k < |Escaped(bs)| ==> Escaped(bs)[k] !in {'"', ',', ' ', '\n', '\t'}
    decreases |bs|
  {
    if |bs| > 0 {
      EscapedAlphabet(bs[..|bs| - 1]);
    }
  }

  // ---------------------------------------------------------------------------
  // The table

  /** The UTF-8 bytes the table gives Mac Roman code `i`, when `strs` lists codes 128 onwards. */
  function Entry(strs: seq<seq<byte>>, i: int): seq<byte> {
    if 0 <= i < 32 || i == 127 then Unrecognised
    else if 32 <= i < 127 then [i]
    else if 128 <= i < 128 + |strs| then strs[i - 128]
    else []
  }

  function Charmap(strs: seq<seq<byte>>): seq<string> {
    seq(128 + |strs|, i => Escaped(Entry(strs, i)))
  }

  function Charlengths(strs: seq<seq<byte>>): seq<nat> {
    seq(128 + |strs|, i => |Entry(strs, i)|)
  }

  /** The table-building loops: control codes and DEL unrecognised, printable ASCII as itself, then the tokens. */
  method BuildTable(strs: seq<seq<byte>>) returns (charmap: seq<string>, charlengths: seq<nat>)
    ensures charmap == Charmap(strs) && charlengths == Charlengths(strs)
  {
    var unrecognisedEscape := EscapedString(Unrecognised);
    charmap, charlengths := [], [];
    for i := 0 to 32
      invariant |charmap| == |charlengths| == i
      invariant forall j :: 0 <= j < i ==> charmap[j] == Escaped(Entry(strs, j)) && charlengths[j] == |Entry(strs, j)|
    {
      charmap := charmap + [unrecognisedEscape];
      charlengths := charlengths + [|Unrecognised|];
    }
    for i := 32 to 127
      invariant |charmap| == |charlengths| == i
      invariant forall j :: 0 <= j < i ==> charmap[j] == Escaped(Entry(strs, j)) && charlengths[j] == |Entry(strs, j)|
    {
      var e := EscapedString([i]);
      charmap := charmap + [e];
      charlengths := charlengths + [1];
    }
    charmap := charmap + [unrecognisedEscape];
    charlengths := charlengths + [|Unrecognised|];
    for k := 0 to |strs|
      invariant |charmap| == |charlengths| == 128 + k
      invariant forall j :: 0 <= j < 128 + k ==> charmap[j] == Escaped(Entry(strs, j)) && charlengths[j] == |Entry(strs, j)|
    {
      var e := EscapedString(strs[k]);
      charmap := charmap + [e];
      charlengths := charlengths + [|strs[k]|];
    }
  }

  /**
   * Every code's entry in the generated tables, given the 128 tokens: both arrays have 256 entries,
   * the length entry is the byte length of the code's string, the escaped text takes four characters
   * per byte, and it compiles back to exactly that string.
   */
  lemma GeneratedEntries(strs: seq<seq<byte>>, i: int)
    requires |strs| == 128 && 0 <= i < 256
    ensures |Charmap(strs)| == 256 && |Charlengths(strs)| == 256
    ensures Charlengths(strs)[i] == |Entry(strs, i)|
    ensures |Charmap(strs)[i]| % 4 == 0
    ensures CompileEscapes(Charmap(strs)[i]) == Entry(strs, i)
  {
    CompileEscaped(Entry(strs, i));
  }

  // ---------------------------------------------------------------------------
  // Printing

  const Quote: string := "\""
  const Comma: string := ", "
  const RowBreak: string := "\n\t"

  /** One entry of the string array: the literal and the separator after it. */
  function Cell(e: string): string {
    Quote + e + Quote + Comma
  }

  /** The line break printed after an entry, or nothing. */
  function Break(b: bool): string {
    if b then RowBreak else ""
  }

  /** Printing a piece then a line break, in front of the rest of the rows. */
  lemma PrintedPiece(out: string, piece: string, brk: string, rest: string)
    ensures out + (piece + brk + rest) == (out + piece + brk) + rest
  {
  }

  /** The entries of the string array; a line break follows an entry once the running width reaches 55. */
  function CharmapRows(cm: seq<string>, linelen: int): string
    decreases |cm|
  {
    if |cm| == 0 then ""
    else
      var w := linelen + |cm[0]| + 4;
      Cell(cm[0]) + Break(w >= 55) + CharmapRows(cm[1..], if w >= 55 then 0 else w)
  }

  method PrintCharmap(cm: seq<string>) returns (out: string)
    ensures out == CharmapRows(cm, 0)
  {
    out := "";
    var linelen := 0;
    for i := 0 to |cm|
      invariant out + CharmapRows(cm[i..], linelen) == CharmapRows(cm, 0)
    {
      ghost var w := linelen + |cm[i]| + 4;
      ghost var rest := CharmapRows(cm[i + 1..], if w >= 55 then 0 else w);
      assert cm[i..][1..] == cm[i + 1..];
      assert CharmapRows(cm[i..], linelen) == Cell(cm[i]) + Break(w >= 55) + rest;
      PrintedPiece(out, Cell(cm[i]), Break(w >= 55), rest);
      linelen := linelen + |cm[i]| + 4;
      out := out + Cell(cm[i]);
      if linelen >= 55 {
        linelen := 0;
        out := out + RowBreak;
      } else {
        assert out + Break(w >= 55) == out;
      }
    }
  }

  function DigitChar(d: int): char
    requires 0 <= d < 10
  {
    (48 + d) as char
  }

  /** `%d` of a natural number. */
  function Decimal(n: nat): string
    decreases n
  {
    if n < 10 then [DigitChar(n)] else Decimal(n / 10) + [DigitChar(n % 10)]
  }

  /** The entries of the length array; a line break follows entry `i` when `i != 0 && i % 20 == 0`. */
  function LengthRows(ls: seq<nat>, i: nat): string
    decreases |ls|
  {
    if |ls| == 0 then ""
    else Decimal(ls[0]) + Comma + Break(i != 0 && i % 20 == 0) + LengthRows(ls[1..], i + 1)
  }

  method PrintLengths(ls: seq<nat>) returns (out: string)
    ensures out == LengthRows(ls, 0)
  {
    out := "";
    assert ls[0..] == ls;
    for i := 0 to |ls|
      invariant out + LengthRows(ls[i..], i) == LengthRows(ls, 0)
    {
      ghost var rest := LengthRows(ls[i + 1..], i + 1);
      ghost var brk := Break(i != 0 && i % 20 == 0);
      assert ls[i..][1..] == ls[i + 1..];
      var d := Decimal(ls[i]);
      assert LengthRows(ls[i..], i) == (d + Comma) + brk + rest;
      PrintedNumber(out, d, brk, rest);
      out := out + d + Comma;
      if i != 0 && i % 20 == 0 {
        out := out + RowBreak;
      } else {
        assert out + brk == out;
      }
    }
    assert ls[|ls|..] == [];
  }

  /** Printing a number and its comma, then a line break, in front of the rest of the rows. */
  lemma PrintedNumber(out: string, d: string, brk: string, rest: string)
    ensures out + ((d + Comma) + brk + rest) == (out + d + Comma) + brk + rest
  {
  }

  /** The whole C file the generator prints. */
  function HeaderText(strs: seq<seq<byte>>): string {
    "#include <stddef.h>\n\n"
      + "char* macroman_to_utf8[] = {\n\t" + CharmapRows(Charmap(strs), 0) + "};\n\n"
      + "size_t macroman_to_utf8_lengths[] = {\n\t" + LengthRows(Charlengths(strs), 0) + "};\n\n"
  }

  datatype Outcome = Generated(text: string) | WrongCharCount(count: nat) | WrongMapSize

  /** The generator's main program, given the contents of the character list. */
  method Generate(contents: seq<byte>) returns (r: Outcome)
    ensures |Tokens(contents)| != 128 <==> r == WrongCharCount(|Tokens(contents)|)
    ensures |Tokens(contents)| == 128 ==> r == Generated(HeaderText(Tokens(contents)))
  {
    var strs := Tokenize(contents);
    if |strs| != 128 {
      return WrongCharCount(|strs|);
    }
    var charmap, charlengths := BuildTable(strs);
    if |charmap| != 256 || |charlengths| != 256 {
      return WrongMapSize;
    }
    var text := "#include <stddef.h>\n\n";
    text := text + "char* macroman_to_utf8[] = {\n\t";
    var rows := PrintCharmap(charmap);
    text := text + rows + "};\n\n";
    text := text + "size_t macroman_to_utf8_lengths[] = {\n\t";
    var lrows := PrintLengths(charlengths);
    text := text + lrows + "};\n\n";
    return Generated(text);
  }

  // ---------------------------------------------------------------------------
  // Reading the printed arrays back

  predicate IsFiller(c: char) {
    c == ',' || c == ' ' || c == '\n' || c == '\t'
  }

  /** The characters of `s` before its first quote. */
  function UntilQuote(s: string): (r: string)
    ensures |r| <= |s|
  {
    if |s| == 0 || s[0] == '"' then "" else [s[0]] + UntilQuote(s[1..])
  }

  /** The string literals of an array initialiser, in order. */
  function StringLiterals(s: string): seq<string>
    decreases |s|
  {
    if |s| == 0 then []
    else if s[0] == '"' then
      var e := UntilQuote(s[1..]);
      [e] + StringLiterals(s[if 1 + |e| < |s| then 2 + |e| else |s|..])
    else StringLiterals(s[1..])
  }

  lemma {:induction false} UntilQuoteOf(e: string, rest: string)
    requires '"' !in e
    ensures UntilQuote(e + Quote + rest) == e
  {
    if |e| > 0 {
      assert (e + Quote + rest)[1..] == e[1..] + Quote + rest;
      UntilQuoteOf(e[1..], rest);
    }
  }

  lemma {:induction false} SkipFillerLiterals(f: string, rest: string)
    requires forall k :: 0 <= k < |f| ==> IsFiller(f[k])
    ensures StringLiterals(f + rest) == StringLiterals(rest)
  {
    if |f| > 0 {
      assert (f + rest)[1..] == f[1..] + rest;
      SkipFillerLiterals(f[1..], rest);
    } else {
      assert f + rest == rest;
    }
  }

  /** Reading the printed string array gives back every entry, whatever the line breaks. */
  lemma {:induction false} CharmapRowsRead(cm: seq<string>, linelen: int)
    requires forall k :: 0 <= k < |cm| ==> '"' !in cm[k]
    ensures StringLiterals(CharmapRows(cm, linelen)) == cm
    decreases |cm|
  {
    if |cm| > 0 {
      var w := linelen + |cm[0]| + 4;
      var next := if w >= 55 then 0 else w;
      var rest := CharmapRows(cm[1..], next);
      assert CharmapRows(cm, linelen) == Cell(cm[0]) + Break(w >= 55) + rest;
      CellRead(cm[0], w >= 55, rest);
      assert forall k :: 0 <= k < |cm[1..]| ==> cm[1..][k] == cm[k + 1];
      CharmapRowsRead(cm[1..], next);
    }
  }

  /** One printed entry reads back as its literal, and the reading goes on after the separator. */
  lemma CellRead(e: string, b: bool, rest: string)
    requires '"' !in e
    ensures StringLiterals(Cell(e) + Break(b) + rest) == [e] + StringLiterals(rest)
  {
    var f := Comma + Break(b);
    var s := Cell(e) + Break(b) + rest;
    assert s == Quote + (e + Quote + (f + rest));
    assert s[0] == '"';
    assert s[1..] == e + Quote + (f + rest);
    UntilQuoteOf(e, f + rest);
    assert s[2 + |e|..] == f + rest;
    SkipFillerLiterals(f, rest);
  }

  /** Reading the printed string array of the generated table and compiling each literal gives the table. */
  lemma CharmapReadsBack(strs: seq<seq<byte>>)
    ensures StringLiterals(CharmapRows(Charmap(strs), 0)) == Charmap(strs)
  {
    var cm := Charmap(strs);
    forall k | 0 <= k < |cm|
      ensures '"' !in cm[k]
    {
      EscapedAlphabet(Entry(strs, k));
    }
    CharmapRowsRead(cm, 0);
  }

  predicate IsDigit(c: char) {
    '0' <= c <= '9'
  }

  function DigitsPrefix(s: string): (r: string)
    ensures |r| <= |s|
  {
    if |s| == 0 || !IsDigit(s[0]) then "" else [s[0]] + DigitsPrefix(s[1..])
  }

  function DecimalValue(s: string): int
    decreases |s|
  {
    if |s| == 0 then 0 else 10 * DecimalValue(s[..|s| - 1]) + (s[|s| - 1] as int - 48)
  }

  /** The numbers of an array initialiser, in order. */
  function Numbers(s: string): seq<int>
    decreases |s|
  {
    if |s| == 0 then []
    else if IsDigit(s[0]) then
      var d := DigitsPrefix(s);
      [DecimalValue(d)] + Numbers(s[|d|..])
    else Numbers(s[1..])
  }

  lemma {:induction false} DecimalDigits(n: nat)
    ensures |Decimal(n)| > 0 && DecimalValue(Decimal(n)) == n
    ensures forall k :: 0 <= k < |Decimal(n)| ==> IsDigit(Decimal(n)[k])
    decreases n
  {
    if n >= 10 {
      DecimalDigits(n / 10);
      var s := Decimal(n);
      assert s[..|s| - 1] == Decimal(n / 10);
    }
  }

  lemma {:induction false} DigitsPrefixOf(d: string, rest: string)
    requires forall k :: 0 <= k < |d| ==> IsDigit(d[k])
    requires |rest| > 0 && !IsDigit(rest[0])
    ensures DigitsPrefix(d + rest) == d
  {
    if |d| > 0 {
      assert (d + rest)[1..] == d[1..] + rest;
      DigitsPrefixOf(d[1..], rest);
    }
  }

  lemma {:induction false} SkipFillerNumbers(f: string, rest: string)
    requires forall k :: 0 <= k < |f| ==> IsFiller(f[k])
    ensures Numbers(f + rest) == Numbers(rest)
  {
    if |f| > 0 {
      assert (f + rest)[1..] == f[1..] + rest;
      SkipFillerNumbers(f[1..], rest);
    } else {
      assert f + rest == rest;
    }
  }

  /** Reading the printed length array gives back every length, whatever the line breaks. */
  lemma {:induction false} LengthRowsRead(ls: seq<nat>, i: nat)
    ensures Numbers(LengthRows(ls, i)) == ls
    decreases |ls|
  {
    if |ls| > 0 {
      NumberRead(ls[0], i != 0 && i % 20 == 0, LengthRows(ls[1..], i + 1));
      LengthRowsRead(ls[1..], i + 1);
    }
  }

  /** One printed length reads back as its value, and the reading goes on after the separator. */
  lemma NumberRead(n: nat, b: bool, rest: string)
    ensures Numbers(Decimal(n) + Comma + Break(b) + rest) == [n] + Numbers(rest)
  {
    var d := Decimal(n);
    var f := Comma + Break(b);
    var s := d + Comma + Break(b) + rest;
    assert s == d + (f + rest);
    DecimalDigits(n);
    DigitsPrefixOf(d, f + rest);
    assert s[|d|..] == f + rest;
    SkipFillerNumbers(f, rest);
  }
}
