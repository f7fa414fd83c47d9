/** Go's double-quoted string syntax: what %q prints and what strconv.Unquote reads. */
module GoQuote {
  import opened Text

  // ---------------------------------------------------------------- hexadecimal digits

  function HexDigit(n: nat): char
    requires n < 16
  {
    "0123456789abcdef"[n]
  }

  function HexValue(c: char): Option<nat> {
    if '0' <= c <= '9' then Some(c as int - '0' as int)
    else if 'a' <= c <= 'f' then Some(c as int - 'a' as int + 10)
    else if 'A' <= c <= 'F' then Some(c as int - 'A' as int + 10)
    else None
  }

  function Hex(n: nat, width: nat): (s: string)
    ensures |s| == width
  {
    if width == 0 then "" else Hex(n / 16, width - 1) + [HexDigit(n % 16)]
  }

  function ReadHex(s: string, width: nat): Option<nat>
    requires width <= |s|
  {
    if width == 0 then Some(0)
    else
      var front, digit := ReadHex(s, width - 1), HexValue(s[width - 1]);
      if front.Some? && digit.Some? then Some(16 * front.value + digit.value) else None
  }

  function Pow16(width: nat): nat {
    if width == 0 then 1 else 16 * Pow16(width - 1)
  }

  lemma {:induction false} ReadHexOfHex(n: nat, width: nat, rest: string)
    requires n < Pow16(width)
    ensures ReadHex(Hex(n, width) + rest, width) == Some(n)
  {
    if width > 0 {
      var tail := [HexDigit(n % 16)] + rest;
      ReadHexOfHex(n / 16, width - 1, tail);
      assert Hex(n, width) + rest == Hex(n / 16, width - 1) + tail;
      assert (Hex(n, width) + rest)[width - 1] == HexDigit(n % 16);
      assert HexValue(HexDigit(n % 16)) == Some(n % 16);
    }
  }

  // ---------------------------------------------------------------- printing

  /** unicode.IsPrint below 0x80; `printable` stands for its tables above. */
  predicate IsPrint(c: char, printable: char -> bool) {
    if c < '\U{80}' then ' ' <= c <= '~' else printable(c)
  }

  function Letter(c: char): Option<char> {
    if c == '\U{07}' then Some('a')
    else if c == '\U{08}' then Some('b')
    else if c == '\U{0C}' then Some('f')
    else if c == '\n' then Some('n')
    else if c == '\r' then Some('r')
    else if c == '\t' then Some('t')
    else if c == '\U{0B}' then Some('v')
    else None
  }

  function Escaped(c: char, printable: char -> bool): string {
    if c == '"' || c == '\\' then ['\\', c]
    else if IsPrint(c, printable) then [c]
    else if Letter(c).Some? then ['\\', Letter(c).value]
    else if c < ' ' || c == '\U{7F}' then "\\x" + Hex(c as int, 2)
    else if (c as int) < 0x10000 then "\\u" + Hex(c as int, 4)
    else "\\U" + Hex(c as int, 8)
  }

  function EscapedAll(s: string, printable: char -> bool): string {
    if s == "" then "" else Escaped(s[0], printable) + EscapedAll(s[1..], printable)
  }

  /** %q. */
  function Quoted(s: string, printable: char -> bool): string {
    "\"" + EscapedAll(s, printable) + "\""
  }

  /** The letters, the marks, and what stands for itself. */
  lemma ShortSpellings(c: char, printable: char -> bool)
    ensures Escaped('\n', printable) == "\\n" && Escaped('\r', printable) == "\\r" && Escaped('\t', printable) == "\\t"
    ensures Escaped('"', printable) == "\\\"" && Escaped('\\', printable) == "\\\\"
    ensures ' ' <= c <= '~' && c != '"' && c != '\\' ==> Escaped(c, printable) == [c]
    ensures c >= '\U{80}' && printable(c) ==> Escaped(c, printable) == [c]
  {
  }

  /** Everything else is spelled with two, four or eight lower-case hexadecimal digits. */
  lemma NumericSpellings(c: char, printable: char -> bool)
    requires c !in "\"\\\n\r\t\U{07}\U{08}\U{0B}\U{0C}"
    requires if c < '\U{80}' then c < ' ' || c > '~' else !printable(c)
    ensures var width := if c < '\U{80}' then 2 else if (c as int) < 0x10000 then 4 else 8;
            var s := Escaped(c, printable);
            && |s| == width + 2
            && s[..2] == (if width == 2 then "\\x" else if width == 4 then "\\u" else "\\U")
            && forall i :: 2 <= i < |s| ==> '0' <= s[i] <= '9' || 'a' <= s[i] <= 'f'
  {
    var width := if c < '\U{80}' then 2 else if (c as int) < 0x10000 then 4 else 8;
    HexIsLower(c as int, width);
  }

  lemma {:induction false} HexIsLower(n: nat, width: nat)
    ensures forall i :: 0 <= i < width ==> '0' <= Hex(n, width)[i] <= '9' || 'a' <= Hex(n, width)[i] <= 'f'
  {
    if width > 0 {
      HexIsLower(n / 16, width - 1);
    }
  }

  // ---------------------------------------------------------------- reading

  /** A character and the length of its spelling. */
  datatype Spelling = Spelling(c: char, length: nat)

  predicate IsScalar(n: nat) {
    n < 0xD800 || 0xE000 <= n < 0x110000
  }

  function FromDigits(value: Option<nat>, length: nat): Option<Spelling> {
    if value.Some? && IsScalar(value.value) then Some(Spelling(value.value as char, length)) else None
  }

  /** strconv.UnquoteChar inside double quotes. */
  function UnquoteChar(s: string): (r: Option<Spelling>)
    requires s != ""
    ensures r.Some? ==> 1 <= r.value.length <= |s|
  {
    if s[0] != '\\' then
      if s[0] == '\n' then None else Some(Spelling(s[0], 1))
    else if |s| < 2 then None
    else match s[1]
      case 'a' => Some(Spelling('\U{07}', 2))
      case 'b' => Some(Spelling('\U{08}', 2))
      case 'f' => Some(Spelling('\U{0C}', 2))
      case 'n' => Some(Spelling('\n', 2))
      case 'r' => Some(Spelling('\r', 2))
      case 't' => Some(Spelling('\t', 2))
      case 'v' => Some(Spelling('\U{0B}', 2))
      case 'x' => if |s| < 4 then None else FromDigits(ReadHex(s[2..], 2), 4)
      case 'u' => if |s| < 6 then None else FromDigits(ReadHex(s[2..], 4), 6)
      case 'U' => if |s| < 10 then None else FromDigits(ReadHex(s[2..], 8), 10)
      case '\\' => Some(Spelling('\\', 2))
      case '"' => Some(Spelling('"', 2))
      case _ => if |s| < 4 then None else FromDigits(ReadOctal(s[1], s[2], s[3]), 4)
  }

  function OctalValue(c: char): Option<nat> {
    if '0' <= c <= '7' then Some(c as int - '0' as int) else None
  }

  function ReadOctal(a: char, b: char, c: char): Option<nat> {
    var x, y, z := OctalValue(a), OctalValue(b), OctalValue(c);
    if x.Some? && y.Some? && z.Some? && x.value < 4 then Some(64 * x.value + 8 * y.value + z.value) else None
  }

  /** The text up to a closing quote that ends the input. */
  function ReadToQuote(s: string): Option<string>
    decreases |s|
  {
    if s == "" then None
    else if s[0] == '"' then
      if |s| == 1 then Some("") else None
    else
      var spelling := UnquoteChar(s);
      if spelling.None? then None
      else
        var rest := ReadToQuote(s[spelling.value.length..]);
        if rest.Some? then Some([spelling.value.c] + rest.value) else None
  }

  /** strconv.Unquote of a text that starts with a double quote. */
  function Unquote(s: string): Option<string>
    requires s != "" && s[0] == '"'
  {
    ReadToQuote(s[1..])
  }

  lemma UnquoteHex(c: char, mark: char, width: nat, rest: string)
    requires (mark == 'x' && width == 2) || (mark == 'u' && width == 4) || (mark == 'U' && width == 8)
    requires c as int < Pow16(width)
    ensures UnquoteChar("\\" + [mark] + Hex(c as int, width) + rest) == Some(Spelling(c, 2 + width))
  {
    var s := "\\" + [mark] + Hex(c as int, width) + rest;
    assert s[2..] == Hex(c as int, width) + rest;
    ReadHexOfHex(c as int, width, rest);
  }

  lemma Pow16Values()
    ensures Pow16(2) == 0x100 && Pow16(4) == 0x10000 && Pow16(8) == 0x1_0000_0000
  {
    assert Pow16(1) == 16 && Pow16(2) == 16 * Pow16(1) && Pow16(3) == 16 * Pow16(2) && Pow16(4) == 16 * Pow16(3);
    assert Pow16(5) == 16 * Pow16(4) && Pow16(6) == 16 * Pow16(5) && Pow16(7) == 16 * Pow16(6);
  }

  /** Every spelling is read back, whatever follows it, and none starts like the closing quote. */
  lemma UnquoteCharOfEscaped(c: char, printable: char -> bool, rest: string)
    ensures var s := Escaped(c, printable);
            && s != "" && s[0] != '"'
            && UnquoteChar(s + rest) == Some(Spelling(c, |s|))
  {
    Pow16Values();
    var n := c as int;
    if c == '"' || c == '\\' || IsPrint(c, printable) || Letter(c).Some? {
    } else if c < ' ' || c == '\U{7F}' {
      UnquoteHex(c, 'x', 2, rest);
      assert "\\x" + Hex(n, 2) + rest == "\\" + ['x'] + Hex(n, 2) + rest;
    } else if n < 0x10000 {
      UnquoteHex(c, 'u', 4, rest);
      assert "\\u" + Hex(n, 4) + rest == "\\" + ['u'] + Hex(n, 4) + rest;
    } else {
      UnquoteHex(c, 'U', 8, rest);
      assert "\\U" + Hex(n, 8) + rest == "\\" + ['U'] + Hex(n, 8) + rest;
    }
  }

  lemma {:induction false} ReadEscaped(s: string, printable: char -> bool)
    ensures ReadToQuote(EscapedAll(s, printable) + "\"") == Some(s)
  {
    if s != "" {
      var head, tail := Escaped(s[0], printable), EscapedAll(s[1..], printable) + "\"";
      UnquoteCharOfEscaped(s[0], printable, tail);
      ReadEscaped(s[1..], printable);
      assert EscapedAll(s, printable) + "\"" == head + tail;
      assert (head + tail)[|head|..] == tail;
      assert [s[0]] + s[1..] == s;
    } else {
      assert EscapedAll(s, printable) + "\"" == "\"";
    }
  }

  /** Unquoting a quoted text gives the text back, whichever characters count as printable. */
  lemma UnquoteOfQuoted(s: string, printable: char -> bool)
    ensures Unquote(Quoted(s, printable)) == Some(s)
  {
    ReadEscaped(s, printable);
    assert Quoted(s, printable)[1..] == EscapedAll(s, printable) + "\"";
  }

  lemma {:induction false} EscapedHasNoNewline(s: string, printable: char -> bool)
    ensures '\n' !in EscapedAll(s, printable)
  {
    if s != "" {
      EscapedHasNoNewline(s[1..], printable);
      HexHasNoNewline(s[0] as int, 2);
      HexHasNoNewline(s[0] as int, 4);
      HexHasNoNewline(s[0] as int, 8);
    }
  }

  lemma {:induction false} HexHasNoNewline(n: nat, width: nat)
    ensures '\n' !in Hex(n, width)
  {
    if width > 0 {
      HexHasNoNewline(n / 16, width - 1);
    }
  }
}
