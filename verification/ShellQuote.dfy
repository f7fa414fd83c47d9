/** The shell quoting of exported values, read back by the quoting rules of the POSIX.1-2017 Shell
    Command Language. */
module ShellQuote {
  import opened Text

  /** quoteShellValue: each single quote closes the quoting, adds an escaped quote and opens it again. */
  function Quote(value: string): string {
    if value == "" then ""
    else (if value[0] == '\'' then "'\\''" else [value[0]]) + Quote(value[1..])
  }

  /** The line both printers render. */
  function Rendered(varName: string, value: string): string {
    "export " + varName + "='" + Quote(value) + "'"
  }

  // ---------------------------------------------------------------- the shell's reading

  /** Characters that stand for themselves outside quotes: letters, digits and a few more. Anything
      else outside quotes would need more of the shell language than this reader has. */
  predicate IsOrdinary(c: char) {
    'a' <= c <= 'z' || 'A' <= c <= 'Z' || '0' <= c <= '9' || c in "_=./:,@%+-"
  }

  /** One word of shell text with its quoting removed. Inside single quotes every character is
      literal up to the closing quote (section 2.2.2); outside, a backslash makes the next character
      literal, and a backslash before a newline is removed with it (section 2.2.1). */
  function ReadWord(text: string, quoted: bool): Option<string> {
    if text == "" then
      if quoted then None else Some("")
    else if text[0] == '\'' then
      ReadWord(text[1..], !quoted)
    else if quoted || IsOrdinary(text[0]) then
      Prefixed([text[0]], ReadWord(text[1..], quoted))
    else if text[0] == '\\' && |text| >= 2 then
      Prefixed(if text[1] == '\n' then "" else [text[1]], ReadWord(text[2..], false))
    else
      None
  }

  function Prefixed(front: string, rest: Option<string>): Option<string> {
    if rest.Some? then Some(front + rest.value) else None
  }

  lemma ReadQuoteMark(rest: string, quoted: bool)
    ensures ReadWord("'" + rest, quoted) == ReadWord(rest, !quoted)
  {
    assert ("'" + rest)[1..] == rest;
  }

  lemma ReadPlain(c: char, rest: string, quoted: bool)
    requires c != '\'' && (quoted || IsOrdinary(c))
    ensures ReadWord([c] + rest, quoted) == Prefixed([c], ReadWord(rest, quoted))
  {
    assert ([c] + rest)[1..] == rest;
  }

  lemma ReadEscapedQuote(rest: string)
    ensures ReadWord("\\'" + rest, false) == Prefixed("'", ReadWord(rest, false))
  {
    assert ("\\'" + rest)[2..] == rest;
  }

  lemma {:induction false} ReadQuoted(value: string)
    ensures ReadWord(Quote(value) + "'", true) == Some(value)
  {
    if value == "" {
      assert Quote(value) + "'" == "'" + "";
      ReadQuoteMark("", true);
    } else {
      ReadQuoted(value[1..]);
      var rest := Quote(value[1..]) + "'";
      if value[0] == '\'' {
        assert Quote(value) + "'" == "'" + ("\\'" + ("'" + rest));
        ReadQuoteMark("\\'" + ("'" + rest), true);
        ReadEscapedQuote("'" + rest);
        ReadQuoteMark(rest, false);
      } else {
        assert Quote(value) + "'" == [value[0]] + rest;
        ReadPlain(value[0], rest, true);
      }
      assert [value[0]] + value[1..] == value;
    }
  }

  predicate IsOrdinaryText(s: string) {
    forall i :: 0 <= i < |s| ==> IsOrdinary(s[i])
  }

  lemma PrefixedTwice(c: char, front: string, read: Option<string>)
    ensures Prefixed([c], Prefixed(front, read)) == Prefixed([c] + front, read)
  {
    if read.Some? {
      SeqAssoc([c], front, read.value);
    }
  }

  lemma PrefixedNone(read: Option<string>)
    ensures Prefixed("", read) == read
  {
    if read.Some? {
      assert "" + read.value == read.value;
    }
  }

  lemma {:induction false} ReadOrdinary(front: string, rest: string)
    requires IsOrdinaryText(front)
    ensures ReadWord(front + rest, false) == Prefixed(front, ReadWord(rest, false))
  {
    var read := ReadWord(rest, false);
    if front == "" {
      assert front + rest == rest;
      PrefixedNone(read);
    } else {
      ReadOrdinary(front[1..], rest);
      assert front + rest == [front[0]] + (front[1..] + rest);
      ReadPlain(front[0], front[1..] + rest, false);
      PrefixedTwice(front[0], front[1..], read);
      assert [front[0]] + front[1..] == front;
    }
  }

  /** The shell reads the rendered assignment as exactly the variable and the value, for every value. */
  lemma RenderedReadsBack(varName: string, value: string)
    requires IsOrdinaryText(varName)
    ensures Rendered(varName, value)[..7] == "export "
    ensures ReadWord(Rendered(varName, value)[7..], false) == Some(varName + "=" + value)
  {
    var quoted := "'" + (Quote(value) + "'");
    assert Rendered(varName, value) == "export " + ((varName + "=") + quoted);
    assert quoted[1..] == Quote(value) + "'";
    ReadQuoted(value);
    ReadOrdinary(varName + "=", quoted);
  }

  /** Different values are rendered differently. */
  lemma RenderedInjective(varName: string, value: string, other: string)
    requires IsOrdinaryText(varName)
    ensures Rendered(varName, value) == Rendered(varName, other) ==> value == other
  {
    RenderedReadsBack(varName, value);
    RenderedReadsBack(varName, other);
    if Rendered(varName, value) == Rendered(varName, other) {
      assert (varName + "=" + value)[|varName| + 1..] == value;
      assert (varName + "=" + other)[|varName| + 1..] == other;
    }
  }

  /** Quoting adds neither newlines nor carriage returns, and takes none away. */
  lemma {:induction false} QuoteKeeps(value: string, c: char)
    requires c != '\'' && c != '\\'
    ensures c in Quote(value) <==> c in value
  {
    if value != "" {
      QuoteKeeps(value[1..], c);
      assert value == [value[0]] + value[1..];
    }
  }

  lemma {:induction false} QuoteConcat(a: string, b: string)
    ensures Quote(a + b) == Quote(a) + Quote(b)
  {
    if a == "" {
      assert a + b == b;
    } else {
      QuoteConcat(a[1..], b);
      var head := if a[0] == '\'' then "'\\''" else [a[0]];
      assert (a + b)[0] == a[0] && (a + b)[1..] == a[1..] + b;
      SeqAssoc(head, Quote(a[1..]), Quote(b));
    }
  }
}
