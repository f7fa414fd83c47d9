/** String operations of the Go standard library that the modelled code relies on.
    Text is a sequence of Unicode scalar values. */
module Text {

  datatype Option<+T> = None | Some(value: T)

  // ---------------------------------------------------------------- white space

  /** unicode.IsSpace. */
  predicate IsSpace(c: char) {
    || c == ' ' || '\U{09}' <= c <= '\U{0D}' || c == '\U{85}' || c == '\U{A0}'
    || c == '\U{1680}' || '\U{2000}' <= c <= '\U{200A}' || c == '\U{2028}'
    || c == '\U{2029}' || c == '\U{202F}' || c == '\U{205F}' || c == '\U{3000}'
  }

  /** A non-empty run of non-space characters: what strings.Fields can return. */
  predicate IsWord(w: string) {
    w != "" && forall i :: 0 <= i < |w| ==> !IsSpace(w[i])
  }

  function TrimSpaceLeft(s: string): string {
    if s != "" && IsSpace(s[0]) then TrimSpaceLeft(s[1..]) else s
  }

  function TrimSpaceRight(s: string): string {
    if s != "" && IsSpace(s[|s| - 1]) then TrimSpaceRight(s[..|s| - 1]) else s
  }

  /** strings.TrimSpace. */
  function TrimSpace(s: string): string {
    TrimSpaceRight(TrimSpaceLeft(s))
  }

  /** Neither end is white space, so TrimSpace leaves the text alone. */
  predicate IsTrimmed(s: string) {
    s == "" || (!IsSpace(s[0]) && !IsSpace(s[|s| - 1]))
  }

  lemma TrimSpaceOfTrimmed(s: string)
    requires IsTrimmed(s)
    ensures TrimSpace(s) == s
  {
  }

  // ---------------------------------------------------------------- split and join

  /** strings.Split with a one-character separator. */
  function Split(s: string, c: char): (parts: seq<string>)
    ensures |parts| >= 1
  {
    if s == "" then [""]
    else if s[0] == c then [""] + Split(s[1..], c)
    else
      var rest := Split(s[1..], c);
      [[s[0]] + rest[0]] + rest[1..]
  }

  /** strings.Join. */
  function Join(parts: seq<string>, sep: string): string {
    if |parts| == 0 then ""
    else if |parts| == 1 then parts[0]
    else parts[0] + sep + Join(parts[1..], sep)
  }

  predicate NoneContains(parts: seq<string>, c: char) {
    forall i :: 0 <= i < |parts| ==> c !in parts[i]
  }

  lemma {:induction false} SplitPartsClean(s: string, c: char)
    ensures NoneContains(Split(s, c), c)
  {
    if s != "" {
      SplitPartsClean(s[1..], c);
    }
  }

  lemma SplitStep(first: char, s: string, c: char)
    ensures Split([first] + s, c)
         == if first == c then [""] + Split(s, c)
            else [[first] + Split(s, c)[0]] + Split(s, c)[1..]
  {
    assert ([first] + s)[1..] == s;
  }

  lemma {:induction false} SplitOfClean(s: string, c: char)
    requires c !in s
    ensures Split(s, c) == [s]
  {
    if s != "" {
      SplitOfClean(s[1..], c);
      SplitStep(s[0], s[1..], c);
      assert [s[0]] + s[1..] == s;
    }
  }

  /** Splitting at the first separator when the text before it has none. */
  lemma {:induction false} SplitHead(a: string, rest: string, c: char)
    requires c !in a
    ensures Split(a + [c] + rest, c) == [a] + Split(rest, c)
  {
    if a == "" {
      SplitStep(c, rest, c);
      assert a + [c] + rest == [c] + rest;
    } else {
      SplitHead(a[1..], rest, c);
      SplitStep(a[0], a[1..] + [c] + rest, c);
      assert a + [c] + rest == [a[0]] + (a[1..] + [c] + rest);
      assert [a[0]] + a[1..] == a;
    }
  }

  lemma {:induction false} SplitOfJoin(parts: seq<string>, c: char)
    requires |parts| >= 1 && NoneContains(parts, c)
    ensures Split(Join(parts, [c]), c) == parts
  {
    if |parts| == 1 {
      SplitOfClean(parts[0], c);
    } else {
      SplitOfJoin(parts[1..], c);
      SplitHead(parts[0], Join(parts[1..], [c]), c);
    }
  }

  lemma {:induction false} JoinOfSplit(s: string, c: char)
    ensures Join(Split(s, c), [c]) == s
  {
    if s != "" {
      var rest := Split(s[1..], c);
      JoinOfSplit(s[1..], c);
      if s[0] == c {
        assert Split(s, c)[1..] == rest;
        assert s == "" + [c] + s[1..];
      } else {
        var whole := Split(s, c);
        assert whole[1..] == rest[1..];
        assert s == [s[0]] + s[1..];
        if |rest| > 1 {
          assert [s[0]] + (rest[0] + [c] + Join(rest[1..], [c]))
              == ([s[0]] + rest[0]) + [c] + Join(rest[1..], [c]);
        }
      }
    }
  }

  /** The lines of two texts joined by one separator are the lines of one, then of the other. */
  lemma {:induction false} SplitConcat(a: string, b: string, c: char)
    ensures Split(a + [c] + b, c) == Split(a, c) + Split(b, c)
  {
    if a == "" {
      SplitStep(c, b, c);
      assert a + [c] + b == [c] + b;
    } else {
      SplitConcat(a[1..], b, c);
      SplitConcatStep(a[0], a[1..], a[1..] + [c] + b, Split(b, c), c);
      assert [a[0]] + a[1..] == a;
      assert a + [c] + b == [a[0]] + (a[1..] + [c] + b);
    }
  }

  /** One more character in front of both sides of a split. */
  lemma SplitConcatStep(first: char, rest: string, whole: string, tail: seq<string>, c: char)
    requires Split(whole, c) == Split(rest, c) + tail
    ensures Split([first] + whole, c) == Split([first] + rest, c) + tail
  {
    SplitStep(first, rest, c);
    SplitStep(first, whole, c);
    ExtendFirst(first, Split(rest, c), tail);
  }

  lemma ExtendFirst(first: char, parts: seq<string>, tail: seq<string>)
    requires |parts| >= 1
    ensures [""] + (parts + tail) == ([""] + parts) + tail
    ensures [[first] + (parts + tail)[0]] + (parts + tail)[1..] == ([[first] + parts[0]] + parts[1..]) + tail
  {
    assert (parts + tail)[0] == parts[0] && (parts + tail)[1..] == parts[1..] + tail;
  }

  lemma SeqAssoc<T>(a: seq<T>, b: seq<T>, c: seq<T>)
    ensures (a + b) + c == a + (b + c)
  {
  }

  lemma {:induction false} JoinConcat(a: seq<string>, b: seq<string>, sep: string)
    requires |a| >= 1 && |b| >= 1
    ensures Join(a + b, sep) == Join(a, sep) + sep + Join(b, sep)
  {
    if |a| == 1 {
      assert (a + b)[1..] == b;
    } else {
      assert (a + b)[1..] == a[1..] + b;
      JoinConcat(a[1..], b, sep);
      assert Join(a + b, sep) == a[0] + sep + (Join(a[1..], sep) + sep + Join(b, sep));
    }
  }

  // ---------------------------------------------------------------- fields

  /** Number of leading characters that are not white space. */
  function WordLength(s: string): (n: nat)
    ensures n <= |s|
    ensures forall i :: 0 <= i < n ==> !IsSpace(s[i])
    ensures n < |s| ==> IsSpace(s[n])
  {
    if s == "" || IsSpace(s[0]) then 0 else 1 + WordLength(s[1..])
  }

  /** strings.Fields. */
  function Fields(s: string): seq<string>
    decreases |s|
  {
    if s == "" then []
    else if IsSpace(s[0]) then Fields(s[1..])
    else
      var n := WordLength(s);
      [s[..n]] + Fields(s[n..])
  }

  predicate AllWords(words: seq<string>) {
    forall i :: 0 <= i < |words| ==> IsWord(words[i])
  }

  lemma {:induction false} FieldsAreWords(s: string)
    ensures AllWords(Fields(s))
    decreases |s|
  {
    if s != "" {
      if IsSpace(s[0]) {
        FieldsAreWords(s[1..]);
      } else {
        FieldsAreWords(s[WordLength(s)..]);
      }
    }
  }

  lemma {:induction false} WordLengthHead(word: string, rest: string)
    requires forall i :: 0 <= i < |word| ==> !IsSpace(word[i])
    requires rest == "" || IsSpace(rest[0])
    ensures WordLength(word + rest) == |word|
  {
    if word == "" {
      assert word + rest == rest;
    } else {
      assert (word + rest)[1..] == word[1..] + rest;
      WordLengthHead(word[1..], rest);
    }
  }

  lemma FieldsHead(word: string, rest: string)
    requires IsWord(word)
    requires rest == "" || IsSpace(rest[0])
    ensures Fields(word + rest) == [word] + Fields(rest)
  {
    var s := word + rest;
    assert s[0] == word[0];
    WordLengthHead(word, rest);
    assert s[..|word|] == word && s[|word|..] == rest;
  }

  /** Joining words with white space and reading the fields back gives the words. */
  lemma {:induction false} FieldsOfJoin(words: seq<string>, sep: char, tail: string)
    requires AllWords(words) && IsSpace(sep)
    requires tail == "" || (IsSpace(tail[0]) && Fields(tail) == [])
    ensures Fields(Join(words, [sep]) + tail) == words
  {
    if |words| == 0 {
      assert Join(words, [sep]) + tail == tail;
    } else if |words| == 1 {
      FieldsHead(words[0], tail);
    } else {
      var joined := Join(words[1..], [sep]) + tail;
      assert Join(words, [sep]) + tail == words[0] + ([sep] + joined);
      FieldsOfJoin(words[1..], sep, tail);
      FieldsHead(words[0], [sep] + joined);
      assert ([sep] + joined)[1..] == joined;
    }
  }

  // ---------------------------------------------------------------- cutting

  /** Index of the first occurrence, or the length when there is none. */
  function FirstIndex(s: string, c: char): (i: nat)
    ensures i <= |s|
    ensures forall j :: 0 <= j < i ==> s[j] != c
    ensures i < |s| ==> s[i] == c
  {
    if s == "" || s[0] == c then 0 else 1 + FirstIndex(s[1..], c)
  }

  /** strings.Index by one character counted from the end: -1 when there is none. */
  function LastIndex(s: string, c: char): (i: int)
    ensures -1 <= i < |s|
    ensures i >= 0 ==> s[i] == c
    ensures forall j :: i < j < |s| ==> s[j] != c
  {
    if s == "" then -1
    else if s[|s| - 1] == c then |s| - 1
    else LastIndex(s[..|s| - 1], c)
  }

  lemma {:induction false} LastIndexAt(before: string, after: string, c: char)
    requires c !in after
    ensures LastIndex(before + [c] + after, c) == |before|
  {
    if after == "" {
      assert before + [c] + after == before + [c];
    } else {
      var s := before + [c] + after;
      var shorter := after[..|after| - 1];
      assert s[|s| - 1] == after[|after| - 1];
      assert s[..|s| - 1] == before + [c] + shorter;
      LastIndexAt(before, shorter, c);
    }
  }

  lemma FirstIndexAt(before: string, after: string, c: char)
    requires c !in before
    ensures FirstIndex(before + [c] + after, c) == |before|
  {
    var s := before + [c] + after;
    assert s[|before|] == c;
    assert forall j :: 0 <= j < |before| ==> s[j] == before[j];
    assert FirstIndex(s, c) < |s|;
  }

  // ---------------------------------------------------------------- trimming newlines

  /** strings.TrimRight(s, "\n"). */
  function TrimNewlines(s: string): string {
    if s != "" && s[|s| - 1] == '\n' then TrimNewlines(s[..|s| - 1]) else s
  }

  lemma TrimNewlinesOfTrimmed(s: string)
    requires s == "" || s[|s| - 1] != '\n'
    ensures TrimNewlines(s) == s && TrimNewlines(s + "\n") == s
  {
    assert (s + "\n")[..|s|] == s;
  }

  lemma {:induction false} TrimNewlinesShape(s: string)
    ensures TrimNewlines(s) <= s
    ensures TrimNewlines(s) == "" || TrimNewlines(s)[|TrimNewlines(s)| - 1] != '\n'
  {
    if s != "" && s[|s| - 1] == '\n' {
      TrimNewlinesShape(s[..|s| - 1]);
    }
  }
}
