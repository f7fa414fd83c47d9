/** Looking a Kubernetes version up in a map from "major.minor" keys. */
module VersionMap {
  import opened Text

  datatype Version = Version(major: int, minor: int)

  predicate Less(a: Version, b: Version) {
    if a.major != b.major then a.major < b.major else a.minor < b.minor
  }

  // ---------------------------------------------------------------- numbers as text

  const INT_MIN: int := -0x8000_0000_0000_0000
  const INT_MAX: int := 0x7FFF_FFFF_FFFF_FFFF

  predicate IsInt(n: int) {
    INT_MIN <= n <= INT_MAX
  }

  predicate IsDigit(c: char) {
    '0' <= c <= '9'
  }

  /** Decimal digits, most significant first. */
  function Digits(n: nat): string {
    (if n < 10 then "" else Digits(n / 10)) + [(n % 10 + '0' as int) as char]
  }

  function ReadDigits(s: string): Option<nat> {
    if s == "" || !IsDigit(s[|s| - 1]) then None
    else
      var digit := s[|s| - 1] as int - '0' as int;
      if |s| == 1 then Some(digit)
      else
        var front := ReadDigits(s[..|s| - 1]);
        if front.Some? then Some(10 * front.value + digit) else None
  }

  /** strconv.Itoa. */
  function Itoa(n: int): string {
    if n < 0 then "-" + Digits(-n) else Digits(n)
  }

  /** strconv.Atoi. */
  function Atoi(s: string): Option<int> {
    var signed := s != "" && (s[0] == '-' || s[0] == '+');
    var magnitude := ReadDigits(if signed then s[1..] else s);
    if magnitude.None? then None
    else
      var size: int := magnitude.value;
      var n := if signed && s[0] == '-' then -size else size;
      if IsInt(n) then Some(n) else None
  }

  lemma {:induction false} ReadDigitsOfDigits(n: nat)
    ensures ReadDigits(Digits(n)) == Some(n)
    ensures forall i :: 0 <= i < |Digits(n)| ==> IsDigit(Digits(n)[i])
    ensures Digits(n) != ""
  {
    if n >= 10 {
      ReadDigitsOfDigits(n / 10);
      assert Digits(n)[..|Digits(n)| - 1] == Digits(n / 10);
    }
  }

  /** Numbers are written with their last digit last, in base ten. */
  lemma DigitsOf(n: nat, d: nat)
    requires d < 10
    ensures Itoa(d) == ["0123456789"[d]]
    ensures n > 0 ==> Itoa(10 * n + d) == Itoa(n) + ["0123456789"[d]]
  {
    assert (10 * n + d) / 10 == n && (10 * n + d) % 10 == d;
    assert "0123456789"[d] == (d + '0' as int) as char;
  }

  lemma AtoiOfItoa(n: int)
    requires IsInt(n)
    ensures Atoi(Itoa(n)) == Some(n)
    ensures Itoa(n) != "" && forall i :: 0 <= i < |Itoa(n)| ==> IsDigit(Itoa(n)[i]) || Itoa(n)[i] == '-'
  {
    ReadDigitsOfDigits(if n < 0 then -n else n);
    if n < 0 {
      assert Itoa(n)[1..] == Digits(-n);
    }
  }

  // ---------------------------------------------------------------- versions as text

  /** parseMajorMinor: a leading "v" and anything from the second dot on are ignored. */
  function ParseMajorMinor(version: string): Option<Version> {
    var trimmed := TrimSpace(version);
    var parts := Split(if "v" <= trimmed then trimmed[1..] else trimmed, '.');
    if |parts| < 2 then None
    else
      var major, minor := Atoi(parts[0]), Atoi(parts[1]);
      if major.Some? && minor.Some? then Some(Version(major.value, minor.value)) else None
  }

  function KeyOf(v: Version): string {
    Itoa(v.major) + "." + Itoa(v.minor)
  }

  predicate IsInts(v: Version) {
    IsInt(v.major) && IsInt(v.minor)
  }

  lemma ParsedIsInts(version: string)
    ensures ParseMajorMinor(version).Some? ==> IsInts(ParseMajorMinor(version).value)
  {
  }

  lemma ItoaShape(n: int)
    requires IsInt(n)
    ensures Itoa(n) != "" && '.' !in Itoa(n)
    ensures !IsSpace(Itoa(n)[0]) && Itoa(n)[0] != 'v' && !IsSpace(Itoa(n)[|Itoa(n)| - 1])
  {
    AtoiOfItoa(n);
  }

  lemma SplitTwo(a: string, b: string, c: char)
    requires c !in a && c !in b
    ensures Split(a + [c] + b, c) == [a, b]
  {
    SplitHead(a, b, c);
    SplitOfClean(b, c);
  }

  lemma SplitThree(a: string, b: string, rest: string, c: char)
    requires c !in a && c !in b
    ensures Split(a + [c] + b + [c] + rest, c) == [a, b] + Split(rest, c)
  {
    var tail := b + [c] + rest;
    assert a + [c] + b + [c] + rest == a + [c] + tail;
    SplitHead(a, tail, c);
    SplitHead(b, rest, c);
    assert [a] + ([b] + Split(rest, c)) == [a, b] + Split(rest, c);
  }

  lemma SplitKey(v: Version, rest: string)
    requires IsInts(v)
    ensures Split(KeyOf(v), '.') == [Itoa(v.major), Itoa(v.minor)]
    ensures Split(KeyOf(v) + "." + rest, '.') == [Itoa(v.major), Itoa(v.minor)] + Split(rest, '.')
  {
    ItoaShape(v.major);
    ItoaShape(v.minor);
    SplitTwo(Itoa(v.major), Itoa(v.minor), '.');
    SplitThree(Itoa(v.major), Itoa(v.minor), rest, '.');
  }

  /** The key of a version is read as that version. */
  lemma KeyParses(v: Version)
    requires IsInts(v)
    ensures ParseMajorMinor(KeyOf(v)) == Some(v)
  {
    var key := KeyOf(v);
    ItoaShape(v.major);
    ItoaShape(v.minor);
    assert key[0] == Itoa(v.major)[0] && key[|key| - 1] == Itoa(v.minor)[|Itoa(v.minor)| - 1];
    TrimSpaceOfTrimmed(key);
    SplitKey(v, "");
    AtoiOfItoa(v.major);
    AtoiOfItoa(v.minor);
  }

  /** So is the full name of any of its releases. */
  lemma ReleaseParses(v: Version, patch: string)
    requires IsInts(v) && patch != "" && !IsSpace(patch[|patch| - 1])
    ensures ParseMajorMinor("v" + KeyOf(v) + "." + patch) == Some(v)
  {
    var full := "v" + KeyOf(v) + "." + patch;
    assert full[|full| - 1] == patch[|patch| - 1] && full[0] == 'v';
    TrimSpaceOfTrimmed(full);
    assert full[1..] == KeyOf(v) + "." + patch;
    SplitKey(v, patch);
    AtoiOfItoa(v.major);
    AtoiOfItoa(v.minor);
  }

  // ---------------------------------------------------------------- the lookup

  /** Keys that read as versions; the others are never looked at. */
  predicate IsKey(m: map<string, string>, k: string) {
    k in m && ParseMajorMinor(k).Some?
  }

  function VersionOf(k: string): Version
    requires ParseMajorMinor(k).Some?
  {
    ParseMajorMinor(k).value
  }

  ghost predicate HasKeys(m: map<string, string>) {
    exists k :: IsKey(m, k)
  }

  ghost predicate IsLowest(m: map<string, string>, k: string) {
    IsKey(m, k) && forall other :: IsKey(m, other) ==> !Less(VersionOf(other), VersionOf(k))
  }

  /** The greatest key not above the requested version. */
  ghost predicate IsFloor(m: map<string, string>, requested: Version, k: string) {
    && IsKey(m, k) && !Less(requested, VersionOf(k))
    && forall other :: IsKey(m, other) && !Less(requested, VersionOf(other)) ==> !Less(VersionOf(k), VersionOf(other))
  }

  /** The key a lookup may choose: the floor, or the lowest key, flagged, when there is no floor. */
  ghost predicate IsChoice(m: map<string, string>, requested: Version, k: string, clamped: bool) {
    if clamped then IsLowest(m, k) && Less(requested, VersionOf(k)) else IsFloor(m, requested, k)
  }

  datatype Entry = Entry(ver: Version, key: string)

  predicate Ordered(entries: seq<Entry>) {
    forall i, j :: 0 <= i < j < |entries| ==> !Less(entries[j].ver, entries[i].ver)
  }

  function Insert(entries: seq<Entry>, e: Entry): (r: seq<Entry>)
    requires Ordered(entries)
    ensures Ordered(r)
    ensures forall x :: x in r <==> x in entries || x == e
  {
    if |entries| == 0 || !Less(e.ver, entries[|entries| - 1].ver) then entries + [e]
    else
      var last := entries[|entries| - 1];
      var front := Insert(entries[..|entries| - 1], e);
      assert entries == entries[..|entries| - 1] + [last];
      assert forall i :: 0 <= i < |front| ==> front[i] in front;
      front + [last]
  }

  /** sort.Slice by version; which of several equal versions comes first is not promised. */
  function SortEntries(entries: seq<Entry>): (r: seq<Entry>)
    ensures Ordered(r)
    ensures forall x :: x in r <==> x in entries
  {
    if |entries| == 0 then []
    else
      assert entries == entries[..|entries| - 1] + [entries[|entries| - 1]];
      Insert(SortEntries(entries[..|entries| - 1]), entries[|entries| - 1])
  }

  predicate AreEntries(m: map<string, string>, keys: set<string>, entries: seq<Entry>) {
    && (forall i :: 0 <= i < |entries| ==>
         entries[i].key in keys && IsKey(m, entries[i].key) && entries[i].ver == VersionOf(entries[i].key))
    && (forall k :: k in keys && IsKey(m, k) ==> Entry(VersionOf(k), k) in entries)
  }

  /** The keys in the arbitrary order of a map iteration, then sorted. */
  method CollectEntries(m: map<string, string>) returns (entries: seq<Entry>)
    ensures Ordered(entries) && AreEntries(m, m.Keys, entries)
  {
    entries := [];
    var left := m.Keys;
    while left != {}
      invariant left <= m.Keys
      invariant AreEntries(m, m.Keys - left, entries)
      decreases |left|
    {
      var k :| k in left;
      ghost var was := entries;
      var parsed := ParseMajorMinor(k);
      if parsed.Some? {
        entries := entries + [Entry(parsed.value, k)];
      }
      left := left - {k};
    }
    var sorted := SortEntries(entries);
    forall i | 0 <= i < |sorted|
      ensures sorted[i].key in m && IsKey(m, sorted[i].key) && sorted[i].ver == VersionOf(sorted[i].key)
    {
      assert sorted[i] in entries;
    }
    return sorted;
  }

  /** What a request, parsed or not a version, may be answered from. */
  ghost predicate ComesFrom(m: map<string, string>, parsed: Option<Version>, k: string, clamped: bool) {
    && k in m
    && if parsed.None? then clamped && IsLowest(m, k) else IsChoice(m, parsed.value, k, clamped)
  }

  /** A request that is no version gets the lowest key's value, flagged; otherwise the value is that
      of the chosen key. Without any key the value is empty. */
  ghost predicate IsAnswer(m: map<string, string>, parsed: Option<Version>, value: string, clamped: bool) {
    if HasKeys(m) then exists k :: ComesFrom(m, parsed, k, clamped) && value == m[k]
    else value == "" && clamped == parsed.None?
  }

  /** What the lookup may return: the value of the exact key whenever there is one, however else the
      version may be spelled in the map, and any answer otherwise. */
  ghost predicate MayReturn(m: map<string, string>, parsed: Option<Version>, value: string, clamped: bool) {
    if parsed.Some? && KeyOf(parsed.value) in m then value == m[KeyOf(parsed.value)] && !clamped
    else IsAnswer(m, parsed, value, clamped)
  }

  lemma AnswerFrom(m: map<string, string>, parsed: Option<Version>, k: string, clamped: bool)
    requires ComesFrom(m, parsed, k, clamped)
    ensures IsAnswer(m, parsed, m[k], clamped)
  {
    assert IsKey(m, k);
  }

  /** boundaryValue with upper false: the lowest key's value. */
  method LowestValue(m: map<string, string>) returns (value: string)
    ensures IsAnswer(m, None, value, true)
  {
    var entries := CollectEntries(m);
    KeysIff(m, entries);
    if |entries| == 0 {
      return "";
    }
    LowestFound(m, entries);
    AnswerFrom(m, None, entries[0].key, true);
    return m[entries[0].key];
  }

  predicate HasEntry(entries: seq<Entry>, k: string)
    requires ParseMajorMinor(k).Some?
  {
    exists i :: 0 <= i < |entries| && entries[i].key == k && entries[i].ver == VersionOf(k)
  }

  lemma EntriesCover(m: map<string, string>, entries: seq<Entry>)
    requires AreEntries(m, m.Keys, entries)
    ensures forall k :: IsKey(m, k) ==> HasEntry(entries, k)
  {
    forall k | IsKey(m, k) ensures HasEntry(entries, k) {
      var i :| 0 <= i < |entries| && entries[i] == Entry(VersionOf(k), k);
    }
  }

  lemma ExactIsFloor(m: map<string, string>, requested: Version)
    requires IsInts(requested) && KeyOf(requested) in m
    ensures IsFloor(m, requested, KeyOf(requested))
  {
    KeyParses(requested);
    assert IsKey(m, KeyOf(requested));
  }

  method LookupByKubeVersionClamped(m: map<string, string>, kubeVersion: string)
    returns (value: string, clamped: bool)
    ensures IsAnswer(m, ParseMajorMinor(kubeVersion), value, clamped)
    ensures MayReturn(m, ParseMajorMinor(kubeVersion), value, clamped)
  {
    var parsed := ParseMajorMinor(kubeVersion);
    if parsed.None? {
      value := LowestValue(m);
      return value, true;
    }
    ParsedIsInts(kubeVersion);
    value, clamped := LookupVersion(m, parsed.value);
  }

  /** The same, from the parsed version on. */
  method LookupVersion(m: map<string, string>, requested: Version) returns (value: string, clamped: bool)
    requires IsInts(requested)
    ensures IsAnswer(m, Some(requested), value, clamped)
    ensures MayReturn(m, Some(requested), value, clamped)
  {
    var exact := KeyOf(requested);
    if exact in m {
      ExactIsFloor(m, requested);
      AnswerFrom(m, Some(requested), exact, false);
      return m[exact], false;
    }
    var entries := CollectEntries(m);
    KeysIff(m, entries);
    if |entries| == 0 {
      return "", false;
    }
    var last := entries[|entries| - 1];
    if Less(last.ver, requested) {
      FloorFound(m, requested, entries, |entries| - 1);
      AnswerFrom(m, Some(requested), last.key, false);
      return m[last.key], false;
    }
    if Less(requested, entries[0].ver) {
      LowestFound(m, entries);
      AnswerFrom(m, Some(requested), entries[0].key, true);
      return m[entries[0].key], true;
    }
    var chosen := FloorKey(m, entries, requested);
    AnswerFrom(m, Some(requested), chosen, false);
    return m[chosen], false;
  }

  /** The walk up the sorted entries. */
  method FloorKey(m: map<string, string>, entries: seq<Entry>, requested: Version) returns (chosen: string)
    requires Ordered(entries) && AreEntries(m, m.Keys, entries)
    requires |entries| > 0 && !Less(requested, entries[0].ver)
    ensures IsFloor(m, requested, chosen)
  {
    chosen := entries[0].key;
    ghost var at := 0;
    var i := 0;
    while i < |entries|
      invariant 0 <= i <= |entries| && at < |entries| && chosen == entries[at].key
      invariant at == (if i == 0 then 0 else i - 1)
      invariant !Less(requested, entries[at].ver)
    {
      if !Less(requested, entries[i].ver) {
        chosen, at := entries[i].key, i;
      } else {
        break;
      }
      i := i + 1;
    }
    FloorFound(m, requested, entries, at);
  }

  lemma KeysIff(m: map<string, string>, entries: seq<Entry>)
    requires AreEntries(m, m.Keys, entries)
    ensures |entries| == 0 <==> !HasKeys(m)
  {
    EntriesCover(m, entries);
    if |entries| > 0 {
      assert IsKey(m, entries[0].key);
    }
  }

  lemma LowestFound(m: map<string, string>, entries: seq<Entry>)
    requires Ordered(entries) && AreEntries(m, m.Keys, entries) && |entries| > 0
    ensures IsLowest(m, entries[0].key)
  {
    EntriesCover(m, entries);
  }

  /** The entry before the first one above the request is the floor. */
  lemma FloorFound(m: map<string, string>, requested: Version, entries: seq<Entry>, at: nat)
    requires Ordered(entries) && AreEntries(m, m.Keys, entries) && at < |entries|
    requires !Less(requested, entries[at].ver) && (at + 1 < |entries| ==> Less(requested, entries[at + 1].ver))
    ensures IsFloor(m, requested, entries[at].key)
  {
    EntriesCover(m, entries);
    assert IsKey(m, entries[at].key);
    forall other | IsKey(m, other) && !Less(requested, VersionOf(other))
      ensures !Less(VersionOf(entries[at].key), VersionOf(other))
    {
      var j :| 0 <= j < |entries| && entries[j].key == other && entries[j].ver == VersionOf(other);
      NotAbove(requested, entries, at, j);
    }
  }

  lemma NotAbove(requested: Version, entries: seq<Entry>, at: nat, j: nat)
    requires Ordered(entries) && at < |entries| && j < |entries| && !Less(requested, entries[j].ver)
    requires at + 1 < |entries| ==> Less(requested, entries[at + 1].ver)
    ensures !Less(entries[at].ver, entries[j].ver)
  {
  }

  // ---------------------------------------------------------------- what the choice amounts to

  /** An answer without the flag: its key reads as a version at most the requested one, and every
      other key reads as a version above the request or at most the chosen one. */
  lemma UnflaggedAnswer(m: map<string, string>, r: Version, value: string) returns (k: string)
    requires IsInts(r) && MayReturn(m, Some(r), value, false)
    requires exists key :: key in m && ParseMajorMinor(key).Some?
    ensures k in m && value == m[k] && ParseMajorMinor(k).Some?
    ensures var v := ParseMajorMinor(k).value;
            v.major < r.major || (v.major == r.major && v.minor <= r.minor)
    ensures forall key :: key in m && ParseMajorMinor(key).Some? ==>
      var v, o := ParseMajorMinor(k).value, ParseMajorMinor(key).value;
      || r.major < o.major || (r.major == o.major && r.minor < o.minor)
      || o.major < v.major || (o.major == v.major && o.minor <= v.minor)
  {
    if KeyOf(r) in m {
      ExactIsFloor(m, r);
      k := KeyOf(r);
    } else {
      var key :| key in m && ParseMajorMinor(key).Some?;
      assert IsKey(m, key);
      k :| ComesFrom(m, Some(r), k, false) && value == m[k];
    }
    assert IsFloor(m, r, k);
    forall key | key in m && ParseMajorMinor(key).Some?
      ensures Less(r, VersionOf(key)) || !Less(VersionOf(k), VersionOf(key))
    {
      assert IsKey(m, key);
    }
  }

  /** A flagged answer to a request that reads as a version: every key is above the request, and
      none is below the chosen one. */
  lemma FlaggedAnswer(m: map<string, string>, r: Version, value: string) returns (k: string)
    requires MayReturn(m, Some(r), value, true)
    ensures k in m && value == m[k] && ParseMajorMinor(k).Some?
    ensures forall key :: key in m && ParseMajorMinor(key).Some? ==>
      var v, o := ParseMajorMinor(k).value, ParseMajorMinor(key).value;
      && (r.major < o.major || (r.major == o.major && r.minor < o.minor))
      && (v.major < o.major || (v.major == o.major && v.minor <= o.minor))
  {
    assert HasKeys(m);
    k :| ComesFrom(m, Some(r), k, true) && value == m[k];
    forall key | key in m && ParseMajorMinor(key).Some?
      ensures Less(r, VersionOf(key)) && !Less(VersionOf(key), VersionOf(k))
    {
      assert IsKey(m, key);
    }
  }

  /** A request that is no version: flagged, from a key with none below it. */
  lemma UnparsedAnswer(m: map<string, string>, value: string, clamped: bool) returns (k: string)
    requires MayReturn(m, None, value, clamped)
    requires exists key :: key in m && ParseMajorMinor(key).Some?
    ensures clamped && k in m && value == m[k] && ParseMajorMinor(k).Some?
    ensures forall key :: key in m && ParseMajorMinor(key).Some? ==>
      var v, o := ParseMajorMinor(k).value, ParseMajorMinor(key).value;
      v.major < o.major || (v.major == o.major && v.minor <= o.minor)
  {
    var some :| some in m && ParseMajorMinor(some).Some?;
    assert IsKey(m, some);
    k :| ComesFrom(m, None, k, clamped) && value == m[k];
    forall key | key in m && ParseMajorMinor(key).Some? ensures !Less(VersionOf(key), VersionOf(k)) {
      assert IsKey(m, key);
    }
  }

  /** Without a key that reads as a version the answer is empty, and flagged only for a request that
      is none either. */
  lemma EmptyAnswer(m: map<string, string>, parsed: Option<Version>, value: string, clamped: bool)
    requires parsed.Some? ==> IsInts(parsed.value)
    requires MayReturn(m, parsed, value, clamped)
    requires forall key :: key in m ==> ParseMajorMinor(key).None?
    ensures value == "" && clamped == parsed.None?
  {
    if parsed.Some? {
      KeyParses(parsed.value);
    }
  }

  /** The exact key's own value, whenever the map has it. */
  lemma ExactAnswer(m: map<string, string>, major: int, minor: int, value: string, clamped: bool)
    requires Itoa(major) + "." + Itoa(minor) in m
    requires MayReturn(m, Some(Version(major, minor)), value, clamped)
    ensures value == m[Itoa(major) + "." + Itoa(minor)] && !clamped
  {
  }

  /** A newer request never gets an older entry, and never becomes flagged. */
  lemma ChoiceIsMonotone(m: map<string, string>, a: Version, b: Version, ka: string, kb: string, ca: bool, cb: bool)
    requires a.major < b.major || (a.major == b.major && a.minor <= b.minor)
    requires IsChoice(m, a, ka, ca) && IsChoice(m, b, kb, cb)
    ensures ParseMajorMinor(ka).Some? && ParseMajorMinor(kb).Some?
    ensures var va, vb := ParseMajorMinor(ka).value, ParseMajorMinor(kb).value;
            va.major < vb.major || (va.major == vb.major && va.minor <= vb.minor)
    ensures cb ==> ca
  {
    assert IsKey(m, ka) && IsKey(m, kb);
  }

  predicate IsCanonical(m: map<string, string>) {
    forall k :: k in m && ParseMajorMinor(k).Some? ==> k == KeyOf(VersionOf(k))
  }

  /** With canonical keys the choice, and so the value, is determined by the request. */
  lemma CanonicalChoiceUnique(m: map<string, string>, requested: Version, k: string, other: string, c: bool, d: bool)
    requires IsCanonical(m) && IsChoice(m, requested, k, c) && IsChoice(m, requested, other, d)
    ensures k == other && c == d
  {
    ChoiceIsMonotone(m, requested, requested, k, other, c, d);
    ChoiceIsMonotone(m, requested, requested, other, k, d, c);
    assert VersionOf(k) == VersionOf(other);
  }

  /** So is the whole answer. */
  lemma CanonicalAnswerUnique(m: map<string, string>, parsed: Option<Version>, v: string, c: bool, w: string, d: bool)
    requires IsCanonical(m) && IsAnswer(m, parsed, v, c) && IsAnswer(m, parsed, w, d)
    ensures v == w && c == d
  {
    if HasKeys(m) {
      var k :| ComesFrom(m, parsed, k, c) && v == m[k];
      var other :| ComesFrom(m, parsed, other, d) && w == m[other];
      SourcesAlike(m, parsed, k, other, c, d);
    }
  }

  // ---------------------------------------------------------------- several spellings of one version

  /** All keys a request may be answered from spell the same version, and agree on the flag. */
  lemma SourcesAlike(m: map<string, string>, parsed: Option<Version>, k: string, other: string, c: bool, d: bool)
    requires ComesFrom(m, parsed, k, c) && ComesFrom(m, parsed, other, d)
    ensures IsKey(m, k) && IsKey(m, other) && VersionOf(k) == VersionOf(other) && c == d
  {
    assert IsKey(m, k) && IsKey(m, other);
    if parsed.Some? {
      ChoiceIsMonotone(m, parsed.value, parsed.value, k, other, c, d);
      ChoiceIsMonotone(m, parsed.value, parsed.value, other, k, d, c);
    }
  }

  ghost predicate IsDetermined(m: map<string, string>, parsed: Option<Version>) {
    forall v, c, w, d :: MayReturn(m, parsed, v, c) && MayReturn(m, parsed, w, d) ==> v == w && c == d
  }

  /** The keys the request may be answered from all carry one value. */
  ghost predicate OneValue(m: map<string, string>, parsed: Option<Version>) {
    forall k, c, other, d :: ComesFrom(m, parsed, k, c) && ComesFrom(m, parsed, other, d) ==> m[k] == m[other]
  }

  /** Value and flag of a lookup are determined exactly when the exact key is in the map or all keys
      the request may be answered from carry one value. */
  lemma DeterminedIff(m: map<string, string>, parsed: Option<Version>)
    ensures IsDetermined(m, parsed) <==> (parsed.Some? && KeyOf(parsed.value) in m) || OneValue(m, parsed)
  {
    if !(parsed.Some? && KeyOf(parsed.value) in m) {
      if IsDetermined(m, parsed) {
        forall k, c, other, d | ComesFrom(m, parsed, k, c) && ComesFrom(m, parsed, other, d) ensures m[k] == m[other] {
          AnswerFrom(m, parsed, k, c);
          AnswerFrom(m, parsed, other, d);
          assert MayReturn(m, parsed, m[k], c) && MayReturn(m, parsed, m[other], d);
        }
      }
      if OneValue(m, parsed) {
        forall v, c, w, d | MayReturn(m, parsed, v, c) && MayReturn(m, parsed, w, d) ensures v == w && c == d {
          if HasKeys(m) {
            var k :| ComesFrom(m, parsed, k, c) && v == m[k];
            var other :| ComesFrom(m, parsed, other, d) && w == m[other];
            SourcesAlike(m, parsed, k, other, c, d);
          }
        }
      }
    }
  }

  lemma PrefixedKeyParses(v: Version)
    requires IsInts(v)
    ensures ParseMajorMinor("v" + KeyOf(v)) == Some(v)
  {
    var full := "v" + KeyOf(v);
    ItoaShape(v.minor);
    assert full[|full| - 1] == Itoa(v.minor)[|Itoa(v.minor)| - 1] && full[0] == 'v';
    TrimSpaceOfTrimmed(full);
    assert full[1..] == KeyOf(v);
    SplitKey(v, "");
    AtoiOfItoa(v.major);
    AtoiOfItoa(v.minor);
  }

  /** For example, with two spellings of one version and different values, the lookup is determined
      for requests of that very version and for no other. */
  lemma TwoSpellingsIff(v: Version, r: Version, x: string, y: string)
    requires IsInts(v) && IsInts(r) && x != y
    ensures IsDetermined(map[KeyOf(v) := x, "v" + KeyOf(v) := y], Some(r)) <==> r == v
  {
    var key, other := KeyOf(v), "v" + KeyOf(v);
    var m := map[key := x, other := y];
    KeyParses(v);
    PrefixedKeyParses(v);
    KeyParses(r);
    ItoaShape(r.major);
    assert |other| == |key| + 1;
    DeterminedIff(m, Some(r));
    if r != v {
      assert KeyOf(r)[0] != 'v' && other[0] == 'v';
      assert KeyOf(r) !in m;
      BothSpellings(m, key, other, v, r);
    }
  }

  lemma BothSpellings(m: map<string, string>, key: string, other: string, v: Version, r: Version)
    requires m.Keys == {key, other}
    requires ParseMajorMinor(key) == Some(v) && ParseMajorMinor(other) == Some(v)
    ensures ComesFrom(m, Some(r), key, Less(r, v)) && ComesFrom(m, Some(r), other, Less(r, v))
  {
    assert IsKey(m, key) && IsKey(m, other);
    assert forall k :: IsKey(m, k) ==> VersionOf(k) == v;
  }

  // ---------------------------------------------------------------- the order of the map

  /** What the map's iteration and the unstable sort may produce: every version key once, in order. */
  ghost predicate IsArrangement(m: map<string, string>, keys: set<string>, entries: seq<Entry>) {
    && Ordered(entries) && AreEntries(m, keys, entries)
    && forall i, j :: 0 <= i < j < |entries| ==> entries[i].key != entries[j].key
  }

  /** The key the lookup takes its value from in one arrangement, exact keys aside. */
  ghost predicate TakenFrom(entries: seq<Entry>, parsed: Option<Version>, k: string, clamped: bool) {
    exists at :: 0 <= at < |entries| && entries[at].key == k && IsTaken(entries, parsed, at, clamped)
  }

  predicate IsTaken(entries: seq<Entry>, parsed: Option<Version>, at: nat, clamped: bool)
    requires at < |entries|
  {
    if clamped then at == 0 && (parsed.Some? ==> Less(parsed.value, entries[0].ver))
    else
      && parsed.Some? && !Less(parsed.value, entries[at].ver)
      && (at + 1 < |entries| ==> Less(parsed.value, entries[at + 1].ver))
  }

  /** Where an entry may go in an ordered sequence: before or behind the entries of equal version. */
  lemma Gap(entries: seq<Entry>, v: Version, first: bool) returns (p: nat)
    requires Ordered(entries)
    ensures p <= |entries|
    ensures forall j :: 0 <= j < p ==> if first then Less(entries[j].ver, v) else !Less(v, entries[j].ver)
    ensures forall j :: p <= j < |entries| ==> if first then !Less(entries[j].ver, v) else Less(v, entries[j].ver)
  {
    p := 0;
    while p < |entries| && (if first then Less(entries[p].ver, v) else !Less(v, entries[p].ver))
      invariant p <= |entries|
      invariant forall j :: 0 <= j < p ==> if first then Less(entries[j].ver, v) else !Less(v, entries[j].ver)
    {
      p := p + 1;
    }
  }

  function InsertAt(rest: seq<Entry>, at: nat, e: Entry): seq<Entry>
    requires at <= |rest|
  {
    rest[..at] + [e] + rest[at..]
  }

  lemma InsertAtShape(rest: seq<Entry>, at: nat, e: Entry)
    requires at <= |rest|
    ensures |InsertAt(rest, at, e)| == |rest| + 1
    ensures forall j :: 0 <= j <= |rest| ==>
      InsertAt(rest, at, e)[j] == if j < at then rest[j] else if j == at then e else rest[j - 1]
    ensures forall x :: x in InsertAt(rest, at, e) <==> x in rest || x == e
  {
    assert rest == rest[..at] + rest[at..];
  }

  lemma InsertAtOrdered(rest: seq<Entry>, at: nat, e: Entry)
    requires at <= |rest| && Ordered(rest)
    requires forall j :: 0 <= j < at ==> !Less(e.ver, rest[j].ver)
    requires forall j :: at <= j < |rest| ==> !Less(rest[j].ver, e.ver)
    ensures Ordered(InsertAt(rest, at, e))
  {
    InsertAtShape(rest, at, e);
  }

  lemma InsertAtEntries(m: map<string, string>, keys: set<string>, rest: seq<Entry>, at: nat, k: string)
    requires at <= |rest| && IsKey(m, k) && k in keys && AreEntries(m, keys - {k}, rest)
    ensures AreEntries(m, keys, InsertAt(rest, at, Entry(VersionOf(k), k)))
  {
    InsertAtShape(rest, at, Entry(VersionOf(k), k));
  }

  lemma InsertAtDistinct(rest: seq<Entry>, at: nat, e: Entry)
    requires at <= |rest| && forall j :: 0 <= j < |rest| ==> rest[j].key != e.key
    requires forall i, j :: 0 <= i < j < |rest| ==> rest[i].key != rest[j].key
    ensures var entries := InsertAt(rest, at, e);
            forall i, j :: 0 <= i < j < |entries| ==> entries[i].key != entries[j].key
  {
    InsertAtShape(rest, at, e);
  }

  lemma Place(m: map<string, string>, keys: set<string>, rest: seq<Entry>, k: string, first: bool)
    returns (entries: seq<Entry>, at: nat)
    requires IsKey(m, k) && k in keys && IsArrangement(m, keys - {k}, rest)
    ensures IsArrangement(m, keys, entries) && at < |entries| && entries[at] == Entry(VersionOf(k), k)
    ensures first ==> forall j :: 0 <= j < at ==> Less(entries[j].ver, VersionOf(k))
    ensures !first ==> forall j :: at < j < |entries| ==> Less(VersionOf(k), entries[j].ver)
  {
    var e := Entry(VersionOf(k), k);
    at := Gap(rest, e.ver, first);
    entries := InsertAt(rest, at, e);
    InsertAtShape(rest, at, e);
    InsertAtOrdered(rest, at, e);
    InsertAtEntries(m, keys, rest, at, k);
    InsertAtDistinct(rest, at, e);
  }

  lemma {:induction false} Arrange(m: map<string, string>, keys: set<string>) returns (entries: seq<Entry>)
    ensures IsArrangement(m, keys, entries)
    decreases |keys|
  {
    if keys == {} {
      entries := [];
    } else {
      var k :| k in keys;
      entries := Arrange(m, keys - {k});
      if IsKey(m, k) {
        var at;
        entries, at := Place(m, keys, entries, k, true);
      }
    }
  }

  /** The keys a request may be answered from are exactly those some order of the map leads to: where
      a lookup is undetermined, it is the map's order that decides. */
  lemma ComesFromSomeOrderIff(m: map<string, string>, parsed: Option<Version>, k: string, clamped: bool)
    ensures ComesFrom(m, parsed, k, clamped)
       <==> exists entries: seq<Entry> :: IsArrangement(m, m.Keys, entries) && TakenFrom(entries, parsed, k, clamped)
  {
    if ComesFrom(m, parsed, k, clamped) {
      var rest := Arrange(m, m.Keys - {k});
      var entries, at := Place(m, m.Keys, rest, k, clamped);
      OrderTakes(m, entries, parsed, k, clamped, at);
    }
    forall entries: seq<Entry> | IsArrangement(m, m.Keys, entries) && TakenFrom(entries, parsed, k, clamped)
      ensures ComesFrom(m, parsed, k, clamped)
    {
      var at :| 0 <= at < |entries| && entries[at].key == k && IsTaken(entries, parsed, at, clamped);
      if clamped {
        LowestFound(m, entries);
      } else {
        FloorFound(m, parsed.value, entries, at);
      }
    }
  }

  lemma OrderTakes(m: map<string, string>, entries: seq<Entry>, parsed: Option<Version>, k: string, clamped: bool,
                   at: nat)
    requires IsArrangement(m, m.Keys, entries) && ComesFrom(m, parsed, k, clamped)
    requires at < |entries| && entries[at] == Entry(VersionOf(k), k)
    requires clamped ==> forall j :: 0 <= j < at ==> Less(entries[j].ver, VersionOf(k))
    requires !clamped ==> forall j :: at < j < |entries| ==> Less(VersionOf(k), entries[j].ver)
    ensures TakenFrom(entries, parsed, k, clamped)
  {
    assert IsKey(m, entries[0].key);
    if !clamped && at + 1 < |entries| {
      assert IsKey(m, entries[at + 1].key);
    }
    assert IsTaken(entries, parsed, at, clamped);
  }
}
