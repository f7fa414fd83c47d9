/** The taint list a node group asks for: its text form and the parser that validates it. */
module NodeTaints {
  import opened Text

  datatype Taint = Taint(key: string, value: string, effect: string)

  /** Why an item was skipped. */
  datatype Warning =
    | BadEffect(item: string)
    | BadKey(item: string)
    | ReservedKey(key: string)
    | BadValue(item: string)
    | Duplicate(id: string)

  const SEPARATOR: char := ';'

  // ---------------------------------------------------------------- what is valid

  predicate IsEffect(effect: string) {
    effect == "NoSchedule" || effect == "PreferNoSchedule" || effect == "NoExecute"
  }

  predicate IsLower(c: char) {
    'a' <= c <= 'z' || '0' <= c <= '9'
  }

  predicate IsAlphanumeric(c: char) {
    IsLower(c) || 'A' <= c <= 'Z'
  }

  /** qualifiedNameRe, which is also labelValueRe. */
  predicate IsQualifiedName(s: string) {
    && 1 <= |s| <= 63
    && IsAlphanumeric(s[0]) && IsAlphanumeric(s[|s| - 1])
    && forall i :: 0 <= i < |s| ==> IsAlphanumeric(s[i]) || s[i] in "._-"
  }

  predicate IsDnsLabel(s: string) {
    && 1 <= |s| <= 63
    && IsLower(s[0]) && IsLower(s[|s| - 1])
    && forall i :: 0 <= i < |s| ==> IsLower(s[i]) || s[i] == '-'
  }

  /** dnsSubdomainRe. */
  predicate IsDnsSubdomain(s: string) {
    forall i :: 0 <= i < |Split(s, '.')| ==> IsDnsLabel(Split(s, '.')[i])
  }

  /** validLabelKey: [prefix/]name. */
  predicate IsLabelKey(key: string) {
    var i := FirstIndex(key, '/');
    if i == |key| then IsQualifiedName(key)
    else i <= 253 && IsDnsSubdomain(key[..i]) && IsQualifiedName(key[i + 1..])
  }

  predicate IsReserved(key: string) {
    "node-role.kubernetes.io/" <= key || "node.kubernetes.io/" <= key
  }

  predicate IsValid(t: Taint) {
    && IsEffect(t.effect) && IsLabelKey(t.key) && !IsReserved(t.key)
    && (t.value == "" || IsQualifiedName(t.value))
  }

  // ---------------------------------------------------------------- printing and parsing

  /** NodeTaint.String. */
  function Print(t: Taint): string {
    if t.value == "" then t.key + ":" + t.effect else t.key + "=" + t.value + ":" + t.effect
  }

  function PrintAll(taints: seq<Taint>): seq<string> {
    seq(|taints|, i requires 0 <= i < |taints| => Print(taints[i]))
  }

  function Id(t: Taint): string {
    t.key + ":" + t.effect
  }

  datatype Item = Accepted(taint: Taint) | Rejected(warning: Warning)

  /** An item's text before the effect, cut into key and value and checked. */
  function ParseBody(item: string, body: string, effect: string): Item {
    var j := FirstIndex(body, '=');
    var key := TrimSpace(body[..j]);
    var value := if j == |body| then "" else TrimSpace(body[j + 1..]);
    if !IsLabelKey(key) then Rejected(BadKey(item))
    else if IsReserved(key) then Rejected(ReservedKey(key))
    else if value != "" && !IsQualifiedName(value) then Rejected(BadValue(item))
    else Accepted(Taint(key, value, effect))
  }

  /** One item, duplicates aside. */
  function ParseItem(item: string): Item {
    var i := LastIndex(item, ':');
    if i < 0 || !IsEffect(item[i + 1..]) then Rejected(BadEffect(item))
    else ParseBody(item, item[..i], item[i + 1..])
  }

  datatype Parse = Parse(taints: seq<Taint>, warnings: seq<Warning>)

  function IdsOf(taints: seq<Taint>): set<string> {
    set i | 0 <= i < |taints| :: Id(taints[i])
  }

  function WithItem(p: Parse, raw: string): Parse {
    var item := TrimSpace(raw);
    if item == "" then p
    else match ParseItem(item)
      case Rejected(warning) => p.(warnings := p.warnings + [warning])
      case Accepted(taint) =>
        if Id(taint) in IdsOf(p.taints) then p.(warnings := p.warnings + [Duplicate(Id(taint))])
        else p.(taints := p.taints + [taint])
  }

  function ParseItems(items: seq<string>): Parse {
    if |items| == 0 then Parse([], [])
    else WithItem(ParseItems(items[..|items| - 1]), items[|items| - 1])
  }

  function Parsed(raw: string): Parse {
    if TrimSpace(raw) == "" then Parse([], []) else ParseItems(Split(TrimSpace(raw), SEPARATOR))
  }

  /** The checks ParseNodeTaints makes of one trimmed item. */
  method CheckItem(item: string) returns (r: Item)
    ensures r == ParseItem(item)
  {
    var colon := LastIndex(item, ':');
    if colon < 0 || !IsEffect(item[colon + 1..]) {
      return Rejected(BadEffect(item));
    }
    var body, effect := item[..colon], item[colon + 1..];
    var equals := FirstIndex(body, '=');
    var key := TrimSpace(body[..equals]);
    var value := "";
    if equals < |body| {
      value := TrimSpace(body[equals + 1..]);
    }
    if !IsLabelKey(key) {
      return Rejected(BadKey(item));
    }
    if IsReserved(key) {
      return Rejected(ReservedKey(key));
    }
    if value != "" && !IsQualifiedName(value) {
      return Rejected(BadValue(item));
    }
    return Accepted(Taint(key, value, effect));
  }

  /** The loop of ParseNodeTaints. */
  method ParseNodeTaints(raw: string) returns (taints: seq<Taint>, warnings: seq<Warning>)
    ensures Parse(taints, warnings) == Parsed(raw)
  {
    taints, warnings := [], [];
    var trimmed := TrimSpace(raw);
    if trimmed == "" {
      return;
    }
    var items := Split(trimmed, SEPARATOR);
    var seen: set<string> := {};
    for n := 0 to |items|
      invariant Parse(taints, warnings) == ParseItems(items[..n])
      invariant seen == IdsOf(taints)
    {
      assert items[..n + 1] == items[..n] + [items[n]];
      ParseItemsAppend(items[..n], items[n]);
      var item := TrimSpace(items[n]);
      if item == "" {
        continue;
      }
      var checked := CheckItem(item);
      if checked.Rejected? {
        warnings := warnings + [checked.warning];
        continue;
      }
      var taint := checked.taint;
      var id := taint.key + ":" + taint.effect;
      if id in seen {
        warnings := warnings + [Duplicate(id)];
        continue;
      }
      IdsOfAppend(taints, taint);
      seen := seen + {id};
      taints := taints + [taint];
    }
    assert items[..|items|] == items;
  }

  lemma IdsOfAppend(taints: seq<Taint>, t: Taint)
    ensures IdsOf(taints + [t]) == IdsOf(taints) + {Id(t)}
  {
    var all := taints + [t];
    assert all[|taints|] == t;
    forall id | id in IdsOf(taints) ensures id in IdsOf(all) {
      var i :| 0 <= i < |taints| && Id(taints[i]) == id;
      assert all[i] == taints[i];
    }
  }

  // ---------------------------------------------------------------- what the parser lets through

  predicate AllValid(taints: seq<Taint>) {
    forall i :: 0 <= i < |taints| ==> IsValid(taints[i])
  }

  /** No two taints share both key and effect. */
  predicate AllDistinct(taints: seq<Taint>) {
    forall i, j :: 0 <= i < j < |taints| ==> taints[i].key != taints[j].key || taints[i].effect != taints[j].effect
  }

  /** The items that say something. */
  function Stated(items: seq<string>): nat {
    if |items| == 0 then 0
    else Stated(items[..|items| - 1]) + (if TrimSpace(items[|items| - 1]) == "" then 0 else 1)
  }

  lemma AddTaint(taints: seq<Taint>, t: Taint)
    requires AllValid(taints) && AllDistinct(taints) && IsValid(t) && Id(t) !in IdsOf(taints)
    ensures AllValid(taints + [t]) && AllDistinct(taints + [t])
  {
    forall i | 0 <= i < |taints| ensures taints[i].key != t.key || taints[i].effect != t.effect {
      assert Id(taints[i]) in IdsOf(taints);
    }
  }

  lemma AcceptedIsValid(item: string)
    ensures ParseItem(item).Accepted? ==> IsValid(ParseItem(item).taint)
  {
  }

  /** Whatever the input, the result has only valid taints, no two with the same key and effect, and
      every stated item is either among the taints or warned about. */
  lemma {:induction false} ParseIsSound(items: seq<string>)
    ensures AllValid(ParseItems(items).taints) && AllDistinct(ParseItems(items).taints)
    ensures |ParseItems(items).taints| + |ParseItems(items).warnings| == Stated(items)
  {
    if |items| > 0 {
      var p, item := ParseItems(items[..|items| - 1]), TrimSpace(items[|items| - 1]);
      ParseIsSound(items[..|items| - 1]);
      AcceptedIsValid(item);
      if item != "" && ParseItem(item).Accepted? && Id(ParseItem(item).taint) !in IdsOf(p.taints) {
        AddTaint(p.taints, ParseItem(item).taint);
      }
    }
  }

  /** What a valid taint is, in the words of the API: one of the three effects, no reserved key, a key
      of a name and at most one prefix, and a value of at most 63 characters that starts and ends with
      a letter or digit. */
  lemma ValidInWords(t: Taint)
    requires IsValid(t)
    ensures t.effect == "NoSchedule" || t.effect == "PreferNoSchedule" || t.effect == "NoExecute"
    ensures !("node-role.kubernetes.io/" <= t.key) && !("node.kubernetes.io/" <= t.key)
    ensures |t.value| <= 63 && t.key != "" && |t.key| <= (if '/' in t.key then 253 + 1 + 63 else 63)
    ensures t.value != "" ==>
      var first, last := t.value[0], t.value[|t.value| - 1];
      && ('a' <= first <= 'z' || 'A' <= first <= 'Z' || '0' <= first <= '9')
      && ('a' <= last <= 'z' || 'A' <= last <= 'Z' || '0' <= last <= '9')
  {
    KeyChars(t.key);
    if '/' !in t.key {
      FirstIndexNone(t.key, '/');
    }
  }

  lemma FirstIndexNone(s: string, c: char)
    requires c !in s
    ensures FirstIndex(s, c) == |s|
  {
  }

  predicate IsPlain(s: string) {
    1 <= |s| <= 63 && forall i :: 0 <= i < |s| ==> 'a' <= s[i] <= 'z' || '0' <= s[i] <= '9'
  }

  function Prefixed(prefix: string, name: string): string {
    if prefix == "" then name else prefix + "/" + name
  }

  /** Plain names are valid, bare or behind a plain prefix, with each of the effects. */
  lemma PlainTaintsAreValid(prefix: string, name: string, value: string, effect: string)
    requires IsPlain(name) && (value == "" || IsPlain(value)) && (prefix == "" || IsPlain(prefix))
    requires effect == "NoSchedule" || effect == "PreferNoSchedule" || effect == "NoExecute"
    ensures IsValid(Taint(if prefix == "" then name else prefix + "/" + name, value, effect))
  {
    PlainKeyIsLabelKey(prefix, name);
    PlainKeyIsUnreserved(prefix, name);
  }

  lemma PlainKeyIsLabelKey(prefix: string, name: string)
    requires IsPlain(name) && (prefix == "" || IsPlain(prefix))
    ensures IsLabelKey(Prefixed(prefix, name))
  {
    if prefix == "" {
      FirstIndexNone(name, '/');
    } else {
      var key := prefix + ['/'] + name;
      FirstIndexAt(prefix, name, '/');
      assert key[..|prefix|] == prefix && key[|prefix| + 1..] == name && key == prefix + "/" + name;
      SplitOfClean(prefix, '.');
    }
  }

  lemma ReservedMark(key: string)
    requires IsReserved(key)
    ensures |key| > 4 && (key[4] == '-' || key[4] == '.')
  {
    var role, node := "node-role.kubernetes.io/", "node.kubernetes.io/";
    assert role[4] == '-' && node[4] == '.';
  }

  lemma PlainKeyIsUnreserved(prefix: string, name: string)
    requires IsPlain(name) && (prefix == "" || IsPlain(prefix))
    ensures !IsReserved(Prefixed(prefix, name))
  {
    var key := Prefixed(prefix, name);
    assert forall i :: 0 <= i < |key| ==> key[i] == '/' || 'a' <= key[i] <= 'z' || '0' <= key[i] <= '9';
    if IsReserved(key) {
      ReservedMark(key);
    }
  }

  predicate HasEffect(item: string) {
    LastIndex(item, ':') >= 0 && IsEffect(item[LastIndex(item, ':') + 1..])
  }

  lemma EndIsEffect(item: string)
    requires HasEffect(item)
    ensures EndsInEffect(item, item[..LastIndex(item, ':')])
  {
    var i := LastIndex(item, ':');
    assert item == item[..i] + [':'] + item[i + 1..];
  }

  /** Later items add to what earlier ones gave: of two taints with one key and effect the first stays. */
  lemma {:induction false} EarlierItemsStay(items: seq<string>, n: nat)
    requires n <= |items|
    ensures ParseItems(items[..n]).taints <= ParseItems(items).taints
    ensures ParseItems(items[..n]).warnings <= ParseItems(items).warnings
  {
    if n < |items| {
      EarlierItemsStay(items[..|items| - 1], n);
      assert items[..|items| - 1][..n] == items[..n];
    } else {
      assert items[..n] == items;
    }
  }

  /** What becomes of the text of any taint with an effect the API knows, and why. */
  lemma PrintedOutcome(t: Taint)
    requires IsEffect(t.effect) && '=' !in t.key && IsTrimmed(t.key) && IsTrimmed(t.value)
    ensures ParseItem(Print(t))
         == if !IsLabelKey(t.key) then Rejected(BadKey(Print(t)))
            else if "node-role.kubernetes.io/" <= t.key || "node.kubernetes.io/" <= t.key
            then Rejected(ReservedKey(t.key))
            else if t.value != "" && !IsQualifiedName(t.value) then Rejected(BadValue(Print(t)))
            else Accepted(t)
  {
    var body, item := Body(t), Print(t);
    assert item == body + [':'] + t.effect;
    EffectChars(t.effect);
    LastIndexAt(body, t.effect, ':');
    assert item[..|body|] == body && item[|body| + 1..] == t.effect;
    TrimmedBodyCuts(t);
  }

  lemma TrimmedBodyCuts(t: Taint)
    requires '=' !in t.key && IsTrimmed(t.key) && IsTrimmed(t.value)
    ensures var body, j := Body(t), FirstIndex(Body(t), '=');
            && TrimSpace(body[..j]) == t.key
            && (if j == |body| then "" else TrimSpace(body[j + 1..])) == t.value
  {
    var body := Body(t);
    TrimSpaceOfTrimmed(t.key);
    if t.value == "" {
      FirstIndexNone(body, '=');
      assert body[..|body|] == t.key;
    } else {
      TrimSpaceOfTrimmed(t.value);
      assert body == t.key + ['='] + t.value;
      FirstIndexAt(t.key, t.value, '=');
      assert body[..|t.key|] == t.key && body[|t.key| + 1..] == t.value;
    }
  }

  /** An item is rejected for its effect exactly when it does not end in a colon and one of the three. */
  lemma BadEffectIff(item: string)
    ensures ParseItem(item) == Rejected(BadEffect(item)) <==> !exists body :: EndsInEffect(item, body)
  {
    assert ParseItem(item) == Rejected(BadEffect(item)) <==> !HasEffect(item);
    if HasEffect(item) {
      EndIsEffect(item);
    }
    forall body | EndsInEffect(item, body) ensures HasEffect(item) {
      EndsBehind(item, body);
    }
  }

  predicate EndsInEffect(item: string, body: string) {
    item == body + ":NoSchedule" || item == body + ":PreferNoSchedule" || item == body + ":NoExecute"
  }

  lemma EndsBehind(item: string, body: string)
    requires EndsInEffect(item, body)
    ensures LastIndex(item, ':') == |body| && IsEffect(item[|body| + 1..])
  {
    if item == body + ":" + "NoSchedule" {
      EffectBehind(item, body, "NoSchedule");
    } else if item == body + ":" + "PreferNoSchedule" {
      EffectBehind(item, body, "PreferNoSchedule");
    } else {
      EffectBehind(item, body, "NoExecute");
    }
  }

  lemma EffectBehind(item: string, body: string, effect: string)
    requires IsEffect(effect) && item == body + ":" + effect
    ensures LastIndex(item, ':') == |body| && item[|body| + 1..] == effect
  {
    EffectChars(effect);
    assert item == body + [':'] + effect;
    LastIndexAt(body, effect, ':');
  }

  // ---------------------------------------------------------------- the round trip

  lemma NameChars(s: string)
    requires IsQualifiedName(s)
    ensures forall c :: c in s ==> IsAlphanumeric(c) || c in "._-"
    ensures IsTrimmed(s)
  {
  }

  predicate IsKeyChar(c: char) {
    IsAlphanumeric(c) || c in "._-/"
  }

  lemma {:induction false} JoinChars(parts: seq<string>, c: char)
    requires forall i :: 0 <= i < |parts| ==> forall x :: x in parts[i] ==> IsKeyChar(x)
    requires IsKeyChar(c)
    ensures forall x :: x in Join(parts, [c]) ==> IsKeyChar(x)
  {
    if |parts| > 1 {
      JoinChars(parts[1..], c);
    }
  }

  lemma KeyChars(key: string)
    requires IsLabelKey(key)
    ensures key != "" && IsTrimmed(key)
    ensures forall c :: c in key ==> IsKeyChar(c)
  {
    var i := FirstIndex(key, '/');
    if i == |key| {
      NameChars(key);
    } else {
      var prefix, name := key[..i], key[i + 1..];
      assert key == prefix + "/" + name;
      NameChars(name);
      JoinOfSplit(prefix, '.');
      JoinChars(Split(prefix, '.'), '.');
      assert key[|key| - 1] == name[|name| - 1];
      assert IsKeyChar(key[0]) by {
        assert key[0] in key;
      }
    }
  }

  lemma EffectChars(effect: string)
    requires IsEffect(effect)
    ensures forall c :: c in effect ==> IsAlphanumeric(c)
    ensures effect != "" && IsTrimmed(effect)
  {
  }

  /** The part of a printed taint before its effect. */
  function Body(t: Taint): string {
    if t.value == "" then t.key else t.key + "=" + t.value
  }

  lemma PrintEnds(t: Taint)
    requires IsValid(t)
    ensures Print(t) == Body(t) + [':'] + t.effect
    ensures Print(t) != "" && IsTrimmed(Print(t)) && SEPARATOR !in Print(t)
  {
    KeyChars(t.key);
    EffectChars(t.effect);
    if t.value != "" {
      NameChars(t.value);
    }
    var s := Print(t);
    assert s == Body(t) + [':'] + t.effect;
    assert s[0] == t.key[0] && s[|s| - 1] == t.effect[|t.effect| - 1];
  }

  lemma BodyCuts(t: Taint)
    requires IsValid(t)
    ensures var body, j := Body(t), FirstIndex(Body(t), '=');
            && TrimSpace(body[..j]) == t.key
            && (if j == |body| then "" else TrimSpace(body[j + 1..])) == t.value
  {
    KeyChars(t.key);
    if t.value != "" {
      NameChars(t.value);
    }
    TrimmedBodyCuts(t);
  }

  lemma BodyParses(t: Taint, item: string)
    requires IsValid(t)
    ensures ParseBody(item, Body(t), t.effect) == Accepted(t)
  {
    BodyCuts(t);
  }

  /** What a valid taint prints parses to the taint. */
  lemma PrintParses(t: Taint)
    requires IsValid(t)
    ensures ParseItem(Print(t)) == Accepted(t)
  {
    var body, item := Body(t), Print(t);
    PrintEnds(t);
    EffectChars(t.effect);
    LastIndexAt(body, t.effect, ':');
    assert item[..|body|] == body && item[|body| + 1..] == t.effect;
    BodyParses(t, item);
  }

  lemma SameId(a: Taint, b: Taint)
    requires IsEffect(a.effect) && IsEffect(b.effect) && Id(a) == Id(b)
    ensures a.key == b.key && a.effect == b.effect
  {
    EffectChars(a.effect);
    EffectChars(b.effect);
    LastIndexAt(a.key, a.effect, ':');
    LastIndexAt(b.key, b.effect, ':');
    assert Id(a) == a.key + [':'] + a.effect && Id(b) == b.key + [':'] + b.effect;
    assert a.key == Id(a)[..|a.key|] && b.key == Id(b)[..|b.key|];
    assert a.effect == Id(a)[|a.key| + 1..] && b.effect == Id(b)[|b.key| + 1..];
  }

  lemma WithPrinted(front: seq<Taint>, t: Taint)
    requires IsValid(t) && Id(t) !in IdsOf(front)
    ensures WithItem(Parse(front, []), Print(t)) == Parse(front + [t], [])
  {
    PrintParses(t);
    PrintEnds(t);
    TrimSpaceOfTrimmed(Print(t));
  }

  lemma LastIsNew(front: seq<Taint>, last: Taint)
    requires AllValid(front + [last]) && AllDistinct(front + [last])
    ensures AllValid(front) && AllDistinct(front) && IsValid(last) && Id(last) !in IdsOf(front)
  {
    var all := front + [last];
    assert forall i :: 0 <= i < |front| ==> all[i] == front[i];
    assert all[|front|] == last;
    forall i | 0 <= i < |front| ensures Id(front[i]) != Id(last) {
      if Id(front[i]) == Id(last) {
        SameId(front[i], last);
      }
    }
  }

  lemma PrintAllAppend(front: seq<Taint>, last: Taint)
    ensures PrintAll(front + [last]) == PrintAll(front) + [Print(last)]
  {
  }

  lemma ParseItemsAppend(items: seq<string>, item: string)
    ensures ParseItems(items + [item]) == WithItem(ParseItems(items), item)
  {
    assert (items + [item])[..|items|] == items;
  }

  lemma {:induction false} ItemsRoundTrip(taints: seq<Taint>)
    requires AllValid(taints) && AllDistinct(taints)
    ensures ParseItems(PrintAll(taints)) == Parse(taints, [])
  {
    if |taints| > 0 {
      var front, last := taints[..|taints| - 1], taints[|taints| - 1];
      assert taints == front + [last];
      LastIsNew(front, last);
      ItemsRoundTrip(front);
      PrintAllAppend(front, last);
      ParseItemsAppend(PrintAll(front), Print(last));
      WithPrinted(front, last);
    }
  }

  lemma JoinedIsTrimmed(taints: seq<Taint>)
    requires AllValid(taints) && taints != []
    ensures Join(PrintAll(taints), [SEPARATOR]) != "" && IsTrimmed(Join(PrintAll(taints), [SEPARATOR]))
  {
    forall i | 0 <= i < |taints| ensures Print(taints[i]) != "" && IsTrimmed(Print(taints[i])) {
      PrintEnds(taints[i]);
    }
    JoinEnds(PrintAll(taints));
  }

  lemma {:induction false} JoinEnds(parts: seq<string>)
    requires |parts| > 0
    requires forall i :: 0 <= i < |parts| ==> parts[i] != "" && IsTrimmed(parts[i])
    ensures Join(parts, [SEPARATOR]) != "" && IsTrimmed(Join(parts, [SEPARATOR]))
  {
    if |parts| > 1 {
      JoinEnds(parts[1..]);
      var s, rest := Join(parts, [SEPARATOR]), Join(parts[1..], [SEPARATOR]);
      assert s == parts[0] + [SEPARATOR] + rest;
      assert s[0] == parts[0][0] && s[|s| - 1] == rest[|rest| - 1];
    }
  }

  /** Printing a list of taints and parsing it gives the list back without a warning exactly when
      every taint is valid and unreserved and no two have the same key and effect. */
  lemma RoundTripIff(taints: seq<Taint>)
    ensures Parsed(Join(PrintAll(taints), ";")) == Parse(taints, [])
       <==> AllValid(taints) && AllDistinct(taints)
  {
    assert ";" == [SEPARATOR];
    var text := Join(PrintAll(taints), [SEPARATOR]);
    if Parsed(text) == Parse(taints, []) {
      ParseIsSound(Split(TrimSpace(text), SEPARATOR));
    }
    if AllValid(taints) && AllDistinct(taints) && taints != [] {
      JoinedIsTrimmed(taints);
      TrimSpaceOfTrimmed(text);
      forall i | 0 <= i < |taints| ensures SEPARATOR !in PrintAll(taints)[i] {
        PrintEnds(taints[i]);
      }
      SplitOfJoin(PrintAll(taints), SEPARATOR);
      ItemsRoundTrip(taints);
    }
  }
}
