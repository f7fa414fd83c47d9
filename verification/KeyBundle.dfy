/** Bounded trust bundles: capping service-account key and CA certificate bundles, and the registry
    of keys that were withdrawn. */
module KeyBundle {
  import opened Text

  /** A PEM block: a public key, a certificate with the key it carries, or anything that does not
      parse as either. Keys and certificates are known by their ids. */
  datatype Block = PublicKey(id: string) | Certificate(fingerprint: string, keyId: string) | Unparsed

  // ---------------------------------------------------------------- what a bundle holds

  datatype Kind = Keys | Certificates

  /** The id under which a block counts in a bundle of this kind; a certificate also carries a key. */
  function IdOf(b: Block, kind: Kind): Option<string> {
    match b
    case PublicKey(id) => if kind.Keys? then Some(id) else None
    case Certificate(fingerprint, keyId) => if kind.Keys? then Some(keyId) else Some(fingerprint)
    case Unparsed => None
  }

  /** The parsed ids in order, with repetitions. */
  function Ids(bundle: seq<Block>, kind: Kind): seq<string> {
    if |bundle| == 0 then []
    else
      var last := IdOf(bundle[|bundle| - 1], kind);
      Ids(bundle[..|bundle| - 1], kind) + (if last.Some? then [last.value] else [])
  }

  function KeyIds(bundle: seq<Block>): seq<string> {
    Ids(bundle, Keys)
  }

  function CertIds(bundle: seq<Block>): seq<string> {
    Ids(bundle, Certificates)
  }

  lemma IdsStep(bundle: seq<Block>, i: nat, kind: Kind)
    requires i < |bundle|
    ensures Ids(bundle[..i + 1], kind)
         == Ids(bundle[..i], kind) + (if IdOf(bundle[i], kind).Some? then [IdOf(bundle[i], kind).value] else [])
  {
    assert bundle[..i + 1][..i] == bundle[..i];
  }

  lemma IdsAppend(bundle: seq<Block>, b: Block, kind: Kind)
    ensures Ids(bundle + [b], kind) == Ids(bundle, kind) + (if IdOf(b, kind).Some? then [IdOf(b, kind).value] else [])
  {
    assert (bundle + [b])[..|bundle|] == bundle;
  }

  /** The key ids of a bundle are those of its public keys and of the keys its certificates carry. */
  lemma {:induction false} KeyIdsOf(bundle: seq<Block>, id: string)
    ensures id in KeyIds(bundle)
       <==> exists b :: b in bundle && (b == PublicKey(id) || (b.Certificate? && b.keyId == id))
  {
    if |bundle| > 0 {
      var front, last := bundle[..|bundle| - 1], bundle[|bundle| - 1];
      KeyIdsOf(front, id);
      assert bundle == front + [last];
      if last == PublicKey(id) || (last.Certificate? && last.keyId == id) {
        assert last in bundle;
      }
    }
  }

  /** The certificate ids are the fingerprints of its certificates. */
  lemma {:induction false} CertIdsOf(bundle: seq<Block>, id: string)
    ensures id in CertIds(bundle) <==> exists b :: b in bundle && b.Certificate? && b.fingerprint == id
  {
    if |bundle| > 0 {
      var front, last := bundle[..|bundle| - 1], bundle[|bundle| - 1];
      CertIdsOf(front, id);
      assert bundle == front + [last];
      if last.Certificate? && last.fingerprint == id {
        assert last in bundle;
      }
    }
  }

  /** First occurrences only. */
  function Dedup(ids: seq<string>): seq<string> {
    if |ids| == 0 then []
    else
      var rest, last := Dedup(ids[..|ids| - 1]), ids[|ids| - 1];
      if last in rest then rest else rest + [last]
  }

  predicate Distinct(s: seq<string>) {
    forall i, j :: 0 <= i < j < |s| ==> s[i] != s[j]
  }

  function Limit(count: nat, max: int): nat {
    if max > 0 && count > max then max else count
  }

  lemma DedupAppend(ids: seq<string>, id: string)
    ensures Dedup(ids + [id]) == if id in Dedup(ids) then Dedup(ids) else Dedup(ids) + [id]
  {
    assert (ids + [id])[..|ids|] == ids;
  }

  lemma {:induction false} DedupIsDistinct(ids: seq<string>)
    ensures Distinct(Dedup(ids)) && forall x :: x in Dedup(ids) <==> x in ids
  {
    if |ids| > 0 {
      DedupIsDistinct(ids[..|ids| - 1]);
      assert ids == ids[..|ids| - 1] + [ids[|ids| - 1]];
    }
  }

  /** Duplicates are removed behind the first occurrence: what comes later never moves what came before. */
  lemma {:induction false} DedupPrefix(ids: seq<string>, n: nat)
    requires n <= |ids|
    ensures Dedup(ids[..n]) <= Dedup(ids)
  {
    if n < |ids| {
      DedupPrefix(ids[..|ids| - 1], n);
      assert ids[..|ids| - 1][..n] == ids[..n];
    } else {
      assert ids[..n] == ids;
    }
  }

  lemma {:induction false} DedupOfDistinct(ids: seq<string>)
    requires Distinct(ids)
    ensures Dedup(ids) == ids
  {
    if |ids| > 0 {
      DedupOfDistinct(ids[..|ids| - 1]);
      assert ids == ids[..|ids| - 1] + [ids[|ids| - 1]];
    }
  }

  lemma {:induction false} IdsConcat(a: seq<Block>, b: seq<Block>, kind: Kind)
    ensures Ids(a + b, kind) == Ids(a, kind) + Ids(b, kind)
  {
    if |b| == 0 {
      assert a + b == a;
    } else {
      assert (a + b)[..|a + b| - 1] == a + b[..|b| - 1];
      IdsConcat(a, b[..|b| - 1], kind);
    }
  }

  // ---------------------------------------------------------------- capping

  /** ParsePublicKeyPEMs: what parses, re-encoded as plain public keys. */
  method ParsePublicKeys(bundle: seq<Block>) returns (keys: seq<Block>)
    ensures |keys| == |KeyIds(bundle)|
    ensures forall i :: 0 <= i < |keys| ==> keys[i] == PublicKey(KeyIds(bundle)[i])
  {
    keys := [];
    for i := 0 to |bundle|
      invariant |keys| == |KeyIds(bundle[..i])|
      invariant forall j :: 0 <= j < |keys| ==> keys[j] == PublicKey(KeyIds(bundle[..i])[j])
    {
      IdsStep(bundle, i, Keys);
      var id := IdOf(bundle[i], Keys);
      if id.Some? {
        keys := keys + [PublicKey(id.value)];
      }
    }
    assert bundle[..|bundle|] == bundle;
  }

  /** One new distinct id: it is kept while there is room, and dropped from then on. */
  lemma CapStep(kept: seq<string>, dropped: seq<string>, all: seq<string>, id: string, max: int)
    requires kept + dropped == all && |kept| == Limit(|all|, max)
    ensures max > 0 && |kept| >= max ==> kept + (dropped + [id]) == all + [id] && |kept| == Limit(|all| + 1, max)
    ensures !(max > 0 && |kept| >= max) ==>
      (kept + [id]) + dropped == all + [id] && |kept| + 1 == Limit(|all| + 1, max)
  {
  }

  /** How far the loop of CapPublicKeyBundle is after keys with the distinct ids `all`. */
  ghost predicate Capped(all: seq<string>, seen: set<string>, kept: seq<Block>, dropped: seq<string>, max: int) {
    && (forall x :: x in seen <==> x in all)
    && KeyIds(kept) + dropped == all
    && |KeyIds(kept)| == |kept| == Limit(|all|, max)
    && forall j :: 0 <= j < |kept| ==> kept[j].PublicKey?
  }

  lemma CappedDrops(all: seq<string>, seen: set<string>, kept: seq<Block>, dropped: seq<string>, max: int, id: string)
    requires Capped(all, seen, kept, dropped, max) && max > 0 && |kept| >= max
    ensures Capped(all + [id], seen + {id}, kept, dropped + [id], max)
  {
    CapStep(KeyIds(kept), dropped, all, id, max);
  }

  lemma CappedKeeps(all: seq<string>, seen: set<string>, kept: seq<Block>, dropped: seq<string>, max: int, id: string)
    requires Capped(all, seen, kept, dropped, max) && !(max > 0 && |kept| >= max)
    ensures Capped(all + [id], seen + {id}, kept + [PublicKey(id)], dropped, max)
  {
    CapStep(KeyIds(kept), dropped, all, id, max);
    IdsAppend(kept, PublicKey(id), Keys);
  }

  /** CapPublicKeyBundle: kept followed by dropped is the duplicate-free sequence of parsed keys, cut
      at `max`; a bundle in which nothing parses is returned as it is. */
  method CapPublicKeyBundle(bundle: seq<Block>, max: int) returns (kept: seq<Block>, dropped: seq<string>)
    ensures KeyIds(bundle) == [] ==> kept == bundle && dropped == []
    ensures KeyIds(kept) + dropped == Dedup(KeyIds(bundle))
    ensures |KeyIds(kept)| == Limit(|Dedup(KeyIds(bundle))|, max)
    ensures max <= 0 ==> dropped == []
    ensures max > 0 && dropped != [] ==> |KeyIds(kept)| == max
    ensures max > 0 ==> |KeyIds(kept)| <= max
    ensures KeyIds(bundle) != [] ==> kept != [] && forall i :: 0 <= i < |kept| ==> kept[i].PublicKey?
  {
    var keys := ParsePublicKeys(bundle);
    if |keys| == 0 {
      return bundle, [];
    }
    kept, dropped := [], [];
    var seen: set<string>, count := {}, 0;
    ghost var ids := KeyIds(bundle);
    for i := 0 to |keys|
      invariant Capped(Dedup(ids[..i]), seen, kept, dropped, max) && count == |kept|
      invariant i > 0 ==> count > 0
    {
      var id := keys[i].id;
      assert ids[..i + 1] == ids[..i] + [id];
      ghost var all := Dedup(ids[..i]);
      DedupAppend(ids[..i], id);
      if id in seen {
        continue;
      }
      if max > 0 && count >= max {
        CappedDrops(all, seen, kept, dropped, max, id);
        dropped := dropped + [id];
      } else {
        CappedKeeps(all, seen, kept, dropped, max, id);
        kept := kept + [keys[i]];
        count := count + 1;
      }
      seen := seen + {id};
    }
    assert ids[..|keys|] == ids;
  }

  /** CapCertBundle: the same for certificates, of which only the number dropped is reported. */
  method CapCertBundle(bundle: seq<Block>, max: int) returns (kept: seq<Block>, dropped: nat)
    ensures CertIds(bundle) == [] ==> kept == bundle && dropped == 0
    ensures CertIds(kept) == Dedup(CertIds(bundle))[..Limit(|Dedup(CertIds(bundle))|, max)]
    ensures |CertIds(kept)| + dropped == |Dedup(CertIds(bundle))|
    ensures max <= 0 ==> dropped == 0
    ensures max > 0 ==> |CertIds(kept)| <= max && (dropped > 0 ==> |CertIds(kept)| == max)
    ensures CertIds(bundle) != [] ==> kept != []
  {
    kept, dropped := [], 0;
    var parsed, count := 0, 0;
    var seen: set<string> := {};
    ghost var evicted: seq<string> := [];
    for i := 0 to |bundle|
      invariant parsed == |CertIds(bundle[..i])|
      invariant forall x :: x in seen <==> x in Dedup(CertIds(bundle[..i]))
      invariant CertIds(kept) + evicted == Dedup(CertIds(bundle[..i])) && |evicted| == dropped
      invariant |CertIds(kept)| == |kept| == count == Limit(|Dedup(CertIds(bundle[..i]))|, max)
      invariant parsed > 0 ==> count > 0
    {
      ghost var ids := CertIds(bundle[..i]);
      IdsStep(bundle, i, Certificates);
      if !bundle[i].Certificate? {
        assert CertIds(bundle[..i + 1]) == ids;
        continue;
      }
      var fingerprint := bundle[i].fingerprint;
      assert CertIds(bundle[..i + 1]) == ids + [fingerprint];
      DedupAppend(ids, fingerprint);
      parsed := parsed + 1;
      if fingerprint in seen {
        continue;
      }
      seen := seen + {fingerprint};
      CapStep(CertIds(kept), evicted, Dedup(ids), fingerprint, max);
      if max > 0 && count >= max {
        dropped, evicted := dropped + 1, evicted + [fingerprint];
      } else {
        IdsAppend(kept, bundle[i], Certificates);
        kept := kept + [bundle[i]];
        count := count + 1;
      }
    }
    assert bundle[..|bundle|] == bundle;
    if parsed == 0 {
      return bundle, 0;
    }
  }

  /** Capping what was capped changes nothing and drops nothing. */
  method CapTwice(bundle: seq<Block>, max: int) returns (once: seq<Block>, twice: seq<Block>, dropped: seq<string>)
    ensures KeyIds(twice) == KeyIds(once) && dropped == []
  {
    var firstDropped;
    once, firstDropped := CapPublicKeyBundle(bundle, max);
    twice, dropped := CapPublicKeyBundle(once, max);
    DedupIsDistinct(KeyIds(bundle));
    assert Distinct(KeyIds(once)) by {
      var all := Dedup(KeyIds(bundle));
      assert forall i :: 0 <= i < |KeyIds(once)| ==> KeyIds(once)[i] == all[i];
    }
    DedupOfDistinct(KeyIds(once));
  }

  // ---------------------------------------------------------------- retired keys

  function Trimmed(ids: seq<string>): set<string> {
    set i | 0 <= i < |ids| && TrimSpace(ids[i]) != "" :: TrimSpace(ids[i])
  }

  /** RecordRetiredSAKeys on the registry's set: entries are only ever added, and the file is
      rewritten only when one is new. */
  method RecordRetired(registry: set<string>, ids: seq<string>) returns (registry': set<string>, rewritten: bool)
    ensures registry' == registry + Trimmed(ids)
    ensures forall id :: id in registry' <==>
      id in registry || (id != "" && exists i :: 0 <= i < |ids| && TrimSpace(ids[i]) == id)
    ensures rewritten <==> registry' != registry
  {
    registry', rewritten := registry, false;
    for i := 0 to |ids|
      invariant registry' == registry + Trimmed(ids[..i])
      invariant rewritten <==> registry' != registry
    {
      assert Trimmed(ids[..i + 1])
          == Trimmed(ids[..i]) + (if TrimSpace(ids[i]) != "" then {TrimSpace(ids[i])} else {});
      var id := TrimSpace(ids[i]);
      if id != "" && id !in registry' {
        registry' := registry' + {id};
        rewritten := true;
      }
    }
    assert ids[..|ids|] == ids;
  }

  // ---------------------------------------------------------------- rotations

  const MAX_TRUST_GENERATIONS: int := 3

  /** The verify keys a master publishes, and the ids its registry withholds from re-adoption. */
  datatype Trust = Trust(published: seq<Block>, retired: set<string>)

  function Published(t: Trust): seq<string> {
    Dedup(KeyIds(t.published))
  }

  function SetOf(ids: seq<string>): set<string> {
    set x | x in ids
  }

  /** Key ids are base64url text. */
  predicate AreIds(ids: seq<string>) {
    forall i :: 0 <= i < |ids| ==> ids[i] != "" && IsTrimmed(ids[i])
  }

  lemma TrimmedIds(ids: seq<string>)
    requires AreIds(ids)
    ensures Trimmed(ids) == SetOf(ids)
  {
    forall i | 0 <= i < |ids| ensures TrimSpace(ids[i]) == ids[i] {
      TrimSpaceOfTrimmed(ids[i]);
    }
  }

  /** What a master's trust amounts to: published ids, newest first, and withdrawn ids. */
  datatype Ledger = Ledger(published: seq<string>, retired: set<string>)

  function LedgerOf(t: Trust): Ledger {
    Ledger(Published(t), t.retired)
  }

  /** A rotation that is held: the new key joins in front, what no longer fits is retired. Recording
      is best effort: `recorded` says whether it worked. */
  function Held(l: Ledger, newKey: string, recorded: bool): Ledger {
    var all := Dedup([newKey] + l.published);
    var keep := Limit(|all|, MAX_TRUST_GENERATIONS);
    Ledger(all[..keep], if recorded then l.retired + SetOf(all[keep..]) else l.retired)
  }

  /** Finalize: everything but the rotation's key is retired. */
  function Narrowed(l: Ledger, key: string, recorded: bool): Ledger {
    Ledger([key], if recorded then l.retired + (SetOf(l.published) - {key}) else l.retired)
  }

  lemma {:induction false} DedupInner(a: seq<string>, b: seq<string>)
    ensures Dedup(a + Dedup(b)) == Dedup(a + b)
  {
    if |b| == 0 {
      assert a + b == a && a + Dedup(b) == a;
    } else {
      var rest, last := b[..|b| - 1], b[|b| - 1];
      DedupInner(a, rest);
      assert a + b == (a + rest) + [last];
      DedupAppend(a + rest, last);
      if last in Dedup(rest) {
        DedupIsDistinct(a + Dedup(rest));
      } else {
        assert a + Dedup(b) == (a + Dedup(rest)) + [last];
        DedupAppend(a + Dedup(rest), last);
      }
    }
  }

  lemma AreIdsOfDedup(ids: seq<string>, keep: nat)
    requires AreIds(ids) && keep <= |Dedup(ids)|
    ensures AreIds(Dedup(ids)[keep..])
  {
    DedupIsDistinct(ids);
    forall i | keep <= i < |Dedup(ids)| ensures Dedup(ids)[i] != "" && IsTrimmed(Dedup(ids)[i]) {
      assert Dedup(ids)[i] in Dedup(ids);
      assert Dedup(ids)[i] in ids;
    }
  }

  /** The best-effort record of withdrawn keys. */
  method Retire(registry: set<string>, ids: seq<string>, recorded: bool) returns (registry': set<string>)
    requires AreIds(ids)
    ensures registry' == if recorded then registry + SetOf(ids) else registry
  {
    registry' := registry;
    if recorded {
      TrimmedIds(ids);
      var rewritten;
      registry', rewritten := RecordRetired(registry, ids);
    }
  }

  lemma VerifyIds(t: Trust, newKey: string)
    ensures KeyIds([PublicKey(newKey)] + t.published) != []
    ensures Dedup(KeyIds([PublicKey(newKey)] + t.published)) == Dedup([newKey] + Published(t))
  {
    IdsConcat([PublicKey(newKey)], t.published, Keys);
    assert KeyIds([PublicKey(newKey)]) == [newKey];
    DedupInner([newKey], KeyIds(t.published));
  }

  lemma CutIds(ids: seq<string>, kept: seq<string>, dropped: seq<string>)
    requires kept + dropped == Dedup(ids)
    ensures kept == Dedup(ids)[..|kept|] && dropped == Dedup(ids)[|kept|..]
    ensures Dedup(kept) == kept
    ensures dropped == [] ==> Dedup(ids)[..|kept|] == Dedup(ids) && SetOf(Dedup(ids)[|kept|..]) == {}
  {
    DedupIsDistinct(ids);
    assert forall i :: 0 <= i < |kept| ==> kept[i] == Dedup(ids)[i];
    DedupOfDistinct(kept);
  }

  /** The verify bundle of prepare: the new key in front of the live bundle, capped; what is evicted
      goes to the registry. */
  method HoldRotation(t: Trust, newKey: string, recorded: bool) returns (t': Trust)
    requires AreIds([newKey] + Published(t))
    ensures LedgerOf(t') == Held(LedgerOf(t), newKey, recorded)
  {
    var verify := [PublicKey(newKey)] + t.published;
    VerifyIds(t, newKey);
    var capped, dropped := CapPublicKeyBundle(verify, MAX_TRUST_GENERATIONS);
    CutIds([newKey] + Published(t), KeyIds(capped), dropped);
    assert |capped| > 0;
    if |dropped| == 0 || |capped| == 0 {
      return Trust(verify, t.retired);
    }
    AreIdsOfDedup([newKey] + Published(t), |KeyIds(capped)|);
    var retired := Retire(t.retired, dropped, recorded);
    return Trust(capped, retired);
  }

  /** Finalize: the live bundle is narrowed to the rotation's key, after everything else in it has
      been put in the registry. */
  method FinalizeRotation(t: Trust, key: string, recorded: bool) returns (t': Trust)
    requires AreIds(Published(t))
    ensures LedgerOf(t') == Narrowed(LedgerOf(t), key, recorded)
  {
    var live := ParsePublicKeys(t.published);
    DedupIsDistinct(KeyIds(t.published));
    var dropped: seq<string> := [];
    for i := 0 to |live|
      invariant forall x :: x in dropped <==> x != key && x in KeyIds(t.published)[..i]
    {
      assert KeyIds(t.published)[..i + 1] == KeyIds(t.published)[..i] + [live[i].id];
      if live[i].id != key {
        dropped := dropped + [live[i].id];
      }
    }
    assert KeyIds(t.published)[..|live|] == KeyIds(t.published);
    assert SetOf(dropped) == SetOf(Published(t)) - {key};
    forall i | 0 <= i < |dropped| ensures dropped[i] != "" && IsTrimmed(dropped[i]) {
      assert dropped[i] in dropped;
      assert dropped[i] in Published(t);
    }
    var retired := Retire(t.retired, dropped, recorded);
    t' := Trust([PublicKey(key)], retired);
    IdsAppend([], PublicKey(key), Keys);
    assert KeyIds([] + [PublicKey(key)]) == KeyIds([]) + [key] && [] + [PublicKey(key)] == t'.published;
    DedupOfDistinct([key]);
  }

  // ---------------------------------------------------------------- any number of rotations

  /** One rotation step: a new key is prepared, or the newest key's rotation is finalized. */
  datatype Step = Hold(newKey: string, recorded: bool) | Finalize(recorded: bool)

  /** The ledger together with every key ever seen, newest first. */
  datatype History = History(ledger: Ledger, ever: seq<string>)

  predicate Enabled(h: History, step: Step) {
    match step
    case Hold(newKey, _) => newKey !in h.ever
    case Finalize(_) => h.ever != []
  }

  function Apply(h: History, step: Step): History
    requires Enabled(h, step)
  {
    match step
    case Hold(newKey, recorded) => History(Held(h.ledger, newKey, recorded), [newKey] + h.ever)
    case Finalize(recorded) => History(Narrowed(h.ledger, h.ever[0], recorded), h.ever)
  }

  /** Published keys are the newest ones, and there are some as soon as there was any key. */
  predicate Newest(h: History) {
    && Distinct(h.ever)
    && h.ledger.published <= h.ever
    && (h.ever != [] ==> h.ledger.published != [])
  }

  /** None of the published keys is retired; nothing seen is unaccounted for. */
  predicate Conserved(h: History) {
    && Newest(h)
    && SetOf(h.ledger.published) !! h.ledger.retired
    && SetOf(h.ledger.published) + h.ledger.retired == SetOf(h.ever)
  }

  /** What leaves the published list in a step, and so has to be recorded. */
  function Leaving(h: History, step: Step): set<string>
    requires Enabled(h, step)
  {
    SetOf(h.ledger.published) - SetOf(Apply(h, step).ledger.published)
  }

  lemma HeldOfNew(l: Ledger, newKey: string, recorded: bool)
    requires newKey !in l.published && Distinct(l.published)
    ensures Dedup([newKey] + l.published) == [newKey] + l.published
  {
    DedupOfDistinct([newKey] + l.published);
  }

  lemma SplitSet(all: seq<string>, keep: nat)
    requires Distinct(all) && keep <= |all|
    ensures SetOf(all) == SetOf(all[..keep]) + SetOf(all[keep..]) && SetOf(all[..keep]) !! SetOf(all[keep..])
  {
    assert all == all[..keep] + all[keep..];
  }

  /** The sets a held rotation works with. */
  lemma HeldSets(l: Ledger, newKey: string, ever: seq<string>)
    requires Distinct(ever) && newKey !in ever && l.published <= ever
    ensures var all := [newKey] + l.published;
            var keep := Limit(|all|, MAX_TRUST_GENERATIONS);
            && Dedup(all) == all && all[..keep] != [] && all[..keep] <= [newKey] + ever && Distinct([newKey] + ever)
            && SetOf(all[..keep]) + SetOf(all[keep..]) == {newKey} + SetOf(l.published)
            && SetOf(all[..keep]) !! SetOf(all[keep..])
            && newKey in SetOf(all[..keep])
            && SetOf([newKey] + ever) == {newKey} + SetOf(ever)
  {
    assert forall i :: 0 <= i < |l.published| ==> l.published[i] == ever[i];
    var all := [newKey] + l.published;
    var keep := Limit(|all|, MAX_TRUST_GENERATIONS);
    HeldOfNew(l, newKey, true);
    SplitSet(all, keep);
    assert SetOf(all) == {newKey} + SetOf(l.published);
    assert newKey == all[..keep][0];
  }

  lemma HoldConservesIff(h: History, newKey: string, recorded: bool)
    requires Conserved(h) && Enabled(h, Hold(newKey, recorded))
    ensures var step := Hold(newKey, recorded);
            Conserved(Apply(h, step)) <==> recorded || Leaving(h, step) == {}
  {
    HeldSets(h.ledger, newKey, h.ever);
    var all := [newKey] + h.ledger.published;
    var keep := Limit(|all|, MAX_TRUST_GENERATIONS);
    assert newKey !in SetOf(h.ever);
    assert Leaving(h, Hold(newKey, recorded)) == SetOf(all[keep..]);
  }

  lemma FinalizeConservesIff(h: History, recorded: bool)
    requires Conserved(h) && Enabled(h, Finalize(recorded))
    ensures Conserved(Apply(h, Finalize(recorded))) <==> recorded || Leaving(h, Finalize(recorded)) == {}
  {
    var l := h.ledger;
    assert l.published[0] == h.ever[0] && h.ever[0] in l.published;
    assert SetOf([h.ever[0]]) == {h.ever[0]};
    assert [h.ever[0]] <= h.ever;
  }

  /** A step keeps the books balanced exactly when what leaves the bundle, if anything, is recorded. */
  lemma StepConservesIff(h: History, step: Step)
    requires Conserved(h) && Enabled(h, step)
    ensures Conserved(Apply(h, step)) <==> step.recorded || Leaving(h, step) == {}
  {
    match step {
      case Hold(newKey, recorded) => HoldConservesIff(h, newKey, recorded);
      case Finalize(recorded) => FinalizeConservesIff(h, recorded);
    }
  }

  predicate IsRun(histories: seq<History>, steps: seq<Step>) {
    && |histories| == |steps| + 1
    && forall i :: 0 <= i < |steps| ==>
      Enabled(histories[i], steps[i]) && histories[i + 1] == Apply(histories[i], steps[i])
  }

  /** How many keys are published after the steps when `width` were before: a held rotation adds one
      up to the cap, a finalize leaves one. */
  function Width(width: nat, steps: seq<Step>): nat {
    if |steps| == 0 then width
    else if steps[|steps| - 1].Finalize? then 1
    else Limit(Width(width, steps[..|steps| - 1]) + 1, MAX_TRUST_GENERATIONS)
  }

  /** After a held rotation the published keys are the newest three of what was published and the new one. */
  lemma HeldKeepsNewest(h: History, newKey: string, recorded: bool)
    requires Newest(h) && newKey !in h.ever
    ensures var h' := Apply(h, Hold(newKey, recorded));
            && Newest(h')
            && h'.ledger.published == h'.ever[..Limit(|h.ledger.published| + 1, MAX_TRUST_GENERATIONS)]
  {
    assert forall i :: 0 <= i < |h.ledger.published| ==> h.ledger.published[i] == h.ever[i];
    HeldOfNew(h.ledger, newKey, recorded);
  }

  /** Over any number of rotations, held or finalized, recorded or not, the published keys are the
      newest keys ever seen, as many as the held rotations since the last finalize call for, and never
      more than the cap once there was a rotation. */
  lemma {:induction false} RotationsPublishNewest(histories: seq<History>, steps: seq<Step>, i: nat)
    requires IsRun(histories, steps) && i < |histories| && Newest(histories[0])
    ensures Newest(histories[i])
    ensures Width(|histories[0].ledger.published|, steps[..i]) == |histories[i].ledger.published|
    ensures histories[i].ledger.published == histories[i].ever[..|histories[i].ledger.published|]
    ensures i > 0 ==> 1 <= |histories[i].ledger.published| <= 3
    ensures i > 0 && steps[i - 1].Finalize? ==> histories[i].ledger.published == histories[i].ever[..1]
    ensures i > 0 && steps[i - 1].Hold? ==>
      var was := |histories[i - 1].ledger.published|;
      |histories[i].ledger.published| == if was < 3 then was + 1 else 3
  {
    if i > 0 {
      RotationsPublishNewest(histories, steps, i - 1);
      assert steps[..i][..i - 1] == steps[..i - 1];
      var h, step := histories[i - 1], steps[i - 1];
      assert histories[i - 1 + 1] == Apply(h, step);
      match step {
        case Hold(newKey, recorded) => HeldKeepsNewest(h, newKey, recorded);
        case Finalize(_) => assert [h.ever[0]] == h.ever[..1];
      }
    }
  }

  lemma {:induction false} HeldWidth(width: nat, steps: seq<Step>)
    requires width <= MAX_TRUST_GENERATIONS && forall j :: 0 <= j < |steps| ==> steps[j].Hold?
    ensures Width(width, steps) == Limit(width + |steps|, MAX_TRUST_GENERATIONS)
  {
    if |steps| > 0 {
      HeldWidth(width, steps[..|steps| - 1]);
    }
  }

  lemma {:induction false} EverGrows(histories: seq<History>, steps: seq<Step>, i: nat)
    requires IsRun(histories, steps) && i < |histories| && forall j :: 0 <= j < |steps| ==> steps[j].Hold?
    ensures |histories[i].ever| == |histories[0].ever| + i
  {
    if i > 0 {
      EverGrows(histories, steps, i - 1);
      assert histories[i - 1 + 1] == Apply(histories[i - 1], steps[i - 1]);
    }
  }

  /** As long as every rotation is held, the published keys are the newest three of all keys ever seen. */
  lemma HeldRotationsPublishNewestMax(histories: seq<History>, steps: seq<Step>, i: nat)
    requires IsRun(histories, steps) && i < |histories| && forall j :: 0 <= j < |steps| ==> steps[j].Hold?
    requires Newest(histories[0])
    requires |histories[0].ledger.published| == if |histories[0].ever| < 3 then |histories[0].ever| else 3
    ensures histories[i].ledger.published
         == if |histories[i].ever| < 3 then histories[i].ever else histories[i].ever[..3]
  {
    RotationsPublishNewest(histories, steps, i);
    HeldWidth(|histories[0].ledger.published|, steps[..i]);
    EverGrows(histories, steps, i);
  }

  /** Over any number of rotations, held or finalized, with their evictions recorded: the published
      keys are the newest ones within the cap, none of them is retired, and published and retired keys
      together are all keys ever seen. */
  lemma {:induction false} RotationsConserveKeys(histories: seq<History>, steps: seq<Step>, i: nat)
    requires IsRun(histories, steps) && i < |histories| && Conserved(histories[0])
    requires forall j :: 0 <= j < |steps| ==> steps[j].recorded
    ensures Conserved(histories[i])
    ensures |histories[i].ledger.published| == Width(|histories[0].ledger.published|, steps[..i])
    ensures i > 0 ==> |histories[i].ledger.published| <= 3
  {
    RotationsPublishNewest(histories, steps, i);
    if i > 0 {
      RotationsConserveKeys(histories, steps, i - 1);
      assert histories[i - 1 + 1] == Apply(histories[i - 1], steps[i - 1]);
      StepConservesIff(histories[i - 1], steps[i - 1]);
    }
  }

  /** A key that is neither published nor retired: nothing keeps it from being adopted again. */
  predicate IsLost(h: History, key: string) {
    key in h.ever && key !in h.ledger.published && key !in h.ledger.retired
  }

  lemma LostStaysLost(h: History, step: Step, key: string)
    requires Newest(h) && Enabled(h, step) && IsLost(h, key)
    ensures IsLost(Apply(h, step), key)
  {
    match step {
      case Hold(newKey, recorded) =>
        assert forall i :: 0 <= i < |h.ledger.published| ==> h.ledger.published[i] == h.ever[i];
        HeldOfNew(h.ledger, newKey, recorded);
        assert key in [newKey] + h.ever && key != newKey;
      case Finalize(_) =>
        assert h.ledger.published[0] == h.ever[0] && h.ever[0] in h.ledger.published;
    }
  }

  lemma UnrecordedLoses(h: History, step: Step) returns (key: string)
    requires Conserved(h) && Enabled(h, step) && !step.recorded && Leaving(h, step) != {}
    ensures IsLost(Apply(h, step), key)
  {
    key :| key in Leaving(h, step);
    assert key in h.ledger.published;
    assert key in SetOf(h.ledger.published) && key !in h.ledger.retired;
    var i :| 0 <= i < |h.ledger.published| && h.ledger.published[i] == key;
    assert h.ever[i] == key;
    var h' := Apply(h, step);
    assert key !in SetOf(h'.ledger.published) && h'.ledger.retired == h.ledger.retired;
    assert h'.ever == h.ever || h'.ever == [step.newKey] + h.ever;
  }

  /** Every earlier step was recorded or let nothing go. */
  predicate AllAccounted(histories: seq<History>, steps: seq<Step>, i: nat)
    requires IsRun(histories, steps) && i <= |steps|
  {
    forall j :: 0 <= j < i ==> steps[j].recorded || Leaving(histories[j], steps[j]) == {}
  }

  lemma {:induction false} ConservedOrLost(histories: seq<History>, steps: seq<Step>, i: nat) returns (key: string)
    requires IsRun(histories, steps) && i < |histories| && Conserved(histories[0])
    ensures AllAccounted(histories, steps, i) ==> Conserved(histories[i])
    ensures !AllAccounted(histories, steps, i) ==> IsLost(histories[i], key)
  {
    key := "";
    if i > 0 {
      key := ConservedOrLost(histories, steps, i - 1);
      var h, step := histories[i - 1], steps[i - 1];
      assert histories[i - 1 + 1] == Apply(h, step);
      if !AllAccounted(histories, steps, i - 1) {
        RotationsPublishNewest(histories, steps, i - 1);
        LostStaysLost(h, step, key);
      } else {
        StepConservesIff(h, step);
        if !step.recorded && Leaving(h, step) != {} {
          key := UnrecordedLoses(h, step);
        }
      }
    }
  }

  /** Over any number of rotations the books balance exactly when every step so far recorded what left
      the bundle, if anything did: a key that once slipped through is never accounted for again. */
  lemma RotationsConserveIff(histories: seq<History>, steps: seq<Step>, i: nat)
    requires IsRun(histories, steps) && i < |histories| && Conserved(histories[0])
    ensures Conserved(histories[i]) <==> AllAccounted(histories, steps, i)
  {
    var key := ConservedOrLost(histories, steps, i);
    if Conserved(histories[i]) {
      assert key in SetOf(histories[i].ever) <==> key in histories[i].ever;
    }
  }

  /** Why the key must be new: publishing a key again is safe exactly when it was not retired. */
  lemma RepublishedKeySafeIff(l: Ledger, key: string)
    requires Distinct(l.published) && SetOf(l.published) !! l.retired
    ensures var l' := Held(l, key, true);
            SetOf(l'.published) !! l'.retired <==> key !in l.retired
  {
    var all := Dedup([key] + l.published);
    DedupIsDistinct([key] + l.published);
    var keep := Limit(|all|, MAX_TRUST_GENERATIONS);
    DedupKeepsHead(key, l.published);
    SplitSet(all, keep);
    assert all[..keep][0] == key && key in SetOf(all[..keep]);
    forall x | x in SetOf(all[..keep]) ensures x == key || x in SetOf(l.published) {
      assert x in all && x in [key] + l.published;
    }
  }

  lemma {:induction false} DedupKeepsHead(key: string, rest: seq<string>)
    ensures Dedup([key] + rest) != [] && Dedup([key] + rest)[0] == key
  {
    if |rest| == 0 {
      assert [key] + rest == [] + [key];
      DedupAppend([], key);
    } else {
      var front, last := rest[..|rest| - 1], rest[|rest| - 1];
      DedupKeepsHead(key, front);
      assert [key] + rest == ([key] + front) + [last];
      DedupAppend([key] + front, last);
    }
  }
}
