/** The store of opencv-test/play-frame/SimpleIni.h as a map: what one entry changes, and which of
    several entries of one name a load leaves behind. */
module IniStore {
  import opened Options
  import opened IniText

  // ---- equal names ----

  /** Names are equal when they have the same characters; without regard to case, a capital letter from A
      to Z is the small letter 32 code points up. */
  lemma SameIs(cfg: Config, a: string, b: string)
    ensures Same(cfg, a, b) <==> |a| == |b| && forall i :: 0 <= i < |a| ==> (
      || a[i] == b[i]
      || (cfg.caseless && 'A' <= a[i] <= 'Z' && a[i] as int + 32 == b[i] as int)
      || (cfg.caseless && 'A' <= b[i] <= 'Z' && b[i] as int + 32 == a[i] as int))
  {
    SameIsFold(cfg, a, b);
    var fa, fb := Fold(cfg, a), Fold(cfg, b);
    hide Same, Fold;
    if |a| == |b| && forall i :: 0 <= i < |a| ==> fa[i] == fb[i] {
      assert fa == fb;
    }
  }

  lemma SameLaws(cfg: Config, a: string, b: string, c: string)
    ensures Same(cfg, a, a) && Same(cfg, a, b) == Same(cfg, b, a)
    ensures Same(cfg, a, b) ==> Same(cfg, a, c) == Same(cfg, b, c)
  {
    hide Same, Fold;
    SameIsFold(cfg, a, a);
    SameIsFold(cfg, a, b);
    SameIsFold(cfg, b, a);
    SameIsFold(cfg, a, c);
    SameIsFold(cfg, b, c);
  }

  // ---- the store as a map ----

  /** No two sections, and no two keys of a section, have equal names. */
  ghost predicate Tidy(cfg: Config, st: Store) {
    && (forall i, j :: 0 <= i < j < |st| ==> !Same(cfg, st[i].name, st[j].name))
    && (forall i :: 0 <= i < |st| ==> KeysDiffer(cfg, st[i].keys))
  }

  ghost predicate KeysDiffer(cfg: Config, keys: seq<KeyVal>) {
    forall i, j :: 0 <= i < j < |keys| ==> !Same(cfg, keys[i].key, keys[j].key)
  }

  function KeyValue(cfg: Config, keys: seq<KeyVal>, key: string): Option<string> {
    var k := FindKey(cfg, keys, key);
    if k < |keys| then Some(keys[k].val) else None
  }

  /** GetValue: the value under a section and a key name. */
  function Value(cfg: Config, st: Store, section: string, key: string): Option<string> {
    var i := FindSection(cfg, st, section);
    if i < |st| then KeyValue(cfg, st[i].keys, key) else None
  }

  /** In a tidy store, that is the value wherever the two names are found, and missing exactly when they
      are found nowhere. */
  lemma ValueIs(cfg: Config, st: Store, section: string, key: string)
    requires Tidy(cfg, st)
    ensures forall i, k :: 0 <= i < |st| && 0 <= k < |st[i].keys| ==>
      Same(cfg, st[i].name, section) && Same(cfg, st[i].keys[k].key, key) ==>
      Value(cfg, st, section, key) == Some(st[i].keys[k].val)
    ensures Value(cfg, st, section, key) == None <==> forall i, k :: 0 <= i < |st| && 0 <= k < |st[i].keys| ==>
      !Same(cfg, st[i].name, section) || !Same(cfg, st[i].keys[k].key, key)
  {
    hide Same, FindSection, FindKey;
    var s := FindSection(cfg, st, section);
    forall i | 0 <= i < |st| && Same(cfg, st[i].name, section) ensures i == s {
      SameLaws(cfg, st[i].name, section, st[s].name);
      SameLaws(cfg, st[s].name, section, st[i].name);
    }
    if s < |st| {
      var f := FindKey(cfg, st[s].keys, key);
      forall k | 0 <= k < |st[s].keys| && Same(cfg, st[s].keys[k].key, key) ensures k == f {
        SameLaws(cfg, st[s].keys[k].key, key, st[s].keys[f].key);
        SameLaws(cfg, st[s].keys[f].key, key, st[s].keys[k].key);
      }
    }
  }

  // ---- one entry ----

  lemma FindsFirst(cfg: Config, st: Store, name: string, i: nat)
    requires i <= |st| && (i < |st| ==> Same(cfg, st[i].name, name))
    requires forall m :: 0 <= m < i ==> !Same(cfg, st[m].name, name)
    ensures FindSection(cfg, st, name) == i
  {
    hide FindSection, Same;
  }

  lemma FindsFirstKey(cfg: Config, keys: seq<KeyVal>, key: string, i: nat)
    requires i <= |keys| && (i < |keys| ==> Same(cfg, keys[i].key, key))
    requires forall m :: 0 <= m < i ==> !Same(cfg, keys[m].key, key)
    ensures FindKey(cfg, keys, key) == i
  {
    hide FindKey, Same;
  }

  lemma PutKeyValue(cfg: Config, keys: seq<KeyVal>, key: string, val: string, other: string)
    ensures KeyValue(cfg, PutKey(cfg, keys, key, val), other)
         == if Same(cfg, key, other) then Some(val) else KeyValue(cfg, keys, other)
  {
    hide Same, FindKey;
    var k, f, keys' := FindKey(cfg, keys, key), FindKey(cfg, keys, other), PutKey(cfg, keys, key, val);
    SameLaws(cfg, key, other, other);
    forall m | 0 <= m < |keys| ensures Same(cfg, key, other) ==> Same(cfg, keys[m].key, key) == Same(cfg, keys[m].key, other) {
      SameLaws(cfg, key, other, keys[m].key);
      SameLaws(cfg, keys[m].key, key, key);
      SameLaws(cfg, keys[m].key, other, other);
    }
    if Same(cfg, key, other) {
      FindsFirstKey(cfg, keys', other, k);
    } else if f < |keys| || k < |keys| {
      if k < |keys| && Same(cfg, keys[k].key, other) {
        SameLaws(cfg, keys[k].key, key, other);
      }
      FindsFirstKey(cfg, keys', other, f);
    } else {
      FindsFirstKey(cfg, keys', other, |keys'|);
    }
  }

  /** One entry is one map update: the value found under any names equal to those of the entry is its
      value, and every other value is as it was; a section header changes no value. */
  lemma AddValue(cfg: Config, st: Store, section: string, key: Option<string>, val: string, s: string, k: string)
    ensures Value(cfg, AddEntry(cfg, st, section, key, val), s, k)
         == if key.Some? && Same(cfg, section, s) && Same(cfg, key.value, k) then Some(val) else Value(cfg, st, s, k)
  {
    hide Same, FindSection, FindKey, PutKey;
    var i, f, st' := FindSection(cfg, st, section), FindSection(cfg, st, s), AddEntry(cfg, st, section, key, val);
    SameLaws(cfg, section, s, s);
    forall m | 0 <= m < |st| ensures Same(cfg, section, s) ==> Same(cfg, st[m].name, section) == Same(cfg, st[m].name, s) {
      SameLaws(cfg, section, s, st[m].name);
      SameLaws(cfg, st[m].name, section, section);
      SameLaws(cfg, st[m].name, s, s);
    }
    if i < |st| && !Same(cfg, section, s) && Same(cfg, st[i].name, s) {
      SameLaws(cfg, st[i].name, section, s);
    }
    if Same(cfg, section, s) {
      FindsFirst(cfg, st', s, i);
      if key.Some? {
        PutKeyValue(cfg, if i < |st| then st[i].keys else [], key.value, val, k);
      }
    } else if f < |st| || i < |st| {
      FindsFirst(cfg, st', s, f);
    } else {
      FindsFirst(cfg, st', s, |st'|);
    }
  }

  lemma PutKeyPlaces(cfg: Config, keys: seq<KeyVal>, key: string, val: string)
    ensures var keys' := PutKey(cfg, keys, key, val);
      && (forall k :: 0 <= k < |keys| ==> k < |keys'| && keys'[k].key == keys[k].key)
      && ((exists k :: 0 <= k < |keys| && Same(cfg, keys[k].key, key)) ==> |keys'| == |keys|)
      && ((forall k :: 0 <= k < |keys| ==> !Same(cfg, keys[k].key, key)) ==> keys' == keys + [KeyVal(key, val)])
      && (KeysDiffer(cfg, keys) ==> KeysDiffer(cfg, keys'))
  {
    hide Same, FindKey;
    var k, keys' := FindKey(cfg, keys, key), PutKey(cfg, keys, key, val);
    if KeysDiffer(cfg, keys) {
      forall i, j | 0 <= i < j < |keys'| ensures !Same(cfg, keys'[i].key, keys'[j].key) {
        assert i < |keys|;
      }
    }
  }

  /** A known section or key keeps its place and its spelling, a new one comes last, no section but the
      named one changes, and a tidy store stays tidy. */
  lemma AddKeepsPlaces(cfg: Config, st: Store, section: string, key: Option<string>, val: string)
    ensures var st' := AddEntry(cfg, st, section, key, val);
      && (forall i :: 0 <= i < |st| ==> i < |st'| && st'[i].name == st[i].name)
      && (forall i :: 0 <= i < |st| && !Same(cfg, st[i].name, section) ==> st'[i] == st[i])
      && (forall i, k :: 0 <= i < |st| && 0 <= k < |st[i].keys| ==>
            k < |st'[i].keys| && st'[i].keys[k].key == st[i].keys[k].key)
      && (if exists i :: 0 <= i < |st| && Same(cfg, st[i].name, section) then |st'| == |st|
          else st' == st + [Section(section, if key.Some? then [KeyVal(key.value, val)] else [])])
      && (Tidy(cfg, st) ==> Tidy(cfg, st'))
  {
    hide Same, FindSection, PutKey, KeysDiffer;
    var i, st' := FindSection(cfg, st, section), AddEntry(cfg, st, section, key, val);
    if key.Some? {
      PutKeyPlaces(cfg, if i < |st| then st[i].keys else [], key.value, val);
    }
    NoKeys(cfg);
    if i == |st| && key.Some? {
      assert PutKey(cfg, [], key.value, val) == [KeyVal(key.value, val)];
    }
    if Tidy(cfg, st) {
      forall a, b | 0 <= a < b < |st'| ensures !Same(cfg, st'[a].name, st'[b].name) {
        assert a < |st|;
      }
    }
  }

  lemma NoKeys(cfg: Config)
    ensures KeysDiffer(cfg, [])
  {}

  // ---- loads ----

  /** What FindEntry yields, call after call. */
  function Entries(cfg: Config, s: string, section: string, val: string): seq<Entry>
    decreases |s|
  {
    match FindEntry(cfg, s, section, val)
    case None => []
    case Some(e) => [e] + Entries(cfg, e.rest, e.section, e.val)
  }

  predicate Names(cfg: Config, e: Entry, section: string, key: string) {
    Same(cfg, e.section, section) && e.key.Some? && Same(cfg, e.key.value, key)
  }

  /** Entry n is the last one of this section and key. */
  ghost predicate IsLast(cfg: Config, es: seq<Entry>, n: nat, section: string, key: string) {
    && n < |es| && Names(cfg, es[n], section, key)
    && forall m :: n < m < |es| ==> !Names(cfg, es[m], section, key)
  }

  ghost predicate NotNamed(cfg: Config, es: seq<Entry>, section: string, key: string) {
    forall n :: 0 <= n < |es| ==> !Names(cfg, es[n], section, key)
  }

  lemma TailNames(cfg: Config, e: Entry, es: seq<Entry>, section: string, key: string)
    ensures NotNamed(cfg, [e] + es, section, key) ==> !Names(cfg, e, section, key) && NotNamed(cfg, es, section, key)
    ensures forall n: nat :: IsLast(cfg, [e] + es, n, section, key) ==>
      n <= |es| && if n > 0 then IsLast(cfg, es, n - 1, section, key)
                   else Names(cfg, e, section, key) && NotNamed(cfg, es, section, key)
  {
    hide Names;
    var all := [e] + es;
    assert all[0] == e && forall n :: 0 <= n < |es| ==> all[n + 1] == es[n];
    assert forall n :: 0 < n < |all| ==> all[n] == es[n - 1];
  }

  lemma {:induction false} LastOneLoaded(cfg: Config, s: string, section0: string, val0: string, st: Store,
                                         section: string, key: string, n: nat)
    ensures var es, st' := Entries(cfg, s, section0, val0), LoadFrom(cfg, s, section0, val0, st);
      && (IsLast(cfg, es, n, section, key) ==> Value(cfg, st', section, key) == Some(es[n].val))
      && (NotNamed(cfg, es, section, key) ==> Value(cfg, st', section, key) == Value(cfg, st, section, key))
      && (Tidy(cfg, st) ==> Tidy(cfg, st'))
    decreases |s|
  {
    hide FindEntry, AddEntry, Value, Tidy, Same, IsLast, NotNamed;
    match FindEntry(cfg, s, section0, val0)
    case None => NoneLast(cfg, section, key);
    case Some(e) =>
      var st1 := AddEntry(cfg, st, e.section, e.key, e.val);
      AddValue(cfg, st, e.section, e.key, e.val, section, key);
      AddKeepsPlaces(cfg, st, e.section, e.key, e.val);
      LastOneLoaded(cfg, e.rest, e.section, e.val, st1, section, key, if n > 0 then n - 1 else 0);
      var es := Entries(cfg, e.rest, e.section, e.val);
      TailNames(cfg, e, es, section, key);
      assert n > 0 && n <= |es| ==> ([e] + es)[n] == es[n - 1];
  }

  lemma NoneLast(cfg: Config, section: string, key: string)
    ensures forall n: nat :: !IsLast(cfg, [], n, section, key)
  {}

  /** LoadData into an empty store: each key has the value of the last entry under an equal section and an
      equal key, and is missing when there is none. */
  lemma LastOneWins(cfg: Config, text: string, section: string, key: string, n: nat)
    ensures var es := Entries(cfg, AfterFileComment(text), "", "");
      && (IsLast(cfg, es, n, section, key) ==> Value(cfg, Load(cfg, text), section, key) == Some(es[n].val))
      && (NotNamed(cfg, es, section, key) ==> Value(cfg, Load(cfg, text), section, key) == None)
    ensures Tidy(cfg, Load(cfg, text))
  {
    hide FindEntry, AfterFileComment, IsLast, NotNamed;
    LastOneLoaded(cfg, AfterFileComment(text), "", "", [], section, key, n);
  }

  lemma {:induction false} LastOneCopied(cfg: Config, s: string, section0: string, val0: string, st: Store,
                                         section: string, key: string, n: nat)
    ensures var es, st' := Entries(cfg, s, section0, val0), CopyFrom(cfg, s, section0, val0, st);
      && (IsLast(cfg, es, n, section, key) ==> Value(cfg, st', section, key) == Some(es[n].copy))
      && (NotNamed(cfg, es, section, key) ==> Value(cfg, st', section, key) == Value(cfg, st, section, key))
      && (Tidy(cfg, st) ==> Tidy(cfg, st'))
    decreases |s|
  {
    hide FindEntry, AddEntry, Value, Tidy, Same, IsLast, NotNamed;
    match FindEntry(cfg, s, section0, val0)
    case None => NoneLast(cfg, section, key);
    case Some(e) =>
      var st1 := AddEntry(cfg, st, e.section, e.key, e.copy);
      AddValue(cfg, st, e.section, e.key, e.copy, section, key);
      AddKeepsPlaces(cfg, st, e.section, e.key, e.copy);
      LastOneCopied(cfg, e.rest, e.section, e.val, st1, section, key, if n > 0 then n - 1 else 0);
      var es := Entries(cfg, e.rest, e.section, e.val);
      TailNames(cfg, e, es, section, key);
      assert n > 0 && n <= |es| ==> ([e] + es)[n] == es[n - 1];
  }

  /** LoadData into a store that holds data: each key has what the last entry under an equal section and an
      equal key gave to a copy, and keeps the value it had when there is none. */
  lemma LastCopyWins(cfg: Config, text: string, hasComment: bool, st: Store, section: string, key: string, n: nat)
    ensures var es := Entries(cfg, if hasComment then text else AfterFileComment(text), "", "");
      var st' := LoadMore(cfg, text, hasComment, st);
      && (IsLast(cfg, es, n, section, key) ==> Value(cfg, st', section, key) == Some(es[n].copy))
      && (NotNamed(cfg, es, section, key) ==> Value(cfg, st', section, key) == Value(cfg, st, section, key))
      && (Tidy(cfg, st) ==> Tidy(cfg, st'))
  {
    hide FindEntry, AfterFileComment, IsLast, NotNamed;
    LastOneCopied(cfg, if hasComment then text else AfterFileComment(text), "", "", st, section, key, n);
  }
}
