/** Save followed by LoadData, on the buffer (opencv-test/play-frame/SimpleIni.h). */
module IniReload {
  import opened IniText
  import opened IniBlocks
  import opened IniInPlace
  import opened IniRoundTrip

  /** Names and values are C strings. */
  ghost predicate KeyStrings(keys: seq<KeyVal>) {
    forall i :: 0 <= i < |keys| ==> NoNul(keys[i].key) && NoNul(keys[i].val)
  }

  ghost predicate CStrings(st: Store) {
    forall i :: 0 <= i < |st| ==> NoNul(st[i].name) && KeyStrings(st[i].keys)
  }

  lemma KeyTextNoNul(cfg: Config, kv: KeyVal)
    requires NoNul(kv.key) && NoNul(kv.val)
    ensures NoNul(KeyText(cfg, kv))
  {
    hide Output;
    if kv.val != [] {
      OutputIs(kv.val);
    }
    assert NoNul(ValueText(cfg, kv.val));
    hide ValueText;
  }

  lemma {:induction false} KeysTextNoNul(cfg: Config, keys: seq<KeyVal>)
    requires KeyStrings(keys)
    ensures NoNul(KeysText(cfg, keys))
  {
    hide KeyText;
    if keys != [] {
      KeyTextNoNul(cfg, keys[0]);
      KeysTextNoNul(cfg, keys[1..]);
    }
  }

  lemma {:induction false} SectionsTextNoNul(cfg: Config, st: Store)
    requires CStrings(st)
    ensures NoNul(SectionsText(cfg, st))
  {
    hide KeysText;
    if st != [] {
      KeysTextNoNul(cfg, st[0].keys);
      SectionsTextNoNul(cfg, st[1..]);
    }
  }

  lemma StringsFirst(st: Store)
    requires CStrings(st)
    ensures CStrings(EmptyFirst(st))
  {
    EmptyFirstSections(st);
    hide EmptyFirst, KeyStrings, NoNul;
    var o := EmptyFirst(st);
    forall i | 0 <= i < |o| ensures NoNul(o[i].name) && KeyStrings(o[i].keys) {
      assert o[i] in st;
    }
  }

  /** What the parser's pointers denote after it has loaded what Save wrote: the same sections, keys and
      values in the same order (see SaveThenLoad and RoundTripIff for the one exception). */
  method Reload(cfg: Config, st: Store) returns (a: array<char>, ps: Pointers)
    requires StoreOk(cfg, st) && CStrings(st)
    ensures Deref(a[..], ps) == LoadedSections(cfg, Normal(st))
    ensures Deref(a[..], ps) == Normal(st) <==> !cfg.keyOnly || forall i :: 0 <= i < |st| ==> EmptiesFirst(st[i].keys)
  {
    hide Load, SectionsText, LoadedSections, Deref, StoreOk, CStrings, EmptyFirst, Normal, EmptiesFirst, NoNul;
    StringsFirst(st);
    SectionsTextNoNul(cfg, EmptyFirst(st));
    SaveThenLoad(cfg, st);
    RoundTripIff(cfg, st);
    a, ps := LoadData(cfg, Save(cfg, st));
  }
}
