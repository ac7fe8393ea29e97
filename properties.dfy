/**
 * What the path-alias index promises, stated over the store each operation
 * leaves behind: saving is a deduplicating set-add, deleting (as written) a
 * set-remove that ignores a match at position 0, lookups take the first
 * element with a fallback to `LANGUAGE_NONE`, and saving keeps the stored sets
 * well formed and the two directions symmetric.
 */
module RedisPathProperties {
  import opened Php
  import opened Encoding
  import opened HashStore
  import opened RedisPath

  // ------------------------------------------------------------ encoding

  /** A value whose pieces are all elements is truthy for PHP. */
  lemma PiecesTruthy(v: string)
    ensures (forall i :: 0 <= i < |Split(v)| ==> Element(Split(v)[i])) ==> Truthy(Some(v))
  {
    if v == "" {
      assert !Element(Split(v)[0]);
    } else if v == "0" {
      SplitPlain(v);
      assert !Element(Split(v)[0]);
    }
  }

  /** Encoding a non-empty list of elements gives a truthy value holding that list. */
  lemma JoinElements(xs: seq<string>)
    requires |xs| >= 1 && forall i :: 0 <= i < |xs| ==> Element(xs[i])
    ensures Split(Join(xs)) == xs && Truthy(Some(Join(xs)))
  {
    SplitJoin(xs);
    PiecesTruthy(Join(xs));
  }

  // -------------------------------------------------------------- saving

  /** A falsy field receives exactly the new element as its whole value. */
  lemma SaveIntoEmptyField(st: Store, key: Key, hkey: string, hvalue: string)
    requires !Truthy(Get(st, key, hkey))
    ensures Truthy(Some(hvalue)) ==> Get(SaveInHashState(st, key, hkey, hvalue), key, hkey) == Some(hvalue)
    ensures Element(hvalue) ==> Members(SaveInHashState(st, key, hkey, hvalue), key, hkey) == [hvalue]
    ensures !Truthy(Some(hvalue)) ==> SaveInHashState(st, key, hkey, hvalue) == st
  {
    if Element(hvalue) {
      SplitPlain(hvalue);
    }
  }

  /** Saving an element already in the set writes nothing. */
  lemma SaveKnownElement(st: Store, key: Key, hkey: string, hvalue: string)
    requires hvalue in Members(st, key, hkey)
    ensures SaveInHashState(st, key, hkey, hvalue) == st
  {
  }

  /**
   * Saving a new element into a truthy field appends it after the old ones,
   * which keep their order, and introduces no duplicate.
   */
  lemma SaveNewElement(st: Store, key: Key, hkey: string, hvalue: string)
    requires Truthy(Get(st, key, hkey)) && hvalue !in Members(st, key, hkey)
    ensures Get(SaveInHashState(st, key, hkey, hvalue), key, hkey)
         == Some(Get(st, key, hkey).value + [Separator] + hvalue)
    ensures Separator !in hvalue ==>
      Members(SaveInHashState(st, key, hkey, hvalue), key, hkey) == Members(st, key, hkey) + [hvalue]
    ensures Separator !in hvalue && NoDuplicates(Members(st, key, hkey)) ==>
      NoDuplicates(Members(SaveInHashState(st, key, hkey, hvalue), key, hkey))
  {
    var v := Get(st, key, hkey).value;
    var w := v + [Separator] + hvalue;
    assert w[|v|] == Separator;
    if Separator !in hvalue {
      SplitAround(v, hvalue);
      SplitPlain(hvalue);
    }
  }

  /** The whole effect of saving an element on the set it is saved into. */
  lemma SaveMembers(st: Store, key: Key, hkey: string, hvalue: string)
    requires Element(hvalue)
    ensures Members(SaveInHashState(st, key, hkey, hvalue), key, hkey) ==
      if hvalue in Members(st, key, hkey) then Members(st, key, hkey)
      else Members(st, key, hkey) + [hvalue]
  {
    if !Truthy(Get(st, key, hkey)) {
      SaveIntoEmptyField(st, key, hkey, hvalue);
    } else if hvalue !in Members(st, key, hkey) {
      SaveNewElement(st, key, hkey, hvalue);
    }
  }

  /** The effect of `saveAlias` on the two sets it writes. */
  lemma SaveAliasMembers(st: Store, source: string, alias: string, language: Option<string>)
    requires Element(source) && Element(alias)
    ensures var lang := Normalize(language);
      var ka, ks := GetKey(AliasHash, lang), GetKey(SourceHash, lang);
      var r := SaveAliasState(st, source, alias, language);
      && Members(r, ka, source) ==
           (if alias in Members(st, ka, source) then Members(st, ka, source) else Members(st, ka, source) + [alias])
      && Members(r, ks, alias) ==
           (if source in Members(st, ks, alias) then Members(st, ks, alias) else Members(st, ks, alias) + [source])
  {
    var lang := Normalize(language);
    var ka, ks := GetKey(AliasHash, lang), GetKey(SourceHash, lang);
    var st1 := SaveInHashState(st, ka, source, alias);
    SaveMembers(st, ka, source, alias);
    SaveMembers(st1, ks, alias, source);
    assert Members(st1, ks, alias) == Members(st, ks, alias);
  }

  /** Saving the same element twice is the same as saving it once. */
  lemma SaveIdempotent(st: Store, key: Key, hkey: string, hvalue: string)
    requires Separator !in hvalue
    ensures var once := SaveInHashState(st, key, hkey, hvalue);
      SaveInHashState(once, key, hkey, hvalue) == once
  {
    var once := SaveInHashState(st, key, hkey, hvalue);
    if !Truthy(Get(st, key, hkey)) {
      if Truthy(Some(hvalue)) {
        SplitPlain(hvalue);
        assert Members(once, key, hkey) == [hvalue];
      }
    } else if hvalue !in Members(st, key, hkey) {
      SaveNewElement(st, key, hkey, hvalue);
      assert Members(once, key, hkey)[|Members(st, key, hkey)|] == hvalue;
    }
  }

  /** Calling `saveAlias` twice with the same arguments is the same as calling it once. */
  lemma SaveAliasIdempotent(st: Store, source: string, alias: string, language: Option<string>)
    requires Separator !in source && Separator !in alias
    ensures var once := SaveAliasState(st, source, alias, language);
      SaveAliasState(once, source, alias, language) == once
  {
    var lang := Normalize(language);
    var ka, ks := GetKey(AliasHash, lang), GetKey(SourceHash, lang);
    var st1 := SaveInHashState(st, ka, source, alias);
    var once := SaveAliasState(st, source, alias, language);
    SaveIdempotent(st, ka, source, alias);
    SaveIdempotent(st1, ks, alias, source);
    assert Get(once, ka, source) == Get(st1, ka, source);
  }

  /** A missing language is saved under `LANGUAGE_NONE`. */
  lemma SaveAliasWithoutLanguage(st: Store, source: string, alias: string)
    ensures SaveAliasState(st, source, alias, None) == SaveAliasState(st, source, alias, Some(LanguageNone))
  {
  }

  // ------------------------------------------------------------ deleting

  /**
   * Deleting as written changes nothing when the field is falsy, when the
   * element is not in the set, or when it comes first in the set.
   */
  lemma DeleteNoOp(st: Store, key: Key, hkey: string, hvalue: string)
    requires hvalue !in Members(st, key, hkey) || Members(st, key, hkey)[0] == hvalue
    ensures DeleteInHashState(st, key, hkey, hvalue) == st
  {
  }

  /**
   * Deleting as written a first match at position `i > 0` rewrites the field
   * with that position removed; the survivors keep their order.
   */
  lemma DeleteLaterPosition(st: Store, key: Key, hkey: string, hvalue: string, i: nat)
    requires Truthy(Get(st, key, hkey))
    requires 0 < i < |Members(st, key, hkey)| && Members(st, key, hkey)[i] == hvalue
    requires forall j :: 0 <= j < i ==> Members(st, key, hkey)[j] != hvalue
    ensures var r := DeleteInHashState(st, key, hkey, hvalue);
      Get(r, key, hkey).Some? && Split(Get(r, key, hkey).value) == Unset(Members(st, key, hkey), i)
  {
    var xs := Members(st, key, hkey);
    assert ArraySearch(xs, hvalue) == Some(i);
    SplitJoin(Unset(xs, i));
  }

  /** Deleting as written never removes a field, so a one-element set stays. */
  lemma DeleteKeepsSingleton(st: Store, key: Key, hkey: string, hvalue: string)
    requires |Members(st, key, hkey)| == 1
    ensures DeleteInHashState(st, key, hkey, hvalue) == st
  {
    var xs := Members(st, key, hkey);
    var index := ArraySearch(xs, hvalue);
    assert index.Some? ==> index.value == 0;
  }

  /**
   * The corrected delete removes the first match wherever it is, and removes
   * the field when that match was the only element.
   */
  lemma DeleteCorrectedRemovesMatch(st: Store, key: Key, hkey: string, hvalue: string, i: nat)
    requires Truthy(Get(st, key, hkey))
    requires i < |Members(st, key, hkey)| && Members(st, key, hkey)[i] == hvalue
    requires forall j :: 0 <= j < i ==> Members(st, key, hkey)[j] != hvalue
    ensures var r := DeleteInHashCorrectedState(st, key, hkey, hvalue);
      if |Members(st, key, hkey)| == 1 then Get(r, key, hkey) == None
      else Get(r, key, hkey).Some? && Split(Get(r, key, hkey).value) == Unset(Members(st, key, hkey), i)
  {
    var xs := Members(st, key, hkey);
    assert ArraySearch(xs, hvalue) == Some(i);
    if |xs| > 1 {
      SplitJoin(Unset(xs, i));
    }
  }

  // ------------------------------------------------------------- lookups

  /** With a language whose hash holds a truthy value, its first element is the answer. */
  lemma LookupPrefersLanguage(st: Store, p: Purpose, hkey: string, l: string)
    requires Truthy(Get(st, GetKey(p, l), hkey))
    ensures LookupInHash(st, p, hkey, Some(l)) == Members(st, GetKey(p, l), hkey)[0]
  {
  }

  /** With a language whose hash answers falsy, the `LANGUAGE_NONE` hash decides. */
  lemma LookupFallsBack(st: Store, p: Purpose, hkey: string, l: string)
    requires !Truthy(Get(st, GetKey(p, l), hkey))
    ensures LookupInHash(st, p, hkey, Some(l)) == LookupInHash(st, p, hkey, None)
  {
  }

  /**
   * Without a language only the `LANGUAGE_NONE` hash is read: two stores that
   * agree on that one field give the same answer.
   */
  lemma LookupWithoutLanguage(st: Store, st': Store, p: Purpose, hkey: string)
    requires Get(st, GetKey(p, LanguageNone), hkey) == Get(st', GetKey(p, LanguageNone), hkey)
    ensures LookupInHash(st, p, hkey, None) == LookupInHash(st', p, hkey, None)
    ensures Get(st, GetKey(p, LanguageNone), hkey).None? ==> LookupInHash(st, p, hkey, None) == ""
    ensures Truthy(Get(st, GetKey(p, LanguageNone), hkey)) ==>
      LookupInHash(st, p, hkey, None) == Members(st, GetKey(p, LanguageNone), hkey)[0]
  {
  }

  /**
   * After `saveAlias(source, alias, language)` each direction answers with
   * the first element it already held, or with the newly saved partner.
   */
  lemma SaveAliasThenLookup(st: Store, source: string, alias: string, language: Option<string>)
    requires Element(source) && Element(alias)
    ensures var lang := Normalize(language);
      var r := SaveAliasState(st, source, alias, language);
      LookupAlias(r, source, language) ==
        (if Members(st, GetKey(AliasHash, lang), source) != [] then Members(st, GetKey(AliasHash, lang), source)[0]
         else alias)
      && LookupSource(r, alias, language) ==
        (if Members(st, GetKey(SourceHash, lang), alias) != [] then Members(st, GetKey(SourceHash, lang), alias)[0]
         else source)
  {
    var lang := Normalize(language);
    var ka, ks := GetKey(AliasHash, lang), GetKey(SourceHash, lang);
    var st1 := SaveInHashState(st, ka, source, alias);
    var r := SaveInHashState(st1, ks, alias, source);
    SaveMembers(st, ka, source, alias);
    SaveMembers(st1, ks, alias, source);
    assert Members(r, ka, source) == Members(st1, ka, source);
    assert Members(st1, ks, alias) == Members(st, ks, alias);
    assert Truthy(Get(r, ka, source)) && Truthy(Get(r, ks, alias));
  }

  /** Saving into an empty store and looking up gives back the saved pair. */
  lemma SaveAliasRoundTrip(source: string, alias: string, language: Option<string>)
    requires Element(source) && Element(alias)
    ensures LookupAlias(SaveAliasState(map[], source, alias, language), source, language) == alias
    ensures LookupSource(SaveAliasState(map[], source, alias, language), alias, language) == source
  {
    SaveAliasThenLookup(map[], source, alias, language);
  }

  /**
   * An association saved without a language is found through the fallback
   * when looking up under any other language that holds nothing for it.
   */
  lemma SaveWithoutLanguageFoundUnderLanguage(source: string, alias: string, l: string)
    requires Element(source) && Element(alias) && l != LanguageNone
    ensures LookupAlias(SaveAliasState(map[], source, alias, None), source, Some(l)) == alias
    ensures LookupSource(SaveAliasState(map[], source, alias, None), alias, Some(l)) == source
  {
    var r := SaveAliasState(map[], source, alias, None);
    SaveAliasRoundTrip(source, alias, None);
    assert Get(r, GetKey(AliasHash, l), source) == None;
    assert Get(r, GetKey(SourceHash, l), alias) == None;
    LookupFallsBack(r, AliasHash, source, l);
    LookupFallsBack(r, SourceHash, alias, l);
  }

  /** A non-empty set under the language in use decides `lookupAlias`. */
  lemma LookupFirstMember(st: Store, source: string, language: Option<string>)
    requires Members(st, GetKey(AliasHash, Normalize(language)), source) != []
    ensures LookupAlias(st, source, language) == Members(st, GetKey(AliasHash, Normalize(language)), source)[0]
  {
    if language.Some? {
      LookupPrefersLanguage(st, AliasHash, source, language.value);
    } else {
      LookupWithoutLanguage(st, st, AliasHash, source);
    }
  }

  /**
   * Two aliases saved for one source form the set of both in insertion
   * order, and the lookup answers with the first one.
   */
  lemma SaveTwoAliases(source: string, a1: string, a2: string, language: Option<string>)
    requires Element(source) && Element(a1) && Element(a2) && a1 != a2
    ensures var r := SaveAliasState(SaveAliasState(map[], source, a1, language), source, a2, language);
      Members(r, GetKey(AliasHash, Normalize(language)), source) == [a1, a2]
      && LookupAlias(r, source, language) == a1
  {
    var ka := GetKey(AliasHash, Normalize(language));
    var st1 := SaveAliasState(map[], source, a1, language);
    SaveAliasThenLookup(map[], source, a1, language);
    var st1a := SaveInHashState(map[], ka, source, a1);
    SaveMembers(map[], ka, source, a1);
    assert Members(st1, ka, source) == [a1];
    var r := SaveAliasState(st1, source, a2, language);
    var st2a := SaveInHashState(st1, ka, source, a2);
    SaveMembers(st1, ka, source, a2);
    assert Members(r, ka, source) == Members(st2a, ka, source) == [a1, a2];
    SaveAliasThenLookup(st1, source, a2, language);
  }

  /**
   * After `deleteLanguage(l)` nothing of `l` is left: lookups under `l` answer
   * what `LANGUAGE_NONE` answers, and `""` when that has nothing either.
   */
  lemma DeleteLanguageThenLookup(st: Store, l: string, p: Purpose, hkey: string)
    ensures var r := DeleteLanguageState(st, l);
      LookupInHash(r, p, hkey, Some(l)) == LookupInHash(r, p, hkey, None)
      && (l != LanguageNone ==> LookupInHash(r, p, hkey, None) == LookupInHash(st, p, hkey, None))
      && (l == LanguageNone || Get(st, GetKey(p, LanguageNone), hkey).None? ==>
            LookupInHash(r, p, hkey, Some(l)) == "")
  {
    var r := DeleteLanguageState(st, l);
    assert Get(r, GetKey(p, l), hkey) == None;
    if l != LanguageNone {
      assert Get(r, GetKey(p, LanguageNone), hkey) == Get(st, GetKey(p, LanguageNone), hkey);
    }
  }

  // ----------------------------------------------------------- invariants

  /** A stored value is a set of elements without duplicates. */
  predicate ValidSet(v: string) {
    var xs := Split(v);
    NoDuplicates(xs) && forall i :: 0 <= i < |xs| ==> Element(xs[i])
  }

  /** Every field of the store holds a valid set. */
  ghost predicate WellFormed(st: Store) {
    forall k, f :: Get(st, k, f).Some? ==> ValidSet(Get(st, k, f).value)
  }

  /** `e` is in the set stored for `field` in the `p` hash of language `l`. */
  ghost predicate Related(st: Store, p: Purpose, l: string, field: string, e: string) {
    e in Members(st, GetKey(p, l), field)
  }

  /** Every alias saved for a source has that source saved for it, and back. */
  ghost predicate Symmetric(st: Store) {
    forall l, s, a :: Related(st, AliasHash, l, s, a) <==> Related(st, SourceHash, l, a, s)
  }

  /** In a well-formed store a field is present exactly when its set is non-empty. */
  lemma WellFormedMembers(st: Store, key: Key, hkey: string)
    requires WellFormed(st)
    ensures Get(st, key, hkey).Some? ==> Truthy(Get(st, key, hkey)) && ValidSet(Get(st, key, hkey).value)
    ensures Get(st, key, hkey).None? ==> Members(st, key, hkey) == []
  {
    if Get(st, key, hkey).Some? {
      PiecesTruthy(Get(st, key, hkey).value);
    }
  }

  /** Saving an element keeps every stored set valid. */
  lemma SaveKeepsWellFormed(st: Store, key: Key, hkey: string, hvalue: string)
    requires WellFormed(st) && Element(hvalue)
    ensures WellFormed(SaveInHashState(st, key, hkey, hvalue))
  {
    var r := SaveInHashState(st, key, hkey, hvalue);
    WellFormedMembers(st, key, hkey);
    SaveMembers(st, key, hkey, hvalue);
    var xs := Members(r, key, hkey);
    assert Truthy(Get(r, key, hkey));
    assert ValidSet(Get(r, key, hkey).value) by {
      var old_ := Members(st, key, hkey);
      if hvalue !in old_ {
        forall a, b | 0 <= a < b < |xs| ensures xs[a] != xs[b] {
          if b == |old_| { assert xs[b] == hvalue && xs[a] == old_[a]; }
        }
      }
    }
  }

  /** Saving an association keeps every stored set valid. */
  lemma SaveAliasKeepsWellFormed(st: Store, source: string, alias: string, language: Option<string>)
    requires WellFormed(st) && Element(source) && Element(alias)
    ensures WellFormed(SaveAliasState(st, source, alias, language))
  {
    var lang := Normalize(language);
    var st1 := SaveInHashState(st, GetKey(AliasHash, lang), source, alias);
    SaveKeepsWellFormed(st, GetKey(AliasHash, lang), source, alias);
    SaveKeepsWellFormed(st1, GetKey(SourceHash, lang), alias, source);
  }

  /** Deleting as written keeps every stored set valid. */
  lemma DeleteKeepsWellFormed(st: Store, key: Key, hkey: string, hvalue: string)
    requires WellFormed(st)
    ensures WellFormed(DeleteInHashState(st, key, hkey, hvalue))
  {
    var r := DeleteInHashState(st, key, hkey, hvalue);
    if r != st {
      var xs := Members(st, key, hkey);
      WellFormedMembers(st, key, hkey);
      var i := ArraySearch(xs, hvalue).value;
      UnsetKeepsNoDuplicates(xs, i);
      SplitJoin(Unset(xs, i));
      assert ValidSet(Get(r, key, hkey).value);
    }
  }

  /** The corrected delete keeps every stored set valid. */
  lemma DeleteCorrectedKeepsWellFormed(st: Store, key: Key, hkey: string, hvalue: string)
    requires WellFormed(st)
    ensures WellFormed(DeleteInHashCorrectedState(st, key, hkey, hvalue))
  {
    var r := DeleteInHashCorrectedState(st, key, hkey, hvalue);
    var xs := Members(st, key, hkey);
    WellFormedMembers(st, key, hkey);
    if r != st && |xs| > 1 {
      var i := ArraySearch(xs, hvalue).value;
      UnsetKeepsNoDuplicates(xs, i);
      SplitJoin(Unset(xs, i));
      assert ValidSet(Get(r, key, hkey).value);
    }
  }

  /** `deleteAlias` as written keeps every stored set valid. */
  lemma DeleteAliasKeepsWellFormed(st: Store, source: string, alias: string, language: Option<string>)
    requires WellFormed(st)
    ensures WellFormed(DeleteAliasState(st, source, alias, language))
  {
    var lang := Normalize(language);
    var st1 := DeleteInHashState(st, GetKey(AliasHash, lang), source, alias);
    DeleteKeepsWellFormed(st, GetKey(AliasHash, lang), source, alias);
    DeleteKeepsWellFormed(st1, GetKey(SourceHash, lang), alias, source);
  }

  /** The corrected `deleteAlias` keeps every stored set valid. */
  lemma DeleteAliasCorrectedKeepsWellFormed(st: Store, source: string, alias: string, language: Option<string>)
    requires WellFormed(st)
    ensures WellFormed(DeleteAliasCorrectedState(st, source, alias, language))
  {
    var lang := Normalize(language);
    var st1 := DeleteInHashCorrectedState(st, GetKey(AliasHash, lang), source, alias);
    DeleteCorrectedKeepsWellFormed(st, GetKey(AliasHash, lang), source, alias);
    DeleteCorrectedKeepsWellFormed(st1, GetKey(SourceHash, lang), alias, source);
  }

  /** Dropping a language keeps every remaining set valid. */
  lemma DeleteLanguageKeepsWellFormed(st: Store, l: string)
    requires WellFormed(st)
    ensures WellFormed(DeleteLanguageState(st, l))
  {
    var r := DeleteLanguageState(st, l);
    forall k, f | Get(r, k, f).Some? ensures ValidSet(Get(r, k, f).value) {
      assert Get(r, k, f) == Get(st, k, f);
    }
  }

  /** Saving one field adds exactly the saved element to that field's set. */
  lemma SaveRelated(st: Store, key: Key, hkey: string, hvalue: string)
    requires Element(hvalue)
    ensures var r := SaveInHashState(st, key, hkey, hvalue);
      forall k, f, e :: e in Members(r, k, f) <==> e in Members(st, k, f) || (k == key && f == hkey && e == hvalue)
  {
    SaveMembers(st, key, hkey, hvalue);
  }

  /** Saving an association keeps the two directions symmetric. */
  lemma SaveAliasKeepsSymmetric(st: Store, source: string, alias: string, language: Option<string>)
    requires Symmetric(st) && Element(source) && Element(alias)
    ensures Symmetric(SaveAliasState(st, source, alias, language))
  {
    var lang := Normalize(language);
    var st1 := SaveInHashState(st, GetKey(AliasHash, lang), source, alias);
    var r := SaveAliasState(st, source, alias, language);
    SaveRelated(st, GetKey(AliasHash, lang), source, alias);
    SaveRelated(st1, GetKey(SourceHash, lang), alias, source);
    forall l, s, a ensures Related(r, AliasHash, l, s, a) <==> Related(r, SourceHash, l, a, s) {
      assert Related(st, AliasHash, l, s, a) <==> Related(st, SourceHash, l, a, s);
    }
  }

  /**
   * In a well-formed store the corrected delete removes exactly the deleted
   * element from that field's set.
   */
  lemma DeleteCorrectedRelated(st: Store, key: Key, hkey: string, hvalue: string)
    requires WellFormed(st)
    ensures var r := DeleteInHashCorrectedState(st, key, hkey, hvalue);
      forall k, f, e :: e in Members(r, k, f) <==> e in Members(st, k, f) && !(k == key && f == hkey && e == hvalue)
  {
    var r := DeleteInHashCorrectedState(st, key, hkey, hvalue);
    var xs := Members(st, key, hkey);
    WellFormedMembers(st, key, hkey);
    if hvalue in xs {
      var i := ArraySearch(xs, hvalue).value;
      DeleteCorrectedRemovesMatch(st, key, hkey, hvalue, i);
      if |xs| > 1 {
        JoinElements(Unset(xs, i));
        assert Members(r, key, hkey) == Unset(xs, i);
      }
      forall e ensures e in Members(r, key, hkey) <==> e in xs && e != hvalue {
        UnsetMembership(xs, i, e);
      }
    }
  }

  /** Deleting an association with the corrected delete keeps the directions symmetric. */
  lemma DeleteAliasCorrectedKeepsSymmetric(st: Store, source: string, alias: string, language: Option<string>)
    requires WellFormed(st) && Symmetric(st)
    ensures Symmetric(DeleteAliasCorrectedState(st, source, alias, language))
  {
    var lang := Normalize(language);
    var st1 := DeleteInHashCorrectedState(st, GetKey(AliasHash, lang), source, alias);
    var r := DeleteAliasCorrectedState(st, source, alias, language);
    DeleteCorrectedRelated(st, GetKey(AliasHash, lang), source, alias);
    DeleteCorrectedKeepsWellFormed(st, GetKey(AliasHash, lang), source, alias);
    DeleteCorrectedRelated(st1, GetKey(SourceHash, lang), alias, source);
    forall l, s, a ensures Related(r, AliasHash, l, s, a) <==> Related(r, SourceHash, l, a, s) {
      assert Related(st, AliasHash, l, s, a) <==> Related(st, SourceHash, l, a, s);
    }
  }

  /** Dropping a language keeps the directions symmetric. */
  lemma DeleteLanguageKeepsSymmetric(st: Store, l: string)
    requires Symmetric(st)
    ensures Symmetric(DeleteLanguageState(st, l))
  {
    var r := DeleteLanguageState(st, l);
    forall l', s, a ensures Related(r, AliasHash, l', s, a) <==> Related(r, SourceHash, l', a, s) {
      assert Related(st, AliasHash, l', s, a) <==> Related(st, SourceHash, l', a, s);
      if l' == l {
        assert Get(r, GetKey(AliasHash, l), s) == None && Get(r, GetKey(SourceHash, l), a) == None;
      } else {
        assert Get(r, GetKey(AliasHash, l'), s) == Get(st, GetKey(AliasHash, l'), s);
        assert Get(r, GetKey(SourceHash, l'), a) == Get(st, GetKey(SourceHash, l'), a);
      }
    }
  }
}
