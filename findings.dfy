/**
 * `deleteInHash` uses the position answered by `array_search` as its
 * condition, so an element found at position 0 counts as not found. These
 * lemmas exhibit what that does to the code as written, and prove that the
 * corrected variant (which accepts position 0, as the `count == 1` branch
 * at lib/Redis/Path/PhpRedis.php:50 presupposes) removes what it is asked to.
 */
module RedisPathFindings {
  import opened Php
  import opened Encoding
  import opened HashStore
  import opened RedisPath
  import opened RedisPathProperties

  /** Two aliases `a1` then `a2` saved for `source` from an empty store. */
  function TwoAliases(source: string, a1: string, a2: string, language: Option<string>): Store
  {
    SaveAliasState(SaveAliasState(map[], source, a1, language), source, a2, language)
  }

  /** The sets the two saves leave: `[a1, a2]` for the source, `[source]` for `a1`. */
  lemma TwoAliasesMembers(source: string, a1: string, a2: string, language: Option<string>)
    requires Element(source) && Element(a1) && Element(a2) && a1 != a2
    ensures var lang := Normalize(language);
      var st := TwoAliases(source, a1, a2, language);
      && Members(st, GetKey(AliasHash, lang), source) == [a1, a2]
      && Members(st, GetKey(SourceHash, lang), a1) == [source]
      && Members(st, GetKey(SourceHash, lang), a2) == [source]
  {
    var lang := Normalize(language);
    var st1 := SaveAliasState(map[], source, a1, language);
    SaveAliasMembers(map[], source, a1, language);
    SaveAliasMembers(st1, source, a2, language);
    assert Get(TwoAliases(source, a1, a2, language), GetKey(SourceHash, lang), a1)
        == Get(st1, GetKey(SourceHash, lang), a1);
  }

  /**
   * AS WRITTEN: deleting the first alias saved for a source does nothing at
   * all, and the lookup still answers with that alias.
   */
  lemma DeleteFirstAliasIgnored(source: string, a1: string, a2: string, language: Option<string>)
    requires Element(source) && Element(a1) && Element(a2) && a1 != a2
    ensures var st := TwoAliases(source, a1, a2, language);
      DeleteAliasState(st, source, a1, language) == st
      && LookupAlias(DeleteAliasState(st, source, a1, language), source, language) == a1
  {
    var lang := Normalize(language);
    var st := TwoAliases(source, a1, a2, language);
    TwoAliasesMembers(source, a1, a2, language);
    DeleteNoOp(st, GetKey(AliasHash, lang), source, a1);
    DeleteNoOp(st, GetKey(SourceHash, lang), a1, source);
    LookupFirstMember(st, source, language);
  }

  /** Alias `a` saved for `t` and then for `s`, from an empty store. */
  function SharedAlias(s: string, t: string, a: string, language: Option<string>): Store
  {
    SaveAliasState(SaveAliasState(map[], t, a, language), s, a, language)
  }

  /** The sets the two saves leave, and the symmetry they keep. */
  lemma SharedAliasMembers(s: string, t: string, a: string, language: Option<string>)
    requires Element(s) && Element(t) && Element(a) && s != t
    ensures var lang := Normalize(language);
      var st := SharedAlias(s, t, a, language);
      && Members(st, GetKey(AliasHash, lang), s) == [a]
      && Members(st, GetKey(SourceHash, lang), a) == [t, s]
      && Symmetric(st)
  {
    var lang := Normalize(language);
    var st1 := SaveAliasState(map[], t, a, language);
    SaveAliasMembers(map[], t, a, language);
    SaveAliasMembers(st1, s, a, language);
    assert Members(st1, GetKey(AliasHash, lang), s) == [];
    SaveAliasKeepsSymmetric(map[], t, a, language);
    SaveAliasKeepsSymmetric(st1, s, a, language);
  }

  /**
   * AS WRITTEN: with alias `a` saved for `t` and then for `s`, deleting the
   * association of `s` and `a` removes `s` from the sources of `a` but keeps
   * `a` among the aliases of `s`: a symmetric store stops being symmetric.
   */
  lemma DeleteAliasBreaksSymmetry(s: string, t: string, a: string, language: Option<string>)
    requires Element(s) && Element(t) && Element(a) && s != t
    ensures var st := SharedAlias(s, t, a, language);
      var r := DeleteAliasState(st, s, a, language);
      Symmetric(st) && !Symmetric(r)
      && Related(r, AliasHash, Normalize(language), s, a) && !Related(r, SourceHash, Normalize(language), a, s)
  {
    var lang := Normalize(language);
    var ka, ks := GetKey(AliasHash, lang), GetKey(SourceHash, lang);
    var st := SharedAlias(s, t, a, language);
    SharedAliasMembers(s, t, a, language);
    DeleteNoOp(st, ka, s, a);
    var r := DeleteInHashState(st, ks, a, s);
    DeleteLaterPosition(st, ks, a, s, 1);
    assert Unset([t, s], 1) == [t];
    SplitPlain(t);
    assert Get(r, ks, a) == Some(t);
    assert Members(r, ks, a) == [t];
    assert Members(r, ka, s) == [a];
    assert r == DeleteAliasState(st, s, a, language);
    assert Related(r, AliasHash, lang, s, a) && !Related(r, SourceHash, lang, a, s);
  }

  /**
   * CORRECTED: deleting the first alias leaves the second one as the answer,
   * and deleting the second one as well removes the field, so the lookup
   * answers `""`.
   */
  lemma DeleteCorrectedFirstThenLast(source: string, a1: string, a2: string, language: Option<string>)
    requires Element(source) && Element(a1) && Element(a2) && a1 != a2
    ensures var lang := Normalize(language);
      var st := TwoAliases(source, a1, a2, language);
      var r1 := DeleteAliasCorrectedState(st, source, a1, language);
      var r2 := DeleteAliasCorrectedState(r1, source, a2, language);
      && Members(r1, GetKey(AliasHash, lang), source) == [a2]
      && LookupAlias(r1, source, language) == a2
      && Get(r2, GetKey(AliasHash, lang), source) == None
      && LookupAlias(r2, source, language) == ""
  {
    var lang := Normalize(language);
    var ka, ks := GetKey(AliasHash, lang), GetKey(SourceHash, lang);
    var st := TwoAliases(source, a1, a2, language);
    TwoAliasesMembers(source, a1, a2, language);
    var s1 := DeleteInHashCorrectedState(st, ka, source, a1);
    DeleteCorrectedRemovesMatch(st, ka, source, a1, 0);
    assert Unset([a1, a2], 0) == [a2];
    SplitPlain(a2);
    assert Members(s1, ka, source) == [a2];
    var r1 := DeleteAliasCorrectedState(st, source, a1, language);
    assert Get(r1, ka, source) == Get(s1, ka, source);
    LookupFirstMember(r1, source, language);
    var s2 := DeleteInHashCorrectedState(r1, ka, source, a2);
    DeleteCorrectedRemovesMatch(r1, ka, source, a2, 0);
    var r2 := DeleteAliasCorrectedState(r1, source, a2, language);
    assert Get(r2, ka, source) == Get(s2, ka, source) == None;
    assert Get(r2, GetKey(AliasHash, LanguageNone), source) == None by {
      if lang != LanguageNone {
        assert Get(TwoAliases(source, a1, a2, language), GetKey(AliasHash, LanguageNone), source) == None;
      }
    }
  }
}
