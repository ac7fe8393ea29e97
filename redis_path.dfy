/**
 * The path-alias index kept in the remote store (class `Redis_Path_PhpRedis`).
 * Per language there are two hashes: the ALIAS hash maps a source to the
 * aliases saved for it, the SOURCE hash maps an alias to the sources saved for
 * it. Each field holds a small ordered set encoded with `Encoding.Join`.
 *
 * Each operation that changes the store is a method of `PhpRedis`, proved
 * against a function giving the store it leaves behind (`SaveInHashState`,
 * ...); the lookups only read, and are functions of the store content.
 */
module RedisPath {
  import opened Php
  import opened Encoding
  import opened HashStore

  /** The host system's "no language" code, `LANGUAGE_NONE`. */
  const LanguageNone: string := "und"

  /** A missing language stands for `LANGUAGE_NONE`. */
  function Normalize(language: Option<string>): string
  {
    if language.None? then LanguageNone else language.value
  }

  /**
   * A source or alias the encoding can hold faithfully: truthy for PHP and
   * free of the separator.
   */
  predicate Element(x: string) {
    x != "" && x != "0" && Separator !in x
  }

  /**
   * The set stored at `(key, field)` as the operations see it: a falsy value
   * (missing, `""`, `"0"`) is the empty set, any other value is split.
   */
  function Members(st: Store, key: Key, field: string): seq<string>
  {
    var v := Get(st, key, field);
    if Truthy(v) then Split(v.value) else []
  }

  // ---------------------------------------------------------------- saving

  /** The store after `saveInHash(key, hkey, hvalue)`. */
  function SaveInHashState(st: Store, key: Key, hkey: string, hvalue: string): (r: Store)
    ensures forall k, f :: (k, f) != (key, hkey) ==> Get(r, k, f) == Get(st, k, f)
  {
    var value := Get(st, key, hkey);
    var toWrite :=
      if Truthy(value) then
        if hvalue !in Split(value.value) then Some(value.value + [Separator] + hvalue)
        else None
      else Some(hvalue);
    if Truthy(toWrite) then Put(st, key, hkey, toWrite.value) else st
  }

  /** The store after `saveAlias(source, alias, language)`. */
  function SaveAliasState(st: Store, source: string, alias: string, language: Option<string>): (r: Store)
    ensures forall k, f ::
      (k, f) != (GetKey(AliasHash, Normalize(language)), source) &&
      (k, f) != (GetKey(SourceHash, Normalize(language)), alias)
      ==> Get(r, k, f) == Get(st, k, f)
  {
    var lang := Normalize(language);
    var st1 := SaveInHashState(st, GetKey(AliasHash, lang), source, alias);
    SaveInHashState(st1, GetKey(SourceHash, lang), alias, source)
  }

  // -------------------------------------------------------------- deleting

  /**
   * The store after `deleteInHash(key, hkey, hvalue)` as written: the
   * position found by `array_search` is used as a condition, so a match at
   * position 0 counts as "not found". Hence the field is never removed.
   */
  function DeleteInHashState(st: Store, key: Key, hkey: string, hvalue: string): (r: Store)
    ensures forall k, f :: (k, f) != (key, hkey) ==> Get(r, k, f) == Get(st, k, f)
    ensures Get(r, key, hkey).Some? <==> Get(st, key, hkey).Some?
  {
    var value := Get(st, key, hkey);
    if !Truthy(value) then st
    else
      var existing := Split(value.value);
      var index := ArraySearch(existing, hvalue);
      if index.None? || index.value == 0 then st
      else if |existing| == 1 then Erase(st, key, hkey)
      else Put(st, key, hkey, Join(Unset(existing, index.value)))
  }

  /** The store after `deleteAlias(source, alias, language)` as written. */
  function DeleteAliasState(st: Store, source: string, alias: string, language: Option<string>): (r: Store)
    ensures forall k, f ::
      (k, f) != (GetKey(AliasHash, Normalize(language)), source) &&
      (k, f) != (GetKey(SourceHash, Normalize(language)), alias)
      ==> Get(r, k, f) == Get(st, k, f)
  {
    var lang := Normalize(language);
    var st1 := DeleteInHashState(st, GetKey(AliasHash, lang), source, alias);
    DeleteInHashState(st1, GetKey(SourceHash, lang), alias, source)
  }

  /**
   * CORRECTED VARIANT, not the code as written: `deleteInHash` with a match
   * at position 0 treated as found. The one-element branch of the code can
   * only run under that reading, since a one-element set matches only at 0.
   */
  function DeleteInHashCorrectedState(st: Store, key: Key, hkey: string, hvalue: string): (r: Store)
    ensures forall k, f :: (k, f) != (key, hkey) ==> Get(r, k, f) == Get(st, k, f)
  {
    var value := Get(st, key, hkey);
    if !Truthy(value) then st
    else
      var existing := Split(value.value);
      var index := ArraySearch(existing, hvalue);
      if index.None? then st
      else if |existing| == 1 then Erase(st, key, hkey)
      else Put(st, key, hkey, Join(Unset(existing, index.value)))
  }

  /** CORRECTED VARIANT of `deleteAlias`, built on the corrected `deleteInHash`. */
  function DeleteAliasCorrectedState(st: Store, source: string, alias: string, language: Option<string>): (r: Store)
    ensures forall k, f ::
      (k, f) != (GetKey(AliasHash, Normalize(language)), source) &&
      (k, f) != (GetKey(SourceHash, Normalize(language)), alias)
      ==> Get(r, k, f) == Get(st, k, f)
  {
    var lang := Normalize(language);
    var st1 := DeleteInHashCorrectedState(st, GetKey(AliasHash, lang), source, alias);
    DeleteInHashCorrectedState(st1, GetKey(SourceHash, lang), alias, source)
  }

  /** The store after `deleteLanguage(language)`: both of its hashes are gone. */
  function DeleteLanguageState(st: Store, language: string): (r: Store)
    ensures forall p, f :: Get(r, GetKey(p, language), f) == None
    ensures forall k: Key, f :: k.language != language ==> Get(r, k, f) == Get(st, k, f)
  {
    Drop(Drop(st, GetKey(AliasHash, language)), GetKey(SourceHash, language))
  }

  // -------------------------------------------------------------- lookups

  /**
   * `lookupInHash(keyPrefix, hkey, language)`: the first element of the set
   * found for `hkey` in the language's hash, falling back to the
   * `LANGUAGE_NONE` hash when a language was given and its answer is falsy;
   * `""` when nothing is found. It reads the store and changes nothing.
   */
  function LookupInHash(st: Store, keyPrefix: Purpose, hkey: string, language: Option<string>): (r: string)
    ensures Separator !in r
  {
    var ret := Get(st, GetKey(keyPrefix, Normalize(language)), hkey);
    var found :=
      if !Truthy(ret) && language.Some? then Get(st, GetKey(keyPrefix, LanguageNone), hkey)
      else ret;
    Split(if found.Some? then found.value else "")[0]
  }

  /** `lookupAlias(source, language)`: the first alias saved for `source`. */
  function LookupAlias(st: Store, source: string, language: Option<string>): (r: string)
    ensures Separator !in r
  {
    LookupInHash(st, AliasHash, source, language)
  }

  /** `lookupSource(alias, language)`: the first source saved for `alias`. */
  function LookupSource(st: Store, alias: string, language: Option<string>): (r: string)
    ensures Separator !in r
  {
    LookupInHash(st, SourceHash, alias, language)
  }

  // ------------------------------------------------------ the index object

  /** `Redis_Path_PhpRedis`, with its store client injected. */
  class PhpRedis {
    const client: Client

    constructor (client: Client)
      ensures this.client == client
    {
      this.client := client;
    }

    /** Adds `hvalue` to the set at `(key, hkey)` unless it is already there. */
    method SaveInHash(key: Key, hkey: string, hvalue: string)
      modifies client
      ensures client.data == SaveInHashState(old(client.data), key, hkey, hvalue)
    {
      var value := client.HGet(key, hkey);
      var toWrite: Option<string>;
      if Truthy(value) {
        var existing := Split(value.value);
        if hvalue !in existing {
          toWrite := Some(value.value + [Separator] + hvalue);
        } else {
          toWrite := None;
        }
      } else {
        toWrite := Some(hvalue);
      }
      if Truthy(toWrite) {
        client.HSet(key, hkey, toWrite.value);
      }
    }

    /** Records `source` and `alias` as associated, in both directions. */
    method SaveAlias(source: string, alias: string, language: Option<string>)
      modifies client
      ensures client.data == SaveAliasState(old(client.data), source, alias, language)
    {
      var lang := Normalize(language);
      SaveInHash(GetKey(AliasHash, lang), source, alias);
      SaveInHash(GetKey(SourceHash, lang), alias, source);
    }

    /** Removes `hvalue` from the set at `(key, hkey)`, as written. */
    method DeleteInHash(key: Key, hkey: string, hvalue: string)
      modifies client
      ensures client.data == DeleteInHashState(old(client.data), key, hkey, hvalue)
    {
      var value := client.HGet(key, hkey);
      if Truthy(value) {
        var existing := Split(value.value);
        var index := ArraySearch(existing, hvalue);
        if index.Some? && index.value != 0 {
          if |existing| == 1 {
            // The source calls `hdel` here; a match at a position above 0
            // needs at least two elements, so this branch is dead.
            assert false;
          } else {
            existing := Unset(existing, index.value);
            client.HSet(key, hkey, Join(existing));
          }
        }
      }
    }

    /** Removes the association of `source` and `alias`, as written. */
    method DeleteAlias(source: string, alias: string, language: Option<string>)
      modifies client
      ensures client.data == DeleteAliasState(old(client.data), source, alias, language)
    {
      var lang := Normalize(language);
      DeleteInHash(GetKey(AliasHash, lang), source, alias);
      DeleteInHash(GetKey(SourceHash, lang), alias, source);
    }

    /** CORRECTED VARIANT of `DeleteInHash`: a match at position 0 is a match. */
    method DeleteInHashCorrected(key: Key, hkey: string, hvalue: string)
      modifies client
      ensures client.data == DeleteInHashCorrectedState(old(client.data), key, hkey, hvalue)
    {
      var value := client.HGet(key, hkey);
      if Truthy(value) {
        var existing := Split(value.value);
        var index := ArraySearch(existing, hvalue);
        if index.Some? {
          if |existing| == 1 {
            client.HDel(key, hkey);
          } else {
            existing := Unset(existing, index.value);
            client.HSet(key, hkey, Join(existing));
          }
        }
      }
    }

    /** CORRECTED VARIANT of `DeleteAlias`, built on `DeleteInHashCorrected`. */
    method DeleteAliasCorrected(source: string, alias: string, language: Option<string>)
      modifies client
      ensures client.data == DeleteAliasCorrectedState(old(client.data), source, alias, language)
    {
      var lang := Normalize(language);
      DeleteInHashCorrected(GetKey(AliasHash, lang), source, alias);
      DeleteInHashCorrected(GetKey(SourceHash, lang), alias, source);
    }

    /** Drops both hashes of `language`. */
    method DeleteLanguage(language: string)
      modifies client
      ensures client.data == DeleteLanguageState(old(client.data), language)
    {
      client.Del(GetKey(AliasHash, language));
      client.Del(GetKey(SourceHash, language));
    }
  }
}
