/**
 * The remote key-value store seen as a hash of hashes (outer key, field,
 * value), with the four primitives the path-alias index uses: `hget`, `hset`,
 * `hdel` and `del`.
 */
module HashStore {
  import opened Php

  /** Which direction of the relation a hash holds: `KEY_ALIAS` or `KEY_SOURCE`. */
  datatype Purpose = AliasHash | SourceHash

  /**
   * An outer key of the store. `getKey(purpose, language)` is modelled as this
   * constructor, so distinct `(purpose, language)` pairs never share a key.
   */
  datatype Key = Key(purpose: Purpose, language: string)

  /** The outer key that holds the hash for `purpose` in `language`. */
  function GetKey(purpose: Purpose, language: string): (k: Key)
    ensures k.purpose == purpose && k.language == language
  {
    Key(purpose, language)
  }

  /** The content of the store: outer key, then field, then value. */
  type Store = map<Key, map<string, string>>

  /** What `hget(key, field)` answers on `st`. */
  function Get(st: Store, key: Key, field: string): Option<string>
  {
    if key in st && field in st[key] then Some(st[key][field]) else None
  }

  /** The store after `hset(key, field, value)`. */
  function Put(st: Store, key: Key, field: string, value: string): (r: Store)
    ensures Get(r, key, field) == Some(value)
    ensures forall k, f :: (k, f) != (key, field) ==> Get(r, k, f) == Get(st, k, f)
  {
    st[key := (if key in st then st[key] else map[])[field := value]]
  }

  /** The store after `hdel(key, field)`. */
  function Erase(st: Store, key: Key, field: string): (r: Store)
    ensures Get(r, key, field) == None
    ensures forall k, f :: (k, f) != (key, field) ==> Get(r, k, f) == Get(st, k, f)
  {
    if key in st then st[key := st[key] - {field}] else st
  }

  /** The store after `del(key)`. */
  function Drop(st: Store, key: Key): (r: Store)
    ensures forall f :: Get(r, key, f) == None
    ensures forall k, f :: k != key ==> Get(r, k, f) == Get(st, k, f)
  {
    st - {key}
  }

  /** The client of the remote store; its state is the whole hash of hashes. */
  class Client {
    var data: Store

    constructor (initial: Store)
      ensures data == initial
    {
      data := initial;
    }

    /** `hget`: reads one field and changes nothing. */
    function HGet(key: Key, field: string): Option<string>
      reads this
    {
      Get(data, key, field)
    }

    /** `hset`: overwrites or creates one field. */
    method HSet(key: Key, field: string, value: string)
      modifies this
      ensures data == Put(old(data), key, field, value)
    {
      data := Put(data, key, field, value);
    }

    /** `hdel`: removes one field if it is present. */
    method HDel(key: Key, field: string)
      modifies this
      ensures data == Erase(old(data), key, field)
    {
      data := Erase(data, key, field);
    }

    /** `del`: removes a whole outer key with all its fields. */
    method Del(key: Key)
      modifies this
      ensures data == Drop(old(data), key)
    {
      data := Drop(data, key);
    }
  }
}
