/**
 The node's key/value store (`storage.rs`): a string-to-string map behind a
 lock. The lock is not modelled; each operation is a pure function of the
 store, so `get` cannot change it.
 */
module Storage {
  import opened Base

  datatype Storage = Storage(entries: map<string, string>)

  /** `Storage::get`: the stored value, or nothing. */
  function Get(s: Storage, key: string): (r: Option<string>)
    ensures r.Some? <==> key in s.entries
    ensures r.Some? ==> r.value == s.entries[key]
  {
    if key in s.entries then Some(s.entries[key]) else None
  }

  /** `Storage::new`: no key has a value. */
  function New(): (s: Storage)
    ensures forall key :: Get(s, key) == None
  {
    Storage(map[])
  }

  /** `Storage::put`: the key now reads back the value; every other key reads as before. */
  function Put(s: Storage, key: string, value: string): (r: Storage)
    ensures Get(r, key) == Some(value)
    ensures forall other :: other != key ==> Get(r, other) == Get(s, other)
  {
    Storage(s.entries[key := value])
  }

  /** `Storage::clear`: afterwards no key has a value. */
  function Clear(s: Storage): (r: Storage)
    ensures forall key :: Get(r, key) == None
  {
    Storage(map[])
  }

  /** The two unit tests of the store: a written value reads back, and an unknown key reads as none. */
  lemma StoreUnitTests()
    ensures Get(Put(New(), "key1", "value1"), "key1") == Some("value1")
    ensures Get(New(), "nonexistent") == None
  {
  }

  /** A second write to the same key replaces the first. */
  lemma PutOverwrites(s: Storage, key: string, v1: string, v2: string)
    ensures Put(Put(s, key, v1), key, v2) == Put(s, key, v2)
  {
  }
}
