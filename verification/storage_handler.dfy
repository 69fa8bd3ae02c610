/**
 The older store variant (`storage_handler.rs`): the same string map with
 `new`, `get` and `put`, and no `clear`.
 */
module StorageHandler {
  import opened Base

  datatype StorageHandler = StorageHandler(entries: map<string, string>)

  /** `StorageHandler::get`: the stored value, or nothing. */
  function Get(h: StorageHandler, key: string): (r: Option<string>)
    ensures r.Some? <==> key in h.entries
    ensures r.Some? ==> r.value == h.entries[key]
  {
    if key in h.entries then Some(h.entries[key]) else None
  }

  /** `StorageHandler::new`: no key has a value. */
  function New(): (h: StorageHandler)
    ensures forall key :: Get(h, key) == None
  {
    StorageHandler(map[])
  }

  /** `StorageHandler::put`: the key reads back the value; every other key reads as before. */
  function Put(h: StorageHandler, key: string, value: string): (r: StorageHandler)
    ensures Get(r, key) == Some(value)
    ensures forall other :: other != key ==> Get(r, other) == Get(h, other)
  {
    StorageHandler(h.entries[key := value])
  }

  /**
   Any run of writes reads back like a map built by the same writes, later
   writes winning: the handler is an ordinary last-writer-wins map.
   */
  lemma {:induction false} WritesReadBack(h: StorageHandler, writes: seq<(string, string)>, key: string)
    ensures Get(PutAll(h, writes), key)
            == (if exists i :: 0 <= i < |writes| && writes[i].0 == key
                then Some(writes[LastWrite(writes, key)].1)
                else Get(h, key))
    decreases |writes|
  {
    if |writes| > 0 {
      var init := writes[..|writes| - 1];
      WritesReadBack(h, init, key);
      var last := writes[|writes| - 1];
      assert forall i :: 0 <= i < |init| ==> init[i] == writes[i];
      if last.0 != key {
        assert (exists i :: 0 <= i < |writes| && writes[i].0 == key)
               == (exists i :: 0 <= i < |init| && init[i].0 == key);
      }
    }
  }

  /** Applies the writes in order. */
  function PutAll(h: StorageHandler, writes: seq<(string, string)>): StorageHandler
    decreases |writes|
  {
    if |writes| == 0 then h
    else
      var last := writes[|writes| - 1];
      Put(PutAll(h, writes[..|writes| - 1]), last.0, last.1)
  }

  /** Index of the last write to `key`. */
  function LastWrite(writes: seq<(string, string)>, key: string): (i: nat)
    requires exists i :: 0 <= i < |writes| && writes[i].0 == key
    ensures i < |writes| && writes[i].0 == key
    ensures forall j :: i < j < |writes| ==> writes[j].0 != key
    decreases |writes|
  {
    if writes[|writes| - 1].0 == key then |writes| - 1
    else
      assert forall j :: 0 <= j < |writes| - 1 ==> writes[..|writes| - 1][j] == writes[j];
      LastWrite(writes[..|writes| - 1], key)
  }
}
