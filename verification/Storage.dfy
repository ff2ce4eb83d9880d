/** The key/value store both DHT components share. A transaction either applies or fails. */
module Storage {
  import opened Bytes

  type Store = map<Bytes, Bytes>

  datatype Read = Found(value: Bytes) | KeyNotFound | ReadError

  function Lookup(s: Store, key: Bytes): Read {
    if key in s then Found(s[key]) else KeyNotFound
  }

  /** `failures` counts the transactions that failed. */
  class KeyValueStore {
    var data: Store
    var failures: nat

    constructor ()
      ensures data == map[] && failures == 0
    {
      data := map[];
      failures := 0;
    }

    /** A failed transaction leaves the store as it was. */
    method Set(key: Bytes, value: Bytes) returns (ok: bool)
      modifies this
      ensures data == if ok then old(data)[key := value] else old(data)
      ensures failures == old(failures) + if ok then 0 else 1
    {
      if * {
        data := data[key := value];
        ok := true;
      } else {
        failures := failures + 1;
        ok := false;
      }
    }

    /** A failed read is counted; any other yields the stored value or reports its absence. */
    method Get(key: Bytes) returns (r: Read)
      modifies this`failures
      ensures if failures == old(failures) then r == Lookup(data, key)
              else failures == old(failures) + 1 && r == ReadError
    {
      if * {
        r := Lookup(data, key);
      } else {
        failures := failures + 1;
        r := ReadError;
      }
    }

    /** Any read error counts as absence, so a stored key is only missed on a failure. */
    method Exists(key: Bytes) returns (present: bool)
      modifies this`failures
      ensures if failures == old(failures) then present <==> key in data
              else failures == old(failures) + 1 && !present
    {
      var r := Get(key);
      present := r.Found?;
    }
  }
}
