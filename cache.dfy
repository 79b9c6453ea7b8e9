/** The key-value cache port: short code to long URL. An entry written by
    Set may disappear at any later time (its 24-hour expiry), which Expire
    stands for; there is no clock. */
module CachePort {
  import opened Domain

  class Cache {
    /** The entries that have not expired. */
    var entries: map<string, string>

    constructor ()
      ensures entries == map[]
    {
      entries := map[];
    }

    /** Stores `key -> value`; when the cache cannot be reached nothing is
        stored and the failure is returned. */
    method Set(key: string, value: string, reachable: bool) returns (err: Option<Error>)
      modifies this
      ensures reachable ==> err == None && entries == old(entries)[key := value]
      ensures !reachable ==> err == Some(Unavailable) && entries == old(entries)
    {
      if !reachable {
        return Some(Unavailable);
      }
      entries := entries[key := value];
      err := None;
    }

    /** The live value for `key`, a miss when it is absent or expired. */
    method Get(key: string, reachable: bool) returns (r: Result<string>)
      ensures !reachable ==> r == Err(Unavailable)
      ensures reachable ==> (r.Ok? <==> key in entries)
      ensures reachable && r.Err? ==> r.error == CacheMiss
      ensures r.Ok? ==> key in entries && r.value == entries[key]
    {
      if !reachable {
        return Err(Unavailable);
      }
      if key in entries {
        r := Ok(entries[key]);
      } else {
        r := Err(CacheMiss);
      }
    }

    /** The entry for `key` expires. */
    method Expire(key: string)
      modifies this
      ensures entries == old(entries) - {key}
    {
      entries := entries - {key};
    }
  }
}
