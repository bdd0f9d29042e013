/**
 * The WordPress transient store as this plugin uses it: values under string
 * keys, each stored with a time-to-live.  An entry whose time-to-live has run
 * out is simply absent from `entries`.
 */
module Transients {
  import opened Wrappers
  import opened Works

  /** A stored value together with the time-to-live, in seconds, it was stored with. */
  datatype Transient = Transient(value: seq<Publication>, ttl: nat)

  class TransientStore {
    var entries: map<string, Transient>

    constructor ()
      ensures entries == map[]
    {
      entries := map[];
    }

    /** `get_transient`: the stored value, or `None` (PHP's `false`) when there is no live entry. */
    method Get(key: string) returns (r: Option<seq<Publication>>)
      ensures r.Some? <==> key in entries
      ensures r.Some? ==> r.value == entries[key].value
    {
      if key in entries {
        r := Some(entries[key].value);
      } else {
        r := None;
      }
    }

    /** `set_transient`: store `value` under `key` for `ttl` seconds, leaving every other key alone. */
    method Set(key: string, value: seq<Publication>, ttl: nat)
      modifies this
      ensures entries == old(entries)[key := Transient(value, ttl)]
    {
      entries := entries[key := Transient(value, ttl)];
    }
  }
}
