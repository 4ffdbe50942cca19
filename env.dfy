/**
 * process.env, as the ordered list of its entries: the order in which
 * `Object.entries(process.env)` enumerates them. Reading a key gives the value
 * of its first entry; assigning a key overwrites that entry or appends one.
 */
module Env {
  import opened Wrappers

  type Environment = seq<(string, string)>

  /** process.env[key]: the value of the first entry with that key, or undefined. */
  function Lookup(env: Environment, key: string): Option<string> {
    if env == [] then None
    else if env[0].0 == key then Some(env[0].1)
    else Lookup(env[1..], key)
  }

  /** process.env[key] is truthy: present and not the empty string. */
  predicate IsSet(env: Environment, key: string) {
    Lookup(env, key).Some? && Lookup(env, key).value != ""
  }

  /** `process.env[key] || fallback`. */
  function ValueOr(env: Environment, key: string, fallback: string): (r: string)
    ensures IsSet(env, key) ==> Lookup(env, key) == Some(r) && r != ""
    ensures !IsSet(env, key) ==> r == fallback
  {
    if IsSet(env, key) then Lookup(env, key).value else fallback
  }

  /** Index of the first key in `keys` that is set; |keys| when there is none. */
  function FirstSetIndex(env: Environment, keys: seq<string>): (i: nat)
    ensures i <= |keys|
    ensures i < |keys| ==> IsSet(env, keys[i])
    ensures forall j :: 0 <= j < i ==> !IsSet(env, keys[j])
  {
    if keys == [] then 0
    else if IsSet(env, keys[0]) then 0
    else 1 + FirstSetIndex(env, keys[1..])
  }

  /**
   * `process.env[k0] || process.env[k1] || ...`: the value of the first listed key
   * that is set, or undefined when none is.
   */
  function FirstSet(env: Environment, keys: seq<string>): (r: Option<string>)
    ensures r.None? <==> forall j :: 0 <= j < |keys| ==> !IsSet(env, keys[j])
    ensures r.Some? ==> r.value != "" && Lookup(env, keys[FirstSetIndex(env, keys)]) == r
  {
    var i := FirstSetIndex(env, keys);
    if i < |keys| then Lookup(env, keys[i]) else None
  }

  /** `process.env[key] = value`: overwrite the first entry with that key in place, or append a new entry. */
  function Assign(env: Environment, key: string, value: string): (r: Environment)
    ensures Lookup(r, key) == Some(value)
    ensures forall k :: k != key ==> Lookup(r, k) == Lookup(env, k)
    ensures |r| == |env| || |r| == |env| + 1
  {
    if env == [] then [(key, value)]
    else if env[0].0 == key then [(key, value)] + env[1..]
    else [env[0]] + Assign(env[1..], key, value)
  }
}
