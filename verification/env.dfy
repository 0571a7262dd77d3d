/** The process environment as an explicit map, and JavaScript truthiness
    on the optional strings read out of it. */
module Env {
  import opened Wrappers

  type Environment = map<string, string>

  /** The value of `key` in the process environment, unset when the key is missing. */
  function Lookup(env: Environment, key: string): (r: Option<string>)
    ensures r.Some? <==> key in env
    ensures r.Some? ==> r.value == env[key]
  {
    if key in env then Some(env[key]) else None
  }

  /** The value as `Array.prototype.join` renders it: a missing key is "". */
  function Get(env: Environment, key: string): (r: string)
    ensures key !in env ==> r == ""
    ensures key in env ==> r == env[key]
  {
    if key in env then env[key] else ""
  }

  /** A present, non-empty string: the values JavaScript treats as true. */
  predicate Truthy(v: Option<string>) {
    v.Some? && v.value != ""
  }

  /** The value when it is set and non-empty, the fallback otherwise. */
  function Or(v: Option<string>, fallback: string): (r: string)
    ensures Truthy(v) ==> r == v.value
    ensures !Truthy(v) ==> r == fallback
  {
    if Truthy(v) then v.value else fallback
  }

  /** Key `i` is the first of `keys` whose value is non-empty. */
  predicate FirstSetAt(keys: seq<string>, env: Environment, i: int) {
    && 0 <= i < |keys|
    && Get(env, keys[i]) != ""
    && forall j :: 0 <= j < i ==> Get(env, keys[j]) == ""
  }

  /** The value of the first key, in order, whose value is non-empty;
      later keys are never consulted. */
  function FirstSet(keys: seq<string>, env: Environment): (r: Option<string>)
    ensures r.Some? ==> r.value != ""
    ensures forall i :: FirstSetAt(keys, env, i) ==> r == Some(Get(env, keys[i]))
    ensures r.None? <==> forall i :: 0 <= i < |keys| ==> Get(env, keys[i]) == ""
  {
    if |keys| == 0 then None
    else if Get(env, keys[0]) != "" then Some(Get(env, keys[0]))
    else
      assert forall i :: 1 <= i < |keys| ==> keys[i] == keys[1..][i - 1];
      assert forall i :: FirstSetAt(keys, env, i) ==> FirstSetAt(keys[1..], env, i - 1);
      FirstSet(keys[1..], env)
  }

  /** The scan over the mode-variable names: each name's value is read in
      turn, starting from an unset or empty value, and the scan stops at the
      first non-empty one; otherwise it ends holding the last value read.
      Its outcome is `FirstSet`'s. */
  function ScanNames(keys: seq<string>, env: Environment, current: Option<string>): (r: Option<string>)
    requires !Truthy(current)
    ensures Truthy(r) ==> r == FirstSet(keys, env)
    ensures !Truthy(r) ==> FirstSet(keys, env).None?
  {
    if |keys| == 0 then current
    else
      var v := Lookup(env, keys[0]);
      if Truthy(v) then v
      else ScanNames(keys[1..], env, v)
  }
}
