/** Decoded JSON values, as the registry's JSON API delivers them.

    An object keeps its members in the order the decoder produced them, as a
    Python dict does; the decoder never produces two members with the same
    key, and `Lookup` finds the member with the given key. */
module Json {

  datatype Option<+T> = None | Some(value: T)

  datatype Json =
    | Null
    | Bool(b: bool)
    | Int(i: int)
    | Str(s: string)
    | Array(items: seq<Json>)
    | Object(members: seq<(string, Json)>)

  /** The members of an ordered object. */
  type Members = seq<(string, Json)>

  /** `dict.get(key)`: the value stored under `key`, or None when the key is absent. */
  function Lookup(m: Members, key: string): Option<Json> {
    if m == [] then None
    else if m[0].0 == key then Some(m[0].1)
    else Lookup(m[1..], key)
  }

  /** `Lookup` finds nothing exactly when no member has the key, and
      otherwise the value of the first member that has it. */
  lemma {:induction false} LookupSpec(m: Members, key: string)
    ensures Lookup(m, key).None? <==> forall i :: 0 <= i < |m| ==> m[i].0 != key
    ensures Lookup(m, key).Some? ==>
      exists i :: 0 <= i < |m| && m[i] == (key, Lookup(m, key).value) && forall j :: 0 <= j < i ==> m[j].0 != key
  {
    if m != [] && m[0].0 != key {
      LookupSpec(m[1..], key);
      if Lookup(m, key).Some? {
        var i :| 0 <= i < |m[1..]| && m[1..][i] == (key, Lookup(m, key).value)
          && forall j :: 0 <= j < i ==> m[1..][j].0 != key;
        assert m[i + 1] == (key, Lookup(m, key).value);
        assert forall j :: 0 <= j < i + 1 ==> m[j].0 != key by {
          forall j | 0 <= j < i + 1 ensures m[j].0 != key {
            if j > 0 { assert m[j] == m[1..][j - 1]; }
          }
        }
      }
    } else if m != [] {
      assert m[0] == (key, Lookup(m, key).value);
    }
  }

  /** The key is absent, or holds JSON `null`. */
  predicate Missing(m: Members, key: string) {
    Lookup(m, key).None? || Lookup(m, key) == Some(Null)
  }

  /** The string stored under `key`, if a string is stored there. */
  function StrAt(m: Members, key: string): (r: Option<string>)
    ensures r.Some? ==> Lookup(m, key) == Some(Str(r.value))
    ensures Missing(m, key) ==> r.None?
  {
    match Lookup(m, key)
    case Some(Str(s)) => Some(s)
    case _ => None
  }
}
