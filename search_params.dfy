/** `URLSearchParams` as the applicant pages use it: an ordered list of
    name/value pairs that is read with `get` and rewritten in place with
    `set`. */
module SearchParams {
  import opened Strings

  type Query = seq<(string, string)>

  /** `get(name)`: the value of the first pair with that name, or null
      (None) when no pair has it. */
  function Get(q: Query, name: string): (r: Option<string>)
    ensures r.None? <==> forall i :: 0 <= i < |q| ==> q[i].0 != name
    ensures r.Some? ==> exists i :: 0 <= i < |q| && q[i] == (name, r.value) && forall j :: 0 <= j < i ==> q[j].0 != name
  {
    if q == [] then None
    else if q[0].0 == name then Some(q[0].1)
    else
      var r := Get(q[1..], name);
      assert r.Some? ==> exists i :: 1 <= i < |q| && q[i] == (name, r.value) && forall j :: 0 <= j < i ==> q[j].0 != name by {
        if r.Some? {
          var i :| 0 <= i < |q[1..]| && q[1..][i] == (name, r.value) && forall j :: 0 <= j < i ==> q[1..][j].0 != name;
          assert q[i + 1] == (name, r.value);
          assert forall j :: 1 <= j < i + 1 ==> q[j].0 != name by {
            forall j | 1 <= j < i + 1 ensures q[j].0 != name { assert q[j] == q[1..][j - 1]; }
          }
        }
      }
      r
  }

  lemma GetCons(pair: (string, string), q: Query, name: string)
    ensures Get([pair] + q, name) == if pair.0 == name then Some(pair.1) else Get(q, name)
  {
    assert ([pair] + q)[1..] == q;
  }

  /** The pairs not named `name`, in their order. */
  function Without(q: Query, name: string): (r: Query)
    ensures forall i :: 0 <= i < |r| ==> r[i].0 != name
    ensures |r| <= |q|
  {
    if q == [] then []
    else if q[0].0 == name then Without(q[1..], name)
    else [q[0]] + Without(q[1..], name)
  }

  /** The number of pairs named `name`. */
  function Count(q: Query, name: string): nat
  {
    if q == [] then 0 else (if q[0].0 == name then 1 else 0) + Count(q[1..], name)
  }

  /** `set(name, value)`: the first pair named `name` takes the new value
      and every later pair with that name is removed; when no pair has the
      name, a pair is appended. */
  function SetParam(q: Query, name: string, value: string): Query
  {
    if q == [] then [(name, value)]
    else if q[0].0 == name then [(name, value)] + Without(q[1..], name)
    else [q[0]] + SetParam(q[1..], name, value)
  }

  lemma {:induction false} CountWithout(q: Query, name: string)
    ensures Count(Without(q, name), name) == 0
  {
    if q != [] {
      CountWithout(q[1..], name);
    }
  }

  lemma {:induction false} GetWithout(q: Query, name: string, other: string)
    requires other != name
    ensures Get(Without(q, name), other) == Get(q, other)
  {
    if q != [] {
      GetWithout(q[1..], name, other);
    }
  }

  /** After `set(name, value)`, `get(name)` is `value`, and exactly one pair
      carries the name. */
  lemma {:induction false} SetParamGet(q: Query, name: string, value: string)
    ensures Get(SetParam(q, name, value), name) == Some(value)
    ensures Count(SetParam(q, name, value), name) == 1
  {
    if q != [] {
      if q[0].0 == name {
        CountWithout(q[1..], name);
      } else {
        SetParamGet(q[1..], name, value);
      }
    }
  }

  /** `set(name, value)` changes no other parameter: `get` of every other
      name is what it was, and the pairs with other names are the same pairs
      in the same order. */
  lemma {:induction false} SetParamKeepsOthers(q: Query, name: string, value: string, other: string)
    requires other != name
    ensures Get(SetParam(q, name, value), other) == Get(q, other)
    ensures Without(SetParam(q, name, value), name) == Without(q, name)
  {
    if q != [] {
      if q[0].0 == name {
        GetWithout(q[1..], name, other);
        WithoutWithout(q[1..], name);
      } else {
        SetParamKeepsOthers(q[1..], name, value, other);
      }
    }
  }

  lemma {:induction false} WithoutWithout(q: Query, name: string)
    ensures Without(Without(q, name), name) == Without(q, name)
  {
    if q != [] {
      WithoutWithout(q[1..], name);
    }
  }

  /** A `URLSearchParams` object: its list of pairs is updated in place. */
  class Params {
    var pairs: Query

    /** `new URLSearchParams(init)`, for a list already parsed into pairs. */
    constructor (init: Query)
      ensures pairs == init
    {
      pairs := init;
    }

    /** `params.set(name, value)`. */
    method Set(name: string, value: string)
      modifies this
      ensures pairs == SetParam(old(pairs), name, value)
    {
      var i := 0;
      var out: Query := [];
      var found := false;
      while i < |pairs|
        invariant 0 <= i <= |pairs| && pairs == old(pairs)
        invariant !found ==> out + SetParam(pairs[i..], name, value) == SetParam(pairs, name, value)
        invariant found ==> out + Without(pairs[i..], name) == SetParam(pairs, name, value)
      {
        assert pairs[i..] == [pairs[i]] + pairs[i + 1..];
        if pairs[i].0 == name {
          if !found {
            out := out + [(name, value)];
            found := true;
          }
        } else {
          out := out + [pairs[i]];
        }
        i := i + 1;
      }
      if !found {
        out := out + [(name, value)];
      }
      pairs := out;
    }
  }
}
