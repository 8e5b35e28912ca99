/** The `MutableMapping` mixin of Lib/_collections_abc.py, over its abstract methods
    `__getitem__`, `__setitem__`, `__delitem__` and `__iter__`. */
module AbstractMappings {
  import opened Outcomes
  import opened Enumerations

  // The positional argument of `update`: another mapping (possibly the receiver), an object
  // that merely has a `keys` method, or an iterable of pairs.
  datatype Source<K(==), V> =
    | AnyMapping(m: MutableMapping<K, V>)
    | WithKeys(keys: seq<K>, lookup: map<K, V>)
    | Pairs(pairs: seq<(K, V)>)

  datatype MappingError = KeyError | TypeError

  // A map after assigning pairs to it one after another.
  function Overridden<K, V>(m: map<K, V>, pairs: seq<(K, V)>): map<K, V>
    decreases |pairs|
  {
    if pairs == [] then m
    else
      var (k, v) := pairs[|pairs| - 1];
      Overridden(m, pairs[..|pairs| - 1])[k := v]
  }

  predicate HasKey<K(==), V>(pairs: seq<(K, V)>, k: K) {
    exists i :: 0 <= i < |pairs| && pairs[i].0 == k
  }

  /** Assigning pairs in order: a key that occurs gets the value of its last occurrence, every
      other key is left as it was. */
  lemma {:induction false} LastPairWins<K, V>(m: map<K, V>, pairs: seq<(K, V)>, k: K)
    ensures !HasKey(pairs, k) ==> (k in Overridden(m, pairs) <==> k in m)
    ensures !HasKey(pairs, k) && k in m ==> Overridden(m, pairs)[k] == m[k]
    ensures HasKey(pairs, k) ==> k in Overridden(m, pairs)
    ensures forall i | 0 <= i < |pairs| && pairs[i].0 == k && !HasKey(pairs[i + 1..], k) ::
              Overridden(m, pairs)[k] == pairs[i].1
    decreases |pairs|
  {
    if pairs != [] {
      var n := |pairs| - 1;
      var front := pairs[..n];
      LastPairWins(m, front, k);
      if HasKey(pairs, k) && pairs[n].0 != k {
        var i :| 0 <= i < |pairs| && pairs[i].0 == k;
        assert front[i].0 == k;
      }
      forall i | 0 <= i < |pairs| && pairs[i].0 == k && !HasKey(pairs[i + 1..], k)
        ensures k in Overridden(m, pairs) && Overridden(m, pairs)[k] == pairs[i].1
      {
        if i < n {
          assert pairs[i + 1..][n - i - 1] == pairs[n];
          assert pairs[n].0 != k;
          assert front[i + 1..] == pairs[i + 1..][..n - i - 1];
          assert front[i] == pairs[i] && !HasKey(front[i + 1..], k);
        }
      }
    }
  }

  lemma {:induction false} OverriddenConcat<K, V>(m: map<K, V>, p: seq<(K, V)>, q: seq<(K, V)>)
    ensures Overridden(m, p + q) == Overridden(Overridden(m, p), q)
    decreases |q|
  {
    if q == [] {
      assert p + q == p;
    } else {
      var n := |q| - 1;
      OverriddenConcat(m, p, q[..n]);
      assert (p + q)[..|p| + n] == p + q[..n];
    }
  }

  class MutableMapping<K(==), V> {
    var data: map<K, V>

    // ---- The abstract methods -------------------------------------------------------------

    constructor ()
      ensures data == map[]
    {
      data := map[];
    }

    method GetItem(key: K) returns (r: Result<V, MappingError>)
      ensures r == if key in data then Ok(data[key]) else Err(KeyError)
    {
      r := if key in data then Ok(data[key]) else Err(KeyError);
    }

    method SetItem(key: K, value: V)
      modifies this
      ensures data == old(data)[key := value]
    {
      data := data[key := value];
    }

    method DelItem(key: K) returns (r: Result<(), MappingError>)
      modifies this
      ensures r == if key in old(data) then Ok(()) else Err(KeyError)
      ensures data == old(data) - {key}
    {
      r := if key in data then Ok(()) else Err(KeyError);
      data := data - {key};
    }

    method Iterate() returns (order: seq<K>)
      ensures Enumerates(order, data.Keys)
    {
      var rest := data.Keys;
      order := [];
      while rest != {}
        invariant rest <= data.Keys
        invariant Enumerates(order, data.Keys - rest)
        decreases rest
      {
        var k :| k in rest;
        EnumerationExtends(order, k);
        order := order + [k];
        rest := rest - {k};
      }
    }

    // ---- The mixin methods ------------------------------------------------------------------

    method Pop(key: K, fallback: Option<V>) returns (r: Result<V, MappingError>)
      modifies this
      ensures data == old(data) - {key}
      ensures r == if key in old(data) then Ok(old(data)[key])
                   else if fallback.Some? then Ok(fallback.value) else Err(KeyError)
    {
      r := GetItem(key);
      if r.Err? {
        if fallback.Some? {
          r := Ok(fallback.value);
        }
        return;
      }
      var deleted := DelItem(key);
    }

    method PopItem() returns (r: Result<(K, V), MappingError>)
      modifies this
      ensures r.Err? <==> old(data) == map[]
      ensures r.Err? ==> r.error == KeyError && data == old(data)
      ensures r.Ok? ==> r.value.0 in old(data) && r.value.1 == old(data)[r.value.0]
      ensures r.Ok? ==> data == old(data) - {r.value.0}
    {
      var order := Iterate();
      if order == [] {
        assert data.Keys == {};
        return Err(KeyError);
      }
      var key := order[0];
      assert key in Elements(order);
      var value := GetItem(key);
      var deleted := DelItem(key);
      return Ok((key, value.value));
    }

    /** `clear` makes one successful `popitem` for each key; the popped pairs are exactly what
        the mapping held, since assigning them again rebuilds it. */
    method Clear() returns (ghost popped: seq<(K, V)>)
      modifies this
      ensures data == map[]
      ensures |popped| == |old(data)| && Overridden(map[], popped) == old(data)
    {
      popped := [];
      while true
        invariant data.Keys <= old(data).Keys && forall k <- data :: data[k] == old(data)[k]
        invariant |popped| + |data| == |old(data)|
        invariant Overridden(map[], popped) == old(data) - data.Keys
        decreases |data|
      {
        ghost var before := data;
        var r := PopItem();
        if r.Err? {
          break;
        }
        assert before.Keys == data.Keys + {r.value.0};
        assert (popped + [r.value])[..|popped|] == popped;
        popped := popped + [r.value];
      }
    }

    method SetPairs(pairs: seq<(K, V)>)
      modifies this
      ensures data == Overridden(old(data), pairs)
    {
      for i := 0 to |pairs|
        invariant data == Overridden(old(data), pairs[..i])
      {
        assert pairs[..i + 1][..i] == pairs[..i];
        SetItem(pairs[i].0, pairs[i].1);
      }
      assert pairs[..|pairs|] == pairs;
    }

    // for key in other: self[key] = other[key]
    method SetFromMapping(other: MutableMapping<K, V>)
      modifies this
      ensures data == old(data) + old(other.data)
    {
      var order := other.Iterate();
      ghost var mine, theirs := data, other.data;
      for i := 0 to |order|
        invariant other.data == theirs
        invariant data.Keys == mine.Keys + Elements(order[..i])
        invariant forall k :: k in data ==>
                    if k in order[..i] then k in theirs && data[k] == theirs[k] else data[k] == mine[k]
      {
        ElementsPrefix(order, i);
        assert order[i] in Elements(order);
        assert order[..i + 1] == order[..i] + [order[i]];
        var value := other.GetItem(order[i]);
        SetItem(order[i], value.value);
      }
      assert order[..|order|] == order;
      assert forall k :: k in order <==> k in Elements(order);
    }

    // for key in other.keys(): self[key] = other[key]
    method SetFromKeys(keys: seq<K>, lookup: map<K, V>) returns (r: Result<(), MappingError>)
      modifies this
      ensures r.Ok? <==> forall k <- keys :: k in lookup
      ensures r.Ok? ==> data == old(data) + map k | k in keys :: lookup[k]
      ensures r.Err? ==> r.error == KeyError
      ensures r.Err? ==> exists n | 0 <= n < |keys| && keys[n] !in lookup ::
                  (forall k <- keys[..n] :: k in lookup) && data == old(data) + map k | k in keys[..n] :: lookup[k]
    {
      for i := 0 to |keys|
        invariant forall k <- keys[..i] :: k in lookup
        invariant data == old(data) + map k | k in keys[..i] :: lookup[k]
      {
        if keys[i] !in lookup {
          return Err(KeyError);
        }
        assert keys[..i + 1] == keys[..i] + [keys[i]];
        SetItem(keys[i], lookup[keys[i]]);
      }
      assert keys[..|keys|] == keys;
      return Ok(());
    }

    /** `update`: the old map overridden by the positional argument and then by the keywords,
        for each of the three argument shapes; a key that cannot be looked up stops the update
        part-way, and more than one positional argument is refused before anything changes. */
    method Update(args: seq<Source<K, V>>, kwds: seq<(K, V)>) returns (r: Result<(), MappingError>)
      modifies this
      ensures |args| > 1 ==> r == Err(TypeError) && data == old(data)
      ensures |args| == 0 ==> r == Ok(()) && data == Overridden(old(data), kwds)
      ensures |args| == 1 && args[0].AnyMapping? ==>
                r == Ok(()) && data == Overridden(old(data) + old(args[0].m.data), kwds)
      ensures |args| == 1 && args[0].Pairs? ==>
                r == Ok(()) && data == Overridden(old(data), args[0].pairs + kwds)
      ensures |args| == 1 && args[0].WithKeys? ==>
                (r.Ok? <==> forall k <- args[0].keys :: k in args[0].lookup)
      ensures |args| == 1 && args[0].WithKeys? && r.Ok? ==>
                data == Overridden(old(data) + map k | k in args[0].keys :: args[0].lookup[k], kwds)
      ensures |args| == 1 && args[0].WithKeys? && r.Err? ==> r.error == KeyError
      ensures |args| == 1 && args[0].WithKeys? && r.Err? ==>
                exists n | 0 <= n < |args[0].keys| && args[0].keys[n] !in args[0].lookup ::
                  (forall k <- args[0].keys[..n] :: k in args[0].lookup) &&
                  data == old(data) + map k | k in args[0].keys[..n] :: args[0].lookup[k]
    {
      if |args| > 1 {
        return Err(TypeError);
      }
      if |args| == 1 {
        var other := args[0];
        if other.AnyMapping? {
          SetFromMapping(other.m);
        } else if other.WithKeys? {
          r := SetFromKeys(other.keys, other.lookup);
          if r.Err? {
            return;
          }
        } else {
          SetPairs(other.pairs);
          OverriddenConcat(old(data), other.pairs, kwds);
        }
      }
      SetPairs(kwds);
      return Ok(());
    }
  }
}
