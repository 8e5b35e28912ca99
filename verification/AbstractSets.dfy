/** The `Set` and `MutableSet` mixins of Lib/_collections_abc.py. The abstract methods
    (`__contains__`, `__iter__`, `__len__`, `add`, `discard`) are known to the mixin methods
    only by their contracts, which leave the iteration order open. */
module AbstractSets {
  import opened Outcomes
  import opened Enumerations
  import SetHash

  // An argument of a set operation. `AnySet` may hold the receiver itself; `Items` is any
  // other iterable and may repeat elements.
  datatype Argument<T> = AnySet(s: MutableSet<T>) | Items(items: seq<T>) | NotIterable

  datatype SetError = KeyError | TypeError

  class MutableSet<T(==)> {
    ghost var contents: set<T>
    var items: seq<T>

    ghost predicate Valid()
      reads this
    {
      Enumerates(items, contents)
    }

    // The elements an argument yields.
    static ghost function Yields(it: Argument<T>): set<T>
      reads if it.AnySet? then {it.s} else {}
    {
      match it
      case AnySet(s) => s.contents
      case Items(items) => Elements(items)
      case NotIterable => {}
    }

    static ghost predicate ValidArgument(it: Argument<T>)
      reads if it.AnySet? then {it.s} else {}
    {
      it.AnySet? ==> it.s.Valid()
    }

    // ---- The abstract methods -----------------------------------------------------------

    constructor FromIterable(it: seq<T>)
      ensures Valid() && contents == Elements(it)
    {
      items := [];
      contents := {};
      new;
      for i := 0 to |it|
        invariant Valid() && contents == Elements(it[..i])
      {
        ElementsPrefix(it, i);
        Add(it[i]);
      }
      assert it[..|it|] == it;
    }

    method Contains(value: T) returns (found: bool)
      requires Valid()
      ensures found == (value in contents)
    {
      found := value in items;
    }

    method Iterate() returns (order: seq<T>)
      requires Valid()
      ensures Enumerates(order, contents)
    {
      order := items;
    }

    method Length() returns (n: nat)
      requires Valid()
      ensures n == |contents|
    {
      EnumerationLength(items);
      n := |items|;
    }

    method Add(value: T)
      requires Valid()
      modifies this
      ensures Valid() && contents == old(contents) + {value}
    {
      if value !in items {
        ElementsAppend(items, value);
        items := items + [value];
      }
      contents := contents + {value};
    }

    method Discard(value: T)
      requires Valid()
      modifies this
      ensures Valid() && contents == old(contents) - {value}
    {
      if i :| 0 <= i < |items| && items[i] == value {
        var rest := items[..i] + items[i + 1..];
        assert items == items[..i] + [value] + items[i + 1..];
        assert Elements(rest) == Elements(items) - {value};
        items := rest;
      }
      contents := contents - {value};
    }

    // ---- Comparisons ----------------------------------------------------------------------

    /** `<=` decides the subset relation; the early length test never changes the answer.
        A comparison with something that is not a set is not implemented. */
    method Le(other: Argument<T>) returns (r: Option<bool>)
      requires Valid() && ValidArgument(other)
      ensures r == if other.AnySet? then Some(contents <= other.s.contents) else None
    {
      if !other.AnySet? {
        return None;
      }
      var mine := Length();
      var theirs := other.s.Length();
      if mine > theirs {
        if contents <= other.s.contents {
          SubsetCardinality(contents, other.s.contents);
        }
        return Some(false);
      }
      var order := Iterate();
      for i := 0 to |order|
        invariant Elements(order[..i]) <= other.s.contents
      {
        ElementsPrefix(order, i);
        var found := other.s.Contains(order[i]);
        if !found {
          assert order[i] in Elements(order);
          return Some(false);
        }
      }
      assert order[..|order|] == order;
      return Some(true);
    }

    method Ge(other: Argument<T>) returns (r: Option<bool>)
      requires Valid() && ValidArgument(other)
      ensures r == if other.AnySet? then Some(contents >= other.s.contents) else None
    {
      if !other.AnySet? {
        return None;
      }
      var mine := Length();
      var theirs := other.s.Length();
      if mine < theirs {
        if other.s.contents <= contents {
          SubsetCardinality(other.s.contents, contents);
        }
        return Some(false);
      }
      var order := other.s.Iterate();
      for i := 0 to |order|
        invariant Elements(order[..i]) <= contents
      {
        ElementsPrefix(order, i);
        var found := Contains(order[i]);
        if !found {
          assert order[i] in Elements(order);
          return Some(false);
        }
      }
      assert order[..|order|] == order;
      return Some(true);
    }

    method Lt(other: Argument<T>) returns (r: Option<bool>)
      requires Valid() && ValidArgument(other)
      ensures r == if other.AnySet? then Some(contents < other.s.contents) else None
    {
      if !other.AnySet? {
        return None;
      }
      var mine := Length();
      var theirs := other.s.Length();
      r := Some(false);
      if mine < theirs {
        r := Le(other);
      }
      if contents <= other.s.contents {
        SubsetCardinality(contents, other.s.contents);
      }
    }

    method Gt(other: Argument<T>) returns (r: Option<bool>)
      requires Valid() && ValidArgument(other)
      ensures r == if other.AnySet? then Some(contents > other.s.contents) else None
    {
      if !other.AnySet? {
        return None;
      }
      var mine := Length();
      var theirs := other.s.Length();
      r := Some(false);
      if mine > theirs {
        r := Ge(other);
      }
      if other.s.contents <= contents {
        SubsetCardinality(other.s.contents, contents);
      }
    }

    method Eq(other: Argument<T>) returns (r: Option<bool>)
      requires Valid() && ValidArgument(other)
      ensures r == if other.AnySet? then Some(contents == other.s.contents) else None
    {
      if !other.AnySet? {
        return None;
      }
      var mine := Length();
      var theirs := other.s.Length();
      r := Some(false);
      if mine == theirs {
        r := Le(other);
      }
      if contents <= other.s.contents {
        SubsetCardinality(contents, other.s.contents);
      }
    }

    // ---- Algebra --------------------------------------------------------------------------

    // Iterating over an argument.
    static method ValuesOf(it: Argument<T>) returns (values: seq<T>)
      requires ValidArgument(it) && !it.NotIterable?
      ensures Elements(values) == Yields(it)
      ensures it.Items? ==> values == it.items
      ensures it.AnySet? ==> Enumerates(values, it.s.contents)
    {
      if it.AnySet? {
        values := it.s.Iterate();
      } else {
        values := it.items;
      }
    }

    // (value for value in values if (value in self) == wanted)
    method Select(values: seq<T>, wanted: bool) returns (selected: seq<T>)
      requires Valid()
      ensures Elements(selected) ==
              if wanted then Elements(values) * contents else Elements(values) - contents
    {
      selected := [];
      for i := 0 to |values|
        invariant Elements(selected) ==
                  if wanted then Elements(values[..i]) * contents else Elements(values[..i]) - contents
      {
        ElementsPrefix(values, i);
        var found := Contains(values[i]);
        if found == wanted {
          ElementsAppend(selected, values[i]);
          selected := selected + [values[i]];
        }
      }
      assert values[..|values|] == values;
    }

    /** `self & other`. */
    method And(other: Argument<T>) returns (r: Option<MutableSet<T>>)
      requires Valid() && ValidArgument(other)
      ensures r.None? <==> other.NotIterable?
      ensures r.Some? ==> fresh(r.value) && r.value.Valid() && r.value.contents == contents * Yields(other)
    {
      if other.NotIterable? {
        return None;
      }
      var values := ValuesOf(other);
      var selected := Select(values, true);
      var result := new MutableSet<T>.FromIterable(selected);
      return Some(result);
    }

    method IsDisjoint(other: Argument<T>) returns (r: bool)
      requires Valid() && ValidArgument(other) && !other.NotIterable?
      ensures r <==> contents !! Yields(other)
    {
      var values := ValuesOf(other);
      for i := 0 to |values|
        invariant contents !! Elements(values[..i])
      {
        ElementsPrefix(values, i);
        var found := Contains(values[i]);
        if found {
          assert values[i] in Elements(values);
          return false;
        }
      }
      assert values[..|values|] == values;
      return true;
    }

    /** `self | other`. */
    method Or(other: Argument<T>) returns (r: Option<MutableSet<T>>)
      requires Valid() && ValidArgument(other)
      ensures r.None? <==> other.NotIterable?
      ensures r.Some? ==> fresh(r.value) && r.value.Valid() && r.value.contents == contents + Yields(other)
    {
      if other.NotIterable? {
        return None;
      }
      var mine := Iterate();
      var values := ValuesOf(other);
      ElementsConcat(mine, values);
      var result := new MutableSet<T>.FromIterable(mine + values);
      return Some(result);
    }

    // A set to test membership in: the argument itself, or a set built from it.
    static method AsSet(other: Argument<T>) returns (s: MutableSet<T>)
      requires ValidArgument(other) && !other.NotIterable?
      ensures s.Valid() && s.contents == Yields(other)
      ensures if other.AnySet? then s == other.s else fresh(s)
    {
      if other.AnySet? {
        return other.s;
      }
      s := new MutableSet<T>.FromIterable(other.items);
    }

    /** `self - other`. */
    method Sub(other: Argument<T>) returns (r: Option<MutableSet<T>>)
      requires Valid() && ValidArgument(other)
      ensures r.None? <==> other.NotIterable?
      ensures r.Some? ==> fresh(r.value) && r.value.Valid() && r.value.contents == contents - Yields(other)
    {
      if other.NotIterable? {
        return None;
      }
      var o := AsSet(other);
      var mine := Iterate();
      var selected := o.Select(mine, false);
      var result := new MutableSet<T>.FromIterable(selected);
      return Some(result);
    }

    /** `self ^ other`, computed as `(self - other) | (other - self)`. */
    method Xor(other: Argument<T>) returns (r: Option<MutableSet<T>>)
      requires Valid() && ValidArgument(other)
      ensures r.None? <==> other.NotIterable?
      ensures r.Some? ==> fresh(r.value) && r.value.Valid()
      ensures r.Some? ==> r.value.contents == (contents - Yields(other)) + (Yields(other) - contents)
    {
      if other.NotIterable? {
        return None;
      }
      var o := AsSet(other);
      var left := Sub(AnySet(o));
      var right := o.Sub(AnySet(this));
      r := left.value.Or(AnySet(right.value));
    }

    /** `_hash`: one value for the contents, whatever order the set happens to iterate in. */
    method Hash(hash: T -> int, w: nat) returns (h: int)
      requires Valid() && w > 0
      ensures h == SetHash.HashOf(contents, hash, w)
    {
      var order := Iterate();
      h := SetHash.ComputeHash(order, hash, w);
      SetHash.EveryOrderHashesAlike(order, hash, w);
    }

    /** `_hash` is compatible with `__eq__`: sets that compare equal have the same hash, whatever the
        order each of them iterates in. */
    method EqAndHashes(other: MutableSet<T>, hash: T -> int, w: nat) returns (eq: Option<bool>, mine: int, theirs: int)
      requires Valid() && other.Valid() && w > 0
      ensures eq == Some(contents == other.contents)
      ensures eq == Some(true) ==> mine == theirs
    {
      eq := Eq(AnySet(other));
      mine := Hash(hash, w);
      theirs := other.Hash(hash, w);
    }

    // ---- In-place operations ----------------------------------------------------------------

    method Remove(value: T) returns (r: Result<(), SetError>)
      requires Valid()
      modifies this
      ensures Valid() && contents == old(contents) - {value}
      ensures r == if value in old(contents) then Ok(()) else Err(KeyError)
    {
      var found := Contains(value);
      if !found {
        return Err(KeyError);
      }
      Discard(value);
      return Ok(());
    }

    method Pop() returns (r: Result<T, SetError>)
      requires Valid()
      modifies this
      ensures Valid()
      ensures r.Err? <==> old(contents) == {}
      ensures r.Err? ==> r.error == KeyError && contents == {}
      ensures r.Ok? ==> r.value in old(contents) && contents == old(contents) - {r.value}
    {
      var order := Iterate();
      if order == [] {
        return Err(KeyError);
      }
      assert order[0] in Elements(order);
      Discard(order[0]);
      return Ok(order[0]);
    }

    /** `clear` pops until `pop` raises: one successful pop for each element, and the popped
        values are the old contents, each once. */
    method Clear() returns (ghost popped: seq<T>)
      requires Valid()
      modifies this
      ensures Valid() && contents == {}
      ensures Enumerates(popped, old(contents)) && |popped| == |old(contents)|
    {
      hide Valid;
      popped := [];
      while true
        invariant Valid()
        invariant contents <= old(contents)
        invariant Enumerates(popped, old(contents) - contents)
        decreases |contents|
      {
        var r := Pop();
        if r.Err? {
          break;
        }
        EnumerationExtends(popped, r.value);
        popped := popped + [r.value];
        assert Elements(popped) == old(contents) - contents;
      }
      EnumerationLength(popped);
    }

    /** `self |= it`: the same contents that `self | it` returns. */
    method InPlaceOr(it: Argument<T>) returns (r: Result<(), SetError>)
      requires Valid() && ValidArgument(it)
      modifies this
      ensures Valid()
      ensures r == if it.NotIterable? then Err(TypeError) else Ok(())
      ensures contents == old(contents) + old(Yields(it))
    {
      if it.NotIterable? {
        return Err(TypeError);
      }
      var values := ValuesOf(it);
      for i := 0 to |values|
        invariant Valid() && contents == old(contents) + Elements(values[..i])
      {
        ElementsPrefix(values, i);
        Add(values[i]);
      }
      assert values[..|values|] == values;
      return Ok(());
    }

    /** `self &= it`: the same contents that `self & it` returns. */
    method InPlaceAnd(it: Argument<T>) returns (r: Result<(), SetError>)
      requires Valid() && ValidArgument(it)
      modifies this
      ensures Valid()
      ensures r == if it.NotIterable? then Err(TypeError) else Ok(())
      ensures contents == if it.NotIterable? then old(contents) else old(contents) * old(Yields(it))
    {
      var difference := Sub(it);
      if difference.None? {
        return Err(TypeError);
      }
      var values := difference.value.Iterate();
      DiscardAll(values);
      return Ok(());
    }

    method DiscardAll(values: seq<T>)
      requires Valid()
      modifies this
      ensures Valid() && contents == old(contents) - Elements(values)
    {
      for i := 0 to |values|
        invariant Valid() && contents == old(contents) - Elements(values[..i])
      {
        ElementsPrefix(values, i);
        Discard(values[i]);
      }
      assert values[..|values|] == values;
    }

    /** `self -= it`: the same contents that `self - it` returns, also for `s -= s`. */
    method InPlaceSub(it: Argument<T>) returns (r: Result<(), SetError>)
      requires Valid() && ValidArgument(it)
      modifies this
      ensures Valid()
      ensures r == if it.NotIterable? then Err(TypeError) else Ok(())
      ensures contents == old(contents) - old(Yields(it))
    {
      if it == AnySet(this) {
        ghost var popped := Clear();
      } else if it.NotIterable? {
        return Err(TypeError);
      } else {
        var values := ValuesOf(it);
        DiscardAll(values);
      }
      return Ok(());
    }

    /** `self ^= it`: the same contents that `self ^ it` returns, also for `s ^= s` and for an
        iterable that repeats elements. */
    method InPlaceXor(it: Argument<T>) returns (r: Result<(), SetError>)
      requires Valid() && ValidArgument(it)
      modifies this
      ensures Valid()
      ensures r == if it.NotIterable? then Err(TypeError) else Ok(())
      ensures contents == (old(contents) - old(Yields(it))) + (old(Yields(it)) - old(contents))
    {
      if it == AnySet(this) {
        ghost var popped := Clear();
        return Ok(());
      }
      if it.NotIterable? {
        return Err(TypeError);
      }
      var s := AsSet(it);
      var values := s.Iterate();
      ghost var start := contents;
      for i := 0 to |values|
        invariant Valid()
        invariant contents == (start - Elements(values[..i])) + (Elements(values[..i]) - start)
      {
        ElementsPrefix(values, i);
        assert values[i] !in Elements(values[..i]);
        var found := Contains(values[i]);
        if found {
          Discard(values[i]);
        } else {
          Add(values[i]);
        }
      }
      assert values[..|values|] == values;
      return Ok(());
    }
  }
}
