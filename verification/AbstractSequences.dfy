/** The `Sequence` and `MutableSequence` mixins of Lib/_collections_abc.py, over their abstract
    methods `__getitem__`, `__setitem__`, `__delitem__`, `__len__` and `insert`. */
module AbstractSequences {
  import opened Outcomes

  datatype SequenceError = IndexError | ValueError

  function Reversed<T>(s: seq<T>): (r: seq<T>)
    ensures |r| == |s|
  {
    seq(|s|, i requires 0 <= i < |s| => s[|s| - 1 - i])
  }

  lemma {:induction false} ReversedPermutes<T>(s: seq<T>)
    ensures multiset(Reversed(s)) == multiset(s)
    decreases |s|
  {
    if s != [] {
      var n := |s| - 1;
      ReversedPermutes(s[..n]);
      assert s == s[..n] + [s[n]];
      assert Reversed(s) == [s[n]] + Reversed(s[..n]);
    }
  }

  /** Reversing is its own inverse and keeps the items. */
  lemma ReversedInvolution<T>(s: seq<T>)
    ensures Reversed(Reversed(s)) == s && multiset(Reversed(s)) == multiset(s)
  {
    ReversedPermutes(s);
  }

  // The positions that `index` searches in a sequence of n items: a negative bound counts from the
  // end.
  predicate InWindow(start: int, stop: Option<int>, n: nat, j: int) {
    && 0 <= j < n
    && (if start < 0 then j - n >= start else j >= start)
    && (stop.Some? ==> if stop.value < 0 then j - n < stop.value else j < stop.value)
  }

  class MutableSequence<T(==)> {
    var items: seq<T>

    // ---- The abstract methods -------------------------------------------------------------

    constructor (items: seq<T>)
      ensures this.items == items
    {
      this.items := items;
    }

    // A negative index counts from the end.
    static function Position(index: int, n: nat): int {
      if index < 0 then index + n else index
    }

    static predicate InRange(index: int, n: nat) {
      0 <= Position(index, n) < n
    }

    method Length() returns (n: nat)
      ensures n == |items|
    {
      n := |items|;
    }

    method GetItem(index: int) returns (r: Result<T, SequenceError>)
      ensures r == if InRange(index, |items|) then Ok(items[Position(index, |items|)]) else Err(IndexError)
    {
      r := if InRange(index, |items|) then Ok(items[Position(index, |items|)]) else Err(IndexError);
    }

    method SetItem(index: int, value: T) returns (r: Result<(), SequenceError>)
      modifies this
      ensures r == if InRange(index, |old(items)|) then Ok(()) else Err(IndexError)
      ensures items == if r.Ok? then old(items)[Position(index, |old(items)|) := value] else old(items)
    {
      if !InRange(index, |items|) {
        return Err(IndexError);
      }
      items := items[Position(index, |items|) := value];
      return Ok(());
    }

    method DelItem(index: int) returns (r: Result<(), SequenceError>)
      modifies this
      ensures r == if InRange(index, |old(items)|) then Ok(()) else Err(IndexError)
      ensures r.Err? ==> items == old(items)
      ensures r.Ok? ==> var p := Position(index, |old(items)|); items == old(items)[..p] + old(items)[p + 1..]
    {
      if !InRange(index, |items|) {
        return Err(IndexError);
      }
      var p := Position(index, |items|);
      items := items[..p] + items[p + 1..];
      return Ok(());
    }

    // ---- The mixin methods ------------------------------------------------------------------

    /** `index` returns the least position in the window that holds the value, and raises exactly
        when there is none. */
    method Index(value: T, start: int, stop: Option<int>) returns (r: Result<nat, SequenceError>)
      ensures r.Ok? ==> InWindow(start, stop, |items|, r.value) && items[r.value] == value
      ensures r.Ok? ==> forall j :: InWindow(start, stop, |items|, j) && j < r.value ==> items[j] != value
      ensures r.Err? ==> r.error == ValueError
      ensures r.Err? <==> forall j :: InWindow(start, stop, |items|, j) ==> items[j] != value
    {
      var first, end := start, stop;
      if first < 0 {
        var n := Length();
        first := if n + first > 0 then n + first else 0;
      }
      if end.Some? && end.value < 0 {
        var n := Length();
        end := Some(end.value + n);
      }
      var i := first;
      while end.None? || i < end.value
        invariant i >= 0 && forall j :: i <= j < |items| && (end.None? || j < end.value) ==>
                    InWindow(start, stop, |items|, j)
        invariant forall j :: InWindow(start, stop, |items|, j) && j < i ==> items[j] != value
        decreases |items| - i
      {
        var v := GetItem(i);
        if v.Err? {
          break;
        }
        if v.value == value {
          return Ok(i);
        }
        i := i + 1;
      }
      return Err(ValueError);
    }

    /** `remove` deletes exactly the first occurrence and keeps the order of the rest. */
    method Remove(value: T) returns (r: Result<(), SequenceError>)
      modifies this
      ensures r == if value in old(items) then Ok(()) else Err(ValueError)
      ensures r.Err? ==> items == old(items)
      ensures r.Ok? ==> exists i | 0 <= i < |old(items)| && old(items)[i] == value ::
                  value !in old(items)[..i] && items == old(items)[..i] + old(items)[i + 1..]
    {
      var position := Index(value, 0, None);
      if position.Err? {
        return Err(position.error);
      }
      r := DelItem(position.value);
    }

    /** In-place `reverse`, for every length. */
    method Reverse()
      modifies this
      ensures items == Reversed(old(items)) && |items| == |old(items)|
      ensures forall i :: 0 <= i < |items| ==> items[i] == old(items)[|items| - 1 - i]
    {
      var n := Length();
      for i := 0 to n / 2
        invariant |items| == n
        invariant forall j :: 0 <= j < i ==> items[j] == old(items)[n - 1 - j] && items[n - 1 - j] == old(items)[j]
        invariant forall j :: i <= j < n - i ==> items[j] == old(items)[j]
      {
        var right := GetItem(n - i - 1);
        var left := GetItem(i);
        var ok := SetItem(i, right.value);
        ok := SetItem(n - i - 1, left.value);
      }
    }

    method Pop(index: int) returns (r: Result<T, SequenceError>)
      modifies this
      ensures r == if InRange(index, |old(items)|) then Ok(old(items)[Position(index, |old(items)|)])
                   else Err(IndexError)
      ensures r.Err? ==> items == old(items)
      ensures r.Ok? ==> var p := Position(index, |old(items)|); items == old(items)[..p] + old(items)[p + 1..]
    {
      r := GetItem(index);
      if r.Ok? {
        var deleted := DelItem(index);
      }
    }

    /** `clear` pops from the end until that raises; the popped items are the old ones, in
        reverse order. */
    method Clear() returns (ghost popped: seq<T>)
      modifies this
      ensures items == []
      ensures |popped| == |old(items)|
      ensures forall i :: 0 <= i < |popped| ==> popped[i] == old(items)[|popped| - 1 - i]
    {
      popped := [];
      while true
        invariant |items| <= |old(items)| && items == old(items)[..|items|]
        invariant |popped| == |old(items)| - |items|
        invariant forall i :: 0 <= i < |popped| ==> popped[i] == old(items)[|old(items)| - 1 - i]
        decreases |items|
      {
        var r := Pop(-1);
        if r.Err? {
          break;
        }
        popped := popped + [r.value];
      }
    }
  }
}
