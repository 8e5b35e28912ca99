/** The ordered insert `add_dir_to_list` of setup.py and the reversed loop that calls it.
    `os.path.isdir` and `os.path.isabs` are parameters. */
module SearchPath {
  import opened Outcomes
  import opened Enumerations

  type Test = string -> bool

  class PathList {
    var entries: seq<string>

    constructor (entries: seq<string>)
      ensures this.entries == entries
    {
      this.entries := entries;
    }

    // add_dir_to_list
    method AddDir(dir: Option<string>, isdir: Test, isabs: Test)
      modifies this
      ensures entries == if dir.None? then old(entries) else WithDir(old(entries), dir.value, isdir, isabs)
    {
      if dir.None? || !isdir(dir.value) || dir.value in entries {
        return;
      }
      for i := 0 to |entries|
        invariant entries == old(entries)
        invariant InsertAt(entries, isabs) == if InsertAt(entries[i..], isabs) == 0 then 0
                                              else i + InsertAt(entries[i..], isabs)
      {
        assert entries[i..][0] == entries[i] && entries[i..][1..] == entries[i + 1..];
        if !isabs(entries[i]) {
          entries := entries[..i + 1] + [dir.value] + entries[i + 1..];
          return;
        }
      }
      entries := [dir.value] + entries;
    }

    // for directory in reversed(dirs): add_dir_to_list(dir_list, directory)
    method AddReversed(dirs: seq<string>, isdir: Test, isabs: Test)
      modifies this
      ensures entries == WithDirs(old(entries), dirs, isdir, isabs)
    {
      var i := |dirs|;
      assert dirs[i..] == [];
      while i > 0
        invariant 0 <= i <= |dirs|
        invariant entries == WithDirs(old(entries), dirs[i..], isdir, isabs)
      {
        i := i - 1;
        assert dirs[i..][1..] == dirs[i + 1..];
        AddDir(Some(dirs[i]), isdir, isabs);
      }
      assert dirs[0..] == dirs;
    }
  }

  // The position just after the first relative entry, or 0 when there is none.
  function InsertAt(entries: seq<string>, isabs: Test): (n: nat)
    ensures n <= |entries|
    decreases |entries|
  {
    if entries == [] then 0
    else if !isabs(entries[0]) then 1
    else
      var n := InsertAt(entries[1..], isabs);
      if n == 0 then 0 else n + 1
  }

  lemma {:induction false} InsertAtMeaning(entries: seq<string>, isabs: Test)
    ensures InsertAt(entries, isabs) == 0 <==> forall i :: 0 <= i < |entries| ==> isabs(entries[i])
    ensures var n := InsertAt(entries, isabs);
            n > 0 ==> !isabs(entries[n - 1]) && forall i :: 0 <= i < n - 1 ==> isabs(entries[i])
    decreases |entries|
  {
    if entries != [] {
      InsertAtMeaning(entries[1..], isabs);
      assert forall i :: 1 <= i < |entries| ==> entries[i] == entries[1..][i - 1];
    }
  }

  function WithDir(entries: seq<string>, dir: string, isdir: Test, isabs: Test): seq<string> {
    if !isdir(dir) || dir in entries then entries
    else
      var n := InsertAt(entries, isabs);
      entries[..n] + [dir] + entries[n..]
  }

  function WithDirs(entries: seq<string>, dirs: seq<string>, isdir: Test, isabs: Test): seq<string>
    decreases |dirs|
  {
    if dirs == [] then entries else WithDir(WithDirs(entries, dirs[1..], isdir, isabs), dirs[0], isdir, isabs)
  }

  // ---- What ends up in the list -------------------------------------------------------------

  // The new existing directories, in the order given, the last occurrence of a repeat kept.
  function NewDirs(entries: seq<string>, dirs: seq<string>, isdir: Test): (block: seq<string>)
    decreases |dirs|
  {
    if dirs == [] then []
    else
      var rest := NewDirs(entries, dirs[1..], isdir);
      if isdir(dirs[0]) && dirs[0] !in entries && dirs[0] !in rest then [dirs[0]] + rest else rest
  }

  /** The block holds exactly the given directories that exist and are not listed yet, each
      once. */
  lemma {:induction false} NewDirsMeaning(entries: seq<string>, dirs: seq<string>, isdir: Test)
    ensures Distinct(NewDirs(entries, dirs, isdir))
    ensures forall d :: d in NewDirs(entries, dirs, isdir) <==> d in dirs && isdir(d) && d !in entries
    decreases |dirs|
  {
    if dirs != [] {
      NewDirsMeaning(entries, dirs[1..], isdir);
      assert dirs == [dirs[0]] + dirs[1..];
    }
  }

  /** A new directory not repeated later stands right before the block of what follows it: the
      last occurrence gives the position. */
  lemma {:induction false} NewDirsPosition(entries: seq<string>, before: seq<string>, d: string,
                                           after: seq<string>, isdir: Test)
    requires isdir(d) && d !in entries && d !in after
    ensures var tail, block := NewDirs(entries, after, isdir), NewDirs(entries, before + [d] + after, isdir);
            |tail| < |block| && block[|block| - |tail| - 1..] == [d] + tail
    decreases |before|
  {
    var dirs := before + [d] + after;
    if before == [] {
      NewDirsMeaning(entries, after, isdir);
      assert dirs[1..] == after;
    } else {
      NewDirsPosition(entries, before[1..], d, after, isdir);
      assert dirs[1..] == before[1..] + [d] + after;
    }
  }

  // The last relative directory of a block, if any, and the block without it.
  function Lead(block: seq<string>, isabs: Test): seq<string>
    decreases |block|
  {
    if block == [] then []
    else
      var lead := Lead(block[1..], isabs);
      if lead == [] && !isabs(block[0]) then [block[0]] else lead
  }

  function Others(block: seq<string>, isabs: Test): seq<string>
    decreases |block|
  {
    if block == [] then []
    else if Lead(block[1..], isabs) == [] && !isabs(block[0]) then block[1..]
    else [block[0]] + Others(block[1..], isabs)
  }

  lemma {:induction false} LeadMeaning(block: seq<string>, isabs: Test)
    ensures Lead(block, isabs) == [] <==> InsertAt(block, isabs) == 0
    ensures Lead(block, isabs) == [] ==> Others(block, isabs) == block
    ensures Lead(block, isabs) != [] ==> |Lead(block, isabs)| == 1 && !isabs(Lead(block, isabs)[0])
    ensures forall d :: d in block <==> d in Lead(block, isabs) || d in Others(block, isabs)
    decreases |block|
  {
    if block != [] {
      LeadMeaning(block[1..], isabs);
      assert block == [block[0]] + block[1..];
    }
  }

  lemma InsertAtPrefix(a: seq<string>, b: seq<string>, isabs: Test)
    ensures InsertAt(a + b, isabs) == if InsertAt(a, isabs) > 0 then InsertAt(a, isabs)
                                      else if InsertAt(b, isabs) > 0 then |a| + InsertAt(b, isabs) else 0
    decreases |a|
  {
    if a == [] {
      assert a + b == b;
    } else {
      assert (a + b)[1..] == a[1..] + b;
      InsertAtPrefix(a[1..], b, isabs);
    }
  }

  lemma InsertsBetween(a: seq<string>, b: seq<string>, d: string, isdir: Test, isabs: Test)
    requires InsertAt(a + b, isabs) == |a|
    ensures WithDir(a + b, d, isdir, isabs) == if isdir(d) && d !in a && d !in b then a + [d] + b else a + b
  {
    assert (a + b)[..|a|] == a && (a + b)[|a|..] == b;
    assert d in a + b <==> d in a || d in b;
  }

  /** A list that already has a relative entry gets the new directories as one block, in their
      own order, right after the first relative entry. */
  lemma {:induction false} BlockAfterRelative(entries: seq<string>, dirs: seq<string>, isdir: Test, isabs: Test)
    requires InsertAt(entries, isabs) > 0
    ensures var n := InsertAt(entries, isabs);
            WithDirs(entries, dirs, isdir, isabs) == entries[..n] + NewDirs(entries, dirs, isdir) + entries[n..]
    decreases |dirs|
  {
    var n := InsertAt(entries, isabs);
    if dirs == [] {
      assert entries[..n] + [] + entries[n..] == entries;
    } else {
      assert entries == entries[..n] + entries[n..];
      BlockAfterRelative(entries, dirs[1..], isdir, isabs);
      BlockAfterRelativeStep(entries[..n], entries[n..], NewDirs(entries, dirs[1..], isdir), dirs[0], isdir, isabs);
    }
  }

  lemma BlockAfterRelativeStep(a: seq<string>, c: seq<string>, rest: seq<string>, d: string, isdir: Test, isabs: Test)
    requires InsertAt(a + c, isabs) == |a| > 0
    ensures var block := if isdir(d) && d !in a + c && d !in rest then [d] + rest else rest;
            WithDir(a + rest + c, d, isdir, isabs) == a + block + c
  {
    hide InsertAt;
    hide WithDir;
    InsertAtPrefix(a, c, isabs);
    InsertAtPrefix(a, rest + c, isabs);
    InsertsBetween(a, rest + c, d, isdir, isabs);
    assert a + rest + c == a + (rest + c);
    assert a + [d] + (rest + c) == a + ([d] + rest) + c;
  }

  /** A list of absolute entries gets them at the front, with the last relative one, if there
      is any, ahead of the others. */
  lemma {:induction false} BlockAtFront(entries: seq<string>, dirs: seq<string>, isdir: Test, isabs: Test)
    requires InsertAt(entries, isabs) == 0
    ensures var block := NewDirs(entries, dirs, isdir);
            WithDirs(entries, dirs, isdir, isabs) == Lead(block, isabs) + Others(block, isabs) + entries
    decreases |dirs|
  {
    if dirs == [] {
      assert [] + [] + entries == entries;
    } else {
      BlockAtFront(entries, dirs[1..], isdir, isabs);
      BlockAtFrontStep(entries, NewDirs(entries, dirs[1..], isdir), dirs[0], isdir, isabs);
    }
  }

  lemma LeadAnchors(block: seq<string>, entries: seq<string>, isabs: Test)
    requires InsertAt(entries, isabs) == 0
    ensures InsertAt(Lead(block, isabs) + (Others(block, isabs) + entries), isabs) == |Lead(block, isabs)|
  {
    LeadMeaning(block, isabs);
    if Lead(block, isabs) == [] {
      InsertAtPrefix(block, entries, isabs);
      assert [] + (block + entries) == block + entries;
    }
  }

  lemma LeadExtends(d: string, rest: seq<string>, isabs: Test)
    ensures Lead([d] + rest, isabs) + Others([d] + rest, isabs) ==
            Lead(rest, isabs) + [d] + Others(rest, isabs)
  {
    LeadMeaning(rest, isabs);
    assert ([d] + rest)[1..] == rest;
  }

  lemma BlockAtFrontStep(entries: seq<string>, rest: seq<string>, d: string, isdir: Test, isabs: Test)
    requires InsertAt(entries, isabs) == 0
    ensures var block := if isdir(d) && d !in entries && d !in rest then [d] + rest else rest;
            WithDir(Lead(rest, isabs) + Others(rest, isabs) + entries, d, isdir, isabs) ==
            Lead(block, isabs) + Others(block, isabs) + entries
  {
    hide Lead;
    hide Others;
    hide WithDir;
    hide InsertAt;
    var a, others := Lead(rest, isabs), Others(rest, isabs);
    LeadAnchors(rest, entries, isabs);
    assert d in rest <==> d in a || d in others by { LeadMeaning(rest, isabs); }
    InsertsBetween(a, others + entries, d, isdir, isabs);
    assert a + others + entries == a + (others + entries);
    assert a + [d] + (others + entries) == a + [d] + others + entries;
    LeadExtends(d, rest, isabs);
  }

  lemma {:induction false} LeadLength(block: seq<string>, isabs: Test)
    ensures |Lead(block, isabs)| + |Others(block, isabs)| == |block|
    decreases |block|
  {
    if block != [] {
      LeadLength(block[1..], isabs);
      LeadMeaning(block[1..], isabs);
    }
  }

  // A relative directory behind the first comes to the front of the block.
  lemma LeadOvertakes(block: seq<string>, isabs: Test)
    requires Distinct(block) && block != [] && Lead(block[1..], isabs) != []
    ensures Lead(block, isabs) + Others(block, isabs) != block
  {
    LeadFromTail(block, isabs);
    hide Lead;
    hide Others;
    var lead := Lead(block, isabs);
    assert lead[0] in block[1..];
    assert (lead + Others(block, isabs))[0] == lead[0] != block[0];
  }

  lemma LeadFromTail(block: seq<string>, isabs: Test)
    requires block != [] && Lead(block[1..], isabs) != []
    ensures Lead(block, isabs) == Lead(block[1..], isabs) && Lead(block, isabs)[0] in block[1..]
  {
    LeadMeaning(block[1..], isabs);
    var lead := Lead(block[1..], isabs);
    assert lead[0] in lead;
  }

  lemma LeadStays(block: seq<string>, isabs: Test)
    requires block != [] && Lead(block[1..], isabs) == []
    ensures Lead(block, isabs) + Others(block, isabs) == block
  {
    LeadMeaning(block[1..], isabs);
  }

  lemma LeadFirstIff(block: seq<string>, isabs: Test)
    requires Distinct(block)
    ensures Lead(block, isabs) + Others(block, isabs) == block <==> forall i :: 1 <= i < |block| ==> isabs(block[i])
  {
    hide InsertAt;
    if block != [] {
      var tail := block[1..];
      LeadMeaning(tail, isabs);
      InsertAtMeaning(tail, isabs);
      assert forall i :: 1 <= i < |block| ==> block[i] == tail[i - 1];
      assert forall i :: 0 <= i < |tail| ==> tail[i] == block[i + 1];
      if Lead(tail, isabs) == [] {
        LeadStays(block, isabs);
      } else {
        LeadOvertakes(block, isabs);
      }
    }
  }

  /** The new directories are inserted as one block in the order given if and only if the list had a
      relative entry or no new directory but possibly the first is relative. */
  lemma OrderKeptIff(entries: seq<string>, dirs: seq<string>, isdir: Test, isabs: Test)
    ensures var n, block := InsertAt(entries, isabs), NewDirs(entries, dirs, isdir);
            WithDirs(entries, dirs, isdir, isabs) == entries[..n] + block + entries[n..] <==>
            n > 0 || forall i :: 1 <= i < |block| ==> isabs(block[i])
  {
    hide InsertAt;
    hide WithDirs;
    hide Lead;
    hide Others;
    hide NewDirs;
    var n, block := InsertAt(entries, isabs), NewDirs(entries, dirs, isdir);
    if n > 0 {
      BlockAfterRelative(entries, dirs, isdir, isabs);
    } else {
      BlockAtFront(entries, dirs, isdir, isabs);
      NewDirsMeaning(entries, dirs, isdir);
      LeadFirstIff(block, isabs);
      LeadLength(block, isabs);
      var moved := Lead(block, isabs) + Others(block, isabs);
      assert entries[..n] + block + entries[n..] == block + entries;
      assert (moved + entries)[..|block|] == moved && (block + entries)[..|block|] == block;
    }
  }

  /** An input whose order is lost: into an empty list, an absolute directory and a relative one. */
  lemma OrderLost(isdir: Test, isabs: Test)
    requires isdir("/a") && isdir("b") && isabs("/a") && !isabs("b")
    ensures NewDirs([], ["/a", "b"], isdir) == ["/a", "b"]
    ensures WithDirs([], ["/a", "b"], isdir, isabs) == ["b", "/a"]
  {
  }

  /** A list without duplicates stays without duplicates, and its entries keep their order. */
  lemma {:induction false} NeverDuplicates(entries: seq<string>, dirs: seq<string>, isdir: Test, isabs: Test)
    requires Distinct(entries)
    ensures Distinct(WithDirs(entries, dirs, isdir, isabs))
    ensures KeepsOrder(entries, WithDirs(entries, dirs, isdir, isabs))
    decreases |dirs|
  {
    if dirs == [] {
      SelfOrder(entries);
    } else {
      NeverDuplicates(entries, dirs[1..], isdir, isabs);
      var sofar, d := WithDirs(entries, dirs[1..], isdir, isabs), dirs[0];
      if isdir(d) && d !in sofar {
        var n := InsertAt(sofar, isabs);
        InsertKeepsOrder(entries, sofar, n, d);
      }
    }
  }

  // before is a subsequence of after.
  ghost predicate KeepsOrder(before: seq<string>, after: seq<string>) {
    exists at: seq<nat> :: IsEmbedding(at, before, after)
  }

  ghost predicate IsEmbedding(at: seq<nat>, before: seq<string>, after: seq<string>) {
    && |at| == |before|
    && (forall i :: 0 <= i < |at| ==> at[i] < |after| && after[at[i]] == before[i])
    && (forall i, j :: 0 <= i < j < |at| ==> at[i] < at[j])
  }

  lemma SelfOrder(s: seq<string>)
    ensures KeepsOrder(s, s)
  {
    var at: seq<nat> := seq(|s|, i => i);
    assert IsEmbedding(at, s, s);
  }

  lemma InsertKeepsOrder(before: seq<string>, after: seq<string>, n: nat, x: string)
    requires n <= |after| && KeepsOrder(before, after)
    ensures KeepsOrder(before, after[..n] + [x] + after[n..])
  {
    var at :| IsEmbedding(at, before, after);
    var shifted: seq<nat> := seq(|at|, i requires 0 <= i < |at| => if at[i] < n then at[i] else at[i] + 1);
    assert IsEmbedding(shifted, before, after[..n] + [x] + after[n..]);
  }
}
