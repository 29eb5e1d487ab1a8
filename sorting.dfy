/** Ordering the entries of one directory by name. The source sorts with a
    stable sort keyed on the raw file name; every stable sort yields the same
    sequence, which is modelled here by stable insertion. */
module Sorting {
  import opened FsTree

  /** Lexicographic order on names, character by character; a proper prefix
      comes first. On names that are valid text this is the byte order of
      their UTF-8 encoding. */
  predicate NameLe(a: string, b: string)
  {
    if a == [] then true
    else if b == [] then false
    else if a[0] != b[0] then a[0] < b[0]
    else NameLe(a[1..], b[1..])
  }

  lemma {:induction false} NameLeTotal(a: string, b: string)
    ensures NameLe(a, b) || NameLe(b, a)
  {
    if a != [] && b != [] && a[0] == b[0] {
      NameLeTotal(a[1..], b[1..]);
    }
  }

  lemma {:induction false} NameLeRefl(a: string)
    ensures NameLe(a, a)
  {
    if a != [] {
      NameLeRefl(a[1..]);
    }
  }

  lemma {:induction false} NameLeTrans(a: string, b: string, c: string)
    requires NameLe(a, b) && NameLe(b, c)
    ensures NameLe(a, c)
  {
    if a != [] && b != [] && c != [] && a[0] == b[0] == c[0] {
      NameLeTrans(a[1..], b[1..], c[1..]);
    }
  }

  lemma {:induction false} NameLeAntisym(a: string, b: string)
    requires NameLe(a, b) && NameLe(b, a)
    ensures a == b
  {
    if a != [] && b != [] {
      NameLeAntisym(a[1..], b[1..]);
      assert a == [a[0]] + a[1..] && b == [b[0]] + b[1..];
    }
  }

  /** Ascending by name. */
  predicate SortedByName(s: seq<Node>)
  {
    forall i, j :: 0 <= i < j < |s| ==> NameLe(s[i].name, s[j].name)
  }

  /** Inserts `x` after every element whose name is not greater than its own,
      scanning from the back as insertion sort does. */
  function Insert(s: seq<Node>, x: Node): seq<Node>
  {
    if s == [] || NameLe(s[|s| - 1].name, x.name) then s + [x]
    else Insert(s[..|s| - 1], x) + [s[|s| - 1]]
  }

  /** Insertion adds exactly `x`, and keeps an ascending sequence ascending. */
  lemma {:induction false} InsertSpec(s: seq<Node>, x: Node)
    ensures multiset(Insert(s, x)) == multiset(s) + multiset{x}
    ensures SortedByName(s) ==> SortedByName(Insert(s, x))
  {
    if s == [] || NameLe(s[|s| - 1].name, x.name) {
      InsertAtEnd(s, x);
    } else {
      var init, last := s[..|s| - 1], s[|s| - 1];
      assert s == init + [last];
      InsertSpec(init, x);
      InsertBeforeLast(init, last, x, Insert(init, x));
    }
  }

  lemma InsertAtEnd(s: seq<Node>, x: Node)
    requires s == [] || NameLe(s[|s| - 1].name, x.name)
    ensures SortedByName(s) ==> SortedByName(s + [x])
  {
    if SortedByName(s) {
      forall i | 0 <= i < |s|
        ensures NameLe(s[i].name, x.name)
      {
        if i < |s| - 1 {
          NameLeTrans(s[i].name, s[|s| - 1].name, x.name);
        }
      }
    }
  }

  lemma InsertBeforeLast(init: seq<Node>, last: Node, x: Node, ins: seq<Node>)
    requires !NameLe(last.name, x.name)
    requires multiset(ins) == multiset(init) + multiset{x}
    requires SortedByName(init) ==> SortedByName(ins)
    ensures SortedByName(init + [last]) ==> SortedByName(ins + [last])
  {
    if SortedByName(init + [last]) {
      NameLeTotal(last.name, x.name);
      forall i | 0 <= i < |ins|
        ensures NameLe(ins[i].name, last.name)
      {
        assert ins[i] in multiset(ins);
        if ins[i] == x {
          assert NameLe(x.name, last.name);
        } else {
          assert ins[i] in multiset(init);
          var k :| 0 <= k < |init| && init[k] == ins[i];
          assert (init + [last])[k] == ins[i] && (init + [last])[|init|] == last;
          assert NameLe((init + [last])[k].name, (init + [last])[|init|].name);
        }
      }
      assert SortedByName(init) by {
        forall i, j | 0 <= i < j < |init|
          ensures NameLe(init[i].name, init[j].name)
        {
          assert (init + [last])[i] == init[i] && (init + [last])[j] == init[j];
        }
      }
    }
  }

  /** Stable sort by name. */
  function SortByName(s: seq<Node>): seq<Node>
  {
    if s == [] then [] else Insert(SortByName(s[..|s| - 1]), s[|s| - 1])
  }

  /** Sorting yields an ascending permutation of its input. */
  lemma {:induction false} SortByNameSpec(s: seq<Node>)
    ensures SortedByName(SortByName(s))
    ensures multiset(SortByName(s)) == multiset(s)
  {
    if s != [] {
      var init, last := s[..|s| - 1], s[|s| - 1];
      assert s == init + [last];
      SortByNameSpec(init);
      InsertSpec(SortByName(init), last);
    }
  }

  /** The entries of `s` named `n`, in their order in `s`. */
  function WithName(s: seq<Node>, n: string): seq<Node>
  {
    if s == [] then []
    else WithName(s[..|s| - 1], n) + (if s[|s| - 1].name == n then [s[|s| - 1]] else [])
  }

  lemma {:induction false} WithNameAppend(a: seq<Node>, b: seq<Node>, n: string)
    ensures WithName(a + b, n) == WithName(a, n) + WithName(b, n)
    decreases |b|
  {
    if b == [] {
      assert a + b == a;
    } else {
      assert (a + b)[..|a + b| - 1] == a + b[..|b| - 1];
      WithNameAppend(a, b[..|b| - 1], n);
    }
  }

  /** Insertion puts `x` after every entry that has its name. */
  lemma {:induction false} InsertStable(s: seq<Node>, x: Node, n: string)
    ensures WithName(Insert(s, x), n) == WithName(s, n) + WithName([x], n)
  {
    if s == [] || NameLe(s[|s| - 1].name, x.name) {
      assert Insert(s, x) == s + [x];
      WithNameAppend(s, [x], n);
    } else {
      var init, last := s[..|s| - 1], s[|s| - 1];
      assert Insert(s, x) == Insert(init, x) + [last];
      assert s == init + [last];
      InsertStable(init, x, n);
      StableStep(init, Insert(init, x), x, last, n);
    }
  }

  /** Moving `x` before a greater-named `last` keeps the order of every
      name. */
  lemma StableStep(init: seq<Node>, ins: seq<Node>, x: Node, last: Node, n: string)
    requires !NameLe(last.name, x.name)
    requires WithName(ins, n) == WithName(init, n) + WithName([x], n)
    ensures WithName(ins + [last], n) == WithName(init + [last], n) + WithName([x], n)
  {
    var a, xs, ls := WithName(init, n), WithName([x], n), WithName([last], n);
    WithNameAppend(ins, [last], n);
    WithNameAppend(init, [last], n);
    OneMatches(x, last, n);
    if xs == [] {
      assert a + xs == a && (a + ls) + xs == a + ls;
    } else {
      assert (a + xs) + ls == a + xs && a + ls == a;
    }
  }

  /** Of two entries with different names, at most one has name `n`. */
  lemma OneMatches(x: Node, y: Node, n: string)
    requires !NameLe(y.name, x.name)
    ensures WithName([x], n) == [] || WithName([y], n) == []
  {
    NameLeRefl(x.name);
    assert [x][..0] == [] && [y][..0] == [];
  }

  /** The sort is stable: entries that share a name keep their relative
      order. */
  lemma {:induction false} SortByNameStable(s: seq<Node>, n: string)
    ensures WithName(SortByName(s), n) == WithName(s, n)
  {
    if s != [] {
      var init, last := s[..|s| - 1], s[|s| - 1];
      assert SortByName(s) == Insert(SortByName(init), last);
      SortByNameStable(init, n);
      InsertStable(SortByName(init), last, n);
      assert WithName(s, n) == WithName(init, n) + WithName([last], n) by {
        assert s == init + [last];
        WithNameAppend(init, [last], n);
      }
    }
  }

  /** Names are unique within one directory listing. */
  predicate DistinctNames(s: seq<Node>)
  {
    forall i, j :: 0 <= i < j < |s| ==> s[i].name != s[j].name
  }

  /** When names are unique there is exactly one ascending arrangement of a
      listing: whatever sorting algorithm is used, its result is SortByName. */
  lemma {:induction false} SortedPermutationUnique(a: seq<Node>, b: seq<Node>)
    requires SortedByName(a) && SortedByName(b)
    requires multiset(a) == multiset(b)
    requires DistinctNames(a)
    ensures a == b
    decreases |a|
  {
    assert |a| == |multiset(a)| == |multiset(b)| == |b|;
    if a != [] {
      SameHead(a, b);
      TailProps(a);
      TailProps(b);
      SortedPermutationUnique(a[1..], b[1..]);
      ConsEqual(a, b);
    }
  }

  lemma SameHead(a: seq<Node>, b: seq<Node>)
    requires a != [] && b != []
    requires SortedByName(a) && SortedByName(b)
    requires multiset(a) == multiset(b)
    requires DistinctNames(a)
    ensures a[0] == b[0]
  {
    assert a[0] in multiset(b) && b[0] in multiset(a);
    HeadIsLeast(b, a[0]);
    HeadIsLeast(a, b[0]);
    NameLeAntisym(a[0].name, b[0].name);
    HeadUnique(a, b[0]);
  }

  lemma ConsEqual(a: seq<Node>, b: seq<Node>)
    requires a != [] && b != [] && a[0] == b[0] && a[1..] == b[1..]
    ensures a == b
  {
    assert a == [a[0]] + a[1..] && b == [b[0]] + b[1..];
  }

  lemma HeadIsLeast(s: seq<Node>, x: Node)
    requires SortedByName(s) && x in multiset(s)
    ensures s != [] && NameLe(s[0].name, x.name)
  {
    var i :| 0 <= i < |s| && s[i] == x;
    if i == 0 {
      NameLeRefl(x.name);
    }
  }

  lemma HeadUnique(s: seq<Node>, x: Node)
    requires DistinctNames(s) && x in multiset(s) && s != [] && s[0].name == x.name
    ensures s[0] == x
  {
    var i :| 0 <= i < |s| && s[i] == x;
    assert i == 0;
  }

  lemma TailProps(s: seq<Node>)
    requires s != []
    ensures multiset(s[1..]) == multiset(s) - multiset{s[0]}
    ensures SortedByName(s) ==> SortedByName(s[1..])
    ensures DistinctNames(s) ==> DistinctNames(s[1..])
  {
    assert s == [s[0]] + s[1..];
    if SortedByName(s) {
      forall i, j | 0 <= i < j < |s| - 1
        ensures NameLe(s[1..][i].name, s[1..][j].name)
      {
        assert s[1..][i] == s[i + 1] && s[1..][j] == s[j + 1];
      }
    }
    if DistinctNames(s) {
      forall i, j | 0 <= i < j < |s| - 1
        ensures s[1..][i].name != s[1..][j].name
      {
        assert s[1..][i] == s[i + 1] && s[1..][j] == s[j + 1];
      }
    }
  }

  /** Sorts a listing in place (stable insertion sort). */
  method SortEntries(a: array<Node>)
    modifies a
    ensures a[..] == SortByName(old(a[..]))
  {
    ghost var s0 := a[..];
    var i := 0;
    while i < a.Length
      invariant 0 <= i <= a.Length
      invariant a[..i] == SortByName(s0[..i])
      invariant a[i..] == s0[i..]
    {
      ghost var sorted := a[..i];
      assert a[i] == s0[i] && a[i + 1..] == s0[i + 1..];
      InsertInPlace(a, i);
      assert a[..i + 1] == Insert(sorted, s0[i]);
      assert s0[..i + 1][..i] == s0[..i] && s0[..i + 1][i] == s0[i];
      assert SortByName(s0[..i + 1]) == Insert(SortByName(s0[..i]), s0[i]);
      i := i + 1;
    }
    assert a[..] == a[..a.Length] && s0 == s0[..a.Length];
  }

  /** `Insert` places `x` after the longest suffix of names greater than its
      own, and before the rest. */
  lemma {:induction false} InsertAt(s: seq<Node>, j: nat, x: Node)
    requires j <= |s|
    requires j == 0 || NameLe(s[j - 1].name, x.name)
    requires forall k :: j <= k < |s| ==> !NameLe(s[k].name, x.name)
    ensures Insert(s, x) == s[..j] + [x] + s[j..]
    decreases |s|
  {
    if j < |s| {
      var init := s[..|s| - 1];
      assert init[..j] == s[..j];
      InsertAt(init, j, x);
      assert s[j..] == init[j..] + [s[|s| - 1]];
    } else {
      assert s[..j] == s;
    }
  }

  /** The gap left by the shifting loop is where `Insert` places `x`. */
  lemma GapIsInsertPosition(s: seq<Node>, i: nat, j: nat, x: Node)
    requires j <= i <= |s|
    requires j == 0 || NameLe(s[j - 1].name, x.name)
    requires forall k :: j <= k < i ==> !NameLe(s[k].name, x.name)
    ensures Insert(s[..i], x) == s[..j] + [x] + s[j..i]
  {
    var prefix := s[..i];
    assert prefix[..j] == s[..j] && prefix[j..] == s[j..i];
    InsertAt(prefix, j, x);
  }

  /** One pass of insertion sort: moves `a[i]` back into `a[..i]`. */
  method InsertInPlace(a: array<Node>, i: nat)
    requires i < a.Length
    modifies a
    ensures a[..i + 1] == Insert(old(a[..i]), old(a[i]))
    ensures a[i + 1..] == old(a[i + 1..])
  {
    var x := a[i];
    ghost var s := a[..];
    var j := ShiftGreater(a, i, x);
    ghost var shifted := a[..];
    a[j] := x;
    assert a[..i + 1] == shifted[..j] + [x] + shifted[j + 1..i + 1];
    assert a[i + 1..] == shifted[i + 1..];
  }

  /** Shifts the entries of `a[..i]` whose names are greater than `x`'s one
      place to the right, over `a[i]`, and returns the gap this leaves: the
      place where `Insert` puts `x`. */
  method ShiftGreater(a: array<Node>, i: nat, x: Node) returns (j: nat)
    requires i < a.Length
    modifies a
    ensures j <= i
    ensures a[..j] == old(a[..j])
    ensures a[j + 1..i + 1] == old(a[j..i])
    ensures a[i + 1..] == old(a[i + 1..])
    ensures Insert(old(a[..i]), x) == old(a[..j]) + [x] + old(a[j..i])
  {
    ghost var s := a[..];
    j := i;
    while j > 0 && !NameLe(a[j - 1].name, x.name)
      invariant 0 <= j <= i
      invariant forall k :: 0 <= k < j ==> a[k] == s[k]
      invariant forall k :: j < k <= i ==> a[k] == s[k - 1]
      invariant forall k :: i < k < a.Length ==> a[k] == s[k]
      invariant forall k :: j <= k < i ==> !NameLe(s[k].name, x.name)
    {
      a[j] := a[j - 1];
      j := j - 1;
    }
    assert a[..j] == s[..j];
    assert a[j + 1..i + 1] == s[j..i];
    assert a[i + 1..] == s[i + 1..];
    assert j == 0 || NameLe(s[j - 1].name, x.name);
    GapIsInsertPosition(s, i, j, x);
  }
}
