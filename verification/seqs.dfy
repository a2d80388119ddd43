/** Sequence operations that stand for the java.util.List and Stream calls
    of the source: findFirst, filter/collect, contains-then-add and
    remove(Object), which removes the first equal element. */
module Seqs {
  import opened Wrappers

  predicate NoDup<T(==)>(s: seq<T>) {
    forall i, j :: 0 <= i < j < |s| ==> s[i] != s[j]
  }

  /** stream().filter(p).findFirst(), as the index of the match. */
  function FirstIndex<T>(s: seq<T>, p: T -> bool): (r: Option<nat>)
    ensures r.Some? ==> r.value < |s| && p(s[r.value])
    ensures r.Some? ==> forall j :: 0 <= j < r.value ==> !p(s[j])
    ensures r.None? <==> forall j :: 0 <= j < |s| ==> !p(s[j])
  {
    if s == [] then None
    else if p(s[0]) then Some(0)
    else
      match FirstIndex(s[1..], p)
      case None => None
      case Some(k) => Some(k + 1)
  }

  /** stream().filter(p).collect(toList()). */
  function Filter<T(!new)>(s: seq<T>, p: T -> bool): (r: seq<T>)
    ensures |r| <= |s|
    ensures forall x :: x in r <==> x in s && p(x)
    ensures multiset(r) <= multiset(s)
  {
    if s == [] then []
    else
      assert s == [s[0]] + s[1..];
      (if p(s[0]) then [s[0]] else []) + Filter(s[1..], p)
  }

  /** Filtering commutes with concatenation, so it keeps the order of `s`. */
  lemma {:induction false} FilterAppend<T(!new)>(a: seq<T>, b: seq<T>, p: T -> bool)
    ensures Filter(a + b, p) == Filter(a, p) + Filter(b, p)
  {
    if a == [] {
      assert a + b == b;
    } else {
      assert (a + b)[1..] == a[1..] + b;
      FilterAppend(a[1..], b, p);
    }
  }

  lemma {:induction false} FilterKeepsAll<T(!new)>(s: seq<T>, p: T -> bool)
    requires forall i :: 0 <= i < |s| ==> p(s[i])
    ensures Filter(s, p) == s
  {
    if s != [] {
      FilterKeepsAll(s[1..], p);
    }
  }

  lemma {:induction false} FilterDropsAll<T(!new)>(s: seq<T>, p: T -> bool)
    requires forall i :: 0 <= i < |s| ==> !p(s[i])
    ensures Filter(s, p) == []
  {
    if s != [] {
      FilterDropsAll(s[1..], p);
    }
  }

  predicate Increasing<T>(s: seq<T>, key: T -> int) {
    forall i, j :: 0 <= i < j < |s| ==> key(s[i]) < key(s[j])
  }

  /** Filtering keeps a sequence sorted by a strictly increasing key. */
  lemma {:induction false} FilterKeepsIncreasing<T(!new)>(s: seq<T>, p: T -> bool, key: T -> int)
    requires Increasing(s, key)
    ensures Increasing(Filter(s, p), key)
  {
    if s != [] {
      IncreasingTail(s, key);
      FilterKeepsIncreasing(s[1..], p, key);
      if p(s[0]) {
        IncreasingCons(s[0], Filter(s[1..], p), key);
      }
    }
  }

  lemma IncreasingTail<T>(s: seq<T>, key: T -> int)
    requires s != [] && Increasing(s, key)
    ensures Increasing(s[1..], key)
    ensures forall x :: x in s[1..] ==> key(s[0]) < key(x)
  {
    var tail := s[1..];
    forall i, j | 0 <= i < j < |tail| ensures key(tail[i]) < key(tail[j]) {
      assert tail[i] == s[i + 1] && tail[j] == s[j + 1];
    }
    forall x | x in tail ensures key(s[0]) < key(x) {
      var m :| 0 <= m < |tail| && tail[m] == x;
      assert s[m + 1] == x;
    }
  }

  lemma IncreasingCons<T>(h: T, rest: seq<T>, key: T -> int)
    requires Increasing(rest, key)
    requires forall x :: x in rest ==> key(h) < key(x)
    ensures Increasing([h] + rest, key)
  {
    var r := [h] + rest;
    forall i, j | 0 <= i < j < |r| ensures key(r[i]) < key(r[j]) {
      assert r[j] == rest[j - 1];
      if i > 0 {
        assert r[i] == rest[i - 1];
      }
    }
  }

  /** Filtering twice is filtering once by the conjunction. */
  lemma {:induction false} FilterFilter<T(!new)>(s: seq<T>, p: T -> bool, q: T -> bool, pq: T -> bool)
    requires forall x :: pq(x) == (p(x) && q(x))
    ensures Filter(Filter(s, p), q) == Filter(s, pq)
  {
    if s != [] {
      FilterFilter(s[1..], p, q, pq);
      var head := if p(s[0]) then [s[0]] else [];
      FilterAppend(head, Filter(s[1..], p), q);
    }
  }

  /** List.remove(Object): drop the first element equal to `x`, if any. */
  function RemoveFirst<T(==)>(s: seq<T>, x: T): (r: seq<T>)
    ensures x !in s ==> r == s
    ensures x in s ==> |r| == |s| - 1
    ensures multiset(r) == multiset(s) - multiset{x}
  {
    if s == [] then []
    else if s[0] == x then
      assert s == [x] + s[1..];
      s[1..]
    else
      assert s == [s[0]] + s[1..];
      [s[0]] + RemoveFirst(s[1..], x)
  }

  /** List.remove(Object) drops the first occurrence, at position `i`,
      and keeps the order of everything else. */
  lemma {:induction false} RemoveFirstAt<T>(s: seq<T>, x: T, i: nat)
    requires i < |s| && s[i] == x
    requires forall k :: 0 <= k < i ==> s[k] != x
    ensures RemoveFirst(s, x) == s[..i] + s[i + 1..]
  {
    if i == 0 {
      assert s[..0] == [];
    } else {
      var h, t := s[0], s[1..];
      RemoveFirstAt(t, x, i - 1);
      var a, b := t[..i - 1], t[i..];
      HeadSlices(s, i - 1);
      RemoveFirstPastHead(s, x);
      assert RemoveFirst(s, x) == [h] + (a + b);
    }
  }

  /** Slices of `s` around position `j + 1`, through its tail. */
  lemma HeadSlices<T>(s: seq<T>, j: nat)
    requires j + 1 < |s|
    ensures s[..j + 1] == [s[0]] + s[1..][..j]
    ensures s[j + 2..] == s[1..][j + 1..]
  {
  }

  lemma RemoveFirstPastHead<T>(s: seq<T>, x: T)
    requires s != [] && s[0] != x
    ensures RemoveFirst(s, x) == [s[0]] + RemoveFirst(s[1..], x)
  {
  }

  /** Removing an element that `p` drops does not change what filtering
      by `p` yields. */
  lemma {:induction false} FilterRemoveFirst<T(!new)>(s: seq<T>, x: T, p: T -> bool)
    requires !p(x)
    ensures Filter(RemoveFirst(s, x), p) == Filter(s, p)
  {
    if s != [] {
      SplitHead(s);
      FilterCons(s[0], s[1..], p);
      if s[0] != x {
        FilterRemoveFirst(s[1..], x, p);
        FilterCons(s[0], RemoveFirst(s[1..], x), p);
      }
    }
  }

  /** Removing from a duplicate-free sequence removes every occurrence. */
  lemma {:induction false} RemoveFirstNoDup<T>(s: seq<T>, x: T)
    ensures NoDup(s) ==> NoDup(RemoveFirst(s, x)) && x !in RemoveFirst(s, x)
  {
    if s == [] || !NoDup(s) {
      return;
    }
    NoDupTail(s);
    if s[0] != x {
      RemoveFirstNoDup(s[1..], x);
      var rest := RemoveFirst(s[1..], x);
      assert multiset(s[1..])[s[0]] == 0;
      assert multiset(rest)[s[0]] == 0;
      NoDupCons(s[0], rest);
    }
  }

  lemma NoDupTail<T>(s: seq<T>)
    requires s != [] && NoDup(s)
    ensures NoDup(s[1..]) && s[0] !in s[1..]
  {
    var tail := s[1..];
    forall i, j | 0 <= i < j < |tail| ensures tail[i] != tail[j] {
      assert tail[i] == s[i + 1] && tail[j] == s[j + 1];
    }
    forall i | 0 <= i < |tail| ensures tail[i] != s[0] {
      assert tail[i] == s[i + 1];
    }
  }

  lemma NoDupCons<T>(h: T, rest: seq<T>)
    requires NoDup(rest) && h !in rest
    ensures NoDup([h] + rest)
  {
    var r := [h] + rest;
    forall i, j | 0 <= i < j < |r| ensures r[i] != r[j] {
      assert r[j] == rest[j - 1];
      if i > 0 {
        assert r[i] == rest[i - 1];
      }
    }
  }

  lemma {:induction false} NoDupCount<T>(s: seq<T>, y: T)
    requires NoDup(s)
    ensures multiset(s)[y] <= 1
  {
    if s != [] {
      assert s == [s[0]] + s[1..];
      assert NoDup(s[1..]);
      NoDupCount(s[1..], y);
      if s[0] == y {
        assert y !in s[1..];
      }
    }
  }

  /** contains-then-add: append `x` unless it is already present. */
  function AddAbsent<T(==)>(s: seq<T>, x: T): (r: seq<T>)
    ensures x in r
    ensures x in s ==> r == s
    ensures x !in s ==> r == s + [x]
    ensures NoDup(s) ==> NoDup(r)
  {
    if x in s then s else s + [x]
  }

  /** Removing what was just appended restores the sequence. */
  lemma {:induction false} RemoveFirstUndoesAppend<T>(s: seq<T>, x: T)
    requires x !in s
    ensures RemoveFirst(s + [x], x) == s
  {
    if s != [] {
      assert (s + [x])[1..] == s[1..] + [x];
      RemoveFirstUndoesAppend(s[1..], x);
    }
  }

  /** Position `x` of the sequence without position `i` is the old position. */
  lemma DropIndex<T>(s: seq<T>, i: nat, x: nat)
    requires i < |s| && x < |s| - 1
    ensures (s[..i] + s[i + 1..])[x] == s[if x < i then x else x + 1]
  {
  }

  lemma SplitHead<T>(s: seq<T>)
    requires s != []
    ensures s == [s[0]] + s[1..]
  {
  }

  /** Filtering a sequence with a known head. */
  lemma FilterCons<T(!new)>(h: T, t: seq<T>, p: T -> bool)
    ensures Filter([h] + t, p) == (if p(h) then [h] else []) + Filter(t, p)
  {
    assert ([h] + t)[1..] == t;
  }

  /** Elements that `p` keeps may move in front of a head that `p` drops
      without changing what filtering by `p` yields. */
  lemma FilterBehindHead<T(!new)>(h: T, t: seq<T>, rest: seq<T>, mid: seq<T>, p: T -> bool)
    requires Filter(rest, p) == mid + Filter(t, p)
    requires mid != [] ==> !p(h)
    ensures Filter([h] + rest, p) == mid + Filter([h] + t, p)
  {
    FilterCons(h, rest, p);
    FilterCons(h, t, p);
    MoveBehindHead(h, p(h), Filter(rest, p), Filter(t, p), Filter([h] + rest, p), Filter([h] + t, p), mid);
  }

  /** The sequence algebra of FilterBehindHead, with the filtered
      sequences named: `keep` says whether the head survives. */
  lemma MoveBehindHead<T>(h: T, keep: bool, fr: seq<T>, ft: seq<T>, fhr: seq<T>, fht: seq<T>, mid: seq<T>)
    requires fhr == (if keep then [h] else []) + fr
    requires fht == (if keep then [h] else []) + ft
    requires fr == mid + ft
    requires mid != [] ==> !keep
    ensures fhr == mid + fht
  {
    if keep {
      assert mid == [];
      assert fr == ft by {
        assert [] + ft == ft;
      }
    } else {
      assert [] + fr == fr;
      assert [] + ft == ft;
    }
  }
}
