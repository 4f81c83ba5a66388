/** Order-preserving selection, first-occurrence de-duplication, counting and sorting over
    sequences: the list and Series operations (comprehension filters, boolean masks,
    `unique()`, `value_counts()`, `sorted`) that the scripts build their tables with. */
module Seqs {
  import Strings

  /** The positions of the elements that satisfy `keep`, in increasing order: the row
      numbers a boolean mask selects. */
  function KeptIndices<T>(s: seq<T>, keep: T -> bool): (ix: seq<nat>)
    ensures forall k :: 0 <= k < |ix| ==> ix[k] < |s| && keep(s[ix[k]])
    ensures forall k, l :: 0 <= k < l < |ix| ==> ix[k] < ix[l]
    ensures forall i :: 0 <= i < |s| && keep(s[i]) ==> i in ix
  {
    if s == [] then []
    else
      var ix := KeptIndices(s[..|s| - 1], keep);
      assert forall k :: 0 <= k < |ix| ==> s[..|s| - 1][ix[k]] == s[ix[k]];
      ix + (if keep(s[|s| - 1]) then [|s| - 1] else [])
  }

  /** The elements at the given positions, in the order of the positions. */
  function Select<T>(s: seq<T>, ix: seq<nat>): (r: seq<T>)
    requires forall k :: 0 <= k < |ix| ==> ix[k] < |s|
    ensures |r| == |ix|
    ensures forall k :: 0 <= k < |ix| ==> r[k] == s[ix[k]]
  {
    seq(|ix|, k requires 0 <= k < |ix| => s[ix[k]])
  }

  /** The elements that satisfy `keep`, in their original order: a list comprehension
      with an `if` clause. */
  function Filter<T>(s: seq<T>, keep: T -> bool): (r: seq<T>)
    ensures |r| == |KeptIndices(s, keep)|
    ensures forall k :: 0 <= k < |r| ==> r[k] == s[KeptIndices(s, keep)[k]]
  {
    if s == [] then []
    else
      var init := s[..|s| - 1];
      assert forall k :: 0 <= k < |KeptIndices(init, keep)| ==>
        init[KeptIndices(init, keep)[k]] == s[KeptIndices(init, keep)[k]];
      Filter(init, keep) + (if keep(s[|s| - 1]) then [s[|s| - 1]] else [])
  }

  lemma FilterSnoc<T>(s: seq<T>, x: T, keep: T -> bool)
    ensures Filter(s + [x], keep) == Filter(s, keep) + (if keep(x) then [x] else [])
  {
    assert (s + [x])[..|s + [x]| - 1] == s;
  }

  /** An element survives the filter exactly when it was there and satisfies `keep`. */
  lemma FilterMembership<T>(s: seq<T>, keep: T -> bool, x: T)
    ensures x in Filter(s, keep) <==> x in s && keep(x)
  {
    var r, ix := Filter(s, keep), KeptIndices(s, keep);
    if x in s && keep(x) {
      var i :| 0 <= i < |s| && s[i] == x;
      var k :| 0 <= k < |ix| && ix[k] == i;
      assert r[k] == x;
    }
  }

  predicate NoDuplicates<T(==)>(s: seq<T>) {
    forall i, j :: 0 <= i < j < |s| ==> s[i] != s[j]
  }

  /** The position of the first occurrence of `x` in `s`. */
  function FirstIndex<T(==)>(s: seq<T>, x: T): (i: nat)
    requires x in s
    ensures i < |s| && s[i] == x && x !in s[..i]
  {
    if s[0] == x then 0 else 1 + FirstIndex(s[1..], x)
  }

  lemma FirstIndexOfPrefix<T>(s: seq<T>, n: nat, x: T)
    requires n <= |s| && x in s[..n]
    ensures FirstIndex(s[..n], x) == FirstIndex(s, x)
  {
    var i := FirstIndex(s[..n], x);
    assert s[..n][..i] == s[..i];
  }

  /** Whether `p` holds, element by element. */
  function Flags<T>(s: seq<T>, p: T -> bool): (r: seq<bool>)
    ensures |r| == |s|
  {
    if s == [] then [] else Flags(s[..|s| - 1], p) + [p(s[|s| - 1])]
  }

  lemma {:induction false} FlagsAt<T>(s: seq<T>, p: T -> bool, k: nat)
    requires k < |s|
    ensures Flags(s, p)[k] == p(s[k])
  {
    if k < |s| - 1 {
      FlagsAt(s[..|s| - 1], p, k);
    }
  }

  /** The position of the first element `stop` holds for, or `|s|` when there is none. */
  function FirstWhere<T>(s: seq<T>, stop: T -> bool): (i: nat)
    ensures i <= |s|
    ensures forall k :: 0 <= k < i ==> !stop(s[k])
    ensures i < |s| ==> stop(s[i])
  {
    if s == [] || stop(s[0]) then 0
    else
      var i := FirstWhere(s[1..], stop);
      assert forall k :: 1 <= k < 1 + i ==> s[k] == s[1..][k - 1];
      1 + i
  }

  /** A position before which `stop` never holds, and at which it holds unless it is the
      end, is the first one. */
  lemma FirstWhereUnique<T>(s: seq<T>, stop: T -> bool, i: nat)
    requires i <= |s|
    requires forall k :: 0 <= k < i ==> !stop(s[k])
    requires i < |s| ==> stop(s[i])
    ensures FirstWhere(s, stop) == i
  {
  }

  /** The distinct elements of `s` in order of first appearance: pandas `unique()`. */
  function Distinct<T(==)>(s: seq<T>): (r: seq<T>)
    ensures NoDuplicates(r)
    ensures forall k :: 0 <= k < |r| ==> r[k] in s
    ensures forall i :: 0 <= i < |s| ==> s[i] in r
  {
    if s == [] then []
    else
      var d := Distinct(s[..|s| - 1]);
      assert forall i :: 0 <= i < |s| - 1 ==> s[..|s| - 1][i] == s[i];
      if s[|s| - 1] in d then d else d + [s[|s| - 1]]
  }

  /** The elements of `r`, all from `s`, appear in `r` in the order they first appear in `s`. */
  predicate InFirstAppearanceOrder<T(==)>(s: seq<T>, r: seq<T>)
    requires forall k :: 0 <= k < |r| ==> r[k] in s
  {
    forall i, j :: 0 <= i < j < |r| ==> FirstIndex(s, r[i]) < FirstIndex(s, r[j])
  }

  /** `unique()` lists the values in order of first appearance. */
  lemma {:induction false} DistinctOrder<T>(s: seq<T>)
    ensures InFirstAppearanceOrder(s, Distinct(s))
  {
    if s != [] {
      var init, last := s[..|s| - 1], s[|s| - 1];
      DistinctOrder(init);
      var d := Distinct(init);
      OrderExtends(s, d);
      if last !in d {
        assert forall i :: 0 <= i < |s| - 1 ==> init[i] == s[i];
        OrderSnoc(s, d);
      }
    }
  }

  /** An order by first appearance in a prefix is one in the whole sequence, and every
      element of the prefix first appears before its end. */
  lemma OrderExtends<T>(s: seq<T>, d: seq<T>)
    requires s != []
    requires forall k :: 0 <= k < |d| ==> d[k] in s[..|s| - 1]
    requires InFirstAppearanceOrder(s[..|s| - 1], d)
    ensures forall k :: 0 <= k < |d| ==> d[k] in s && FirstIndex(s, d[k]) < |s| - 1
    ensures InFirstAppearanceOrder(s, d)
  {
    var init := s[..|s| - 1];
    forall k | 0 <= k < |d|
      ensures d[k] in s && FirstIndex(init, d[k]) == FirstIndex(s, d[k]) < |s| - 1
    {
      FirstIndexOfPrefix(s, |s| - 1, d[k]);
    }
    forall i, j | 0 <= i < j < |d|
      ensures FirstIndex(s, d[i]) < FirstIndex(s, d[j])
    {
      assert FirstIndex(init, d[i]) < FirstIndex(init, d[j]);
    }
  }

  /** A new last element first appears after everything before it. */
  lemma OrderSnoc<T>(s: seq<T>, d: seq<T>)
    requires s != [] && s[|s| - 1] !in d
    requires forall i :: 0 <= i < |s| - 1 ==> s[i] in d
    requires forall k :: 0 <= k < |d| ==> d[k] in s && FirstIndex(s, d[k]) < |s| - 1
    requires InFirstAppearanceOrder(s, d)
    ensures InFirstAppearanceOrder(s, d + [s[|s| - 1]])
  {
    var last := s[|s| - 1];
    var r := d + [last];
    assert FirstIndex(s, last) == |s| - 1 by {
      forall i | 0 <= i < |s| - 1
        ensures s[i] != last
      {
        assert s[i] in d;
      }
      FirstIndexOfLast(s);
    }
    forall k | 0 <= k < |r|
      ensures r[k] in s
    {
      if k < |d| { assert r[k] == d[k]; }
    }
    forall i, j | 0 <= i < j < |r|
      ensures FirstIndex(s, r[i]) < FirstIndex(s, r[j])
    {
      assert r[i] == d[i];
      if j < |d| {
        assert r[j] == d[j];
      } else {
        assert r[j] == last;
      }
    }
  }

  /** An element that occurs only at the end first appears there. */
  lemma FirstIndexOfLast<T>(s: seq<T>)
    requires s != [] && forall i :: 0 <= i < |s| - 1 ==> s[i] != s[|s| - 1]
    ensures FirstIndex(s, s[|s| - 1]) == |s| - 1
  {
  }

  /** The number of occurrences of `x` in `s`. */
  function Count<T(==)>(s: seq<T>, x: T): nat {
    if s == [] then 0 else Count(s[..|s| - 1], x) + (if s[|s| - 1] == x then 1 else 0)
  }

  lemma {:induction false} CountZero<T>(s: seq<T>, x: T)
    ensures Count(s, x) == 0 <==> x !in s
  {
    if s != [] {
      CountZero(s[..|s| - 1], x);
      assert s == s[..|s| - 1] + [s[|s| - 1]];
    }
  }

  lemma {:induction false} CountAppend<T>(s: seq<T>, t: seq<T>, x: T)
    ensures Count(s + t, x) == Count(s, x) + Count(t, x)
  {
    if t != [] {
      assert (s + t)[..|s + t| - 1] == s + t[..|t| - 1];
      CountAppend(s, t[..|t| - 1], x);
    } else {
      assert s + t == s;
    }
  }

  function Sum(xs: seq<nat>): nat {
    if xs == [] then 0 else xs[0] + Sum(xs[1..])
  }

  /** The occurrence count in `s` of each element of `keys`, position by position. */
  function CountsOf<T(==)>(s: seq<T>, keys: seq<T>): (r: seq<nat>)
    ensures |r| == |keys|
    ensures forall k :: 0 <= k < |keys| ==> r[k] == Count(s, keys[k])
  {
    if keys == [] then [] else [Count(s, keys[0])] + CountsOf(s, keys[1..])
  }

  lemma {:induction false} CountsOfEmpty<T>(keys: seq<T>)
    ensures Sum(CountsOf([], keys)) == 0
  {
    if keys != [] {
      CountsOfEmpty(keys[1..]);
    }
  }

  lemma {:induction false} CountsOfSnoc<T>(s: seq<T>, x: T, keys: seq<T>)
    requires NoDuplicates(keys)
    ensures Sum(CountsOf(s + [x], keys)) == Sum(CountsOf(s, keys)) + (if x in keys then 1 else 0)
  {
    if keys != [] {
      assert (s + [x])[..|s + [x]| - 1] == s;
      CountsOfSnoc(s, x, keys[1..]);
      assert x in keys <==> x == keys[0] || x in keys[1..];
    }
  }

  /** Counting every element of a duplicate-free key list that covers `s` accounts for
      each element of `s` exactly once: the per-category counts add up to the total. */
  lemma {:induction false} CountsOfPartition<T>(s: seq<T>, keys: seq<T>)
    requires NoDuplicates(keys)
    requires forall x :: x in s ==> x in keys
    ensures Sum(CountsOf(s, keys)) == |s|
  {
    if s == [] {
      CountsOfEmpty(keys);
    } else {
      var init := s[..|s| - 1];
      assert s == init + [s[|s| - 1]];
      CountsOfPartition(init, keys);
      CountsOfSnoc(init, s[|s| - 1], keys);
    }
  }

  /** Ascending by the count component. */
  predicate SortedByCount<T>(s: seq<(T, nat)>) {
    forall i, j :: 0 <= i < j < |s| ==> s[i].1 <= s[j].1
  }

  /** `x` placed before the first entry whose count is at least its own. */
  function InsertByCount<T>(x: (T, nat), s: seq<(T, nat)>): (r: seq<(T, nat)>)
    ensures |r| == |s| + 1
  {
    if s == [] || x.1 <= s[0].1 then [x] + s else [s[0]] + InsertByCount(x, s[1..])
  }

  lemma {:induction false} InsertByCountPermutes<T>(x: (T, nat), s: seq<(T, nat)>)
    ensures multiset(InsertByCount(x, s)) == multiset(s) + multiset{x}
  {
    if s != [] && x.1 > s[0].1 {
      InsertByCountPermutes(x, s[1..]);
      assert s == [s[0]] + s[1..];
    }
  }

  lemma {:induction false} InsertByCountSorted<T>(x: (T, nat), s: seq<(T, nat)>)
    requires SortedByCount(s)
    ensures SortedByCount(InsertByCount(x, s))
  {
    if s == [] || x.1 <= s[0].1 {
      assert forall j :: 0 <= j < |s| ==> x.1 <= s[j].1;
    } else {
      var t := InsertByCount(x, s[1..]);
      InsertByCountSorted(x, s[1..]);
      InsertByCountPermutes(x, s[1..]);
      CountBoundCarries(t, s[1..], x, s[0].1);
    }
  }

  /** A lower bound on the counts of `s` and of `x` bounds every count of a rearrangement. */
  lemma CountBoundCarries<T>(t: seq<(T, nat)>, s: seq<(T, nat)>, x: (T, nat), b: nat)
    requires multiset(t) == multiset(s) + multiset{x}
    requires b <= x.1 && forall i :: 0 <= i < |s| ==> b <= s[i].1
    ensures forall k :: 0 <= k < |t| ==> b <= t[k].1
  {
    forall k | 0 <= k < |t|
      ensures b <= t[k].1
    {
      assert t[k] in multiset(t);
      if t[k] != x {
        assert t[k] in multiset(s);
      }
    }
  }

  /** `sort_values(ascending=True)` on a count table: ascending counts, same entries. */
  function SortByCount<T>(s: seq<(T, nat)>): (r: seq<(T, nat)>)
    ensures SortedByCount(r)
    ensures multiset(r) == multiset(s)
    ensures |r| == |s|
  {
    if s == [] then []
    else
      var t := SortByCount(s[1..]);
      InsertByCountSorted(s[0], t);
      InsertByCountPermutes(s[0], t);
      assert s == [s[0]] + s[1..];
      InsertByCount(s[0], t)
  }

  /** The elements in the opposite order. */
  function Reverse<T>(s: seq<T>): (r: seq<T>)
    ensures |r| == |s|
    ensures forall k :: 0 <= k < |s| ==> r[k] == s[|s| - 1 - k]
  {
    if s == [] then [] else [s[|s| - 1]] + Reverse(s[..|s| - 1])
  }

  lemma {:induction false} ReversePermutes<T>(s: seq<T>)
    ensures multiset(Reverse(s)) == multiset(s)
  {
    if s != [] {
      ReversePermutes(s[..|s| - 1]);
      SplitLast(s);
    }
  }

  /** `sort_values(ascending=False)` on a count table: descending counts, same entries. */
  function SortByCountDescending<T>(s: seq<(T, nat)>): (r: seq<(T, nat)>)
    ensures |r| == |s|
    ensures forall i, j :: 0 <= i < j < |r| ==> r[i].1 >= r[j].1
    ensures multiset(r) == multiset(s)
  {
    var sorted := SortByCount(s);
    ReversePermutes(sorted);
    Reverse(sorted)
  }

  /** Ascending in Python's string order. */
  predicate SortedStrings(s: seq<string>) {
    forall i, j :: 0 <= i < j < |s| ==> Strings.LessEq(s[i], s[j])
  }

  /** `x` placed before the first text it does not follow. */
  function InsertString(x: string, s: seq<string>): (r: seq<string>)
    ensures |r| == |s| + 1
  {
    if s == [] || Strings.LessEq(x, s[0]) then [x] + s else [s[0]] + InsertString(x, s[1..])
  }

  lemma {:induction false} InsertStringPermutes(x: string, s: seq<string>)
    ensures multiset(InsertString(x, s)) == multiset(s) + multiset{x}
  {
    if s != [] && !Strings.LessEq(x, s[0]) {
      InsertStringPermutes(x, s[1..]);
      assert s == [s[0]] + s[1..];
    }
  }

  lemma {:induction false} InsertStringSorted(x: string, s: seq<string>)
    requires SortedStrings(s)
    ensures SortedStrings(InsertString(x, s))
  {
    if s == [] || Strings.LessEq(x, s[0]) {
      forall j | 0 <= j < |s|
        ensures Strings.LessEq(x, s[j])
      {
        if j > 0 { Strings.LessEqTransitive(x, s[0], s[j]); }
      }
    } else {
      Strings.LessEqTotal(x, s[0]);
      var t := InsertString(x, s[1..]);
      InsertStringSorted(x, s[1..]);
      InsertStringPermutes(x, s[1..]);
      forall k | 0 <= k < |t|
        ensures Strings.LessEq(s[0], t[k])
      {
        assert t[k] in multiset(t);
        if t[k] != x {
          assert t[k] in multiset(s[1..]);
        }
      }
    }
  }

  /** Python's `sorted` on a list of strings. */
  function SortStrings(s: seq<string>): (r: seq<string>)
    ensures SortedStrings(r)
    ensures multiset(r) == multiset(s)
  {
    if s == [] then []
    else
      var t := SortStrings(s[1..]);
      InsertStringSorted(s[0], t);
      InsertStringPermutes(s[0], t);
      assert s == [s[0]] + s[1..];
      InsertString(s[0], t)
  }

  /** A sorted list with no repeats is strictly increasing. */
  lemma SortedDistinctStrictly(s: seq<string>, i: nat, j: nat)
    requires SortedStrings(s) && NoDuplicates(s)
    requires i < j < |s|
    ensures Strings.LessEq(s[i], s[j]) && !Strings.LessEq(s[j], s[i])
  {
    if Strings.LessEq(s[j], s[i]) {
      Strings.LessEqAntisymmetric(s[i], s[j]);
    }
  }

  /** An element that occurs at two positions occurs at least twice in the multiset. */
  lemma MultiplicityOfRepeat<T>(s: seq<T>, i: nat, j: nat)
    requires i < j < |s| && s[i] == s[j]
    ensures multiset(s)[s[i]] >= 2
  {
    assert s == s[..j] + [s[j]] + s[j + 1..];
    assert s[i] in multiset(s[..j]) by {
      assert s[..j][i] == s[i];
    }
  }

  /** In a sequence without duplicates every element occurs at most once. */
  lemma {:induction false} MultiplicityOfDistinct<T>(s: seq<T>, x: T)
    requires NoDuplicates(s)
    ensures multiset(s)[x] <= 1
  {
    if s != [] {
      assert s == [s[0]] + s[1..];
      MultiplicityOfDistinct(s[1..], x);
      if x == s[0] {
        assert x !in s[1..];
      }
    }
  }

  /** A rearrangement of a sequence without repeats has none either. */
  lemma NoDuplicatesOfPermutation<T>(r: seq<T>, s: seq<T>)
    requires multiset(r) == multiset(s) && NoDuplicates(s)
    ensures NoDuplicates(r)
  {
    forall i, j | 0 <= i < j < |r|
      ensures r[i] != r[j]
    {
      if r[i] == r[j] {
        MultiplicityOfRepeat(r, i, j);
        MultiplicityOfDistinct(s, r[i]);
        assert false;
      }
    }
  }

  /** A rearrangement of a count table lists the same keys. */
  lemma KeyOfPermutation<T>(r: seq<(T, nat)>, s: seq<(T, nat)>, x: T)
    requires multiset(r) == multiset(s)
    ensures (exists k :: 0 <= k < |r| && r[k].0 == x) <==> (exists k :: 0 <= k < |s| && s[k].0 == x)
  {
    if k :| 0 <= k < |r| && r[k].0 == x {
      assert r[k] in multiset(s) by {
        assert r[k] in multiset(r);
      }
      var m :| 0 <= m < |s| && s[m] == r[k];
    }
    if k :| 0 <= k < |s| && s[k].0 == x {
      assert s[k] in multiset(r) by {
        assert s[k] in multiset(s);
      }
      var m :| 0 <= m < |r| && r[m] == s[k];
    }
  }

  /** Filtering keeps every occurrence of an element that passes the filter. */
  lemma {:induction false} CountFilter<T>(s: seq<T>, keep: T -> bool, x: T)
    requires keep(x)
    ensures Count(Filter(s, keep), x) == Count(s, x)
  {
    if s != [] {
      var init := s[..|s| - 1];
      CountFilter(init, keep, x);
      assert s == init + [s[|s| - 1]];
      FilterSnoc(init, s[|s| - 1], keep);
      CountAppend(Filter(init, keep), if keep(s[|s| - 1]) then [s[|s| - 1]] else [], x);
    }
  }

  /** One more element of a prefix. */
  lemma AppendAssociative<T>(x: seq<T>, y: seq<T>, z: seq<T>)
    ensures (x + y) + z == x + (y + z)
  {
  }

  lemma SplitLast<T>(s: seq<T>)
    requires s != []
    ensures s == s[..|s| - 1] + [s[|s| - 1]]
  {
  }

  lemma TakeSnoc<T>(s: seq<T>, i: nat)
    requires i < |s|
    ensures s[..i + 1] == s[..i] + [s[i]]
  {
  }

  /** The prefix as long as the sequence is the sequence. */
  lemma TakeAll<T>(s: seq<T>)
    ensures s[..|s|] == s
  {
  }

  /** Cutting the end off a concatenation cuts it off the second part. */
  lemma TakeOfConcat<T>(a: seq<T>, b: seq<T>, n: nat)
    requires n <= |b|
    ensures (a + b)[..|a| + n] == a + b[..n]
  {
  }

  /** `f` applied to every element, in order. */
  function Map<T, U>(s: seq<T>, f: T -> U): (r: seq<U>)
    ensures |r| == |s|
    ensures forall k :: 0 <= k < |s| ==> r[k] == f(s[k])
  {
    seq(|s|, k requires 0 <= k < |s| => f(s[k]))
  }

  lemma MapSnoc<T, U>(s: seq<T>, x: T, f: T -> U)
    ensures Map(s + [x], f) == Map(s, f) + [f(x)]
  {
  }

  /** `f` of the elements `keep` holds for, in order, built element by element. */
  function MapKept<T, U>(s: seq<T>, keep: T -> bool, f: T -> U): seq<U>
  {
    if s == [] then []
    else MapKept(s[..|s| - 1], keep, f) + if keep(s[|s| - 1]) then [f(s[|s| - 1])] else []
  }

  lemma MapKeptSnoc<T, U>(s: seq<T>, x: T, keep: T -> bool, f: T -> U)
    ensures MapKept(s + [x], keep, f) == MapKept(s, keep, f) + if keep(x) then [f(x)] else []
  {
    assert (s + [x])[..|s|] == s;
  }

  lemma {:induction false} MapKeptIsMapFilter<T, U>(s: seq<T>, keep: T -> bool, f: T -> U)
    ensures MapKept(s, keep, f) == Map(Filter(s, keep), f)
  {
    if s != [] {
      var init, last := s[..|s| - 1], s[|s| - 1];
      MapKeptIsMapFilter(init, keep, f);
      assert s == init + [last];
      FilterSnoc(init, last, keep);
      if keep(last) {
        MapSnoc(Filter(init, keep), last, f);
      }
    }
  }
}
