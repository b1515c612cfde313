/** Sequences kept in the order of a key, first come first among equal keys: std::multimap, and the event list. */
module StableOrder {
  /** Insertion behind the last element whose key is not greater. */
  function Insert<T>(key: T -> int, s: seq<T>, x: T): (r: seq<T>)
    ensures |r| == |s| + 1
  {
    if s == [] then [x]
    else if key(x) < key(s[0]) then [x] + s
    else [s[0]] + Insert(key, s[1..], x)
  }

  predicate Sorted<T>(key: T -> int, s: seq<T>) {
    forall i, j :: 0 <= i < j < |s| ==> key(s[i]) <= key(s[j])
  }

  /** The elements with one key, in order. */
  function Select<T>(key: T -> int, k: int, s: seq<T>): seq<T> {
    if s == [] then []
    else if key(s[0]) == k then [s[0]] + Select(key, k, s[1..])
    else Select(key, k, s[1..])
  }

  lemma {:induction false} SelectMembers<T>(key: T -> int, k: int, s: seq<T>)
    ensures forall x :: x in Select(key, k, s) ==> x in s && key(x) == k
  {
    if s != [] { SelectMembers(key, k, s[1..]); }
  }

  /** Insertion of a whole sequence, one element after the other. */
  function InsertAll<T>(key: T -> int, s: seq<T>, xs: seq<T>): seq<T> {
    if xs == [] then s else Insert(key, InsertAll(key, s, xs[..|xs| - 1]), xs[|xs| - 1])
  }

  lemma {:induction false} SelectAppend<T>(key: T -> int, k: int, s: seq<T>, t: seq<T>)
    ensures Select(key, k, s + t) == Select(key, k, s) + Select(key, k, t)
  {
    if s == [] {
      assert s + t == t;
    } else {
      assert (s + t)[1..] == s[1..] + t;
      SelectAppend(key, k, s[1..], t);
    }
  }

  lemma {:induction false} InsertSorted<T>(key: T -> int, s: seq<T>, x: T)
    requires Sorted(key, s)
    ensures Sorted(key, Insert(key, s, x))
  {
    if s != [] && key(s[0]) <= key(x) {
      InsertSorted(key, s[1..], x);
      InsertMembers(key, s[1..], x);
      SortedCons(key, s[0], Insert(key, s[1..], x));
    }
  }

  lemma {:induction false} InsertMembers<T>(key: T -> int, s: seq<T>, x: T)
    ensures forall y :: y in Insert(key, s, x) ==> y == x || y in s
  {
    if s != [] { InsertMembers(key, s[1..], x); }
  }

  lemma SortedCons<T>(key: T -> int, x: T, s: seq<T>)
    requires Sorted(key, s) && forall y :: y in s ==> key(x) <= key(y)
    ensures Sorted(key, [x] + s)
  {
  }

  lemma {:induction false} InsertKeeps<T>(key: T -> int, s: seq<T>, x: T)
    ensures multiset(Insert(key, s, x)) == multiset(s) + multiset{x}
  {
    if s != [] && key(s[0]) <= key(x) {
      InsertKeeps(key, s[1..], x);
      assert s == [s[0]] + s[1..];
    }
  }

  /** The place of an insertion: behind every key not greater, before the first greater one. */
  lemma {:induction false} InsertAt<T>(key: T -> int, s: seq<T>, x: T, k: nat)
    requires k <= |s| && (forall i :: 0 <= i < k ==> key(s[i]) <= key(x)) && (k < |s| ==> key(x) < key(s[k]))
    ensures Insert(key, s, x) == s[..k] + [x] + s[k..]
  {
    if k > 0 { InsertAt(key, s[1..], x, k - 1); }
  }

  /** An insertion puts the element last among those with its key and moves no other. */
  lemma {:induction false} InsertStable<T>(key: T -> int, s: seq<T>, x: T, k: int)
    requires Sorted(key, s)
    ensures Select(key, k, Insert(key, s, x)) == Select(key, k, s) + if key(x) == k then [x] else []
  {
    if s != [] {
      if key(x) < key(s[0]) {
        SelectAppend(key, k, [x], s);
        if key(x) == k { NoneSelected(key, k, s); }
      } else {
        InsertStable(key, s[1..], x, k);
        assert ([s[0]] + Insert(key, s[1..], x))[1..] == Insert(key, s[1..], x);
      }
    }
  }

  lemma {:induction false} NoneSelected<T>(key: T -> int, k: int, s: seq<T>)
    requires forall i :: 0 <= i < |s| ==> key(s[i]) != k
    ensures Select(key, k, s) == []
  {
    if s != [] { NoneSelected(key, k, s[1..]); }
  }

  lemma {:induction false} InsertAllSorted<T>(key: T -> int, s: seq<T>, xs: seq<T>)
    requires Sorted(key, s)
    ensures Sorted(key, InsertAll(key, s, xs))
  {
    if xs != [] {
      InsertAllSorted(key, s, xs[..|xs| - 1]);
      InsertSorted(key, InsertAll(key, s, xs[..|xs| - 1]), xs[|xs| - 1]);
    }
  }

  lemma SelectOne<T>(key: T -> int, k: int, x: T)
    ensures Select(key, k, [x]) == if key(x) == k then [x] else []
  {
  }

  lemma {:induction false} InsertAllStable<T>(key: T -> int, s: seq<T>, xs: seq<T>, k: int)
    requires Sorted(key, s)
    ensures Select(key, k, InsertAll(key, s, xs)) == Select(key, k, s) + Select(key, k, xs)
  {
    if xs != [] {
      hide Insert, Sorted, Select;
      var front, last := xs[..|xs| - 1], xs[|xs| - 1];
      InsertAllSorted(key, s, front);
      InsertAllStable(key, s, front, k);
      InsertStable(key, InsertAll(key, s, front), last, k);
      assert xs == front + [last];
      SelectAppend(key, k, front, [last]);
      SelectOne(key, k, last);
    }
  }

  /** A stable sort of a sequence: sorted, with the order among equal keys unchanged. */
  ghost predicate IsStableSort<T>(key: T -> int, xs: seq<T>, r: seq<T>) {
    Sorted(key, r) && forall k :: Select(key, k, r) == Select(key, k, xs)
  }

  lemma InsertAllIsStableSort<T>(key: T -> int, xs: seq<T>)
    ensures IsStableSort(key, xs, InsertAll(key, [], xs))
  {
    InsertAllSorted(key, [], xs);
    forall k
      ensures Select(key, k, InsertAll(key, [], xs)) == Select(key, k, xs)
    {
      InsertAllStable(key, [], xs, k);
    }
  }

  lemma HeadKey<T>(key: T -> int, r: seq<T>, r': seq<T>)
    requires r != [] && Sorted(key, r')
    requires Select(key, key(r[0]), r) == Select(key, key(r[0]), r')
    ensures r' != [] && key(r'[0]) <= key(r[0])
  {
    SelectMembers(key, key(r[0]), r');
    var first := Select(key, key(r[0]), r')[0];
    assert first in r' && key(first) == key(r[0]);
  }

  /** There is only one. */
  lemma {:induction false} StableSortUnique<T>(key: T -> int, r: seq<T>, r': seq<T>)
    requires Sorted(key, r) && Sorted(key, r')
    requires forall k :: Select(key, k, r) == Select(key, k, r')
    ensures r == r'
  {
    if r != [] {
      HeadKey(key, r, r');
      HeadKey(key, r', r);
      var k := key(r[0]);
      assert r[0] == Select(key, k, r)[0] == Select(key, k, r')[0] == r'[0];
      forall j
        ensures Select(key, j, r[1..]) == Select(key, j, r'[1..])
      {
        assert Select(key, j, r) == Select(key, j, r');
        if j == k {
          assert Select(key, k, r[1..]) == Select(key, k, r)[1..];
          assert Select(key, k, r'[1..]) == Select(key, k, r')[1..];
        }
      }
      StableSortUnique(key, r[1..], r'[1..]);
    } else if r' != [] {
      HeadKey(key, r', r);
    }
  }

  lemma {:induction false} SelectCounts<T>(key: T -> int, s: seq<T>, x: T)
    ensures multiset(Select(key, key(x), s))[x] == multiset(s)[x]
  {
    if s != [] {
      SelectCounts(key, s[1..], x);
      assert s == [s[0]] + s[1..];
    }
  }

  /** Sequences that agree key by key have the same elements. */
  lemma SelectsDecide<T>(key: T -> int, s: seq<T>, t: seq<T>)
    requires forall k :: Select(key, k, s) == Select(key, k, t)
    ensures multiset(s) == multiset(t)
  {
    forall x
      ensures multiset(s)[x] == multiset(t)[x]
    {
      SelectCounts(key, s, x);
      SelectCounts(key, t, x);
    }
  }

  lemma {:induction false} InsertAllAppend<T>(key: T -> int, s: seq<T>, xs: seq<T>, ys: seq<T>)
    ensures InsertAll(key, InsertAll(key, s, xs), ys) == InsertAll(key, s, xs + ys)
  {
    if ys == [] {
      assert xs + ys == xs;
    } else {
      InsertAllAppend(key, s, xs, ys[..|ys| - 1]);
      assert (xs + ys)[..|xs + ys| - 1] == xs + ys[..|ys| - 1];
    }
  }

  /** The elements for which a test holds, in order. */
  function Filter<T>(keep: T -> bool, s: seq<T>): seq<T> {
    if s == [] then []
    else if keep(s[0]) then [s[0]] + Filter(keep, s[1..])
    else Filter(keep, s[1..])
  }

  lemma {:induction false} FilterMembers<T>(keep: T -> bool, s: seq<T>)
    ensures forall x :: x in Filter(keep, s) ==> x in s && keep(x)
  {
    if s != [] { FilterMembers(keep, s[1..]); }
  }

  lemma {:induction false} FilterExactly<T>(keep: T -> bool, s: seq<T>, x: T)
    ensures x in Filter(keep, s) <==> x in s && keep(x)
  {
    if s != [] { FilterExactly(keep, s[1..], x); }
  }

  lemma {:induction false} FilterAppend<T>(keep: T -> bool, s: seq<T>, t: seq<T>)
    ensures Filter(keep, s + t) == Filter(keep, s) + Filter(keep, t)
  {
    if s == [] {
      assert s + t == t;
    } else {
      assert (s + t)[1..] == s[1..] + t;
      FilterAppend(keep, s[1..], t);
    }
  }

  lemma {:induction false} FilterSorted<T>(key: T -> int, keep: T -> bool, s: seq<T>)
    requires Sorted(key, s)
    ensures Sorted(key, Filter(keep, s))
  {
    if s != [] {
      FilterSorted(key, keep, s[1..]);
      FilterMembers(keep, s[1..]);
      SortedCons(key, s[0], Filter(keep, s[1..]));
    }
  }
}
