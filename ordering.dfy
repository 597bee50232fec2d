/** The comparators of the canonicaliser and the sort they drive.
    `sort_by_property_list` orders two keys by their position in a priority
    list; Ruby's `sort`/`sort!` is modelled by an insertion sort, which gives
    the same result as any other sorting algorithm whenever the comparator is
    a strict total order (proved below). */
module Ordering {
  import opened Text

  /** Ruby's `Integer#<=>`. */
  function CompareInt(a: int, b: int): (r: int)
    ensures r == 0 <==> a == b
    ensures r < 0 <==> a < b
    ensures r > 0 <==> a > b
  {
    if a < b then -1 else if a > b then 1 else 0
  }

  /** Ruby's `Array#index`: the first position of `x`, or `|list|` when absent. */
  function IndexOf<K(==)>(list: seq<K>, x: K): (i: nat)
    ensures i <= |list|
    ensures i < |list| <==> x in list
    ensures i < |list| ==> list[i] == x
    ensures forall j | 0 <= j < i :: list[j] != x
  {
    if list == [] then 0
    else if list[0] == x then 0
    else 1 + IndexOf(list[1..], x)
  }

  /** `sort_by_property_list(list, a, b, tiebreaker)`. */
  function SortByPropertyList<K(==)>(list: seq<K>, a: K, b: K, tiebreaker: int): int {
    if a in list && b in list then
      if IndexOf(list, a) != IndexOf(list, b) then CompareInt(IndexOf(list, a), IndexOf(list, b))
      else tiebreaker
    else if a in list then -1
    else if b in list then 1
    else tiebreaker
  }

  /** The position a key sorts at: its list index, or after every listed key. */
  function Rank<K(==)>(list: seq<K>, x: K): (r: nat)
    ensures r <= |list|
    ensures r < |list| <==> x in list
  {
    IndexOf(list, x)
  }

  /** `sort_by_property_list` is the lexicographic order on (rank, tiebreaker):
      a listed key sorts before an unlisted one, listed keys follow the list,
      and equal ranks (both unlisted, or the same listed key) fall back to the
      tiebreaker. */
  lemma SortByPropertyListIsRankOrder<K>(list: seq<K>, a: K, b: K, tiebreaker: int)
    ensures SortByPropertyList(list, a, b, tiebreaker) ==
      if Rank(list, a) != Rank(list, b) then CompareInt(Rank(list, a), Rank(list, b)) else tiebreaker
    ensures a in list && b !in list ==> SortByPropertyList(list, a, b, tiebreaker) == -1
    ensures a !in list && b in list ==> SortByPropertyList(list, a, b, tiebreaker) == 1
  {
    if a in list && b in list && IndexOf(list, a) == IndexOf(list, b) {
      assert a == b;
    }
  }

  // ---------------------------------------------------------------------
  // Sorting

  /** Every element compares at most equal to every later one. */
  ghost predicate Sorted<T>(cmp: (T, T) -> int, s: seq<T>) {
    forall i, j | 0 <= i < j < |s| :: cmp(s[i], s[j]) <= 0
  }

  /** Any two elements compare one way or the other, and "compares at most
      equal" is transitive. */
  ghost predicate TotalPreorder<T(!new)>(cmp: (T, T) -> int) {
    && (forall a: T, b: T :: cmp(a, b) > 0 ==> cmp(b, a) <= 0)
    && (forall a: T, b: T, c: T :: cmp(a, b) <= 0 && cmp(b, c) <= 0 ==> cmp(a, c) <= 0)
  }

  /** Only equal elements compare at most equal both ways round. */
  ghost predicate Antisymmetric<T(!new)>(cmp: (T, T) -> int) {
    forall a: T, b: T :: cmp(a, b) <= 0 && cmp(b, a) <= 0 ==> a == b
  }

  /** A total preorder in which only equal elements compare both ways round. */
  ghost predicate StrictTotal<T(!new)>(cmp: (T, T) -> int) {
    TotalPreorder(cmp) && Antisymmetric(cmp)
  }

  /** Insert `x` into `s`, scanning from the back and stopping after the first
      element that does not compare above `x`. */
  function Insert<T>(cmp: (T, T) -> int, x: T, s: seq<T>): (r: seq<T>)
    ensures |r| == |s| + 1
  {
    if s == [] || cmp(s[|s| - 1], x) <= 0 then s + [x]
    else Insert(cmp, x, s[..|s| - 1]) + [s[|s| - 1]]
  }

  /** The sorted re-ordering of `s` (Ruby's `sort` with a block). */
  function SortBy<T>(cmp: (T, T) -> int, s: seq<T>): (r: seq<T>)
    ensures |r| == |s|
  {
    if s == [] then [] else Insert(cmp, s[|s| - 1], SortBy(cmp, s[..|s| - 1]))
  }

  /** Inserting adds exactly the inserted element. */
  lemma {:induction false} InsertPermutes<T>(cmp: (T, T) -> int, x: T, s: seq<T>)
    ensures multiset(Insert(cmp, x, s)) == multiset(s) + multiset{x}
  {
    if s != [] && cmp(s[|s| - 1], x) > 0 {
      var init := s[..|s| - 1];
      InsertPermutes(cmp, x, init);
      assert s == init + [s[|s| - 1]];
    }
  }

  /** The sort is a permutation of its input. */
  lemma {:induction false} SortByPermutes<T>(cmp: (T, T) -> int, s: seq<T>)
    ensures multiset(SortBy(cmp, s)) == multiset(s)
  {
    if s != [] {
      var init := s[..|s| - 1];
      SortByPermutes(cmp, init);
      InsertPermutes(cmp, s[|s| - 1], SortBy(cmp, init));
      assert s == init + [s[|s| - 1]];
    }
  }

  /** Every element of a sorted sequence compares at most equal to its last. */
  lemma AtMostLast<T>(cmp: (T, T) -> int, s: seq<T>, y: T)
    requires Sorted(cmp, s) && y in multiset(s) && y != s[|s| - 1]
    ensures cmp(y, s[|s| - 1]) <= 0
  {
  }

  /** On the elements `ok` admits, any two compare one way or the other and
      "compares at most equal" is transitive. */
  ghost predicate TotalPreorderOn<T(!new)>(cmp: (T, T) -> int, ok: T -> bool) {
    && (forall a: T, b: T | ok(a) && ok(b) :: cmp(a, b) > 0 ==> cmp(b, a) <= 0)
    && (forall a: T, b: T, c: T | ok(a) && ok(b) && ok(c) :: cmp(a, b) <= 0 && cmp(b, c) <= 0 ==> cmp(a, c) <= 0)
  }

  /** On the elements `ok` admits, swapping the arguments negates the
      comparison and "compares at most equal" is transitive: the shape of
      every `<=>`-style comparator of the canonicaliser. */
  ghost predicate SignedPreorderOn<T(!new)>(cmp: (T, T) -> int, ok: T -> bool) {
    && (forall a: T, b: T | ok(a) && ok(b) :: cmp(b, a) == -cmp(a, b))
    && (forall a: T, b: T, c: T | ok(a) && ok(b) && ok(c) :: cmp(a, b) <= 0 && cmp(b, c) <= 0 ==> cmp(a, c) <= 0)
  }

  /** Every element of `s` is admitted by `ok`. */
  predicate AllAdmitted<T>(ok: T -> bool, s: seq<T>) {
    forall i | 0 <= i < |s| :: ok(s[i])
  }

  lemma SignedPreorderIsTotal<T(!new)>(cmp: (T, T) -> int, ok: T -> bool)
    requires SignedPreorderOn(cmp, ok)
    ensures TotalPreorderOn(cmp, ok)
  {
  }

  /** A signed preorder is strict where one step is strict, and ties chain. */
  lemma SignedStrict<T(!new)>(cmp: (T, T) -> int, ok: T -> bool, a: T, b: T, c: T)
    requires SignedPreorderOn(cmp, ok) && ok(a) && ok(b) && ok(c)
    ensures cmp(a, b) < 0 && cmp(b, c) <= 0 ==> cmp(a, c) < 0
    ensures cmp(a, b) <= 0 && cmp(b, c) < 0 ==> cmp(a, c) < 0
    ensures cmp(a, b) == 0 && cmp(b, c) == 0 ==> cmp(a, c) == 0
  {
    assert cmp(b, a) == -cmp(a, b) && cmp(c, b) == -cmp(b, c) && cmp(c, a) == -cmp(a, c);
    assert cmp(c, a) <= 0 && cmp(a, b) <= 0 ==> cmp(c, b) <= 0;
    assert cmp(b, c) <= 0 && cmp(c, a) <= 0 ==> cmp(b, a) <= 0;
  }

  /** A permutation of admitted elements is admitted. */
  lemma AdmittedPermutation<T>(ok: T -> bool, s: seq<T>, t: seq<T>)
    requires AllAdmitted(ok, s) && multiset(t) == multiset(s)
    ensures AllAdmitted(ok, t)
  {
    forall i | 0 <= i < |t| ensures ok(t[i]) {
      assert t[i] in multiset(s);
    }
  }

  lemma AppendSorted<T(!new)>(cmp: (T, T) -> int, ok: T -> bool, x: T, s: seq<T>)
    requires TotalPreorderOn(cmp, ok) && AllAdmitted(ok, s) && ok(x) && Sorted(cmp, s)
    requires s == [] || cmp(s[|s| - 1], x) <= 0
    ensures Sorted(cmp, s + [x])
  {
    forall i | 0 <= i < |s|
      ensures cmp(s[i], x) <= 0
    {
      if i < |s| - 1 {
        assert cmp(s[i], s[|s| - 1]) <= 0;
      }
    }
  }

  lemma {:induction false} InsertSorted<T(!new)>(cmp: (T, T) -> int, ok: T -> bool, x: T, s: seq<T>)
    requires TotalPreorderOn(cmp, ok) && AllAdmitted(ok, s) && ok(x) && Sorted(cmp, s)
    ensures Sorted(cmp, Insert(cmp, x, s))
  {
    if s != [] && cmp(s[|s| - 1], x) > 0 {
      var init, last := s[..|s| - 1], s[|s| - 1];
      assert Sorted(cmp, init);
      assert AllAdmitted(ok, init) by {
        forall i | 0 <= i < |init| ensures ok(init[i]) {
          assert init[i] == s[i];
        }
      }
      InsertSorted(cmp, ok, x, init);
      var r := Insert(cmp, x, init);
      assert forall i | 0 <= i < |r| :: cmp(r[i], last) <= 0 by {
        InsertPermutes(cmp, x, init);
        forall i | 0 <= i < |r|
          ensures cmp(r[i], last) <= 0
        {
          assert r[i] in multiset(init) + multiset{x};
          if r[i] != x {
            var k :| 0 <= k < |init| && init[k] == r[i];
            assert s[k] == r[i];
          } else {
            assert ok(last);
          }
        }
      }
    } else {
      AppendSorted(cmp, ok, x, s);
    }
  }

  /** The output of the sort is in comparator order, provided the comparator
      is a total preorder on the elements sorted. */
  lemma {:induction false} SortBySortedOn<T(!new)>(cmp: (T, T) -> int, ok: T -> bool, s: seq<T>)
    requires TotalPreorderOn(cmp, ok) && AllAdmitted(ok, s)
    ensures Sorted(cmp, SortBy(cmp, s))
  {
    if s != [] {
      var init := s[..|s| - 1];
      assert AllAdmitted(ok, init) by {
        forall i | 0 <= i < |init| ensures ok(init[i]) {
          assert init[i] == s[i];
        }
      }
      SortBySortedOn(cmp, ok, init);
      SortByPermutes(cmp, init);
      AdmittedPermutation(ok, init, SortBy(cmp, init));
      InsertSorted(cmp, ok, s[|s| - 1], SortBy(cmp, init));
    }
  }

  /** The output of the sort is in comparator order. */
  lemma SortBySorted<T(!new)>(cmp: (T, T) -> int, s: seq<T>)
    requires TotalPreorder(cmp)
    ensures Sorted(cmp, SortBy(cmp, s))
  {
    var any := (x: T) => true;
    SortBySortedOn(cmp, any, s);
  }

  /** Sorting an already sorted sequence changes nothing. */
  lemma {:induction false} SortByOfSorted<T>(cmp: (T, T) -> int, s: seq<T>)
    requires Sorted(cmp, s)
    ensures SortBy(cmp, s) == s
  {
    if s != [] {
      var init, x := s[..|s| - 1], s[|s| - 1];
      assert Sorted(cmp, init);
      SortByOfSorted(cmp, init);
      assert init == [] || cmp(init[|init| - 1], x) <= 0 by {
        if init != [] {
          assert init[|init| - 1] == s[|s| - 2];
        }
      }
      assert SortBy(cmp, s) == Insert(cmp, x, init) == init + [x];
      assert s == init + [x];
    }
  }

  /** Sorting twice is sorting once. */
  lemma SortByIdempotent<T(!new)>(cmp: (T, T) -> int, s: seq<T>)
    requires TotalPreorder(cmp)
    ensures SortBy(cmp, SortBy(cmp, s)) == SortBy(cmp, s)
  {
    SortBySorted(cmp, s);
    SortByOfSorted(cmp, SortBy(cmp, s));
  }

  lemma MultisetDropLast<T>(s: seq<T>)
    requires s != []
    ensures multiset(s[..|s| - 1]) == multiset(s) - multiset{s[|s| - 1]}
  {
    assert s == s[..|s| - 1] + [s[|s| - 1]];
  }

  /** Two sorted arrangements of one multiset end with the same element. */
  lemma SameLast<T(!new)>(cmp: (T, T) -> int, s: seq<T>, t: seq<T>)
    requires Antisymmetric(cmp)
    requires Sorted(cmp, s) && Sorted(cmp, t) && multiset(s) == multiset(t) && s != []
    ensures t != [] && s[|s| - 1] == t[|t| - 1]
  {
    var a := s[|s| - 1];
    assert a in multiset(t);
    var b := t[|t| - 1];
    if a != b {
      AtMostLast(cmp, s, b);
      AtMostLast(cmp, t, a);
    }
  }

  /** Dropping the common last element of two sorted arrangements of one
      multiset leaves two sorted arrangements of one multiset. */
  lemma DropLastOfBoth<T(!new)>(cmp: (T, T) -> int, s: seq<T>, t: seq<T>)
    requires Antisymmetric(cmp)
    requires Sorted(cmp, s) && Sorted(cmp, t) && multiset(s) == multiset(t) && s != []
    ensures t != [] && s[|s| - 1] == t[|t| - 1]
    ensures Sorted(cmp, s[..|s| - 1]) && Sorted(cmp, t[..|t| - 1])
    ensures multiset(s[..|s| - 1]) == multiset(t[..|t| - 1])
  {
    SameLast(cmp, s, t);
    MultisetDropLast(s);
    MultisetDropLast(t);
  }

  /** Under a strict total order there is exactly one sorted arrangement of a
      multiset, so any sorting algorithm (Ruby's included) produces the
      insertion sort's result. */
  lemma {:induction false} SortedArrangementUnique<T(!new)>(cmp: (T, T) -> int, s: seq<T>, t: seq<T>)
    requires Antisymmetric(cmp)
    requires Sorted(cmp, s) && Sorted(cmp, t) && multiset(s) == multiset(t)
    ensures s == t
    decreases |s|
  {
    if s == [] {
      assert |t| == |multiset(t)| == 0;
    } else {
      DropLastOfBoth(cmp, s, t);
      SortedArrangementUnique(cmp, s[..|s| - 1], t[..|t| - 1]);
      assert s == s[..|s| - 1] + [s[|s| - 1]];
      assert t == t[..|t| - 1] + [t[|t| - 1]];
    }
  }

  /** The sort's output is the only sorted permutation of its input. */
  lemma SortByUnique<T(!new)>(cmp: (T, T) -> int, s: seq<T>, t: seq<T>)
    requires StrictTotal(cmp)
    requires Sorted(cmp, t) && multiset(t) == multiset(s)
    ensures t == SortBy(cmp, s)
  {
    SortBySorted(cmp, s);
    SortByPermutes(cmp, s);
    SortedArrangementUnique(cmp, SortBy(cmp, s), t);
  }

  // ---------------------------------------------------------------------
  // Lexicographic comparison

  /** Walk two sequences side by side and let the first pair that `cmp`
      tells apart decide; 0 when the shorter runs out first. */
  function LexCompare<T>(cmp: (T, T) -> int, xs: seq<T>, ys: seq<T>): (r: int)
  {
    if xs == [] || ys == [] then 0
    else if cmp(xs[0], ys[0]) != 0 then cmp(xs[0], ys[0])
    else LexCompare(cmp, xs[1..], ys[1..])
  }

  lemma AdmittedTail<T>(ok: T -> bool, s: seq<T>)
    requires s != [] && AllAdmitted(ok, s)
    ensures ok(s[0]) && AllAdmitted(ok, s[1..])
  {
    forall i | 0 <= i < |s| - 1 ensures ok(s[1..][i]) {
      assert s[1..][i] == s[i + 1];
    }
  }

  /** Swapping the sequences negates the walk. */
  lemma {:induction false} LexFlip<T(!new)>(cmp: (T, T) -> int, ok: T -> bool, xs: seq<T>, ys: seq<T>)
    requires SignedPreorderOn(cmp, ok) && AllAdmitted(ok, xs) && AllAdmitted(ok, ys)
    ensures LexCompare(cmp, ys, xs) == -LexCompare(cmp, xs, ys)
  {
    if xs != [] && ys != [] {
      AdmittedTail(ok, xs);
      AdmittedTail(ok, ys);
      LexFlip(cmp, ok, xs[1..], ys[1..]);
    }
  }

  /** On sequences of one length, the walk is transitive. */
  lemma {:induction false} LexTransitive<T(!new)>(cmp: (T, T) -> int, ok: T -> bool, xs: seq<T>, ys: seq<T>, zs: seq<T>)
    requires SignedPreorderOn(cmp, ok)
    requires AllAdmitted(ok, xs) && AllAdmitted(ok, ys) && AllAdmitted(ok, zs)
    requires |xs| == |ys| == |zs|
    ensures LexCompare(cmp, xs, ys) <= 0 && LexCompare(cmp, ys, zs) <= 0 ==> LexCompare(cmp, xs, zs) <= 0
  {
    if xs != [] {
      AdmittedTail(ok, xs);
      AdmittedTail(ok, ys);
      AdmittedTail(ok, zs);
      SignedStrict(cmp, ok, xs[0], ys[0], zs[0]);
      LexTransitive(cmp, ok, xs[1..], ys[1..], zs[1..]);
    }
  }

  // ---------------------------------------------------------------------
  // The comparators of the canonicaliser are strict total orders

  /** Ruby's `String#<=>` is a strict total order. */
  lemma StringOrderStrictTotal()
    ensures StrictTotal(Compare)
  {
    forall a: string, b: string, c: string | Compare(a, b) <= 0 && Compare(b, c) <= 0
      ensures Compare(a, c) <= 0
    {
      if Compare(a, b) < 0 && Compare(b, c) < 0 {
        CompareTransitive(a, b, c);
      }
    }
    forall a: string, b: string ensures Compare(b, a) == -Compare(a, b) {
      CompareAntisymmetric(a, b);
    }
  }

  /** The comparator of a property sort: priority-list rank of each line's key,
      then the whole line. */
  function RankedCompare<K(==)>(list: seq<K>, key: string -> K, a: string, b: string): int {
    SortByPropertyList(list, key(a), key(b), Compare(a, b))
  }

  /** Ranking lines by a priority list and breaking ties by the whole line is
      a strict total order, whatever the key function. */
  lemma RankedCompareStrictTotal<K>(list: seq<K>, key: string -> K)
    ensures StrictTotal((a, b) => RankedCompare(list, key, a, b))
  {
    var cmp := (a, b) => RankedCompare(list, key, a, b);
    StringOrderStrictTotal();
    forall a: string, b: string
      ensures cmp(a, b) == if Rank(list, key(a)) != Rank(list, key(b))
        then CompareInt(Rank(list, key(a)), Rank(list, key(b))) else Compare(a, b)
    {
      SortByPropertyListIsRankOrder(list, key(a), key(b), Compare(a, b));
    }
  }

  /** In a sequence sorted by `RankedCompare`, ranks never decrease: every line
      with a listed key precedes every line with an unlisted key, and listed
      keys appear in list order. */
  lemma RankedSortedRanks<K>(list: seq<K>, key: string -> K, s: seq<string>, i: nat, j: nat)
    requires Sorted((a, b) => RankedCompare(list, key, a, b), s)
    requires i <= j < |s|
    ensures Rank(list, key(s[i])) <= Rank(list, key(s[j]))
    ensures key(s[i]) !in list ==> key(s[j]) !in list
  {
    var cmp := (a, b) => RankedCompare(list, key, a, b);
    RankedCompareStrictTotal(list, key);
    SortByPropertyListIsRankOrder(list, key(s[i]), key(s[j]), Compare(s[i], s[j]));
  }

  /** The lines of a sequence of blocks, each printed by `f`, in order. */
  function FlatMap<T, W>(s: seq<T>, f: T -> seq<W>): seq<W> {
    if s == [] then [] else FlatMap(s[..|s| - 1], f) + f(s[|s| - 1])
  }

  lemma {:induction false} FlatMapInsert<T, W>(cmp: (T, T) -> int, x: T, s: seq<T>, f: T -> seq<W>)
    ensures multiset(FlatMap(Insert(cmp, x, s), f)) == multiset(FlatMap(s, f)) + multiset(f(x))
  {
    if s != [] && cmp(s[|s| - 1], x) > 0 {
      var init := s[..|s| - 1];
      FlatMapInsert(cmp, x, init, f);
      var r := Insert(cmp, x, init) + [s[|s| - 1]];
      assert r[..|r| - 1] == Insert(cmp, x, init);
    } else {
      assert (s + [x])[..|s|] == s;
    }
  }

  /** Sorting blocks only re-orders the lines they print. */
  lemma {:induction false} FlatMapSortBy<T, W>(cmp: (T, T) -> int, s: seq<T>, f: T -> seq<W>)
    ensures multiset(FlatMap(SortBy(cmp, s), f)) == multiset(FlatMap(s, f))
  {
    if s != [] {
      FlatMapSortBy(cmp, s[..|s| - 1], f);
      FlatMapInsert(cmp, s[|s| - 1], SortBy(cmp, s[..|s| - 1]), f);
    }
  }
}
