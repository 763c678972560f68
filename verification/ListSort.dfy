/**
 The merge sort of linked_list.c as a function on sequences, and what it promises for any
 strict weak order.
 */
module ListSort {
  import opened Common

  // ----- the order -----

  /** What the comparison must be on the elements at hand: "less" is transitive, and so is "not less". */
  ghost predicate StrictWeakOrder<N>(less: (N, N) -> bool, dom: set<N>) {
    && (forall x :: x in dom ==> !less(x, x))
    && (forall x, y, z :: x in dom && y in dom && z in dom && less(x, y) && less(y, z) ==> less(x, z))
    && (forall x, y, z :: x in dom && y in dom && z in dom && !less(x, y) && !less(y, z) ==> !less(x, z))
  }

  ghost predicate Within<N>(s: seq<N>, dom: set<N>) {
    forall x :: x in s ==> x in dom
  }

  /** Neither element precedes the other: the comparison calls them equal. */
  predicate Tied<N>(less: (N, N) -> bool, x: N, y: N) {
    !less(x, y) && !less(y, x)
  }

  ghost predicate Sorted<N>(less: (N, N) -> bool, s: seq<N>) {
    forall i, j :: 0 <= i < j < |s| ==> !less(s[j], s[i])
  }

  // ----- the function -----

  /** merge: the first list's head goes first only if it is strictly less. */
  function Merge<N>(less: (N, N) -> bool, a: seq<N>, b: seq<N>): (r: seq<N>)
    ensures |r| == |a| + |b|
    decreases |a| + |b|
  {
    if |a| == 0 then b
    else if |b| == 0 then a
    else if less(a[0], b[0]) then [a[0]] + Merge(less, a[1..], b)
    else [b[0]] + Merge(less, a, b[1..])
  }

  /** merge_sort: split after the first (n + 1) / 2 elements, sort both, merge. */
  function Sort<N>(less: (N, N) -> bool, s: seq<N>): (r: seq<N>)
    ensures |r| == |s|
    decreases |s|
  {
    if |s| <= 1 then s
    else
      var k := (|s| + 1) / 2;
      Merge(less, Sort(less, s[..k]), Sort(less, s[k..]))
  }

  // ----- permutation -----

  lemma ConsMultiset<N>(x: N, s: seq<N>)
    ensures multiset([x] + s) == multiset{x} + multiset(s)
  {
  }

  lemma HeadTail<N>(s: seq<N>)
    requires |s| > 0
    ensures multiset(s) == multiset{s[0]} + multiset(s[1..])
  {
    assert s == [s[0]] + s[1..];
  }

  lemma {:induction false} MergePermutes<N>(less: (N, N) -> bool, a: seq<N>, b: seq<N>)
    ensures multiset(Merge(less, a, b)) == multiset(a) + multiset(b)
    decreases |a| + |b|
  {
    if |a| > 0 && |b| > 0 {
      if less(a[0], b[0]) {
        assert Merge(less, a, b) == [a[0]] + Merge(less, a[1..], b);
        hide *;
        MergePermutes(less, a[1..], b);
        ConsMultiset(a[0], Merge(less, a[1..], b));
        HeadTail(a);
      } else {
        assert Merge(less, a, b) == [b[0]] + Merge(less, a, b[1..]);
        hide *;
        MergePermutes(less, a, b[1..]);
        ConsMultiset(b[0], Merge(less, a, b[1..]));
        HeadTail(b);
      }
    }
  }

  lemma SortUnfold<N>(less: (N, N) -> bool, s: seq<N>, k: nat)
    requires |s| > 1 && k == (|s| + 1) / 2
    ensures k < |s|
    ensures Sort(less, s) == Merge(less, Sort(less, s[..k]), Sort(less, s[k..]))
    ensures s[..k] + s[k..] == s
  {
    hide Merge;
  }

  lemma {:induction false} SortPermutes<N>(less: (N, N) -> bool, s: seq<N>)
    ensures multiset(Sort(less, s)) == multiset(s)
    decreases |s|
  {
    if |s| > 1 {
      hide *;
      var k := (|s| + 1) / 2;
      SortUnfold(less, s, k);
      SortPermutes(less, s[..k]);
      SortPermutes(less, s[k..]);
      MergePermutes(less, Sort(less, s[..k]), Sort(less, s[k..]));
      assert multiset(s[..k] + s[k..]) == multiset(s[..k]) + multiset(s[k..]);
    }
  }

  lemma SortSameMembers<N>(less: (N, N) -> bool, s: seq<N>, x: N)
    ensures x in Sort(less, s) <==> x in s
  {
    SortPermutes(less, s);
    assert x in Sort(less, s) <==> x in multiset(Sort(less, s));
    assert x in s <==> x in multiset(s);
  }

  lemma SortWithin<N>(less: (N, N) -> bool, dom: set<N>, s: seq<N>)
    requires Within(s, dom)
    ensures Within(Sort(less, s), dom)
  {
    forall x | x in Sort(less, s)
      ensures x in dom
    {
      SortSameMembers(less, s, x);
    }
  }

  lemma WithinParts<N>(s: seq<N>, k: nat, dom: set<N>)
    requires k <= |s| && Within(s, dom)
    ensures Within(s[..k], dom) && Within(s[k..], dom)
  {
  }

  // ----- sortedness -----

  lemma MergeMembers<N>(less: (N, N) -> bool, a: seq<N>, b: seq<N>, x: N)
    ensures x in Merge(less, a, b) <==> x in a || x in b
  {
    MergePermutes(less, a, b);
    assert x in Merge(less, a, b) <==> x in multiset(Merge(less, a, b));
    assert x in a <==> x in multiset(a);
    assert x in b <==> x in multiset(b);
  }

  lemma SortedCons<N>(less: (N, N) -> bool, x: N, s: seq<N>)
    requires Sorted(less, s) && forall y :: y in s ==> !less(y, x)
    ensures Sorted(less, [x] + s)
  {
    var t := [x] + s;
    forall i, j | 0 <= i < j < |t|
      ensures !less(t[j], t[i])
    {
      assert t[j] == s[j - 1];
      if i > 0 {
        assert t[i] == s[i - 1];
      }
    }
  }

  lemma {:induction false} MergeSorted<N>(less: (N, N) -> bool, dom: set<N>, a: seq<N>, b: seq<N>)
    requires StrictWeakOrder(less, dom) && Within(a, dom) && Within(b, dom)
    requires Sorted(less, a) && Sorted(less, b)
    ensures Sorted(less, Merge(less, a, b))
    decreases |a| + |b|
  {
    if |a| > 0 && |b| > 0 {
      if less(a[0], b[0]) {
        MergeSorted(less, dom, a[1..], b);
        forall y | y in Merge(less, a[1..], b)
          ensures !less(y, a[0])
        {
          MergeMembers(less, a[1..], b, y);
        }
        SortedCons(less, a[0], Merge(less, a[1..], b));
      } else {
        MergeSorted(less, dom, a, b[1..]);
        forall y | y in Merge(less, a, b[1..])
          ensures !less(y, b[0])
        {
          MergeMembers(less, a, b[1..], y);
        }
        SortedCons(less, b[0], Merge(less, a, b[1..]));
      }
    }
  }

  lemma {:induction false} SortSorts<N>(less: (N, N) -> bool, dom: set<N>, s: seq<N>)
    requires StrictWeakOrder(less, dom) && Within(s, dom)
    ensures Sorted(less, Sort(less, s))
    decreases |s|
  {
    if |s| > 1 {
      var k := (|s| + 1) / 2;
      SortSorts(less, dom, s[..k]);
      SortSorts(less, dom, s[k..]);
      SortWithin(less, dom, s[..k]);
      SortWithin(less, dom, s[k..]);
      MergeSorted(less, dom, Sort(less, s[..k]), Sort(less, s[k..]));
    }
  }

  // ----- ties come out reversed -----

  /** The elements tied with x, in order. */
  ghost function Ties<N>(less: (N, N) -> bool, s: seq<N>, x: N): seq<N> {
    if |s| == 0 then []
    else if Tied(less, s[0], x) then [s[0]] + Ties(less, s[1..], x)
    else Ties(less, s[1..], x)
  }

  ghost function Reverse<N>(s: seq<N>): seq<N> {
    if |s| == 0 then [] else Reverse(s[1..]) + [s[0]]
  }

  lemma {:induction false} TiesConcat<N>(less: (N, N) -> bool, s: seq<N>, t: seq<N>, x: N)
    ensures Ties(less, s + t, x) == Ties(less, s, x) + Ties(less, t, x)
    decreases |s|
  {
    if |s| == 0 {
      assert s + t == t;
    } else {
      assert (s + t)[1..] == s[1..] + t;
      TiesConcat(less, s[1..], t, x);
    }
  }

  lemma {:induction false} ReverseConcat<N>(s: seq<N>, t: seq<N>)
    ensures Reverse(s + t) == Reverse(t) + Reverse(s)
    decreases |s|
  {
    if |s| == 0 {
      assert s + t == t;
    } else {
      assert (s + t)[1..] == s[1..] + t;
      ReverseConcat(s[1..], t);
    }
  }

  lemma {:induction false} NoTies<N>(less: (N, N) -> bool, s: seq<N>, x: N)
    requires forall y :: y in s ==> !Tied(less, y, x)
    ensures Ties(less, s, x) == []
    decreases |s|
  {
    if |s| > 0 {
      NoTies(less, s[1..], x);
    }
  }

  /** Merging puts the ties of the second list before those of the first. */
  lemma {:induction false} MergeTies<N>(less: (N, N) -> bool, dom: set<N>, a: seq<N>, b: seq<N>, x: N)
    requires StrictWeakOrder(less, dom) && Within(a, dom) && Within(b, dom) && x in dom
    requires Sorted(less, a) && Sorted(less, b)
    ensures Ties(less, Merge(less, a, b), x) == Ties(less, b, x) + Ties(less, a, x)
    decreases |a| + |b|
  {
    if |a| > 0 && |b| > 0 {
      if less(a[0], b[0]) {
        var m := Merge(less, a[1..], b);
        MergeTies(less, dom, a[1..], b, x);
        assert ([a[0]] + m)[1..] == m;
        if Tied(less, a[0], x) {
          forall y | y in b
            ensures !Tied(less, y, x)
          {
            assert less(a[0], y);
          }
          NoTies(less, b, x);
        }
      } else {
        var m := Merge(less, a, b[1..]);
        MergeTies(less, dom, a, b[1..], x);
        assert ([b[0]] + m)[1..] == m;
      }
    }
  }

  /** list_sort is not stable: equal elements come out in exactly the reverse of their input order. */
  lemma {:induction false} SortReversesTies<N>(less: (N, N) -> bool, dom: set<N>, s: seq<N>, x: N)
    requires StrictWeakOrder(less, dom) && Within(s, dom) && x in dom
    ensures Ties(less, Sort(less, s), x) == Reverse(Ties(less, s, x))
    decreases |s|
  {
    if |s| > 1 {
      hide *;
      var k := (|s| + 1) / 2;
      SortUnfold(less, s, k);
      var a, b := s[..k], s[k..];
      WithinParts(s, k, dom);
      SortReversesTies(less, dom, a, x);
      SortReversesTies(less, dom, b, x);
      SortSorts(less, dom, a);
      SortSorts(less, dom, b);
      SortWithin(less, dom, a);
      SortWithin(less, dom, b);
      MergeTies(less, dom, Sort(less, a), Sort(less, b), x);
      TiesConcat(less, a, b, x);
      ReverseConcat(Ties(less, a, x), Ties(less, b, x));
    } else if |s| == 1 {
      assert s[1..] == [];
    }
  }

  // ----- when the last element stays last -----

  lemma {:induction false} TiesMembers<N>(less: (N, N) -> bool, s: seq<N>, x: N, y: N)
    ensures y in Ties(less, s, x) <==> y in s && Tied(less, y, x)
    decreases |s|
  {
    if |s| > 0 {
      TiesMembers(less, s[1..], x, y);
      assert y in s <==> y == s[0] || y in s[1..];
    }
  }

  lemma {:induction false} TiesDistinct<N>(less: (N, N) -> bool, s: seq<N>, x: N)
    requires Distinct(s)
    ensures Distinct(Ties(less, s, x))
    decreases |s|
  {
    if |s| > 0 {
      TiesDistinct(less, s[1..], x);
      TiesMembers(less, s[1..], x, s[0]);
    }
  }

  lemma TiesLast<N>(less: (N, N) -> bool, s: seq<N>, x: N)
    requires |s| > 0 && Tied(less, s[|s| - 1], x)
    ensures var t := Ties(less, s, x); |t| > 0 && t[|t| - 1] == s[|s| - 1]
  {
    var n := |s| - 1;
    assert s == s[..n] + [s[n]];
    TiesConcat(less, s[..n], [s[n]], x);
    assert [s[n]][1..] == [];
    assert Ties(less, [s[n]], x) == [s[n]];
  }

  lemma LargestEndsLast<N>(less: (N, N) -> bool, dom: set<N>, s: seq<N>)
    requires StrictWeakOrder(less, dom) && Within(s, dom) && |s| > 0
    requires forall i :: 0 <= i < |s| - 1 ==> less(s[i], s[|s| - 1])
    ensures Sort(less, s)[|s| - 1] == s[|s| - 1]
  {
    hide *;
    var n, r := |s| - 1, Sort(less, s);
    SortSorts(less, dom, s);
    SortSameMembers(less, s, r[n]);
    SortSameMembers(less, s, s[n]);
    var j :| 0 <= j < |r| && r[j] == s[n];
    var k :| 0 <= k < |s| && s[k] == r[n];
    NotLessThanEarlier(less, r, j);
    assert k < n ==> less(s[k], s[n]);
  }

  lemma NotLessThanEarlier<N>(less: (N, N) -> bool, r: seq<N>, j: nat)
    requires Sorted(less, r) && j < |r|
    ensures j < |r| - 1 ==> !less(r[|r| - 1], r[j])
  {
  }

  lemma LastIsLargest<N>(less: (N, N) -> bool, dom: set<N>, s: seq<N>, i: nat)
    requires StrictWeakOrder(less, dom) && Within(s, dom) && Distinct(s) && i < |s| - 1
    requires Sort(less, s)[|s| - 1] == s[|s| - 1]
    ensures less(s[i], s[|s| - 1])
  {
    hide Sort, StrictWeakOrder, Within, Distinct, Sorted;
    var n, r := |s| - 1, Sort(less, s);
    SortSorts(less, dom, s);
    SortSameMembers(less, s, s[i]);
    var j :| 0 <= j < |r| && r[j] == s[i];
    NotLessThanEarlier(less, r, j);
    assert s[i] != s[n] by {
      DistinctAt(s, i, n);
    }
    if !less(s[i], s[n]) {
      TieWithLast(less, dom, s, i);
    }
  }

  lemma DistinctAt<N>(s: seq<N>, i: nat, j: nat)
    requires Distinct(s) && i < j < |s|
    ensures s[i] != s[j]
  {
  }

  /** A tie with the last element is put after it. */
  lemma TieWithLast<N>(less: (N, N) -> bool, dom: set<N>, s: seq<N>, i: nat)
    requires StrictWeakOrder(less, dom) && Within(s, dom) && Distinct(s) && i < |s| - 1
    requires Tied(less, s[i], s[|s| - 1])
    ensures Sort(less, s)[|s| - 1] != s[|s| - 1]
  {
    var n, m, r := |s| - 1, s[|s| - 1], Sort(less, s);
    var t := Ties(less, s, m);
    SelfTied(less, dom, s, n);
    TiesLast(less, s, m);
    TiesMembers(less, s, m, s[i]);
    DistinctAt(s, i, n);
    TiesDistinct(less, s, m);
    assert t[0] != m by {
      var j :| 0 <= j < |t| && t[j] == s[i];
    }
    SortReversesTies(less, dom, s, m);
    ReverseLast(t);
    if r[n] == m {
      TiesLast(less, r, m);
    }
  }

  lemma SelfTied<N>(less: (N, N) -> bool, dom: set<N>, s: seq<N>, n: nat)
    requires StrictWeakOrder(less, dom) && Within(s, dom) && n < |s|
    ensures Tied(less, s[n], s[n]) && s[n] in dom
  {
  }

  lemma ReverseLast<N>(t: seq<N>)
    requires |t| > 0
    ensures |Reverse(t)| > 0 && Reverse(t)[|Reverse(t)| - 1] == t[0]
  {
  }

  /** The last element of the input ends last exactly when everything else is strictly less. */
  lemma LastStaysIff<N>(less: (N, N) -> bool, dom: set<N>, s: seq<N>)
    requires StrictWeakOrder(less, dom) && Within(s, dom) && Distinct(s) && |s| > 0
    ensures Sort(less, s)[|s| - 1] == s[|s| - 1] <==> forall i :: 0 <= i < |s| - 1 ==> less(s[i], s[|s| - 1])
  {
    hide Sort, StrictWeakOrder, Within, Distinct;
    if Sort(less, s)[|s| - 1] == s[|s| - 1] {
      forall i | 0 <= i < |s| - 1
        ensures less(s[i], s[|s| - 1])
      {
        LastIsLargest(less, dom, s, i);
      }
    }
    if forall i :: 0 <= i < |s| - 1 ==> less(s[i], s[|s| - 1]) {
      LargestEndsLast(less, dom, s);
    }
  }
}
