/** Descending ranking by a real key: the stable sort the program uses, and what a database's
    ORDER BY ... DESC LIMIT may return when it is free to break ties. */
module Ranking {

  datatype Keyed<T> = Keyed(key: real, item: T)

  predicate Descending<T>(s: seq<Keyed<T>>) {
    forall i, j :: 0 <= i < j < |s| ==> s[i].key >= s[j].key
  }

  function Take<T>(s: seq<T>, k: nat): seq<T> {
    if |s| <= k then s else s[..k]
  }

  function Keys<T>(s: seq<Keyed<T>>): (r: seq<real>)
    ensures |r| == |s| && forall i :: 0 <= i < |s| ==> r[i] == s[i].key
  {
    seq(|s|, i requires 0 <= i < |s| => s[i].key)
  }

  /** Number of elements not below `x`: where a stable descending insertion goes. */
  function Above<T>(s: seq<Keyed<T>>, x: real): (n: nat)
    ensures n <= |s|
    ensures forall i :: 0 <= i < n ==> s[i].key >= x
    ensures n < |s| ==> s[n].key < x
  {
    if s == [] || s[0].key < x then 0 else 1 + Above(s[1..], x)
  }

  function Insert<T>(s: seq<Keyed<T>>, x: Keyed<T>): seq<Keyed<T>> {
    var n := Above(s, x.key);
    s[..n] + [x] + s[n..]
  }

  /** `list.sort(reverse=True)`: descending, and stable. */
  function Sort<T>(s: seq<Keyed<T>>): (r: seq<Keyed<T>>)
    ensures |r| == |s|
  {
    if s == [] then [] else Insert(Sort(s[..|s| - 1]), s[|s| - 1])
  }

  lemma InsertKeepsOrder<T>(s: seq<Keyed<T>>, x: Keyed<T>)
    requires Descending(s)
    ensures Descending(Insert(s, x))
  {
    var n := Above(s, x.key);
    assert forall i :: n <= i < |s| ==> s[i].key < x.key;
  }

  lemma InsertAddsOne<T>(s: seq<Keyed<T>>, x: Keyed<T>)
    ensures multiset(Insert(s, x)) == multiset(s) + multiset{x}
  {
    var n := Above(s, x.key);
    assert s == s[..n] + s[n..];
  }

  lemma {:induction false} SortIsOrderedPermutation<T>(s: seq<Keyed<T>>)
    ensures Descending(Sort(s))
    ensures multiset(Sort(s)) == multiset(s)
  {
    if s != [] {
      var front, x := s[..|s| - 1], s[|s| - 1];
      SortIsOrderedPermutation(front);
      InsertKeepsOrder(Sort(front), x);
      InsertAddsOne(Sort(front), x);
      assert s == front + [x];
    }
  }

  /** The elements with this key, in order. */
  function WithKey<T>(s: seq<Keyed<T>>, x: real): seq<Keyed<T>> {
    if s == [] then [] else WithKey(s[..|s| - 1], x) + if s[|s| - 1].key == x then [s[|s| - 1]] else []
  }

  lemma {:induction false} WithKeyConcat<T>(a: seq<Keyed<T>>, b: seq<Keyed<T>>, x: real)
    ensures WithKey(a + b, x) == WithKey(a, x) + WithKey(b, x)
  {
    if b == [] {
      assert a + b == a;
    } else {
      WithKeyConcat(a, b[..|b| - 1], x);
      assert (a + b)[..|a + b| - 1] == a + b[..|b| - 1];
    }
  }

  lemma {:induction false} WithoutKey<T>(s: seq<Keyed<T>>, x: real)
    requires forall i :: 0 <= i < |s| ==> s[i].key != x
    ensures WithKey(s, x) == []
  {
    if s != [] {
      WithoutKey(s[..|s| - 1], x);
    }
  }

  lemma WithKeyOfThree<T>(a: seq<Keyed<T>>, b: seq<Keyed<T>>, c: seq<Keyed<T>>, x: real)
    ensures WithKey(a + b + c, x) == WithKey(a, x) + WithKey(b, x) + WithKey(c, x)
  {
    WithKeyConcat(a + b, c, x);
    WithKeyConcat(a, b, x);
  }

  /** An element may go before elements with other keys than its own. */
  lemma MovedForward<T>(a: seq<Keyed<T>>, b: seq<Keyed<T>>, e: Keyed<T>, x: real)
    requires forall i :: 0 <= i < |b| ==> b[i].key != e.key
    ensures WithKey(a + [e] + b, x) == WithKey(a + b + [e], x)
  {
    WithKeyOfThree(a, [e], b, x);
    WithKeyOfThree(a, b, [e], x);
    if e.key == x {
      WithoutKey(b, x);
    } else {
      WithoutKey([e], x);
    }
  }

  lemma InsertIsStable<T>(s: seq<Keyed<T>>, e: Keyed<T>, x: real)
    requires Descending(s)
    ensures WithKey(Insert(s, e), x) == WithKey(s + [e], x)
  {
    var n := Above(s, e.key);
    MovedForward(s[..n], s[n..], e, x);
    assert s == s[..n] + s[n..];
  }

  /** Elements with equal keys keep their order. */
  lemma {:induction false} SortIsStable<T>(s: seq<Keyed<T>>, x: real)
    ensures WithKey(Sort(s), x) == WithKey(s, x)
  {
    if s != [] {
      var front, e := s[..|s| - 1], s[|s| - 1];
      SortIsStable(front, x);
      SortIsOrderedPermutation(front);
      InsertIsStable(Sort(front), e, x);
      WithKeyConcat(Sort(front), [e], x);
      WithKeyConcat(front, [e], x);
      assert s == front + [e];
    }
  }

  lemma {:induction false} SortOfSorted<T>(s: seq<Keyed<T>>)
    requires Descending(s)
    ensures Sort(s) == s
  {
    if s != [] {
      var front, x := s[..|s| - 1], s[|s| - 1];
      SortOfSorted(front);
      assert Above(front, x.key) == |front|;
      assert s == front + [x];
    }
  }

  /** What `ORDER BY key DESC` may return: any descending arrangement of the rows. */
  ghost predicate IsOrderBy<T>(rows: seq<Keyed<T>>, answer: seq<Keyed<T>>) {
    multiset(answer) == multiset(rows) && Descending(answer)
  }

  predicate DescendingKeys(s: seq<real>) {
    forall i, j :: 0 <= i < j < |s| ==> s[i] >= s[j]
  }

  lemma HeadIsTop(s: seq<real>, x: real)
    requires DescendingKeys(s) && x in multiset(s)
    ensures s != [] && x <= s[0]
  {
    var i :| 0 <= i < |s| && s[i] == x;
  }

  lemma TailOf(s: seq<real>)
    requires s != []
    ensures multiset(s[1..]) == multiset(s) - multiset{s[0]}
    ensures DescendingKeys(s) ==> DescendingKeys(s[1..])
  {
    assert s == [s[0]] + s[1..];
  }

  lemma SameSize<T>(a: seq<T>, b: seq<T>)
    requires multiset(a) == multiset(b)
    ensures |a| == |b|
  {
    assert |multiset(a)| == |a| && |multiset(b)| == |b|;
  }

  lemma FromHeadAndTail<T>(a: seq<T>, b: seq<T>)
    requires a != [] && b != [] && a[0] == b[0] && a[1..] == b[1..]
    ensures a == b
  {
    assert a == [a[0]] + a[1..];
    assert b == [b[0]] + b[1..];
  }

  lemma FromFrontAndLast<T>(a: seq<T>, more: seq<T>)
    requires more != []
    ensures a + more == a + more[..|more| - 1] + [more[|more| - 1]]
  {
  }

  lemma HeadsAgree(a: seq<real>, b: seq<real>)
    requires DescendingKeys(a) && DescendingKeys(b) && multiset(a) == multiset(b) && a != []
    ensures b != [] && a[0] == b[0]
  {
    SameSize(a, b);
    assert a[0] in multiset(a) && b[0] in multiset(b);
    HeadIsTop(a, b[0]);
    HeadIsTop(b, a[0]);
  }

  /** A multiset of keys has one descending arrangement. */
  lemma {:induction false} ArrangementIsUnique(a: seq<real>, b: seq<real>)
    requires DescendingKeys(a) && DescendingKeys(b) && multiset(a) == multiset(b)
    ensures a == b
  {
    if a == [] {
      SameSize(a, b);
    } else {
      HeadsAgree(a, b);
      TailOf(a);
      TailOf(b);
      ArrangementIsUnique(a[1..], b[1..]);
      FromHeadAndTail(a, b);
    }
  }

  lemma KeysOfTake<T>(s: seq<Keyed<T>>, k: nat)
    ensures Keys(Take(s, k)) == Take(Keys(s), k)
  {
  }

  lemma KeysConcat<T>(a: seq<Keyed<T>>, b: seq<Keyed<T>>)
    ensures Keys(a + b) == Keys(a) + Keys(b)
  {
  }

  /** All rows but the one at `i`. */
  function Without<T>(s: seq<T>, i: nat): (r: seq<T>)
    requires i < |s|
    ensures |r| == |s| - 1
    ensures multiset(r) == multiset(s) - multiset{s[i]}
  {
    assert s == s[..i] + [s[i]] + s[i + 1..];
    s[..i] + s[i + 1..]
  }

  /** The first row of one arrangement stands somewhere in the other. */
  lemma FirstRowElsewhere<T>(a: seq<T>, b: seq<T>) returns (i: nat)
    requires a != [] && multiset(a) == multiset(b)
    ensures i < |b| && b[i] == a[0]
    ensures multiset(Without(a, 0)) == multiset(Without(b, i))
  {
    assert a[0] in multiset(b);
    i :| 0 <= i < |b| && b[i] == a[0];
  }

  lemma KeysWithout<T>(s: seq<Keyed<T>>, i: nat)
    requires i < |s|
    ensures multiset(Keys(s)) == multiset(Keys(Without(s, i))) + multiset{s[i].key}
  {
    KeysConcat(s[..i], s[i + 1..]);
    assert Keys(s) == Keys(s[..i]) + [s[i].key] + Keys(s[i + 1..]);
  }

  lemma {:induction false} KeysOfPermutation<T>(a: seq<Keyed<T>>, b: seq<Keyed<T>>)
    requires multiset(a) == multiset(b)
    ensures multiset(Keys(a)) == multiset(Keys(b))
    decreases |a|
  {
    assert |multiset(a)| == |a| && |multiset(b)| == |b|;
    if a != [] {
      var i := FirstRowElsewhere(a, b);
      KeysWithout(a, 0);
      KeysWithout(b, i);
      KeysOfPermutation(Without(a, 0), Without(b, i));
    }
  }

  /** Any answer of ORDER BY has the keys of the sorted rows. */
  lemma OrderByKeys<T>(rows: seq<Keyed<T>>, answer: seq<Keyed<T>>)
    requires IsOrderBy(rows, answer)
    ensures Keys(answer) == Keys(Sort(rows))
  {
    SortIsOrderedPermutation(rows);
    KeysOfPermutation(answer, Sort(rows));
    ArrangementIsUnique(Keys(answer), Keys(Sort(rows)));
  }

  lemma AboveInPrefix<T>(s: seq<Keyed<T>>, x: real, k: nat)
    requires Descending(s) && k <= |s|
    ensures Above(s[..k], x) == if Above(s, x) <= k then Above(s, x) else k
  {
  }

  /** Keeping only the first `k` before an insertion does not change the first `k` after it. */
  lemma InsertBelowCut<T>(s: seq<Keyed<T>>, x: Keyed<T>, k: nat)
    requires Descending(s) && k < |s|
    ensures Insert(s, x)[..k] == Insert(s[..k], x)[..k]
  {
    AboveInPrefix(s, x.key, k);
    var n := Above(s, x.key);
    if n > k {
      assert Insert(s, x)[..k] == s[..k];
      assert Insert(s[..k], x)[..k] == s[..k];
    } else {
      assert s[..k][..n] == s[..n];
      assert Insert(s, x) == s[..n] + [x] + s[n..];
      assert Insert(s[..k], x) == s[..n] + [x] + s[n..k];
    }
  }

  lemma InsertAfterTake<T>(s: seq<Keyed<T>>, x: Keyed<T>, k: nat)
    requires Descending(s)
    ensures Take(Insert(s, x), k) == Take(Insert(Take(s, k), x), k)
  {
    if |s| > k {
      InsertBelowCut(s, x, k);
    }
  }

  lemma SortSnoc<T>(s: seq<Keyed<T>>, x: Keyed<T>)
    ensures Sort(s + [x]) == Insert(Sort(s), x)
    ensures Descending(Sort(s))
  {
    assert (s + [x])[..|s|] == s;
    SortIsOrderedPermutation(s);
  }

  /** Lists that agree on their best `k` still agree after one more item. */
  lemma CutStep<T>(a: seq<Keyed<T>>, b: seq<Keyed<T>>, x: Keyed<T>, k: nat)
    requires Take(Sort(a), k) == Take(Sort(b), k)
    ensures Take(Sort(a + [x]), k) == Take(Sort(b + [x]), k)
  {
    SortSnoc(a, x);
    SortSnoc(b, x);
    InsertAfterTake(Sort(a), x, k);
    InsertAfterTake(Sort(b), x, k);
  }

  lemma {:induction false} SameBest<T>(a: seq<Keyed<T>>, b: seq<Keyed<T>>, more: seq<Keyed<T>>, k: nat)
    requires Take(Sort(a), k) == Take(Sort(b), k)
    ensures Take(Sort(a + more), k) == Take(Sort(b + more), k)
  {
    if more == [] {
      assert a + more == a && b + more == b;
    } else {
      var front, x := more[..|more| - 1], more[|more| - 1];
      SameBest(a, b, front, k);
      CutStep(a + front, b + front, x, k);
      FromFrontAndLast(a, more);
      FromFrontAndLast(b, more);
    }
  }

  /** Ranking a list whose first part was already cut to its best `k` gives the same best `k`. */
  lemma CutFirst<T>(a: seq<Keyed<T>>, b: seq<Keyed<T>>, k: nat)
    ensures Take(Sort(a + b), k) == Take(Sort(Take(Sort(a), k) + b), k)
  {
    SortIsOrderedPermutation(a);
    SortOfSorted(Take(Sort(a), k));
    SameBest(a, Take(Sort(a), k), b, k);
  }
}
