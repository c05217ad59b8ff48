/**
 Sorted sequences as canonical forms of multisets, for an arbitrary total order.
 */
module Sorting {
  type Order<!T> = (T, T) -> bool

  ghost predicate TotalOrder<T(!new)>(leq: Order<T>) {
    && (forall x, y :: leq(x, y) || leq(y, x))
    && (forall x, y :: leq(x, y) && leq(y, x) ==> x == y)
    && (forall x, y, z :: leq(x, y) && leq(y, z) ==> leq(x, z))
  }

  ghost predicate Sorted<T>(s: seq<T>, leq: Order<T>) {
    forall i, j {:trigger leq(s[i], s[j])} | 0 <= i < j < |s| :: leq(s[i], s[j])
  }

  /** Every element of `s` is at least `x`. */
  ghost predicate AllAbove<T>(x: T, s: seq<T>, leq: Order<T>) {
    forall i | 0 <= i < |s| :: leq(x, s[i])
  }

  ghost predicate Least<T(!new)>(x: T, m: multiset<T>, leq: Order<T>) {
    x in m && forall y | y in m :: leq(x, y)
  }

  lemma {:induction false} LeastExists<T(!new)>(m: multiset<T>, leq: Order<T>)
    requires m != multiset{} && TotalOrder(leq)
    ensures exists x :: Least(x, m, leq)
    decreases |m|
  {
    var x :| x in m;
    var rest := m - multiset{x};
    if rest == multiset{} {
      assert m == multiset{x};
      assert Least(x, m, leq);
    } else {
      LeastExists(rest, leq);
      var y :| Least(y, rest, leq);
      var least := if leq(x, y) then x else y;
      forall z | z in m ensures leq(least, z) {
        assert z == x || z in rest;
      }
      assert Least(least, m, leq);
    }
  }

  /** The elements of a multiset in ascending order. */
  ghost function SortedOf<T(!new)>(m: multiset<T>, leq: Order<T>): (s: seq<T>)
    requires TotalOrder(leq)
    ensures multiset(s) == m && Sorted(s, leq)
    decreases |m|
  {
    if m == multiset{} then []
    else
      LeastExists(m, leq);
      var x :| Least(x, m, leq);
      var rest := SortedOf(m - multiset{x}, leq);
      LeastThenRest(x, rest, m, leq);
      [x] + rest
  }

  lemma LeastThenRest<T(!new)>(x: T, rest: seq<T>, m: multiset<T>, leq: Order<T>)
    requires Least(x, m, leq) && multiset(rest) == m - multiset{x} && Sorted(rest, leq)
    ensures multiset([x] + rest) == m && Sorted([x] + rest, leq)
  {
    forall i | 0 <= i < |rest| ensures leq(x, rest[i]) {
      assert rest[i] in multiset(rest);
    }
  }

  lemma HeadOf<T>(s: seq<T>)
    requires s != []
    ensures s == [s[0]] + s[1..] && multiset(s) == multiset{s[0]} + multiset(s[1..])
  {
    assert s == [s[0]] + s[1..];
  }

  /** Adding the same multiset on both sides of a rearrangement. */
  lemma Regroup<T>(m: multiset<T>, x: multiset<T>, a: multiset<T>, y: multiset<T>, b: multiset<T>)
    requires x + a == y + b
    ensures (m + x) + a == (m + y) + b
  {
    assert (m + x) + a == m + (x + a);
    assert (m + y) + b == m + (y + b);
  }

  lemma Cancel<T>(x: multiset<T>, a: multiset<T>, y: multiset<T>, head: multiset<T>)
    requires x + (head + a) == y + a
    ensures x + head == y && x == y - head
  {
    assert x + (head + a) == (x + head) + a;
    assert ((x + head) + a) - a == x + head && (y + a) - a == y;
  }

  lemma PlusOne<T>(a: multiset<T>, b: multiset<T>, x: T)
    ensures (a + multiset{x}) + b == (a + b) + multiset{x}
    ensures a + (b + multiset{x}) == (a + b) + multiset{x}
  {
  }

  lemma MultisetSnoc<T>(s: seq<T>, x: T)
    ensures multiset(s + [x]) == multiset(s) + multiset{x}
  {
  }

  /** A multiset has exactly one sorted arrangement. */
  lemma {:induction false} SortedUnique<T(!new)>(a: seq<T>, b: seq<T>, leq: Order<T>)
    requires TotalOrder(leq) && Sorted(a, leq) && Sorted(b, leq) && multiset(a) == multiset(b)
    ensures a == b
    decreases |a|
  {
    if a == [] {
      assert |multiset(b)| == 0;
    } else {
      assert a[0] in multiset(b) && |multiset(b)| > 0;
      HeadOf(a);
      HeadOf(b);
      assert b[0] in multiset(a);
      assert leq(a[0], b[0]) && leq(b[0], a[0]);
      assert multiset(a[1..]) == multiset(a) - multiset{a[0]};
      assert multiset(b[1..]) == multiset(b) - multiset{b[0]};
      SortedUnique(a[1..], b[1..], leq);
    }
  }

  /** Sorted sequences are what `SortedOf` returns for their contents. */
  lemma SortedIs<T(!new)>(s: seq<T>, leq: Order<T>)
    requires TotalOrder(leq) && Sorted(s, leq)
    ensures s == SortedOf(multiset(s), leq)
  {
    SortedUnique(s, SortedOf(multiset(s), leq), leq);
  }

  /** The least element comes first, and the rest is the sorted rest. */
  lemma SortedOfLeast<T(!new)>(x: T, m: multiset<T>, leq: Order<T>)
    requires TotalOrder(leq) && Least(x, m, leq)
    ensures SortedOf(m, leq) == [x] + SortedOf(m - multiset{x}, leq)
  {
    var rest := SortedOf(m - multiset{x}, leq);
    LeastThenRest(x, rest, m, leq);
    SortedUnique(SortedOf(m, leq), [x] + rest, leq);
  }

  // ----- sorting by a key (the standard library's sort, specified and implemented) -------------

  function Keys<A, T>(s: seq<A>, key: A -> T): (r: seq<T>)
    ensures |r| == |s| && forall i | 0 <= i < |s| :: r[i] == key(s[i])
  {
    seq(|s|, i requires 0 <= i < |s| => key(s[i]))
  }

  function Insert<A, T>(x: A, s: seq<A>, key: A -> T, leq: Order<T>): seq<A> {
    if s == [] || leq(key(x), key(s[0])) then [x] + s else [s[0]] + Insert(x, s[1..], key, leq)
  }

  function SortBy<A, T>(s: seq<A>, key: A -> T, leq: Order<T>): seq<A> {
    if s == [] then [] else Insert(s[0], SortBy(s[1..], key, leq), key, leq)
  }

  lemma {:induction false} InsertPermutes<A, T(!new)>(x: A, s: seq<A>, key: A -> T, leq: Order<T>)
    ensures multiset(Insert(x, s, key, leq)) == multiset{x} + multiset(s)
    ensures multiset(Keys(Insert(x, s, key, leq), key)) == multiset{key(x)} + multiset(Keys(s, key))
    decreases |s|
  {
    var all := Insert(x, s, key, leq);
    HeadOfKeys(all, key);
    if s == [] || leq(key(x), key(s[0])) {
      assert all[1..] == s;
    } else {
      assert all[1..] == Insert(x, s[1..], key, leq);
      HeadOfKeys(s, key);
      InsertPermutes(x, s[1..], key, leq);
    }
  }

  lemma {:induction false} InsertSorts<A, T(!new)>(x: A, s: seq<A>, key: A -> T, leq: Order<T>)
    requires TotalOrder(leq) && Sorted(Keys(s, key), leq)
    ensures Sorted(Keys(Insert(x, s, key, leq), key), leq)
    decreases |s|
  {
    var all := Insert(x, s, key, leq);
    HeadOfKeys(all, key);
    if s == [] {
      assert all == [x];
    } else if leq(key(x), key(s[0])) {
      assert all[1..] == s;
      LeadingKey(key(x), key(s[0]), Keys(s[1..], key), Keys(s, key), leq) by {
        HeadOfKeys(s, key);
        SortedTail(Keys(s, key), leq);
      }
    } else {
      var rest := Insert(x, s[1..], key, leq);
      assert all[1..] == rest;
      HeadOfKeys(s, key);
      SortedTail(Keys(s, key), leq);
      InsertSorts(x, s[1..], key, leq);
      InsertPermutes(x, s[1..], key, leq);
      LeadingKey(key(s[0]), key(x), Keys(s[1..], key), Keys(rest, key), leq);
    }
  }

  lemma SortedTail<T>(s: seq<T>, leq: Order<T>)
    requires s != [] && Sorted(s, leq)
    ensures Sorted(s[1..], leq) && AllAbove(s[0], s[1..], leq)
  {
  }

  lemma HeadOfKeys<A, T>(s: seq<A>, key: A -> T)
    requires s != []
    ensures Keys(s, key) == [key(s[0])] + Keys(s[1..], key)
    ensures multiset(s) == multiset{s[0]} + multiset(s[1..])
    ensures multiset(Keys(s, key)) == multiset{key(s[0])} + multiset(Keys(s[1..], key))
  {
    HeadOf(s);
    HeadOf(Keys(s, key));
  }

  lemma LeadingKey<T>(k: T, x: T, others: seq<T>, rest: seq<T>, leq: Order<T>)
    requires leq(k, x) && AllAbove(k, others, leq) && Sorted(rest, leq)
    requires multiset(rest) == multiset{x} + multiset(others)
    ensures Sorted([k] + rest, leq)
  {
    forall i | 0 <= i < |rest| ensures leq(k, rest[i]) {
      assert rest[i] in multiset(rest);
    }
  }

  /** Sorting by key arranges the elements so that their keys are the sorted arrangement. */
  lemma {:induction false} SortByKeys<A, T(!new)>(s: seq<A>, key: A -> T, leq: Order<T>)
    requires TotalOrder(leq)
    ensures multiset(SortBy(s, key, leq)) == multiset(s)
    ensures Keys(SortBy(s, key, leq), key) == SortedOf(multiset(Keys(s, key)), leq)
    decreases |s|
  {
    if s == [] {
      assert Keys(s, key) == [];
    } else {
      HeadOfKeys(s, key);
      SortByKeys(s[1..], key, leq);
      InsertSorts(s[0], SortBy(s[1..], key, leq), key, leq);
      InsertPermutes(s[0], SortBy(s[1..], key, leq), key, leq);
      SortedIs(Keys(SortBy(s, key, leq), key), leq);
    }
  }
}
