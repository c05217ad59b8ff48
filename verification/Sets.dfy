/**
 Sizes of finite sets, and of their images under maps that keep elements apart.
 */
module Sets {
  ghost function Image<A, B>(s: set<A>, f: A -> B): set<B> { set x | x in s :: f(x) }

  lemma {:induction false} ImageSize<A, B>(s: set<A>, f: A -> B)
    requires forall x, y | x in s && y in s && f(x) == f(y) :: x == y
    ensures |Image(s, f)| == |s|
    decreases s
  {
    if s != {} {
      var x :| x in s;
      ImageSize(s - {x}, f);
      assert Image(s, f) == Image(s - {x}, f) + {f(x)};
    }
  }

  lemma ImageDifference<A, B>(s: set<A>, u: set<A>, f: A -> B)
    requires forall x, y | x in s + u && y in s + u && f(x) == f(y) :: x == y
    ensures |Image(s, f) - Image(u, f)| == |s - u|
  {
    assert Image(s, f) - Image(u, f) == Image(s - u, f);
    ImageSize(s - u, f);
  }

  lemma SetsBalance<T>(x: set<T>, y: set<T>)
    ensures |x| + |y - x| == |y| + |x - y|
  {
    assert x == (x - y) + (x * y) && y == (y - x) + (x * y);
    assert (x - y) * (x * y) == {} && (y - x) * (x * y) == {};
  }

  lemma Contained<T>(s: set<T>, t: set<T>)
    requires s <= t
    ensures |s| <= |t|
  {
    assert t == s + (t - s);
  }

  lemma {:induction false} ImageFits<A, B>(s: set<A>, f: A -> B)
    ensures |Image(s, f)| <= |s|
    decreases s
  {
    if s != {} {
      var x :| x in s;
      ImageFits(s - {x}, f);
      assert Image(s, f) == Image(s - {x}, f) + {f(x)};
    }
  }

  /** A map that loses no size keeps elements apart. */
  lemma FullImage<A, B>(s: set<A>, f: A -> B, x: A, y: A)
    requires |Image(s, f)| == |s| && x in s && y in s && f(x) == f(y)
    ensures x == y
  {
    if x != y {
      assert y in s - {x};
      assert Image(s, f) == Image(s - {x}, f);
      ImageFits(s - {x}, f);
    }
  }

  lemma {:induction false} ElementsFit<T>(s: seq<T>)
    ensures |set x | x in s| <= |s|
    decreases |s|
  {
    if s == [] {
      assert (set x | x in s) == {};
    } else {
      var n := |s| - 1;
      ElementsFit(s[..n]);
      assert s == s[..n] + [s[n]];
      assert (set x | x in s) == (set x | x in s[..n]) + {s[n]};
    }
  }

  lemma AddFresh(s: set<nat>, n: nat, more: bool)
    requires forall x | x in s :: x < n
    ensures |s + if more then {n} else {}| == |s| + if more then 1 else 0
  {
    assert s + {} == s;
  }

  /** A count that goes up by one at every mark counts the marks. */
  lemma {:induction false} CountMarked(marks: seq<bool>, counts: seq<nat>)
    requires |counts| == |marks| + 1 && counts[0] == 0
    requires forall k: nat | k < |marks| :: counts[k + 1] == counts[k] + if marks[k] then 1 else 0
    ensures counts[|marks|] == |(set k: nat | k < |marks| && marks[k])|
    decreases |marks|
  {
    var n := |marks| - 1;
    var marked := set k: nat | k < |marks| && marks[k];
    if n < 0 {
      assert marked == {};
    } else {
      CountMarked(marks[..n], counts[..n + 1]);
      var before := set k: nat | k < n && marks[..n][k];
      assert marked == before + if marks[n] then {n} else {};
      AddFresh(before, n, marks[n]);
    }
  }
}
