/**
 Sequences taken apart at their end, and batches put together.
 */
module Sequences {
  import opened Bytes

  lemma SplitLast<T>(s: seq<T>, i: nat)
    requires i < |s|
    ensures s[..i + 1] != [] && s[..i + 1][..|s[..i + 1]| - 1] == s[..i] && s[..i + 1][|s[..i + 1]| - 1] == s[i]
  {
  }

  ghost function Flatten<T>(parts: seq<seq<T>>): seq<T> {
    if parts == [] then [] else Flatten(parts[..|parts| - 1]) + parts[|parts| - 1]
  }

  /** The first i batches, one more, and all of them. */
  lemma {:induction false} FlattenBefore<T>(parts: seq<seq<T>>, i: nat)
    requires i < |parts|
    ensures Flatten(parts[..i + 1]) == Flatten(parts[..i]) + parts[i]
    ensures |Flatten(parts[..i + 1])| <= |Flatten(parts)|
    ensures forall x | x in Flatten(parts[..i + 1]) :: x in Flatten(parts)
    decreases |parts|
  {
    var n := |parts| - 1;
    assert parts[..i + 1][..i] == parts[..i];
    if i < n {
      FlattenBefore(parts[..n], i);
      assert parts[..n][..i + 1] == parts[..i + 1] && parts[..n][..i] == parts[..i];
    } else {
      assert parts[..i + 1] == parts;
    }
  }

  lemma {:induction false} FlattenPrefix<T>(parts: seq<seq<T>>, i: nat)
    requires i <= |parts|
    ensures exists rest :: Flatten(parts) == Flatten(parts[..i]) + rest
    decreases |parts|
  {
    if i == |parts| {
      assert parts[..i] == parts;
      assert Flatten(parts) == Flatten(parts[..i]) + [];
    } else {
      var n := |parts| - 1;
      assert parts[..n][..i] == parts[..i];
      FlattenPrefix(parts[..n], i);
      var rest :| Flatten(parts[..n]) == Flatten(parts[..i]) + rest;
      Associative(Flatten(parts[..i]), rest, parts[n]);
    }
  }

  lemma {:induction false} FlattenHead<T>(parts: seq<seq<T>>)
    requires parts != []
    ensures Flatten(parts) == parts[0] + Flatten(parts[1..])
  {
    var n := |parts| - 1;
    if n == 0 {
      assert parts[..n] == [] && parts[1..] == [];
    } else {
      FlattenHead(parts[..n]);
      assert parts[..n][1..] == parts[1..][..n - 1];
      Associative(parts[0], Flatten(parts[1..][..n - 1]), parts[n]);
    }
  }

  lemma FlattenTail<T>(parts: seq<seq<T>>)
    requires parts != [] && parts[0] != []
    ensures Flatten(parts) == [parts[0][0]] + Flatten(parts[0 := parts[0][1..]])
  {
    var after := parts[0 := parts[0][1..]];
    FlattenHead(parts);
    FlattenHead(after);
    assert after[1..] == parts[1..];
    assert parts[0] == [parts[0][0]] + parts[0][1..];
    Associative([parts[0][0]], parts[0][1..], Flatten(parts[1..]));
  }

  lemma {:induction false} PieceFits<T>(parts: seq<seq<T>>, i: nat)
    requires i < |parts|
    ensures |parts[i]| <= |Flatten(parts)|
    decreases |parts|
  {
    if i < |parts| - 1 {
      PieceFits(parts[..|parts| - 1], i);
    }
  }

  /** Whatever follows the two, they are told apart. */
  ghost predicate Delimited<T(!new)>(u: seq<T>, v: seq<T>) { forall x, y :: u + x == v + y ==> u == v }

  /** A concatenation of nonempty self-delimiting pieces determines the pieces. */
  lemma {:induction false} FlattenUnique<T(!new)>(p: seq<seq<T>>, q: seq<seq<T>>)
    requires forall i | 0 <= i < |p| && i < |q| :: Delimited(p[i], q[i])
    requires (forall i | 0 <= i < |p| :: p[i] != []) && forall i | 0 <= i < |q| :: q[i] != []
    requires Flatten(p) == Flatten(q)
    ensures p == q
    decreases |p|
  {
    if p != [] {
      FlattenHead(p);
    }
    if q != [] {
      FlattenHead(q);
    }
    if p != [] && q != [] {
      var x, y := Flatten(p[1..]), Flatten(q[1..]);
      assert Delimited(p[0], q[0]) && p[0] + x == q[0] + y;
      SplitEqual(p[0], x, q[0], y);
      FlattenUnique(p[1..], q[1..]);
      assert p == [p[0]] + p[1..] && q == [q[0]] + q[1..];
    }
  }

  /** An element of one piece, in the whole. */
  lemma {:induction false} FlattenAt<T>(parts: seq<seq<T>>, i: nat, q: nat)
    requires i < |parts| && q < |parts[i]|
    ensures var p := |Flatten(parts[..i])| + q; p < |Flatten(parts)| && Flatten(parts)[p] == parts[i][q]
    decreases |parts|
  {
    var n := |parts| - 1;
    if i < n {
      FlattenAt(parts[..n], i, q);
      assert parts[..n][..i] == parts[..i];
    }
  }

  lemma FlattenAtPrefix<T>(parts: seq<seq<T>>, n: nat, i: nat, q: nat)
    requires i < n <= |parts| && q < |parts[i]|
    ensures var p := |Flatten(parts[..i])| + q; p < |Flatten(parts[..n])| && Flatten(parts[..n])[p] == parts[i][q]
  {
    FlattenAt(parts[..n], i, q);
    assert parts[..n][..i] == parts[..i];
  }
}
