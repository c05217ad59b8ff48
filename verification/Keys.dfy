/**
 Byte encodings of multi-column keys. Reference keys are positional and never hold a null; composite
 keys are labelled by column index and mark nulls. Both are injective on typed tuples of cells.
 */
module Keys {
  import opened Bytes
  import opened Canonical

  /** Cells a key may be made of: the scalar Arrow types, without nesting. */
  predicate Flat(v: Value) {
    (v.Scalar? && |v.raw| == Width(v.p)) || v.Boolean? || v.Text?
  }

  /** No text is longer than a 64-bit length can announce. */
  predicate Sized(cells: seq<Value>) { forall v | v in cells :: v.Text? ==> |v.bytes| + 9 < U64 }

  /** A marked part says whether its cell is null; an unmarked one must not be. */
  ghost predicate Keyable(v: Value, marked: bool) { Flat(v) || (v.Null? && marked) }

  ghost predicate AllKeyable(cells: seq<Value>, marked: bool) { forall v | v in cells :: Keyable(v, marked) }

  ghost function PartKey(v: Value, marked: bool): (r: seq<byte>)
    requires Keyable(v, marked)
    ensures |r| > 0
  {
    if !marked then Encode(v) else if v.Null? then [0] else [1] + Encode(v)
  }

  /** The parts of a key from the left, each behind its label. */
  ghost function Key(cells: seq<Value>, labels: seq<nat>, marked: bool): (r: seq<byte>)
    requires |cells| == |labels| && AllKeyable(cells, marked)
  {
    if cells == [] then []
    else Le64(labels[0]) + (PartKey(cells[0], marked) + Key(cells[1..], labels[1..], marked))
  }

  lemma PartUnique(v: Value, x: seq<byte>, w: Value, y: seq<byte>, marked: bool)
    requires Keyable(v, marked) && Keyable(w, marked) && Sized([v]) && Sized([w])
    requires PartKey(v, marked) + x == PartKey(w, marked) + y
    ensures v == w && x == y
  {
    if !marked {
      FlatUnique(v, x, w, y);
    } else {
      var a, b := PartKey(v, marked), PartKey(w, marked);
      MarkedTail(a, x, b, y);
      assert !v.Null? ==> a[1..] == Encode(v);
      assert !w.Null? ==> b[1..] == Encode(w);
      if v.Null? {
        assert [] + x == x && [] + y == y;
      } else {
        FlatUnique(v, x, w, y);
      }
    }
  }

  lemma MarkedTail(a: seq<byte>, x: seq<byte>, b: seq<byte>, y: seq<byte>)
    requires a != [] && b != [] && a + x == b + y
    ensures a[0] == b[0] && a[1..] + x == b[1..] + y
  {
    assert (a + x)[0] == a[0] && (b + y)[0] == b[0];
    assert (a + x)[1..] == a[1..] + x && (b + y)[1..] == b[1..] + y;
  }

  lemma FlatUnique(v: Value, x: seq<byte>, w: Value, y: seq<byte>)
    requires Flat(v) && Flat(w) && Sized([v]) && Sized([w]) && Encode(v) + x == Encode(w) + y
    ensures v == w && x == y
  {
    FlatLength(v);
    FlatLength(w);
    PrefixFree(v, x, w, y);
  }

  lemma FlatLength(v: Value)
    requires Flat(v) && Sized([v])
    ensures |Encode(v)| < U64
  {
    assert v in [v];
  }

  /** Under the same labels, equal keys come from equal tuples. */
  lemma {:induction false} KeyInjective(a: seq<Value>, b: seq<Value>, labels: seq<nat>, marked: bool)
    requires |a| == |b| == |labels| && AllKeyable(a, marked) && AllKeyable(b, marked) && Sized(a) && Sized(b)
    ensures Key(a, labels, marked) == Key(b, labels, marked) <==> a == b
    decreases |a|
  {
    if a != [] && Key(a, labels, marked) == Key(b, labels, marked) {
      var x, y := Key(a[1..], labels[1..], marked), Key(b[1..], labels[1..], marked);
      SplitEqual(Le64(labels[0]), PartKey(a[0], marked) + x, Le64(labels[0]), PartKey(b[0], marked) + y);
      assert a[0] in a && b[0] in b;
      PartUnique(a[0], x, b[0], y, marked);
      KeyInjective(a[1..], b[1..], labels[1..], marked);
      assert a == [a[0]] + a[1..] && b == [b[0]] + b[1..];
    }
  }

  /** Positional labels make reference keys of different widths differ as well. */
  function Ordinals(from: nat, n: nat): (r: seq<nat>)
    ensures |r| == n
  {
    seq(n, i requires 0 <= i < n => from + i)
  }

  lemma {:induction false} KeySnoc(cells: seq<Value>, labels: seq<nat>, v: Value, ordinal: nat, marked: bool)
    requires |cells| == |labels| && AllKeyable(cells, marked) && Keyable(v, marked)
    ensures AllKeyable(cells + [v], marked)
    ensures Key(cells + [v], labels + [ordinal], marked) == Key(cells, labels, marked) +
            (Le64(ordinal) + PartKey(v, marked))
    decreases |cells|
  {
    if cells == [] {
      assert [v][1..] == [] && [ordinal][1..] == [];
    } else {
      assert (cells + [v])[1..] == cells[1..] + [v] && (labels + [ordinal])[1..] == labels[1..] + [ordinal];
      KeySnoc(cells[1..], labels[1..], v, ordinal, marked);
      var more := Le64(ordinal) + PartKey(v, marked);
      Associative(PartKey(cells[0], marked), Key(cells[1..], labels[1..], marked), more);
      Associative(Le64(labels[0]), PartKey(cells[0], marked) + Key(cells[1..], labels[1..], marked), more);
    }
  }

  // ----- encoding one row ----------------------------------------------------------------------------

  datatype KeyOutcome = Encoded(bytes: seq<byte>) | HasNull | UnsupportedKey

  /** `append_scalar`: the type tag, then the fixed-width word or the length-prefixed bytes. */
  method AppendScalar(v: Value, output: seq<byte>) returns (ok: bool, r: seq<byte>)
    ensures ok <==> Flat(v)
    ensures ok ==> r == output + Encode(v)
  {
    r, ok := output, true;
    match v {
      case Scalar(p, raw) =>
        if |raw| == Width(p) {
          r := output + ([PrimitiveTag(p)] + raw);
        } else {
          ok := false;
        }
      case Boolean(b) =>
        r := output + [18, Bit(b)];
      case Text(_, bytes) =>
        r := output + ([Tag(TextHeader(v.text))] + LenPrefixed(bytes));
      case _ =>
        ok := false;
    }
  }

  /** `encode_key` of a reference rule: stops at the first null. */
  method EncodeKey(row: seq<Value>, columns: seq<nat>) returns (r: KeyOutcome)
    requires InRange(columns, |row|)
    ensures r.Encoded? <==> AllKeyable(Pick(row, columns), false)
    ensures r.Encoded? ==> r.bytes == Key(Pick(row, columns), Ordinals(0, |columns|), false)
    ensures r.HasNull? ==> Null in Pick(row, columns)
    ensures r.UnsupportedKey? ==> exists v :: v in Pick(row, columns) && !v.Null? && !Flat(v)
  {
    ghost var cells, labels := Pick(row, columns), Ordinals(0, |columns|);
    var output := [];
    for ordinal := 0 to |columns|
      invariant AllKeyable(cells[..ordinal], false)
      invariant output == Key(cells[..ordinal], labels[..ordinal], false)
    {
      var v := row[columns[ordinal]];
      assert v == cells[ordinal] && v in cells;
      if v.Null? {
        return HasNull;
      }
      var ok, appended := AppendScalar(v, output + Le64(ordinal));
      if !ok {
        return UnsupportedKey;
      }
      TakeOneMore([], cells, ordinal);
      TakeOneMore([], labels, ordinal);
      KeySnoc(cells[..ordinal], labels[..ordinal], v, ordinal, false);
      Associative(output, Le64(ordinal), Encode(v));
      output := appended;
    }
    assert cells[..|columns|] == cells && labels[..|columns|] == labels;
    r := Encoded(output);
  }

  /** The key loop of composite uniqueness: nulls are encoded, and noted. */
  method EncodeComposite(row: seq<Value>, columns: seq<nat>) returns (r: KeyOutcome, sawNull: bool)
    requires InRange(columns, |row|)
    ensures !r.HasNull? && (r.Encoded? <==> AllKeyable(Pick(row, columns), true))
    ensures r.Encoded? ==> r.bytes == Key(Pick(row, columns), columns, true)
    ensures r.Encoded? ==> (sawNull <==> Null in Pick(row, columns))
  {
    ghost var cells := Pick(row, columns);
    var output := [];
    sawNull := false;
    for i := 0 to |columns|
      invariant AllKeyable(cells[..i], true)
      invariant output == Key(cells[..i], columns[..i], true)
      invariant sawNull <==> Null in cells[..i]
    {
      var v := row[columns[i]];
      assert v == cells[i] && v in cells;
      TakeOneMore([], cells, i);
      TakeOneMore([], columns, i);
      ghost var before := output;
      if v.Null? {
        output := output + Le64(columns[i]) + [0];
        sawNull := true;
        Associative(before, Le64(columns[i]), [0]);
      } else {
        var ok, appended := AppendScalar(v, output + Le64(columns[i]) + [1]);
        if !ok {
          return UnsupportedKey, sawNull;
        }
        Associative(before, Le64(columns[i]), [1]);
        Associative(before, Le64(columns[i]) + [1], Encode(v));
        Associative(Le64(columns[i]), [1], Encode(v));
        output := appended;
      }
      KeySnoc(cells[..i], columns[..i], v, columns[i], true);
    }
    assert cells[..|columns|] == cells && columns[..|columns|] == columns;
    r := Encoded(output);
  }

  // ----- keys byte by byte -----------------------------------------------------------------------------

  /** A part of a composite key marks nulls; a part of a reference key is the encoded cell alone. */
  lemma PartBytes(v: Value, marked: bool)
    requires Keyable(v, marked)
    ensures !marked ==> !v.Null? && PartKey(v, marked) == Encode(v)
    ensures marked && v.Null? ==> PartKey(v, marked) == [0]
    ensures marked && !v.Null? ==> PartKey(v, marked) == [1] + Encode(v)
  {
  }

  lemma KeyOfOne(v: Value, ordinal: nat, marked: bool)
    requires Keyable(v, marked)
    ensures AllKeyable([v], marked) && Key([v], [ordinal], marked) == Le64(ordinal) + PartKey(v, marked)
  {
    assert [v][1..] == [] && [ordinal][1..] == [];
    assert Key([], [], marked) == [];
    assert PartKey(v, marked) + [] == PartKey(v, marked);
  }

  /** The parts follow one another, each behind its label; the labels of a reference key count from zero. */
  lemma KeyBytes(v: Value, m: nat, cells: seq<Value>, labels: seq<nat>, marked: bool)
    requires Keyable(v, marked) && AllKeyable(cells, marked) && |cells| == |labels|
    ensures AllKeyable([v] + cells, marked)
    ensures Key([v] + cells, [m] + labels, marked) ==
            Le64(m) + (PartKey(v, marked) + Key(cells, labels, marked))
    ensures forall n: nat, i: nat | i < n :: Ordinals(0, n)[i] == i
  {
    assert ([v] + cells)[1..] == cells && ([m] + labels)[1..] == labels;
  }
}
