/**
 The ordered traversal that also fingerprints each logical partition: the batches come out as one
 stream, and every partition ends with the fingerprint of its own rows.
 */
module PartitionFingerprints {
  import opened Bytes
  import opened Canonical
  import opened ValueEncoder
  import opened FingerprintV1
  import opened SchemaPreimage
  import opened FingerprintV2
  import opened Sequences

  /** The slot of a partition holds the V2 fingerprint of its rows, however it was batched. */
  ghost predicate Fingerprinted(slot: Option<(Digest, nat)>, part: seq<Batch>, schema: Schema, keys: seq<seq<byte>>,
                                hash: HashFunction) {
    && ForFields(schema.fields).Success? && Conforming(AllRows(part), ForFields(schema.fields).value)
    && slot == Some((FingerprintOf(schema, keys, AllRows(part), hash), Saturated(|AllRows(part)|)))
  }

  ghost predicate AllWellTyped(parts: seq<seq<Batch>>) { forall p, b | p in parts && b in p :: WellTyped(b) }

  /** The slots before `index` are filled. */
  ghost predicate FilledBelow(slots: seq<Option<(Digest, nat)>>, parts: seq<seq<Batch>>, index: nat, schema: Schema,
                              keys: seq<seq<byte>>, hash: HashFunction) {
    index <= |parts| == |slots| && forall i | 0 <= i < index :: Fingerprinted(slots[i], parts[i], schema, keys, hash)
  }

  /** What is left to deliver: the rest of partition `index` after `done`, and the later partitions. */
  ghost predicate Remaining(readers: seq<seq<Batch>>, parts: seq<seq<Batch>>, index: nat, done: seq<Batch>) {
    && index <= |parts| && |readers| == |parts| - index
    && (forall i | 0 < i < |readers| :: readers[i] == parts[index + i])
    && (readers != [] ==> parts[index] == done + readers[0])
  }

  lemma NextPartition(readers: seq<seq<Batch>>, parts: seq<seq<Batch>>, index: nat, done: seq<Batch>)
    requires Remaining(readers, parts, index, done) && readers != [] && readers[0] == []
    ensures parts[index] == done && Remaining(readers[1..], parts, index + 1, [])
  {
    assert done + [] == done;
    if readers[1..] != [] {
      assert [] + readers[1] == readers[1];
    }
  }

  lemma NextBatch(readers: seq<seq<Batch>>, parts: seq<seq<Batch>>, index: nat, done: seq<Batch>)
    requires Remaining(readers, parts, index, done) && readers != [] && readers[0] != []
    ensures Remaining(readers[0 := readers[0][1..]], parts, index, done + [readers[0][0]])
    ensures readers[0][0] in parts[index] && parts[index] in parts
    ensures AllRows(done + [readers[0][0]]) == AllRows(done) + readers[0][0].rows
  {
    var batch := readers[0][0];
    assert done + readers[0] == (done + [batch]) + readers[0][1..];
    assert (done + [batch])[..|done|] == done;
    assert batch in readers[0];
  }

  /** Finishing a state that has seen exactly a partition's rows fills its slot. */
  method CloseState(state: V2FingerprintState, ghost part: seq<Batch>, ghost schema: Schema, ghost keys: seq<seq<byte>>,
                    hash: HashFunction)
    returns (slot: Option<(Digest, nat)>)
    requires state.Valid() && state.seen == AllRows(part) && ForFields(schema.fields) == Success(state.encoders)
    requires state.schemaDigest == hash(PreimageOf(schema, keys))
    ensures Fingerprinted(slot, part, schema, keys, hash)
  {
    var digest, count := state.Finish(hash);
    slot := Some((digest, count));
  }

  ghost predicate Progress(slots: seq<Option<(Digest, nat)>>, readers: seq<seq<Batch>>, parts: seq<seq<Batch>>,
                           index: nat, done: seq<Batch>,
                           schema: Schema, keys: seq<seq<byte>>, hash: HashFunction) {
    FilledBelow(slots, parts, index, schema, keys, hash) && Remaining(readers, parts, index, done)
  }

  /** The state has absorbed exactly the batches delivered from the current partition. */
  ghost predicate Suits(s: V2FingerprintState, done: seq<Batch>, schema: Schema, keys: seq<seq<byte>>,
                        encoders: seq<Encoder>, hash: HashFunction)
    reads s
  {
    s.Valid() && s.seen == AllRows(done) && s.schema == schema && s.encoders == encoders &&
      s.schemaDigest == hash(PreimageOf(schema, keys))
  }

  /** Fill the slot of the current partition, and start a state for the next one, if any. */
  method CloseAndRenew(state: V2FingerprintState, slots: seq<Option<(Digest, nat)>>, readers: seq<seq<Batch>>,
                       ghost parts: seq<seq<Batch>>,
                       index: nat, ghost done: seq<Batch>, schema: Schema, keys: seq<seq<byte>>, encoders: seq<Encoder>,
                         hash: HashFunction)
    returns (next: V2FingerprintState, filled: seq<Option<(Digest, nat)>>, left: seq<seq<Batch>>, after: nat)
    requires Progress(slots, readers, parts, index, done, schema, keys, hash) && readers != [] && readers[0] == []
    requires Suits(state, done, schema, keys, encoders, hash) && ForFields(schema.fields) == Success(encoders)
    ensures Progress(filled, left, parts, after, [], schema, keys, hash) && left == readers[1..]
    ensures next == state || (fresh(next) && fresh(next.scratch))
    ensures left != [] ==> Suits(next, [], schema, keys, encoders, hash)
  {
    NextPartition(readers, parts, index, done);
    var slot := CloseState(state, parts[index], schema, keys, hash);
    FillSlot(slots, parts, index, schema, keys, hash, slot);
    filled, next, left, after := slots[index := slot], state, readers[1..], index + 1;
    if |readers| > 1 {
      next := new V2FingerprintState(schema, keys, encoders, hash);
    }
  }

  lemma FillSlot(slots: seq<Option<(Digest, nat)>>, parts: seq<seq<Batch>>, index: nat, schema: Schema,
                 keys: seq<seq<byte>>, hash: HashFunction,
                 slot: Option<(Digest, nat)>)
    requires FilledBelow(slots, parts, index, schema, keys, hash) && index < |parts| &&
             Fingerprinted(slot, parts[index], schema, keys, hash)
    ensures FilledBelow(slots[index := slot], parts, index + 1, schema, keys, hash)
  {
  }

  class FingerprintedPartitionSequence {
    const schema: Schema
    const keys: seq<seq<byte>>
    const encoders: seq<Encoder>
    const hash: HashFunction
    var readers: seq<seq<Batch>>
    var fingerprints: seq<Option<(Digest, nat)>>
    var index: nat
    var state: V2FingerprintState
    /** The partitions as supplied, and what the current one has delivered. */
    ghost const parts: seq<seq<Batch>>
    ghost var done: seq<Batch>

    ghost predicate Valid()
      reads this, state
    {
      && ForFields(schema.fields) == Success(encoders)
      && Progress(fingerprints, readers, parts, index, done, schema, keys, hash)
      && (readers != [] ==> Suits(state, done, schema, keys, encoders, hash))
    }

    constructor (readers: seq<seq<Batch>>, schema: Schema, keys: seq<seq<byte>>, encoders: seq<Encoder>,
                 hash: HashFunction)
      requires ForFields(schema.fields) == Success(encoders) && AllWellTyped(readers)
      ensures Valid() && this.readers == parts == readers && AllWellTyped(parts) && fresh(state) && fresh(state.scratch)
      ensures this.schema == schema && this.keys == keys && this.hash == hash
    {
      this.schema, this.keys, this.encoders, this.hash := schema, keys, encoders, hash;
      this.readers, parts := readers, readers;
      fingerprints, index, done := seq(|readers|, _ => None), 0, [];
      state := new V2FingerprintState(schema, keys, encoders, hash);
      new;
      if readers != [] {
        assert done + readers[0] == readers[0];
      }
    }

    /** Close the current partition and start the next one, if any. */
    method FinishCurrent()
      requires Valid() && readers != [] && readers[0] == []
      modifies this
      ensures Valid() && readers == old(readers)[1..] && (state == old(state) || (fresh(state) && fresh(state.scratch)))
    {
      var next, slots, left, after := CloseAndRenew(state, fingerprints, readers, parts, index, done, schema, keys,
                                                    encoders, hash);
      Install(next, slots, left, after);
    }

    method Install(next: V2FingerprintState, slots: seq<Option<(Digest, nat)>>, left: seq<seq<Batch>>, after: nat)
      requires ForFields(schema.fields) == Success(encoders) &&
               Progress(slots, left, parts, after, [], schema, keys, hash)
      requires left != [] ==> Suits(next, [], schema, keys, encoders, hash)
      modifies this
      ensures Valid() && readers == left && state == next
    {
      state, fingerprints, readers, index, done := next, slots, left, after, [];
    }

    /** The next batch of the concatenated stream; once nothing is left, every slot is filled. */
    method Next() returns (r: Outcome<Option<Batch>>)
      requires Valid() && AllWellTyped(parts)
      modifies this, state, state.scratch
      ensures r.Ok? ==> Valid()
      ensures r.Ok? && r.value.None? ==> Flatten(old(readers)) == [] && readers == []
      ensures r.Ok? && r.value.None? ==> forall i | 0 <= i < |parts| ::
              Fingerprinted(fingerprints[i], parts[i], schema, keys, hash)
      ensures r.Ok? && r.value.None? ==>
                |fingerprints| == |parts| && ForFields(schema.fields).Success? && forall i | 0 <= i < |parts| ::
                  && Conforming(AllRows(parts[i]), ForFields(schema.fields).value) && fingerprints[i].Some?
                  && fingerprints[i].value.0 == FingerprintOf(schema, keys, AllRows(parts[i]), hash)
                  && (|AllRows(parts[i])| < U64 ==> fingerprints[i].value.1 == |AllRows(parts[i])|)
      ensures r.Ok? && r.value.Some? ==> Flatten(old(readers)) == [r.value.value] + Flatten(readers)
      ensures r.Ok? <==> Flatten(old(readers)) == [] || Flatten(old(readers))[0].schema == schema
    {
      ghost var stream := Flatten(readers);
      while readers != [] && readers[0] == []
        invariant Valid() && Flatten(readers) == stream
        invariant state == old(state) || (fresh(state) && fresh(state.scratch))
        decreases |readers|
      {
        FlattenHead(readers);
        FinishCurrent();
      }
      if readers == [] {
        return Ok(None);
      }
      FlattenTail(readers);
      r := Deliver();
    }

    method Deliver() returns (r: Outcome<Option<Batch>>)
      requires Valid() && AllWellTyped(parts) && readers != [] && readers[0] != []
      modifies this`readers, this`done, state, state.scratch
      ensures r.Ok? ==> Valid() && r.value == Some(old(readers)[0][0])
      ensures r.Ok? ==> readers == old(readers)[0 := old(readers)[0][1..]]
      ensures r.Ok? <==> old(readers)[0][0].schema == schema
    {
      var batch := readers[0][0];
      NextBatch(readers, parts, index, done);
      var ok := state.Update(batch);
      if !ok {
        return SchemaMismatch;
      }
      readers, done := readers[0 := readers[0][1..]], done + [batch];
      r := Ok(Some(batch));
    }
  }
}
