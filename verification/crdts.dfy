/** The operation constructors of crdts/crdts.go, crdts/counter.go,
    crdts/gset.go and crdts/2pset.go: each builds the Operation record for
    one update and signs it. The record is kept in its JSON form, the form
    every replica reads back and reduces. */
module Crdts {

  import opened Wrappers
  import opened Operations
  import opened Reducers
  import opened Hex
  import Utils

  datatype CrdtError = NoSuchType

  /** The predecessors of a new operation: the current heads, hashed one by
      one, in order. */
  function HashPreds(env: Crypto, heads: seq<Bytes>): (preds: seq<Hash>)
    ensures |preds| == |heads|
    ensures forall i :: 0 <= i < |heads| ==> preds[i] == HashOperation(env, heads[i])
  {
    Utils.Map(heads, x => HashOperation(env, x))
  }

  /** The payload signed with ReadOperation's reading of it. */
  predicate ReadsBackAs(env: Crypto, signed: Bytes, op: Operation)
  {
    ReadOperation(env, signed) == Ok(op)
  }

  /** With a sound key, what a constructor signs reads back as its record
      exactly when the JSON codec round-trips that record. */
  lemma SignedRecordReadsBack(env: Crypto, secretKey: Bytes, op: Operation)
    ensures SoundKey(env, secretKey) ==> (ReadsBackAs(env, SignOperation(env, secretKey, op), op) <==> RoundTrips(env, op))
  {
    if SoundKey(env, secretKey) {
      SignedReadsBack(env, secretKey, op);
    }
  }

  // ---------------------------------------------------------------------
  // New keys (crdts.go).

  /** createCrdtOp's record: a `new` operation with no predecessors, no
      payload and a nonce of 8 random bytes in hex. */
  function CreateCrdtRecord(t: string, random: seq<Hex.byte>): (op: Operation)
    requires |random| == 8
    ensures op.op == "new" && op.preds == [] && op.crdt == JNull && op.crdtType == t
    ensures |op.nonce| == 16 && Hex.Decode(op.nonce) == (random, true)
  {
    Hex.DecodeEncode(random);
    Operation("new", [], JNull, t, Hex.Encode(random))
  }

  /** A signed operation and its id, the raw SHA-256 digest of the signed bytes. */
  datatype Created = Created(signed: Bytes, id: Bytes)

  /** NewCRDT: refuse an unknown type, otherwise sign a `new` record. The
      random bytes are a parameter; their source is not modelled. */
  function NewCRDT(env: Crypto, t: string, secretKey: Bytes, random: seq<Hex.byte>): (r: Result<Created, CrdtError>)
    requires |random| == 8
    ensures r.Err? <==> !IsValidCrdtType(t)
    ensures r.Ok? ==> r.value.id == env.sha256(r.value.signed)
    ensures r.Ok? ==> Hex.Encode(r.value.id) == HashOperation(env, r.value.signed)
    ensures r.Ok? && SoundKey(env, secretKey) ==>
      (ReadsBackAs(env, r.value.signed, CreateCrdtRecord(t, random)) <==> RoundTrips(env, CreateCrdtRecord(t, random)))
  {
    if !IsValidCrdtType(t) then Err(NoSuchType)
    else
      var signed := SignOperation(env, secretKey, CreateCrdtRecord(t, random));
      SignedRecordReadsBack(env, secretKey, CreateCrdtRecord(t, random));
      Ok(Created(signed, env.sha256(signed)))
  }

  // ---------------------------------------------------------------------
  // Counter (counter.go).

  /** The JSON `Counter{value: val}` marshals to. Its one field is
      unexported, so encoding/json skips it and the object is empty. */
  function CounterPayloadAsWritten(val: int): (j: Json)
    ensures j.JObject? && j.fields == map[]
  {
    JObject(map[])
  }

  /** An inc operation built as written carries no amount: reducing it
      panics on the missing "value" field. */
  lemma CounterAmountLostAsWritten(val: int, preds: seq<Hash>)
    ensures var op := Operation("inc", preds, CounterPayloadAsWritten(val), Counter, "");
      Amount(op).None? && Reduce(Counter, [op]) == Crash
  {
    var op := Operation("inc", preds, CounterPayloadAsWritten(val), Counter, "");
    assert CounterStep(0.0, op) == Crash;
  }

  /** The counter payload with the field exported as "value", the key the
      counter reducer reads. */
  function CounterPayload(val: int): (j: Json)
    ensures Payload(j) == Some(JNum(val as real))
  {
    JObject(map["value" := JNum(val as real)])
  }

  /** NewCounterOp's record. Its payload is the empty object the struct
      marshals to, which is harmless here: the reducer ignores `new`. */
  function NewCounterRecord(val: int): (op: Operation)
    ensures op.op == "new" && op.preds == [] && op.crdtType == Counter
    ensures op.crdt == CounterPayloadAsWritten(val)
    ensures Contribution(op) == 0.0 && !Malformed(Counter, op)
  {
    Operation("new", [], CounterPayloadAsWritten(val), Counter, "")
  }

  function IncCounterRecord(env: Crypto, val: int, heads: seq<Bytes>): (op: Operation)
    ensures op.op == "inc" && op.crdtType == Counter && op.preds == HashPreds(env, heads)
    ensures Amount(op) == Some(val as real) && Contribution(op) == val as real
  {
    Operation("inc", HashPreds(env, heads), CounterPayload(val), Counter, "")
  }

  function DecCounterRecord(env: Crypto, val: int, heads: seq<Bytes>): (op: Operation)
    ensures op.op == "dec" && op.crdtType == Counter && op.preds == HashPreds(env, heads)
    ensures Amount(op) == Some(val as real) && Contribution(op) == -(val as real)
  {
    Operation("dec", HashPreds(env, heads), CounterPayload(val), Counter, "")
  }

  /** A counter that saw one inc of `val` reads `val`: the amount the
      constructor writes is the amount the reducer reads. */
  lemma CounterRoundTrip(env: Crypto, val: int, heads: seq<Bytes>)
    ensures Reduce(Counter, [IncCounterRecord(env, val, heads)]) == Done(Total(val as real))
    ensures Reduce(Counter, [DecCounterRecord(env, val, heads)]) == Done(Total(-(val as real)))
  {
    var inc := IncCounterRecord(env, val, heads);
    var dec := DecCounterRecord(env, val, heads);
    assert CounterFold(0.0, [inc]) == CounterFold(val as real, []);
    assert CounterFold(0.0, [dec]) == CounterFold(0.0 - val as real, []);
  }

  function NewCounterOp(env: Crypto, secretKey: Bytes, val: int): (signed: Bytes)
    ensures SoundKey(env, secretKey) ==>
      (ReadsBackAs(env, signed, NewCounterRecord(val)) <==> RoundTrips(env, NewCounterRecord(val)))
  {
    SignedRecordReadsBack(env, secretKey, NewCounterRecord(val));
    SignOperation(env, secretKey, NewCounterRecord(val))
  }

  function IncCounterOp(env: Crypto, secretKey: Bytes, val: int, heads: seq<Bytes>): (signed: Bytes)
    ensures SoundKey(env, secretKey) ==>
      (ReadsBackAs(env, signed, IncCounterRecord(env, val, heads)) <==> RoundTrips(env, IncCounterRecord(env, val, heads)))
  {
    SignedRecordReadsBack(env, secretKey, IncCounterRecord(env, val, heads));
    SignOperation(env, secretKey, IncCounterRecord(env, val, heads))
  }

  function DecCounterOp(env: Crypto, secretKey: Bytes, val: int, heads: seq<Bytes>): (signed: Bytes)
    ensures SoundKey(env, secretKey) ==>
      (ReadsBackAs(env, signed, DecCounterRecord(env, val, heads)) <==> RoundTrips(env, DecCounterRecord(env, val, heads)))
  {
    SignedRecordReadsBack(env, secretKey, DecCounterRecord(env, val, heads));
    SignOperation(env, secretKey, DecCounterRecord(env, val, heads))
  }

  // ---------------------------------------------------------------------
  // Sets (gset.go, 2pset.go). Both wrap the member as `GSet{Value: val}`,
  // which marshals under the key "value".

  function SetPayload(val: Json): (j: Json)
    ensures Payload(j) == Some(val)
  {
    JObject(map["value" := val])
  }

  /** A set operation names the member it was built with, when that member
      can be a Go map key. */
  ghost predicate Names(op: Operation, val: Json)
  {
    Payload(op.crdt) == Some(val) && (Hashable(val) ==> Member(op) == Some(val))
  }

  function AddGSetRecord(env: Crypto, val: Json, heads: seq<Bytes>): (op: Operation)
    ensures op.op == "add" && op.crdtType == GSet && op.preds == HashPreds(env, heads)
    ensures Names(op, val)
  {
    Operation("add", HashPreds(env, heads), SetPayload(val), GSet, "")
  }

  function AddTwoPhaseSetRecord(env: Crypto, val: Json, heads: seq<Bytes>): (op: Operation)
    ensures op.op == "add" && op.crdtType == TwoPhaseSet && op.preds == HashPreds(env, heads)
    ensures Names(op, val)
  {
    Operation("add", HashPreds(env, heads), SetPayload(val), TwoPhaseSet, "")
  }

  function RemoveTwoPhaseSetRecord(env: Crypto, val: Json, heads: seq<Bytes>): (op: Operation)
    ensures op.op == "rmv" && op.crdtType == TwoPhaseSet && op.preds == HashPreds(env, heads)
    ensures Names(op, val)
  {
    Operation("rmv", HashPreds(env, heads), SetPayload(val), TwoPhaseSet, "")
  }

  /** Adding a hashable member to a grow-only set puts it in the value; in
      a two-phase set, removing it afterwards takes it out for good. */
  lemma SetRoundTrip(env: Crypto, val: Json, heads: seq<Bytes>)
    requires Hashable(val)
    ensures Reduce(GSet, [AddGSetRecord(env, val, heads)]) == Done(Members({val}))
    ensures Reduce(TwoPhaseSet, [AddTwoPhaseSetRecord(env, val, heads), RemoveTwoPhaseSetRecord(env, val, heads)])
      == Done(Members({}))
  {
    var add := AddGSetRecord(env, val, heads);
    assert SetFold(false, map[], [add]) == SetFold(false, map[val := true], []);
    assert Present(map[val := true]) == {val};
    var add2 := AddTwoPhaseSetRecord(env, val, heads);
    var rmv := RemoveTwoPhaseSetRecord(env, val, heads);
    assert [add2, rmv][1..] == [rmv];
    assert SetFold(true, map[], [add2, rmv]) == SetFold(true, map[val := true], [rmv]);
    assert Member(rmv) == Some(val);
    assert map[val := true][val := false] == map[val := false];
    assert SetFold(true, map[val := true], [rmv]) == SetFold(true, map[val := false], []);
    assert Present(map[val := false]) == {};
  }

  function AddGSetOp(env: Crypto, secretKey: Bytes, val: Json, heads: seq<Bytes>): (signed: Bytes)
    ensures SoundKey(env, secretKey) ==>
      (ReadsBackAs(env, signed, AddGSetRecord(env, val, heads)) <==> RoundTrips(env, AddGSetRecord(env, val, heads)))
  {
    SignedRecordReadsBack(env, secretKey, AddGSetRecord(env, val, heads));
    SignOperation(env, secretKey, AddGSetRecord(env, val, heads))
  }

  function AddTwoPhaseSetOp(env: Crypto, secretKey: Bytes, val: Json, heads: seq<Bytes>): (signed: Bytes)
    ensures SoundKey(env, secretKey) ==>
      (ReadsBackAs(env, signed, AddTwoPhaseSetRecord(env, val, heads)) <==> RoundTrips(env, AddTwoPhaseSetRecord(env, val, heads)))
  {
    SignedRecordReadsBack(env, secretKey, AddTwoPhaseSetRecord(env, val, heads));
    SignOperation(env, secretKey, AddTwoPhaseSetRecord(env, val, heads))
  }

  function RemoveTwoPhaseSetOp(env: Crypto, secretKey: Bytes, val: Json, heads: seq<Bytes>): (signed: Bytes)
    ensures SoundKey(env, secretKey) ==>
      (ReadsBackAs(env, signed, RemoveTwoPhaseSetRecord(env, val, heads)) <==> RoundTrips(env, RemoveTwoPhaseSetRecord(env, val, heads)))
  {
    SignedRecordReadsBack(env, secretKey, RemoveTwoPhaseSetRecord(env, val, heads));
    SignOperation(env, secretKey, RemoveTwoPhaseSetRecord(env, val, heads))
  }
}
