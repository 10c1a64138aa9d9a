/** The three reducers of crdts/operations.go that fold the surviving
    operations of a key into its value. A Go type assertion that fails
    panics; here that is the `Crash` outcome. */
module Reducers {

  import opened Wrappers
  import opened Operations
  import Utils

  /** The value of a key: the counter total (a float64 in the program) or
      the members of a set. */
  datatype Value = Total(n: real) | Members(items: set<Json>)

  predicate IsValidCrdtType(t: string)
  {
    t == Counter || t == GSet || t == TwoPhaseSet
  }

  /** The value of a key with no operation applied. */
  function Initial(t: string): Value
  {
    if t == Counter then Total(0.0) else Members({})
  }

  /** `crdt.(map[string]interface{})["value"]`: None when the payload is not
      a JSON object (the assertion panics); a missing key reads as null. */
  function Payload(crdt: Json): (v: Option<Json>)
    ensures v.Some? <==> crdt.JObject?
    ensures crdt.JObject? && "value" in crdt.fields ==> v == Some(crdt.fields["value"])
    ensures crdt.JObject? && "value" !in crdt.fields ==> v == Some(JNull)
  {
    match crdt
    case JObject(fields) => Some(if "value" in fields then fields["value"] else JNull)
    case _ => None
  }

  /** A value that can be a Go map key: slices and maps cannot. */
  predicate Hashable(j: Json)
  {
    !j.JArray? && !j.JObject?
  }

  /** The set member an add/rmv operation names, when it has a usable one. */
  function Member(op: Operation): Option<Json>
  {
    var p := Payload(op.crdt);
    if p.Some? && Hashable(p.value) then p else None
  }

  /** The amount an inc/dec operation carries: `["value"].(float64)`. */
  function Amount(op: Operation): Option<real>
  {
    var p := Payload(op.crdt);
    if p.Some? && p.value.JNum? then Some(p.value.n) else None
  }

  // ---------------------------------------------------------------------
  // The reducers as the program runs them: one step per operation.

  function CounterStep(total: real, op: Operation): Outcome<real>
  {
    if op.op == "inc" then
      if Amount(op).Some? then Done(total + Amount(op).value) else Crash
    else if op.op == "dec" then
      if Amount(op).Some? then Done(total - Amount(op).value) else Crash
    else Done(total)
  }

  function CounterFold(total: real, ops: seq<Operation>): Outcome<real>
    decreases |ops|
  {
    if ops == [] then Done(total)
    else match CounterStep(total, ops[0])
      case Crash => Crash
      case Done(t) => CounterFold(t, ops[1..])
  }

  /** One step of the grow-only set (twoPhase false) or two-phase set
      (twoPhase true) reducer over the map `member -> still present`. */
  function SetStep(twoPhase: bool, acc: map<Json, bool>, op: Operation): Outcome<map<Json, bool>>
  {
    if op.op == "add" then
      match Member(op)
      case None => Crash
      case Some(v) => Done(acc[v := if twoPhase && v in acc then acc[v] else true])
    else if twoPhase && op.op == "rmv" then
      match Member(op)
      case None => Crash
      case Some(v) => Done(acc[v := false])
    else Done(acc)
  }

  function SetFold(twoPhase: bool, acc: map<Json, bool>, ops: seq<Operation>): Outcome<map<Json, bool>>
    decreases |ops|
  {
    if ops == [] then Done(acc)
    else match SetStep(twoPhase, acc, ops[0])
      case Crash => Crash
      case Done(a) => SetFold(twoPhase, a, ops[1..])
  }

  /** The members still marked present. */
  function Present(acc: map<Json, bool>): set<Json>
  {
    set v | v in acc && acc[v]
  }

  /** The value of a key of type t whose surviving operations are `ops`,
      in the order the graph is walked. An unknown type panics. */
  function Reduce(t: string, ops: seq<Operation>): Outcome<Value>
  {
    if t == Counter then
      match CounterFold(0.0, ops)
      case Crash => Crash
      case Done(n) => Done(Total(n))
    else if t == GSet || t == TwoPhaseSet then
      match SetFold(t == TwoPhaseSet, map[], ops)
      case Crash => Crash
      case Done(acc) => Done(Members(Present(acc)))
    else Crash
  }

  // ---------------------------------------------------------------------
  // The closed forms: what a reduction computes, independent of order.

  /** An operation the reducer of type t cannot digest. */
  predicate Malformed(t: string, op: Operation)
  {
    if t == Counter then (op.op == "inc" || op.op == "dec") && Amount(op).None?
    else (op.op == "add" || (t == TwoPhaseSet && op.op == "rmv")) && Member(op).None?
  }

  function Contribution(op: Operation): real
  {
    if Amount(op).None? then 0.0
    else if op.op == "inc" then Amount(op).value
    else if op.op == "dec" then -Amount(op).value
    else 0.0
  }

  /** Σ inc − Σ dec. */
  function Sum(ops: seq<Operation>): real
  {
    if ops == [] then 0.0 else Contribution(ops[0]) + Sum(ops[1..])
  }

  function Tagged(tag: string, ops: seq<Operation>): set<Json>
  {
    set op | op in ops && op.op == tag && Member(op).Some? :: Member(op).value
  }

  /** What a reduction yields: a crash iff the type is unknown or some
      operation is malformed; otherwise Σinc − Σdec, the added members,
      or the members added and never removed. */
  function Expected(t: string, ops: seq<Operation>): Outcome<Value>
  {
    if !IsValidCrdtType(t) || exists op :: op in ops && Malformed(t, op) then Crash
    else if t == Counter then Done(Total(Sum(ops)))
    else if t == GSet then Done(Members(Tagged("add", ops)))
    else Done(Members(Tagged("add", ops) - Tagged("rmv", ops)))
  }

  lemma TaggedSplit(tag: string, ops: seq<Operation>)
    requires ops != []
    ensures Tagged(tag, ops) == Tagged(tag, [ops[0]]) + Tagged(tag, ops[1..])
  {
    assert forall op :: op in ops <==> op == ops[0] || op in ops[1..];
  }

  lemma {:induction false} CounterFoldIsSum(total: real, ops: seq<Operation>)
    ensures CounterFold(total, ops)
         == if exists op :: op in ops && Malformed(Counter, op) then Crash else Done(total + Sum(ops))
    decreases |ops|
  {
    if ops != [] {
      assert forall op :: op in ops <==> op == ops[0] || op in ops[1..];
      if !Malformed(Counter, ops[0]) {
        CounterFoldIsSum(total + Contribution(ops[0]), ops[1..]);
      }
    }
  }

  /** The members a set fold has seen, starting from acc. */
  function Seen(twoPhase: bool, acc: map<Json, bool>, ops: seq<Operation>): set<Json>
  {
    acc.Keys + Tagged("add", ops) + (if twoPhase then Tagged("rmv", ops) else {})
  }

  /** Whether v is marked present once a set fold from acc has taken ops:
      a removal anywhere wins; otherwise an earlier mark stands (or an add
      sets it, for the grow-only set); a fresh add marks it present. */
  function PresentAfter(twoPhase: bool, acc: map<Json, bool>, ops: seq<Operation>, v: Json): bool
  {
    if twoPhase && v in Tagged("rmv", ops) then false
    else if v in acc then acc[v] || (!twoPhase && v in Tagged("add", ops))
    else true
  }

  /** m is the map a set fold from acc over ops ends with. */
  ghost predicate Describes(m: map<Json, bool>, twoPhase: bool, acc: map<Json, bool>, ops: seq<Operation>)
  {
    m.Keys == Seen(twoPhase, acc, ops)
    && forall v :: v in m ==> m[v] == PresentAfter(twoPhase, acc, ops, v)
  }

  lemma TaggedOne(tag: string, op: Operation)
    ensures Tagged(tag, [op]) == if op.op == tag && Member(op).Some? then {Member(op).value} else {}
  {
    assert forall o :: o in [op] <==> o == op;
  }

  /** One well-formed step moves the description along. */
  lemma SetStepDescribes(twoPhase: bool, acc: map<Json, bool>, ops: seq<Operation>, m: map<Json, bool>)
    requires ops != []
    requires !Malformed(if twoPhase then TwoPhaseSet else GSet, ops[0])
    requires SetStep(twoPhase, acc, ops[0]).Done?
    requires Describes(m, twoPhase, SetStep(twoPhase, acc, ops[0]).value, ops[1..])
    ensures Describes(m, twoPhase, acc, ops)
  {
    var op := ops[0];
    TaggedSplit("add", ops);
    TaggedSplit("rmv", ops);
    TaggedOne("add", op);
    TaggedOne("rmv", op);
    if op.op == "add" {
      AddDescribes(twoPhase, acc, ops, m);
    } else if twoPhase && op.op == "rmv" {
      RmvDescribes(acc, ops, m);
    } else {
      assert SetStep(twoPhase, acc, op).value == acc;
    }
  }

  lemma AddDescribes(twoPhase: bool, acc: map<Json, bool>, ops: seq<Operation>, m: map<Json, bool>)
    requires ops != [] && ops[0].op == "add" && Member(ops[0]).Some?
    requires Tagged("add", ops) == {Member(ops[0]).value} + Tagged("add", ops[1..])
    requires Tagged("rmv", ops) == Tagged("rmv", ops[1..])
    requires Describes(m, twoPhase, SetStep(twoPhase, acc, ops[0]).value, ops[1..])
    ensures Describes(m, twoPhase, acc, ops)
  {
    var v := Member(ops[0]).value;
    var a := acc[v := if twoPhase && v in acc then acc[v] else true];
    assert SetStep(twoPhase, acc, ops[0]).value == a;
    assert m.Keys == Seen(twoPhase, acc, ops);
  }

  lemma RmvDescribes(acc: map<Json, bool>, ops: seq<Operation>, m: map<Json, bool>)
    requires ops != [] && ops[0].op == "rmv" && Member(ops[0]).Some?
    requires Tagged("rmv", ops) == {Member(ops[0]).value} + Tagged("rmv", ops[1..])
    requires Tagged("add", ops) == Tagged("add", ops[1..])
    requires Describes(m, true, SetStep(true, acc, ops[0]).value, ops[1..])
    ensures Describes(m, true, acc, ops)
  {
    var v := Member(ops[0]).value;
    assert SetStep(true, acc, ops[0]).value == acc[v := false];
    assert m.Keys == Seen(true, acc, ops);
  }

  lemma {:induction false} SetFoldDescribed(twoPhase: bool, acc: map<Json, bool>, ops: seq<Operation>)
    ensures SetFold(twoPhase, acc, ops).Crash?
        <==> exists op :: op in ops && Malformed(if twoPhase then TwoPhaseSet else GSet, op)
    ensures SetFold(twoPhase, acc, ops).Done? ==> Describes(SetFold(twoPhase, acc, ops).value, twoPhase, acc, ops)
    decreases |ops|
  {
    var t := if twoPhase then TwoPhaseSet else GSet;
    if ops == [] {
      assert Seen(twoPhase, acc, ops) == acc.Keys;
    } else {
      assert forall op :: op in ops <==> op == ops[0] || op in ops[1..];
      if !Malformed(t, ops[0]) {
        var a := SetStep(twoPhase, acc, ops[0]).value;
        assert SetFold(twoPhase, acc, ops) == SetFold(twoPhase, a, ops[1..]);
        SetFoldDescribed(twoPhase, a, ops[1..]);
        if SetFold(twoPhase, a, ops[1..]).Done? {
          SetStepDescribes(twoPhase, acc, ops, SetFold(twoPhase, a, ops[1..]).value);
        }
      } else {
        assert ops[0] in ops;
        assert SetStep(twoPhase, acc, ops[0]) == Crash;
      }
    }
  }

  /** The reducers compute their closed forms. */
  lemma ReduceIsExpected(t: string, ops: seq<Operation>)
    ensures Reduce(t, ops) == Expected(t, ops)
  {
    if t == Counter {
      CounterFoldIsSum(0.0, ops);
    } else if t == GSet || t == TwoPhaseSet {
      var twoPhase := t == TwoPhaseSet;
      SetFoldDescribed(twoPhase, map[], ops);
      if !exists op :: op in ops && Malformed(t, op) {
        var after := SetFold(twoPhase, map[], ops).value;
        if twoPhase {
          assert Present(after) == Tagged("add", ops) - Tagged("rmv", ops);
        } else {
          assert Present(after) == Tagged("add", ops);
        }
      }
    }
  }

  lemma {:induction false} SumConcat(a: seq<Operation>, b: seq<Operation>)
    ensures Sum(a + b) == Sum(a) + Sum(b)
  {
    if a != [] {
      assert (a + b)[0] == a[0];
      assert (a + b)[1..] == a[1..] + b;
      SumConcat(a[1..], b);
      assert Sum(a + b) == Contribution(a[0]) + Sum(a[1..] + b);
    } else {
      assert a + b == b;
    }
  }

  lemma {:induction false} SumPermutation(a: seq<Operation>, b: seq<Operation>)
    requires multiset(a) == multiset(b)
    ensures Sum(a) == Sum(b)
    decreases |a|
  {
    if a != [] {
      assert a[0] in multiset(b);
      var i :| 0 <= i < |b| && b[i] == a[0];
      var rest := b[..i] + b[i + 1..];
      SumWithout(b, i);
      Utils.MultisetWithout(b, i);
      assert multiset(a[1..]) == multiset(a) - multiset{a[0]} by {
        assert a == [a[0]] + a[1..];
      }
      SumPermutation(a[1..], rest);
      assert a == [a[0]] + a[1..];
      SumConcat([a[0]], a[1..]);
    }
  }

  /** Taking one operation out of a sequence takes its contribution out
      of the sum. */
  lemma SumWithout(b: seq<Operation>, i: nat)
    requires i < |b|
    ensures Sum(b) == Contribution(b[i]) + Sum(b[..i] + b[i + 1..])
  {
    var x, y := b[..i], b[i + 1..];
    var tail := [b[i]] + y;
    assert b == x + tail;
    SumConcat(x, tail);
    assert tail[0] == b[i] && tail[1..] == y;
    assert Sum(tail) == Contribution(b[i]) + Sum(y);
    SumConcat(x, y);
  }

  /** The value does not depend on the order the operations are walked:
      any rearrangement of the same operations reduces alike. */
  lemma ReduceOrderFree(t: string, a: seq<Operation>, b: seq<Operation>)
    requires multiset(a) == multiset(b)
    ensures Reduce(t, a) == Reduce(t, b)
  {
    ReduceIsExpected(t, a);
    ReduceIsExpected(t, b);
    assert forall op :: op in a <==> op in b by {
      forall op ensures op in a <==> op in b {
        assert op in a <==> op in multiset(a);
      }
    }
    assert Tagged("add", a) == Tagged("add", b);
    assert Tagged("rmv", a) == Tagged("rmv", b);
    SumPermutation(a, b);
  }
}
