/** CalculateOperations of crdts/operations.go: from a key's log of signed
    operations to its heads and value. The passes are kept apart: collect
    the admissible operations by hash, prune those whose predecessors are
    unknown until nothing changes, assign tiers by walking predecessors,
    then read heads and value off the tiers. */
module CausalGraph {

  import opened Wrappers
  import opened Hex
  import opened Operations
  import opened Reducers
  import SortedSet
  import Utils

  // ---------------------------------------------------------------------
  // Pass 1: collect.

  /** The admitted operations by hash, and the payload each was read from. */
  datatype Pool = Pool(ops: map<Hash, Operation>, signed: map<Hash, Bytes>)

  /** A payload that reads back as an operation of type t. */
  predicate Admitted(env: Crypto, t: string, x: Bytes)
  {
    ReadOperation(env, x).Ok? && ReadOperation(env, x).value.crdtType == t
  }

  /** Keep the payloads that read back with the key's type, keyed by hash;
      copies of one payload collapse into one entry. */
  function Collect(env: Crypto, log: seq<Bytes>, t: string): (p: Pool)
    ensures p.ops.Keys == p.signed.Keys
    ensures forall h :: h in p.ops <==> exists x :: x in log && Admitted(env, t, x) && HashOperation(env, x) == h
    ensures forall h :: h in p.ops ==>
      && p.signed[h] in log
      && Admitted(env, t, p.signed[h])
      && HashOperation(env, p.signed[h]) == h
      && ReadOperation(env, p.signed[h]) == Ok(p.ops[h])
    decreases |log|
  {
    if log == [] then Pool(map[], map[])
    else
      var init := log[..|log| - 1];
      var x := log[|log| - 1];
      assert log == init + [x];
      var p := Collect(env, init, t);
      if Admitted(env, t, x) then
        var h := HashOperation(env, x);
        Pool(p.ops[h := ReadOperation(env, x).value], p.signed[h := x])
      else p
  }

  /** Under hash injectivity the pool depends only on which payloads are
      in the log, not on their order or repetition. */
  lemma CollectBySet(env: Crypto, log1: seq<Bytes>, log2: seq<Bytes>, t: string)
    requires forall x :: x in log1 <==> x in log2
    requires HashInjectiveOn(env, set x | x in log1)
    ensures Collect(env, log1, t) == Collect(env, log2, t)
  {
    var p1 := Collect(env, log1, t);
    var p2 := Collect(env, log2, t);
    CollectKeysBySet(env, log1, log2, t);
    forall h | h in p1.ops
      ensures p1.signed[h] == p2.signed[h] && p1.ops[h] == p2.ops[h]
    {
      CollectEntryBySet(env, log1, log2, t, h);
    }
    SamePool(p1, p2);
  }

  lemma SamePool(p1: Pool, p2: Pool)
    requires p1.ops.Keys == p1.signed.Keys == p2.ops.Keys == p2.signed.Keys
    requires forall h :: h in p1.ops ==> p1.signed[h] == p2.signed[h] && p1.ops[h] == p2.ops[h]
    ensures p1 == p2
  {
    assert p1.signed == p2.signed;
    assert p1.ops == p2.ops;
  }

  lemma CollectEntryBySet(env: Crypto, log1: seq<Bytes>, log2: seq<Bytes>, t: string, h: Hash)
    requires forall x :: x in log1 <==> x in log2
    requires HashInjectiveOn(env, set x | x in log1)
    requires h in Collect(env, log1, t).ops && h in Collect(env, log2, t).ops
    ensures Collect(env, log1, t).signed[h] == Collect(env, log2, t).signed[h]
    ensures Collect(env, log1, t).ops[h] == Collect(env, log2, t).ops[h]
  {
    var a := Collect(env, log1, t).signed[h];
    var b := Collect(env, log2, t).signed[h];
    HashInjectiveAt(env, (set x | x in log1), a, b);
  }

  lemma CollectKeysBySet(env: Crypto, log1: seq<Bytes>, log2: seq<Bytes>, t: string)
    requires forall x :: x in log1 <==> x in log2
    ensures Collect(env, log1, t).ops.Keys == Collect(env, log2, t).ops.Keys
  {
    var p1 := Collect(env, log1, t);
    var p2 := Collect(env, log2, t);
    forall h
      ensures h in p1.ops <==> h in p2.ops
    {
      if h in p1.ops {
        assert p1.signed[h] in log2;
      }
      if h in p2.ops {
        assert p2.signed[h] in log1;
      }
    }
  }

  // ---------------------------------------------------------------------
  // Pass 2: prune to causal closure.

  /** Every predecessor of every operation is present. */
  ghost predicate Closed(ops: map<Hash, Operation>)
  {
    forall k, p :: k in ops && p in ops[k].preds ==> p in ops
  }

  /** The operations one pass deletes: those with an absent predecessor. */
  function Doomed(ops: map<Hash, Operation>): set<Hash>
  {
    set k | k in ops && exists p :: p in ops[k].preds && p !in ops
  }

  /** Delete doomed operations until a pass deletes nothing. */
  function Prune(ops: map<Hash, Operation>): (live: map<Hash, Operation>)
    ensures live.Keys <= ops.Keys
    ensures forall k :: k in live ==> live[k] == ops[k]
    ensures Closed(live)
    decreases ops.Keys
  {
    var doomed := Doomed(ops);
    if doomed == {} then
      assert Closed(ops) by {
        forall k | k in ops
          ensures forall p :: p in ops[k].preds ==> p in ops
        {
          assert k !in doomed;
        }
      }
      ops
    else
      var k0 :| k0 in doomed;
      var next := map k | k in ops && k !in doomed :: ops[k];
      assert k0 !in next.Keys;
      Prune(next)
  }

  /** Pruning deletes only what it must: every closed part of the input
      survives. */
  lemma {:induction false} PruneKeepsClosedParts(ops: map<Hash, Operation>, keep: set<Hash>)
    requires keep <= ops.Keys
    requires forall k, p :: k in keep && p in ops[k].preds ==> p in keep
    ensures keep <= Prune(ops).Keys
    decreases ops.Keys
  {
    var doomed := Doomed(ops);
    if doomed != {} {
      var k0 :| k0 in doomed;
      var next := map k | k in ops && k !in doomed :: ops[k];
      assert k0 !in next.Keys;
      forall k | k in keep
        ensures k !in doomed
      {
        assert forall p :: p in ops[k].preds ==> p in ops;
      }
      PruneKeepsClosedParts(next, keep);
    }
  }

  /** The predecessors the first pass finds absent. */
  function MissingPreds(ops: map<Hash, Operation>): set<Hash>
  {
    set k, p | k in ops && p in ops[k].preds && p !in ops :: p
  }

  /** Nothing is reported missing exactly when nothing is pruned. */
  lemma NothingMissingIffNothingPruned(ops: map<Hash, Operation>)
    ensures MissingPreds(ops) == {} <==> Prune(ops) == ops
  {
    if MissingPreds(ops) == {} {
      forall k | k in ops
        ensures k !in Doomed(ops)
      {
        forall p | p in ops[k].preds
          ensures p in ops
        {
          assert p !in ops ==> p in MissingPreds(ops);
        }
      }
      assert Doomed(ops) == {};
    } else {
      var p :| p in MissingPreds(ops);
      var k :| k in ops && p in ops[k].preds && p !in ops;
      assert !Closed(ops);
    }
  }

  // ---------------------------------------------------------------------
  // Pass 3: tiers. propagateNode walks predecessors recursively, raising
  // each one's tier to one more than its successor's. On a cycle the Go
  // recursion never ends and the stack overflows; here the depth is
  // bounded by `fuel` and running out of it is the crash.

  /** x is the predecessor of some operation. */
  ghost predicate IsPred(ops: map<Hash, Operation>, x: Hash)
  {
    exists k :: k in ops && x in ops[k].preds
  }

  /** Tiers are only ever added or raised. */
  ghost predicate Grows(g: map<Hash, nat>, r: map<Hash, nat>)
  {
    g.Keys <= r.Keys && forall x :: x in g ==> g[x] <= r[x]
  }

  /** `tiers[key] = max(tiers[key], tier)`, a missing key counting as below
      every tier. */
  function Raise(g: map<Hash, nat>, key: Hash, tier: nat): (r: map<Hash, nat>)
    ensures Grows(g, r) && r.Keys == g.Keys + {key} && r[key] >= tier
    ensures forall x :: x in r && r[x] > 0 ==> (x in g && g[x] > 0) || (x == key && tier > 0)
    ensures forall x :: x in g && x != key ==> r[x] == g[x]
    ensures r[key] == if key in g && g[key] > tier then g[key] else tier
  {
    if key !in g || tier > g[key] then g[key := tier] else g
  }

  /** One step of the walk's fuel. */
  function Spend(fuel: nat): (r: nat)
    requires fuel > 0
    ensures r + 1 == fuel
  {
    fuel - 1
  }

  function Propagate(ops: map<Hash, Operation>, g: map<Hash, nat>, key: Hash, tier: nat, fuel: nat)
    : (r: Option<map<Hash, nat>>)
    requires Closed(ops) && key in ops && g.Keys <= ops.Keys
    ensures r.Some? ==> Grows(g, r.value) && r.value.Keys <= ops.Keys
    ensures r.Some? ==> key in r.value && r.value[key] >= tier
    ensures r.Some? ==> forall x :: x in r.value && r.value[x] > 0 ==>
      (x in g && g[x] > 0) || IsPred(ops, x) || (x == key && tier > 0)
    decreases fuel, 0, 0
  {
    if fuel == 0 then None
    else
      var g1 := Raise(g, key, tier);
      var r := PropagatePreds(ops, g1, ops[key].preds, tier + 1, Spend(fuel));
      assert r.Some? ==> forall x :: x in ops[key].preds ==> IsPred(ops, x);
      r
  }

  function PropagatePreds(ops: map<Hash, Operation>, g: map<Hash, nat>, ps: seq<Hash>, tier: nat, fuel: nat)
    : (r: Option<map<Hash, nat>>)
    requires Closed(ops) && g.Keys <= ops.Keys
    requires forall p :: p in ps ==> p in ops
    ensures r.Some? ==> Grows(g, r.value) && r.value.Keys <= ops.Keys
    ensures r.Some? ==> forall p :: p in ps ==> p in r.value && r.value[p] >= tier
    ensures r.Some? ==> forall x :: x in r.value && r.value[x] > 0 ==>
      (x in g && g[x] > 0) || IsPred(ops, x) || (x in ps && tier > 0)
    decreases fuel, 1, |ps|
  {
    if ps == [] then Some(g)
    else
      match Propagate(ops, g, ps[0], tier, fuel)
      case None => None
      case Some(g2) =>
        var r := PropagatePreds(ops, g2, ps[1..], tier, fuel);
        assert forall p :: p in ps ==> p == ps[0] || p in ps[1..];
        r
  }

  /** The outer loop: start a walk at tier 0 from every operation not yet
      reached. */
  function TiersFrom(ops: map<Hash, Operation>, g: map<Hash, nat>, order: seq<Hash>, fuel: nat)
    : (r: Option<map<Hash, nat>>)
    requires Closed(ops) && g.Keys <= ops.Keys
    requires forall k :: k in order ==> k in ops
    ensures r.Some? ==> Grows(g, r.value) && r.value.Keys <= ops.Keys
    ensures r.Some? ==> forall k :: k in order ==> k in r.value
    ensures r.Some? ==> forall x :: x in r.value && r.value[x] > 0 ==> (x in g && g[x] > 0) || IsPred(ops, x)
    decreases |order|
  {
    if order == [] then Some(g)
    else if order[0] in g then TiersFrom(ops, g, order[1..], fuel)
    else
      match Propagate(ops, g, order[0], 0, fuel)
      case None => None
      case Some(g2) => TiersFrom(ops, g2, order[1..], fuel)
  }

  /** Every operation outside `pending` that has a tier has all its
      predecessors at tier one or more. */
  ghost predicate Settled(ops: map<Hash, Operation>, g: map<Hash, nat>, pending: set<Hash>)
  {
    forall k, p :: k in g && k !in pending && k in ops && p in ops[k].preds ==> p in g && g[p] >= 1
  }

  lemma SettledGrows(ops: map<Hash, Operation>, g: map<Hash, nat>, r: map<Hash, nat>, pending: set<Hash>)
    requires Settled(ops, g, pending) && Grows(g, r)
    ensures Settled(ops, r, pending + (r.Keys - g.Keys))
  {
  }

  lemma {:induction false} PropagateSettles(ops: map<Hash, Operation>, g: map<Hash, nat>, key: Hash, tier: nat, fuel: nat, pending: set<Hash>)
    requires Closed(ops) && key in ops && g.Keys <= ops.Keys
    requires Propagate(ops, g, key, tier, fuel).Some?
    requires Settled(ops, g, pending)
    ensures Settled(ops, Propagate(ops, g, key, tier, fuel).value, pending)
    decreases fuel, 0, 0
  {
    var g1 := Raise(g, key, tier);
    assert Settled(ops, g1, pending + {key}) by {
      SettledGrows(ops, g, g1, pending);
    }
    PropagateUnfold(ops, g, key, tier, fuel);
    var r := PropagatePreds(ops, g1, ops[key].preds, tier + 1, Spend(fuel));
    PropagatePredsSettle(ops, g1, ops[key].preds, tier + 1, Spend(fuel), pending + {key});
    SettleKey(ops, r.value, key, pending);
  }

  /** A key whose predecessors all have a positive tier leaves the pending set. */
  lemma SettleKey(ops: map<Hash, Operation>, r: map<Hash, nat>, key: Hash, pending: set<Hash>)
    requires key in ops
    requires Settled(ops, r, pending + {key})
    requires forall p :: p in ops[key].preds ==> p in r && r[p] >= 1
    ensures Settled(ops, r, pending)
  {
  }

  lemma {:induction false} PropagatePredsSettle(ops: map<Hash, Operation>, g: map<Hash, nat>, ps: seq<Hash>, tier: nat, fuel: nat, pending: set<Hash>)
    requires Closed(ops) && g.Keys <= ops.Keys
    requires forall p :: p in ps ==> p in ops
    requires PropagatePreds(ops, g, ps, tier, fuel).Some?
    requires Settled(ops, g, pending)
    ensures Settled(ops, PropagatePreds(ops, g, ps, tier, fuel).value, pending)
    decreases fuel, 1, |ps|
  {
    if ps != [] {
      PropagateSettles(ops, g, ps[0], tier, fuel, pending);
      var g2 := Propagate(ops, g, ps[0], tier, fuel).value;
      PropagatePredsSettle(ops, g2, ps[1..], tier, fuel, pending);
    }
  }

  lemma {:induction false} TiersSettle(ops: map<Hash, Operation>, g: map<Hash, nat>, order: seq<Hash>, fuel: nat)
    requires Closed(ops) && g.Keys <= ops.Keys
    requires forall k :: k in order ==> k in ops
    requires TiersFrom(ops, g, order, fuel).Some?
    requires Settled(ops, g, {})
    ensures Settled(ops, TiersFrom(ops, g, order, fuel).value, {})
    decreases |order|
  {
    if order != [] {
      if order[0] in g {
        TiersSettle(ops, g, order[1..], fuel);
      } else {
        PropagateSettles(ops, g, order[0], 0, fuel, {});
        TiersSettle(ops, Propagate(ops, g, order[0], 0, fuel).value, order[1..], fuel);
      }
    }
  }

  /** Once every operation has a tier, tier 0 marks exactly the operations
      no other operation names as a predecessor: the frontier. */
  lemma TierZeroIffFrontier(ops: map<Hash, Operation>, order: seq<Hash>, fuel: nat)
    requires Closed(ops)
    requires forall k :: k in order <==> k in ops
    requires TiersFrom(ops, map[], order, fuel).Some?
    ensures forall k :: k in ops ==>
      k in TiersFrom(ops, map[], order, fuel).value
      && (TiersFrom(ops, map[], order, fuel).value[k] == 0 <==> !IsPred(ops, k))
  {
    var r := TiersFrom(ops, map[], order, fuel).value;
    TiersSettle(ops, map[], order, fuel);
    forall k | k in ops
      ensures IsPred(ops, k) ==> r[k] >= 1
    {
      if IsPred(ops, k) {
        var succ :| succ in ops && k in ops[succ].preds;
        assert succ in r;
      }
    }
  }

  /** Acyclicity, witnessed by a rank below `bound` that every
      predecessor undercuts. */
  ghost predicate Ranked(ops: map<Hash, Operation>, rank: map<Hash, nat>, bound: nat)
  {
    && (forall k :: k in ops ==> k in rank && rank[k] < bound)
    && (forall k, p :: k in ops && p in ops[k].preds && p in rank ==> rank[p] < rank[k])
  }

  lemma {:induction false} PropagateTerminates(ops: map<Hash, Operation>, g: map<Hash, nat>, key: Hash, tier: nat, fuel: nat, rank: map<Hash, nat>)
    requires Closed(ops) && key in ops && g.Keys <= ops.Keys
    requires Ranked(ops, rank, |ops|) && rank[key] < fuel
    ensures Propagate(ops, g, key, tier, fuel).Some?
    decreases fuel, 0, 1
  {
    PropagateUnfold(ops, g, key, tier, fuel);
    PredsOfKeyTerminate(ops, Raise(g, key, tier), key, tier, fuel, rank);
  }

  lemma {:induction false} PredsOfKeyTerminate(ops: map<Hash, Operation>, g1: map<Hash, nat>, key: Hash, tier: nat, fuel: nat, rank: map<Hash, nat>)
    requires Closed(ops) && key in ops && g1.Keys <= ops.Keys
    requires Ranked(ops, rank, |ops|) && rank[key] < fuel
    ensures PropagatePreds(ops, g1, ops[key].preds, tier + 1, Spend(fuel)).Some?
    decreases fuel, 0, 0
  {
    RankedPreds(ops, rank, key, fuel);
    PropagatePredsTerminate(ops, g1, ops[key].preds, tier + 1, Spend(fuel), rank);
  }

  /** The predecessors of a key rank below it. */
  lemma RankedPreds(ops: map<Hash, Operation>, rank: map<Hash, nat>, key: Hash, fuel: nat)
    requires Closed(ops) && key in ops
    requires Ranked(ops, rank, |ops|) && rank[key] < fuel
    ensures forall p :: p in ops[key].preds ==> p in ops && rank[p] < Spend(fuel)
  {
    forall p | p in ops[key].preds
      ensures p in ops && rank[p] < Spend(fuel)
    {
      assert p in ops && p in rank;
    }
  }

  lemma PropagateUnfold(ops: map<Hash, Operation>, g: map<Hash, nat>, key: Hash, tier: nat, fuel: nat)
    requires Closed(ops) && key in ops && g.Keys <= ops.Keys
    requires fuel > 0
    ensures Propagate(ops, g, key, tier, fuel)
         == PropagatePreds(ops, Raise(g, key, tier), ops[key].preds, tier + 1, Spend(fuel))
  {
  }

  lemma {:induction false} PropagatePredsTerminate(ops: map<Hash, Operation>, g: map<Hash, nat>, ps: seq<Hash>, tier: nat, fuel: nat, rank: map<Hash, nat>)
    requires Closed(ops) && g.Keys <= ops.Keys
    requires Ranked(ops, rank, |ops|)
    requires forall p :: p in ps ==> p in ops && rank[p] < fuel
    ensures PropagatePreds(ops, g, ps, tier, fuel).Some?
    decreases fuel, 1, |ps|
  {
    if ps != [] {
      PropagateTerminates(ops, g, ps[0], tier, fuel, rank);
      var g2 := Propagate(ops, g, ps[0], tier, fuel).value;
      assert forall p :: p in ps[1..] ==> p in ps;
      PropagatePredsTerminate(ops, g2, ps[1..], tier, fuel, rank);
    }
  }

  /** With acyclic predecessors the walk never runs out of depth. */
  lemma {:induction false} TiersTerminate(ops: map<Hash, Operation>, g: map<Hash, nat>, order: seq<Hash>, rank: map<Hash, nat>)
    requires Closed(ops) && g.Keys <= ops.Keys
    requires forall k :: k in order ==> k in ops
    requires Ranked(ops, rank, |ops|)
    ensures TiersFrom(ops, g, order, |ops|).Some?
    decreases |order|
  {
    if order != [] {
      if order[0] in g {
        TiersTerminate(ops, g, order[1..], rank);
      } else {
        PropagateTerminates(ops, g, order[0], 0, |ops|, rank);
        TiersTerminate(ops, Propagate(ops, g, order[0], 0, |ops|).value, order[1..], rank);
      }
    }
  }

  // ---------------------------------------------------------------------
  // Pass 4: read heads and value off the tiers.

  /** The surviving hashes in the order the graph is walked. Go walks its
      maps in an unspecified order; the model walks them in ascending hash
      order, and CalcValueInAnyOrder shows the value does not depend on it. */
  function Enumerate(env: Crypto, log: seq<Bytes>, live: map<Hash, Operation>): (order: seq<Hash>)
    ensures SortedSet.Strict(order)
    ensures forall h :: h in order <==> h in live && exists x :: x in log && HashOperation(env, x) == h
  {
    var hashes := Utils.Map(log, x => HashOperation(env, x));
    var all := SortedSet.FromSlice(hashes);
    SortedSet.FilterKeepsStrict(all, h => h in live);
    assert forall h :: h in all <==> exists x :: x in log && HashOperation(env, x) == h by {
      forall h
        ensures h in all <==> exists x :: x in log && HashOperation(env, x) == h
      {
        assert h in all <==> h in SortedSet.Elems(hashes);
        if h in hashes {
          var i :| 0 <= i < |hashes| && hashes[i] == h;
          assert log[i] in log;
        }
        if exists x :: x in log && HashOperation(env, x) == h {
          var x :| x in log && HashOperation(env, x) == h;
          var i :| 0 <= i < |log| && log[i] == x;
          assert hashes[i] == h;
        }
      }
    }
    Utils.Filter(all, h => h in live)
  }

  /** The operations at the given hashes, in that order. */
  function OpsOf(order: seq<Hash>, ops: map<Hash, Operation>): (r: seq<Operation>)
    requires forall k :: k in order ==> k in ops
    ensures |r| == |order|
    ensures forall i :: 0 <= i < |order| ==> r[i] == ops[order[i]]
  {
    if order == [] then [] else [ops[order[0]]] + OpsOf(order[1..], ops)
  }

  /** The payloads of the tier-0 operations, in walk order. */
  function HeadsOf(order: seq<Hash>, tiers: map<Hash, nat>, signed: map<Hash, Bytes>): (heads: seq<Bytes>)
    requires forall k :: k in order ==> k in tiers && k in signed
    ensures forall x :: x in heads <==> exists k :: k in order && tiers[k] == 0 && signed[k] == x
  {
    if order == [] then []
    else
      var rest := HeadsOf(order[1..], tiers, signed);
      assert forall k :: k in order <==> k == order[0] || k in order[1..];
      (if tiers[order[0]] == 0 then [signed[order[0]]] else []) + rest
  }

  /** OpCalcResult. */
  datatype CalcResult = CalcResult(heads: seq<Bytes>, value: Value, predsMissing: set<Hash>, crdtType: string)

  /** The operations that survive both passes. */
  function Live(env: Crypto, log: seq<Bytes>, t: string): (live: map<Hash, Operation>)
    ensures Closed(live)
  {
    Prune(Collect(env, log, t).ops)
  }

  ghost predicate LiveEnumeratedPre(env: Crypto, log: seq<Bytes>, t: string)
  {
    forall h :: h in Enumerate(env, log, Live(env, log, t)) <==> h in Live(env, log, t)
  }

  lemma LiveEnumerated(env: Crypto, log: seq<Bytes>, t: string)
    ensures LiveEnumeratedPre(env, log, t)
    ensures forall h :: h in Enumerate(env, log, Live(env, log, t)) <==> h in Live(env, log, t)
  {
    var pool := Collect(env, log, t);
    forall h | h in Live(env, log, t)
      ensures exists x :: x in log && HashOperation(env, x) == h
    {
      assert pool.signed[h] in log;
    }
  }

  /** CalculateOperations: the heads and value of a key whose log is
      `log` and whose type is t. */
  function CalculateOperations(env: Crypto, log: seq<Bytes>, t: string): (r: Outcome<CalcResult>)
    ensures !IsValidCrdtType(t) ==> r == Crash
    ensures r.Done? ==> r.value.crdtType == t
    ensures r.Done? ==> forall x :: x in r.value.heads ==> x in log && Admitted(env, t, x)
  {
    var pool := Collect(env, log, t);
    var live := Live(env, log, t);
    var order := Enumerate(env, log, live);
    LiveEnumerated(env, log, t);
    match TiersFrom(live, map[], order, |live|)
    case None => Crash
    case Some(tiers) =>
      match Reduce(t, OpsOf(order, live))
      case Crash => Crash
      case Done(v) => Done(CalcResult(HeadsOf(order, tiers, pool.signed), v, MissingPreds(pool.ops), t))
  }

  /** Heads are the frontier: the payloads of exactly those surviving
      operations that no surviving operation names as a predecessor. */
  lemma CalcHeadsAreFrontier(env: Crypto, log: seq<Bytes>, t: string)
    requires CalculateOperations(env, log, t).Done?
    ensures var live := Live(env, log, t);
      forall x :: x in CalculateOperations(env, log, t).value.heads <==>
        exists k :: k in live && !IsPred(live, k) && Collect(env, log, t).signed[k] == x
  {
    var pool := Collect(env, log, t);
    var live := Live(env, log, t);
    var order := Enumerate(env, log, live);
    LiveEnumerated(env, log, t);
    var tiers := TiersFrom(live, map[], order, |live|).value;
    TierZeroIffFrontier(live, order, |live|);
    assert CalculateOperations(env, log, t).value.heads == HeadsOf(order, tiers, pool.signed);
  }

  lemma {:induction false} OpsOfConcat(x: seq<Hash>, y: seq<Hash>, ops: map<Hash, Operation>)
    requires forall k :: k in x + y ==> k in ops
    ensures forall k :: k in x ==> k in ops
    ensures forall k :: k in y ==> k in ops
    ensures OpsOf(x + y, ops) == OpsOf(x, ops) + OpsOf(y, ops)
  {
    assert forall k :: k in x ==> k in x + y;
    assert forall k :: k in y ==> k in x + y;
    var l := OpsOf(x + y, ops);
    var r := OpsOf(x, ops) + OpsOf(y, ops);
    forall i | 0 <= i < |l|
      ensures l[i] == r[i]
    {
      if i < |x| {
        assert (x + y)[i] == x[i];
      } else {
        assert (x + y)[i] == y[i - |x|];
      }
    }
  }

  /** Taking one hash out of a walk. */
  lemma SplitAt(b: seq<Hash>, i: nat, ops: map<Hash, Operation>)
    requires i < |b|
    requires forall k :: k in b ==> k in ops
    ensures forall k :: k in b[..i] + b[i + 1..] ==> k in ops
    ensures multiset(b[..i] + b[i + 1..]) == multiset(b) - multiset{b[i]}
    ensures multiset(OpsOf(b[..i] + b[i + 1..], ops)) == multiset(OpsOf(b, ops)) - multiset{ops[b[i]]}
  {
    Utils.MultisetWithout(b, i);
    OpsOfWithout(b, i, ops);
    Utils.MultisetWithout(OpsOf(b, ops), i);
  }

  lemma OpsOfWithout(b: seq<Hash>, i: nat, ops: map<Hash, Operation>)
    requires i < |b|
    requires forall k :: k in b ==> k in ops
    ensures forall k :: k in b[..i] + b[i + 1..] ==> k in ops
    ensures OpsOf(b[..i] + b[i + 1..], ops) == OpsOf(b, ops)[..i] + OpsOf(b, ops)[i + 1..]
  {
    var rest := b[..i] + b[i + 1..];
    Utils.WithoutMembers(b, i);
    var o := OpsOf(b, ops);
    var l := OpsOf(rest, ops);
    forall j | 0 <= j < |l|
      ensures l[j] == (o[..i] + o[i + 1..])[j]
    {
      Utils.WithoutAt(b, i, j);
      Utils.WithoutAt(o, i, j);
    }
  }

  lemma PutBack<T>(m: multiset<T>, x: T)
    requires x in m
    ensures multiset{x} + (m - multiset{x}) == m
  {
    assert forall y :: (multiset{x} + (m - multiset{x}))[y] == m[y];
  }

  lemma OpsOfCons(a: seq<Hash>, ops: map<Hash, Operation>)
    requires a != []
    requires forall k :: k in a ==> k in ops
    ensures forall k :: k in a[1..] ==> k in ops
    ensures multiset(OpsOf(a, ops)) == multiset{ops[a[0]]} + multiset(OpsOf(a[1..], ops))
  {
    assert forall k :: k in a[1..] ==> k in a;
    assert OpsOf(a, ops) == [ops[a[0]]] + OpsOf(a[1..], ops);
  }

  lemma SameElements(a: seq<Hash>, b: seq<Hash>)
    requires multiset(a) == multiset(b)
    ensures forall k :: k in b ==> k in a
  {
    forall k | k in b ensures k in a {
      assert k in multiset(b);
    }
  }

  lemma TailMatches(a: seq<Hash>, b: seq<Hash>, i: nat)
    requires a != [] && i < |b| && b[i] == a[0]
    requires multiset(a) == multiset(b)
    ensures multiset(a[1..]) == multiset(b) - multiset{b[i]}
  {
    assert a == [a[0]] + a[1..];
  }

  lemma {:induction false} OpsOfPermutation(a: seq<Hash>, b: seq<Hash>, ops: map<Hash, Operation>)
    requires forall k :: k in a ==> k in ops
    requires multiset(a) == multiset(b)
    ensures forall k :: k in b ==> k in ops
    ensures multiset(OpsOf(a, ops)) == multiset(OpsOf(b, ops))
    decreases |a|
  {
    SameElements(a, b);
    if a != [] {
      assert a[0] in multiset(b);
      var i :| 0 <= i < |b| && b[i] == a[0];
      SplitAt(b, i, ops);
      TailMatches(a, b, i);
      OpsOfCons(a, ops);
      OpsOfPermutation(a[1..], b[..i] + b[i + 1..], ops);
      var ob := OpsOf(b, ops);
      assert ob[i] == ops[a[0]];
      PutBack(multiset(ob), ops[a[0]]);
    } else {
      assert |multiset(b)| == 0;
    }
  }

  /** The value does not depend on the order the surviving operations are
      walked in: any duplicate-free walk over them reduces to it. */
  lemma CalcValueInAnyOrder(env: Crypto, log: seq<Bytes>, t: string, walk: seq<Hash>)
    requires CalculateOperations(env, log, t).Done?
    requires Utils.Distinct(walk)
    requires forall k :: k in walk <==> k in Live(env, log, t)
    ensures Reduce(t, OpsOf(walk, Live(env, log, t))) == Done(CalculateOperations(env, log, t).value.value)
  {
    var live := Live(env, log, t);
    var order := Enumerate(env, log, live);
    LiveEnumerated(env, log, t);
    SortedSet.StrictDistinct(order);
    Utils.DistinctSameMultiset(order, walk);
    OpsOfPermutation(order, walk, live);
    ReduceOrderFree(t, OpsOf(order, live), OpsOf(walk, live));
  }

  /** Replicas that hold the same payloads, in any order and with any
      repetition, compute the same heads and value (hashes assumed
      collision-free on those payloads). */
  lemma CalcConverges(env: Crypto, log1: seq<Bytes>, log2: seq<Bytes>, t: string)
    requires forall x :: x in log1 <==> x in log2
    requires HashInjectiveOn(env, set x | x in log1)
    ensures CalculateOperations(env, log1, t) == CalculateOperations(env, log2, t)
  {
    CollectBySet(env, log1, log2, t);
    var live := Live(env, log1, t);
    var h1 := Utils.Map(log1, x => HashOperation(env, x));
    var h2 := Utils.Map(log2, x => HashOperation(env, x));
    Utils.MapSameImage(log1, log2, x => HashOperation(env, x));
    assert SortedSet.Elems(h1) == SortedSet.Elems(h2);
    SortedSet.StrictUnique(SortedSet.FromSlice(h1), SortedSet.FromSlice(h2));
    assert Enumerate(env, log1, live) == Enumerate(env, log2, live);
  }

  /** With a known type, well-formed payloads and acyclic predecessors the
      computation does not crash. */
  lemma CalcDoesNotCrash(env: Crypto, log: seq<Bytes>, t: string, rank: map<Hash, nat>)
    requires IsValidCrdtType(t)
    requires forall k :: k in Live(env, log, t) ==> !Malformed(t, Live(env, log, t)[k])
    requires Ranked(Live(env, log, t), rank, |Live(env, log, t)|)
    ensures CalculateOperations(env, log, t).Done?
  {
    var live := Live(env, log, t);
    var order := Enumerate(env, log, live);
    LiveEnumerated(env, log, t);
    TiersTerminate(live, map[], order, rank);
    WellFormedReduces(t, order, live);
    CalcDoneWhen(env, log, t);
  }

  lemma CalcDoneWhen(env: Crypto, log: seq<Bytes>, t: string)
    requires LiveEnumeratedPre(env, log, t)
    requires TiersFrom(Live(env, log, t), map[], Enumerate(env, log, Live(env, log, t)), |Live(env, log, t)|).Some?
    requires Reduce(t, OpsOf(Enumerate(env, log, Live(env, log, t)), Live(env, log, t))).Done?
    ensures CalculateOperations(env, log, t).Done?
  {
  }

  lemma WellFormedReduces(t: string, order: seq<Hash>, live: map<Hash, Operation>)
    requires IsValidCrdtType(t)
    requires forall k :: k in order ==> k in live
    requires forall k :: k in live ==> !Malformed(t, live[k])
    ensures Reduce(t, OpsOf(order, live)).Done?
  {
    var ops := OpsOf(order, live);
    ReduceIsExpected(t, ops);
    forall op | op in ops
      ensures !Malformed(t, op)
    {
      var i :| 0 <= i < |ops| && ops[i] == op;
      assert op == live[order[i]];
    }
  }
}
