/** PNCounter.go: a stand-alone positive-negative counter that keeps its
    update history as a hash graph. Each update names the heads it was
    generated on; a replica applies a remote update once, and only after
    all of its predecessors. The hash of an update is a parameter
    (`hash`), and the heads, a Go map with random iteration order, are
    kept as a sorted set and enumerated in ascending order. */
module PNCounter {

  import opened SortedSet

  /** What hashUpdate formats and digests: everything but the ID. */
  datatype Draft = Draft(nodeId: string, opType: string, value: int, preds: seq<string>)

  datatype Update = Update(id: string, nodeId: string, preds: seq<string>, opType: string, value: int)

  datatype Counter = Counter(
    positives: map<string, int>,    // increments by node
    negatives: map<string, int>,    // decrements by node
    updates: map<string, Update>,   // history, by hash
    heads: seq<string>)             // current heads, ascending

  /** NewPNCounter / NewPNCounterID: no history, no heads. The id and
      creator fields are not read by any operation and are left out. */
  function NewCounter(): (p: Counter)
    ensures Valid(p) && p.heads == [] && p.updates == map[]
  {
    Counter(map[], map[], map[], [])
  }

  /** A Go map read: a missing key reads as zero. */
  function Read(m: map<string, int>, k: string): int
  {
    if k in m then m[k] else 0
  }

  /** `m[k] += v` */
  function Bump(m: map<string, int>, k: string, v: int): (r: map<string, int>)
    ensures r.Keys == m.Keys + {k}
    ensures Read(r, k) == Read(m, k) + v
    ensures forall j :: j != k ==> Read(r, j) == Read(m, j)
  {
    m[k := Read(m, k) + v]
  }

  /** The signed amount an update adds to the value. */
  function Contribution(u: Update): int
  {
    if u.opType == "inc" then u.value else if u.opType == "dec" then -u.value else 0
  }

  /** updateHeads: the new hash becomes a head and its predecessors stop
      being heads. */
  function UpdateHeads(heads: seq<string>, newHash: string, preds: seq<string>): (r: seq<string>)
    requires Strict(heads)
    ensures Strict(r)
    ensures Elems(r) == (Elems(heads) + {newHash}) - Elems(preds)
  {
    Diff(Add(heads, newHash), preds)
  }

  /** Record an update and apply it locally: the part generateUpdate and
      effect share. */
  function Apply(p: Counter, u: Update): (r: Counter)
    requires Strict(p.heads)
    ensures r.updates == p.updates[u.id := u]
    ensures Strict(r.heads) && Elems(r.heads) == (Elems(p.heads) + {u.id}) - Elems(u.preds)
    ensures u.opType == "inc" ==> Read(r.positives, u.nodeId) == Read(p.positives, u.nodeId) + u.value
    ensures u.opType == "dec" ==> Read(r.negatives, u.nodeId) == Read(p.negatives, u.nodeId) + u.value
    ensures forall n :: n != u.nodeId || u.opType != "inc" ==> Read(r.positives, n) == Read(p.positives, n)
    ensures forall n :: n != u.nodeId || u.opType != "dec" ==> Read(r.negatives, n) == Read(p.negatives, n)
  {
    var q := p.(updates := p.updates[u.id := u], heads := UpdateHeads(p.heads, u.id, u.preds));
    if u.opType == "inc" then q.(positives := Bump(p.positives, u.nodeId, u.value))
    else if u.opType == "dec" then q.(negatives := Bump(p.negatives, u.nodeId, u.value))
    else q
  }

  /** getCurrentHeads */
  function CurrentHeads(p: Counter): (hs: seq<string>)
    requires Strict(p.heads)
    ensures Strict(hs) && Elems(hs) == Elems(p.heads)
  {
    p.heads
  }

  /** generateUpdate: a local update whose predecessors are the current
      heads, stored under its hash and applied. */
  function GenerateUpdate(p: Counter, hash: Draft -> string, nodeId: string, opType: string, value: int): (r: (Counter, Update))
    requires Strict(p.heads)
    ensures r.1 == Update(hash(Draft(nodeId, opType, value, p.heads)), nodeId, p.heads, opType, value)
    ensures r.0 == Apply(p, r.1)
  {
    var preds := CurrentHeads(p);
    var u := Update(hash(Draft(nodeId, opType, value, preds)), nodeId, preds, opType, value);
    (Apply(p, u), u)
  }

  /** After a local update the new hash is the only head, unless it
      collides with one of the heads it was built on. */
  lemma GenerateLeavesOneHead(p: Counter, hash: Draft -> string, nodeId: string, opType: string, value: int)
    requires Strict(p.heads)
    requires hash(Draft(nodeId, opType, value, p.heads)) !in p.heads
    ensures GenerateUpdate(p, hash, nodeId, opType, value).0.heads == [hash(Draft(nodeId, opType, value, p.heads))]
  {
    var r := GenerateUpdate(p, hash, nodeId, opType, value).0;
    var h := hash(Draft(nodeId, opType, value, p.heads));
    assert Elems(r.heads) == Elems([h]);
    StrictUnique(r.heads, [h]);
  }

  /** effect: apply a remote update unless it is already known or one of
      its predecessors is not. */
  function Effect(p: Counter, u: Update): (r: Counter)
    requires Strict(p.heads)
    ensures u.id in p.updates ==> r == p
    ensures (exists q :: q in u.preds && q !in p.updates) ==> r == p
    ensures u.id !in p.updates && (forall q :: q in u.preds ==> q in p.updates) ==> r == Apply(p, u)
  {
    if u.id in p.updates then p
    else if exists q :: q in u.preds && q !in p.updates then p
    else Apply(p, u)
  }

  /** Applying a remote update twice is applying it once. */
  lemma EffectIdempotent(p: Counter, u: Update)
    requires Strict(p.heads)
    ensures Strict(Effect(p, u).heads)
    ensures Effect(Effect(p, u), u) == Effect(p, u)
  {
  }

  // ---------------------------------------------------------------------
  // The value, and the history it accounts for.

  /** The sum of a map's values. */
  ghost function Sum<K>(m: map<K, int>): int
    decreases |m.Keys|
  {
    if m == map[] then 0
    else
      var k :| k in m;
      m[k] + Sum(m - {k})
  }

  lemma {:induction false} SumAt<K>(m: map<K, int>, k: K)
    requires k in m
    ensures Sum(m) == m[k] + Sum(m - {k})
    decreases |m.Keys|
  {
    var j :| j in m && Sum(m) == m[j] + Sum(m - {j});
    if j != k {
      SumAt(m - {j}, k);
      SumAt(m - {k}, j);
      assert m - {j} - {k} == m - {k} - {j};
    }
  }

  lemma SumBump(m: map<string, int>, k: string, v: int)
    ensures Sum(Bump(m, k, v)) == Sum(m) + v
  {
    var r := Bump(m, k, v);
    SumAt(r, k);
    assert r - {k} == m - {k};
    if k in m {
      SumAt(m, k);
    } else {
      assert m - {k} == m;
    }
  }

  /** GetValue: total increments minus total decrements. */
  ghost function GetValue(p: Counter): int
  {
    Sum(p.positives) - Sum(p.negatives)
  }

  /** The value the history calls for: the contributions of all recorded
      updates. */
  ghost function HistoryValue(updates: map<string, Update>): int
  {
    Sum(map h | h in updates :: Contribution(updates[h]))
  }

  /** A counter whose value is the one its history calls for, and whose
      heads are recorded updates. */
  ghost predicate Valid(p: Counter)
  {
    Strict(p.heads)
    && Elems(p.heads) <= p.updates.Keys
    && GetValue(p) == HistoryValue(p.updates)
  }

  lemma HistoryGrows(updates: map<string, Update>, u: Update)
    requires u.id !in updates
    ensures HistoryValue(updates[u.id := u]) == HistoryValue(updates) + Contribution(u)
  {
    var before := map h | h in updates :: Contribution(updates[h]);
    var grown := updates[u.id := u];
    var after := map h | h in grown :: Contribution(grown[h]);
    SumAt(after, u.id);
    assert after - {u.id} == before;
  }

  lemma ValueGrows(p: Counter, u: Update)
    requires Strict(p.heads)
    ensures GetValue(Apply(p, u)) == GetValue(p) + Contribution(u)
  {
    if u.opType == "inc" {
      SumBump(p.positives, u.nodeId, u.value);
    } else if u.opType == "dec" {
      SumBump(p.negatives, u.nodeId, u.value);
    }
  }

  /** Applying an update not yet recorded keeps the counter valid. */
  lemma ApplyKeepsValid(p: Counter, u: Update)
    requires Valid(p) && u.id !in p.updates
    ensures Valid(Apply(p, u))
  {
    HistoryGrows(p.updates, u);
    ValueGrows(p, u);
  }

  /** A local update whose hash is new keeps the counter valid... */
  lemma GenerateKeepsValid(p: Counter, hash: Draft -> string, nodeId: string, opType: string, value: int)
    requires Valid(p)
    requires hash(Draft(nodeId, opType, value, p.heads)) !in p.updates
    ensures Valid(GenerateUpdate(p, hash, nodeId, opType, value).0)
  {
    ApplyKeepsValid(p, GenerateUpdate(p, hash, nodeId, opType, value).1);
  }

  /** ...and so does every remote update. */
  lemma EffectKeepsValid(p: Counter, u: Update)
    requires Valid(p)
    ensures Valid(Effect(p, u))
  {
    if u.id !in p.updates && forall q :: q in u.preds ==> q in p.updates {
      ApplyKeepsValid(p, u);
    }
  }

  /** The two-replica run: node1 increments by 5, node2 decrements by 3,
      each sends its update to the other, node1 receives node2's twice;
      both read 2. The two drafts are assumed to hash apart. */
  lemma TwoReplicaScenario(hash: Draft -> string)
    requires hash(Draft("node1", "inc", 5, [])) != hash(Draft("node2", "dec", 3, []))
    ensures var (n1, u1) := GenerateUpdate(NewCounter(), hash, "node1", "inc", 5);
            var (n2, u2) := GenerateUpdate(NewCounter(), hash, "node2", "dec", 3);
            GetValue(Effect(n2, u1)) == 2 && GetValue(Effect(Effect(n1, u2), u2)) == 2
  {
    var (n1, u1) := GenerateUpdate(NewCounter(), hash, "node1", "inc", 5);
    var (n2, u2) := GenerateUpdate(NewCounter(), hash, "node2", "dec", 3);
    GenerateKeepsValid(NewCounter(), hash, "node1", "inc", 5);
    GenerateKeepsValid(NewCounter(), hash, "node2", "dec", 3);
    EffectKeepsValid(n2, u1);
    EffectKeepsValid(n1, u2);
    var a := Effect(n2, u1);
    var b := Effect(n1, u2);
    assert a.updates == map[u2.id := u2, u1.id := u1];
    assert b.updates == map[u1.id := u1, u2.id := u2];
    var empty: map<string, Update> := map[];
    HistoryGrows(map[u2.id := u2], u1);
    HistoryGrows(empty, u2);
    HistoryGrows(map[u1.id := u1], u2);
    HistoryGrows(empty, u1);
    assert empty[u2.id := u2] == map[u2.id := u2];
    assert empty[u1.id := u1] == map[u1.id := u1];
    assert HistoryValue(empty) == 0;
    EffectIdempotent(n1, u2);
  }
}
