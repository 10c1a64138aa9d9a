/** opTopologicalSort of crdts/operations.go: Kahn's algorithm over the
    dependency graph of a key's readable operations, listing every
    operation after the operations it names as predecessors. */
module KahnOrder {
  import opened Operations
  import SortedSet
  import Utils
  import opened StringOrder

  /** The dependency graph over readable operations. `keys` is the sorted
      key set; `preds[k]` holds the predecessors of k that are themselves
      keys (the others are skipped while the graph is built). */
  datatype Graph = Graph(keys: seq<Hash>, preds: map<Hash, set<Hash>>)

  ghost predicate WellFormed(g: Graph)
  {
    && SortedSet.Strict(g.keys)
    && (forall k :: k in g.preds <==> k in g.keys)
    && (forall k :: k in g.preds ==> g.preds[k] <= g.preds.Keys)
  }

  /** The successors of k: the keys that name k as a predecessor, in
      ascending order, as set.Add leaves them. */
  function Succs(g: Graph, k: Hash): (s: seq<Hash>)
    requires WellFormed(g)
    ensures SortedSet.Strict(s)
    ensures forall j :: j in s <==> j in g.preds && k in g.preds[j]
  {
    SortedSet.FilterKeepsStrict(g.keys, j => j in g.preds && k in g.preds[j]);
    Utils.Filter(g.keys, j => j in g.preds && k in g.preds[j])
  }

  /** What Kahn's algorithm promises about its output `list`: every key at
      most once, each after all of its predecessors, and every key whose
      predecessors are all listed is itself listed. */
  ghost predicate KahnResult(g: Graph, list: seq<Hash>)
  {
    && Utils.Distinct(list)
    && (forall k :: k in list ==> k in g.preds)
    && (forall i :: 0 <= i < |list| ==> g.preds[list[i]] <= SortedSet.Elems(list[..i]))
    && (forall k :: k in g.preds && g.preds[k] <= SortedSet.Elems(list) ==> k in list)
  }

  /** The lists Kahn's algorithm may return on g. */
  ghost function KahnLists(g: Graph): iset<seq<Hash>>
  {
    iset list | KahnResult(g, list)
  }

  /** The loop invariant of Kahn. Go's queue is re-sliced from the front
      and its list grows at the back, so together they are one append-only
      sequence `seen`: the list is seen[..head] and the queue seen[head..].
      `pending[k]` is what is left of k's predecessors once the listed keys
      are struck off, and k has been seen exactly when nothing is left. */
  ghost predicate Inv(g: Graph, pending: map<Hash, set<Hash>>, seen: seq<Hash>, head: nat)
    requires WellFormed(g)
  {
    && head <= |seen|
    && pending.Keys == g.preds.Keys
    && (forall k :: k in pending ==> pending[k] == g.preds[k] - SortedSet.Elems(seen[..head]))
    && Utils.Distinct(seen)
    && (forall k :: k in seen ==> k in g.preds)
    && (forall k :: k in g.preds ==> (k in seen <==> pending[k] == {}))
    && (forall i :: 0 <= i < head ==> g.preds[seen[i]] <= SortedSet.Elems(seen[..i]))
  }

  /** The invariant while the successors of u = seen[head] are visited:
      the first j of them have had u struck off. */
  ghost predicate Visiting(g: Graph, pending: map<Hash, set<Hash>>, seen: seq<Hash>, head: nat,
                           succs: seq<Hash>, j: nat)
    requires WellFormed(g)
  {
    && head < |seen|
    && j <= |succs|
    && succs == Succs(g, seen[head])
    && pending.Keys == g.preds.Keys
    && (forall k :: k in pending ==>
          pending[k] == g.preds[k] - SortedSet.Elems(seen[..head]) - (if k in succs[..j] then {seen[head]} else {}))
    && Utils.Distinct(seen)
    && (forall k :: k in seen ==> k in g.preds)
    && (forall k :: k in g.preds ==> (k in seen <==> pending[k] == {}))
    && (forall i :: 0 <= i <= head ==> g.preds[seen[i]] <= SortedSet.Elems(seen[..i]))
  }

  lemma InvInit(g: Graph, queue: seq<Hash>)
    requires WellFormed(g)
    requires queue == Utils.Filter(g.keys, k => k in g.preds && g.preds[k] == {})
    ensures Inv(g, g.preds, queue, 0)
  {
    SortedSet.FilterKeepsStrict(g.keys, k => k in g.preds && g.preds[k] == {});
    SortedSet.StrictDistinct(queue);
  }

  lemma EnterVisit(g: Graph, pending: map<Hash, set<Hash>>, seen: seq<Hash>, head: nat, succs: seq<Hash>)
    requires WellFormed(g) && Inv(g, pending, seen, head) && head < |seen|
    requires succs == Succs(g, seen[head])
    ensures Visiting(g, pending, seen, head, succs, 0)
  {
    var u := seen[head];
    assert succs[..0] == [];
    forall k | k in pending
      ensures pending[k] == g.preds[k] - SortedSet.Elems(seen[..head]) - (if k in succs[..0] then {u} else {})
    {
    }
    assert pending[u] == {};
    assert g.preds[u] <= SortedSet.Elems(seen[..head]) by {
      forall x | x in g.preds[u] ensures x in SortedSet.Elems(seen[..head]) {
        assert x !in pending[u];
      }
    }
  }

  /** One visit of the inner loop: strike u off the pending predecessors
      of s, and queue s when none are left. */
  function Strike(pending: map<Hash, set<Hash>>, seen: seq<Hash>, u: Hash, s: Hash): (r: (map<Hash, set<Hash>>, seq<Hash>))
    requires s in pending
    ensures r.0.Keys == pending.Keys
    ensures r.0[s] == pending[s] - {u}
    ensures forall k :: k in pending && k != s ==> r.0[k] == pending[k]
    ensures r.1 == if r.0[s] == {} then seen + [s] else seen
  {
    var p := pending[s := pending[s] - {u}];
    (p, if p[s] == {} then seen + [s] else seen)
  }

  lemma VisitStep(g: Graph, pending: map<Hash, set<Hash>>, seen: seq<Hash>, head: nat, succs: seq<Hash>, j: nat, u: Hash)
    requires WellFormed(g) && Visiting(g, pending, seen, head, succs, j) && j < |succs|
    requires u == seen[head]
    ensures succs[j] in pending
    ensures var r := Strike(pending, seen, u, succs[j]);
      Visiting(g, r.0, r.1, head, succs, j + 1) && r.1[..head + 1] == seen[..head + 1] && r.1[head] == u
  {
    var s := succs[j];
    var r := Strike(pending, seen, seen[head], s);
    var p := r.0;
    assert p == pending[succs[j] := pending[succs[j]] - {seen[head]}];
    PendingAfter(g, pending, seen, head, succs, j);
    if p[s] == {} {
      VisitEnqueues(g, p, seen, head, succs, j, s);
      assert (seen + [s])[..head + 1] == seen[..head + 1];
    } else {
      VisitSkips(g, pending, seen, head, succs, j);
    }
  }

  /** Striking u off the j-th successor s: s had not been seen, and the
      pending sets follow the Visiting formula one step further. */
  lemma PendingAfter(g: Graph, pending: map<Hash, set<Hash>>, seen: seq<Hash>, head: nat, succs: seq<Hash>, j: nat)
    requires WellFormed(g) && Visiting(g, pending, seen, head, succs, j) && j < |succs|
    ensures succs[j] !in seen
    ensures var p := pending[succs[j] := pending[succs[j]] - {seen[head]}];
      forall k :: k in p ==>
        p[k] == g.preds[k] - SortedSet.Elems(seen[..head]) - (if k in succs[..j + 1] then {seen[head]} else {})
  {
    var u := seen[head];
    var s := succs[j];
    NotBefore(succs, j);
    NotListedYet(seen, head);
    assert u in pending[s];
    var p := pending[s := pending[s] - {u}];
    forall k | k in p
      ensures p[k] == g.preds[k] - SortedSet.Elems(seen[..head]) - (if k in succs[..j + 1] then {u} else {})
    {
      if k != s {
        assert k in succs[..j + 1] <==> k in succs[..j];
      }
    }
  }

  /** A strictly ascending sequence does not repeat its j-th element
      before position j. */
  lemma NotBefore(succs: seq<Hash>, j: nat)
    requires SortedSet.Strict(succs) && j < |succs|
    ensures succs[j] !in succs[..j]
    ensures succs[..j + 1] == succs[..j] + [succs[j]]
  {
    forall i | 0 <= i < j ensures succs[i] != succs[j] {
      StringOrderIrreflexiveAt(succs, i, j);
    }
  }

  /** The key at the head of the queue is not among the keys listed. */
  lemma NotListedYet(seen: seq<Hash>, head: nat)
    requires Utils.Distinct(seen) && head < |seen|
    ensures seen[head] !in seen[..head]
  {
    forall i | 0 <= i < head ensures seen[i] != seen[head] { }
  }

  lemma VisitSkips(g: Graph, pending: map<Hash, set<Hash>>, seen: seq<Hash>, head: nat, succs: seq<Hash>, j: nat)
    requires WellFormed(g) && Visiting(g, pending, seen, head, succs, j) && j < |succs|
    requires var p := pending[succs[j] := pending[succs[j]] - {seen[head]}];
      && p[succs[j]] != {}
      && forall k :: k in p ==>
        p[k] == g.preds[k] - SortedSet.Elems(seen[..head]) - (if k in succs[..j + 1] then {seen[head]} else {})
    requires succs[j] !in seen
    ensures Visiting(g, pending[succs[j] := pending[succs[j]] - {seen[head]}], seen, head, succs, j + 1)
  {
    SkipKeepsSeen(g, pending, seen, succs[j], pending[succs[j]] - {seen[head]});
  }

  /** Giving an unseen key a new, non-empty pending set keeps "seen
      exactly when nothing is pending". */
  lemma SkipKeepsSeen(g: Graph, pending: map<Hash, set<Hash>>, seen: seq<Hash>, s: Hash, left: set<Hash>)
    requires pending.Keys == g.preds.Keys
    requires forall k :: k in g.preds ==> (k in seen <==> pending[k] == {})
    requires s !in seen && left != {}
    ensures forall k :: k in g.preds ==> (k in seen <==> pending[s := left][k] == {})
  {
  }

  /** The step of VisitStep that appends s, taken out to keep each proof
      small. */
  lemma VisitEnqueues(g: Graph, p: map<Hash, set<Hash>>, seen: seq<Hash>, head: nat, succs: seq<Hash>, j: nat, s: Hash)
    requires WellFormed(g) && head < |seen| && j < |succs| && succs == Succs(g, seen[head])
    requires p.Keys == g.preds.Keys && s in p && p[s] == {} && s !in seen
    requires Utils.Distinct(seen)
    requires forall k :: k in seen ==> k in g.preds
    requires forall k :: k in g.preds && k != s ==> (k in seen <==> p[k] == {})
    requires forall i :: 0 <= i <= head ==> g.preds[seen[i]] <= SortedSet.Elems(seen[..i])
    requires forall k :: k in p ==>
          p[k] == g.preds[k] - SortedSet.Elems(seen[..head]) - (if k in succs[..j + 1] then {seen[head]} else {})
    ensures Visiting(g, p, seen + [s], head, succs, j + 1)
  {
    DistinctSnoc(seen, s);
    var seen' := seen + [s];
    assert seen'[..head] == seen[..head];
    assert seen'[head] == seen[head];
    forall i | 0 <= i <= head ensures g.preds[seen'[i]] <= SortedSet.Elems(seen'[..i]) {
      assert seen'[..i] == seen[..i] && seen'[i] == seen[i];
    }
  }

  lemma LeaveVisit(g: Graph, pending: map<Hash, set<Hash>>, seen: seq<Hash>, head: nat, succs: seq<Hash>)
    requires WellFormed(g) && Visiting(g, pending, seen, head, succs, |succs|)
    ensures Inv(g, pending, seen, head + 1)
    ensures g.preds.Keys - SortedSet.Elems(seen[..head + 1]) < g.preds.Keys - SortedSet.Elems(seen[..head])
  {
    assert succs[..|succs|] == succs;
    ListingOneMore(g, seen, head);
  }

  /** Listing seen[head] adds exactly that key to the listed ones, and it
      was not listed before. */
  lemma ListingOneMore(g: Graph, seen: seq<Hash>, head: nat)
    requires Utils.Distinct(seen) && head < |seen| && seen[head] in g.preds
    ensures SortedSet.Elems(seen[..head + 1]) == SortedSet.Elems(seen[..head]) + {seen[head]}
    ensures g.preds.Keys - SortedSet.Elems(seen[..head + 1]) < g.preds.Keys - SortedSet.Elems(seen[..head])
  {
    NotListedYet(seen, head);
    assert seen[..head + 1] == seen[..head] + [seen[head]];
  }

  lemma InvDone(g: Graph, pending: map<Hash, set<Hash>>, seen: seq<Hash>)
    requires WellFormed(g) && Inv(g, pending, seen, |seen|)
    ensures KahnResult(g, seen)
  {
    assert seen[..|seen|] == seen;
  }

  /** The inner loop of opTopologicalSort: list u = seen[head] and strike
      it off the pending predecessors of each of its successors, queueing
      those left with none. */
  method VisitSuccessors(g: Graph, pending: map<Hash, set<Hash>>, seen: seq<Hash>, head: nat)
    returns (pending': map<Hash, set<Hash>>, seen': seq<Hash>)
    requires WellFormed(g) && Inv(g, pending, seen, head) && head < |seen|
    ensures Inv(g, pending', seen', head + 1)
    ensures g.preds.Keys - SortedSet.Elems(seen'[..head + 1]) < g.preds.Keys - SortedSet.Elems(seen[..head])
  {
    var u := seen[head];
    var succs := Succs(g, u);
    EnterVisit(g, pending, seen, head, succs);
    pending', seen' := pending, seen;
    var j := 0;
    while j < |succs|
      invariant Visiting(g, pending', seen', head, succs, j)
      invariant seen'[..head + 1] == seen[..head + 1] && seen'[head] == u
    {
      VisitStep(g, pending', seen', head, succs, j, u);
      var r := Strike(pending', seen', u, succs[j]);
      pending', seen' := r.0, r.1;
      j := j + 1;
    }
    LeaveVisit(g, pending', seen', head, succs);
    ShorterPrefix(seen', seen, head);
  }

  lemma ShorterPrefix(a: seq<Hash>, b: seq<Hash>, n: nat)
    requires n < |a| && n < |b| && a[..n + 1] == b[..n + 1]
    ensures a[..n] == b[..n]
  {
    assert a[..n] == a[..n + 1][..n];
    assert b[..n] == b[..n + 1][..n];
  }

  /** opTopologicalSort, with every successor of a dequeued key visited
      exactly once (see SuccessorVisitsAsWritten for the loop as written).
      The queue is seen[head..] and the list seen[..head]. */
  method Kahn(g: Graph) returns (list: seq<Hash>)
    requires WellFormed(g)
    ensures KahnResult(g, list)
  {
    var pending := g.preds;
    var seen := Utils.Filter(g.keys, k => k in g.preds && g.preds[k] == {});
    var head := 0;
    InvInit(g, seen);
    while head < |seen|
      invariant Inv(g, pending, seen, head)
      decreases g.preds.Keys - SortedSet.Elems(seen[..head])
    {
      pending, seen := VisitSuccessors(g, pending, seen, head);
      head := head + 1;
    }
    InvDone(g, pending, seen);
    list := seen;
  }

  /** A non-empty set of keys each of which has a predecessor inside the
      set: a predecessor cycle, or keys stuck behind one. */
  ghost predicate Stuck(g: Graph, s: set<Hash>)
  {
    && s != {}
    && s <= g.preds.Keys
    && forall k :: k in s ==> g.preds[k] * s != {}
  }

  /** Some set of keys is stuck. */
  ghost predicate HasStuck(g: Graph)
  {
    exists s :: Stuck(g, s)
  }

  /** No key of a stuck set is ever listed: the first one would have to
      follow a predecessor that is also in the set. */
  lemma {:induction false} StuckNeverListed(g: Graph, list: seq<Hash>, s: set<Hash>, i: nat)
    requires WellFormed(g) && KahnResult(g, list) && Stuck(g, s) && i <= |list|
    ensures forall n :: 0 <= n < i ==> list[n] !in s
  {
    if i > 0 {
      StuckNeverListed(g, list, s, i - 1);
      var k := list[i - 1];
      forall p | p in g.preds[k]
        ensures p !in s
      {
        assert p in SortedSet.Elems(list[..i - 1]);
        var n :| 0 <= n < i - 1 && list[..i - 1][n] == p;
        assert list[n] == p;
      }
      assert g.preds[k] * s == {};
    }
  }

  /** A key Kahn leaves out waits on a predecessor that was left out too. */
  lemma WaitsOnLeftOut(g: Graph, listed: set<Hash>, k: Hash)
    requires WellFormed(g) && k in g.preds && k !in listed
    requires forall j :: j in g.preds && g.preds[j] <= listed ==> j in listed
    ensures g.preds[k] * (g.preds.Keys - listed) != {}
  {
    var p :| p in g.preds[k] && p !in listed;
    assert p in g.preds[k] * (g.preds.Keys - listed);
  }

  /** The keys Kahn leaves out, if any, form a stuck set. */
  lemma LeftOutIsStuck(g: Graph, listed: set<Hash>, k: Hash)
    requires WellFormed(g)
    requires forall j :: j in g.preds && g.preds[j] <= listed ==> j in listed
    requires k in g.preds && k !in listed
    ensures Stuck(g, g.preds.Keys - listed)
  {
    assert k in g.preds.Keys - listed;
    AllWaitOnLeftOut(g, listed);
  }

  lemma AllWaitOnLeftOut(g: Graph, listed: set<Hash>)
    requires WellFormed(g)
    requires forall j :: j in g.preds && g.preds[j] <= listed ==> j in listed
    ensures forall k :: k in g.preds.Keys - listed ==> g.preds[k] * (g.preds.Keys - listed) != {}
  {
    forall k | k in g.preds.Keys - listed
      ensures g.preds[k] * (g.preds.Keys - listed) != {}
    {
      WaitsOnLeftOut(g, listed, k);
    }
  }

  /** Kahn lists every key exactly when no set of keys is stuck: its
      output falls short only on a predecessor cycle. */
  lemma KahnCompleteIffNotStuck(g: Graph, list: seq<Hash>)
    requires WellFormed(g) && KahnResult(g, list)
    ensures (forall k :: k in g.preds ==> k in list) <==> !HasStuck(g)
  {
    if exists s :: Stuck(g, s) {
      var s :| Stuck(g, s);
      StuckNeverListed(g, list, s, |list|);
      var k :| k in s;
      assert k in g.preds && k !in list;
    } else if exists k :: k in g.preds && k !in list {
      var k :| k in g.preds && k !in list;
      assert k !in SortedSet.Elems(list);
      LeftOutIsStuck(g, SortedSet.Elems(list), k);
      assert false;
    }
  }

  /** With the list free of duplicates and inside the key set, it covers
      the keys exactly when it is as long as the key list. */
  lemma CoverIffSameLength(g: Graph, list: seq<Hash>)
    requires WellFormed(g) && KahnResult(g, list)
    ensures (forall k :: k in g.preds ==> k in list) <==> |list| == |g.keys|
  {
    SortedSet.StrictDistinct(g.keys);
    CoverBySize(list, g.keys);
  }

  /** A duplicate-free list drawn from a duplicate-free key list covers
      the keys exactly when it is as long. */
  lemma CoverBySize(list: seq<Hash>, keys: seq<Hash>)
    requires Utils.Distinct(list) && Utils.Distinct(keys)
    requires forall k :: k in list ==> k in keys
    ensures (forall k :: k in keys ==> k in list) <==> |list| == |keys|
  {
    Utils.DistinctSize(list);
    Utils.DistinctSize(keys);
    var L := set x | x in list;
    var K := set x | x in keys;
    assert L <= K;
    if forall k :: k in keys ==> k in list {
      assert L == K;
    } else {
      var k :| k in keys && k !in list;
      assert k in K - L;
      SmallerSubset(L, K);
    }
  }

  lemma SmallerSubset(a: set<Hash>, b: set<Hash>)
    requires a < b
    ensures |a| < |b|
  {
    assert !(b <= a);
    var x :| x in b && x !in a;
    SubsetSize(a, b - {x});
  }

  lemma {:induction false} SubsetSize(a: set<Hash>, b: set<Hash>)
    requires a <= b
    ensures |a| <= |b|
    decreases a
  {
    if a != {} {
      var y :| y in a;
      SubsetSize(a - {y}, b - {y});
    }
  }

  // ---------------------------------------------------------------------
  // The successor loop as written

  /** `for idx, succ := range uNode.succs` while the body runs
      `uVal.succs = set.Remove(uVal.succs, succ)`: the range reads index idx
      of the backing array it started on (its length fixed at n), and every
      Remove shifts that same array left. So the visits are not the
      successors: after a removal at index 0, index 1 already holds what was
      at index 2. */
  function SuccessorVisitsAsWritten(sl: SortedSet.Slice, idx: nat, n: nat): (visits: seq<Hash>)
    requires sl.Valid() && SortedSet.Strict(sl.View()) && n <= |sl.backing|
    ensures |visits| == n - idx || (idx > n && visits == [])
    decreases n - idx
  {
    if idx >= n then []
    else
      var succ := sl.backing[idx];
      [succ] + SuccessorVisitsAsWritten(SortedSet.RemoveInPlace(sl, succ), idx + 1, n)
  }

  /** One visit of the successor loop as written. */
  lemma VisitsStep(sl: SortedSet.Slice, idx: nat, n: nat)
    requires sl.Valid() && SortedSet.Strict(sl.View()) && n <= |sl.backing| && idx < n
    ensures SuccessorVisitsAsWritten(sl, idx, n)
         == [sl.backing[idx]] + SuccessorVisitsAsWritten(SortedSet.RemoveInPlace(sl, sl.backing[idx]), idx + 1, n)
  {
  }

  /** The successor loop as written on three successors a < b < c: it
      visits a, c, c, so b never has the dequeued key struck off its
      predecessors and c has it struck off twice. */
  lemma SuccessorLoopSkipsAsWritten(a: Hash, b: Hash, c: Hash)
    requires Less(a, b) && Less(b, c)
    ensures SortedSet.Strict([a, b, c])
    ensures SuccessorVisitsAsWritten(SortedSet.Slice([a, b, c], 3), 0, 3) == [a, c, c]
  {
    VisitsFirst(a, b, c);
    VisitsSecond(b, c);
    VisitsThird(b, c);
    assert [c] + [] == [c];
    Cons3(a, c, c);
  }

  lemma VisitsFirst(a: Hash, b: Hash, c: Hash)
    requires Less(a, b) && Less(b, c)
    ensures SortedSet.Strict([a, b, c]) && SortedSet.Strict([b, c])
    ensures SuccessorVisitsAsWritten(SortedSet.Slice([a, b, c], 3), 0, 3)
         == [a] + SuccessorVisitsAsWritten(SortedSet.Slice([b, c, c], 2), 1, 3)
  {
    RemoveFirstOfThree(a, b, c);
    RemoveLastOfTwo(b, c);
    var s0 := SortedSet.Slice([a, b, c], 3);
    assert s0.View() == [a, b, c];
    VisitsStep(s0, 0, 3);
  }

  lemma VisitsSecond(b: Hash, c: Hash)
    requires Less(b, c)
    ensures SortedSet.Strict([b, c])
    ensures SuccessorVisitsAsWritten(SortedSet.Slice([b, c, c], 2), 1, 3)
         == [c] + SuccessorVisitsAsWritten(SortedSet.Slice([b, c, c], 1), 2, 3)
  {
    RemoveLastOfTwo(b, c);
    var s1 := SortedSet.Slice([b, c, c], 2);
    assert s1.View() == [b, c];
    VisitsStep(s1, 1, 3);
  }

  lemma VisitsThird(b: Hash, c: Hash)
    requires Less(b, c)
    ensures SuccessorVisitsAsWritten(SortedSet.Slice([b, c, c], 1), 2, 3) == [c]
  {
    RemoveMissing(b, c);
    var s2 := SortedSet.Slice([b, c, c], 1);
    assert s2.View() == [b];
    VisitsStep(s2, 2, 3);
    assert SuccessorVisitsAsWritten(s2, 3, 3) == [];
  }

  lemma Cons3(x: Hash, y: Hash, w: Hash)
    ensures [x] + ([y] + [w]) == [x, y, w]
  {
  }

  /** Slices the as-written sort may range over and shrink. */
  ghost predicate SlicesOk(succs: map<Hash, SortedSet.Slice>)
  {
    forall k :: k in succs ==> succs[k].Valid() && SortedSet.Strict(succs[k].View())
  }

  /** The inner loop as written, from index idx of n: visit what the
      shifting backing array holds there, strike u off its predecessors
      (a missing node reads as one with none) and queue it if none are
      left. Returns the pending sets, the queue and u's shrunken slice. */
  function VisitAsWritten(pending: map<Hash, set<Hash>>, sl: SortedSet.Slice, u: Hash, queue: seq<Hash>, idx: nat, n: nat)
    : (r: (map<Hash, set<Hash>>, seq<Hash>, SortedSet.Slice))
    requires sl.Valid() && SortedSet.Strict(sl.View()) && n <= |sl.backing|
    ensures r.2.Valid() && SortedSet.Strict(r.2.View())
    ensures queue <= r.1
    decreases n - idx
  {
    if idx >= n then (pending, queue, sl)
    else
      var succ := sl.backing[idx];
      var left := if succ in pending then pending[succ] - {u} else {};
      var q := if left == {} then queue + [succ] else queue;
      VisitAsWritten(pending[succ := left], SortedSet.RemoveInPlace(sl, succ), u, q, idx + 1, n)
  }

  /** opTopologicalSort as written, run for at most `fuel` dequeues. */
  function KahnAsWritten(pending: map<Hash, set<Hash>>, succs: map<Hash, SortedSet.Slice>, queue: seq<Hash>,
                         list: seq<Hash>, fuel: nat): (r: seq<Hash>)
    requires SlicesOk(succs)
    ensures list <= r
    decreases fuel
  {
    if queue == [] || fuel == 0 then list
    else
      var u := queue[0];
      var sl := if u in succs then succs[u] else SortedSet.Slice([], 0);
      var v := VisitAsWritten(pending, sl, u, queue[1..], 0, sl.len);
      KahnAsWritten(v.0, succs[u := v.2], v.1, list + [u], fuel - 1)
  }

  /** Key z precedes a, b and c, and nothing else is known. As written,
      the sort lists z, a, c, c: b is lost and c doubled, yet the list is
      as long as the key set, so the length check that guards against a
      failed sort does not fire. */
  lemma KahnLosesKeyAsWritten(z: Hash, a: Hash, b: Hash, c: Hash,
                              pending: map<Hash, set<Hash>>, succs: map<Hash, SortedSet.Slice>)
    requires Less(z, a) && Less(a, b) && Less(b, c)
    requires pending == map[z := {}, a := {z}, b := {z}, c := {z}]
    requires succs == map[z := SortedSet.Slice([a, b, c], 3), a := SortedSet.Slice([], 0),
                          b := SortedSet.Slice([], 0), c := SortedSet.Slice([], 0)]
    ensures SlicesOk(succs)
    ensures KahnAsWritten(pending, succs, [z], [], 10) == [z, a, c, c]
    ensures |pending.Keys| == 4 && b !in KahnAsWritten(pending, succs, [z], [], 10)
  {
    FourApart(z, a, b, c);
    FourKeys(z, a, b, c, pending);
    ExampleSlices(z, a, b, c, succs);
    var s2 := SortedSet.Slice([b, c, c], 1);
    KahnStep(pending, succs, [z], [], 10);
    VisitExample(z, a, b, c, pending);
    FirstDequeue(z);
    KahnExampleTail(z, a, c, pending[a := {}][c := {}], succs[z := s2]);
    NotAmong(b, z, a, c);
  }

  lemma FourKeys(z: Hash, a: Hash, b: Hash, c: Hash, pending: map<Hash, set<Hash>>)
    requires z != a && z != b && z != c && a != b && a != c && b != c
    requires pending == map[z := {}, a := {z}, b := {z}, c := {z}]
    ensures |pending.Keys| == 4
    ensures a in pending && c in pending && pending[a] == {z} && pending[c] == {z}
  {
    assert pending.Keys == {z, a, b, c};
  }

  /** The successor slices of the example, before and after z is dequeued. */
  lemma ExampleSlices(z: Hash, a: Hash, b: Hash, c: Hash, succs: map<Hash, SortedSet.Slice>)
    requires Less(a, b) && Less(b, c) && z != a && z != b && z != c
    requires succs == map[z := SortedSet.Slice([a, b, c], 3), a := SortedSet.Slice([], 0),
                          b := SortedSet.Slice([], 0), c := SortedSet.Slice([], 0)]
    ensures SlicesOk(succs) && z in succs && succs[z] == SortedSet.Slice([a, b, c], 3)
    ensures var after := succs[z := SortedSet.Slice([b, c, c], 1)];
      && SlicesOk(after) && a in after && c in after
      && after[a] == after[c] == SortedSet.Slice([], 0)
  {
    RemoveFirstOfThree(a, b, c);
    var none := SortedSet.Slice([], 0);
    var s0 := SortedSet.Slice([a, b, c], 3);
    var s2 := SortedSet.Slice([b, c, c], 1);
    assert s0.View() == [a, b, c];
    assert s2.View() == [b];
    assert succs.Keys == {z, a, b, c};
    assert forall k :: k in succs ==> succs[k] == s0 || succs[k] == none;
    var after := succs[z := s2];
    assert forall k :: k in after ==> after[k] == s2 || after[k] == none;
  }

  lemma FirstDequeue(z: Hash)
    ensures [z][1..] == [] && [] + [z] == [z]
  {
  }

  lemma NotAmong(b: Hash, z: Hash, a: Hash, c: Hash)
    requires b != z && b != a && b != c
    ensures b !in [z, a, c, c]
  {
  }

  /** One dequeue of the sort as written. */
  lemma KahnStep(pending: map<Hash, set<Hash>>, succs: map<Hash, SortedSet.Slice>, queue: seq<Hash>,
                 list: seq<Hash>, fuel: nat)
    requires SlicesOk(succs) && queue != [] && fuel > 0 && queue[0] in succs
    ensures var sl := succs[queue[0]];
      var v := VisitAsWritten(pending, sl, queue[0], queue[1..], 0, sl.len);
      KahnAsWritten(pending, succs, queue, list, fuel) == KahnAsWritten(v.0, succs[queue[0] := v.2], v.1, list + [queue[0]], fuel - 1)
  {
  }

  /** Four keys in ascending order are pairwise apart. */
  lemma FourApart(z: Hash, a: Hash, b: Hash, c: Hash)
    requires Less(z, a) && Less(a, b) && Less(b, c)
    ensures z != a && z != b && z != c && a != b && a != c && b != c
    ensures Less(z, b) && Less(z, c) && Less(a, c)
  {
    Transitive(z, a, b);
    Transitive(a, b, c);
    Transitive(z, b, c);
    Irreflexive(z);
    Irreflexive(a);
    Irreflexive(b);
  }

  /** One visit of the inner loop as written. */
  lemma VisitAsWrittenStep(pending: map<Hash, set<Hash>>, sl: SortedSet.Slice, u: Hash, queue: seq<Hash>, idx: nat, n: nat)
    requires sl.Valid() && SortedSet.Strict(sl.View()) && n <= |sl.backing| && idx < n
    ensures var succ := sl.backing[idx];
      var left := if succ in pending then pending[succ] - {u} else {};
      var q := if left == {} then queue + [succ] else queue;
      VisitAsWritten(pending, sl, u, queue, idx, n)
        == VisitAsWritten(pending[succ := left], SortedSet.RemoveInPlace(sl, succ), u, q, idx + 1, n)
  {
  }

  /** The inner loop as written when z is dequeued: it visits a, c, c,
      clears the pending sets of a and c, queues a, c, c and leaves z's
      slice reading [b]. */
  lemma VisitExample(z: Hash, a: Hash, b: Hash, c: Hash, p0: map<Hash, set<Hash>>)
    requires Less(a, b) && Less(b, c)
    requires a in p0 && c in p0 && p0[a] == {z} && p0[c] == {z}
    ensures SortedSet.Strict([a, b, c])
    ensures VisitAsWritten(p0, SortedSet.Slice([a, b, c], 3), z, [], 0, 3)
         == (p0[a := {}][c := {}], [a, c, c], SortedSet.Slice([b, c, c], 1))
  {
    Transitive(a, b, c);
    Irreflexive(a);
    assert a != c;
    var p1 := p0[a := {}];
    var q1: seq<Hash> := [a];
    var q2 := q1 + [c];
    VisitFirst(z, a, b, c, p0);
    VisitSecond(z, b, c, p1, q1);
    VisitThird(z, b, c, p1[c := {}], q2);
    Snoc3(a, c, c);
  }

  lemma Snoc3(x: Hash, y: Hash, w: Hash)
    ensures [x] + [y] + [w] == [x, y, w]
  {
  }

  lemma VisitFirst(z: Hash, a: Hash, b: Hash, c: Hash, p0: map<Hash, set<Hash>>)
    requires Less(a, b) && Less(b, c) && a in p0 && p0[a] == {z}
    ensures SortedSet.Strict([a, b, c]) && SortedSet.Strict([b, c])
    ensures VisitAsWritten(p0, SortedSet.Slice([a, b, c], 3), z, [], 0, 3)
         == VisitAsWritten(p0[a := {}], SortedSet.Slice([b, c, c], 2), z, [a], 1, 3)
  {
    RemoveFirstOfThree(a, b, c);
    RemoveLastOfTwo(b, c);
    var s0 := SortedSet.Slice([a, b, c], 3);
    assert s0.View() == [a, b, c];
    VisitAsWrittenStep(p0, s0, z, [], 0, 3);
    assert p0[a] - {z} == {} && [] + [a] == [a];
  }

  lemma VisitSecond(z: Hash, b: Hash, c: Hash, p1: map<Hash, set<Hash>>, queue: seq<Hash>)
    requires Less(b, c) && c in p1 && p1[c] == {z}
    ensures SortedSet.Strict([b, c])
    ensures VisitAsWritten(p1, SortedSet.Slice([b, c, c], 2), z, queue, 1, 3)
         == VisitAsWritten(p1[c := {}], SortedSet.Slice([b, c, c], 1), z, queue + [c], 2, 3)
  {
    RemoveLastOfTwo(b, c);
    var s1 := SortedSet.Slice([b, c, c], 2);
    assert s1.View() == [b, c];
    VisitAsWrittenStep(p1, s1, z, queue, 1, 3);
    assert p1[c] - {z} == {};
  }

  lemma VisitThird(z: Hash, b: Hash, c: Hash, p2: map<Hash, set<Hash>>, queue: seq<Hash>)
    requires Less(b, c) && c in p2 && p2[c] == {}
    ensures VisitAsWritten(p2, SortedSet.Slice([b, c, c], 1), z, queue, 2, 3)
         == (p2, queue + [c], SortedSet.Slice([b, c, c], 1))
  {
    RemoveMissing(b, c);
    var s2 := SortedSet.Slice([b, c, c], 1);
    assert s2.View() == [b];
    VisitAsWrittenStep(p2, s2, z, queue, 2, 3);
    assert p2[c] - {z} == {} && p2[c := {}] == p2;
  }

  /** The three in-place removals of the successor loop on a < b < c, one
      shift at a time: removing a shifts b and c left and leaves c in the
      last slot; c is then found at index 1 and removed; the third removal
      finds nothing. */
  lemma RemoveFirstOfThree(a: Hash, b: Hash, c: Hash)
    requires Less(a, b) && Less(b, c)
    ensures SortedSet.Strict([a, b, c])
    ensures SortedSet.RemoveInPlace(SortedSet.Slice([a, b, c], 3), a) == SortedSet.Slice([b, c, c], 2)
  {
    Transitive(a, b, c);
    Irreflexive(a);
    Asymmetric(a, b);
    Asymmetric(a, c);
    var s0 := SortedSet.Slice([a, b, c], 3);
    assert s0.View() == [a, b, c];
    SortedSet.LowerBoundUnique(s0.View(), a, 0);
  }

  lemma RemoveLastOfTwo(b: Hash, c: Hash)
    requires Less(b, c)
    ensures SortedSet.Strict([b, c])
    ensures SortedSet.RemoveInPlace(SortedSet.Slice([b, c, c], 2), c) == SortedSet.Slice([b, c, c], 1)
  {
    Irreflexive(c);
    var s1 := SortedSet.Slice([b, c, c], 2);
    assert s1.View() == [b, c];
    SortedSet.LowerBoundUnique(s1.View(), c, 1);
  }

  lemma RemoveMissing(b: Hash, c: Hash)
    requires Less(b, c)
    ensures SortedSet.RemoveInPlace(SortedSet.Slice([b, c, c], 1), c) == SortedSet.Slice([b, c, c], 1)
  {
    var s2 := SortedSet.Slice([b, c, c], 1);
    assert s2.View() == [b];
    SortedSet.LowerBoundUnique(s2.View(), c, 1);
  }

  /** After z: a, c and c are dequeued in turn, none has successors, and
      the list ends z, a, c, c. */
  lemma KahnExampleTail(z: Hash, a: Hash, c: Hash, p: map<Hash, set<Hash>>, succs: map<Hash, SortedSet.Slice>)
    requires SlicesOk(succs)
    requires a in succs && c in succs && succs[a] == succs[c] == SortedSet.Slice([], 0)
    ensures KahnAsWritten(p, succs, [a, c, c], [z], 9) == [z, a, c, c]
  {
    var none := SortedSet.Slice([], 0);
    assert succs[a := none] == succs && succs[c := none] == succs;
    KahnStep(p, succs, [a, c, c], [z], 9);
    assert VisitAsWritten(p, none, a, [c, c], 0, 0) == (p, [c, c], none);
    KahnStep(p, succs, [c, c], [z, a], 8);
    assert VisitAsWritten(p, none, c, [c], 0, 0) == (p, [c], none);
    KahnStep(p, succs, [c], [z, a, c], 7);
    assert VisitAsWritten(p, none, c, [], 0, 0) == (p, [], none);
    assert [a, c, c][1..] == [c, c] && [c, c][1..] == [c] && [c][1..] == [];
    assert [z] + [a] == [z, a] && [z, a] + [c] == [z, a, c] && [z, a, c] + [c] == [z, a, c, c];
  }

  lemma StringOrderIrreflexiveAt(s: seq<Hash>, i: nat, j: nat)
    requires SortedSet.Strict(s) && i < j < |s|
    ensures s[i] != s[j]
  {
    SortedSet.StrictDistinct(s);
  }

  lemma DistinctSnoc<T>(s: seq<T>, x: T)
    requires Utils.Distinct(s) && x !in s
    ensures Utils.Distinct(s + [x])
  {
  }
}
