/** CalculateOperationsTopologicalOrder of crdts/operations.go: order a
    key's hex-encoded operations so that every operation comes after the
    operations it names as predecessors, and abort when Kahn's list does
    not cover every readable operation. */
module TopoSort {
  import opened Wrappers
  import opened Operations
  import opened Hex
  import SortedSet
  import Utils
  import CausalGraph
  import opened KahnOrder

  /** The payloads behind hex-encoded operations; Go keeps the bytes
      decoded before a bad digit and ignores the error. */
  function Decoded(ops: seq<string>): (signed: seq<Bytes>)
    ensures |signed| == |ops|
    ensures forall i :: 0 <= i < |ops| ==> signed[i] == Hex.Decode(ops[i]).0
  {
    Utils.Map(ops, (e: string) => Hex.Decode(e).0)
  }

  /** validOperationsMap: each payload that reads back as an operation,
      under its hash, with the payload it was read from (a later copy
      overwrites an earlier one). */
  function Readable(env: Crypto, signed: seq<Bytes>): (p: CausalGraph.Pool)
    ensures p.ops.Keys == p.signed.Keys
    ensures forall x :: x in signed && ReadOperation(env, x).Ok? ==> HashOperation(env, x) in p.ops
    ensures forall h :: h in p.ops ==>
      && p.signed[h] in signed
      && HashOperation(env, p.signed[h]) == h
      && ReadOperation(env, p.signed[h]) == Ok(p.ops[h])
    decreases |signed|
  {
    if signed == [] then CausalGraph.Pool(map[], map[])
    else
      var init := signed[..|signed| - 1];
      var x := signed[|signed| - 1];
      assert signed == init + [x];
      var p := Readable(env, init);
      if ReadOperation(env, x).Ok? then
        var h := HashOperation(env, x);
        CausalGraph.Pool(p.ops[h := ReadOperation(env, x).value], p.signed[h := x])
      else p
  }

  /** opStringMap: each hex string under the hash of its payload (a later
      string with the same payload overwrites an earlier one). */
  function OpStrings(env: Crypto, ops: seq<string>): (m: map<Hash, string>)
    ensures forall e :: e in ops ==> HashOperationFromString(env, e) in m
    ensures forall h :: h in m ==> m[h] in ops && HashOperationFromString(env, m[h]) == h
    decreases |ops|
  {
    if ops == [] then map[]
    else
      var init := ops[..|ops| - 1];
      var e := ops[|ops| - 1];
      assert ops == init + [e];
      OpStrings(env, init)[HashOperationFromString(env, e) := e]
  }

  lemma ReadableHaveStrings(env: Crypto, ops: seq<string>)
    ensures forall h :: h in Readable(env, Decoded(ops)).ops ==> h in OpStrings(env, ops)
  {
    var signed := Decoded(ops);
    var pool := Readable(env, signed);
    forall h | h in pool.ops
      ensures h in OpStrings(env, ops)
    {
      var i :| 0 <= i < |signed| && signed[i] == pool.signed[h];
      assert HashOperationFromString(env, ops[i]) == h;
    }
  }

  /** The readable hashes in ascending order, as set.Add leaves them. */
  function SortedKeys(env: Crypto, signed: seq<Bytes>): (keys: seq<Hash>)
    ensures SortedSet.Strict(keys)
    ensures forall h :: h in keys <==> h in Readable(env, signed).ops
  {
    var pool := Readable(env, signed);
    var hashes := Utils.Map(signed, x => HashOperation(env, x));
    var all := SortedSet.FromSlice(hashes);
    SortedSet.FilterKeepsStrict(all, h => h in pool.ops);
    forall h | h in pool.ops
      ensures h in all
    {
      var i :| 0 <= i < |signed| && signed[i] == pool.signed[h];
      assert hashes[i] == h;
      assert h in SortedSet.Elems(hashes);
    }
    Utils.Filter(all, h => h in pool.ops)
  }

  /** The dependency graph of CalculateOperationsTopologicalOrder: the
      sorted hashes of the readable operations, each with the predecessors
      it names that are themselves readable. */
  function GraphOf(env: Crypto, ops: seq<string>): (g: Graph)
    ensures WellFormed(g)
  {
    var valid := Readable(env, Decoded(ops)).ops;
    Graph(SortedKeys(env, Decoded(ops)), map k | k in valid :: set p | p in valid[k].preds && p in valid)
  }

  /** The graph's nodes are the readable operations, and its edges the
      predecessors they name among themselves. */
  lemma GraphOfEdges(env: Crypto, ops: seq<string>)
    ensures GraphOf(env, ops).preds.Keys == Readable(env, Decoded(ops)).ops.Keys
    ensures var g := GraphOf(env, ops); forall k :: k in g.preds ==>
      forall p :: p in g.preds[k] <==> p in Readable(env, Decoded(ops)).ops[k].preds && p in g.preds
  {
  }

  /** The hashes of hex-encoded operations. */
  function Hashes(env: Crypto, es: seq<string>): (hs: seq<Hash>)
    ensures |hs| == |es|
    ensures forall i :: 0 <= i < |es| ==> hs[i] == HashOperationFromString(env, es[i])
  {
    Utils.Map(es, e => HashOperationFromString(env, e))
  }

  /** The strings behind an order of hashes. */
  function StringsOf(list: seq<Hash>, strings: map<Hash, string>): (es: seq<string>)
    requires forall h :: h in list ==> h in strings
    ensures |es| == |list|
    ensures forall i :: 0 <= i < |list| ==> es[i] == strings[list[i]]
  {
    if list == [] then [] else [strings[list[0]]] + StringsOf(list[1..], strings)
  }

  /** CalculateOperationsTopologicalOrder: the hex strings of the readable
      operations, each once, every one after the operations it names as
      predecessors; a Fatal stop exactly when some readable operations are
      stuck behind a predecessor cycle. */
  method TopologicalOrder(env: Crypto, ops: seq<string>) returns (r: Outcome<seq<string>>)
    ensures r.Crash? <==> HasStuck(GraphOf(env, ops))
    ensures r.Done? ==> Listed(env, ops, r.value)
  {
    var list := KahnOf(env, ops);
    assert list in KahnLists(GraphOf(env, ops));
    r := OrderFromKahn(env, ops, list);
  }

  /** Kahn's algorithm on the graph of the readable operations. */
  method KahnOf(env: Crypto, ops: seq<string>) returns (list: seq<Hash>)
    ensures KahnResult(GraphOf(env, ops), list)
  {
    list := Kahn(GraphOf(env, ops));
  }

  method OrderFromKahn(env: Crypto, ops: seq<string>, list: seq<Hash>) returns (r: Outcome<seq<string>>)
    requires list in KahnLists(GraphOf(env, ops))
    ensures r.Crash? <==> HasStuck(GraphOf(env, ops))
    ensures r.Done? ==> Listed(env, ops, r.value)
  {
    if |list| != |GraphOf(env, ops).keys| {
      IncompleteOrderIsStuck(env, ops, list);
    } else {
      CompleteOrderIsListed(env, ops, list);
    }
    r := OrderFromList(env, ops, list);
  }

  /** The rest of CalculateOperationsTopologicalOrder once Kahn's list is
      known: Go maps the list to strings and stops when the lengths
      disagree. */
  function OrderFromList(env: Crypto, ops: seq<string>, list: seq<Hash>): Outcome<seq<string>>
    requires list in KahnLists(GraphOf(env, ops))
  {
    if |list| != |GraphOf(env, ops).keys| then Crash
    else
      ListHasStrings(env, ops, list);
      Done(StringsOf(list, OpStrings(env, ops)))
  }

  lemma IncompleteOrderIsStuck(env: Crypto, ops: seq<string>, list: seq<Hash>)
    requires list in KahnLists(GraphOf(env, ops)) && |list| != |GraphOf(env, ops).keys|
    ensures OrderFromList(env, ops, list).Crash?
    ensures HasStuck(GraphOf(env, ops))
  {
    CrashIffStuck(GraphOf(env, ops), list);
  }

  lemma CompleteOrderIsListed(env: Crypto, ops: seq<string>, list: seq<Hash>)
    requires list in KahnLists(GraphOf(env, ops)) && |list| == |GraphOf(env, ops).keys|
    ensures OrderFromList(env, ops, list).Done?
    ensures !HasStuck(GraphOf(env, ops))
    ensures Listed(env, ops, OrderFromList(env, ops, list).value)
  {
    ListHasStrings(env, ops, list);
    CompleteIsListed(env, ops, list, OpStrings(env, ops));
  }

  /** A complete Kahn list, mapped back to strings, is a topological
      order, and nothing is stuck. */
  lemma CompleteIsListed(env: Crypto, ops: seq<string>, list: seq<Hash>, strings: map<Hash, string>)
    requires list in KahnLists(GraphOf(env, ops)) && |list| == |GraphOf(env, ops).keys|
    requires strings == OpStrings(env, ops)
    requires forall h :: h in list ==> h in strings
    ensures !HasStuck(GraphOf(env, ops))
    ensures Listed(env, ops, StringsOf(list, strings))
  {
    var g := GraphOf(env, ops);
    CrashIffStuck(g, list);
    ListedFromKahn(env, ops, g, list, strings);
  }

  /** Every listed key is a readable operation, so it has a string. */
  lemma ListHasStrings(env: Crypto, ops: seq<string>, list: seq<Hash>)
    requires list in KahnLists(GraphOf(env, ops))
    ensures forall h :: h in list ==> h in OpStrings(env, ops)
  {
    ReadableHaveStrings(env, ops);
  }

  /** The length check of CalculateOperationsTopologicalOrder fires
      exactly when some keys are stuck. */
  lemma CrashIffStuck(g: Graph, list: seq<Hash>)
    requires WellFormed(g) && KahnResult(g, list)
    ensures |list| != |g.keys| <==> HasStuck(g)
    ensures |list| == |g.keys| ==> forall k :: k in g.preds ==> k in list
  {
    KahnCompleteIffNotStuck(g, list);
    CoverIffSameLength(g, list);
  }

  /** What a successful topological order promises: every string is one
      of the inputs, each readable operation appears exactly once (by
      hash), and an operation's predecessors come before it. */
  ghost predicate Listed(env: Crypto, ops: seq<string>, es: seq<string>)
  {
    ListedOver(Readable(env, Decoded(ops)).ops, ops, es, Hashes(env, es))
  }

  /** Listed, for strings es with hashes hs over the readable operations
      `valid`. */
  ghost predicate ListedOver(valid: map<Hash, Operation>, ops: seq<string>, es: seq<string>, hs: seq<Hash>)
  {
    && (forall e :: e in es ==> e in ops)
    && Utils.Distinct(hs)
    && (forall h :: h in hs <==> h in valid)
    && (forall i, j :: 0 <= i < |hs| && 0 <= j < |hs| && hs[i] in valid && hs[j] in valid[hs[i]].preds ==> j < i)
  }

  lemma ListedFromKahn(env: Crypto, ops: seq<string>, g: Graph, list: seq<Hash>, strings: map<Hash, string>)
    requires g == GraphOf(env, ops) && KahnResult(g, list)
    requires forall k :: k in g.preds ==> k in list
    requires strings == OpStrings(env, ops)
    requires forall h :: h in list ==> h in strings
    ensures Listed(env, ops, StringsOf(list, strings))
  {
    var res := StringsOf(list, strings);
    HashesOfStrings(env, ops, list, strings);
    OrderByIndex(g, list);
    ListedByHashes(env, ops, g, list, res);
  }

  lemma HashesOfStrings(env: Crypto, ops: seq<string>, list: seq<Hash>, strings: map<Hash, string>)
    requires strings == OpStrings(env, ops)
    requires forall h :: h in list ==> h in strings
    ensures Hashes(env, StringsOf(list, strings)) == list
    ensures forall e :: e in StringsOf(list, strings) ==> e in ops
  {
    var res := StringsOf(list, strings);
    forall e | e in res ensures e in ops {
      var i :| 0 <= i < |res| && res[i] == e;
      assert e == strings[list[i]];
    }
  }

  lemma ListedByHashes(env: Crypto, ops: seq<string>, g: Graph, list: seq<Hash>, res: seq<string>)
    requires g == GraphOf(env, ops) && KahnResult(g, list)
    requires forall k :: k in g.preds ==> k in list
    requires Hashes(env, res) == list
    requires forall e :: e in res ==> e in ops
    requires forall i, j :: 0 <= i < |list| && 0 <= j < |list| && list[j] in g.preds[list[i]] ==> j < i
    ensures Listed(env, ops, res)
  {
    GraphOfEdges(env, ops);
    OrderIsListedOver(Readable(env, Decoded(ops)).ops, g, list, ops, res);
  }

  /** A complete Kahn list over a graph whose edges are the predecessors
      among the valid operations lists them. */
  lemma OrderIsListedOver(valid: map<Hash, Operation>, g: Graph, list: seq<Hash>, ops: seq<string>, es: seq<string>)
    requires g.preds.Keys == valid.Keys
    requires forall k :: k in g.preds ==> forall p :: p in g.preds[k] <==> p in valid[k].preds && p in g.preds
    requires KahnResult(g, list)
    requires forall k :: k in g.preds ==> k in list
    requires forall e :: e in es ==> e in ops
    requires forall i, j :: 0 <= i < |list| && 0 <= j < |list| && list[j] in g.preds[list[i]] ==> j < i
    ensures ListedOver(valid, ops, es, list)
  {
  }

  /** KahnResult's order, stated on indices. */
  lemma OrderByIndex(g: Graph, list: seq<Hash>)
    requires WellFormed(g) && KahnResult(g, list)
    ensures forall i, j :: 0 <= i < |list| && 0 <= j < |list| && list[j] in g.preds[list[i]] ==> j < i
  {
    forall i, j | 0 <= i < |list| && 0 <= j < |list| && list[j] in g.preds[list[i]]
      ensures j < i
    {
      assert list[j] in SortedSet.Elems(list[..i]);
      var n :| 0 <= n < i && list[..i][n] == list[j];
      assert list[n] == list[j];
    }
  }
}
