/** The per-key store of storage/main.go. Every key holds a cell: the log of
    signed operations filed under it, its CRDT type, and the heads and value
    last computed from that log. The store is a value; each mutation returns
    the new store, or the error that left the old one in place. */
module Storage {

  import opened Wrappers
  import opened Hex
  import opened Operations
  import opened Reducers
  import CausalGraph

  datatype Cell = Cell(log: seq<Bytes>, crdtType: string, heads: seq<Bytes>, value: Value)

  type Store = map<string, Cell>

  /** The five refusals of Assign, Append and Get. */
  datatype StorageError = KeyInUse | UnknownKey | Unparsable | WrongType | UnknownPredecessor

  /** What Get hands back (GetResultDTO). */
  datatype View = View(value: Value, heads: seq<Bytes>, crdtType: string)

  /** A cell whose heads and value are the ones its log yields. */
  ghost predicate Consistent(env: Crypto, c: Cell)
  {
    var res := CausalGraph.CalculateOperations(env, c.log, c.crdtType);
    res.Done? && res.value.heads == c.heads && res.value.value == c.value
  }

  ghost predicate AllConsistent(env: Crypto, st: Store)
  {
    forall k :: k in st ==> Consistent(env, st[k])
  }

  /** StorageCell.update: recompute heads and value from the log. The
      computation stops the process when it cannot finish (unknown type,
      malformed payload or cyclic predecessors). */
  function Update(env: Crypto, log: seq<Bytes>, t: string): (r: Outcome<Cell>)
    ensures r.Done? ==> Consistent(env, r.value) && r.value.log == log && r.value.crdtType == t
    ensures r.Crash? <==> CausalGraph.CalculateOperations(env, log, t).Crash?
  {
    match CausalGraph.CalculateOperations(env, log, t)
    case Crash => Crash
    case Done(res) => Done(Cell(log, t, res.heads, res.value))
  }

  /** The hashes of the operations in a log. */
  function KnownHashes(env: Crypto, log: seq<Bytes>): (hs: set<Hash>)
    ensures forall x :: x in log ==> HashOperation(env, x) in hs
  {
    set x | x in log :: HashOperation(env, x)
  }

  /** Every predecessor of op is the hash of an operation in the log. */
  predicate PredsKnown(env: Crypto, log: seq<Bytes>, op: Operation)
  {
    forall p :: p in op.preds ==> p in KnownHashes(env, log)
  }

  /** Storage.Assign: open a fresh key with one operation; the cell takes
      its type from that operation. An `Err` leaves the store as it was. */
  function Assign(env: Crypto, st: Store, key: string, x: Bytes): (r: Outcome<Result<Store, StorageError>>)
    ensures key in st ==> r == Done(Err(KeyInUse))
    ensures key !in st && ReadOperation(env, x).Err? ==> r == Done(Err(Unparsable))
    ensures r == Done(Err(Unparsable)) ==> ReadOperation(env, x).Err?
    ensures r.Crash? ==>
      && key !in st && ReadOperation(env, x).Ok?
      && CausalGraph.CalculateOperations(env, [x], ReadOperation(env, x).value.crdtType).Crash?
    ensures key !in st && ReadOperation(env, x).Ok? ==>
      && (r.Crash? <==> CausalGraph.CalculateOperations(env, [x], ReadOperation(env, x).value.crdtType).Crash?)
      && (r.Done? ==> r.value.Ok?)
  {
    if key in st then Done(Err(KeyInUse))
    else match ReadOperation(env, x)
      case Err(_) => Done(Err(Unparsable))
      case Ok(op) =>
        match Update(env, [x], op.crdtType)
        case Crash => Crash
        case Done(cell) => Done(Ok(st[key := cell]))
  }

  /** A successful Assign adds exactly the new key, whose cell holds the
      one operation, has that operation's type, and whose heads and value
      are the ones that log yields; every other cell is kept. */
  lemma AssignInstalls(env: Crypto, st: Store, key: string, x: Bytes, st': Store)
    requires Assign(env, st, key, x) == Done(Ok(st'))
    ensures key !in st && ReadOperation(env, x).Ok?
    ensures key in st' && st' == st[key := st'[key]]
    ensures st'[key].log == [x] && st'[key].crdtType == ReadOperation(env, x).value.crdtType
    ensures Consistent(env, st'[key])
  {
    var op := ReadOperation(env, x).value;
    var c := Update(env, [x], op.crdtType).value;
    assert st' == st[key := c];
  }

  /** Installing a consistent cell keeps a consistent store consistent. */
  lemma InstallKeepsConsistent(env: Crypto, st: Store, key: string, c: Cell)
    requires AllConsistent(env, st) && Consistent(env, c)
    ensures AllConsistent(env, st[key := c])
  {
  }

  lemma AssignKeepsConsistent(env: Crypto, st: Store, key: string, x: Bytes, st': Store)
    requires Assign(env, st, key, x) == Done(Ok(st'))
    requires AllConsistent(env, st)
    ensures AllConsistent(env, st')
  {
    AssignInstalls(env, st, key, x, st');
    InstallKeepsConsistent(env, st, key, st'[key]);
  }

  /** Storage.Append: add one operation to an existing key whose type it
      shares and whose log already holds all its predecessors. */
  function Append(env: Crypto, st: Store, key: string, x: Bytes): (r: Outcome<Result<Store, StorageError>>)
    ensures key !in st ==> r == Done(Err(UnknownKey))
    ensures key in st && ReadOperation(env, x).Err? ==> r == Done(Err(Unparsable))
    ensures key in st && ReadOperation(env, x).Ok? ==>
      (r == Done(Err(WrongType)) <==> ReadOperation(env, x).value.crdtType != st[key].crdtType)
    ensures r == Done(Err(UnknownPredecessor)) ==>
      && key in st && ReadOperation(env, x).Ok? && ReadOperation(env, x).value.crdtType == st[key].crdtType
      && exists p :: p in ReadOperation(env, x).value.preds && p !in KnownHashes(env, st[key].log)
    ensures r.Crash? ==> key in st && CausalGraph.CalculateOperations(env, st[key].log + [x], st[key].crdtType).Crash?
    ensures key in st && ReadOperation(env, x).Ok? && ReadOperation(env, x).value.crdtType == st[key].crdtType ==>
      (r == Done(Err(UnknownPredecessor)) <==> !PredsKnown(env, st[key].log, ReadOperation(env, x).value))
    ensures key in st && ReadOperation(env, x).Ok? && ReadOperation(env, x).value.crdtType == st[key].crdtType
            && PredsKnown(env, st[key].log, ReadOperation(env, x).value) ==>
      && (r.Crash? <==> CausalGraph.CalculateOperations(env, st[key].log + [x], st[key].crdtType).Crash?)
      && (r.Done? ==> r.value.Ok?)
  {
    if key !in st then Done(Err(UnknownKey))
    else
      var cell := st[key];
      match ReadOperation(env, x)
      case Err(_) => Done(Err(Unparsable))
      case Ok(op) =>
        if op.crdtType != cell.crdtType then Done(Err(WrongType))
        else if !PredsKnown(env, cell.log, op) then Done(Err(UnknownPredecessor))
        else
          match Update(env, cell.log + [x], cell.crdtType)
          case Crash => Crash
          case Done(c) => Done(Ok(st[key := c]))
  }

  /** A successful Append changes only its key: that cell's log gains the
      operation at the end, its type stays, and its heads and value are
      recomputed from the longer log. The operation had its cell's type and
      only known predecessors. */
  lemma AppendExtends(env: Crypto, st: Store, key: string, x: Bytes, st': Store)
    requires Append(env, st, key, x) == Done(Ok(st'))
    ensures key in st && ReadOperation(env, x).Ok?
    ensures ReadOperation(env, x).value.crdtType == st[key].crdtType
    ensures PredsKnown(env, st[key].log, ReadOperation(env, x).value)
    ensures key in st' && st' == st[key := st'[key]]
    ensures st'[key].log == st[key].log + [x] && st'[key].crdtType == st[key].crdtType
    ensures Consistent(env, st'[key])
  {
    var cell := st[key];
    var c := Update(env, cell.log + [x], cell.crdtType).value;
    assert st' == st[key := c];
  }

  lemma AppendKeepsConsistent(env: Crypto, st: Store, key: string, x: Bytes, st': Store)
    requires Append(env, st, key, x) == Done(Ok(st'))
    requires AllConsistent(env, st)
    ensures AllConsistent(env, st')
  {
    AppendExtends(env, st, key, x, st');
    InstallKeepsConsistent(env, st, key, st'[key]);
  }

  /** Storage.Get. */
  function Get(st: Store, key: string): (r: Result<View, StorageError>)
    ensures r.Err? <==> key !in st
    ensures r.Err? ==> r.error == UnknownKey
    ensures r.Ok? ==> r.value.value == st[key].value && r.value.heads == st[key].heads
                      && r.value.crdtType == st[key].crdtType
  {
    if key !in st then Err(UnknownKey)
    else Ok(View(st[key].value, st[key].heads, st[key].crdtType))
  }

  /** On a store whose cells agree with their logs, Get reads the value and
      heads that the key's log computes to, under the key's type. */
  lemma GetReadsLog(env: Crypto, st: Store, key: string)
    requires AllConsistent(env, st) && key in st
    ensures var res := CausalGraph.CalculateOperations(env, st[key].log, st[key].crdtType);
      && res.Done?
      && Get(st, key) == Ok(View(res.value.value, res.value.heads, st[key].crdtType))
  {
    assert Consistent(env, st[key]);
  }

  /** What Get reads right after a successful Assign: the operation's type,
      and the heads and value its one-operation log yields. */
  lemma GetAfterAssign(env: Crypto, st: Store, key: string, x: Bytes)
    requires Assign(env, st, key, x).Done? && Assign(env, st, key, x).value.Ok?
    ensures var res := CausalGraph.CalculateOperations(env, [x], ReadOperation(env, x).value.crdtType);
      && res.Done?
      && Get(Assign(env, st, key, x).value.value, key)
         == Ok(View(res.value.value, res.value.heads, ReadOperation(env, x).value.crdtType))
  {
  }

  /** Hashing is invertible on the log: no two of its payloads collide. */
  ghost predicate Unhashes(env: Crypto, log: seq<Bytes>, unhash: Hash -> Bytes)
  {
    forall y :: y in log ==> unhash(HashOperation(env, y)) == y
  }

  /** A cell's log with one of its own operations appended again yields
      the same heads and value, since copies of one payload collapse into
      one entry. */
  lemma RecomputeIgnoresCopy(env: Crypto, log: seq<Bytes>, t: string, x: Bytes, unhash: Hash -> Bytes)
    requires x in log
    requires Unhashes(env, log, unhash)
    ensures CausalGraph.CalculateOperations(env, log + [x], t) == CausalGraph.CalculateOperations(env, log, t)
  {
    assert forall y :: y in log <==> y in log + [x];
    assert HashInjectiveOn(env, set y | y in log) by {
      forall a, b | a in log && b in log && HashOperation(env, a) == HashOperation(env, b)
        ensures a == b
      {
        assert unhash(HashOperation(env, a)) == a;
      }
    }
    CausalGraph.CalcConverges(env, log, log + [x], t);
  }

  /** Appending an operation the log already holds cannot stop the process
      (its log already computed without crashing)... */
  lemma ReappendDoesNotCrash(env: Crypto, st: Store, key: string, x: Bytes, unhash: Hash -> Bytes)
    requires key in st && Consistent(env, st[key])
    requires x in st[key].log
    requires Unhashes(env, st[key].log, unhash)
    ensures Append(env, st, key, x).Done?
  {
    var c := st[key];
    RecomputeIgnoresCopy(env, c.log, c.crdtType, x, unhash);
  }

  /** ...and changes neither heads nor value. */
  lemma ReappendIsIdempotent(env: Crypto, st: Store, key: string, x: Bytes, unhash: Hash -> Bytes, st': Store)
    requires key in st && Consistent(env, st[key])
    requires x in st[key].log
    requires Unhashes(env, st[key].log, unhash)
    requires Append(env, st, key, x) == Done(Ok(st'))
    ensures key in st' && st'[key].heads == st[key].heads && st'[key].value == st[key].value
  {
    RecomputeIgnoresCopy(env, st[key].log, st[key].crdtType, x, unhash);
    AppendExtends(env, st, key, x, st');
  }
}
