/** The anti-entropy handlers of protocol/broadcast.go. A replica keeps the
    pool `M` of every hex-encoded operation it has accepted, and for each
    peer connection four sets: what it sent the peer, what it received,
    which hashes it still misses, and `mconn`, the operations it believes
    the two share. Each handler is a transition on those sets; when no
    hash is missing any more, the newly learned operations are delivered
    to storage in causal order. Sets are sorted slices (SortedSet);
    sending a message is recorded as an `Output`. */
module Broadcast {

  import opened Wrappers
  import opened Operations
  import opened SortedSet
  import opened Hex
  import Utils
  import Storage
  import TopoSort
  import KahnOrder

  /** connectionVariables */
  datatype ConnVars = ConnVars(sent: seq<string>, recvd: seq<string>, missing: seq<Hash>, mconn: seq<string>)

  predicate Valid(cv: ConnVars)
  {
    Strict(cv.sent) && Strict(cv.recvd) && Strict(cv.missing) && Strict(cv.mconn)
  }

  /** The pool M and the storage, shared by all connections. */
  datatype Replica = Replica(pool: seq<string>, store: Storage.Store)

  /** msgsDTO, the body of HEADS, MSGS and NEEDS. */
  datatype MsgsBody = MsgsBody(key: string, messages: seq<string>)

  /** The message a handler sends to the peer, if any. */
  datatype Output = Silent | Needs(key: string, hashes: seq<Hash>) | Msgs(key: string, msgs: seq<string>)

  /** A handler's result: the new replica and connection state, what was
      sent, and the operations delivered to storage, in delivery order. */
  datatype Step = Step(replica: Replica, vars: ConnVars, out: Output, delivered: seq<string>)

  /** The hashes of hex-encoded operations, as a set. */
  ghost function HashSet(env: Crypto, es: seq<string>): set<Hash>
  {
    set e | e in es :: HashOperationFromString(env, e)
  }

  /** The hashes of a union are the union of the hashes. */
  lemma HashSetUnion(env: Crypto, a: seq<string>, b: seq<string>, c: seq<string>)
    requires Elems(c) == Elems(a) + Elems(b)
    ensures HashSet(env, c) == HashSet(env, a) + HashSet(env, b)
  {
    forall h | h in HashSet(env, c)
      ensures h in HashSet(env, a) + HashSet(env, b)
    {
      var e :| e in c && HashOperationFromString(env, e) == h;
      assert e in Elems(c);
    }
    forall h | h in HashSet(env, a) + HashSet(env, b)
      ensures h in HashSet(env, c)
    {
      if h in HashSet(env, a) {
        var e :| e in a && HashOperationFromString(env, e) == h;
        assert e in Elems(c);
      } else {
        var e :| e in b && HashOperationFromString(env, e) == h;
        assert e in Elems(c);
      }
    }
  }

  /** `utils.Map(es, crdts.HashOperationFromString)` */
  function HashesOf(env: Crypto, es: seq<string>): (hs: seq<Hash>)
    ensures Elems(hs) == HashSet(env, es)
  {
    var hs := Utils.Map(es, e => HashOperationFromString(env, e));
    assert forall h :: h in hs ==> h in HashSet(env, es);
    assert forall e :: e in es ==> HashOperationFromString(env, e) in hs by {
      forall e | e in es ensures HashOperationFromString(env, e) in hs {
        var i :| 0 <= i < |es| && es[i] == e;
        assert hs[i] == HashOperationFromString(env, e);
      }
    }
    hs
  }

  // ---------------------------------------------------------------------
  // A new connection

  /** onConnectionToAnotherReplica: nothing sent, received or missing yet;
      the peer is assumed to share the whole pool. Sending our heads to it
      is output only and is not modelled. */
  function OnConnection(pool: seq<string>): (cv: ConnVars)
    requires Strict(pool)
    ensures Valid(cv)
    ensures cv.sent == [] && cv.recvd == [] && cv.missing == [] && cv.mconn == pool
  {
    ConnVars(New(), New(), New(), pool)
  }

  // ---------------------------------------------------------------------
  // Delivery

  /** Whether storage should open a key with this operation: it reads back
      as a `new` operation (a payload that does not read back is appended,
      as Go's zero Operation has an empty tag). */
  predicate Creates(env: Crypto, x: Bytes)
  {
    ReadOperation(env, x).Ok? && ReadOperation(env, x).value.op == "new"
  }

  /** The log a store holds under key, empty when the key is absent. */
  function LogOf(st: Storage.Store, key: string): (log: seq<Bytes>)
    ensures key in st ==> log == st[key].log
    ensures key !in st ==> log == []
  {
    if key in st then st[key].log else []
  }

  /** The store after filing one operation under key: a `new` goes to
      Assign and anything else to Append, and the store storage returns is
      kept, or the old one when storage refuses. */
  function File(env: Crypto, st: Storage.Store, key: string, x: Bytes): (r: Outcome<Storage.Store>)
    ensures Creates(env, x) && key in st ==> r == Done(st)
    ensures !Creates(env, x) && key !in st ==> r == Done(st)
    ensures Creates(env, x) ==>
      var a := Storage.Assign(env, st, key, x);
      && (r.Crash? <==> a.Crash?)
      && (a.Done? && a.value.Ok? ==> r == Done(a.value.value))
      && (a.Done? && a.value.Err? ==> r == Done(st))
    ensures !Creates(env, x) ==>
      var a := Storage.Append(env, st, key, x);
      && (r.Crash? <==> a.Crash?)
      && (a.Done? && a.value.Ok? ==> r == Done(a.value.value))
      && (a.Done? && a.value.Err? ==> r == Done(st))
  {
    if Creates(env, x) then
      var a := Storage.Assign(env, st, key, x);
      match a
      case Crash => Crash
      case Done(Err(_)) => Done(st)
      case Done(Ok(st')) =>
        Done(st')
    else
      var a := Storage.Append(env, st, key, x);
      match a
      case Crash => Crash
      case Done(Err(_)) => Done(st)
      case Done(Ok(st')) =>
        Done(st')
  }

  /** What filing x under key may do to st, giving s: either nothing, or
      end the key's log with x and touch no other key; a `new` only under a
      key not yet held, anything else only under a key already held. */
  ghost predicate Shaped(env: Crypto, st: Storage.Store, key: string, x: Bytes, s: Storage.Store)
  {
    && (forall k :: k != key ==> (k in s <==> k in st) && (k in st ==> s[k] == st[k]))
    && (key in st ==> key in s && st[key].log <= s[key].log)
    && (|| s == st
        || (&& key in s && s == st[key := s[key]]
            && LogOf(s, key) == LogOf(st, key) + [x]
            && (key in st <==> !Creates(env, x))))
  }

  /** A store that differs from st only in key, whose log there is st's
      log followed by x, is one filing x may give. */
  lemma ExtendedShaped(env: Crypto, st: Storage.Store, key: string, x: Bytes, s: Storage.Store)
    requires key in s && s == st[key := s[key]]
    requires LogOf(s, key) == LogOf(st, key) + [x]
    requires key in st <==> !Creates(env, x)
    ensures Shaped(env, st, key, x, s)
  {
  }

  /** A store that adds key to st, holding just x, is one filing a `new`
      may give. */
  lemma InstalledShaped(env: Crypto, st: Storage.Store, key: string, x: Bytes, s: Storage.Store)
    requires Creates(env, x) && key !in st
    requires key in s && s == st[key := s[key]] && s[key].log == [x]
    ensures Shaped(env, st, key, x, s)
  {
    assert LogOf(st, key) + [x] == [x];
    ExtendedShaped(env, st, key, x, s);
  }

  /** Keeping the store is one outcome filing may have. */
  lemma KeptShaped(env: Crypto, st: Storage.Store, key: string, x: Bytes)
    ensures Shaped(env, st, key, x, st)
  {
  }

  /** Filing either leaves the store as it was or ends the key's log with
      the operation, touching no other key. */
  lemma FileShape(env: Crypto, st: Storage.Store, key: string, x: Bytes)
    requires File(env, st, key, x).Done?
    ensures Shaped(env, st, key, x, File(env, st, key, x).value)
  {
    if Creates(env, x) {
      CreateShape(env, st, key, x);
    } else {
      UpdateShape(env, st, key, x);
    }
  }

  lemma CreateShape(env: Crypto, st: Storage.Store, key: string, x: Bytes)
    requires Creates(env, x) && File(env, st, key, x).Done?
    ensures Shaped(env, st, key, x, File(env, st, key, x).value)
  {
    var a := Storage.Assign(env, st, key, x);
    if a.value.Ok? {
      assert File(env, st, key, x) == Done(a.value.value);
      Storage.AssignInstalls(env, st, key, x, a.value.value);
      InstalledShaped(env, st, key, x, a.value.value);
    } else {
      assert File(env, st, key, x) == Done(st);
      KeptShaped(env, st, key, x);
    }
  }

  lemma UpdateShape(env: Crypto, st: Storage.Store, key: string, x: Bytes)
    requires !Creates(env, x) && File(env, st, key, x).Done?
    ensures Shaped(env, st, key, x, File(env, st, key, x).value)
  {
    var a := Storage.Append(env, st, key, x);
    if a.value.Ok? {
      assert File(env, st, key, x) == Done(a.value.value);
      Storage.AppendExtends(env, st, key, x, a.value.value);
      ExtendedShaped(env, st, key, x, a.value.value);
    } else {
      assert File(env, st, key, x) == Done(st);
      KeptShaped(env, st, key, x);
    }
  }

  /** The delivery loop of handleMissing: each operation in turn, `new` to
      Assign and the rest to Append, all under the triggering key. A
      refusal is logged and skipped; a fatal stop stops everything. */
  function Deliver(env: Crypto, st: Storage.Store, key: string, ordered: seq<string>): (r: Outcome<Storage.Store>)
    ensures r.Done? ==> forall k :: k != key ==> (k in r.value <==> k in st) && (k in st ==> r.value[k] == st[k])
    ensures r.Done? && key in st ==> key in r.value && st[key].log <= r.value[key].log
    ensures r.Done? ==> LogOf(st, key) <= LogOf(r.value, key)
    ensures r.Done? ==> forall y :: y in LogOf(r.value, key)[|LogOf(st, key)|..] ==> y in TopoSort.Decoded(ordered)
    decreases |ordered|
  {
    if ordered == [] then Done(st)
    else
      var x := Hex.Decode(ordered[0]).0;
      match File(env, st, key, x)
      case Crash => Crash
      case Done(st') =>
        FileShape(env, st, key, x);
        var r := Deliver(env, st', key, ordered[1..]);
        if r.Crash? then r
        else
          GainsCompose(LogOf(st, key), LogOf(st', key), LogOf(r.value, key), x, ordered);
          r
  }

  /** Delivering one operation is filing its decoded payload. */
  lemma DeliverOne(env: Crypto, st: Storage.Store, key: string, m: string)
    ensures Deliver(env, st, key, [m]) == File(env, st, key, Hex.Decode(m).0)
  {
    assert [m][1..] == [];
  }

  /** Delivering a + b delivers a and then b, from the store a left; a
      stop while delivering a stops everything. */
  lemma {:induction false} DeliverConcat(env: Crypto, st: Storage.Store, key: string, a: seq<string>, b: seq<string>)
    ensures Deliver(env, st, key, a + b)
         == match Deliver(env, st, key, a)
            case Crash => Crash
            case Done(s) => Deliver(env, s, key, b)
    decreases |a|
  {
    if a == [] {
      assert a + b == b;
    } else {
      assert (a + b)[0] == a[0] && (a + b)[1..] == a[1..] + b;
      match File(env, st, key, Hex.Decode(a[0]).0)
      case Crash =>
      case Done(s1) =>
        DeliverConcat(env, s1, key, a[1..], b);
    }
  }

  /** One filing step followed by the rest of the delivery gains, in all,
      only payloads of the whole order. */
  lemma GainsCompose(before: seq<Bytes>, mid: seq<Bytes>, after: seq<Bytes>, x: Bytes, ordered: seq<string>)
    requires ordered != [] && x == Hex.Decode(ordered[0]).0
    requires mid == before || mid == before + [x]
    requires mid <= after && forall y :: y in after[|mid|..] ==> y in TopoSort.Decoded(ordered[1..])
    ensures before <= after
    ensures forall y :: y in after[|before|..] ==> y in TopoSort.Decoded(ordered)
  {
    assert TopoSort.Decoded(ordered) == [x] + TopoSort.Decoded(ordered[1..]);
    forall y | y in after[|before|..]
      ensures y in TopoSort.Decoded(ordered)
    {
      var i :| |before| <= i < |after| && after[i] == y;
      if i >= |mid| {
        assert after[i] == after[|mid|..][i - |mid|];
      }
    }
  }

  lemma FileKeepsConsistent(env: Crypto, st: Storage.Store, key: string, x: Bytes)
    requires Storage.AllConsistent(env, st)
    requires File(env, st, key, x).Done?
    ensures Storage.AllConsistent(env, File(env, st, key, x).value)
  {
    var step := if Creates(env, x) then Storage.Assign(env, st, key, x) else Storage.Append(env, st, key, x);
    if step.value.Ok? {
      if Creates(env, x) {
        Storage.AssignKeepsConsistent(env, st, key, x, step.value.value);
      } else {
        Storage.AppendKeepsConsistent(env, st, key, x, step.value.value);
      }
    }
  }

  /** Delivery keeps every cell's heads and value the ones its log yields. */
  lemma {:induction false} DeliverKeepsConsistent(env: Crypto, st: Storage.Store, key: string, ordered: seq<string>)
    requires Storage.AllConsistent(env, st)
    requires Deliver(env, st, key, ordered).Done?
    ensures Storage.AllConsistent(env, Deliver(env, st, key, ordered).value)
    decreases |ordered|
  {
    if ordered != [] {
      var x := Hex.Decode(ordered[0]).0;
      FileKeepsConsistent(env, st, key, x);
      DeliverKeepsConsistent(env, File(env, st, key, x).value, key, ordered[1..]);
    }
  }

  // ---------------------------------------------------------------------
  // handleMissing

  /** The operations of a round not already in the pool. */
  function Fresh(pool: seq<string>, recvd: seq<string>): (batch: seq<string>)
    requires Strict(pool)
    ensures Strict(batch) && Elems(batch) == Elems(recvd) - Elems(pool)
  {
    Diff(FromSlice(recvd), pool)
  }

  /** The set algebra of handleMissing: the hashes still missing are the
      old ones and the new ones less those received; when none is left,
      what was received joins the pool and the shared set, and the part of
      it new to the pool is the batch to deliver. */
  function Reconcile(env: Crypto, pool: seq<string>, cv: ConnVars, hashes: seq<Hash>)
    : (r: (seq<string>, ConnVars, Option<seq<string>>))
    requires Strict(pool) && Valid(cv)
    ensures var (pool', cv', batch) := r;
      && Valid(cv') && Strict(pool')
      && cv'.sent == cv.sent && cv'.recvd == cv.recvd
      && Elems(cv'.missing) == (Elems(cv.missing) + Elems(hashes)) - HashSet(env, cv.recvd)
      && (batch.Some? <==> cv'.missing == [])
      && (batch.Some? ==>
           && batch.value == Fresh(pool, cv.recvd)
           && Elems(pool') == Elems(pool) + Elems(cv.recvd)
           && Elems(cv'.mconn) == Elems(cv.mconn) + Elems(cv.recvd))
      && (batch.None? ==> pool' == pool && cv'.mconn == cv.mconn)
  {
    var missing := Diff(Union(FromSlice(cv.missing), FromSlice(hashes)), FromSlice(HashesOf(env, cv.recvd)));
    if |missing| == 0 then
      (Union(pool, cv.recvd), cv.(missing := missing, mconn := Union(cv.mconn, cv.recvd)), Some(Fresh(pool, cv.recvd)))
    else
      (pool, cv.(missing := missing), None)
  }

  /** What handleMissing promises, given the replica and connection it ran
      on, the key of the triggering message and the hashes it was handed.
      It stops the process only while delivering. If hashes are still
      missing it asks the peer for them and changes nothing else;
      otherwise the pool and the shared set absorb what was received, and
      the operations new to the pool, each once and after its
      predecessors, are filed in storage. The pool never shrinks. A stop
      comes from predecessors that close a cycle among the new operations,
      or from storage stopping while it files them in such an order. */
  ghost predicate Handled(env: Crypto, rep: Replica, cv: ConnVars, key: string, hashes: seq<Hash>, r: Outcome<Step>)
    requires Strict(rep.pool) && Valid(cv)
  {
    var missing := (Elems(cv.missing) + Elems(hashes)) - HashSet(env, cv.recvd);
    && (r.Crash? ==>
         && missing == {}
         && (|| KahnOrder.HasStuck(TopoSort.GraphOf(env, Fresh(rep.pool, cv.recvd)))
             || exists o :: TopoSort.Listed(env, Fresh(rep.pool, cv.recvd), o)
                            && Deliver(env, rep.store, key, o).Crash?))
    && (r.Done? ==>
      var s := r.value;
      && Valid(s.vars) && Strict(s.replica.pool)
      && s.vars.sent == cv.sent && s.vars.recvd == cv.recvd
      && Elems(s.vars.missing) == missing
      && Elems(rep.pool) <= Elems(s.replica.pool)
      && (missing != {} ==>
           && s.out == Needs(key, s.vars.missing)
           && s.replica == rep && s.vars.mconn == cv.mconn && s.delivered == [])
      && (missing == {} ==>
           && s.out == Silent
           && Elems(s.replica.pool) == Elems(rep.pool) + Elems(cv.recvd)
           && Elems(s.vars.mconn) == Elems(cv.mconn) + Elems(cv.recvd)
           && (forall e :: e in s.delivered ==> e in cv.recvd && e !in rep.pool)
           && TopoSort.Listed(env, Fresh(rep.pool, cv.recvd), s.delivered)
           && Deliver(env, rep.store, key, s.delivered) == Done(s.replica.store)))
  }

  /** Hashes remain missing: ask for them and change nothing else. */
  lemma AskingIsHandled(env: Crypto, rep: Replica, cv: ConnVars, key: string, hashes: seq<Hash>,
                        pool': seq<string>, cv': ConnVars)
    requires Strict(rep.pool) && Valid(cv)
    requires Reconcile(env, rep.pool, cv, hashes) == (pool', cv', None)
    ensures Handled(env, rep, cv, key, hashes, Done(Step(rep, cv', Needs(key, cv'.missing), [])))
  {
    assert cv'.missing[0] in Elems(cv'.missing);
  }

  /** Nothing is missing, and the batch either has a cycle or stopped
      storage in an order that lists it: a fatal stop handleMissing
      allows. */
  lemma StoppingIsHandled(env: Crypto, rep: Replica, cv: ConnVars, key: string, hashes: seq<Hash>,
                          pool': seq<string>, cv': ConnVars, batch: seq<string>, order: seq<string>)
    requires Strict(rep.pool) && Valid(cv)
    requires Reconcile(env, rep.pool, cv, hashes) == (pool', cv', Some(batch))
    requires || KahnOrder.HasStuck(TopoSort.GraphOf(env, batch))
             || (TopoSort.Listed(env, batch, order) && Deliver(env, rep.store, key, order).Crash?)
    ensures Handled(env, rep, cv, key, hashes, Crash)
  {
    assert Elems(cv'.missing) == {};
  }

  /** Nothing is missing: the batch was ordered and delivered. */
  lemma DeliveringIsHandled(env: Crypto, rep: Replica, cv: ConnVars, key: string, hashes: seq<Hash>,
                            pool': seq<string>, cv': ConnVars, batch: seq<string>,
                            order: seq<string>, st: Storage.Store)
    requires Strict(rep.pool) && Valid(cv)
    requires Reconcile(env, rep.pool, cv, hashes) == (pool', cv', Some(batch))
    requires TopoSort.Listed(env, batch, order)
    requires Deliver(env, rep.store, key, order) == Done(st)
    ensures Handled(env, rep, cv, key, hashes, Done(Step(Replica(pool', st), cv', Silent, order)))
  {
    assert Elems(cv'.missing) == {};
    assert forall e :: e in order ==> e in batch;
    forall e | e in order ensures e in cv.recvd && e !in rep.pool {
      assert e in Elems(batch);
    }
  }

  /** handleMissing */
  method HandleMissing(env: Crypto, rep: Replica, cv: ConnVars, key: string, hashes: seq<Hash>)
    returns (r: Outcome<Step>)
    requires Strict(rep.pool) && Valid(cv)
    ensures Handled(env, rep, cv, key, hashes, r)
  {
    var (pool', cv', batch) := Reconcile(env, rep.pool, cv, hashes);
    if batch.None? {
      AskingIsHandled(env, rep, cv, key, hashes, pool', cv');
      return Done(Step(rep, cv', Needs(key, cv'.missing), []));
    }
    var order := TopoSort.TopologicalOrder(env, batch.value);
    var st := if order.Crash? then Crash else Deliver(env, rep.store, key, order.value);
    if st.Crash? {
      StoppingIsHandled(env, rep, cv, key, hashes, pool', cv', batch.value, if order.Crash? then [] else order.value);
      return Crash;
    }
    DeliveringIsHandled(env, rep, cv, key, hashes, pool', cv', batch.value, order.value, st.value);
    return Done(Step(Replica(pool', st.value), cv', Silent, order.value));
  }

  // ---------------------------------------------------------------------
  // The three message handlers

  /** The heads a peer announced that the shared set does not account for. */
  function HeadsMissing(env: Crypto, cv: ConnVars, heads: seq<Hash>): (missing: seq<Hash>)
    ensures Strict(missing)
    ensures Elems(missing) == Elems(heads) - HashSet(env, cv.mconn)
  {
    Diff(FromSlice(heads), HashesOf(env, cv.mconn))
  }

  /** onReceivingHeads: an unparsable body is dropped; otherwise the
      announced heads not in the shared set go to handleMissing. */
  method OnHeads(env: Crypto, rep: Replica, cv: ConnVars, body: Option<MsgsBody>) returns (r: Outcome<Step>)
    requires Strict(rep.pool) && Valid(cv)
    ensures body.None? ==> r == Done(Step(rep, cv, Silent, []))
    ensures body.Some? ==> Handled(env, rep, cv, body.value.key, HeadsMissing(env, cv, body.value.messages), r)
  {
    if body.None? {
      return Done(Step(rep, cv, Silent, []));
    }
    var missing := HeadsMissing(env, cv, body.value.messages);
    r := HandleMissing(env, rep, cv, body.value.key, missing);
  }

  /** A hex string that decodes and reads back as an operation. */
  predicate Accepts(env: Crypto, m: string)
  {
    Hex.Decode(m).1 && ReadOperation(env, Hex.Decode(m).0).Ok?
  }

  function OpOf(env: Crypto, m: string): Operation
    requires Accepts(env, m)
  {
    ReadOperation(env, Hex.Decode(m).0).value
  }

  /** The messages onReceivingMsgs keeps, in order. */
  function Accepted(env: Crypto, msgs: seq<string>): (acc: seq<string>)
    ensures forall m :: m in acc <==> m in msgs && Accepts(env, m)
  {
    Utils.Filter(msgs, m => Accepts(env, m))
  }

  /** The predecessors named by accepted operations, in order. */
  function PredsOf(env: Crypto, acc: seq<string>): (ps: seq<Hash>)
    requires forall m :: m in acc ==> Accepts(env, m)
    ensures forall p :: p in ps <==> exists m :: m in acc && p in OpOf(env, m).preds
  {
    if acc == [] then []
    else
      var rest := PredsOf(env, acc[1..]);
      assert forall m :: m in acc <==> m == acc[0] || m in acc[1..];
      OpOf(env, acc[0]).preds + rest
  }

  /** The bookkeeping of onReceivingMsgs: accepted operations join the
      received set; the predecessors they name that neither the shared set
      nor the received set holds are unresolved. */
  function MsgsIntake(env: Crypto, cv: ConnVars, msgs: seq<string>): (r: (ConnVars, seq<Hash>))
    requires Valid(cv)
    ensures var (cv', unresolved) := r;
      && Valid(cv') && cv' == cv.(recvd := cv'.recvd)
      && (forall m :: m in cv'.recvd <==> m in cv.recvd || (m in msgs && Accepts(env, m)))
      && Strict(unresolved)
      && (forall p :: p in unresolved <==>
           && (exists m :: m in msgs && Accepts(env, m) && p in OpOf(env, m).preds)
           && p !in HashSet(env, cv.mconn) && p !in HashSet(env, cv'.recvd))
  {
    var accepted := Accepted(env, msgs);
    var recvd := Union(cv.recvd, accepted);
    var preds := FromSlice(PredsOf(env, accepted));
    var shared := Union(cv.mconn, recvd);
    HashSetUnion(env, cv.mconn, recvd, shared);
    var unresolved := Diff(preds, HashesOf(env, shared));
    UnresolvedMembers(env, preds, shared);
    MembersOfFromSlice(PredsOf(env, accepted));
    MembersOfUnion(cv.recvd, accepted);
    (cv.(recvd := recvd), unresolved)
  }

  lemma UnresolvedMembers(env: Crypto, preds: seq<Hash>, shared: seq<string>)
    requires Strict(preds)
    ensures forall p :: p in Diff(preds, HashesOf(env, shared)) <==> p in preds && p !in HashSet(env, shared)
  {
    var unresolved := Diff(preds, HashesOf(env, shared));
    forall p ensures p in unresolved <==> p in Elems(preds) - HashSet(env, shared) {
      assert p in unresolved <==> p in Elems(unresolved);
    }
  }

  /** onReceivingMsgs */
  method OnMsgs(env: Crypto, rep: Replica, cv: ConnVars, body: Option<MsgsBody>) returns (r: Outcome<Step>)
    requires Strict(rep.pool) && Valid(cv)
    ensures body.None? ==> r == Done(Step(rep, cv, Silent, []))
    ensures body.Some? ==>
      var (cv', unresolved) := MsgsIntake(env, cv, body.value.messages);
      Handled(env, rep, cv', body.value.key, unresolved, r)
  {
    if body.None? {
      return Done(Step(rep, cv, Silent, []));
    }
    var (cv', unresolved) := MsgsIntake(env, cv, body.value.messages);
    r := HandleMissing(env, rep, cv', body.value.key, unresolved);
  }

  /** The elements of `mconn` not in `sent` whose image under `hash` is
      in `needs`, in ascending order. */
  function Requested(mconn: seq<string>, sent: seq<string>, needs: seq<string>, hash: string -> string)
    : (reply: seq<string>)
    requires Strict(mconn) && Strict(sent)
    ensures Strict(reply)
    ensures forall m :: m in reply <==> m in mconn && m !in sent && hash(m) in needs
  {
    var asked := FromSlice(needs);
    var candidates := Diff(mconn, sent);
    var wanted := (el: string) => Has(asked, hash(el));
    FilterKeepsStrict(candidates, wanted);
    var reply := Utils.Filter(candidates, wanted);
    assert forall m :: m in reply <==> m in mconn && m !in sent && hash(m) in needs by {
      forall m ensures m in reply <==> m in mconn && m !in sent && hash(m) in needs {
        assert m in candidates <==> m in Elems(candidates);
        assert hash(m) in asked <==> hash(m) in Elems(asked);
        assert wanted(m) <==> hash(m) in asked;
      }
    }
    reply
  }

  /** The reply to NEEDS: the shared operations not sent before whose
      hash is asked for, in ascending order. */
  function Reply(env: Crypto, mconn: seq<string>, sent: seq<string>, needs: seq<Hash>): (reply: seq<string>)
    requires Strict(mconn) && Strict(sent)
    ensures Strict(reply)
    ensures forall m :: m in reply <==> m in mconn && m !in sent && HashOperationFromString(env, m) in needs
  {
    Requested(mconn, sent, needs, m => HashOperationFromString(env, m))
  }

  /** onReceivingNeeds: send the reply and remember it as sent; send
      nothing when it is empty. */
  function OnNeeds(env: Crypto, cv: ConnVars, body: Option<MsgsBody>): (r: (ConnVars, Output))
    requires Valid(cv)
    ensures body.None? ==> r == (cv, Silent)
    ensures body.Some? ==>
      var (cv', out) := r;
      var reply := Reply(env, cv.mconn, cv.sent, body.value.messages);
      && Valid(cv') && cv'.recvd == cv.recvd && cv'.missing == cv.missing && cv'.mconn == cv.mconn
      && (reply == [] ==> out == Silent)
      && (reply != [] ==> out == Msgs(body.value.key, reply))
      && Elems(cv'.sent) == Elems(cv.sent) + Elems(reply)
  {
    match body
    case None => (cv, Silent)
    case Some(b) =>
      var reply := Reply(env, cv.mconn, cv.sent, b.messages);
      var cv' := cv.(sent := Union(cv.sent, reply));
      if |reply| != 0 then (cv', Msgs(b.key, reply)) else (cv', Silent)
  }

  /** A NEEDS round never sends the same operation twice on a connection. */
  lemma NeedsNeverResends(env: Crypto, cv: ConnVars, b: MsgsBody, b2: MsgsBody)
    requires Valid(cv)
    ensures var (cv1, out1) := OnNeeds(env, cv, Some(b));
      var (_, out2) := OnNeeds(env, cv1, Some(b2));
      out1.Msgs? && out2.Msgs? ==> Elems(out1.msgs) * Elems(out2.msgs) == {}
  {
    var (cv1, out1) := OnNeeds(env, cv, Some(b));
    var (_, out2) := OnNeeds(env, cv1, Some(b2));
    if out1.Msgs? && out2.Msgs? {
      var reply2 := Reply(env, cv1.mconn, cv1.sent, b2.messages);
      assert out2.msgs == reply2;
      forall m | m in out1.msgs ensures m !in reply2 {
        assert m in Elems(cv1.sent);
      }
    }
  }

  /** onReceivingNeeds as written: set.Diff(mconn, sent) removes in place,
      so the connection's own mconn slice is rewritten. The reply is the
      same; the shared set is not. */
  function OnNeedsAsWritten(env: Crypto, cv: ConnVars, body: Option<MsgsBody>): (r: (ConnVars, Output))
    requires Valid(cv)
    ensures r.1 == OnNeeds(env, cv, body).1 && r.0.sent == OnNeeds(env, cv, body).0.sent
    ensures |r.0.mconn| == |cv.mconn|
  {
    match body
    case None => (cv, Silent)
    case Some(b) =>
      var candidates := DiffInPlace(Slice(cv.mconn, |cv.mconn|), cv.sent);
      var (cv', out) := OnNeeds(env, cv, body);
      (cv'.(mconn := candidates.backing[..|cv.mconn|]), out)
  }

  /** After a NEEDS that finds "a" already sent, the shared set [a b c]
      reads [b c c]: it lost "a", so a later HEADS naming a's hash treats it
      as missing, and it is no longer a set. */
  lemma OnNeedsClobbersSharedSetAsWritten(env: Crypto, b: MsgsBody)
    ensures var cv := ConnVars(["a"], [], [], ["a", "b", "c"]);
      Valid(cv) && OnNeedsAsWritten(env, cv, Some(b)).0.mconn == ["b", "c", "c"]
  {
    var cv := ConnVars(["a"], [], [], ["a", "b", "c"]);
    assert StringOrder.Less("a", "b") && StringOrder.Less("b", "c") && StringOrder.Less("a", "c");
    DiffInPlaceClobbersArgument();
  }

  // ---------------------------------------------------------------------
  // Broadcasting a local operation

  /** broadcast: the operation joins the pool, and MSGS carrying its hex
      form goes to every peer. The string sent hashes to the operation's
      hash. */
  function Broadcast(env: Crypto, pool: seq<string>, key: string, m: Bytes): (r: (seq<string>, Output))
    requires Strict(pool)
    ensures Strict(r.0) && Elems(r.0) == Elems(pool) + {Hex.Encode(m)}
    ensures r.1 == Msgs(key, [Hex.Encode(m)])
    ensures HashOperationFromString(env, Hex.Encode(m)) == HashOperation(env, m)
  {
    HashOfHex(env, m);
    (Add(pool, Hex.Encode(m)), Msgs(key, [Hex.Encode(m)]))
  }
}
