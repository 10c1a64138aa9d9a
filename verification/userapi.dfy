/** protocol/user_api.go: the client requests that create a key and that
    update one. A request body is taken already parsed (None when its JSON
    does not parse); the reply is what the client is sent back. */
module UserApi {

  import opened Wrappers
  import opened Operations
  import opened Reducers
  import opened Hex
  import Message
  import Crdts
  import Storage

  datatype ApiError = Invalid | WrongValueType

  /** The (type, request) pairs getOperation accepts. */
  predicate Legal(crdtType: string, opType: Bytes)
  {
    || (crdtType == Counter && (opType == Message.ApiInc || opType == Message.ApiDec))
    || (crdtType == GSet && opType == Message.ApiAdd)
    || (crdtType == TwoPhaseSet && (opType == Message.ApiAdd || opType == Message.ApiRmv))
  }

  /** The operation tag a request header asks for. */
  function Tag(opType: Bytes): string
  {
    if opType == Message.ApiInc then "inc"
    else if opType == Message.ApiDec then "dec"
    else if opType == Message.ApiAdd then "add"
    else if opType == Message.ApiRmv then "rmv"
    else ""
  }

  /** `int(math.Round(v))`: the nearest integer, halves rounded away from
      zero. */
  function Round(v: real): (n: int)
    ensures -0.5 <= n as real - v <= 0.5
    ensures n as real - v == 0.5 ==> v > 0.0
    ensures n as real - v == -0.5 ==> v < 0.0
  {
    if v >= 0.0 then (v + 0.5).Floor else -((0.5 - v).Floor)
  }

  /** The unsigned record a request stands for: getOperation's choice of
      constructor, applied to the key's heads. Outside the legal pairs the
      record is never signed, and nothing is said about it. */
  function Request(env: Crypto, opType: Bytes, crdtType: string, value: Json, heads: seq<Bytes>)
    : (op: Operation)
    ensures Legal(crdtType, opType) ==>
      op.op == Tag(opType) && op.crdtType == crdtType && op.preds == Crdts.HashPreds(env, heads)
    ensures Legal(crdtType, opType) && crdtType == Counter && value.JNum? ==>
      Amount(op) == Some(Round(value.n) as real)
    ensures Legal(crdtType, opType) && crdtType != Counter ==> Crdts.Names(op, value)
  {
    if crdtType == Counter then
      var n := if value.JNum? then Round(value.n) else 0;
      if opType == Message.ApiInc then Crdts.IncCounterRecord(env, n, heads)
      else Crdts.DecCounterRecord(env, n, heads)
    else if crdtType == GSet then Crdts.AddGSetRecord(env, value, heads)
    else if opType == Message.ApiRmv then Crdts.RemoveTwoPhaseSetRecord(env, value, heads)
    else Crdts.AddTwoPhaseSetRecord(env, value, heads)
  }

  /** getOperation: the signed operation a request stands for, built on the
      key's current heads. */
  function GetOperation(env: Crypto, opType: Bytes, crdtType: string, secretKey: Bytes,
                        value: Json, heads: seq<Bytes>): (r: Result<Bytes, ApiError>)
    ensures !Legal(crdtType, opType) ==> r == Err(Invalid)
    ensures Legal(crdtType, opType) && crdtType == Counter ==> (r.Err? <==> !value.JNum?)
    ensures Legal(crdtType, opType) && crdtType == Counter && r.Err? ==> r.error == WrongValueType
    ensures Legal(crdtType, opType) && crdtType != Counter ==> r.Ok?
    ensures r.Ok? && SoundKey(env, secretKey) ==>
      var op := Request(env, opType, crdtType, value, heads);
      (ReadOperation(env, r.value) == Ok(op) <==> RoundTrips(env, op))
  {
    if crdtType == Counter then
      if opType == Message.ApiInc then
        if value.JNum? then Ok(Crdts.IncCounterOp(env, secretKey, Round(value.n), heads)) else Err(WrongValueType)
      else if opType == Message.ApiDec then
        if value.JNum? then Ok(Crdts.DecCounterOp(env, secretKey, Round(value.n), heads)) else Err(WrongValueType)
      else Err(Invalid)
    else if crdtType == GSet then
      if opType == Message.ApiAdd then Ok(Crdts.AddGSetOp(env, secretKey, value, heads)) else Err(Invalid)
    else if crdtType == TwoPhaseSet then
      if opType == Message.ApiAdd then Ok(Crdts.AddTwoPhaseSetOp(env, secretKey, value, heads))
      else if opType == Message.ApiRmv then Ok(Crdts.RemoveTwoPhaseSetOp(env, secretKey, value, heads))
      else Err(Invalid)
    else Err(Invalid)
  }

  datatype OpBody = OpBody(key: string, value: Json)
  datatype NewBody = NewBody(crdtType: string)

  /** R_OK, R_OK carrying the key of a new CRDT, or R_NO. */
  datatype Reply = Accepted | NewKey(key: string) | Refused

  /** opMsg: read the key's type and heads, build the operation on those
      heads, and append it. A refusal leaves the store alone. */
  function OpMsg(env: Crypto, st: Storage.Store, opType: Bytes, body: Option<OpBody>, secretKey: Bytes)
    : (r: Outcome<(Storage.Store, Reply)>)
    ensures body.None? || body.value.key !in st ==> r == Done((st, Refused))
    ensures r.Done? ==> r.value.1 == Accepted || r.value.1 == Refused
    ensures r.Done? && r.value.1 == Refused ==> r.value.0 == st
    ensures r.Done? && r.value.1 == Accepted ==>
      && body.Some? && body.value.key in st
      && var x := GetOperation(env, opType, st[body.value.key].crdtType, secretKey, body.value.value, st[body.value.key].heads);
      && x.Ok? && Storage.Append(env, st, body.value.key, x.value) == Done(Ok(r.value.0))
    ensures body.Some? && body.value.key in st ==>
      var x := GetOperation(env, opType, st[body.value.key].crdtType, secretKey, body.value.value, st[body.value.key].heads);
      && (x.Err? ==> r == Done((st, Refused)))
      && (x.Ok? ==>
            var a := Storage.Append(env, st, body.value.key, x.value);
            && (r.Crash? <==> a.Crash?)
            && (a.Done? && a.value.Ok? ==> r == Done((a.value.value, Accepted)))
            && (a.Done? && a.value.Err? ==> r == Done((st, Refused))))
  {
    match body
    case None => Done((st, Refused))
    case Some(b) =>
      match Storage.Get(st, b.key)
      case Err(_) => Done((st, Refused))
      case Ok(view) =>
        match GetOperation(env, opType, view.crdtType, secretKey, b.value, view.heads)
        case Err(_) => Done((st, Refused))
        case Ok(x) =>
          match Storage.Append(env, st, b.key, x)
          case Crash => Crash
          case Done(Err(_)) => Done((st, Refused))
          case Done(Ok(st')) => Done((st', Accepted))
  }

  /** An accepted update is appended to its key's log, and its predecessors
      are the hashes of the heads the key had when the request came in. */
  lemma OpMsgBuildsOnHeads(env: Crypto, st: Storage.Store, opType: Bytes, b: OpBody, secretKey: Bytes,
                           st': Storage.Store)
    requires OpMsg(env, st, opType, Some(b), secretKey) == Done((st', Accepted))
    requires SoundKey(env, secretKey)
    requires b.key in st ==> RoundTrips(env, Request(env, opType, st[b.key].crdtType, b.value, st[b.key].heads))
    ensures b.key in st && b.key in st'
    ensures |st'[b.key].log| == |st[b.key].log| + 1 && st'[b.key].log[..|st[b.key].log|] == st[b.key].log
    ensures var op := ReadOperation(env, st'[b.key].log[|st[b.key].log|]);
      op.Ok? && op.value.preds == Crdts.HashPreds(env, st[b.key].heads) && op.value.op == Tag(opType)
    ensures Storage.Consistent(env, st'[b.key]) && st' == st[b.key := st'[b.key]]
  {
    var x := GetOperation(env, opType, st[b.key].crdtType, secretKey, b.value, st[b.key].heads).value;
    Storage.AppendExtends(env, st, b.key, x, st');
    assert st'[b.key].log[|st[b.key].log|] == x;
  }

  /** newMsg: create a CRDT of the requested type and file its creating
      operation under the hex of its id. */
  function NewMsg(env: Crypto, st: Storage.Store, body: Option<NewBody>, secretKey: Bytes, random: seq<Hex.byte>)
    : (r: Outcome<(Storage.Store, Reply)>)
    requires |random| == 8
    ensures body.None? || !IsValidCrdtType(body.value.crdtType) ==> r == Done((st, Refused))
    ensures r.Done? ==> r.value.1.NewKey? || r.value.1 == Refused
    ensures r.Done? && r.value.1 == Refused ==> r.value.0 == st
    ensures r.Done? && r.value.1.NewKey? ==>
      && body.Some? && Crdts.NewCRDT(env, body.value.crdtType, secretKey, random).Ok?
      && var c := Crdts.NewCRDT(env, body.value.crdtType, secretKey, random).value;
      && r.value.1.key == HashOperation(env, c.signed)
      && Storage.Assign(env, st, r.value.1.key, c.signed) == Done(Ok(r.value.0))
    ensures body.Some? && IsValidCrdtType(body.value.crdtType) ==>
      var c := Crdts.NewCRDT(env, body.value.crdtType, secretKey, random).value;
      var a := Storage.Assign(env, st, HashOperation(env, c.signed), c.signed);
      && (r.Crash? <==> a.Crash?)
      && (a.Done? && a.value.Ok? ==> r == Done((a.value.value, NewKey(HashOperation(env, c.signed)))))
      && (a.Done? && a.value.Err? ==> r == Done((st, Refused)))
  {
    match body
    case None => Done((st, Refused))
    case Some(b) =>
      match Crdts.NewCRDT(env, b.crdtType, secretKey, random)
      case Err(_) => Done((st, Refused))
      case Ok(c) =>
        var key := Hex.Encode(c.id);
        match Storage.Assign(env, st, key, c.signed)
        case Crash => Crash
        case Done(Err(_)) => Done((st, Refused))
        case Done(Ok(st')) => Done((st', NewKey(key)))
  }

  /** The key a client is told is the key its CRDT was filed under: a new
      key, holding just the creating operation, of the requested type. */
  lemma NewMsgFilesUnderRepliedKey(env: Crypto, st: Storage.Store, b: NewBody, secretKey: Bytes,
                                   random: seq<Hex.byte>, st': Storage.Store, key: string)
    requires |random| == 8
    requires NewMsg(env, st, Some(b), secretKey, random) == Done((st', NewKey(key)))
    requires SoundKey(env, secretKey) && RoundTrips(env, Crdts.CreateCrdtRecord(b.crdtType, random))
    ensures key !in st && key in st' && st' == st[key := st'[key]]
    ensures st'[key].crdtType == b.crdtType && |st'[key].log| == 1
    ensures ReadOperation(env, st'[key].log[0]) == Ok(Crdts.CreateCrdtRecord(b.crdtType, random))
    ensures Storage.Consistent(env, st'[key])
  {
    var c := Crdts.NewCRDT(env, b.crdtType, secretKey, random).value;
    Storage.AssignInstalls(env, st, key, c.signed, st');
  }
}
