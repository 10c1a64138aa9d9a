/** The signed-operation layer of crdts/operations.go. Ed25519, SHA-256 and
    the JSON codec are not modelled byte for byte: they are the fields of an
    environment `Crypto` that every caller receives, so that each property
    below holds for every choice of those functions (or for every choice
    meeting the stated assumptions). */
module Operations {

  import opened Wrappers
  import opened Hex

  /** Hashes travel as lower-case hex strings of a SHA-256 digest. */
  type Hash = string

  /** The CRDT type names (crdts/crdts.go). */
  const Counter: string := "counter"
  const GSet: string := "gset"
  const TwoPhaseSet: string := "2pset"

  /** A decoded JSON value, as `encoding/json` produces it for `any`. */
  datatype Json =
    | JNull
    | JBool(b: bool)
    | JNum(n: real)
    | JStr(s: string)
    | JArray(items: seq<Json>)
    | JObject(fields: map<string, Json>)

  /** The record that is serialised, signed and replicated. */
  datatype Operation = Operation(op: string, preds: seq<Hash>, crdt: Json, crdtType: string, nonce: string)

  /** The functions the program calls but whose bytes are not modelled. */
  datatype Crypto = Crypto(
    sha256: Bytes -> Bytes,                 // crypto/sha256.Sum256
    verify: (Bytes, Bytes, Bytes) -> bool,  // ed25519.Verify(publicKey, message, signature)
    sign: (Bytes, Bytes) -> Bytes,          // ed25519.Sign(secretKey, message)
    publicKey: Bytes -> Bytes,              // secretKey.Public()
    marshal: Operation -> Bytes,            // json.Marshal of an Operation
    unmarshal: Bytes -> Option<Operation>)  // json.Unmarshal into an Operation

  /** Ed25519 sizes: the prefix of a signed operation. */
  const KeySize: nat := 32
  const SignatureSize: nat := 64
  const HeaderSize: nat := KeySize + SignatureSize

  /** A signed payload is key ++ signature ++ JSON; it is valid when the
      signature over the JSON verifies under the key. */
  predicate IsValid(env: Crypto, payload: Bytes)
  {
    |payload| >= HeaderSize
    && env.verify(payload[..KeySize], payload[HeaderSize..], payload[KeySize..HeaderSize])
  }

  datatype ReadError = InvalidSignature | MalformedJson

  /** The operation carried by a signed payload, or why there is none. */
  function ReadOperation(env: Crypto, payload: Bytes): (r: Result<Operation, ReadError>)
    ensures r.Ok? <==> IsValid(env, payload) && env.unmarshal(payload[HeaderSize..]).Some?
    ensures |payload| < HeaderSize ==> r == Err(InvalidSignature)
    ensures r.Ok? ==> Some(r.value) == env.unmarshal(payload[HeaderSize..])
  {
    if !IsValid(env, payload) then Err(InvalidSignature)
    else match env.unmarshal(payload[HeaderSize..])
      case None => Err(MalformedJson)
      case Some(op) => Ok(op)
  }

  /** key ++ signature ++ JSON of the operation. */
  function SignOperation(env: Crypto, secretKey: Bytes, op: Operation): (signed: Bytes)
    ensures |signed| >= |env.publicKey(secretKey)| && signed[..|env.publicKey(secretKey)|] == env.publicKey(secretKey)
    ensures |signed| >= |env.marshal(op)| && signed[|signed| - |env.marshal(op)|..] == env.marshal(op)
  {
    env.publicKey(secretKey) + env.sign(secretKey, env.marshal(op)) + env.marshal(op)
  }

  /** What Ed25519 promises for one secret key: a 32-byte public key,
      64-byte signatures, and every signature made with the key verifies
      under its public key. */
  ghost predicate SoundKey(env: Crypto, secretKey: Bytes)
  {
    && |env.publicKey(secretKey)| == KeySize
    && (forall m :: |env.sign(secretKey, m)| == SignatureSize)
    && (forall m :: env.verify(env.publicKey(secretKey), m, env.sign(secretKey, m)))
  }

  /** The JSON codec reads one operation back as it was written. */
  ghost predicate RoundTrips(env: Crypto, op: Operation)
  {
    env.unmarshal(env.marshal(op)) == Some(op)
  }

  /** With a sound key, what SignOperation produces reads back exactly
      when its JSON parses, and reads back as the operation exactly when
      the JSON codec round-trips it. */
  lemma SignedReadsBack(env: Crypto, secretKey: Bytes, op: Operation)
    requires SoundKey(env, secretKey)
    ensures ReadOperation(env, SignOperation(env, secretKey, op)).Ok? <==> env.unmarshal(env.marshal(op)).Some?
    ensures ReadOperation(env, SignOperation(env, secretKey, op)) == Ok(op) <==> RoundTrips(env, op)
  {
    var pk := env.publicKey(secretKey);
    var json := env.marshal(op);
    var sig := env.sign(secretKey, json);
    var signed := pk + sig + json;
    assert signed[..KeySize] == pk;
    assert signed[KeySize..HeaderSize] == sig;
    assert signed[HeaderSize..] == json;
    assert env.verify(pk, json, sig);
  }

  /** The two premises can be met together, for any key and operation. */
  lemma SigningPremisesMet(secretKey: Bytes, op: Operation)
    ensures exists env :: SoundKey(env, secretKey) && RoundTrips(env, op)
  {
    var zeros: Bytes := seq(SignatureSize, i => 0);
    var env := Crypto(
      b => b,
      (pk, m, sig) => true,
      (sk, m) => zeros,
      sk => zeros[..KeySize],
      o => [],
      b => Some(op));
    assert SoundKey(env, secretKey);
    assert RoundTrips(env, op);
  }

  /** The hex form of the SHA-256 digest of a signed operation. */
  function HashOperation(env: Crypto, signed: Bytes): (h: Hash)
    ensures |h| == 2 * |env.sha256(signed)|
  {
    Hex.Encode(env.sha256(signed))
  }

  /** The hash of a hex-encoded signed operation; a decoding error is
      ignored and the decoded prefix is hashed. */
  function HashOperationFromString(env: Crypto, s: string): Hash
  {
    HashOperation(env, Hex.Decode(s).0)
  }

  /** Hashing the hex form of an operation is hashing the operation. */
  lemma HashOfHex(env: Crypto, signed: Bytes)
    ensures HashOperationFromString(env, Hex.Encode(signed)) == HashOperation(env, signed)
  {
    Hex.DecodeEncode(signed);
  }

  /** Hashing is injective on the given payloads. */
  ghost predicate HashInjectiveOn(env: Crypto, xs: set<Bytes>)
  {
    forall a, b :: a in xs && b in xs && HashOperation(env, a) == HashOperation(env, b) ==> a == b
  }

  lemma HashInjectiveAt(env: Crypto, xs: set<Bytes>, a: Bytes, b: Bytes)
    requires HashInjectiveOn(env, xs)
    requires a in xs && b in xs && HashOperation(env, a) == HashOperation(env, b)
    ensures a == b
  {
  }
}
