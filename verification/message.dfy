/** protocol/message.go: a message is a four-byte header followed by its
    content. Strings are Go byte strings here. */
module Message {

  import opened Wrappers
  import opened Hex

  // The headers of the replica protocol and of the user interface, as the
  // ASCII bytes of their four-letter names.
  const PING: Bytes := [0x50, 0x49, 0x4E, 0x47]  // "PING"
  const PONG: Bytes := [0x50, 0x4F, 0x4E, 0x47]  // "PONG"
  const CONNECT: Bytes := [0x43, 0x4F, 0x4E, 0x4E]  // "CONN"
  const QCONNECT: Bytes := [0x43, 0x4F, 0x4E, 0x3F]  // "CON?"
  const OK: Bytes := [0x52, 0x5F, 0x4F, 0x4B]  // "R_OK"
  const NO: Bytes := [0x52, 0x5F, 0x4E, 0x4F]  // "R_NO"
  const ERR: Bytes := [0x52, 0x5F, 0x45, 0x52]  // "R_ER"
  const MSGS: Bytes := [0x4D, 0x53, 0x47, 0x53]  // "MSGS"
  const NEEDS: Bytes := [0x4E, 0x45, 0x45, 0x44]  // "NEED"
  const ApiNew: Bytes := [0x2F, 0x6E, 0x65, 0x77]  // "/new"
  const ApiGet: Bytes := [0x2F, 0x67, 0x65, 0x74]  // "/get"
  const ApiInc: Bytes := [0x2F, 0x69, 0x6E, 0x63]  // "/inc"
  const ApiDec: Bytes := [0x2F, 0x64, 0x65, 0x63]  // "/dec"
  const ApiAdd: Bytes := [0x2F, 0x61, 0x64, 0x64]  // "/add"
  const ApiRmv: Bytes := [0x2F, 0x72, 0x6D, 0x76]  // "/rmv"

  const Headers: seq<Bytes> :=
    [PING, PONG, CONNECT, QCONNECT, OK, NO, ERR, MSGS, NEEDS, ApiNew, ApiGet, ApiInc, ApiDec, ApiAdd, ApiRmv]

  /** Every declared header is four bytes long, and no two coincide, so
      the first four bytes of a payload name at most one of them. */
  lemma HeadersAreFourBytes()
    ensures forall h :: h in Headers ==> |h| == 4
    ensures forall i, j :: 0 <= i < j < |Headers| ==> Headers[i] != Headers[j]
  {
    forall i, j | 0 <= i < j < |Headers|
      ensures Headers[i] != Headers[j]
    {
      var a := Headers[i];
      var b := Headers[j];
      assert a[0] != b[0] || a[1] != b[1] || a[2] != b[2] || a[3] != b[3];
    }
  }

  /** A message; `malformed` stands for the Go error field being non-nil. */
  datatype Message = Message(header: Bytes, content: Bytes, malformed: bool)

  /** NewMessage: the header, empty content, no error. */
  function NewMessage(header: Bytes): (m: Message)
    ensures m.header == header && m.content == [] && !m.malformed
  {
    Message(header, [], false)
  }

  /** MessageFromPayload: a payload of fewer than four bytes is refused with
      a malformed zero message; otherwise its first four bytes are the
      header and the rest the content. */
  function MessageFromPayload(payload: Bytes): (r: (Message, bool))
    ensures r.1 <==> |payload| >= 4
    ensures r.0.malformed <==> !r.1
    ensures r.1 ==> r.0.header + r.0.content == payload && |r.0.header| == 4
  {
    if |payload| < 4 then (Message([], [], true), false)
    else (Message(payload[..4], payload[4..], false), true)
  }

  /** AddContent: the serialised content (None when serialisation fails,
      which marks the message malformed and keeps the old content). */
  function AddContent(msg: Message, serialized: Option<Bytes>): (m: Message)
    ensures m.header == msg.header
    ensures serialized.Some? ==> m.content == serialized.value && m.malformed == msg.malformed
    ensures serialized.None? ==> m.content == msg.content && m.malformed
  {
    match serialized
    case None => msg.(malformed := true)
    case Some(bs) => msg.(content := bs)
  }

  function IsMalformed(msg: Message): bool
  {
    msg.malformed
  }

  datatype SendError = Malformed

  /** The bytes Send writes: nothing for a malformed message, else the
      header followed by the content. The write itself is not modelled. */
  function Send(msg: Message): (r: Result<Bytes, SendError>)
    ensures r.Err? <==> IsMalformed(msg)
    ensures r.Ok? ==> |r.value| == |msg.header| + |msg.content| && r.value[..|msg.header|] == msg.header
  {
    if IsMalformed(msg) then Err(Malformed) else Ok(msg.header + msg.content)
  }

  /** What a well-formed message with a four-byte header sends is read back
      as that same message. */
  lemma SendThenParse(msg: Message)
    requires |msg.header| == 4 && !msg.malformed
    ensures MessageFromPayload(Send(msg).value) == (msg, true)
  {
    var p := msg.header + msg.content;
    assert p[..4] == msg.header && p[4..] == msg.content;
  }

  /** A message built with NewMessage from a declared header and given
      content round-trips. */
  lemma NewMessageRoundTrip(h: Bytes, content: Bytes)
    requires h in Headers
    ensures MessageFromPayload(Send(AddContent(NewMessage(h), Some(content))).value)
         == (Message(h, content, false), true)
  {
    HeadersAreFourBytes();
    SendThenParse(Message(h, content, false));
  }
}
