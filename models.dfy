/**
 * The older copy of the message layouts. It knows only two request kinds, reads the
 * reply layout instead of writing it, and shares the Heartbeat and Data layouts with
 * the current message table: same fields, widths, order, text lengths and scalings.
 */
module Models {
  import opened Wrappers
  import opened Wire
  import Messages

  /** The two request kinds of the older table. */
  datatype MessageType = Heartbeat | Data

  function Code(t: MessageType): uint16 {
    match t
    case Heartbeat => 0x4710
    case Data => 0x4210
  }

  /** `MessageType::from_u16`. */
  function FromU16(code: uint16): (r: Option<MessageType>)
    ensures r.Some? <==> code == 0x4710 || code == 0x4210
    ensures r.Some? ==> Code(r.value) == code
  {
    if code == 0x4710 then Some(Heartbeat)
    else if code == 0x4210 then Some(Data)
    else None
  }

  /** The same kind in the current table. */
  function Current(t: MessageType): Messages.SofarMessageType {
    match t
    case Heartbeat => Messages.Heartbeat
    case Data => Messages.Data
  }

  /** `from_u16` inverts the discriminant table. */
  lemma FromU16Inverse(code: uint16, t: MessageType)
    ensures FromU16(code) == Some(t) <==> Code(t) == code
  {
  }

  /**
   * The older table is the current one restricted to Heartbeat and Data: every code it
   * knows names the same kind with the same discriminant there, and the codes it does not
   * know are exactly the ones the current table also rejects or assigns to Hello, HelloCd
   * and Unknown44.
   */
  lemma TableIsRestriction(code: uint16)
    ensures FromU16(code).Some? ==> Messages.FromU16(code) == Some(Current(FromU16(code).value))
    ensures FromU16(code).None? <==>
      (Messages.FromU16(code).None? || Messages.FromU16(code).value in {Messages.Hello, Messages.HelloCd, Messages.Unknown44})
  {
  }

  /** Each kind keeps its discriminant in the current table. */
  lemma CodeAgrees(t: MessageType)
    ensures Messages.Code(Current(t)) == Code(t)
  {
  }

  // ---------------------------------------------------------------- layouts

  /** The server's reply, as a layout that is read rather than written. */
  datatype ServerResponse = ServerResponse(
    sth: uint8,
    one: uint8,
    timestamp: uint32,
    sth2: uint16,
    zero: uint16)

  /** bincode's reading of a ServerResponse from the front of s. */
  function DecodeServerResponse(s: seq<uint8>): (r: Result<ServerResponse, DecodeError>)
    ensures r.Ok? <==> |s| >= 10
    ensures r.Err? ==> r.error == UnexpectedEof
  {
    var sth := ReadU8(s, 0);
    if sth.Err? then Err(sth.error) else
    var one := ReadU8(s, 1);
    if one.Err? then Err(one.error) else
    var timestamp := ReadU32(s, 2);
    if timestamp.Err? then Err(timestamp.error) else
    var sth2 := ReadU16(s, 6);
    if sth2.Err? then Err(sth2.error) else
    var zero := ReadU16(s, 8);
    if zero.Err? then Err(zero.error) else
    Ok(ServerResponse(sth.value, one.value, timestamp.value, sth2.value, zero.value))
  }

  /** The reply the current table writes, field for field. */
  function FromCurrent(r: Messages.ServerResponse): ServerResponse {
    ServerResponse(r.messageId, r.unknown1, r.timestamp, r.unknown2, r.unknown3)
  }

  function ToCurrent(r: ServerResponse): Messages.ServerResponse {
    Messages.ServerResponse(r.sth, r.one, r.timestamp, r.sth2, r.zero)
  }

  /**
   * The two copies describe the same 10-byte reply: reading what the current table writes
   * gives back its fields, whatever follows the reply.
   */
  lemma ServerResponseRoundTrip(r: Messages.ServerResponse, rest: seq<uint8>)
    ensures DecodeServerResponse(Messages.SerializeServerResponse(r) + rest) == Ok(FromCurrent(r))
  {
    var b := Messages.SerializeServerResponse(r);
    assert (b + rest)[..10] == b;
  }

  /** And writing what was read gives back the 10 bytes it was read from. */
  lemma ServerResponseReserialized(s: seq<uint8>)
    requires DecodeServerResponse(s).Ok?
    ensures Messages.SerializeServerResponse(ToCurrent(DecodeServerResponse(s).value)) == s[..10]
  {
    var w := Messages.SerializeServerResponse(ToCurrent(DecodeServerResponse(s).value));
    U32WriteOfRead(s[2], s[3], s[4], s[5]);
    U16RoundTrip(0, s[6], s[7]);
    U16RoundTrip(0, s[8], s[9]);
    assert w == s[..2] + s[2..6] + s[6..8] + s[8..10];
  }

  /** The Heartbeat body: one byte. */
  datatype HeartbeatBody = HeartbeatBody(zero: uint8)

  function DecodeHeartbeat(s: seq<uint8>): (r: Result<HeartbeatBody, DecodeError>)
    ensures r.Ok? <==> |s| >= 1
    ensures r.Ok? ==> r.value.zero == s[0]
  {
    var zero := ReadU8(s, 0);
    if zero.Err? then Err(zero.error) else
    Ok(HeartbeatBody(zero.value))
  }

  /** The older Heartbeat layout reads exactly what the current one reads. */
  lemma HeartbeatAgrees(s: seq<uint8>)
    ensures DecodeHeartbeat(s).Ok? <==> Messages.DecodeHeartbeat(s).Ok?
    ensures DecodeHeartbeat(s).Ok? ==> DecodeHeartbeat(s).value.zero == Messages.DecodeHeartbeat(s).value.unknown
    ensures DecodeHeartbeat(s).Err? ==> DecodeHeartbeat(s).error == Messages.DecodeHeartbeat(s).error
  {
  }

  /**
   * The Data layout of the older copy has the current one's fields, widths, order, text
   * lengths and scalings, so it is the current layout and its decoder.
   */
  type DataBody = Messages.DataBody

  /** The older message enum: a Heartbeat or a Data body. */
  datatype SofarMessage =
    | HeartbeatMessage(heartbeat: HeartbeatBody)
    | DataMessage(data: DataBody)
}
