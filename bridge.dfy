/**
 * Message handling of the bridge (`onMessage`): what one MQTT message on one topic causes.
 * The publish of the request and the log reports are modelled as events; the JSON parse of a
 * status message is given as its outcome.
 */
module Bridge {
  import opened Bytes
  import opened Wrappers
  import Topics
  import Request
  import Reply
  import Hex
  import Crc16

  /**
   * What Jackson makes of a status payload: the `type` field, absent or a string, or a failure
   * (not JSON, not an object, or a `type` that is not a string), which throws.
   */
  datatype StatusPayload = Unparsable | Parsed(typeField: Option<string>)

  datatype Event =
    | Published(topic: string, payload: seq<Byte>)  // `mqtt.publish`
    | DeviceOffline(imei: string)                   // the warning on "disconnect"
    | UnknownStatus(json: seq<Byte>)                // the error on any other status
    | ReadingReport(reading: Reply.Reading)         // the temperature and humidity log
    | HandlingFailed                                // an exception caught by `onMessage`

  const Heartbeat: string := "heartbeat"
  const Disconnect: string := "disconnect"

  /** `sendModbusReq`: publish the fixed request on the tx topic. */
  function SendModbusReq(imei: string): (events: seq<Event>)
    ensures Sent(events) == [(Topics.Tx(imei), Request.Frame())]
    ensures forall e | e in events :: e.Published? && Crc16.Crc(e.payload) == 0
  {
    Request.FramePassesCrcCheck();
    [Published(Topics.Tx(imei), Request.Frame())]
  }

  /** The dump that `sendModbusReq` logs before publishing. */
  lemma RequestDump()
    ensures Hex.Hex(Request.Frame()) == "01 03 00 00 00 02 C4 0B "
  {
    var f := Request.Frame();
    assert f[1..][1..][1..][1..][1..][1..][1..][1..] == [];
  }

  /** What becomes of a reply: a reading is logged, a short one throws, a mismatch is silent. */
  function ReplyEvents(outcome: Reply.Outcome): (events: seq<Event>)
    ensures |events| <= 1
    ensures events == [] <==> outcome.Rejected?
    ensures HandlingFailed in events <==> outcome.EndOfStream?
  {
    match outcome
    case Decoded(reading) => [ReadingReport(reading)]
    case EndOfStream => [HandlingFailed]
    case Rejected(_) => []
  }

  /** `onMessage` for a message on `topic`; `status` is what the payload parses to as JSON. */
  function OnMessage(imei: string, topic: string, payload: seq<Byte>, status: StatusPayload): (events: seq<Event>)
    ensures |events| <= 1
    ensures topic != Topics.Status(imei) && topic != Topics.Rx(imei) ==> events == []
    ensures forall e | e in events && e.Published? ::
      e == Published(Topics.Tx(imei), Request.Frame()) && topic == Topics.Status(imei)
  {
    if topic == Topics.Status(imei) then
      match status
      case Unparsable => [HandlingFailed]
      case Parsed(Some(t)) =>
        if t == Heartbeat then SendModbusReq(imei)
        else if t == Disconnect then [DeviceOffline(imei)]
        else [UnknownStatus(payload)]
      case Parsed(None) => [UnknownStatus(payload)]
    else if topic == Topics.Rx(imei) then
      ReplyEvents(Reply.DecodeReply(payload))
    else
      []
  }

  /** The payloads published among `events`, in order, with the topic each went to. */
  function Sent(events: seq<Event>): (r: seq<(string, seq<Byte>)>)
    ensures |r| <= |events|
    ensures forall i | 0 <= i < |r| :: Published(r[i].0, r[i].1) in events
    ensures forall e | e in events && e.Published? :: (e.topic, e.payload) in r
    ensures events != [] && events[0].Published? ==> r != [] && r[0] == (events[0].topic, events[0].payload)
  {
    if events == [] then []
    else (match events[0]
          case Published(t, p) => [(t, p)]
          case _ => []) + Sent(events[1..])
  }

  /**
   * Exactly one request is sent, the fixed frame on the tx topic, when the message is a heartbeat
   * on the status topic; every other message sends nothing.
   */
  lemma RequestSentIffHeartbeat(imei: string, topic: string, payload: seq<Byte>, status: StatusPayload)
    ensures Sent(OnMessage(imei, topic, payload, status)) ==
      if topic == Topics.Status(imei) && status == Parsed(Some(Heartbeat))
      then [(Topics.Tx(imei), Request.Frame())]
      else []
  {
    var events := OnMessage(imei, topic, payload, status);
    assert |events| <= 1;
    if events != [] {
      assert events[1..] == [];
    }
  }

  /** A disconnect on the status topic reports the device offline and does nothing else. */
  lemma DisconnectReportsOffline(imei: string, payload: seq<Byte>)
    ensures OnMessage(imei, Topics.Status(imei), payload, Parsed(Some(Disconnect))) == [DeviceOffline(imei)]
  {
  }

  /** Any other status, or none, is reported as unknown with its payload; a parse failure is caught. */
  lemma OtherStatusReported(imei: string, payload: seq<Byte>, status: StatusPayload)
    requires status != Parsed(Some(Heartbeat)) && status != Parsed(Some(Disconnect))
    ensures OnMessage(imei, Topics.Status(imei), payload, status) ==
      if status.Unparsable? then [HandlingFailed] else [UnknownStatus(payload)]
  {
  }

  /**
   * A message on the rx topic goes to the decoder and nowhere else: its status parse is irrelevant,
   * a reading is reported only for an accepted reply, and nothing is ever published.
   */
  lemma RxGoesToDecoder(imei: string, payload: seq<Byte>, status: StatusPayload)
    ensures OnMessage(imei, Topics.Rx(imei), payload, status) == ReplyEvents(Reply.DecodeReply(payload))
    ensures Sent(OnMessage(imei, Topics.Rx(imei), payload, status)) == []
    ensures (exists r :: ReadingReport(r) in OnMessage(imei, Topics.Rx(imei), payload, status))
      <==> Reply.DecodeReply(payload).Decoded?
  {
    Topics.Disjoint(imei, imei);
    var events := OnMessage(imei, Topics.Rx(imei), payload, status);
    if Reply.DecodeReply(payload).Decoded? {
      assert ReadingReport(Reply.DecodeReply(payload).reading) in events;
    }
  }

  /** A message on any topic other than status and rx has no effect. */
  lemma OtherTopicIgnored(imei: string, topic: string, payload: seq<Byte>, status: StatusPayload)
    requires topic != Topics.Status(imei) && topic != Topics.Rx(imei)
    ensures OnMessage(imei, topic, payload, status) == []
  {
  }

  /**
   * A reply with an accepted header but fewer than seven bytes makes `readShort` throw; the
   * exception is caught and reported, unlike a bad header, which is turned away silently.
   */
  lemma TruncatedBodyFails(imei: string, reply: seq<Byte>, status: StatusPayload)
    requires 3 <= |reply| < 7 && reply[0] == 0x01 && reply[1] == 0x03 && reply[2] == 0x04
    ensures Reply.DecodeReply(reply) == Reply.EndOfStream
    ensures OnMessage(imei, Topics.Rx(imei), reply, status) == [HandlingFailed]
  {
    Topics.Disjoint(imei, imei);
  }

  /**
   * A reply whose header is short or differs from 01 03 04 is turned away silently: the plain
   * `return`s of the decoder cause no event at all.
   */
  lemma BadHeaderSilent(imei: string, reply: seq<Byte>, status: StatusPayload)
    requires |reply| < 3 || reply[0] != 0x01 || reply[1] != 0x03 || reply[2] != 0x04
    ensures Reply.DecodeReply(reply).Rejected?
    ensures OnMessage(imei, Topics.Rx(imei), reply, status) == []
  {
    Topics.Disjoint(imei, imei);
  }

  /** A message never causes more than one modelled event. */
  lemma AtMostOneEvent(imei: string, topic: string, payload: seq<Byte>, status: StatusPayload)
    ensures |OnMessage(imei, topic, payload, status)| <= 1
  {
  }
}
