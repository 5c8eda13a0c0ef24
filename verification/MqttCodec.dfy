/**
 The MQTT 3.1.1 packet codec of the operator: the encoder of mqtt_publisher.go and the
 stream decoder of mqtt_telemetry.go (OASIS MQTT 3.1.1, sections 1.5.3, 2.2.3 and 3.3).
 */
module MqttCodec {
  import opened Common

  const MAX_REMAINING_LENGTH := 268435455
  const MAX_STRING_LENGTH := 65535
  const PUBLISH_QOS1: Byte := 0x32

  // ---------------------------------------------------------------- remaining length

  /** The variable-length encoding of section 2.2.3: seven bits a byte, low group first. */
  function EncodedLength(n: nat): seq<Byte>
  {
    if n < 128 then [n] else [n % 128 + 128] + EncodedLength(n / 128)
  }

  datatype LengthRead = Length(value: nat, used: nat) | EndOfStream | TooLong

  /** What a reader that has already taken k continuation bytes makes of the bytes s. */
  function DecodedLength(s: seq<Byte>, k: nat): (r: LengthRead)
    requires k <= 4
    ensures r.Length? ==> 1 <= r.used <= |s| && r.used <= 4 - k
    decreases 4 - k
  {
    if k == 4 then TooLong
    else if s == [] then EndOfStream
    else if s[0] < 128 then Length(s[0], 1)
    else match DecodedLength(s[1..], k + 1)
      case Length(v, used) => Length(s[0] - 128 + 128 * v, used + 1)
      case other => other
  }

  /** 128^(4-k) for the k bytes already read: the first length that no longer fits. */
  function LengthLimit(k: nat): nat
    requires k <= 4
  {
    [268435456, 2097152, 16384, 128, 1][k]
  }

  /** Reading back an encoded length succeeds exactly below the limit, and then consumes exactly the encoding. */
  lemma {:induction false} LengthRoundTripFrom(n: nat, tail: seq<Byte>, k: nat)
    requires k < 4
    ensures n < LengthLimit(k) <==> DecodedLength(EncodedLength(n) + tail, k).Length?
    ensures n < LengthLimit(k) ==> DecodedLength(EncodedLength(n) + tail, k) == Length(n, |EncodedLength(n)|)
    ensures n >= LengthLimit(k) ==> DecodedLength(EncodedLength(n) + tail, k) == TooLong
    decreases n
  {
    var s := EncodedLength(n) + tail;
    if n >= 128 {
      assert s[1..] == EncodedLength(n / 128) + tail;
      if k < 3 {
        LengthRoundTripFrom(n / 128, tail, k + 1);
      }
    }
  }

  /** The wire format carries a remaining length exactly when it is at most 268435455. */
  lemma LengthRoundTrip(n: nat, tail: seq<Byte>)
    ensures n <= MAX_REMAINING_LENGTH <==>
            DecodedLength(EncodedLength(n) + tail, 0) == Length(n, |EncodedLength(n)|)
  {
    LengthRoundTripFrom(n, tail, 0);
  }

  /** The length that a sequence of groups denotes, whatever their continuation bits. */
  function Groups(s: seq<Byte>): nat {
    if s == [] then 0 else s[0] % 128 + 128 * Groups(s[1..])
  }

  /** On the wire: groups of seven bits, low group first, with the top bit set on all but the last, and no empty last group. */
  lemma {:induction false} LengthOnTheWire(n: nat)
    ensures var s := EncodedLength(n);
            && s != [] && Groups(s) == n && (|s| > 1 ==> s[|s| - 1] > 0)
            && forall i :: 0 <= i < |s| ==> (s[i] >= 128 <==> i < |s| - 1)
    decreases n
  {
    if n >= 128 {
      var first, rest := n % 128 + 128, EncodedLength(n / 128);
      LengthOnTheWire(n / 128);
      GroupsAhead(first, rest);
      assert EncodedLength(n) == [first] + rest;
      hide EncodedLength, Groups;
    }
  }

  lemma GroupsAhead(first: Byte, rest: seq<Byte>)
    ensures Groups([first] + rest) == first % 128 + 128 * Groups(rest)
  {
    assert ([first] + rest)[1..] == rest;
  }

  // ---------------------------------------------------------------- packets on a stream

  datatype Packet = Packet(header: Byte, body: seq<Byte>)

  function Encode(p: Packet): seq<Byte> {
    [p.header] + EncodedLength(|p.body|) + p.body
  }

  function EncodeAll(ps: seq<Packet>): seq<Byte> {
    if ps == [] then [] else Encode(ps[0]) + EncodeAll(ps[1..])
  }

  datatype Next = Read(packet: Packet, rest: seq<Byte>) | Broken

  /** The packet at the front of a byte stream, and what follows it. */
  function NextPacket(s: seq<Byte>): (r: Next)
    ensures r.Read? ==> |r.rest| < |s|
  {
    if s == [] then Broken
    else match DecodedLength(s[1..], 0)
      case Length(n, used) =>
        if |s| < 1 + used + n then Broken
        else Read(Packet(s[0], s[1 + used..1 + used + n]), s[1 + used + n..])
      case _ => Broken
  }

  function DecodeAll(s: seq<Byte>): Option<seq<Packet>>
    decreases |s|
  {
    if s == [] then Some([])
    else match NextPacket(s)
      case Broken => None
      case Read(p, rest) =>
        match DecodeAll(rest)
        case None => None
        case Some(ps) => Some([p] + ps)
  }

  /** A packet followed by anything is read back, and nothing after it is touched, exactly when its body fits. */
  lemma PacketRoundTrip(p: Packet, tail: seq<Byte>)
    ensures |p.body| <= MAX_REMAINING_LENGTH <==> NextPacket(Encode(p) + tail) == Read(p, tail)
  {
    var s := Encode(p) + tail;
    var after := p.body + tail;
    assert s[1..] == EncodedLength(|p.body|) + after;
    LengthRoundTripFrom(|p.body|, after, 0);
    if |p.body| <= MAX_REMAINING_LENGTH {
      var used := |EncodedLength(|p.body|)|;
      assert s[1 + used..1 + used + |p.body|] == p.body;
      assert s[1 + used + |p.body|..] == tail;
    }
  }

  /** Decoding the concatenation of encoded packets gives back those packets in order. */
  lemma {:induction false} StreamRoundTrip(ps: seq<Packet>)
    requires forall i :: 0 <= i < |ps| ==> |ps[i].body| <= MAX_REMAINING_LENGTH
    ensures DecodeAll(EncodeAll(ps)) == Some(ps)
  {
    if ps != [] {
      PacketRoundTrip(ps[0], EncodeAll(ps[1..]));
      StreamRoundTrip(ps[1..]);
      assert ps == [ps[0]] + ps[1..];
    }
  }

  // ---------------------------------------------------------------- PUBLISH

  /** A length-prefixed string (section 1.5.3); the 16-bit prefix wraps as the uint16 conversion does. */
  function MqttString(value: seq<Byte>): seq<Byte> {
    [|value| % 65536 / 256, |value| % 256] + value
  }

  /** The variable header and payload of the QoS 1 PUBLISH the operator sends, with packet identifier 1. */
  function PublishBody(topic: seq<Byte>, payload: seq<Byte>): seq<Byte> {
    MqttString(topic) + [0, 1] + payload
  }

  predicate HasPacketId(header: Byte) {
    header / 2 % 4 > 0
  }

  datatype PublishError = ShortPacket | TruncatedTopic | TruncatedPacketId

  function ParsePublish(header: Byte, packet: seq<Byte>): (r: Result<(seq<Byte>, seq<Byte>), PublishError>)
  {
    if |packet| < 2 then Err(ShortPacket)
    else
      var topicLength := (packet[0] as int) * 256 + packet[1] as int;
      if |packet| < 2 + topicLength then Err(TruncatedTopic)
      else
        var idx := 2 + topicLength;
        if HasPacketId(header) && |packet| < idx + 2 then Err(TruncatedPacketId)
        else
          var start := if HasPacketId(header) then idx + 2 else idx;
          Ok((packet[2..idx], packet[start..]))
  }

  /** The parser undoes the QoS 1 encoder exactly for the topics whose length fits the 16-bit prefix. */
  lemma PublishRoundTrip(topic: seq<Byte>, payload: seq<Byte>)
    ensures |topic| <= MAX_STRING_LENGTH <==>
            ParsePublish(PUBLISH_QOS1, PublishBody(topic, payload)) == Ok((topic, payload))
  {
    var body := PublishBody(topic, payload);
    var n := |topic| % 65536;
    assert (body[0] as int) * 256 + body[1] as int == n;
    if |topic| <= MAX_STRING_LENGTH {
      assert body[2..2 + n] == topic;
      assert body[4 + n..] == payload;
    } else {
      assert |body[2..2 + n]| < |topic|;
    }
  }

  lemma WellFormedParses(header: Byte, topic: seq<Byte>, id: seq<Byte>, payload: seq<Byte>)
    requires |topic| <= MAX_STRING_LENGTH && |id| == (if HasPacketId(header) then 2 else 0)
    ensures ParsePublish(header, MqttString(topic) + id + payload).Ok?
  {
  }

  /** Whatever the parser accepts is a well-formed PUBLISH of section 3.3 carrying exactly what it returned. */
  lemma ParseSound(header: Byte, packet: seq<Byte>)
    ensures match ParsePublish(header, packet)
      case Ok((topic, payload)) =>
        && |topic| <= MAX_STRING_LENGTH
        && exists id: seq<Byte> :: |id| == (if HasPacketId(header) then 2 else 0)
                                   && packet == MqttString(topic) + id + payload
      case Err(_) =>
        !exists topic: seq<Byte>, id: seq<Byte>, payload: seq<Byte> ::
          |topic| <= MAX_STRING_LENGTH && |id| == (if HasPacketId(header) then 2 else 0)
          && packet == MqttString(topic) + id + payload
  {
    match ParsePublish(header, packet)
    case Ok((topic, payload)) =>
      var idx := 2 + |topic|;
      var id := packet[idx..|packet| - |payload|];
      assert packet == MqttString(topic) + id + payload;
    case Err(_) =>
      forall topic: seq<Byte>, id: seq<Byte>, payload: seq<Byte>
        | |topic| <= MAX_STRING_LENGTH && |id| == (if HasPacketId(header) then 2 else 0)
        ensures packet != MqttString(topic) + id + payload
      {
        WellFormedParses(header, topic, id, payload);
        hide MqttString, ParsePublish;
      }
  }

  /** Without an acknowledgement the parser undoes topic and payload alone, exactly for the topics whose length fits. */
  lemma UnacknowledgedRoundTrip(header: Byte, topic: seq<Byte>, payload: seq<Byte>)
    requires header in {0x30, 0x31, 0x38, 0x39}
    ensures |topic| <= MAX_STRING_LENGTH <==> ParsePublish(header, MqttString(topic) + payload) == Ok((topic, payload))
  {
    var body := MqttString(topic) + payload;
    var n := |topic| % 65536;
    assert (body[0] as int) * 256 + body[1] as int == n;
    if |topic| <= MAX_STRING_LENGTH {
      assert body[2..2 + n] == topic;
      assert body[2 + n..] == payload;
    } else {
      assert |body[2..2 + n]| < |topic|;
    }
  }

  /** At quality of service 1 and 2 it skips the two bytes of the packet identifier between them. */
  lemma AcknowledgedRoundTrip(header: Byte, topic: seq<Byte>, id: seq<Byte>, payload: seq<Byte>)
    requires header in {0x32, 0x33, 0x34, 0x35, 0x3A, 0x3B, 0x3C, 0x3D} && |id| == 2
    ensures |topic| <= MAX_STRING_LENGTH <==> ParsePublish(header, MqttString(topic) + id + payload) == Ok((topic, payload))
  {
    var body := MqttString(topic) + id + payload;
    var n := |topic| % 65536;
    assert (body[0] as int) * 256 + body[1] as int == n;
    if |topic| <= MAX_STRING_LENGTH {
      assert body[2..2 + n] == topic;
      assert body[4 + n..] == payload;
    } else {
      assert |body[2..2 + n]| < |topic|;
    }
  }

  /** A body cut short before its payload is refused, and the error says in which part it was cut. */
  lemma CutBodyIsRefused(header: Byte, topic: seq<Byte>, id: seq<Byte>, k: nat)
    requires header in {0x32, 0x33, 0x34, 0x35, 0x3A, 0x3B, 0x3C, 0x3D} && |id| == 2
    requires |topic| <= MAX_STRING_LENGTH && k < 4 + |topic|
    ensures ParsePublish(header, (MqttString(topic) + id)[..k]) ==
            Err(if k < 2 then ShortPacket else if k < 2 + |topic| then TruncatedTopic else TruncatedPacketId)
  {
  }

  /** On the wire: a QoS 1 PUBLISH with a big-endian topic length and packet identifier 1. */
  lemma PublishOnTheWire(topic: seq<Byte>, payload: seq<Byte>)
    requires |topic| <= MAX_STRING_LENGTH && 4 + |topic| + |payload| < 128
    ensures var s := Encode(Packet(PUBLISH_QOS1, PublishBody(topic, payload)));
            && s[0] == 0x32 && s[1] == 4 + |topic| + |payload| == |s| - 2 && 256 * s[2] + s[3] == |topic|
            && s[4..4 + |topic|] == topic && s[4 + |topic|..6 + |topic|] == [0, 1] && s[6 + |topic|..] == payload
  {
    var s := Encode(Packet(PUBLISH_QOS1, PublishBody(topic, payload)));
    assert s == [0x32, 4 + |topic| + |payload|] + MqttString(topic) + [0, 1] + payload;
  }

  // ---------------------------------------------------------------- the code's own loops

  /** The outcome of the whole read, given what the loop has accumulated and what the remaining bytes decode to. */
  ghost function Resumed(value: nat, multiplier: nat, used: nat, rest: LengthRead): LengthRead {
    if rest.Length? then Length(value + multiplier * rest.value, used + rest.used) else rest
  }

  /** A continuation byte moves its seven bits from the unread part into the accumulator; a final byte ends the read. */
  lemma ResumeStep(s: seq<Byte>, k: nat, value: nat, multiplier: nat)
    requires k < 4 && s != []
    ensures s[0] >= 128 ==>
      Resumed(value, multiplier, k, DecodedLength(s, k))
      == Resumed(value + (s[0] - 128) * multiplier, multiplier * 128, k + 1, DecodedLength(s[1..], k + 1))
    ensures s[0] < 128 ==>
      Resumed(value, multiplier, k, DecodedLength(s, k)) == Length(value + s[0] * multiplier, k + 1)
  {
    if s[0] >= 128 {
      var rest := DecodedLength(s[1..], k + 1);
      if rest.Length? {
        calc {
          value + multiplier * (s[0] - 128 + 128 * rest.value);
          value + multiplier * (s[0] - 128) + multiplier * (128 * rest.value);
          value + (s[0] - 128) * multiplier + (multiplier * 128) * rest.value;
        }
      }
    }
  }

  lemma ResumeStart(s: seq<Byte>)
    ensures Resumed(0, 1, 0, DecodedLength(s, 0)) == DecodedLength(s, 0)
  {
  }

  lemma ResumeEnd(s: seq<Byte>, k: nat, value: nat, multiplier: nat)
    requires k == 4 || (k < 4 && s == [])
    ensures Resumed(value, multiplier, k, DecodedLength(s, k)) == if k == 4 then TooLong else EndOfStream
  {
  }

  method FixedHeader(packetType: Byte, remainingLength: nat) returns (header: seq<Byte>)
    ensures header == [packetType] + EncodedLength(remainingLength)
  {
    header := [packetType];
    var rest := remainingLength;
    var more := true;
    while more
      invariant more ==> header + EncodedLength(rest) == [packetType] + EncodedLength(remainingLength)
      invariant !more ==> header == [packetType] + EncodedLength(remainingLength)
      decreases more, rest
    {
      var encoded := rest % 128;
      ghost var before, soFar := rest, header;
      rest := rest / 128;
      if rest > 0 {
        encoded := encoded + 128;
        assert EncodedLength(before) == [encoded] + EncodedLength(rest);
        assert soFar + EncodedLength(before) == (soFar + [encoded]) + EncodedLength(rest);
      }
      header := header + [encoded];
      more := rest != 0;
    }
  }

  method BuildPublish(topic: seq<Byte>, payload: seq<Byte>) returns (packet: seq<Byte>)
    ensures packet == Encode(Packet(PUBLISH_QOS1, PublishBody(topic, payload)))
  {
    var variableHeader := MqttString(topic);
    variableHeader := variableHeader + [0, 1];
    packet := FixedHeader(PUBLISH_QOS1, |variableHeader| + |payload|);
    packet := packet + variableHeader;
    packet := packet + payload;
  }

  /** A connection as the reader sees it: the bytes that will still arrive before it closes. */
  class Connection {
    var incoming: seq<Byte>

    constructor (bytes: seq<Byte>)
      ensures incoming == bytes
    {
      incoming := bytes;
    }

    /** Takes exactly n bytes, or everything that is left when there are fewer. */
    method ReadFull(n: nat) returns (bytes: Option<seq<Byte>>)
      modifies this
      ensures n <= |old(incoming)| ==> bytes == Some(old(incoming)[..n]) && incoming == old(incoming)[n..]
      ensures n > |old(incoming)| ==> bytes == None && incoming == []
    {
      if n <= |incoming| {
        bytes, incoming := Some(incoming[..n]), incoming[n..];
      } else {
        bytes, incoming := None, [];
      }
    }

    method ReadRemainingLength() returns (length: LengthRead)
      modifies this
      ensures length == DecodedLength(old(incoming), 0)
      ensures length.Length? ==> incoming == old(incoming)[length.used..]
    {
      hide DecodedLength, Resumed;
      ghost var all := incoming;
      var multiplier: nat, value: nat := 1, 0;
      ResumeStart(all);
      for i := 0 to 4
        invariant i <= |all| && incoming == all[i..]
        invariant DecodedLength(all, 0) == Resumed(value, multiplier, i, DecodedLength(incoming, i))
      {
        ghost var before := incoming;
        var buf := ReadFull(1);
        if buf == None {
          ResumeEnd(before, i, value, multiplier);
          return EndOfStream;
        }
        var b := buf.value[0];
        assert b == before[0] && incoming == before[1..] && incoming == all[i + 1..];
        ResumeStep(before, i, value, multiplier);
        if b < 128 {
          return Length(value + b * multiplier, i + 1);
        }
        value := value + (b - 128) * multiplier;
        multiplier := multiplier * 128;
      }
      ResumeEnd(incoming, 4, value, multiplier);
      return TooLong;
    }

    /** Reads one packet: the front packet of the stream, leaving exactly what follows it. */
    method ReadPacket() returns (packet: Option<Packet>)
      modifies this
      ensures match NextPacket(old(incoming))
        case Read(p, rest) => packet == Some(p) && incoming == rest
        case Broken => packet == None
    {
      ghost var all := incoming;
      var header := ReadFull(1);
      if header == None {
        return None;
      }
      var remaining := ReadRemainingLength();
      if !remaining.Length? {
        return None;
      }
      ghost var start := 1 + remaining.used;
      assert incoming == all[start..];
      var body := ReadFull(remaining.value);
      if body == None {
        return None;
      }
      assert body.value == all[start..start + remaining.value] && incoming == all[start + remaining.value..];
      return Some(Packet(header.value[0], body.value));
    }
  }
}
