/**
 Fixed headers and PUBLISH messages of src/mqtt.c, sections 2.2 and 3.3 of MQTT 3.1.1. The bits of the first byte are
 in the order of the code's own bit fields, from the lowest: retain, dup, two of QoS, four of the message type.
 */
module MqttPublish {
  import opened Arithmetic
  import opened Bytes
  import opened MqttSize

  const QOS_INVALID: nat := 3
  const CONNECT: nat := 1
  const PUBLISH: nat := 3
  const MAX_COMMAND: nat := 15
  const FIXED_HEADER_SIZE: nat := 5

  function FirstByte(dup: bool, qos: nat, retain: bool, messageType: nat): byte
    requires qos <= 3 && messageType < 16
  {
    messageType * 16 + qos * 4 + Bit(dup) * 2 + Bit(retain)
  }

  lemma FirstByteParts(dup: bool, qos: nat, retain: bool, messageType: nat)
    requires qos <= 3 && messageType < 16
    ensures var b := FirstByte(dup, qos, retain, messageType);
      b / 16 == messageType && b / 4 % 4 == qos && (b / 2 % 2 == 1 <==> dup) && (b % 2 == 1 <==> retain)
  {
  }

  lemma FirstByteOf(b: byte)
    ensures b / 16 < 16 && FirstByte(b / 2 % 2 == 1, b / 4 % 4, b % 2 == 1, b / 16) == b
  {
    var h, m := b / 2, b / 4;
    assert b == 2 * h + b % 2 && h == 2 * m + h % 2;
    assert b / 16 == m / 4 && m == 4 * (m / 4) + m % 4;
  }

  /** The byte is written in two steps: the low half, over whatever stood in the buffer, and then the high one. */
  lemma WrittenInHalves(was: byte, dup: bool, qos: nat, retain: bool, messageType: nat)
    requires qos <= 3 && messageType < 16
    ensures var low := was / 16 * 16 + qos * 4 + Bit(dup) * 2 + Bit(retain);
      low < 256 && low / 16 == was / 16 && low % 16 == qos * 4 + Bit(dup) * 2 + Bit(retain)
      && messageType * 16 + low % 16 == FirstByte(dup, qos, retain, messageType)
  {
  }

  /**
   encode_fixed_header, which writes at the start of the buffer and returns the length, or zero. It stays in the bytes
   of a header exactly if the size is below 2^28; for larger ones the length field has a fifth byte.
   */
  method EncodeFixedHeader(buffer: array<byte>, dup: bool, qos: nat, retain: bool, messageType: nat, messageSize: nat)
    returns (length: nat)
    requires buffer.Length >= FIXED_HEADER_SIZE && qos <= 3 && messageType < 16
    requires messageSize < MAX_MESSAGE_SIZE ==> 1 + |SizeBytes(messageSize)| <= buffer.Length
    modifies buffer
    ensures length == if qos < QOS_INVALID && messageType < MAX_COMMAND && messageSize < MAX_MESSAGE_SIZE
                      then 1 + |SizeBytes(messageSize)| else 0
    ensures length <= FIXED_HEADER_SIZE <==> length == 0 || messageSize < 0x1000_0000
    ensures length > 0 ==> length <= buffer.Length
    ensures length > 0 ==> buffer[..length] == [FirstByte(dup, qos, retain, messageType)] + SizeBytes(messageSize)
    ensures forall i :: length <= i < buffer.Length && 0 < i ==> buffer[i] == old(buffer[i])
    ensures qos >= QOS_INVALID ==> buffer[0] == old(buffer[0])
    ensures qos < QOS_INVALID && messageType >= MAX_COMMAND ==>
      buffer[0] / 16 == old(buffer[0]) / 16 && buffer[0] % 16 == qos * 4 + Bit(dup) * 2 + Bit(retain)
  {
    hide SizeBytes, Complete, Value, FirstByte, Bit;
    FourBytes(messageSize);
    WrittenInHalves(buffer[0], dup, qos, retain, messageType);
    length := 0;
    if QOS_INVALID > qos {
      buffer[0] := buffer[0] / 16 * 16 + qos * 4 + Bit(dup) * 2 + Bit(retain);
      if MAX_COMMAND > messageType {
        buffer[0] := messageType * 16 + buffer[0] % 16;
        var count := SetSize(buffer, 0, messageSize);
        if count > 0 {
          length := count + 1;
          assert buffer[..length] == [buffer[0]] + buffer[1..length];
        }
      }
    }
  }

  /** What decode_fixed_header finds; `next` is zero when it returns NULL. */
  datatype Header = Header(next: nat, dup: bool, qos: nat, retain: bool, messageType: nat, size: nat)

  /** decode_fixed_header: an invalid QoS or type is told by the size zero only. */
  method DecodeFixedHeader(input: seq<byte>) returns (h: Header)
    requires |input| > 0 && Readable(input)
    ensures h.next == 0 <==> |input| >= 6 && forall k :: 1 <= k < 5 ==> input[k] >= 128
    ensures h.qos < QOS_INVALID && h.messageType < MAX_COMMAND && (h.next != 0 ==> 2 <= h.next <= |input|)
    ensures var valid := h.next != 0 && input[0] / 4 % 4 != QOS_INVALID && input[0] / 16 < MAX_COMMAND;
      && (valid ==>
           && FirstByte(h.dup, h.qos, h.retain, h.messageType) == input[0]
           && Complete(input[1..h.next]) && h.size == Value(input[1..h.next]))
      && (!valid ==> h == Header(h.next, false, 0, false, 0, 0))
  {
    hide FirstByte, Complete, Value, Readable;
    h := Header(0, false, 0, false, 0, 0);
    var size := GetSize(input);
    FirstByteOf(input[0]);
    if size.Size? {
      h := h.(next := size.next);
      var b := input[0];
      if b / 4 % 4 != QOS_INVALID && b / 16 < MAX_COMMAND {
        h := Header(size.next, b / 2 % 2 == 1, b / 4 % 4, b % 2 == 1, b / 16, size.value);
      }
    }
  }

  function Short(n: nat): seq<byte>
    requires n < 0x1_0000
  {
    [n / 0x100, n % 0x100]
  }

  /** The bytes of section 3.3 behind the fixed header */
  function PublishBody(topic: seq<byte>, qos: nat, id: nat, message: seq<byte>): seq<byte>
    requires |topic| < 0x1_0000 && id < 0x1_0000
  {
    Short(|topic|) + topic + (if qos > 0 then Short(id) else []) + message
  }

  function PublishMessage(first: byte, body: seq<byte>): seq<byte> {
    [first] + SizeBytes(|body|) + body
  }

  lemma MessageIs(first: byte, body: seq<byte>)
    ensures PublishMessage(first, body) == [first] + SizeBytes(|body|) + body
  {
  }

  lemma MessageParts(first: byte, topic: seq<byte>, qos: nat, id: nat, message: seq<byte>)
    requires |topic| < 0x1_0000 && id < 0x1_0000
    ensures var m := PublishMessage(first, PublishBody(topic, qos, id, message));
      var n := if qos > 0 then 2 else 0;
      var h := |m| - (2 + |topic| + n + |message|);
      && |PublishBody(topic, qos, id, message)| == |m| - h && h == 1 + |SizeBytes(|m| - h)|
      && 2 <= h && m[0] == first
      && m[h] == |topic| / 0x100 && m[h + 1] == |topic| % 0x100 && m[h + 2..h + 2 + |topic|] == topic
      && (qos > 0 ==> m[h + 2 + |topic|] == id / 0x100 && m[h + 3 + |topic|] == id % 0x100)
      && m[h + 2 + |topic| + n..] == message
  {
    var body, m := PublishBody(topic, qos, id, message), PublishMessage(first, PublishBody(topic, qos, id, message));
    var h := |m| - |body|;
    assert forall i :: 0 <= i < |body| ==> m[h + i] == body[i];
    assert m[h..] == body;
    assert m[h + 2..h + 2 + |topic|] == body[2..2 + |topic|] == topic;
  }

  /**
   encode_publish for a buffer of `outputSize` bytes, with the memory behind it: `accepted` is what the output function
   returns. The caller's retain and dup change places on the way to the fixed header. Only the size of the header is
   checked against the buffer: if that leaves any room, the whole message is written, and nothing behind it.
   */
  method EncodePublish(buffer: array<byte>, outputSize: nat, retain: bool, qos: nat, dup: bool, topic: seq<byte>,
                       id: nat, message: seq<byte>, accepted: int) returns (sent: seq<byte>, ret: bool)
    requires qos <= 3 && |topic| < 0x1_0000 && id < 0x1_0000 && |PublishBody(topic, qos, id, message)| < 0x1_0000_0000
    requires FIXED_HEADER_SIZE < outputSize ==> FIXED_HEADER_SIZE <= buffer.Length
    requires FIXED_HEADER_SIZE < outputSize ==>
      |PublishMessage(0, PublishBody(topic, qos, id, message))| <= buffer.Length
    modifies buffer
    ensures var body := PublishBody(topic, qos, id, message);
      sent == if FIXED_HEADER_SIZE < outputSize && qos != QOS_INVALID && |body| < MAX_MESSAGE_SIZE
                 && 1 + |SizeBytes(|body|)| < outputSize
              then PublishMessage(FirstByte(retain, qos, dup, PUBLISH), body) else []
    ensures sent != [] ==>
      var n := if qos > 0 then 2 else 0;
      var h := |sent| - (2 + |topic| + n + |message|);
      && 2 <= h && sent[0] / 16 == 3 && sent[0] / 4 % 4 == qos
      && (sent[0] / 2 % 2 == 1 <==> retain) && (sent[0] % 2 == 1 <==> dup)
      && sent[h] == |topic| / 0x100 && sent[h + 1] == |topic| % 0x100 && sent[h + 2..h + 2 + |topic|] == topic
      && (qos > 0 ==> sent[h + 2 + |topic|] == id / 0x100 && sent[h + 3 + |topic|] == id % 0x100)
      && sent[h + 2 + |topic| + n..] == message
    ensures |sent| <= buffer.Length && buffer[..|sent|] == sent
    ensures sent != [] || outputSize <= FIXED_HEADER_SIZE || qos == QOS_INVALID ==>
      forall i :: |sent| <= i < buffer.Length ==> buffer[i] == old(buffer[i])
    ensures ret <==> sent != [] && accepted == |sent|
  {
    hide SizeBytes, FirstByte, Bit, Complete, Value, PublishBody, PublishMessage;
    sent, ret := [], false;
    ghost var body := PublishBody(topic, qos, id, message);
    MessageParts(FirstByte(retain, qos, dup, PUBLISH), topic, qos, id, message);
    MessageParts(0, topic, qos, id, message);
    if FIXED_HEADER_SIZE < outputSize {
      var sizeOfMsg := |message| + |topic| + 2;
      if qos > 0 {
        sizeOfMsg := sizeOfMsg + 2;
      }
      assert sizeOfMsg == |body|;
      sizeOfMsg := EncodeFixedHeader(buffer, retain, qos, dup, PUBLISH, sizeOfMsg);
      if 0 < sizeOfMsg && sizeOfMsg < outputSize {
        ghost var header := [FirstByte(retain, qos, dup, PUBLISH)] + SizeBytes(|body|);
        MessageIs(FirstByte(retain, qos, dup, PUBLISH), body);
        sizeOfMsg := EncodeBody(buffer, sizeOfMsg, topic, qos, id, message, header);
        sent := buffer[..sizeOfMsg];
        ret := accepted == sizeOfMsg;
        assert sent == header + body;
        FirstByteParts(retain, qos, dup, PUBLISH);
      }
    }
  }

  /** The part behind the fixed header */
  method EncodeBody(buffer: array<byte>, at: nat, topic: seq<byte>, qos: nat, id: nat, message: seq<byte>,
                    ghost header: seq<byte>) returns (end: nat)
    requires |topic| < 0x1_0000 && id < 0x1_0000
    requires at + |PublishBody(topic, qos, id, message)| <= buffer.Length && buffer[..at] == header
    modifies buffer
    ensures end == at + |PublishBody(topic, qos, id, message)| <= buffer.Length
    ensures buffer[..end] == header + PublishBody(topic, qos, id, message)
    ensures forall i :: end <= i < buffer.Length ==> buffer[i] == old(buffer[i])
  {
    end := Append(buffer, at, Short(|topic|), header);
    end := Append(buffer, end, topic, header + Short(|topic|));
    if qos > 0 {
      end := Append(buffer, end, Short(id), header + Short(|topic|) + topic);
    } else {
      assert header + Short(|topic|) + topic + [] == header + Short(|topic|) + topic;
    }
    end := Append(buffer, end, message, header + Short(|topic|) + topic + if qos > 0 then Short(id) else []);
    assert buffer[..end] == header + PublishBody(topic, qos, id, message);
  }

  method Append(buffer: array<byte>, at: nat, x: seq<byte>, ghost before: seq<byte>) returns (next: nat)
    requires at + |x| <= buffer.Length && buffer[..at] == before
    modifies buffer
    ensures next == at + |x| && buffer[..next] == before + x
    ensures forall i :: next <= i < buffer.Length ==> buffer[i] == old(buffer[i])
  {
    ghost var was := buffer[at + |x|..];
    Memcpy(buffer, at, x);
    next := at + |x|;
    assert buffer[..next] == buffer[..at] + buffer[at..next];
    assert buffer[next..] == was;
    forall i | next <= i < buffer.Length ensures buffer[i] == old(buffer[i]) {
      assert buffer[i] == buffer[next..][i - next] && old(buffer[i]) == was[i - next];
    }
  }

  /**
   The message stays in a buffer if and only if this is longer than topic and payload by three bytes, two more with a
   packet identifier, and the length field; one of six bytes, which the check lets pass, holds almost none.
   */
  lemma PublishWithin(first: byte, topic: seq<byte>, qos: nat, id: nat, message: seq<byte>, outputSize: nat)
    requires |topic| < 0x1_0000 && id < 0x1_0000
    ensures var m := PublishMessage(first, PublishBody(topic, qos, id, message));
      && (|m| <= outputSize <==>
            3 + (if qos > 0 then 2 else 0) + |topic| + |message|
            + |SizeBytes(2 + (if qos > 0 then 2 else 0) + |topic| + |message|)| <= outputSize)
      && (|topic| >= 1 && |message| >= 2 ==> |m| > 6)
  {
    var n := |PublishBody(topic, qos, id, message)|;
    SizeBytesComplete(n);
    assert n == 2 + (if qos > 0 then 2 else 0) + |topic| + |message|;
  }

  /** decode_publish with decode_variable_header_publish, on the bytes behind the fixed header */
  method DecodePublish(input: seq<byte>, sizeOfMsg: nat, qos: nat)
    returns (ret: bool, topic: seq<byte>, message: seq<byte>)
    requires 2 <= |input| && sizeOfMsg <= |input|
    ensures var n := input[0] as nat * 0x100 + input[1] as nat;
      var headerSize := 2 + n + if qos > 0 then 2 else 0;
      && (ret <==> 0 < n && headerSize < sizeOfMsg)
      && (ret ==> topic == input[2..2 + n] && message == input[headerSize..sizeOfMsg])
  {
    ret, topic, message := false, [], [];
    var topicLength := input[0] as nat * 0x100 + input[1] as nat;
    var index := 3 + topicLength;
    if qos > 0 {
      index := index + 2;
    }
    var headerSize := index - 1;
    if 0 < topicLength && headerSize < sizeOfMsg {
      ret, topic, message := true, input[2..2 + topicLength], input[headerSize..sizeOfMsg];
    }
  }

  /** A message that is published is read back: the QoS, and the topic and the payload unless one of them is empty. */
  method PublishThenRead(buffer: array<byte>, outputSize: nat, retain: bool, qos: nat, dup: bool, topic: seq<byte>,
                         id: nat, message: seq<byte>)
    returns (h: Header, ret: bool, topic': seq<byte>, message': seq<byte>)
    requires qos < QOS_INVALID && |topic| < 0x1_0000 && id < 0x1_0000 && FIXED_HEADER_SIZE < outputSize <= buffer.Length
    requires |PublishBody(topic, qos, id, message)| < 0x1000_0000
    requires |PublishMessage(0, PublishBody(topic, qos, id, message))| <= buffer.Length
    modifies buffer
    ensures h.messageType == PUBLISH && h.qos == qos && h.size == |PublishBody(topic, qos, id, message)|
    ensures h.dup == retain && h.retain == dup
    ensures ret <==> topic != [] && message != []
    ensures ret ==> topic' == topic && message' == message
  {
    hide SizeBytes, Value, PublishBody, PublishMessage;
    ghost var body := PublishBody(topic, qos, id, message);
    FourBytes(|body|);
    var sent, accepted := EncodePublish(buffer, outputSize, retain, qos, dup, topic, id, message, 0);
    h := ReadHeader(sent, retain, qos, dup, PUBLISH, body);
    BodyParts(topic, qos, id, message);
    ret, topic', message' := DecodePublish(sent[h.next..], h.size, h.qos);
  }

  /** The fixed header of a message is read back, and `next` is where the rest begins. */
  method ReadHeader(m: seq<byte>, ghost dup: bool, ghost qos: nat, ghost retain: bool, ghost messageType: nat,
                    ghost body: seq<byte>) returns (h: Header)
    requires qos < QOS_INVALID && messageType < MAX_COMMAND && |body| < 0x1000_0000
    requires m == PublishMessage(FirstByte(dup, qos, retain, messageType), body)
    ensures h.dup == dup && h.qos == qos && h.retain == retain && h.messageType == messageType && h.size == |body|
    ensures 0 < h.next <= |m| && m[h.next..] == body
  {
    hide SizeBytes, Value, PublishMessage, FirstByte, Complete, Readable;
    HeaderRead(FirstByte(dup, qos, retain, messageType), body);
    FirstByteParts(dup, qos, retain, messageType);
    h := DecodeFixedHeader(m);
    FirstByteParts(h.dup, h.qos, h.retain, h.messageType);
    assert m[1..h.next] == m[1..][..h.next - 1];
    SameField(m[1..], h.next - 1, |SizeBytes(|body|)|);
  }

  lemma BodyParts(topic: seq<byte>, qos: nat, id: nat, message: seq<byte>)
    requires |topic| < 0x1_0000 && id < 0x1_0000
    ensures var body, n := PublishBody(topic, qos, id, message), if qos > 0 then 2 else 0;
      && |body| == 2 + |topic| + n + |message| && body[0] as nat * 0x100 + body[1] as nat == |topic|
      && body[2..2 + |topic|] == topic && body[2 + |topic| + n..] == message
      && (qos > 0 ==> body[2 + |topic|] as nat * 0x100 + body[3 + |topic|] as nat == id)
  {
  }

  /** What the decoder needs to know of a message: where the length field ends, and what it says */
  lemma HeaderRead(first: byte, body: seq<byte>)
    requires |body| < 0x1000_0000
    ensures var m, n := PublishMessage(first, body), |SizeBytes(|body|)|;
      && m[0] == first && |m| == 1 + n + |body| && 1 <= n <= 4 && Readable(m)
      && m[1..][..n] == SizeBytes(|body|) && Complete(m[1..][..n]) && Value(m[1..][..n]) == |body|
      && m[1..1 + n] == SizeBytes(|body|) && m[1 + n..] == body && !(forall k :: 1 <= k < 5 && k < |m| ==> m[k] >= 128)
  {
    var m, n := PublishMessage(first, body), |SizeBytes(|body|)|;
    FourBytes(|body|);
    SizeBytesComplete(|body|);
    assert m[1..][..n] == SizeBytes(|body|) && m[1..1 + n] == SizeBytes(|body|);
    assert m[n] == SizeBytes(|body|)[n - 1] < 128;
  }
}
