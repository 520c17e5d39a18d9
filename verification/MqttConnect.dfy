/**
 CONNECT messages of src/mqtt.c, and a parser written from section 3.1 of MQTT 3.1.1 that reads them back.
 */
module MqttConnect {
  import opened Arithmetic
  import opened Bytes
  import opened MqttSize
  import opened MqttPublish
  import opened Options

  const VARIABLE_HEADER_SIZE: nat := 10
  const PROTOCOL: seq<byte> := [0, 4, 0x4D, 0x51, 0x54, 0x54, 4]

  /** MQTT_connect_t: strings end before their terminating zero. */
  datatype Connect = Connect(cleanSession: bool, permanentWill: bool, keepalive: nat, clientId: seq<byte>,
                             willTopic: seq<byte>, willMessage: seq<byte>, username: seq<byte>, password: seq<byte>)

  // What section 3.1 says: a reader for messages that knows nothing of the writer

  datatype Will = Will(topic: seq<byte>, message: seq<byte>, qos: nat, retain: bool)

  datatype Packet = Packet(cleanSession: bool, keepalive: nat, clientId: seq<byte>, will: Option<Will>, willBits: nat,
                           username: Option<seq<byte>>, password: Option<seq<byte>>)

  /** A string is preceded by its length in two bytes (section 1.5.3). */
  function Field(s: seq<byte>): Option<(seq<byte>, seq<byte>)> {
    if |s| < 2 then None
    else
      var n := s[0] as nat * 0x100 + s[1] as nat;
      if |s| < 2 + n then None else Some((s[2..2 + n], s[2 + n..]))
  }

  function OptionalField(present: bool, s: seq<byte>): Option<(Option<seq<byte>>, seq<byte>)> {
    if !present then Some((None, s))
    else match Field(s) {
      case None => None
      case Some(f) => Some((Some(f.0), f.1))
    }
  }

  function Flag(flags: byte, bit: nat): bool
    requires bit < 8
  {
    match bit
    case 0 => flags % 2 == 1
    case 1 => flags / 2 % 2 == 1
    case 2 => flags / 4 % 2 == 1
    case 3 => flags / 8 % 2 == 1
    case 4 => flags / 16 % 2 == 1
    case 5 => flags / 32 % 2 == 1
    case 6 => flags / 64 % 2 == 1
    case _ => flags / 128 == 1
  }

  /** The payload (section 3.1.3): client identifier, will topic, will message, user name and password, in this order */
  function ParsePayload(flags: byte, keepalive: nat, s: seq<byte>): Option<Packet> {
    match Field(s) {
      case None => None
      case Some(id) =>
        match OptionalField(Flag(flags, 2), id.1) {
          case None => None
          case Some(topic) =>
            match OptionalField(Flag(flags, 2), topic.1) {
              case None => None
              case Some(message) =>
                match OptionalField(Flag(flags, 7), message.1) {
                  case None => None
                  case Some(user) =>
                    match OptionalField(Flag(flags, 6), user.1) {
                      case None => None
                      case Some(password) =>
                        if password.1 != [] then None
                        else Some(Packet(Flag(flags, 1), keepalive, id.0,
                                         if topic.0.Some? && message.0.Some?
                                         then Some(Will(topic.0.value, message.0.value, flags / 8 % 4, Flag(flags, 5)))
                                         else None,
                                         flags / 8 % 8, user.0, password.0))
                    }
                }
            }
        }
    }
  }

  /** Where the remaining length ends, or zero (section 2.2.3) */
  function LengthEnd(m: seq<byte>, k: nat): nat
    requires 1 <= k
    decreases |m| - k
  {
    if k > 4 || k >= |m| then 0 else if m[k] < 128 then k + 1 else LengthEnd(m, k + 1)
  }

  /** Sections 3.1.1 and 3.1.2: fixed header, protocol name and level, flags whose lowest bit is clear, keep alive */
  function ParseConnect(m: seq<byte>): Option<Packet> {
    if m == [] || m[0] != 0x10 then None
    else
      var n := LengthEnd(m, 1);
      if n == 0 || n > |m| || Value(m[1..n]) != |m| - n || |m| - n < VARIABLE_HEADER_SIZE then None
      else
        var v := m[n..];
        if v[..7] != PROTOCOL || Flag(v[7], 0) then None
        else ParsePayload(v[7], v[8] as nat * 0x100 + v[9] as nat, v[10..])
  }

  /**
   A password needs a user name ([MQTT-3.1.2-22]); without a will its QoS and retain bits are zero ([MQTT-3.1.2-11]).
   */
  predicate Conforms(p: Packet) {
    && (p.password.Some? ==> p.username.Some?)
    && (p.will.None? ==> p.willBits == 0)
    && (p.will.Some? ==> p.will.value.qos < 3)
  }

  // What the writer writes

  function Encoded(s: seq<byte>): seq<byte> {
    var n := Length16(s);
    Short(n) + s[..n]
  }

  predicate HasWill(c: Connect) {
    c.willTopic != [] && c.willMessage != []
  }

  function FlagsOf(c: Connect): byte {
    Bit(c.cleanSession) * 2 + Bit(HasWill(c)) * 4 + Bit(c.permanentWill) * 32 + Bit(c.password != []) * 64
    + Bit(c.username != []) * 128
  }

  function Present(present: bool, s: seq<byte>): seq<byte> {
    if present then Encoded(s) else []
  }

  function Payload(c: Connect): seq<byte> {
    Encoded(c.clientId) + Present(HasWill(c), c.willTopic) + Present(HasWill(c), c.willMessage)
    + Present(c.username != [], c.username) + Present(c.password != [], c.password)
  }

  function Body(c: Connect): seq<byte>
    requires c.keepalive < 0x1_0000
  {
    PROTOCOL + [FlagsOf(c)] + Short(c.keepalive) + Payload(c)
  }

  /** The length of a string as the code holds it, in sixteen bits */
  function Length16(s: seq<byte>): nat {
    |s| % 0x1_0000
  }

  /** The characters that count against the space of the buffer */
  function Characters(c: Connect): nat {
    Length16(c.clientId) + (if HasWill(c) then Length16(c.willTopic) + Length16(c.willMessage) else 0)
    + Length16(c.username) + Length16(c.password)
  }

  /** No string that is there has a length that is zero in sixteen bits, and there is a client identifier. */
  predicate Fillable(c: Connect) {
    && Length16(c.clientId) != 0
    && (HasWill(c) ==> Length16(c.willTopic) != 0 && Length16(c.willMessage) != 0)
    && (c.username != [] ==> Length16(c.username) != 0) && (c.password != [] ==> Length16(c.password) != 0)
  }

  /** The strings that can be sent: a length has two bytes. */
  predicate Sendable(c: Connect) {
    && |c.clientId| < 0x1_0000 && |c.willTopic| < 0x1_0000 && |c.willMessage| < 0x1_0000
    && |c.username| < 0x1_0000 && |c.password| < 0x1_0000
  }

  function PacketOf(c: Connect): Packet {
    Packet(c.cleanSession, c.keepalive, c.clientId,
           if c.willTopic != [] && c.willMessage != []
           then Some(Will(c.willTopic, c.willMessage, 0, c.permanentWill)) else None,
           if c.permanentWill then 4 else 0,
           if c.username != [] then Some(c.username) else None,
           if c.password != [] then Some(c.password) else None)
  }

  lemma FieldRead(s: seq<byte>, rest: seq<byte>)
    requires |s| < 0x1_0000
    ensures Field(Encoded(s) + rest) == Some((s, rest))
  {
    var n := |s| % 0x1_0000;
    Remainder(|s|);
    var e := Encoded(s) + rest;
    assert e[0] as nat * 0x100 + e[1] as nat == n;
    assert e[2..2 + n] == s && e[2 + n..] == rest;
  }

  lemma Remainder(n: nat)
    requires n < 0x1_0000
    ensures n % 0x1_0000 == n
  {
  }

  lemma OptionalRead(present: bool, s: seq<byte>, rest: seq<byte>)
    requires |s| < 0x1_0000
    ensures OptionalField(present, Present(present, s) + rest) == Some((if present then Some(s) else None, rest))
  {
    hide Field, Encoded;
    if present {
      FieldRead(s, rest);
    } else {
      assert [] + rest == rest;
    }
  }

  lemma FlagsRead(c: Connect)
    ensures var f := FlagsOf(c);
      && !Flag(f, 0) && Flag(f, 1) == c.cleanSession && Flag(f, 2) == HasWill(c) && Flag(f, 5) == c.permanentWill
      && Flag(f, 6) == (c.password != []) && Flag(f, 7) == (c.username != [])
      && f / 8 % 4 == 0 && f / 8 % 8 == if c.permanentWill then 4 else 0
  {
  }

  /** The payload that is written is read back: each string, and which of them are there. */
  lemma PayloadRead(c: Connect)
    requires Sendable(c)
    ensures ParsePayload(FlagsOf(c), c.keepalive, Payload(c)) == Some(PacketOf(c))
  {
    hide Field, OptionalField, Encoded, Present, Flag, FlagsOf;
    FlagsRead(c);
    var e := Present(c.password != [], c.password) + [];
    var d := Present(c.username != [], c.username) + e;
    var b := Present(HasWill(c), c.willMessage) + d;
    var a := Present(HasWill(c), c.willTopic) + b;
    assert Payload(c) == Encoded(c.clientId) + a;
    FieldRead(c.clientId, a);
    OptionalRead(HasWill(c), c.willTopic, b);
    OptionalRead(HasWill(c), c.willMessage, d);
    OptionalRead(c.username != [], c.username, e);
    OptionalRead(c.password != [], c.password, []);
  }

  lemma {:induction false} LengthEndIs(m: seq<byte>, k: nat, n: nat)
    requires 1 <= k <= n < |m| && n <= 4 && m[n] < 128 && forall i :: k <= i < n ==> m[i] >= 128
    ensures LengthEnd(m, k) == n + 1
    decreases n - k
  {
    if k < n {
      LengthEndIs(m, k + 1, n);
    }
  }

  /** The whole message is read back as what the caller gave. */
  lemma ConnectRead(c: Connect)
    requires Sendable(c) && c.keepalive < 0x1_0000
    ensures ParseConnect(PublishMessage(0x10, Body(c))) == Some(PacketOf(c))
  {
    hide ParsePayload, Payload, FlagsOf, Flag, SizeBytes, Value, PacketOf, Body, PublishMessage, Complete, LengthEnd;
    var body := Body(c);
    BodyRead(c);
    HeaderRead(0x10, body);
    var m, n := PublishMessage(0x10, body), |SizeBytes(|body|)|;
    LengthRead(m, n);
    assert m[n + 1..] == body;
    FlagsRead(c);
    PayloadRead(c);
  }

  lemma LengthRead(m: seq<byte>, n: nat)
    requires 1 <= n <= 4 && n < |m| && Complete(m[1..][..n])
    ensures LengthEnd(m, 1) == n + 1
  {
    assert forall i :: 1 <= i <= n ==> m[i] == m[1..][..n][i - 1];
    LengthEndIs(m, 1, n);
  }

  lemma BodyRead(c: Connect)
    requires c.keepalive < 0x1_0000
    ensures var body := Body(c);
      && VARIABLE_HEADER_SIZE <= |body| < 0x1000_0000 && body[..7] == PROTOCOL && body[7] == FlagsOf(c)
      && body[8] as nat * 0x100 + body[9] as nat == c.keepalive && body[10..] == Payload(c)
  {
    hide Payload, FlagsOf;
    PayloadSize(c);
  }

  /** By the bytes: the name and level of the protocol, the bits of the flags, and the keep alive time */
  ghost predicate HasVariableHeader(b: seq<byte>, c: Connect) {
    && |b| >= 10 && b[..7] == [0, 4, 'M' as byte, 'Q' as byte, 'T' as byte, 'T' as byte, 4]
    && (b[7] / 128 == 1 <==> c.username != []) && (b[7] / 64 % 2 == 1 <==> c.password != [])
    && (b[7] / 32 % 2 == 1 <==> c.permanentWill) && b[7] / 8 % 4 == 0
    && (b[7] / 4 % 2 == 1 <==> c.willTopic != [] && c.willMessage != []) && (b[7] / 2 % 2 == 1 <==> c.cleanSession)
    && b[7] % 2 == 0 && b[8] == c.keepalive / 0x100 && b[9] == c.keepalive % 0x100
  }

  lemma VariableHeaderBytes(c: Connect)
    requires c.keepalive < 0x1_0000
    ensures HasVariableHeader(Body(c), c)
  {
    hide Payload, FlagsOf;
    FlagsRead(c);
    PayloadSize(c);
    var b := Body(c);
    assert b[..7] == PROTOCOL && b[7] == FlagsOf(c) && b[8..10] == Short(c.keepalive);
    assert b[8] == b[8..10][0] && b[9] == b[8..10][1];
  }

  lemma PayloadSize(c: Connect)
    ensures 2 <= |Payload(c)| <= 5 * 0x1_0002
  {
    hide FlagsOf;
  }

  /** What is written obeys the two rules on the flags exactly if the caller keeps them. */
  lemma ConnectConforms(c: Connect)
    ensures Conforms(PacketOf(c)) <==>
      (c.password == [] || c.username != []) && (HasWill(c) || !c.permanentWill)
  {
  }

  // mqtt_connect_fill

  function Optional(present: bool, s: seq<byte>): seq<seq<byte>> {
    if present then [s] else []
  }

  /** The strings of the payload in the order in which they are written */
  function Strings(c: Connect): seq<seq<byte>> {
    [c.clientId] + (Optional(HasWill(c), c.willTopic) + (Optional(HasWill(c), c.willMessage)
    + (Optional(c.username != [], c.username) + Optional(c.password != [], c.password))))
  }

  /** mqtt_connect_fill_a_param writes a string when it has characters and they leave some space. */
  predicate Passes(s: seq<byte>, remaining: int) {
    0 < remaining - Length16(s) && 0 < Length16(s)
  }

  /** What is written behind the room for the headers: the strings up to the first that does not pass */
  function Placed(strings: seq<seq<byte>>, remaining: int): seq<byte> {
    if strings == [] || !Passes(strings[0], remaining) then []
    else Encoded(strings[0]) + Placed(strings[1..], remaining - Length16(strings[0]))
  }

  const PAYLOAD: nat := FIXED_HEADER_SIZE + VARIABLE_HEADER_SIZE

  ghost predicate HasPayload(buffer: seq<byte>, bytes: seq<byte>) {
    bytes == [] || (PAYLOAD + |bytes| <= |buffer| && buffer[PAYLOAD..PAYLOAD + |bytes|] == bytes)
  }

  /** Only bytes from `from` to `to` differ. */
  ghost predicate OnlyBetween(before: seq<byte>, after: seq<byte>, from: nat, to: nat) {
    |after| == |before| && forall i :: 0 <= i < |before| && !(from <= i < to) ==> after[i] == before[i]
  }

  lemma EncodedLength(s: seq<byte>)
    ensures |Encoded(s)| == 2 + Length16(s)
  {
  }

  lemma PayloadGrows(buffer: seq<byte>, before: seq<byte>, x: seq<byte>)
    requires HasPayload(buffer, before) && PAYLOAD + |before| + |x| <= |buffer|
    ensures var after := Splice(buffer, PAYLOAD + |before|, x);
      HasPayload(after, before + x) && OnlyBetween(buffer, after, PAYLOAD + |before|, PAYLOAD + |before| + |x|)
  {
    var at, after := PAYLOAD + |before|, Splice(buffer, PAYLOAD + |before|, x);
    if before != [] {
      SpliceElsewhere(buffer, at, x, PAYLOAD, |before|);
    }
    SpliceThere(buffer, at, x);
    assert after[PAYLOAD..at + |x|] == after[PAYLOAD..at] + after[at..at + |x|];
  }

  /** mqtt_connect_fill_a_param with mqtt_add_payload_parameters; zero stands for the returned NULL. */
  method FillAParam(s: seq<byte>, buffer: array<byte>, at: nat, remaining: int, ghost before: seq<byte>)
    returns (next: nat, remaining': int)
    requires at == PAYLOAD + |before| && HasPayload(buffer[..], before)
    requires Passes(s, remaining) ==> at + |Encoded(s)| <= buffer.Length
    modifies buffer
    ensures remaining' == remaining - Length16(s)
    ensures next == if Passes(s, remaining) then at + |Encoded(s)| else 0
    ensures HasPayload(buffer[..], before + if Passes(s, remaining) then Encoded(s) else [])
    ensures OnlyBetween(old(buffer[..]), buffer[..], at, if Passes(s, remaining) then at + |Encoded(s)| else at)
  {
    hide HasPayload, OnlyBetween, Splice;
    var argLen := |s| % 0x1_0000;
    remaining' := remaining - argLen;
    next := 0;
    if 0 < remaining' && 0 < argLen {
      ghost var was := buffer[..];
      Memcpy(buffer, at, Short(argLen));
      Memcpy(buffer, at + 2, s[..argLen]);
      next := at + 2 + argLen;
      SpliceTwice(was, at, Short(argLen), s[..argLen]);
      PayloadGrows(was, before, Encoded(s));
    } else {
      assert before + [] == before;
      NothingBetween(buffer[..], at);
    }
  }

  lemma NothingBetween(buffer: seq<byte>, at: nat)
    ensures OnlyBetween(buffer, buffer, at, at)
  {
  }

  /**
   Where the filling of the payload stands: `done` has been written, and `rest` is to come unless it has been given
   up.
   */
  ghost predicate Filled(was: seq<byte>, buffer: seq<byte>, done: seq<byte>, rest: seq<seq<byte>>, end: nat,
                         remaining: int, total: seq<byte>) {
    && HasPayload(buffer, done) && OnlyBetween(was, buffer, PAYLOAD, PAYLOAD + |done|)
    && (end == 0 || end == PAYLOAD + |done|)
    && done + (if end == 0 then [] else Placed(rest, remaining)) == total
  }

  lemma FilledNext(was: seq<byte>, b: seq<byte>, after: seq<byte>, done: seq<byte>, s: seq<byte>, rest: seq<seq<byte>>,
                   end: nat, remaining: int, total: seq<byte>)
    requires Filled(was, b, done, [s] + rest, end, remaining, total) && end != 0
    requires HasPayload(after, done + if Passes(s, remaining) then Encoded(s) else [])
    requires OnlyBetween(b, after, end, if Passes(s, remaining) then end + |Encoded(s)| else end)
    ensures if Passes(s, remaining)
            then Filled(was, after, done + Encoded(s), rest, end + |Encoded(s)|, remaining - Length16(s), total)
            else Filled(was, after, done, rest, 0, remaining - Length16(s), total)
  {
    hide Encoded, Passes;
    assert ([s] + rest)[1..] == rest;
    assert done + [] == done;
    if Passes(s, remaining) {
      var more := Placed(rest, remaining - Length16(s));
      assert done + (Encoded(s) + more) == (done + Encoded(s)) + more;
    }
  }

  lemma FilledRoom(was: seq<byte>, b: seq<byte>, done: seq<byte>, s: seq<byte>, rest: seq<seq<byte>>, end: nat,
                   remaining: int, total: seq<byte>)
    requires Filled(was, b, done, [s] + rest, end, remaining, total) && end != 0 && Passes(s, remaining)
    ensures end == PAYLOAD + |done| && total != [] && end + |Encoded(s)| <= PAYLOAD + |total|
  {
    assert Encoded(s) != [];
  }

  lemma FilledGivenUp(was: seq<byte>, b: seq<byte>, done: seq<byte>, rest: seq<seq<byte>>, rest': seq<seq<byte>>,
                      remaining: int, remaining': int, total: seq<byte>)
    requires Filled(was, b, done, rest, 0, remaining, total)
    ensures Filled(was, b, done, rest', 0, remaining', total)
  {
  }

  lemma FilledFacts(was: seq<byte>, b: seq<byte>, done: seq<byte>, rest: seq<seq<byte>>, end: nat, remaining: int,
                    total: seq<byte>)
    requires Filled(was, b, done, rest, end, remaining, total)
    ensures HasPayload(b, done) && (end == 0 || end == PAYLOAD + |done|)
    ensures rest == [] || end == 0 ==> done == total && OnlyBetween(was, b, PAYLOAD, PAYLOAD + |total|)
  {
    assert done + [] == done;
  }

  /** One string that the message has only if it is not empty; `rest` are the strings behind it. */
  method FillOptional(present: bool, s: seq<byte>, buffer: array<byte>, at: nat, remaining: int, ghost done: seq<byte>,
                      ghost rest: seq<seq<byte>>, ghost was: seq<byte>, ghost total: seq<byte>)
    returns (next: nat, remaining': int, ghost done': seq<byte>)
    requires Filled(was, buffer[..], done, Optional(present, s) + rest, at, remaining, total)
    requires total == [] || PAYLOAD + |total| <= buffer.Length
    modifies buffer
    ensures Filled(was, buffer[..], done', rest, next, remaining', total)
    ensures next == 0 <==> at == 0 || (present && !Passes(s, remaining))
    ensures next != 0 ==> done' == done + Present(present, s)
    ensures next != 0 ==> remaining' == remaining - if present then Length16(s) else 0
  {
    hide Encoded, HasPayload, Passes, Filled, OnlyBetween, Placed;
    next, remaining', done' := at, remaining, done;
    assert done + [] == done && [] + rest == rest;
    FilledFacts(was, buffer[..], done, Optional(present, s) + rest, at, remaining, total);
    if at == 0 {
      FilledGivenUp(was, buffer[..], done, Optional(present, s) + rest, rest, remaining, remaining, total);
    } else if present {
      if Passes(s, remaining) {
        FilledRoom(was, buffer[..], done, s, rest, at, remaining, total);
      }
      ghost var b := buffer[..];
      next, remaining' := FillAParam(s, buffer, at, remaining, done);
      FilledNext(was, b, buffer[..], done, s, rest, at, remaining, total);
      done' := if next != 0 then done + Encoded(s) else done;
    }
  }

  /**
   mqtt_connect_fill_parameters: the payload is written behind the room for both headers. What has been written before a
   string is found not to pass stays in the buffer.
   */
  method FillParameters(c: Connect, buffer: array<byte>, space: int) returns (payloadEnd: nat, remaining: int)
    requires Placed(Strings(c), space) == [] || PAYLOAD + |Placed(Strings(c), space)| <= buffer.Length
    modifies buffer
    ensures HasPayload(buffer[..], Placed(Strings(c), space))
    ensures OnlyBetween(old(buffer[..]), buffer[..], PAYLOAD, PAYLOAD + |Placed(Strings(c), space)|)
    ensures payloadEnd != 0 <==> Fillable(c) && Characters(c) < space
    ensures payloadEnd != 0 ==>
      && Placed(Strings(c), space) == Payload(c)
      && payloadEnd == PAYLOAD + |Payload(c)| && remaining == space - Characters(c)
  {
    hide Encoded, HasPayload, OnlyBetween, Placed, Filled, Present;
    ghost var s4 := Optional(c.password != [], c.password);
    ghost var s3 := Optional(c.username != [], c.username) + s4;
    ghost var s2 := Optional(HasWill(c), c.willMessage) + s3;
    ghost var s1 := Optional(HasWill(c), c.willTopic) + s2;
    ghost var was, total := buffer[..], Placed(Strings(c), space);
    ghost var done;
    FilledStart(buffer[..], Strings(c), space);
    payloadEnd, remaining, done := FillOptional(true, c.clientId, buffer, PAYLOAD, space, [], s1, was, total);
    payloadEnd, remaining, done :=
      FillOptional(HasWill(c), c.willTopic, buffer, payloadEnd, remaining, done, s2, was, total);
    payloadEnd, remaining, done :=
      FillOptional(HasWill(c), c.willMessage, buffer, payloadEnd, remaining, done, s3, was, total);
    payloadEnd, remaining, done :=
      FillOptional(c.username != [], c.username, buffer, payloadEnd, remaining, done, s4, was, total);
    assert s4 == s4 + [];
    payloadEnd, remaining, done :=
      FillOptional(c.password != [], c.password, buffer, payloadEnd, remaining, done, [], was, total);
    FilledFacts(was, buffer[..], done, [], payloadEnd, remaining, total);
    ClientFirst(c);
  }

  lemma FilledStart(buffer: seq<byte>, strings: seq<seq<byte>>, space: int)
    ensures Filled(buffer, buffer, [], strings, PAYLOAD, space, Placed(strings, space))
  {
  }

  lemma ClientFirst(c: Connect)
    ensures [] + Present(true, c.clientId) + Present(HasWill(c), c.willTopic) + Present(HasWill(c), c.willMessage)
            + Present(c.username != [], c.username) + Present(c.password != [], c.password) == Payload(c)
  {
    hide Encoded;
    assert [] + Encoded(c.clientId) == Encoded(c.clientId);
  }

  /** encode_variable_header_connect, at its place in front of the payload */
  method PutVariableHeader(c: Connect, buffer: array<byte>, payloadEnd: nat)
    requires c.keepalive < 0x1_0000 && 15 <= payloadEnd <= buffer.Length && buffer[15..payloadEnd] == Payload(c)
    modifies buffer
    ensures buffer[5..payloadEnd] == Body(c) && buffer[15..] == old(buffer[15..]) && buffer[..5] == old(buffer[..5])
  {
    hide Payload, FlagsOf;
    var header := PROTOCOL + [FlagsOf(c)] + Short(c.keepalive);
    ghost var rest := buffer[15..];
    Memcpy(buffer, 5, header);
    assert buffer[15..] == rest;
    assert buffer[15..payloadEnd] == rest[..payloadEnd - 15];
    assert buffer[5..payloadEnd] == buffer[5..15] + buffer[15..payloadEnd];
    assert buffer[5..15] == header;
  }

  /** The fixed header, made apart and copied to where it ends at the variable header */
  method PutFixedHeader(buffer: array<byte>, end: nat, size: nat, ghost body: seq<byte>) returns (start: nat)
    requires 5 <= end <= buffer.Length && buffer[5..end] == body && size == |body| < 0x1000_0000
    modifies buffer
    ensures start < end && buffer[start..end] == PublishMessage(0x10, body) && buffer[5..] == old(buffer[5..])
    ensures buffer[5..end] == body && buffer[..start] == old(buffer[..start])
  {
    hide SizeBytes;
    var header := new byte[FIXED_HEADER_SIZE];
    FourBytes(size);
    var headerSize := EncodeFixedHeader(header, false, 0, false, CONNECT, size);
    start := FIXED_HEADER_SIZE - headerSize;
    ghost var rest := buffer[5..];
    Memcpy(buffer, start, header[..headerSize]);
    assert buffer[5..] == rest;
    assert buffer[5..end] == rest[..end - 5];
    assert buffer[start..end] == buffer[start..5] + rest[..end - 5];
  }

  predicate Accepted(c: Connect, maxSize: nat) {
    Characters(c) + VARIABLE_HEADER_SIZE + |Payload(c)| <= maxSize
  }

  /** Where the bytes written end; the buffer is cleared up to its size before anything is checked. */
  function WrittenEnd(c: Connect, maxSize: nat): nat {
    var n := |Placed(Strings(c), maxSize)|;
    if n == 0 || PAYLOAD + n <= maxSize then maxSize else PAYLOAD + n
  }

  /**
   mqtt_connect_fill: `start` and `end` delimit the message in the buffer. The space check counts the characters
   twice, and the five bytes for the fixed header not at all.
   */
  method ConnectFill(c: Connect, buffer: array<byte>, maxSize: nat)
    returns (ok: bool, start: nat, end: nat, outputSize: nat)
    requires c.keepalive < 0x1_0000 && WrittenEnd(c, maxSize) <= buffer.Length
    modifies buffer
    ensures ok <==> Fillable(c) && Accepted(c, maxSize)
    ensures ok ==>
      && start < end == PAYLOAD + |Payload(c)| <= buffer.Length && buffer[start..end] == PublishMessage(0x10, Body(c))
      && outputSize == (end - start) % 0x1_0000
    ensures ok ==> HasVariableHeader(buffer[5..end], c)
    ensures ok ==> forall i :: 0 <= i < start || end <= i < maxSize ==> buffer[i] == 0
    ensures !ok ==> start == end == outputSize == 0
    ensures ok && Sendable(c) ==> ParseConnect(buffer[start..end]) == Some(PacketOf(c))
    ensures HasPayload(buffer[..], Placed(Strings(c), maxSize))
    ensures OnlyBetween(old(buffer[..]), buffer[..], 0, WrittenEnd(c, maxSize))
  {
    hide Payload, Body, FlagsOf, Fillable, Characters, SizeBytes, ParseConnect, Strings, Placed, HasPayload;
    hide OnlyBetween, HasVariableHeader;
    ok, start, end, outputSize := false, 0, 0, 0;
    Clear(buffer, maxSize);
    ghost var cleared, n := buffer[..], |Placed(Strings(c), maxSize)|;
    var payloadEnd, remaining := FillParameters(c, buffer, maxSize);
    ghost var was := buffer[..];
    OnlyBelow(old(buffer[..]), cleared, buffer[..], maxSize, PAYLOAD, PAYLOAD + n, WrittenEnd(c, maxSize));
    if payloadEnd == 0 {
      return;
    }
    PayloadSize(c);
    PayloadIs(buffer[..], Payload(c));
    StaysZero(cleared, was, PAYLOAD, PAYLOAD + n, maxSize);
    PutVariableHeader(c, buffer, payloadEnd);
    OnlyInFront(old(buffer[..]), was, buffer[..], Payload(c), WrittenEnd(c, maxSize));
    remaining := remaining - VARIABLE_HEADER_SIZE;
    if 0 > remaining {
      return;
    }
    var payloadSize := payloadEnd - PAYLOAD;
    remaining := remaining - payloadSize;
    if 0 > remaining {
      return;
    }
    start := PutFixedHeader(buffer, payloadEnd, payloadSize + VARIABLE_HEADER_SIZE, Body(c));
    OnlyInFront(old(buffer[..]), was, buffer[..], Payload(c), WrittenEnd(c, maxSize));
    ok, end, outputSize := true, payloadEnd, (payloadEnd - start) % 0x1_0000;
    VariableHeaderBytes(c);
    assert buffer[end..] == was[end..];
    forall i | 0 <= i < start || end <= i < maxSize ensures buffer[i] == 0 {
      assert if i < start then buffer[i] == was[i] else buffer[end..][i - end] == was[end..][i - end];
    }
    if Sendable(c) {
      ConnectRead(c);
    }
  }

  lemma StaysZero(a: seq<byte>, b: seq<byte>, from: nat, to: nat, size: nat)
    requires OnlyBetween(a, b, from, to) && size <= |a| && forall i :: 0 <= i < size ==> a[i] == 0
    ensures |b| == |a| && forall i :: 0 <= i < size && !(from <= i < to) ==> b[i] == 0
  {
  }

  method Clear(buffer: array<byte>, size: nat)
    requires size <= buffer.Length
    modifies buffer
    ensures OnlyBetween(old(buffer[..]), buffer[..], 0, size) && forall i :: 0 <= i < size ==> buffer[i] == 0
  {
    for i := 0 to size
      invariant OnlyBetween(old(buffer[..]), buffer[..], 0, size) && forall j :: 0 <= j < i ==> buffer[j] == 0
    {
      buffer[i] := 0;
    }
  }

  lemma OnlyBelow(a: seq<byte>, b: seq<byte>, c: seq<byte>, x: nat, from: nat, to: nat, end: nat)
    requires OnlyBetween(a, b, 0, x) && OnlyBetween(b, c, from, to) && x <= end && (from == to || to <= end)
    ensures OnlyBetween(a, c, 0, end)
  {
  }

  lemma PayloadIs(buffer: seq<byte>, payload: seq<byte>)
    requires HasPayload(buffer, payload) && payload != []
    ensures PAYLOAD + |payload| <= |buffer| && buffer[PAYLOAD..PAYLOAD + |payload|] == payload
  {
  }

  /** The headers are written in front of the payload. */
  lemma OnlyInFront(a: seq<byte>, b: seq<byte>, c: seq<byte>, payload: seq<byte>, end: nat)
    requires OnlyBetween(a, b, 0, end) && PAYLOAD <= end && HasPayload(b, payload) && |c| == |b|
    requires PAYLOAD <= |b| && c[PAYLOAD..] == b[PAYLOAD..]
    ensures OnlyBetween(a, c, 0, end) && HasPayload(c, payload)
  {
    forall i | PAYLOAD <= i < |b| ensures c[i] == b[i] {
      assert c[PAYLOAD..][i - PAYLOAD] == b[PAYLOAD..][i - PAYLOAD];
    }
  }

  predicate Fits(c: Connect, maxSize: nat) {
    PAYLOAD + |Payload(c)| <= maxSize
  }

  /**
   Every space in which a message is accepted has room for it, if and only if no message passes or it has five
   characters.
   */
  lemma SpaceCheck(c: Connect)
    ensures (forall maxSize: nat :: Fillable(c) && Accepted(c, maxSize) ==> Fits(c, maxSize))
            <==> !Fillable(c) || Characters(c) >= 5
  {
    hide Characters, Payload;
    if Characters(c) < 5 {
      assert Accepted(c, Characters(c) + VARIABLE_HEADER_SIZE + |Payload(c)|);
    }
  }

  function CharactersOf(strings: seq<seq<byte>>): nat {
    if strings == [] then 0 else Length16(strings[0]) + CharactersOf(strings[1..])
  }

  /** None of the strings is without characters, and all together have fewer than there is space. */
  predicate AllPass(strings: seq<seq<byte>>, space: int) {
    CharactersOf(strings) < space && forall i :: 0 <= i < |strings| ==> Length16(strings[i]) != 0
  }

  /**
   Nothing is written behind the end of the buffer if and only if there is room for the headers and for every prefix of
   the strings, two bytes for each string included, whose characters alone are fewer than the space.
   */
  lemma WritesWithin(c: Connect, maxSize: nat)
    ensures WrittenEnd(c, maxSize) <= maxSize <==>
      forall k :: 1 <= k <= |Strings(c)| && AllPass(Strings(c)[..k], maxSize) ==>
        PAYLOAD + 2 * k + CharactersOf(Strings(c)[..k]) <= maxSize
  {
    hide Strings, Placed, AllPass, CharactersOf;
    PlacedWithin(Strings(c), maxSize, PAYLOAD, maxSize);
  }

  /** A client identifier of 19 characters, in a buffer of 20 bytes: it is written up to byte 36 and then refused. */
  lemma NineteenCharacters(c: Connect)
    requires |c.clientId| == 19 && !HasWill(c) && c.username == [] && c.password == []
    ensures WrittenEnd(c, 20) == 36 && Fillable(c) && !Accepted(c, 20)
  {
    hide FlagsOf;
    assert Strings(c) == [c.clientId] && Placed([c.clientId], 20) == Encoded(c.clientId) + Placed([], 1);
    PayloadSize(c);
  }

  ghost predicate PrefixesFit(strings: seq<seq<byte>>, space: int, at: nat, end: nat) {
    forall k :: 1 <= k <= |strings| && AllPass(strings[..k], space) ==> at + 2 * k + CharactersOf(strings[..k]) <= end
  }

  lemma {:induction false} PlacedWithin(strings: seq<seq<byte>>, space: int, at: nat, end: nat)
    ensures Placed(strings, space) == [] || at + |Placed(strings, space)| <= end
            <==> PrefixesFit(strings, space, at, end)
  {
    if strings != [] {
      var s, rest := strings[0], strings[1..];
      var n := Length16(s);
      EncodedLength(s);
      PlacedWithin(rest, space - n, at + 2 + n, end);
      forall k | 1 <= k <= |strings|
        ensures AllPass(strings[..k], space) <==> Passes(s, space) && AllPass(rest[..k - 1], space - n)
        ensures CharactersOf(strings[..k]) == n + CharactersOf(rest[..k - 1])
      {
        PrefixPasses(strings, k, space);
      }
      PrefixesSplit(strings, space, at, end);
    }
  }

  lemma PrefixPasses(strings: seq<seq<byte>>, k: nat, space: int)
    requires 1 <= k <= |strings|
    ensures var s, rest := strings[0], strings[1..];
      && (AllPass(strings[..k], space) <==> Passes(s, space) && AllPass(rest[..k - 1], space - Length16(s)))
      && CharactersOf(strings[..k]) == Length16(s) + CharactersOf(rest[..k - 1])
  {
    hide Length16;
    var p := strings[..k];
    assert p[0] == strings[0] && p[1..] == strings[1..][..k - 1];
    assert forall i :: 1 <= i < k ==> p[i] == strings[1..][..k - 1][i - 1];
  }

  lemma PrefixesSplit(strings: seq<seq<byte>>, space: int, at: nat, end: nat)
    requires strings != []
    ensures var s, rest := strings[0], strings[1..];
      var n := Length16(s);
      PrefixesFit(strings, space, at, end) <==>
      !Passes(s, space) || (at + 2 + n <= end && PrefixesFit(rest, space - n, at + 2 + n, end))
  {
    hide AllPass, CharactersOf, Length16;
    var s, rest := strings[0], strings[1..];
    var n := Length16(s);
    forall k | 1 <= k <= |strings|
      ensures AllPass(strings[..k], space) <==> Passes(s, space) && AllPass(rest[..k - 1], space - n)
      ensures CharactersOf(strings[..k]) == n + CharactersOf(rest[..k - 1])
    {
      PrefixPasses(strings, k, space);
    }
    NonePasses(space - n);
    if Passes(s, space) && PrefixesFit(strings, space, at, end) {
      assert AllPass(strings[..1], space) && rest[..0] == [];
      forall k | 1 <= k <= |rest| && AllPass(rest[..k], space - n)
        ensures at + 2 + n + 2 * k + CharactersOf(rest[..k]) <= end
      {
        assert AllPass(strings[..k + 1], space);
      }
    }
    if Passes(s, space) && at + 2 + n <= end && PrefixesFit(rest, space - n, at + 2 + n, end) {
      forall k | 1 <= k <= |strings| && AllPass(strings[..k], space)
        ensures at + 2 * k + CharactersOf(strings[..k]) <= end
      {
        if k == 1 {
          assert rest[..0] == [];
        } else {
          assert AllPass(rest[..k - 1], space - n);
        }
      }
    }
  }

  lemma NonePasses(space: int)
    ensures AllPass([], space) <==> 0 < space
    ensures CharactersOf([]) == 0
  {
  }
}
