/** CONNECT, MQTT 3.1.1 section 3.1 (MQTTConnectClient.c, MQTTConnectServer.c). */
module ConnectPacket {
  import opened Basics
  import opened RemainingLength
  import opened MqttStrings
  import opened FixedHeader

  datatype Will = Will(topic: MqttString, message: MqttString, qos: int, retained: byte)

  /** The will is meaningful only when the flag is set. */
  datatype Connect = Connect(version: byte, clientId: MqttString, keepAlive: uint16, cleansession: byte,
                             willFlag: bool, will: Will, username: MqttString, password: MqttString)

  datatype ReceivedWill = ReceivedWill(topic: seq<byte>, message: seq<byte>, qos: int, retained: nat)

  datatype Received = Received(cleansession: nat, keepAlive: uint16, clientId: seq<byte>,
                               will: Option<ReceivedWill>, username: Option<seq<byte>>,
                               password: Option<seq<byte>>)

  const MQTT: seq<byte> := [0x4D, 0x51, 0x54, 0x54]
  const MQISDP: seq<byte> := [0x4D, 0x51, 0x49, 0x73, 0x64, 0x70]

  /** The connect flags byte as the bit-field union lays it out. */
  function FlagsByte(c: Connect): (f: byte)
    ensures CleanOf(f) == c.cleansession % 2
    ensures WillOf(f) == c.willFlag
    ensures WillQosOf(f) == if c.willFlag then c.will.qos % 4 else 0
    ensures WillRetainOf(f) == if c.willFlag then c.will.retained % 2 else 0
    ensures PasswordOf(f) == c.password.Present()
    ensures UsernameOf(f) == c.username.Present()
  {
    Flags(Bit(c.username.Present()), Bit(c.password.Present()),
          if c.willFlag then c.will.retained % 2 else 0, if c.willFlag then c.will.qos % 4 else 0,
          Bit(c.willFlag), c.cleansession % 2)
  }

  function Flags(user: nat, pass: nat, retain: nat, qos: nat, will: nat, clean: nat): (f: byte)
    requires user < 2 && pass < 2 && retain < 2 && qos < 4 && will < 2 && clean < 2
    ensures UsernameOf(f) <==> user == 1
    ensures PasswordOf(f) <==> pass == 1
    ensures WillRetainOf(f) == retain && WillQosOf(f) == qos && CleanOf(f) == clean
    ensures WillOf(f) <==> will == 1
  {
    var f := user * 128 + pass * 64 + retain * 32 + qos * 8 + will * 4 + clean * 2;
    assert f / 64 == user * 2 + pass;
    assert f / 32 == user * 4 + pass * 2 + retain;
    assert f / 8 == user * 16 + pass * 8 + retain * 4 + qos;
    assert f / 4 == user * 32 + pass * 16 + retain * 8 + qos * 2 + will;
    assert f / 2 == user * 64 + pass * 32 + retain * 16 + qos * 4 + will * 2 + clean;
    f
  }

  function Bit(b: bool): (n: nat)
    ensures n < 2
  {
    if b then 1 else 0
  }

  function CleanOf(f: byte): nat { (f / 2) % 2 }

  predicate WillOf(f: byte) { (f / 4) % 2 == 1 }

  function WillQosOf(f: byte): nat { (f / 8) % 4 }

  function WillRetainOf(f: byte): nat { (f / 32) % 2 }

  predicate PasswordOf(f: byte) { (f / 64) % 2 == 1 }

  predicate UsernameOf(f: byte) { f / 128 == 1 }

  /** The strings of the payload, in the order of section 3.1.3. */
  function Strings(c: Connect): (s: seq<MqttString>)
    ensures |s| >= 1
  {
    [c.clientId] + WillStrings(c) + Credentials(c)
  }

  function WillStrings(c: Connect): seq<MqttString> {
    if c.willFlag then [c.will.topic, c.will.message] else []
  }

  function Credentials(c: Connect): seq<MqttString> {
    (if c.username.Present() then [c.username] else []) + (if c.password.Present() then [c.password] else [])
  }

  function Utfs(ss: seq<MqttString>): seq<byte> {
    if ss == [] then [] else Utf(ss[0].Content()) + Utfs(ss[1..])
  }

  /** Protocol name, protocol level, flags and keep-alive. */
  function VariableHeader(c: Connect): seq<byte> {
    NamedHeader(c, ProtocolName(c), if c.version == 4 then 4 else 3)
  }

  function ProtocolName(c: Connect): seq<byte> {
    if c.version == 4 then MQTT else MQISDP
  }

  /** The same with any name and level in it. */
  function NamedHeader(c: Connect, name: seq<byte>, level: byte): seq<byte> {
    Utf(name) + ([level, FlagsByte(c)] + BigEndian16(c.keepAlive))
  }

  /** A connect as some other client might write it. */
  function NamedWire(c: Connect, name: seq<byte>, level: byte): seq<byte> {
    Packet(HeaderByte(CONNECT, 0, 0, 0), NamedHeader(c, name, level) + Utfs(Strings(c)))
  }

  function Body(c: Connect): seq<byte> {
    VariableHeader(c) + Utfs(Strings(c))
  }

  /** Its size. */
  function BodySize(c: Connect): nat {
    HeaderSize(c) + |Utfs(Strings(c))|
  }

  function HeaderSize(c: Connect): nat {
    if c.version == 4 then 10 else 12
  }

  lemma Sizes(c: Connect)
    ensures |VariableHeader(c)| == HeaderSize(c) && |Body(c)| == BodySize(c)
  {
    hide FlagsByte, BigEndian16, Utfs, Strings;
  }

  function Wire(c: Connect): seq<byte> {
    Packet(HeaderByte(CONNECT, 0, 0, 0), Body(c))
  }

  /** MQTTSerialize_connectLength. */
  function ConnectLength(c: Connect): nat {
    (if c.version == 3 then 12 else if c.version == 4 then 10 else 0)
    + c.clientId.Strlen() + 2
    + (if c.willFlag then c.will.topic.Strlen() + 2 + c.will.message.Strlen() + 2 else 0)
    + (if c.username.Present() then c.username.Strlen() + 2 else 0)
    + (if c.password.Present() then c.password.Strlen() + 2 else 0)
  }

  predicate Measured(c: Connect) {
    forall s <- Strings(c) :: s.Measured()
  }

  /** By how much a connect is longer than predicted: for any version but the two there are the fixed part is left out
      of the prediction, and the strings are predicted by one form and written by the other. */
  function Excess(c: Connect): int {
    (if c.version in {3, 4} then 0 else 12) + |Utfs(Strings(c))| - PayloadSize(Strings(c))
  }

  lemma LengthIsExact(c: Connect)
    ensures |Body(c)| == ConnectLength(c) + Excess(c)
    ensures Measured(c) ==> Excess(c) == if c.version in {3, 4} then 0 else 12
  {
    hide Utf, BigEndian16, FlagsByte, Utfs, PayloadSize, ConnectLength, Strings, Body;
    if Measured(c) {
      UtfsSize(Strings(c));
    }
    PredictedPayload(c);
    Sizes(c);
  }

  lemma PredictedPayload(c: Connect)
    ensures ConnectLength(c)
         == (if c.version == 3 then 12 else if c.version == 4 then 10 else 0) + PayloadSize(Strings(c))
  {
    hide MqttString.Strlen;
    assert Strings(c)[0] == c.clientId;
    PayloadSizeSplit([c.clientId] + WillStrings(c), Credentials(c));
    PayloadSizeSplit([c.clientId], WillStrings(c));
    var u, p := if c.username.Present() then [c.username] else [], if c.password.Present() then [c.password] else [];
    PayloadSizeSplit(u, p);
    assert PayloadSize([c.clientId]) == 2 + c.clientId.Strlen();
    if c.willFlag {
      PayloadSizeSplit([c.will.topic], [c.will.message]);
      assert WillStrings(c) == [c.will.topic] + [c.will.message];
    }
  }

  /** The bytes the counted strings of ss take. */
  function PayloadSize(ss: seq<MqttString>): nat {
    if ss == [] then 0 else 2 + ss[0].Strlen() + PayloadSize(ss[1..])
  }

  lemma {:induction false} UtfsSize(ss: seq<MqttString>)
    requires forall s <- ss :: s.Measured()
    ensures |Utfs(ss)| == PayloadSize(ss)
  {
    if ss != [] {
      assert ss[0] in ss;
      UtfsSize(ss[1..]);
    }
  }

  lemma {:induction false} PayloadSizeSplit(a: seq<MqttString>, b: seq<MqttString>)
    ensures PayloadSize(a + b) == PayloadSize(a) + PayloadSize(b)
  {
    if a == [] {
      assert a + b == b;
    } else {
      assert (a + b)[1..] == a[1..] + b;
      PayloadSizeSplit(a[1..], b);
    }
  }

  /** MQTTPacket_checkVersion compares no more of the name than was sent, and no more than the right one has. */
  predicate CheckVersion(protocol: seq<byte>, version: byte) {
    || (version == 3 && SamePrefix(protocol, MQISDP))
    || (version == 4 && SamePrefix(protocol, MQTT))
  }

  predicate SamePrefix(a: seq<byte>, b: seq<byte>) {
    a <= b || b <= a
  }

  /** What MQTTDeserialize_connect fills in for a packet that occupies all of buf. */
  function Parse(buf: seq<byte>): (r: Parsed<Received>) {
    var header :- ReadByte(buf, 0);
    if TypeOf(header) != CONNECT then Rejected(0)
    else
      var (used, _) :- ReadLength(buf, 1);
      var (protocol, p) :- ReadLenString(buf, 1 + used, |buf|);
      var version :- ReadByte(buf, p);
      if !CheckVersion(protocol, version) then Rejected(0)
      else
        var flags :- ReadByte(buf, p + 1);
        var keepAlive :- ReadInt(buf, p + 2);
        var (clientId, q) :- ReadLenString(buf, p + 4, |buf|);
        var (will, next) :- ReadWill(buf, q, flags);
        var (username, password) :- ReadCredentials(buf, next, flags);
        Parsed(Received(CleanOf(flags), keepAlive, clientId, will, username, password))
  }

  function ReadWill(buf: seq<byte>, p: nat, flags: byte): (r: Parsed<(Option<ReceivedWill>, nat)>) {
    if !WillOf(flags) then Parsed((None, p))
    else
      var (topic, q) :- ReadLenString(buf, p, |buf|);
      var (message, next) :- ReadLenString(buf, q, |buf|);
      Parsed((Some(ReceivedWill(topic, message, WillQosOf(flags), WillRetainOf(flags))), next))
  }

  function ReadCredentials(buf: seq<byte>, p: nat, flags: byte)
    : (r: Parsed<(Option<seq<byte>>, Option<seq<byte>>)>)
  {
    if UsernameOf(flags) then
      var (username, q) :- ReadCredential(buf, p);
      if PasswordOf(flags) then
        var (password, _) :- ReadCredential(buf, q);
        Parsed((Some(username), Some(password)))
      else
        Parsed((Some(username), None))
    else if PasswordOf(flags) then Rejected(0)
    else Parsed((None, None))
  }

  /** A user name or password needs at least three bytes left in the packet. */
  function ReadCredential(buf: seq<byte>, p: nat): (r: Parsed<(seq<byte>, nat)>) {
    if |buf| - p < 3 then Rejected(0) else ReadLenString(buf, p, |buf|)
  }

  function Fields(c: Connect): Received {
    Received(c.cleansession, c.keepAlive, c.clientId.Content(), WillFields(c),
             CredentialField(c.username), CredentialField(c.password))
  }

  function WillFields(c: Connect): Option<ReceivedWill> {
    if c.willFlag then
      Some(ReceivedWill(c.will.topic.Content(), c.will.message.Content(), c.will.qos, c.will.retained))
    else
      None
  }

  function CredentialField(s: MqttString): Option<seq<byte>> {
    if s.Present() then Some(s.Content()) else None
  }

  /** The options fit the bits of the flags byte, a password comes with a user name, and the last credential
      is not empty. */
  predicate Legal(c: Connect) {
    && c.cleansession < 2
    && (c.willFlag ==> 0 <= c.will.qos < 4 && c.will.retained < 2)
    && LegalCredentials(c)
  }

  predicate LegalCredentials(c: Connect) {
    && (c.password.Present() ==> c.username.Present() && c.password.Content() != [])
    && (c.username.Present() && !c.password.Present() ==> c.username.Content() != [])
  }

  predicate ShortStrings(c: Connect) {
    forall s <- Strings(c) :: |s.Content()| <= 0xFFFF
  }

  lemma CredentialsReadBack(before: seq<byte>, c: Connect)
    requires c.username.Present() ==> |c.username.Content()| <= 0xFFFF
    requires c.password.Present() ==> |c.password.Content()| <= 0xFFFF
    ensures ReadCredentials(before + Utfs(Credentials(c)), |before|, FlagsByte(c))
            == Parsed((CredentialField(c.username), CredentialField(c.password)))
            <==> LegalCredentials(c)
  {
    hide FlagsByte, UsernameOf, PasswordOf, BigEndian16, FromBigEndian16, MqttString.Content, ReadLenString, Utf;
    var user, pass := Utf(c.username.Content()), Utf(c.password.Content());
    var buf := before + Utfs(Credentials(c));
    if c.username.Present() {
      var rest := if c.password.Present() then pass else [];
      assert Credentials(c)[1..] == if c.password.Present() then [c.password] else [];
      assert c.password.Present() ==> Utfs([c.password]) == pass + [];
      assert Utfs(Credentials(c)) == user + rest;
      assert buf == before + user + rest;
      ReadInvertsWrite(before, c.username.Content(), rest, |buf|);
      if c.password.Present() {
        assert buf == (before + user) + pass + [];
        ReadInvertsWrite(before + user, c.password.Content(), [], |buf|);
      }
    }
  }

  lemma WillReadBack(before: seq<byte>, c: Connect, rest: seq<byte>)
    requires c.willFlag ==> |c.will.topic.Content()| <= 0xFFFF && |c.will.message.Content()| <= 0xFFFF
    ensures var fields, next := Utfs(WillStrings(c)), |before| + |Utfs(WillStrings(c))|;
            var r := ReadWill(before + fields + rest, |before|, FlagsByte(c));
            && r.Parsed? && r.value.1 == next
            && (r.value.0 == WillFields(c) <==> (c.willFlag ==> 0 <= c.will.qos < 4 && c.will.retained < 2))
  {
    hide FlagsByte, WillOf, WillQosOf, WillRetainOf, BigEndian16, FromBigEndian16, MqttString.Content,
         ReadLenString, Utf;
    if c.willFlag {
      var topic, message := Utf(c.will.topic.Content()), Utf(c.will.message.Content());
      assert WillStrings(c)[1..] == [c.will.message];
      assert Utfs([c.will.message]) == message + [];
      var fields := Utfs(WillStrings(c));
      assert fields == topic + message;
      var buf := before + fields + rest;
      Regroup(before, topic, message, rest);
      ReadInvertsWrite(before, c.will.topic.Content(), message + rest, |buf|);
      ReadInvertsWrite(before + topic, c.will.message.Content(), rest, |buf|);
    } else {
      assert before + [] + rest == before + rest;
    }
  }

  /** Everything up to the client identifier as the reader finds it. */
  lemma HeaderReadBack(start: seq<byte>, c: Connect, name: seq<byte>, level: byte, rest: seq<byte>)
    requires |name| <= 0xFFFF && |c.clientId.Content()| <= 0xFFFF
    ensures var buf, p := start + NamedHeader(c, name, level) + (Utf(c.clientId.Content()) + rest),
                          |start| + 2 + |name|;
            && ReadLenString(buf, |start|, |buf|) == Parsed((name, p))
            && p + 4 == |start + NamedHeader(c, name, level)|
            && ReadByte(buf, p) == Parsed(level)
            && ReadByte(buf, p + 1) == Parsed(FlagsByte(c))
            && ReadInt(buf, p + 2) == Parsed(c.keepAlive)
            && ReadLenString(buf, p + 4, |buf|)
               == Parsed((c.clientId.Content(), p + 6 + |c.clientId.Content()|))
  {
    hide FlagsByte, BigEndian16, FromBigEndian16, MqttString.Content, Utf;
    var fixed, keep := [level, FlagsByte(c)], BigEndian16(c.keepAlive);
    var client := Utf(c.clientId.Content());
    var buf := start + NamedHeader(c, name, level) + (client + rest);
    Regroup(start, Utf(name), fixed + keep, client + rest);
    ReadInvertsWrite(start, name, (fixed + keep) + (client + rest), |buf|);
    Regroup(start + Utf(name), fixed, keep, client + rest);
    ReadIntInvertsWrite(start + Utf(name) + fixed, c.keepAlive, client + rest);
    var before := start + Utf(name) + fixed + keep;
    assert buf == before + client + rest;
    ReadInvertsWrite(before, c.clientId.Content(), rest, |buf|);
  }

  /** Which protocol names and levels the reader goes on with: level 3 or 4, and a name that is a beginning of the right
      one or begins with it. */
  predicate Tolerated(name: seq<byte>, level: byte) {
    (level == 3 && (name <= MQISDP || MQISDP <= name)) || (level == 4 && (name <= MQTT || MQTT <= name))
  }

  /** A connect with any protocol name and level in it is read, with every other field unchanged, exactly when the name
      and level are tolerated and the connect is legal. */
  lemma ReadExactly(c: Connect, name: seq<byte>, level: byte)
    requires |name| <= 0xFFFF && ShortStrings(c)
    requires 6 + |name| + |Utfs(Strings(c))| <= MAX_REMAINING_LENGTH
    ensures Parse(NamedWire(c, name, level)) == Parsed(Fields(c)) <==> Tolerated(name, level) && Legal(c)
    ensures !Tolerated(name, level) ==> Parse(NamedWire(c, name, level)) == Rejected(0)
  {
    hide HeaderByte, FlagsByte, BigEndian16, FromBigEndian16, MqttString.Content, Utf, Utfs, NamedHeader,
         TypeOf, CleanOf, WillOf, WillQosOf, WillRetainOf, UsernameOf, PasswordOf, ReadLenString, ReadInt,
         ReadWill, ReadCredentials, Encoding, Decoding, Credentials, WillStrings, WillFields, CredentialField;
    var wire, body := NamedWire(c, name, level), NamedHeader(c, name, level) + Utfs(Strings(c));
    NamedSize(c, name, level);
    var start := [HeaderByte(CONNECT, 0, 0, 0)] + Encoding(|body|);
    var wills, credentials := Utfs(WillStrings(c)), Utfs(Credentials(c));
    var client := Utf(c.clientId.Content());
    PayloadParts(c);
    ReadLengthOfPacket(HeaderByte(CONNECT, 0, 0, 0), body, []);
    assert wire + [] == wire;
    assert wire == start + NamedHeader(c, name, level) + (client + (wills + credentials));
    HeaderReadBack(start, c, name, level, wills + credentials);
    var before := start + NamedHeader(c, name, level) + client;
    assert wire == before + wills + credentials;
    WillReadBack(before, c, credentials);
    CredentialsReadBack(before + wills, c);
    var credential := ReadCredentials(wire, |before + wills|, FlagsByte(c));
    assert Parse(wire) == Parsed(Fields(c)) ==>
        credential.value == (CredentialField(c.username), CredentialField(c.password));
  }

  lemma NamedSize(c: Connect, name: seq<byte>, level: byte)
    ensures |NamedHeader(c, name, level)| == 6 + |name|
  {
    hide FlagsByte, BigEndian16;
  }

  /** A connect that was written is read back with every field unchanged exactly when it is legal. */
  lemma RoundTrip(c: Connect)
    requires c.version in {3, 4} && ShortStrings(c) && BodySize(c) <= MAX_REMAINING_LENGTH
    ensures Parse(Wire(c)) == Parsed(Fields(c)) <==> Legal(c)
  {
    hide Parse, Legal, ShortStrings, Utfs, NamedHeader;
    ReadExactly(c, ProtocolName(c), if c.version == 4 then 4 else 3);
  }

  /** A connect of level 4 whose protocol name is empty, or the right one with more behind it, is accepted. */
  lemma WrongNamesAccepted(c: Connect)
    requires Legal(c) && ShortStrings(c) && |Utfs(Strings(c))| <= 0xFFFF
    ensures Parse(NamedWire(c, [], 4)) == Parsed(Fields(c))
    ensures Parse(NamedWire(c, MQTT + [0x21, 0x21], 4)) == Parsed(Fields(c))
  {
    hide Parse, Legal, ShortStrings, Utfs, NamedWire;
    ReadExactly(c, [], 4);
    ReadExactly(c, MQTT + [0x21, 0x21], 4);
  }

  /** Such packets byte by byte: no user, no will, no client id. */
  lemma WrongNamesAcceptedExample()
    ensures Parse([0x10, 8, 0, 0, 4, 0, 0, 0, 0, 0]).Parsed?
    ensures Parse([0x10, 14, 0, 6, 0x4D, 0x51, 0x54, 0x54, 0x21, 0x21, 4, 0, 0, 0, 0, 0]).Parsed?
  {
    hide Parse, Tolerated;
    var name := [0x4D, 0x51, 0x54, 0x54, 0x21, 0x21];
    TolerateBoth();
    ParsesAt([0x10, 8, 0, 0, 4, 0, 0, 0, 0, 0], []);
    ParsesAt([0x10, 14, 0, 6, 0x4D, 0x51, 0x54, 0x54, 0x21, 0x21, 4, 0, 0, 0, 0, 0], name);
  }

  lemma TolerateBoth()
    ensures Tolerated([], 4) && Tolerated([0x4D, 0x51, 0x54, 0x54, 0x21, 0x21], 4)
  {
  }

  lemma ParsesAt(buf: seq<byte>, name: seq<byte>)
    requires |name| < 100 && |buf| == 10 + |name|
    requires buf == [0x10, 8 + |name|, 0, |name|] + name + [4, 0, 0, 0, 0, 0] && Tolerated(name, 4)
    ensures Parse(buf).Parsed?
  {
    assert Decoding(buf[1..]).0 == 1;
    assert buf[2..4] == [0, |name|] && buf[4..4 + |name|] == name;
    assert buf[6 + |name|..8 + |name|] == [0, 0] && buf[8 + |name|..10 + |name|] == [0, 0];
  }

  lemma PayloadParts(c: Connect)
    ensures Utfs(Strings(c)) == Utf(c.clientId.Content()) + (Utfs(WillStrings(c)) + Utfs(Credentials(c)))
    ensures ShortStrings(c) ==>
              && |c.clientId.Content()| <= 0xFFFF
              && (c.willFlag ==> |c.will.topic.Content()| <= 0xFFFF && |c.will.message.Content()| <= 0xFFFF)
              && (c.username.Present() ==> |c.username.Content()| <= 0xFFFF)
              && (c.password.Present() ==> |c.password.Content()| <= 0xFFFF)
  {
    hide Utf, MqttString.Content;
    assert Strings(c) == [c.clientId] + (WillStrings(c) + Credentials(c));
    UtfsConcat(WillStrings(c), Credentials(c));
    assert Strings(c)[0] == c.clientId && Strings(c)[1..] == WillStrings(c) + Credentials(c);
    if c.willFlag {
      assert Strings(c)[1] == c.will.topic && Strings(c)[2] == c.will.message;
    }
    if c.username.Present() {
      assert Strings(c)[1 + |WillStrings(c)|] == c.username;
    }
    if c.password.Present() {
      assert Strings(c)[|Strings(c)| - 1] == c.password;
    }
  }

  lemma {:induction false} UtfsConcat(a: seq<MqttString>, b: seq<MqttString>)
    ensures Utfs(a + b) == Utfs(a) + Utfs(b)
  {
    hide Utf;
    if a == [] {
      assert a + b == b;
    } else {
      assert (a + b)[1..] == a[1..] + b;
      UtfsConcat(a[1..], b);
    }
  }

  /** On a buffer that holds exactly one packet the reader reads past the end exactly when the packet ends after its
      protocol name, or a version that passes the test is followed by less than flags and keep-alive. */
  lemma OverrunsExactly(header: byte, body: seq<byte>)
    requires |body| <= MAX_REMAINING_LENGTH
    ensures Parse(Packet(header, body)).Overrun? <==>
              && TypeOf(header) == CONNECT && |body| >= 2
              && var q := 2 + FromBigEndian16(body[..2]);
                 && q <= |body|
                 && (q == |body| || (CheckVersion(body[2..q], body[q]) && q + 4 > |body|))
  {
    hide TypeOf, FromBigEndian16, Encoding, Decoding, ReadLenString, CheckVersion, ReadWill, ReadCredentials;
    var buf, start := Packet(header, body), [header] + Encoding(|body|);
    ReadLengthOfPacket(header, body, []);
    assert buf + [] == buf && buf == start + body;
    ReadWithin(start, body);
    var r := ReadLenString(buf, |start|, |buf|);
    if r.Parsed? {
      var p := r.value.1;
      if p < |buf| {
        assert buf[p] == body[p - |start|];
      }
      if p + 4 <= |buf| {
        PayloadWithin(buf, p + 4, buf[p + 1]);
      }
    }
  }

  /** A connect with an empty protocol name and nothing behind it. */
  lemma OverrunExample()
    ensures Parse([0x10, 2, 0, 0]).Overrun?
  {
    assert [0x10, 2, 0, 0] == Packet(0x10, [0, 0]);
    OverrunsExactly(0x10, [0, 0]);
  }

  lemma PayloadWithin(buf: seq<byte>, p: nat, flags: byte)
    requires p <= |buf|
    ensures var id := ReadLenString(buf, p, |buf|);
            && !id.Overrun?
            && (id.Parsed? ==>
                  var will := ReadWill(buf, id.value.1, flags);
                  && !will.Overrun?
                  && (will.Parsed? ==> !ReadCredentials(buf, will.value.1, flags).Overrun?))
  {
  }

  /** What is written: the length field holds the predicted length. */
  function Written(c: Connect): seq<byte> {
    [HeaderByte(CONNECT, 0, 0, 0)] + Encoding(ConnectLength(c)) + Body(c)
  }

  /** The bits of the connect flags (section 3.1.2.3). */
  lemma FlagBits(c: Connect)
    requires c.cleansession < 2 && (c.willFlag ==> 0 <= c.will.qos < 4 && c.will.retained < 2)
    ensures FlagsByte(c) == (if c.username.Present() then 0x80 else 0) + (if c.password.Present() then 0x40 else 0)
                            + (if c.willFlag then 0x20 * c.will.retained + 8 * c.will.qos + 4 else 0)
                            + 2 * c.cleansession
  {
    hide FlagsByte, Flags, UsernameOf, PasswordOf, WillRetainOf, WillQosOf, WillOf, CleanOf, MqttString.Present;
    var retain, qos: nat := if c.willFlag then c.will.retained else 0, if c.willFlag then c.will.qos else 0;
    FlagsOf(c, retain, qos);
    FlagsSum(Bit(c.username.Present()), Bit(c.password.Present()), retain, qos, Bit(c.willFlag), c.cleansession);
  }

  lemma FlagsOf(c: Connect, retain: nat, qos: nat)
    requires c.cleansession < 2 && retain < 2 && qos < 4
    requires if c.willFlag then retain == c.will.retained && qos == c.will.qos else retain == qos == 0
    ensures FlagsByte(c)
         == Flags(Bit(c.username.Present()), Bit(c.password.Present()), retain, qos, Bit(c.willFlag), c.cleansession)
  {
    hide Flags, UsernameOf, PasswordOf, WillRetainOf, WillQosOf, WillOf, CleanOf, MqttString.Present;
  }

  lemma FlagsSum(user: nat, pass: nat, retain: nat, qos: nat, will: nat, clean: nat)
    requires user < 2 && pass < 2 && retain < 2 && qos < 4 && will < 2 && clean < 2
    ensures Flags(user, pass, retain, qos, will, clean)
         == user * 0x80 + pass * 0x40 + retain * 0x20 + qos * 8 + will * 4 + clean * 2
  {
    hide UsernameOf, PasswordOf, WillRetainOf, WillQosOf, WillOf, CleanOf;
  }

  /** A connect is rejected with 0, whatever is wrong with it. */
  lemma RejectionCode(buf: seq<byte>)
    ensures Parse(buf).Rejected? ==> Parse(buf).rc == 0
  {
  }

  /** What a connect starts with (sections 3.1.1 and 3.1.2), for the two versions there are. */
  lemma HeaderLayout(c: Connect)
    requires c.version in {3, 4}
    ensures var name := if c.version == 4 then [0, 4, 0x4D, 0x51, 0x54, 0x54, 4]
                        else [0, 6, 0x4D, 0x51, 0x49, 0x73, 0x64, 0x70, 3];
            var body := name + [FlagsByte(c), c.keepAlive / 256, c.keepAlive % 256] + Utfs(Strings(c));
            && Written(c) == [0x10] + Encoding(ConnectLength(c)) + body
            && Wire(c) == [0x10] + Encoding(|body|) + body
  {
    hide HeaderByte, Encoding, FlagsByte, Utfs, Strings, ConnectLength;
    HeaderBits(CONNECT, 0, 0, 0);
    var name := if c.version == 4 then [0, 4, 0x4D, 0x51, 0x54, 0x54, 4]
                else [0, 6, 0x4D, 0x51, 0x49, 0x73, 0x64, 0x70, 3];
    assert VariableHeader(c) == name + [FlagsByte(c), c.keepAlive / 256, c.keepAlive % 256];
  }

  /** The fields of the payload and their order (section 3.1.3). */
  lemma PayloadLayout(c: Connect)
    ensures Utfs(Strings(c)) == Utfs([c.clientId])
                                + (if c.willFlag then Utfs([c.will.topic]) + Utfs([c.will.message]) else [])
                                + (if c.username.Present() then Utfs([c.username]) else [])
                                + (if c.password.Present() then Utfs([c.password]) else [])
  {
    hide WillStrings, Credentials, MqttString.Present, Utfs;
    UtfsConcat([c.clientId] + WillStrings(c), Credentials(c));
    UtfsConcat([c.clientId], WillStrings(c));
    WillLayout(c);
    CredentialsLayout(c);
    var user, pass := if c.username.Present() then Utfs([c.username]) else [],
                      if c.password.Present() then Utfs([c.password]) else [];
    assert Utfs([c.clientId]) + Utfs(WillStrings(c)) + (user + pass)
        == Utfs([c.clientId]) + Utfs(WillStrings(c)) + user + pass;
  }

  lemma WillLayout(c: Connect)
    ensures Utfs(WillStrings(c)) == if c.willFlag then Utfs([c.will.topic]) + Utfs([c.will.message]) else []
  {
    hide Utf;
    if c.willFlag {
      UtfsConcat([c.will.topic], [c.will.message]);
      assert WillStrings(c) == [c.will.topic] + [c.will.message];
    }
  }

  lemma CredentialsLayout(c: Connect)
    ensures Utfs(Credentials(c)) == (if c.username.Present() then Utfs([c.username]) else [])
                                    + (if c.password.Present() then Utfs([c.password]) else [])
  {
    hide Utfs, MqttString.Present;
    var u, p := if c.username.Present() then [c.username] else [], if c.password.Present() then [c.password] else [];
    UtfsConcat(u, p);
    FieldLayout(c.username);
  }

  /** A field is a string with its length before it, in sixteen bits. */
  lemma FieldLayout(s: MqttString)
    ensures Utfs([s]) == [|s.Content()| / 256 % 256, |s.Content()| % 256] + s.Content() && Utfs([]) == []
  {
    hide MqttString.Content;
    assert [s][1..] == [];
  }

  /** The packet stays within what MQTTPacket_len asks for exactly when its excess is not more than the slack there, and
      has its true length in it exactly when there is none, as for versions 3 and 4 with one form in use in every
      string. */
  lemma WrittenSize(c: Connect)
    ensures |Written(c)| == WireSize(ConnectLength(c)) + Excess(c)
    ensures ConnectLength(c) <= MAX_REMAINING_LENGTH ==>
              (|Written(c)| <= PacketLen(ConnectLength(c)) <==> Excess(c) <= Slack(ConnectLength(c)))
    ensures Written(c) == Wire(c) <==> Excess(c) == 0
    ensures Measured(c) ==> Excess(c) == if c.version in {3, 4} then 0 else 12
  {
    hide HeaderByte, Encoding, Body, ConnectLength, Excess, PacketLen, Slack;
    LengthIsExact(c);
    TrueLength(HeaderByte(CONNECT, 0, 0, 0), ConnectLength(c), Body(c));
  }

  /** A client id with both forms set that passes the size test for fifteen bytes and takes twenty. */
  lemma PastTheBufferExample(c: Connect)
    requires c == Plain(4, MqttString(Some([0x61]), Some([0x61, 0x62, 0x63, 0x64, 0x65, 0x66])))
    ensures PacketLen(ConnectLength(c)) <= 15 && |Written(c)| == 20
  {
    hide ConnectLength, Strings, Utfs, PayloadSize, Written, Body;
    PlainSizes(4, MqttString(Some([0x61]), Some([0x61, 0x62, 0x63, 0x64, 0x65, 0x66])));
    WrittenSize(c);
    SizeClasses(13);
  }

  /** A version that is not one, with nothing else wrong, that passes the size test for five bytes and takes sixteen. */
  lemma WrongVersionExample(c: Connect)
    requires c == Plain(5, MqttString(None, None))
    ensures PacketLen(ConnectLength(c)) <= 5 && |Written(c)| == 16
  {
    hide ConnectLength, Strings, Utfs, PayloadSize, Written, Body;
    PlainSizes(5, MqttString(None, None));
    WrittenSize(c);
    SizeClasses(2);
  }

  /** A connect with a client id and nothing else. */
  function Plain(version: byte, clientId: MqttString): Connect {
    var none := MqttString(None, None);
    Connect(version, clientId, 0, 0, false, Will(none, none, 0, 0), none, none)
  }

  lemma PlainSizes(version: byte, clientId: MqttString)
    ensures var c := Plain(version, clientId);
            && Strings(c) == [clientId]
            && |Utfs(Strings(c))| == 2 + |clientId.Content()|
            && PayloadSize(Strings(c)) == 2 + clientId.Strlen()
            && ConnectLength(c)
               == (if version == 3 then 12 else if version == 4 then 10 else 0) + clientId.Strlen() + 2
  {
    hide MqttString.Content, MqttString.Strlen;
    assert [clientId][1..] == [];
  }

  /** MQTTSerialize_connect, with memory behind the buffer for what it writes past it. */
  method Serialize(buf: array<byte>, buflen: nat, c: Connect) returns (rc: int)
    requires buflen <= buf.Length
    requires PacketLen(ConnectLength(c)) <= buflen ==> |Written(c)| <= buf.Length
    modifies buf
    ensures PacketLen(ConnectLength(c)) > buflen ==> rc == MQTTPACKET_BUFFER_TOO_SHORT && buf[..] == old(buf[..])
    ensures PacketLen(ConnectLength(c)) <= buflen ==>
              && rc == |Written(c)| && buf[..rc] == Written(c)
              && forall i :: rc <= i < buf.Length ==> buf[i] == old(buf[i])
    ensures rc > 0 && Measured(c) && c.version in {3, 4} && ConnectLength(c) <= MAX_REMAINING_LENGTH ==>
              rc <= buflen && buf[..rc] == Wire(c)
  {
    hide HeaderByte, FlagsByte, BigEndian16, MqttString.Content, Utfs, Utf, Encoding, VariableHeader, Strings,
         ConnectLength, Measured;
    if Measured(c) {
      WrittenSize(c);
    }
    Sizes(c);
    PayloadParts(c);
    var len := ConnectLength(c);
    if PacketLen(len) > buflen {
      return MQTTPACKET_BUFFER_TOO_SHORT;
    }
    var ptr := WriteFixedHeader(buf, HeaderByte(CONNECT, 0, 0, 0), len);
    ghost var start := buf[..ptr];
    ptr := WriteVariableHeader(buf, ptr, c);
    ptr := WriteMqttString(buf, ptr, c.clientId);
    ptr := WriteWill(buf, ptr, c);
    ptr := WriteCredentials(buf, ptr, c);
    assert buf[..ptr] == start + Body(c);
    return ptr;
  }

  method WriteVariableHeader(buf: array<byte>, start: nat, c: Connect) returns (ptr: nat)
    requires start + HeaderSize(c) <= buf.Length
    modifies buf
    ensures ptr == start + HeaderSize(c)
    ensures buf[..ptr] == old(buf[..start]) + VariableHeader(c)
    ensures forall i :: ptr <= i < buf.Length ==> buf[i] == old(buf[i])
  {
    hide FlagsByte, BigEndian16;
    if c.version == 4 {
      ptr := WriteInt(buf, start, 4);
      ptr := WriteBytes(buf, ptr, MQTT);
      ptr := WriteChar(buf, ptr, 4);
    } else {
      ptr := WriteInt(buf, start, 6);
      ptr := WriteBytes(buf, ptr, MQISDP);
      ptr := WriteChar(buf, ptr, 3);
    }
    ptr := WriteChar(buf, ptr, FlagsByte(c));
    ptr := WriteInt(buf, ptr, c.keepAlive);
  }

  method WriteWill(buf: array<byte>, start: nat, c: Connect) returns (ptr: nat)
    requires start + |Utfs(WillStrings(c))| <= buf.Length
    modifies buf
    ensures ptr == start + |Utfs(WillStrings(c))|
    ensures buf[..ptr] == old(buf[..start]) + Utfs(WillStrings(c))
    ensures forall i :: ptr <= i < buf.Length ==> buf[i] == old(buf[i])
  {
    hide BigEndian16, MqttString.Content, Utf;
    UnfoldParts(c);
    ptr := start;
    if c.willFlag {
      ptr := WriteMqttString(buf, ptr, c.will.topic);
      ptr := WriteMqttString(buf, ptr, c.will.message);
    }
  }

  method WriteCredentials(buf: array<byte>, start: nat, c: Connect) returns (ptr: nat)
    requires start + |Utfs(Credentials(c))| <= buf.Length
    modifies buf
    ensures ptr == start + |Utfs(Credentials(c))|
    ensures buf[..ptr] == old(buf[..start]) + Utfs(Credentials(c))
    ensures forall i :: ptr <= i < buf.Length ==> buf[i] == old(buf[i])
  {
    hide BigEndian16, MqttString.Content, Utf;
    UnfoldParts(c);
    ptr := start;
    if c.username.Present() {
      ptr := WriteMqttString(buf, ptr, c.username);
    }
    if c.password.Present() {
      ptr := WriteMqttString(buf, ptr, c.password);
    }
  }

  lemma UnfoldParts(c: Connect)
    ensures Utfs(WillStrings(c))
            == if c.willFlag then Utf(c.will.topic.Content()) + Utf(c.will.message.Content()) else []
    ensures Utfs(Credentials(c))
            == (if c.username.Present() then Utf(c.username.Content()) else [])
               + (if c.password.Present() then Utf(c.password.Content()) else [])
  {
    hide Utf, MqttString.Content;
    UtfsConcat([c.will.topic], [c.will.message]);
    assert [c.will.topic] + [c.will.message] == [c.will.topic, c.will.message];
    UtfsConcat(if c.username.Present() then [c.username] else [], if c.password.Present() then [c.password] else []);
  }

  /** MQTTDeserialize_connect. */
  method Deserialize(buf: seq<byte>) returns (r: Parsed<Received>)
    ensures r == Parse(buf)
  {
    hide ReadByte, ReadLenString, ReadLength, ReadCredential, CheckVersion;
    var header :- ReadByte(buf, 0);
    if TypeOf(header) != CONNECT {
      return Rejected(0);
    }
    var length :- ReadLength(buf, 1);
    var curdata := 1 + length.0;
    var protocol :- ReadLenString(buf, curdata, |buf|);
    curdata := protocol.1;
    var version :- ReadByte(buf, curdata);
    if !CheckVersion(protocol.0, version) {
      return Rejected(0);
    }
    var flags :- ReadByte(buf, curdata + 1);
    var keepAlive :- ReadInt(buf, curdata + 2);
    var clientId :- ReadLenString(buf, curdata + 4, |buf|);
    curdata := clientId.1;
    var will := None;
    if WillOf(flags) {
      var topic :- ReadLenString(buf, curdata, |buf|);
      var message :- ReadLenString(buf, topic.1, |buf|);
      will := Some(ReceivedWill(topic.0, message.0, WillQosOf(flags), WillRetainOf(flags)));
      curdata := message.1;
    }
    var username, password := None, None;
    if UsernameOf(flags) {
      var user :- ReadCredential(buf, curdata);
      username, curdata := Some(user.0), user.1;
      if PasswordOf(flags) {
        var pass :- ReadCredential(buf, curdata);
        password := Some(pass.0);
      }
    } else if PasswordOf(flags) {
      return Rejected(0);
    }
    return Parsed(Received(CleanOf(flags), keepAlive, clientId.0, will, username, password));
  }
}
