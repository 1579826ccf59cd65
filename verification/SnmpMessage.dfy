/** An SNMPv2c message as a value, its octets, and the two ways it is read: the
    agent's request parser (lib/snmp/snmp_agent.c) and a full reader that also
    keeps the values. */
module SnmpMessage {
  import opened Common
  import opened BerSpec

  const VERSION_2C: int32 := 1

  const PDU_GET: byte := 0xA0
  const PDU_GETNEXT: byte := 0xA1
  const PDU_RESPONSE: byte := 0xA2
  const PDU_SET: byte := 0xA3
  const PDU_GETBULK: byte := 0xA5

  /** A primitive value, or an exception (no content). */
  datatype Value = Value(tag: byte, content: Bytes)

  datatype VarBind = VarBind(name: Oid, value: Value)

  /** f2 and f3 are error-status and error-index, or non-repeaters and
      max-repetitions in a GETBULK. */
  datatype Message = Message(
    community: Bytes, pdu: byte, requestId: int32, f2: int32, f3: int32, vbs: seq<VarBind>)

  // ----- octets of a message (section 3 of RFC 3416) -----

  function ValueTlv(v: Value): Bytes { Tlv(v.tag, v.content) }

  function VarBindTlv(vb: VarBind): Bytes {
    Tlv(TAG_SEQUENCE, OidTlv(vb.name) + ValueTlv(vb.value))
  }

  function VarBindTlvs(vbs: seq<VarBind>): Bytes {
    if vbs == [] then [] else VarBindTlv(vbs[0]) + VarBindTlvs(vbs[1..])
  }

  function PduOctets(m: Message): Bytes {
    IntTlv(m.requestId)
    + (IntTlv(m.f2) + (IntTlv(m.f3) + Tlv(TAG_SEQUENCE, VarBindTlvs(m.vbs))))
  }

  function MessageOctets(m: Message): Bytes {
    IntTlv(VERSION_2C) + (Tlv(TAG_OCTET_STR, m.community) + Tlv(m.pdu, PduOctets(m)))
  }

  function Encode(m: Message): (r: Bytes)
    ensures r != []
  {
    Tlv(TAG_SEQUENCE, MessageOctets(m))
  }

  // ----- the agent's request parser -----

  datatype Request = Request(
    pdu: byte, requestId: int32, f2: int32, f3: int32, names: seq<Oid>, tooMany: bool)

  datatype NameList = NameList(names: seq<Oid>, tooMany: bool)

  /** The requested names, up to max; true when the list goes on. */
  function ReadNames(s: Bytes, max: nat): Option<NameList>
    decreases |s|
  {
    if s == [] then Some(NameList([], false))
    else
      var vb :- ReadTagged(s, TAG_SEQUENCE);
      if max == 0 then Some(NameList([], true))
      else
        var (name, _) :- ReadOid(vb.content);
        ReadTaggedShrinks(s, TAG_SEQUENCE);
        var more :- ReadNames(vb.rest, max - 1);
        Some(NameList([name] + more.names, more.tooMany))
  }

  lemma ReadTaggedShrinks(s: Bytes, tag: byte)
    ensures ReadTagged(s, tag).Some? ==> |ReadTagged(s, tag).value.rest| < |s|
  {
  }

  /** A v2c message up to its community. */
  function OpenMessage(s: Bytes): Option<Bytes> {
    var top :- ReadTagged(s, TAG_SEQUENCE);
    var (version, rest) :- ReadInt(top.content);
    if version != VERSION_2C then None else Some(rest)
  }

  /** The PDU behind the wanted community. */
  function PassCommunity(s: Bytes, want: Bytes): Option<TlvRead> {
    var community :- ReadTagged(s, TAG_OCTET_STR);
    if community.content != want then None else ReadTlv(community.rest)
  }

  /** What the parser keeps of a datagram; None is a silent drop. */
  function ParseRequest(s: Bytes, want: Bytes, max: nat): Option<Request> {
    var rest :- OpenMessage(s);
    var pdu :- PassCommunity(rest, want);
    ParsePdu(pdu.tag, pdu.content, max)
  }

  function ParsePdu(tag: byte, s: Bytes, max: nat): Option<Request> {
    var (requestId, s1) :- ReadInt(s);
    var (f2, s2) :- ReadInt(s1);
    var (f3, s3) :- ReadInt(s2);
    var vbl :- ReadTagged(s3, TAG_SEQUENCE);
    var list :- ReadNames(vbl.content, max);
    if list.names == [] then None
    else Some(Request(tag, requestId, f2, f3, list.names, list.tooMany))
  }

  // ----- a full reader -----

  function ReadVarBinds(s: Bytes): Option<seq<VarBind>>
    decreases |s|
  {
    if s == [] then Some([])
    else
      var vb :- ReadTagged(s, TAG_SEQUENCE);
      var (name, afterName) :- ReadOid(vb.content);
      var value :- ReadTlv(afterName);
      if value.rest != [] then None
      else
        ReadTaggedShrinks(s, TAG_SEQUENCE);
        var more :- ReadVarBinds(vb.rest);
        Some([VarBind(name, Value(value.tag, value.content))] + more)
  }

  function Decode(s: Bytes): Option<Message> {
    var top :- ReadTagged(s, TAG_SEQUENCE);
    var (version, afterVersion) :- ReadInt(top.content);
    var community :- ReadTagged(afterVersion, TAG_OCTET_STR);
    var pdu :- ReadTlv(community.rest);
    if version != VERSION_2C || top.rest != [] || pdu.rest != [] then None
    else DecodePdu(community.content, pdu.tag, pdu.content)
  }

  function DecodePdu(community: Bytes, tag: byte, s: Bytes): Option<Message> {
    var (requestId, s1) :- ReadInt(s);
    var (f2, s2) :- ReadInt(s1);
    var (f3, s3) :- ReadInt(s2);
    var vbl :- ReadTagged(s3, TAG_SEQUENCE);
    var vbs :- ReadVarBinds(vbl.content);
    if vbl.rest != [] then None else Some(Message(community, tag, requestId, f2, f3, vbs))
  }

  // ----- round trips -----

  function Names(vbs: seq<VarBind>): (names: seq<Oid>)
    ensures |names| == |vbs|
    ensures forall i :: 0 <= i < |vbs| ==> names[i] == vbs[i].name
  {
    if vbs == [] then [] else [vbs[0].name] + Names(vbs[1..])
  }

  predicate AllEncodable(vbs: seq<VarBind>) {
    vbs == [] || (Encodable(vbs[0].name) && AllEncodable(vbs[1..]))
  }

  lemma {:induction false} AllEncodableMeans(vbs: seq<VarBind>)
    ensures AllEncodable(vbs) <==> forall i :: 0 <= i < |vbs| ==> Encodable(vbs[i].name)
  {
    if vbs != [] {
      AllEncodableMeans(vbs[1..]);
      assert forall i :: 1 <= i < |vbs| ==> vbs[i] == vbs[1..][i - 1];
    }
  }

  lemma VarBindContent(vb: VarBind)
    requires |VarBindTlv(vb)| < TWO_32
    ensures ReadTlv(VarBindTlv(vb)).Some?
    ensures ReadTlvOfVarBind(vb)
  {
    ReadTlvAlone(TAG_SEQUENCE, OidTlv(vb.name) + ValueTlv(vb.value));
    ReadTlvOfTlv(TAG_OID, OidOctets(vb.name), ValueTlv(vb.value));
    ReadTlvAlone(vb.value.tag, vb.value.content);
  }

  /** Inside a varbind: the name's TLV, then the value's. */
  ghost predicate ReadTlvOfVarBind(vb: VarBind) {
    var content := OidTlv(vb.name) + ValueTlv(vb.value);
    && ReadTlv(content) == Some(TlvRead(TAG_OID, OidOctets(vb.name), ValueTlv(vb.value)))
    && ReadTlv(ValueTlv(vb.value)) == Some(TlvRead(vb.value.tag, vb.value.content, []))
  }

  lemma ReadFirstVarBind(vb: VarBind, rest: Bytes)
    requires |VarBindTlv(vb)| < TWO_32
    ensures ReadTlv(VarBindTlv(vb) + rest)
         == Some(TlvRead(TAG_SEQUENCE, OidTlv(vb.name) + ValueTlv(vb.value), rest))
    ensures ReadTlvOfVarBind(vb)
  {
    VarBindContent(vb);
    ReadTlvOfTlv(TAG_SEQUENCE, OidTlv(vb.name) + ValueTlv(vb.value), rest);
  }

  lemma {:induction false} ReadNamesOfVarBinds(vbs: seq<VarBind>, max: nat)
    requires |VarBindTlvs(vbs)| < TWO_32 && AllEncodable(vbs)
    ensures ReadNames(VarBindTlvs(vbs), max) == Some(NameList(Take(Names(vbs), max), |vbs| > max))
  {
    hide Tlv;
    if vbs == [] {
      ReadNamesNil(vbs, max);
    } else {
      VarBindTlvsLonger(vbs);
      if max > 0 { ReadNamesOfVarBinds(vbs[1..], max - 1); }
      ReadNamesCons(vbs, max);
    }
  }

  lemma VarBindTlvsLonger(vbs: seq<VarBind>)
    requires vbs != []
    ensures |VarBindTlvs(vbs)| == |VarBindTlv(vbs[0])| + |VarBindTlvs(vbs[1..])|
  {
  }

  lemma ReadNamesNil(vbs: seq<VarBind>, max: nat)
    requires vbs == []
    ensures ReadNames(VarBindTlvs(vbs), max) == Some(NameList(Take(Names(vbs), max), |vbs| > max))
  {
    var octets, names := VarBindTlvs(vbs), Names(vbs);
    assert octets == [] && names == [];
  }

  lemma ReadNamesCons(vbs: seq<VarBind>, max: nat)
    requires vbs != [] && |VarBindTlv(vbs[0])| < TWO_32 && AllEncodable(vbs)
    requires max > 0 ==>
        ReadNames(VarBindTlvs(vbs[1..]), max - 1)
        == Some(NameList(Take(Names(vbs[1..]), max - 1), |vbs| > max))
    ensures ReadNames(VarBindTlvs(vbs), max) == Some(NameList(Take(Names(vbs), max), |vbs| > max))
  {
    OidRoundTrip(vbs[0].name);
    ReadNamesStep(vbs[0], VarBindTlvs(vbs[1..]), max);
    if max > 0 { TakeCons(vbs[0].name, Names(vbs[1..]), max); }
  }

  lemma TakeCons<T>(x: T, s: seq<T>, max: nat)
    requires max > 0
    ensures Take([x] + s, max) == [x] + Take(s, max - 1)
  {
  }

  /** The parser on a list whose first varbind is vb. */
  lemma ReadNamesStep(vb: VarBind, rest: Bytes, max: nat)
    requires |VarBindTlv(vb)| < TWO_32
    ensures var name := ReadOidOctets(OidOctets(vb.name), MAX_OID_LEN);
      var more := ReadNames(rest, if max == 0 then 0 else max - 1);
      ReadNames(VarBindTlv(vb) + rest, max)
        == if max == 0 then Some(NameList([], true))
           else if name.Some? && more.Some?
           then Some(NameList([name.value] + more.value.names, more.value.tooMany))
           else None
  {
    ReadFirstVarBind(vb, rest);
  }

  /** The three integers and the list of a PDU, whatever is in the list. */
  lemma ReadPduOctets(m: Message)
    requires |PduOctets(m)| < TWO_32
    ensures var s1 := IntTlv(m.f2) + (IntTlv(m.f3) + Tlv(TAG_SEQUENCE, VarBindTlvs(m.vbs)));
      var s2 := IntTlv(m.f3) + Tlv(TAG_SEQUENCE, VarBindTlvs(m.vbs));
      var s3 := Tlv(TAG_SEQUENCE, VarBindTlvs(m.vbs));
      && ReadInt(PduOctets(m)) == Some((m.requestId, s1))
      && ReadInt(s1) == Some((m.f2, s2))
      && ReadInt(s2) == Some((m.f3, s3))
      && ReadTlv(s3) == Some(TlvRead(TAG_SEQUENCE, VarBindTlvs(m.vbs), []))
  {
    var s3 := Tlv(TAG_SEQUENCE, VarBindTlvs(m.vbs));
    var s2 := IntTlv(m.f3) + s3;
    ReadIntOfIntTlv(m.requestId, IntTlv(m.f2) + s2);
    ReadIntOfIntTlv(m.f2, s2);
    ReadIntOfIntTlv(m.f3, s3);
    ReadTlvAlone(TAG_SEQUENCE, VarBindTlvs(m.vbs));
  }

  /** The outer levels: version, community, PDU. */
  lemma ReadMessageOctets(m: Message)
    requires |Encode(m)| < TWO_32
    ensures var afterVersion := Tlv(TAG_OCTET_STR, m.community) + Tlv(m.pdu, PduOctets(m));
      && ReadTlv(Encode(m)) == Some(TlvRead(TAG_SEQUENCE, MessageOctets(m), []))
      && ReadInt(MessageOctets(m)) == Some((VERSION_2C, afterVersion))
      && ReadTlv(afterVersion)
         == Some(TlvRead(TAG_OCTET_STR, m.community, Tlv(m.pdu, PduOctets(m))))
      && ReadTlv(Tlv(m.pdu, PduOctets(m))) == Some(TlvRead(m.pdu, PduOctets(m), []))
  {
    var pdu := Tlv(m.pdu, PduOctets(m));
    ReadTlvAlone(TAG_SEQUENCE, MessageOctets(m));
    ReadIntOfIntTlv(VERSION_2C, Tlv(TAG_OCTET_STR, m.community) + pdu);
    ReadTlvOfTlv(TAG_OCTET_STR, m.community, pdu);
    ReadTlvAlone(m.pdu, PduOctets(m));
  }

  /** Whole-message round trip through the request parser: every field and every
      name in order, with the list cut at the parser's capacity. */
  lemma ParseOfEncode(m: Message, max: nat)
    requires |Encode(m)| < TWO_32 && AllEncodable(m.vbs)
    requires m.vbs != [] && max > 0
    ensures ParseRequest(Encode(m), m.community, max)
         == Some(Request(m.pdu, m.requestId, m.f2, m.f3, Take(Names(m.vbs), max), |m.vbs| > max))
  {
    ReadMessageOctets(m);
    ReadPduOctets(m);
    ReadNamesOfVarBinds(m.vbs, max);
    assert ParsePdu(m.pdu, PduOctets(m), max).Some?;
  }

  lemma {:induction false} ReadVarBindsOfVarBinds(vbs: seq<VarBind>)
    requires |VarBindTlvs(vbs)| < TWO_32
    ensures ReadVarBinds(VarBindTlvs(vbs)) == Some(vbs) <==> AllEncodable(vbs)
  {
    if vbs != [] {
      OidRoundTrip(vbs[0].name);
      ReadVarBindsStep(vbs[0], VarBindTlvs(vbs[1..]));
      ReadVarBindsOfVarBinds(vbs[1..]);
      ConsEqual(vbs);
    }
  }

  /** A list read as a head and a tail is this list exactly when both agree. */
  lemma ConsEqual(vbs: seq<VarBind>)
    requires vbs != []
    ensures forall h, t :: [h] + t == vbs <==> h == vbs[0] && t == vbs[1..]
  {
    forall h, t
      ensures [h] + t == vbs <==> h == vbs[0] && t == vbs[1..]
    {
      assert ([h] + t)[0] == h && ([h] + t)[1..] == t;
      assert vbs == [vbs[0]] + vbs[1..];
    }
  }

  /** The reader on a list whose first varbind is vb. */
  lemma ReadVarBindsStep(vb: VarBind, rest: Bytes)
    requires |VarBindTlv(vb)| < TWO_32
    ensures var name := ReadOidOctets(OidOctets(vb.name), MAX_OID_LEN);
      ReadVarBinds(VarBindTlv(vb) + rest)
        == if name.Some? && ReadVarBinds(rest).Some?
           then Some([VarBind(name.value, vb.value)] + ReadVarBinds(rest).value)
           else None
  {
    ReadFirstVarBind(vb, rest);
  }

  /** A message comes back whole exactly when all its names are encodable. */
  lemma DecodeOfEncode(m: Message)
    requires |Encode(m)| < TWO_32
    ensures Decode(Encode(m)) == Some(m) <==> AllEncodable(m.vbs)
  {
    ReadMessageOctets(m);
    DecodeOfPduOctets(m);
    ReadVarBindsOfVarBinds(m.vbs);
  }

  /** Another community, an empty list or another version is no request. */
  lemma ParseRefuses(m: Message, want: Bytes, max: nat)
    requires |Encode(m)| < TWO_32 && (m.community != want || m.vbs == [])
    ensures ParseRequest(Encode(m), want, max) == None
  {
    ReadMessageOctets(m);
    ReadPduOctets(m);
    if m.vbs == [] { ReadNamesNil(m.vbs, max); }
  }

  lemma OtherVersion(version: int32, body: Bytes, want: Bytes, max: nat)
    requires version != 1 && |Tlv(TAG_SEQUENCE, IntTlv(version) + body)| < TWO_32
    ensures ParseRequest(Tlv(TAG_SEQUENCE, IntTlv(version) + body), want, max) == None
  {
    hide Tlv, IntTlv;
    ReadTlvAlone(TAG_SEQUENCE, IntTlv(version) + body);
    ReadIntOfIntTlv(version, body);
  }

  /** The octets of a small message, and what the agent's parser takes from them: the
      request id, then non-repeaters or error-status, then the third integer. */
  lemma WireSample()
    ensures var octets: Bytes := [0x30, 0x1C, 0x02, 0x01, 0x01, 0x04, 0x01, 0x70, 0xA5, 0x14, 0x02, 0x01, 0x07,
                                  0x02, 0x01, 0x01, 0x02, 0x01, 0x02, 0x30, 0x09, 0x30, 0x07,
                                  0x06, 0x03, 0x2B, 0x06, 0x01, 0x05, 0x00];
      && Encode(Message([0x70], 0xA5, 7, 1, 2, [VarBind([1, 3, 6, 1], Value(0x05, []))])) == octets
      && ParseRequest(octets, [0x70], 8) == Some(Request(0xA5, 7, 1, 2, [[1, 3, 6, 1]], false))
  {
    hide Tlv, ParseRequest, Encodable, PduOctets, MessageOctets;
    var m := Message([0x70], 0xA5, 7, 1, 2, [VarBind([1, 3, 6, 1], Value(0x05, []))]);
    SampleMessage(m);
    SampleName();
    ShortTlv(0x30, [0x02, 0x01, 0x01, 0x04, 0x01, 0x70] + ([0xA5, 0x14] + SamplePdu()));
    SampleOctets();
    SampleParses(m, [1, 3, 6, 1]);
    hide *;
  }

  lemma SampleOctets()
    ensures var message: Bytes := [0x02, 0x01, 0x01, 0x04, 0x01, 0x70] + ([0xA5, 0x14] + SamplePdu());
      [0x30, |message|] + message
      == [0x30, 0x1C, 0x02, 0x01, 0x01, 0x04, 0x01, 0x70, 0xA5, 0x14, 0x02, 0x01, 0x07,
          0x02, 0x01, 0x01, 0x02, 0x01, 0x02, 0x30, 0x09, 0x30, 0x07,
          0x06, 0x03, 0x2B, 0x06, 0x01, 0x05, 0x00]
  {
  }

  function SampleList(): Bytes { [0x30, 0x07, 0x06, 0x03, 0x2B, 0x06, 0x01, 0x05, 0x00] }

  function SamplePdu(): Bytes { [0x02, 0x01, 0x07, 0x02, 0x01, 0x01, 0x02, 0x01, 0x02] + ([0x30, 0x09] + SampleList()) }

  lemma SampleVarBind(vb: VarBind)
    requires vb == VarBind([1, 3, 6, 1], Value(0x05, []))
    ensures VarBindTlv(vb) == SampleList()
  {
    hide Tlv, OidOctets;
    SampleName();
    ShortTlv(0x06, [0x2B, 0x06, 0x01]);
    ShortTlv(0x05, []);
    var c: Bytes := [0x06, 0x03, 0x2B, 0x06, 0x01, 0x05, 0x00];
    ShortTlv(0x30, c);
    assert OidTlv(vb.name) == [0x06, 0x03, 0x2B, 0x06, 0x01] && ValueTlv(vb.value) == [0x05, 0x00];
    assert OidTlv(vb.name) + ValueTlv(vb.value) == c;
  }

  lemma SamplePduIs(m: Message)
    requires m == Message([0x70], 0xA5, 7, 1, 2, [VarBind([1, 3, 6, 1], Value(0x05, []))])
    ensures PduOctets(m) == SamplePdu()
  {
    hide Tlv, IntOctets, VarBindTlv, IntTlv;
    SampleVarBind(m.vbs[0]);
    SmallInts();
    assert m.vbs[1..] == [];
    assert VarBindTlvs(m.vbs) == VarBindTlv(m.vbs[0]) + VarBindTlvs([]) == SampleList();
    ShortTlv(0x30, SampleList());
  }

  lemma SampleMessage(m: Message)
    requires m == Message([0x70], 0xA5, 7, 1, 2, [VarBind([1, 3, 6, 1], Value(0x05, []))])
    ensures MessageOctets(m) == [0x02, 0x01, 0x01, 0x04, 0x01, 0x70] + ([0xA5, 0x14] + SamplePdu())
    ensures Encode(m) == Tlv(0x30, MessageOctets(m))
  {
    hide Tlv, IntOctets, IntTlv, PduOctets;
    SamplePduIs(m);
    SmallInts();
    ShortTlv(0xA5, SamplePdu());
    ShortTlv(0x04, [0x70]);
  }

  lemma SampleParses(m: Message, name: Oid)
    requires |Encode(m)| < TWO_32 && |m.vbs| == 1 && m.vbs[0].name == name && Encodable(name)
    ensures ParseRequest(Encode(m), m.community, 8) == Some(Request(m.pdu, m.requestId, m.f2, m.f3, [name], false))
  {
    hide Encode, ParseRequest, Encodable;
    assert m.vbs[1..] == [];
    assert AllEncodable(m.vbs) by { assert AllEncodable(m.vbs[1..]); }
    assert Names(m.vbs) == [name];
    ParseOfEncode(m, 8);
  }

  lemma ShortTlv(tag: byte, c: Bytes)
    requires |c| < 0x80
    ensures Tlv(tag, c) == [tag, |c|] + c
  {
  }

  lemma SmallInts()
    ensures IntTlv(1) == [0x02, 0x01, 0x01] && IntTlv(2) == [0x02, 0x01, 0x02] && IntTlv(7) == [0x02, 0x01, 0x07]
  {
    assert IntOctets(1) == [1] && IntOctets(2) == [2] && IntOctets(7) == [7];
    hide IntOctets;
    ShortTlv(0x02, [1]);
    ShortTlv(0x02, [2]);
    ShortTlv(0x02, [7]);
  }

  lemma SampleName()
    ensures Encodable([1, 3, 6, 1]) && OidOctets([1, 3, 6, 1]) == [0x2B, 0x06, 0x01]
  {
    var oid: Oid := [1, 3, 6, 1];
    var rest: Oid := [6, 1];
    assert oid[2..] == rest && rest[1..] == [1] && rest[1..][1..] == [];
    assert FirstSubId(oid) == 43 && SubId(43) == [0x2B] && SubId(6) == [0x06] && SubId(1) == [0x01];
    var one: Oid := [1];
    assert SubIds(one) == SubId(1) + SubIds([]) == [0x01];
    assert SubIds(rest) == SubId(6) + SubIds(one);
  }

  lemma DecodeOfPduOctets(m: Message)
    requires |PduOctets(m)| < TWO_32
    ensures var vbs := ReadVarBinds(VarBindTlvs(m.vbs));
      DecodePdu(m.community, m.pdu, PduOctets(m)) == if vbs.None? then None else Some(m.(vbs := vbs.value))
  {
    ReadPduOctets(m);
  }
}
