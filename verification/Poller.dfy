/** The soak poller's own BER (scripts/soak/poll.py): a second encoder and
    decoder, written independently of the agent, and the proof that the two ends
    agree. */
module Poller {
  import opened Common
  import opened BerSpec
  import opened Mib
  import opened SnmpMessage
  import opened SnmpValues
  import opened SnmpAgent

  const SYS_UPTIME: Oid := [1, 3, 6, 1, 2, 1, 1, 3, 0]

  // ----- encoder -----

  /** int.bit_length() of a non-negative number. */
  function BitLength(n: nat): nat { if n == 0 then 0 else 1 + BitLength(n / 2) }

  /** int.to_bytes(k, "big") of a non-negative number that fits. */
  function ToBytes(n: nat, k: nat): Bytes {
    if k == 0 then [] else ToBytes(n / 256, k - 1) + [n % 256]
  }

  function PyLen(n: nat): Bytes {
    if n < 0x80 then [n]
    else
      var b := ToBytes(n, (BitLength(n) + 7) / 8);
      [(0x80 + |b|) % 256] + b
  }

  function PyTlv(tag: byte, value: Bytes): Bytes { [tag] + PyLen(|value|) + value }

  /** _int for the non-negative numbers the poller sends. */
  function PyInt(v: nat): Bytes {
    var k := (BitLength(v) + 8) / 8;
    PyTlv(0x02, ToBytes(v, if k > 1 then k else 1))
  }

  /** The 7-bit groups of a sub-identifier, inserted at the front one by one. */
  method PySubId(part: uint32) returns (enc: Bytes)
    ensures enc == SubId(part)
  {
    enc := [part % 128];
    var p: nat := part / 128;
    while p > 0
      invariant HighGroups(part / 128) + [part % 128] == HighGroups(p) + enc
      decreases p
    {
      ghost var before := enc;
      enc := [p % 128 + 0x80] + enc;
      assert HighGroups(p / 128) + enc == HighGroups(p / 128) + [p % 128 + 0x80] + before;
      p := p / 128;
    }
  }

  /** What _oid makes of a name: one octet for the first two arcs. None is the
      IndexError of fewer than two arcs, or the ValueError of an octet above 255. */
  function PyOidOctets(parts: Oid): Option<Bytes> {
    if |parts| < 2 || parts[0] as int * 40 + parts[1] as int >= 0x100 then None
    else Some([parts[0] as int * 40 + parts[1] as int] + SubIds(parts[2..]))
  }

  method PyOid(parts: Oid) returns (r: Option<Bytes>)
    ensures r == match PyOidOctets(parts) case None => None case Some(o) => Some(PyTlv(0x06, o))
  {
    if |parts| < 2 { return None; }
    var first := parts[0] as int * 40 + parts[1] as int;
    if first >= 0x100 { return None; }
    var body: Bytes := [first];
    var i := 2;
    assert parts[2..2] == [];
    while i < |parts|
      invariant 2 <= i <= |parts|
      invariant body == [first] + SubIds(parts[2..i])
    {
      var enc := PySubId(parts[i]);
      SubIdsSnoc(parts[2..i], parts[i]);
      assert parts[2..i] + [parts[i]] == parts[2..i + 1];
      body := body + enc;
      i := i + 1;
    }
    assert parts[2..|parts|] == parts[2..];
    r := Some(PyTlv(0x06, body));
  }

  /** Both sides write the same name exactly when one octet can hold its first two
      arcs with the high bit clear. */
  lemma OidOctetsAgree(oid: Oid)
    ensures PyOidOctets(oid) == Some(OidOctets(oid))
       <==> |oid| >= 2 && oid[0] as int * 40 + oid[1] as int < 128
  {
    if |oid| >= 2 && oid[0] as int * 40 + oid[1] as int < 0x100 {
      var first: nat := oid[0] as int * 40 + oid[1] as int;
      assert FirstSubId(oid) == first;
      if first < 128 {
        assert SubId(first) == [first];
      } else {
        assert |HighGroups(first / 128)| > 0 by { HighGroupsContinue(first / 128); }
        assert |SubId(first)| >= 2;
        assert |OidOctets(oid)| == |SubId(first)| + |SubIds(oid[2..])|;
        assert |PyOidOctets(oid).value| == 1 + |SubIds(oid[2..])|;
      }
    }
  }

  lemma {:induction false} SubIdsSnoc(arcs: Oid, v: uint32)
    ensures SubIds(arcs + [v]) == SubIds(arcs) + SubId(v)
  {
    if arcs == [] {
      var one: Oid := [v];
      assert arcs + one == one && one[1..] == [];
      assert SubIds(one) == SubId(v) + SubIds([]);
    } else {
      assert (arcs + [v])[1..] == arcs[1..] + [v];
      SubIdsSnoc(arcs[1..], v);
    }
  }

  /** snmp_get_request; None when _oid raises. */
  function PyGetRequest(community: Bytes, reqId: nat, oid: Oid): Option<Bytes> {
    var octets :- PyOidOctets(oid);
    var varbind := PyTlv(0x30, PyTlv(0x06, octets) + [0x05, 0x00]);
    var pdu := PyTlv(0xA0, PyInt(reqId) + PyInt(0) + PyInt(0) + PyTlv(0x30, varbind));
    Some(PyTlv(0x30, PyInt(1) + PyTlv(0x04, community) + pdu))
  }

  // ----- the two encoders write the same octets -----

  lemma {:induction false} BitLengthBytes(n: nat, k: nat)
    requires k > 0
    ensures (BitLength(n) + 7) / 8 == k <==> n != 0 && |Digits(n)| == k
    decreases n
  {
    if n != 0 {
      BitLengthShift8(n);
      if n < 256 {
        assert Digits(n) == [n];
      } else if k > 1 {
        BitLengthBytes(n / 256, k - 1);
      } else {
        assert Digits(n / 256) != [];
      }
    }
  }

  lemma BitLengthShift8(n: nat)
    requires n != 0
    ensures n >= 256 ==> BitLength(n) == BitLength(n / 256) + 8
    ensures n < 256 ==> 1 <= BitLength(n) <= 8
    ensures n < 128 ==> BitLength(n) <= 7
    ensures 128 <= n < 256 ==> BitLength(n) == 8
  {
    var a := n / 2; var b := a / 2; var c := b / 2; var d := c / 2;
    var e := d / 2; var f := e / 2; var g := f / 2; var h := g / 2;
    assert h == n / 256;
    assert BitLength(n) == 1 + BitLength(a);
    if a != 0 { assert BitLength(a) == 1 + BitLength(b); }
    if b != 0 { assert BitLength(b) == 1 + BitLength(c); }
    if c != 0 { assert BitLength(c) == 1 + BitLength(d); }
    if d != 0 { assert BitLength(d) == 1 + BitLength(e); }
    if e != 0 { assert BitLength(e) == 1 + BitLength(f); }
    if f != 0 { assert BitLength(f) == 1 + BitLength(g); }
    if g != 0 { assert BitLength(g) == 1 + BitLength(h); }
  }

  lemma {:induction false} ToBytesDigits(n: nat)
    ensures ToBytes(n, |Digits(n)|) == Digits(n)
  {
    if n != 0 {
      ToBytesDigits(n / 256);
      assert |Digits(n)| - 1 == |Digits(n / 256)|;
    }
  }

  lemma PyTlvIsTlv(tag: byte, value: Bytes)
    ensures PyTlv(tag, value) == Tlv(tag, value)
  {
    var n := |value|;
    assert n != 0 ==> Digits(n) != [];
    hide Digits, BitLength, ToBytes;
    if n >= 0x80 {
      BitLengthBytes(n, |Digits(n)|);
      ToBytesDigits(n);
    }
  }

  lemma {:induction false} ToBytesInt(v: nat)
    ensures ToBytes(v, |IntOctets(v)|) == IntOctets(v)
  {
    if v >= 128 {
      ToBytesInt(v / 256);
      assert |IntOctets(v)| - 1 == |IntOctets(v / 256)|;
    } else {
      assert ToBytes(v, 1) == ToBytes(v / 256, 0) + [v % 256];
    }
  }

  lemma {:induction false} IntBytes(v: nat)
    ensures (BitLength(v) + 8) / 8 == |IntOctets(v)|
  {
    if v >= 128 {
      BitLengthShift8(v);
      IntBytes(v / 256);
      if v < 256 {
        assert IntOctets(v / 256) == [0];
      }
    } else if v > 0 {
      BitLengthShift8(v);
    }
  }

  lemma PyIntIsIntTlv(v: nat)
    ensures PyInt(v) == Tlv(TAG_INTEGER, IntOctets(v))
    ensures v < TWO_31 ==> PyInt(v) == IntTlv(v)
  {
    IntBytes(v);
    ToBytesInt(v);
    PyTlvIsTlv(0x02, IntOctets(v));
  }

  /** The request as the agent's side would write it. */
  function GetMessage(community: Bytes, reqId: int32, oid: Oid): Message {
    Message(community, PDU_GET, reqId, 0, 0, [VarBind(oid, NULL_V)])
  }

  /** The octets of such a request, given those of the name. */
  function GetOctets(community: Bytes, reqId: int32, name: Bytes): Bytes {
    Tlv(0x30, IntTlv(1) + Tlv(0x04, community) + Tlv(0xA0, GetPdu(reqId, name)))
  }

  function GetPdu(reqId: int32, name: Bytes): Bytes {
    IntTlv(reqId) + IntTlv(0) + IntTlv(0) + Tlv(0x30, Tlv(0x30, Tlv(0x06, name) + [0x05, 0x00]))
  }

  lemma PyGetIs(community: Bytes, reqId: nat, oid: Oid)
    requires reqId < TWO_31 && PyOidOctets(oid).Some?
    ensures PyGetRequest(community, reqId, oid) == Some(GetOctets(community, reqId, PyOidOctets(oid).value))
  {
    hide PyTlv, PyInt, Tlv, PyOidOctets;
    var name := PyOidOctets(oid).value;
    PyTlvIsTlv(0x06, name);
    PyTlvIsTlv(0x30, Tlv(0x06, name) + [0x05, 0x00]);
    PyIntIsIntTlv(reqId);
    PyIntIsIntTlv(0);
    PyIntIsIntTlv(1);
    PyTlvIsTlv(0x30, Tlv(0x30, Tlv(0x06, name) + [0x05, 0x00]));
    PyTlvIsTlv(0xA0, GetPdu(reqId, name));
    PyTlvIsTlv(0x04, community);
    PyTlvIsTlv(0x30, IntTlv(1) + Tlv(0x04, community) + Tlv(0xA0, GetPdu(reqId, name)));
  }

  lemma EncodeGetIs(community: Bytes, reqId: int32, oid: Oid)
    ensures Encode(GetMessage(community, reqId, oid)) == GetOctets(community, reqId, OidOctets(oid))
  {
    hide Tlv, OidOctets;
    var m := GetMessage(community, reqId, oid);
    var vb := m.vbs[0];
    assert ValueTlv(NULL_V) == Tlv(0x05, []);
    assert Tlv(0x05, []) == [0x05, 0x00] by { NullTlv(); }
    assert m.vbs[1..] == [];
    assert VarBindTlvs(m.vbs) == VarBindTlv(vb) + [] == VarBindTlv(vb);
    var list := Tlv(TAG_SEQUENCE, VarBindTlvs(m.vbs));
    assert IntTlv(reqId) + IntTlv(0) + IntTlv(0) + list == PduOctets(m);
    assert IntTlv(1) + Tlv(0x04, community) + Tlv(m.pdu, PduOctets(m)) == MessageOctets(m);
  }

  lemma NullTlv()
    ensures Tlv(0x05, []) == [0x05, 0x00]
  {
  }

  lemma TlvInjective(tag: byte, a: Bytes, b: Bytes)
    requires |a| < TWO_32 && |b| < TWO_32 && Tlv(tag, a) == Tlv(tag, b)
    ensures a == b
  {
    ReadTlvAlone(tag, a);
    ReadTlvAlone(tag, b);
  }

  lemma SameSuffix(a: Bytes, b: Bytes, s: Bytes)
    requires a + s == b + s
    ensures a == b
  {
    assert |a| == |b| && (a + s)[..|a|] == a && (b + s)[..|b|] == b;
  }

  /** A request holds its name: two with the same octets have the same name octets. */
  lemma GetOctetsInjective(community: Bytes, reqId: int32, a: Bytes, b: Bytes)
    requires |GetOctets(community, reqId, a)| < TWO_32 && |GetOctets(community, reqId, b)| < TWO_32
    requires GetOctets(community, reqId, a) == GetOctets(community, reqId, b)
    ensures a == b
  {
    hide Tlv;
    var pre := IntTlv(1) + Tlv(0x04, community);
    var ints := IntTlv(reqId) + IntTlv(0) + IntTlv(0);
    var x, y := Tlv(0x06, a) + [0x05, 0x00], Tlv(0x06, b) + [0x05, 0x00];
    TlvInjective(0x30, pre + Tlv(0xA0, GetPdu(reqId, a)), pre + Tlv(0xA0, GetPdu(reqId, b)));
    SamePrefix<byte>(pre, Tlv(0xA0, GetPdu(reqId, a)), Tlv(0xA0, GetPdu(reqId, b)));
    TlvInjective(0xA0, GetPdu(reqId, a), GetPdu(reqId, b));
    SamePrefix<byte>(ints, Tlv(0x30, Tlv(0x30, x)), Tlv(0x30, Tlv(0x30, y)));
    TlvInjective(0x30, Tlv(0x30, x), Tlv(0x30, y));
    TlvInjective(0x30, x, y);
    SameSuffix(Tlv(0x06, a), Tlv(0x06, b), [0x05, 0x00]);
    TlvInjective(0x06, a, b);
  }

  /** Two encoders, one wire format, for every request id in [0, 2^31): exactly for
      the names whose first two arcs fit one octet with the high bit clear. */
  lemma GetRequestsAgree(community: Bytes, reqId: nat, oid: Oid)
    requires reqId < TWO_31 && |Encode(GetMessage(community, reqId, oid))| < TWO_32
    ensures PyGetRequest(community, reqId, oid) == Some(Encode(GetMessage(community, reqId, oid)))
       <==> |oid| >= 2 && oid[0] as int * 40 + oid[1] as int < 128
  {
    hide GetOctets, Encode, OidOctets;
    OidOctetsAgree(oid);
    EncodeGetIs(community, reqId, oid);
    if PyOidOctets(oid).Some? {
      var name := PyOidOctets(oid).value;
      hide PyOidOctets, PyGetRequest;
      PyGetIs(community, reqId, oid);
      if PyGetRequest(community, reqId, oid) == Some(Encode(GetMessage(community, reqId, oid))) {
        GetOctetsInjective(community, reqId, name, OidOctets(oid));
      }
    }
  }

  // ----- decoder -----

  /** Python slicing clamps both ends. */
  function Slice(s: Bytes, i: nat, j: nat): Bytes {
    if i >= |s| || j <= i then [] else if j <= |s| then s[i..j] else s[i..]
  }

  /** What is cut off is left out. */
  lemma SliceClamps(s: Bytes, i: nat, j: nat)
    requires i <= j
    ensures Slice(s, i, j) == s[Min(i, |s|)..Min(j, |s|)]
  {
  }

  datatype PyTlvRead = PyTlvRead(tag: byte, value: Bytes, next: nat)

  /** _read_tlv; None is the IndexError of reading past the end. */
  function PyReadTlv(s: Bytes, i: nat): Option<PyTlvRead> {
    if i + 1 >= |s| then None
    else if s[i + 1] < 0x80 then
      Some(PyTlvRead(s[i], Slice(s, i + 2, i + 2 + s[i + 1]), i + 2 + s[i + 1]))
    else
      var k := s[i + 1] - 0x80;
      var d := Slice(s, i + 2, i + 2 + k);
      FoldNonNegative(0, d);
      var n := Fold(0, d);
      Some(PyTlvRead(s[i], Slice(s, i + 2 + k, i + 2 + k + n), i + 2 + k + n))
  }

  /** int.from_bytes(b, "big", signed=True), which is 0 for no octets. */
  function FromBytesSigned(b: Bytes): int { if b == [] then 0 else IntValue(b) }

  /** snmp_parse_uptime; None is any exception. */
  function PyParseUptime(buf: Bytes, reqId: int): Option<int> {
    var top :- PyReadTlv(buf, 0);
    if top.tag != 0x30 then None
    else
      var msg := top.value;
      var version :- PyReadTlv(msg, 0);
      var community :- PyReadTlv(msg, version.next);
      var pdu :- PyReadTlv(msg, community.next);
      if pdu.tag != 0xA2 then None else PyParsePdu(pdu.value, reqId)
  }

  function PyParsePdu(pdu: Bytes, reqId: int): Option<int> {
    var rid :- PyReadTlv(pdu, 0);
    if FromBytesSigned(rid.value) != reqId then None
    else
      var err :- PyReadTlv(pdu, rid.next);
      if Fold(0, err.value) != 0 then None
      else
        var idx :- PyReadTlv(pdu, err.next);
        var vbl :- PyReadTlv(pdu, idx.next);
        var vb :- PyReadTlv(vbl.value, 0);
        var name :- PyReadTlv(vb.value, 0);
        var val :- PyReadTlv(vb.value, name.next);
        if val.tag != 0x43 then None else Some(Fold(0, val.value))
  }

  lemma SliceOf(a: Bytes, b: Bytes, c: Bytes)
    ensures Slice(a + b + c, |a|, |a| + |b|) == b
  {
    var s := a + b + c;
    if b != [] { assert s[|a|..|a| + |b|] == b; }
  }

  lemma PyReadsShort(before: Bytes, tag: byte, content: Bytes, rest: Bytes)
    requires |content| < 0x80
    ensures PyReadTlv(before + ([tag, |content|] + (content + rest)), |before|)
         == Some(PyTlvRead(tag, content, |before| + 2 + |content|))
  {
    var s := before + ([tag, |content|] + (content + rest));
    var head := before + [tag, |content|];
    SliceOf(head, content, rest);
    assert head + content + rest == s;
  }

  lemma PyReadsLong(before: Bytes, tag: byte, d: Bytes, content: Bytes, rest: Bytes)
    requires |d| < 0x80 && Fold(0, d) == |content|
    ensures PyReadTlv(before + ([tag, 0x80 + |d|] + d + (content + rest)), |before|)
         == Some(PyTlvRead(tag, content, |before| + 2 + |d| + |content|))
  {
    hide PyReadTlv;
    var head := before + [tag, 0x80 + |d|];
    PyReadsAfter(head, d, content, rest);
    assert head + d + content + rest == before + ([tag, 0x80 + |d|] + d + (content + rest));
  }

  lemma PyReadsAfter(head: Bytes, d: Bytes, content: Bytes, rest: Bytes)
    requires |d| < 0x80 && Fold(0, d) == |content|
    requires |head| >= 2 && head[|head| - 1] == 0x80 + |d|
    ensures PyReadTlv(head + d + content + rest, |head| - 2)
         == Some(PyTlvRead(head[|head| - 2], content, |head| + |d| + |content|))
  {
    hide Slice, Fold;
    var s := head + d + content + rest;
    SliceOf(head, d, content + rest);
    assert head + d + (content + rest) == s;
    SliceOf(head + d, content, rest);
  }

  /** The poller's reader on a TLV the agent wrote, wherever it stands. */
  lemma PyReadsTlv(before: Bytes, tag: byte, content: Bytes, rest: Bytes)
    requires |content| < TWO_32
    ensures PyReadTlv(before + (Tlv(tag, content) + rest), |before|)
         == Some(PyTlvRead(tag, content, |before| + |Tlv(tag, content)|))
  {
    hide PyReadTlv, Tlv, Fold, Digits;
    TlvLayout(tag, content, rest);
    if |content| < 0x80 {
      PyReadsShort(before, tag, content, rest);
    } else {
      FoldDigits(|content|);
      PyReadsLong(before, tag, Digits(|content|), content, rest);
    }
  }

  lemma {:induction false} IntOctetsSign(v: nat)
    ensures IntOctets(v)[0] < 0x80
  {
    if v >= 128 { IntOctetsSign(v / 256); }
  }

  lemma TlvLonger(tag: byte, content: Bytes)
    ensures |Tlv(tag, content)| > |content|
  {
  }

  /** The varbind list of an uptime reply. */
  lemma PyReadsVarBind(vb: VarBind, rest: Bytes)
    requires |VarBindTlv(vb) + rest| < TWO_32
    ensures var content := OidTlv(vb.name) + ValueTlv(vb.value);
      && PyReadTlv(VarBindTlv(vb) + rest, 0).Some?
      && PyReadTlv(VarBindTlv(vb) + rest, 0).value.value == content
      && PyReadTlv(content, 0).Some?
      && PyReadTlv(content, PyReadTlv(content, 0).value.next).Some?
      && PyReadTlv(content, PyReadTlv(content, 0).value.next).value.tag == vb.value.tag
      && PyReadTlv(content, PyReadTlv(content, 0).value.next).value.value == vb.value.content
  {
    hide PyReadTlv, Tlv, OidOctets;
    var content := OidTlv(vb.name) + ValueTlv(vb.value);
    TlvLonger(TAG_SEQUENCE, content);
    PyReadsTlv([], TAG_SEQUENCE, content, rest);
    assert [] + (Tlv(TAG_SEQUENCE, content) + rest) == VarBindTlv(vb) + rest;
    PyReadsTlv([], TAG_OID, OidOctets(vb.name), ValueTlv(vb.value));
    assert [] + (OidTlv(vb.name) + ValueTlv(vb.value)) == content;
    PyReadsTlv(OidTlv(vb.name), vb.value.tag, vb.value.content, []);
    assert OidTlv(vb.name) + (ValueTlv(vb.value) + []) == content;
  }

  /** The reply to a poll: the request id, no error, one varbind. */
  function UptimeReply(community: Bytes, reqId: int32, uptime: uint32): Message {
    Message(community, PDU_RESPONSE, reqId, ERR_NONE, 0,
            [VarBind(SYS_UPTIME, UintV(TAG_TIMETICKS, uptime))])
  }

  /** int.from_bytes without a sign tells zero from everything else. */
  lemma {:induction false} FoldPositive(b: Bytes)
    requires b != [] && b[0] > 0
    ensures Fold(0, b) > 0
  {
    if |b| == 1 {
      FoldOne(0, b[0]);
      assert b == [b[0]];
    } else {
      FoldPositive(b[..|b| - 1]);
    }
  }

  lemma {:induction false} NegativeSign(v: int)
    requires v < 0
    ensures IntOctets(v)[0] >= 0x80
    decreases -v
  {
    if v < -128 { NegativeSign(v / 256); }
  }

  lemma ZeroExactly(v: int)
    ensures Fold(0, IntOctets(v)) == 0 <==> v == 0
  {
    if v < 0 {
      NegativeSign(v);
      FoldPositive(IntOctets(v));
    } else {
      IntOctetsSign(v);
      IntRoundTrip(v);
    }
  }

  /** What the poller takes from any message: the first value, if it is TimeTicks in a
      response without an error to its own request. */
  function Uptime(m: Message, reqId: int): Option<int> {
    if m.pdu == 0xA2 && m.requestId == reqId && m.f2 == 0 && m.vbs != [] && m.vbs[0].value.tag == 0x43
    then Some(Fold(0, m.vbs[0].value.content)) else None
  }

  lemma PyReadsPdu(m: Message, reqId: int)
    requires |PduOctets(m)| < TWO_32 && m.pdu == 0xA2
    ensures PyParsePdu(PduOctets(m), reqId) == Uptime(m, reqId)
  {
    hide PyReadTlv, Tlv, IntOctets, Fold, OidOctets;
    var p := PduOctets(m);
    var list := Tlv(TAG_SEQUENCE, VarBindTlvs(m.vbs));
    var i1, i2, i3 := IntTlv(m.requestId), IntTlv(m.f2), IntTlv(m.f3);
    Int32OctetsLength(m.requestId);
    Int32OctetsLength(m.f2);
    Int32OctetsLength(m.f3);
    TlvLonger(TAG_SEQUENCE, VarBindTlvs(m.vbs));
    IntRoundTrip(m.requestId);
    ZeroExactly(m.f2);
    PyReadsTlv([], TAG_INTEGER, IntOctets(m.requestId), i2 + (i3 + list));
    assert [] + (i1 + (i2 + (i3 + list))) == p;
    PyReadsTlv(i1, TAG_INTEGER, IntOctets(m.f2), i3 + list);
    PyReadsTlv(i1 + i2, TAG_INTEGER, IntOctets(m.f3), list);
    assert i1 + i2 + (i3 + list) == p;
    PyReadsTlv(i1 + i2 + i3, TAG_SEQUENCE, VarBindTlvs(m.vbs), []);
    assert i1 + i2 + i3 + (list + []) == p;
    if m.vbs == [] {
      NothingToRead();
    } else {
      PyReadsVarBind(m.vbs[0], VarBindTlvs(m.vbs[1..]));
    }
  }

  lemma NothingToRead()
    ensures PyReadTlv([], 0) == None
  {
  }

  /** For every message: the poller reads exactly that from its octets. */
  lemma PyReadsAny(m: Message, reqId: int)
    requires |Encode(m)| < TWO_32
    ensures PyParseUptime(Encode(m), reqId) == Uptime(m, reqId)
  {
    hide PyReadTlv, Tlv, IntOctets, PduOctets, PyParsePdu, Fold;
    var msg, pdu := MessageOctets(m), Tlv(m.pdu, PduOctets(m));
    var version, comm := IntTlv(VERSION_2C), Tlv(TAG_OCTET_STR, m.community);
    TlvLonger(TAG_SEQUENCE, msg);
    TlvLonger(m.pdu, PduOctets(m));
    TlvLonger(TAG_OCTET_STR, m.community);
    PyReadsTlv([], TAG_SEQUENCE, msg, []);
    assert [] + (Tlv(TAG_SEQUENCE, msg) + []) == Encode(m);
    Int32OctetsLength(VERSION_2C);
    PyReadsTlv([], TAG_INTEGER, IntOctets(VERSION_2C), comm + pdu);
    assert [] + (version + (comm + pdu)) == msg;
    PyReadsTlv(version, TAG_OCTET_STR, m.community, pdu);
    PyReadsTlv(version + comm, m.pdu, PduOctets(m), []);
    assert version + comm + (pdu + []) == msg;
    if m.pdu == 0xA2 { PyReadsPdu(m, reqId); }
  }

  lemma PyReadsReply(community: Bytes, reqId: int32, uptime: uint32)
    requires |Encode(UptimeReply(community, reqId, uptime))| < TWO_32
    ensures PyParseUptime(Encode(UptimeReply(community, reqId, uptime)), reqId) == Some(uptime)
  {
    hide Encode, PyParseUptime, Fold, IntOctets;
    PyReadsAny(UptimeReply(community, reqId, uptime), reqId);
    IntOctetsSign(uptime);
    IntRoundTrip(uptime);
  }

  // ----- end to end -----

  /** sysUpTime.0 is in every materialised view. */
  lemma UptimeLeaf(nif: nat, cap: nat)
    requires cap >= 3
    ensures var L := Take(View(nif), cap);
      && |L| > 2 && L[2] == Leaf(K_SYS_UPTIME, 3, 0)
      && Exact(L, SYS_UPTIME, 0) == Some(2)
  {
    var L := Take(View(nif), cap);
    assert L[0] == SysLeaves(7)[0] && L[1] == SysLeaves(7)[1] && L[2] == SysLeaves(7)[2];
    assert LeafOid(L[0])[7] == 1 && LeafOid(L[1])[7] == 2;
    assert LeafOid(L[2]) == SYS_UPTIME;
    assert Exact(L, SYS_UPTIME, 2) == Some(2);
    assert Exact(L, SYS_UPTIME, 1) == Some(2);
  }

  lemma TlvOverhead(tag: byte, content: Bytes)
    requires |content| < TWO_32
    ensures |Tlv(tag, content)| <= |content| + 6
  {
    DigitsLengthAtMost4(|content|);
  }

  /** Requests and replies of a poll fit with 100 octets to spare for the rest. */
  lemma PollSizes(m: Message)
    requires |m.community| + 200 < TWO_32 && |m.vbs| == 1
    requires m.vbs[0].name == SYS_UPTIME && |m.vbs[0].value.content| <= 5
    ensures |Encode(m)| <= |m.community| + 100
  {
    var vb := m.vbs[0];
    Int32OctetsLength(m.requestId);
    Int32OctetsLength(m.f2);
    Int32OctetsLength(m.f3);
    Int32OctetsLength(VERSION_2C);
    assert |OidOctets(SYS_UPTIME)| == 8 by { UptimeOctets(); }
    TlvOverhead(TAG_OID, OidOctets(vb.name));
    TlvOverhead(vb.value.tag, vb.value.content);
    TlvOverhead(TAG_SEQUENCE, OidTlv(vb.name) + ValueTlv(vb.value));
    assert m.vbs[1..] == [];
    assert VarBindTlvs(m.vbs) == VarBindTlv(vb) + VarBindTlvs([]);
    TlvOverhead(TAG_SEQUENCE, VarBindTlvs(m.vbs));
    TlvOverhead(TAG_INTEGER, IntOctets(m.requestId));
    TlvOverhead(TAG_INTEGER, IntOctets(m.f2));
    TlvOverhead(TAG_INTEGER, IntOctets(m.f3));
    TlvOverhead(TAG_INTEGER, IntOctets(VERSION_2C));
    TlvOverhead(m.pdu, PduOctets(m));
    TlvOverhead(TAG_OCTET_STR, m.community);
    TlvOverhead(TAG_SEQUENCE, MessageOctets(m));
  }

  lemma UptimeOctets()
    ensures |OidOctets(SYS_UPTIME)| == 8
  {
    assert FirstSubId(SYS_UPTIME) == 43 && SubId(43) == [43];
    SmallSubIds(SYS_UPTIME[2..]);
  }

  lemma {:induction false} SmallSubIds(arcs: Oid)
    requires forall i :: 0 <= i < |arcs| ==> arcs[i] < 128
    ensures |SubIds(arcs)| == |arcs|
  {
    if arcs != [] { SmallSubIds(arcs[1..]); }
  }

  /** The poll, end to end: the agent takes the poller's datagram for a GET of
      sysUpTime.0, and the poller reads from the reply exactly the TimeTicks the
      agent encoded, for every request id in [0, 2^31) and every uptime. */
  lemma PollReadsUptime(cfg: Config, nif: nat, cap: nat, env: Env, reqId: nat)
    requires cfg.Ok() && |cfg.community| + 100 <= cfg.txSize && cfg.txSize + 200 < TWO_32
    requires (nif < 256 || cap <= 263) && cap >= 3 && reqId < TWO_31
    ensures Sorted(Take(View(nif), cap))
    ensures var request := PyGetRequest(cfg.community, reqId, SYS_UPTIME);
      && request.Some?
      && ParseRequest(request.value, cfg.community, cfg.maxReq)
         == Some(Request(PDU_GET, reqId, 0, 0, [SYS_UPTIME], false))
      && var reply := Respond(cfg, Take(View(nif), cap), env, request.value);
         reply.Some? && PyParseUptime(reply.value, reqId) == Some(env.uptime)
  {
    hide Encode, Exact, View, ParseRequest, PyParseUptime, PyGetRequest, Reply, Tlv;
    var L := Take(View(nif), cap);
    ViewSortedExactly(nif, cap);
    UptimeLeaf(nif, cap);
    var get := GetMessage(cfg.community, reqId, SYS_UPTIME);
    PollSizes(get);
    GetRequestsAgree(cfg.community, reqId, SYS_UPTIME);
    PollParsed(cfg, reqId);
    Uint32OctetsLength(env.uptime);
    PollSizes(UptimeReply(cfg.community, reqId, env.uptime));
    PollAnswered(cfg, L, env, reqId);
    PyReadsReply(cfg.community, reqId, env.uptime);
  }

  lemma PollAnswered(cfg: Config, L: seq<Leaf>, env: Env, reqId: nat)
    requires cfg.Ok() && Sorted(L) && reqId < TWO_31
    requires |L| > 2 && L[2] == Leaf(K_SYS_UPTIME, 3, 0) && Exact(L, SYS_UPTIME, 0) == Some(2)
    requires |Encode(UptimeReply(cfg.community, reqId, env.uptime))| <= cfg.txSize
    ensures Reply(cfg, L, env, Request(PDU_GET, reqId, 0, 0, [SYS_UPTIME], false))
         == Some(Encode(UptimeReply(cfg.community, reqId, env.uptime)))
  {
    hide Encode, GetAnswers, Exact, LeafOid, IntOctets;
    PollPlan(L, env);
  }

  lemma PollParsed(cfg: Config, reqId: nat)
    requires cfg.Ok() && reqId < TWO_31
    requires |Encode(GetMessage(cfg.community, reqId, SYS_UPTIME))| < TWO_32
    ensures ParseRequest(Encode(GetMessage(cfg.community, reqId, SYS_UPTIME)), cfg.community, cfg.maxReq)
         == Some(Request(PDU_GET, reqId, 0, 0, [SYS_UPTIME], false))
  {
    hide Encode, ParseRequest, ReadNames, OidOctets;
    var m := GetMessage(cfg.community, reqId, SYS_UPTIME);
    assert m.vbs[1..] == [];
    assert Encodable(SYS_UPTIME);
    assert Names(m.vbs) == [SYS_UPTIME];
    ParseOfEncode(m, cfg.maxReq);
  }

  lemma PollPlan(L: seq<Leaf>, env: Env)
    requires |L| > 2 && L[2] == Leaf(K_SYS_UPTIME, 3, 0) && Exact(L, SYS_UPTIME, 0) == Some(2)
    ensures GetAnswers(L, env, [SYS_UPTIME]) == [VarBind(SYS_UPTIME, UintV(TAG_TIMETICKS, env.uptime))]
  {
    assert LeafOid(L[2]) == SYS_UPTIME;
  }
}
