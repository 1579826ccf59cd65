/** Values of the MIB leaves and the encoding of a response
    (lib/snmp/snmp_mib.c and the encoding half of lib/snmp/snmp_agent.c). */
module SnmpValues {
  import opened Common
  import opened BerSpec
  import opened BerEncoder
  import opened Mib
  import opened SnmpMessage

  const EXC_NO_SUCH_INSTANCE: byte := 0x81
  const EXC_END_OF_MIB_VIEW: byte := 0x82

  /** One simulated interface, as the switch model reports it. */
  datatype IfRow = IfRow(
    descr: Bytes, ifType: int32, mtu: int32, speed: uint32, admin: int32, oper: int32,
    inOctets: uint32, inUpkts: uint32, outOctets: uint32, outUpkts: uint32)

  /** What the accessors answer for an interface that does not exist. */
  const NO_INTERFACE: IfRow := IfRow([0x3F], 0, 0, 0, 2, 2, 0, 0, 0, 0)

  /** Everything the MIB reads at the moment a request is answered. */
  datatype Env = Env(
    fwName: Bytes, fwVersion: Bytes, fwBuild: Bytes, hostname: Bytes, contact: Bytes,
    location: Bytes, uptime: uint32, nif: int32, ifs: seq<IfRow>)

  const SPACE: Bytes := [0x20]
  const BUILD_OPEN: Bytes := [0x20, 0x28, 0x62, 0x75, 0x69, 0x6C, 0x64, 0x20]  // " (build "
  const BUILD_CLOSE: Bytes := [0x29]

  /** sysDescr, cut by snprintf() to its 96-octet buffer with the terminator. */
  function SysDescr(env: Env): Bytes {
    Take(env.fwName + SPACE + env.fwVersion + BUILD_OPEN + env.fwBuild + BUILD_CLOSE, 95)
  }

  function IntV(v: int32): Value { Value(TAG_INTEGER, IntOctets(v)) }
  function UintV(tag: byte, v: uint32): Value { Value(tag, IntOctets(v)) }
  function StrV(s: Bytes): Value { Value(TAG_OCTET_STR, s) }
  const NULL_V: Value := Value(TAG_NULL, [])
  function ExceptionV(tag: byte): Value { Value(tag, []) }

  function RowOf(env: Env, leaf: Leaf): IfRow {
    var idx := if leaf.row > 0 then leaf.row - 1 else 0;
    if idx < |env.ifs| then env.ifs[idx] else NO_INTERFACE
  }

  function LeafValue(env: Env, leaf: Leaf): Value {
    var k, r := leaf.kind, RowOf(env, leaf);
    if k == K_SYS_DESCR then StrV(SysDescr(env))
    else if k == K_SYS_OBJECTID then Value(TAG_OID, OidOctets(SYS_OBJECT_ID))
    else if k == K_SYS_UPTIME then UintV(TAG_TIMETICKS, env.uptime)
    else if k == K_SYS_CONTACT then StrV(env.contact)
    else if k == K_SYS_NAME then StrV(env.hostname)
    else if k == K_SYS_LOCATION then StrV(env.location)
    else if k == K_SYS_SERVICES then IntV(6)
    else if k == K_IF_NUMBER then IntV(env.nif)
    else if k == K_IF_INDEX then IntV(leaf.row)
    else if k == K_IF_DESCR then StrV(r.descr)
    else if k == K_IF_TYPE then IntV(r.ifType)
    else if k == K_IF_MTU then IntV(r.mtu)
    else if k == K_IF_SPEED then UintV(TAG_GAUGE32, r.speed)
    else if k == K_IF_ADMIN then IntV(r.admin)
    else if k == K_IF_OPER then IntV(r.oper)
    else if k == K_IF_IN_OCTETS then UintV(TAG_COUNTER32, r.inOctets)
    else if k == K_IF_IN_UPKTS then UintV(TAG_COUNTER32, r.inUpkts)
    else if k == K_IF_OUT_OCTETS then UintV(TAG_COUNTER32, r.outOctets)
    else if k == K_IF_OUT_UPKTS then UintV(TAG_COUNTER32, r.outUpkts)
    else if k == K_FW_NAME then StrV(env.fwName)
    else if k == K_FW_VERSION then StrV(env.fwVersion)
    else if k == K_FW_BUILD then StrV(env.fwBuild)
    else NULL_V
  }

  /** The strings of a device are C strings in memory. */
  ghost predicate EnvOk(env: Env) {
    && |env.fwName| < TWO_32 && |env.fwVersion| < TWO_32 && |env.fwBuild| < TWO_32
    && |env.hostname| < TWO_32 && |env.contact| < TWO_32 && |env.location| < TWO_32
    && forall i :: 0 <= i < |env.ifs| ==> |env.ifs[i].descr| < TWO_32
  }

  /** One planned varbind: the leaf it names (an index into the view) or the
      request name it echoes, and an exception in place of the leaf's value. */
  datatype RespVb = RespVb(leaf: Option<nat>, name: Oid, exception: byte)

  ghost predicate RespOk(L: seq<Leaf>, vb: RespVb) { vb.leaf.Some? ==> vb.leaf.value < |L| }

  function ToVarBind(L: seq<Leaf>, env: Env, vb: RespVb): VarBind
    requires RespOk(L, vb)
  {
    VarBind(
      if vb.leaf.Some? then LeafOid(L[vb.leaf.value]) else vb.name,
      if vb.exception != 0 then ExceptionV(vb.exception)
      else if vb.leaf.Some? then LeafValue(env, L[vb.leaf.value])
      else NULL_V)
  }

  ghost predicate AllRespOk(L: seq<Leaf>, vbs: seq<RespVb>) {
    forall i :: 0 <= i < |vbs| ==> RespOk(L, vbs[i])
  }

  function ToVarBinds(L: seq<Leaf>, env: Env, vbs: seq<RespVb>): (r: seq<VarBind>)
    requires AllRespOk(L, vbs)
  {
    seq(|vbs|, i requires 0 <= i < |vbs| => ToVarBind(L, env, vbs[i]))
  }

  /** mib_put_value: the switch over value kinds. */
  method PutValue(e: Encoder, env: Env, leaf: Leaf)
    requires e.Valid() && EnvOk(env)
    modifies e`pos, e`overflow, e.base
    ensures e.Wrote(ValueTlv(LeafValue(env, leaf)))
  {
    if leaf.kind >= K_IF_INDEX && leaf.kind <= K_IF_OUT_UPKTS {
      PutIfValue(e, leaf, RowOf(env, leaf), env);
      return;
    }
    match leaf.kind
    case 0 => e.PutOctetStr(SysDescr(env));
    case 1 => e.PutOid(SYS_OBJECT_ID);
    case 2 => e.PutUintTagged(env.uptime, TAG_TIMETICKS);
    case 3 => e.PutOctetStr(env.contact);
    case 4 => e.PutOctetStr(env.hostname);
    case 5 => e.PutOctetStr(env.location);
    case 6 => e.PutInt(6);
    case 7 => e.PutInt(env.nif);
    case 19 => e.PutOctetStr(env.fwName);
    case 20 => e.PutOctetStr(env.fwVersion);
    case 21 => e.PutOctetStr(env.fwBuild);
    case _ => e.PutEmpty(TAG_NULL);
  }

  method PutIfValue(e: Encoder, leaf: Leaf, r: IfRow, ghost env: Env)
    requires e.Valid() && |r.descr| < TWO_32
    requires K_IF_INDEX <= leaf.kind <= K_IF_OUT_UPKTS && r == RowOf(env, leaf)
    modifies e`pos, e`overflow, e.base
    ensures e.Wrote(ValueTlv(LeafValue(env, leaf)))
  {
    match leaf.kind
    case 8 => e.PutInt(leaf.row);
    case 9 => e.PutOctetStr(r.descr);
    case 10 => e.PutInt(r.ifType);
    case 11 => e.PutInt(r.mtu);
    case 12 => e.PutUintTagged(r.speed, TAG_GAUGE32);
    case 13 => e.PutInt(r.admin);
    case 14 => e.PutInt(r.oper);
    case 15 => e.PutUintTagged(r.inOctets, TAG_COUNTER32);
    case 16 => e.PutUintTagged(r.inUpkts, TAG_COUNTER32);
    case 17 => e.PutUintTagged(r.outOctets, TAG_COUNTER32);
    case _ => e.PutUintTagged(r.outUpkts, TAG_COUNTER32);
  }

  /** emit_varbind: value, then name, then the SEQUENCE around both. */
  method EmitVarbind(e: Encoder, L: seq<Leaf>, env: Env, vb: RespVb)
    requires e.Valid() && EnvOk(env) && RespOk(L, vb)
    modifies e`pos, e`overflow, e.base
    ensures e.Wrote(VarBindTlv(ToVarBind(L, env, vb)))
  {
    var mark := e.pos;
    ghost var out, b := e.Out(), ToVarBind(L, env, vb);
    if vb.exception != 0 {
      e.PutEmpty(vb.exception);
    } else if vb.leaf.Some? {
      PutValue(e, env, L[vb.leaf.value]);
    } else {
      e.PutEmpty(TAG_NULL);
    }
    e.PutOid(if vb.leaf.Some? then LeafOid(L[vb.leaf.value]) else vb.name);
    PrependTwice(out, ValueTlv(b.value), OidTlv(b.name), e.base.Length);
    e.Wrap(mark, TAG_SEQUENCE, out, OidTlv(b.name) + ValueTlv(b.value));
  }

  /** The varbind list, last one first. */
  method EmitVarbinds(e: Encoder, L: seq<Leaf>, env: Env, vbs: seq<RespVb>)
    requires e.Valid() && EnvOk(env) && AllRespOk(L, vbs)
    modifies e`pos, e`overflow, e.base
    ensures e.Wrote(VarBindTlvs(ToVarBinds(L, env, vbs)))
  {
    ghost var all := ToVarBinds(L, env, vbs);
    var i := |vbs|;
    assert all[i..] == [];
    PrependNothing(e.Out(), e.base.Length);
    while i > 0
      invariant 0 <= i <= |vbs|
      invariant e.Wrote(VarBindTlvs(all[i..]))
    {
      i := i - 1;
      PrependTwice(old(e.Out()), VarBindTlvs(all[i + 1..]), VarBindTlv(all[i]), e.base.Length);
      assert all[i..][1..] == all[i + 1..];
      EmitVarbind(e, L, env, vbs[i]);
    }
    assert all[0..] == all;
  }

  /** encode_response: a whole Response into a fresh encoder, or an overflow. */
  method EncodeResponse(e: Encoder, requestId: int32, status: int32, index: int32,
                        community: Bytes, L: seq<Leaf>, env: Env, vbs: seq<RespVb>)
    returns (len: nat)
    requires e.Valid() && e.Out() == Some([]) && |community| < TWO_32
    requires EnvOk(env) && AllRespOk(L, vbs)
    modifies e`pos, e`overflow, e.base
    ensures var m := Message(community, PDU_RESPONSE, requestId, status, index,
                             ToVarBinds(L, env, vbs));
      && e.Valid()
      && e.Out() == Prepend(Some([]), Encode(m), e.base.Length)
      && len == match e.Out() case None => 0 case Some(s) => |s|
  {
    ghost var m := Message(community, PDU_RESPONSE, requestId, status, index,
                           ToVarBinds(L, env, vbs));
    var top := e.pos;
    EncodePdu(e, requestId, status, index, L, env, vbs, m);
    ghost var cap := e.base.Length;
    e.PutOctetStr(community);
    PrependTwice(Some([]), Tlv(m.pdu, PduOctets(m)), Tlv(TAG_OCTET_STR, community), cap);
    e.PutInt(VERSION_2C);
    PrependTwice(Some([]), Tlv(TAG_OCTET_STR, community) + Tlv(m.pdu, PduOctets(m)),
                 IntTlv(VERSION_2C), cap);
    e.Wrap(top, TAG_SEQUENCE, Some([]), MessageOctets(m));
    len := e.Length();
  }

  /** The Response PDU: varbind list, error-index, error-status, request-id. */
  method EncodePdu(e: Encoder, requestId: int32, status: int32, index: int32,
                   L: seq<Leaf>, env: Env, vbs: seq<RespVb>, ghost m: Message)
    requires e.Valid() && e.Out() == Some([])
    requires EnvOk(env) && AllRespOk(L, vbs)
    requires m == Message(m.community, PDU_RESPONSE, requestId, status, index,
                          ToVarBinds(L, env, vbs))
    modifies e`pos, e`overflow, e.base
    ensures e.Closed(Prepend(Some([]), Tlv(m.pdu, PduOctets(m)), e.base.Length))
  {
    ghost var cap, none := e.base.Length, Some([]);
    var top := e.pos;
    EmitVarbinds(e, L, env, vbs);
    ghost var s3 := Tlv(TAG_SEQUENCE, VarBindTlvs(m.vbs));
    e.Wrap(top, TAG_SEQUENCE, none, VarBindTlvs(m.vbs));
    e.PutInt(index);
    PrependTwice(none, s3, IntTlv(index), cap);
    e.PutInt(status);
    PrependTwice(none, IntTlv(index) + s3, IntTlv(status), cap);
    e.PutInt(requestId);
    PrependTwice(none, IntTlv(status) + (IntTlv(index) + s3), IntTlv(requestId), cap);
    e.Wrap(top, PDU_RESPONSE, none, PduOctets(m));
  }
}
