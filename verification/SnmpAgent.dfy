/** The agent (lib/snmp/snmp_agent.c): from a received datagram to the reply in
    the transmit buffer, and what a manager can rely on in that reply. */
module SnmpAgent {
  import opened Common
  import opened BerSpec
  import opened BerEncoder
  import opened BerDecoder
  import opened Mib
  import opened SnmpMessage
  import opened SnmpValues
  import opened SnmpPlan

  const ERR_NONE: int32 := 0
  const ERR_TOO_BIG: int32 := 1
  const ERR_GEN_ERR: int32 := 5
  const ERR_NOT_WRITABLE: int32 := 17

  /** CONFIG_APP_SNMP_READ_COMMUNITY, CONFIG_APP_SNMP_MAX_VARBINDS and the size
      of the transmit buffer. */
  datatype Config = Config(community: Bytes, maxReq: nat, txSize: nat) {
    ghost predicate Ok() { 8 <= maxReq <= 64 && |community| < TWO_32 && txSize < TWO_32 }
    function MaxResp(): nat { maxReq + 16 }
  }

  // ----- the reply as a function of the datagram -----

  function ErrorMessage(cfg: Config, r: Request, status: int32, index: int32): Message {
    Message(cfg.community, PDU_RESPONSE, r.requestId, status, index, [])
  }

  /** The octets of a message, if they fit the transmit buffer. */
  function Fit(cfg: Config, m: Message): Option<Bytes> {
    if |Encode(m)| <= cfg.txSize then Some(Encode(m)) else None
  }

  function GetAnswers(L: seq<Leaf>, env: Env, names: seq<Oid>): seq<VarBind> {
    seq(|names|, i requires 0 <= i < |names| => GetAnswer(L, env, names[i]))
  }

  /** The varbinds that answer a request, or None for a PDU the agent does not serve. */
  ghost function Plan(cfg: Config, L: seq<Leaf>, env: Env, r: Request): Option<seq<VarBind>>
    requires Sorted(L)
  {
    if r.pdu == PDU_GET then Some(GetAnswers(L, env, r.names))
    else if r.pdu == PDU_GETNEXT then Some(Answers(L, env, r.names))
    else if r.pdu == PDU_GETBULK then Some(BulkAnswer(L, env, r, cfg.MaxResp()))
    else None
  }

  ghost function Reply(cfg: Config, L: seq<Leaf>, env: Env, r: Request): Option<Bytes>
    requires Sorted(L)
  {
    if r.tooMany then Fit(cfg, ErrorMessage(cfg, r, ERR_TOO_BIG, 0))
    else if r.pdu == PDU_SET then Fit(cfg, ErrorMessage(cfg, r, ERR_NOT_WRITABLE, 1))
    else match Plan(cfg, L, env, r)
      case None => Fit(cfg, ErrorMessage(cfg, r, ERR_GEN_ERR, 0))
      case Some(vbs) =>
        var full := Fit(cfg, Message(cfg.community, PDU_RESPONSE, r.requestId, ERR_NONE, 0, vbs));
        if full.Some? then full else Fit(cfg, ErrorMessage(cfg, r, ERR_TOO_BIG, 0))
  }

  ghost function Respond(cfg: Config, L: seq<Leaf>, env: Env, datagram: Bytes): Option<Bytes>
    requires Sorted(L)
  {
    match ParseRequest(datagram, cfg.community, cfg.maxReq)
    case None => None
    case Some(r) => Reply(cfg, L, env, r)
  }

  // ----- the code -----

  /** struct parsed_req: filled in place, reused for every request. */
  class ParsedRequest {
    var pdu: byte
    var requestId: int32
    var f2: int32
    var f3: int32
    const names: array<Oid>
    var nvb: nat
    var tooMany: bool

    constructor (max: nat)
      ensures names.Length == max && nvb <= max && fresh(names)
    {
      pdu, requestId, f2, f3, nvb, tooMany := 0, 0, 0, 0, 0, false;
      names := new Oid[max](_ => []);
    }

    function Value(): Request
      requires nvb <= names.Length
      reads this, names
    {
      Request(pdu, requestId, f2, f3, names[..nvb], tooMany)
    }

    /** parse_request: true when the datagram is a v2c PDU with our community. */
    method Parse(buf: array<byte>, len: nat, want: Bytes) returns (ok: bool)
      requires len <= buf.Length
      modifies this, names
      ensures ok ==> nvb <= names.Length
      ensures ParseRequest(buf[..len], want, names.Length) == if ok then Some(Value()) else None
    {
      hide OpenMessage, PassCommunity, ParsePdu;
      var top, tag, c, clen;
      ok, top := Open(buf, len);
      if !ok { return; }
      ok, tag, c, clen := CheckCommunity(top, want);
      if !ok { return; }
      ok := ParseBody(buf, tag, c, clen);
    }

    /** The message's version; the decoder is left at the community. */
    method Open(buf: array<byte>, len: nat) returns (ok: bool, top: Decoder)
      requires len <= buf.Length
      ensures fresh(top) && top.Valid() && top.buf == buf
      ensures OpenMessage(buf[..len]) == if ok then Some(top.Rest()) else None
    {
      hide ReadTagged, ReadInt;
      var msg := new Decoder(buf, 0, len);
      assert msg.Rest() == buf[..len];
      ok, top := msg.Enter(TAG_SEQUENCE);
      if !ok { return; }
      var version;
      ok, version := top.GetInt();
      ok := ok && version == VERSION_2C;
    }

    /** The community must be ours; the PDU stays in the buffer. */
    method CheckCommunity(top: Decoder, want: Bytes)
      returns (ok: bool, tag: byte, c: nat, clen: nat)
      requires top.Valid()
      modifies top`p
      ensures ok ==> c + clen <= top.buf.Length
      ensures ok <==> PassCommunity(old(top.Rest()), want).Some?
      ensures ok ==> PassCommunity(old(top.Rest()), want).value.tag == tag
      ensures ok ==> PassCommunity(old(top.Rest()), want).value.content == top.buf[c..c + clen]
    {
      hide ReadTagged, ReadTlv;
      tag, c, clen := 0, 0, 0;
      var s, n;
      ok, s, n := top.GetOctet();
      if !ok { return; }
      if top.buf[s..s + n] != want { ok := false; return; }
      ok, tag, c, clen := top.GetTlv();
    }

    method ParseBody(buf: array<byte>, tag: byte, c: nat, clen: nat) returns (ok: bool)
      requires c + clen <= buf.Length
      modifies this, names
      ensures ok ==> nvb <= names.Length
      ensures ParsePdu(tag, buf[c..c + clen], names.Length) == if ok then Some(Value()) else None
    {
      hide ReadTagged, ReadTlv, ReadInt, ReadNames;
      var d := new Decoder(buf, c, clen);
      var vbl;
      pdu := tag;
      ok, requestId := d.GetInt();
      if !ok { return; }
      ok, f2 := d.GetInt();
      if !ok { return; }
      ok, f3 := d.GetInt();
      if !ok { return; }
      ok, vbl := d.Enter(TAG_SEQUENCE);
      if !ok { return; }
      ok := ParseNames(vbl);
      ok := ok && nvb > 0;
    }

    /** One varbind of the list: its name, or only its header when there is no
        room to store a name. */
    method NextName(vbl: Decoder, room: bool, ghost max: nat) returns (ok: bool, name: Oid)
      requires vbl.Valid() && !vbl.Done() && (room <==> max > 0)
      modifies vbl`p
      ensures vbl.Valid() && (ok ==> vbl.p > old(vbl.p))
      ensures !ok ==> ReadNames(old(vbl.Rest()), max) == None
      ensures ok && !room ==> ReadNames(old(vbl.Rest()), max) == Some(NameList([], true))
      ensures ok && room ==>
          ReadNames(old(vbl.Rest()), max) == Prefixed([name], ReadNames(vbl.Rest(), max - 1))
    {
      hide ReadTagged, ReadOidUpTo;
      ReadTaggedShrinks(vbl.Rest(), TAG_SEQUENCE);
      name := [];
      var vb;
      ok, vb := vbl.Enter(TAG_SEQUENCE);
      if ok && room {
        ok, name := vb.GetOid(MAX_OID_LEN);
      }
    }

    /** What the whole list will give: names stored, then the rest of the list. */
    ghost function Outcome(vbl: Decoder): Option<NameList>
      requires vbl.Valid() && nvb <= names.Length
      reads this, names, vbl, vbl.buf
    {
      Prefixed(names[..nvb], ReadNames(vbl.Rest(), names.Length - nvb))
    }

    /** One iteration of the parser's loop over the varbind list. */
    method ParseVarBind(vbl: Decoder) returns (ok: bool)
      requires vbl.Valid() && !vbl.Done() && nvb <= names.Length && !tooMany
      modifies this`nvb, this`tooMany, names, vbl`p
      ensures vbl.Valid() && nvb <= names.Length && (ok ==> vbl.p > old(vbl.p))
      ensures !ok ==> old(Outcome(vbl)) == None
      ensures ok && tooMany ==> old(Outcome(vbl)) == Some(NameList(names[..nvb], true))
      ensures ok && !tooMany ==> old(Outcome(vbl)) == Outcome(vbl)
    {
      hide ReadNames;
      ghost var sofar, max := names[..nvb], names.Length - nvb;
      var name;
      ok, name := NextName(vbl, nvb < names.Length, max);
      if !ok { return; }
      if nvb >= names.Length {
        PrefixedEnd(sofar, true);
        tooMany := true;
        return;
      }
      PrefixedSnoc(sofar, name, ReadNames(vbl.Rest(), max - 1));
      Store(name);
    }

    method ParseNames(vbl: Decoder) returns (ok: bool)
      requires vbl.Valid()
      modifies this`nvb, this`tooMany, names, vbl`p
      ensures ok ==> nvb <= names.Length
      ensures ReadNames(old(vbl.Rest()), names.Length)
           == if ok then Some(NameList(names[..nvb], tooMany)) else None
    {
      hide ReadNames, Prefixed;
      ghost var s := vbl.Rest();
      nvb := 0;
      tooMany := false;
      ok := true;
      assert names[..0] == [];
      PrefixedNothing(ReadNames(s, names.Length));
      while !vbl.Done()
        invariant vbl.Valid() && nvb <= names.Length && !tooMany && ok
        invariant ReadNames(s, names.Length) == Outcome(vbl)
        decreases vbl.end - vbl.p
      {
        ok := ParseVarBind(vbl);
        if !ok || tooMany { return; }
      }
      NoMoreNames(vbl.Rest(), names.Length - nvb);
      PrefixedEnd(names[..nvb], false);
    }

    method Store(name: Oid)
      requires nvb < names.Length
      modifies this`nvb, names
      ensures nvb == old(nvb) + 1 && names[..nvb] == old(names[..nvb]) + [name]
    {
      names[nvb] := name;
      nvb := nvb + 1;
      assert names[..nvb] == old(names[..nvb]) + [name];
    }
  }

  lemma NoMoreNames(s: Bytes, max: nat)
    requires s == []
    ensures ReadNames(s, max) == Some(NameList([], false))
  {
  }

  /** Names already stored, in front of what the rest of the list gives. */
  function Prefixed(names: seq<Oid>, rest: Option<NameList>): Option<NameList> {
    match rest
    case None => None
    case Some(r) => Some(NameList(names + r.names, r.tooMany))
  }

  lemma PrefixedEnd(names: seq<Oid>, tooMany: bool)
    ensures Prefixed(names, Some(NameList([], tooMany))) == Some(NameList(names, tooMany))
  {
    assert names + [] == names;
  }

  lemma PrefixedNothing(rest: Option<NameList>)
    ensures Prefixed([], rest) == rest
  {
    if rest.Some? { assert [] + rest.value.names == rest.value.names; }
  }

  lemma PrefixedSnoc(names: seq<Oid>, name: Oid, rest: Option<NameList>)
    ensures Prefixed(names, Prefixed([name], rest)) == Prefixed(names + [name], rest)
  {
    if rest.Some? { assert names + ([name] + rest.value.names) == names + [name] + rest.value.names; }
  }

  class Agent {
    const cfg: Config
    const mib: LeafTable
    const tx: array<byte>
    const r: ParsedRequest

    ghost predicate Valid()
      reads this, mib, mib.leaves
    {
      && cfg.Ok() && tx.Length == cfg.txSize && r.names.Length == cfg.maxReq
      && mib.Valid() && Sorted(mib.Contents())
      && tx as object != r.names as object && tx as object != mib.leaves as object
      && r.names as object != mib.leaves as object
    }

    constructor (cfg: Config, mib: LeafTable)
      requires cfg.Ok() && mib.Valid() && Sorted(mib.Contents())
      ensures Valid() && fresh(tx) && fresh(r) && fresh(r.names)
      ensures this.cfg == cfg && this.mib == mib
    {
      this.cfg, this.mib := cfg, mib;
      tx := new byte[cfg.txSize];
      r := new ParsedRequest(cfg.maxReq);
    }

    /** The reply at the tail of the transmit buffer; length 0 is "send nothing". */
    ghost predicate Sent(len: nat, reply: Option<Bytes>)
      reads tx
    {
      match reply
      case None => len == 0
      case Some(b) => len == |b| && 0 < len <= tx.Length && tx[tx.Length - len..] == b
    }

    /** Encode one message into the transmit buffer. */
    method Send(requestId: int32, status: int32, index: int32, env: Env, vbs: seq<RespVb>)
      returns (len: nat)
      requires Valid() && EnvOk(env) && AllRespOk(mib.Contents(), vbs)
      modifies tx
      ensures Valid()
      ensures Sent(len, Fit(cfg, Message(cfg.community, PDU_RESPONSE, requestId, status, index,
                                         ToVarBinds(mib.Contents(), env, vbs))))
    {
      hide Encode, ToVarBinds;
      var e := new Encoder(tx);
      len := EncodeResponse(e, requestId, status, index, cfg.community,
                            mib.leaves[..mib.count], env, vbs);
      ghost var m := Message(cfg.community, PDU_RESPONSE, requestId, status, index,
                             ToVarBinds(mib.Contents(), env, vbs));
      assert Encode(m) + [] == Encode(m);
    }

    method SendError(status: int32, index: int32, env: Env) returns (len: nat)
      requires Valid() && EnvOk(env) && r.nvb <= r.names.Length
      modifies tx
      ensures Valid()
      ensures Sent(len, Fit(cfg, ErrorMessage(cfg, r.Value(), status, index)))
    {
      assert ToVarBinds(mib.Contents(), env, []) == [];
      len := Send(r.requestId, status, index, env, []);
    }

    /** handle_request. */
    method HandleRequest(buf: array<byte>, n: nat, env: Env) returns (len: nat)
      requires Valid() && EnvOk(env) && n <= buf.Length
      modifies tx, r, r.names
      ensures Valid()
      ensures Sent(len, Respond(cfg, mib.Contents(), env, old(buf[..n])))
    {
      var ok := r.Parse(buf, n, cfg.community);
      if !ok {
        return 0;
      }
      if r.tooMany {
        len := SendError(ERR_TOO_BIG, 0, env);
        return;
      }
      if r.pdu == PDU_SET {
        len := SendError(ERR_NOT_WRITABLE, 1, env);
        return;
      }
      len := Answer(env);
    }

    /** Plan and send the answer, or tooBig when it does not fit one datagram. */
    method Answer(env: Env) returns (len: nat)
      requires Valid() && EnvOk(env) && r.nvb <= r.names.Length
      requires !r.tooMany && r.pdu != PDU_SET
      modifies tx
      ensures Valid()
      ensures Sent(len, Reply(cfg, mib.Contents(), env, r.Value()))
    {
      hide Encode, BulkAnswer, Answers;
      ghost var L := mib.Contents();
      var names := r.names[..r.nvb];
      var vbs;
      if r.pdu == PDU_GET {
        vbs := PlanGet(mib, names, env);
        assert ToVarBinds(L, env, vbs) == GetAnswers(L, env, names);
      } else if r.pdu == PDU_GETNEXT {
        vbs := PlanGetNext(mib, names, env);
      } else if r.pdu == PDU_GETBULK {
        vbs := PlanGetBulk(mib, Request(r.pdu, r.requestId, r.f2, r.f3, names, r.tooMany),
                           cfg.MaxResp(), env);
      } else {
        len := SendError(ERR_GEN_ERR, 0, env);
        return;
      }
      len := Send(r.requestId, ERR_NONE, 0, env, vbs);
      if len == 0 {
        len := SendError(ERR_TOO_BIG, 0, env);
      }
    }
  }
}
