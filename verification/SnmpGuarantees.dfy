/** What a manager can rely on: answers are complete or tooBig, and exactly when
    the names in them are the names that were asked for. */
module SnmpGuarantees {
  import opened Common
  import opened BerSpec
  import opened Mib
  import opened SnmpMessage
  import opened SnmpValues
  import opened SnmpPlan
  import opened SnmpRepetitions
  import opened SnmpBulk
  import opened SnmpAgent

  // ----- the request list -----

  /** How many varbinds a list holds: the SEQUENCEs it starts with. */
  ghost function ListLength(s: Bytes): nat
    decreases |s|
  {
    var vb := ReadTagged(s, TAG_SEQUENCE);
    ReadTaggedShrinks(s, TAG_SEQUENCE);
    if vb.None? then 0 else 1 + ListLength(vb.value.rest)
  }

  lemma ReadTaggedEmpty(tag: byte)
    ensures ReadTagged([], tag) == None
  {
  }

  /** A parsed list never silently loses a varbind: either all its names are
      kept, or it is marked as too long. */
  lemma {:induction false} ReadNamesComplete(s: Bytes, max: nat)
    requires ReadNames(s, max).Some?
    ensures var list := ReadNames(s, max).value;
      && |list.names| == Min(ListLength(s), max)
      && (list.tooMany <==> ListLength(s) > max)
    decreases |s|
  {
    hide ReadTagged, ReadOid;
    ReadTaggedEmpty(TAG_SEQUENCE);
    if s != [] && max > 0 {
      ReadTaggedShrinks(s, TAG_SEQUENCE);
      ReadNamesComplete(ReadTagged(s, TAG_SEQUENCE).value.rest, max - 1);
    }
  }

  /** What every name read from a datagram looks like. */
  predicate Parsed(name: Oid) {
    2 <= |name| <= MAX_OID_LEN && name[1] < 40
  }

  lemma ReadOidParsed(s: Bytes)
    ensures ReadOid(s).Some? ==> Parsed(ReadOid(s).value.0)
  {
    var t := ReadTagged(s, TAG_OID);
    if t.Some? && t.value.content != [] {
      ReadSubIdsBounded(t.value.content[1..], MAX_OID_LEN - 2);
    }
  }

  lemma {:induction false} ReadNamesParsed(s: Bytes, max: nat)
    requires ReadNames(s, max).Some?
    ensures forall i :: 0 <= i < |ReadNames(s, max).value.names| ==>
        Parsed(ReadNames(s, max).value.names[i])
    decreases |s|
  {
    hide ReadTagged, ReadOid;
    if s != [] && max > 0 {
      var vb := ReadTagged(s, TAG_SEQUENCE).value;
      ReadTaggedShrinks(s, TAG_SEQUENCE);
      ReadOidParsed(vb.content);
      ReadNamesParsed(vb.rest, max - 1);
    }
  }

  lemma RequestNamesParsed(s: Bytes, want: Bytes, max: nat)
    requires ParseRequest(s, want, max).Some?
    ensures forall i :: 0 <= i < |ParseRequest(s, want, max).value.names| ==>
        Parsed(ParseRequest(s, want, max).value.names[i])
  {
    hide ReadNames, OpenMessage, PassCommunity;
    var pdu := PassCommunity(OpenMessage(s).value, want).value;
    var s1 := ReadInt(pdu.content).value.1;
    var s2 := ReadInt(s1).value.1;
    var s3 := ReadInt(s2).value.1;
    ReadNamesParsed(ReadTagged(s3, TAG_SEQUENCE).value.content, max);
  }

  // ----- names in the answers -----

  /** GET answers under the requested name. */
  lemma {:induction false} ExactNames(L: seq<Leaf>, oid: Oid, i: nat)
    requires i <= |L|
    ensures var r := Exact(L, oid, i); r.Some? ==> LeafOid(L[r.value]) == oid
    decreases |L| - i
  {
    if i < |L| && LeafOid(L[i]) != oid { ExactNames(L, oid, i + 1); }
  }

  /** A parsed name the codec cannot write back lies above the whole MIB. */
  lemma {:induction false} UnencodableIsAboveMib(L: seq<Leaf>, name: Oid, i: nat)
    requires Parsed(name) && !Encodable(name) && i <= |L|
    ensures NextFrom(L, name, i) == |L|
    decreases |L| - i
  {
    if i < |L| {
      assert LeafOid(L[i])[0] == 1 && name[0] >= 3;
      UnencodableIsAboveMib(L, name, i + 1);
    }
  }

  /** Whether an answer's name survives the wire is decided by the requested name. */
  lemma AnswerNameEncodable(L: seq<Leaf>, env: Env, name: Oid)
    requires Parsed(name)
    ensures GetAnswer(L, env, name).name == name
    ensures Encodable(NextAnswer(L, env, name).name) <==> Encodable(name)
  {
    ExactNames(L, name, 0);
    var i := Next(L, name);
    if i < |L| { LeafOidEncodable(L[i]); }
    if !Encodable(name) { UnencodableIsAboveMib(L, name, 0); }
  }

  lemma AnswersEncodable(L: seq<Leaf>, env: Env, names: seq<Oid>, vbs: seq<VarBind>)
    requires forall i :: 0 <= i < |names| ==> Parsed(names[i])
    requires vbs == GetAnswers(L, env, names) || vbs == Answers(L, env, names)
    ensures |vbs| == |names|
    ensures AllEncodable(vbs) <==> forall i :: 0 <= i < |names| ==> Encodable(names[i])
  {
    AllEncodableMeans(vbs);
    forall i | 0 <= i < |names|
      ensures Encodable(vbs[i].name) <==> Encodable(names[i])
    {
      AnswerNameEncodable(L, env, names[i]);
    }
  }

  // ----- the guarantee -----

  function FullMessage(cfg: Config, r: Request, vbs: seq<VarBind>): Message {
    Message(cfg.community, PDU_RESPONSE, r.requestId, ERR_NONE, 0, vbs)
  }

  /** For every datagram parsed as a GET or GETNEXT (section 4.2.1 of RFC 3416),
      when the community leaves room for the error reply:
      - the agent replies;
      - the reply is tooBig, with index 0 and an empty list, exactly when the
        request holds more names than the agent keeps or the full answer does not
        fit, and then it decodes to just that;
      - otherwise it has one varbind per requested name, in order, and decodes to
        exactly those varbinds if and only if every requested name is encodable. */
  lemma CompleteOrTooBig(cfg: Config, L: seq<Leaf>, env: Env, datagram: Bytes)
    requires cfg.Ok() && Sorted(L)
    requires ParseRequest(datagram, cfg.community, cfg.maxReq).Some?
    requires var r := ParseRequest(datagram, cfg.community, cfg.maxReq).value;
      && (r.pdu == PDU_GET || r.pdu == PDU_GETNEXT)
      && |Encode(ErrorMessage(cfg, r, ERR_TOO_BIG, 0))| <= cfg.txSize
    ensures var r := ParseRequest(datagram, cfg.community, cfg.maxReq).value;
      var error := ErrorMessage(cfg, r, ERR_TOO_BIG, 0);
      var full := FullMessage(cfg, r, Plan(cfg, L, env, r).value);
      var reply := Respond(cfg, L, env, datagram);
      && |full.vbs| == |r.names|
      && reply.Some?
      && (if r.tooMany || |Encode(full)| > cfg.txSize
          then Decode(reply.value) == Some(error)
          else && reply.value == Encode(full)
               && (Decode(reply.value) == Some(full)
                   <==> forall i :: 0 <= i < |r.names| ==> Encodable(r.names[i])))
  {
    hide Encode, Decode, GetAnswers, Answers, ParseRequest, Encodable, Parsed;
    var r := ParseRequest(datagram, cfg.community, cfg.maxReq).value;
    var error := ErrorMessage(cfg, r, ERR_TOO_BIG, 0);
    var vbs := Plan(cfg, L, env, r).value;
    RequestNamesParsed(datagram, cfg.community, cfg.maxReq);
    AnswersEncodable(L, env, r.names, vbs);
    DecodeOfEncode(error);
    if |Encode(FullMessage(cfg, r, vbs))| <= cfg.txSize {
      DecodeOfEncode(FullMessage(cfg, r, vbs));
    }
  }

  /** The names a GETBULK answers: without repetitions only the first ones. */
  function Answered(r: Request): seq<Oid> {
    if r.f3 > 0 then r.names else r.names[..NonRepeaters(r)]
  }

  /** The same for GETBULK, whose varbinds are the planned ones. */
  lemma BulkOrTooBig(cfg: Config, L: seq<Leaf>, env: Env, datagram: Bytes)
    requires cfg.Ok() && Sorted(L)
    requires ParseRequest(datagram, cfg.community, cfg.maxReq).Some?
    requires var r := ParseRequest(datagram, cfg.community, cfg.maxReq).value;
      && r.pdu == PDU_GETBULK
      && |Encode(ErrorMessage(cfg, r, ERR_TOO_BIG, 0))| <= cfg.txSize
    ensures var r := ParseRequest(datagram, cfg.community, cfg.maxReq).value;
      var full := FullMessage(cfg, r, BulkAnswer(L, env, r, cfg.MaxResp()));
      var reply := Respond(cfg, L, env, datagram);
      && reply.Some?
      && (if r.tooMany || |Encode(full)| > cfg.txSize
          then Decode(reply.value) == Some(ErrorMessage(cfg, r, ERR_TOO_BIG, 0))
          else && reply.value == Encode(full)
               && (Decode(reply.value) == Some(full)
                   <==> forall i :: 0 <= i < |Answered(r)| ==> Encodable(Answered(r)[i])))
  {
    hide Encode, Decode, BulkAnswer, ParseRequest, Encodable, Parsed, Answered;
    var r := ParseRequest(datagram, cfg.community, cfg.maxReq).value;
    DecodeOfEncode(ErrorMessage(cfg, r, ERR_TOO_BIG, 0));
    var full := FullMessage(cfg, r, BulkAnswer(L, env, r, cfg.MaxResp()));
    RequestNamesParsed(datagram, cfg.community, cfg.maxReq);
    RequestNamesFit(datagram, cfg.community, cfg.maxReq);
    BulkEncodable(L, env, r, cfg.MaxResp());
    if |Encode(full)| <= cfg.txSize { DecodeOfEncode(full); }
  }

  /** Whether the names of a GETBULK answer survive the wire is decided by the names
      it answers: every repeater has a slot in the first round, which always fits. */
  lemma BulkEncodable(L: seq<Leaf>, env: Env, r: Request, cap: nat)
    requires Sorted(L) && |r.names| <= cap
    requires forall i :: 0 <= i < |r.names| ==> Parsed(r.names[i])
    ensures AllEncodable(BulkAnswer(L, env, r, cap))
       <==> forall i :: 0 <= i < |Answered(r)| ==> Encodable(Answered(r)[i])
  {
    hide Parsed, Encodable, Answers, RoundRobin, Chains, AllEncodable, Round;
    NonRepeatersIsClamp(r);
    var nonRep := NonRepeaters(r);
    var asked, repeated := r.names[..nonRep], r.names[nonRep..];
    var reps := if r.f3 < 0 then 0 else r.f3;
    var first, rounds := Answers(L, env, asked), RoundRobin(Chains(L, env, repeated), reps);
    AllEncodableConcat(first, rounds);
    AnswersEncodable(L, env, asked, first);
    if reps == 0 {
      NoRounds(Chains(L, env, repeated), reps);
      assert first + rounds == first && Answered(r) == asked;
      assert AllEncodable(Take(first + rounds, cap)) <==> AllEncodable(first);
    } else {
      assert r.names == asked + repeated;
      AnswersEncodable(L, env, r.names, Answers(L, env, r.names));
      FirstRound(L, env, asked, repeated, reps);
      assert Take(Take(first + rounds, cap), |r.names|) == Answers(L, env, r.names);
      AllEncodableTake(Take(first + rounds, cap), |r.names|);
      if forall i :: 0 <= i < |r.names| ==> Encodable(r.names[i]) {
        RoundsEncodable(L, env, repeated, reps);
        assert AllEncodable(first);
        assert AllEncodable(first + rounds);
      }
      assert Answered(r) == r.names;
    }
    AllEncodableTake(first + rounds, cap);
  }

  lemma {:induction false} AllEncodableConcat(a: seq<VarBind>, b: seq<VarBind>)
    ensures AllEncodable(a + b) <==> AllEncodable(a) && AllEncodable(b)
  {
    if a == [] {
      assert a + b == b;
    } else {
      assert (a + b)[1..] == a[1..] + b;
      AllEncodableConcat(a[1..], b);
    }
  }

  lemma AllEncodableTake(vbs: seq<VarBind>, n: nat)
    ensures AllEncodable(vbs) ==> AllEncodable(Take(vbs, n))
  {
    if n < |vbs| {
      assert vbs == vbs[..n] + vbs[n..];
      AllEncodableConcat(vbs[..n], vbs[n..]);
    }
  }

  /** Every slot of a chain has an encodable name if the request name is one. */
  lemma ChainEncodable(L: seq<Leaf>, env: Env, name: Oid, k: nat)
    requires Sorted(L) && Encodable(name) && k < |Chain(L, env, name)|
    ensures Encodable(Chain(L, env, name)[k].name)
  {
    hide LeafOid, LeafValue, Next, Chain, Encodable;
    ChainShape(L, env, name);
    ChainSlot(L, env, name, k);
    var i := Next(L, name) + k;
    if i < |L| { LeafOidEncodable(L[i]); } else if k > 0 { LeafOidEncodable(L[i - 1]); }
  }

  ghost predicate ChainsEncodable(chains: seq<seq<VarBind>>) {
    forall i, k :: 0 <= i < |chains| && 0 <= k < |chains[i]| ==> Encodable(chains[i][k].name)
  }

  lemma {:induction false} RoundEncodable(chains: seq<seq<VarBind>>, k: nat, j: nat)
    requires ChainsEncodable(chains) && j <= |chains|
    ensures AllEncodable(Round(chains, k, j))
  {
    hide Encodable;
    if j > 0 {
      RoundEncodable(chains, k, j - 1);
      var c := chains[j - 1];
      var slot := if k < |c| then [c[k]] else [];
      AllEncodableConcat(Round(chains, k, j - 1), slot);
      assert slot != [] ==> slot[1..] == [];
    }
  }

  lemma {:induction false} RoundRobinEncodable(chains: seq<seq<VarBind>>, reps: nat)
    requires ChainsEncodable(chains)
    ensures AllEncodable(RoundRobin(chains, reps))
  {
    hide ChainsEncodable, Round;
    if reps > 0 {
      RoundRobinEncodable(chains, reps - 1);
      RoundEncodable(chains, reps - 1, |chains|);
      AllEncodableConcat(RoundRobin(chains, reps - 1), Round(chains, reps - 1, |chains|));
    }
  }

  lemma RoundsEncodable(L: seq<Leaf>, env: Env, names: seq<Oid>, reps: nat)
    requires Sorted(L)
    requires forall i :: 0 <= i < |names| ==> Encodable(names[i])
    ensures AllEncodable(RoundRobin(Chains(L, env, names), reps))
  {
    hide Chain, Encodable;
    var chains: seq<seq<VarBind>> := Chains(L, env, names);
    forall i, k | 0 <= i < |chains| && 0 <= k < |chains[i]|
      ensures Encodable(chains[i][k].name)
    {
      ChainEncodable(L, env, names[i], k);
    }
    RoundRobinEncodable(chains, reps);
  }

  lemma RequestNamesFit(s: Bytes, want: Bytes, max: nat)
    requires ParseRequest(s, want, max).Some?
    ensures |ParseRequest(s, want, max).value.names| <= max
  {
    hide ReadNames, OpenMessage, PassCommunity;
    var pdu := PassCommunity(OpenMessage(s).value, want).value;
    var s1 := ReadInt(pdu.content).value.1;
    var s2 := ReadInt(s1).value.1;
    var s3 := ReadInt(s2).value.1;
    ReadNamesComplete(ReadTagged(s3, TAG_SEQUENCE).value.content, max);
  }

  /** An error reply: the request's id, a status and an index, and an empty list. */
  ghost predicate Refuses(cfg: Config, L: seq<Leaf>, env: Env, datagram: Bytes, status: int32, index: int32)
    requires Sorted(L) && ParseRequest(datagram, cfg.community, cfg.maxReq).Some?
  {
    var r := ParseRequest(datagram, cfg.community, cfg.maxReq).value;
    var m := Message(cfg.community, 0xA2, r.requestId, status, index, []);
    Respond(cfg, L, env, datagram) == if |Encode(m)| <= cfg.txSize then Some(Encode(m)) else None
  }

  /** Which requests are refused, and which answers the others get, by PDU tag: 0xA0 GET,
      0xA1 GETNEXT, 0xA3 SET, 0xA5 GETBULK. tooBig is 1, genErr 5 and notWritable 17. */
  lemma RefusedOrServed(cfg: Config, L: seq<Leaf>, env: Env, datagram: Bytes)
    requires Sorted(L) && ParseRequest(datagram, cfg.community, cfg.maxReq).Some?
    ensures var r := ParseRequest(datagram, cfg.community, cfg.maxReq).value;
      && (r.tooMany ==> Refuses(cfg, L, env, datagram, 1, 0))
      && (!r.tooMany && r.pdu == 0xA3 ==> Refuses(cfg, L, env, datagram, 17, 1))
      && (!r.tooMany && r.pdu !in [0xA0, 0xA1, 0xA3, 0xA5] ==> Refuses(cfg, L, env, datagram, 5, 0))
      && (r.pdu == 0xA0 ==> Plan(cfg, L, env, r) == Some(GetAnswers(L, env, r.names)))
      && (r.pdu == 0xA1 ==> Plan(cfg, L, env, r) == Some(Answers(L, env, r.names)))
      && (r.pdu == 0xA5 ==> Plan(cfg, L, env, r) == Some(BulkAnswer(L, env, r, cfg.maxReq + 16)))
  {
    hide Encode, ParseRequest, GetAnswers, Answers, BulkAnswer;
  }

  /** A request for an OID that starts with the octet 0x80 is answered under
      another name: it is read as 3.8, and 3.8 is written as 0x81 0x00. */
  lemma EchoChangesWideNames()
    ensures ReadOidOctets([0x80], MAX_OID_LEN) == Some([3, 8])
    ensures OidOctets([3, 8]) == [0x81, 0x00]
    ensures ReadOidOctets([0x81, 0x00], MAX_OID_LEN) == Some([3, 9, 0])
  {
    ReadWideOctet();
    WriteWideName();
    ReadTwoOctets();
  }

  lemma ReadWideOctet()
    ensures ReadOidOctets([0x80], MAX_OID_LEN) == Some([3, 8])
  {
    var c: Bytes := [0x80];
    assert c[1..] == [];
    assert ReadSubIds(c[1..], 30) == Some([]);
    var first: Oid := [3, 8];
    assert first + [] == first;
  }

  lemma WriteWideName()
    ensures OidOctets([3, 8]) == [0x81, 0x00]
  {
    var oid: Oid := [3, 8];
    assert oid[2..] == [] && FirstSubId(oid) == 128;
    assert HighGroups(0) == [];
    assert HighGroups(1) == [0x81];
    assert SubId(128) == [0x81, 0x00];
  }

  lemma ReadTwoOctets()
    ensures ReadOidOctets([0x81, 0x00], MAX_OID_LEN) == Some([3, 9, 0])
  {
    var c: Bytes, zero: Oid := [0x81, 0x00], [0];
    assert SubId(0) == [0x00];
    assert zero[1..] == [];
    assert c[1..] == SubIds(zero);
    ReadSubIdsOfSubIds(zero, MAX_OID_LEN - 2);
    var first: Oid := [3, 9];
    assert first + zero == [3, 9, 0];
  }
}
