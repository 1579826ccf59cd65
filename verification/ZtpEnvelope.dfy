/** The canonical enrollment request (ztp_envelope.c): members in sorted order, and
    no two requests with the same bytes. */
module ZtpEnvelope {
  import opened Common
  import Rfc3339

  datatype Request = Request(
    deviceId: string, hostname: string, model: string, mac: string, agentVersion: string,
    unixS: int, maxResponse: int, nonce: string, publicKey: string, ephemeral: string)

  datatype Rendered = Text(s: string) | BadValue | NoSpace

  /** What needs no escaping. */
  predicate Plain(s: string) {
    forall i :: 0 <= i < |s| ==> ' ' <= s[i] <= '~' && s[i] != '"' && s[i] != '\\'
  }

  method JsonPlain(s: string) returns (plain: bool)
    ensures plain == Plain(s)
  {
    for i := 0 to |s|
      invariant forall k :: 0 <= k < i ==> ' ' <= s[k] <= '~' && s[k] != '"' && s[k] != '\\'
    {
      if s[i] < ' ' || s[i] > '~' || s[i] == '"' || s[i] == '\\' { return false; }
    }
    plain := true;
  }

  // ----- the format string, member by member -----

  /** printf's %d. */
  function Int(v: int): string { if v >= 0 then Rfc3339.Decimal(v) else "-" + Rfc3339.Decimal(-v) }

  /** "key":"value" */
  function Str(key: string, v: string): string { "\"" + (key + ("\":\"" + (v + "\""))) }

  const CAPABILITIES: string := "[\"wifi.v2\",\"c8y.v2\"]"

  const MAC_KEY: string := ",\"mac_addresses\":[\""

  /** mac_addresses, left out when there is no address. */
  function WholeMac(mac: string): string { if mac == "" then "" else MAC_KEY + (mac + "\"]") }

  /** The buffer holds 47 characters of it. */
  function MacField(mac: string): string { Take(WholeMac(mac), 47) }

  function TimeOn(q: Request): string { "," + (Str("timestamp", Rfc3339.Format(q.unixS)) + "}") }

  function KeyOn(q: Request): string {
    "," + (Str("public_key", q.publicKey) + ("," + (Str("response_format", "text") + TimeOn(q))))
  }

  function NonceOn(q: Request): string {
    "," + (Str("nonce", q.nonce) + ("," + (Str("protocol_version", "1") + KeyOn(q))))
  }

  function SizeOn(q: Request): string {
    "," + ("\"max_response_bytes\":" + (Int(q.maxResponse) + NonceOn(q)))
  }

  function ModelOn(q: Request): string {
    "," + (Str("model", q.model) + ("," + (Str("os", "zephyr") + ("}" + SizeOn(q)))))
  }

  /** The facts, with the address field as given. */
  function FactsOn(q: Request, macField: string): string {
    "," + ("\"facts\":{" + (Str("agent_version", q.agentVersion)
    + ("," + (Str("hostname", q.hostname) + (macField + ModelOn(q))))))
  }

  function TextOn(q: Request, macField: string): string {
    "{" + ("\"capabilities\":" + (CAPABILITIES + ("," + (Str("device_id", q.deviceId)
    + ("," + (Str("ephemeral_p256", q.ephemeral) + FactsOn(q, macField)))))))
  }

  function Canonical(q: Request): string { TextOn(q, MacField(q.mac)) }

  /** ztp_request_canonical; None is a string that is not there. */
  method RequestCanonical(strs: seq<Option<string>>, unixS: int, maxResponse: int, nonce: string,
                          publicKey: string, ephemeral: string, outSize: nat) returns (r: Rendered)
    requires |strs| == 5
    ensures r.BadValue? <==> exists i :: 0 <= i < 5 && (strs[i].None? || !Plain(strs[i].value))
    ensures !r.BadValue? ==>
        var q := Request(strs[0].value, strs[1].value, strs[2].value, strs[3].value, strs[4].value,
                         unixS, maxResponse, nonce, publicKey, ephemeral);
        r == if |Canonical(q)| >= outSize then NoSpace else Text(Canonical(q))
  {
    hide Canonical;
    for i := 0 to 5
      invariant forall k :: 0 <= k < i ==> strs[k].Some? && Plain(strs[k].value)
    {
      if strs[i].None? { return BadValue; }
      var plain := JsonPlain(strs[i].value);
      if !plain { return BadValue; }
    }
    var text := Canonical(Request(strs[0].value, strs[1].value, strs[2].value, strs[3].value, strs[4].value,
                                  unixS, maxResponse, nonce, publicKey, ephemeral));
    r := if |text| >= outSize then NoSpace else Text(text);
  }

  // ----- JSON objects -----

  datatype Member = Member(key: string, value: string)

  function Quote(s: string): string { "\"" + (s + "\"") }

  function MemberText(m: Member): string { "\"" + (m.key + ("\":" + m.value)) }

  function MembersText(ms: seq<Member>): string {
    if ms == [] then ""
    else if |ms| == 1 then MemberText(ms[0])
    else MemberText(ms[0]) + ("," + MembersText(ms[1..]))
  }

  function Object(ms: seq<Member>): string { "{" + (MembersText(ms) + "}") }

  /** Members in the order of section 3.2.3 of RFC 8785; for ASCII keys that is the
      order of their characters. */
  predicate Sorted(ms: seq<Member>) {
    forall i :: 0 <= i < |ms| - 1 ==> Rfc3339.Less(ms[i].key, ms[i + 1].key)
  }

  function FactMembers(q: Request): seq<Member> {
    [Member("agent_version", Quote(q.agentVersion)), Member("hostname", Quote(q.hostname))]
    + (if q.mac == "" then [] else [Member("mac_addresses", "[" + (Quote(q.mac) + "]"))])
    + [Member("model", Quote(q.model)), Member("os", Quote("zephyr"))]
  }

  function KeyAt(i: nat): (r: string)
    requires i < 10
    ensures r != ""
  {
    if i == 0 then "capabilities" else if i == 1 then "device_id" else if i == 2 then "ephemeral_p256"
    else if i == 3 then "facts" else if i == 4 then "max_response_bytes" else if i == 5 then "nonce"
    else if i == 6 then "protocol_version" else if i == 7 then "public_key"
    else if i == 8 then "response_format" else "timestamp"
  }

  function ValueAt(q: Request, i: nat): string
    requires i < 10
  {
    if i == 0 then CAPABILITIES else if i == 1 then Quote(q.deviceId) else if i == 2 then Quote(q.ephemeral)
    else if i == 3 then Object(FactMembers(q)) else if i == 4 then Int(q.maxResponse)
    else if i == 5 then Quote(q.nonce) else if i == 6 then Quote("1") else if i == 7 then Quote(q.publicKey)
    else if i == 8 then Quote("text") else Quote(Rfc3339.Format(q.unixS))
  }

  function Members(q: Request): (r: seq<Member>)
    ensures |r| == 10 && forall i :: 0 <= i < 10 ==> r[i] == Member(KeyAt(i), ValueAt(q, i))
  {
    seq(10, i requires 0 <= i < 10 => Member(KeyAt(i), ValueAt(q, i)))
  }

  // ----- one request for given bytes -----

  predicate NoQuote(s: string) { '"' !in s }

  /** A string member ends at the next quote. */
  lemma PeelStr(key: string, v: string, v': string, rest: string, rest': string)
    requires NoQuote(v) && NoQuote(v') && Str(key, v) + rest == Str(key, v') + rest'
    ensures v == v' && rest == rest'
  {
    var p := "\"" + (key + "\":\"");
    assert Str(key, v) + rest == p + (v + ("\"" + rest));
    assert Str(key, v') + rest' == p + (v' + ("\"" + rest'));
    SamePrefix<char>(p, v + ("\"" + rest), v' + ("\"" + rest'));
    Cut(v, v', rest, rest', '"');
  }

  lemma Cut(v: string, v': string, rest: string, rest': string, c: char)
    requires c !in v && c !in v' && v + ([c] + rest) == v' + ([c] + rest')
    ensures v == v' && rest == rest'
  {
    var s := v + ([c] + rest);
    assert s[|v|] == c && s[|v'|] == c;
    assert (v' + ([c] + rest'))[|v|] == c && (v + ([c] + rest))[|v'|] == c;
    assert |v| == |v'|;
    assert v == s[..|v|] && v' == s[..|v'|];
    assert rest == s[|v| + 1..] && rest' == s[|v'| + 1..];
  }

  /** The characters of a number. */
  lemma IntChars(v: int)
    ensures ',' !in Int(v)
  {
  }

  lemma {:induction false} DecimalInjective(a: nat, b: nat)
    requires Rfc3339.Decimal(a) == Rfc3339.Decimal(b)
    ensures a == b
  {
    var s, t := Rfc3339.Decimal(a), Rfc3339.Decimal(b);
    assert s[|s| - 1] == t[|t| - 1];
    LastDigit(a);
    LastDigit(b);
    if a >= 10 && b >= 10 {
      assert s[..|s| - 1] == Rfc3339.Decimal(a / 10) && t[..|t| - 1] == Rfc3339.Decimal(b / 10);
      DecimalInjective(a / 10, b / 10);
    }
  }

  lemma LastDigit(n: nat)
    ensures var s := Rfc3339.Decimal(n); s[|s| - 1] == Rfc3339.Digit(n % 10)
    ensures n < 10 <==> |Rfc3339.Decimal(n)| == 1
  {
  }

  lemma IntInjective(a: int, b: int)
    requires Int(a) == Int(b)
    ensures a == b
  {
    assert a < 0 <==> Int(a)[0] == '-';
    assert b < 0 <==> Int(b)[0] == '-';
    if a >= 0 {
      DecimalInjective(a, b);
    } else {
      SamePrefix<char>("-", Rfc3339.Decimal(-a), Rfc3339.Decimal(-b));
      DecimalInjective(-a, -b);
    }
  }

  // ----- the address field -----

  lemma MacKeyLength()
    ensures |MAC_KEY| == 19 && MAC_KEY[3] == 'a'
  {
  }

  /** The address field is whole for at most 26 characters, and 47 long beyond. */
  lemma MacFieldLength(mac: string)
    ensures |mac| <= 26 ==> MacField(mac) == WholeMac(mac)
    ensures |mac| > 26 ==> |MacField(mac)| == 47 < |WholeMac(mac)|
  {
    MacKeyLength();
  }

  /** Addresses the field does not tell apart. */
  predicate SameMac(a: string, b: string) { a == b || (|a| >= 28 && |b| >= 28 && a[..28] == b[..28]) }

  lemma SameMacField(a: string, b: string)
    requires SameMac(a, b)
    ensures MacField(a) == MacField(b)
  {
    if a != b {
      MacKeyLength();
      CutMac(a);
      CutMac(b);
    }
  }

  lemma CutMac(mac: string)
    requires |mac| >= 28
    ensures MacField(mac) == MAC_KEY + mac[..28]
  {
    MacKeyLength();
    var s := MAC_KEY + (mac + "\"]");
    assert s[..47] == MAC_KEY + mac[..28];
  }

  /** What stands before the first quote behind the key, and what behind it. */
  function MacHead(mac: string): string { if |mac| <= 27 then mac else mac[..28] + "," }

  function MacRest(mac: string, rest: string): string
    requires |rest| >= 2
  {
    if |mac| <= 26 then "]" + rest else if |mac| == 27 then rest else rest[2..]
  }

  /** What follows the hostname starts with the address or with the model. */
  predicate AtModel(rest: string) { |rest| >= 4 && rest[0] == ',' && rest[1] == '"' && rest[3] == 'o' }

  lemma MacStarts(mac: string, rest: string)
    requires AtModel(rest)
    ensures var t := MacField(mac) + rest;
      if mac == "" then t == rest
      else |t| >= 4 && t[3] == 'a' && t == MAC_KEY + (MacHead(mac) + (['"'] + MacRest(mac, rest)))
  {
    hide MacField, MacHead, MacRest;
    MacKeyLength();
    if mac == "" {
      NoMac(rest);
    } else if |mac| <= 26 {
      WholeMacStarts(mac, rest);
    } else if |mac| == 27 {
      ClippedMacStarts(mac, rest);
    } else {
      CutMacStarts(mac, rest);
    }
  }

  lemma NoMac(rest: string)
    ensures MacField("") + rest == rest
  {
    assert MacField("") == "";
    assert "" + rest == rest;
  }

  lemma WholeMacStarts(mac: string, rest: string)
    requires 0 < |mac| <= 26 && |rest| >= 2
    ensures MacField(mac) + rest == MAC_KEY + (MacHead(mac) + (['"'] + MacRest(mac, rest)))
  {
    MacFieldLength(mac);
    hide MacField;
    assert "\"]" + rest == ['"'] + ("]" + rest);
    assert MAC_KEY + (mac + "\"]") + rest == MAC_KEY + (mac + ("\"]" + rest));
  }

  lemma ClippedMacStarts(mac: string, rest: string)
    requires |mac| == 27 && |rest| >= 2
    ensures MacField(mac) + rest == MAC_KEY + (MacHead(mac) + (['"'] + MacRest(mac, rest)))
  {
    MacKeyLength();
    var s := MAC_KEY + (mac + "\"]");
    assert s[..47] == MAC_KEY + (mac + ['"']);
    assert MacField(mac) == s[..47];
    hide MacField;
    assert MAC_KEY + (mac + ['"']) + rest == MAC_KEY + (mac + (['"'] + rest));
  }

  lemma CutMacStarts(mac: string, rest: string)
    requires |mac| >= 28 && AtModel(rest)
    ensures MacField(mac) + rest == MAC_KEY + (MacHead(mac) + (['"'] + MacRest(mac, rest)))
  {
    CutMac(mac);
    hide MacField;
    assert rest == [','] + (['"'] + rest[2..]);
    assert MAC_KEY + mac[..28] + ([','] + (['"'] + rest[2..])) == MAC_KEY + (mac[..28] + "," + (['"'] + rest[2..]));
  }

  /** With or without an address, cut or not, what follows the hostname says as much
      of the address as the field holds. */
  lemma PeelMac(mac: string, mac': string, rest: string, rest': string)
    requires NoQuote(mac) && NoQuote(mac') && AtModel(rest) && AtModel(rest')
    requires MacField(mac) + rest == MacField(mac') + rest'
    ensures SameMac(mac, mac') && rest == rest'
  {
    MacStarts(mac, rest);
    MacStarts(mac', rest');
    hide MacField, MacHead, MacRest;
    if mac != "" && mac' != "" {
      var h, h', t, t' := MacHead(mac), MacHead(mac'), MacRest(mac, rest), MacRest(mac', rest');
      SamePrefix<char>(MAC_KEY, h + (['"'] + t), h' + (['"'] + t'));
      HeadNoQuote(mac);
      HeadNoQuote(mac');
      Cut(h, h', t, t', '"');
      HeadsAgree(mac, mac', rest, rest');
    }
  }

  lemma HeadNoQuote(mac: string)
    requires NoQuote(mac)
    ensures NoQuote(MacHead(mac))
  {
  }

  lemma HeadsAgree(mac: string, mac': string, rest: string, rest': string)
    requires AtModel(rest) && AtModel(rest')
    requires MacHead(mac) == MacHead(mac') && MacRest(mac, rest) == MacRest(mac', rest')
    ensures SameMac(mac, mac') && rest == rest'
  {
    if |mac| > 27 {
      assert MacHead(mac)[..28] == mac[..28] && MacHead(mac')[..28] == mac'[..28];
      assert rest == rest[..2] + rest[2..] && rest' == rest'[..2] + rest'[2..];
      assert rest[..2] == rest'[..2];
    } else if |mac| <= 26 {
      SamePrefix<char>("]", rest, rest');
    }
  }

  /** Two addresses render to the same field exactly when they are equal, or both
      have at least 28 characters and the first 28 in common. */
  lemma MacFieldsExactly(a: string, b: string)
    requires NoQuote(a) && NoQuote(b)
    ensures MacField(a) == MacField(b) <==> SameMac(a, b)
  {
    if MacField(a) == MacField(b) {
      PeelMac(a, b, ",\"mo", ",\"mo");
    } else if SameMac(a, b) {
      SameMacField(a, b);
    }
  }

  /** What the source asks of a request: plain strings and base64 keys. */
  ghost predicate Clean(q: Request) {
    && Plain(q.deviceId) && Plain(q.hostname) && Plain(q.model) && Plain(q.mac) && Plain(q.agentVersion)
    && NoQuote(q.nonce) && NoQuote(q.publicKey) && NoQuote(q.ephemeral)
  }

  lemma TimeInjective(q: Request, r: Request)
    requires KeyOn(q) == KeyOn(r) && NoQuote(q.publicKey) && NoQuote(r.publicKey)
    ensures q.publicKey == r.publicKey && Rfc3339.Format(q.unixS) == Rfc3339.Format(r.unixS)
  {
    hide Str;
    var k, l := "," + (Str("response_format", "text") + TimeOn(q)), "," + (Str("response_format", "text") + TimeOn(r));
    SamePrefix<char>(",", Str("public_key", q.publicKey) + k, Str("public_key", r.publicKey) + l);
    PeelStr("public_key", q.publicKey, r.publicKey, k, l);
    SamePrefix<char>(",", Str("response_format", "text") + TimeOn(q), Str("response_format", "text") + TimeOn(r));
    SamePrefix<char>(Str("response_format", "text"), TimeOn(q), TimeOn(r));
    var t, u := Rfc3339.Format(q.unixS), Rfc3339.Format(r.unixS);
    SamePrefix<char>(",", Str("timestamp", t) + "}", Str("timestamp", u) + "}");
    SameStr(t, u);
  }

  lemma SameStr(t: string, u: string)
    requires Str("timestamp", t) + "}" == Str("timestamp", u) + "}" && |t| == |u|
    ensures t == u
  {
    var p, e := "\"" + ("timestamp" + "\":\""), "\"" + "}";
    assert Str("timestamp", t) + "}" == p + (t + e) && Str("timestamp", u) + "}" == p + (u + e);
    SamePrefix<char>(p, t + e, u + e);
    assert (t + e)[..|t|] == t && (u + e)[..|t|] == u;
  }

  lemma NonceInjective(q: Request, r: Request)
    requires NonceOn(q) == NonceOn(r) && Clean(q) && Clean(r)
    ensures q.nonce == r.nonce && KeyOn(q) == KeyOn(r)
  {
    hide Str, KeyOn, Plain;
    var k, l := "," + (Str("protocol_version", "1") + KeyOn(q)), "," + (Str("protocol_version", "1") + KeyOn(r));
    SamePrefix<char>(",", Str("nonce", q.nonce) + k, Str("nonce", r.nonce) + l);
    PeelStr("nonce", q.nonce, r.nonce, k, l);
    SamePrefix<char>(",", Str("protocol_version", "1") + KeyOn(q), Str("protocol_version", "1") + KeyOn(r));
    SamePrefix<char>(Str("protocol_version", "1"), KeyOn(q), KeyOn(r));
  }

  lemma SizeInjective(q: Request, r: Request)
    requires SizeOn(q) == SizeOn(r)
    ensures q.maxResponse == r.maxResponse && NonceOn(q) == NonceOn(r)
  {
    hide Str, Int, KeyOn;
    var p, a, b := "\"max_response_bytes\":", Int(q.maxResponse), Int(r.maxResponse);
    SamePrefix<char>(",", p + (a + NonceOn(q)), p + (b + NonceOn(r)));
    SamePrefix<char>(p, a + NonceOn(q), b + NonceOn(r));
    IntChars(q.maxResponse);
    IntChars(r.maxResponse);
    var k, l := NonceOn(q)[1..], NonceOn(r)[1..];
    assert NonceOn(q) == [','] + k && NonceOn(r) == [','] + l;
    Cut(a, b, k, l, ',');
    IntInjective(q.maxResponse, r.maxResponse);
  }

  lemma ModelInjective(q: Request, r: Request)
    requires ModelOn(q) == ModelOn(r) && Clean(q) && Clean(r)
    ensures q.model == r.model && SizeOn(q) == SizeOn(r)
  {
    PlainHasNoQuote(q.model);
    PlainHasNoQuote(r.model);
    hide Str, SizeOn, Plain;
    var os := Str("os", "zephyr");
    var k, l := "," + (os + ("}" + SizeOn(q))), "," + (os + ("}" + SizeOn(r)));
    SamePrefix<char>(",", Str("model", q.model) + k, Str("model", r.model) + l);
    PeelStr("model", q.model, r.model, k, l);
    SamePrefix<char>(",", os + ("}" + SizeOn(q)), os + ("}" + SizeOn(r)));
    SamePrefix<char>(os, "}" + SizeOn(q), "}" + SizeOn(r));
    SamePrefix<char>("}", SizeOn(q), SizeOn(r));
  }

  lemma PlainHasNoQuote(s: string)
    requires Plain(s)
    ensures NoQuote(s)
  {
  }

  lemma ModelStarts(q: Request)
    ensures AtModel(ModelOn(q))
  {
    hide Str, SizeOn;
    StrStarts("model", q.model);
    Fourth(",", Str("model", q.model), "," + (Str("os", "zephyr") + ("}" + SizeOn(q))));
  }

  lemma Fourth(a: string, b: string, c: string)
    requires |a| == 1 && |b| >= 3
    ensures var t := a + (b + c);
      |t| >= 4 && t[0] == a[0] && t[1] == b[0] && t[3] == b[2]
  {
  }

  lemma StrStarts(key: string, v: string)
    requires |key| >= 2
    ensures |Str(key, v)| > |key| && Str(key, v)[0] == '"' && Str(key, v)[2] == key[1]
  {
  }

  /** What follows the agent version. */
  function HostOn(q: Request): string {
    "," + (Str("hostname", q.hostname) + (MacField(q.mac) + ModelOn(q)))
  }

  lemma AgentInjective(q: Request, r: Request)
    requires FactsOn(q, MacField(q.mac)) == FactsOn(r, MacField(r.mac))
    requires NoQuote(q.agentVersion) && NoQuote(r.agentVersion)
    ensures q.agentVersion == r.agentVersion && HostOn(q) == HostOn(r)
  {
    hide Str, ModelOn, MacField;
    var f, k, l := "\"facts\":{", HostOn(q), HostOn(r);
    SamePrefix<char>(",", f + (Str("agent_version", q.agentVersion) + k), f + (Str("agent_version", r.agentVersion) + l));
    SamePrefix<char>(f, Str("agent_version", q.agentVersion) + k, Str("agent_version", r.agentVersion) + l);
    PeelStr("agent_version", q.agentVersion, r.agentVersion, k, l);
  }

  lemma HostInjective(q: Request, r: Request)
    requires HostOn(q) == HostOn(r) && NoQuote(q.hostname) && NoQuote(r.hostname)
    requires NoQuote(q.mac) && NoQuote(r.mac)
    ensures q.hostname == r.hostname && SameMac(q.mac, r.mac) && ModelOn(q) == ModelOn(r)
  {
    ModelStarts(q);
    ModelStarts(r);
    hide Str, ModelOn, MacField, AtModel, SameMac;
    var m, n := MacField(q.mac) + ModelOn(q), MacField(r.mac) + ModelOn(r);
    SamePrefix<char>(",", Str("hostname", q.hostname) + m, Str("hostname", r.hostname) + n);
    PeelStr("hostname", q.hostname, r.hostname, m, n);
    PeelMac(q.mac, r.mac, ModelOn(q), ModelOn(r));
  }

  lemma FactsInjective(q: Request, r: Request)
    requires FactsOn(q, MacField(q.mac)) == FactsOn(r, MacField(r.mac)) && Clean(q) && Clean(r)
    ensures q.agentVersion == r.agentVersion && q.hostname == r.hostname && SameMac(q.mac, r.mac)
    ensures ModelOn(q) == ModelOn(r)
  {
    PlainHasNoQuote(q.agentVersion);
    PlainHasNoQuote(r.agentVersion);
    PlainHasNoQuote(q.hostname);
    PlainHasNoQuote(r.hostname);
    PlainHasNoQuote(q.mac);
    PlainHasNoQuote(r.mac);
    hide FactsOn, HostOn, ModelOn, Plain, MacField;
    AgentInjective(q, r);
    HostInjective(q, r);
  }

  lemma HeadInjective(q: Request, r: Request)
    requires Canonical(q) == Canonical(r) && Clean(q) && Clean(r)
    ensures q.deviceId == r.deviceId && q.ephemeral == r.ephemeral
    ensures FactsOn(q, MacField(q.mac)) == FactsOn(r, MacField(r.mac))
  {
    PlainHasNoQuote(q.deviceId);
    PlainHasNoQuote(r.deviceId);
    hide Str, FactsOn, Plain, MacField;
    var p, c, fq, fr := "\"capabilities\":", CAPABILITIES, FactsOn(q, MacField(q.mac)), FactsOn(r, MacField(r.mac));
    var m, n := Str("ephemeral_p256", q.ephemeral) + fq, Str("ephemeral_p256", r.ephemeral) + fr;
    var k, l := Str("device_id", q.deviceId) + ("," + m), Str("device_id", r.deviceId) + ("," + n);
    SamePrefix<char>("{", p + (c + ("," + k)), p + (c + ("," + l)));
    SamePrefix<char>(p, c + ("," + k), c + ("," + l));
    SamePrefix<char>(c, "," + k, "," + l);
    SamePrefix<char>(",", k, l);
    PeelStr("device_id", q.deviceId, r.deviceId, "," + m, "," + n);
    SamePrefix<char>(",", m, n);
    PeelStr("ephemeral_p256", q.ephemeral, r.ephemeral, fq, fr);
  }

  /** All but the time and the address. */
  function Others(q: Request): Request { q.(unixS := 0, mac := "") }

  predicate FourDigitYear(q: Request) { 0 <= Rfc3339.YearOf(q.unixS) <= 9999 }

  /** Equal bytes are equal requests, an absent address included, as far as the
      timestamp tells times and the address field tells addresses apart. */
  lemma CanonicalInjective(q: Request, r: Request)
    requires Clean(q) && Clean(r)
    ensures Canonical(q) == Canonical(r)
       <==> Others(q) == Others(r) && SameMac(q.mac, r.mac)
            && Rfc3339.Format(q.unixS) == Rfc3339.Format(r.unixS)
    ensures FourDigitYear(q) && FourDigitYear(r) ==>
        (Canonical(q) == Canonical(r) <==> q.(mac := "") == r.(mac := "") && SameMac(q.mac, r.mac))
  {
    if Canonical(q) == Canonical(r) {
      FieldsEqual(q, r);
    } else if Others(q) == Others(r) && SameMac(q.mac, r.mac)
              && Rfc3339.Format(q.unixS) == Rfc3339.Format(r.unixS) {
      SameText(q, r);
    }
    Rfc3339.RoundTrip(q.unixS);
    Rfc3339.RoundTrip(r.unixS);
  }

  /** The bytes say which request it was exactly while the address has fewer than 28
      characters. */
  lemma RequestFromBytesExactly(q: Request)
    requires Clean(q) && FourDigitYear(q)
    ensures (forall r :: Clean(r) && FourDigitYear(r) && Canonical(r) == Canonical(q) ==> r == q) <==> |q.mac| < 28
  {
    hide Canonical, FourDigitYear;
    if |q.mac| < 28 {
      forall r | Clean(r) && FourDigitYear(r) && Canonical(r) == Canonical(q)
        ensures r == q
      {
        CanonicalInjective(q, r);
      }
    } else {
      var r := q.(mac := q.mac + "0");
      assert FourDigitYear(r) by { SameYear(q, r); }
      assert r.mac[..28] == q.mac[..28];
      CanonicalInjective(q, r);
      assert r.mac != q.mac;
    }
  }

  /** The shortest that collide: 28 characters, and any more behind them. */
  lemma LongMacsCollide(q: Request, mac: string, more: string)
    requires |mac| >= 28
    ensures Canonical(q.(mac := mac)) == Canonical(q.(mac := mac + more))
  {
    var a, b := q.(mac := mac), q.(mac := mac + more);
    assert b.mac[..28] == a.mac[..28];
    SameText(a, b);
  }

  lemma SameYear(q: Request, r: Request)
    requires FourDigitYear(q) && q.unixS == r.unixS
    ensures FourDigitYear(r)
  {
  }

  lemma SameText(q: Request, r: Request)
    requires Others(q) == Others(r) && SameMac(q.mac, r.mac)
    requires Rfc3339.Format(q.unixS) == Rfc3339.Format(r.unixS)
    ensures Canonical(q) == Canonical(r)
  {
    SameMacField(q.mac, r.mac);
    hide Str, Int, MacField, SameMac;
    SameOthers(q, r);
    assert TimeOn(q) == TimeOn(r);
  }

  lemma SameOthers(q: Request, r: Request)
    requires Others(q) == Others(r)
    ensures q == r.(unixS := q.unixS, mac := q.mac)
  {
  }

  lemma FieldsEqual(q: Request, r: Request)
    requires Canonical(q) == Canonical(r) && Clean(q) && Clean(r)
    ensures Others(q) == Others(r) && SameMac(q.mac, r.mac)
    ensures Rfc3339.Format(q.unixS) == Rfc3339.Format(r.unixS)
  {
    hide Canonical, FactsOn, ModelOn, SizeOn, NonceOn, KeyOn, MacField;
    HeadInjective(q, r);
    FactsInjective(q, r);
    ModelInjective(q, r);
    SizeInjective(q, r);
    NonceInjective(q, r);
    TimeInjective(q, r);
  }

  // ----- member order -----

  /** Members and what follows them. */
  function Tail(ms: seq<Member>, end: string): string { MembersText(ms) + end }

  lemma TailCons(m: Member, ms: seq<Member>, end: string)
    ensures ms != [] ==> Tail([m] + ms, end) == MemberText(m) + ("," + Tail(ms, end))
    ensures Tail([m], end) == MemberText(m) + end
  {
    hide MemberText;
    if ms != [] {
      assert ([m] + ms)[1..] == ms;
      assert MemberText(m) + ("," + MembersText(ms)) + end == MemberText(m) + ("," + (MembersText(ms) + end));
    }
  }

  lemma StrIsMember(key: string, v: string)
    ensures Str(key, v) == MemberText(Member(key, Quote(v)))
  {
    assert "\":\"" + (v + "\"") == "\":" + ("\"" + (v + "\""));
  }

  lemma Regroup(key: string, v: string, end: string)
    ensures MemberText(Member(key, v)) + end == ("\"" + key + "\":") + (v + end)
  {
    assert "\"" + (key + ("\":" + v)) == ("\"" + key + "\":") + v;
  }

  lemma KeyTexts()
    ensures "\"" + "max_response_bytes" + "\":" == "\"max_response_bytes\":"
    ensures "\"" + "capabilities" + "\":" == "\"capabilities\":"
    ensures "\"" + "facts" + "\":" + "{" == "\"facts\":{"
  {
  }

  lemma TimeIs(q: Request)
    ensures TimeOn(q) == "," + Tail(Members(q)[9..], "}")
  {
    hide MemberText, Str, MembersText, Quote;
    var ms := Members(q);
    StrIsMember("timestamp", Rfc3339.Format(q.unixS));
    TailCons(ms[9], [], "}");
    assert ms[9..] == [ms[9]];
  }

  lemma KeyIs(q: Request)
    ensures KeyOn(q) == "," + Tail(Members(q)[7..], "}")
  {
    hide MemberText, Str, MembersText, Quote, TimeOn, Tail;
    var ms := Members(q);
    TimeIs(q);
    StrIsMember("response_format", "text");
    StrIsMember("public_key", q.publicKey);
    TailCons(ms[8], ms[9..], "}");
    TailCons(ms[7], ms[8..], "}");
    assert [ms[8]] + ms[9..] == ms[8..];
    assert [ms[7]] + ms[8..] == ms[7..];
  }

  lemma EndIs(q: Request)
    ensures NonceOn(q) == "," + Tail(Members(q)[5..], "}")
  {
    hide MemberText, Str, MembersText, Quote, KeyOn, Tail;
    var ms := Members(q);
    KeyIs(q);
    StrIsMember("protocol_version", "1");
    StrIsMember("nonce", q.nonce);
    TailCons(ms[6], ms[7..], "}");
    TailCons(ms[5], ms[6..], "}");
    assert [ms[6]] + ms[7..] == ms[6..];
    assert [ms[5]] + ms[6..] == ms[5..];
  }

  lemma ModelIs(q: Request)
    ensures ModelOn(q) == "," + Tail([Member("model", Quote(q.model)), Member("os", Quote("zephyr"))], "}" + SizeOn(q))
  {
    hide MemberText, Str, MembersText, Quote, SizeOn, Tail;
    var os, model, end := Member("os", Quote("zephyr")), Member("model", Quote(q.model)), "}" + SizeOn(q);
    StrIsMember("os", "zephyr");
    StrIsMember("model", q.model);
    TailCons(os, [], end);
    TailCons(model, [os], end);
    assert [model] + [os] == [model, os];
  }

  /** The members after the hostname. */
  function LaterFacts(q: Request): seq<Member> {
    (if q.mac == "" then [] else [Member("mac_addresses", "[" + (Quote(q.mac) + "]"))])
    + [Member("model", Quote(q.model)), Member("os", Quote("zephyr"))]
  }

  lemma MacIs(q: Request)
    ensures WholeMac(q.mac) + ModelOn(q) == "," + Tail(LaterFacts(q), "}" + SizeOn(q))
  {
    ModelIs(q);
    if q.mac != "" { MacIsMember(q.mac, ModelOn(q)); }
    hide MemberText, MembersText, Quote, ModelOn, SizeOn, Tail;
    var later := [Member("model", Quote(q.model)), Member("os", Quote("zephyr"))];
    var mac := Member("mac_addresses", "[" + (Quote(q.mac) + "]"));
    if q.mac == "" {
      assert LaterFacts(q) == later;
      assert "" + ModelOn(q) == ModelOn(q);
    } else {
      TailCons(mac, later, "}" + SizeOn(q));
    }
  }

  lemma FactsIs(q: Request)
    ensures FactsOn(q, WholeMac(q.mac)) == "," + ("\"facts\":{" + Tail(FactMembers(q), "}" + SizeOn(q)))
  {
    MacIs(q);
    var later := LaterFacts(q);
    assert later != [];
    hide MemberText, Str, MembersText, Quote, WholeMac, ModelOn, SizeOn, Tail, LaterFacts;
    var end := "}" + SizeOn(q);
    var agent, host := Member("agent_version", Quote(q.agentVersion)), Member("hostname", Quote(q.hostname));
    StrIsMember("hostname", q.hostname);
    StrIsMember("agent_version", q.agentVersion);
    TailCons(host, later, end);
    TailCons(agent, [host] + later, end);
    assert FactMembers(q) == [agent] + ([host] + later) by { FactMembersAre(q); }
  }

  lemma FactMembersAre(q: Request)
    ensures FactMembers(q)
         == [Member("agent_version", Quote(q.agentVersion))]
            + ([Member("hostname", Quote(q.hostname))] + LaterFacts(q))
  {
    hide Quote;
  }

  lemma MacIsMember(mac: string, rest: string)
    ensures MAC_KEY + (mac + "\"]") + rest
         == "," + (MemberText(Member("mac_addresses", "[" + (Quote(mac) + "]"))) + rest)
  {
    var m := MemberText(Member("mac_addresses", "[" + (Quote(mac) + "]")));
    assert "," + m == MAC_KEY + (mac + "\"]");
    assert ("," + m) + rest == "," + (m + rest);
  }

  lemma SizeIs(q: Request)
    ensures SizeOn(q) == "," + Tail(Members(q)[4..], "}")
  {
    EndIs(q);
    hide NonceOn, Int, MembersText, MemberText;
    var m, rest := Members(q)[4], Members(q)[5..];
    assert [m] + rest == Members(q)[4..] && rest != [];
    TailCons(m, rest, "}");
    Regroup("max_response_bytes", Int(q.maxResponse), "," + Tail(rest, "}"));
    KeyTexts();
  }

  lemma FactsClose(q: Request, rest: string)
    requires SizeOn(q) == "," + rest
    ensures "\"facts\":{" + Tail(FactMembers(q), "}" + SizeOn(q))
         == MemberText(Member("facts", Object(FactMembers(q)))) + ("," + rest)
  {
    hide MembersText, FactMembers, SizeOn;
    var t := MembersText(FactMembers(q));
    Regroup("facts", Object(FactMembers(q)), "," + rest);
    hide MemberText;
    KeyTexts();
    var k := "\"" + "facts" + "\":";
    assert k + (("{" + (t + "}")) + ("," + rest)) == (k + "{") + (t + ("}" + ("," + rest)));
  }

  lemma MembersFrom(q: Request, k: nat, end: string)
    requires k < 9
    ensures Tail(Members(q)[k..], end) == MemberText(Members(q)[k]) + ("," + Tail(Members(q)[k + 1..], end))
  {
    hide Members, MemberText, MembersText, Tail;
    var ms := Members(q);
    assert [ms[k]] + ms[k + 1..] == ms[k..];
    TailCons(ms[k], ms[k + 1..], end);
  }

  lemma FirstMembers(q: Request)
    ensures var ms := Members(q);
      && ms[0] == Member("capabilities", CAPABILITIES) && ms[1] == Member("device_id", Quote(q.deviceId))
      && ms[2] == Member("ephemeral_p256", Quote(q.ephemeral)) && ms[3] == Member("facts", Object(FactMembers(q)))
  {
    hide Quote, Object, FactMembers, Int;
  }

  lemma FromFacts(q: Request)
    ensures FactsOn(q, WholeMac(q.mac)) == "," + Tail(Members(q)[3..], "}")
  {
    FirstMembers(q);
    hide MemberText, MembersText, SizeOn, FactsOn, FactMembers, Object, Members, Tail;
    FactsIs(q);
    SizeIs(q);
    FactsClose(q, Tail(Members(q)[4..], "}"));
    MembersFrom(q, 3, "}");
  }

  /** With the address in full the text is the JSON object. */
  lemma WholeText(q: Request)
    ensures TextOn(q, WholeMac(q.mac)) == Object(Members(q))
  {
    FirstMembers(q);
    StrIsMember("ephemeral_p256", q.ephemeral);
    StrIsMember("device_id", q.deviceId);
    var ms := Members(q);
    hide MemberText, Str, MembersText, Quote, FactsOn, FactMembers, Members;
    FromFacts(q);
    MembersFrom(q, 2, "}");
    MembersFrom(q, 1, "}");
    MembersFrom(q, 0, "}");
    Regroup("capabilities", CAPABILITIES, "," + Tail(ms[1..], "}"));
    KeyTexts();
    assert ms[0..] == ms;
  }

  lemma FirstLess(a: string, b: string)
    requires a != "" && b != "" && a[0] < b[0]
    ensures Rfc3339.Less(a, b)
  {
  }

  lemma FactsSorted(q: Request)
    ensures Sorted(FactMembers(q))
  {
    FirstLess("agent_version", "hostname");
    FirstLess("hostname", "mac_addresses");
    FirstLess("hostname", "model");
    FirstLess("model", "os");
    assert Rfc3339.Less("mac_addresses", "model");
    hide Quote, Rfc3339.Less;
  }

  lemma KeysInOrder(i: nat)
    requires i < 9
    ensures Rfc3339.Less(KeyAt(i), KeyAt(i + 1))
  {
    if i == 6 {
      assert Rfc3339.Less("protocol_version", "public_key");
    } else {
      FirstLess(KeyAt(i), KeyAt(i + 1));
    }
  }

  lemma MembersSorted(q: Request)
    ensures Sorted(Members(q))
  {
    hide Members, KeyAt, ValueAt, Rfc3339.Less;
    forall i | 0 <= i < 9
      ensures Rfc3339.Less(Members(q)[i].key, Members(q)[i + 1].key)
    {
      KeysInOrder(i);
    }
  }

  lemma TextLength(q: Request, a: string, b: string)
    ensures |TextOn(q, a)| - |a| == |TextOn(q, b)| - |b|
  {
    hide Str, ModelOn;
  }

  /** The request is one JSON object exactly while the address has at most 26
      characters; its members are in canonical order at both levels. */
  lemma CanonicalIsObject(q: Request)
    ensures Canonical(q) == Object(Members(q)) <==> |q.mac| <= 26
    ensures Sorted(Members(q)) && Sorted(FactMembers(q))
  {
    MacFieldLength(q.mac);
    hide TextOn, WholeMac, MacField, Members, Object, FactMembers, Sorted;
    WholeText(q);
    TextLength(q, WholeMac(q.mac), MacField(q.mac));
    MembersSorted(q);
    FactsSorted(q);
  }
}
