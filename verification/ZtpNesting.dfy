/** Whether the canonical request (ztp_envelope.c) is JSON at all: every JSON text ends
    outside a string with all its brackets closed. */
module ZtpNesting {
  import opened ZtpEnvelope
  import Rfc3339

  /** Between two characters of a text without backslashes: whether it is in a string,
      and how many brackets are open. */
  datatype Scan = Scan(inString: bool, depth: int)

  function Over(st: Scan, c: char): Scan {
    if c == '"' then st.(inString := !st.inString)
    else if st.inString then st
    else if c == '{' || c == '[' then st.(depth := st.depth + 1)
    else if c == '}' || c == ']' then st.(depth := st.depth - 1)
    else st
  }

  function Scanned(st: Scan, s: string): Scan
    decreases |s|
  {
    if s == "" then st else Scanned(Over(st, s[0]), s[1..])
  }

  predicate Nests(s: string) { Scanned(Scan(false, 0), s) == Scan(false, 0) }

  lemma {:induction false} ScanConcat(st: Scan, a: string, b: string)
    ensures Scanned(st, a + b) == Scanned(Scanned(st, a), b)
    decreases |a|
  {
    if a == "" {
      assert a + b == b;
    } else {
      assert (a + b)[0] == a[0] && (a + b)[1..] == a[1..] + b;
      ScanConcat(Over(st, a[0]), a[1..], b);
    }
  }

  lemma {:induction false} ScanInString(d: int, s: string)
    requires NoQuote(s)
    ensures Scanned(Scan(true, d), s) == Scan(true, d)
    decreases |s|
  {
    if s != "" {
      assert s[0] in s;
      assert NoQuote(s[1..]);
      ScanInString(d, s[1..]);
    }
  }

  predicate Flat(c: char) { c !in "\"{}[]" }

  lemma {:induction false} ScanFlat(d: int, s: string)
    requires forall i :: 0 <= i < |s| ==> Flat(s[i])
    ensures Scanned(Scan(false, d), s) == Scan(false, d)
    decreases |s|
  {
    if s != "" { ScanFlat(d, s[1..]); }
  }

  /** Whether a scan ends in a string depends on where it began, not on the depth. */
  lemma {:induction false} OtherSide(d: int, d': int, s: string)
    ensures Scanned(Scan(true, d), s).inString != Scanned(Scan(false, d'), s).inString
    decreases |s|
  {
    if s != "" {
      var a, b := Over(Scan(true, d), s[0]), Over(Scan(false, d'), s[0]);
      if s[0] == '"' { OtherSide(b.depth, a.depth, s[1..]); } else { OtherSide(a.depth, b.depth, s[1..]); }
    }
  }

  lemma ScanOne(st: Scan, c: char, rest: string)
    ensures Scanned(st, [c] + rest) == Scanned(Over(st, c), rest)
  {
    assert ([c] + rest)[0] == c && ([c] + rest)[1..] == rest;
  }

  /** A string, wherever it stands. */
  lemma ScanQuoted(d: int, v: string, rest: string)
    requires NoQuote(v)
    ensures Scanned(Scan(false, d), "\"" + (v + ("\"" + rest))) == Scanned(Scan(false, d), rest)
  {
    ScanOne(Scan(false, d), '"', v + ("\"" + rest));
    ScanConcat(Scan(true, d), v, "\"" + rest);
    ScanInString(d, v);
    ScanOne(Scan(true, d), '"', rest);
  }

  lemma ScanStr(d: int, key: string, v: string, rest: string)
    requires NoQuote(key) && NoQuote(v)
    ensures Scanned(Scan(false, d), Str(key, v) + rest) == Scanned(Scan(false, d), rest)
  {
    var value := "\"" + (v + ("\"" + rest));
    assert Str(key, v) + rest == "\"" + (key + ("\"" + (":" + value)));
    ScanQuoted(d, key, ":" + value);
    ScanOne(Scan(false, d), ':', value);
    ScanQuoted(d, v, rest);
  }

  lemma ScanComma(d: int, rest: string)
    ensures Scanned(Scan(false, d), "," + rest) == Scanned(Scan(false, d), rest)
  {
    ScanOne(Scan(false, d), ',', rest);
  }

  lemma FormatHasNoQuote(t: int)
    ensures NoQuote(Rfc3339.Format(t))
  {
    Rfc3339.FormatChars(t);
  }

  lemma IntIsFlat(v: int)
    ensures forall i :: 0 <= i < |Int(v)| ==> Flat(Int(v)[i])
  {
  }

  // ----- from the back -----

  lemma ScanTime(q: Request, d: int)
    ensures Scanned(Scan(false, d), TimeOn(q)) == Scan(false, d - 1)
  {
    hide Str;
    var t := Rfc3339.Format(q.unixS);
    FormatHasNoQuote(q.unixS);
    ScanComma(d, Str("timestamp", t) + "}");
    ScanStr(d, "timestamp", t, "}");
    ScanOne(Scan(false, d), '}', "");
    assert ['}'] + "" == "}";
  }

  lemma ScanKey(q: Request, d: int)
    requires Clean(q)
    ensures Scanned(Scan(false, d), KeyOn(q)) == Scan(false, d - 1)
  {
    hide Str, TimeOn;
    var rest := "," + (Str("response_format", "text") + TimeOn(q));
    ScanComma(d, Str("public_key", q.publicKey) + rest);
    ScanStr(d, "public_key", q.publicKey, rest);
    ScanComma(d, Str("response_format", "text") + TimeOn(q));
    ScanStr(d, "response_format", "text", TimeOn(q));
    ScanTime(q, d);
  }

  lemma ScanNonce(q: Request, d: int)
    requires Clean(q)
    ensures Scanned(Scan(false, d), NonceOn(q)) == Scan(false, d - 1)
  {
    hide Str, KeyOn;
    var rest := "," + (Str("protocol_version", "1") + KeyOn(q));
    ScanComma(d, Str("nonce", q.nonce) + rest);
    ScanStr(d, "nonce", q.nonce, rest);
    ScanComma(d, Str("protocol_version", "1") + KeyOn(q));
    ScanStr(d, "protocol_version", "1", KeyOn(q));
    ScanKey(q, d);
  }

  lemma ScanSize(q: Request, d: int)
    requires Clean(q)
    ensures Scanned(Scan(false, d), SizeOn(q)) == Scan(false, d - 1)
  {
    hide NonceOn, Int;
    var key := "\"max_response_bytes\":";
    ScanComma(d, key + (Int(q.maxResponse) + NonceOn(q)));
    ScanConcat(Scan(false, d), key, Int(q.maxResponse) + NonceOn(q));
    ScanConcat(Scan(false, d), Int(q.maxResponse), NonceOn(q));
    MaxKey(d);
    IntIsFlat(q.maxResponse);
    ScanFlat(d, Int(q.maxResponse));
    ScanNonce(q, d);
  }

  lemma MaxKey(d: int)
    ensures Scanned(Scan(false, d), "\"max_response_bytes\":") == Scan(false, d)
  {
    MaxKeyIs();
    ScanKeyOf(d, "max_response_bytes", "");
    hide Scanned;
    ScanNothing(Scan(false, d));
  }

  lemma MaxKeyIs()
    ensures "\"max_response_bytes\":" == "\"" + ("max_response_bytes" + ("\":" + ""))
  {
  }

  lemma ScanNothing(st: Scan)
    ensures Scanned(st, "") == st
  {
  }

  /** A key and its colon. */
  lemma ScanKeyOf(d: int, key: string, rest: string)
    requires NoQuote(key)
    ensures Scanned(Scan(false, d), "\"" + (key + ("\":" + rest))) == Scanned(Scan(false, d), rest)
  {
    assert "\":" + rest == "\"" + (":" + rest);
    ScanQuoted(d, key, ":" + rest);
    ScanOne(Scan(false, d), ':', rest);
  }

  lemma ScanModel(q: Request, d: int)
    requires Clean(q)
    ensures Scanned(Scan(false, d), ModelOn(q)) == Scan(false, d - 2)
  {
    hide Str, SizeOn;
    var rest := "," + (Str("os", "zephyr") + ("}" + SizeOn(q)));
    ScanComma(d, Str("model", q.model) + rest);
    ScanStr(d, "model", q.model, rest);
    ScanComma(d, Str("os", "zephyr") + ("}" + SizeOn(q)));
    ScanStr(d, "os", "zephyr", "}" + SizeOn(q));
    ScanOne(Scan(false, d), '}', SizeOn(q));
    ScanSize(q, d - 1);
  }

  // ----- the address field -----

  lemma ScanMacKey(d: int)
    ensures Scanned(Scan(false, d), MAC_KEY) == Scan(true, d + 1)
  {
    hide Scanned;
    KeyOfMac(d, "mac_addresses");
    MacKeyIs();
  }

  lemma KeyOfMac(d: int, key: string)
    requires NoQuote(key)
    ensures Scanned(Scan(false, d), "," + ("\"" + (key + ("\":" + "[\"")))) == Scan(true, d + 1)
  {
    hide Scanned;
    ScanComma(d, "\"" + (key + ("\":" + "[\"")));
    ScanKeyOf(d, key, "[\"");
    BracketQuote(d);
  }

  lemma BracketQuote(d: int)
    ensures Scanned(Scan(false, d), "[\"") == Scan(true, d + 1)
  {
    ScanOne(Scan(false, d), '[', "\"");
    ScanOne(Scan(false, d + 1), '"', "");
    assert ['"'] + "" == "\"" && ['['] + "\"" == "[\"";
  }

  lemma MacKeyIs()
    ensures MAC_KEY == "," + ("\"" + ("mac_addresses" + ("\":" + "[\"")))
  {
  }

  /** A whole field leaves nothing open, one character less leaves its bracket open, and
      a shorter one its string. */
  lemma ScanMac(mac: string, d: int)
    requires NoQuote(mac)
    ensures Scanned(Scan(false, d), MacField(mac))
         == if |mac| <= 26 then Scan(false, d) else if |mac| == 27 then Scan(false, d + 1) else Scan(true, d + 1)
  {
    hide MacField, WholeMac, Scanned;
    if mac == "" {
      NoAddress();
      ScanNothing(Scan(false, d));
    } else if |mac| <= 27 {
      var end := if |mac| == 27 then "\"" else "\"]";
      ShortField(mac);
      ScanMacKey(d);
      ScanConcat(Scan(false, d), MAC_KEY, mac + end);
      ScanConcat(Scan(true, d + 1), mac, end);
      ScanInString(d + 1, mac);
      Endings(d + 1);
    } else {
      CutMac(mac);
      ScanMacKey(d);
      ScanConcat(Scan(false, d), MAC_KEY, mac[..28]);
      ScanInString(d + 1, mac[..28]);
    }
  }

  lemma Endings(d: int)
    ensures Scanned(Scan(true, d), "\"") == Scan(false, d)
    ensures Scanned(Scan(true, d), "\"]") == Scan(false, d - 1)
  {
    ScanOne(Scan(true, d), '"', "");
    ScanOne(Scan(true, d), '"', "]");
    ScanOne(Scan(false, d), ']', "");
    assert ['"'] + "" == "\"" && ['"'] + "]" == "\"]" && [']'] + "" == "]";
  }

  lemma NoAddress()
    ensures MacField("") == ""
  {
  }

  lemma ShortField(mac: string)
    requires 0 < |mac| <= 27
    ensures MacField(mac) == MAC_KEY + (mac + if |mac| == 27 then "\"" else "\"]")
  {
    MacFieldLength(mac);
    if |mac| == 27 {
      MacKeyLength();
      var s := MAC_KEY + (mac + "\"]");
      assert s[..47] == MAC_KEY + (mac + "\"");
    }
  }

  // ----- the whole text -----

  lemma ScanFacts(q: Request, d: int)
    requires Clean(q)
    ensures var st := Scanned(Scan(false, d), FactsOn(q, MacField(q.mac)));
      if |q.mac| <= 26 then st == Scan(false, d - 1)
      else if |q.mac| == 27 then st == Scan(false, d)
      else st.inString
  {
    hide Str, ModelOn, MacField;
    var tail := MacField(q.mac) + ModelOn(q);
    var host := "," + (Str("hostname", q.hostname) + tail);
    var agent := Str("agent_version", q.agentVersion) + host;
    ScanComma(d, "\"facts\":{" + agent);
    FactsKey(d, agent);
    ScanStr(d + 1, "agent_version", q.agentVersion, host);
    ScanComma(d + 1, Str("hostname", q.hostname) + tail);
    ScanStr(d + 1, "hostname", q.hostname, tail);
    ScanConcat(Scan(false, d + 1), MacField(q.mac), ModelOn(q));
    ScanMac(q.mac, d + 1);
    ScanModel(q, d + 1);
    ScanModel(q, d + 2);
    OtherSide(d + 2, d + 2, ModelOn(q));
  }

  lemma FactsKey(d: int, rest: string)
    ensures Scanned(Scan(false, d), "\"facts\":{" + rest) == Scanned(Scan(false, d + 1), rest)
  {
    assert "\"facts\":{" + rest == "\"" + ("facts" + ("\":" + ("{" + rest)));
    ScanKeyOf(d, "facts", "{" + rest);
    ScanOne(Scan(false, d), '{', rest);
  }

  lemma Opening(rest: string)
    ensures Scanned(Scan(false, 0), "{" + ("\"capabilities\":" + (CAPABILITIES + rest))) == Scanned(Scan(false, 1), rest)
  {
    var caps := CAPABILITIES + rest;
    ScanOne(Scan(false, 0), '{', "\"capabilities\":" + caps);
    CapabilitiesKey(caps);
    ScanKeyOf(1, "capabilities", caps);
    hide Scanned;
    ScanCapabilities(1, rest);
  }

  lemma CapabilitiesKey(rest: string)
    ensures "\"capabilities\":" + rest == "\"" + ("capabilities" + ("\":" + rest))
  {
    assert "\"capabilities\":" == "\"" + "capabilities" + "\":";
  }

  lemma CapabilitiesAre(rest: string)
    ensures CAPABILITIES + rest
         == "[" + ("\"" + ("wifi.v2" + ("\"" + ("," + ("\"" + ("c8y.v2" + ("\"" + ("]" + rest))))))))
  {
    assert CAPABILITIES == "[" + "\"" + "wifi.v2" + "\"" + "," + "\"" + "c8y.v2" + "\"" + "]";
  }

  lemma ScanCapabilities(d: int, rest: string)
    ensures Scanned(Scan(false, d), CAPABILITIES + rest) == Scanned(Scan(false, d), rest)
  {
    hide Scanned;
    var end := "]" + rest;
    var second := "\"" + ("c8y.v2" + ("\"" + end));
    CapabilitiesAre(rest);
    ScanOne(Scan(false, d), '[', "\"" + ("wifi.v2" + ("\"" + ("," + second))));
    ScanQuoted(d + 1, "wifi.v2", "," + second);
    ScanComma(d + 1, second);
    ScanQuoted(d + 1, "c8y.v2", end);
    ScanOne(Scan(false, d + 1), ']', rest);
  }

  /** The request ends outside a string with all its brackets closed exactly while the
      address has at most 26 characters. */
  lemma CanonicalNests(q: Request)
    requires Clean(q)
    ensures Nests(Canonical(q)) <==> |q.mac| <= 26
  {
    hide Str, FactsOn, MacField;
    var facts := FactsOn(q, MacField(q.mac));
    var key := "," + (Str("ephemeral_p256", q.ephemeral) + facts);
    var rest := "," + (Str("device_id", q.deviceId) + key);
    Opening(rest);
    ScanComma(1, Str("device_id", q.deviceId) + key);
    ScanStr(1, "device_id", q.deviceId, key);
    ScanComma(1, Str("ephemeral_p256", q.ephemeral) + facts);
    ScanStr(1, "ephemeral_p256", q.ephemeral, facts);
    ScanFacts(q, 1);
  }

  // ----- JSON texts -----

  /** JSON (RFC 8259) with any white space, in texts without backslashes: numbers and
      literal names are words. */
  datatype Json =
    | Word(w: string) | Quoted(s: string) | Array(items: Items) | Record(fields: Fields)
    | Padded(left: string, value: Json, right: string)
  datatype Items = NoItem(pad: string) | Item(value: Json) | Items(value: Json, more: Items)
  datatype Fields =
    | NoField(pad: string) | Field(left: string, key: string, right: string, value: Json)
    | Fields(left: string, key: string, right: string, value: Json, more: Fields)

  predicate AllFlat(s: string) { forall i :: 0 <= i < |s| ==> Flat(s[i]) }

  predicate Legal(j: Json) {
    match j
    case Word(w) => AllFlat(w)
    case Quoted(s) => NoQuote(s)
    case Array(items) => LegalItems(items)
    case Record(fields) => LegalFields(fields)
    case Padded(left, value, right) => AllFlat(left) && AllFlat(right) && Legal(value)
  }

  predicate LegalItems(items: Items) {
    match items
    case NoItem(pad) => AllFlat(pad)
    case Item(value) => Legal(value)
    case Items(value, more) => Legal(value) && LegalItems(more)
  }

  predicate LegalFields(fields: Fields) {
    match fields
    case NoField(pad) => AllFlat(pad)
    case Field(left, key, right, value) => AllFlat(left) && NoQuote(key) && AllFlat(right) && Legal(value)
    case Fields(left, key, right, value, more) =>
      AllFlat(left) && NoQuote(key) && AllFlat(right) && Legal(value) && LegalFields(more)
  }

  function JsonText(j: Json): string {
    match j
    case Word(w) => w
    case Quoted(s) => "\"" + (s + "\"")
    case Array(items) => "[" + (ItemsText(items) + "]")
    case Record(fields) => "{" + (FieldsText(fields) + "}")
    case Padded(left, value, right) => left + (JsonText(value) + right)
  }

  function ItemsText(items: Items): string {
    match items
    case NoItem(pad) => pad
    case Item(value) => JsonText(value)
    case Items(value, more) => JsonText(value) + ("," + ItemsText(more))
  }

  function FieldsText(fields: Fields): string {
    match fields
    case NoField(pad) => pad
    case Field(left, key, right, value) => KeyText(left, key, right) + JsonText(value)
    case Fields(left, key, right, value, more) =>
      KeyText(left, key, right) + (JsonText(value) + ("," + FieldsText(more)))
  }

  function KeyText(left: string, key: string, right: string): string {
    left + ("\"" + (key + ("\"" + (right + ":"))))
  }

  lemma ScanBracketed(d: int, open: char, body: string, close: char)
    requires open in "{[" && close in "}]" && Scanned(Scan(false, d + 1), body) == Scan(false, d + 1)
    ensures Scanned(Scan(false, d), [open] + (body + [close])) == Scan(false, d)
  {
    ScanOne(Scan(false, d), open, body + [close]);
    ScanConcat(Scan(false, d + 1), body, [close]);
    ScanOne(Scan(false, d + 1), close, "");
    assert [close] + "" == [close];
  }

  lemma ScanKeyText(d: int, left: string, key: string, right: string, rest: string)
    requires AllFlat(left) && NoQuote(key) && AllFlat(right)
    ensures Scanned(Scan(false, d), KeyText(left, key, right) + rest) == Scanned(Scan(false, d), rest)
  {
    hide Scanned;
    var colon := right + (":" + rest);
    assert KeyText(left, key, right) + rest == left + ("\"" + (key + ("\"" + colon)));
    ScanConcat(Scan(false, d), left, "\"" + (key + ("\"" + colon)));
    ScanFlat(d, left);
    ScanQuoted(d, key, colon);
    ScanConcat(Scan(false, d), right, ":" + rest);
    ScanFlat(d, right);
    ScanOne(Scan(false, d), ':', rest);
  }

  lemma {:induction false} JsonScans(j: Json, d: int)
    requires Legal(j)
    ensures Scanned(Scan(false, d), JsonText(j)) == Scan(false, d)
  {
    hide Scanned;
    match j
    case Word(w) => ScanFlat(d, w);
    case Quoted(s) =>
      ScanQuoted(d, s, "");
      assert "\"" + "" == "\"";
      ScanNothing(Scan(false, d));
    case Array(items) =>
      ItemsScan(items, d + 1);
      ScanBracketed(d, '[', ItemsText(items), ']');
    case Record(fields) =>
      FieldsScan(fields, d + 1);
      ScanBracketed(d, '{', FieldsText(fields), '}');
    case Padded(left, value, right) =>
      ScanConcat(Scan(false, d), left, JsonText(value) + right);
      ScanFlat(d, left);
      ScanConcat(Scan(false, d), JsonText(value), right);
      JsonScans(value, d);
      ScanFlat(d, right);
  }

  lemma {:induction false} ItemsScan(items: Items, d: int)
    requires LegalItems(items)
    ensures Scanned(Scan(false, d), ItemsText(items)) == Scan(false, d)
  {
    hide Scanned;
    match items
    case NoItem(pad) => ScanFlat(d, pad);
    case Item(value) => JsonScans(value, d);
    case Items(value, more) =>
      ScanConcat(Scan(false, d), JsonText(value), "," + ItemsText(more));
      JsonScans(value, d);
      ScanComma(d, ItemsText(more));
      ItemsScan(more, d);
  }

  lemma {:induction false} FieldsScan(fields: Fields, d: int)
    requires LegalFields(fields)
    ensures Scanned(Scan(false, d), FieldsText(fields)) == Scan(false, d)
  {
    hide Scanned;
    match fields
    case NoField(pad) => ScanFlat(d, pad);
    case Field(left, key, right, value) =>
      ScanKeyText(d, left, key, right, JsonText(value));
      JsonScans(value, d);
    case Fields(left, key, right, value, more) =>
      var rest := "," + FieldsText(more);
      ScanKeyText(d, left, key, right, JsonText(value) + rest);
      ScanConcat(Scan(false, d), JsonText(value), rest);
      JsonScans(value, d);
      ScanComma(d, FieldsText(more));
      FieldsScan(more, d);
  }

  /** Beyond 26 characters of address the request is no JSON text of any kind. */
  lemma LongMacIsNotJson(q: Request, j: Json)
    requires Clean(q) && Legal(j) && |q.mac| > 26
    ensures Canonical(q) != JsonText(j)
  {
    CanonicalNests(q);
    JsonScans(j, 0);
    hide Scanned;
  }
}
