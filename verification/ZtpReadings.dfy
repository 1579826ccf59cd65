/** What the texts of zero-touch provisioning are read as, from the lines as a server or a
    person writes them: modules, responses, networks and Cumulocity data. */
module ZtpReadings {
  import opened Common
  import opened ZtpText
  import opened ZtpResponse
  import opened WifiIni
  import opened ZtpApply
  import Rfc3339

  // ----- fields and modules -----

  predicate Field(f: string) { f != "" && ' ' !in f }

  function Spaced(fs: seq<string>): string {
    if fs == [] then "" else if |fs| == 1 then fs[0] else fs[0] + " " + Spaced(fs[1..])
  }

  /** Fields written with single spaces between them are read back. */
  lemma {:induction false} FieldsOfSpaced(fs: seq<string>)
    requires forall i :: 0 <= i < |fs| ==> Field(fs[i])
    ensures Fields(Spaced(fs)) == fs
  {
    if |fs| == 1 {
      OneField(fs[0]);
    } else if fs != [] {
      assert Field(fs[1]);
      FieldsOfSpaced(fs[1..]);
      FirstField(fs[0], Spaced(fs[1..]));
    }
  }

  lemma OneField(f: string)
    requires Field(f)
    ensures Fields(f) == [f]
  {
    IndexOfIs(f, ' ', |f|);
    assert f[..|f|] == f && f[|f|..] == "";
  }

  lemma FirstField(f: string, rest: string)
    requires Field(f)
    ensures Fields(f + " " + rest) == [f] + Fields(rest)
  {
    var s := f + " " + rest;
    IndexOfIs(s, ' ', |f|);
    assert s[..|f|] == f && s[|f|..] == " " + rest && (" " + rest)[1..] == rest;
    assert Fields(" " + rest) == Fields(rest);
  }

  /** A module line: type and payload, or type, format, key, nonce and ciphertext; fewer
      fields are malformed, and any other key is no module. */
  lemma ModuleReads(key: string, fs: seq<string>)
    requires forall i :: 0 <= i < |fs| ==> Field(fs[i])
    ensures ModuleOf(Kv(key, Spaced(fs)))
         == if key == "module" then Some(if |fs| >= 2 then Good(Clear(fs[0], fs[1])) else Malformed)
            else if key == "module-sealed" then
              Some(if |fs| >= 5 then Good(Sealed(fs[0], fs[1], fs[2], fs[3], fs[4])) else Malformed)
            else None
  {
    hide Fields;
    FieldsOfSpaced(fs);
  }

  // ----- the server's response -----

  /** All records of a response, once each. */
  function ResponseRecords(status: string, reason: string, retry: string, time: string, manifest: string): seq<Kv> {
    [Kv("protocol_version", "1"), Kv("status", status), Kv("reason", reason), Kv("retry_after", retry),
     Kv("server_time", time), Kv("manifest.payload", manifest)]
  }

  lemma ResponseReads(status: string, reason: string, retry: string, time: string, manifest: string)
    ensures Meaning(ResponseRecords(status, reason, retry, time, manifest))
         == Response(if status == "accepted" then Accepted else if status == "pending" then Pending
                     else if status == "rejected" then Rejected else Status.Unknown,
                     reason, Rfc3339.Uint(retry).GetOr(0), Rfc3339.Parse(time).GetOr(0), manifest, false)
  {
    hide Meaning, Rfc3339.Uint, Rfc3339.Parse, MarksEncrypted;
    var a, b, c := Kv("protocol_version", "1"), Kv("status", status), Kv("reason", reason);
    var d, e, f := Kv("retry_after", retry), Kv("server_time", time), Kv("manifest.payload", manifest);
    MeaningOfNothing();
    MeaningSnoc([], a);
    MeaningSnoc([a], b);
    MeaningSnoc([a, b], c);
    MeaningSnoc([a, b, c], d);
    MeaningSnoc([a, b, c, d], e);
    MeaningSnoc([a, b, c, d, e], f);
    assert [] + [a] == [a] && [a] + [b] == [a, b] && [a, b] + [c] == [a, b, c];
    assert [a, b, c] + [d] == [a, b, c, d] && [a, b, c, d] + [e] == [a, b, c, d, e];
    assert [a, b, c, d, e] + [f] == ResponseRecords(status, reason, retry, time, manifest);
    NotMarked(a);
  }

  /** A record whose key goes on behind "encrypted." marks the response, and no other. */
  lemma EncryptedReads(kvs: seq<Kv>, name: string, val: string)
    ensures Meaning(kvs + [Kv("encrypted." + name, val)]).encrypted == (Meaning(kvs).encrypted || name != "")
  {
    hide Last, LastRead;
    var kv := Kv("encrypted." + name, val);
    assert kv.key[..10] == "encrypted.";
    Marks(kvs, kv);
  }

  lemma NotMarked(kv: Kv)
    requires kv.key == "protocol_version"
    ensures !MarksEncrypted(kv)
  {
    assert kv.key[0] == 'p';
  }

  /** One carriage return at the end of a line is no part of it. */
  lemma CarriageReturn(kv: Kv, name: string)
    requires Writable(kv)
    ensures KvOf(kv.key + "=" + kv.val + "\r") == Some(kv)
    ensures EntryOf("[" + name + "]" + "\r") == Some(Section(name))
  {
    hide IndexOf;
    var l, m := kv.key + "=" + kv.val, "[" + name + "]";
    assert (l + "\r")[..|l|] == l && (m + "\r")[..|m|] == m;
    KvOfIs(l + "\r", kv);
    assert m[1..|m| - 1] == name;
  }

  // ----- INI bodies -----

  ghost predicate EntryWritable(e: Entry) {
    match e
    case Section(name) => '\n' !in name
    case Pair(kv) => Writable(kv) && kv.key != "" && kv.key[0] != '['
  }

  function LineOf(e: Entry): string {
    match e
    case Section(name) => "[" + name + "]"
    case Pair(kv) => kv.key + "=" + kv.val
  }

  function LinesOfEntries(es: seq<Entry>): (r: seq<string>)
    ensures |r| == |es| && forall i :: 0 <= i < |es| ==> r[i] == LineOf(es[i])
  {
    seq(|es|, i requires 0 <= i < |es| => LineOf(es[i]))
  }

  /** Written sections and pairs are read back. */
  lemma EntriesRoundTrip(es: seq<Entry>)
    requires forall i :: 0 <= i < |es| ==> EntryWritable(es[i])
    ensures Entries(ZtpText.Join(LinesOfEntries(es))) == es
  {
    forall i | 0 <= i < |es|
      ensures '\n' !in LinesOfEntries(es)[i]
    {
      assert EntryWritable(es[i]);
    }
    LinesOfJoin(LinesOfEntries(es));
    EntriesOfWritten(es);
  }

  lemma {:induction false} EntriesOfWritten(es: seq<Entry>)
    requires forall i :: 0 <= i < |es| ==> EntryWritable(es[i])
    ensures EntriesOf(LinesOfEntries(es)) == es
  {
    hide EntryOf;
    if es != [] {
      assert EntryWritable(es[0]);
      match es[0] {
        case Section(name) => SectionLine(name);
        case Pair(kv) => PairLine(kv);
      }
      assert LinesOfEntries(es)[1..] == LinesOfEntries(es[1..]);
      EntriesOfWritten(es[1..]);
    }
  }

  // ----- networks -----

  /** A network section as it is written. */
  function NetworkEntries(ssid: string, psk: string, priority: string, open: bool): seq<Entry> {
    [Section("network"), Pair(Kv("ssid", ssid)), Pair(Kv("password", psk)), Pair(Kv("priority", priority)),
     Pair(Kv("key_mgmt", if open then "NONE" else "WPA-PSK"))]
  }

  function NetworkPairs(ssid: string, psk: string, priority: string, open: bool): seq<Kv> {
    [Kv("ssid", ssid), Kv("password", psk), Kv("priority", priority), Kv("key_mgmt", if open then "NONE" else "WPA-PSK")]
  }

  lemma FourPairs(a: Kv, b: Kv, c: Kv, d: Kv, key: string)
    ensures Last([a, b, c, d], key)
         == if d.key == key then Some(d.val) else if c.key == key then Some(c.val)
            else if b.key == key then Some(b.val) else if a.key == key then Some(a.val) else None
  {
    ThreeRecords(a, b, c, key);
    LastSnoc([a, b, c], d, key);
    assert [a, b, c] + [d] == [a, b, c, d];
  }

  lemma NetworkReads(ssid: string, psk: string, priority: string, open: bool)
    ensures var kvs := NetworkPairs(ssid, psk, priority, open);
      && CandidateOf(kvs) == [Candidate(Priority(priority).GetOr(0), Network(ssid, if open then "" else psk))]
      && (SectionOk(kvs) <==> 0 < |ssid| <= 32 && |psk| <= 64 && Priority(priority).Some?)
  {
    hide Last, Priority;
    var kvs := NetworkPairs(ssid, psk, priority, open);
    FourPairs(kvs[0], kvs[1], kvs[2], kvs[3], "ssid");
    FourPairs(kvs[0], kvs[1], kvs[2], kvs[3], "password");
    FourPairs(kvs[0], kvs[1], kvs[2], kvs[3], "priority");
    FourPairs(kvs[0], kvs[1], kvs[2], kvs[3], "key_mgmt");
  }

  lemma {:induction false} PairsUpTo(kvs: seq<Kv>, rest: seq<Entry>)
    requires rest == [] || rest[0].Section?
    ensures Pairs(AsPairs(kvs) + rest) == kvs && Networks(AsPairs(kvs) + rest) == Networks(rest)
  {
    if kvs == [] {
      assert AsPairs(kvs) + rest == rest;
    } else {
      var all := AsPairs(kvs) + rest;
      assert all[0] == Pair(kvs[0]) && all[1..] == AsPairs(kvs[1..]) + rest;
      PairsUpTo(kvs[1..], rest);
    }
  }

  function AsPairs(kvs: seq<Kv>): seq<Entry> { seq(|kvs|, i requires 0 <= i < |kvs| => Pair(kvs[i])) }

  lemma OneNetwork(kvs: seq<Kv>, rest: seq<Entry>)
    requires rest == [] || rest[0].Section?
    ensures Networks([Section("network")] + AsPairs(kvs) + rest) == [kvs] + Networks(rest)
  {
    var all := [Section("network")] + AsPairs(kvs) + rest;
    assert all[1..] == AsPairs(kvs) + rest;
    PairsUpTo(kvs, rest);
  }

  /** A body with two networks: refused if a value of either is unusable; otherwise the
      second one counts exactly if its priority is higher, and an open one has no password. */
  lemma TwoNetworks(a: string, p: string, x: string, open: bool, b: string, q: string, y: string, open': bool)
    requires Line(a) && Line(p) && Line(x) && Line(b) && Line(q) && Line(y)
    ensures var first := 0 < |a| <= 32 && |p| <= 64 && Priority(x).Some?;
      var second := 0 < |b| <= 32 && |q| <= 64 && Priority(y).Some?;
      StagedAs(ZtpText.Join(LinesOfEntries(NetworkEntries(a, p, x, open) + NetworkEntries(b, q, y, open'))),
               if !first || !second then Invalid
               else if Priority(y).value > Priority(x).value then Chosen(Network(b, if open' then "" else q))
               else Chosen(Network(a, if open then "" else p)))
  {
    hide Entries, Networks, Candidates, CandidateOf, SectionOk, Priority, NetworkPairs;
    var es := NetworkEntries(a, p, x, open) + NetworkEntries(b, q, y, open');
    var n, m := NetworkPairs(a, p, x, open), NetworkPairs(b, q, y, open');
    AllWritten(a, p, x, open, b, q, y, open');
    EntriesRoundTrip(es);
    TheirNetworks(a, p, x, open, b, q, y, open');
    NetworkReads(a, p, x, open);
    NetworkReads(b, q, y, open');
    TwoCandidates(n, m);
    var cs := Candidates([n, m]);
    if SectionOk(n) && SectionOk(m) {
      if Priority(y).value > Priority(x).value { assert FirstMax(cs, 1); } else { assert FirstMax(cs, 0); }
    }
  }

  /** A value that stands on a line by itself. */
  predicate Line(v: string) { '\n' !in v && (v == "" || v[|v| - 1] != '\r') }

  lemma AllWritten(a: string, p: string, x: string, open: bool, b: string, q: string, y: string, open': bool)
    requires Line(a) && Line(p) && Line(x) && Line(b) && Line(q) && Line(y)
    ensures var es := NetworkEntries(a, p, x, open) + NetworkEntries(b, q, y, open');
      forall i :: 0 <= i < |es| ==> EntryWritable(es[i])
  {
    NetworkWritten(a, p, x, open);
    NetworkWritten(b, q, y, open');
    hide EntryWritable, NetworkEntries;
  }

  lemma NetworkWritten(a: string, p: string, x: string, open: bool)
    requires Line(a) && Line(p) && Line(x)
    ensures forall i :: 0 <= i < |NetworkEntries(a, p, x, open)| ==> EntryWritable(NetworkEntries(a, p, x, open)[i])
  {
    KeyWritable("ssid", a);
    KeyWritable("password", p);
    KeyWritable("priority", x);
    KeyWritable("key_mgmt", "NONE");
    KeyWritable("key_mgmt", "WPA-PSK");
    hide Writable;
  }

  predicate Key(key: string) { key != "" && key[0] != '[' && '=' !in key && '\n' !in key }

  lemma KeyWritable(key: string, v: string)
    requires Key(key) && Line(v)
    ensures EntryWritable(Pair(Kv(key, v)))
  {
  }

  lemma TheirNetworks(a: string, p: string, x: string, open: bool, b: string, q: string, y: string, open': bool)
    ensures Networks(NetworkEntries(a, p, x, open) + NetworkEntries(b, q, y, open'))
         == [NetworkPairs(a, p, x, open), NetworkPairs(b, q, y, open')]
  {
    hide Networks;
    var n, m := NetworkPairs(a, p, x, open), NetworkPairs(b, q, y, open');
    assert NetworkEntries(a, p, x, open) == [Section("network")] + AsPairs(n);
    assert NetworkEntries(b, q, y, open') == [Section("network")] + AsPairs(m) + [];
    OneNetwork(n, NetworkEntries(b, q, y, open'));
    OneNetwork(m, []);
    NoNetworks();
  }

  lemma NoNetworks()
    ensures Networks([]) == []
  {
  }

  lemma TwoCandidates(n: seq<Kv>, m: seq<Kv>)
    ensures Candidates([n, m]) == CandidateOf(n) + CandidateOf(m)
    ensures AllOk([n, m]) <==> SectionOk(n) && SectionOk(m)
  {
    hide CandidateOf, SectionOk;
    assert [n, m][1..] == [m] && [m][1..] == [];
    assert Candidates([m]) == CandidateOf(m) + Candidates([]) == CandidateOf(m);
    assert [n, m][0] == n && [n, m][1] == m;
  }

  /** A decimal number is its priority, with a sign too; six characters are read. */
  lemma PriorityReads(n: nat)
    ensures |Rfc3339.Decimal(n)| <= 6 ==> Priority(Rfc3339.Decimal(n)) == Some(n)
    ensures |Rfc3339.Decimal(n)| <= 5 ==> Priority("-" + Rfc3339.Decimal(n)) == Some(-(n as int))
  {
    hide Rfc3339.DigitsValue;
    var d := Rfc3339.Decimal(n);
    Rfc3339.ValueOfDecimal(n);
    assert '0' <= d[0] <= '9';
    if |d| <= 6 { assert d[0..|d|] == d; }
    if |d| <= 5 { assert ("-" + d)[1..|d| + 1] == d; }
  }

  lemma PriorityCut(v: string)
    requires |v| > 6
    ensures Priority(v) == Priority(v[..6])
  {
    var k := if v[0] == '-' then 1 else 0;
    assert v[k..6] == v[..6][k..6];
  }

  // ----- Cumulocity data -----

  function C8yEntries(url: string, tenant: string, id: string, otp: string, other: string, junk: string): seq<Entry> {
    [Section("c8y"), Pair(Kv("url", url)), Pair(Kv("tenant", tenant)),
     Pair(Kv("external_id", id)), Pair(Kv("one_time_password", otp)), Section(other), Pair(Kv("url", junk))]
  }

  /** Each value of the [c8y] section is staged as what its key says, when it fits; other
      sections do not count. */
  lemma C8yReads(url: string, tenant: string, id: string, otp: string, other: string, junk: string)
    requires Line(url) && Line(tenant) && Line(id) && Line(otp) && Line(junk) && '\n' !in other && other != "c8y"
    ensures C8yStaging(ZtpText.Join(LinesOfEntries(C8yEntries(url, tenant, id, otp, other, junk))))
         == if |url| >= 128 || |tenant| >= 32 || |id| >= 64 || |otp| >= 65 then Unusable(TooBig)
            else if url == "" then Unusable(NoData)
            else Onboarding(C8y(url, tenant, id, otp))
  {
    hide Entries, EntryWritable, Last, LinesOfEntries;
    var es := C8yEntries(url, tenant, id, otp, other, junk);
    var a, b, c, d := Kv("url", url), Kv("tenant", tenant), Kv("external_id", id), Kv("one_time_password", otp);
    KeyWritable("url", url);
    KeyWritable("url", junk);
    KeyWritable("tenant", tenant);
    KeyWritable("external_id", id);
    KeyWritable("one_time_password", otp);
    SectionWritable("c8y");
    SectionWritable(other);
    EntriesRoundTrip(es);
    ItsPairs(a, b, c, d, other, Kv("url", junk));
    FourPairs(a, b, c, d, "url");
    FourPairs(a, b, c, d, "tenant");
    FourPairs(a, b, c, d, "external_id");
    FourPairs(a, b, c, d, "one_time_password");
    C8yRooms(a, b, c, d);
    hide C8yFits, C8yPairs;
  }

  lemma SectionWritable(name: string)
    requires '\n' !in name
    ensures EntryWritable(Section(name))
  {
  }

  lemma PairsCons(e: Entry, rest: seq<Entry>, section: string)
    ensures C8yPairs([e] + rest, section)
         == match e
            case Section(name) => C8yPairs(rest, name)
            case Pair(kv) => (if section == "c8y" then [kv] else []) + C8yPairs(rest, section)
  {
    assert ([e] + rest)[0] == e && ([e] + rest)[1..] == rest;
  }

  lemma ItsPairs(a: Kv, b: Kv, c: Kv, d: Kv, other: string, junk: Kv)
    requires other != "c8y"
    ensures C8yPairs([Section("c8y"), Pair(a), Pair(b), Pair(c), Pair(d), Section(other), Pair(junk)], "") == [a, b, c, d]
  {
    hide C8yPairs;
    var last := [Pair(junk)];
    var r5 := [Section(other)] + last;
    var r4 := [Pair(d)] + r5;
    var r3 := [Pair(c)] + r4;
    var r2 := [Pair(b)] + r3;
    var r1 := [Pair(a)] + r2;
    PairsCons(Section("c8y"), r1, "");
    PairsCons(Pair(a), r2, "c8y");
    PairsCons(Pair(b), r3, "c8y");
    PairsCons(Pair(c), r4, "c8y");
    PairsCons(Pair(d), r5, "c8y");
    PairsCons(Section(other), last, "c8y");
    PairsCons(Pair(junk), [], other);
    NoPairs(other);
    assert last == [Pair(junk)] + [];
    assert [Section("c8y")] + r1 == [Section("c8y"), Pair(a), Pair(b), Pair(c), Pair(d), Section(other), Pair(junk)];
    assert [a] + ([b] + ([c] + ([d] + []))) == [a, b, c, d];
  }

  lemma NoPairs(section: string)
    ensures C8yPairs([], section) == []
  {
  }

  lemma C8yRooms(a: Kv, b: Kv, c: Kv, d: Kv)
    requires a.key == "url" && b.key == "tenant" && c.key == "external_id" && d.key == "one_time_password"
    ensures C8yFits([a, b, c, d]) <==> |a.val| < 128 && |b.val| < 32 && |c.val| < 64 && |d.val| < 65
  {
    var kvs := [a, b, c, d];
    assert C8yFits(kvs) ==> |kvs[0].val| < 128 && |kvs[1].val| < 32 && |kvs[2].val| < 64 && |kvs[3].val| < 65;
  }

  // ----- the answer of an application -----

  /** What is done and answered for a bundle that staged, network by network error. */
  lemma BundleAnswers(manifest: string, id: string, unpack: Module -> Unpacked, w: World, effects: seq<Effect>, rc: ZtpApply.Result)
    requires Applied(manifest, id, unpack, w, effects, rc) && ForDevice(manifest, id)
    requires AllStaged(ItemsOf(manifest, unpack))
    ensures var wifi, c8y := LastWifi(ItemsOf(manifest, unpack)), LastC8y(ItemsOf(manifest, unpack));
      && (wifi.None? && c8y.None? ==> effects == [] && rc == Failed(NoData))
      && (wifi.Some? && !w.joins ==> effects == [Effect.Join(wifi.value, false)] && rc == Failed(Unreachable))
      && (wifi.Some? && w.joins && !w.stores ==>
            effects == [Effect.Join(wifi.value, true), Store(wifi.value, false)] && rc == Failed(ZtpApply.Error.StoreFailed))
      && (wifi.Some? && w.joins && w.stores && c8y.None? ==>
            effects == [Effect.Join(wifi.value, true), Store(wifi.value, true)] && rc == Done)
      && (wifi.Some? && w.joins && w.stores && c8y.Some? ==>
            && effects == [Effect.Join(wifi.value, true), Store(wifi.value, true), StoreC8y(c8y.value, w.keeps)]
            && rc == if w.keeps then Done else Failed(ZtpApply.Error.StoreFailed))
      && (wifi.None? && c8y.Some? ==>
            effects == [StoreC8y(c8y.value, w.keeps)] && rc == if w.keeps then Done else Failed(ZtpApply.Error.StoreFailed))
  {
    hide LastWifi, LastC8y, ItemsOf, ForDevice;
  }

  /** A manifest for another device, or of another version, does nothing. */
  lemma WrongManifest(version: string, id: string, device: string, unpack: Module -> Unpacked, w: World,
                      effects: seq<Effect>, rc: ZtpApply.Result)
    requires Writable(Kv("protocol_version", version)) && Writable(Kv("device_id", id))
    requires version != "1" || device != id
    requires Applied(ZtpText.Join(LinesFor([Kv("protocol_version", version), Kv("device_id", id)])), device, unpack, w, effects, rc)
    ensures effects == [] && rc == Failed(Protocol)
  {
    hide Records, LinesFor, ItemsOf, Last, Writable;
    var kvs := [Kv("protocol_version", version), Kv("device_id", id)];
    RecordsRoundTrip(kvs);
    TwoRecords(kvs[0], kvs[1], "protocol_version");
    TwoRecords(kvs[0], kvs[1], "device_id");
  }

  lemma TwoRecords(a: Kv, b: Kv, key: string)
    ensures Last([a, b], key) == if b.key == key then Some(b.val) else if a.key == key then Some(a.val) else None
  {
    LastOfOne(a, key);
    LastSnoc([a], b, key);
    assert [a] + [b] == [a, b];
  }

  /** What a module of each kind is staged as. */
  lemma ModulesStage(kind: string, payload: string, unpack: Module -> Unpacked)
    ensures var item := ItemOf(Good(Clear(kind, payload)), unpack);
      && (kind != "wifi.v2" && kind != "c8y.v2" ==> item == Skipped)
      && (kind == "wifi.v2" || kind == "c8y.v2" ==>
            match unpack(Clear(kind, payload))
            case Bad(e) => item == Unusable(e)
            case Text(s) =>
              if kind == "c8y.v2" then item == C8yStaging(s)
              else (StagedAs(s, NoNetwork) ==> item == Unusable(NoData))
                   && (StagedAs(s, Invalid) ==> item == Unusable(InvalidValue))
                   && (forall n :: StagedAs(s, Chosen(n)) ==> item == Wifi(n)))
    ensures forall format, a, b, c :: (kind == "wifi.v2" || kind == "c8y.v2") && format != "raw" ==>
        ItemOf(Good(Sealed(kind, format, a, b, c)), unpack) == Unusable(NotSupported)
    ensures ItemOf(Malformed, unpack) == Unusable(Protocol)
  {
    hide StagedAs, StagingOf, C8yStaging;
    if kind == "wifi.v2" && unpack(Clear(kind, payload)).Text? {
      var s := unpack(Clear(kind, payload)).s;
      forall st | StagedAs(s, st)
        ensures st == StagingOf(s)
      {
        StagedOnce(s, st, StagingOf(s));
      }
    }
  }
}
