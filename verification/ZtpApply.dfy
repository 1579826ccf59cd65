/** Applying a bundle in two phases (ztp_apply.c): stage every module, then commit
    Wi-Fi before Cumulocity. */
module ZtpApply {
  import opened Common
  import opened ZtpText
  import opened WifiIni

  datatype Error = Protocol | BadMessage | NoData | TooBig | InvalidValue | NotSupported | Unreachable | StoreFailed
  datatype Result = Done | Failed(e: Error)

  datatype C8y = C8y(url: string, tenant: string, externalId: string, otp: string)
  const NO_C8Y: C8y := C8y("", "", "", "")

  /** What happened outside the module, in order. */
  datatype Effect =
    | Join(n: Network, ok: bool)
    | Store(n: Network, ok: bool)
    | StoreC8y(c: C8y, ok: bool)

  /** How the network and the settings store answer. */
  datatype World = World(joins: bool, stores: bool, keeps: bool)

  /** Base64 and unsealing, as far as a payload is concerned. */
  datatype Unpacked = Text(s: string) | Bad(e: Error)

  // ----- c8y.v2 -----

  /** The pairs of the [c8y] sections, given the section in force. */
  function C8yPairs(es: seq<Entry>, section: string): seq<Kv> {
    if es == [] then []
    else match es[0]
      case Section(name) => C8yPairs(es[1..], name)
      case Pair(kv) => (if section == "c8y" then [kv] else []) + C8yPairs(es[1..], section)
  }

  function C8yRoom(key: string): Option<nat> {
    if key == "url" then Some(128)
    else if key == "tenant" then Some(32)
    else if key == "external_id" then Some(64)
    else if key == "one_time_password" then Some(65)
    else None
  }

  ghost predicate C8yFits(kvs: seq<Kv>) {
    forall i :: 0 <= i < |kvs| && C8yRoom(kvs[i].key).Some? ==> |kvs[i].val| < C8yRoom(kvs[i].key).value
  }

  function C8yOf(kvs: seq<Kv>): C8y {
    C8y(Last(kvs, "url").GetOr(""), Last(kvs, "tenant").GetOr(""),
        Last(kvs, "external_id").GetOr(""), Last(kvs, "one_time_password").GetOr(""))
  }

  ghost function C8yStaging(text: string): Item {
    var kvs := C8yPairs(Entries(text), "");
    if !C8yFits(kvs) then Unusable(TooBig)
    else if C8yOf(kvs).url == "" then Unusable(NoData)
    else Onboarding(C8yOf(kvs))
  }

  // ----- staging a manifest -----

  /** What one module is staged as. */
  datatype Item = Skipped | Unusable(e: Error) | Wifi(n: Network) | Onboarding(c: C8y)

  function Payload(m: Module, unpack: Module -> Unpacked): Unpacked {
    if m.Sealed? && m.format != "raw" then Bad(NotSupported) else unpack(m)
  }

  ghost function WifiStaging(text: string): Item {
    match StagingOf(text)
    case Invalid => Unusable(InvalidValue)
    case NoNetwork => Unusable(NoData)
    case Chosen(n) => Wifi(n)
  }

  ghost function ItemOf(line: ModuleLine, unpack: Module -> Unpacked): Item {
    match line
    case Malformed => Unusable(Protocol)
    case Good(m) =>
      if m.kind != "wifi.v2" && m.kind != "c8y.v2" then Skipped
      else match Payload(m, unpack)
        case Bad(e) => Unusable(e)
        case Text(s) => if m.kind == "wifi.v2" then WifiStaging(s) else C8yStaging(s)
  }

  ghost function Items(lines: seq<ModuleLine>, unpack: Module -> Unpacked): (r: seq<Item>)
    ensures |r| == |lines| && forall i :: 0 <= i < |r| ==> r[i] == ItemOf(lines[i], unpack)
  {
    seq(|lines|, i requires 0 <= i < |lines| => ItemOf(lines[i], unpack))
  }

  ghost function LastWifi(items: seq<Item>): Option<Network>
    decreases |items|
  {
    if items == [] then None
    else if items[|items| - 1].Wifi? then Some(items[|items| - 1].n)
    else LastWifi(items[..|items| - 1])
  }

  ghost function LastC8y(items: seq<Item>): Option<C8y>
    decreases |items|
  {
    if items == [] then None
    else if items[|items| - 1].Onboarding? then Some(items[|items| - 1].c)
    else LastC8y(items[..|items| - 1])
  }

  /** The manifest is for this device, and its modules. */
  predicate ForDevice(manifest: string, deviceId: string) {
    && Last(Records(manifest), "protocol_version") == Some("1")
    && Last(Records(manifest), "device_id").GetOr("") == deviceId
  }

  ghost function ItemsOf(manifest: string, unpack: Module -> Unpacked): seq<Item> {
    Items(ModulesOf(Records(manifest)), unpack)
  }

  ghost predicate AllStaged(items: seq<Item>) { forall i :: 0 <= i < |items| ==> !items[i].Unusable? }

  /** The first module that cannot be staged. */
  ghost predicate FirstBad(items: seq<Item>, i: nat) {
    i < |items| && items[i].Unusable? && AllStaged(items[..i])
  }

  // ----- committing -----

  function CommitWifi(n: Network, w: World): (seq<Effect>, Result) {
    if !w.joins then ([Join(n, false)], Failed(Unreachable))
    else ([Join(n, true), Store(n, w.stores)], if w.stores then Done else Failed(Error.StoreFailed))
  }

  function CommitC8y(c: C8y, w: World): (seq<Effect>, Result) {
    ([StoreC8y(c, w.keeps)], if w.keeps then Done else Failed(Error.StoreFailed))
  }

  function Commit(wifi: Option<Network>, c8y: Option<C8y>, w: World): (seq<Effect>, Result) {
    var (e1, r1) := if wifi.Some? then CommitWifi(wifi.value, w) else ([], Done);
    if r1 != Done || c8y.None? then (e1, r1)
    else
      var (e2, r2) := CommitC8y(c8y.value, w);
      (e1 + e2, r2)
  }

  /** What applying a manifest does and answers. */
  ghost predicate Applied(manifest: string, deviceId: string, unpack: Module -> Unpacked, w: World,
                          effects: seq<Effect>, rc: Result) {
    var items := ItemsOf(manifest, unpack);
    if !ForDevice(manifest, deviceId) then effects == [] && rc == Failed(Protocol)
    else if !AllStaged(items) then
      effects == [] && exists i: nat :: FirstBad(items, i) && rc == Failed(items[i].e)
    else if LastWifi(items).None? && LastC8y(items).None? then effects == [] && rc == Failed(NoData)
    else (effects, rc) == Commit(LastWifi(items), LastC8y(items), w)
  }

  // ----- the code -----

  class Applier {
    const wifi: WifiStage
    var c8y: C8y
    var payload: string
    var log: seq<Effect>

    constructor ()
      ensures wifi.Valid() && Empty() && log == [] && fresh(wifi)
    {
      wifi := new WifiStage();
      c8y, payload, log := NO_C8Y, "", [];
    }

    /** No staging state is left. */
    predicate Empty()
      reads this, wifi
    {
      wifi.Empty() && c8y == NO_C8Y && payload == ""
    }

    method ResetAll()
      modifies this`c8y, this`payload, wifi
      ensures wifi.Valid() && Empty()
    {
      wifi.Reset();
      c8y := NO_C8Y;
      payload := "";
    }

    /** c8y_ini: one pair of a [c8y] section; false when it does not fit. */
    method OnC8yPair(kv: Kv) returns (ok: bool)
      modifies this`c8y
      ensures ok == (C8yRoom(kv.key).Some? ==> |kv.val| < C8yRoom(kv.key).value)
      ensures ok ==> forall kvs :: old(c8y) == C8yOf(kvs) ==> c8y == C8yOf(kvs + [kv])
    {
      var room := C8yRoom(kv.key);
      if room.Some? && |kv.val| >= room.value { return false; }
      if kv.key == "url" {
        c8y := c8y.(url := kv.val);
      } else if kv.key == "tenant" {
        c8y := c8y.(tenant := kv.val);
      } else if kv.key == "external_id" {
        c8y := c8y.(externalId := kv.val);
      } else if kv.key == "one_time_password" {
        c8y := c8y.(otp := kv.val);
      }
      forall kvs | old(c8y) == C8yOf(kvs)
        ensures c8y == C8yOf(kvs + [kv])
      {
        LastSnoc(kvs, kv, "url");
        LastSnoc(kvs, kv, "tenant");
        LastSnoc(kvs, kv, "external_id");
        LastSnoc(kvs, kv, "one_time_password");
      }
      ok := true;
    }

    method StageC8y(text: string) returns (r: Result)
      modifies this`c8y
      ensures r.Failed? <==> C8yStaging(text).Unusable?
      ensures r.Failed? ==> C8yStaging(text) == Unusable(r.e)
      ensures r.Done? ==> C8yStaging(text) == Onboarding(c8y)
    {
      hide C8yOf, Entries, Last;
      c8y := NO_C8Y;
      ghost var seen: seq<Kv> := [];
      ghost var all := C8yPairs(Entries(text), "");
      var at, section := 0, "";
      assert text[0..] == text;
      C8yOfNothing();
      while true
        invariant at <= |text| && c8y == C8yOf(seen) && C8yFits(seen)
        invariant all == seen + C8yPairs(Entries(text[at..]), section)
        decreases |text| - at
      {
        var e;
        at, e := NextEntry(text, at);
        if e.None? { break; }
        assert ([e.value] + Entries(text[at..]))[1..] == Entries(text[at..]);
        match e.value
        case Section(name) => section := name;
        case Pair(kv) =>
          if section == "c8y" {
            var ok := OnC8yPair(kv);
            assert all == seen + ([kv] + C8yPairs(Entries(text[at..]), section)) && all[|seen|] == kv;
            if !ok {
              c8y := NO_C8Y;
              return Failed(TooBig);
            }
            seen := seen + [kv];
          }
      }
      assert all == seen;
      if c8y.url == "" { return Failed(NoData); }
      r := Done;
    }

    /** The applier table: commit order is table order. */
    static method FindApplier(kind: string) returns (a: Option<nat>)
      ensures a == if kind == "wifi.v2" then Some(0) else if kind == "c8y.v2" then Some(1) else None
    {
      var appliers := ["wifi.v2", "c8y.v2"];
      for i := 0 to |appliers|
        invariant forall k :: 0 <= k < i ==> appliers[k] != kind
      {
        if appliers[i] == kind { return Some(i); }
      }
      assert appliers[0] != kind && appliers[1] != kind;
      a := None;
    }

    /** One module with an applier: unpack it and stage it. */
    method StageModule(a: nat, m: Module, unpack: Module -> Unpacked) returns (r: Result)
      requires (a == 0 && m.kind == "wifi.v2") || (a == 1 && m.kind == "c8y.v2")
      requires wifi.Valid()
      modifies this`c8y, this`payload, wifi
      ensures wifi.Valid() && payload == ""
      ensures r.Failed? <==> ItemOf(Good(m), unpack).Unusable?
      ensures r.Failed? ==> ItemOf(Good(m), unpack) == Unusable(r.e)
      ensures r.Done? && a == 0 ==> ItemOf(Good(m), unpack) == Wifi(wifi.best) && c8y == old(c8y)
      ensures r.Done? && a == 1 ==> ItemOf(Good(m), unpack) == Onboarding(c8y) && unchanged(wifi)
    {
      hide StagedAs, StagingOf, C8yStaging;
      if m.Sealed? && m.format != "raw" {
        payload := "";
        return Failed(NotSupported);
      }
      match unpack(m)
      case Bad(e) =>
        payload := "";
        r := Failed(e);
      case Text(s) =>
        payload := s;
        if a == 0 {
          var st := wifi.Stage(payload);
          StagedOnce(s, st, StagingOf(s));
          r := if st.Invalid? then Failed(InvalidValue) else if st.NoNetwork? then Failed(NoData) else Done;
        } else {
          r := StageC8y(payload);
        }
        payload := "";
    }

    /** wifi_commit: join, and only then store. */
    method WifiCommit(w: World) returns (r: Result)
      modifies this`log
      ensures (log, r) == (old(log) + CommitWifi(wifi.best, w).0, CommitWifi(wifi.best, w).1)
    {
      log := log + [Join(wifi.best, w.joins)];
      if !w.joins { return Failed(Unreachable); }
      log := log + [Store(wifi.best, w.stores)];
      r := if w.stores then Done else Failed(Error.StoreFailed);
      assert log == old(log) + [Join(wifi.best, true), Store(wifi.best, w.stores)];
    }

    method C8yCommit(w: World) returns (r: Result)
      modifies this`log, this`c8y
      ensures (log, r) == (old(log) + CommitC8y(old(c8y), w).0, CommitC8y(old(c8y), w).1)
    {
      log := log + [StoreC8y(c8y, w.keeps)];
      r := if w.keeps then Done else Failed(Error.StoreFailed);
      c8y := NO_C8Y;
    }

    /** Commit what is staged, in table order; stop at the first failure. */
    method CommitAll(staged: seq<bool>, w: World) returns (r: Result)
      requires |staged| == 2
      modifies this`log, this`c8y
      ensures var c := Commit(if staged[0] then Some(wifi.best) else None, if staged[1] then Some(old(c8y)) else None, w);
        log == old(log) + c.0 && r == c.1
    {
      ghost var n := if staged[0] then Some(wifi.best) else None;
      ghost var c := if staged[1] then Some(c8y) else None;
      r := Done;
      var i := 0;
      while i < 2
        invariant i <= 2 && r == Done
        invariant log == old(log) + Commit(if i > 0 then n else None, if i > 1 then c else None, w).0
        invariant Commit(if i > 0 then n else None, if i > 1 then c else None, w).1 == Done
        invariant i <= 1 ==> c8y == old(c8y)
      {
        if staged[i] {
          if i == 0 { r := WifiCommit(w); } else { r := C8yCommit(w); }
          if r.Failed? { return; }
        }
        i := i + 1;
      }
    }

    /** Phase 1: stage every module; nothing outside changes. */
    method StageAll(manifest: string, unpack: Module -> Unpacked) returns (staged: seq<bool>, r: Result)
      requires wifi.Valid() && Empty()
      modifies this`c8y, this`payload, wifi
      ensures wifi.Valid() && |staged| == 2
      ensures var items := ItemsOf(manifest, unpack);
        && (r.Failed? ==> exists i: nat :: FirstBad(items, i) && r == Failed(items[i].e))
        && (r.Done? ==>
              && AllStaged(items) && payload == ""
              && LastWifi(items) == (if staged[0] then Some(wifi.best) else None)
              && LastC8y(items) == (if staged[1] then Some(c8y) else None)
              && (!staged[0] ==> wifi.Empty()) && (!staged[1] ==> c8y == NO_C8Y))
    {
      hide ItemOf, Records, ModulesOf, LastWifi, LastC8y;
      staged := [false, false];
      var cur := 0;
      ghost var items := ItemsOf(manifest, unpack);
      ghost var done: seq<Item> := [];
      assert manifest[0..] == manifest;
      LastOfNoItems();
      while true
        invariant cur <= |manifest| && wifi.Valid() && |staged| == 2 && payload == ""
        invariant items == done + ItemsOf(manifest[cur..], unpack)
        invariant AllStaged(done)
        invariant LastWifi(done) == (if staged[0] then Some(wifi.best) else None)
        invariant LastC8y(done) == (if staged[1] then Some(c8y) else None)
        invariant (!staged[0] ==> wifi.Empty()) && (!staged[1] ==> c8y == NO_C8Y)
        decreases |manifest| - cur
      {
        var line;
        cur, line := NextModule(manifest, cur);
        if line.None? {
          assert items == done;
          return staged, Done;
        }
        ghost var item, rest := ItemOf(line.value, unpack), ItemsOf(manifest[cur..], unpack);
        assert items == done + [item] + rest;
        LastSnocItem(done, item);
        if line.value.Malformed? {
          MalformedItem(unpack);
          BadItem(items, done, item, rest);
          return staged, Failed(Protocol);
        }
        var m := line.value.m;
        var a := FindApplier(m.kind);
        if a.None? {
          SkippedItem(m, unpack);
        } else {
          r := StageModule(a.value, m, unpack);
          if r.Failed? {
            BadItem(items, done, item, rest);
            return;
          }
          staged := staged[a.value := true];
        }
        done := done + [item];
      }
    }

    method ApplyManifest(manifest: string, deviceId: string, unpack: Module -> Unpacked, w: World)
      returns (rc: Result)
      requires wifi.Valid()
      modifies this`c8y, this`payload, this`log, wifi
      ensures wifi.Valid() && old(log) <= log
      ensures Applied(manifest, deviceId, unpack, w, log[|old(log)|..], rc)
      ensures old(Empty()) || ForDevice(manifest, deviceId) ==> Empty()
    {
      hide AllStaged, Items;
      var id, versionOk := ManifestHeader(manifest);
      if !versionOk { return Failed(Protocol); }
      if id != deviceId { return Failed(Protocol); }
      ResetAll();
      var staged;
      staged, rc := StageAll(manifest, unpack);
      if rc.Failed? {
        ghost var items := ItemsOf(manifest, unpack);
        ghost var i: nat :| FirstBad(items, i) && rc == Failed(items[i].e);
        NotAllStaged(items, i);
        ResetAll();
        return;
      }
      if !staged[0] && !staged[1] { return Failed(NoData); }
      rc := CommitAll(staged, w);
      ResetAll();
    }
  }

  lemma MalformedItem(unpack: Module -> Unpacked)
    ensures ItemOf(Malformed, unpack) == Unusable(Protocol)
  {
  }

  lemma SkippedItem(m: Module, unpack: Module -> Unpacked)
    requires m.kind != "wifi.v2" && m.kind != "c8y.v2"
    ensures ItemOf(Good(m), unpack) == Skipped
  {
  }

  lemma LastOfNoItems()
    ensures LastWifi([]) == None && LastC8y([]) == None
  {
  }

  lemma LastSnocItem(items: seq<Item>, x: Item)
    ensures LastWifi(items + [x]) == if x.Wifi? then Some(x.n) else LastWifi(items)
    ensures LastC8y(items + [x]) == if x.Onboarding? then Some(x.c) else LastC8y(items)
  {
    assert (items + [x])[..|items|] == items;
  }

  lemma BadItem(items: seq<Item>, done: seq<Item>, item: Item, rest: seq<Item>)
    requires items == done + [item] + rest && AllStaged(done) && item.Unusable?
    ensures FirstBad(items, |done|) && items[|done|] == item
  {
    assert items[..|done|] == done;
  }

  lemma NotAllStaged(items: seq<Item>, i: nat)
    requires FirstBad(items, i)
    ensures !AllStaged(items)
  {
  }

  lemma C8yOfNothing()
    ensures C8yOf([]) == NO_C8Y
  {
  }

  // ----- what the two phases guarantee -----

  /** Nothing is joined or stored unless the manifest is for this device and every
      module with an applier staged. */
  lemma NothingBeforeAllStaged(manifest: string, id: string, unpack: Module -> Unpacked, w: World,
                               effects: seq<Effect>, rc: Result)
    requires Applied(manifest, id, unpack, w, effects, rc)
    ensures effects != [] ==> ForDevice(manifest, id) && AllStaged(ItemsOf(manifest, unpack))
    ensures forall i :: 0 <= i < |effects| && effects[i].Store? ==>
        i > 0 && effects[i - 1] == Join(effects[i].n, true)
  {
    hide LastWifi, LastC8y, Items, ForDevice;
  }

  ghost predicate Stages(items: seq<Item>) { LastWifi(items).Some? || LastC8y(items).Some? }

  /** Applying answers success exactly when something staged and all of it committed. */
  lemma DoneExactly(manifest: string, id: string, unpack: Module -> Unpacked, w: World,
                    effects: seq<Effect>, rc: Result)
    requires Applied(manifest, id, unpack, w, effects, rc)
    ensures var items := ItemsOf(manifest, unpack);
      rc == Done <==>
        && ForDevice(manifest, id) && AllStaged(items) && Stages(items)
        && (LastWifi(items).Some? ==> Join(LastWifi(items).value, true) in effects
                                      && Store(LastWifi(items).value, true) in effects)
        && (LastC8y(items).Some? ==> StoreC8y(LastC8y(items).value, true) in effects)
  {
    hide LastWifi, LastC8y, Items, ForDevice;
    var items := ItemsOf(manifest, unpack);
    if ForDevice(manifest, id) && AllStaged(items) && LastWifi(items).Some? {
      var n := LastWifi(items).value;
      assert w.joins ==> effects[0] == Join(n, true) && effects[1] == Store(n, w.stores);
    }
    if rc == Done && LastC8y(items).Some? {
      assert effects[|effects| - 1] == StoreC8y(LastC8y(items).value, true);
    }
  }

  /** Cumulocity data is kept only after a network was joined and stored. */
  ghost predicate C8yAfterWifi(effects: seq<Effect>) {
    forall i :: 0 <= i < |effects| && effects[i].StoreC8y? ==> exists j :: 0 <= j < i && effects[j].Store? && effects[j].ok
  }

  /** That order holds exactly for the bundles that bring a network or no
      Cumulocity data: a bundle with Cumulocity data alone is kept unproven. */
  lemma C8yAfterWifiExactly(manifest: string, id: string, unpack: Module -> Unpacked)
    requires ForDevice(manifest, id) && AllStaged(ItemsOf(manifest, unpack))
    ensures var items := ItemsOf(manifest, unpack);
      (forall w, effects, rc :: Applied(manifest, id, unpack, w, effects, rc) ==> C8yAfterWifi(effects))
      <==> (LastC8y(items).Some? ==> LastWifi(items).Some?)
  {
    hide LastWifi, LastC8y, Items, ForDevice;
    var items := ItemsOf(manifest, unpack);
    if LastC8y(items).Some? && LastWifi(items).None? {
      var w := World(false, false, true);
      var c := Commit(None, LastC8y(items), w);
      assert Applied(manifest, id, unpack, w, c.0, c.1);
      assert c.0[0].StoreC8y?;
    } else {
      forall w, effects, rc | Applied(manifest, id, unpack, w, effects, rc)
        ensures C8yAfterWifi(effects)
      {
        WifiFirst(LastWifi(items), LastC8y(items), w);
      }
    }
  }

  /** A manifest for a device whose one module is a clear c8y.v2 one. */
  function C8yRecords(id: string): seq<Kv> {
    [Kv("protocol_version", "1"), Kv("device_id", id), Kv("module", "c8y.v2 x")]
  }

  /** Whatever module it is, it unpacks to a section with one pair. */
  function C8yBody(m: Module): Unpacked { Text(ZtpText.Join(["[c8y]", "url=u"])) }

  lemma TwoFields(a: string, b: string)
    requires a != "" && b != "" && ' ' !in a && ' ' !in b
    ensures Fields(a + " " + b) == [a, b]
  {
    var s := a + " " + b;
    IndexOfIs(s, ' ', |a|);
    IndexOfIs(b, ' ', |b|);
    assert s[..|a|] == a && s[|a|..] == " " + b && (" " + b)[1..] == b;
    assert b[..|b|] == b && b[|b|..] == "";
    assert Fields(b) == [b];
    assert Fields(" " + b) == Fields(b);
  }

  lemma ThreeRecords(a: Kv, b: Kv, c: Kv, key: string)
    ensures Last([a, b, c], key)
         == if c.key == key then Some(c.val) else if b.key == key then Some(b.val)
            else if a.key == key then Some(a.val) else None
    ensures ModuleOf(a).None? && ModuleOf(b).None? && ModuleOf(c).Some? ==>
        ModulesOf([a, b, c]) == [ModuleOf(c).value]
  {
    hide ModuleOf;
    LastEmpty(key);
    LastSnoc([], a, key);
    LastSnoc([a], b, key);
    LastSnoc([a, b], c, key);
    assert [] + [a] == [a] && [a] + [b] == [a, b] && [a, b] + [c] == [a, b, c];
    assert [a, b, c][1..] == [b, c] && [b, c][1..] == [c] && [c][1..] == [];
    assert ModulesOf([c]) == if ModuleOf(c).Some? then [ModuleOf(c).value] else [];
  }

  lemma C8yModule(kv: Kv)
    requires kv == Kv("module", "c8y.v2 x")
    ensures ModuleOf(kv) == Some(Good(Clear("c8y.v2", "x")))
  {
    TwoFields("c8y.v2", "x");
    hide Fields;
    assert "c8y.v2" + " " + "x" == "c8y.v2 x";
  }

  lemma TwoLines(a: string, b: string)
    requires '\n' !in a && '\n' !in b && EntryOf(a).Some? && EntryOf(b).Some?
    ensures Entries(ZtpText.Join([a, b])) == [EntryOf(a).value, EntryOf(b).value]
  {
    hide EntryOf;
    LinesOfJoin([a, b]);
    assert [a, b][1..] == [b] && [b][1..] == [];
    assert EntriesOf([b]) == [EntryOf(b).value];
  }

  lemma SectionLine(name: string)
    ensures EntryOf("[" + name + "]") == Some(Section(name))
  {
    hide KvOf;
    var l := "[" + name + "]";
    assert StripCr(l) == l && l[1..|l| - 1] == name;
  }

  lemma PairLine(kv: Kv)
    requires Writable(kv) && kv.key != "" && kv.key[0] != '['
    ensures EntryOf(kv.key + "=" + kv.val) == Some(Pair(kv))
  {
    var l := kv.key + "=" + kv.val;
    assert StripCr(l) == l;
    KvOfIs(l, kv);
  }

  lemma OnePair(text: string, url: string)
    requires Entries(text) == [Section("c8y"), Pair(Kv("url", url))] && 0 < |url| < 128
    ensures C8yStaging(text) == Onboarding(C8y(url, "", "", ""))
  {
    hide Entries;
    var kv := Kv("url", url);
    var entries := [Section("c8y"), Pair(kv)];
    assert entries[1..] == [Pair(kv)] && [Pair(kv)][1..] == [];
    assert C8yPairs([Pair(kv)], "c8y") == [kv] + C8yPairs([], "c8y") == [kv];
    LastOfOne(kv, "url");
    LastOfOne(kv, "tenant");
    LastOfOne(kv, "external_id");
    LastOfOne(kv, "one_time_password");
    hide Last;
  }

  lemma LastOfOne(kv: Kv, key: string)
    ensures Last([kv], key) == if kv.key == key then Some(kv.val) else None
  {
    LastEmpty(key);
    LastSnoc([], kv, key);
    assert [] + [kv] == [kv];
  }

  /** Its body stages. */
  lemma C8yBodyStages()
    ensures C8yStaging(ZtpText.Join(["[c8y]", "url=u"])) == Onboarding(C8y("u", "", "", ""))
  {
    hide EntryOf, Entries, C8yStaging, ZtpText.Join;
    SectionLine("c8y");
    PairLine(Kv("url", "u"));
    assert "[" + "c8y" + "]" == "[c8y]" && "url" + "=" + "u" == "url=u";
    TwoLines("[c8y]", "url=u");
    OnePair(ZtpText.Join(["[c8y]", "url=u"]), "u");
  }

  /** Such a bundle: its Cumulocity data is stored without any network. */
  lemma C8yAlone(id: string)
    requires Writable(Kv("device_id", id))
    ensures var manifest := ZtpText.Join(LinesFor(C8yRecords(id)));
      var c := C8y("u", "", "", "");
      && ForDevice(manifest, id) && AllStaged(ItemsOf(manifest, C8yBody))
      && LastC8y(ItemsOf(manifest, C8yBody)) == Some(c) && LastWifi(ItemsOf(manifest, C8yBody)) == None
      && Applied(manifest, id, C8yBody, World(false, false, true), [StoreC8y(c, true)], Done)
      && !C8yAfterWifi([StoreC8y(c, true)])
  {
    hide *;
    C8yAloneItems(id);
    AppliedAlone(ZtpText.Join(LinesFor(C8yRecords(id))), id, C8yBody, C8y("u", "", "", ""));
    AloneIsNotAfter(C8y("u", "", "", ""));
  }

  lemma C8yAloneItems(id: string)
    requires Writable(Kv("device_id", id))
    ensures var manifest := ZtpText.Join(LinesFor(C8yRecords(id)));
      ForDevice(manifest, id) && ItemsOf(manifest, C8yBody) == [Onboarding(C8y("u", "", "", ""))]
  {
    hide Records, ModulesOf, Last, C8yStaging, LinesFor, ZtpText.Join, Writable, ModuleOf;
    var kvs := C8yRecords(id);
    AllWritable(id);
    RecordsRoundTrip(kvs);
    C8yModule(kvs[2]);
    NoModules(id);
    ThreeRecords(kvs[0], kvs[1], kvs[2], "protocol_version");
    ThreeRecords(kvs[0], kvs[1], kvs[2], "device_id");
    C8yBodyStages();
  }

  lemma NoModules(id: string)
    ensures ModuleOf(Kv("protocol_version", "1")).None? && ModuleOf(Kv("device_id", id)).None?
  {
    hide Fields;
  }

  lemma AppliedAlone(manifest: string, id: string, unpack: Module -> Unpacked, c: C8y)
    requires ForDevice(manifest, id) && ItemsOf(manifest, unpack) == [Onboarding(c)]
    ensures AllStaged([Onboarding(c)]) && LastC8y([Onboarding(c)]) == Some(c) && LastWifi([Onboarding(c)]) == None
    ensures Applied(manifest, id, unpack, World(false, false, true), [StoreC8y(c, true)], Done)
  {
    hide ForDevice, ItemsOf;
    assert [Onboarding(c)][..0] == [];
    assert Commit(None, Some(c), World(false, false, true)).0 == [StoreC8y(c, true)];
  }

  lemma AloneIsNotAfter(c: C8y)
    ensures !C8yAfterWifi([StoreC8y(c, true)])
  {
    assert [StoreC8y(c, true)][0].StoreC8y?;
  }

  lemma AllWritable(id: string)
    requires Writable(Kv("device_id", id))
    ensures forall i :: 0 <= i < 3 ==> Writable(C8yRecords(id)[i])
  {
  }

  lemma WifiFirst(wifi: Option<Network>, c8y: Option<C8y>, w: World)
    requires c8y.Some? ==> wifi.Some?
    ensures C8yAfterWifi(Commit(wifi, c8y, w).0)
  {
    var effects := Commit(wifi, c8y, w).0;
    forall i | 0 <= i < |effects| && effects[i].StoreC8y?
      ensures exists j :: 0 <= j < i && effects[j].Store? && effects[j].ok
    {
      assert effects[1] == Store(wifi.value, true);
    }
  }

  /** Of several modules of a type the last one counts. */
  lemma {:induction false} LastOfTypeWins(items: seq<Item>, i: nat)
    requires i < |items|
    ensures items[i].Wifi? && (forall k :: i < k < |items| ==> !items[k].Wifi?) ==>
        LastWifi(items) == Some(items[i].n)
    ensures items[i].Onboarding? && (forall k :: i < k < |items| ==> !items[k].Onboarding?) ==>
        LastC8y(items) == Some(items[i].c)
    decreases |items|
  {
    if i < |items| - 1 { LastOfTypeWins(items[..|items| - 1], i); }
  }
}
