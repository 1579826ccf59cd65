/** Choosing the network to stage from a wifi.v2 body (ztp_apply.c): one pass over
    the INI entries against the first of maximal priority. */
module WifiIni {
  import opened Common
  import opened ZtpText
  import Rfc3339

  datatype Network = Network(ssid: string, psk: string)
  datatype Candidate = Candidate(priority: int, network: Network)
  datatype Staged = Invalid | NoNetwork | Chosen(n: Network)

  const NO_NETWORK: Network := Network("", "")

  // ----- the [network] sections -----

  /** The pairs up to the next section. */
  function Pairs(es: seq<Entry>): seq<Kv> {
    if es == [] || es[0].Section? then [] else [es[0].kv] + Pairs(es[1..])
  }

  function Networks(es: seq<Entry>): seq<seq<Kv>> {
    if es == [] then []
    else (if es[0] == Section("network") then [Pairs(es[1..])] else []) + Networks(es[1..])
  }

  /** A priority: an optional sign and digits, of which six characters are read. */
  function Priority(v: string): Option<int> {
    var neg := v != "" && v[0] == '-';
    var p :- Rfc3339.DigitsValue(v[if neg then 1 else 0..Min(|v|, 6)]);
    var q: int := p;
    Some(if neg then -q else q)
  }

  predicate PairOk(kv: Kv) {
    if kv.key == "ssid" then 0 < |kv.val| <= 32
    else if kv.key == "password" then |kv.val| <= 64
    else if kv.key == "priority" then Priority(kv.val).Some?
    else true
  }

  ghost predicate SectionOk(kvs: seq<Kv>) { forall i :: 0 <= i < |kvs| ==> PairOk(kvs[i]) }

  ghost predicate AllOk(nets: seq<seq<Kv>>) { forall i :: 0 <= i < |nets| ==> SectionOk(nets[i]) }

  function PriorityOf(kvs: seq<Kv>): int {
    match Last(kvs, "priority")
    case Some(v) => Priority(v).GetOr(0)
    case None => 0
  }

  predicate IsOpen(kvs: seq<Kv>) { Last(kvs, "key_mgmt") == Some("NONE") }

  /** A section that names a network; an open network has no password. */
  function CandidateOf(kvs: seq<Kv>): seq<Candidate> {
    match Last(kvs, "ssid")
    case Some(ssid) =>
      var psk := if IsOpen(kvs) then "" else Last(kvs, "password").GetOr("");
      [Candidate(PriorityOf(kvs), Network(ssid, psk))]
    case None => []
  }

  function Candidates(nets: seq<seq<Kv>>): seq<Candidate> {
    if nets == [] then [] else CandidateOf(nets[0]) + Candidates(nets[1..])
  }

  /** The first of maximal priority. */
  ghost predicate FirstMax(cs: seq<Candidate>, i: nat) {
    && i < |cs|
    && (forall j :: 0 <= j < i ==> cs[j].priority < cs[i].priority)
    && (forall j :: i < j < |cs| ==> cs[j].priority <= cs[i].priority)
  }

  /** What a body must be staged as. */
  ghost predicate StagedAs(text: string, r: Staged) {
    var nets := Networks(Entries(text));
    match r
    case Invalid => !AllOk(nets)
    case NoNetwork => AllOk(nets) && Candidates(nets) == []
    case Chosen(n) =>
      AllOk(nets) && exists i: nat :: FirstMax(Candidates(nets), i) && Candidates(nets)[i].network == n
  }

  lemma StagedOnce(text: string, r: Staged, r': Staged)
    requires StagedAs(text, r) && StagedAs(text, r')
    ensures r == r'
  {
    hide Candidates, Networks, Entries, AllOk;
    var cs := Candidates(Networks(Entries(text)));
    if r.Chosen? && r'.Chosen? {
      var i: nat :| FirstMax(cs, i) && cs[i].network == r.n;
      var j: nat :| FirstMax(cs, j) && cs[j].network == r'.n;
      FirstMaxOnce(cs, i, j);
    }
  }

  lemma FirstMaxOnce(cs: seq<Candidate>, i: nat, j: nat)
    requires FirstMax(cs, i) && FirstMax(cs, j)
    ensures i == j
  {
    var a, b := cs[i].priority, cs[j].priority;
    assert i <= j ==> b <= a;
    assert j <= i ==> a <= b;
  }

  function BestIndex(cs: seq<Candidate>): (i: nat)
    requires cs != []
    ensures FirstMax(cs, i)
    decreases |cs|
  {
    if |cs| == 1 then 0
    else
      var b := BestIndex(cs[..|cs| - 1]);
      if cs[|cs| - 1].priority > cs[b].priority then |cs| - 1 else b
  }

  /** The one outcome there is. */
  ghost function StagingOf(text: string): (r: Staged)
    ensures StagedAs(text, r)
  {
    var nets := Networks(Entries(text));
    if !AllOk(nets) then Invalid
    else if Candidates(nets) == [] then NoNetwork
    else Chosen(Candidates(nets)[BestIndex(Candidates(nets))].network)
  }

  /** A staged network fits the store: nothing was truncated. */
  lemma StagedFits(text: string, n: Network)
    requires StagedAs(text, Chosen(n))
    ensures 0 < |n.ssid| <= 32 && |n.psk| <= 64
  {
    hide Candidates, Networks, Entries, AllOk;
    var nets := Networks(Entries(text));
    var i: nat :| FirstMax(Candidates(nets), i) && Candidates(nets)[i].network == n;
    CandidatesFit(nets, i);
  }

  lemma {:induction false} CandidatesFit(nets: seq<seq<Kv>>, i: nat)
    requires AllOk(nets) && i < |Candidates(nets)|
    ensures 0 < |Candidates(nets)[i].network.ssid| <= 32 && |Candidates(nets)[i].network.psk| <= 64
  {
    var here := CandidateOf(nets[0]);
    if i < |here| {
      assert SectionOk(nets[0]);
      LastOk(nets[0], "ssid");
      LastOk(nets[0], "password");
    } else {
      assert AllOk(nets[1..]) by {
        forall k | 0 <= k < |nets[1..]| ensures SectionOk(nets[1..][k]) { assert SectionOk(nets[k + 1]); }
      }
      CandidatesFit(nets[1..], i - |here|);
    }
  }

  lemma {:induction false} LastOk(kvs: seq<Kv>, key: string)
    requires SectionOk(kvs)
    ensures Last(kvs, key).Some? ==> PairOk(Kv(key, Last(kvs, key).value))
    decreases |kvs|
  {
    if kvs != [] {
      assert PairOk(kvs[|kvs| - 1]);
      LastOk(kvs[..|kvs| - 1], key);
    }
  }

  // ----- the code -----

  method ParsePriority(v: string) returns (p: Option<int>)
    ensures p == Priority(v)
  {
    var neg := |v| > 0 && v[0] == '-';
    var start := if neg then 1 else 0;
    ghost var digits := v[start..Min(|v|, 6)];
    var n: nat := 0;
    var i := start;
    while i < |v| && i < 6
      invariant start <= i <= Min(|v|, 6)
      invariant Rfc3339.DigitsValue(digits[..i - start]) == Some(n)
    {
      ghost var k := i - start;
      assert digits[..k + 1][..k] == digits[..k] && digits[k] == v[i];
      if v[i] < '0' || v[i] > '9' {
        Rfc3339.NotAllDigits(digits, k + 1);
        return None;
      }
      n := n * 10 + (v[i] as int - '0' as int);
      i := i + 1;
    }
    assert digits[..i - start] == digits;
    var m: int := n;
    p := Some(if neg then -m else m);
  }

  class WifiStage {
    var best: Network
    var bestPriority: int
    var have: bool
    // the section being read
    var ssid: string
    var psk: string
    var priority: int
    var open: bool
    var seenSsid: bool
    var inNetwork: bool
    /** The candidates of the sections closed so far, and the pairs of this one. */
    ghost var closed: seq<Candidate>
    ghost var cur: seq<Kv>

    ghost predicate Valid()
      reads this
    {
      && BestOf(closed, have, Candidate(bestPriority, best))
      && SectionOk(cur) && (!inNetwork ==> cur == [])
      && seenSsid == Last(cur, "ssid").Some? && ssid == Last(cur, "ssid").GetOr("")
      && psk == Last(cur, "password").GetOr("")
      && open == IsOpen(cur) && priority == PriorityOf(cur)
    }

    /** As wifi_reset leaves it. */
    predicate Empty()
      reads this
    {
      best == NO_NETWORK && bestPriority == 0 && !have && ssid == "" && psk == "" && priority == 0
      && !open && !seenSsid && !inNetwork
    }

    constructor ()
      ensures Valid() && Empty()
    {
      best, bestPriority, have := NO_NETWORK, 0, false;
      ssid, psk, priority, open, seenSsid, inNetwork := "", "", 0, false, false, false;
      closed, cur := [], [];
      NothingRead();
    }

    method Reset()
      modifies this
      ensures Valid() && Empty() && closed == []
    {
      hide Last, IsOpen, PriorityOf, SectionOk;
      NothingRead();
      best, bestPriority, have := NO_NETWORK, 0, false;
      ssid, psk, priority, open, seenSsid, inNetwork := "", "", 0, false, false, false;
      closed, cur := [], [];
    }

    /** wifi_close_section: keep the section if it beats the best so far. */
    method CloseSection()
      requires Valid()
      modifies this
      ensures Valid() && !inNetwork
      ensures closed == old(closed) + (if old(inNetwork) then CandidateOf(old(cur)) else [])
    {
      hide Last, BestOf, CandidateOf, IsOpen, PriorityOf, SectionOk;
      NothingRead();
      if inNetwork && seenSsid {
        Keep();
      } else if inNetwork {
        NoCandidate(cur);
      }
      ssid, psk, priority, open, seenSsid := "", "", 0, false, false;
      cur := [];
      inNetwork := false;
    }

    /** A section with an SSID, against the best so far. */
    method Keep()
      requires Valid() && inNetwork && seenSsid
      modifies this`best, this`bestPriority, this`have, this`psk, this`closed
      ensures closed == old(closed) + CandidateOf(cur)
      ensures BestOf(closed, have, Candidate(bestPriority, best))
    {
      hide Priority, Last, BestOf;
      ghost var c := Candidate(priority, Network(ssid, if open then "" else psk));
      KeepBest(closed, have, Candidate(bestPriority, best), c);
      if !have || priority > bestPriority {
        if open { psk := ""; }
        best := Network(ssid, psk);
        bestPriority := priority;
        have := true;
      }
      closed := closed + [c];
    }

    /** wifi_ini: one entry; false when a value is unusable. */
    method OnEntry(e: Entry) returns (ok: bool)
      requires Valid()
      modifies this
      ensures Valid()
      ensures e.Section? ==>
          ok && inNetwork == (e.name == "network") && cur == []
          && closed == old(closed) + (if old(inNetwork) then CandidateOf(old(cur)) else [])
      ensures e.Pair? ==> inNetwork == old(inNetwork) && closed == old(closed)
      ensures e.Pair? && !inNetwork ==> ok
      ensures e.Pair? && inNetwork ==>
          ok == PairOk(e.kv) && (ok ==> cur == old(cur) + [e.kv])
    {
      hide Priority, BestOf, CandidateOf;
      if e.Section? {
        CloseSection();
        inNetwork := e.name == "network";
        return true;
      }
      if !inNetwork { return true; }
      ok := OnPair(e.kv);
    }

    method OnPair(kv: Kv) returns (ok: bool)
      requires Valid() && inNetwork
      modifies this`ssid, this`psk, this`open, this`priority, this`seenSsid, this`cur
      ensures Valid() && ok == PairOk(kv) && cur == old(cur) + (if ok then [kv] else [])
    {
      hide Priority, Last, BestOf;
      if kv.key == "ssid" {
        if |kv.val| == 0 || |kv.val| >= 33 { return false; }
      } else if kv.key == "password" {
        if |kv.val| >= 65 { return false; }
      } else if kv.key == "priority" {
        var p := ParsePriority(kv.val);
        if p.None? { return false; }
        priority := p.value;
      }
      if kv.key == "ssid" { ssid, seenSsid := kv.val, true; }
      if kv.key == "password" { psk := kv.val; }
      if kv.key == "key_mgmt" { open := kv.val == "NONE"; }
      LastSnoc(cur, kv, "ssid");
      LastSnoc(cur, kv, "password");
      LastSnoc(cur, kv, "key_mgmt");
      LastSnoc(cur, kv, "priority");
      cur := cur + [kv];
      ok := true;
    }

    /** wifi_stage: walk a body and keep the network to join. */
    method Stage(text: string) returns (r: Staged)
      modifies this
      ensures Valid() && StagedAs(text, r)
      ensures r.Chosen? ==> best == r.n
    {
      hide Entries, Networks, Candidates, AllOk, Adds, CandidateOf, PairOk, BestOf;
      Reset();
      ghost var all := Entries(text);
      var at := 0;
      assert text[0..] == text;
      AddsStart(all);
      while true
        invariant at <= |text| && Valid()
        invariant Adds(all, Entries(text[at..]), closed, inNetwork, cur)
        decreases |text| - at
      {
        var e, ok;
        ghost var was, wasClosed, wasIn, wasCur := at, closed, inNetwork, cur;
        at, e := NextEntry(text, at);
        if e.None? { break; }
        ok := OnEntry(e.value);
        if !ok {
          AddsBad(all, e.value.kv, Entries(text[at..]), wasClosed, wasCur);
          CloseSection();
          return Invalid;
        }
        AddsStep(all, e.value, Entries(text[at..]), wasClosed, wasIn, wasCur);
      }
      AddsEnd(all, closed, inNetwork, cur);
      CloseSection();
      if !have {
        BestOfNothing(closed, Candidate(bestPriority, best));
        return NoNetwork;
      }
      BestOfSome(closed, Candidate(bestPriority, best));
      r := Chosen(best);
    }
  }

  /** What a body amounts to: the candidates closed so far, the open section with the
      pairs still to come, and the sections still to come. */
  ghost predicate Adds(all: seq<Entry>, rest: seq<Entry>, closed: seq<Candidate>, inNet: bool, cur: seq<Kv>) {
    && Candidates(Networks(all))
       == closed + (if inNet then CandidateOf(cur + Pairs(rest)) else []) + Candidates(Networks(rest))
    && (AllOk(Networks(all)) <==> (inNet ==> SectionOk(cur + Pairs(rest))) && AllOk(Networks(rest)))
    && (SectionOk(cur) || !inNet)
  }

  lemma AddsStart(all: seq<Entry>)
    ensures Adds(all, all, [], false, [])
  {
  }

  lemma AddsStep(all: seq<Entry>, e: Entry, rest: seq<Entry>, closed: seq<Candidate>, inNet: bool, cur: seq<Kv>)
    requires Adds(all, [e] + rest, closed, inNet, cur)
    requires e.Pair? && inNet ==> PairOk(e.kv)
    ensures e.Pair? && inNet ==> Adds(all, rest, closed, inNet, cur + [e.kv])
    ensures e.Pair? && !inNet ==> Adds(all, rest, closed, inNet, cur)
    ensures e.Section? ==>
        Adds(all, rest, closed + (if inNet then CandidateOf(cur) else []), e.name == "network", [])
  {
    hide PairOk, CandidateOf;
    var es := [e] + rest;
    assert es[1..] == rest;
    if e.Pair? {
      assert Networks(es) == Networks(rest);
      assert cur + Pairs(es) == cur + [e.kv] + Pairs(rest);
    } else {
      assert cur + Pairs(es) == cur;
      assert [] + Pairs(rest) == Pairs(rest);
      if e.name == "network" {
        assert Networks(es) == [Pairs(rest)] + Networks(rest);
        CandidatesCons(Pairs(rest), Networks(rest));
        AllOkCons(Pairs(rest), Networks(rest));
      } else {
        assert Networks(es) == Networks(rest);
      }
    }
  }

  lemma AddsBad(all: seq<Entry>, kv: Kv, rest: seq<Entry>, closed: seq<Candidate>, cur: seq<Kv>)
    requires Adds(all, [Pair(kv)] + rest, closed, true, cur) && !PairOk(kv)
    ensures !AllOk(Networks(all))
  {
    hide PairOk, CandidateOf, AllOk, Networks;
    var pairs := Pairs([Pair(kv)] + rest);
    assert pairs[0] == kv && (cur + pairs)[|cur|] == kv;
  }

  lemma AddsEnd(all: seq<Entry>, closed: seq<Candidate>, inNet: bool, cur: seq<Kv>)
    requires Adds(all, [], closed, inNet, cur)
    ensures AllOk(Networks(all))
    ensures Candidates(Networks(all)) == closed + (if inNet then CandidateOf(cur) else [])
  {
    hide PairOk, CandidateOf;
    assert cur + [] == cur;
  }

  lemma CandidatesCons(n: seq<Kv>, nets: seq<seq<Kv>>)
    ensures Candidates([n] + nets) == CandidateOf(n) + Candidates(nets)
  {
  }

  lemma AllOkCons(n: seq<Kv>, nets: seq<seq<Kv>>)
    ensures AllOk([n] + nets) <==> SectionOk(n) && AllOk(nets)
  {
    hide SectionOk;
    assert ([n] + nets)[0] == n;
    assert forall i :: 0 <= i < |nets| ==> nets[i] == ([n] + nets)[i + 1];
  }

  lemma BestOfNothing(cs: seq<Candidate>, best: Candidate)
    requires BestOf(cs, false, best)
    ensures cs == []
  {
  }

  lemma BestOfSome(cs: seq<Candidate>, best: Candidate)
    requires BestOf(cs, true, best)
    ensures exists i: nat :: FirstMax(cs, i) && cs[i].network == best.network
  {
    var i: nat :| FirstMax(cs, i) && cs[i] == best;
    assert cs[i].network == best.network;
  }

  lemma NoCandidate(kvs: seq<Kv>)
    requires Last(kvs, "ssid").None?
    ensures CandidateOf(kvs) == []
  {
  }

  lemma NothingRead()
    ensures Last([], "ssid").None? && Last([], "password").None?
    ensures SectionOk([]) && !IsOpen([]) && PriorityOf([]) == 0
  {
  }

  /** The best so far: the first of maximal priority among these. */
  ghost predicate BestOf(cs: seq<Candidate>, have: bool, best: Candidate) {
    have == (cs != []) && (have ==> exists i: nat :: FirstMax(cs, i) && cs[i] == best)
  }

  lemma KeepBest(cs: seq<Candidate>, have: bool, best: Candidate, c: Candidate)
    requires BestOf(cs, have, best)
    ensures BestOf(cs + [c], true, if !have || c.priority > best.priority then c else best)
  {
    if have && c.priority <= best.priority {
      var i: nat :| FirstMax(cs, i) && cs[i] == best;
      assert FirstMax(cs + [c], i);
    } else {
      assert FirstMax(cs + [c], |cs|);
    }
  }
}
