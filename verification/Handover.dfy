/** The boot hand-over: MCUboot's hook, the application and the provisioner share
    a flash record and the credential store, and the supply may fail between any
    two flash operations. */
module Handover {
  import opened Common

  // ----- what is in flash -----

  type Word = bv32
  type Record = w: seq<Word> | |w| == 4 witness [0, 0, 0, 0]

  const ERASED: Record := [0xFFFF_FFFF, 0xFFFF_FFFF, 0xFFFF_FFFF, 0xFFFF_FFFF]
  const REQUEST_MAGIC: Word := 0x564f_5250
  const IMAGE_MAGIC: Word := 0x96f3_b83d
  const PROVISIONER: Word := 1

  datatype Reason = NoCredentials | Operator

  function Code(reason: Reason): Word { if reason.NoCredentials? then 1 else 2 }

  function Request(reason: Reason): Record { [REQUEST_MAGIC, PROVISIONER, Code(reason), 0] }

  /** What the boot hook looks at. */
  predicate Requested(w: Record) { w[0] == REQUEST_MAGIC && w[1] == PROVISIONER }

  predicate Complete(w: Record) { w == Request(NoCredentials) || w == Request(Operator) }

  datatype Creds = Creds(ssid: Bytes, psk: Bytes)

  predicate Usable(c: Creds) { 0 < |c.ssid| <= 32 && |c.psk| <= 64 }

  /** What a client can send: both provisioning services check the lengths. */
  type Candidate = c: Creds | Usable(c) witness Creds([0], [])

  datatype Flash = Flash(record: Record, store: seq<Creds>)

  /** Atomic flash operations. Programming a word can only clear bits. */
  datatype Op =
    | EraseRecord
    | ProgramWord(slot: nat, v: Word)
    | DeleteFirst
    | Put(c: Creds)

  /** The settings store keeps its order, and a new name comes last. */
  function WithCreds(store: seq<Creds>, c: Creds): seq<Creds> {
    if store == [] then [c]
    else if store[0].ssid == c.ssid then [c] + store[1..]
    else [store[0]] + WithCreds(store[1..], c)
  }

  function Do(f: Flash, op: Op): Flash {
    match op
    case EraseRecord => f.(record := ERASED)
    case ProgramWord(k, v) => if k < 4 then f.(record := f.record[k := f.record[k] & v]) else f
    case DeleteFirst => if f.store == [] then f else f.(store := f.store[1..])
    case Put(c) => f.(store := WithCreds(f.store, c))
  }

  function DoAll(f: Flash, ops: seq<Op>): Flash
    decreases |ops|
  {
    if ops == [] then f else DoAll(Do(f, ops[0]), ops[1..])
  }

  lemma {:induction false} DoAllConcat(f: Flash, a: seq<Op>, b: seq<Op>)
    ensures DoAll(f, a + b) == DoAll(DoAll(f, a), b)
    decreases |a|
  {
    if a == [] {
      assert a + b == b;
    } else {
      assert (a + b)[0] == a[0] && (a + b)[1..] == a[1..] + b;
      DoAllConcat(Do(f, a[0]), a[1..], b);
    }
  }

  // ----- what the source calls but this repository does not hold -----

  /** The provisioner partition, as far as the loader can tell. */
  datatype Image = Image(opens: bool, magic: Word, headerLoads: bool, layoutReads: bool, validates: bool)
  {
    predicate Present() { opens && magic == IMAGE_MAGIC }
    predicate Launchable() { Present() && headerLoads && layoutReads && validates }
  }

  /** A record write: the erase can fail, or the write can stop after some words. */
  datatype Write = Write(erased: bool, words: nat)
  {
    predicate Good() { erased && words >= 4 }
  }

  const GOOD: Write := Write(true, 4)

  datatype Setup = Setup(image: Image, builtin: Option<Creds>, ztp: bool)
  {
    predicate HasBuiltin() { builtin.Some? && Usable(builtin.value) }
  }

  function Stored(store: seq<Creds>): Option<Creds> {
    if store == [] then None
    else if 0 < |store[0].ssid| <= 32 then (if |store[0].psk| <= 64 then Some(store[0]) else None)
    else Stored(store[1..])
  }

  function Resolve(setup: Setup, store: seq<Creds>): Option<Creds> {
    if Stored(store).Some? then Stored(store)
    else if setup.HasBuiltin() then setup.builtin
    else None
  }

  // ----- one event, as flash operations and the mode it leaves -----

  datatype Mode = Off | App(online: bool) | Prov(goesBack: bool, idle: bool)

  datatype Event =
    | PowerOn(w: Write)
    | Pattern(w: Write)
    | EraseHold(deleted: nat, w: Write)
    | Settings(c: Candidate, joins: bool, deleted: nat, stored: bool, rest: bool, erased: bool)
    | OtherBundle(erased: bool)
    | WindowEnds(erased: bool)
    | Button

  function SetOps(reason: Reason, w: Write): seq<Op> {
    if !w.erased then []
    else [EraseRecord] + Take(Words(reason), w.words)
  }

  function Words(reason: Reason): seq<Op> {
    [ProgramWord(0, REQUEST_MAGIC), ProgramWord(1, PROVISIONER), ProgramWord(2, Code(reason)), ProgramWord(3, 0)]
  }

  function ClearOps(erased: bool): seq<Op> { if erased then [EraseRecord] else [] }

  function DeleteOps(n: nat): seq<Op> { seq(n, _ => DeleteFirst) }

  function RequestOps(setup: Setup, reason: Reason, w: Write): seq<Op> {
    if setup.image.Present() then SetOps(reason, w) else []
  }

  predicate HandsOver(setup: Setup, w: Write) { setup.image.Present() && w.Good() }

  function StoreOps(c: Creds, n: nat, stored: bool): seq<Op> {
    DeleteOps(n) + (if stored then [Put(c)] else [])
  }

  function EraseReason(setup: Setup, left: seq<Creds>): Reason {
    if Resolve(setup, left).Some? then Operator else NoCredentials
  }

  predicate Launches(setup: Setup, f: Flash) { Requested(f.record) && setup.image.Launchable() }

  /** A Wi-Fi test that goes ahead: Improv drops settings while idle, ZTP does not. */
  predicate Tests(setup: Setup, m: Mode, e: Event) {
    m.Prov? && e.Settings? && e.joins && (setup.ztp || !m.idle)
  }

  /** Improv leaves once the credentials are stored, ZTP once the bundle is applied. */
  predicate Provisioned(setup: Setup, e: Event) {
    e.Settings? && e.stored && (!setup.ztp || e.rest)
  }

  function Ops(setup: Setup, f: Flash, m: Mode, e: Event): seq<Op> {
    match e
    case PowerOn(w) =>
      if m.Off? && !Launches(setup, f) && Resolve(setup, f.store).None?
      then RequestOps(setup, NoCredentials, w) else []
    case Pattern(w) => if m.App? then RequestOps(setup, Operator, w) else []
    case EraseHold(n, w) =>
      if !m.App? then []
      else
        var gone := Min(n, |f.store|);
        DeleteOps(gone) + RequestOps(setup, EraseReason(setup, f.store[gone..]), w)
    case Settings(c, _, n, stored, _, erased) =>
      if !Tests(setup, m, e) then []
      else StoreOps(c, Min(n, |f.store|), stored) + (if Provisioned(setup, e) then ClearOps(erased) else [])
    case OtherBundle(erased) => if m.Prov? && setup.ztp then ClearOps(erased) else []
    case WindowEnds(erased) => if Expires(setup, f, m) then ClearOps(erased) else []
    case Button => []
  }

  predicate Expires(setup: Setup, f: Flash, m: Mode) {
    m.Prov? && !m.idle && (m.goesBack || Resolve(setup, f.store).Some?)
  }

  function After(setup: Setup, f: Flash, m: Mode, e: Event): Mode {
    match e
    case PowerOn(w) =>
      if !m.Off? then m
      else if Launches(setup, f) then Prov(f.record[2] == Code(Operator), false)
      else if Resolve(setup, f.store).Some? then App(true)
      else if HandsOver(setup, w) then Off
      else App(false)
    case Pattern(w) => if m.App? && HandsOver(setup, w) then Off else m
    case EraseHold(_, _) => if m.App? then Off else m
    case Settings(_, _, _, _, _, _) => if Tests(setup, m, e) && Provisioned(setup, e) then Off else m
    case OtherBundle(_) => if m.Prov? && setup.ztp then Off else m
    case WindowEnds(_) =>
      if Expires(setup, f, m) then Off
      else if m.Prov? then m.(idle := true)
      else m
    case Button => if m.Prov? then m.(idle := false) else m
  }

  datatype Sys = Sys(flash: Flash, mode: Mode)

  /** One event; the supply lasts for the given number of flash operations. */
  datatype Label = Label(event: Event, power: Option<nat>)

  function Step(setup: Setup, s: Sys, l: Label): Sys {
    var ops := Ops(setup, s.flash, s.mode, l.event);
    if l.power.Some? && l.power.value <= |ops| then Sys(DoAll(s.flash, ops[..l.power.value]), Off)
    else Sys(DoAll(s.flash, ops), After(setup, s.flash, s.mode, l.event))
  }

  function Run(setup: Setup, s: Sys, ls: seq<Label>): Sys
    decreases |ls|
  {
    if ls == [] then s else Step(setup, Run(setup, s, ls[..|ls| - 1]), ls[|ls| - 1])
  }

  // ----- the code, one flash operation at a time -----

  class Device {
    const words: array<Word>
    var store: seq<Creds>
    /** Flash operations before the supply fails; afterwards nothing changes. */
    var power: nat

    constructor (record: Record, stored: seq<Creds>, lasts: nat)
      ensures Valid() && Now() == Flash(record, stored) && power == lasts && fresh(words)
    {
      var w := new Word[4](i requires 0 <= i < 4 => record[i]);
      words := w;
      store := stored;
      power := lasts;
      new;
      assert words[..] == record;
    }

    ghost predicate Valid() { words.Length == 4 }

    function Now(): Flash
      requires Valid()
      reads this, words
    {
      Flash(words[..], store)
    }

    /** The given operations happened, as far as the supply lasted. */
    twostate predicate Did(ops: seq<Op>)
      requires Valid()
      reads this, words
    {
      && Now() == DoAll(old(Now()), Take(ops, old(power)))
      && power == old(power) - Min(old(power), |ops|)
    }

    method Erase()
      requires Valid()
      modifies this`power, words
      ensures Did([EraseRecord])
    {
      if power > 0 {
        power := power - 1;
        for i := 0 to 4
          invariant power == old(power) - 1
          invariant forall k :: 0 <= k < i ==> words[k] == 0xFFFF_FFFF
        {
          words[i] := 0xFFFF_FFFF;
        }
        assert words[..] == ERASED;
      }
    }

    method Program(i: nat, v: Word)
      requires Valid() && i < 4
      modifies this`power, words
      ensures Did([ProgramWord(i, v)])
    {
      if power > 0 {
        power := power - 1;
        words[i] := words[i] & v;
      }
    }

    method Delete()
      requires Valid() && (power > 0 ==> store != [])
      modifies this`power, this`store
      ensures Did([DeleteFirst])
    {
      if power > 0 {
        power := power - 1;
        store := store[1..];
      }
    }

    method SetPersonal(c: Creds)
      requires Valid()
      modifies this`power, this`store
      ensures Did([Put(c)])
    {
      if power > 0 {
        power := power - 1;
        store := WithCreds(store, c);
      }
    }

    method DeleteAll(n: nat)
      requires Valid() && n <= |store|
      modifies this`power, this`store
      ensures Did(DeleteOps(n))
      ensures old(power) >= n ==> store == old(store)[n..]
    {
      ghost var f, p := Now(), power;
      assert DeleteOps(0) == [];
      for i := 0 to n
        invariant Now() == DoAll(f, Take(DeleteOps(i), p)) && power == p - Min(p, i)
        invariant |store| == |f.store| - Min(p, i)
        invariant p >= i ==> store == f.store[i..]
      {
        Delete();
        TakeThen(f, DeleteOps(i), [DeleteFirst], p);
        assert DeleteOps(i) + [DeleteFirst] == DeleteOps(i + 1);
      }
    }

    method BootRequestSet(reason: Reason, w: Write) returns (ok: bool)
      requires Valid()
      modifies this`power, words
      ensures Did(SetOps(reason, w)) && ok == w.Good()
    {
      if !w.erased { return false; }
      ghost var f, p, all := Now(), power, Words(reason);
      Erase();
      var request := Request(reason);
      var i := 0;
      assert [EraseRecord] + Take(all, 0) == [EraseRecord];
      while i < 4 && i < w.words
        invariant i <= 4 && (i <= w.words)
        invariant Now() == DoAll(f, Take([EraseRecord] + Take(all, i), p)) && power == p - Min(p, i + 1)
      {
        Program(i, request[i]);
        TakeThen(f, [EraseRecord] + Take(all, i), [all[i]], p);
        assert [EraseRecord] + Take(all, i) + [all[i]] == [EraseRecord] + Take(all, i + 1);
        i := i + 1;
      }
      assert Take(all, i) == Take(all, w.words);
      ok := w.words >= 4;
    }

    method BootRequestClear(erased: bool)
      requires Valid()
      modifies this`power, words
      ensures Did(ClearOps(erased))
    {
      if erased { Erase(); }
    }

    method BootRequestRead() returns (r: Option<Record>)
      requires Valid()
      ensures r == if words[0] == REQUEST_MAGIC then Some(Now().record) else None
    {
      if words[0] != REQUEST_MAGIC { return None; }
      return Some(words[..]);
    }

    /** boot_go_hook: true when the provisioner is launched. */
    method BootGoHook(image: Image) returns (prov: bool)
      requires Valid()
      ensures prov == (Requested(Now().record) && image.Launchable())
    {
      if words[0] != REQUEST_MAGIC || words[1] != PROVISIONER { return false; }
      if !image.opens { return false; }
      if image.magic != IMAGE_MAGIC || !image.headerLoads { return false; }
      if !image.layoutReads { return false; }
      if !image.validates { return false; }
      return true;
    }

    /** stored_creds: the first name that fits decides. */
    method StoredCreds() returns (c: Option<Creds>)
      requires Valid()
      ensures c == Stored(store)
    {
      var i := 0;
      while i < |store|
        invariant i <= |store| && Stored(store) == Stored(store[i..])
      {
        if 0 < |store[i].ssid| < 33 {
          if |store[i].psk| >= 65 { return None; }
          return Some(store[i]);
        }
        assert store[i..][1..] == store[i + 1..];
        i := i + 1;
      }
      return None;
    }

    method ResolveCreds(setup: Setup) returns (c: Option<Creds>)
      requires Valid()
      ensures c == Resolve(setup, store)
    {
      c := StoredCreds();
      if c.Some? { return c; }
      if setup.builtin.None? { return None; }
      var b := setup.builtin.value;
      if |b.ssid| == 0 || |b.ssid| >= 33 || |b.psk| >= 65 { return None; }
      return Some(b);
    }

    method RequestProvisioner(setup: Setup, reason: Reason, w: Write) returns (ok: bool)
      requires Valid()
      modifies this`power, words
      ensures Did(RequestOps(setup, reason, w)) && ok == HandsOver(setup, w)
    {
      if !setup.image.opens || setup.image.magic != IMAGE_MAGIC { return false; }
      ok := BootRequestSet(reason, w);
    }

    /** From reset to a running image. */
    method Boot(setup: Setup, w: Write) returns (m: Mode)
      requires Valid()
      modifies this`power, words
      ensures Did(Ops(setup, old(Now()), Off, PowerOn(w)))
      ensures m == After(setup, old(Now()), Off, PowerOn(w))
    {
      var prov := BootGoHook(setup.image);
      if prov {
        var req := BootRequestRead();
        return Prov(req.Some? && req.value[2] == Code(Operator), false);
      }
      var c := ResolveCreds(setup);
      if c.Some? { return App(true); }
      var ok := RequestProvisioner(setup, NoCredentials, w);
      m := if ok then Off else App(false);
    }

    /** The erase gesture: forget every network, then ask for the provisioner. */
    method EraseCredentials(setup: Setup, n: nat, w: Write)
      requires Valid() && n <= |store|
      modifies this`power, this`store, words
      ensures Did(DeleteOps(n) + RequestOps(setup, EraseReason(setup, old(store)[n..]), w))
    {
      hide DoAll, RequestOps, Resolve;
      ghost var f, p := Now(), power;
      DeleteAll(n);
      var have := ResolveCreds(setup);
      var reason := if have.Some? then Operator else NoCredentials;
      var _ := RequestProvisioner(setup, reason, w);
      ghost var named := EraseReason(setup, f.store[n..]);
      RequestOpsLength(setup, reason, named, w);
      CutLate(f, DeleteOps(n), RequestOps(setup, reason, w), RequestOps(setup, named, w), p);
    }

    /** The button patterns of the running application; true when it reboots. */
    method HandleGesture(setup: Setup, online: bool, e: Event) returns (reboots: bool)
      requires Valid() && (e.Pattern? || e.EraseHold?)
      modifies this`power, this`store, words
      ensures Did(Ops(setup, old(Now()), App(online), e))
      ensures reboots == After(setup, old(Now()), App(online), e).Off?
    {
      hide DoAll, RequestOps, Resolve;
      match e
      case Pattern(w) =>
        reboots := RequestProvisioner(setup, Operator, w);
      case EraseHold(n, w) =>
        EraseCredentials(setup, Min(n, |store|), w);
        reboots := true;
    }

    /** try_settings, and wifi_commit with what follows it in a bundle: join,
        store, leave. */
    method TrySettings(setup: Setup, m: Mode, e: Event) returns (reboots: bool)
      requires Valid() && m.Prov? && e.Settings?
      modifies this`power, this`store, words
      ensures Did(Ops(setup, old(Now()), m, e))
      ensures reboots == After(setup, old(Now()), m, e).Off?
    {
      if m.idle && !setup.ztp { return false; }
      if !e.joins { return false; }
      ghost var f, p := Now(), power;
      var gone := Min(e.deleted, |store|);
      DeleteAll(gone);
      if !e.stored {
        assert StoreOps(e.c, gone, false) + [] == DeleteOps(gone);
        return false;
      }
      SetPersonal(e.c);
      TakeThen(f, DeleteOps(gone), [Put(e.c)], p);
      if setup.ztp && !e.rest {
        assert StoreOps(e.c, gone, true) + [] == StoreOps(e.c, gone, true);
        return false;
      }
      BootRequestClear(e.erased);
      TakeThen(f, StoreOps(e.c, gone, true), ClearOps(e.erased), p);
      reboots := true;
    }

    /** The end of the provisioning window; true when it reboots. */
    method EndWindow(setup: Setup, m: Mode, erased: bool) returns (reboots: bool)
      requires Valid() && m.Prov? && !m.idle
      modifies this`power, words
      ensures Did(Ops(setup, old(Now()), m, WindowEnds(erased)))
      ensures reboots == After(setup, old(Now()), m, WindowEnds(erased)).Off?
    {
      var have := m.goesBack;
      if !have {
        var c := ResolveCreds(setup);
        have := c.Some?;
      }
      if have { BootRequestClear(erased); }
      reboots := have;
    }

    /** One event of the whole device is one step of the protocol. */
    method Handle(setup: Setup, m: Mode, e: Event) returns (m': Mode)
      requires Valid()
      modifies this`power, this`store, words
      ensures Sys(Now(), m') == Step(setup, Sys(old(Now()), m), Label(e, Some(old(power))))
    {
      hide RequestOps, Resolve;
      ghost var f, p := Now(), power;
      var reboots := false;
      if e.PowerOn? && m.Off? {
        m' := Boot(setup, e.w);
      } else if (e.Pattern? || e.EraseHold?) && m.App? {
        reboots := HandleGesture(setup, m.online, e);
        m' := if reboots then Off else m;
      } else if e.Settings? && m.Prov? {
        reboots := TrySettings(setup, m, e);
        m' := if reboots then Off else m;
      } else if e.OtherBundle? && m.Prov? && setup.ztp {
        BootRequestClear(e.erased);
        m' := Off;
      } else if e.WindowEnds? && m.Prov? && !m.idle {
        reboots := EndWindow(setup, m, e.erased);
        m' := if reboots then Off else m.(idle := true);
      } else if e.Button? && m.Prov? {
        m' := m.(idle := false);
      } else {
        m' := m;
      }
      if power == 0 { m' := Off; }
      assert p <= |Ops(setup, f, m, e)| ==> Take(Ops(setup, f, m, e), p) == Ops(setup, f, m, e)[..p];
    }
  }

  lemma TakeThen(f: Flash, a: seq<Op>, b: seq<Op>, p: nat)
    ensures DoAll(DoAll(f, Take(a, p)), Take(b, p - Min(p, |a|))) == DoAll(f, Take(a + b, p))
  {
    DoAllConcat(f, Take(a, p), Take(b, p - Min(p, |a|)));
    assert Take(a + b, p) == Take(a, p) + Take(b, p - Min(p, |a|));
  }

  /** What comes after a cut does not matter. */
  lemma CutLate(f: Flash, a: seq<Op>, b: seq<Op>, b': seq<Op>, p: nat)
    requires p >= |a| ==> b == b'
    ensures DoAll(DoAll(f, Take(a, p)), Take(b, p - Min(p, |a|))) == DoAll(f, Take(a + b', p))
  {
    TakeThen(f, a, b', p);
  }

  lemma RequestOpsLength(setup: Setup, r: Reason, r': Reason, w: Write)
    ensures |RequestOps(setup, r, w)| == |RequestOps(setup, r', w)|
  {
  }
}
