/** What the hand-over guarantees over whole runs: power cuts between any two
    flash operations, failed writes, and every order of events. */
module HandoverSafety {
  import opened Common
  import opened Handover

  ghost predicate Inv(setup: Setup, s: Sys) {
    && (s.mode.Prov? ==> setup.image.Launchable() && Requested(s.flash.record))
    && (s.mode.App? && setup.image.Launchable() ==> !Complete(s.flash.record))
  }

  // ----- what the operations of one event do to the record and the store -----

  /** A record written word by word after an erase: the first k words. */
  function Torn(reason: Reason, k: nat): Record
    requires k <= 4
  {
    Request(reason)[..k] + ERASED[k..]
  }

  lemma AllOnes(v: Word)
    ensures 0xFFFF_FFFF & v == v
  {
  }

  /** Programming an erased word stores it. */
  lemma TornStep(reason: Reason, k: nat, store: seq<Creds>)
    requires k < 4
    ensures Do(Flash(Torn(reason, k), store), Words(reason)[k]) == Flash(Torn(reason, k + 1), store)
  {
    var v := Request(reason)[k];
    assert Words(reason)[k] == ProgramWord(k, v);
    hide Request, Words;
    AllOnes(v);
    assert Torn(reason, k)[k] == ERASED[k] == 0xFFFF_FFFF;
    assert Torn(reason, k)[k := v] == Torn(reason, k + 1);
  }

  lemma {:induction false} WordsWrite(reason: Reason, k: nat, store: seq<Creds>)
    requires k <= 4
    ensures DoAll(Flash(ERASED, store), Words(reason)[..k]) == Flash(Torn(reason, k), store)
  {
    TornNothing(reason);
    hide Do, Words, Torn;
    WordsCount(reason);
    if k == 0 {
      assert Words(reason)[..0] == [];
    } else {
      WordsWrite(reason, k - 1, store);
      assert Words(reason)[..k] == Words(reason)[..k - 1] + [Words(reason)[k - 1]];
      DoAllConcat(Flash(ERASED, store), Words(reason)[..k - 1], [Words(reason)[k - 1]]);
      TornStep(reason, k - 1, store);
    }
  }

  lemma TornNothing(reason: Reason)
    ensures Torn(reason, 0) == ERASED
  {
  }

  lemma WordsCount(reason: Reason)
    ensures |Words(reason)| == 4
  {
  }

  lemma SetOpsWrite(f: Flash, reason: Reason, w: Write, k: nat)
    requires w.erased && 1 <= k <= |SetOps(reason, w)|
    ensures k <= 5 && DoAll(f, SetOps(reason, w)[..k]) == Flash(Torn(reason, k - 1), f.store)
  {
    hide Words, Torn;
    WordsCount(reason);
    WordsWrite(reason, k - 1, f.store);
    assert SetOps(reason, w)[..k] == [EraseRecord] + Words(reason)[..k - 1];
    DoAllConcat(f, [EraseRecord], Words(reason)[..k - 1]);
  }

  lemma TornIsNotComplete(reason: Reason, k: nat)
    requires k < 4
    ensures !Complete(Torn(reason, k))
  {
    assert Torn(reason, k)[3] == 0xFFFF_FFFF;
  }

  lemma TornWhole(reason: Reason)
    ensures Torn(reason, 4) == Request(reason)
  {
  }

  lemma {:induction false} DeleteOpsDo(f: Flash, n: nat)
    requires n <= |f.store|
    ensures DoAll(f, DeleteOps(n)) == Flash(f.record, f.store[n..])
    decreases n
  {
    if n > 0 {
      assert DeleteOps(n)[1..] == DeleteOps(n - 1);
      DeleteOpsDo(Do(f, DeleteFirst), n - 1);
    }
  }

  /** The flash when the supply fails somewhere in a request, after any deletions. */
  lemma RequestCut(setup: Setup, f: Flash, n: nat, reason: Reason, w: Write, k: nat)
    requires n <= |f.store| && k <= |DeleteOps(n) + RequestOps(setup, reason, w)|
    ensures var g := DoAll(f, (DeleteOps(n) + RequestOps(setup, reason, w))[..k]);
      && (exists i | 0 <= i <= n :: g.store == f.store[i..])
      && (g.record == f.record
          || (w.erased && k > n && k - n - 1 <= 4 && g.record == Torn(reason, k - n - 1)))
      && (g.record != f.record ==> setup.image.Present())
      && (k >= n ==> g.store == f.store[n..])
  {
    hide DoAll, Words, Torn, Complete;
    var a, b := DeleteOps(n), RequestOps(setup, reason, w);
    if k <= n {
      assert (a + b)[..k] == DeleteOps(k);
      DeleteOpsDo(f, k);
    } else {
      assert (a + b)[..k] == a + b[..k - n];
      DoAllConcat(f, a, b[..k - n]);
      DeleteOpsDo(f, n);
      SetOpsWrite(Flash(f.record, f.store[n..]), reason, w, k - n);
    }
  }

  /** The flash when the supply fails somewhere between a join and the exit: the
      request is untouched until the very last operation. */
  lemma StoreCut(f: Flash, n: nat, c: Creds, stored: bool, k: nat)
    requires n <= |f.store| && k <= |StoreOps(c, n, stored)|
    ensures var g := DoAll(f, StoreOps(c, n, stored)[..k]);
      && g.record == f.record
      && (k <= n ==> g.store == f.store[k..])
      && (k > n ==> g.store == WithCreds(f.store[n..], c))
  {
    var a := DeleteOps(n);
    if k <= n {
      assert StoreOps(c, n, stored)[..k] == DeleteOps(k);
      DeleteOpsDo(f, k);
    } else {
      assert StoreOps(c, n, stored)[..k] == a + [Put(c)];
      DoAllConcat(f, a, [Put(c)]);
      DeleteOpsDo(f, n);
    }
  }

  lemma WithCredsMembers(store: seq<Creds>, c: Creds)
    ensures c in WithCreds(store, c)
    ensures forall d :: d in WithCreds(store, c) ==> d in store || d == c
  {
  }

  // ----- the invariant -----

  /** A request that could not be written whole is not a complete one. */
  lemma FailedRequest(setup: Setup, f: Flash, reason: Reason, w: Write)
    requires !HandsOver(setup, w)
    ensures var g := DoAll(f, RequestOps(setup, reason, w));
      g.record == f.record || !Complete(g.record)
  {
    var ops := RequestOps(setup, reason, w);
    if ops != [] {
      SetOpsWrite(f, reason, w, |ops|);
      assert ops[..|ops|] == ops;
      TornIsNotComplete(reason, |ops| - 1);
    }
  }

  lemma WrittenRequest(setup: Setup, f: Flash, reason: Reason, w: Write)
    requires HandsOver(setup, w)
    ensures DoAll(f, RequestOps(setup, reason, w)) == Flash(Request(reason), f.store)
  {
    var ops := RequestOps(setup, reason, w);
    SetOpsWrite(f, reason, w, |ops|);
    assert ops[..|ops|] == ops;
    TornWhole(reason);
  }

  lemma StepInv(setup: Setup, s: Sys, l: Label)
    requires Inv(setup, s)
    ensures Inv(setup, Step(setup, s, l))
  {
    hide SetOps, StoreOps, DeleteOps;
    match l.event
    case PowerOn(w) =>
      if s.mode.Off? && !HandsOver(setup, w) { FailedRequest(setup, s.flash, NoCredentials, w); }
    case Pattern(w) =>
      if s.mode.App? && !HandsOver(setup, w) { FailedRequest(setup, s.flash, Operator, w); }
    case Settings(c, _, n, stored, _, _) =>
      if Tests(setup, s.mode, l.event) && !Provisioned(setup, l.event) {
        var ops := StoreOps(c, Min(n, |s.flash.store|), stored);
        StoreCut(s.flash, Min(n, |s.flash.store|), c, stored, |ops|);
        assert ops[..|ops|] == ops == ops + [];
      }
    case EraseHold(_, _) =>
    case OtherBundle(_) =>
    case WindowEnds(_) =>
    case Button =>
  }

  lemma {:induction false} RunInv(setup: Setup, s: Sys, ls: seq<Label>)
    requires s.mode.Off?
    ensures Inv(setup, Run(setup, s, ls))
    decreases |ls|
  {
    if ls != [] {
      RunInv(setup, s, ls[..|ls| - 1]);
      StepInv(setup, Run(setup, s, ls[..|ls| - 1]), ls[|ls| - 1]);
    }
  }

  // ----- who removes a request -----

  /** In every run, the step that makes a complete request incomplete is one the
      provisioner takes. */
  ghost predicate OnlyProvisionerRemoves(setup: Setup) {
    forall s: Sys, ls: seq<Label>, l: Label ::
      s.mode.Off? && Complete(Run(setup, s, ls).flash.record)
      && !Complete(Step(setup, Run(setup, s, ls), l).flash.record) ==>
        Run(setup, s, ls).mode.Prov?
  }

  /** With an image whose header is there but which does not validate, the hook
      boots the application past the request, and the application writes its own
      request over it. That is the only way to lose one. */
  lemma RequestOutlivesApplication(setup: Setup)
    ensures OnlyProvisionerRemoves(setup) <==> (setup.image.Present() ==> setup.image.Launchable())
  {
    if setup.image.Present() && !setup.image.Launchable() {
      RequestOverwritten(setup);
    } else {
      forall s: Sys, ls: seq<Label>, l: Label |
        s.mode.Off? && Complete(Run(setup, s, ls).flash.record)
        && !Complete(Step(setup, Run(setup, s, ls), l).flash.record)
        ensures Run(setup, s, ls).mode.Prov?
      {
        RunInv(setup, s, ls);
        RemovedByProvisioner(setup, Run(setup, s, ls), l);
      }
    }
  }

  lemma RemovedByProvisioner(setup: Setup, s: Sys, l: Label)
    requires setup.image.Present() ==> setup.image.Launchable()
    requires Inv(setup, s)
    requires Complete(s.flash.record) && !Complete(Step(setup, s, l).flash.record)
    ensures s.mode.Prov?
  {
    if !setup.image.Present() && s.mode.App? && l.event.EraseHold? {
      var n := Min(l.event.deleted, |s.flash.store|);
      var ops := Ops(setup, s.flash, s.mode, l.event);
      var reason := EraseReason(setup, s.flash.store[n..]);
      var k := if l.power.Some? && l.power.value <= |ops| then l.power.value else |ops|;
      assert ops[..|ops|] == ops;
      RequestCut(setup, s.flash, n, reason, l.event.w, k);
    }
  }

  lemma RequestOverwritten(setup: Setup)
    requires setup.image.Present() && !setup.image.Launchable()
    ensures !OnlyProvisionerRemoves(setup)
  {
    var s := Sys(Flash(Request(Operator), [Creds([0], [])]), Off);
    var on, l := Label(PowerOn(GOOD), None), Label(Pattern(GOOD), Some(1));
    assert Stored(s.flash.store) == Some(Creds([0], []));
    assert Run(setup, s, [on]) == Sys(s.flash, App(true)) by {
      assert [on][..0] == [];
      assert Run(setup, s, []) == s;
      assert Step(setup, s, on) == Sys(s.flash, App(true));
    }
    var t := Run(setup, s, [on]);
    var ops := Ops(setup, t.flash, t.mode, l.event);
    assert ops == SetOps(Operator, GOOD) && ops[..1] == [EraseRecord];
    assert DoAll(t.flash, [EraseRecord]) == DoAll(Do(t.flash, EraseRecord), []);
    assert Step(setup, t, l).flash.record == ERASED;
    assert Complete(t.flash.record) && !Complete(ERASED);
  }

  // ----- a cut inside the provisioner -----

  /** Wherever the supply fails inside the provisioner, either the request is
      untouched, so the next boot is the provisioner again, or every operation of
      the exit was done. */
  lemma CutInProvisioner(setup: Setup, s: Sys, l: Label)
    requires Inv(setup, s) && s.mode.Prov? && Step(setup, s, l).mode.Off?
    ensures var s' := Step(setup, s, l);
      && (s'.flash.record == s.flash.record
          || s'.flash == DoAll(s.flash, Ops(setup, s.flash, s.mode, l.event)))
      && (s'.flash.record == s.flash.record ==>
            Step(setup, s', Label(PowerOn(GOOD), None)).mode.Prov?)
  {
    var e, ops := l.event, Ops(setup, s.flash, s.mode, l.event);
    if l.power.Some? && l.power.value < |ops| {
      if e.Settings? {
        hide StoreOps;
        var store := StoreOps(e.c, Min(e.deleted, |s.flash.store|), e.stored);
        var k := l.power.value;
        assert k <= |store|;
        assert ops[..k] == store[..k];
        StoreCut(s.flash, Min(e.deleted, |s.flash.store|), e.c, e.stored, k);
      }
    } else if l.power.Some? {
      assert l.power.value <= |ops| ==> ops[..l.power.value] == ops;
    }
  }

  // ----- the credential store -----

  /** Credentials that passed a join in the provisioner during a run. */
  function Joined(setup: Setup, s: Sys, ls: seq<Label>): set<Creds>
    decreases |ls|
  {
    if ls == [] then {}
    else
      var rest, e := ls[..|ls| - 1], ls[|ls| - 1].event;
      Joined(setup, s, rest) + (if Tests(setup, Run(setup, s, rest).mode, e) then {e.c} else {})
  }

  lemma StepStore(setup: Setup, s: Sys, l: Label)
    ensures var t := Step(setup, s, l).flash.store;
      && (forall c :: c in t ==> c in s.flash.store || (Tests(setup, s.mode, l.event) && c == l.event.c))
      && ((exists c :: c in s.flash.store && c !in t) ==>
            Tests(setup, s.mode, l.event) || (s.mode.App? && l.event.EraseHold?))
  {
    var f, e, ops := s.flash, l.event, Ops(setup, s.flash, s.mode, l.event);
    var k := if l.power.Some? && l.power.value <= |ops| then l.power.value else |ops|;
    assert ops[..|ops|] == ops;
    match e
    case PowerOn(w) => if ops != [] { StoreOfRequest(setup, f, 0, NoCredentials, w, k); }
    case Pattern(w) => if ops != [] { StoreOfRequest(setup, f, 0, Operator, w, k); }
    case EraseHold(n, w) =>
      if s.mode.App? {
        var gone := Min(n, |f.store|);
        RequestCut(setup, f, gone, EraseReason(setup, f.store[gone..]), w, k);
      }
    case Settings(c, _, n, stored, _, erased) =>
      if Tests(setup, s.mode, e) { StoreOfSettings(setup, f, e, k); }
    case OtherBundle(erased) => RecordOnly(f, ops, k);
    case WindowEnds(erased) => RecordOnly(f, ops, k);
    case Button =>
  }

  lemma StoreOfRequest(setup: Setup, f: Flash, n: nat, reason: Reason, w: Write, k: nat)
    requires n == 0 && k <= |RequestOps(setup, reason, w)|
    ensures DoAll(f, RequestOps(setup, reason, w)[..k]).store == f.store
  {
    assert DeleteOps(0) + RequestOps(setup, reason, w) == RequestOps(setup, reason, w);
    RequestCut(setup, f, 0, reason, w, k);
  }

  lemma RecordOnly(f: Flash, ops: seq<Op>, k: nat)
    requires ops == [] || ops == [EraseRecord]
    requires k <= |ops|
    ensures DoAll(f, ops[..k]).store == f.store
  {
    assert ops[..k] == [] || ops[..k] == [EraseRecord];
  }

  lemma StoreOfSettings(setup: Setup, f: Flash, e: Event, k: nat)
    requires e.Settings?
    requires k <= |StoreOps(e.c, Min(e.deleted, |f.store|), e.stored) + Exit(setup, e)|
    ensures var t := DoAll(f, (StoreOps(e.c, Min(e.deleted, |f.store|), e.stored) + Exit(setup, e))[..k]).store;
      forall c :: c in t ==> c in f.store || c == e.c
  {
    var n := Min(e.deleted, |f.store|);
    var a, b := StoreOps(e.c, n, e.stored), Exit(setup, e);
    var j := Min(k, |a|);
    assert (a + b)[..k] == a[..j] + b[..k - j];
    DoAllConcat(f, a[..j], b[..k - j]);
    StoreCut(f, n, e.c, e.stored, j);
    RecordOnly(DoAll(f, a[..j]), b, k - j);
    WithCredsMembers(f.store[n..], e.c);
  }

  function Exit(setup: Setup, e: Event): seq<Op>
    requires e.Settings?
  {
    if Provisioned(setup, e) then ClearOps(e.erased) else []
  }

  /** Over a whole run the store only ever gains credentials that passed a join. */
  lemma {:induction false} StoreHoldsJoined(setup: Setup, s: Sys, ls: seq<Label>)
    ensures forall c :: c in Run(setup, s, ls).flash.store ==> c in s.flash.store || c in Joined(setup, s, ls)
    decreases |ls|
  {
    if ls != [] {
      var rest, l := ls[..|ls| - 1], ls[|ls| - 1];
      StoreHoldsJoined(setup, s, rest);
      StepStore(setup, Run(setup, s, rest), l);
    }
  }

  // ----- progress -----

  ghost predicate Settled(setup: Setup, s: Sys) {
    s.mode.Prov? || (s.mode == App(true) && Resolve(setup, s.flash.store).Some?)
  }

  /** Uninterrupted power-ons, with every flash operation succeeding. */
  function Boots(setup: Setup, s: Sys, n: nat): Sys {
    if n == 0 then s else Step(setup, Boots(setup, s, n - 1), Label(PowerOn(GOOD), None))
  }

  /** From any flash contents at all, a torn or foreign record included, two boots
      reach the provisioner or the application with credentials; and that holds
      for all contents only if the provisioner can be launched or credentials are
      built in. */
  lemma TwoBootsSettle(setup: Setup)
    ensures (forall s: Sys :: s.mode.Off? ==> Settled(setup, Boots(setup, s, 2)))
       <==> (setup.image.Launchable() || setup.HasBuiltin())
  {
    if setup.image.Launchable() || setup.HasBuiltin() {
      forall s: Sys | s.mode.Off?
        ensures Settled(setup, Boots(setup, s, 2))
      {
        TwoBoots(setup, s);
      }
    } else {
      var s := Sys(Flash(ERASED, []), Off);
      NeverSettles(setup, s, 2);
    }
  }

  lemma TwoBoots(setup: Setup, s: Sys)
    requires s.mode.Off? && (setup.image.Launchable() || setup.HasBuiltin())
    ensures Settled(setup, Boots(setup, s, 2))
  {
    hide DoAll, RequestOps, Complete;
    var on := Label(PowerOn(GOOD), None);
    var s1 := Boots(setup, s, 1);
    assert s1 == Step(setup, Boots(setup, s, 0), on) == Step(setup, s, on);
    assert DoAll(s.flash, []) == s.flash by { DoAllNothing(s.flash); }
    assert DoAll(s1.flash, []) == s1.flash by { DoAllNothing(s1.flash); }
    if s1.mode.Off? {
      WrittenRequest(setup, s.flash, NoCredentials, GOOD);
    }
  }

  lemma DoAllNothing(f: Flash)
    ensures DoAll(f, []) == f
  {
  }

  /** Without credentials and without a provisioner that validates, no number of
      boots settles; if the partition still starts with an image header, the
      device keeps writing the request and rebooting. */
  lemma {:induction false} NeverSettles(setup: Setup, s: Sys, n: nat)
    requires s.mode.Off? && Resolve(setup, s.flash.store).None? && !setup.image.Launchable()
    ensures !Settled(setup, Boots(setup, s, n))
    ensures Boots(setup, s, n).flash.store == s.flash.store
    ensures setup.image.Present() ==> Boots(setup, s, n).mode.Off?
  {
    if n > 0 {
      NeverSettles(setup, s, n - 1);
      var t := Boots(setup, s, n - 1);
      var ops := RequestOps(setup, NoCredentials, GOOD);
      assert ops[..|ops|] == ops;
      StoreOfRequest(setup, t.flash, 0, NoCredentials, GOOD, |ops|);
    }
  }
}
