/** When credentials survive provisioning: deleting comes before storing, its result
    is ignored, and the supply may fail in between. */
module HandoverCredentials {
  import opened Common
  import opened Handover
  import opened HandoverSafety

  // ----- what resolves -----

  /** The first stored name that fits decides. */
  function FirstFit(store: seq<Creds>): Option<Creds> {
    if store == [] then None
    else if 0 < |store[0].ssid| <= 32 then Some(store[0])
    else FirstFit(store[1..])
  }

  lemma {:induction false} StoredIsFirstFit(store: seq<Creds>)
    ensures Stored(store) == var d := FirstFit(store); if d.Some? && |d.value.psk| <= 64 then d else None
  {
    if store != [] { StoredIsFirstFit(store[1..]); }
  }

  /** Storing candidate credentials makes them the ones that count exactly when no
      other name that fits stands in front. */
  lemma {:induction false} FirstFitAfterPut(rest: seq<Creds>, c: Candidate)
    ensures FirstFit(WithCreds(rest, c))
         == var d := FirstFit(rest); if d.None? || d.value.ssid == c.ssid then Some(c) else d
  {
    if rest != [] && rest[0].ssid != c.ssid {
      assert WithCreds(rest, c)[1..] == WithCreds(rest[1..], c);
      FirstFitAfterPut(rest[1..], c);
    }
  }

  // ----- one step of the provisioner -----

  /** How many flash operations the supply lasted for. */
  function Performed(setup: Setup, s: Sys, l: Label): nat {
    var ops := Ops(setup, s.flash, s.mode, l.event);
    if l.power.Some? && l.power.value <= |ops| then l.power.value else |ops|
  }

  lemma StepPerforms(setup: Setup, s: Sys, l: Label)
    ensures Performed(setup, s, l) <= |Ops(setup, s.flash, s.mode, l.event)|
    ensures Step(setup, s, l).flash
         == DoAll(s.flash, Ops(setup, s.flash, s.mode, l.event)[..Performed(setup, s, l)])
  {
    var ops := Ops(setup, s.flash, s.mode, l.event);
    assert ops[..|ops|] == ops;
  }

  /** The entries the deletion takes. */
  function Deleted(e: Event, store: seq<Creds>): nat
    requires e.Settings?
  {
    Min(e.deleted, |store|)
  }

  /** The flash after k operations of a test that went ahead. */
  lemma TestCut(setup: Setup, f: Flash, e: Event, k: nat)
    requires e.Settings?
    requires k <= |StoreOps(e.c, Deleted(e, f.store), e.stored) + Exit(setup, e)|
    ensures var n, g := Deleted(e, f.store),
                        DoAll(f, (StoreOps(e.c, Deleted(e, f.store), e.stored) + Exit(setup, e))[..k]);
      && (k <= n ==> g == Flash(f.record, f.store[k..]))
      && (k > n ==> e.stored && g.store == WithCreds(f.store[n..], e.c))
      && (k > n ==> g.record == if k == n + 2 then ERASED else f.record)
      && k <= n + 2 && (k == n + 2 ==> e.erased && Provisioned(setup, e))
  {
    var n := Deleted(e, f.store);
    var a, b := StoreOps(e.c, n, e.stored), Exit(setup, e);
    StoreOpsCount(e.c, n, e.stored);
    hide StoreOps;
    if k <= |a| {
      assert (a + b)[..k] == a[..k];
      StoreCut(f, n, e.c, e.stored, k);
    } else {
      assert (a + b)[..k] == a + [EraseRecord] && a[..|a|] == a;
      DoAllConcat(f, a, [EraseRecord]);
      StoreCut(f, n, e.c, e.stored, |a|);
      EraseDoes(DoAll(f, a));
    }
  }

  lemma StoreOpsCount(c: Creds, n: nat, stored: bool)
    ensures |StoreOps(c, n, stored)| == if stored then n + 1 else n
  {
  }

  lemma EraseDoes(f: Flash)
    ensures DoAll(f, [EraseRecord]) == Flash(ERASED, f.store)
  {
    DoAllNothing(Flash(ERASED, f.store));
  }

  /** Whether the operations performed leave a usable entry: what is left of the
      store after some deletions, or that and the new credentials. */
  predicate LeavesUsable(store: seq<Creds>, e: Event, performed: nat)
    requires e.Settings?
  {
    var n := Deleted(e, store);
    if performed <= n then
      var d := FirstFit(store[performed..]);
      d.Some? && |d.value.psk| <= 64
    else
      var d := FirstFit(store[n..]);
      d.None? || d.value.ssid == e.c.ssid || |d.value.psk| <= 64
  }

  lemma TestLeaves(setup: Setup, s: Sys, l: Label)
    requires Tests(setup, s.mode, l.event)
    ensures Resolve(setup, Step(setup, s, l).flash.store).Some?
       <==> setup.HasBuiltin() || LeavesUsable(s.flash.store, l.event, Performed(setup, s, l))
  {
    var k, n := Performed(setup, s, l), Deleted(l.event, s.flash.store);
    StepPerforms(setup, s, l);
    TestCut(setup, s.flash, l.event, k);
    hide Step, StoreOps, DoAll;
    StoredIsFirstFit(Step(setup, s, l).flash.store);
    FirstFitAfterPut(s.flash.store[n..], l.event.c);
  }

  lemma NoTestKeepsStore(setup: Setup, s: Sys, l: Label)
    requires !s.mode.App? && !Tests(setup, s.mode, l.event)
    ensures Step(setup, s, l).flash.store == s.flash.store
  {
    StepStore(setup, s, l);
    var f, e, ops := s.flash, l.event, Ops(setup, s.flash, s.mode, l.event);
    var k := Performed(setup, s, l);
    StepPerforms(setup, s, l);
    if e.PowerOn? && ops != [] {
      StoreOfRequest(setup, f, 0, NoCredentials, e.w, k);
    } else {
      RecordOnly(f, ops, k);
    }
  }

  /** A step of the provisioner from credentials that resolve leaves some that do
      exactly when some are built in, or no join test went ahead, or the flash
      operations performed leave a usable entry. */
  lemma KeepsCredentials(setup: Setup, s: Sys, l: Label)
    requires s.mode.Prov? && Resolve(setup, s.flash.store).Some?
    ensures Resolve(setup, Step(setup, s, l).flash.store).Some?
       <==> || setup.HasBuiltin()
            || !Tests(setup, s.mode, l.event)
            || LeavesUsable(s.flash.store, l.event, Performed(setup, s, l))
  {
    if Tests(setup, s.mode, l.event) {
      TestLeaves(setup, s, l);
    } else {
      NoTestKeepsStore(setup, s, l);
    }
  }

  // ----- an operator's window -----

  /** The application does not run: steps of the provisioner, cuts and boots. */
  ghost predicate InWindow(setup: Setup, s: Sys, ls: seq<Label>)
    decreases |ls|
  {
    ls == [] || (InWindow(setup, s, ls[..|ls| - 1]) && !Run(setup, s, ls[..|ls| - 1]).mode.App?)
  }

  /** The last join test of a run that went ahead, if there was one, left a usable
      entry. */
  predicate LastTestLeaves(setup: Setup, s: Sys, ls: seq<Label>)
    decreases |ls|
  {
    ls == []
    || var rest, l := ls[..|ls| - 1], ls[|ls| - 1];
       var t := Run(setup, s, rest);
       if Tests(setup, t.mode, l.event) then LeavesUsable(t.flash.store, l.event, Performed(setup, t, l))
       else LastTestLeaves(setup, s, rest)
  }

  lemma {:induction false} WindowKeepsCredentials(setup: Setup, s: Sys, ls: seq<Label>)
    requires InWindow(setup, s, ls) && Resolve(setup, s.flash.store).Some?
    ensures Resolve(setup, Run(setup, s, ls).flash.store).Some?
       <==> setup.HasBuiltin() || LastTestLeaves(setup, s, ls)
    decreases |ls|
  {
    hide Step, Resolve, LeavesUsable, Tests;
    if ls != [] {
      var rest, l := ls[..|ls| - 1], ls[|ls| - 1];
      var t := Run(setup, s, rest);
      WindowKeepsCredentials(setup, s, rest);
      if Tests(setup, t.mode, l.event) {
        TestLeaves(setup, t, l);
      } else {
        NoTestKeepsStore(setup, t, l);
      }
    }
  }

  /** The window ends, and the device boots. */
  function AfterWindow(setup: Setup, s: Sys): Sys {
    Step(setup, Step(setup, s, Label(WindowEnds(true), None)), Label(PowerOn(GOOD), None))
  }

  /** An operator's window, whatever happens in it, ends in the application with
      credentials exactly when some are built in or its last join test left a usable
      entry; otherwise the application asks for the provisioner again. */
  lemma OperatorWindowEnds(setup: Setup, s: Sys, ls: seq<Label>)
    requires setup.image.Launchable() && Resolve(setup, s.flash.store).Some? && InWindow(setup, s, ls)
    requires Run(setup, s, ls).mode == Prov(true, false)
    ensures var t := Run(setup, s, ls);
      AfterWindow(setup, t)
      == if setup.HasBuiltin() || LastTestLeaves(setup, s, ls) then Sys(Flash(ERASED, t.flash.store), App(true))
         else Sys(Flash(Request(NoCredentials), t.flash.store), Off)
  {
    hide LastTestLeaves, Resolve, Run, DoAll;
    var t := Run(setup, s, ls);
    WindowKeepsCredentials(setup, s, ls);
    EraseDoes(t.flash);
    DoAllNothing(Flash(ERASED, t.flash.store));
    if Resolve(setup, t.flash.store).None? {
      WrittenRequest(setup, Flash(ERASED, t.flash.store), NoCredentials, GOOD);
    }
  }

  /** Two ways to lose them, from one working network and an operator's request: a
      store that fails after the deletion, and a store that would not have failed but
      for a power cut right after it. */
  lemma WindowLosesCredentials(setup: Setup, before: Creds, c: Candidate)
    requires setup.image.Launchable() && setup.builtin.None? && Usable(before)
    ensures var s := Sys(Flash(Request(Operator), [before]), Prov(true, false));
      var fails := [Label(Settings(c, true, 1, false, false, true), None)];
      var cut := [Label(Settings(c, true, 1, true, true, true), Some(1)), Label(PowerOn(GOOD), None)];
      && Resolve(setup, s.flash.store).Some?
      && InWindow(setup, s, fails) && Run(setup, s, fails) == Sys(Flash(Request(Operator), []), Prov(true, false))
      && InWindow(setup, s, cut) && Run(setup, s, cut) == Sys(Flash(Request(Operator), []), Prov(true, false))
      && !LastTestLeaves(setup, s, fails) && !LastTestLeaves(setup, s, cut)
      && AfterWindow(setup, Run(setup, s, fails)) == AfterWindow(setup, Run(setup, s, cut))
      == Sys(Flash(Request(NoCredentials), []), Off)
  {
    var f := Flash(Request(Operator), [before]);
    var s, gone := Sys(f, Prov(true, false)), Flash(Request(Operator), []);
    var l1, l2, on := Label(Settings(c, true, 1, false, false, true), None),
                      Label(Settings(c, true, 1, true, true, true), Some(1)), Label(PowerOn(GOOD), None);
    assert [before][1..] == [];
    StepPerforms(setup, s, l1);
    StepPerforms(setup, s, l2);
    TestCut(setup, f, l1.event, 1);
    StoreOpsCount(c, 1, false);
    StoreOpsCount(c, 1, true);
    TestCut(setup, f, l2.event, 1);
    assert Step(setup, s, l1) == Sys(gone, Prov(true, false));
    assert Step(setup, s, l2) == Sys(gone, Off);
    DoAllNothing(gone);
    assert Step(setup, Sys(gone, Off), on) == Sys(gone, Prov(true, false));
    RunOne(setup, s, l1);
    RunOne(setup, s, l2);
    assert [l2, on][..1] == [l2] && [l1][..0] == [] && [l2][..0] == [];
    OperatorWindowEnds(setup, s, [l1]);
  }

  lemma RunOne(setup: Setup, s: Sys, l: Label)
    ensures Run(setup, s, [l]) == Step(setup, s, l)
  {
    assert [l][..0] == [];
  }

  // ----- the joined credentials -----

  /** Whether stored credentials are the ones that resolve, given what the deletion
      left: no other name that fits stands in front of them. */
  predicate ComesUp(setup: Setup, rest: seq<Creds>, c: Creds) {
    var d := FirstFit(rest);
    d.None? || d.value.ssid == c.ssid || (|d.value.psk| > 64 && setup.builtin == Some(c))
  }

  lemma ComesUpExactly(setup: Setup, rest: seq<Creds>, c: Candidate)
    ensures Resolve(setup, WithCreds(rest, c)) == Some(c) <==> ComesUp(setup, rest, c)
  {
    FirstFitAfterPut(rest, c);
    StoredIsFirstFit(WithCreds(rest, c));
  }

  /** On the way out after a join, wherever the supply fails and whatever the flash
      answers: until the request is erased, the next boot is the provisioner with the
      request intact. Once it is, the application comes up with exactly the joined
      credentials if and only if the deletion left no other name in front of them;
      a complete deletion leaves none. */
  lemma ProvisioningSurvivesCuts(setup: Setup, s: Sys, e: Event, power: Option<nat>)
    requires setup.image.Launchable() && Inv(setup, s)
    requires Tests(setup, s.mode, e) && Provisioned(setup, e)
    ensures var n := Deleted(e, s.flash.store);
      var s1 := Step(setup, s, Label(e, power));
      var s2 := Step(setup, s1, Label(PowerOn(GOOD), None));
      && s1.mode.Off?
      && if e.erased && (power.Some? ==> power.value >= n + 2) then
           && (s2.mode == App(true) && Resolve(setup, s2.flash.store) == Some(e.c)
               <==> ComesUp(setup, s.flash.store[n..], e.c))
           && (e.deleted >= |s.flash.store| ==> ComesUp(setup, s.flash.store[n..], e.c))
         else s2.mode.Prov? && s2.flash.record == s.flash.record
  {
    var l, n := Label(e, power), Deleted(e, s.flash.store);
    var k := Performed(setup, s, l);
    StoreOpsCount(e.c, n, true);
    StepPerforms(setup, s, l);
    TestCut(setup, s.flash, e, k);
    hide StoreOps, DoAll, Resolve, ComesUp;
    ComesUpExactly(setup, s.flash.store[n..], e.c);
    var s1 := Step(setup, s, l);
    DoAllNothing(s1.flash);
    if e.erased && (power.Some? ==> power.value >= n + 2) {
      ErasedBoot(setup, s1);
      AllDeleted(setup, s.flash.store[n..], e.c);
    }
  }

  lemma AllDeleted(setup: Setup, rest: seq<Creds>, c: Creds)
    ensures rest == [] ==> ComesUp(setup, rest, c)
  {
  }

  /** Without a request the application runs when it has credentials. */
  lemma ErasedBoot(setup: Setup, s: Sys)
    requires s.mode.Off? && s.flash.record == ERASED
    ensures var t := Step(setup, s, Label(PowerOn(GOOD), None));
      && (t.mode == App(true) <==> Resolve(setup, s.flash.store).Some?)
      && (t.mode == App(true) ==> t.flash == s.flash)
  {
    DoAllNothing(s.flash);
  }

  /** A deletion that fails leaves the old network in front: the device reports
      success and comes up with the credentials it had. */
  lemma FailedDeleteKeepsOldNetwork(setup: Setup, s: Sys)
    requires setup.image.Launchable() && s.flash == Flash(Request(Operator), [Creds([1], [])])
    requires s.mode == Prov(true, false)
    ensures var s1 := Step(setup, s, Label(Settings(Creds([2], []), true, 0, true, true, true), None));
      var s2 := Step(setup, s1, Label(PowerOn(GOOD), None));
      && s1 == Sys(Flash(ERASED, [Creds([1], []), Creds([2], [])]), Off)
      && s2.mode == App(true) && Resolve(setup, s2.flash.store) == Some(Creds([1], []))
  {
    var first, c := Creds([1], []), Creds([2], []);
    var e := Settings(c, true, 0, true, true, true);
    StepPerforms(setup, s, Label(e, None));
    StoreOpsCount(c, 0, true);
    TestCut(setup, s.flash, e, 2);
    assert [first][0..] == [first] && [first][1..] == [];
    assert WithCreds([first], c) == [first, c];
    ErasedBoot(setup, Step(setup, s, Label(e, None)));
  }
}
