/** What the events of the application and of the provisioner lead to, state by state: the
    two button gestures (lib/common/prov_handoff.c), boots, settings and bundles. */
module HandoverGestures {
  import opened Common
  import opened Handover
  import opened HandoverSafety
  import opened HandoverCredentials

  /** An uninterrupted boot, and the end of the provisioner's window. */
  function Boot(setup: Setup, s: Sys): Sys { Step(setup, s, Label(PowerOn(GOOD), None)) }
  function Window(setup: Setup, s: Sys): Sys { Step(setup, s, Label(WindowEnds(true), None)) }

  /** The record in flash: the magic, the provisioner, and 1 for no credentials or 2 for
      the operator. */
  lemma Records()
    ensures Request(NoCredentials) == [0x564f_5250, 1, 1, 0]
    ensures Request(Operator) == [0x564f_5250, 1, 2, 0]
  {
  }

  /** The provisioner runs because it was asked to, and its window ends. */
  lemma ProvisionerRuns(setup: Setup, s: Sys, reason: Reason)
    requires setup.image.Launchable() && s == Sys(Flash(Request(reason), s.flash.store), Off)
    ensures Boot(setup, s) == Sys(s.flash, Prov(reason.Operator?, false))
    ensures Window(setup, Boot(setup, s))
         == if reason.Operator? || Resolve(setup, s.flash.store).Some? then Sys(Flash(ERASED, s.flash.store), Off)
            else Sys(s.flash, Prov(false, true))
  {
    hide Resolve;
    DoAllNothing(s.flash);
    assert DoAll(s.flash, [EraseRecord]) == DoAll(Flash(ERASED, s.flash.store), []);
    DoAllNothing(Flash(ERASED, s.flash.store));
  }

  /** An erase hold that is not interrupted: what is left of the store decides. With
      credentials left the device goes back to the application when the window ends;
      with none it stays in the provisioner. */
  lemma EraseHoldLeads(setup: Setup, s: Sys, n: nat, w: Write)
    requires setup.image.Launchable() && s.mode.App? && w.Good()
    ensures var left := s.flash.store[Min(n, |s.flash.store|)..];
      var keeps := Resolve(setup, left).Some?;
      var erased := Step(setup, s, Label(EraseHold(n, w), None));
      && erased == Sys(Flash([0x564f_5250, 1, if keeps then 2 else 1, 0], left), Off)
      && Boot(setup, erased) == Sys(erased.flash, Prov(keeps, false))
      && (Window(setup, Boot(setup, erased)).mode.Off? <==> keeps)
      && (!keeps ==> Window(setup, Boot(setup, erased)) == Sys(erased.flash, Prov(false, true)))
  {
    hide Resolve, Boot, Window, DoAll, DeleteOps, RequestOps;
    var gone := Min(n, |s.flash.store|);
    var left := s.flash.store[gone..];
    var reason := if Resolve(setup, left).Some? then Operator else NoCredentials;
    Records();
    assert s.flash == Flash(s.flash.record, s.flash.store);
    DeleteOpsDo(s.flash, gone);
    DoAllConcat(s.flash, DeleteOps(gone), RequestOps(setup, reason, w));
    WrittenRequest(setup, Flash(s.flash.record, left), reason, w);
    ProvisionerRuns(setup, Sys(Flash(Request(reason), left), Off), reason);
  }

  /** The provisioning pattern: an operator's window, which goes back to the application
      with the store as it was. Without an image header it does nothing, and if the
      record cannot be written the application goes on. */
  lemma PatternLeads(setup: Setup, s: Sys, w: Write)
    requires s.mode.App?
    ensures var asked, header := Step(setup, s, Label(Pattern(w), None)), setup.image.opens && setup.image.magic == 0x96f3_b83d;
      && (!header ==> asked == s)
      && (header && !(w.erased && w.words >= 4) ==> asked.mode == s.mode && asked.flash.store == s.flash.store)
      && (header && w.erased && w.words >= 4 ==> asked == Sys(Flash([0x564f_5250, 1, 2, 0], s.flash.store), Off))
      && (setup.image.Launchable() && w.erased && w.words >= 4 ==>
            && Boot(setup, asked) == Sys(asked.flash, Prov(true, false))
            && Window(setup, Boot(setup, asked)) == Sys(Flash(ERASED, s.flash.store), Off))
  {
    hide Resolve, Boot, Window, DoAll, SetOps;
    Records();
    if !setup.image.Present() {
      DoAllNothing(s.flash);
    } else if w.Good() {
      WrittenRequest(setup, s.flash, Operator, w);
    } else {
      NoTestStore(setup, s, w);
    }
    if setup.image.Launchable() {
      ProvisionerRuns(setup, Sys(Flash(Request(Operator), s.flash.store), Off), Operator);
    }
  }

  lemma NoTestStore(setup: Setup, s: Sys, w: Write)
    requires s.mode.App?
    ensures Step(setup, s, Label(Pattern(w), None)).flash.store == s.flash.store
  {
    var ops := RequestOps(setup, Operator, w);
    if ops == [] {
      DoAllNothing(s.flash);
    } else {
      assert ops[..|ops|] == ops;
      SetOpsWrite(s.flash, Operator, w, |ops|);
    }
  }

  /** From reset with any flash contents the provisioner runs exactly if the record asks
      for it and its image can be launched; it goes back exactly if an operator asked. */
  lemma BootLaunches(setup: Setup, s: Sys)
    requires s.mode.Off?
    ensures var r, im, t := s.flash.record, setup.image, Boot(setup, s);
      && (t.mode.Prov? <==>
            && r[0] == 0x564f_5250 && r[1] == 1
            && im.opens && im.magic == 0x96f3_b83d && im.headerLoads && im.layoutReads && im.validates)
      && (t.mode.Prov? ==> t == Sys(s.flash, Prov(r[2] == 2, false)))
  {
    hide Resolve, DoAll, RequestOps;
    DoAllNothing(s.flash);
  }

  /** Wi-Fi settings in the provisioner, uninterrupted: nothing without a join, or while
      an Improv window is closed; otherwise the store loses what was deleted and gains the
      new network, and the device leaves once it is stored and nothing else is to come. */
  lemma SettingsLead(setup: Setup, s: Sys, e: Event)
    requires s.mode.Prov? && e.Settings?
    ensures var t, rest := Step(setup, s, Label(e, None)), s.flash.store[Min(e.deleted, |s.flash.store|)..];
      t == if !e.joins || (s.mode.idle && !setup.ztp) then s
           else if !e.stored then Sys(Flash(s.flash.record, rest), s.mode)
           else if setup.ztp && !e.rest then Sys(Flash(s.flash.record, WithCreds(rest, e.c)), s.mode)
           else Sys(Flash(if e.erased then ERASED else s.flash.record, WithCreds(rest, e.c)), Off)
  {
    hide DoAll, StoreOps;
    var n := Min(e.deleted, |s.flash.store|);
    if !e.joins || (s.mode.idle && !setup.ztp) {
      DoAllNothing(s.flash);
    } else {
      var stores, exit := StoreOps(e.c, n, e.stored), if Provisioned(setup, e) then ClearOps(e.erased) else [];
      StoreOpsCount(e.c, n, e.stored);
      StoreCut(s.flash, n, e.c, e.stored, |stores|);
      assert stores[..|stores|] == stores;
      DoAllConcat(s.flash, stores, exit);
      DoAllNothing(DoAll(s.flash, stores));
      if exit != [] { EraseDoes(DoAll(s.flash, stores)); }
    }
  }

  /** A bundle without Wi-Fi leaves with the request erased; Improv knows none. A press
      opens a closed window, and a closed one does not end again. */
  lemma OthersLead(setup: Setup, s: Sys, erased: bool)
    requires s.mode.Prov?
    ensures Step(setup, s, Label(OtherBundle(erased), None))
         == if setup.ztp then Sys(Flash(if erased then ERASED else s.flash.record, s.flash.store), Off) else s
    ensures Step(setup, s, Label(Button, None)) == Sys(s.flash, Prov(s.mode.goesBack, false))
    ensures s.mode.idle ==> Step(setup, s, Label(WindowEnds(erased), None)) == s
  {
    hide DoAll, Resolve;
    DoAllNothing(s.flash);
    EraseDoes(s.flash);
  }
}
