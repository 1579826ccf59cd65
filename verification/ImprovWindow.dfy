/** The provisioning window of improv_run: the main thread's loop, interleaved with
    frames from the Bluetooth thread and button presses. */
module ImprovWindow {
  import opened Common
  import opened Improv

  const AUTH_PERIOD_MS: int := 60000

  datatype Setup = Setup(requireAuth: bool, windowMs: nat, goesBack: bool)
  {
    function IdleState(): St { if requireAuth then AuthRequired else Authorized }
  }

  /** Where the main thread is. Authorizing and Deauthorizing are between its reading
      the state and its writing it; Expiring and Closing come after the timeout of its
      wait, before and after it looks at the authorization period. */
  datatype Phase =
    | Waiting | Testing(c: Msg) | Authorizing
    | Expiring | Deauthorizing(at: int) | Closing(at: int) | Left

  /** authUntil is 0 while no authorization period runs. */
  datatype Window = Window(s: Service, idle: bool, deadline: int, authUntil: int, phase: Phase)

  function Start(cfg: Setup, now: int): Window {
    Window(Service(cfg.IdleState(), NoError, []), false, now + cfg.windowMs, 0, Waiting)
  }

  datatype Event =
    | Frame(ssid: Bytes, psk: Bytes)                  // a sound settings frame
    | Press
    | Take(now: int)                                  // the main thread takes a message
    | Authorize(now: int)                             // and writes what a press asked for
    | Tested(now: int, joined: bool, stored: bool)    // a join test ends
    | Timeout(now: int)                               // its wait times out
    | Expire(now: int)                                // and it looks at the clock
    | Deauthorize                                     // the authorization period is over
    | Close(at: int, resolves: bool)                  // it looks at the window's end

  /** Whether the wait can end without a message. */
  predicate Due(w: Window, now: int) {
    (!w.idle && now >= w.deadline) || (w.authUntil != 0 && now >= w.authUntil)
  }

  predicate Enabled(w: Window, e: Event) {
    match e
    case Frame(ssid, psk) => Fits(ssid, psk)
    case Press => true
    case Take(now) => w.phase.Waiting? && w.s.queue != [] && now >= 0
    case Authorize(now) => w.phase.Authorizing? && now >= 0
    case Tested(now, _, _) => w.phase.Testing?
    case Timeout(now) => w.phase.Waiting? && w.s.queue == [] && Due(w, now)
    case Expire(now) => w.phase.Expiring?
    case Deauthorize => w.phase.Deauthorizing?
    case Close(at, _) => w.phase == Closing(at)
  }

  function Pushed(s: Service, m: Msg): Service {
    if |s.queue| < QUEUE then s.(queue := s.queue + [m]) else s
  }

  function Taken(cfg: Setup, w: Window, m: Msg, now: int): Window {
    match m
    case Settings(_, _) => if w.idle then w else w.(phase := Testing(m))
    case Button =>
      if w.idle then w.(idle := false, deadline := now + cfg.windowMs)
      else if w.s.st.AuthRequired? || (w.s.st.Authorized? && cfg.requireAuth) then w.(phase := Authorizing)
      else w
  }

  function AfterTest(cfg: Setup, w: Window, now: int, joined: bool, stored: bool): Window {
    if !joined then
      var st := if (w.authUntil != 0 && now < w.authUntil) || !cfg.requireAuth then Authorized else AuthRequired;
      w.(s := w.s.(err := UnableToConnect, st := st), phase := Waiting)
    else if !stored then
      w.(s := w.s.(err := Unknown, st := cfg.IdleState()), phase := Waiting)
    else w.(s := w.s.(st := Provisioned), phase := Left)
  }

  /** The end of the authorization period, as far as its guard. */
  function Checked(w: Window, now: int): Window {
    if w.authUntil == 0 || now < w.authUntil then w.(phase := Closing(now))
    else w.(authUntil := 0, phase := if w.s.st.Authorized? then Deauthorizing(now) else Closing(now))
  }

  function Closed(cfg: Setup, w: Window, now: int, resolves: bool): Window {
    if w.idle || now < w.deadline then w.(phase := Waiting)
    else if cfg.goesBack || resolves then w.(phase := Left)
    else w.(idle := true, phase := Waiting)
  }

  function Next(cfg: Setup, w: Window, e: Event): Window {
    match e
    case Frame(ssid, psk) => w.(s := Offer(w.s, Settings(ssid, psk)))
    case Press => w.(s := Pushed(w.s, Button))
    case Take(now) =>
      if w.s.queue == [] then w
      else Taken(cfg, w.(s := w.s.(queue := w.s.queue[1..])), w.s.queue[0], now)
    case Authorize(now) => w.(authUntil := now + AUTH_PERIOD_MS, s := w.s.(st := Authorized), phase := Waiting)
    case Tested(now, joined, stored) => AfterTest(cfg, w, now, joined, stored)
    case Timeout(_) => w.(phase := Expiring)
    case Expire(now) => Checked(w, now)
    case Deauthorize =>
      w.(s := w.s.(st := AuthRequired), phase := Closing(if w.phase.Deauthorizing? then w.phase.at else 0))
    case Close(at, resolves) => Closed(cfg, w, at, resolves)
  }

  // ----- the code -----

  class Provisioner {
    const cfg: Setup
    var st: St
    var err: Err
    var queue: seq<Msg>
    var idle: bool
    var deadline: int
    var authUntil: int
    ghost var phase: Phase

    constructor (cfg: Setup, now: int)
      ensures State() == Start(cfg, now) && this.cfg == cfg && Inv(cfg, State()) && Consistent(State())
    {
      this.cfg := cfg;
      st := if cfg.requireAuth then AuthRequired else Authorized;
      err, queue, idle := NoError, [], false;
      deadline, authUntil, phase := now + cfg.windowMs, 0, Waiting;
    }

    ghost function State(): Window
      reads this
    {
      Window(Service(st, err, queue), idle, deadline, authUntil, phase)
    }

    method OnButton()
      modifies this`queue
      ensures State() == Next(cfg, old(State()), Press)
    {
      if |queue| < QUEUE { queue := queue + [Button]; }
    }

    /** A sound settings frame on the Bluetooth thread. */
    method OnFrame(ssid: Bytes, psk: Bytes)
      requires Fits(ssid, psk)
      modifies this`st, this`err, this`queue
      ensures State() == Next(cfg, old(State()), Frame(ssid, psk))
    {
      if st.AuthRequired? {
        err := NotAuthorized;
        return;
      }
      if !st.Authorized? { return; }
      err := NoError;
      st := Provisioning;
      if |queue| < QUEUE {
        queue := queue + [Settings(ssid, psk)];
      } else {
        st := Authorized;
        err := Unknown;
      }
    }

    /** The loop's branch for a message, up to a join test or a write of the state. */
    method HandleMessage(now: int) returns (test: bool, authorize: bool)
      requires Enabled(State(), Take(now))
      modifies this
      ensures State() == Next(cfg, old(State()), Take(now))
      ensures test == phase.Testing? && authorize == phase.Authorizing?
    {
      var m := queue[0];
      queue := queue[1..];
      test, authorize := false, false;
      if m.Settings? && !idle {
        phase := Testing(m);
        test := true;
      } else if m.Button? {
        if idle {
          idle := false;
          deadline := now + cfg.windowMs;
        } else if st == AuthRequired || (st == Authorized && cfg.requireAuth) {
          phase := Authorizing;
          authorize := true;
        }
      }
    }

    method WriteAuthorized(now: int)
      requires Enabled(State(), Authorize(now))
      modifies this
      ensures State() == Next(cfg, old(State()), Authorize(now))
    {
      phase := Waiting;
      authUntil := now + AUTH_PERIOD_MS;
      st := Authorized;
    }

    /** The end of try_settings; true when the device leaves. */
    method FinishTest(now: int, joined: bool, stored: bool) returns (leaves: bool)
      requires phase.Testing?
      modifies this
      ensures State() == Next(cfg, old(State()), Tested(now, joined, stored)) && leaves == phase.Left?
    {
      phase := Waiting;
      if !joined {
        err := UnableToConnect;
        st := if (authUntil != 0 && now < authUntil) || !cfg.requireAuth then Authorized else AuthRequired;
        return false;
      }
      if !stored {
        err := Unknown;
        st := cfg.IdleState();
        return false;
      }
      st := Provisioned;
      phase := Left;
      return true;
    }

    /** The loop's branch for a timeout, up to a write of the state. */
    method CheckPeriod(now: int) returns (deauthorize: bool)
      requires Enabled(State(), Expire(now))
      modifies this
      ensures State() == Next(cfg, old(State()), Expire(now)) && deauthorize == phase.Deauthorizing?
    {
      phase := Closing(now);
      deauthorize := false;
      if authUntil != 0 && now >= authUntil {
        authUntil := 0;
        if st == Authorized {
          phase := Deauthorizing(now);
          deauthorize := true;
        }
      }
    }

    method WriteAuthRequired()
      requires Enabled(State(), Deauthorize)
      modifies this
      ensures State() == Next(cfg, old(State()), Deauthorize)
    {
      phase := Closing(phase.at);
      st := AuthRequired;
    }

    /** The rest of that branch; true when the device leaves. */
    method CheckWindow(now: int, resolves: bool) returns (leaves: bool)
      requires phase == Closing(now)
      modifies this
      ensures State() == Next(cfg, old(State()), Close(now, resolves)) && leaves == phase.Left?
    {
      phase := Waiting;
      if !idle && now >= deadline {
        if cfg.goesBack || resolves {
          phase := Left;
          return true;
        }
        idle := true;
      }
      leaves := false;
    }

    /** The loop, with whatever the other threads do between its steps. */
    method Serve(es: seq<Event>)
      requires Consistent(State()) && Schedule(cfg, State(), es)
      modifies this
      ensures State() == Run(cfg, old(State()), es)
      ensures Inv(cfg, old(State())) && NoRace(cfg, old(State()), es) ==> Inv(cfg, State())
      ensures !phase.Left? ==>
          (Stuck(State()) <==> Stuck(old(State())) || EverDiscardsLast(cfg, old(State()), es))
    {
      hide Next, Enabled, Inv, Stuck, EverDiscardsLast, NoRace, Consistent;
      ghost var start := State();
      if Inv(cfg, start) && NoRace(cfg, start, es) { RunInv(cfg, start, es); }
      var i := 0;
      while i < |es|
        invariant i <= |es| && Schedule(cfg, State(), es[i..])
        invariant Run(cfg, start, es) == Run(cfg, State(), es[i..])
      {
        ghost var rest := es[i..];
        assert rest[0] == es[i] && rest[1..] == es[i + 1..];
        StepOf(es[i]);
        i := i + 1;
      }
      if !phase.Left? { StuckExactly(cfg, start, es); }
    }

    method StepOf(e: Event)
      requires Enabled(State(), e)
      modifies this
      ensures State() == Next(cfg, old(State()), e)
    {
      var went, guard;
      match e
      case Frame(ssid, psk) => OnFrame(ssid, psk);
      case Press => OnButton();
      case Take(now) => went, guard := HandleMessage(now);
      case Authorize(now) => WriteAuthorized(now);
      case Tested(now, joined, stored) => went := FinishTest(now, joined, stored);
      case Timeout(now) => phase := Expiring; // the wait ends without a message
      case Expire(now) => guard := CheckPeriod(now);
      case Deauthorize => WriteAuthRequired();
      case Close(at, resolves) => went := CheckWindow(at, resolves);
    }
  }

  // ----- every interleaving -----

  function SettingsIn(queue: seq<Msg>): nat {
    if queue == [] then 0 else (if queue[0].Settings? then 1 else 0) + SettingsIn(queue[1..])
  }

  /** Credentials on their way to a join test. */
  function Pending(w: Window): nat { SettingsIn(w.s.queue) + (if w.phase.Testing? then 1 else 0) }

  /** At most one set of credentials is on its way, and only in the provisioning
      state. */
  predicate OneOnTheWay(w: Window) { Pending(w) <= if w.s.st.Provisioning? then 1 else 0 }

  /** The main thread has read the state and is about to write it. */
  predicate Between(w: Window) { w.phase.Authorizing? || w.phase.Deauthorizing? }

  ghost predicate Inv(cfg: Setup, w: Window) {
    && |w.s.queue| <= QUEUE && OneOnTheWay(w)
    && (w.s.st.Provisioned? ==> w.phase.Left?)
    && (cfg.requireAuth && w.s.st.Authorized? ==> w.authUntil != 0 || w.phase.Deauthorizing?)
    && (!cfg.requireAuth ==> w.authUntil == 0 && !w.s.st.AuthRequired? && !Between(w))
    && (w.phase.Authorizing? ==> w.s.st.AuthRequired? || w.s.st.Authorized?)
    && (w.phase.Deauthorizing? ==> w.s.st.Authorized?)
  }

  lemma {:induction false} SettingsInSnoc(q: seq<Msg>, m: Msg)
    ensures SettingsIn(q + [m]) == SettingsIn(q) + if m.Settings? then 1 else 0
  {
    if q == [] {
      assert [m][1..] == [];
    } else {
      assert (q + [m])[1..] == q[1..] + [m];
      SettingsInSnoc(q[1..], m);
    }
  }

  /** A frame is accepted between a guard that read the authorized state and the
      write that follows it. */
  predicate Races(w: Window, e: Event) {
    e.Frame? && Between(w) && w.s.st.Authorized? && |w.s.queue| < QUEUE
  }

  predicate NoRace(cfg: Setup, w: Window, es: seq<Event>)
    decreases |es|
  {
    es == [] || (!Races(w, es[0]) && NoRace(cfg, Next(cfg, w, es[0]), es[1..]))
  }

  /** One set of credentials at most, and an authorization that is required always has
      its period running. */
  lemma StepInv(cfg: Setup, w: Window, e: Event)
    requires Inv(cfg, w) && Enabled(w, e) && !Races(w, e)
    ensures Inv(cfg, Next(cfg, w, e))
  {
    if e.Frame? { SettingsInSnoc(w.s.queue, Settings(e.ssid, e.psk)); }
    if e.Press? { SettingsInSnoc(w.s.queue, Button); }
  }

  function Run(cfg: Setup, w: Window, es: seq<Event>): Window
    decreases |es|
  {
    if es == [] then w else Run(cfg, Next(cfg, w, es[0]), es[1..])
  }

  ghost predicate Schedule(cfg: Setup, w: Window, es: seq<Event>)
    decreases |es|
  {
    es == [] || (Enabled(w, es[0]) && Schedule(cfg, Next(cfg, w, es[0]), es[1..]))
  }

  /** In every run without a race. */
  lemma {:induction false} RunInv(cfg: Setup, w: Window, es: seq<Event>)
    requires Inv(cfg, w) && Schedule(cfg, w, es) && NoRace(cfg, w, es)
    ensures Inv(cfg, Run(cfg, w, es))
    decreases |es|
  {
    hide Inv, Next, Enabled, Races;
    if es != [] {
      StepInv(cfg, w, es[0]);
      RunInv(cfg, Next(cfg, w, es[0]), es[1..]);
    }
  }

  /** Without required authorization no run has one: neither guard ever passes. */
  lemma {:induction false} NoAuthNoRace(cfg: Setup, w: Window, es: seq<Event>)
    requires !cfg.requireAuth && Inv(cfg, w) && Schedule(cfg, w, es)
    ensures NoRace(cfg, w, es)
    decreases |es|
  {
    hide Next, Enabled;
    if es != [] {
      StepInv(cfg, w, es[0]);
      NoAuthNoRace(cfg, Next(cfg, w, es[0]), es[1..]);
    }
  }

  /** After every step of a run at most one set of credentials is on its way. */
  predicate AlwaysOne(cfg: Setup, w: Window, es: seq<Event>)
    decreases |es|
  {
    OneOnTheWay(w) && (es == [] || AlwaysOne(cfg, Next(cfg, w, es[0]), es[1..]))
  }

  /** A run that does not stop between a guard and its write keeps at most one set of
      credentials on its way exactly when it has no race. */
  lemma {:induction false} OneExactly(cfg: Setup, w: Window, es: seq<Event>)
    requires Inv(cfg, w) && Schedule(cfg, w, es) && !Between(Run(cfg, w, es))
    ensures AlwaysOne(cfg, w, es) <==> NoRace(cfg, w, es)
    decreases |es|
  {
    hide Next, Enabled;
    if es != [] {
      var w' := Next(cfg, w, es[0]);
      if Races(w, es[0]) {
        RaceAccepts(cfg, w, es[0]);
        RaceShows(cfg, w', es[1..]);
      } else {
        StepInv(cfg, w, es[0]);
        OneExactly(cfg, w', es[1..]);
      }
    }
  }

  lemma RaceAccepts(cfg: Setup, w: Window, e: Event)
    requires Races(w, e)
    ensures var w' := Next(cfg, w, e); Between(w') && w'.s.st.Provisioning? && Pending(w') >= 1
  {
    SettingsInSnoc(w.s.queue, Settings(e.ssid, e.psk));
  }

  /** The write takes the state away under credentials that were accepted. */
  lemma {:induction false} RaceShows(cfg: Setup, w: Window, es: seq<Event>)
    requires Between(w) && w.s.st.Provisioning? && Pending(w) >= 1
    requires Schedule(cfg, w, es) && !Between(Run(cfg, w, es))
    ensures !AlwaysOne(cfg, w, es)
    decreases |es|
  {
    if es != [] {
      var w' := Next(cfg, w, es[0]);
      if es[0].Press? { SettingsInSnoc(w.s.queue, Button); }
      if es[0].Frame? || es[0].Press? {
        RaceShows(cfg, w', es[1..]);
      } else {
        assert !OneOnTheWay(w');
      }
    }
  }

  // ----- a window that no longer takes credentials -----

  /** In the provisioning state with nothing to test: every frame is ignored as
      a repetition, and the button no longer authorizes. */
  predicate Stuck(w: Window) { w.s.st.Provisioning? && Pending(w) == 0 && !w.phase.Left? }

  /** Credentials are taken from the queue while the window is closed. */
  predicate Discards(w: Window, e: Event) {
    e.Take? && w.s.queue != [] && w.s.queue[0].Settings? && w.idle
  }

  /** And they were the only ones on their way, in the provisioning state. */
  predicate DiscardsLast(w: Window, e: Event) {
    Discards(w, e) && w.s.st.Provisioning? && SettingsIn(w.s.queue[1..]) == 0
  }

  predicate EverDiscards(cfg: Setup, w: Window, es: seq<Event>)
    decreases |es|
  {
    es != [] && (Discards(w, es[0]) || EverDiscards(cfg, Next(cfg, w, es[0]), es[1..]))
  }

  predicate EverDiscardsLast(cfg: Setup, w: Window, es: seq<Event>)
    decreases |es|
  {
    es != [] && (DiscardsLast(w, es[0]) || EverDiscardsLast(cfg, Next(cfg, w, es[0]), es[1..]))
  }

  /** What holds of every run, with races: a state that turned to provisioning between
      a guard and its write has credentials on their way. */
  predicate Consistent(w: Window) {
    |w.s.queue| <= QUEUE && (Between(w) && w.s.st.Provisioning? ==> Pending(w) >= 1)
  }

  lemma StepStuck(cfg: Setup, w: Window, e: Event)
    requires Consistent(w) && Enabled(w, e)
    ensures var w' := Next(cfg, w, e);
      && Consistent(w')
      && (!w'.phase.Left? ==> !w.phase.Left? && (Stuck(w') <==> Stuck(w) || DiscardsLast(w, e)))
  {
    if e.Frame? { SettingsInSnoc(w.s.queue, Settings(e.ssid, e.psk)); }
    if e.Press? { SettingsInSnoc(w.s.queue, Button); }
  }

  /** A run that has not left is stuck exactly when it once discarded the last
      credentials on their way in the provisioning state; nothing but leaving ever ends
      that. Every run, with races and without. */
  lemma {:induction false} StuckExactly(cfg: Setup, w: Window, es: seq<Event>)
    requires Consistent(w) && Schedule(cfg, w, es) && !Run(cfg, w, es).phase.Left?
    ensures Stuck(Run(cfg, w, es)) <==> Stuck(w) || EverDiscardsLast(cfg, w, es)
    decreases |es|
  {
    hide Next, Enabled, Stuck, DiscardsLast, Consistent;
    if es != [] {
      var w' := Next(cfg, w, es[0]);
      StepStuck(cfg, w, es[0]);
      NotLeft(cfg, w', es[1..]);
      StuckExactly(cfg, w', es[1..]);
    }
  }

  lemma {:induction false} NotLeft(cfg: Setup, w: Window, es: seq<Event>)
    requires Consistent(w) && Schedule(cfg, w, es) && !Run(cfg, w, es).phase.Left?
    ensures !w.phase.Left?
    decreases |es|
  {
    hide Next, Enabled, Stuck, DiscardsLast, Consistent;
    if es != [] {
      StepStuck(cfg, w, es[0]);
      NotLeft(cfg, Next(cfg, w, es[0]), es[1..]);
    }
  }

  /** Without a race there are no others on their way: any discard will do. */
  lemma {:induction false} DiscardIsLast(cfg: Setup, w: Window, es: seq<Event>)
    requires Inv(cfg, w) && Schedule(cfg, w, es) && NoRace(cfg, w, es)
    ensures EverDiscardsLast(cfg, w, es) <==> EverDiscards(cfg, w, es)
    decreases |es|
  {
    hide Next, Enabled;
    if es != [] {
      StepInv(cfg, w, es[0]);
      DiscardIsLast(cfg, Next(cfg, w, es[0]), es[1..]);
    }
  }

  // ----- what the branches promise -----

  /** The device leaves exactly when new credentials are stored, or when the window ends
      and there is something to go back to. */
  lemma LeavesExactly(cfg: Setup, w: Window, e: Event)
    requires Enabled(w, e) && !w.phase.Left?
    ensures Next(cfg, w, e).phase.Left?
       <==> || (e.Tested? && e.joined && e.stored)
            || (e.Close? && !w.idle && e.at >= w.deadline && (cfg.goesBack || e.resolves))
    ensures !Next(cfg, w, e).phase.Left? ==>
        (Next(cfg, w, e).idle <==>
           if e.Close? then w.idle || e.at >= w.deadline
           else w.idle && !(e.Take? && w.s.queue[0].Button?))
  {
  }

  /** After a join test that fails, or whose credentials cannot be stored, the client is
      told, and new credentials count exactly while the device is authorized. */
  lemma FailedTest(cfg: Setup, w: Window, now: int, joined: bool, stored: bool, a: Msg)
    requires w.phase.Testing? && !(joined && stored) && |w.s.queue| < 2 && a.Settings?
    ensures var t := Next(cfg, w, Tested(now, joined, stored));
      var u := Next(cfg, t, Frame(a.ssid, a.psk));
      var counts := !cfg.requireAuth || (!joined && w.authUntil != 0 && now < w.authUntil);
      && t.phase.Waiting? && t.s.err == (if joined then Unknown else UnableToConnect)
      && u.s == if counts then Service(Provisioning, NoError, w.s.queue + [a])
                else Service(AuthRequired, NotAuthorized, w.s.queue)
  {
  }

  /** A press authorizes for one minute, and the end of it takes that away. */
  lemma AuthorizedForAMinute(cfg: Setup, w: Window, now: int, t: int)
    requires cfg.requireAuth && now >= 0 && w.phase.Waiting? && !w.idle && w.s.queue == [Button]
    requires w.s.st.AuthRequired? || w.s.st.Authorized?
    ensures var a := Next(cfg, Next(cfg, w, Take(now)), Authorize(now));
      var c := Next(cfg, Next(cfg, a, Timeout(t)), Expire(t));
      && Enabled(w, Take(now)) && Enabled(Next(cfg, w, Take(now)), Authorize(now))
      && a.s == Service(Authorized, w.s.err, []) && a.phase.Waiting? && a.authUntil == now + 60000
      && (Enabled(a, Timeout(t)) <==> t >= w.deadline || t >= now + 60000)
      && (t < now + 60000 ==> c.phase == Closing(t) && c.s == a.s)
      && (t >= now + 60000 ==>
            && c.phase == Deauthorizing(t) && c.authUntil == 0
            && Next(cfg, c, Deauthorize) == c.(s := Service(AuthRequired, w.s.err, []), phase := Closing(t)))
  {
    assert [Button][1..] == [];
  }

  /** The credentials that are tested are the ones that were sent. */
  lemma TestedIsSent(cfg: Setup, w: Window, ssid: Bytes, psk: Bytes, now: int)
    requires w.phase.Waiting? && !w.idle && w.s.st.Authorized? && w.s.queue == [] && now >= 0 && Fits(ssid, psk)
    ensures var sent := Next(cfg, w, Frame(ssid, psk));
      Enabled(sent, Take(now)) && Next(cfg, sent, Take(now)).phase == Testing(Settings(ssid, psk))
  {
  }

  /** A press opens a closed window for its whole length again. */
  lemma PressReopens(cfg: Setup, w: Window, now: int)
    requires now >= 0 && w.phase.Waiting? && w.idle && w.s.queue != [] && w.s.queue[0].Button?
    ensures Next(cfg, w, Take(now))
         == w.(s := w.s.(queue := w.s.queue[1..]), idle := false, deadline := now + cfg.windowMs)
  {
  }

  // ----- runs from the start -----

  /** The states of a run, one by one. */
  ghost predicate Trace(cfg: Setup, ws: seq<Window>, es: seq<Event>) {
    && |ws| == |es| + 1
    && forall i :: 0 <= i < |es| ==> Enabled(ws[i], es[i]) && ws[i + 1] == Next(cfg, ws[i], es[i])
  }

  lemma {:induction false} TraceRuns(cfg: Setup, ws: seq<Window>, es: seq<Event>)
    requires Trace(cfg, ws, es)
    ensures Schedule(cfg, ws[0], es) && Run(cfg, ws[0], es) == ws[|es|]
    decreases |es|
  {
    hide Next, Enabled;
    if es != [] {
      var rest := ws[1..];
      assert Trace(cfg, rest, es[1..]);
      TraceRuns(cfg, rest, es[1..]);
    }
  }

  /** A frame that arrives between the timeout of the wait and the closing of the window
      is accepted, and then thrown away; a press reopens a window that is stuck. */
  lemma FrameAtExpiry(cfg: Setup, ssid: Bytes, psk: Bytes, now: int)
    requires !cfg.requireAuth && !cfg.goesBack && Fits(ssid, psk) && now >= 0
    ensures var t := now + cfg.windowMs;
      var es := [Timeout(t), Frame(ssid, psk), Expire(t), Close(t, false), Take(t), Press, Take(t)];
      var w := Run(cfg, Start(cfg, now), es);
      Schedule(cfg, Start(cfg, now), es) && Stuck(w) && !w.idle
  {
    var t, m := now + cfg.windowMs, Settings(ssid, psk);
    var es := [Timeout(t), Frame(ssid, psk), Expire(t), Close(t, false), Take(t), Press, Take(t)];
    var w0 := Start(cfg, now);
    var w1 := w0.(phase := Expiring);
    var w2 := w1.(s := Service(Provisioning, NoError, [m]));
    var w3 := w2.(phase := Closing(t));
    var w4 := w3.(idle := true, phase := Waiting);
    var w5 := w4.(s := Service(Provisioning, NoError, []));
    var w6 := w5.(s := Service(Provisioning, NoError, [Button]));
    var w7 := w5.(idle := false, deadline := t + cfg.windowMs);
    var ws := [w0, w1, w2, w3, w4, w5, w6, w7];
    AppendOne(m);
    AppendOne(Button);
    hide Run, Schedule, Stuck, Pending, SettingsIn;
    assert Trace(cfg, ws, es);
    hide Trace, Next, Enabled;
    TraceRuns(cfg, ws, es);
    assert Stuck(w7) && !w7.idle by { StuckIs(w7); }
  }

  lemma StuckIs(w: Window)
    requires w.s.st.Provisioning? && w.s.queue == [] && w.phase.Waiting?
    ensures Stuck(w)
  {
  }

  lemma AppendOne(m: Msg)
    ensures [] + [m] == [m] && [m][1..] == []
  {
  }

  /** With required authorization: a press in the authorized state lets two sets of
      credentials on their way. */
  lemma TwoOnTheWay(cfg: Setup, a: Msg, b: Msg, now: int)
    requires cfg.requireAuth && now >= 0
    requires a.Settings? && b.Settings? && Fits(a.ssid, a.psk) && Fits(b.ssid, b.psk)
    ensures var es := [Press, Take(now), Authorize(now), Press, Take(now),
                       Frame(a.ssid, a.psk), Authorize(now), Frame(b.ssid, b.psk)];
      var w := Run(cfg, Start(cfg, now), es);
      Schedule(cfg, Start(cfg, now), es) && w.s.queue == [a, b] && Pending(w) == 2
  {
    var es := [Press, Take(now), Authorize(now), Press, Take(now),
               Frame(a.ssid, a.psk), Authorize(now), Frame(b.ssid, b.psk)];
    var w0 := Start(cfg, now);
    var w1 := w0.(s := Service(AuthRequired, NoError, [Button]));
    var w2 := w0.(phase := Authorizing);
    var w3 := w0.(s := Service(Authorized, NoError, []), authUntil := now + AUTH_PERIOD_MS);
    var w4 := w3.(s := Service(Authorized, NoError, [Button]));
    var w5 := w3.(phase := Authorizing);
    var w6 := w5.(s := Service(Provisioning, NoError, [a]));
    var w7 := w3.(s := Service(Authorized, NoError, [a]));
    var w8 := w3.(s := Service(Provisioning, NoError, [a, b]));
    var ws := [w0, w1, w2, w3, w4, w5, w6, w7, w8];
    AppendOne(Button);
    AppendOne(a);
    assert [a] + [b] == [a, b] && [a, b][1..] == [b] && [b][1..] == [];
    hide Run, Schedule, Pending, SettingsIn;
    assert Trace(cfg, ws, es);
    hide Trace, Next, Enabled;
    TraceRuns(cfg, ws, es);
    TwoPending(w8, a, b);
  }

  lemma TwoPending(w: Window, a: Msg, b: Msg)
    requires w.s.queue == [a, b] && a.Settings? && b.Settings? && w.phase.Waiting?
    ensures Pending(w) == 2
  {
    assert [a, b][1..] == [b] && SettingsIn([b]) == 1;
  }

  /** And a frame at the end of the period and of the window is thrown away without the
      device being stuck. */
  lemma DiscardedNotStuck(cfg: Setup, a: Msg, now: int)
    requires cfg.requireAuth && !cfg.goesBack && now >= 0 && a.Settings? && Fits(a.ssid, a.psk)
    ensures var t := now + AUTH_PERIOD_MS + cfg.windowMs;
      var es := [Press, Take(now), Authorize(now), Timeout(t), Expire(t),
                 Frame(a.ssid, a.psk), Deauthorize, Close(t, false), Take(t)];
      var w := Run(cfg, Start(cfg, now), es);
      && Schedule(cfg, Start(cfg, now), es) && EverDiscards(cfg, Start(cfg, now), es)
      && w.s == Service(AuthRequired, NoError, []) && !Stuck(w)
  {
    var t := now + AUTH_PERIOD_MS + cfg.windowMs;
    var es := [Press, Take(now), Authorize(now), Timeout(t), Expire(t),
               Frame(a.ssid, a.psk), Deauthorize, Close(t, false), Take(t)];
    var w0 := Start(cfg, now);
    var w1 := w0.(s := Service(AuthRequired, NoError, [Button]));
    var w2 := w0.(phase := Authorizing);
    var w3 := w0.(s := Service(Authorized, NoError, []), authUntil := now + AUTH_PERIOD_MS);
    var w4 := w3.(phase := Expiring);
    var w5 := w3.(authUntil := 0, phase := Deauthorizing(t));
    var w6 := w5.(s := Service(Provisioning, NoError, [a]));
    var w7 := w6.(s := Service(AuthRequired, NoError, [a]), phase := Closing(t));
    var w8 := w7.(idle := true, phase := Waiting);
    var w9 := w8.(s := Service(AuthRequired, NoError, []));
    var ws := [w0, w1, w2, w3, w4, w5, w6, w7, w8, w9];
    AppendOne(Button);
    AppendOne(a);
    hide Run, Schedule, EverDiscards, Pending, SettingsIn;
    assert Trace(cfg, ws, es);
    hide Trace, Next, Enabled;
    TraceRuns(cfg, ws, es);
    DiscardShows(cfg, ws, es, 8);
  }

  lemma {:induction false} DiscardShows(cfg: Setup, ws: seq<Window>, es: seq<Event>, i: nat)
    requires Trace(cfg, ws, es) && i < |es| && Discards(ws[i], es[i])
    ensures EverDiscards(cfg, ws[0], es)
    decreases i
  {
    hide Next, Enabled, Discards;
    if i > 0 {
      assert Trace(cfg, ws[1..], es[1..]);
      DiscardShows(cfg, ws[1..], es[1..], i - 1);
    }
  }
}
