/** The button's work item (lib/common/button.c): one delayable item debounces the
    edges of the line and ticks the classifier, so an edge puts the next tick off. */
module ButtonWork {
  import opened Common
  import opened Gesture

  const DEBOUNCE_MS: nat := 30
  const TICK_MS: nat := 50
  const QUIET_MS: nat := 700

  /** The classifier's presses, the level it was last told, the line itself, and when
      the work item is due. */
  datatype Dev = Dev(track: Track, level: bool, line: bool, due: Option<int>, now: int)

  datatype Step =
    | Line(x: int)   // an edge of the line, in the interrupt
    | Work(t: int)   // a run of the work item

  predicate Active(s: Track) { s.down.Some? || s.holds != [] }

  /** The change of the line since the last run, if there is one. */
  function Change(d: Dev, t: int): seq<Event> {
    if d.line == d.level then [] else if d.line then [Press(t)] else [Release(t)]
  }

  /** What a run tells the classifier: the change, and the time unless the change was a
      gesture. */
  ghost function Fed(cfg: Config, d: Dev, t: int): seq<Event> {
    var c := Change(d, t);
    if c != [] && Answer(cfg, d.track, c[0]) != Nothing then c else c + [Tick(t)]
  }

  ghost function Next(cfg: Config, d: Dev, w: Step): Dev {
    match w
    case Line(x) => d.(line := !d.line, due := Some(x + DEBOUNCE_MS), now := x)
    case Work(t) =>
      var s := Final(cfg, d.track, Fed(cfg, d, t));
      Dev(s, d.line, d.line, if Active(s) then Some(t + TICK_MS) else None, t)
  }

  /** A run comes when it is due, or at most late ms after. */
  predicate Enabled(late: nat, d: Dev, w: Step) {
    match w
    case Line(x) => x >= d.now && (d.due.Some? ==> x <= d.due.value + late)
    case Work(t) => t >= d.now && d.due.Some? && d.due.value <= t <= d.due.value + late
  }

  /** The line does not change again before its last change was recorded. */
  predicate Clean(d: Dev, w: Step) { w.Line? ==> d.line == d.level }

  // ----- the code -----

  /** The first thing that is not nothing. */
  function FirstOut(outs: seq<Out>): Out {
    if outs == [] then Nothing else if outs[0] != Nothing then outs[0] else FirstOut(outs[1..])
  }

  lemma FedDoes(cfg: Config, d: Dev, t: int)
    ensures var c, fed := Change(d, t), Fed(cfg, d, t);
      var s, first := if c == [] then d.track else After(cfg, d.track, c[0]),
                      if c == [] then Nothing else Answer(cfg, d.track, c[0]);
      && Final(cfg, d.track, fed) == (if first != Nothing then s else After(cfg, s, Tick(t)))
      && FirstOut(Run(cfg, d.track, fed)) == if first != Nothing then first else Answer(cfg, s, Tick(t))
  {
    hide After, Answer;
    var c, tick := Change(d, t), [Tick(t)];
    if c == [] {
      assert c + tick == tick;
      OneEvent(cfg, d.track, Tick(t), []);
    } else {
      assert c == [c[0]] + [] && c + tick == [c[0]] + tick;
      OneEvent(cfg, d.track, c[0], []);
      OneEvent(cfg, d.track, c[0], tick);
      OneEvent(cfg, After(cfg, d.track, c[0]), Tick(t), []);
    }
    assert tick + [] == tick;
  }

  lemma OneEvent(cfg: Config, s: Track, e: Event, rest: seq<Event>)
    ensures Final(cfg, s, [e] + rest) == Final(cfg, After(cfg, s, e), rest)
    ensures FirstOut(Run(cfg, s, [e] + rest))
         == if Answer(cfg, s, e) != Nothing then Answer(cfg, s, e) else FirstOut(Run(cfg, After(cfg, s, e), rest))
  {
    hide After, Answer;
    var es := [e] + rest;
    assert es[0] == e && es[1..] == rest;
    assert Run(cfg, s, es) == [Answer(cfg, s, e)] + Run(cfg, After(cfg, s, e), rest);
    assert Run(cfg, s, es)[1..] == Run(cfg, After(cfg, s, e), rest);
  }

  class Button {
    const gst: Classifier
    var level: bool
    var due: Option<int>
    ghost var line: bool
    ghost var now: int

    ghost predicate Valid() reads this, gst { gst.Valid() && gst.now <= now }

    ghost function State(): Dev reads this, gst { Dev(gst.track, level, line, due, now) }

    /** app_button_start, with the button in any position. */
    constructor (cfg: Config, pin: bool, ghost now: nat)
      ensures Valid() && State() == Dev(IDLE, pin, pin, None, now) && gst.cfg == cfg && fresh(gst)
    {
      gst := new Classifier(cfg);
      level, due, line, this.now := pin, None, pin, now;
    }

    /** btn_isr: whatever was due is put off. */
    method OnEdge(x: int)
      requires Valid() && x >= now
      modifies this`due, this`line, this`now
      ensures Valid() && State() == Next(gst.cfg, old(State()), Line(x))
    {
      due := Some(x + DEBOUNCE_MS);
      line, now := !line, x;
    }

    /** btn_work_fn: at most one gesture comes of a run. */
    method WorkFn(pin: bool, t: int) returns (g: Out)
      requires Valid() && pin == line && t >= now
      modifies this, gst
      ensures Valid() && State() == Next(gst.cfg, old(State()), Work(t))
      ensures g == FirstOut(Run(gst.cfg, old(gst.track), Fed(gst.cfg, old(State()), t)))
    {
      hide After, Answer, Pattern, Fed, Final, Run, FirstOut;
      FedDoes(gst.cfg, State(), t);
      g := Nothing;
      if pin != level {
        level := pin;
        if level { g := gst.OnPress(t); } else { g := gst.OnRelease(t); }
      }
      if g == Nothing { g := gst.OnTick(t); }
      now := t;
      var busy := gst.Busy();
      due := if busy then Some(t + TICK_MS) else None;
    }
  }

  // ----- runs of the device -----

  ghost predicate Schedule(cfg: Config, late: nat, d: Dev, ws: seq<Step>)
    decreases |ws|
  {
    ws == [] || (Enabled(late, d, ws[0]) && Schedule(cfg, late, Next(cfg, d, ws[0]), ws[1..]))
  }

  ghost predicate AllClean(cfg: Config, d: Dev, ws: seq<Step>)
    decreases |ws|
  {
    ws == [] || (Clean(d, ws[0]) && AllClean(cfg, Next(cfg, d, ws[0]), ws[1..]))
  }

  ghost function Machine(cfg: Config, d: Dev, ws: seq<Step>): Dev
    decreases |ws|
  {
    if ws == [] then d else Machine(cfg, Next(cfg, d, ws[0]), ws[1..])
  }

  /** What the classifier is told in a run. */
  ghost function Feed(cfg: Config, d: Dev, ws: seq<Step>): seq<Event>
    decreases |ws|
  {
    if ws == [] then []
    else (if ws[0].Work? then Fed(cfg, d, ws[0].t) else []) + Feed(cfg, Next(cfg, d, ws[0]), ws[1..])
  }

  ghost predicate Rest(d: Dev) { d.track == IDLE && d.level == d.line && d.due.None? }

  lemma {:induction false} EdgesConcat(a: seq<Event>, b: seq<Event>)
    ensures Edges(a + b) == Edges(a) + Edges(b)
  {
    if a == [] {
      assert a + b == b;
    } else {
      assert (a + b)[0] == a[0] && (a + b)[1..] == a[1..] + b;
      EdgesConcat(a[1..], b);
    }
  }

  lemma FedEdges(cfg: Config, d: Dev, t: int)
    ensures Edges(Fed(cfg, d, t)) == Change(d, t)
  {
    hide Answer;
    var c, tick := Change(d, t), [Tick(t)];
    EdgesConcat(c, tick);
    assert tick[1..] == [] && Edges(tick) == [];
    assert c != [] ==> c[1..] == [];
    assert Edges(c) == c;
  }

  // ----- a press is never recorded in the 30 ms after a tick -----

  /** The line was seen up at time b. */
  predicate UpAt(d: Dev, b: int) {
    !d.level && d.now >= b && (d.line ==> d.due.Some? && d.due.value >= b + DEBOUNCE_MS)
  }

  /** Whatever the line does, bouncing included. */
  lemma {:induction false} PressesLater(cfg: Config, late: nat, d: Dev, ws: seq<Step>, b: int)
    requires Schedule(cfg, late, d, ws) && UpAt(d, b)
    ensures PressFrom(Feed(cfg, d, ws), b + DEBOUNCE_MS)
    decreases |ws|
  {
    hide Final, Answer;
    if ws != [] {
      var next, more := Next(cfg, d, ws[0]), Feed(cfg, Next(cfg, d, ws[0]), ws[1..]);
      if ws[0].Work? && d.line {
        assert Fed(cfg, d, ws[0].t)[0] == Press(ws[0].t);
      } else {
        PressesLater(cfg, late, next, ws[1..], b);
        if ws[0].Work? {
          assert Fed(cfg, d, ws[0].t) == [Tick(ws[0].t)];
          assert ([Tick(ws[0].t)] + more)[1..] == more;
        } else {
          assert [] + more == more;
        }
      }
    }
  }

  // ----- the range of pauses that the ticks decide -----

  /** v ms can pass in k ticks. */
  predicate InTicks(late: nat, k: nat, v: int) { TICK_MS * k <= v <= k * (TICK_MS + late) }

  ghost predicate Reached(late: nat, v: int) { exists k: nat :: InTicks(late, k, v) }

  /** The last tick before the quiet time is over, at the latest. */
  function LastBefore(late: nat): nat { Min(699, 650 + 13 * late) }

  /** The longest pause without a tick after the quiet time. */
  function Longest(late: nat): nat { LastBefore(late) + 80 + 2 * late }

  predicate DeviceAmbiguous(late: nat, pause: int) { 730 <= pause <= Longest(late) }

  lemma ReachedMore(late: nat, v: int, gap: int)
    requires Reached(late, v) && TICK_MS <= gap <= TICK_MS + late
    ensures Reached(late, v + gap)
  {
    var k: nat :| InTicks(late, k, v);
    assert (k + 1) * (TICK_MS + late) == k * (TICK_MS + late) + TICK_MS + late;
    assert InTicks(late, k + 1, v + gap);
  }

  lemma ReachedBefore(late: nat, v: int)
    requires Reached(late, v) && v < QUIET_MS
    ensures v <= LastBefore(late)
  {
    var k: nat :| InTicks(late, k, v);
    AtMost13(k, TICK_MS + late);
  }

  lemma AtMost13(k: nat, m: nat)
    ensures k <= 13 ==> k * m <= 13 * m
  {
    assert 13 * m - k * m == (13 - k) * m;
  }

  lemma NothingReached(late: nat)
    ensures Reached(late, 0)
  {
    assert InTicks(late, 0, 0);
  }

  /** Between the changes of a clean line: when the item is due, and how far the ticks
      of an open sequence have come. */
  ghost predicate Inv(late: nat, d: Dev) {
    && (Active(d.track) ==> d.due.Some?)
    && (d.line != d.level ==> d.due == Some(d.now + DEBOUNCE_MS))
    && (d.line == d.level && d.due.Some? ==> d.due == Some(d.now + TICK_MS))
    && (d.track.down.Some? ==> d.level)
    && (Open(d.track) ==>
          && !d.level
          && var since := d.now - LastUp(d.track);
             if d.line == d.level then Reached(late, since) && since < QUIET_MS
             else since <= LastBefore(late) + TICK_MS + late)
  }

  lemma StepInv(cfg: Config, late: nat, d: Dev, w: Step)
    requires cfg.quietMs == QUIET_MS && Inv(late, d) && Enabled(late, d, w) && Clean(d, w)
    ensures Inv(late, Next(cfg, d, w))
  {
    hide Reached, LastBefore;
    if Open(d.track) && d.line == d.level {
      ReachedBefore(late, d.now - LastUp(d.track));
      if w.Work? { ReachedMore(late, d.now - LastUp(d.track), w.t - d.now); }
    }
    if w.Work? {
      hide Fed, Final;
      FedDoes(cfg, d, w.t);
      NothingReached(late);
    }
  }

  // ----- the device as a batch classifier -----

  lemma DecidedCons(cfg: Config, limit: int, s: Track, e: Event, rest: seq<Event>)
    ensures Decided(cfg, limit, s, [e] + rest)
       <==> && (Open(s) && e.Press? ==> e.t - LastUp(s) < limit)
            && (Open(s) && e.Tick? && e.t - LastUp(s) >= cfg.quietMs ==> PressFrom(rest, LastUp(s) + limit))
            && Decided(cfg, limit, After(cfg, s, e), rest)
  {
    assert ([e] + rest)[0] == e && ([e] + rest)[1..] == rest;
  }

  /** A run of the work item decides what it can. */
  lemma FedDecides(cfg: Config, late: nat, d: Dev, t: int, more: seq<Event>)
    requires cfg.quietMs == QUIET_MS && Inv(late, d) && Enabled(late, d, Work(t))
    requires Decided(cfg, QUIET_MS + DEBOUNCE_MS, Next(cfg, d, Work(t)).track, more)
    requires Open(d.track) && d.line == d.level ==> PressFrom(more, t + DEBOUNCE_MS)
    requires d.line != d.level && d.line && Open(d.track) ==> !DeviceAmbiguous(late, t - LastUp(d.track))
    ensures Decided(cfg, QUIET_MS + DEBOUNCE_MS, d.track, Fed(cfg, d, t) + more)
  {
    var limit, c, tick := QUIET_MS + DEBOUNCE_MS, Change(d, t), [Tick(t)];
    FedDoes(cfg, d, t);
    var fed := Fed(cfg, d, t);
    if c == [] {
      assert fed == tick;
      DecidedCons(cfg, limit, d.track, Tick(t), more);
      if Open(d.track) && t - LastUp(d.track) >= QUIET_MS {
        PressFromEarlier(more, t + DEBOUNCE_MS, LastUp(d.track) + limit);
      }
    } else {
      var s := After(cfg, d.track, c[0]);
      DecidedCons(cfg, limit, s, Tick(t), more);
      if Answer(cfg, d.track, c[0]) == Nothing {
        assert fed + more == [c[0]] + (tick + more);
        DecidedCons(cfg, limit, d.track, c[0], tick + more);
      } else {
        assert fed + more == [c[0]] + more;
        DecidedCons(cfg, limit, d.track, c[0], more);
      }
    }
  }

  lemma {:induction false} PressFromEarlier(es: seq<Event>, t: int, before: int)
    requires PressFrom(es, t) && before <= t
    ensures PressFrom(es, before)
  {
    if es != [] && !es[0].Press? { PressFromEarlier(es[1..], t, before); }
  }

  lemma {:induction false} DeviceDecides(cfg: Config, late: nat, d: Dev, ws: seq<Step>, up: Option<int>)
    requires cfg.quietMs == QUIET_MS && Inv(late, d) && Schedule(cfg, late, d, ws) && AllClean(cfg, d, ws)
    requires Machine(cfg, d, ws).due.None? && Tracks(d.track, up)
    requires PausesClear(cfg, QUIET_MS + DEBOUNCE_MS, Longest(late) + 1, up, d.track.down, Edges(Feed(cfg, d, ws)))
    ensures Decided(cfg, QUIET_MS + DEBOUNCE_MS, d.track, Feed(cfg, d, ws))
    decreases |ws|
  {
    hide Inv, Enabled, Fed, After, Answer, Final, Longest, PausesClear, Tracks, Decided;
    if ws == [] {
      DecidedNothing(cfg, late, d);
    } else {
      var w, next, more := ws[0], Next(cfg, d, ws[0]), Feed(cfg, Next(cfg, d, ws[0]), ws[1..]);
      StepInv(cfg, late, d, w);
      if w.Line? {
        assert [] + more == more;
        DeviceDecides(cfg, late, next, ws[1..], up);
      } else {
        var c := Change(d, w.t);
        FedEdges(cfg, d, w.t);
        EdgesConcat(Fed(cfg, d, w.t), more);
        ClearAfter(cfg, QUIET_MS + DEBOUNCE_MS, Longest(late) + 1, up, d.track, c, Edges(more));
        NextTracks(cfg, d, w.t, up);
        DeviceDecides(cfg, late, next, ws[1..], UpAfter(cfg, d.track, up, c));
        if Open(d.track) && d.line == d.level {
          OpenIsUp(late, d);
          PressesLater(cfg, late, next, ws[1..], w.t);
        }
        FedDecides(cfg, late, d, w.t, more);
      }
    }
  }

  lemma DecidedNothing(cfg: Config, late: nat, d: Dev)
    requires Inv(late, d) && d.due.None?
    ensures Decided(cfg, QUIET_MS + DEBOUNCE_MS, d.track, [])
  {
  }

  lemma OpenIsUp(late: nat, d: Dev)
    requires Inv(late, d) && Open(d.track)
    ensures !d.level
  {
  }

  lemma NextTracks(cfg: Config, d: Dev, t: int, up: Option<int>)
    requires var c := Change(d, t);
      Tracks(if c == [] then d.track else After(cfg, d.track, c[0]), UpAfter(cfg, d.track, up, c))
    ensures var c := Change(d, t);
      && Tracks(Next(cfg, d, Work(t)).track, UpAfter(cfg, d.track, up, c))
      && Next(cfg, d, Work(t)).track.down == (if c == [] then d.track else After(cfg, d.track, c[0])).down
  {
    hide UpAfter, Fed, Final;
    FedDoes(cfg, d, t);
    var c := Change(d, t);
    TickTracks(cfg, if c == [] then d.track else After(cfg, d.track, c[0]), UpAfter(cfg, d.track, up, c), t);
    hide After, Answer, Tracks;
  }

  /** From rest to rest, on a clean line, the device does what the batch classifier says
      with a quiet time of 730 ms, when no pause between presses lies in the range the
      ticks decide. */
  lemma DeviceIsBatch(cfg: Config, late: nat, d: Dev, ws: seq<Step>)
    requires cfg.quietMs == QUIET_MS && Rest(d) && Schedule(cfg, late, d, ws) && AllClean(cfg, d, ws)
    requires Machine(cfg, d, ws).due.None?
    requires PausesClear(cfg, QUIET_MS + DEBOUNCE_MS, Longest(late) + 1, None, None, Edges(Feed(cfg, d, ws)))
    ensures Acts(Run(cfg, IDLE, Feed(cfg, d, ws)))
         == Batch(Limited(cfg, QUIET_MS + DEBOUNCE_MS), [], None, Edges(Feed(cfg, d, ws)))
  {
    DeviceDecides(cfg, late, d, ws, None);
    RunIsBatch(cfg, QUIET_MS + DEBOUNCE_MS, IDLE, Feed(cfg, d, ws));
  }

  // ----- step by step -----

  lemma NoFeed(cfg: Config, d: Dev)
    ensures Feed(cfg, d, []) == [] && Acts(Run(cfg, d.track, [])) == [] && Edges([]) == []
  {
  }

  /** One gesture at most comes of a run. */
  lemma FedActs(cfg: Config, d: Dev, t: int, more: seq<Event>)
    ensures var fed := Fed(cfg, d, t);
      Acts(Run(cfg, d.track, fed + more))
      == Emit(FirstOut(Run(cfg, d.track, fed))) + Acts(Run(cfg, Next(cfg, d, Work(t)).track, more))
  {
    hide After, Answer;
    var c, tick, fed := Change(d, t), [Tick(t)], Fed(cfg, d, t);
    RunConcat(cfg, d.track, fed, more);
    FedDoes(cfg, d, t);
    if c == [] {
      assert c + tick == tick;
      OneAct(cfg, d.track, Tick(t), []);
    } else {
      assert c == [c[0]] + [] && c + tick == [c[0]] + tick;
      OneAct(cfg, d.track, c[0], []);
      OneAct(cfg, d.track, c[0], tick);
      OneAct(cfg, After(cfg, d.track, c[0]), Tick(t), []);
    }
    assert tick + [] == tick;
    NoFeed(cfg, d);
  }

  lemma OneAct(cfg: Config, s: Track, e: Event, rest: seq<Event>)
    ensures Acts(Run(cfg, s, [e] + rest)) == Emit(Answer(cfg, s, e)) + Acts(Run(cfg, After(cfg, s, e), rest))
    ensures Acts(Run(cfg, s, [])) == []
  {
    hide After, Answer;
    assert ([e] + rest)[0] == e && ([e] + rest)[1..] == rest;
    ActsCons(Answer(cfg, s, e), Run(cfg, After(cfg, s, e), rest));
  }

  /** What one step adds to a run. */
  function StepEdges(d: Dev, w: Step): seq<Event> { if w.Line? then [] else Change(d, w.t) }

  ghost function StepActs(cfg: Config, d: Dev, w: Step): seq<Out> {
    if w.Line? then [] else Emit(FirstOut(Run(cfg, d.track, Fed(cfg, d, w.t))))
  }

  lemma FeedCons(cfg: Config, d: Dev, w: Step, ws: seq<Step>)
    ensures var more := Feed(cfg, Next(cfg, d, w), ws);
      && Edges(Feed(cfg, d, [w] + ws)) == StepEdges(d, w) + Edges(more)
      && Acts(Run(cfg, d.track, Feed(cfg, d, [w] + ws)))
         == StepActs(cfg, d, w) + Acts(Run(cfg, Next(cfg, d, w).track, more))
  {
    hide Fed, Final, Edges, Acts, Run;
    var more := Feed(cfg, Next(cfg, d, w), ws);
    assert ([w] + ws)[0] == w && ([w] + ws)[1..] == ws;
    if w.Line? {
      assert Feed(cfg, d, [w] + ws) == more;
    } else {
      FedEdges(cfg, d, w.t);
      EdgesConcat(Fed(cfg, d, w.t), more);
      FedActs(cfg, d, w.t, more);
    }
  }

  // ----- one pause on the device -----

  /** A sequence that is still open t ms after its last release. */
  function StillOpen(holds: seq<Hold>, t: nat): Dev
    requires holds != []
  {
    var now := holds[|holds| - 1].up + t;
    Dev(Released(holds), false, false, Some(now + TICK_MS), now)
  }

  function PressedAt(holds: seq<Hold>, p: int): Dev {
    Dev(Track(holds, Some(p), false), true, true, Some(p + TICK_MS), p)
  }

  /** A run of the device that ends with recording the next press, at time p. */
  ghost predicate PauseRun(cfg: Config, late: nat, d: Dev, ws: seq<Step>, p: int)
    decreases |ws|
  {
    && ws != [] && Enabled(late, d, ws[0]) && Clean(d, ws[0])
    && if ws[0].Work? && d.line != d.level then ws == [Work(p)]
       else PauseRun(cfg, late, Next(cfg, d, ws[0]), ws[1..], p)
  }

  /** Such a run is a run of the device, with that press for its one edge. */
  lemma {:induction false} PauseIsRun(cfg: Config, late: nat, d: Dev, ws: seq<Step>, p: int)
    requires PauseRun(cfg, late, d, ws, p) && !d.level
    ensures Schedule(cfg, late, d, ws) && AllClean(cfg, d, ws) && Edges(Feed(cfg, d, ws)) == [Press(p)]
    decreases |ws|
  {
    hide Fed, Final, Enabled;
    var w := ws[0];
    var next := Next(cfg, d, w);
    var more := Feed(cfg, next, ws[1..]);
    if w.Line? {
      PauseIsRun(cfg, late, next, ws[1..], p);
      assert Feed(cfg, d, ws) == more;
    } else {
      FedEdges(cfg, d, w.t);
      EdgesConcat(Fed(cfg, d, w.t), more);
      if d.line != d.level {
        assert ws[1..] == [];
        NoFeed(cfg, next);
      } else {
        PauseIsRun(cfg, late, next, ws[1..], p);
      }
    }
  }

  /** The run that records the press. */
  lemma PressStep(cfg: Config, late: nat, d: Dev, holds: seq<Hold>, p: int)
    requires d.track == Released(holds) && d.line && !d.level
    ensures Next(cfg, d, Work(p)) == PressedAt(holds, p) && StepActs(cfg, d, Work(p)) == []
    ensures Inv(late, d) && holds != [] && Enabled(late, d, Work(p)) ==> p - holds[|holds| - 1].up <= Longest(late)
  {
    hide Fed, Final, LastBefore;
    FedDoes(cfg, d, p);
  }

  /** A tick leaves an open sequence, or answers and forgets it. */
  lemma TickStep(cfg: Config, d: Dev, t: int)
    requires d.line == d.level && d.track.down.None? && !d.track.armed
    ensures Next(cfg, d, Work(t)).track == (if Quiet(cfg, d.track.holds, t) then IDLE else d.track)
    ensures StepActs(cfg, d, Work(t)) == if Quiet(cfg, d.track.holds, t) then Emit(Classify(cfg, d.track.holds)) else []
  {
    hide Fed, Final, Classify;
    FedDoes(cfg, d, t);
  }

  /** What the press at time p finds: the sequence still open, or answered and
      forgotten. */
  lemma {:induction false} PauseOutcome(cfg: Config, late: nat, d: Dev, ws: seq<Step>, holds: seq<Hold>, p: int)
    requires cfg.quietMs == QUIET_MS && holds != [] && Inv(late, d) && !d.level && PauseRun(cfg, late, d, ws, p)
    requires d.track == Released(holds) || (d.track == IDLE && UpAt(d, holds[|holds| - 1].up + QUIET_MS))
    ensures var pause, acts := p - holds[|holds| - 1].up, Acts(Run(cfg, d.track, Feed(cfg, d, ws)));
      || (Open(d.track) && Machine(cfg, d, ws) == PressedAt(holds, p) && pause <= Longest(late) && acts == [])
      || (Machine(cfg, d, ws) == PressedAt([], p) && pause >= QUIET_MS + DEBOUNCE_MS
          && acts == if Open(d.track) then Emit(Classify(cfg, holds)) else [])
    decreases |ws|
  {
    hide Reached, LastBefore, Longest, Fed, Final, Classify, Acts, Run, Emit, Feed, StepActs, FirstOut;
    var w := ws[0];
    var next := Next(cfg, d, w);
    FeedCons(cfg, d, w, ws[1..]);
    assert [w] + ws[1..] == ws;
    if w.Work? && d.line != d.level {
      assert ws[1..] == [];
      NoFeed(cfg, next);
      PressStep(cfg, late, d, d.track.holds, p);
    } else {
      StepInv(cfg, late, d, w);
      if w.Work? {
        TickStep(cfg, d, w.t);
        assert Emit(Classify(cfg, holds)) + [] == Emit(Classify(cfg, holds));
      } else {
        LineActs(cfg, d, w);
      }
      PauseOutcome(cfg, late, next, ws[1..], holds, p);
    }
  }

  lemma LineActs(cfg: Config, d: Dev, w: Step)
    requires w.Line?
    ensures StepActs(cfg, d, w) == []
  {
  }

  // ----- both outcomes in the whole range -----

  lemma {:induction false} Concat(cfg: Config, late: nat, d: Dev, a: seq<Step>, b: seq<Step>)
    requires Schedule(cfg, late, d, a) && AllClean(cfg, d, a)
    requires Schedule(cfg, late, Machine(cfg, d, a), b) && AllClean(cfg, Machine(cfg, d, a), b)
    ensures Schedule(cfg, late, d, a + b) && AllClean(cfg, d, a + b)
    ensures Machine(cfg, d, a + b) == Machine(cfg, Machine(cfg, d, a), b)
    decreases |a|
  {
    hide Next, Enabled, Clean;
    if a == [] {
      assert a + b == b;
    } else {
      assert (a + b)[0] == a[0] && (a + b)[1..] == a[1..] + b;
      Concat(cfg, late, Next(cfg, d, a[0]), a[1..], b);
    }
  }

  lemma {:induction false} ConcatFeed(cfg: Config, d: Dev, a: seq<Step>, b: seq<Step>)
    ensures Edges(Feed(cfg, d, a + b)) == Edges(Feed(cfg, d, a)) + Edges(Feed(cfg, Machine(cfg, d, a), b))
    ensures Acts(Run(cfg, d.track, Feed(cfg, d, a + b)))
         == Acts(Run(cfg, d.track, Feed(cfg, d, a)))
            + Acts(Run(cfg, Machine(cfg, d, a).track, Feed(cfg, Machine(cfg, d, a), b)))
    decreases |a|
  {
    hide Next, Feed, Edges, Acts, Run, StepEdges, StepActs;
    if a == [] {
      assert a + b == b;
      NoFeed(cfg, d);
    } else {
      var w := a[0];
      ConcatFeed(cfg, Next(cfg, d, w), a[1..], b);
      FeedCons(cfg, d, w, a[1..]);
      FeedCons(cfg, d, w, a[1..] + b);
      assert [w] + a[1..] == a && [w] + (a[1..] + b) == a + b;
    }
  }

  /** A run from one state to another, with its edges and gestures. */
  ghost predicate Goes(cfg: Config, late: nat, d: Dev, ws: seq<Step>, d': Dev, edges: seq<Event>, acts: seq<Out>) {
    && Schedule(cfg, late, d, ws) && AllClean(cfg, d, ws) && Machine(cfg, d, ws) == d'
    && Edges(Feed(cfg, d, ws)) == edges && Acts(Run(cfg, d.track, Feed(cfg, d, ws))) == acts
  }

  lemma Stays(cfg: Config, late: nat, d: Dev)
    ensures Goes(cfg, late, d, [], d, [], [])
  {
    NoFeed(cfg, d);
  }

  /** One step more, in front. */
  lemma GoesOn(cfg: Config, late: nat, d: Dev, w: Step, ws: seq<Step>, d': Dev, edges: seq<Event>, acts: seq<Out>)
    requires Enabled(late, d, w) && Clean(d, w) && Goes(cfg, late, Next(cfg, d, w), ws, d', edges, acts)
    ensures Goes(cfg, late, d, [w] + ws, d', StepEdges(d, w) + edges, StepActs(cfg, d, w) + acts)
  {
    hide Fed, Final, Enabled, Clean, Edges, Acts, Run, StepEdges, StepActs;
    FeedCons(cfg, d, w, ws);
    assert ([w] + ws)[0] == w && ([w] + ws)[1..] == ws;
  }

  /** A step that adds nothing, and one that adds an edge. */
  lemma GoesQuietly(cfg: Config, late: nat, d: Dev, w: Step, ws: seq<Step>, d': Dev, edges: seq<Event>, acts: seq<Out>)
    requires Enabled(late, d, w) && Clean(d, w) && Goes(cfg, late, Next(cfg, d, w), ws, d', edges, acts)
    requires StepEdges(d, w) == [] && StepActs(cfg, d, w) == []
    ensures Goes(cfg, late, d, [w] + ws, d', edges, acts)
  {
    hide Goes, Next, StepEdges, StepActs;
    GoesOn(cfg, late, d, w, ws, d', edges, acts);
    assert [] + edges == edges && [] + acts == acts;
  }

  lemma GoesWithEdge(cfg: Config, late: nat, d: Dev, w: Step, e: Event, ws: seq<Step>, d': Dev, edges: seq<Event>, acts: seq<Out>)
    requires Enabled(late, d, w) && Clean(d, w) && Goes(cfg, late, Next(cfg, d, w), ws, d', edges, acts)
    requires StepEdges(d, w) == [e] && StepActs(cfg, d, w) == []
    ensures Goes(cfg, late, d, [w] + ws, d', [e] + edges, acts)
  {
    hide Goes, Next, StepEdges, StepActs;
    GoesOn(cfg, late, d, w, ws, d', edges, acts);
    assert [] + acts == acts;
  }

  lemma GoThrough(cfg: Config, late: nat, d: Dev, a: seq<Step>, d1: Dev, e1: seq<Event>, x1: seq<Out>,
                  b: seq<Step>, d2: Dev, e2: seq<Event>, x2: seq<Out>)
    requires Goes(cfg, late, d, a, d1, e1, x1) && Goes(cfg, late, d1, b, d2, e2, x2)
    ensures Goes(cfg, late, d, a + b, d2, e1 + e2, x1 + x2)
  {
    hide Schedule, AllClean, Machine, Feed, Edges, Acts, Run;
    Concat(cfg, late, d, a, b);
    ConcatFeed(cfg, d, a, b);
  }

  // ----- ticks at a chosen pace -----

  /** The k-th tick after a release: as late as may be until c ms are lost. */
  function At(late: nat, c: nat, k: nat): nat { TICK_MS * k + Min(k * late, c) }

  function TickRuns(u: int, late: nat, c: nat, k: nat, n: nat): seq<Step>
    requires k <= n
    decreases n - k
  {
    if k == n then [] else [Work(u + At(late, c, k + 1))] + TickRuns(u, late, c, k + 1, n)
  }

  lemma AtStep(late: nat, c: nat, k: nat)
    ensures TICK_MS <= At(late, c, k + 1) - At(late, c, k) <= TICK_MS + late
  {
    assert (k + 1) * late == k * late + late;
  }

  lemma {:induction false} AtGrows(late: nat, c: nat, k: nat, n: nat)
    requires k <= n
    ensures At(late, c, k) <= At(late, c, n)
    decreases n - k
  {
    if k < n {
      AtStep(late, c, k);
      AtGrows(late, c, k + 1, n);
    }
  }

  lemma {:induction false} TicksGo(cfg: Config, late: nat, c: nat, holds: seq<Hold>, k: nat, n: nat)
    requires cfg.quietMs == QUIET_MS && holds != [] && k <= n && At(late, c, n) < QUIET_MS
    ensures var u := holds[|holds| - 1].up;
      Goes(cfg, late, StillOpen(holds, At(late, c, k)), TickRuns(u, late, c, k, n), StillOpen(holds, At(late, c, n)), [], [])
    decreases n - k
  {
    hide Goes, Final, Fed;
    var d := StillOpen(holds, At(late, c, k));
    if k == n {
      Stays(cfg, late, d);
    } else {
      var u, t := holds[|holds| - 1].up, At(late, c, k + 1);
      AtStep(late, c, k);
      AtGrows(late, c, k + 1, n);
      hide At;
      FedDoes(cfg, d, u + t);
      assert Next(cfg, d, Work(u + t)) == StillOpen(holds, t);
      EmitOne(Nothing);
      TicksGo(cfg, late, c, holds, k + 1, n);
      GoesQuietly(cfg, late, d, Work(u + t), TickRuns(u, late, c, k + 1, n), StillOpen(holds, At(late, c, n)), [], []);
    }
  }

  /** The tick that closes the sequence. */
  lemma CloseGoes(cfg: Config, late: nat, holds: seq<Hold>, t: nat)
    requires cfg.quietMs == QUIET_MS && holds != [] && QUIET_MS - TICK_MS == t
    ensures var u := holds[|holds| - 1].up;
      Goes(cfg, late, StillOpen(holds, t), [Work(u + QUIET_MS)],
           Dev(IDLE, false, false, None, u + QUIET_MS), [], Emit(Classify(cfg, holds)))
  {
    hide Goes, Final, Fed, Classify, Emit;
    var d, u := StillOpen(holds, t), holds[|holds| - 1].up;
    FedDoes(cfg, d, u + QUIET_MS);
    var next := Next(cfg, d, Work(u + QUIET_MS));
    Stays(cfg, late, next);
    GoesOn(cfg, late, d, Work(u + QUIET_MS), [], next, [], []);
    assert [Work(u + QUIET_MS)] + [] == [Work(u + QUIET_MS)];
    assert StepEdges(d, Work(u + QUIET_MS)) + [] == [];
    assert Emit(Classify(cfg, holds)) + [] == Emit(Classify(cfg, holds));
  }

  lemma {:induction false} PauseRunAfter(cfg: Config, late: nat, d: Dev, a: seq<Step>, b: seq<Step>, p: int)
    requires Schedule(cfg, late, d, a) && AllClean(cfg, d, a) && Edges(Feed(cfg, d, a)) == []
    requires PauseRun(cfg, late, Machine(cfg, d, a), b, p)
    ensures PauseRun(cfg, late, d, a + b, p)
    decreases |a|
  {
    hide Fed, Final, Enabled, Clean;
    if a == [] {
      assert a + b == b;
    } else {
      var w := a[0];
      assert (a + b)[0] == w && (a + b)[1..] == a[1..] + b;
      FeedCons(cfg, d, w, a[1..]);
      assert [w] + a[1..] == a;
      PauseRunAfter(cfg, late, Next(cfg, d, w), a[1..], b, p);
    }
  }

  /** The line goes down at time x, which is recorded at time p. */
  lemma PressGoes(cfg: Config, late: nat, d: Dev, holds: seq<Hold>, x: int, p: int)
    requires d.track == Released(holds) && !d.line && !d.level && Enabled(late, d, Line(x))
    requires x + DEBOUNCE_MS <= p <= x + DEBOUNCE_MS + late
    ensures PauseRun(cfg, late, d, [Line(x), Work(p)], p)
    ensures Machine(cfg, d, [Line(x), Work(p)]) == PressedAt(holds, p)
  {
    hide Fed, Final;
    var ws := [Line(x), Work(p)];
    var d1 := Next(cfg, d, Line(x));
    assert ws[1..] == [Work(p)] && [Work(p)][1..] == [];
    PressStep(cfg, late, d1, holds, p);
    assert Machine(cfg, d1, [Work(p)]) == Machine(cfg, Next(cfg, d1, Work(p)), []);
  }

  lemma PauseFrom(cfg: Config, late: nat, d: Dev, a: seq<Step>, d1: Dev, acts: seq<Out>, b: seq<Step>, p: int)
    requires Goes(cfg, late, d, a, d1, [], acts) && PauseRun(cfg, late, d1, b, p) && !d1.level
    ensures PauseRun(cfg, late, d, a + b, p) && Machine(cfg, d, a + b) == Machine(cfg, d1, b)
  {
    PauseIsRun(cfg, late, d1, b, p);
    Concat(cfg, late, d, a, b);
    PauseRunAfter(cfg, late, d, a, b, p);
    hide *;
  }

  /** Ticks every 50 ms see the quiet time over before the line goes down. */
  lemma ClosingPause(cfg: Config, late: nat, holds: seq<Hold>, pause: nat) returns (ws: seq<Step>)
    requires cfg.quietMs == QUIET_MS && holds != [] && pause >= QUIET_MS + DEBOUNCE_MS
    ensures var p := holds[|holds| - 1].up + pause;
      PauseRun(cfg, late, StillOpen(holds, 0), ws, p) && Machine(cfg, StillOpen(holds, 0), ws) == PressedAt([], p)
  {
    hide Goes, PauseRun, Machine, Closing;
    var u := holds[|holds| - 1].up;
    var p, closed := u + pause, Dev(IDLE, false, false, None, u + QUIET_MS);
    var tail := [Line(p - DEBOUNCE_MS), Work(p)];
    ClosingGoes(cfg, late, holds);
    PressGoes(cfg, late, closed, [], p - DEBOUNCE_MS, p);
    PauseFrom(cfg, late, StillOpen(holds, 0), Closing(late, u), closed, Emit(Classify(cfg, holds)), tail, p);
    ws := Closing(late, u) + tail;
  }

  function Closing(late: nat, u: int): seq<Step> { TickRuns(u, late, 0, 0, 13) + [Work(u + QUIET_MS)] }

  lemma ClosingGoes(cfg: Config, late: nat, holds: seq<Hold>)
    requires cfg.quietMs == QUIET_MS && holds != []
    ensures var u := holds[|holds| - 1].up;
      Goes(cfg, late, StillOpen(holds, 0), Closing(late, u),
           Dev(IDLE, false, false, None, u + QUIET_MS), [], Emit(Classify(cfg, holds)))
  {
    hide Goes, Classify, Emit, TickRuns;
    var u, acts, none := holds[|holds| - 1].up, Emit(Classify(cfg, holds)), Edges([]);
    TicksGo(cfg, late, 0, holds, 0, 13);
    assert At(late, 0, 0) == 0 && At(late, 0, 13) == QUIET_MS - TICK_MS;
    CloseGoes(cfg, late, holds, QUIET_MS - TICK_MS);
    GoThrough(cfg, late, StillOpen(holds, 0), TickRuns(u, late, 0, 0, 13), StillOpen(holds, QUIET_MS - TICK_MS), [], [],
              [Work(u + QUIET_MS)], Dev(IDLE, false, false, None, u + QUIET_MS), [], acts);
    assert [] + acts == acts && none + none == none == [];
  }

  /** The last tick comes just before the quiet time is over, and the edge puts the
      next one off. */
  lemma OpenPause(cfg: Config, late: nat, holds: seq<Hold>, pause: nat) returns (ws: seq<Step>)
    requires cfg.quietMs == QUIET_MS && holds != [] && DeviceAmbiguous(late, pause)
    ensures var p := holds[|holds| - 1].up + pause;
      PauseRun(cfg, late, StillOpen(holds, 0), ws, p) && Machine(cfg, StillOpen(holds, 0), ws) == PressedAt(holds, p)
  {
    hide Goes, PauseRun, Machine, TickRuns, At;
    var u, c := holds[|holds| - 1].up, LastBefore(late) - 13 * TICK_MS;
    var p, x := u + pause, u + Min(pause - DEBOUNCE_MS, LastBefore(late) + TICK_MS + late);
    var tail, last := [Line(x), Work(p)], StillOpen(holds, LastBefore(late));
    AtEnds(late);
    TicksGo(cfg, late, c, holds, 0, 13);
    PressGoes(cfg, late, last, holds, x, p);
    PauseFrom(cfg, late, StillOpen(holds, 0), TickRuns(u, late, c, 0, 13), last, [], tail, p);
    ws := TickRuns(u, late, c, 0, 13) + tail;
  }

  lemma AtEnds(late: nat)
    ensures var c := LastBefore(late) - 13 * TICK_MS;
      c >= 0 && At(late, c, 0) == 0 && At(late, c, 13) == LastBefore(late)
  {
  }

  /** All runs of the device over a pause find the same at the next press exactly when
      the pause is not in the range. */
  lemma DevicePauseExactly(cfg: Config, late: nat, holds: seq<Hold>, pause: nat)
    requires cfg.quietMs == QUIET_MS && holds != []
    ensures var d, p := StillOpen(holds, 0), holds[|holds| - 1].up + pause;
      (forall a, b :: PauseRun(cfg, late, d, a, p) && PauseRun(cfg, late, d, b, p) ==>
         Machine(cfg, d, a) == Machine(cfg, d, b))
      <==> !DeviceAmbiguous(late, pause)
  {
    hide PauseRun, Machine, LastBefore;
    var d, p := StillOpen(holds, 0), holds[|holds| - 1].up + pause;
    if DeviceAmbiguous(late, pause) {
      var a := ClosingPause(cfg, late, holds, pause);
      var b := OpenPause(cfg, late, holds, pause);
      assert Machine(cfg, d, a) != Machine(cfg, d, b);
    } else {
      NothingReached(late);
      forall a, b | PauseRun(cfg, late, d, a, p) && PauseRun(cfg, late, d, b, p)
        ensures Machine(cfg, d, a) == Machine(cfg, d, b)
      {
        PauseOutcome(cfg, late, d, a, holds, p);
        PauseOutcome(cfg, late, d, b, holds, p);
      }
    }
  }

  // ----- the same two presses, read in two ways -----

  /** The defaults, and the device at rest. */
  const DEFAULTS: Config := Config(3, 2, 2000, 1000, QUIET_MS, 10000)
  const START: Dev := Dev(IDLE, false, false, None, 0)

  const FIRST: seq<Step> := [Line(0), Work(30)] + HoldRun(30)

  /** The button is down for 100 ms. */
  function HoldRun(p: int): seq<Step> { [Work(p + 50), Line(p + 70), Work(p + 100)] }

  lemma HoldGoes(late: nat, holds: seq<Hold>, p: int)
    ensures Goes(DEFAULTS, late, PressedAt(holds, p), HoldRun(p), StillOpen(holds + [Hold(p, p + 100)], 0),
                 [Release(p + 100)], [])
  {
    hide Goes, Fed, Final;
    var d := PressedAt(holds, p);
    var d1 := Next(DEFAULTS, d, Work(p + 50));
    FedDoes(DEFAULTS, d, p + 50);
    var d2 := Next(DEFAULTS, d1, Line(p + 70));
    FedDoes(DEFAULTS, d2, p + 100);
    var d3 := StillOpen(holds + [Hold(p, p + 100)], 0);
    assert Next(DEFAULTS, d2, Work(p + 100)) == d3;
    Stays(DEFAULTS, late, d3);
    EmitOne(Nothing);
    GoesWithEdge(DEFAULTS, late, d2, Work(p + 100), Release(p + 100), [], d3, [], []);
    assert [Release(p + 100)] + [] == [Release(p + 100)];
    LineActs(DEFAULTS, d1, Line(p + 70));
    GoesQuietly(DEFAULTS, late, d1, Line(p + 70), [Work(p + 100)] + [], d3, [Release(p + 100)], []);
    GoesQuietly(DEFAULTS, late, d, Work(p + 50), [Line(p + 70)] + ([Work(p + 100)] + []), d3, [Release(p + 100)], []);
    assert [Work(p + 50)] + ([Line(p + 70)] + ([Work(p + 100)] + [])) == HoldRun(p);
  }

  /** The first press, from rest. */
  lemma FirstGoes(late: nat)
    ensures Goes(DEFAULTS, late, START, FIRST, StillOpen([Hold(30, 130)], 0), [Press(30), Release(130)], [])
  {
    hide Goes, Fed, Final, HoldRun;
    var d1 := Next(DEFAULTS, START, Line(0));
    PressStep(DEFAULTS, late, d1, [], 30);
    HoldGoes(late, [], 30);
    assert [] + [Hold(30, 130)] == [Hold(30, 130)];
    var d3 := StillOpen([Hold(30, 130)], 0);
    GoesWithEdge(DEFAULTS, late, d1, Work(30), Press(30), HoldRun(30), d3, [Release(130)], []);
    assert [Press(30)] + [Release(130)] == [Press(30), Release(130)];
    LineActs(DEFAULTS, START, Line(0));
    GoesQuietly(DEFAULTS, late, START, Line(0), [Work(30)] + HoldRun(30), d3, [Press(30), Release(130)], []);
    assert [Line(0)] + ([Work(30)] + HoldRun(30)) == FIRST;
  }

  function Ended(pause: nat): Dev { Dev(IDLE, false, false, None, 930 + pause) }

  /** The second press, from whatever the pause left, to rest. */
  lemma SecondGoes(late: nat, holds: seq<Hold>, pause: nat) returns (ws: seq<Step>)
    ensures var p := 130 + pause;
      Goes(DEFAULTS, late, PressedAt(holds, p), ws, Ended(pause), [Release(p + 100)],
           Emit(Classify(DEFAULTS, holds + [Hold(p, p + 100)])))
  {
    hide Goes, HoldRun, Closing, Classify, Emit;
    var p := 130 + pause;
    var more := holds + [Hold(p, p + 100)];
    HoldGoes(late, holds, p);
    ClosingGoes(DEFAULTS, late, more);
    GoThrough(DEFAULTS, late, PressedAt(holds, p), HoldRun(p), StillOpen(more, 0), [Release(p + 100)], [],
              Closing(late, p + 100), Ended(pause), [], Emit(Classify(DEFAULTS, more)));
    assert [Release(p + 100)] + [] == [Release(p + 100)];
    assert [] + Emit(Classify(DEFAULTS, more)) == Emit(Classify(DEFAULTS, more));
    ws := HoldRun(p) + Closing(late, p + 100);
  }

  lemma Classes(pause: nat)
    requires 200 + pause <= DEFAULTS.windowMs
    ensures var first, second := Hold(30, 130), Hold(130 + pause, 230 + pause);
      && Classify(DEFAULTS, [first]) == Nothing && Classify(DEFAULTS, [] + [second]) == Nothing
      && Classify(DEFAULTS, [first] + [second]) == Identify
  {
    var first, second := Hold(30, 130), Hold(130 + pause, 230 + pause);
    assert [] + [second] == [second];
    assert ([first] + [second])[0] == first && ([first] + [second])[1] == second;
  }

  function TwoPresses(pause: nat): seq<Event> {
    [Press(30), Release(130)] + ([Press(130 + pause)] + [Release(230 + pause)])
  }

  /** A whole run over any pause, with the gestures that come of it. */
  lemma WholeRun(late: nat, pause: nat, ws: seq<Step>, left: seq<Hold>) returns (all: seq<Step>)
    requires 200 + pause <= DEFAULTS.windowMs && (left == [] || left == [Hold(30, 130)])
    requires var d := StillOpen([Hold(30, 130)], 0);
      PauseRun(DEFAULTS, late, d, ws, 130 + pause) && Machine(DEFAULTS, d, ws) == PressedAt(left, 130 + pause)
    ensures Goes(DEFAULTS, late, START, all, Ended(pause), TwoPresses(pause), if left == [] then [] else [Identify])
  {
    hide Goes, HoldRun, Classify, PauseRun, Machine, LastBefore, Longest;
    var first, p := [Hold(30, 130)], 130 + pause;
    var d, pressed := StillOpen(first, 0), PressedAt(left, p);
    FirstGoes(late);
    NothingReached(late);
    PauseIsRun(DEFAULTS, late, d, ws, p);
    PauseOutcome(DEFAULTS, late, d, ws, first, p);
    Classes(pause);
    var x := if left == [] then [] else [Identify];
    assert Goes(DEFAULTS, late, d, ws, pressed, [Press(p)], []) by { IsGoing(DEFAULTS, late, d, ws, pressed, [Press(p)]); }
    var rest := SecondGoes(late, left, pause);
    GoThrough(DEFAULTS, late, d, ws, pressed, [Press(p)], [], rest, Ended(pause), [Release(p + 100)], x);
    GoThrough(DEFAULTS, late, START, FIRST, d, [Press(30), Release(130)], [],
              ws + rest, Ended(pause), [Press(p)] + [Release(p + 100)], [] + x);
    assert [] + ([] + x) == x;
    all := FIRST + (ws + rest);
  }

  lemma IsGoing(cfg: Config, late: nat, d: Dev, ws: seq<Step>, d': Dev, edges: seq<Event>)
    requires Schedule(cfg, late, d, ws) && AllClean(cfg, d, ws) && Machine(cfg, d, ws) == d'
    requires Edges(Feed(cfg, d, ws)) == edges && Acts(Run(cfg, d.track, Feed(cfg, d, ws))) == []
    ensures Goes(cfg, late, d, ws, d', edges, [])
  {
  }

  /** For every pause of the range that fits the window, two runs of the device from
      rest to rest with the same recorded presses: one an identify pattern, the other
      two lone presses. */
  lemma TicksDecide(late: nat, pause: nat) returns (a: seq<Step>, b: seq<Step>)
    requires DeviceAmbiguous(late, pause) && 200 + pause <= DEFAULTS.windowMs
    ensures Goes(DEFAULTS, late, START, a, Ended(pause), TwoPresses(pause), [])
    ensures Goes(DEFAULTS, late, START, b, Ended(pause), TwoPresses(pause), [Identify])
  {
    hide Goes, PauseRun, Machine, StillOpen, PressedAt;
    var first := [Hold(30, 130)];
    var closes := ClosingPause(DEFAULTS, late, first, pause);
    var opens := OpenPause(DEFAULTS, late, first, pause);
    a := WholeRun(late, pause, closes, []);
    b := WholeRun(late, pause, opens, first);
  }
}
