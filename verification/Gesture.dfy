/** The button gesture classifier (lib/common/button_gesture.c): counters and
    flags against the presses they summarise, and whole runs against a batch
    classifier that never sees a tick. */
module Gesture {
  import opened Common

  datatype Out = Nothing | Provision | EraseArmed | Erase | Identify

  datatype Config = Config(
    pressCount: nat, identifyCount: nat, windowMs: nat, shortMaxMs: nat, quietMs: nat, eraseMs: nat)
  {
    predicate EraseOn() { eraseMs > 0 }
  }

  // ----- gestures, stated on presses -----

  datatype Hold = Hold(down: int, up: int)

  /** The open sequence of presses, and the press still held, if any. */
  datatype Track = Track(holds: seq<Hold>, down: Option<int>, armed: bool)

  const IDLE: Track := Track([], None, false)

  ghost predicate AllShort(cfg: Config, holds: seq<Hold>) {
    forall i :: 0 <= i < |holds| ==> holds[i].up - holds[i].down < cfg.shortMaxMs
  }

  /** All presses short, from the first press to the last release in the window. */
  ghost predicate Pattern(cfg: Config, holds: seq<Hold>) {
    && holds != [] && AllShort(cfg, holds)
    && holds[|holds| - 1].up - holds[0].down <= cfg.windowMs
  }

  /** What a closed sequence means. A count of 0 switches a gesture off, and the
      provisioning pattern wins a tie. */
  ghost function Classify(cfg: Config, holds: seq<Hold>): Out {
    if !Pattern(cfg, holds) then Nothing
    else if |holds| == cfg.pressCount then Provision
    else if |holds| == cfg.identifyCount then Identify
    else Nothing
  }

  predicate LongHold(cfg: Config, down: int, now: int) { cfg.EraseOn() && now - down >= cfg.eraseMs }

  datatype Event = Press(t: int) | Release(t: int) | Tick(t: int)

  ghost function After(cfg: Config, s: Track, e: Event): Track {
    match e
    case Press(t) => if s.down.Some? then s else s.(down := Some(t))
    case Release(t) =>
      if s.down.None? then s
      else if LongHold(cfg, s.down.value, t) then IDLE
      else Track(s.holds + [Hold(s.down.value, t)], None, false)
    case Tick(t) =>
      if s.down.Some? then s.(armed := s.armed || LongHold(cfg, s.down.value, t))
      else if Quiet(cfg, s.holds, t) then IDLE
      else s
  }

  ghost function Answer(cfg: Config, s: Track, e: Event): Out {
    match e
    case Press(_) => Nothing
    case Release(t) => if s.down.Some? && LongHold(cfg, s.down.value, t) then Erase else Nothing
    case Tick(t) =>
      if s.down.Some? then
        (if !s.armed && LongHold(cfg, s.down.value, t) then EraseArmed else Nothing)
      else if Quiet(cfg, s.holds, t) then Classify(cfg, s.holds)
      else Nothing
  }

  /** The quiet time after the last release of a sequence has passed. */
  predicate Quiet(cfg: Config, holds: seq<Hold>, t: int) {
    holds != [] && t - holds[|holds| - 1].up >= cfg.quietMs
  }

  // ----- the code -----

  /** struct gesture_state. The ghost fields record what the others summarise. */
  class Classifier {
    const cfg: Config
    var pressed: bool
    var eraseArmed: bool
    var spoiled: bool
    var presses: nat
    var firstPress: int
    var pressAt: int
    var lastRelease: int
    ghost var track: Track
    ghost var now: int   // the time of the last event

    ghost predicate Valid() reads this {
      && pressed == track.down.Some?
      && (pressed ==> pressAt == track.down.value <= now)
      && eraseArmed == track.armed
      && (eraseArmed ==> pressed && LongHold(cfg, pressAt, now))
      && presses == |track.holds|
      && (presses > 0 ==>
            firstPress == track.holds[0].down && lastRelease == track.holds[presses - 1].up <= now)
      && (presses == 0 && pressed ==> firstPress == pressAt)
      && (presses == 0 ==> !spoiled)
      && (presses > 0 ==> (spoiled <==> presses > Larger() || !Pattern(cfg, track.holds)))
    }

    function Larger(): nat {
      if cfg.pressCount > cfg.identifyCount then cfg.pressCount else cfg.identifyCount
    }

    constructor (cfg: Config)
      ensures Valid() && track == IDLE && now == 0 && this.cfg == cfg
    {
      this.cfg := cfg;
      pressed, eraseArmed, spoiled, presses := false, false, false, 0;
      firstPress, pressAt, lastRelease := 0, 0, 0;
      track, now := IDLE, 0;
    }

    method ResetSequence()
      modifies this`presses, this`spoiled, this`eraseArmed
      ensures presses == 0 && !spoiled && !eraseArmed
    {
      presses, spoiled, eraseArmed := 0, false, false;
    }

    method OnPress(t: int) returns (out: Out)
      requires Valid() && t >= now
      modifies this
      ensures Valid() && now == t
      ensures track == After(cfg, old(track), Press(t)) && out == Answer(cfg, old(track), Press(t))
    {
      out := Nothing;
      track, now := After(cfg, track, Press(t)), t;
      if pressed {
        return;
      }
      pressed := true;
      pressAt := t;
      if presses == 0 {
        firstPress := t;
      }
    }

    method OnRelease(t: int) returns (out: Out)
      requires Valid() && t >= now
      modifies this
      ensures Valid() && now == t
      ensures track == After(cfg, old(track), Release(t))
      ensures out == Answer(cfg, old(track), Release(t))
    {
      hide Pattern;
      out := Nothing;
      ghost var before := track.holds;
      track, now := After(cfg, track, Release(t)), t;
      if !pressed {
        return;
      }
      pressed := false;
      var held := t - pressAt;
      if eraseArmed || (cfg.EraseOn() && held >= cfg.eraseMs) {
        ResetSequence();
        return Erase;
      }
      PatternSnoc(cfg, before, Hold(pressAt, t));
      if held >= cfg.shortMaxMs {
        spoiled := true;
      }
      presses := presses + 1;
      lastRelease := t;
      if presses > Larger() || t - firstPress > cfg.windowMs {
        spoiled := true;
      }
    }

    method OnTick(t: int) returns (out: Out)
      requires Valid() && t >= now
      modifies this
      ensures Valid() && now == t
      ensures track == After(cfg, old(track), Tick(t)) && out == Answer(cfg, old(track), Tick(t))
    {
      track, now := After(cfg, track, Tick(t)), t;
      if pressed {
        if cfg.EraseOn() && !eraseArmed && t - pressAt >= cfg.eraseMs {
          eraseArmed := true;
          return EraseArmed;
        }
        return Nothing;
      }
      if presses > 0 && t - lastRelease >= cfg.quietMs {
        var n := if spoiled then 0 else presses;
        ResetSequence();
        if n == 0 {
          return Nothing;
        }
        if n == cfg.pressCount {
          return Provision;
        }
        if n == cfg.identifyCount {
          return Identify;
        }
        return Nothing;
      }
      return Nothing;
    }

    /** A press or an unfinished sequence needs ticks; without either no tick does
        anything. */
    predicate Busy()
      requires Valid()
      reads this
      ensures !Busy() ==> forall t :: After(cfg, track, Tick(t)) == track && Answer(cfg, track, Tick(t)) == Nothing
    {
      pressed || presses > 0
    }

    /** Feed a run of events and collect what comes out. */
    method Replay(es: seq<Event>) returns (outs: seq<Out>)
      requires Valid() && Timed(es, now)
      modifies this
      ensures Valid() && outs == Run(cfg, old(track), es)
    {
      hide After, Answer, Pattern;
      outs := [];
      var i := 0;
      while i < |es|
        invariant 0 <= i <= |es| && Valid() && Timed(es[i..], now)
        invariant outs + Run(cfg, track, es[i..]) == Run(cfg, old(track), es)
      {
        var out;
        ghost var rest := es[i..];
        assert rest[1..] == es[i + 1..];
        match es[i] {
          case Press(t) => out := OnPress(t);
          case Release(t) => out := OnRelease(t);
          case Tick(t) => out := OnTick(t);
        }
        outs := outs + [out];
        i := i + 1;
      }
    }
  }

  /** A sequence stays a pattern as long as each further press is short and ends
      in the window. */
  lemma PatternSnoc(cfg: Config, holds: seq<Hold>, h: Hold)
    requires holds != [] ==> holds[|holds| - 1].up <= h.up
    ensures var more := holds + [h];
      Pattern(cfg, more)
      <==> (holds == [] || Pattern(cfg, holds))
           && h.up - h.down < cfg.shortMaxMs && h.up - more[0].down <= cfg.windowMs
  {
    var more := holds + [h];
    assert more[|holds|] == h;
    assert forall i :: 0 <= i < |holds| ==> more[i] == holds[i];
  }

  // ----- whole runs -----

  /** Event times do not decrease. */
  ghost predicate Timed(es: seq<Event>, now: int) {
    es == [] || (es[0].t >= now && Timed(es[1..], es[0].t))
  }

  ghost function Run(cfg: Config, s: Track, es: seq<Event>): seq<Out>
    decreases |es|
  {
    if es == [] then []
    else [Answer(cfg, s, es[0])] + Run(cfg, After(cfg, s, es[0]), es[1..])
  }

  /** The outputs that change the device: not "nothing", not the armed warning. */
  function Emit(out: Out): seq<Out> { if out == Nothing || out == EraseArmed then [] else [out] }

  function Acts(outs: seq<Out>): seq<Out> {
    if outs == [] then [] else Emit(outs[0]) + Acts(outs[1..])
  }

  /** The button edges of a run. */
  function Edges(es: seq<Event>): seq<Event> {
    if es == [] then []
    else (if es[0].Tick? then [] else [es[0]]) + Edges(es[1..])
  }

  /** The batch classifier: from the edges alone, cut into sequences where the
      button was quiet long enough or held to erase. */
  ghost function Batch(cfg: Config, holds: seq<Hold>, down: Option<int>, edges: seq<Event>): seq<Out>
    decreases |edges|
  {
    if edges == [] then (if down.None? then Emit(Classify(cfg, holds)) else [])
    else match edges[0]
      case Press(t) =>
        if down.Some? then Batch(cfg, holds, down, edges[1..])
        else if Quiet(cfg, holds, t) then
          Emit(Classify(cfg, holds)) + Batch(cfg, [], Some(t), edges[1..])
        else Batch(cfg, holds, Some(t), edges[1..])
      case Release(t) =>
        if down.None? then Batch(cfg, holds, down, edges[1..])
        else if LongHold(cfg, down.value, t) then [Erase] + Batch(cfg, [], None, edges[1..])
        else Batch(cfg, holds + [Hold(down.value, t)], None, edges[1..])
      case Tick(_) => Batch(cfg, holds, down, edges[1..])
  }

  /** A sequence is open: its presses are over, and the quiet time is not. */
  predicate Open(s: Track) { s.down.None? && s.holds != [] }

  function LastUp(s: Track): int
    requires s.holds != []
  {
    s.holds[|s.holds| - 1].up
  }

  /** The next press, if there is one, is not before time t. */
  ghost predicate PressFrom(es: seq<Event>, t: int) {
    es == [] || if es[0].Press? then es[0].t >= t else PressFrom(es[1..], t)
  }

  /** Every pause is decided by a limit: while a sequence is open, either the next press
      comes before the limit, or a tick sees the quiet time over and the next press comes
      from the limit on. */
  ghost predicate Decided(cfg: Config, limit: int, s: Track, es: seq<Event>)
    decreases |es|
  {
    if es == [] then !Open(s)
    else
      && (Open(s) && es[0].Press? ==> es[0].t - LastUp(s) < limit)
      && (Open(s) && es[0].Tick? && es[0].t - LastUp(s) >= cfg.quietMs ==> PressFrom(es[1..], LastUp(s) + limit))
      && Decided(cfg, limit, After(cfg, s, es[0]), es[1..])
  }

  lemma ActsCons(x: Out, b: seq<Out>)
    ensures Acts([x] + b) == Emit(x) + Acts(b)
  {
    assert ([x] + b)[1..] == b;
  }

  /** When the next press comes late enough, the batch classifier closes the sequence
      whatever comes next. */
  lemma {:induction false} BatchCloses(cfg: Config, holds: seq<Hold>, es: seq<Event>)
    requires holds != [] && PressFrom(es, holds[|holds| - 1].up + cfg.quietMs)
    ensures Batch(cfg, holds, None, Edges(es))
         == Emit(Classify(cfg, holds)) + Batch(cfg, [], None, Edges(es))
  {
    hide Classify, Emit;
    EmitNothing(cfg);
    if es == [] {
      assert Edges(es) == [];
    } else {
      EdgesStep(es);
      if !es[0].Press? { BatchCloses(cfg, holds, es[1..]); }
    }
  }

  lemma EmitNothing(cfg: Config)
    ensures Emit(Classify(cfg, [])) == []
  {
  }

  lemma EdgesStep(es: seq<Event>)
    requires es != []
    ensures es[0].Tick? ==> Edges(es) == Edges(es[1..])
    ensures !es[0].Tick? ==>
        Edges(es) != [] && Edges(es)[0] == es[0] && Edges(es)[1..] == Edges(es[1..])
  {
  }

  /** The same settings with another quiet time. */
  function Limited(cfg: Config, limit: nat): Config { cfg.(quietMs := limit) }

  lemma SameClasses(cfg: Config, limit: nat, holds: seq<Hold>)
    ensures Classify(Limited(cfg, limit), holds) == Classify(cfg, holds)
  {
  }

  lemma BatchStep(cfg: Config, limit: nat, s: Track, es: seq<Event>)
    requires es != [] && Decided(cfg, limit, s, es)
    ensures var next := After(cfg, s, es[0]);
      Batch(Limited(cfg, limit), s.holds, s.down, Edges(es))
      == Emit(Answer(cfg, s, es[0])) + Batch(Limited(cfg, limit), next.holds, next.down, Edges(es[1..]))
  {
    var e, L := es[0], Limited(cfg, limit);
    EdgesStep(es);
    if !e.Tick? {
      BatchEdge(cfg, limit, s, e, Edges(es));
    } else if s.down.None? && Quiet(cfg, s.holds, e.t) {
      SameClasses(cfg, limit, s.holds);
      BatchCloses(L, s.holds, es[1..]);
      hide Batch, Classify, Emit;
    } else {
      EmitOne(Answer(cfg, s, e));
      hide Batch, Classify, Emit;
    }
  }

  lemma BatchEdge(cfg: Config, limit: nat, s: Track, e: Event, edges: seq<Event>)
    requires !e.Tick? && edges != [] && edges[0] == e
    requires s.down.None? && s.holds != [] && e.Press? ==> !Quiet(Limited(cfg, limit), s.holds, e.t)
    ensures var next := After(cfg, s, e);
      Batch(Limited(cfg, limit), s.holds, s.down, edges)
      == Emit(Answer(cfg, s, e)) + Batch(Limited(cfg, limit), next.holds, next.down, edges[1..])
  {
    hide Classify;
  }

  /** A run does what the batch classifier does with its edges, with the limit for its
      quiet time: the ticks only decide when. */
  lemma {:induction false} RunIsBatch(cfg: Config, limit: nat, s: Track, es: seq<Event>)
    requires Decided(cfg, limit, s, es)
    ensures Acts(Run(cfg, s, es)) == Batch(Limited(cfg, limit), s.holds, s.down, Edges(es))
    decreases |es|
  {
    if es == [] {
      EmitNothing(Limited(cfg, limit));
    } else {
      BatchStep(cfg, limit, s, es);
      hide Batch, After, Answer, Emit, PressFrom;
      var next := After(cfg, s, es[0]);
      ActsCons(Answer(cfg, s, es[0]), Run(cfg, next, es[1..]));
      RunIsBatch(cfg, limit, next, es[1..]);
    }
  }

  lemma EmitOne(out: Out)
    ensures Emit(out) == if out == Nothing || out == EraseArmed then [] else [out]
  {
  }

  // ----- tick schedules -----

  /** From the last tick or release at time last: while a sequence is open, ticks come
      at most period apart until the next press, and the run does not stop. */
  ghost predicate Sampled(cfg: Config, period: nat, s: Track, es: seq<Event>, last: int)
    decreases |es|
  {
    if es == [] then !Open(s)
    else
      && (Open(s) && !es[0].Release? ==> es[0].t - last <= period)
      && Sampled(cfg, period, After(cfg, s, es[0]), es[1..], if Open(s) && es[0].Release? then last else es[0].t)
  }

  /** No pause between two presses of a sequence lies in [lo, hi): a property of the
      edges alone. The last release of the sequence, and the press still held. */
  predicate PausesClear(cfg: Config, lo: int, hi: int, up: Option<int>, down: Option<int>, edges: seq<Event>)
    decreases |edges|
  {
    edges == []
    || match edges[0]
       case Press(t) =>
         && (up.Some? && down.None? ==> !(lo <= t - up.value < hi))
         && PausesClear(cfg, lo, hi, up, if down.None? then Some(t) else down, edges[1..])
       case Release(t) =>
         if down.None? then PausesClear(cfg, lo, hi, up, down, edges[1..])
         else PausesClear(cfg, lo, hi, if LongHold(cfg, down.value, t) then None else Some(t), None, edges[1..])
       case Tick(_) => PausesClear(cfg, lo, hi, up, down, edges[1..])
  }

  /** The edges know the last release of a sequence that is in progress. */
  predicate Tracks(s: Track, up: Option<int>) { s.holds != [] ==> up == Some(LastUp(s)) }

  /** What the edges know after one of them. */
  function UpAfter(cfg: Config, s: Track, up: Option<int>, c: seq<Event>): Option<int> {
    if c != [] && c[0].Release? && s.down.Some? then
      (if LongHold(cfg, s.down.value, c[0].t) then None else Some(c[0].t))
    else up
  }

  lemma ClearAfter(cfg: Config, lo: int, hi: int, up: Option<int>, s: Track, c: seq<Event>, edges: seq<Event>)
    requires |c| <= 1 && (c != [] ==> !c[0].Tick?) && PausesClear(cfg, lo, hi, up, s.down, c + edges) && Tracks(s, up)
    ensures var s' := if c == [] then s else After(cfg, s, c[0]);
      PausesClear(cfg, lo, hi, UpAfter(cfg, s, up, c), s'.down, edges) && Tracks(s', UpAfter(cfg, s, up, c))
    ensures c != [] && c[0].Press? && Open(s) ==> !(lo <= c[0].t - LastUp(s) < hi)
  {
    if c == [] {
      assert c + edges == edges;
    } else {
      assert (c + edges)[0] == c[0] && (c + edges)[1..] == edges;
    }
  }

  /** A tick changes no press that is held, and can only forget a sequence. */
  lemma TickTracks(cfg: Config, s: Track, up: Option<int>, t: int)
    requires Tracks(s, up)
    ensures Tracks(After(cfg, s, Tick(t)), up) && After(cfg, s, Tick(t)).down == s.down
  {
  }

  lemma {:induction false} SampledDecides(cfg: Config, period: nat, s: Track, es: seq<Event>, last: int, now: int, up: Option<int>)
    requires Sampled(cfg, period, s, es, last) && Timed(es, now) && last <= now && Tracks(s, up)
    requires Open(s) ==> last - LastUp(s) < cfg.quietMs
    requires cfg.quietMs > 0
    requires PausesClear(cfg, cfg.quietMs, cfg.quietMs + period, up, s.down, Edges(es))
    ensures Decided(cfg, cfg.quietMs, s, es)
    decreases |es|
  {
    hide PausesClear, Tracks, UpAfter;
    if es != [] {
      var e := es[0];
      var c, next := if e.Tick? then [] else [e], After(cfg, s, e);
      EdgesStep(es);
      assert Edges(es) == c + Edges(es[1..]);
      ClearAfter(cfg, cfg.quietMs, cfg.quietMs + period, up, s, c, Edges(es[1..]));
      if e.Tick? { TickTracks(cfg, s, UpAfter(cfg, s, up, c), e.t); }
      if Open(s) && e.Tick? && e.t - LastUp(s) >= cfg.quietMs {
        TimedPressFrom(es[1..], e.t, LastUp(s) + cfg.quietMs);
      }
      SampledDecides(cfg, period, next, es[1..], if Open(s) && e.Release? then last else e.t, e.t, UpAfter(cfg, s, up, c));
    }
  }

  lemma {:induction false} TimedPressFrom(es: seq<Event>, now: int, t: int)
    requires Timed(es, now) && now >= t
    ensures PressFrom(es, t)
  {
    if es != [] { TimedPressFrom(es[1..], es[0].t, t); }
  }

  /** The same edges give the same PROVISION, IDENTIFY and ERASE sequence under any
      two tick schedules of period at most T, when no pause between presses lies in
      [quiet, quiet + T): the batch classifier's sequence. */
  lemma ScheduleIndependent(cfg: Config, period: nat, a: seq<Event>, b: seq<Event>, now: int)
    requires cfg.quietMs > 0 && Edges(a) == Edges(b) && Timed(a, now) && Timed(b, now)
    requires Sampled(cfg, period, IDLE, a, now) && Sampled(cfg, period, IDLE, b, now)
    requires PausesClear(cfg, cfg.quietMs, cfg.quietMs + period, None, None, Edges(a))
    ensures Acts(Run(cfg, IDLE, a)) == Batch(cfg, [], None, Edges(a)) == Acts(Run(cfg, IDLE, b))
  {
    SampledDecides(cfg, period, IDLE, a, now, now, None);
    SampledDecides(cfg, period, IDLE, b, now, now, None);
    RunIsBatch(cfg, cfg.quietMs, IDLE, a);
    RunIsBatch(cfg, cfg.quietMs, IDLE, b);
  }

  /** A pause whose end the ticks can fall on either side of. */
  predicate Ambiguous(cfg: Config, period: nat, pause: int) { cfg.quietMs <= pause < cfg.quietMs + period }

  // ----- one pause -----

  function Ticks(ts: seq<int>): seq<Event> {
    if ts == [] then [] else [Tick(ts[0])] + Ticks(ts[1..])
  }

  /** Tick times from last to the next press at time p, at most period apart. */
  predicate Paced(period: nat, ts: seq<int>, last: int, p: int) {
    if ts == [] then 0 <= p - last <= period
    else 0 <= ts[0] - last <= period && Paced(period, ts[1..], ts[0], p)
  }

  /** One of the ticks sees the quiet time over. */
  predicate Closes(cfg: Config, ts: seq<int>, u: int) {
    ts != [] && (ts[0] - u >= cfg.quietMs || Closes(cfg, ts[1..], u))
  }

  ghost function Final(cfg: Config, s: Track, es: seq<Event>): Track
    decreases |es|
  {
    if es == [] then s else Final(cfg, After(cfg, s, es[0]), es[1..])
  }

  function Released(holds: seq<Hold>): Track { Track(holds, None, false) }

  lemma {:induction false} IdleTicks(cfg: Config, ts: seq<int>)
    ensures Final(cfg, IDLE, Ticks(ts)) == IDLE && Acts(Run(cfg, IDLE, Ticks(ts))) == []
  {
    if ts != [] {
      IdleTicks(cfg, ts[1..]);
      TicksStep(ts);
      ActsCons(Answer(cfg, IDLE, Tick(ts[0])), Run(cfg, IDLE, Ticks(ts[1..])));
    }
  }

  lemma TicksStep(ts: seq<int>)
    requires ts != []
    ensures Ticks(ts)[0] == Tick(ts[0]) && Ticks(ts)[1..] == Ticks(ts[1..])
  {
  }

  /** The ticks of a pause classify the sequence and forget it if one of them comes
      after the quiet time, and do nothing otherwise. */
  lemma {:induction false} PauseTicks(cfg: Config, holds: seq<Hold>, ts: seq<int>)
    requires holds != []
    ensures var closes := Closes(cfg, ts, holds[|holds| - 1].up);
      && Final(cfg, Released(holds), Ticks(ts)) == (if closes then IDLE else Released(holds))
      && Acts(Run(cfg, Released(holds), Ticks(ts))) == (if closes then Emit(Classify(cfg, holds)) else [])
  {
    hide Classify;
    if ts != [] {
      TicksStep(ts);
      var e, s := Tick(ts[0]), Released(holds);
      ActsCons(Answer(cfg, s, e), Run(cfg, After(cfg, s, e), Ticks(ts[1..])));
      if Quiet(cfg, holds, ts[0]) {
        IdleTicks(cfg, ts[1..]);
      } else {
        PauseTicks(cfg, holds, ts[1..]);
      }
    }
  }

  /** A tick every millisecond from the release to time last. */
  function EachMs(u: int, last: int): seq<int>
    requires u <= last
    decreases last - u
  {
    if u == last then [] else [u + 1] + EachMs(u + 1, last)
  }

  lemma {:induction false} EachMsPaced(cfg: Config, period: nat, u: int, from: int, last: int, p: int)
    requires u <= from <= last && 0 <= p - last <= period && period >= 1 && from - u < cfg.quietMs
    ensures Paced(period, EachMs(from, last), from, p)
    ensures Closes(cfg, EachMs(from, last), u) <==> last - u >= cfg.quietMs
    decreases last - from
  {
    if from < last {
      assert EachMs(from, last)[1..] == EachMs(from + 1, last);
      if from + 1 - u < cfg.quietMs {
        EachMsPaced(cfg, period, u, from + 1, last, p);
      } else {
        EachMsAlone(period, from + 1, last, p);
      }
    }
  }

  lemma {:induction false} EachMsAlone(period: nat, from: int, last: int, p: int)
    requires from <= last && 0 <= p - last <= period && period >= 1
    ensures Paced(period, EachMs(from, last), from, p)
    decreases last - from
  {
    if from < last {
      assert EachMs(from, last)[1..] == EachMs(from + 1, last);
      EachMsAlone(period, from + 1, last, p);
    }
  }

  /** No tick comes late enough before a short pause, and one always does in a pause
      of at least quiet + period. */
  lemma {:induction false} ClearPause(cfg: Config, period: nat, ts: seq<int>, u: int, last: int, p: int)
    requires Paced(period, ts, last, p) && u <= last
    ensures p - u < cfg.quietMs ==> !Closes(cfg, ts, u)
    ensures p - u >= cfg.quietMs + period && last - u < cfg.quietMs ==> Closes(cfg, ts, u)
  {
    if ts != [] {
      ClearPause(cfg, period, ts[1..], u, ts[0], p);
      PacedEnds(period, ts, last, p);
    }
  }

  lemma {:induction false} PacedEnds(period: nat, ts: seq<int>, last: int, p: int)
    requires Paced(period, ts, last, p)
    ensures last <= p && (ts != [] ==> ts[0] <= p)
  {
    if ts != [] { PacedEnds(period, ts[1..], ts[0], p); }
  }

  /** After a pause of any length all tick lists of period at most T leave the
      classifier in the same state if and only if the pause is not in
      [quiet, quiet + T). */
  lemma PauseExactly(cfg: Config, period: nat, holds: seq<Hold>, pause: nat)
    requires cfg.quietMs >= 1 && period >= 1 && holds != []
    ensures var u := holds[|holds| - 1].up;
      (forall a, b :: Paced(period, a, u, u + pause) && Paced(period, b, u, u + pause) ==>
         Final(cfg, Released(holds), Ticks(a)) == Final(cfg, Released(holds), Ticks(b)))
      <==> !Ambiguous(cfg, period, pause)
  {
    hide Final, Run, Acts, Classify, Emit, Paced, Closes, Ticks, EachMs;
    var u := holds[|holds| - 1].up;
    if Ambiguous(cfg, period, pause) {
      var a, b := EachMs(u, u + cfg.quietMs - 1), EachMs(u, u + cfg.quietMs);
      EachMsPaced(cfg, period, u, u, u + cfg.quietMs - 1, u + pause);
      EachMsPaced(cfg, period, u, u, u + cfg.quietMs, u + pause);
      PauseTicks(cfg, holds, a);
      PauseTicks(cfg, holds, b);
      assert Final(cfg, Released(holds), Ticks(a)) != Final(cfg, Released(holds), Ticks(b));
    } else {
      forall a, b | Paced(period, a, u, u + pause) && Paced(period, b, u, u + pause)
        ensures Final(cfg, Released(holds), Ticks(a)) == Final(cfg, Released(holds), Ticks(b))
      {
        ClearPause(cfg, period, a, u, u, u + pause);
        ClearPause(cfg, period, b, u, u, u + pause);
        PauseTicks(cfg, holds, a);
        PauseTicks(cfg, holds, b);
      }
    }
  }

  lemma {:induction false} RunConcat(cfg: Config, s: Track, a: seq<Event>, b: seq<Event>)
    ensures Acts(Run(cfg, s, a + b)) == Acts(Run(cfg, s, a)) + Acts(Run(cfg, Final(cfg, s, a), b))
    decreases |a|
  {
    hide Answer, After, Emit;
    if a == [] {
      assert a + b == b;
    } else {
      assert (a + b)[0] == a[0] && (a + b)[1..] == a[1..] + b;
      var s' := After(cfg, s, a[0]);
      RunConcat(cfg, s', a[1..], b);
      ActsCons(Answer(cfg, s, a[0]), Run(cfg, s', a[1..] + b));
      ActsCons(Answer(cfg, s, a[0]), Run(cfg, s', a[1..]));
    }
  }
}
