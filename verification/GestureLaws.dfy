/** What presses mean, stated on press and release times alone: which sequences the
    classifier (lib/common/button_gesture.c) answers with which gesture, and what a
    gesture says about the presses before it. */
module GestureLaws {
  import opened Common
  import opened Gesture

  /** Short presses with short pauses between them, all within the window. */
  ghost predicate Sequence(cfg: Config, holds: seq<Hold>) {
    && holds != []
    && (forall i :: 0 <= i < |holds| ==>
          && 0 <= holds[i].up - holds[i].down < cfg.shortMaxMs
          && (cfg.eraseMs > 0 ==> holds[i].up - holds[i].down < cfg.eraseMs))
    && (forall i :: 0 < i < |holds| ==> holds[i].down - holds[i - 1].up < cfg.quietMs)
    && holds[|holds| - 1].up - holds[0].down <= cfg.windowMs
  }

  /** The edges of presses. */
  function EdgesOf(holds: seq<Hold>): seq<Event> {
    if holds == [] then [] else [Press(holds[0].down), Release(holds[0].up)] + EdgesOf(holds[1..])
  }

  /** What is left of the edges after k presses, and the press in progress. */
  function EdgesFrom(holds: seq<Hold>, k: nat, down: bool): seq<Event>
    requires k <= |holds| && (down ==> k < |holds|)
  {
    if down then [Release(holds[k].up)] + EdgesOf(holds[k + 1..]) else EdgesOf(holds[k..])
  }

  lemma {:induction false} FirstEdge(es: seq<Event>, now: int)
    requires Timed(es, now) && Edges(es) != []
    ensures Edges(es)[0].t >= now
    decreases |es|
  {
    EdgesStep(es);
    if es[0].Tick? { FirstEdge(es[1..], es[0].t); }
  }

  lemma {:induction false} NothingFromIdle(cfg: Config, es: seq<Event>)
    requires Edges(es) == []
    ensures Acts(Run(cfg, IDLE, es)) == []
  {
    if es != [] {
      EdgesStep(es);
      NothingFromIdle(cfg, es[1..]);
      ActsCons(Answer(cfg, IDLE, es[0]), Run(cfg, IDLE, es[1..]));
    }
  }

  /** The classifier in the middle of such a sequence. */
  function Middle(holds: seq<Hold>, k: nat, down: bool): Track
    requires k <= |holds| && (down ==> k < |holds|)
  {
    Track(holds[..k], if down then Some(holds[k].down) else None, false)
  }

  lemma {:induction false} FromMiddle(cfg: Config, holds: seq<Hold>, k: nat, down: bool, es: seq<Event>, now: int)
    requires Sequence(cfg, holds) && cfg.quietMs >= 1 && k <= |holds| && (down ==> k < |holds|)
    requires Edges(es) == EdgesFrom(holds, k, down) && Timed(es, now)
    requires es != [] && es[|es| - 1].Tick? && es[|es| - 1].t - holds[|holds| - 1].up >= cfg.quietMs
    ensures Acts(Run(cfg, Middle(holds, k, down), es)) == Emit(Classify(cfg, holds))
    decreases |es|
  {
    hide Classify, Acts, Run, Emit;
    var e, rest, s := es[0], es[1..], Middle(holds, k, down);
    EdgesStep(es);
    if Edges(es) != [] { FirstEdge(es, now); }
    RunCons(cfg, s, es);
    if e.Tick? {
      if down || k < |holds| {
        TickInside(cfg, holds, k, down, e.t, rest);
        FromMiddle(cfg, holds, k, down, rest, e.t);
      } else {
        assert holds[..k] == holds;
        TickAfter(cfg, holds, e.t);
        if e.t - holds[|holds| - 1].up >= cfg.quietMs {
          NothingFromIdle(cfg, rest);
          assert Emit(Classify(cfg, holds)) + [] == Emit(Classify(cfg, holds));
        } else {
          FromMiddle(cfg, holds, k, down, rest, e.t);
        }
      }
    } else {
      EdgeInside(cfg, holds, k, down, e, rest);
      if down {
        FromMiddle(cfg, holds, k + 1, false, rest, e.t);
      } else {
        FromMiddle(cfg, holds, k, true, rest, e.t);
      }
    }
  }

  lemma RunCons(cfg: Config, s: Track, es: seq<Event>)
    requires es != []
    ensures Acts(Run(cfg, s, es)) == Emit(Answer(cfg, s, es[0])) + Acts(Run(cfg, After(cfg, s, es[0]), es[1..]))
  {
    ActsCons(Answer(cfg, s, es[0]), Run(cfg, After(cfg, s, es[0]), es[1..]));
  }

  /** A tick before the last release: nothing. */
  lemma TickInside(cfg: Config, holds: seq<Hold>, k: nat, down: bool, t: int, rest: seq<Event>)
    requires Sequence(cfg, holds) && k < |holds|
    requires Edges(rest) == EdgesFrom(holds, k, down) && Timed(rest, t)
    ensures After(cfg, Middle(holds, k, down), Tick(t)) == Middle(holds, k, down)
    ensures Emit(Answer(cfg, Middle(holds, k, down), Tick(t))) == []
  {
    FirstEdge(rest, t);
    assert Edges(rest)[0].t == if down then holds[k].up else holds[k].down;
    assert k > 0 && !down ==> t - holds[k - 1].up < cfg.quietMs;
  }

  lemma TickAfter(cfg: Config, holds: seq<Hold>, t: int)
    requires holds != []
    ensures var s, closes := Released(holds), t - holds[|holds| - 1].up >= cfg.quietMs;
      && After(cfg, s, Tick(t)) == (if closes then IDLE else s)
      && Emit(Answer(cfg, s, Tick(t))) == if closes then Emit(Classify(cfg, holds)) else []
  {
    hide Classify;
  }

  lemma EdgeInside(cfg: Config, holds: seq<Hold>, k: nat, down: bool, e: Event, rest: seq<Event>)
    requires Sequence(cfg, holds) && k <= |holds| && (down ==> k < |holds|) && EdgesFrom(holds, k, down) != []
    requires e == EdgesFrom(holds, k, down)[0] && Edges(rest) == EdgesFrom(holds, k, down)[1..]
    ensures Emit(Answer(cfg, Middle(holds, k, down), e)) == []
    ensures down ==> After(cfg, Middle(holds, k, down), e) == Middle(holds, k + 1, false)
                     && Edges(rest) == EdgesFrom(holds, k + 1, false)
    ensures !down ==> k < |holds| && After(cfg, Middle(holds, k, down), e) == Middle(holds, k, true)
                      && Edges(rest) == EdgesFrom(holds, k, true)
  {
    if down {
      assert holds[..k] + [holds[k]] == holds[..k + 1];
    } else {
      assert holds[k..][1..] == holds[k + 1..];
    }
  }

  lemma Meaning(cfg: Config, holds: seq<Hold>)
    requires Sequence(cfg, holds)
    ensures Emit(Classify(cfg, holds))
         == if |holds| == cfg.pressCount then [Provision] else if |holds| == cfg.identifyCount then [Identify] else []
  {
  }

  /** A sequence of n presses, with any ticks between them and one after the quiet time:
      provision for the one count, identify for the other, nothing for any other number. */
  lemma SequenceAnswers(cfg: Config, holds: seq<Hold>, es: seq<Event>, now: int)
    requires Sequence(cfg, holds) && cfg.quietMs >= 1
    requires Edges(es) == EdgesOf(holds) && Timed(es, now)
    requires es != [] && es[|es| - 1].Tick? && es[|es| - 1].t - holds[|holds| - 1].up >= cfg.quietMs
    ensures Acts(Run(cfg, IDLE, es))
         == if |holds| == cfg.pressCount then [Provision] else if |holds| == cfg.identifyCount then [Identify] else []
  {
    hide Classify, Acts, Run, Emit, Sequence;
    assert holds[0..] == holds;
    FromMiddle(cfg, holds, 0, false, es, now);
    assert Middle(holds, 0, false) == IDLE;
    Meaning(cfg, holds);
  }

  // ----- what a gesture says about the presses before it -----

  /** Whether the button is down after an event, and whether the event changed that. */
  predicate DownAfter(down: bool, e: Event) { e.Press? || (down && !e.Release?) }

  function Change(down: bool, e: Event): seq<Event> {
    if (e.Press? && !down) || (e.Release? && down) then [e] else []
  }

  /** The edges that change anything: presses and releases in turn. */
  function Heard(down: bool, edges: seq<Event>): seq<Event>
    decreases |edges|
  {
    if edges == [] then [] else Change(down, edges[0]) + Heard(DownAfter(down, edges[0]), edges[1..])
  }

  predicate EndsWith<T(==)>(s: seq<T>, end: seq<T>) { |s| >= |end| && s[|s| - |end|..] == end }

  /** The track's own presses, as edges. */
  function TrackEdges(s: Track): seq<Event> {
    EdgesOf(s.holds) + if s.down.Some? then [Press(s.down.value)] else []
  }

  lemma {:induction false} EdgesOfSnoc(holds: seq<Hold>, h: Hold)
    ensures EdgesOf(holds + [h]) == EdgesOf(holds) + [Press(h.down), Release(h.up)]
  {
    if holds == [] {
      assert [h][1..] == [];
    } else {
      assert (holds + [h])[1..] == holds[1..] + [h];
      EdgesOfSnoc(holds[1..], h);
    }
  }

  lemma {:induction false} FinalSnoc(cfg: Config, s: Track, es: seq<Event>, e: Event)
    ensures Final(cfg, s, es + [e]) == After(cfg, Final(cfg, s, es), e)
    decreases |es|
  {
    hide After;
    if es == [] {
      assert es + [e] == [e] && [e][1..] == [];
    } else {
      assert (es + [e])[0] == es[0] && (es + [e])[1..] == es[1..] + [e];
      FinalSnoc(cfg, After(cfg, s, es[0]), es[1..], e);
    }
  }

  lemma {:induction false} HeardSnoc(down: bool, edges: seq<Event>, e: Event)
    ensures Heard(down, edges + [e]) == Heard(down, edges) + Change(Down(down, edges), e)
    decreases |edges|
  {
    hide Change, DownAfter;
    if edges == [] {
      assert edges + [e] == [e] && [e][1..] == [];
    } else {
      assert (edges + [e])[0] == edges[0] && (edges + [e])[1..] == edges[1..] + [e];
      HeardSnoc(DownAfter(down, edges[0]), edges[1..], e);
    }
  }

  /** Whether the button is down after some edges. */
  function Down(down: bool, edges: seq<Event>): bool
    decreases |edges|
  {
    if edges == [] then down else Down(DownAfter(down, edges[0]), edges[1..])
  }

  lemma {:induction false} DownSnoc(down: bool, edges: seq<Event>, e: Event)
    ensures Down(down, edges + [e]) == DownAfter(Down(down, edges), e)
    decreases |edges|
  {
    if edges == [] {
      assert edges + [e] == [e] && [e][1..] == [];
    } else {
      assert (edges + [e])[0] == edges[0] && (edges + [e])[1..] == edges[1..] + [e];
      DownSnoc(DownAfter(down, edges[0]), edges[1..], e);
    }
  }

  /** No press of a track was held to erase. */
  predicate NoneLong(cfg: Config, s: Track) {
    forall i :: 0 <= i < |s.holds| ==> cfg.eraseMs > 0 ==> s.holds[i].up - s.holds[i].down < cfg.eraseMs
  }

  lemma TrackStep(cfg: Config, s: Track, heard: seq<Event>, e: Event)
    requires EndsWith(heard, TrackEdges(s)) && NoneLong(cfg, s)
    ensures var t, down := After(cfg, s, e), s.down.Some?;
      && EndsWith(heard + Change(down, e), TrackEdges(t)) && NoneLong(cfg, t)
      && DownAfter(down, e) == t.down.Some?
  {
    if e.Release? && s.down.Some? { EdgesOfSnoc(s.holds, Hold(s.down.value, e.t)); }
    assert EdgesOf([]) == [];
  }

  /** At every point of a run the open presses are the last that were heard. */
  lemma {:induction false} TrackIsHeard(cfg: Config, es: seq<Event>)
    ensures var s := Final(cfg, IDLE, es);
      EndsWith(Heard(false, es), TrackEdges(s)) && Down(false, es) == s.down.Some? && NoneLong(cfg, s)
    decreases |es|
  {
    hide After, TrackEdges, EndsWith, NoneLong, Change, DownAfter;
    if es == [] {
      NothingHeard(cfg);
    } else {
      var before, e := es[..|es| - 1], es[|es| - 1];
      assert es == before + [e];
      TrackIsHeard(cfg, before);
      FinalSnoc(cfg, IDLE, before, e);
      DownSnoc(false, before, e);
      HeardSnoc(false, before, e);
      TrackStep(cfg, Final(cfg, IDLE, before), Heard(false, before), e);
    }
  }

  lemma NothingHeard(cfg: Config)
    ensures EndsWith([], TrackEdges(IDLE)) && NoneLong(cfg, IDLE)
  {
  }

  lemma {:induction false} RunAt(cfg: Config, s: Track, es: seq<Event>, i: nat)
    requires i < |es|
    ensures |Run(cfg, s, es)| == |es| && Run(cfg, s, es)[i] == Answer(cfg, Final(cfg, s, es[..i]), es[i])
    decreases |es|
  {
    hide After, Answer;
    if i == 0 {
      assert es[..0] == [];
      if |es| > 1 { RunAt(cfg, After(cfg, s, es[0]), es[1..], 0); }
    } else {
      RunAt(cfg, After(cfg, s, es[0]), es[1..], i - 1);
      assert es[..i][0] == es[0] && es[..i][1..] == es[1..][..i - 1];
    }
  }

  /** Presses that are a pattern, and were the last ones before a tick at time t. */
  ghost predicate ClosedAt(cfg: Config, heard: seq<Event>, holds: seq<Hold>, n: nat, t: int) {
    && |holds| == n > 0 && EndsWith(heard, EdgesOf(holds))
    && (forall i :: 0 <= i < n ==>
          && holds[i].up - holds[i].down < cfg.shortMaxMs
          && (cfg.eraseMs > 0 ==> holds[i].up - holds[i].down < cfg.eraseMs))
    && holds[n - 1].up - holds[0].down <= cfg.windowMs
    && t - holds[n - 1].up >= cfg.quietMs
  }

  /** In any run, provision and identify are answered at a tick after the quiet time of
      exactly as many short presses in the window, the last ones there were; and erase
      exactly at the release of a hold of the erase time. */
  lemma GestureMeans(cfg: Config, es: seq<Event>, i: nat)
    requires i < |es|
    ensures |Run(cfg, IDLE, es)| == |es|
    ensures var out, heard := Run(cfg, IDLE, es)[i], Heard(false, es[..i]);
      && (out == Provision ==> es[i].Tick? && exists holds :: ClosedAt(cfg, heard, holds, cfg.pressCount, es[i].t))
      && (out == Identify ==> es[i].Tick? && exists holds :: ClosedAt(cfg, heard, holds, cfg.identifyCount, es[i].t))
      && (out == Erase <==>
            && es[i].Release? && heard != [] && heard[|heard| - 1].Press?
            && cfg.eraseMs > 0 && es[i].t - heard[|heard| - 1].t >= cfg.eraseMs)
      && (out == EraseArmed ==>
            && es[i].Tick? && heard != [] && heard[|heard| - 1].Press?
            && cfg.eraseMs > 0 && es[i].t - heard[|heard| - 1].t >= cfg.eraseMs)
  {
    RunAt(cfg, IDLE, es, i);
    TrackIsHeard(cfg, es[..i]);
    var s, heard := Final(cfg, IDLE, es[..i]), Heard(false, es[..i]);
    HeardEnds(es[..i]);
    hide Final, Heard, Run;
    if s.down.Some? {
      assert TrackEdges(s)[|TrackEdges(s)| - 1] == Press(s.down.value);
      assert heard[|heard| - 1] == Press(s.down.value);
    } else {
      assert TrackEdges(s) == EdgesOf(s.holds);
      if es[i].Tick? && Answer(cfg, s, es[i]) in [Provision, Identify] {
        assert ClosedAt(cfg, heard, s.holds, |s.holds|, es[i].t);
      }
    }
  }

  function Warnings(outs: seq<Out>): nat {
    if outs == [] then 0 else (if outs[0] == EraseArmed then 1 else 0) + Warnings(outs[1..])
  }

  predicate AnyLate(cfg: Config, ts: seq<int>, d: int) { ts != [] && (ts[0] - d >= cfg.eraseMs || AnyLate(cfg, ts[1..], d)) }

  /** A hold is announced once, at its first tick after the erase time. */
  lemma {:induction false} WarnsOnce(cfg: Config, s: Track, ts: seq<int>)
    requires s.down.Some? && cfg.eraseMs > 0
    ensures Warnings(Run(cfg, s, Ticks(ts))) == if !s.armed && AnyLate(cfg, ts, s.down.value) then 1 else 0
    decreases |ts|
  {
    if ts != [] {
      TicksStep(ts);
      var t := After(cfg, s, Tick(ts[0]));
      WarnsOnce(cfg, t, ts[1..]);
      assert Run(cfg, s, Ticks(ts)) == [Answer(cfg, s, Tick(ts[0]))] + Run(cfg, t, Ticks(ts[1..]));
    }
  }

  /** The last edge heard says whether the button is down. */
  lemma {:induction false} HeardEnds(edges: seq<Event>)
    ensures var h := Heard(false, edges);
      Down(false, edges) <==> h != [] && h[|h| - 1].Press?
    decreases |edges|
  {
    if edges != [] {
      var before, e := edges[..|edges| - 1], edges[|edges| - 1];
      assert edges == before + [e];
      HeardEnds(before);
      DownSnoc(false, before, e);
      HeardSnoc(false, before, e);
    }
  }
}
