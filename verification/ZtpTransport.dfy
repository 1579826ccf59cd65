/** Reassembly of what the relay writes (ztp.c). The Bluetooth thread fills the
    buffer and the main thread empties it; rxBusy hands it over. Every method is
    one atomic step, so an interleaving is a sequence of them. */
module ZtpTransport {
  import opened Common
  import opened ZtpFraming

  datatype Msg = Kick | Response | Overflow | Button

  /** What the main thread is doing. */
  datatype Phase = Waiting | Handling(m: Msg) | Releasing

  /** The link, in terms of the pieces of the current fragment and the payloads of
      the fragments accepted since the last message, disconnect or release. */
  datatype Link = Link(
    frag: Bytes, payloads: seq<Bytes>, busy: bool, tail: bool, queue: seq<Msg>, main: Phase)

  const START: Link := Link([], [], false, false, [], Waiting)

  const QUEUE: nat := 4

  datatype WriteResult = Taken(n: nat) | InvalidOffset | InvalidLength

  datatype Event =
    | Write(data: Bytes, offset: nat, prepare: bool)
    | Tail           // the rest of a write, after its terminator was posted
    | Disconnect
    | Press          // the button thread
    | Receive | Reset | Clear   // the main thread: take a message, release it in two steps

  function Post(queue: seq<Msg>, m: Msg): seq<Msg> {
    if |queue| < QUEUE then queue + [m] else queue
  }

  /** What a completed message means to the main thread. */
  function Kind(rx: nat, payloads: seq<Bytes>): Msg {
    if payloads == [] then Kick
    else if |Flatten(payloads)| > rx then Overflow
    else Response
  }

  function AfterFragment(rx: nat, s: Link): Link
    requires Whole(s.frag)
  {
    if FromBe16(s.frag) == 0 then
      s.(busy := true, tail := true, queue := Post(s.queue, Kind(rx, s.payloads)))
    else
      s.(payloads := s.payloads + [s.frag[2..2 + FromBe16(s.frag)]], frag := [])
  }

  /** The two threads: the Bluetooth thread finishes a write before anything else. */
  predicate Enabled(s: Link, e: Event) {
    match e
    case Write(_, _, _) => !s.tail
    case Tail => s.tail
    case Disconnect => !s.tail
    case Press => true
    case Receive => s.main.Waiting? && s.queue != []
    case Reset => s.main.Handling?
    case Clear => s.main.Releasing?
  }

  function Next(rx: nat, s: Link, e: Event): Link {
    match e
    case Write(data, offset, prepare) =>
      if prepare || s.busy then s
      else
        var have := if offset == 0 then [] else s.frag;
        if offset != |have| then s
        else if |have| + |data| > 2 + FRAG_MAX then s.(frag := have)
        else
          var t := s.(frag := have + data);
          if Whole(t.frag) then AfterFragment(rx, t) else t
    case Tail => s.(tail := false, frag := [])
    case Disconnect => if s.busy then s else s.(frag := [], payloads := [])
    case Press => s.(queue := Post(s.queue, Button))
    case Receive =>
      if s.queue == [] then s
      else s.(queue := s.queue[1..], main := if s.queue[0].Button? then Waiting else Handling(s.queue[0]))
    case Reset => s.(frag := [], payloads := [], main := Releasing)
    case Clear => s.(busy := false, main := Waiting)
  }

  // ----- the buffer -----

  /** What the buffer holds: a payload that does not fit is left out. */
  function Held(rx: nat, payloads: seq<Bytes>): Bytes
    decreases |payloads|
  {
    if payloads == [] then []
    else
      var before, p := Held(rx, payloads[..|payloads| - 1]), payloads[|payloads| - 1];
      if |before| + |p| > rx then before else before + p
  }

  predicate Dropped(rx: nat, payloads: seq<Bytes>)
    decreases |payloads|
  {
    payloads != []
    && (Dropped(rx, payloads[..|payloads| - 1])
        || |Held(rx, payloads[..|payloads| - 1])| + |payloads[|payloads| - 1]| > rx)
  }

  /** A payload was left out exactly when they do not all fit; otherwise the buffer
      is their concatenation. It is empty only before the first one. */
  lemma {:induction false} HeldIs(rx: nat, payloads: seq<Bytes>)
    requires rx >= FRAG_MAX
    requires forall i :: 0 <= i < |payloads| ==> 0 < |payloads[i]| <= FRAG_MAX
    ensures Dropped(rx, payloads) <==> |Flatten(payloads)| > rx
    ensures !Dropped(rx, payloads) ==> Held(rx, payloads) == Flatten(payloads)
    ensures |Held(rx, payloads)| <= rx && |Held(rx, payloads)| <= |Flatten(payloads)|
    ensures Held(rx, payloads) == [] <==> payloads == []
    decreases |payloads|
  {
    if payloads != [] {
      var before, p := payloads[..|payloads| - 1], payloads[|payloads| - 1];
      assert payloads == before + [p];
      HeldIs(rx, before);
      FlattenSnoc(before, p);
    }
  }

  class Transport {
    const rxBuf: array<byte>
    var rxLen: nat
    var rxOverflow: bool
    var rxBusy: bool
    const frag: array<byte>
    var fragHave: nat
    var queue: seq<Msg>
    ghost var payloads: seq<Bytes>
    ghost var tail: bool
    ghost var main: Phase

    constructor (rx: nat)
      requires rx >= FRAG_MAX
      ensures Valid() && State() == START && rxBuf.Length == rx && fresh(rxBuf) && fresh(frag)
    {
      rxBuf := new byte[rx](_ => 0);
      frag := new byte[2 + FRAG_MAX](_ => 0);
      rxLen, rxOverflow, rxBusy, fragHave, queue := 0, false, false, 0, [];
      payloads, tail, main := [], false, Waiting;
    }

    ghost predicate Valid()
      reads this, rxBuf
    {
      && rxBuf != frag
      && frag.Length == 2 + FRAG_MAX && fragHave <= frag.Length
      && rxBuf.Length >= FRAG_MAX && rxLen <= rxBuf.Length
      && (forall i :: 0 <= i < |payloads| ==> 0 < |payloads[i]| <= FRAG_MAX)
      && rxBuf[..rxLen] == Held(rxBuf.Length, payloads)
      && rxOverflow == Dropped(rxBuf.Length, payloads)
    }

    ghost function State(): Link
      requires fragHave <= frag.Length
      reads this, frag
    {
      Link(frag[..fragHave], payloads, rxBusy, tail, queue, main)
    }

    method PutMessage(m: Msg)
      modifies this`queue
      ensures queue == Post(old(queue), m)
    {
      if |queue| < QUEUE { queue := queue + [m]; }
    }

    /** rx_reset: forget a message. */
    method RxReset()
      requires Valid()
      modifies this`rxLen, this`rxOverflow, this`fragHave, this`payloads
      ensures Valid() && State() == old(State()).(frag := [], payloads := [])
    {
      rxLen := 0;
      rxOverflow := false;
      fragHave := 0;
      payloads := [];
    }

    /** Keep a payload, or note that the message is too large. */
    method Append(p: Bytes)
      requires Valid() && 0 < |p| <= FRAG_MAX
      modifies this`rxLen, this`rxOverflow, this`payloads, rxBuf
      ensures Valid() && payloads == old(payloads) + [p]
    {
      ghost var was := payloads;
      payloads := payloads + [p];
      assert payloads[..|was|] == was;
      if rxLen + |p| > rxBuf.Length {
        rxOverflow := true; // refused when the message ends
        return;
      }
      MemCpy(rxBuf, rxLen, p);
      rxLen := rxLen + |p|;
    }

    /** The terminator: hand the message to the main thread. */
    method EndMessage()
      requires Valid()
      modifies this`rxBusy, this`queue, this`tail
      ensures Valid() && rxBusy && tail
      ensures queue == Post(old(queue), Kind(rxBuf.Length, payloads))
    {
      HeldIs(rxBuf.Length, payloads);
      rxBusy := true;
      tail := true;
      PutMessage(if rxLen == 0 then Kick else if rxOverflow then Overflow else Response);
    }

    /** rx_fragment: one whole fragment is in frag. */
    method RxFragment()
      requires Valid() && Whole(frag[..fragHave])
      modifies this`rxLen, this`rxOverflow, this`rxBusy, this`queue, this`payloads, this`tail, rxBuf
      ensures Valid()
      ensures FromBe16(frag[..fragHave]) == 0 ==>
          rxBusy && tail && payloads == old(payloads)
          && queue == Post(old(queue), Kind(rxBuf.Length, payloads))
      ensures FromBe16(frag[..fragHave]) != 0 ==>
          payloads == old(payloads) + [frag[..fragHave][2..2 + FromBe16(frag[..fragHave])]]
          && rxBusy == old(rxBusy) && tail == old(tail) && queue == old(queue)
    {
      hide Held, Dropped, Flatten, Kind, FromBe16;
      var n := FromBe16(frag[..fragHave]);
      if n == 0 {
        EndMessage();
      } else {
        Append(frag[..fragHave][2..2 + n]);
      }
    }

    /** One piece of a fragment. */
    method AddPiece(data: Bytes, offset: nat) returns (r: WriteResult)
      requires Valid()
      modifies this`fragHave, frag
      ensures Valid()
      ensures var have := if offset == 0 then [] else old(frag[..fragHave]);
        r == (if offset != |have| then InvalidOffset
              else if |have| + |data| > 2 + FRAG_MAX then InvalidLength
              else Taken(|data|))
        && frag[..fragHave] == (if r.Taken? then have + data else if offset == 0 then [] else old(frag[..fragHave]))
    {
      hide Held, Dropped;
      if offset == 0 {
        fragHave := 0;
      } else if offset != fragHave {
        return InvalidOffset;
      }
      if fragHave + |data| > frag.Length { return InvalidLength; }
      MemCpy(frag, fragHave, data);
      fragHave := fragHave + |data|;
      r := Taken(|data|);
    }

    /** write_request, up to the point where a terminator has been posted. */
    method WriteRequest(data: Bytes, offset: nat, prepare: bool) returns (r: WriteResult)
      requires Valid() && !tail
      modifies this`rxLen, this`rxOverflow, this`rxBusy, this`fragHave, this`queue,
               this`payloads, this`tail, rxBuf, frag
      ensures Valid()
      ensures State() == Next(rxBuf.Length, old(State()), Write(data, offset, prepare))
      ensures r.InvalidOffset? <==> !prepare && !old(rxBusy) && offset != 0 && offset != old(fragHave)
    {
      hide Held, Dropped, Flatten, Kind, FromBe16, AfterFragment, Whole;
      if prepare { return Taken(0); }
      if rxBusy { return Taken(|data|); }
      r := AddPiece(data, offset);
      if !r.Taken? { return; }
      CheckFragment();
    }

    /** A whole fragment is handed on and makes room for the next. */
    method CheckFragment()
      requires Valid() && !tail && !rxBusy
      modifies this`rxLen, this`rxOverflow, this`rxBusy, this`fragHave, this`queue,
               this`payloads, this`tail, rxBuf
      ensures Valid()
      ensures State() == if Whole(old(frag[..fragHave])) then AfterFragment(rxBuf.Length, old(State()))
                         else old(State())
    {
      hide Held, Dropped, Flatten, Kind, FromBe16;
      if fragHave >= 2 && fragHave >= 2 + FromBe16(frag[..fragHave]) {
        RxFragment();
        if !rxBusy { fragHave := 0; }
      }
    }

    /** The end of a write whose terminator was posted. */
    method FinishWrite()
      requires Valid() && tail
      modifies this`fragHave, this`tail
      ensures Valid() && State() == Next(rxBuf.Length, old(State()), Tail)
    {
      fragHave := 0;
      tail := false;
    }

    method OnDisconnected()
      requires Valid() && !tail
      modifies this`rxLen, this`rxOverflow, this`fragHave, this`payloads
      ensures Valid() && State() == Next(rxBuf.Length, old(State()), Event.Disconnect)
    {
      if !rxBusy { RxReset(); }
    }

    method OnButton()
      requires Valid()
      modifies this`queue
      ensures Valid() && State() == Next(rxBuf.Length, old(State()), Press)
    {
      PutMessage(Button);
    }

    /** The main thread takes the next message. */
    method TakeMessage() returns (m: Msg)
      requires Valid() && queue != [] && main.Waiting?
      modifies this`queue, this`main
      ensures Valid() && m == old(queue[0]) && State() == Next(rxBuf.Length, old(State()), Receive)
    {
      m := queue[0];
      queue := queue[1..];
      if m != Button { main := Handling(m); }
    }

    /** What the main thread parses as the server's response. */
    method ResponseBytes() returns (data: Bytes)
      requires Valid() && Inv(rxBuf.Length, State()) && main == Handling(Response)
      ensures data == Flatten(payloads) && 0 < |data| <= rxBuf.Length
    {
      HeldIs(rxBuf.Length, payloads);
      return rxBuf[..rxLen];
    }

    /** release_rx: forget the message, then let the relay write again. */
    method ReleaseReset()
      requires Valid() && main.Handling?
      modifies this`rxLen, this`rxOverflow, this`fragHave, this`payloads, this`main
      ensures Valid() && State() == Next(rxBuf.Length, old(State()), Reset)
    {
      RxReset();
      main := Releasing;
    }

    method ReleaseClear()
      requires Valid() && main.Releasing?
      modifies this`rxBusy, this`main
      ensures Valid() && State() == Next(rxBuf.Length, old(State()), Clear)
    {
      rxBusy := false;
      main := Waiting;
    }
  }

  // ----- every interleaving -----

  function Received(queue: seq<Msg>): nat {
    if queue == [] then 0
    else (if queue[0].Button? then 0 else 1) + Received(queue[1..])
  }

  /** Received messages nobody has finished with. */
  function Outstanding(s: Link): nat {
    Received(s.queue) + (if s.main.Waiting? then 0 else 1)
  }

  ghost predicate Inv(rx: nat, s: Link) {
    && (forall i :: 0 <= i < |s.payloads| ==> 0 < |s.payloads[i]| <= FRAG_MAX)
    && Outstanding(s) <= (if s.busy then 1 else 0)
    && (forall i :: 0 <= i < |s.queue| && !s.queue[i].Button? ==> s.queue[i] == Kind(rx, s.payloads))
    && (s.main.Handling? ==> s.main.m == Kind(rx, s.payloads))
    && (s.main.Releasing? ==> s.payloads == [] && s.frag == [])
    && |s.frag| <= 2 + FRAG_MAX
    && |s.queue| <= QUEUE
  }

  lemma {:induction false} ReceivedSnoc(q: seq<Msg>, m: Msg)
    ensures Received(q + [m]) == Received(q) + (if m.Button? then 0 else 1)
  {
    if q == [] {
      assert [m][1..] == [];
    } else {
      assert (q + [m])[1..] == q[1..] + [m];
      ReceivedSnoc(q[1..], m);
    }
  }

  lemma {:induction false} OnlyButtons(q: seq<Msg>)
    requires Received(q) == 0
    ensures forall i :: 0 <= i < |q| ==> q[i].Button?
  {
    if q != [] {
      OnlyButtons(q[1..]);
      assert forall i :: 0 < i < |q| ==> q[i] == q[1..][i - 1];
    }
  }

  /** At most one received message is outstanding, and it says what the accepted
      payloads amount to. */
  lemma StepInv(rx: nat, s: Link, e: Event)
    requires Inv(rx, s) && Enabled(s, e)
    ensures Inv(rx, Next(rx, s, e))
  {
    hide Kind, Flatten, FromBe16;
    if Received(s.queue) == 0 { OnlyButtons(s.queue); }
    match e
    case Write(data, offset, prepare) =>
      ReceivedSnoc(s.queue, Kind(rx, s.payloads));
    case Press => ReceivedSnoc(s.queue, Button);
    case Tail =>
    case Disconnect =>
    case Receive =>
    case Reset =>
    case Clear =>
  }

  function Run(rx: nat, s: Link, es: seq<Event>): Link
    decreases |es|
  {
    if es == [] then s else Run(rx, Next(rx, s, es[0]), es[1..])
  }

  ghost predicate Schedule(rx: nat, s: Link, es: seq<Event>)
    decreases |es|
  {
    es == [] || (Enabled(s, es[0]) && Schedule(rx, Next(rx, s, es[0]), es[1..]))
  }

  /** In every run at most one received message is outstanding, and while the main
      thread handles a response there is one, and it fits the buffer. */
  lemma {:induction false} RunInv(rx: nat, s: Link, es: seq<Event>)
    requires Inv(rx, s) && Schedule(rx, s, es)
    ensures var t := Run(rx, s, es);
      && Inv(rx, t) && Outstanding(t) <= 1
      && (t.main == Handling(Response) ==> t.busy && 0 < |Flatten(t.payloads)| <= rx)
    decreases |es|
  {
    if es == [] {
      if s.payloads != [] { assert Flatten(s.payloads) == s.payloads[0] + Flatten(s.payloads[1..]); }
    } else {
      StepInv(rx, s, es[0]);
      RunInv(rx, Next(rx, s, es[0]), es[1..]);
    }
  }

  // ----- one message of the relay -----

  function Head(data: Bytes, size: nat): Bytes
    requires 0 < size <= FRAG_MAX
  {
    Frames(data, size)[0]
  }

  /** The writes among the events carry the rest of a message: what is left of the
      current fragment after sofar, then the fragments of the remaining data, each
      in any number of pieces. The last event completes the terminator. */
  ghost predicate Carries(es: seq<Event>, sofar: Bytes, data: Bytes, size: nat)
    requires 0 < size <= FRAG_MAX
    decreases |es|
  {
    es != []
    && match es[0]
       case Write(d, offset, prepare) =>
         if prepare then Carries(es[1..], sofar, data, size)
         else
           offset == |sofar| && sofar + d <= Head(data, size)
           && if sofar + d != Head(data, size) then Carries(es[1..], sofar + d, data, size)
              else if data == [] then |es| == 1
              else Carries(es[1..], [], data[Min(size, |data|)..], size)
       case Disconnect => false
       case _ => Carries(es[1..], sofar, data, size)
  }

  predicate Suffix(x: Bytes, data: Bytes) { |x| <= |data| && x == data[|data| - |x|..] }

  /** The start of a fragment is not yet a whole one. */
  lemma NotWhole(b: Bytes, data: Bytes, size: nat)
    requires 0 < size <= FRAG_MAX && b <= Head(data, size) && b != Head(data, size)
    ensures !Whole(b) && |b| < |Head(data, size)| <= size + 2
  {
    if data != [] { FrameReads(data[..Min(size, |data|)]); }
    if |b| >= 2 { assert FromBe16(b) == FromBe16(Head(data, size)); }
  }

  lemma WholeHead(data: Bytes, size: nat)
    requires 0 < size <= FRAG_MAX
    ensures Whole(Head(data, size)) && |Head(data, size)| <= size + 2
    ensures data == [] ==> FromBe16(Head(data, size)) == 0
    ensures data != [] ==>
        var n := Min(size, |data|);
        FromBe16(Head(data, size)) == n && Head(data, size)[2..2 + n] == data[..n]
  {
    if data != [] { FrameReads(data[..Min(size, |data|)]); }
  }

  /** One accepted piece. */
  lemma AcceptPiece(rx: nat, s: Link, d: Bytes, sofar: Bytes, data: Bytes, size: nat)
    requires 0 < size <= FRAG_MAX && !s.busy && !s.tail && (sofar != [] ==> s.frag == sofar)
    requires sofar + d <= Head(data, size)
    ensures var t := Next(rx, s, Write(d, |sofar|, false));
      if sofar + d != Head(data, size) then t == s.(frag := sofar + d)
      else if data != [] then t == s.(frag := [], payloads := s.payloads + [data[..Min(size, |data|)]])
      else t == s.(frag := TERMINATOR, busy := true, tail := true, queue := Post(s.queue, Kind(rx, s.payloads)))
  {
    hide Kind, FromBe16, Whole;
    if sofar + d != Head(data, size) { NotWhole(sofar + d, data, size); } else { WholeHead(data, size); }
  }

  /** A message whose first write comes while nothing is outstanding is taken
      whole, whatever the other thread does meanwhile. */
  lemma {:induction false} Accepted(rx: nat, s: Link, es: seq<Event>, sofar: Bytes, data: Bytes, size: nat)
    requires 0 < size <= FRAG_MAX && Inv(rx, s) && Schedule(rx, s, es)
    requires !s.busy && (sofar != [] ==> s.frag == sofar && !s.tail)
    requires Carries(es, sofar, data, size)
    ensures var t := Run(rx, s, es);
      && t.busy && t.tail && t.payloads == s.payloads + Chunks(data, size)
      && (if Outstanding(t) == 1 then t.queue != [] && t.queue[|t.queue| - 1] == Kind(rx, t.payloads)
          else |t.queue| == QUEUE)
    decreases |es|
  {
    hide Kind, FromBe16, Whole, Head, Received, Chunks;
    var e, next := es[0], Next(rx, s, es[0]);
    StepInv(rx, s, e);
    if e.Write? && !e.prepare {
      AcceptPiece(rx, s, e.data, sofar, data, size);
      if sofar + e.data != Head(data, size) {
        Accepted(rx, next, es[1..], sofar + e.data, data, size);
      } else if data == [] {
        assert es[1..] == [];
        ReceivedSnoc(s.queue, Kind(rx, s.payloads));
        ChunksStep(s.payloads, data, size);
        KindIsReceived(rx, s.payloads);
      } else {
        Accepted(rx, next, es[1..], [], data[Min(size, |data|)..], size);
        ChunksStep(s.payloads, data, size);
      }
    } else {
      NoMain(s);
      Accepted(rx, next, es[1..], sofar, data, size);
    }
  }

  lemma KindIsReceived(rx: nat, payloads: seq<Bytes>)
    ensures !Kind(rx, payloads).Button?
  {
  }

  /** Nothing outstanding: the main thread waits, and only button presses are queued. */
  lemma NoMain(s: Link)
    requires Outstanding(s) == 0
    ensures s.main.Waiting? && (s.queue != [] ==> s.queue[0].Button?)
  {
  }

  lemma ChunksStep(before: seq<Bytes>, data: Bytes, size: nat)
    requires size > 0
    ensures data == [] ==> before + Chunks(data, size) == before
    ensures data != [] ==>
        before + [data[..Min(size, |data|)]] + Chunks(data[Min(size, |data|)..], size)
        == before + Chunks(data, size)
  {
  }

  /** While a message is outstanding, writes are taken and dropped. What comes
      through, if the terminator does, is an end of the message; and if part of
      the current fragment is lost, not all of it. */
  lemma {:induction false} Lost(rx: nat, s: Link, es: seq<Event>, sofar: Bytes, data: Bytes, size: nat)
    requires 0 < size <= FRAG_MAX && Inv(rx, s) && Schedule(rx, s, es)
    requires s.busy || (s.payloads == [] && s.frag == [] && sofar != [])
    requires sofar != [] ==> !s.tail
    requires Carries(es, sofar, data, size)
    ensures var t := Run(rx, s, es);
      && (t.busy || t.payloads == [])
      && (t.tail ==> t.busy && Suffix(Flatten(t.payloads), data)
                     && (sofar != [] ==> |Flatten(t.payloads)| < |data|))
    decreases |es|
  {
    hide Kind, FromBe16, Whole, Head, Received, Chunks, Flatten, Suffix;
    var e, next := es[0], Next(rx, s, es[0]);
    var n := Min(size, |data|);
    StepInv(rx, s, e);
    if e.Write? && !e.prepare {
      assert next == s;
      if sofar + e.data != Head(data, size) {
        if sofar + e.data == [] {
          Lost(rx, s, es[1..], [], data, size);
        } else {
          Lost(rx, s, es[1..], sofar + e.data, data, size);
        }
      } else if data == [] {
        assert es[1..] == [];
      } else {
        if s.busy {
          Lost(rx, s, es[1..], [], data[n..], size);
        } else {
          Accepted(rx, s, es[1..], [], data[n..], size);
          TakenWhole(s.payloads, data[n..], size);
        }
        SuffixOfRest(Flatten(Run(rx, s, es).payloads), data, n);
      }
    } else if e.Clear? && sofar == [] {
      Accepted(rx, next, es[1..], [], data, size);
      TakenWhole([], data, size);
    } else {
      if !s.busy { NoMain(s); }
      Lost(rx, next, es[1..], sofar, data, size);
    }
  }

  lemma TakenWhole(before: seq<Bytes>, data: Bytes, size: nat)
    requires before == [] && 0 < size <= FRAG_MAX
    ensures Flatten(before + Chunks(data, size)) == data && Suffix(data, data)
  {
    assert before + Chunks(data, size) == Chunks(data, size);
    ChunksJoin(data, size);
  }

  lemma SuffixOfRest(x: Bytes, data: Bytes, n: nat)
    requires 0 < n <= |data|
    ensures Suffix(x, data[n..]) ==> Suffix(x, data) && |x| < |data|
  {
  }

  /** What one message of the relay becomes, from every state of the link, under
      every interleaving with the main thread and the button, and however its
      fragments are split into pieces. If nothing is outstanding at its first write,
      it is taken whole, behind whatever payloads an abandoned message left, and the
      main thread is told what both together amount to. Otherwise at most a shorter
      end of it comes through. So, once its terminator is accepted, the payloads are
      the message exactly when nothing was outstanding and nothing was left over. */
  lemma MessageExact(rx: nat, s: Link, es: seq<Event>, data: Bytes, size: nat)
    requires 0 < size <= FRAG_MAX && Inv(rx, s) && Schedule(rx, s, es)
    requires Carries(es, [], data, size) && es[0].Write? && !es[0].prepare && es[0].data != []
    ensures var t := Run(rx, s, es);
      && (!s.busy ==> t.tail && t.busy && Flatten(t.payloads) == Flatten(s.payloads) + data)
      && (t.tail ==> (Flatten(t.payloads) == data <==> !s.busy && s.payloads == []))
      && (t.tail && s.busy ==> Suffix(Flatten(t.payloads), data) && |Flatten(t.payloads)| < |data|)
      && (!s.busy ==>
            if Outstanding(t) == 1 then
              t.queue != [] && t.queue[|t.queue| - 1] == MeaningOf(rx, Flatten(s.payloads) + data)
            else |t.queue| == QUEUE)
      && (t.busy || t.payloads == [])
  {
    var t := Run(rx, s, es);
    if !s.busy {
      Accepted(rx, s, es, [], data, size);
      ChunksJoin(data, size);
      FlattenConcat(s.payloads, Chunks(data, size));
      RunInv(rx, s, es);
      KindIsMeaning(rx, s.payloads);
      KindIsMeaning(rx, t.payloads);
    } else {
      var d, n := es[0].data, Min(size, |data|);
      hide Kind, FromBe16, Whole, Received, Chunks, Flatten;
      assert Next(rx, s, es[0]) == s && [] + d == d;
      if d != Head(data, size) {
        Lost(rx, s, es[1..], d, data, size);
      } else if data != [] {
        Lost(rx, s, es[1..], [], data[n..], size);
        SuffixOfRest(Flatten(t.payloads), data, n);
      }
    }
  }

  /** What the main thread is told about octets received as one message. */
  function MeaningOf(rx: nat, data: Bytes): Msg {
    if data == [] then Kick else if |data| > rx then Overflow else Response
  }

  lemma KindIsMeaning(rx: nat, payloads: seq<Bytes>)
    requires forall i :: 0 <= i < |payloads| ==> 0 < |payloads[i]| <= FRAG_MAX
    ensures Kind(rx, payloads) == MeaningOf(rx, Flatten(payloads))
    ensures Flatten(payloads) == [] <==> payloads == []
  {
    if payloads != [] { assert Flatten(payloads) == payloads[0] + Flatten(payloads[1..]); }
  }

  /** A disconnect forgets a half-received message: whatever fragment and payloads the
      old connection left, the next message comes through as it is. */
  lemma AfterDisconnect(rx: nat, s: Link, es: seq<Event>, data: Bytes, size: nat)
    requires 0 < size <= FRAG_MAX && Inv(rx, s) && !s.busy && !s.tail
    requires Schedule(rx, s, [Disconnect] + es) && Carries(es, [], data, size)
    ensures var t := Run(rx, s, [Disconnect] + es);
      && t.tail && t.busy && Flatten(t.payloads) == data
      && (if Outstanding(t) == 1 then t.queue != [] && t.queue[|t.queue| - 1] == MeaningOf(rx, data)
          else |t.queue| == QUEUE)
  {
    var all := [Disconnect] + es;
    assert all[0] == Disconnect && all[1..] == es;
    var next := Next(rx, s, Disconnect);
    hide Next, Kind, MeaningOf, Chunks;
    StepInv(rx, s, Disconnect);
    Forgets(rx, s);
    Accepted(rx, next, es, [], data, size);
    ChunksJoin(data, size);
    RunInv(rx, next, es);
    assert [] + Chunks(data, size) == Chunks(data, size);
    KindIsMeaning(rx, Run(rx, next, es).payloads);
  }

  lemma Forgets(rx: nat, s: Link)
    requires !s.busy
    ensures Next(rx, s, Disconnect).payloads == [] && !Next(rx, s, Disconnect).busy
  {
  }

  /** A disconnect while a message is outstanding changes nothing that follows. */
  lemma DisconnectWhileBusy(rx: nat, s: Link, es: seq<Event>)
    requires s.busy
    ensures Run(rx, s, [Disconnect] + es) == Run(rx, s, es)
  {
    var all := [Disconnect] + es;
    assert all[0] == Disconnect && all[1..] == es;
  }

  /** Writes that are refused change nothing that follows: prepared ones, ones at an
      offset that is neither the start nor the held length, and pieces that would exceed
      the longest fragment behind what is held. Too long a first piece drops what is held;
      any other is kept. */
  lemma RefusedWrite(rx: nat, s: Link, d: Bytes, offset: nat, prepare: bool, es: seq<Event>)
    ensures var all := [Write(d, offset, prepare)] + es;
      && (prepare || s.busy || (offset != 0 && (offset != |s.frag| || |s.frag| + |d| > 514)) ==>
            Run(rx, s, all) == Run(rx, s, es))
      && (!prepare && !s.busy && offset == 0 && |d| > 514 ==> Run(rx, s, all) == Run(rx, s.(frag := []), es))
      && (var have := if offset == 0 then [] else s.frag;
          !prepare && !s.busy && offset == |have| && |have| + |d| <= 514 && !Whole(have + d) ==>
            Run(rx, s, all) == Run(rx, s.(frag := have + d), es))
  {
    var all := [Write(d, offset, prepare)] + es;
    assert all[0] == Write(d, offset, prepare) && all[1..] == es;
  }

  // ----- runs from the start that go wrong -----

  lemma OneMore(rx: nat, s: Link, e: Event, es: seq<Event>)
    requires Enabled(s, e) && Schedule(rx, Next(rx, s, e), es)
    ensures Schedule(rx, s, [e] + es) && Run(rx, s, [e] + es) == Run(rx, Next(rx, s, e), es)
  {
    assert ([e] + es)[0] == e && ([e] + es)[1..] == es;
  }

  /** A one-octet fragment, and the terminator, written in one piece while nothing
      is outstanding. */
  lemma WriteOne(rx: nat, s: Link, b: byte)
    requires !s.busy && !s.tail
    ensures Enabled(s, Write([0, 1, b], 0, false))
    ensures Next(rx, s, Write([0, 1, b], 0, false)) == s.(frag := [], payloads := s.payloads + [[b]])
  {
    var f: Bytes := [0, 1, b];
    assert [] + f == f && Whole(f) && FromBe16(f) == 1 && f[2..3] == [b];
  }

  lemma WriteEnd(rx: nat, s: Link)
    requires !s.busy && !s.tail
    ensures Enabled(s, Write(TERMINATOR, 0, false))
    ensures Next(rx, s, Write(TERMINATOR, 0, false))
         == s.(frag := TERMINATOR, busy := true, tail := true, queue := Post(s.queue, Kind(rx, s.payloads)))
  {
    var f := TERMINATOR;
    assert [] + f == f && Whole(f) && FromBe16(f) == 0;
  }

  /** A relay that abandons a message and begins another on the same connection: the
      abandoned fragment is received as the beginning of the second message. */
  lemma LeftoverJoins(rx: nat)
    requires rx >= FRAG_MAX
    ensures var first, es := Write([0, 1, 7], 0, false), [Write([0, 1, 9], 0, false), Write(TERMINATOR, 0, false)];
      var s := Next(rx, START, first);
      && Enabled(START, first) && !s.busy && Outstanding(s) == 0
      && Schedule(rx, s, es) && Carries(es, [], [9], 1)
      && Run(rx, s, es) == Link(TERMINATOR, [[7], [9]], true, true, [Response], Waiting)
  {
    var w, end := Write([0, 1, 9], 0, false), Write(TERMINATOR, 0, false);
    WriteOne(rx, START, 7);
    var s := Next(rx, START, Write([0, 1, 7], 0, false));
    assert [] + [[7]] == [[7]] && [[7]] + [[9]] == [[7], [9]];
    WriteOne(rx, s, 9);
    var u := Next(rx, s, w);
    WriteEnd(rx, u);
    KindOfTwo(rx);
    OneMore(rx, u, end, []);
    OneMore(rx, s, w, [end]);
    assert [w] + [end] == [w, end] && [end] + [] == [end];
    CarriesOne([w, end]);
  }

  lemma KindOfTwo(rx: nat)
    requires rx >= FRAG_MAX
    ensures Kind(rx, [[7], [9]]) == Response && Kind(rx, [[9]]) == Response && Kind(rx, []) == Kick
  {
    assert Flatten<byte>([[7], [9]]) == [7] + Flatten<byte>([[9]]) && Flatten<byte>([[9]]) == [9] + Flatten<byte>([]);
  }

  lemma CarriesOne(es: seq<Event>)
    requires es == [Write([0, 1, 9], 0, false), Write(TERMINATOR, 0, false)]
    ensures Carries(es, [], [9], 1)
  {
    var one: Bytes := [9];
    assert one[..1] == one && one[1..] == [];
    assert Head(one, 1) == [0, 1, 9] && Head([], 1) == TERMINATOR;
    assert [Write(TERMINATOR, 0, false)][1..] == [] && es[1..] == [Write(TERMINATOR, 0, false)];
    assert Carries(es[1..], [], [], 1);
  }

  /** The main thread has been handed a kick. */
  const KICKED: Link := Link([], [], true, false, [], Handling(Kick))

  lemma KickFromStart(rx: nat)
    ensures var es := [Write(TERMINATOR, 0, false), Tail, Receive];
      Schedule(rx, START, es) && Run(rx, START, es) == KICKED
  {
    var w := Write(TERMINATOR, 0, false);
    WriteEnd(rx, START);
    assert Kind(rx, []) == Kick;
    var s1 := Next(rx, START, w);
    assert [] + [Kick] == [Kick] && [Kick][1..] == [];
    var s2 := Next(rx, s1, Tail);
    OneMore(rx, s2, Receive, []);
    OneMore(rx, s1, Tail, [Receive]);
    OneMore(rx, START, w, [Tail, Receive]);
    assert [Tail] + [Receive] == [Tail, Receive] && [w] + [Tail, Receive] == [w, Tail, Receive];
    assert [Receive] + [] == [Receive];
  }

  /** The end of a message can be taken for a message: the relay sends a two-byte
      response in one-byte fragments while the device still works on a kick, and
      the device is released after the first one. */
  lemma EndTakenForMessage(rx: nat)
    requires rx >= FRAG_MAX
    ensures var es := [Write([0, 1, 7], 0, false), Reset, Clear, Write([0, 1, 9], 0, false), Write([0, 0], 0, false)];
      && Run(rx, START, [Write(TERMINATOR, 0, false), Tail, Receive]) == KICKED
      && Schedule(rx, KICKED, es) && Carries(es, [], [7, 9], 1)
      && Run(rx, KICKED, es) == Link([0, 0], [[9]], true, true, [Response], Waiting)
  {
    KickFromStart(rx);
    var w1, w2, w3 := Write([0, 1, 7], 0, false), Write([0, 1, 9], 0, false), Write([0, 0], 0, false);
    var es := [w1, Reset, Clear, w2, w3];
    var r := KICKED.(main := Releasing);
    assert Next(rx, KICKED, w1) == KICKED && Next(rx, KICKED, Reset) == r && Next(rx, r, Clear) == START;
    WriteOne(rx, START, 9);
    var u := Next(rx, START, w2);
    assert [] + [[9]] == [[9]] && w3.data == TERMINATOR;
    WriteEnd(rx, u);
    KindOfTwo(rx);
    OneMore(rx, u, w3, []);
    OneMore(rx, START, w2, [w3]);
    OneMore(rx, r, Clear, [w2] + [w3]);
    OneMore(rx, KICKED, Reset, [Clear] + ([w2] + [w3]));
    OneMore(rx, KICKED, w1, [Reset] + ([Clear] + ([w2] + [w3])));
    assert [w1] + ([Reset] + ([Clear] + ([w2] + [w3]))) == es && [w3] + [] == [w3];
    CarriesTwo(es, w2, w3);
  }

  lemma CarriesTwo(es: seq<Event>, w2: Event, w3: Event)
    requires es == [Write([0, 1, 7], 0, false), Reset, Clear, w2, w3]
    requires w2 == Write([0, 1, 9], 0, false) && w3 == Write([0, 0], 0, false)
    ensures Carries(es, [], [7, 9], 1)
  {
    var two: Bytes, one: Bytes := [7, 9], [9];
    assert two[..1] == [7] && two[1..] == one && one[..1] == one && one[1..] == [];
    assert Head(two, 1) == [0, 1, 7] && Head(one, 1) == [0, 1, 9] && Head([], 1) == TERMINATOR;
    assert [w3][1..] == [] && [w2, w3][1..] == [w3] && [Clear, w2, w3][1..] == [w2, w3];
    assert Carries([w3], [], [], 1);
    assert Carries([w2, w3], [], one, 1);
    assert Carries([Clear, w2, w3], [], one, 1);
    assert es[1..][1..] == [Clear, w2, w3];
    assert Carries(es[1..], [], one, 1);
  }

  // ----- a full queue -----

  lemma {:induction false} StaysShut(rx: nat, s: Link, es: seq<Event>)
    requires Inv(rx, s) && Schedule(rx, s, es) && s.busy && Outstanding(s) == 0
    ensures Run(rx, s, es).busy && Outstanding(Run(rx, s, es)) == 0
    decreases |es|
  {
    if es != [] {
      var t := Next(rx, s, es[0]);
      StepInv(rx, s, es[0]);
      NoMain(s);
      ReceivedSnoc(s.queue, Button);
      StaysShut(rx, t, es[1..]);
    }
  }

  /** A schedule of the main thread alone that lets the relay in again. */
  lemma Release(rx: nat, s: Link) returns (es: seq<Event>)
    requires Inv(rx, s) && (s.busy ==> Outstanding(s) == 1)
    ensures Schedule(rx, s, es) && !Run(rx, s, es).busy
    decreases s.busy, |s.queue|, if s.main.Handling? then 1 else 0
  {
    if !s.busy {
      es := [];
    } else {
      var e := if s.main.Handling? then Reset else if s.main.Releasing? then Clear else Receive;
      StepInv(rx, s, e);
      var rest := Release(rx, Next(rx, s, e));
      OneMore(rx, s, e, rest);
      es := [e] + rest;
    }
  }

  /** The relay is shut out for good exactly when the flag is set and no message is
      outstanding: its notice did not fit in the queue. */
  lemma ShutOutExactly(rx: nat, s: Link)
    requires Inv(rx, s)
    ensures (forall es :: Schedule(rx, s, es) ==> Run(rx, s, es).busy) <==> s.busy && Outstanding(s) == 0
  {
    if s.busy && Outstanding(s) == 0 {
      forall es | Schedule(rx, s, es)
        ensures Run(rx, s, es).busy
      {
        StaysShut(rx, s, es);
      }
    } else {
      var es := Release(rx, s);
    }
  }

  function Presses(n: nat): seq<Event> { seq(n, _ => Press) }

  function Pressed(n: nat): Link { START.(queue := seq(n, _ => Button)) }

  lemma {:induction false} PressesQueue(rx: nat, n: nat)
    requires n <= QUEUE
    ensures Schedule(rx, START, Presses(n)) && Run(rx, START, Presses(n)) == Pressed(n)
    ensures Received(Pressed(n).queue) == 0
  {
    if n == 0 {
      assert Pressed(0).queue == [];
    } else {
      PressesQueue(rx, n - 1);
      var before := Pressed(n - 1);
      ReceivedSnoc(before.queue, Button);
      assert before.queue + [Button] == Pressed(n).queue;
      OneMore(rx, before, Press, []);
      RunConcat(rx, START, Presses(n - 1), [Press] + []);
      assert Presses(n - 1) + ([Press] + []) == Presses(n);
    }
  }

  lemma ReleaseFromKick(rx: nat)
    ensures Schedule(rx, KICKED, [Reset, Clear]) && Run(rx, KICKED, [Reset, Clear]) == START
  {
    var r := KICKED.(main := Releasing);
    assert Next(rx, KICKED, Reset) == r && Next(rx, r, Clear) == START;
    OneMore(rx, r, Clear, []);
    OneMore(rx, KICKED, Reset, [Clear]);
    assert [Clear] + [] == [Clear] && [Reset] + [Clear] == [Reset, Clear];
  }

  /** It is reached: a kick is handled, and before the main thread looks at its queue
      again come four presses and another kick. */
  lemma FullQueueShutsOut(rx: nat)
    ensures var end := Write(TERMINATOR, 0, false);
      var es := [end, Tail, Receive] + ([Reset, Clear] + (Presses(4) + [end]));
      var t := Run(rx, START, es);
      && Schedule(rx, START, es)
      && t == Pressed(4).(frag := TERMINATOR, busy := true, tail := true)
      && (forall more :: Schedule(rx, t, more) ==> Run(rx, t, more).busy)
  {
    hide Next, Presses, Enabled;
    var end, full := Write(TERMINATOR, 0, false), Pressed(QUEUE);
    var t := full.(frag := TERMINATOR, busy := true, tail := true);
    KickFromStart(rx);
    ReleaseFromKick(rx);
    PressesQueue(rx, QUEUE);
    WriteEnd(rx, full);
    OneMore(rx, full, end, []);
    assert [end] + [] == [end];
    RunConcat(rx, START, Presses(QUEUE), [end]);
    RunConcat(rx, KICKED, [Reset, Clear], Presses(QUEUE) + [end]);
    RunConcat(rx, START, [end, Tail, Receive], [Reset, Clear] + (Presses(QUEUE) + [end]));
    ShutOutExactly(rx, t);
  }

  lemma {:induction false} RunConcat(rx: nat, s: Link, a: seq<Event>, b: seq<Event>)
    requires Schedule(rx, s, a) && Schedule(rx, Run(rx, s, a), b)
    ensures Schedule(rx, s, a + b) && Run(rx, s, a + b) == Run(rx, Run(rx, s, a), b)
    decreases |a|
  {
    if a == [] {
      assert a + b == b;
    } else {
      RunConcat(rx, Next(rx, s, a[0]), a[1..], b);
      assert (a + b)[0] == a[0] && (a + b)[1..] == a[1..] + b;
    }
  }
}
