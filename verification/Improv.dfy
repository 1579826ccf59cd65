/** Improv RPC frames (improv.c, scripts/improv_provision.py): reassembly from
    writes, validation, and what the client's encoder produces. */
module Improv {
  import opened Common

  const FRAME_MAX: nat := 101 // cmd, len, ssid_len + 32, psk_len + 64, checksum
  const GAP_MS: int := 2000
  const QUEUE: nat := 2

  datatype St = AuthRequired | Authorized | Provisioning | Provisioned
  datatype Err = NoError | InvalidRpc | UnknownRpc | UnableToConnect | NotAuthorized | Unknown
  datatype Msg = Settings(ssid: Bytes, psk: Bytes) | Button

  datatype Service = Service(st: St, err: Err, queue: seq<Msg>)

  /** The bytes of the frame in progress, and the time of the last write. */
  datatype Rx = Rx(buf: Bytes, last: int)

  // ----- the client -----

  function Sum(b: Bytes): nat {
    if b == [] then 0 else Sum(b[..|b| - 1]) + b[|b| - 1]
  }

  function Frame(cmd: byte, payload: Bytes): (r: Bytes)
    requires |payload| < 0x100
    ensures |r| == |payload| + 3
  {
    var body := [cmd, |payload|] + payload;
    body + [Sum(body) % 0x100]
  }

  predicate Fits(ssid: Bytes, psk: Bytes) { 1 <= |ssid| <= 32 && |psk| <= 64 }

  function SettingsPayload(ssid: Bytes, psk: Bytes): Bytes
    requires Fits(ssid, psk)
  {
    [|ssid|] + ssid + [|psk|] + psk
  }

  function WifiSettings(ssid: Bytes, psk: Bytes): Bytes
    requires Fits(ssid, psk)
  {
    Frame(1, SettingsPayload(ssid, psk))
  }

  // ----- one complete frame -----

  /** Length and checksum. */
  predicate Sound(f: Bytes)
    requires |f| >= 2
  {
    |f| == f[1] as int + 3 && Sum(f[..|f| - 1]) % 0x100 == f[|f| - 1]
  }

  /** The credentials in a settings payload. */
  function Parse(d: Bytes): Option<Msg> {
    if |d| < 2 || d[0] == 0 || d[0] > 32 || d[0] as int + 2 > |d| then None
    else
      var n: nat := d[0];
      var m: nat := d[1 + n];
      if m > 64 || n + m + 2 != |d| then None
      else Some(Settings(d[1..1 + n], d[2 + n..]))
  }

  function Handled(s: Service, f: Bytes): Service
    requires |f| >= 3
  {
    if !Sound(f) then s.(err := InvalidRpc)
    else if f[0] == 2 then s.(err := NoError)
    else if f[0] == 1 then
      match Parse(f[2..|f| - 1])
      case None => s.(err := InvalidRpc)
      case Some(m) => Offer(s, m)
    else s.(err := UnknownRpc)
  }

  /** Credentials count once, and only while the device is authorized. */
  function Offer(s: Service, m: Msg): Service {
    if s.st.AuthRequired? then s.(err := NotAuthorized)
    else if !s.st.Authorized? then s
    else if |s.queue| < QUEUE then Service(Provisioning, NoError, s.queue + [m])
    else s.(err := Unknown)
  }

  /** The settings frames the device takes are exactly the ones the client builds. */
  lemma TakesExactlyClientFrames(f: Bytes, ssid: Bytes, psk: Bytes)
    requires |f| >= 3
    ensures (Sound(f) && f[0] == 1 && Parse(f[2..|f| - 1]) == Some(Settings(ssid, psk)))
       <==> (Fits(ssid, psk) && f == WifiSettings(ssid, psk))
  {
    if Sound(f) && f[0] == 1 && Parse(f[2..|f| - 1]) == Some(Settings(ssid, psk)) {
      ParseIsPayload(f[2..|f| - 1], ssid, psk);
      FrameOfBytes(f, SettingsPayload(ssid, psk));
    }
    if Fits(ssid, psk) && f == WifiSettings(ssid, psk) {
      FrameIsSound(1, SettingsPayload(ssid, psk));
      PayloadParses(ssid, psk);
    }
  }

  lemma PayloadParses(ssid: Bytes, psk: Bytes)
    requires Fits(ssid, psk)
    ensures Parse(SettingsPayload(ssid, psk)) == Some(Settings(ssid, psk))
  {
    var d := SettingsPayload(ssid, psk);
    assert d[1..1 + |ssid|] == ssid && d[2 + |ssid|..] == psk;
  }

  lemma ParseIsPayload(d: Bytes, ssid: Bytes, psk: Bytes)
    requires Parse(d) == Some(Settings(ssid, psk))
    ensures Fits(ssid, psk) && d == SettingsPayload(ssid, psk)
  {
  }

  lemma FrameIsSound(cmd: byte, payload: Bytes)
    requires |payload| < 0x100
    ensures var f := Frame(cmd, payload);
      Sound(f) && f[0] == cmd && f[1] == |payload| && f[2..|f| - 1] == payload
  {
    var f := Frame(cmd, payload);
    assert f[..|f| - 1] == [cmd, |payload|] + payload;
  }

  lemma FrameOfBytes(f: Bytes, payload: Bytes)
    requires |f| >= 3 && Sound(f) && f[2..|f| - 1] == payload && |payload| < 0x100
    ensures f == Frame(f[0], payload)
  {
    assert f[..|f| - 1] == [f[0], |payload|] + payload;
  }

  // ----- writes -----

  datatype WriteResult = Taken(n: nat) | InvalidOffset

  /** Whether a write at offset 0 goes on with the frame in progress. */
  predicate Continues(rx: Rx, execute: bool, now: int) {
    |rx.buf| >= 2 && |rx.buf| < rx.buf[1] as int + 3 && now - rx.last < GAP_MS && !execute
  }

  function Write(rx: Rx, s: Service, data: Bytes, offset: nat, prepare: bool, execute: bool, now: int)
    : (Rx, Service)
  {
    if prepare || (offset != 0 && offset != |rx.buf|) then (rx, s)
    else
      var buf := if offset == 0 && !Continues(rx, execute, now) then [] else rx.buf;
      if |buf| + |data| > FRAME_MAX then (Rx([], now), s.(err := InvalidRpc))
      else
        var f := buf + data;
        if |f| >= 2 && |f| >= f[1] as int + 3 then (Rx([], now), Handled(s, f))
        else (Rx(f, now), s)
  }

  class Rpc {
    const rxBuf: array<byte>
    var rxLen: nat
    var rxLast: int
    var st: St
    var err: Err
    var queue: seq<Msg>

    constructor (initial: St)
      ensures Valid() && Receiver() == Rx([], 0) && Offered() == Service(initial, NoError, [])
    {
      rxBuf := new byte[FRAME_MAX](_ => 0);
      rxLen, rxLast, st, err, queue := 0, 0, initial, NoError, [];
    }

    ghost predicate Valid() reads this { rxBuf.Length == FRAME_MAX && rxLen <= FRAME_MAX }

    ghost function Receiver(): Rx
      requires Valid()
      reads this, rxBuf
    {
      Rx(rxBuf[..rxLen], rxLast)
    }

    ghost function Offered(): Service reads this { Service(st, err, queue) }

    static method Checksum(p: Bytes) returns (c: byte)
      ensures c == Sum(p) % 0x100
    {
      var sum: nat := 0;
      for i := 0 to |p|
        invariant sum == Sum(p[..i])
      {
        assert p[..i + 1][..i] == p[..i];
        sum := sum + p[i];
      }
      assert p[..|p|] == p;
      c := sum % 0x100;
    }

    /** handle_frame: validate and dispatch one complete frame. */
    method HandleFrame(f: Bytes)
      requires |f| >= 3
      modifies this`st, this`err, this`queue
      ensures Offered() == Handled(old(Offered()), f)
    {
      var sum := Checksum(f[..|f| - 1]);
      if |f| != f[1] as int + 3 || sum != f[|f| - 1] {
        err := InvalidRpc;
        return;
      }
      if f[0] == 2 {
        err := NoError;
        return;
      }
      if f[0] != 1 {
        err := UnknownRpc;
        return;
      }
      TakeSettings(f[2..|f| - 1]);
    }

    /** The settings command: d holds what lies between length and checksum. */
    method TakeSettings(d: Bytes)
      modifies this`st, this`err, this`queue
      ensures Offered()
           == match Parse(d)
              case None => old(Offered()).(err := InvalidRpc)
              case Some(m) => Offer(old(Offered()), m)
    {
      var n: nat := if |d| >= 1 then d[0] else 0;
      if |d| < 2 || n == 0 || n > 32 || n + 2 > |d| {
        err := InvalidRpc;
        return;
      }
      var m: nat := d[1 + n];
      if m > 64 || n + m + 2 != |d| {
        err := InvalidRpc;
        return;
      }
      if st.AuthRequired? {
        err := NotAuthorized;
        return;
      }
      if !st.Authorized? { return; }
      assert d[2 + n..2 + n + m] == d[2 + n..];
      err := NoError;
      st := Provisioning; // a repeated write is ignored from here on
      if |queue| < QUEUE {
        queue := queue + [Settings(d[1..1 + n], d[2 + n..2 + n + m])];
      } else {
        st := Authorized;
        err := Unknown;
      }
    }

    method WriteRpc(data: Bytes, offset: nat, prepare: bool, execute: bool, now: int) returns (r: WriteResult)
      requires Valid()
      modifies this, rxBuf
      ensures Valid()
      ensures (Receiver(), Offered())
           == Write(old(Receiver()), old(Offered()), data, offset, prepare, execute, now)
      ensures r.InvalidOffset? <==> !prepare && offset != 0 && offset != old(rxLen)
    {
      hide Handled;
      if prepare { return Taken(0); }
      if offset == 0 {
        var continuing :=
          rxLen >= 2 && rxLen < rxBuf[1] as int + 3 && now - rxLast < GAP_MS && !execute;
        if !continuing { rxLen := 0; }
      } else if offset != rxLen {
        return InvalidOffset;
      }
      rxLast := now;
      if rxLen + |data| > rxBuf.Length {
        rxLen := 0;
        err := InvalidRpc;
        return Taken(|data|);
      }
      MemCpy(rxBuf, rxLen, data);
      rxLen := rxLen + |data|;
      if rxLen >= 2 && rxLen >= rxBuf[1] as int + 3 {
        HandleFrame(rxBuf[..rxLen]);
        MemZero(rxBuf);
        rxLen := 0;
        assert rxBuf[..0] == [];
      }
      r := Taken(|data|);
    }

    method OnDisconnected()
      requires Valid()
      modifies this`rxLen
      ensures Valid() && Receiver() == old(Receiver()).(buf := []) && Offered() == old(Offered())
    {
      rxLen := 0;
      assert rxBuf[..0] == [];
    }
  }

  // ----- a frame in pieces -----

  datatype Piece = Piece(data: Bytes, now: int)

  function Deliver(rx: Rx, s: Service, ps: seq<Piece>): (Rx, Service)
    decreases |ps|
  {
    if ps == [] then (rx, s)
    else
      var (rx', s') := Write(rx, s, ps[0].data, 0, false, false, ps[0].now);
      Deliver(rx', s', ps[1..])
  }

  function Data(ps: seq<Piece>): Bytes {
    if ps == [] then [] else ps[0].data + Data(ps[1..])
  }

  ghost predicate AllNonempty(ps: seq<Piece>) { forall i :: 0 <= i < |ps| ==> ps[i].data != [] }

  /** Every piece comes soon enough after the one before. */
  ghost predicate NoPause(ps: seq<Piece>) {
    forall i :: 0 < i < |ps| ==> ps[i].now - ps[i - 1].now < GAP_MS
  }

  ghost predicate Prompt(ps: seq<Piece>) { AllNonempty(ps) && NoPause(ps) }

  ghost predicate OneFrame(f: Bytes) { 3 <= |f| <= FRAME_MAX && |f| == f[1] as int + 3 }

  lemma {:induction false} Continued(rx: Rx, s: Service, ps: seq<Piece>, f: Bytes)
    requires OneFrame(f) && ps != [] && Prompt(ps)
    requires |rx.buf| >= 2 && rx.buf + Data(ps) == f && ps[0].now - rx.last < GAP_MS
    ensures Deliver(rx, s, ps) == (Rx([], ps[|ps| - 1].now), Handled(s, f))
    decreases |ps|
  {
    hide Handled, Write, OneFrame;
    var p, rest := ps[0], ps[1..];
    assert rx.buf + (p.data + Data(rest)) == rx.buf + p.data + Data(rest);
    if rest == [] {
      assert rx.buf + p.data + [] == rx.buf + p.data;
      Completes(rx, s, p, f);
    } else {
      assert rest[0] == ps[1];
      assert Data(rest) == rest[0].data + Data(rest[1..]);
      GoesOn(rx, s, p, Data(rest), f);
      Continued(Rx(rx.buf + p.data, p.now), s, rest, f);
    }
  }

  lemma Completes(rx: Rx, s: Service, p: Piece, f: Bytes)
    requires OneFrame(f) && |rx.buf| >= 2 && rx.buf + p.data == f && p.data != []
    requires p.now - rx.last < GAP_MS
    ensures Write(rx, s, p.data, 0, false, false, p.now) == (Rx([], p.now), Handled(s, f))
  {
    hide Handled;
    assert rx.buf[1] == f[1];
  }

  /** A frame arrives whole in any number of pieces, if the first holds its length
      byte and no pause reaches two seconds. */
  lemma FrameArrives(rx: Rx, s: Service, ps: seq<Piece>, f: Bytes)
    requires OneFrame(f) && Data(ps) == f && ps != [] && Prompt(ps)
    requires |ps[0].data| >= 2 && !Continues(rx, false, ps[0].now)
    ensures Deliver(rx, s, ps) == (Rx([], ps[|ps| - 1].now), Handled(s, f))
  {
    hide Handled;
    var p, rest := ps[0], ps[1..];
    assert [] + p.data == p.data && p.data == f[..|p.data|];
    if rest == [] {
      assert p.data == f;
    } else {
      assert Data(rest) == rest[0].data + Data(rest[1..]) && rest[0] == ps[1];
      Continued(Rx(p.data, p.now), s, rest, f);
    }
  }

  /** What the client sends is what the device is offered, in pieces of any size. */
  lemma ClientFrameArrives(rx: Rx, s: Service, ps: seq<Piece>, ssid: Bytes, psk: Bytes)
    requires Fits(ssid, psk) && Data(ps) == WifiSettings(ssid, psk) && ps != [] && Prompt(ps)
    requires |ps[0].data| >= 2 && !Continues(rx, false, ps[0].now)
    ensures Deliver(rx, s, ps) == (Rx([], ps[|ps| - 1].now), Offer(s, Settings(ssid, psk)))
  {
    var f := WifiSettings(ssid, psk);
    FrameIsSound(1, SettingsPayload(ssid, psk));
    PayloadParses(ssid, psk);
    FrameArrives(rx, s, ps, f);
  }

  /** In any number of pieces the credentials arrive exactly when the first holds the
      length byte and no pause reaches two seconds. */
  lemma PiecesExactly(rx: Rx, s: Service, ps: seq<Piece>, ssid: Bytes, psk: Bytes)
    requires Fits(ssid, psk) && Data(ps) == WifiSettings(ssid, psk) && AllNonempty(ps)
    requires ps != [] && !Continues(rx, false, ps[0].now) && s.st.Authorized? && |s.queue| < QUEUE
    ensures Deliver(rx, s, ps).1.queue == s.queue + [Settings(ssid, psk)]
       <==> |ps[0].data| >= 2 && forall i :: 0 < i < |ps| ==> ps[i].now - ps[i - 1].now < 2000
  {
    var f := WifiSettings(ssid, psk);
    FrameLength(ssid, psk);
    if |ps[0].data| >= 2 && NoPause(ps) {
      ClientFrameArrives(rx, s, ps, ssid, psk);
    } else {
      hide WifiSettings, Handled;
      var p, rest := ps[0], ps[1..];
      assert p.data + Data(rest) == f;
      assert rest != [] && rest[0] == ps[1];
      Begins(rx, s, p, Data(rest), f);
      var rx' := Rx(p.data, p.now);
      assert Deliver(rx, s, ps) == Deliver(rx', s, rest);
      if |p.data| < 2 { Afresh(rx', s, rest, ssid, psk); } else { Broken(rx', s, rest, ssid, psk); }
    }
  }

  lemma Begins(rx: Rx, s: Service, a: Piece, more: Bytes, f: Bytes)
    requires OneFrame(f) && a.data + more == f && more != [] && !Continues(rx, false, a.now)
    ensures Write(rx, s, a.data, 0, false, false, a.now) == (Rx(a.data, a.now), s)
  {
    assert [] + a.data == a.data && a.data == f[..|a.data|];
  }

  /** A write that does not continue a frame throws away what came before. */
  lemma Afresh(rx: Rx, s: Service, ps: seq<Piece>, ssid: Bytes, psk: Bytes)
    requires Fits(ssid, psk) && ps != [] && !Continues(rx, false, ps[0].now)
    requires |Data(ps)| < |WifiSettings(ssid, psk)|
    ensures Deliver(rx, s, ps).1.queue != s.queue + [Settings(ssid, psk)]
  {
    hide Handled, WifiSettings;
    assert Deliver(rx, s, ps) == Deliver(Rx([], rx.last), s, ps);
    NeverOffered(Rx([], rx.last), s, ps, s.queue, ssid, psk);
  }

  /** The beginning of the frame is held and a later pause is too long. */
  lemma {:induction false} Broken(rx: Rx, s: Service, ps: seq<Piece>, ssid: Bytes, psk: Bytes)
    requires Fits(ssid, psk) && ps != [] && AllNonempty(ps)
    requires |rx.buf| >= 2 && rx.buf + Data(ps) == WifiSettings(ssid, psk)
    requires !(ps[0].now - rx.last < GAP_MS && NoPause(ps))
    ensures Deliver(rx, s, ps).1.queue != s.queue + [Settings(ssid, psk)]
    decreases |ps|
  {
    hide WifiSettings, Write, Handled;
    var f := WifiSettings(ssid, psk);
    if ps[0].now - rx.last >= GAP_MS {
      Afresh(rx, s, ps, ssid, psk);
    } else {
      FrameLength(ssid, psk);
      var p, rest := ps[0], ps[1..];
      assert rest[0] == ps[1];
      assert rx.buf + (p.data + Data(rest)) == rx.buf + p.data + Data(rest);
      GoesOn(rx, s, p, Data(rest), f);
      Broken(Rx(rx.buf + p.data, p.now), s, rest, ssid, psk);
    }
  }

  lemma FrameLength(ssid: Bytes, psk: Bytes)
    requires Fits(ssid, psk)
    ensures OneFrame(WifiSettings(ssid, psk))
  {
    FrameIsSound(1, SettingsPayload(ssid, psk));
  }

  lemma GoesOn(rx: Rx, s: Service, p: Piece, more: Bytes, f: Bytes)
    requires OneFrame(f) && |rx.buf| >= 2 && rx.buf + p.data + more == f && more != []
    requires p.now - rx.last < GAP_MS
    ensures Write(rx, s, p.data, 0, false, false, p.now) == (Rx(rx.buf + p.data, p.now), s)
  {
    var buf := rx.buf + p.data;
    assert buf == f[..|buf|] && rx.buf[1] == f[1];
  }

  /** The queue has not taken the credentials, and will not once it took others. */
  ghost predicate Missed(s: Service, q: seq<Msg>, ssid: Bytes, psk: Bytes) {
    s.queue == q
    || (|s.queue| == |q| + 1 && s.queue[|q|] != Settings(ssid, psk) && !s.st.Authorized?)
  }

  /** Fewer bytes than the frame has never offer its credentials, however they are
      divided and whenever they come. */
  lemma {:induction false} NeverOffered(rx: Rx, s: Service, ps: seq<Piece>, q: seq<Msg>, ssid: Bytes, psk: Bytes)
    requires Fits(ssid, psk) && |rx.buf| + |Data(ps)| < |WifiSettings(ssid, psk)| && Missed(s, q, ssid, psk)
    ensures Deliver(rx, s, ps).1.queue != q + [Settings(ssid, psk)]
    decreases |ps|
  {
    hide Handled, WifiSettings;
    if ps == [] {
      assert (q + [Settings(ssid, psk)])[|q|] == Settings(ssid, psk);
    } else {
      var p, rest := ps[0], ps[1..];
      var (rx', s') := Write(rx, s, p.data, 0, false, false, p.now);
      assert |Data(ps)| == |p.data| + |Data(rest)|;
      if s' == s || s' == s.(err := InvalidRpc) {
      } else {
        var f := (if Continues(rx, false, p.now) then rx.buf else []) + p.data;
        assert s' == Handled(s, f);
        OtherFrame(s, f, q, ssid, psk);
      }
      NeverOffered(rx', s', rest, q, ssid, psk);
    }
  }

  /** Another frame never offers these credentials. */
  lemma OtherFrame(s: Service, g: Bytes, q: seq<Msg>, ssid: Bytes, psk: Bytes)
    requires Fits(ssid, psk) && 3 <= |g| < |WifiSettings(ssid, psk)| && Missed(s, q, ssid, psk)
    ensures Missed(Handled(s, g), q, ssid, psk)
  {
    TakesExactlyClientFrames(g, ssid, psk);
  }

  // ----- long writes -----

  /** Pieces written one behind the other at their offsets. */
  function DeliverLong(rx: Rx, s: Service, ps: seq<Piece>, offset: nat): (Rx, Service)
    decreases |ps|
  {
    if ps == [] then (rx, s)
    else
      var (rx', s') := Write(rx, s, ps[0].data, offset, false, false, ps[0].now);
      DeliverLong(rx', s', ps[1..], offset + |ps[0].data|)
  }

  /** A frame in pieces at their offsets arrives whole, however the pieces are cut and
      whatever the pauses between them. */
  lemma {:induction false} LongWriteArrives(rx: Rx, s: Service, ps: seq<Piece>, offset: nat, f: Bytes)
    requires OneFrame(f) && ps != [] && AllNonempty(ps)
    requires if offset == 0 then Data(ps) == f && !Continues(rx, false, ps[0].now)
             else offset == |rx.buf| && rx.buf + Data(ps) == f
    ensures DeliverLong(rx, s, ps, offset) == (Rx([], ps[|ps| - 1].now), Handled(s, f))
    decreases |ps|
  {
    hide Handled, Write, OneFrame, Continues;
    var p, rest, had := ps[0], ps[1..], if offset == 0 then [] else rx.buf;
    assert had + (p.data + Data(rest)) == had + p.data + Data(rest);
    assert had + Data(ps) == f;
    PieceAt(rx, s, p, offset, had, Data(rest), f);
    if rest != [] {
      assert rest[0] == ps[1];
      assert Data(rest) == rest[0].data + Data(rest[1..]);
      LongWriteArrives(Rx(had + p.data, p.now), s, rest, offset + |p.data|, f);
    } else {
      assert had + p.data + [] == had + p.data;
    }
  }

  lemma PieceAt(rx: Rx, s: Service, p: Piece, offset: nat, had: Bytes, more: Bytes, f: Bytes)
    requires OneFrame(f) && p.data != [] && had + p.data + more == f
    requires if offset == 0 then had == [] && !Continues(rx, false, p.now) else offset == |rx.buf| && had == rx.buf
    ensures Write(rx, s, p.data, offset, false, false, p.now)
         == if more == [] then (Rx([], p.now), Handled(s, f)) else (Rx(had + p.data, p.now), s)
  {
    hide Handled;
    var buf := had + p.data;
    assert buf == f[..|buf|];
    if more == [] { assert buf == f; }
  }

  /** Writes that are no part of a frame: prepared ones and ones at a wrong offset change
      nothing; one that exceeds the longest frame is invalid and starts over. */
  lemma OtherWrites(rx: Rx, s: Service, d: Bytes, offset: nat, prepare: bool, execute: bool, now: int)
    ensures prepare || (offset != 0 && offset != |rx.buf|) ==> Write(rx, s, d, offset, prepare, execute, now) == (rx, s)
    ensures !prepare && (offset == 0 || offset == |rx.buf|)
            && |d| + (if offset == 0 && !Continues(rx, execute, now) then 0 else |rx.buf|) > 101 ==>
        Write(rx, s, d, offset, prepare, execute, now) == (Rx([], now), s.(err := InvalidRpc))
  {
  }

  /** The execution of a prepared write begins a frame, whatever is in progress. */
  lemma ExecuteStartsOver(rx: Rx, s: Service, f: Bytes, now: int)
    requires OneFrame(f)
    ensures Write(rx, s, f, 0, false, true, now) == (Rx([], now), Handled(s, f))
  {
    hide Handled;
    assert [] + f == f;
  }

  // ----- damage -----

  lemma {:induction false} SumUpdate(b: Bytes, i: nat, v: byte)
    requires i < |b|
    ensures Sum(b[i := v]) == Sum(b) - b[i] as int + v as int
    decreases |b|
  {
    var c := b[i := v];
    if i == |b| - 1 {
      assert c[..|b| - 1] == b[..|b| - 1];
    } else {
      assert c[..|b| - 1] == b[..|b| - 1][i := v];
      SumUpdate(b[..|b| - 1], i, v);
    }
  }

  /** A frame with one byte changed is never sound unless its length byte grew. */
  lemma ChangedIsUnsound(f: Bytes, i: nat, v: byte)
    requires OneFrame(f) && Sound(f) && i < |f| && v != f[i]
    ensures !Sound(f[i := v])
  {
    var g, n := f[i := v], |f| - 1;
    if i == n {
      assert g[..n] == f[..n];
    } else if i != 1 {
      assert g[..n] == f[..n][i := v];
      SumUpdate(f[..n], i, v);
      Differ(Sum(f[..n]), Sum(g[..n]), v as int - f[i] as int);
    }
  }

  lemma Differ(a: int, b: int, d: int)
    requires b == a + d && -0x100 < d < 0x100 && d != 0
    ensures a % 0x100 != b % 0x100
  {
  }

  /** Changing any single byte of a frame sent in one write, whatever its command,
      offers no credentials and changes no state; the client is told that the frame is
      invalid, unless it is its length that grew, and the rest is waited for. */
  lemma OneByteChanged(rx: Rx, s: Service, cmd: byte, payload: Bytes, i: nat, v: byte, now: int)
    requires |payload| + 3 <= FRAME_MAX && i < |payload| + 3 && v != Frame(cmd, payload)[i]
    requires !Continues(rx, false, now)
    ensures var s' := Write(rx, s, Frame(cmd, payload)[i := v], 0, false, false, now).1;
      s' == if i == 1 && v > |payload| then s else s.(err := InvalidRpc)
  {
    var f := Frame(cmd, payload);
    FrameIsSound(cmd, payload);
    ChangedIsUnsound(f, i, v);
    hide Sound, Parse;
    assert [] + f[i := v] == f[i := v];
  }

  /** What a client is told about a whole frame sent in one write. */
  lemma FrameErrors(rx: Rx, s: Service, cmd: byte, payload: Bytes, now: int)
    requires |payload| + 3 <= FRAME_MAX && !Continues(rx, false, now)
    ensures var (rx', s') := Write(rx, s, Frame(cmd, payload), 0, false, false, now);
      && rx' == Rx([], now)
      && (cmd == 2 ==> s' == s.(err := NoError))
      && (cmd != 1 && cmd != 2 ==> s' == s.(err := UnknownRpc))
      && (cmd == 1 && (forall ssid, psk :: Fits(ssid, psk) ==> payload != SettingsPayload(ssid, psk)) ==>
            s' == s.(err := InvalidRpc))
      && (forall ssid, psk :: cmd == 1 && Fits(ssid, psk) && payload == SettingsPayload(ssid, psk) ==>
            s' == match s.st
                  case AuthRequired => s.(err := NotAuthorized)
                  case Authorized =>
                    if |s.queue| < 2 then Service(Provisioning, NoError, s.queue + [Settings(ssid, psk)])
                    else s.(err := Unknown)
                  case _ => s)
  {
    var f := Frame(cmd, payload);
    FrameIsSound(cmd, payload);
    assert [] + f == f;
    hide Sound, Parse, Frame, SettingsPayload;
    forall ssid, psk | Fits(ssid, psk) && payload == SettingsPayload(ssid, psk)
      ensures Parse(payload) == Some(Settings(ssid, psk))
    {
      PayloadParses(ssid, psk);
    }
    if Parse(payload).Some? {
      ParsedIsSettings(payload);
      ParseIsPayload(payload, Parse(payload).value.ssid, Parse(payload).value.psk);
    }
  }

  lemma ParsedIsSettings(d: Bytes)
    ensures Parse(d).Some? ==> Parse(d).value.Settings?
  {
  }

  // ----- the result -----

  /** set_result_url: one string, or none. */
  function ResultFrame(url: Bytes): Bytes
    requires |url| < 80
  {
    if url == [] then Frame(1, []) else Frame(1, [|url|] + url)
  }

  /** parse_result of the client: the length-prefixed strings between the header
      and the checksum, cut short at the end of the data. */
  method ParseResult(data: Bytes) returns (out: seq<Bytes>)
    ensures out == Strings(data, 2)
  {
    out := [];
    var i := 2;
    while i < |data| - 1
      invariant i >= 2 && out + Strings(data, i) == Strings(data, 2)
      decreases |data| - i
    {
      var n: nat := data[i];
      var end := Min(i + 1 + n, |data|);
      out := out + [data[i + 1..end]];
      i := i + 1 + n;
    }
  }

  function Strings(data: Bytes, i: nat): seq<Bytes>
    decreases |data| - i
  {
    if i >= |data| - 1 then []
    else [data[i + 1..Min(i + 1 + data[i], |data|)]] + Strings(data, i + 1 + data[i])
  }

  lemma ResultRoundTrip(url: Bytes)
    requires |url| < 80
    ensures Strings(ResultFrame(url), 2) == if url == [] then [] else [url]
  {
    var f := ResultFrame(url);
    if url == [] {
      assert |f| == 3;
    } else {
      assert f[2] == |url| && f[3..3 + |url|] == url && |f| == |url| + 4;
      assert Strings(f, 3 + |url|) == [];
    }
  }
}
