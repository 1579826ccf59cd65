/** The framing of both directions of the ZTP link: length-prefixed fragments and
    a zero-length terminator (ztp.c, scripts/ztp_provision.py). */
module ZtpFraming {
  import opened Common

  const FRAG: nat := 180
  const FRAG_MAX: nat := 512

  function Be16(n: nat): Bytes
    requires n < 0x1_0000
  {
    [n / 0x100, n % 0x100]
  }

  function FromBe16(b: Bytes): nat
    requires |b| >= 2
  {
    var hi: int, lo: int := b[0], b[1];
    hi * 0x100 + lo
  }

  /** What a fragment declares, or nothing while its length field is incomplete. */
  predicate Whole(b: Bytes) { |b| >= 2 && |b| >= 2 + FromBe16(b) }

  function Frame(p: Bytes): (r: Bytes)
    requires |p| < 0x1_0000
    ensures |r| == |p| + 2
  {
    Be16(|p|) + p
  }

  const TERMINATOR: Bytes := [0, 0]

  /** The payload cut into pieces of the given size, the last one shorter. */
  function Chunks(data: Bytes, size: nat): (r: seq<Bytes>)
    requires size > 0
    ensures |r| > 0 <==> data != []
    decreases |data|
  {
    if data == [] then []
    else [data[..Min(size, |data|)]] + Chunks(data[Min(size, |data|)..], size)
  }

  /** A framed message: a fragment per piece, then the terminator. */
  function Frames(data: Bytes, size: nat): (r: seq<Bytes>)
    requires 0 < size < 0x1_0000
    ensures r != []
    decreases |data|
  {
    if data == [] then [TERMINATOR]
    else [Frame(data[..Min(size, |data|)])] + Frames(data[Min(size, |data|)..], size)
  }

  /** How many fragments a message takes, the terminator included, and how long each but
      the last is. */
  lemma {:induction false} FrameSizes(data: Bytes, size: nat, i: nat)
    requires 0 < size < 0x1_0000
    ensures var k := |Frames(data, size)| - 1;
      && |data| <= k * size && (k > 0 ==> (k - 1) * size < |data|)
      && (i < k - 1 ==> |Frames(data, size)[i]| == size + 2)
    decreases |data|
  {
    hide Frames;
    if data == [] {
      NoFrames(size);
    } else {
      var n := Min(size, |data|);
      FramesCons(data, size);
      FrameSizes(data[n..], size, if i > 0 then i - 1 else 0);
      var k := |Frames(data[n..], size)| - 1;
      assert (k + 1) * size == k * size + size;
      assert k > 0 ==> k * size == (k - 1) * size + size;
    }
  }

  lemma NoFrames(size: nat)
    requires 0 < size < 0x1_0000
    ensures |Frames([], size)| == 1
  {
  }

  lemma FramesCons(data: Bytes, size: nat)
    requires 0 < size < 0x1_0000 && data != []
    ensures var n := Min(size, |data|);
      && |Frames(data, size)| == |Frames(data[n..], size)| + 1 && |Frames(data, size)[0]| == n + 2
      && forall i :: 0 < i < |Frames(data, size)| ==> Frames(data, size)[i] == Frames(data[n..], size)[i - 1]
  {
    hide Frame;
  }

  /** At every MTU above 5 a fragment carries min(180, MTU - 5) octets. */
  lemma FragmentLength(mtu: nat)
    requires 5 < mtu < 0x1_0000
    ensures ChunkSize(mtu) == Min(180, mtu - 5)
  {
  }

  lemma {:induction false} ChunksJoin(data: Bytes, size: nat)
    requires size > 0
    ensures Flatten(Chunks(data, size)) == data
    decreases |data|
  {
    if data != [] {
      var n := Min(size, |data|);
      var rest := Chunks(data[n..], size);
      ChunksJoin(data[n..], size);
      assert Chunks(data, size) == [data[..n]] + rest;
      FlattenConcat([data[..n]], rest);
      assert Flatten([data[..n]]) == data[..n] + Flatten([]);
    }
  }

  lemma FrameReads(p: Bytes)
    requires |p| < 0x1_0000
    ensures Whole(Frame(p)) && FromBe16(Frame(p)) == |p| && Frame(p)[2..] == p
  {
  }

  // ----- device to relay -----

  /** (size_t)mtu - 3 - 2, capped: a 32-bit size_t wraps below 5. */
  function ChunkSize(mtu: nat): nat { Min(FRAG, (mtu - 5) % TWO_32) }

  datatype Sent = NoRoom | Broken | Delivered

  /** send_message over a link that takes the given number of notifications. */
  method SendMessage(data: Bytes, mtu: nat, lasts: nat) returns (out: seq<Bytes>, rc: Sent)
    requires mtu < 0x1_0000
    ensures mtu == 5 ==> rc == NoRoom && out == []
    ensures mtu != 5 ==>
        out == Take(Frames(data, ChunkSize(mtu)), lasts)
        && rc == (if lasts < |Frames(data, ChunkSize(mtu))| then Broken else Delivered)
  {
    var chunk := Min(FRAG, (mtu - 5) % TWO_32);
    assert chunk == ChunkSize(mtu) && (chunk == 0 <==> mtu == 5);
    if chunk == 0 { return [], NoRoom; }
    out, rc := SendChunks(data, chunk, lasts);
  }

  /** The loop over the fragments, and the terminator. */
  method SendChunks(data: Bytes, chunk: nat, lasts: nat) returns (out: seq<Bytes>, rc: Sent)
    requires 0 < chunk < 0x1_0000
    ensures out == Take(Frames(data, chunk), lasts)
    ensures rc == if lasts < |Frames(data, chunk)| then Broken else Delivered
  {
    out := [];
    hide Be16, Frames, Frame, Take;
    ghost var all := Frames(data, chunk);
    var off := 0;
    assert data[0..] == data && [] + all == all;
    while off < |data|
      invariant off <= |data| && |out| <= lasts
      invariant all == out + Frames(data[off..], chunk)
    {
      var n := Min(chunk, |data| - off);
      SendStep(all, out, data, off, chunk);
      if |out| == lasts {
        TakeFirst(all, out, Frames(data[off..], chunk));
        return out, Broken;
      }
      out := out + [Be16(n) + data[off..off + n]];
      off := off + n;
    }
    SendEnd(data[off..], chunk);
    if |out| == lasts {
      TakeFirst(all, out, [Be16(0)]);
      return out, Broken;
    }
    out := out + [Be16(0)];
    TakeFirst(all, out, []);
    rc := Delivered;
  }

  lemma TakeFirst(all: seq<Bytes>, a: seq<Bytes>, b: seq<Bytes>)
    requires all == a + b
    ensures b != [] ==> Take(all, |a|) == a
    ensures b == [] ==> forall n: nat :: n >= |a| ==> Take(all, n) == a
  {
  }

  lemma SendStep(all: seq<Bytes>, out: seq<Bytes>, data: Bytes, off: nat, chunk: nat)
    requires off < |data| && 0 < chunk < 0x1_0000
    requires all == out + Frames(data[off..], chunk)
    ensures var n := Min(chunk, |data| - off);
      all == out + [Be16(n) + data[off..off + n]] + Frames(data[off + n..], chunk)
  {
    hide Be16;
    var n := Min(chunk, |data| - off);
    var here, rest := data[off..off + n], data[off + n..];
    assert data[off..][..n] == here && data[off..][n..] == rest;
    assert Frames(data[off..], chunk) == [Frame(here)] + Frames(rest, chunk);
    assert out + ([Frame(here)] + Frames(rest, chunk)) == out + [Frame(here)] + Frames(rest, chunk);
  }

  lemma SendEnd(data: Bytes, chunk: nat)
    requires data == [] && 0 < chunk < 0x1_0000
    ensures Frames(data, chunk) == [Be16(0)]
  {
    Be16Zero();
  }

  lemma Be16Zero()
    ensures Be16(0) == TERMINATOR
  {
  }

  datatype Read = Read(buf: Bytes, done: bool)

  function OnNotify(r: Read, data: Bytes): Read {
    if |data| < 2 then r
    else
      var n := FromBe16(data);
      if n == 0 then r.(done := true)
      else r.(buf := r.buf + data[2..Min(2 + n, |data|)])
  }

  function ReadAll(r: Read, notes: seq<Bytes>): Read
    decreases |notes|
  {
    if notes == [] then r else ReadAll(OnNotify(r, notes[0]), notes[1..])
  }

  /** The relay's Reader. */
  class Reader {
    var buf: Bytes
    var done: bool

    constructor ()
      ensures State() == Read([], false)
    {
      buf := [];
      done := false;
    }

    ghost function State(): Read reads this { Read(buf, done) }

    method Notified(data: Bytes)
      modifies this
      ensures State() == OnNotify(old(State()), data)
    {
      if |data| < 2 { return; }
      var n := FromBe16(data);
      if n == 0 {
        done := true;
      } else {
        buf := buf + data[2..Min(2 + n, |data|)];
      }
    }

    method Listen(notes: seq<Bytes>)
      modifies this
      ensures State() == ReadAll(old(State()), notes)
    {
      for i := 0 to |notes|
        invariant ReadAll(State(), notes[i..]) == ReadAll(old(State()), notes)
      {
        assert notes[i..][1..] == notes[i + 1..];
        Notified(notes[i]);
      }
    }
  }

  /** What the relay holds after any number of the notifications: the message and
      its end only when all have arrived, before that a beginning of it. */
  lemma {:induction false} ReaderHolds(r: Read, data: Bytes, size: nat, got: nat)
    requires 0 < size < 0x1_0000 && !r.done
    ensures var t := ReadAll(r, Take(Frames(data, size), got));
      && r.buf <= t.buf <= r.buf + data
      && t.done == (got >= |Frames(data, size)|)
      && (t.done ==> t.buf == r.buf + data)
    decreases |data|
  {
    hide Chunks, Frame, FromBe16, OnNotify;
    var fs := Frames(data, size);
    if got == 0 {
      assert Take(fs, got) == [];
    } else if data == [] {
      NotifyEnd(r);
      assert Take(fs, got) == [TERMINATOR] && [TERMINATOR][1..] == [];
    } else {
      var n := Min(size, |data|);
      NotifyFrame(r, data[..n]);
      var next, rest := OnNotify(r, fs[0]), Take(Frames(data[n..], size), got - 1);
      assert Take(fs, got)[0] == fs[0] && Take(fs, got)[1..] == rest;
      ReaderHolds(next, data[n..], size, got - 1);
      PrefixStep(r.buf, data, n, ReadAll(next, rest).buf);
    }
  }

  lemma PrefixStep(a: Bytes, data: Bytes, n: nat, t: Bytes)
    requires n <= |data| && a + data[..n] <= t <= a + data[..n] + data[n..]
    ensures a <= t <= a + data && a + data[..n] + data[n..] == a + data
  {
    assert a + data[..n] + data[n..] == a + data;
    assert a <= a + data[..n];
  }

  lemma NotifyFrame(r: Read, p: Bytes)
    requires 0 < |p| < 0x1_0000
    ensures OnNotify(r, Frame(p)) == r.(buf := r.buf + p)
  {
    FrameReads(p);
  }

  lemma NotifyEnd(r: Read)
    ensures OnNotify(r, TERMINATOR) == r.(done := true)
  {
  }

  lemma {:induction false} FramesFit(data: Bytes, size: nat, i: nat)
    requires 0 < size < 0x1_0000 && i < |Frames(data, size)|
    ensures |Frames(data, size)[i]| <= size + 2
    decreases |data|
  {
    if data != [] && i > 0 { FramesFit(data[Min(size, |data|)..], size, i - 1); }
  }

  /** Sending and reading are inverse at every usable MTU, and above 5 every
      fragment fits in one notification. */
  lemma SendThenRead(data: Bytes, mtu: nat)
    requires mtu < 0x1_0000 && mtu != 5
    ensures ReadAll(Read([], false), Frames(data, ChunkSize(mtu))) == Read(data, true)
    ensures mtu > 5 ==>
        forall i :: 0 <= i < |Frames(data, ChunkSize(mtu))| ==> |Frames(data, ChunkSize(mtu))[i]| <= mtu - 3
  {
    hide Frames, ReadAll;
    forall i | 0 <= i < |Frames(data, ChunkSize(mtu))|
      ensures |Frames(data, ChunkSize(mtu))[i]| <= ChunkSize(mtu) + 2
    {
      FramesFit(data, ChunkSize(mtu), i);
    }
    var all := Frames(data, ChunkSize(mtu));
    ReaderHolds(Read([], false), data, ChunkSize(mtu), |all|);
    assert Take(all, |all|) == all;
  }
}
