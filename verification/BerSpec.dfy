/** BER as pure functions on octet strings: what lib/snmp/snmp_ber.c writes and
    reads, stated without buffers or cursors, and the proof that reading undoes
    writing. */
module BerSpec {
  import opened Common

  const TAG_INTEGER: byte := 0x02
  const TAG_OCTET_STR: byte := 0x04
  const TAG_NULL: byte := 0x05
  const TAG_OID: byte := 0x06
  const TAG_SEQUENCE: byte := 0x30
  const TAG_COUNTER32: byte := 0x41
  const TAG_GAUGE32: byte := 0x42
  const TAG_TIMETICKS: byte := 0x43

  const MAX_OID_LEN: nat := 32

  type Oid = seq<uint32>

  // ----- big-endian numbers -----

  /** The base-256 digits of n, most significant first, none for 0. */
  function Digits(n: nat): Bytes {
    if n == 0 then [] else Digits(n / 256) + [n % 256]
  }

  /** A decoder's accumulator: start from acc, shift each octet in. */
  function Fold(acc: int, s: Bytes): int {
    if s == [] then acc else Fold(acc, s[..|s| - 1]) * 256 + s[|s| - 1]
  }

  lemma {:induction false} FoldDigits(n: nat)
    ensures Fold(0, Digits(n)) == n
  {
    if n != 0 {
      FoldDigits(n / 256);
      assert Digits(n)[..|Digits(n)| - 1] == Digits(n / 256);
    }
  }

  lemma {:induction false} FoldNonNegative(acc: nat, s: Bytes)
    ensures Fold(acc, s) >= 0
  {
    if s != [] { FoldNonNegative(acc, s[..|s| - 1]); }
  }

  lemma FoldOne(acc: int, b: byte)
    ensures Fold(acc, [b]) == acc * 256 + b
  {
    assert [b][..0] == [];
  }

  function Pow256(k: nat): nat { if k == 0 then 1 else 256 * Pow256(k - 1) }

  lemma {:induction false} DigitsLength(n: nat, k: nat)
    requires n < Pow256(k)
    ensures |Digits(n)| <= k
  {
    if n != 0 { DigitsLength(n / 256, k - 1); }
  }

  // ----- lengths -----

  /** The definite form: one octet below 128, else a count and the digits. */
  function LengthOctets(n: nat): Bytes {
    if n < 0x80 then [n] else [(0x80 + |Digits(n)|) % 256] + Digits(n)
  }

  lemma DigitsLengthAtMost4(n: nat)
    requires n < TWO_32
    ensures |Digits(n)| <= 4
  {
    assert Pow256(4) == TWO_32 by {
      assert Pow256(1) == 256; assert Pow256(2) == 0x1_0000; assert Pow256(3) == 0x100_0000;
    }
    DigitsLength(n, 4);
  }

  function Tlv(tag: byte, content: Bytes): (r: Bytes)
    ensures |r| > |content|
  {
    [tag] + LengthOctets(|content|) + content
  }

  datatype TlvRead = TlvRead(tag: byte, content: Bytes, rest: Bytes)

  datatype Header = Header(tag: byte, len: nat, size: nat)

  /** A tag and a length, or None when they are truncated, the length has the
      indefinite form, or it takes more than four octets. */
  function ReadHeader(s: Bytes): (r: Option<Header>)
    ensures r.Some? ==> r.value.size <= |s|
  {
    if |s| < 2 then None
    else if s[1] < 0x80 then Some(Header(s[0], s[1], 2))
    else
      var n := s[1] - 0x80;
      if n == 0 || n > 4 || 2 + n > |s| then None
      else
        FoldNonNegative(0, s[2..2 + n]);
        Some(Header(s[0], Fold(0, s[2..2 + n]), 2 + n))
  }

  /** Read one TLV, or None when its header is bad or its value is truncated. */
  function ReadTlv(s: Bytes): Option<TlvRead> {
    var h :- ReadHeader(s);
    Split(h.tag, s[h.size..], h.len)
  }

  function Split(tag: byte, body: Bytes, len: nat): Option<TlvRead> {
    if |body| < len then None else Some(TlvRead(tag, body[..len], body[len..]))
  }

  /** Reading undoes writing, whatever follows (section 8.1.3 of X.690). */
  lemma ReadTlvOfTlv(tag: byte, content: Bytes, rest: Bytes)
    requires |content| < TWO_32
    ensures ReadTlv(Tlv(tag, content) + rest) == Some(TlvRead(tag, content, rest))
  {
    TlvLayout(tag, content, rest);
    SplitOfConcat(tag, content, rest);
    if |content| < 0x80 {
      ReadShortLength(tag, |content|, content + rest);
    } else {
      DigitsLengthAtMost4(|content|);
      FoldDigits(|content|);
      ReadLongLength(tag, Digits(|content|), content + rest);
    }
  }

  lemma TlvLayout(tag: byte, content: Bytes, rest: Bytes)
    requires |content| < TWO_32
    ensures |content| < 0x80 ==> Tlv(tag, content) + rest == [tag, |content|] + (content + rest)
    ensures |Digits(|content|)| <= 4
    ensures |content| >= 0x80 ==>
        Tlv(tag, content) + rest
        == [tag, 0x80 + |Digits(|content|)|] + Digits(|content|) + (content + rest)
  {
    DigitsLengthAtMost4(|content|);
  }

  lemma ReadShortLength(tag: byte, n: nat, body: Bytes)
    requires n < 0x80
    ensures ReadTlv([tag, n] + body) == Split(tag, body, n)
  {
    assert ([tag, n] + body)[2..] == body;
  }

  lemma ReadLongLength(tag: byte, d: Bytes, body: Bytes)
    requires 1 <= |d| <= 4
    ensures Fold(0, d) >= 0
    ensures ReadTlv([tag, 0x80 + |d|] + d + body) == Split(tag, body, Fold(0, d))
  {
    var s := [tag, 0x80 + |d|] + d + body;
    assert s[2..2 + |d|] == d;
    assert s[2 + |d|..] == body;
    FoldNonNegative(0, d);
  }

  lemma SplitOfConcat(tag: byte, content: Bytes, rest: Bytes)
    ensures Split(tag, content + rest, |content|) == Some(TlvRead(tag, content, rest))
  {
    assert (content + rest)[..|content|] == content;
    assert (content + rest)[|content|..] == rest;
  }

  lemma ReadTlvAlone(tag: byte, content: Bytes)
    requires |content| < TWO_32
    ensures ReadTlv(Tlv(tag, content)) == Some(TlvRead(tag, content, []))
  {
    ReadTlvOfTlv(tag, content, []);
    assert Tlv(tag, content) + [] == Tlv(tag, content);
  }

  function ReadTagged(s: Bytes, tag: byte): Option<TlvRead> {
    var t :- ReadTlv(s);
    if t.tag != tag then None else Some(t)
  }

  // ----- INTEGER -----

  /** The shortest two's-complement octets of v. */
  function IntOctets(v: int): (r: Bytes)
    ensures |r| >= 1
    decreases if v < 0 then -v else v
  {
    if -128 <= v < 128 then [v % 256] else IntOctets(v / 256) + [v % 256]
  }

  /** The value of two's-complement octets: sign-extended from the first. */
  function IntValue(s: Bytes): int
    requires s != []
  {
    Fold(if s[0] >= 0x80 then -1 else 0, s)
  }

  lemma {:induction false} IntRoundTrip(v: int)
    ensures IntValue(IntOctets(v)) == v
    decreases if v < 0 then -v else v
  {
    var s := IntOctets(v);
    if -128 <= v < 128 {
      FoldOne(if s[0] >= 0x80 then -1 else 0, s[0]);
    } else {
      IntRoundTrip(v / 256);
      assert s[..|s| - 1] == IntOctets(v / 256);
      assert s[0] == IntOctets(v / 256)[0];
    }
  }

  /** No octet string with the same value is shorter (section 8.3.2 of X.690). */
  lemma {:induction false} IntOctetsShortest(s: Bytes)
    requires s != []
    ensures |IntOctets(IntValue(s))| <= |s|
  {
    if |s| == 1 {
      assert s == [s[0]];
      FoldOne(if s[0] >= 0x80 then -1 else 0, s[0]);
    } else {
      var p := s[..|s| - 1];
      assert p[0] == s[0];
      IntOctetsShortest(p);
      assert IntValue(s) == IntValue(p) * 256 + s[|s| - 1];
      assert IntValue(s) / 256 == IntValue(p);
    }
  }

  lemma {:induction false} IntOctetsLength(v: int, k: nat)
    requires k >= 1 && -(128 * Pow256(k - 1)) <= v < 128 * Pow256(k - 1)
    ensures |IntOctets(v)| <= k
    decreases k
  {
    if !(-128 <= v < 128) {
      IntOctetsLength(v / 256, k - 1);
    }
  }

  lemma Int32OctetsLength(v: int32)
    ensures 1 <= |IntOctets(v)| <= 4
  {
    assert Pow256(1) == 256; assert Pow256(2) == 0x1_0000; assert Pow256(3) == 0x100_0000;
    IntOctetsLength(v, 4);
  }

  lemma Uint32OctetsLength(v: uint32)
    ensures 1 <= |IntOctets(v)| <= 5
  {
    assert Pow256(1) == 256; assert Pow256(2) == 0x1_0000; assert Pow256(3) == 0x100_0000;
    assert Pow256(4) == TWO_32;
    IntOctetsLength(v, 5);
  }

  function IntTlv(v: int32): Bytes {
    Tlv(TAG_INTEGER, IntOctets(v))
  }

  function ReadInt(s: Bytes): Option<(int32, Bytes)> {
    var t :- ReadTagged(s, TAG_INTEGER);
    if t.content == [] || |t.content| > 5 then None
    else Some((ToInt32(IntValue(t.content)), t.rest))
  }

  lemma ReadIntOfIntTlv(v: int32, rest: Bytes)
    ensures ReadInt(IntTlv(v) + rest) == Some((v, rest))
  {
    Int32OctetsLength(v);
    IntRoundTrip(v);
    ReadTlvOfTlv(TAG_INTEGER, IntOctets(v), rest);
  }

  // ----- OBJECT IDENTIFIER -----

  /** The leading 7-bit groups of a sub-identifier, each with its continuation bit. */
  function HighGroups(v: nat): Bytes {
    if v == 0 then [] else HighGroups(v / 128) + [v % 128 + 0x80]
  }

  function SubId(v: nat): (r: Bytes)
    ensures |r| >= 1
  {
    HighGroups(v / 128) + [v % 128]
  }

  /** The first sub-identifier combines two arcs, in 32-bit arithmetic. */
  function FirstSubId(oid: Oid): uint32
    requires |oid| >= 2
  {
    ToUint32(oid[0] as int * 40 + oid[1] as int)
  }

  function SubIds(arcs: Oid): Bytes {
    if arcs == [] then [] else SubId(arcs[0]) + SubIds(arcs[1..])
  }

  function OidOctets(oid: Oid): Bytes {
    if |oid| < 2 then [] else SubId(FirstSubId(oid)) + SubIds(oid[2..])
  }

  /** One step of the decoder: shift seven bits into a 32-bit register. */
  function ShiftGroup(acc: uint32, b: byte): uint32 {
    ToUint32(acc as int * 128 + b as int % 128)
  }

  /** Read one sub-identifier; the accumulator is a 32-bit register. */
  function ReadSubId(acc: uint32, s: Bytes): (r: Option<(uint32, Bytes)>)
    ensures r.Some? ==> |r.value.1| < |s|
    decreases |s|
  {
    if s == [] then None
    else
      var v := ShiftGroup(acc, s[0]);
      if s[0] >= 0x80 then ReadSubId(v, s[1..]) else Some((v, s[1..]))
  }

  function ReadSubIds(s: Bytes, max: nat): Option<Oid>
    decreases |s|
  {
    if s == [] then Some([])
    else
      var (v, rest) :- ReadSubId(0, s);
      if max == 0 then None
      else
        var more :- ReadSubIds(rest, max - 1);
        Some([v] + more)
  }

  /** One octet carries the first two arcs, whatever its high bit says. */
  function ReadOidOctets(c: Bytes, max: nat): Option<Oid> {
    if c == [] || max < 2 then None
    else
      var more :- ReadSubIds(c[1..], max - 2);
      Some([c[0] / 40, c[0] % 40] + more)
  }

  function ReadOidUpTo(s: Bytes, max: nat): Option<(Oid, Bytes)> {
    var t :- ReadTagged(s, TAG_OID);
    var oid :- ReadOidOctets(t.content, max);
    Some((oid, t.rest))
  }

  function ReadOid(s: Bytes): Option<(Oid, Bytes)> { ReadOidUpTo(s, MAX_OID_LEN) }

  /** The names that survive a trip through the codec. */
  predicate Encodable(oid: Oid) {
    2 <= |oid| <= MAX_OID_LEN && oid[1] < 40 && oid[0] as int * 40 + oid[1] as int < 128
  }

  lemma ReadSubIdStep(acc: nat, group: nat, s: Bytes)
    requires group < 128 && acc * 128 + group < TWO_32
    ensures ReadSubId(acc, [group + 0x80] + s) == ReadSubId(acc * 128 + group, s)
    ensures ReadSubId(acc, [group] + s) == Some((acc * 128 + group, s))
  {
    ShiftGroupExact(acc, group);
    var more, last := [group + 0x80] + s, [group] + s;
    assert more[1..] == s && last[1..] == s;
    assert more[0] == group + 0x80 && last[0] == group;
  }

  lemma ShiftGroupExact(acc: nat, group: nat)
    requires group < 128 && acc * 128 + group < TWO_32
    ensures ShiftGroup(acc, group) == ShiftGroup(acc, group + 0x80) == acc * 128 + group
  {
  }

  lemma {:induction false} ReadSubIdHighGroups(v: nat, s: Bytes)
    requires v < TWO_32
    ensures ReadSubId(0, HighGroups(v) + s) == ReadSubId(v, s)
  {
    if v == 0 {
      assert HighGroups(v) + s == s;
    } else {
      var t := [v % 128 + 0x80] + s;
      assert HighGroups(v) + s == HighGroups(v / 128) + t;
      ReadSubIdHighGroups(v / 128, t);
      ReadSubIdStep(v / 128, v % 128, s);
    }
  }

  lemma ReadSubIdOfSubId(v: uint32, s: Bytes)
    ensures ReadSubId(0, SubId(v) + s) == Some((v, s))
  {
    var t := [v % 128] + s;
    assert SubId(v) + s == HighGroups(v / 128) + t;
    ReadSubIdHighGroups(v / 128, t);
    ReadSubIdStep(v / 128, v % 128, s);
  }

  lemma {:induction false} ReadSubIdsOfSubIds(arcs: Oid, max: nat)
    ensures ReadSubIds(SubIds(arcs), max) == if |arcs| <= max then Some(arcs) else None
  {
    if arcs != [] {
      ReadSubIdOfSubId(arcs[0], SubIds(arcs[1..]));
      assert [arcs[0]] + arcs[1..] == arcs;
      if max > 0 { ReadSubIdsOfSubIds(arcs[1..], max - 1); }
    }
  }

  /** Every octet of s asks for another one. */
  predicate AllContinue(s: Bytes) { forall i :: 0 <= i < |s| ==> s[i] >= 0x80 }

  lemma {:induction false} HighGroupsContinue(v: nat)
    ensures AllContinue(HighGroups(v)) && (v != 0 ==> |HighGroups(v)| >= 1)
  {
    if v != 0 { HighGroupsContinue(v / 128); }
  }

  /** Continuation octets and one final octet are one sub-identifier. */
  lemma {:induction false} ReadSubIdConsumes(acc: uint32, high: Bytes, low: byte, s: Bytes)
    requires AllContinue(high) && low < 0x80
    ensures var r := ReadSubId(acc, high + [low] + s); r.Some? && r.value.1 == s
    decreases |high|
  {
    var t := high + [low] + s;
    if high == [] {
      assert t[0] == low && t[1..] == s;
    } else {
      assert t[0] == high[0] && t[1..] == high[1..] + [low] + s;
      ReadSubIdConsumes(ShiftGroup(acc, t[0]), high[1..], low, s);
    }
  }

  /** With a first sub-identifier of 128 or more, the decoder takes its extra
      octets for one more arc. */
  lemma WideFirstSubIdAddsAnArc(oid: Oid)
    requires |oid| >= 2 && FirstSubId(oid) >= 128
    ensures var r := ReadOidOctets(OidOctets(oid), MAX_OID_LEN); r.Some? ==> |r.value| == |oid| + 1
  {
    var f := FirstSubId(oid);
    var high := HighGroups(f / 128);
    HighGroupsContinue(f / 128);
    var c := OidOctets(oid);
    var tail := high[1..] + [f % 128] + SubIds(oid[2..]);
    assert c[1..] == tail;
    ReadSubIdConsumes(0, high[1..], f % 128, SubIds(oid[2..]));
    ReadSubIdsOfSubIds(oid[2..], MAX_OID_LEN - 3);
  }

  lemma NarrowFirstSubId(oid: Oid)
    requires |oid| >= 2 && FirstSubId(oid) < 128
    ensures ReadOidOctets(OidOctets(oid), MAX_OID_LEN)
         == if |oid| > MAX_OID_LEN then None
            else Some([FirstSubId(oid) / 40, FirstSubId(oid) % 40] + oid[2..])
  {
    var f := FirstSubId(oid);
    assert SubId(f) == [f];
    assert OidOctets(oid)[1..] == SubIds(oid[2..]);
    ReadSubIdsOfSubIds(oid[2..], MAX_OID_LEN - 2);
  }

  /** Exactly the encodable names come back (section 8.19 of X.690). The wire
      format has no other limit: the shortfall is the decoder's fixed capacity
      and its one octet for the first two arcs. */
  lemma OidRoundTrip(oid: Oid)
    ensures ReadOidOctets(OidOctets(oid), MAX_OID_LEN) == Some(oid) <==> Encodable(oid)
  {
    if |oid| >= 2 {
      if FirstSubId(oid) >= 128 {
        WideFirstSubIdAddsAnArc(oid);
      } else {
        NarrowFirstSubId(oid);
        SplitFirstSubId(oid);
      }
    }
  }

  lemma SplitFirstSubId(oid: Oid)
    requires |oid| >= 2 && FirstSubId(oid) < 128
    ensures [FirstSubId(oid) / 40, FirstSubId(oid) % 40] + oid[2..] == oid
       <==> oid[1] < 40 && oid[0] as int * 40 + oid[1] as int < 128
  {
    var f := FirstSubId(oid);
    SplitArcs(oid[0], oid[1], f);
    var back: Oid := [f / 40, f % 40] + oid[2..];
    assert back[0] == f / 40 && back[1] == f % 40 && back[2..] == oid[2..];
    assert oid == [oid[0], oid[1]] + oid[2..];
  }

  lemma SplitArcs(a: uint32, b: uint32, f: nat)
    requires f == ToUint32(a as int * 40 + b as int) && f < 128
    ensures a == f / 40 && b == f % 40 <==> b < 40 && a as int * 40 + b as int < 128
  {
  }

  /** Whatever octets a name was read from, writing it again is faithful exactly
      when the first octet had its high bit clear. */
  lemma ReadNameEncodable(c: Bytes)
    requires ReadOidOctets(c, MAX_OID_LEN).Some?
    ensures var oid := ReadOidOctets(c, MAX_OID_LEN).value; Encodable(oid) <==> c[0] < 0x80
  {
    var more := ReadSubIds(c[1..], MAX_OID_LEN - 2);
    ReadSubIdsBounded(c[1..], MAX_OID_LEN - 2);
    var oid := ReadOidOctets(c, MAX_OID_LEN).value;
    assert oid[0] == c[0] / 40 && oid[1] == c[0] % 40;
    assert |oid| == 2 + |more.value|;
  }

  lemma {:induction false} ReadSubIdsBounded(s: Bytes, max: nat)
    ensures ReadSubIds(s, max).Some? ==> |ReadSubIds(s, max).value| <= max
    decreases |s|
  {
    if s != [] && max > 0 {
      var r := ReadSubId(0, s);
      if r.Some? { ReadSubIdsBounded(r.value.1, max - 1); }
    }
  }

  function OidTlv(oid: Oid): Bytes {
    Tlv(TAG_OID, OidOctets(oid))
  }

  // ----- what the decoder accepts -----

  /** The octets that say a length: one below 0x80, or a count of 1 to 4 and that many. */
  ghost predicate LengthForm(o: Bytes, n: nat) {
    || (|o| == 1 && o[0] < 0x80 && o[0] == n)
    || (2 <= |o| <= 5 && o[0] as int == 0x80 + (|o| - 1) && Fold(0, o[1..]) == n)
  }

  /** A TLV is read exactly from a tag, octets that say the length, and the content. */
  lemma ReadTlvExactly(s: Bytes, tag: byte, content: Bytes, rest: Bytes)
    ensures ReadTlv(s) == Some(TlvRead(tag, content, rest))
       <==> exists o :: LengthForm(o, |content|) && s == [tag] + o + content + rest
  {
    hide ReadTlv, LengthForm;
    if ReadTlv(s) == Some(TlvRead(tag, content, rest)) { var o := TlvHasForm(s); }
    if o :| LengthForm(o, |content|) && s == [tag] + o + content + rest { FormIsRead(tag, o, content, rest); }
  }

  lemma TlvHasForm(s: Bytes) returns (o: Bytes)
    requires ReadTlv(s).Some?
    ensures var t := ReadTlv(s).value; LengthForm(o, |t.content|) && s == [t.tag] + o + t.content + t.rest
  {
    var h := ReadHeader(s).value;
    o := s[1..h.size];
    if s[1] >= 0x80 { assert o[1..] == s[2..h.size]; }
    var body := s[h.size..];
    assert s == [s[0]] + o + body && body == body[..h.len] + body[h.len..];
    hide Fold;
  }

  lemma FormIsRead(tag: byte, o: Bytes, content: Bytes, rest: Bytes)
    requires LengthForm(o, |content|)
    ensures ReadTlv([tag] + o + content + rest) == Some(TlvRead(tag, content, rest))
  {
    hide Fold, ReadTlv;
    SplitOfConcat(tag, content, rest);
    var s := [tag] + o + content + rest;
    if |o| == 1 {
      ReadShortLength(tag, |content|, content + rest);
      assert s == [tag, |content|] + (content + rest);
    } else {
      ReadLongLength(tag, o[1..], content + rest);
      assert s == [tag, 0x80 + (|o| - 1)] + o[1..] + (content + rest);
    }
  }

  /** An INTEGER is accepted with one to five octets, and nothing else is one. */
  lemma ReadIntExactly(tag: byte, content: Bytes, rest: Bytes)
    requires |content| < TWO_32
    ensures ReadInt(Tlv(tag, content) + rest)
         == if tag == 0x02 && 1 <= |content| <= 5 then Some((ToInt32(IntValue(content)), rest)) else None
  {
    hide Tlv, IntValue, ToInt32;
    ReadTlvOfTlv(tag, content, rest);
  }

  /** The octets that end a sub-identifier. */
  function Ends(s: Bytes): nat { if s == [] then 0 else (if s[0] < 0x80 then 1 else 0) + Ends(s[1..]) }

  lemma {:induction false} ReadSubIdEnds(acc: uint32, s: Bytes)
    ensures var r := ReadSubId(acc, s);
      && (r.Some? <==> Ends(s) > 0)
      && (r.Some? ==> Ends(r.value.1) == Ends(s) - 1
                      && (r.value.1 != [] ==> r.value.1[|r.value.1| - 1] == s[|s| - 1])
                      && (r.value.1 == [] ==> s[|s| - 1] < 0x80))
    decreases |s|
  {
    if s != [] && s[0] >= 0x80 { ReadSubIdEnds(ShiftGroup(acc, s[0]), s[1..]); }
  }

  lemma {:induction false} ReadSubIdsExactly(s: Bytes, max: nat)
    ensures ReadSubIds(s, max).Some? <==> s == [] || (s[|s| - 1] < 0x80 && Ends(s) <= max)
    ensures ReadSubIds(s, max).Some? ==> |ReadSubIds(s, max).value| == Ends(s)
    decreases |s|
  {
    if s != [] {
      ReadSubIdEnds(0, s);
      var r := ReadSubId(0, s);
      if r.Some? && max > 0 { ReadSubIdsExactly(r.value.1, max - 1); }
      if s[|s| - 1] < 0x80 { LastEnds(s); }
    }
  }

  lemma {:induction false} LastEnds(s: Bytes)
    requires s != [] && s[|s| - 1] < 0x80
    ensures Ends(s) > 0
  {
    if |s| > 1 { LastEnds(s[1..]); }
  }

  /** An OID is accepted exactly with at least one octet, no dangling continuation bit and
      no more arcs than fit; it has two arcs more than sub-identifiers behind the first. */
  lemma ReadOidExactly(c: Bytes, max: nat)
    ensures ReadOidOctets(c, max).Some?
       <==> c != [] && max >= 2 && (|c| == 1 || c[|c| - 1] < 0x80) && Ends(c[1..]) + 2 <= max
    ensures ReadOidOctets(c, max).Some? ==> |ReadOidOctets(c, max).value| == Ends(c[1..]) + 2
  {
    if c != [] && max >= 2 { ReadSubIdsExactly(c[1..], max - 2); }
  }
}
