/** The backward encoder of lib/snmp/snmp_ber.c: a message grows from the end of
    a fixed buffer toward its front, and the first write that does not fit marks
    the encoder for good. */
module BerEncoder {
  import opened Common
  import opened BerSpec

  /** What the buffer holds after writing b in front of what it held; None is
      the overflow mark. */
  function Prepend(out: Option<Bytes>, b: Bytes, cap: nat): Option<Bytes> {
    match out
    case None => None
    case Some(s) => if |b| + |s| <= cap then Some(b + s) else None
  }

  /** Overflow is exact and sticky: two writes overflow exactly when their
      concatenation does. */
  lemma PrependTwice(out: Option<Bytes>, a: Bytes, b: Bytes, cap: nat)
    ensures Prepend(Prepend(out, a, cap), b, cap) == Prepend(out, b + a, cap)
  {
    if out.Some? { assert b + (a + out.value) == (b + a) + out.value; }
  }

  lemma Regroup<T>(a: seq<T>, x: T, b: seq<T>)
    ensures a + [x] + b == a + ([x] + b)
  {
  }

  /** (uint32_t)((int32_t)u >> 8): an arithmetic shift keeps the sign. */
  function ShiftRight8(u: uint32): uint32 { ToUint32(ToInt32(u) / 256) }

  /** The encoder's exit test: nothing is left but the sign of the octet just taken. */
  predicate OnlySignLeft(next: uint32, taken: byte) {
    (next == 0 && taken < 0x80) || (next == 0xFFFF_FFFF && taken >= 0x80)
  }

  lemma ShiftRight8Value(u: uint32)
    ensures ToInt32(ShiftRight8(u)) == ToInt32(u) / 256
    ensures u % 256 == ToInt32(u) % 256
    ensures OnlySignLeft(ShiftRight8(u), u % 256) <==> -128 <= ToInt32(u) < 128
  {
    var v := ToInt32(u);
    assert v == u || v == u - TWO_32;
    CastBack(v / 256);
    LastOctet(v);
  }

  lemma CastBack(v: int32)
    ensures ToInt32(ToUint32(v)) == v
    ensures ToUint32(v) == if v < 0 then v + TWO_32 else v
  {
  }

  lemma LastOctet(v: int)
    ensures (v + TWO_32) % 256 == v % 256
    ensures 0 <= v / 256 < 1 && v % 256 < 0x80 <==> 0 <= v < 128
    ensures v / 256 == -1 && v % 256 >= 0x80 <==> -128 <= v < 0
  {
  }

  /** One step of the encoder's do-while loop, in terms of the value. */
  lemma IntStep(u: uint32, sofar: Bytes)
    ensures var next := ShiftRight8(u);
      IntOctets(ToInt32(u)) + Reverse<byte>(sofar)
        == (if OnlySignLeft(next, u % 256) then [] else IntOctets(ToInt32(next)))
           + Reverse<byte>(sofar + [u % 256])
  {
    var w := ToInt32(u);
    ShiftRight8Value(u);
    ReverseSnoc<byte>(sofar, u % 256);
    var left := if -128 <= w < 128 then [] else IntOctets(w / 256);
    assert IntOctets(w) == left + [u % 256];
    Regroup<byte>(left, u % 256, Reverse<byte>(sofar));
  }

  /** The digits of v with at least one octet, as a do-while loop takes them. */
  function LowDigits(v: nat): (r: Bytes)
    ensures |r| >= 1
  {
    Digits(v / 256) + [v % 256]
  }

  lemma LowDigitsLength(v: uint32)
    ensures |LowDigits(v)| <= 4
  {
    assert Pow256(1) == 256; assert Pow256(2) == 0x1_0000; assert Pow256(3) == 0x100_0000;
    DigitsLength(v / 256, 3);
  }

  lemma {:induction false} HighGroupsLength(v: nat)
    requires v < 0x1000_0000
    ensures |HighGroups(v)| <= 4
  {
    assert forall w :: 0 <= w < 128 ==> |HighGroups(w)| <= 1;
    assert forall w :: 0 <= w < 0x4000 ==> |HighGroups(w)| <= 2;
    assert forall w :: 0 <= w < 0x20_0000 ==> |HighGroups(w)| <= 3;
  }

  /** Unsigned digits, with a zero octet in front when the first would read as a
      sign, are the shortest two's-complement form. */
  lemma {:induction false} UintOctets(v: nat)
    ensures IntOctets(v) == (if LowDigits(v)[0] >= 0x80 then [0] else []) + LowDigits(v)
  {
    if v >= 256 {
      UintOctets(v / 256);
      assert Digits(v / 256) == LowDigits(v / 256);
      assert LowDigits(v)[0] == LowDigits(v / 256)[0];
    } else {
      assert Digits(v / 256) == [];
      assert LowDigits(v) == [v];
    }
  }

  lemma PrependNothing(out: Option<Bytes>, cap: nat)
    requires out.Some? ==> |out.value| <= cap
    ensures Prepend(out, [], cap) == out
  {
    if out.Some? { assert [] + out.value == out.value; }
  }

  class Encoder {
    const base: array<byte>
    var pos: nat
    var overflow: bool

    ghost predicate Valid() reads this { pos <= base.Length < TWO_32 }

    /** The content written so far, or None after an overflow. */
    ghost function Out(): Option<Bytes>
      requires Valid()
      reads this, base
    {
      if overflow then None else Some(base[pos..])
    }

    /** One write: Out() grows by b at the front if it fits, and the buffer is
        left alone once the encoder has overflowed. */
    twostate predicate Wrote(b: Bytes)
      requires old(Valid())
      reads this, base
    {
      && Valid()
      && Out() == Prepend(old(Out()), b, base.Length)
      && (old(overflow) ==> pos == old(pos) && base[..] == old(base[..]))
      && pos <= old(pos)
    }

    constructor (buf: array<byte>)
      requires buf.Length < TWO_32
      ensures Valid() && base == buf && Out() == Some([])
    {
      base := buf;
      pos := buf.Length;
      overflow := false;
      new;
      assert base[pos..] == [];
    }

    method Length() returns (n: nat)
      requires Valid()
      ensures n == match Out() case None => 0 case Some(s) => |s|
    {
      n := if overflow then 0 else base.Length - pos;
    }

    method PutByte(b: byte)
      requires Valid()
      modifies this`pos, this`overflow, base
      ensures Wrote([b])
    {
      if overflow || pos == 0 {
        overflow := true;
        return;
      }
      pos := pos - 1;
      base[pos] := b;
      assert base[pos..] == [b] + old(base[pos..]);
    }

    /** Prepend n octets of src, keeping their order. */
    method PutBytes(src: Bytes)
      requires Valid()
      modifies this`pos, this`overflow, base
      ensures Wrote(src)
    {
      var i := |src|;
      assert src[i..] == [];
      PrependNothing(Out(), base.Length);
      while i > 0
        invariant 0 <= i <= |src|
        invariant Wrote(src[i..])
      {
        i := i - 1;
        PrependTwice(old(Out()), src[i + 1..], [src[i]], base.Length);
        assert [src[i]] + src[i + 1..] == src[i..];
        PutByte(src[i]);
      }
      assert src[0..] == src;
    }

    /** Emit little-endian scratch octets: the last one ends up in front. */
    method PutReversed(tmp: array<byte>, n: nat)
      requires Valid() && n <= tmp.Length && tmp != base
      modifies this`pos, this`overflow, base
      ensures Wrote(Reverse<byte>(tmp[..n]))
    {
      var i := 0;
      PrependNothing(Out(), base.Length);
      while i < n
        invariant 0 <= i <= n
        invariant Wrote(Reverse(tmp[..i]))
      {
        PrependTwice(old(Out()), Reverse(tmp[..i]), [tmp[i]], base.Length);
        ReverseSnoc<byte>(tmp[..i], tmp[i]);
        assert tmp[..i + 1] == tmp[..i] + [tmp[i]];
        PutByte(tmp[i]);
        i := i + 1;
      }
    }

    method PutLen(len: nat)
      requires Valid() && len < TWO_32
      modifies this`pos, this`overflow, base
      ensures Wrote(LengthOctets(len))
    {
      if len < 0x80 {
        PutByte(len);
        return;
      }
      var tmp, n := LittleEndian(len);
      PutReversed(tmp, n);
      PrependTwice(old(Out()), Digits(len), [0x80 + n], base.Length);
      PutByte(0x80 + n);
    }

    /** Wrap what was written since mark in a length and a tag. */
    method Wrap(mark: nat, tag: byte, ghost before: Option<Bytes>, ghost content: Bytes)
      requires Valid() && pos <= mark <= base.Length
      requires Out() == Prepend(before, content, base.Length)
      requires before.Some? ==> mark == base.Length - |before.value|
      modifies this`pos, this`overflow, base
      ensures Closed(Prepend(before, Tlv(tag, content), base.Length))
    {
      assert Out().Some? ==> |Out().value| == base.Length - pos;
      PutHeader(tag, content, mark - pos, before);
    }

    /** The result of putting a header in front of content already written. */
    twostate predicate Closed(out: Option<Bytes>)
      reads this, base
    {
      && Valid()
      && Out() == out
      && (old(overflow) ==> pos == old(pos) && base[..] == old(base[..]))
      && pos <= old(pos)
    }

    /** Length, then tag, of a value whose content has just been written. */
    method PutHeader(tag: byte, ghost content: Bytes, n: nat, ghost before: Option<Bytes>)
      requires Valid() && n < TWO_32
      requires Out() == Prepend(before, content, base.Length)
      requires Out().Some? ==> n == |content|
      modifies this`pos, this`overflow, base
      ensures Closed(Prepend(before, Tlv(tag, content), base.Length))
    {
      PutLen(n);
      PutByte(tag);
      PrependTwice(old(Out()), LengthOctets(n), [tag], base.Length);
      PrependTwice(before, content, [tag] + LengthOctets(|content|), base.Length);
    }

    method PutInt(v: int32)
      requires Valid()
      modifies this`pos, this`overflow, base
      ensures Wrote(IntTlv(v))
    {
      var tmp, n := LittleEndianSigned(v);
      PutContent(TAG_INTEGER, tmp, n);
    }

    /** The shortest two's-complement octets of v, low first. */
    method LittleEndianSigned(v: int32) returns (tmp: array<byte>, n: nat)
      ensures fresh(tmp) && tmp.Length == 4 && 1 <= n <= 4
      ensures Reverse<byte>(tmp[..n]) == IntOctets(v)
    {
      hide ShiftRight8, OnlySignLeft, IntOctets;
      tmp := new byte[4];
      n := 0;
      var u := ToUint32(v);
      var more := true;
      assert ToInt32(u) == v;
      hide ToInt32, ToUint32;
      Int32OctetsLength(v);
      while more
        invariant 0 <= n <= 4
        invariant IntOctets(v)
               == (if more then IntOctets(ToInt32(u)) else []) + Reverse<byte>(tmp[..n])
        decreases more, 4 - n
        modifies tmp
      {
        ghost var sofar := tmp[..n];
        IntStep(u, sofar);
        tmp[n] := u % 256;
        assert tmp[..n + 1] == sofar + [u % 256];
        n := n + 1;
        u := ShiftRight8(u);
        more := !OnlySignLeft(u, tmp[n - 1]);
      }
    }

    /** Little-endian scratch octets, their length, the tag. */
    method PutContent(tag: byte, tmp: array<byte>, n: nat)
      requires Valid() && n <= tmp.Length < 0x80 && tmp != base
      modifies this`pos, this`overflow, base
      ensures Wrote(Tlv(tag, Reverse<byte>(tmp[..n])))
    {
      PutReversed(tmp, n);
      PutHeader(tag, Reverse<byte>(tmp[..n]), n, old(Out()));
    }

    method PutUintTagged(v: uint32, tag: byte)
      requires Valid()
      modifies this`pos, this`overflow, base
      ensures Wrote(Tlv(tag, IntOctets(v)))
    {
      var tmp, n := LittleEndian(v);
      ghost var digits := tmp[..n];
      UintOctets(v);
      if tmp[n - 1] >= 0x80 {
        ReverseSnoc<byte>(digits, 0);
        tmp[n] := 0;
        n := n + 1;
        assert tmp[..n] == digits + [0];
      }
      assert Reverse<byte>(tmp[..n]) == IntOctets(v);
      PutContent(tag, tmp, n);
    }

    /** The octets of v, low first, in a scratch buffer with room for one more. */
    method LittleEndian(v: uint32) returns (tmp: array<byte>, n: nat)
      ensures fresh(tmp) && tmp.Length == 5 && 1 <= n <= 4
      ensures Reverse<byte>(tmp[..n]) == LowDigits(v)
    {
      tmp := new byte[5];
      tmp[0] := v % 256;
      assert tmp[..1] == [v % 256];
      var rest: nat;
      n, rest := 1, v / 256;
      LowDigitsLength(v);
      while rest > 0
        invariant 1 <= n <= 4
        invariant LowDigits(v) == Digits(rest) + Reverse<byte>(tmp[..n])
        decreases rest
        modifies tmp
      {
        ghost var sofar := tmp[..n];
        ReverseSnoc<byte>(sofar, rest % 256);
        Regroup<byte>(Digits(rest / 256), rest % 256, Reverse<byte>(sofar));
        tmp[n] := rest % 256;
        assert tmp[..n + 1] == sofar + [rest % 256];
        n, rest := n + 1, rest / 256;
      }
    }

    method PutOctetStr(s: Bytes)
      requires Valid() && |s| < TWO_32
      modifies this`pos, this`overflow, base
      ensures Wrote(Tlv(TAG_OCTET_STR, s))
    {
      PutBytes(s);
      PutHeader(TAG_OCTET_STR, s, |s|, old(Out()));
    }

    /** One sub-identifier: 7-bit groups, all but the last marked to continue. */
    method PutSubId(v: uint32)
      requires Valid()
      modifies this`pos, this`overflow, base
      ensures Wrote(SubId(v))
    {
      var tmp := new byte[5];
      tmp[0] := v % 128;
      assert tmp[..1] == [v % 128];
      var m: nat, rest: nat := 1, v / 128;
      HighGroupsLength(v / 128);
      while rest > 0
        invariant 1 <= m <= 5
        invariant SubId(v) == HighGroups(rest) + Reverse<byte>(tmp[..m])
        decreases rest
        modifies tmp
      {
        ghost var sofar := tmp[..m];
        ReverseSnoc<byte>(sofar, rest % 128 + 0x80);
        Regroup<byte>(HighGroups(rest / 128), rest % 128 + 0x80, Reverse<byte>(sofar));
        tmp[m] := rest % 128 + 0x80;
        assert tmp[..m + 1] == sofar + [rest % 128 + 0x80];
        m, rest := m + 1, rest / 128;
      }
      assert SubId(v) == Reverse<byte>(tmp[..m]);
      PutReversed(tmp, m);
    }

    method PutOid(oid: Oid)
      requires Valid()
      modifies this`pos, this`overflow, base
      ensures Wrote(OidTlv(oid))
    {
      if |oid| < 2 {
        PrependNothing(Out(), base.Length);
        PutHeader(TAG_OID, [], 0, Out());
        return;
      }
      var start := pos;
      var i := |oid|;
      assert oid[i..] == [];
      PrependNothing(Out(), base.Length);
      while i > 2
        invariant 2 <= i <= |oid|
        invariant Wrote(SubIds(oid[i..]))
      {
        i := i - 1;
        PrependTwice(old(Out()), SubIds(oid[i + 1..]), SubId(oid[i]), base.Length);
        assert oid[i..] == [oid[i]] + oid[i + 1..];
        PutSubId(oid[i]);
      }
      PrependTwice(old(Out()), SubIds(oid[2..]), SubId(FirstSubId(oid)), base.Length);
      PutSubId(FirstSubId(oid));
      assert Out().Some? ==> |Out().value| == base.Length - pos;
      PutHeader(TAG_OID, OidOctets(oid), start - pos, old(Out()));
    }

    /** A NULL or an exception: a tag and a zero length. */
    method PutEmpty(tag: byte)
      requires Valid()
      modifies this`pos, this`overflow, base
      ensures Wrote(Tlv(tag, []))
    {
      PutByte(0);
      PutByte(tag);
      PrependTwice(old(Out()), [0], [tag], base.Length);
      assert Tlv(tag, []) == [tag] + [0];
    }
  }
}
