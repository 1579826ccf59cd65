/** The forward decoder of lib/snmp/snmp_ber.c: a cursor over a received
    datagram, checked against the pure readers of BerSpec. */
module BerDecoder {
  import opened Common
  import opened BerSpec

  class Decoder {
    const buf: array<byte>
    var p: nat
    const end: nat

    ghost predicate Valid() reads this { p <= end <= buf.Length }

    /** The octets not yet consumed. */
    ghost function Rest(): Bytes
      requires Valid()
      reads this, buf
    {
      buf[p..end]
    }

    constructor (buf: array<byte>, start: nat, len: nat)
      requires start + len <= buf.Length
      ensures Valid() && this.buf == buf && Rest() == buf[start..start + len]
      ensures p == start && end == start + len
    {
      this.buf := buf;
      p := start;
      end := start + len;
    }

    predicate Done() reads this { p >= end }

    /** Read a TLV header and step over the value, which stays in the buffer. */
    method GetTlv() returns (ok: bool, tag: byte, c: nat, n: nat)
      requires Valid()
      modifies this`p
      ensures Valid()
      ensures ok <==> ReadTlv(old(Rest())).Some?
      ensures ok ==>
          c + n <= end && ReadTlv(old(Rest())) == Some(TlvRead(tag, buf[c..c + n], Rest()))
    {
      ghost var s := Rest();
      c, n := 0, 0;
      var len;
      ok, tag, len := GetHeader();
      if !ok || end - p < len {
        ok := false;
        return;
      }
      ghost var k := p - old(p);
      c, n := p, len;
      p := p + len;
      SplitAt(s, k, len);
      SliceOfSlice(buf[..], old(p), end, k, len);
    }

    /** A tag and a length, up to the first octet of the value. */
    method GetHeader() returns (ok: bool, tag: byte, len: nat)
      requires Valid()
      modifies this`p
      ensures Valid() && p >= old(p)
      ensures ok <==> ReadHeader(old(Rest())).Some?
      ensures ok ==> ReadHeader(old(Rest())) == Some(Header(tag, len, p - old(p)))
    {
      ok, tag, len := false, 0, 0;
      if p >= end { return; }
      tag := buf[p];
      p := p + 1;
      if p >= end { return; }
      var l0 := buf[p];
      p := p + 1;
      if l0 < 0x80 {
        ok, len := true, l0;
        return;
      }
      var nbytes := l0 - 0x80;
      if nbytes == 0 || nbytes > 4 || p + nbytes > end { return; }
      SliceOfSlice(buf[..], old(p), end, 2, nbytes);
      assert Rest()[..nbytes] == buf[old(p) + 2..old(p) + 2 + nbytes];
      ok := true;
      len := GetLength(nbytes);
    }

    /** The octets of a long-form length. */
    method GetLength(nbytes: nat) returns (len: nat)
      requires Valid() && p + nbytes <= end
      modifies this`p
      ensures Valid() && p == old(p) + nbytes
      ensures len == Fold(0, old(Rest())[..nbytes])
    {
      ghost var s := Rest();
      len := 0;
      var i := 0;
      while i < nbytes
        invariant 0 <= i <= nbytes && p == old(p) + i
        invariant len == Fold(0, s[..i])
      {
        assert s[..i + 1][..i] == s[..i] && s[..i + 1][i] == buf[p];
        len := len * 256 + buf[p];
        p := p + 1;
        i := i + 1;
      }
    }

    /** Open a nested decoder over the content of the next TLV. */
    method Enter(tag: byte) returns (ok: bool, inner: Decoder)
      requires Valid()
      modifies this`p
      ensures Valid() && fresh(inner) && inner.Valid() && inner.buf == buf
      ensures ok <==> ReadTagged(old(Rest()), tag).Some?
      ensures ok ==> ReadTagged(old(Rest()), tag) == Some(TlvRead(tag, inner.Rest(), Rest()))
    {
      var t, c, n;
      ok, t, c, n := GetTlv();
      ok := ok && t == tag;
      inner := new Decoder(buf, if ok then c else 0, if ok then n else 0);
    }

    method GetInt() returns (ok: bool, v: int32)
      requires Valid()
      modifies this`p
      ensures Valid()
      ensures ok <==> ReadInt(old(Rest())).Some?
      ensures ok ==> ReadInt(old(Rest())) == Some((v, Rest()))
    {
      var t, c, n;
      v := 0;
      ok, t, c, n := GetTlv();
      if !ok || t != TAG_INTEGER || n == 0 || n > 5 {
        ok := false;
        return;
      }
      var val := SignExtend(c, n);
      v := ToInt32(val);
    }

    /** Shift octets into a register that starts as their sign. */
    method SignExtend(c: nat, n: nat) returns (val: int)
      requires c + n <= buf.Length && n > 0
      ensures val == IntValue(buf[c..c + n])
    {
      val := if buf[c] >= 0x80 then -1 else 0;
      ghost var sign, s := val, buf[c..c + n];
      var i := 0;
      while i < n
        invariant 0 <= i <= n
        invariant val == Fold(sign, s[..i])
      {
        assert s[..i + 1][..i] == s[..i] && s[..i + 1][i] == buf[c + i];
        val := val * 256 + buf[c + i];
        i := i + 1;
      }
      assert s[..n] == s;
    }

    method GetOctet() returns (ok: bool, s: nat, n: nat)
      requires Valid()
      modifies this`p
      ensures Valid()
      ensures ok <==> ReadTagged(old(Rest()), TAG_OCTET_STR).Some?
      ensures ok ==>
          && s + n <= end
          && ReadTagged(old(Rest()), TAG_OCTET_STR)
             == Some(TlvRead(TAG_OCTET_STR, buf[s..s + n], Rest()))
    {
      var t;
      ok, t, s, n := GetTlv();
      ok := ok && t == TAG_OCTET_STR;
    }

    method GetOid(max: nat) returns (ok: bool, oid: Oid)
      requires Valid()
      modifies this`p
      ensures Valid()
      ensures ok <==> ReadOidUpTo(old(Rest()), max).Some?
      ensures ok ==> ReadOidUpTo(old(Rest()), max) == Some((oid, Rest()))
    {
      var t, c, clen;
      oid := [];
      ok, t, c, clen := GetTlv();
      if !ok || t != TAG_OID || clen == 0 || 2 > max {
        ok := false;
        return;
      }
      ok, oid := GetArcs(c, clen, max);
    }

    /** The arcs of an OID's content. */
    method GetArcs(c: nat, clen: nat, max: nat) returns (ok: bool, oid: Oid)
      requires Valid() && c + clen <= buf.Length && clen > 0 && max >= 2
      ensures ReadOidOctets(buf[c..c + clen], max) == if ok then Some(oid) else None
    {
      ghost var s := buf[c..c + clen];
      var first := buf[c];
      oid := [first / 40, first % 40];
      ok := true;
      var i := 1;
      while i < clen
        invariant 1 <= i <= clen && 2 <= |oid| <= max
        invariant ReadOidOctets(s, max) == Append(oid, ReadSubIds(s[i..], max - |oid|))
      {
        var more, v, next := NextSubId(c, clen, i);
        if !more || |oid| >= max {
          ok := false;
          return;
        }
        AppendSnoc(oid, v, ReadSubIds(s[next..], max - |oid| - 1));
        oid := oid + [v];
        i := next;
      }
      assert s[clen..] == [] && oid + [] == oid;
    }

    /** One sub-identifier of an OID's content; more is false for a dangling
        continuation bit. */
    method NextSubId(c: nat, clen: nat, from: nat) returns (more: bool, v: uint32, i: nat)
      requires Valid() && c + clen <= buf.Length && from < clen
      ensures var s := buf[c..c + clen];
        if more then from < i <= clen && ReadSubId(0, s[from..]) == Some((v, s[i..]))
        else ReadSubId(0, s[from..]) == None
    {
      ghost var s := buf[c..c + clen];
      v, i, more := 0, from, true;
      while true
        invariant from <= i <= clen
        invariant ReadSubId(0, s[from..]) == ReadSubId(v, s[i..])
        decreases clen - i
      {
        if i >= clen {
          more := false;
          return;
        }
        assert s[i..][1..] == s[i + 1..];
        v := ShiftGroup(v, buf[c + i]);
        i := i + 1;
        if buf[c + i - 1] < 0x80 { return; }
      }
    }
  }

  /** Arcs already read, followed by what the rest of the content gives. */
  function Append(oid: Oid, more: Option<Oid>): Option<Oid> {
    match more
    case None => None
    case Some(m) => Some(oid + m)
  }

  lemma AppendSnoc(oid: Oid, v: uint32, more: Option<Oid>)
    ensures Append(oid, Append([v], more)) == Append(oid + [v], more)
  {
    if more.Some? { assert oid + ([v] + more.value) == oid + [v] + more.value; }
  }

  lemma SliceOfSlice(s: Bytes, from: nat, to: nat, k: nat, len: nat)
    requires from <= to <= |s| && k + len <= to - from
    ensures s[from..to][k..k + len] == s[from + k..from + k + len]
  {
    var a, b := s[from..to][k..k + len], s[from + k..from + k + len];
    assert |a| == |b|;
    assert forall i :: 0 <= i < |a| ==> a[i] == b[i];
  }

  /** Content and rest of a TLV whose content starts at octet k. */
  lemma SplitAt(s: Bytes, k: nat, len: nat)
    requires k + len <= |s|
    ensures s[k..][..len] == s[k..k + len] && s[k..][len..] == s[k + len..]
  {
  }
}
