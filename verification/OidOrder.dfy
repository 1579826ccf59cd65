/** The lexicographic order on object identifiers (oid_cmp in lib/snmp/snmp_ber.c). */
module OidOrder {
  import opened BerSpec

  /** Negative, zero or positive as a comes before, equals or follows b. */
  function Cmp(a: Oid, b: Oid): (r: int)
    ensures -1 <= r <= 1
    decreases |a|
  {
    if a == [] && b == [] then 0
    else if a == [] then -1
    else if b == [] then 1
    else if a[0] != b[0] then (if a[0] < b[0] then -1 else 1)
    else Cmp(a[1..], b[1..])
  }

  /** The code's form: scan the common length, then let the shorter one win. */
  method OidCmp(a: Oid, b: Oid) returns (r: int)
    ensures r == Cmp(a, b)
  {
    var n := if |a| < |b| then |a| else |b|;
    var i := 0;
    while i < n
      invariant 0 <= i <= n
      invariant Cmp(a, b) == Cmp(a[i..], b[i..])
    {
      if a[i] != b[i] {
        return if a[i] < b[i] then -1 else 1;
      }
      assert a[i..][1..] == a[i + 1..] && b[i..][1..] == b[i + 1..];
      i := i + 1;
    }
    if |a| == |b| {
      return 0;
    }
    return if |a| < |b| then -1 else 1;
  }

  // A total order.

  lemma {:induction false} CmpZero(a: Oid, b: Oid)
    ensures Cmp(a, b) == 0 <==> a == b
    decreases |a|
  {
    if a != [] && b != [] {
      CmpZero(a[1..], b[1..]);
      if a[0] == b[0] {
        assert a == [a[0]] + a[1..] && b == [b[0]] + b[1..];
      }
    }
  }

  lemma {:induction false} CmpFlip(a: Oid, b: Oid)
    ensures Cmp(b, a) == -Cmp(a, b)
    decreases |a|
  {
    if a != [] && b != [] { CmpFlip(a[1..], b[1..]); }
  }

  lemma {:induction false} CmpTrans(a: Oid, b: Oid, c: Oid)
    requires Cmp(a, b) <= 0 && Cmp(b, c) <= 0
    ensures Cmp(a, c) <= 0
    ensures Cmp(a, b) < 0 || Cmp(b, c) < 0 ==> Cmp(a, c) < 0
    decreases |a|
  {
    if a != [] && b != [] && c != [] && a[0] == b[0] == c[0] {
      CmpTrans(a[1..], b[1..], c[1..]);
    }
  }

  lemma OidCmpIsTotalOrder()
    ensures forall a, b :: Cmp(a, b) == 0 <==> a == b
    ensures forall a, b :: Cmp(b, a) == -Cmp(a, b)
    ensures forall a, b, c :: Cmp(a, b) <= 0 && Cmp(b, c) <= 0 ==> Cmp(a, c) <= 0
  {
    forall a, b ensures Cmp(a, b) == 0 <==> a == b { CmpZero(a, b); }
    forall a, b ensures Cmp(b, a) == -Cmp(a, b) { CmpFlip(a, b); }
    forall a, b, c | Cmp(a, b) <= 0 && Cmp(b, c) <= 0
      ensures Cmp(a, c) <= 0
    {
      CmpTrans(a, b, c);
    }
  }

  /** The first differing arc decides. */
  lemma {:induction false} CmpAt(a: Oid, b: Oid, k: nat)
    requires k < |a| && k < |b| && a[..k] == b[..k] && a[k] < b[k]
    ensures Cmp(a, b) < 0
    decreases k
  {
    if k > 0 {
      assert a[0] == a[..k][0] == b[..k][0] == b[0];
      assert a[1..][..k - 1] == a[..k][1..] == b[..k][1..] == b[1..][..k - 1];
      CmpAt(a[1..], b[1..], k - 1);
    }
  }
}
