/** The MIB view (lib/snmp/snmp_mib.c): leaves that derive their OIDs, kept in
    walk order. */
module Mib {
  import opened Common
  import opened BerSpec
  import opened OidOrder

  // Value selectors, in the order of the source's enumeration.
  const K_SYS_DESCR: nat := 0
  const K_SYS_OBJECTID: nat := 1
  const K_SYS_UPTIME: nat := 2
  const K_SYS_CONTACT: nat := 3
  const K_SYS_NAME: nat := 4
  const K_SYS_LOCATION: nat := 5
  const K_SYS_SERVICES: nat := 6
  const K_IF_NUMBER: nat := 7
  const K_IF_INDEX: nat := 8
  const K_IF_DESCR: nat := 9
  const K_IF_TYPE: nat := 10
  const K_IF_MTU: nat := 11
  const K_IF_SPEED: nat := 12
  const K_IF_ADMIN: nat := 13
  const K_IF_OPER: nat := 14
  const K_IF_IN_OCTETS: nat := 15
  const K_IF_IN_UPKTS: nat := 16
  const K_IF_OUT_OCTETS: nat := 17
  const K_IF_OUT_UPKTS: nat := 18
  const K_FW_NAME: nat := 19
  const K_FW_VERSION: nat := 20
  const K_FW_BUILD: nat := 21

  const NUM_SCALARS: nat := 8
  const NUM_IF_COLUMNS: nat := 11
  const NUM_FW_SCALARS: nat := 3

  /** The ifTable columns, in the order of their kinds. */
  const IF_COLUMNS: seq<byte> := [1, 2, 3, 4, 5, 7, 8, 10, 11, 16, 17]

  const SYS_PREFIX: Oid := [1, 3, 6, 1, 2, 1, 1]
  const IFNUM_OID: Oid := [1, 3, 6, 1, 2, 1, 2, 1, 0]
  const IFENTRY_PREFIX: Oid := [1, 3, 6, 1, 2, 1, 2, 2, 1]
  const SYS_OBJECT_ID: Oid := [1, 3, 6, 1, 4, 1, 99999, 1]

  datatype Leaf = Leaf(kind: nat, col: byte, row: byte)

  function LeafOid(leaf: Leaf): Oid {
    if leaf.kind == K_IF_NUMBER then IFNUM_OID
    else if leaf.kind >= K_FW_NAME then SYS_OBJECT_ID + [leaf.col, 0]
    else if leaf.kind >= K_IF_INDEX then IFENTRY_PREFIX + [leaf.col, leaf.row]
    else SYS_PREFIX + [leaf.col, 0]
  }

  lemma LeafOidEncodable(leaf: Leaf)
    ensures Encodable(LeafOid(leaf)) && |LeafOid(leaf)| <= 11
  {
  }

  // ----- the view as a list -----

  function SysLeaves(n: nat): seq<Leaf>
    requires n <= 7
  {
    seq(n, i requires 0 <= i < n => Leaf(K_SYS_DESCR + i, i + 1, 0))
  }

  /** All rows of one column; the row number is stored in an octet. */
  function Column(ci: nat, nif: nat): seq<Leaf>
    requires ci < NUM_IF_COLUMNS
  {
    seq(nif, r requires 0 <= r < nif => Leaf(K_IF_INDEX + ci, IF_COLUMNS[ci], (r + 1) % 256))
  }

  /** The first n columns, column by column. */
  function Table(n: nat, nif: nat): seq<Leaf>
    requires n <= NUM_IF_COLUMNS
  {
    if n == 0 then [] else Table(n - 1, nif) + Column(n - 1, nif)
  }

  function FwLeaves(n: nat): seq<Leaf>
    requires n <= NUM_FW_SCALARS
  {
    seq(n, i requires 0 <= i < n => Leaf(K_FW_NAME + i, i + 1, 0))
  }

  const IF_NUMBER_LEAF: Leaf := Leaf(K_IF_NUMBER, 0, 0)

  function View(nif: nat): seq<Leaf> {
    SysLeaves(7) + [IF_NUMBER_LEAF] + Table(NUM_IF_COLUMNS, nif) + FwLeaves(NUM_FW_SCALARS)
  }

  // ----- sortedness -----

  predicate Precedes(a: Leaf, b: Leaf) { Cmp(LeafOid(a), LeafOid(b)) < 0 }

  ghost predicate Sorted(L: seq<Leaf>) {
    forall i, j :: 0 <= i < j < |L| ==> Precedes(L[i], L[j])
  }

  /** Which of the four OID prefixes a leaf is under. */
  function Group(leaf: Leaf): nat {
    if leaf.kind == K_IF_NUMBER then 1
    else if leaf.kind >= K_FW_NAME then 3
    else if leaf.kind >= K_IF_INDEX then 2
    else 0
  }

  /** Walk order on the stored triples. */
  predicate Before(a: Leaf, b: Leaf) {
    Group(a) < Group(b)
    || (Group(a) == Group(b) && Group(a) != 1
        && (a.col < b.col || (Group(a) == 2 && a.col == b.col && a.row < b.row)))
  }

  lemma BeforeIsPrecedes(a: Leaf, b: Leaf)
    requires Before(a, b)
    ensures Precedes(a, b)
  {
    var k :=
      if Group(b) == 3 then (if Group(a) == 3 then 8 else 4)
      else if Group(b) == 2 && Group(a) == 2 then (if a.col < b.col then 9 else 10)
      else if Group(a) == 1 then 7
      else if Group(b) == 0 then 7
      else 6;
    CmpAt(LeafOid(a), LeafOid(b), k);
  }

  ghost predicate Ordered(L: seq<Leaf>) {
    forall i, j :: 0 <= i < j < |L| ==> Before(L[i], L[j])
  }

  ghost predicate AllBefore(A: seq<Leaf>, B: seq<Leaf>) {
    forall i, j :: 0 <= i < |A| && 0 <= j < |B| ==> Before(A[i], B[j])
  }

  lemma OrderedConcat(A: seq<Leaf>, B: seq<Leaf>)
    requires Ordered(A) && Ordered(B) && AllBefore(A, B)
    ensures Ordered(A + B)
  {
  }

  /** All in the ifTable, and in the first n columns. */
  ghost predicate InColumns(L: seq<Leaf>, n: nat)
    requires n <= NUM_IF_COLUMNS
  {
    forall i :: 0 <= i < |L| ==> Group(L[i]) == 2 && n > 0 && L[i].col <= IF_COLUMNS[n - 1]
  }

  lemma ColumnOrdered(ci: nat, nif: nat)
    requires ci < NUM_IF_COLUMNS && nif < 256
    ensures Ordered(Column(ci, nif)) && InColumns(Column(ci, nif), ci + 1)
    ensures forall i :: 0 <= i < nif ==> Column(ci, nif)[i].col == IF_COLUMNS[ci]
  {
  }

  lemma {:induction false} TableOrdered(n: nat, nif: nat)
    requires n <= NUM_IF_COLUMNS && nif < 256
    ensures Ordered(Table(n, nif)) && InColumns(Table(n, nif), n)
  {
    if n > 0 {
      var A, B := Table(n - 1, nif), Column(n - 1, nif);
      TableOrdered(n - 1, nif);
      ColumnOrdered(n - 1, nif);
      if n > 1 { assert IF_COLUMNS[n - 2] < IF_COLUMNS[n - 1]; }
      assert AllBefore(A, B);
      OrderedConcat(A, B);
    }
  }

  lemma ViewOrdered(nif: nat)
    requires nif < 256
    ensures Ordered(View(nif))
  {
    TableOrdered(NUM_IF_COLUMNS, nif);
    var head := SysLeaves(7) + [IF_NUMBER_LEAF];
    OrderedConcat(SysLeaves(7), [IF_NUMBER_LEAF]);
    OrderedConcat(head, Table(NUM_IF_COLUMNS, nif));
    OrderedConcat(head + Table(NUM_IF_COLUMNS, nif), FwLeaves(NUM_FW_SCALARS));
  }

  /** The materialised leaves are strictly increasing for every interface count,
      also when the table is too small for all of them. */
  lemma ViewSorted(nif: nat, cap: nat)
    requires nif < 256
    ensures Sorted(Take(View(nif), cap))
  {
    ViewOrdered(nif);
    var L := Take(View(nif), cap);
    forall i, j | 0 <= i < j < |L|
      ensures Precedes(L[i], L[j])
    {
      BeforeIsPrecedes(L[i], L[j]);
    }
  }

  /** The first row number that wraps is that of interface 256, right after the
      eight scalars and the first 255 rows. */
  lemma RowWraps(nif: nat)
    requires nif >= 256
    ensures |View(nif)| > 263
    ensures View(nif)[262] == Leaf(K_IF_INDEX, IF_COLUMNS[0], 255)
    ensures View(nif)[263] == Leaf(K_IF_INDEX, IF_COLUMNS[0], 0)
  {
    FirstColumn(nif, NUM_IF_COLUMNS);
    var t := Table(NUM_IF_COLUMNS, nif);
    assert View(nif)[8 + 254] == t[254] && View(nif)[8 + 255] == t[255];
  }

  lemma {:induction false} FirstColumn(nif: nat, n: nat)
    requires 1 <= n <= NUM_IF_COLUMNS
    ensures |Table(n, nif)| >= nif && Table(n, nif)[..nif] == Column(0, nif)
  {
    if n > 1 {
      FirstColumn(nif, n - 1);
    } else {
      assert Table(0, nif) == [];
    }
  }

  /** The walk order holds exactly while no row number has wrapped. */
  lemma ViewSortedExactly(nif: nat, cap: nat)
    ensures Sorted(Take(View(nif), cap)) <==> nif < 256 || cap <= 263
  {
    if nif < 256 {
      ViewSorted(nif, cap);
    } else if cap <= 263 {
      ViewSorted(255, cap);
      SameStart(nif, cap);
    } else {
      RowWraps(nif);
      var L := Take(View(nif), cap);
      assert L[262] == View(nif)[262] && L[263] == View(nif)[263];
      CmpFlip(LeafOid(L[262]), LeafOid(L[263]));
      BeforeIsPrecedes(L[263], L[262]);
      assert !Precedes(L[262], L[263]);
    }
  }

  lemma SameStart(nif: nat, cap: nat)
    requires nif >= 256 && cap <= 263
    ensures Take(View(nif), cap) == Take(View(255), cap)
  {
    FirstColumn(nif, NUM_IF_COLUMNS);
    FirstColumn(255, NUM_IF_COLUMNS);
    var head := SysLeaves(7) + [IF_NUMBER_LEAF];
    assert forall i :: 0 <= i < 8 ==> View(nif)[i] == head[i] && View(255)[i] == head[i];
    forall i | 8 <= i < cap
      ensures View(nif)[i] == View(255)[i]
    {
      assert View(nif)[i] == Table(NUM_IF_COLUMNS, nif)[i - 8] == Table(NUM_IF_COLUMNS, nif)[..nif][i - 8];
      assert View(255)[i] == Table(NUM_IF_COLUMNS, 255)[i - 8] == Table(NUM_IF_COLUMNS, 255)[..255][i - 8];
    }
  }

  // ----- lookups, stated on the list -----

  /** The first leaf at or after i whose OID follows oid. */
  function NextFrom(L: seq<Leaf>, oid: Oid, i: nat): (r: nat)
    requires i <= |L|
    ensures i <= r <= |L|
    decreases |L| - i
  {
    if i == |L| || Cmp(LeafOid(L[i]), oid) > 0 then i else NextFrom(L, oid, i + 1)
  }

  /** What GETNEXT answers with: an index, or |L| at the end of the MIB. */
  function Next(L: seq<Leaf>, oid: Oid): (r: nat)
    ensures r <= |L|
  {
    NextFrom(L, oid, 0)
  }

  lemma {:induction false} NextFromIsFirst(L: seq<Leaf>, oid: Oid, i: nat)
    requires i <= |L|
    ensures var r := NextFrom(L, oid, i);
      && (r < |L| ==> Cmp(LeafOid(L[r]), oid) > 0)
      && (forall j :: i <= j < r ==> Cmp(LeafOid(L[j]), oid) <= 0)
    decreases |L| - i
  {
    hide LeafOid, Cmp;
    if !(i == |L| || Cmp(LeafOid(L[i]), oid) > 0) { NextFromIsFirst(L, oid, i + 1); }
  }

  /** In a sorted view, GETNEXT finds the least leaf above any OID: exactly the
      leaves from its index on are above. */
  lemma NextIsLeastAbove(L: seq<Leaf>, oid: Oid)
    requires Sorted(L)
    ensures forall j :: 0 <= j < |L| ==> (Cmp(LeafOid(L[j]), oid) > 0 <==> j >= Next(L, oid))
  {
    var r := Next(L, oid);
    NextFromIsFirst(L, oid, 0);
    forall j | r < j < |L|
      ensures Cmp(LeafOid(L[j]), oid) > 0
    {
      assert Precedes(L[r], L[j]);
      CmpFlip(oid, LeafOid(L[r]));
      CmpTrans(oid, LeafOid(L[r]), LeafOid(L[j]));
      CmpFlip(oid, LeafOid(L[j]));
    }
  }

  /** Stepping to the following array entry is GETNEXT on the leaf's own OID. */
  lemma NextOfOwnOid(L: seq<Leaf>, i: nat)
    requires Sorted(L) && i < |L|
    ensures Next(L, LeafOid(L[i])) == i + 1
  {
    NextIsLeastAbove(L, LeafOid(L[i]));
    CmpZero(LeafOid(L[i]), LeafOid(L[i]));
    var r := Next(L, LeafOid(L[i]));
    if i + 1 < |L| {
      assert Precedes(L[i], L[i + 1]);
      CmpFlip(LeafOid(L[i]), LeafOid(L[i + 1]));
    }
  }

  /** Iterate GETNEXT, each time from the OID just returned. */
  ghost function Walk(L: seq<Leaf>, oid: Oid): seq<Leaf>
    requires Sorted(L)
    decreases |L| - Next(L, oid)
  {
    var i := Next(L, oid);
    if i == |L| then []
    else
      NextOfOwnOid(L, i);
      [L[i]] + Walk(L, LeafOid(L[i]))
  }

  /** A walk from any OID visits the leaves above it once each, in order, and ends. */
  lemma {:induction false} WalkVisitsAllAbove(L: seq<Leaf>, oid: Oid)
    requires Sorted(L)
    ensures Walk(L, oid) == L[Next(L, oid)..]
    decreases |L| - Next(L, oid)
  {
    hide LeafOid, NextFrom, Cmp;
    var i := Next(L, oid);
    if i < |L| {
      NextOfOwnOid(L, i);
      WalkVisitsAllAbove(L, LeafOid(L[i]));
      assert L[i..] == [L[i]] + L[i + 1..];
    }
  }

  // ----- the static table -----

  lemma TableStep(head: seq<Leaf>, ci: nat, nif: nat)
    requires ci < NUM_IF_COLUMNS
    ensures ci == 0 ==> head + Table(ci, nif) == head
    ensures head + Table(ci, nif) + Column(ci, nif) == head + Table(ci + 1, nif)
  {
  }

  lemma TakeSnoc<T>(s: seq<T>, x: T, cap: nat)
    ensures Take(Take(s, cap) + [x], cap) == Take(s + [x], cap)
  {
  }

  class LeafTable {
    const leaves: array<Leaf>
    var count: nat

    ghost predicate Valid() reads this { count <= leaves.Length }

    function Contents(): seq<Leaf>
      requires Valid()
      reads this, leaves
    {
      leaves[..count]
    }

    /** MIB_MAX_LEAVES for a build that simulates rows interfaces. */
    constructor (rows: nat)
      ensures Valid() && count == 0 && fresh(leaves)
      ensures leaves.Length == NUM_SCALARS + NUM_IF_COLUMNS * rows + NUM_FW_SCALARS
    {
      leaves := new Leaf[NUM_SCALARS + NUM_IF_COLUMNS * rows + NUM_FW_SCALARS](_ => IF_NUMBER_LEAF);
      count := 0;
    }

    method AddLeaf(kind: nat, col: byte, row: byte, ghost all: seq<Leaf>)
      requires Valid() && Contents() == Take(all, leaves.Length)
      modifies this, leaves
      ensures Valid() && Contents() == Take(all + [Leaf(kind, col, row)], leaves.Length)
    {
      TakeSnoc(all, Leaf(kind, col, row), leaves.Length);
      if count >= leaves.Length {
        return;
      }
      leaves[count] := Leaf(kind, col, row);
      count := count + 1;
    }

    /** mib_init: build the view for nif interfaces. */
    method Init(nif: nat)
      requires Valid()
      modifies this, leaves
      ensures Valid() && Contents() == Take(View(nif), leaves.Length)
      ensures Sorted(Contents()) <==> nif < 256 || leaves.Length <= 263
    {
      count := 0;
      var n: nat := 1;
      while n <= 7
        invariant 1 <= n <= 8
        invariant Valid() && Contents() == Take(SysLeaves(n - 1), leaves.Length)
      {
        assert SysLeaves(n - 1) + [Leaf(K_SYS_DESCR + (n - 1), n, 0)] == SysLeaves(n);
        AddLeaf(K_SYS_DESCR + (n - 1), n, 0, SysLeaves(n - 1));
        n := n + 1;
      }
      AddLeaf(K_IF_NUMBER, 0, 0, SysLeaves(7));
      ghost var head := SysLeaves(7) + [IF_NUMBER_LEAF];
      AddTable(nif, head);
      ghost var upto := head + Table(NUM_IF_COLUMNS, nif);
      n := 1;
      assert upto + FwLeaves(0) == upto;
      while n <= NUM_FW_SCALARS
        invariant 1 <= n <= NUM_FW_SCALARS + 1
        invariant Valid() && Contents() == Take(upto + FwLeaves(n - 1), leaves.Length)
      {
        assert upto + FwLeaves(n - 1) + [Leaf(K_FW_NAME + (n - 1), n, 0)] == upto + FwLeaves(n);
        AddLeaf(K_FW_NAME + (n - 1), n, 0, upto + FwLeaves(n - 1));
        n := n + 1;
      }
      ViewSortedExactly(nif, leaves.Length);
    }

    /** The ifTable, column by column. */
    method AddTable(nif: nat, ghost head: seq<Leaf>)
      requires Valid() && Contents() == Take(head, leaves.Length)
      modifies this, leaves
      ensures Valid() && Contents() == Take(head + Table(NUM_IF_COLUMNS, nif), leaves.Length)
    {
      hide Take, Column, Table;
      var ci := 0;
      TableStep(head, 0, nif);
      while ci < NUM_IF_COLUMNS
        invariant 0 <= ci <= NUM_IF_COLUMNS
        invariant Valid() && Contents() == Take(head + Table(ci, nif), leaves.Length)
      {
        AddColumn(ci, nif, head + Table(ci, nif));
        TableStep(head, ci, nif);
        ci := ci + 1;
      }
    }

    method AddColumn(ci: nat, nif: nat, ghost before: seq<Leaf>)
      requires Valid() && ci < NUM_IF_COLUMNS && Contents() == Take(before, leaves.Length)
      modifies this, leaves
      ensures Valid() && Contents() == Take(before + Column(ci, nif), leaves.Length)
    {
      hide Take;
      ghost var col := Column(ci, nif);
      var r := 1;
      assert before + col[..0] == before;
      while r <= nif
        invariant 1 <= r <= nif + 1
        invariant Valid() && Contents() == Take(before + col[..r - 1], leaves.Length)
      {
        assert before + col[..r - 1] + [col[r - 1]] == before + col[..r];
        AddLeaf(K_IF_INDEX + ci, IF_COLUMNS[ci], r % 256, before + col[..r - 1]);
        r := r + 1;
      }
      assert col[..r - 1] == col;
    }

    /** mib_get_exact: the index of the leaf with this OID. */
    method GetExact(oid: Oid) returns (r: Option<nat>)
      requires Valid()
      ensures r.Some? ==> r.value < count && LeafOid(leaves[r.value]) == oid
      ensures r.None? ==> forall i :: 0 <= i < count ==> LeafOid(leaves[i]) != oid
      ensures r == Exact(Contents(), oid, 0)
    {
      hide LeafOid, Cmp;
      var i := 0;
      while i < count
        invariant 0 <= i <= count
        invariant forall j :: 0 <= j < i ==> LeafOid(leaves[j]) != oid
        invariant Exact(Contents(), oid, 0) == Exact(Contents(), oid, i)
      {
        var c := OidCmp(LeafOid(leaves[i]), oid);
        CmpZero(LeafOid(leaves[i]), oid);
        if c == 0 {
          return Some(i);
        }
        i := i + 1;
      }
      r := None;
    }

    /** mib_get_next: the first strictly greater leaf. */
    method GetNext(oid: Oid) returns (r: Option<nat>)
      requires Valid()
      ensures r == if Next(Contents(), oid) < count then Some(Next(Contents(), oid)) else None
    {
      var i := 0;
      while i < count
        invariant 0 <= i <= count
        invariant Next(Contents(), oid) == NextFrom(Contents(), oid, i)
      {
        var c := OidCmp(LeafOid(leaves[i]), oid);
        if c > 0 {
          return Some(i);
        }
        i := i + 1;
      }
      r := None;
    }

    /** mib_next_leaf: the following array entry, which is GETNEXT on the leaf's own OID. */
    method NextLeaf(i: nat) returns (r: Option<nat>)
      requires Valid() && i < count && Sorted(Contents())
      ensures r == if i + 1 < count then Some(i + 1) else None
      ensures var next := Next(Contents(), LeafOid(leaves[i]));
        r == if next < count then Some(next) else None
    {
      NextOfOwnOid(Contents(), i);
      if i + 1 >= count {
        return None;
      }
      r := Some(i + 1);
    }
  }

  /** GET's search, from index i on. */
  function Exact(L: seq<Leaf>, oid: Oid, i: nat): (r: Option<nat>)
    requires i <= |L|
    ensures r.Some? ==> r.value < |L|
    decreases |L| - i
  {
    if i == |L| then None
    else if LeafOid(L[i]) == oid then Some(i)
    else Exact(L, oid, i + 1)
  }
}
