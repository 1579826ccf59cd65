/** What each object of the MIB answers, by its numbers alone: the system group, the
    ifTable of RFC 2863 and the firmware objects (lib/snmp/snmp_mib.c). */
module MibTable {
  import opened Common
  import opened BerSpec
  import opened OidOrder
  import opened Mib
  import opened SnmpMessage
  import opened SnmpValues
  import opened SnmpPlan

  /** In a sorted view a leaf is found under its own OID. */
  lemma {:induction false} ExactOfOwnOid(L: seq<Leaf>, i: nat, from: nat)
    requires Sorted(L) && from <= i < |L|
    ensures Exact(L, LeafOid(L[i]), from) == Some(i)
    decreases i - from
  {
    hide LeafOid;
    if from < i {
      assert Precedes(L[from], L[i]);
      CmpZero(LeafOid(L[from]), LeafOid(L[i]));
      ExactOfOwnOid(L, i, from + 1);
    }
  }

  lemma AnswerOfLeaf(L: seq<Leaf>, env: Env, i: nat)
    requires Sorted(L) && i < |L|
    ensures GetAnswer(L, env, LeafOid(L[i])) == VarBind(LeafOid(L[i]), LeafValue(env, L[i]))
  {
    hide LeafOid, LeafValue;
    ExactOfOwnOid(L, i, 0);
  }

  lemma {:induction false} TableAt(n: nat, nif: nat, ci: nat, r: nat)
    requires ci < n <= NUM_IF_COLUMNS && r < nif
    ensures ci * nif + r < |Table(n, nif)| == n * nif
    ensures Table(n, nif)[ci * nif + r] == Leaf(K_IF_INDEX + ci, IF_COLUMNS[ci], (r + 1) % 256)
    decreases n
  {
    TableLength(n - 1, nif);
    assert n * nif == (n - 1) * nif + nif;
    if ci < n - 1 { TableAt(n - 1, nif, ci, r); }
  }

  lemma {:induction false} TableLength(n: nat, nif: nat)
    requires n <= NUM_IF_COLUMNS
    ensures |Table(n, nif)| == n * nif
  {
    if n > 0 {
      TableLength(n - 1, nif);
      assert n * nif == (n - 1) * nif + nif;
    }
  }

  lemma SortedView(nif: nat)
    requires nif < 256
    ensures Sorted(View(nif))
  {
    hide View, Sorted;
    ViewSorted(nif, |View(nif)|);
  }

  /** Where the leaf of a column and an interface is. */
  lemma ViewCell(nif: nat, ci: nat, i: nat) returns (at: nat)
    requires ci < NUM_IF_COLUMNS && 1 <= i <= nif < 256
    ensures at < |View(nif)| && View(nif)[at] == Leaf(K_IF_INDEX + ci, IF_COLUMNS[ci], i)
  {
    hide Table;
    TableAt(NUM_IF_COLUMNS, nif, ci, i - 1);
    var head := SysLeaves(7) + [IF_NUMBER_LEAF];
    assert View(nif) == head + (Table(NUM_IF_COLUMNS, nif) + FwLeaves(NUM_FW_SCALARS));
    at := 8 + ci * nif + (i - 1);
  }

  /** What interface i reports; a missing one is "?", down, with zeros. */
  function Interface(env: Env, i: nat): IfRow
    requires i >= 1
  {
    if i <= |env.ifs| then env.ifs[i - 1] else IfRow([0x3F], 0, 0, 0, 2, 2, 0, 0, 0, 0)
  }

  /** GET of a name answers that name with this value. */
  ghost predicate Reads(L: seq<Leaf>, env: Env, name: Oid, tag: byte, content: Bytes) {
    GetAnswer(L, env, name) == VarBind(name, Value(tag, content))
  }

  /** What any leaf of the view answers. */
  lemma AnswersAt(nif: nat, env: Env, at: nat, leaf: Leaf, name: Oid, tag: byte, content: Bytes)
    requires nif < 256 && at < |View(nif)| && View(nif)[at] == leaf
    requires LeafOid(leaf) == name && LeafValue(env, leaf) == Value(tag, content)
    ensures Reads(View(nif), env, name, tag, content)
  {
    hide LeafOid, LeafValue, GetAnswer, View;
    SortedView(nif);
    AnswerOfLeaf(View(nif), env, at);
  }

  lemma Cell(nif: nat, env: Env, ci: nat, i: nat, col: byte, tag: byte, content: Bytes)
    requires ci < NUM_IF_COLUMNS && 1 <= i <= nif < 256
    requires IF_COLUMNS[ci] == col && LeafValue(env, Leaf(K_IF_INDEX + ci, col, i)) == Value(tag, content)
    ensures Reads(View(nif), env, [1, 3, 6, 1, 2, 1, 2, 2, 1, col, i], tag, content)
  {
    hide LeafValue, View, Reads;
    var at := ViewCell(nif, ci, i);
    AnswersAt(nif, env, at, Leaf(K_IF_INDEX + ci, col, i), [1, 3, 6, 1, 2, 1, 2, 2, 1, col, i], tag, content);
  }

  /** The interfaces table: ifEntry is 1.3.6.1.2.1.2.2.1, then column and row. */
  lemma IfTable(nif: nat, env: Env, i: nat)
    requires nif < 256 && 1 <= i <= nif
    ensures var L, r := View(nif), Interface(env, i);
      && Reads(L, env, [1, 3, 6, 1, 2, 1, 2, 2, 1, 1, i], 0x02, IntOctets(i))
      && Reads(L, env, [1, 3, 6, 1, 2, 1, 2, 2, 1, 2, i], 0x04, r.descr)
      && Reads(L, env, [1, 3, 6, 1, 2, 1, 2, 2, 1, 3, i], 0x02, IntOctets(r.ifType))
      && Reads(L, env, [1, 3, 6, 1, 2, 1, 2, 2, 1, 4, i], 0x02, IntOctets(r.mtu))
      && Reads(L, env, [1, 3, 6, 1, 2, 1, 2, 2, 1, 5, i], 0x42, IntOctets(r.speed))
      && Reads(L, env, [1, 3, 6, 1, 2, 1, 2, 2, 1, 7, i], 0x02, IntOctets(r.admin))
      && Reads(L, env, [1, 3, 6, 1, 2, 1, 2, 2, 1, 8, i], 0x02, IntOctets(r.oper))
      && Reads(L, env, [1, 3, 6, 1, 2, 1, 2, 2, 1, 10, i], 0x41, IntOctets(r.inOctets))
      && Reads(L, env, [1, 3, 6, 1, 2, 1, 2, 2, 1, 11, i], 0x41, IntOctets(r.inUpkts))
      && Reads(L, env, [1, 3, 6, 1, 2, 1, 2, 2, 1, 16, i], 0x41, IntOctets(r.outOctets))
      && Reads(L, env, [1, 3, 6, 1, 2, 1, 2, 2, 1, 17, i], 0x41, IntOctets(r.outUpkts))
  {
    hide Reads, View, IntOctets;
    var r := Interface(env, i);
    Cell(nif, env, 0, i, 1, 0x02, IntOctets(i));
    Cell(nif, env, 1, i, 2, 0x04, r.descr);
    Cell(nif, env, 2, i, 3, 0x02, IntOctets(r.ifType));
    Cell(nif, env, 3, i, 4, 0x02, IntOctets(r.mtu));
    Cell(nif, env, 4, i, 5, 0x42, IntOctets(r.speed));
    Cell(nif, env, 5, i, 7, 0x02, IntOctets(r.admin));
    Cell(nif, env, 6, i, 8, 0x02, IntOctets(r.oper));
    Cell(nif, env, 7, i, 10, 0x41, IntOctets(r.inOctets));
    Cell(nif, env, 8, i, 11, 0x41, IntOctets(r.inUpkts));
    Cell(nif, env, 9, i, 16, 0x41, IntOctets(r.outOctets));
    Cell(nif, env, 10, i, 17, 0x41, IntOctets(r.outUpkts));
  }

  /** Where the eight scalars in front and the firmware objects at the end are. */
  lemma ViewScalar(nif: nat, k: nat) returns (at: nat)
    requires k < 11
    ensures at < |View(nif)|
    ensures k < 7 ==> View(nif)[at] == Leaf(k, k + 1, 0)
    ensures k == 7 ==> View(nif)[at] == Leaf(7, 0, 0)
    ensures k > 7 ==> View(nif)[at] == Leaf(k + 11, k - 7, 0)
  {
    hide Table;
    at := if k <= 7 then k else 8 + |Table(NUM_IF_COLUMNS, nif)| + (k - 8);
  }

  lemma Scalar(nif: nat, env: Env, k: nat, name: Oid, tag: byte, content: Bytes)
    requires nif < 256 && k < 11
    requires var leaf := if k < 7 then Leaf(k, k + 1, 0) else if k == 7 then Leaf(7, 0, 0) else Leaf(k + 11, k - 7, 0);
      LeafOid(leaf) == name && LeafValue(env, leaf) == Value(tag, content)
    ensures Reads(View(nif), env, name, tag, content)
  {
    hide LeafOid, LeafValue, View, Reads;
    var at := ViewScalar(nif, k);
    AnswersAt(nif, env, at, View(nif)[at], name, tag, content);
  }

  /** The system group: 1.3.6.1.2.1.1, then the object and 0. */
  lemma SystemGroup(nif: nat, env: Env)
    requires nif < 256
    ensures var L := View(nif);
      && Reads(L, env, [1, 3, 6, 1, 2, 1, 1, 1, 0], 0x04,
                  Take(env.fwName + [0x20] + env.fwVersion + [0x20, 0x28, 0x62, 0x75, 0x69, 0x6C, 0x64, 0x20]
                       + env.fwBuild + [0x29], 95))
      && Reads(L, env, [1, 3, 6, 1, 2, 1, 1, 2, 0], 0x06, OidOctets([1, 3, 6, 1, 4, 1, 99999, 1]))
      && Reads(L, env, [1, 3, 6, 1, 2, 1, 1, 3, 0], 0x43, IntOctets(env.uptime))
      && Reads(L, env, [1, 3, 6, 1, 2, 1, 1, 4, 0], 0x04, env.contact)
      && Reads(L, env, [1, 3, 6, 1, 2, 1, 1, 5, 0], 0x04, env.hostname)
      && Reads(L, env, [1, 3, 6, 1, 2, 1, 1, 6, 0], 0x04, env.location)
      && Reads(L, env, [1, 3, 6, 1, 2, 1, 1, 7, 0], 0x02, IntOctets(6))
  {
    hide Reads, View, IntOctets, OidOctets;
    Scalar(nif, env, 0, [1, 3, 6, 1, 2, 1, 1, 1, 0], 0x04,
           Take(env.fwName + [0x20] + env.fwVersion + [0x20, 0x28, 0x62, 0x75, 0x69, 0x6C, 0x64, 0x20]
                + env.fwBuild + [0x29], 95));
    Scalar(nif, env, 1, [1, 3, 6, 1, 2, 1, 1, 2, 0], 0x06, OidOctets([1, 3, 6, 1, 4, 1, 99999, 1]));
    Scalar(nif, env, 2, [1, 3, 6, 1, 2, 1, 1, 3, 0], 0x43, IntOctets(env.uptime));
    Scalar(nif, env, 3, [1, 3, 6, 1, 2, 1, 1, 4, 0], 0x04, env.contact);
    Scalar(nif, env, 4, [1, 3, 6, 1, 2, 1, 1, 5, 0], 0x04, env.hostname);
    Scalar(nif, env, 5, [1, 3, 6, 1, 2, 1, 1, 6, 0], 0x04, env.location);
    Scalar(nif, env, 6, [1, 3, 6, 1, 2, 1, 1, 7, 0], 0x02, IntOctets(6));
  }

  /** ifNumber.0, and the firmware objects under the value of sysObjectID. */
  lemma OtherScalars(nif: nat, env: Env)
    requires nif < 256
    ensures var L := View(nif);
      && Reads(L, env, [1, 3, 6, 1, 2, 1, 2, 1, 0], 0x02, IntOctets(env.nif))
      && Reads(L, env, [1, 3, 6, 1, 4, 1, 99999, 1, 1, 0], 0x04, env.fwName)
      && Reads(L, env, [1, 3, 6, 1, 4, 1, 99999, 1, 2, 0], 0x04, env.fwVersion)
      && Reads(L, env, [1, 3, 6, 1, 4, 1, 99999, 1, 3, 0], 0x04, env.fwBuild)
  {
    hide Reads, View, IntOctets;
    Scalar(nif, env, 7, [1, 3, 6, 1, 2, 1, 2, 1, 0], 0x02, IntOctets(env.nif));
    Scalar(nif, env, 8, [1, 3, 6, 1, 4, 1, 99999, 1, 1, 0], 0x04, env.fwName);
    Scalar(nif, env, 9, [1, 3, 6, 1, 4, 1, 99999, 1, 2, 0], 0x04, env.fwVersion);
    Scalar(nif, env, 10, [1, 3, 6, 1, 4, 1, 99999, 1, 3, 0], 0x04, env.fwBuild);
  }

  lemma ViewCount(nif: nat)
    ensures |View(nif)| == 11 + 11 * nif
  {
    hide Table;
    TableLength(NUM_IF_COLUMNS, nif);
  }

  /** A name that is none of them is answered with noSuchInstance. */
  lemma {:induction false} MissingFrom(L: seq<Leaf>, name: Oid, i: nat)
    requires i <= |L| && forall j :: i <= j < |L| ==> LeafOid(L[j]) != name
    ensures Exact(L, name, i) == None
    decreases |L| - i
  {
    if i < |L| { MissingFrom(L, name, i + 1); }
  }

  lemma MissingName(L: seq<Leaf>, env: Env, name: Oid)
    requires forall j :: 0 <= j < |L| ==> LeafOid(L[j]) != name
    ensures Reads(L, env, name, 0x81, [])
  {
    hide LeafOid;
    MissingFrom(L, name, 0);
  }

  /** GETNEXT answers what a GET of the next name answers, or endOfMibView. */
  lemma NextReads(L: seq<Leaf>, env: Env, name: Oid)
    requires Sorted(L)
    ensures var i := Next(L, name);
      NextAnswer(L, env, name)
      == if i < |L| then GetAnswer(L, env, LeafOid(L[i])) else VarBind(name, Value(0x82, []))
  {
    hide LeafOid, LeafValue;
    var i := Next(L, name);
    if i < |L| { AnswerOfLeaf(L, env, i); }
  }
}
