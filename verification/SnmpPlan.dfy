/** Planning of a response (plan_get, plan_getnext and plan_getbulk in
    lib/snmp/snmp_agent.c), against what the answers should be, stated with
    GETNEXT on OIDs alone. */
module SnmpPlan {
  import opened Common
  import opened BerSpec
  import opened OidOrder
  import opened Mib
  import opened SnmpMessage
  import opened SnmpValues

  const END_OF_MIB: Value := Value(EXC_END_OF_MIB_VIEW, [])
  const NO_SUCH_INSTANCE: Value := Value(EXC_NO_SUCH_INSTANCE, [])

  // ----- the answers -----

  /** GET of one name. */
  function GetAnswer(L: seq<Leaf>, env: Env, name: Oid): VarBind {
    match Exact(L, name, 0)
    case Some(i) => VarBind(LeafOid(L[i]), LeafValue(env, L[i]))
    case None => VarBind(name, NO_SUCH_INSTANCE)
  }

  /** GETNEXT of one name: the next leaf, or endOfMibView under the same name. */
  function NextAnswer(L: seq<Leaf>, env: Env, name: Oid): VarBind {
    var i := Next(L, name);
    if i < |L| then VarBind(LeafOid(L[i]), LeafValue(env, L[i])) else VarBind(name, END_OF_MIB)
  }

  /** What one repeater walks through: GETNEXT from its name, then from each
      answer's name, until endOfMibView has been answered once. */
  ghost function Chain(L: seq<Leaf>, env: Env, name: Oid): seq<VarBind>
    requires Sorted(L)
    decreases |L| - Next(L, name)
  {
    var i := Next(L, name);
    [NextAnswer(L, env, name)]
    + if i == |L| then []
      else
        NextOfOwnOid(L, i);
        Chain(L, env, NextAnswer(L, env, name).name)
  }

  ghost function Chains(L: seq<Leaf>, env: Env, names: seq<Oid>): seq<seq<VarBind>>
    requires Sorted(L)
  {
    seq(|names|, j requires 0 <= j < |names| => Chain(L, env, names[j]))
  }

  /** The k-th slots of the first j chains, of those that are that long. */
  ghost function Round(chains: seq<seq<VarBind>>, k: nat, j: nat): seq<VarBind>
    requires j <= |chains|
  {
    if j == 0 then []
    else Round(chains, k, j - 1)
         + if k < |chains[j - 1]| then [chains[j - 1][k]] else []
  }

  /** The first reps rounds over all chains. */
  ghost function RoundRobin(chains: seq<seq<VarBind>>, reps: nat): seq<VarBind> {
    if reps == 0 then []
    else RoundRobin(chains, reps - 1) + Round(chains, reps - 1, |chains|)
  }

  function Clamp(v: int32, max: nat): nat {
    if v < 0 then 0 else if v > max then max else v
  }

  function Answers(L: seq<Leaf>, env: Env, names: seq<Oid>): seq<VarBind> {
    seq(|names|, i requires 0 <= i < |names| => NextAnswer(L, env, names[i]))
  }

  /** GETBULK: one answer for each of the first names, then the rounds. A repeater
      that has answered endOfMibView gets no further slots (SnmpRepetitions says when
      section 4.2.3 of RFC 3416 allows that). */
  ghost function BulkAnswer(L: seq<Leaf>, env: Env, r: Request, cap: nat): seq<VarBind>
    requires Sorted(L)
  {
    var nonRep := Clamp(r.f2, |r.names|);
    Take(Answers(L, env, r.names[..nonRep])
         + RoundRobin(Chains(L, env, r.names[nonRep..]), if r.f3 < 0 then 0 else r.f3), cap)
  }

  // ----- the k-th slot of a chain, by index -----

  /** A chain is the leaves above its name, in order, and one endOfMibView. */
  lemma {:induction false} ChainShape(L: seq<Leaf>, env: Env, name: Oid)
    requires Sorted(L)
    ensures |Chain(L, env, name)| == |L| - Next(L, name) + 1
    decreases |L| - Next(L, name)
  {
    var i := Next(L, name);
    if i < |L| {
      NextOfOwnOid(L, i);
      ChainShape(L, env, LeafOid(L[i]));
    }
  }

  lemma ChainStep(L: seq<Leaf>, env: Env, name: Oid)
    requires Sorted(L)
    ensures var i := Next(L, name);
      Chain(L, env, name)
      == [NextAnswer(L, env, name)] + if i < |L| then Chain(L, env, LeafOid(L[i])) else []
  {
    hide LeafValue, NextFrom, Cmp;
  }

  lemma {:induction false} ChainSlot(L: seq<Leaf>, env: Env, name: Oid, k: nat)
    requires Sorted(L) && k < |L| - Next(L, name) + 1
    ensures |Chain(L, env, name)| == |L| - Next(L, name) + 1
    ensures Chain(L, env, name)[k]
         == (var i := Next(L, name) + k;
             if i < |L| then VarBind(LeafOid(L[i]), LeafValue(env, L[i]))
             else VarBind(if k == 0 then name else LeafOid(L[i - 1]), END_OF_MIB))
    decreases k
  {
    hide LeafOid, LeafValue, NextFrom, Cmp, Chain;
    ChainShape(L, env, name);
    ChainStep(L, env, name);
    var i := Next(L, name);
    if k > 0 {
      NextOfOwnOid(L, i);
      ChainSlot(L, env, LeafOid(L[i]), k - 1);
      assert Chain(L, env, name)[k] == Chain(L, env, LeafOid(L[i]))[k - 1];
    }
  }

  /** The planned varbind of a chain's k-th slot: a leaf, or at the end the last
      leaf (or the request name) with the exception. */
  ghost function SlotVb(L: seq<Leaf>, name: Oid, k: nat): RespVb {
    var i := Next(L, name) + k;
    if i < |L| then RespVb(Some(i), name, 0)
    else RespVb(if k == 0 then None else Some(i - 1), name, EXC_END_OF_MIB_VIEW)
  }

  lemma SlotVbAnswers(L: seq<Leaf>, env: Env, name: Oid, k: nat)
    requires Sorted(L) && k <= |L| - Next(L, name)
    ensures RespOk(L, SlotVb(L, name, k)) && k < |Chain(L, env, name)|
    ensures ToVarBind(L, env, SlotVb(L, name, k)) == Chain(L, env, name)[k]
  {
    hide LeafOid, LeafValue, NextFrom, Chain;
    ChainShape(L, env, name);
    ChainSlot(L, env, name, k);
  }

  lemma {:induction false} RoundPrefix(chains: seq<seq<VarBind>>, k: nat, j: nat)
    requires j <= |chains|
    ensures Round(chains, k, j) <= Round(chains, k, |chains|)
    decreases |chains| - j
  {
    if j < |chains| { RoundPrefix(chains, k, j + 1); }
  }

  lemma {:induction false} RoundRobinPrefix(chains: seq<seq<VarBind>>, i: nat, j: nat)
    requires i <= j
    ensures RoundRobin(chains, i) <= RoundRobin(chains, j)
    decreases j - i
  {
    if i < j { RoundRobinPrefix(chains, i, j - 1); }
  }

  // ----- planning -----

  /** set_vb_next: the leaf after a request name, or endOfMibView echoing it. */
  method SetVbNext(mib: LeafTable, from: Oid, ghost env: Env) returns (vb: RespVb)
    requires mib.Valid()
    ensures RespOk(mib.Contents(), vb) && vb.name == from
    ensures ToVarBind(mib.Contents(), env, vb) == NextAnswer(mib.Contents(), env, from)
    ensures vb.leaf == (if Next(mib.Contents(), from) < mib.count
                        then Some(Next(mib.Contents(), from)) else None)
    ensures vb.exception == if vb.leaf.Some? then 0 else EXC_END_OF_MIB_VIEW
  {
    var leaf := mib.GetNext(from);
    vb := RespVb(leaf, from, if leaf.Some? then 0 else EXC_END_OF_MIB_VIEW);
  }

  method SetVbExact(mib: LeafTable, name: Oid, ghost env: Env) returns (vb: RespVb)
    requires mib.Valid()
    ensures RespOk(mib.Contents(), vb)
    ensures ToVarBind(mib.Contents(), env, vb) == GetAnswer(mib.Contents(), env, name)
  {
    var leaf := mib.GetExact(name);
    vb := RespVb(leaf, name, if leaf.Some? then 0 else EXC_NO_SUCH_INSTANCE);
  }

  method PlanGet(mib: LeafTable, names: seq<Oid>, ghost env: Env) returns (out: seq<RespVb>)
    requires mib.Valid()
    ensures AllRespOk(mib.Contents(), out) && |out| == |names|
    ensures forall i :: 0 <= i < |names| ==>
        ToVarBind(mib.Contents(), env, out[i]) == GetAnswer(mib.Contents(), env, names[i])
  {
    hide ToVarBind, GetAnswer;
    out := [];
    var i := 0;
    while i < |names|
      invariant 0 <= i <= |names| && |out| == i && AllRespOk(mib.Contents(), out)
      invariant forall k :: 0 <= k < i ==>
          ToVarBind(mib.Contents(), env, out[k]) == GetAnswer(mib.Contents(), env, names[k])
    {
      var vb := SetVbExact(mib, names[i], env);
      out := out + [vb];
      i := i + 1;
    }
  }

  method PlanGetNext(mib: LeafTable, names: seq<Oid>, ghost env: Env) returns (out: seq<RespVb>)
    requires mib.Valid()
    ensures AllRespOk(mib.Contents(), out)
    ensures ToVarBinds(mib.Contents(), env, out) == Answers(mib.Contents(), env, names)
  {
    hide ToVarBind, NextAnswer;
    out := [];
    var i := 0;
    while i < |names|
      invariant 0 <= i <= |names| && |out| == i && AllRespOk(mib.Contents(), out)
      invariant forall k :: 0 <= k < i ==>
          ToVarBind(mib.Contents(), env, out[k]) == NextAnswer(mib.Contents(), env, names[k])
    {
      var vb := SetVbNext(mib, names[i], env);
      out := out + [vb];
      i := i + 1;
    }
  }

  /** A walker that has taken k slots of the chain that starts at index start. */
  ghost predicate WalkerAt(count: nat, start: nat, k: nat, cursor: Option<nat>, done: bool) {
    && (done <==> k > count - start)
    && (!done ==> cursor == if k == 0 then None else Some(start + k - 1))
  }

  /** The GETBULK planner's working state: the request, the planned varbinds, and
      a cursor and a done flag for each repeater. */
  class BulkPlan {
    const mib: LeafTable
    const names: seq<Oid>   // the repeaters' request names
    const cap: nat          // SNMP_MAX_RESP_VB
    ghost const env: Env
    ghost const L: seq<Leaf> // the view during this request
    const out: array<RespVb>
    var n: nat
    const cursor: array<Option<nat>>
    const doneWalk: array<bool>

    ghost predicate Valid()
      reads this, mib, mib.leaves, out, cursor, doneWalk
    {
      && mib.Valid() && L == mib.Contents() && Sorted(L)
      && n <= cap == out.Length
      && cursor.Length == doneWalk.Length == |names|
      && AllRespOk(L, out[..n])
    }

    /** The varbinds planned so far. */
    ghost function Planned(): seq<VarBind>
      requires Valid()
      reads this, mib, mib.leaves, out, cursor, doneWalk
    {
      ToVarBinds(L, env, out[..n])
    }

    ghost function Start(j: nat): nat
      requires j < |names|
    {
      Next(L, names[j])
    }

    /** Walkers before j have taken k + 1 slots, the others k. */
    ghost predicate Walkers(k: nat, j: nat)
      requires Valid()
      reads this, mib, mib.leaves, out, cursor, doneWalk
    {
      forall i :: 0 <= i < |names| ==>
        WalkerAt(|L|, Start(i), if i < j then k + 1 else k, cursor[i], doneWalk[i])
    }

    constructor (mib: LeafTable, names: seq<Oid>, cap: nat, ghost env: Env)
      requires mib.Valid() && Sorted(mib.Contents())
      ensures Valid() && n == 0 && fresh(out) && fresh(cursor) && fresh(doneWalk)
      ensures this.mib == mib && this.names == names && this.cap == cap && this.env == env
      ensures this.L == mib.Contents()
      ensures Walkers(0, 0)
    {
      this.mib, this.names, this.cap, this.env, this.L, n := mib, names, cap, env, mib.Contents(), 0;
      out := new RespVb[cap](_ => RespVb(None, [], 0));
      cursor := new Option<nat>[|names|](_ => None);
      doneWalk := new bool[|names|](_ => false);
    }

    method Add(vb: RespVb)
      requires Valid() && n < cap && RespOk(L, vb)
      modifies this`n, out
      ensures Valid() && n == old(n) + 1
      ensures Planned() == old(Planned()) + [ToVarBind(L, env, vb)]
      ensures out[n - 1] == vb
    {
      out[n] := vb;
      n := n + 1;
      assert out[..n] == old(out[..n]) + [vb];
    }

    /** One answer for each name that is not repeated. */
    method NonRepeaters(asked: seq<Oid>)
      requires Valid() && Walkers(0, 0) && n == 0 && |asked| <= cap
      modifies this`n, out
      ensures Valid() && Walkers(0, 0) && Planned() == Answers(L, env, asked)
    {
      hide ToVarBind, Next, WalkerAt, NextAnswer;
      var i := 0;
      while i < |asked| && n < cap
        invariant 0 <= i <= |asked| && n == i && Valid() && Walkers(0, 0)
        invariant Planned() == Answers(L, env, asked[..i])
      {
        var vb := SetVbNext(mib, asked[i], env);
        Add(vb);
        assert Answers(L, env, asked[..i + 1]) == Answers(L, env, asked[..i]) + [NextAnswer(L, env, asked[i])];
        i := i + 1;
      }
      assert asked[..i] == asked;
    }

    /** The next slot of a walker that has not ended. */
    method NextSlot(j: nat, ghost k: nat) returns (vb: RespVb)
      requires Valid() && j < |names|
      requires WalkerAt(|L|, Start(j), k, cursor[j], false)
      ensures vb == SlotVb(L, names[j], k)
    {
      hide ToVarBind, NextFrom, Cmp, LeafOid;
      if cursor[j] == None {
        vb := SetVbNext(mib, names[j], env);
      } else {
        var next := mib.NextLeaf(cursor[j].value);
        vb := if next == None then RespVb(cursor[j], names[j], EXC_END_OF_MIB_VIEW)
              else RespVb(next, names[j], 0);
      }
    }

    /** One slot of one walker, if it has one. */
    method Step(j: nat, ghost k: nat)
      requires Valid() && j < |names| && n < cap && Walkers(k, j)
      modifies this`n, out, cursor, doneWalk
      ensures Valid() && Walkers(k, j + 1)
      ensures var c := Chain(L, env, names[j]);
        Planned() == old(Planned()) + if k < |c| then [c[k]] else []
    {
      hide ToVarBind, Next, Chain;
      ChainShape(L, env, names[j]);
      if doneWalk[j] {
        return;
      }
      SlotVbAnswers(L, env, names[j], k);
      var vb := NextSlot(j, k);
      Add(vb);
      if vb.exception == EXC_END_OF_MIB_VIEW {
        doneWalk[j] := true;
      } else {
        cursor[j] := vb.leaf;
      }
    }

    /** One repetition over all repeaters, until the output is full. */
    method Repetition(ghost k: nat) returns (ghost j: nat)
      requires Valid() && n < cap && Walkers(k, 0)
      modifies this`n, out, cursor, doneWalk
      ensures Valid() && j <= |names| && Walkers(k, j)
      ensures Planned() == old(Planned()) + Round(Chains(L, env, names), k, j)
      ensures j == |names| || n == cap
    {
      hide ToVarBind, Next, Chain, WalkerAt;
      ghost var chains := Chains(L, env, names);
      var i := 0;
      while i < |names| && n < cap
        invariant 0 <= i <= |names| && Valid() && Walkers(k, i)
        invariant Planned() == old(Planned()) + Round(chains, k, i)
      {
        Step(i, k);
        i := i + 1;
      }
      j := i;
    }

    /** All repetitions: the planned varbinds grow by the round-robin
        interleaving, cut where the output is full. */
    method Repeat(maxRep: nat)
      requires Valid() && Walkers(0, 0)
      modifies this`n, out, cursor, doneWalk
      ensures Valid()
      ensures var chains := Chains(L, env, names);
        Planned() == Take(old(Planned()) + RoundRobin(chains, maxRep), cap)
    {
      hide ToVarBind, Next, Chain, WalkerAt, Round;
      ghost var chains := Chains(L, env, names);
      ghost var start, full := Planned(), Planned() + RoundRobin(chains, maxRep);
      assert start + RoundRobin(chains, 0) == start;
      hide RoundRobin;
      var rep := 0;
      ghost var cut := false;
      while rep < maxRep && n < cap
        invariant 0 <= rep <= maxRep && Valid()
        invariant !cut ==> Walkers(rep, 0) && Planned() == start + RoundRobin(chains, rep)
        invariant cut ==> n == cap && Planned() <= full
      {
        ghost var j := Repetition(rep);
        InterleavingPrefix(start, chains, rep, j, maxRep);
        cut := j < |names|;
        rep := rep + 1;
      }
      if !cut { RoundRobinPrefix(chains, rep, maxRep); }
      PrefixIsTake(Planned(), full, cap);
    }
  }

  /** Whole rounds and part of the next one are a prefix of the interleaving. */
  lemma InterleavingPrefix(start: seq<VarBind>, chains: seq<seq<VarBind>>, rep: nat, j: nat, reps: nat)
    requires j <= |chains| && rep < reps
    ensures start + RoundRobin(chains, rep) + Round(chains, rep, j) <= start + RoundRobin(chains, reps)
    ensures j == |chains| ==>
        start + RoundRobin(chains, rep) + Round(chains, rep, j) == start + RoundRobin(chains, rep + 1)
  {
    assert RoundRobin(chains, rep + 1) == RoundRobin(chains, rep) + Round(chains, rep, |chains|);
    hide Round, RoundRobin;
    RoundPrefix(chains, rep, j);
    RoundRobinPrefix(chains, rep + 1, reps);
    assert RoundRobin(chains, rep) + Round(chains, rep, j) <= RoundRobin(chains, rep + 1);
  }

  lemma PrefixIsTake<T>(p: seq<T>, full: seq<T>, cap: nat)
    requires p <= full && |p| <= cap && (p == full || |p| == cap)
    ensures p == Take(full, cap)
  {
  }

  /** plan_getbulk. */
  method PlanGetBulk(mib: LeafTable, r: Request, cap: nat, ghost env: Env) returns (out: seq<RespVb>)
    requires mib.Valid() && Sorted(mib.Contents()) && |r.names| <= cap
    ensures AllRespOk(mib.Contents(), out)
    ensures ToVarBinds(mib.Contents(), env, out) == BulkAnswer(mib.Contents(), env, r, cap)
  {
    hide ToVarBind, Next, Chain, WalkerAt, NextAnswer, Cmp, Answers, Round, RoundRobin;
    var nonRep := if r.f2 < 0 then 0 else r.f2;
    if nonRep > |r.names| { nonRep := |r.names|; }
    var maxRep := if r.f3 < 0 then 0 else r.f3;
    var plan: BulkPlan := new BulkPlan(mib, r.names[nonRep..], cap, env);
    plan.NonRepeaters(r.names[..nonRep]);
    if |r.names| - nonRep != 0 && maxRep != 0 {
      plan.Repeat(maxRep);
    } else {
      NoRounds(Chains(mib.Contents(), env, r.names[nonRep..]), maxRep);
      assert |plan.Planned()| <= cap;
    }
    out := plan.out[..plan.n];
  }

  lemma {:induction false} NoRounds(chains: seq<seq<VarBind>>, reps: nat)
    requires chains == [] || reps == 0
    ensures RoundRobin(chains, reps) == []
  {
    if reps > 0 { NoRounds(chains, reps - 1); }
  }
}
