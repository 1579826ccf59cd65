/** A GETBULK answer slot by slot: how many varbinds there are, and which name and
    repetition each of them belongs to, counted on the request's own integers. */
module SnmpBulk {
  import opened Common
  import opened BerSpec
  import opened Mib
  import opened SnmpMessage
  import opened SnmpValues
  import opened SnmpPlan
  import opened SnmpRepetitions

  // ----- the first round -----

  /** The rounds begin with one varbind for every repeater. */
  lemma FirstRound(L: seq<Leaf>, env: Env, asked: seq<Oid>, repeated: seq<Oid>, reps: nat)
    requires Sorted(L) && reps > 0
    ensures Answers(L, env, asked + repeated)
         <= Answers(L, env, asked) + RoundRobin(Chains(L, env, repeated), reps)
  {
    var chains := Chains(L, env, repeated);
    OneRound(L, env, repeated);
    RoundRobinPrefix(chains, 1, reps);
    AnswersConcat(L, env, asked, repeated);
    ExtendsPrefix(Answers(L, env, asked), Answers(L, env, repeated), RoundRobin(chains, reps));
    hide *;
  }

  lemma ExtendsPrefix<T>(a: seq<T>, b: seq<T>, c: seq<T>)
    requires b <= c
    ensures a + b <= a + c
  {
  }

  lemma AnswersConcat(L: seq<Leaf>, env: Env, a: seq<Oid>, b: seq<Oid>)
    ensures Answers(L, env, a + b) == Answers(L, env, a) + Answers(L, env, b)
  {
    hide NextAnswer;
  }

  lemma OneRound(L: seq<Leaf>, env: Env, names: seq<Oid>)
    requires Sorted(L)
    ensures RoundRobin(Chains(L, env, names), 1) == Answers(L, env, names)
  {
    hide NextAnswer, Chain, Sorted, Next;
    ChainLengths(L, env, names);
    RoundIsRepetition(L, env, names, 0, |names|);
    assert Repetition(L, env, names, 0)[..|names|] == Answers(L, env, names);
    assert RoundRobin(Chains(L, env, names), 0) == [];
  }

  // ----- counting -----

  /** How many varbinds the i-th name gets: one before the non-repeaters count is
      reached, then one per repetition until its endOfMibView. */
  function SlotsOf(L: seq<Leaf>, r: Request, i: nat): nat
    requires i < |r.names|
  {
    if i < r.f2 then 1 else Min(if r.f3 < 0 then 0 else r.f3, |L| - Next(L, r.names[i]) + 1)
  }

  function SlotSum(L: seq<Leaf>, r: Request, n: nat): nat
    requires n <= |r.names|
  {
    if n == 0 then 0 else SlotSum(L, r, n - 1) + SlotsOf(L, r, n - 1)
  }

  /** How many of them come before the k-th one of the j-th name. */
  function Ahead(L: seq<Leaf>, r: Request, j: nat, k: nat, i: nat): nat
    requires i < |r.names|
  {
    if j < r.f2 then (if i < j then 1 else 0)
    else if i < r.f2 then 1
    else Min(k + (if i < j then 1 else 0), SlotsOf(L, r, i))
  }

  function Position(L: seq<Leaf>, r: Request, j: nat, k: nat, n: nat): nat
    requires n <= |r.names|
  {
    if n == 0 then 0 else Position(L, r, j, k, n - 1) + Ahead(L, r, j, k, n - 1)
  }

  /** The same on chains: of the first n, those before j have one slot more. */
  function Taken(chains: seq<seq<VarBind>>, k: nat, j: nat, n: nat): nat
    requires n <= |chains|
  {
    if n == 0 then 0
    else Taken(chains, k, j, n - 1) + Min(|chains[n - 1]|, k + if n - 1 < j then 1 else 0)
  }

  lemma {:induction false} RoundCount(chains: seq<seq<VarBind>>, k: nat, j: nat, n: nat)
    requires j <= |chains| && n <= |chains|
    ensures Taken(chains, k, j, n) == Taken(chains, k, 0, n) + |Round(chains, k, Min(j, n))|
  {
    if n > 0 { RoundCount(chains, k, j, n - 1); }
  }

  lemma {:induction false} NextRound(chains: seq<seq<VarBind>>, k: nat, n: nat)
    requires n <= |chains|
    ensures Taken(chains, k, |chains|, n) == Taken(chains, k + 1, 0, n)
  {
    if n > 0 { NextRound(chains, k, n - 1); }
  }

  lemma {:induction false} RoundsCount(chains: seq<seq<VarBind>>, k: nat)
    ensures |RoundRobin(chains, k)| == Taken(chains, k, 0, |chains|)
    decreases k
  {
    hide Round;
    if k == 0 {
      NothingTaken(chains, |chains|);
    } else {
      RoundsCount(chains, k - 1);
      RoundCount(chains, k - 1, |chains|, |chains|);
      NextRound(chains, k - 1, |chains|);
    }
  }

  lemma {:induction false} NothingTaken(chains: seq<seq<VarBind>>, n: nat)
    requires n <= |chains|
    ensures Taken(chains, 0, 0, n) == 0
  {
    if n > 0 { NothingTaken(chains, n - 1); }
  }

  lemma NextSlot(chains: seq<seq<VarBind>>, j: nat, k: nat)
    requires j < |chains| && k < |chains[j]|
    ensures Round(chains, k, j + 1) == Round(chains, k, j) + [chains[j][k]]
    ensures RoundRobin(chains, k + 1) == RoundRobin(chains, k) + Round(chains, k, |chains|)
  {
  }

  lemma InPrefix<T>(a: seq<T>, b: seq<T>, x: T, bs: seq<T>, all: seq<T>)
    requires b + [x] <= bs && a + bs <= all
    ensures |a| + |b| < |all| && all[|a| + |b|] == x
  {
    assert (a + bs)[|a| + |b|] == bs[|b|] == (b + [x])[|b|];
  }

  /** The slot of chain j in round k. */
  lemma RoundSlot(chains: seq<seq<VarBind>>, reps: nat, j: nat, k: nat)
    requires j < |chains| && k < reps && k < |chains[j]|
    ensures var at := Taken(chains, k, j, |chains|);
      at < |RoundRobin(chains, reps)| && RoundRobin(chains, reps)[at] == chains[j][k]
  {
    hide Round, Taken, RoundRobin;
    RoundsCount(chains, k);
    RoundCount(chains, k, j, |chains|);
    RoundPrefix(chains, k, j + 1);
    RoundRobinPrefix(chains, k + 1, reps);
    NextSlot(chains, j, k);
    InPrefix(RoundRobin(chains, k), Round(chains, k, j), chains[j][k], Round(chains, k, |chains|), RoundRobin(chains, reps));
  }

  // ----- the answer -----

  /** Where the repeaters begin. */
  function NonRepeaters(r: Request): nat { if r.f2 < 0 then 0 else Min(r.f2, |r.names|) }

  lemma NonRepeatersIsClamp(r: Request)
    ensures Clamp(r.f2, |r.names|) == NonRepeaters(r)
  {
  }

  lemma {:induction false} SumIsTaken(L: seq<Leaf>, env: Env, r: Request, n: nat)
    requires Sorted(L) && n <= |r.names|
    ensures var chains := Chains(L, env, r.names[NonRepeaters(r)..]);
      SlotSum(L, r, n)
      == if n <= NonRepeaters(r) then n else NonRepeaters(r) + Taken(chains, if r.f3 < 0 then 0 else r.f3, 0, n - NonRepeaters(r))
  {
    hide Chain, Next;
    if n > 0 {
      SumIsTaken(L, env, r, n - 1);
      ChainLengths(L, env, r.names[NonRepeaters(r)..]);
      if n - 1 == NonRepeaters(r) { assert Taken(Chains(L, env, r.names[NonRepeaters(r)..]), if r.f3 < 0 then 0 else r.f3, 0, 0) == 0; }
    }
  }

  lemma AheadIs(L: seq<Leaf>, r: Request, j: nat, k: nat, i: nat)
    requires i < |r.names| && NonRepeaters(r) <= j < |r.names| && k < SlotsOf(L, r, j)
    ensures Ahead(L, r, j, k, i)
         == if i < NonRepeaters(r) then 1 else Min(|L| - Next(L, r.names[i]) + 1, k + if i < j then 1 else 0)
  {
    hide Next;
  }

  lemma {:induction false} PositionIsTaken(L: seq<Leaf>, env: Env, r: Request, j: nat, k: nat, n: nat)
    requires Sorted(L) && n <= |r.names| && NonRepeaters(r) <= j < |r.names| && k < SlotsOf(L, r, j)
    ensures var chains := Chains(L, env, r.names[NonRepeaters(r)..]);
      Position(L, r, j, k, n)
      == if n <= NonRepeaters(r) then n else NonRepeaters(r) + Taken(chains, k, j - NonRepeaters(r), n - NonRepeaters(r))
  {
    hide Chain, Next, Ahead, SlotsOf, NonRepeaters;
    if n > 0 {
      var m := NonRepeaters(r);
      PositionIsTaken(L, env, r, j, k, n - 1);
      AheadIs(L, r, j, k, n - 1);
      ChainLengths(L, env, r.names[m..]);
      if n - 1 == m { assert Taken(Chains(L, env, r.names[m..]), k, j - m, 0) == 0; }
    }
  }

  /** The answer has every slot of every name, as far as the capacity goes. */
  lemma BulkLength(L: seq<Leaf>, env: Env, r: Request, cap: nat)
    requires Sorted(L)
    ensures |BulkAnswer(L, env, r, cap)| == Min(cap, SlotSum(L, r, |r.names|))
  {
    hide Chain, Next, RoundRobin;
    NonRepeatersIsClamp(r);
    var chains := Chains(L, env, r.names[NonRepeaters(r)..]);
    RoundsCount(chains, if r.f3 < 0 then 0 else r.f3);
    SumIsTaken(L, env, r, |r.names|);
  }

  /** And each of them is where its count says: the k-th successor of the j-th name. */
  lemma BulkSlot(L: seq<Leaf>, env: Env, r: Request, cap: nat, j: nat, k: nat)
    requires Sorted(L) && j < |r.names| && k < SlotsOf(L, r, j)
    ensures var at, vbs := Position(L, r, j, k, |r.names|), BulkAnswer(L, env, r, cap);
      && at < SlotSum(L, r, |r.names|)
      && (at < cap ==> at < |vbs| && vbs[at] == Repeated(L, env, r.names[j], k))
  {
    hide BulkAnswer, Next, Repeated, Position, SlotsOf, SlotSum, NonRepeaters;
    NonRepeatersBounds(L, r, j, k);
    if j < NonRepeaters(r) {
      AskedSlot(L, env, r, cap, j);
      AheadOfFirst(L, r, j, k, |r.names|);
      AtLeastNonRepeaters(L, r, |r.names|);
    } else {
      RepeatedSlot(L, env, r, cap, j, k);
    }
  }

  lemma TakeAt<T>(a: seq<T>, b: seq<T>, cap: nat, i: nat)
    requires i < |a| + |b| && i < cap
    ensures i < |Take(a + b, cap)| && Take(a + b, cap)[i] == if i < |a| then a[i] else b[i - |a|]
  {
  }

  lemma AskedSlot(L: seq<Leaf>, env: Env, r: Request, cap: nat, j: nat)
    requires Sorted(L) && j < NonRepeaters(r)
    ensures j < cap ==> j < |BulkAnswer(L, env, r, cap)| && BulkAnswer(L, env, r, cap)[j] == Repeated(L, env, r.names[j], 0)
  {
    hide Chains, NextAnswer, RoundRobin;
    NonRepeatersIsClamp(r);
    FirstSlot(L, env, r.names[j]);
    if j < cap {
      TakeAt(Answers(L, env, r.names[..NonRepeaters(r)]),
             RoundRobin(Chains(L, env, r.names[NonRepeaters(r)..]), if r.f3 < 0 then 0 else r.f3), cap, j);
    }
  }

  lemma RepeatedSlot(L: seq<Leaf>, env: Env, r: Request, cap: nat, j: nat, k: nat)
    requires Sorted(L) && NonRepeaters(r) <= j < |r.names| && k < SlotsOf(L, r, j)
    ensures var at, vbs := Position(L, r, j, k, |r.names|), BulkAnswer(L, env, r, cap);
      && at < SlotSum(L, r, |r.names|)
      && (at < cap ==> at < |vbs| && vbs[at] == Repeated(L, env, r.names[j], k))
  {
    hide Chain, Chains, Next, RoundRobin, Repeated, NextAnswer, Position, SlotsOf, SlotSum, Taken, NonRepeaters, Take;
    NonRepeatersIsClamp(r);
    NonRepeatersBounds(L, r, j, k);
    var m, reps := NonRepeaters(r), if r.f3 < 0 then 0 else r.f3;
    var chains := Chains(L, env, r.names[m..]);
    RoundsCount(chains, reps);
    SumIsTaken(L, env, r, |r.names|);
    PositionIsTaken(L, env, r, j, k, |r.names|);
    ChainLengths(L, env, r.names[m..]);
    ChainsAt(L, env, r.names[m..], j - m);
    RoundSlot(chains, reps, j - m, k);
    RepeatedIsChain(L, env, r.names[j], k);
    var at := Position(L, r, j, k, |r.names|);
    if at < cap { TakeAt(Answers(L, env, r.names[..m]), RoundRobin(chains, reps), cap, at); }
  }

  lemma ChainsAt(L: seq<Leaf>, env: Env, names: seq<Oid>, j: nat)
    requires Sorted(L) && j < |names|
    ensures Chains(L, env, names)[j] == Chain(L, env, names[j])
  {
    hide Chain;
  }

  lemma NonRepeatersBounds(L: seq<Leaf>, r: Request, j: nat, k: nat)
    requires j < |r.names| && k < SlotsOf(L, r, j)
    ensures NonRepeaters(r) <= |r.names| && (j < NonRepeaters(r) <==> j < r.f2)
    ensures j < NonRepeaters(r) ==> k == 0
    ensures j >= NonRepeaters(r) ==> k < r.f3 && k < |L| - Next(L, r.names[j]) + 1
  {
    hide Next;
  }

  lemma {:induction false} AtLeastNonRepeaters(L: seq<Leaf>, r: Request, n: nat)
    requires n <= |r.names|
    ensures SlotSum(L, r, n) >= Min(n, NonRepeaters(r))
  {
    hide Next;
    if n > 0 { AtLeastNonRepeaters(L, r, n - 1); }
  }

  lemma FirstSlot(L: seq<Leaf>, env: Env, name: Oid)
    ensures Repeated(L, env, name, 0) == NextAnswer(L, env, name)
  {
  }

  lemma {:induction false} AheadOfFirst(L: seq<Leaf>, r: Request, j: nat, k: nat, n: nat)
    requires j < r.f2 && n <= |r.names|
    ensures Position(L, r, j, k, n) == Min(j, n)
  {
    if n > 0 { AheadOfFirst(L, r, j, k, n - 1); }
  }

  /** The first varbinds are one per name, in order: of all names when there is a
      repetition, and of the non-repeaters otherwise. */
  lemma BulkBegins(L: seq<Leaf>, env: Env, r: Request, cap: nat, i: nat)
    requires Sorted(L) && i < |r.names| && i < cap && (i < r.f2 || r.f3 > 0)
    ensures i < |BulkAnswer(L, env, r, cap)| && BulkAnswer(L, env, r, cap)[i] == NextAnswer(L, env, r.names[i])
  {
    hide BulkAnswer, Next, Repeated, NextAnswer;
    BulkLength(L, env, r, cap);
    BulkSlot(L, env, r, cap, i, 0);
    OneAhead(L, r, i, |r.names|);
    FirstSlot(L, env, r.names[i]);
  }

  lemma {:induction false} OneAhead(L: seq<Leaf>, r: Request, j: nat, n: nat)
    requires n <= |r.names| && (j < r.f2 || r.f3 > 0)
    ensures Position(L, r, j, 0, n) == Min(j, n)
  {
    if n > 0 { OneAhead(L, r, j, n - 1); }
  }
}
