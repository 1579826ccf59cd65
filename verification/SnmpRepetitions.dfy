/** The repetitions of a GETBULK as section 4.2.3 of RFC 3416 numbers them, and when
    the agent's interleaving (plan_getbulk in lib/snmp/snmp_agent.c) is one of the
    lists that section allows. */
module SnmpRepetitions {
  import opened Common
  import opened BerSpec
  import opened Mib
  import opened SnmpMessage
  import opened SnmpValues
  import opened SnmpPlan

  // ----- the standard's list -----

  /** The varbind for a name in the k-th repetition: the successor of the name
      answered in the one before, or endOfMibView under that name. */
  function Repeated(L: seq<Leaf>, env: Env, name: Oid, k: nat): VarBind {
    NextAnswer(L, env, if k == 0 then name else Repeated(L, env, name, k - 1).name)
  }

  /** One repetition: every repeater has its place in it. */
  function Repetition(L: seq<Leaf>, env: Env, names: seq<Oid>, k: nat): seq<VarBind> {
    seq(|names|, j requires 0 <= j < |names| => Repeated(L, env, names[j], k))
  }

  function Repetitions(L: seq<Leaf>, env: Env, names: seq<Oid>, n: nat): seq<VarBind> {
    if n == 0 then [] else Repetitions(L, env, names, n - 1) + Repetition(L, env, names, n - 1)
  }

  /** The k-th repetition has endOfMibView for every repeater. */
  ghost predicate AllEnded(L: seq<Leaf>, env: Env, names: seq<Oid>, k: nat) {
    forall j :: 0 <= j < |names| ==> Repetition(L, env, names, k)[j].value == END_OF_MIB
  }

  /** All repetitions, or fewer: those up to one in which every repeater had ended. */
  ghost predicate Allowed(L: seq<Leaf>, env: Env, names: seq<Oid>, reps: nat, vbs: seq<VarBind>) {
    exists n: nat :: n <= reps && vbs == Repetitions(L, env, names, n)
                     && (n == reps || (n > 0 && AllEnded(L, env, names, n - 1)))
  }

  /** The slots a repeater gets from the agent. */
  function Slots(L: seq<Leaf>, name: Oid, reps: nat): int { Min(|L| - Next(L, name) + 1, reps) }

  ghost predicate SameSlots(L: seq<Leaf>, names: seq<Oid>, reps: nat) {
    forall i, j :: 0 <= i < |names| && 0 <= j < |names| ==>
      Slots(L, names[i], reps) == Slots(L, names[j], reps)
  }

  // ----- one repeater -----

  lemma LeafValueNotEnd(env: Env, leaf: Leaf)
    ensures LeafValue(env, leaf) != END_OF_MIB
  {
  }

  /** The chain is the standard's sequence up to its first endOfMibView, which then
      stays. */
  lemma {:induction false} RepeatedIsChain(L: seq<Leaf>, env: Env, name: Oid, k: nat)
    requires Sorted(L)
    ensures var c := Chain(L, env, name);
      && Repeated(L, env, name, k) == c[Min(k, |c| - 1)]
      && (Repeated(L, env, name, k).value == END_OF_MIB <==> |c| <= k + 1)
    decreases k
  {
    hide LeafOid, LeafValue, Next, Chain, Sorted;
    var first, len := Next(L, name), |L| - Next(L, name) + 1;
    var at := Min(k, len - 1);
    ChainSlot(L, env, name, at);
    if first + at < |L| { LeafValueNotEnd(env, L[first + at]); }
    if k > 0 {
      RepeatedIsChain(L, env, name, k - 1);
      var before := Min(k - 1, len - 1);
      ChainSlot(L, env, name, before);
      if first + before < |L| {
        NextOfOwnOid(L, first + before);
      } else if before > 0 {
        NextOfOwnOid(L, first + before - 1);
      }
    }
  }

  // ----- one repetition -----

  lemma {:induction false} RoundLength(chains: seq<seq<VarBind>>, k: nat, j: nat)
    requires j <= |chains|
    ensures |Round(chains, k, j)| <= j
    ensures |Round(chains, k, j)| == j <==> forall i :: 0 <= i < j ==> |chains[i]| > k
  {
    if j > 0 { RoundLength(chains, k, j - 1); }
  }

  /** A repetition in which every chain has a slot is the standard's. */
  lemma {:induction false} RoundIsRepetition(L: seq<Leaf>, env: Env, names: seq<Oid>, k: nat, j: nat)
    requires Sorted(L) && j <= |names|
    requires forall i :: 0 <= i < j ==> |Chain(L, env, names[i])| > k
    ensures Round(Chains(L, env, names), k, j) == Repetition(L, env, names, k)[..j]
    decreases j
  {
    hide Chain, Repeated;
    if j > 0 {
      RoundIsRepetition(L, env, names, k, j - 1);
      RepeatedIsChain(L, env, names[j - 1], k);
      assert Repetition(L, env, names, k)[..j]
          == Repetition(L, env, names, k)[..j - 1] + [Repeated(L, env, names[j - 1], k)];
    }
  }

  // ----- all repetitions -----

  ghost predicate Reaches(chains: seq<seq<VarBind>>, n: nat) {
    forall i :: 0 <= i < |chains| ==> |chains[i]| >= n
  }

  ghost predicate Within(chains: seq<seq<VarBind>>, n: nat) {
    forall i :: 0 <= i < |chains| ==> |chains[i]| <= n
  }

  /** n rounds have a slot for every chain in each exactly when no chain ends before. */
  lemma {:induction false} RoundsLength(chains: seq<seq<VarBind>>, n: nat)
    ensures |RoundRobin(chains, n)| <= |chains| * n
    ensures |RoundRobin(chains, n)| == |chains| * n <==> Reaches(chains, n)
    decreases n
  {
    hide Round;
    if n > 0 {
      RoundsLength(chains, n - 1);
      RoundLength(chains, n - 1, |chains|);
      assert |chains| * n == |chains| * (n - 1) + |chains|;
    }
  }

  lemma {:induction false} NothingAfterAll(chains: seq<seq<VarBind>>, n: nat, reps: nat)
    requires Within(chains, n) && n <= reps
    ensures RoundRobin(chains, reps) == RoundRobin(chains, n)
    decreases reps
  {
    hide Round;
    if n < reps {
      NothingAfterAll(chains, n, reps - 1);
      EmptyRound(chains, reps - 1, |chains|);
    }
  }

  lemma {:induction false} EmptyRound(chains: seq<seq<VarBind>>, k: nat, j: nat)
    requires j <= |chains| && Within(chains, k)
    ensures Round(chains, k, j) == []
  {
    if j > 0 { EmptyRound(chains, k, j - 1); }
  }

  lemma {:induction false} RoundsAreRepetitions(L: seq<Leaf>, env: Env, names: seq<Oid>, n: nat)
    requires Sorted(L) && Reaches(Chains(L, env, names), n)
    ensures RoundRobin(Chains(L, env, names), n) == Repetitions(L, env, names, n)
    decreases n
  {
    hide Chain, Round, Repeated;
    if n > 0 {
      RoundsAreRepetitions(L, env, names, n - 1);
      assert forall i :: 0 <= i < |names| ==> Chains(L, env, names)[i] == Chain(L, env, names[i]);
      RoundIsRepetition(L, env, names, n - 1, |names|);
    }
  }

  lemma {:induction false} RepetitionsLength(L: seq<Leaf>, env: Env, names: seq<Oid>, n: nat)
    ensures |Repetitions(L, env, names, n)| == |names| * n
    decreases n
  {
    if n > 0 {
      RepetitionsLength(L, env, names, n - 1);
      assert |names| * n == |names| * (n - 1) + |names|;
    }
  }

  lemma ChainLengths(L: seq<Leaf>, env: Env, names: seq<Oid>)
    requires Sorted(L)
    ensures |Chains(L, env, names)| == |names|
    ensures forall i :: 0 <= i < |names| ==> |Chains(L, env, names)[i]| == |L| - Next(L, names[i]) + 1
  {
    hide Chain, Next;
    forall i | 0 <= i < |names|
      ensures |Chains(L, env, names)[i]| == |L| - Next(L, names[i]) + 1
    {
      ChainShape(L, env, names[i]);
    }
  }

  lemma AllEndedIsWithin(L: seq<Leaf>, env: Env, names: seq<Oid>, k: nat)
    requires Sorted(L)
    ensures AllEnded(L, env, names, k) <==> Within(Chains(L, env, names), k + 1)
  {
    hide Chain, Repeated;
    forall j | 0 <= j < |names|
      ensures Repetition(L, env, names, k)[j].value == END_OF_MIB <==> |Chains(L, env, names)[j]| <= k + 1
    {
      RepeatedIsChain(L, env, names[j], k);
    }
  }

  /** With as many slots for one repeater as for another, the agent's interleaving is
      the standard's list of that many repetitions. */
  lemma SameSlotsAllow(L: seq<Leaf>, env: Env, names: seq<Oid>, reps: nat)
    requires Sorted(L) && SameSlots(L, names, reps)
    ensures var n := if names == [] then reps else Slots(L, names[0], reps);
      && 0 <= n <= reps && RoundRobin(Chains(L, env, names), reps) == Repetitions(L, env, names, n)
      && (n == reps || (n > 0 && AllEnded(L, env, names, n - 1)))
  {
    hide Chain, Next, RoundRobin, Repetitions, AllEnded;
    var chains := Chains(L, env, names);
    var n := if names == [] then reps else Slots(L, names[0], reps);
    ChainLengths(L, env, names);
    assert forall i :: 0 <= i < |names| ==> Slots(L, names[i], reps) == n;
    RoundsAreRepetitions(L, env, names, n);
    if n < reps {
      NothingAfterAll(chains, n, reps);
      AllEndedIsWithin(L, env, names, n - 1);
    }
  }

  lemma AllowedMeansSameSlots(L: seq<Leaf>, env: Env, names: seq<Oid>, reps: nat, n: nat)
    requires Sorted(L) && n <= reps
    requires RoundRobin(Chains(L, env, names), reps) == Repetitions(L, env, names, n)
    requires n == reps || (n > 0 && AllEnded(L, env, names, n - 1))
    ensures SameSlots(L, names, reps)
  {
    hide Chain, Next, RoundRobin, Repetitions, AllEnded;
    var chains := Chains(L, env, names);
    ChainLengths(L, env, names);
    RepetitionsLength(L, env, names, n);
    if n < reps {
      AllEndedIsWithin(L, env, names, n - 1);
      NothingAfterAll(chains, n, reps);
    }
    RoundsLength(chains, n);
  }

  /** Before the output's capacity cuts it, the interleaving is a list the standard
      allows exactly when every repeater gets the same number of slots: in each
      repetition either all of them still have one or none has. */
  lemma AllowedExactly(L: seq<Leaf>, env: Env, names: seq<Oid>, reps: nat)
    requires Sorted(L)
    ensures Allowed(L, env, names, reps, RoundRobin(Chains(L, env, names), reps))
       <==> SameSlots(L, names, reps)
  {
    hide Chains, RoundRobin, Repetitions, AllEnded, SameSlots, Next;
    var vbs := RoundRobin(Chains(L, env, names), reps);
    if Allowed(L, env, names, reps, vbs) {
      var n: nat :| n <= reps && vbs == Repetitions(L, env, names, n)
                    && (n == reps || (n > 0 && AllEnded(L, env, names, n - 1)));
      AllowedMeansSameSlots(L, env, names, reps, n);
    }
    if SameSlots(L, names, reps) { SameSlotsAllow(L, env, names, reps); }
  }

  /** Cut at the output's capacity: only the first q repetitions decide, when no more
      than those are asked for or fit. */
  lemma AllowedWhenCut(L: seq<Leaf>, env: Env, r: Request, cap: nat, q: nat)
    requires Sorted(L)
    requires var nonRep := Clamp(r.f2, |r.names|);
      && SameSlots(L, r.names[nonRep..], q)
      && (q == r.f3 || (q < r.f3 && nonRep + (|r.names| - nonRep) * q >= cap))
    ensures var nonRep := Clamp(r.f2, |r.names|);
      var first, names := Answers(L, env, r.names[..nonRep]), r.names[nonRep..];
      exists n: nat :: n <= q && (n == q || (n > 0 && AllEnded(L, env, names, n - 1)))
        && BulkAnswer(L, env, r, cap) == Take(first + Repetitions(L, env, names, n), cap)
  {
    hide Chain, Next, RoundRobin, Repetitions, AllEnded, SameSlots, Slots, NextAnswer;
    var nonRep := Clamp(r.f2, |r.names|);
    var first, names := Answers(L, env, r.names[..nonRep]), r.names[nonRep..];
    var chains := Chains(L, env, names);
    SameSlotsAllow(L, env, names, q);
    var n := if names == [] then q else Slots(L, names[0], q);
    assert RoundRobin(chains, q) == Repetitions(L, env, names, n);
    RoundRobinPrefix(chains, q, r.f3);
    RepetitionsLength(L, env, names, n);
    if n < q {
      AllEndedIsWithin(L, env, names, n - 1);
      NothingAfterAll(chains, n, q);
      NothingAfterAll(chains, n, r.f3);
    } else {
      TakeOfPrefix(first, RoundRobin(chains, q), RoundRobin(chains, r.f3), cap);
    }
  }

  lemma TakeOfPrefix<T>(a: seq<T>, b: seq<T>, c: seq<T>, cap: nat)
    requires b <= c && (b == c || |a| + |b| >= cap)
    ensures Take(a + b, cap) == Take(a + c, cap)
  {
    assert c == b + c[|b|..];
    assert a + c == a + b + c[|b|..];
  }

  // ----- the list as it is sent -----

  /** A place in the standard's list, and whether the agent fills it: not for a repeater
      that has ended. */
  datatype Place = Place(vb: VarBind, kept: bool)

  ghost function PlacesOf(L: seq<Leaf>, env: Env, names: seq<Oid>, k: nat, j: nat): seq<Place>
    requires j <= |names|
  {
    if j == 0 then []
    else PlacesOf(L, env, names, k, j - 1)
         + [Place(Repeated(L, env, names[j - 1], k), k <= |L| - Next(L, names[j - 1]))]
  }

  ghost function Places(L: seq<Leaf>, env: Env, names: seq<Oid>, n: nat): seq<Place> {
    if n == 0 then [] else Places(L, env, names, n - 1) + PlacesOf(L, env, names, n - 1, |names|)
  }

  function All(ps: seq<Place>): (r: seq<VarBind>)
    ensures |r| == |ps|
  {
    seq(|ps|, i requires 0 <= i < |ps| => ps[i].vb)
  }

  function Kept(ps: seq<Place>): seq<VarBind> {
    if ps == [] then []
    else Kept(ps[..|ps| - 1]) + if ps[|ps| - 1].kept then [ps[|ps| - 1].vb] else []
  }

  /** The first place the agent leaves out. */
  function FirstLeftOut(ps: seq<Place>): nat {
    if ps == [] then 0 else if ps[0].kept then 1 + FirstLeftOut(ps[1..]) else 0
  }

  lemma {:induction false} KeptConcat(a: seq<Place>, b: seq<Place>)
    ensures Kept(a + b) == Kept(a) + Kept(b)
  {
    if b == [] {
      assert a + b == a;
    } else {
      var ab := a + b;
      assert ab[..|ab| - 1] == a + b[..|b| - 1];
      KeptConcat(a, b[..|b| - 1]);
    }
  }

  lemma AllConcat(a: seq<Place>, b: seq<Place>)
    ensures All(a + b) == All(a) + All(b)
  {
  }

  lemma {:induction false} PlacesOfRepetition(L: seq<Leaf>, env: Env, names: seq<Oid>, k: nat, j: nat)
    requires j <= |names|
    ensures All(PlacesOf(L, env, names, k, j)) == Repetition(L, env, names, k)[..j]
    decreases j
  {
    hide Repeated, Next;
    if j > 0 {
      PlacesOfRepetition(L, env, names, k, j - 1);
      AllConcat(PlacesOf(L, env, names, k, j - 1), [PlacesOf(L, env, names, k, j)[j - 1]]);
    }
  }

  lemma {:induction false} PlacesOfRound(L: seq<Leaf>, env: Env, names: seq<Oid>, k: nat, j: nat)
    requires Sorted(L) && j <= |names|
    ensures Kept(PlacesOf(L, env, names, k, j)) == Round(Chains(L, env, names), k, j)
    ensures OnlyEndsLeftOut(PlacesOf(L, env, names, k, j))
    decreases j
  {
    hide Chain, Repeated, Next, Kept;
    if j == 0 {
      NoneKept();
    } else {
      PlacesOfRound(L, env, names, k, j - 1);
      var last := Place(Repeated(L, env, names[j - 1], k), k <= |L| - Next(L, names[j - 1]));
      RepeatedIsChain(L, env, names[j - 1], k);
      ChainShape(L, env, names[j - 1]);
      KeptConcat(PlacesOf(L, env, names, k, j - 1), [last]);
      KeptOne(last);
    }
  }

  lemma NoneKept()
    ensures Kept([]) == []
  {
  }

  lemma KeptOne(p: Place)
    ensures Kept([p]) == if p.kept then [p.vb] else []
  {
    assert [p][..0] == [];
  }

  /** The standard's list is all places, the agent's the ones that are kept; only
      endOfMibView is left out. */
  lemma {:induction false} PlacesAre(L: seq<Leaf>, env: Env, names: seq<Oid>, n: nat)
    requires Sorted(L)
    ensures All(Places(L, env, names, n)) == Repetitions(L, env, names, n)
    ensures Kept(Places(L, env, names, n)) == RoundRobin(Chains(L, env, names), n)
    ensures OnlyEndsLeftOut(Places(L, env, names, n))
    decreases n
  {
    hide Chain, Repeated, Next, Round, PlacesOf, Kept, All;
    if n == 0 {
      NoneKept();
      assert All([]) == [];
    } else {
      PlacesAre(L, env, names, n - 1);
      PlacesOfRound(L, env, names, n - 1, |names|);
      PlacesOfRepetition(L, env, names, n - 1, |names|);
      var rep := Repetition(L, env, names, n - 1);
      assert rep[..|names|] == rep;
      var before, last := Places(L, env, names, n - 1), PlacesOf(L, env, names, n - 1, |names|);
      KeptConcat(before, last);
      AllConcat(before, last);
    }
  }

  ghost predicate OnlyEndsLeftOut(ps: seq<Place>) {
    forall i :: 0 <= i < |ps| && !ps[i].kept ==> ps[i].vb.value == END_OF_MIB
  }

  /** Where a place that is kept ends up. */
  lemma {:induction false} KeptAt(ps: seq<Place>, i: nat)
    requires i <= |ps|
    ensures |Kept(ps[..i])| <= i && |Kept(ps[..i])| <= |Kept(ps)|
    ensures i < |ps| && ps[i].kept ==>
        |Kept(ps[..i])| < |Kept(ps)| && Kept(ps)[|Kept(ps[..i])|] == ps[i].vb
  {
    KeptLength(ps[..i]);
    assert ps[..i] + ps[i..] == ps;
    KeptConcat(ps[..i], ps[i..]);
    if i < |ps| {
      assert [ps[i]] + ps[i + 1..] == ps[i..];
      KeptConcat([ps[i]], ps[i + 1..]);
      KeptOne(ps[i]);
    }
  }

  lemma {:induction false} KeptLength(ps: seq<Place>)
    ensures |Kept(ps)| <= |ps|
  {
    if ps != [] { KeptLength(ps[..|ps| - 1]); }
  }

  lemma {:induction false} FirstLeftOutIs(ps: seq<Place>)
    ensures var f := FirstLeftOut(ps);
      f <= |ps| && (f < |ps| ==> !ps[f].kept) && forall i :: 0 <= i < f ==> ps[i].kept
  {
    if ps != [] && ps[0].kept { FirstLeftOutIs(ps[1..]); }
  }

  lemma {:induction false} AllKept(ps: seq<Place>)
    requires forall i :: 0 <= i < |ps| ==> ps[i].kept
    ensures Kept(ps) == All(ps)
  {
    if ps != [] {
      AllKept(ps[..|ps| - 1]);
      AllConcat(ps[..|ps| - 1], [ps[|ps| - 1]]);
      assert ps[..|ps| - 1] + [ps[|ps| - 1]] == ps;
    }
  }

  /** Up to the first place that is left out the two lists agree; from it on a kept
      place has moved ahead. */
  lemma MovedAhead(ps: seq<Place>, i: nat)
    requires i < |ps|
    ensures var f, at := FirstLeftOut(ps), |Kept(ps[..i])|;
      && (i < f ==> at == i && ps[i].kept)
      && (i > f ==> f <= at < i)
      && (i == f ==> !ps[i].kept)
  {
    var f := FirstLeftOut(ps);
    FirstLeftOutIs(ps);
    if i <= f {
      AllKept(ps[..i]);
    } else {
      AllKept(ps[..f]);
      assert ps[..i] == ps[..f] + ([ps[f]] + ps[f + 1..i]);
      KeptConcat(ps[..f], [ps[f]] + ps[f + 1..i]);
      KeptConcat([ps[f]], ps[f + 1..i]);
      KeptOne(ps[f]);
      KeptLength(ps[f + 1..i]);
    }
  }

  /** What is sent from the first left-out place on is endOfMibView under the names the
      standard has there. */
  ghost predicate OnlyEnds(ps: seq<Place>, n: nat)
    requires n <= |Kept(ps)| && n <= |ps|
  {
    forall i :: FirstLeftOut(ps) <= i < n ==> Kept(ps)[i] == VarBind(ps[i].vb.name, END_OF_MIB)
  }

  lemma {:induction false} AgreeMeansEnds(ps: seq<Place>, n: nat, i: nat)
    requires OnlyEndsLeftOut(ps) && n <= |Kept(ps)| && n <= |ps| && FirstLeftOut(ps) <= i < n
    requires Kept(ps)[..n] == All(ps)[..n]
    ensures Kept(ps)[i] == VarBind(ps[i].vb.name, END_OF_MIB)
    decreases i
  {
    assert Kept(ps)[i] == Kept(ps)[..n][i] == All(ps)[i];
    if ps[i].kept {
      var at := |Kept(ps[..i])|;
      KeptAt(ps, i);
      MovedAhead(ps, i);
      AgreeMeansEnds(ps, n, at);
    }
  }

  /** The first n entries of the two lists agree exactly then. */
  lemma AgreeExactly(ps: seq<Place>, n: nat)
    requires OnlyEndsLeftOut(ps) && n <= |Kept(ps)| && n <= |ps|
    ensures Kept(ps)[..n] == All(ps)[..n] <==> OnlyEnds(ps, n)
  {
    if Kept(ps)[..n] == All(ps)[..n] {
      forall i | FirstLeftOut(ps) <= i < n
        ensures Kept(ps)[i] == VarBind(ps[i].vb.name, END_OF_MIB)
      {
        AgreeMeansEnds(ps, n, i);
      }
    } else if OnlyEnds(ps, n) {
      forall i | 0 <= i < n
        ensures Kept(ps)[i] == All(ps)[i]
      {
        KeptAt(ps, i);
        MovedAhead(ps, i);
      }
    }
  }

  /** The list that is sent is one the standard allows, cut at the capacity. */
  ghost predicate AllowedCut(L: seq<Leaf>, env: Env, first: seq<VarBind>, names: seq<Oid>, reps: nat, cap: nat,
                             vbs: seq<VarBind>) {
    exists n: nat :: n <= reps && vbs == Take(first + Repetitions(L, env, names, n), cap)
                     && (n == reps || (n > 0 && AllEnded(L, env, names, n - 1)))
  }

  lemma {:induction false} RepetitionsPrefix(L: seq<Leaf>, env: Env, names: seq<Oid>, n: nat, reps: nat)
    requires n <= reps
    ensures Repetitions(L, env, names, n) <= Repetitions(L, env, names, reps)
    decreases reps
  {
    if n < reps { RepetitionsPrefix(L, env, names, n, reps - 1); }
  }

  /** The agent's GETBULK list is such a list exactly when, if it fills the capacity,
      all it holds from the first left-out place on is endOfMibView under the names the
      standard has there, and, if it does not, every repeater gets the same number of
      slots. */
  lemma AllowedCutExactly(L: seq<Leaf>, env: Env, r: Request, cap: nat)
    requires Sorted(L) && |r.names| <= cap
    ensures var nonRep, reps := Clamp(r.f2, |r.names|), if r.f3 < 0 then 0 else r.f3;
      var first, names := Answers(L, env, r.names[..nonRep]), r.names[nonRep..];
      var places := Places(L, env, names, reps);
      && (nonRep + |Kept(places)| >= cap ==> cap - nonRep <= |places|)
      && (AllowedCut(L, env, first, names, reps, cap, BulkAnswer(L, env, r, cap))
          <==> if nonRep + |Kept(places)| >= cap then OnlyEnds(places, cap - nonRep)
               else SameSlots(L, names, reps))
  {
    hide Chain, Next, RoundRobin, Repetitions, AllEnded, SameSlots, NextAnswer, Places, Kept, OnlyEnds, OnlyEndsLeftOut;
    var nonRep, reps := Clamp(r.f2, |r.names|), if r.f3 < 0 then 0 else r.f3;
    var first, names := Answers(L, env, r.names[..nonRep]), r.names[nonRep..];
    var places := Places(L, env, names, reps);
    PlacesAre(L, env, names, reps);
    KeptLength(places);
    if nonRep + |Kept(places)| >= cap {
      AgreeExactly(places, cap - nonRep);
      CutAllowed(L, env, first, names, reps, cap, Kept(places));
    } else {
      AllowedExactly(L, env, names, reps);
      UncutAllowed(L, env, first, names, reps, cap, Kept(places));
    }
  }

  lemma CutAllowed(L: seq<Leaf>, env: Env, first: seq<VarBind>, names: seq<Oid>, reps: nat, cap: nat, kept: seq<VarBind>)
    requires |first| <= cap <= |first| + |kept| && |kept| <= |Repetitions(L, env, names, reps)|
    ensures AllowedCut(L, env, first, names, reps, cap, Take(first + kept, cap))
       <==> kept[..cap - |first|] == Repetitions(L, env, names, reps)[..cap - |first|]
  {
    hide Repetitions, AllEnded;
    var all, n := Repetitions(L, env, names, reps), cap - |first|;
    TakeInside(first, kept, cap);
    TakeInside(first, all, cap);
    var vbs := Take(first + kept, cap);
    if AllowedCut(L, env, first, names, reps, cap, vbs) {
      var m: nat :| m <= reps && vbs == Take(first + Repetitions(L, env, names, m), cap)
                    && (m == reps || (m > 0 && AllEnded(L, env, names, m - 1)));
      RepetitionsPrefix(L, env, names, m, reps);
      TakeInside(first, Repetitions(L, env, names, m), cap);
      SamePrefix<VarBind>(first, kept[..n], Repetitions(L, env, names, m)[..n]);
    }
  }

  lemma TakeInside<T>(a: seq<T>, b: seq<T>, cap: nat)
    requires |a| <= cap
    ensures |a| + |b| >= cap ==> Take(a + b, cap) == a + b[..cap - |a|]
    ensures |a| + |b| < cap ==> Take(a + b, cap) == a + b
  {
  }

  lemma UncutAllowed(L: seq<Leaf>, env: Env, first: seq<VarBind>, names: seq<Oid>, reps: nat, cap: nat, kept: seq<VarBind>)
    requires |first| + |kept| < cap
    ensures AllowedCut(L, env, first, names, reps, cap, Take(first + kept, cap))
       <==> Allowed(L, env, names, reps, kept)
  {
    hide Repetitions, AllEnded;
    TakeInside(first, kept, cap);
    if AllowedCut(L, env, first, names, reps, cap, first + kept) {
      var m: nat :| m <= reps && first + kept == Take(first + Repetitions(L, env, names, m), cap)
                    && (m == reps || (m > 0 && AllEnded(L, env, names, m - 1)));
      TakeInside(first, Repetitions(L, env, names, m), cap);
      SamePrefix<VarBind>(first, kept, Repetitions(L, env, names, m));
    }
  }

  /** In any view of three leaves or more, two repeaters of which one has come to the
      last leaf: the agent leaves its place in the second repetition out. */
  lemma LeavesPlacesOut(L: seq<Leaf>, env: Env, requestId: int32, cap: nat)
    requires Sorted(L) && |L| >= 3 && cap >= 4
    ensures var names := [LeafOid(L[|L| - 1]), LeafOid(L[|L| - 3])];
      var agent := BulkAnswer(L, env, Request(PDU_GETBULK, requestId, 0, 2, names, false), cap);
      && |agent| == 3 && |Repetitions(L, env, names, 2)| == 4
      && agent[2].name == LeafOid(L[|L| - 1]) && agent[2].value == LeafValue(env, L[|L| - 1])
      && Repetitions(L, env, names, 2)[2] == VarBind(LeafOid(L[|L| - 1]), END_OF_MIB)
      && agent[2] != Repetitions(L, env, names, 2)[2]
      && !Allowed(L, env, names, 2, agent)
  {
    hide LeafOid, LeafValue, Chain, Next, Repeated;
    var names := [LeafOid(L[|L| - 1]), LeafOid(L[|L| - 3])];
    AtTheEnd(L, env);
    TwoRounds(Chains(L, env, names));
    RepetitionsLength(L, env, names, 2);
    SecondRepetition(L, env, names);
    assert names[..0] == [] && names[0..] == names;
    AllowedExactly(L, env, names, 2);
    assert Slots(L, names[0], 2) != Slots(L, names[1], 2);
    hide Allowed, Repetitions, RoundRobin;
  }

  lemma AtTheEnd(L: seq<Leaf>, env: Env)
    requires Sorted(L) && |L| >= 3
    ensures var names, n := [LeafOid(L[|L| - 1]), LeafOid(L[|L| - 3])], |L|;
      && Next(L, names[0]) == n && Next(L, names[1]) == n - 2
      && |Chain(L, env, names[0])| == 1 && |Chain(L, env, names[1])| == 3
      && Chain(L, env, names[1])[1] == VarBind(names[0], LeafValue(env, L[n - 1]))
      && Repeated(L, env, names[0], 1) == VarBind(names[0], END_OF_MIB)
      && LeafValue(env, L[n - 1]) != END_OF_MIB
  {
    hide LeafOid, LeafValue, Chain, Next, Repeated;
    var last, other, n := LeafOid(L[|L| - 1]), LeafOid(L[|L| - 3]), |L|;
    NextOfOwnOid(L, n - 1);
    NextOfOwnOid(L, n - 3);
    ChainSlot(L, env, last, 0);
    ChainSlot(L, env, other, 1);
    RepeatedIsChain(L, env, last, 1);
    LeafValueNotEnd(env, L[n - 1]);
  }

  lemma TwoRounds(chains: seq<seq<VarBind>>)
    requires |chains| == 2 && |chains[0]| == 1 && |chains[1]| >= 2
    ensures RoundRobin(chains, 2) == [chains[0][0], chains[1][0], chains[1][1]]
  {
    assert Round(chains, 0, 1) == [chains[0][0]];
    assert Round(chains, 0, 2) == [chains[0][0], chains[1][0]];
    assert Round(chains, 1, 1) == [];
    assert Round(chains, 1, 2) == [chains[1][1]];
    assert RoundRobin(chains, 1) == Round(chains, 0, 2);
  }

  lemma SecondRepetition(L: seq<Leaf>, env: Env, names: seq<Oid>)
    requires |names| == 2
    ensures |Repetitions(L, env, names, 2)| == 4
    ensures Repetitions(L, env, names, 2)[2] == Repeated(L, env, names[0], 1)
  {
    hide Repeated;
    assert Repetitions(L, env, names, 1) == Repetition(L, env, names, 0);
  }
}
