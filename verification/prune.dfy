/** The two pruning passes `removeUnreachable` and `removeRedundant` of
    aag_2.cpp, which `ToMinimalDFA` runs before it partitions the states. */
module Prune {
  import opened Automata
  import opened Graph

  /** The edges a word over the alphabet can follow: `removeUnreachable` only
      looks up transitions on symbols of the alphabet. */
  function ForwardEdges(d: Dfa): (e: Edges)
    ensures forall x, y :: (x, y) in e <==>
      exists c: Symbol :: c in d.alphabet && (x, c) in d.transitions && d.transitions[(x, c)] == y
  {
    set k | k in d.transitions && k.1 in d.alphabet :: (k.0, d.transitions[k])
  }

  /** The edges of every transition, whatever its symbol: `removeRedundant`
      builds its backward edges from all of `m_Transitions`. */
  function AllEdges(d: Dfa): (e: Edges)
    ensures forall x, y :: (x, y) in e <==>
      exists c: Symbol :: (x, c) in d.transitions && d.transitions[(x, c)] == y
  {
    set k | k in d.transitions :: (k.0, d.transitions[k])
  }

  /** The transitions whose source and target are both kept. */
  function Restrict(t: map<(State, Symbol), State>, keep: set<State>): (r: map<(State, Symbol), State>)
    ensures forall k :: k in r <==> k in t && k.0 in keep && t[k] in keep
    ensures forall k :: k in r ==> r[k] == t[k]
  {
    map k | k in t && k.0 in keep && t[k] in keep :: t[k]
  }

  /** Restricting to a set that holds every endpoint changes nothing. */
  lemma LemmaRestrictAll(t: map<(State, Symbol), State>, keep: set<State>)
    requires forall k :: k in t ==> k.0 in keep && t[k] in keep
    ensures Restrict(t, keep) == t
  {
  }

  /** Every state can be reached from the initial state by a word. */
  ghost predicate Accessible(d: Dfa)
  {
    forall q :: q in d.states ==> Reaches(ForwardEdges(d), d.initial, q)
  }

  /** Some final state can be reached from `q`. */
  ghost predicate Useful(d: Dfa, q: State)
  {
    exists f :: f in d.finals && Reaches(AllEdges(d), q, f)
  }

  /** Every state is useful. */
  ghost predicate CoAccessible(d: Dfa)
  {
    forall q :: q in d.states ==> Useful(d, q)
  }

  /** `r` is what `removeUnreachable` leaves of `d`: the states a word
      reaches, the final states among them, and the transitions between
      them. */
  ghost predicate ReachablePart(d: Dfa, r: Dfa)
  {
    && r.alphabet == d.alphabet && r.initial == d.initial
    && (forall q :: q in r.states <==> Reaches(ForwardEdges(d), d.initial, q))
    && r.finals == d.finals * r.states
    && r.transitions == Restrict(d.transitions, r.states)
  }

  /** `r` is what `removeRedundant` leaves of `d`: the useful states, the
      final states as they are, and the transitions between useful states. */
  ghost predicate UsefulPart(d: Dfa, r: Dfa)
  {
    && r.alphabet == d.alphabet && r.initial == d.initial && r.finals == d.finals
    && (forall q :: q in r.states <==> Useful(d, q))
    && r.transitions == Restrict(d.transitions, r.states)
  }

  /** `removeUnreachable`: keeps exactly the states reachable from the
      initial state, the final states among them, and the transitions
      between them. */
  method RemoveUnreachable(d: Dfa) returns (r: Dfa)
    ensures r.alphabet == d.alphabet && r.initial == d.initial
    ensures forall q :: q in r.states <==> Reaches(ForwardEdges(d), d.initial, q)
    ensures forall q :: q in r.finals <==> q in d.finals && q in r.states
    ensures forall k :: k in r.transitions <==>
      k in d.transitions && k.0 in r.states && d.transitions[k] in r.states
    ensures forall k :: k in r.transitions ==> r.transitions[k] == d.transitions[k]
    ensures WellFormedDfa(r) && Accessible(r)
    ensures WellFormedDfa(d) && Accessible(d) ==> r == d
    ensures ReachablePart(d, r)
    ensures forall w :: DfaAccepts(r, r.initial, w) ==> DfaAccepts(d, d.initial, w)
    ensures forall w :: Over(w, d.alphabet) && DfaAccepts(d, d.initial, w) ==> DfaAccepts(r, r.initial, w)
  {
    var e := ForwardEdges(d);
    var reach := Bfs(e, {d.initial});
    r := Dfa(reach, d.alphabet, Restrict(d.transitions, reach), d.initial, d.finals * reach);
    LemmaSingleSeed(e, d.initial, reach);
    LemmaReachesRefl(e, d.initial);
    LemmaAccessibleAfterPruning(d, r);
    LemmaReachableClosed(e, d.initial, reach);
    forall w
      ensures DfaAccepts(r, r.initial, w) ==> DfaAccepts(d, d.initial, w)
      ensures Over(w, d.alphabet) && DfaAccepts(d, d.initial, w) ==> DfaAccepts(r, r.initial, w)
    {
      LemmaReachableAccepts(d, r, d.initial, w);
    }
    if WellFormedDfa(d) && Accessible(d) {
      LemmaAccessibleFixpoint(d, r);
    }
  }

  /** Reached from the one seed `s` means reached from `s`. */
  lemma LemmaSingleSeed(e: Edges, s: nat, reach: set<nat>)
    requires forall t :: t in reach <==> ReachedFrom(e, {s}, t)
    ensures forall t :: t in reach <==> Reaches(e, s, t)
  {
  }

  /** The reachable part is closed under the word edges. */
  lemma LemmaReachableClosed(e: Edges, s: nat, reach: set<nat>)
    requires forall t :: t in reach <==> Reaches(e, s, t)
    ensures Closed(e, reach)
  {
    forall x, y | x in reach && (x, y) in e
      ensures y in reach
    {
      LemmaReachesStep(e, s, x, y);
    }
  }

  lemma LemmaAccessibleAfterPruning(d: Dfa, r: Dfa)
    requires r.alphabet == d.alphabet && r.initial == d.initial
    requires forall q :: q in r.states <==> Reaches(ForwardEdges(d), d.initial, q)
    requires r.transitions == Restrict(d.transitions, r.states)
    ensures Accessible(r)
  {
    var e, e' := ForwardEdges(d), ForwardEdges(r);
    LemmaReachableClosed(e, d.initial, r.states);
    LemmaReachesRefl(e, d.initial);
    forall x, y | x in r.states && y in r.states && (x, y) in e
      ensures (x, y) in e'
    {
      var c: Symbol :| c in d.alphabet && (x, c) in d.transitions && d.transitions[(x, c)] == y;
      assert (x, c) in r.transitions;
    }
    forall q | q in r.states
      ensures Reaches(e', r.initial, q)
    {
      LemmaReachesWithin(e, e', r.states, d.initial, q);
    }
  }

  /** In a well-formed automaton the reachable part keeps only states. */
  lemma LemmaReachableInStates(d: Dfa, r: Dfa)
    requires WellFormedDfa(d) && ReachablePart(d, r)
    ensures r.states <= d.states
  {
    var e := ForwardEdges(d);
    forall x, y | x in d.states && (x, y) in e
      ensures y in d.states
    {
      var c: Symbol :| c in d.alphabet && (x, c) in d.transitions && d.transitions[(x, c)] == y;
    }
    forall q | q in r.states
      ensures q in d.states
    {
      LemmaClosedHoldsReachable(e, d.states, d.initial, q);
    }
  }

  /** Restricting to `a` and then to a part `b` of it is restricting to
      `b`. */
  lemma LemmaRestrictTwice(t: map<(State, Symbol), State>, a: set<State>, b: set<State>)
    requires b <= a
    ensures Restrict(Restrict(t, a), b) == Restrict(t, b)
  {
  }

  /** Pruning an automaton that has nothing unreachable changes nothing. */
  lemma LemmaAccessibleFixpoint(d: Dfa, r: Dfa)
    requires WellFormedDfa(d) && Accessible(d)
    requires r.alphabet == d.alphabet && r.initial == d.initial
    requires forall q :: q in r.states <==> Reaches(ForwardEdges(d), d.initial, q)
    requires r.finals == d.finals * r.states
    requires r.transitions == Restrict(d.transitions, r.states)
    ensures r == d
  {
    var e := ForwardEdges(d);
    assert Closed(e, d.states) by {
      forall x, y | x in d.states && (x, y) in e
        ensures y in d.states
      {
        var c: Symbol :| c in d.alphabet && (x, c) in d.transitions && d.transitions[(x, c)] == y;
      }
    }
    forall q | q in r.states
      ensures q in d.states
    {
      LemmaClosedHoldsReachable(e, d.states, d.initial, q);
    }
    assert r.states == d.states;
  }

  /** `removeRedundant`: keeps exactly the states from which some final
      state can be reached along any transitions, and the transitions
      between them.  The final states are kept even when they are not
      states, and the initial state is kept even when it is removed. */
  method RemoveRedundant(d: Dfa) returns (r: Dfa)
    ensures r.alphabet == d.alphabet && r.initial == d.initial && r.finals == d.finals
    ensures forall q :: q in r.states <==> Useful(d, q)
    ensures forall k :: k in r.transitions <==>
      k in d.transitions && k.0 in r.states && d.transitions[k] in r.states
    ensures forall k :: k in r.transitions ==> r.transitions[k] == d.transitions[k]
    ensures r.finals <= r.states && CoAccessible(r)
    ensures WellFormedDfa(d) ==> r.states <= d.states
    ensures WellFormedDfa(d) && Accessible(d) && r.states != {} ==> WellFormedDfa(r)
    ensures WellFormedDfa(d) && CoAccessible(d) ==> r == d
    ensures UsefulPart(d, r)
    ensures forall w :: DfaAccepts(r, r.initial, w) <==> DfaAccepts(d, d.initial, w)
  {
    var useful := Bfs(Reverse(AllEdges(d)), d.finals);
    LemmaUsefulStates(d, useful);
    r := Dfa(useful, d.alphabet, Restrict(d.transitions, useful), d.initial, d.finals);
    forall w
      ensures DfaAccepts(r, r.initial, w) <==> DfaAccepts(d, d.initial, w)
    {
      LemmaUsefulAccepts(d, r, d.initial, w);
    }
    LemmaCoAccessibleAfterPruning(d, r);
    LemmaRedundantWellFormed(d, r);
    LemmaCoAccessibleFixpoint(d, r);
  }

  lemma LemmaRedundantWellFormed(d: Dfa, r: Dfa)
    requires r.initial == d.initial && r.finals == d.finals && r.finals <= r.states
    requires forall q :: q in r.states <==> Useful(d, q)
    requires r.transitions == Restrict(d.transitions, r.states)
    ensures WellFormedDfa(d) ==> r.states <= d.states
    ensures WellFormedDfa(d) && Accessible(d) && r.states != {} ==> WellFormedDfa(r)
  {
    if WellFormedDfa(d) {
      LemmaUsefulAreStates(d, r.states);
      if Accessible(d) && r.states != {} {
        LemmaInitialUseful(d, r.states);
      }
    }
  }

  /** Pruning an automaton whose every state is useful changes nothing. */
  lemma LemmaCoAccessibleFixpoint(d: Dfa, r: Dfa)
    requires r.alphabet == d.alphabet && r.initial == d.initial && r.finals == d.finals
    requires forall q :: q in r.states <==> Useful(d, q)
    requires r.transitions == Restrict(d.transitions, r.states)
    ensures WellFormedDfa(d) && CoAccessible(d) ==> r == d
  {
    if WellFormedDfa(d) && CoAccessible(d) {
      LemmaUsefulAreStates(d, r.states);
      LemmaAllUseful(d, r.states);
      LemmaSameStates(d, r);
    }
  }

  /** Pruning that keeps every state keeps everything. */
  lemma LemmaSameStates(d: Dfa, r: Dfa)
    requires WellFormedDfa(d)
    requires r.alphabet == d.alphabet && r.initial == d.initial && r.finals == d.finals
    requires r.states == d.states && r.transitions == Restrict(d.transitions, r.states)
    ensures r == d
  {
    LemmaRestrictAll(d.transitions, d.states);
    assert r.transitions == d.transitions;
  }

  lemma LemmaAllUseful(d: Dfa, useful: set<State>)
    requires CoAccessible(d)
    requires forall q :: q in useful <==> Useful(d, q)
    ensures d.states <= useful
  {
  }

  /** The backward search from the final states finds the useful states. */
  lemma LemmaUsefulStates(d: Dfa, useful: set<State>)
    requires forall t :: t in useful <==> ReachedFrom(Reverse(AllEdges(d)), d.finals, t)
    ensures forall q :: q in useful <==> Useful(d, q)
  {
    var e := AllEdges(d);
    LemmaReverseInvolution(e);
    forall q | q in useful
      ensures Useful(d, q)
    {
      var f :| f in d.finals && Reaches(Reverse(e), f, q);
      LemmaReverseReaches(Reverse(e), f, q);
    }
    forall q | Useful(d, q)
      ensures q in useful
    {
      var f :| f in d.finals && Reaches(e, q, f);
      LemmaReverseReaches(e, q, f);
    }
  }

  lemma LemmaCoAccessibleAfterPruning(d: Dfa, r: Dfa)
    requires r.finals == d.finals
    requires forall q :: q in r.states <==> Useful(d, q)
    requires r.transitions == Restrict(d.transitions, r.states)
    ensures r.finals <= r.states && CoAccessible(r)
  {
    var e, e' := AllEdges(d), AllEdges(r);
    var back, back' := Reverse(e), Reverse(e');
    forall f | f in d.finals
      ensures f in r.states
    {
      LemmaReachesRefl(e, f);
    }
    LemmaUsefulBackClosed(d, r.states);
    LemmaKeptBackEdges(d, r);
    forall q | q in r.states
      ensures Useful(r, q)
    {
      var f :| f in d.finals && Reaches(e, q, f);
      LemmaReverseReaches(e, q, f);
      LemmaReachesWithin(back, back', r.states, f, q);
      LemmaReverseReaches(back', f, q);
      LemmaReverseInvolution(e');
    }
  }

  /** Whatever reaches a useful state is useful. */
  lemma LemmaUsefulBackClosed(d: Dfa, useful: set<State>)
    requires forall q :: q in useful <==> Useful(d, q)
    ensures Closed(Reverse(AllEdges(d)), useful)
  {
    var e := AllEdges(d);
    forall y, x | y in useful && (y, x) in Reverse(e)
      ensures x in useful
    {
      var f :| f in d.finals && Reaches(e, y, f);
      LemmaReachesRefl(e, x);
      assert Reaches(e, x, y) by {
        LemmaReachesStep(e, x, x, y);
      }
      LemmaReachesTrans(e, x, y, f);
    }
  }

  /** The edges between kept states are kept. */
  lemma LemmaKeptBackEdges(d: Dfa, r: Dfa)
    requires r.transitions == Restrict(d.transitions, r.states)
    ensures forall y, x :: y in r.states && x in r.states && (y, x) in Reverse(AllEdges(d)) ==>
      (y, x) in Reverse(AllEdges(r))
  {
    forall y, x | y in r.states && x in r.states && (y, x) in Reverse(AllEdges(d))
      ensures (y, x) in Reverse(AllEdges(r))
    {
      var c: Symbol :| (x, c) in d.transitions && d.transitions[(x, c)] == y;
      assert (x, c) in r.transitions;
    }
  }

  /** In a well-formed automaton only states can reach a final state. */
  lemma LemmaUsefulAreStates(d: Dfa, useful: set<State>)
    requires WellFormedDfa(d)
    requires forall q :: q in useful <==> Useful(d, q)
    ensures useful <= d.states
  {
    forall q | q in useful
      ensures q in d.states
    {
      var f :| f in d.finals && Reaches(AllEdges(d), q, f);
      if q != f {
        LemmaReachesFirstEdge(AllEdges(d), q, f);
      }
    }
  }

  /** Once nothing is unreachable, the initial state survives the second
      pass unless every state is removed. */
  lemma LemmaInitialUseful(d: Dfa, useful: set<State>)
    requires WellFormedDfa(d) && Accessible(d)
    requires forall q :: q in useful <==> Useful(d, q)
    requires useful != {}
    ensures d.initial in useful
  {
    LemmaUsefulAreStates(d, useful);
    var q :| q in useful;
    var f :| f in d.finals && Reaches(AllEdges(d), q, f);
    LemmaReachesMono(ForwardEdges(d), AllEdges(d), d.initial, q);
    LemmaReachesTrans(AllEdges(d), d.initial, q, f);
  }

  // ----- what the pruning passes do to the accepted words -----

  /** From a reachable state, the pruned automaton accepts no word the
      original rejects, and every word over the alphabet the original
      accepts: such a word only passes through reachable states. */
  lemma {:induction false} LemmaReachableAccepts(d: Dfa, r: Dfa, s: State, w: seq<Symbol>)
    requires r.finals == d.finals * r.states
    requires Closed(ForwardEdges(d), r.states)
    requires r.transitions == Restrict(d.transitions, r.states)
    requires s in r.states
    ensures DfaAccepts(r, s, w) ==> DfaAccepts(d, s, w)
    ensures Over(w, d.alphabet) && DfaAccepts(d, s, w) ==> DfaAccepts(r, s, w)
    decreases |w|
  {
    if w != [] {
      var c := w[0];
      LemmaOverCons(w, d.alphabet);
      if (s, c) in d.transitions {
        var t := d.transitions[(s, c)];
        if c in d.alphabet {
          assert (s, t) in ForwardEdges(d);
        }
        if t in r.states {
          LemmaReachableAccepts(d, r, t, w[1..]);
        }
      }
    }
  }

  /** A state from which some word is accepted is useful. */
  lemma {:induction false} LemmaAcceptingUseful(d: Dfa, s: State, w: seq<Symbol>)
    requires DfaAccepts(d, s, w)
    ensures Useful(d, s)
    decreases |w|
  {
    var e := AllEdges(d);
    LemmaReachesRefl(e, s);
    if w != [] {
      var t := d.transitions[(s, w[0])];
      LemmaAcceptingUseful(d, t, w[1..]);
      var f :| f in d.finals && Reaches(e, t, f);
      LemmaReachesStep(e, s, s, t);
      LemmaReachesTrans(e, s, t, f);
    }
  }

  /** Dropping the useless states changes no word's acceptance, from any
      state: an accepting run only passes through useful states. */
  lemma {:induction false} LemmaUsefulAccepts(d: Dfa, r: Dfa, s: State, w: seq<Symbol>)
    requires r.finals == d.finals
    requires forall q :: q in r.states <==> Useful(d, q)
    requires r.transitions == Restrict(d.transitions, r.states)
    ensures DfaAccepts(r, s, w) <==> DfaAccepts(d, s, w)
    decreases |w|
  {
    if w != [] && (s, w[0]) in d.transitions {
      var t := d.transitions[(s, w[0])];
      LemmaUsefulAccepts(d, r, t, w[1..]);
      if DfaAccepts(d, s, w) {
        LemmaAcceptingUseful(d, s, w);
        LemmaAcceptingUseful(d, t, w[1..]);
      }
    }
  }
}
