/** The subset construction `ToDFA` of aag_2.cpp and its helper
    `addToQueue`: every reachable set of NFA states becomes one DFA state,
    numbered in the order the breadth-first search discovers it. */
module Subset {
  import opened SetOrder
  import opened Automata

  /** The `queue` vector of discovered state sets, and the `remapStates` map
      from each of them to its DFA state id. */
  datatype Discovered = Discovered(queue: seq<set<State>>, ids: map<set<State>, State>)

  /** `ids` numbers the queue by position, so that both agree. */
  predicate Numbered(q: Discovered)
  {
    && |q.ids| == |q.queue|
    && (forall i :: 0 <= i < |q.queue| ==> q.queue[i] in q.ids && q.ids[q.queue[i]] == i)
    && (forall s :: s in q.ids ==> q.ids[s] < |q.queue| && q.queue[q.ids[s]] == s)
  }

  /** `addToQueue`: a set seen for the first time is appended and numbered
      `remapStates.size()`; an empty or known set is ignored. */
  function AddToQueue(x: set<State>, q: Discovered): (r: Discovered)
    ensures x == {} || x in q.ids ==> r == q
    ensures x != {} && x !in q.ids ==> r.queue == q.queue + [x] && r.ids == q.ids[x := |q.ids|]
    ensures Numbered(q) ==> Numbered(r)
    ensures Numbered(q) && x != {} ==> x in r.ids
  {
    if x in q.ids || x == {} then q
    else Discovered(q.queue + [x], q.ids[x := |q.ids|])
  }

  /** All sets of states drawn from `u`. */
  ghost function Powerset(u: set<State>): (r: set<set<State>>)
    ensures forall s :: s <= u ==> s in r
  {
    set s | s <= u
  }

  /** Numbered sets drawn from `u` number no more than the subsets of `u`. */
  lemma LemmaQueueBounded(q: Discovered, u: set<State>)
    requires Numbered(q)
    requires forall i :: 0 <= i < |q.queue| ==> q.queue[i] <= u
    ensures |q.queue| <= |Powerset(u)|
  {
    var keys, all := q.ids.Keys, Powerset(u);
    forall s | s in keys
      ensures s in all
    {
      assert q.queue[q.ids[s]] == s;
    }
    assert all == keys + (all - keys);
    assert keys * (all - keys) == {};
  }

  /** The states any NFA transition, or the start, can lead to. */
  function Universe(n: Nfa): set<State>
  {
    {n.initial} + Targets(n)
  }

  /** Some word over the alphabet takes `n` from its initial state to
      exactly the states `s`. */
  ghost predicate Reached(n: Nfa, s: set<State>)
  {
    exists w :: Over(w, n.alphabet) && Run(n, {n.initial}, w) == s
  }

  /** Every set in the queue has been discovered by reading some word. */
  ghost predicate AllReached(n: Nfa, q: Discovered)
  {
    forall i :: 0 <= i < |q.queue| ==> Reached(n, q.queue[i])
  }

  /** The part of `ToDFA` invariant that the inner loop over the alphabet
      keeps: what the queue holds. */
  predicate QueueInv(n: Nfa, q: Discovered)
  {
    && Numbered(q)
    && |q.queue| > 0 && q.queue[0] == {n.initial}
    && (forall i :: 0 <= i < |q.queue| ==> q.queue[i] != {} && q.queue[i] <= Universe(n))
  }

  /** Every transition so far is the successor set of its source on its
      symbol. */
  predicate TransSound(n: Nfa, q: Discovered, t: map<(State, Symbol), State>)
  {
    forall k :: k in t ==>
      && k.0 < |q.queue| && k.1 in n.alphabet
      && t[k] < |q.queue| && q.queue[t[k]] == Post(n, q.queue[k.0], k.1)
  }

  /** What `ToDFA` returns for `n`: `d` has a state for each set of NFA
      states in the queue `q`, the start set `{n.initial}` first; state `i`
      goes on `c` to the state of the successor set of `q.queue[i]` when that
      set is non-empty and has no transition otherwise, and it is final when
      its set meets the final states of `n`. */
  ghost predicate SubsetAutomaton(n: Nfa, q: Discovered, d: Dfa)
  {
    && Numbered(q) && |q.queue| > 0 && q.queue[0] == {n.initial}
    && (forall i :: 0 <= i < |q.queue| ==> q.queue[i] != {})
    && AllReached(n, q)
    && d.states == Dense(|q.queue|) && d.initial == 0 && d.alphabet == n.alphabet
    && (forall i, c :: 0 <= i < |q.queue| && c in n.alphabet ==>
         ((i, c) in d.transitions <==> Post(n, q.queue[i], c) != {}))
    && TransSound(n, q, d.transitions)
    && (forall i :: 0 <= i < |q.queue| ==> (i in d.finals <==> q.queue[i] * n.finals != {}))
    && d.finals <= d.states
  }

  /** `ToDFA`: the subset construction, over the symbols of the alphabet. */
  method ToDfa(n: Nfa) returns (d: Dfa, q: Discovered)
    ensures SubsetAutomaton(n, q, d)
    ensures WellFormedNfa(n) ==> forall i :: 0 <= i < |q.queue| ==> q.queue[i] <= n.states
  {
    var u := Universe(n);
    q := AddToQueue({n.initial}, Discovered([], map[]));
    assert Run(n, {n.initial}, []) == q.queue[0];
    var states := Dense(|q.queue|);
    var trans: map<(State, Symbol), State> := map[];
    var pos := 0;
    while pos != |q.queue|
      invariant Explored(n, q, states, trans, pos)
      decreases |Powerset(u)| - pos
    {
      LemmaQueueBounded(q, u);
      q, states, trans := ExpandState(n, q, states, trans, pos);
      LemmaQueueBounded(q, u);
      pos := pos + 1;
    }
    var finals := set s | s in q.ids && s * n.finals != {} :: q.ids[s];
    d := Dfa(states, n.alphabet, trans, 0, finals);
    LemmaSubsetAutomaton(n, q, trans, finals);
    if WellFormedNfa(n) {
      LemmaQueueInStates(n, q);
    }
  }

  /** The outer loop of `ToDFA` after the first `pos` sets of the queue
      have been expanded: their transitions, and only theirs, are in place. */
  ghost predicate Explored(n: Nfa, q: Discovered, states: set<State>, trans: map<(State, Symbol), State>, pos: nat)
  {
    && QueueInv(n, q) && AllReached(n, q) && pos <= |q.queue|
    && states == Dense(|q.queue|)
    && TransSound(n, q, trans)
    && (forall k :: k in trans ==> k.0 < pos)
    && (forall i, c :: 0 <= i < pos && c in n.alphabet ==>
         ((i, c) in trans <==> Post(n, q.queue[i], c) != {}))
  }

  /** Once the whole queue is expanded, the transitions and the final
      states make up the subset automaton. */
  lemma LemmaSubsetAutomaton(n: Nfa, q: Discovered, trans: map<(State, Symbol), State>, finals: set<State>)
    requires Explored(n, q, Dense(|q.queue|), trans, |q.queue|)
    requires finals == set s | s in q.ids && s * n.finals != {} :: q.ids[s]
    ensures SubsetAutomaton(n, q, Dfa(Dense(|q.queue|), n.alphabet, trans, 0, finals))
  {
    LemmaFinals(n, q, finals);
  }

  /** One turn of the outer loop of `ToDFA`: the successors of `q.queue[pos]`
      on each symbol, in ascending order, are queued and linked. */
  method ExpandState(n: Nfa, q0: Discovered, states0: set<State>, trans0: map<(State, Symbol), State>, pos: nat)
    returns (q: Discovered, states: set<State>, trans: map<(State, Symbol), State>)
    requires Explored(n, q0, states0, trans0, pos) && pos < |q0.queue|
    ensures Explored(n, q, states, trans, pos + 1) && q0.queue <= q.queue
  {
    q, states, trans := q0, states0, trans0;
    var todo := n.alphabet;
    while todo != {}
      invariant ExpandInv(n, q0, pos, q, states, trans, todo)
      decreases todo
    {
      q, states, trans, todo := LinkSymbol(n, q0, pos, q, states, trans, todo);
    }
    LemmaExpanded(n, q0, q, trans, pos);
  }

  lemma LemmaExpanded(n: Nfa, q0: Discovered, q: Discovered, trans: map<(State, Symbol), State>, pos: nat)
    requires q0.queue <= q.queue && pos < |q0.queue|
    requires Linked(n, trans, pos, q0.queue[pos], n.alphabet - {})
    requires forall i, c :: 0 <= i < pos && c in n.alphabet ==>
      ((i, c) in trans <==> Post(n, q0.queue[i], c) != {})
    ensures forall i, c :: 0 <= i < pos + 1 && c in n.alphabet ==>
      ((i, c) in trans <==> Post(n, q.queue[i], c) != {})
  {
    LemmaPrefixIndex(q0.queue, q.queue, pos);
  }

  /** What holds while the symbols of `todo` remain to be looked at. */
  ghost predicate ExpandInv(n: Nfa, q0: Discovered, pos: nat, q: Discovered, states: set<State>,
                           trans: map<(State, Symbol), State>, todo: set<Symbol>)
  {
    && pos < |q0.queue|
    && todo <= n.alphabet
    && QueueInv(n, q) && AllReached(n, q) && q0.queue <= q.queue
    && states == Dense(|q.queue|)
    && TransSound(n, q, trans)
    && (forall k :: k in trans ==> k.0 < pos + 1)
    && (forall i, c :: 0 <= i < pos && c in n.alphabet ==>
         ((i, c) in trans <==> Post(n, q0.queue[i], c) != {}))
    && Linked(n, trans, pos, q0.queue[pos], n.alphabet - todo)
  }

  /** One turn of the inner loop of `ToDFA`: the least remaining symbol. */
  method LinkSymbol(n: Nfa, q0: Discovered, pos: nat, q: Discovered, states: set<State>,
                    trans: map<(State, Symbol), State>, todo: set<Symbol>)
    returns (q': Discovered, states': set<State>, trans': map<(State, Symbol), State>, todo': set<Symbol>)
    requires ExpandInv(n, q0, pos, q, states, trans, todo) && todo != {}
    ensures ExpandInv(n, q0, pos, q', states', trans', todo') && todo' < todo
  {
    var src := q0.queue[pos];
    var c: Symbol := Min(todo);
    todo' := todo - {c};
    var next := Post(n, src, c);
    LemmaPostInTargets(n, src, c);
    q' := AddToQueue(next, q);
    LemmaQueueGrows(n, q, q', next);
    LemmaPrefixIndex(q0.queue, q.queue, pos);
    LemmaReachedStep(n, src, c);
    LemmaAddReached(n, q, next);
    trans' := if next != {} then trans[(pos, c) := q'.ids[next]] else trans;
    LemmaLink(n, q, q', trans, trans', pos, c);
    LemmaDoneGrows(n.alphabet, todo, c);
    LemmaLinkedStep(n, trans, trans', pos, src, n.alphabet - todo, c);
    states' := Dense(|q'.queue|);
  }

  /** Reading one more symbol of the alphabet from a set reached by a word
      reaches its successor set. */
  lemma LemmaReachedStep(n: Nfa, s: set<State>, c: Symbol)
    requires Reached(n, s) && c in n.alphabet
    ensures Reached(n, Post(n, s, c))
  {
    var w :| Over(w, n.alphabet) && Run(n, {n.initial}, w) == s;
    LemmaRunSnoc(n, {n.initial}, w, c);
    assert Over(w + [c], n.alphabet) by {
      forall k | 0 <= k < |w + [c]|
        ensures (w + [c])[k] in n.alphabet
      {
        if k < |w| {
          assert (w + [c])[k] == w[k];
        }
      }
    }
  }

  /** Queueing a set reached by a word keeps every queued set reached. */
  lemma LemmaAddReached(n: Nfa, q: Discovered, x: set<State>)
    requires AllReached(n, q) && (x != {} ==> Reached(n, x))
    ensures AllReached(n, AddToQueue(x, q))
  {
    var r := AddToQueue(x, q);
    forall i | 0 <= i < |r.queue|
      ensures Reached(n, r.queue[i])
    {
      if i < |q.queue| {
        assert r.queue[i] == q.queue[i];
      }
    }
  }

  /** Taking `c` off the symbols to do adds it to the symbols done. */
  lemma LemmaDoneGrows(all: set<Symbol>, todo: set<Symbol>, c: Symbol)
    requires c in todo && todo <= all
    ensures all - (todo - {c}) == (all - todo) + {c}
  {
  }

  /** The symbols in `done` have been linked from `pos`, those with a
      non-empty successor set of `src`. */
  predicate Linked(n: Nfa, trans: map<(State, Symbol), State>, pos: nat, src: set<State>, done: set<Symbol>)
  {
    forall c :: c in n.alphabet ==> ((pos, c) in trans <==> c in done && Post(n, src, c) != {})
  }

  lemma LemmaLinkedStep(n: Nfa, trans: map<(State, Symbol), State>, trans': map<(State, Symbol), State>,
                        pos: nat, src: set<State>, done: set<Symbol>, c: Symbol)
    requires Linked(n, trans, pos, src, done)
    requires forall k :: k in trans' <==> k in trans || (k == (pos, c) && Post(n, src, c) != {})
    ensures Linked(n, trans', pos, src, done + {c})
  {
  }

  /** Linking `pos` to its successor set on `c` keeps the transitions sound. */
  lemma LemmaLink(n: Nfa, q: Discovered, q': Discovered, trans: map<(State, Symbol), State>,
                  trans': map<(State, Symbol), State>, pos: nat, c: Symbol)
    requires QueueInv(n, q) && pos < |q.queue| && c in n.alphabet
    requires q' == AddToQueue(Post(n, q.queue[pos], c), q) && QueueInv(n, q') && q.queue <= q'.queue
    requires TransSound(n, q, trans)
    requires Post(n, q.queue[pos], c) != {} ==>
      trans' == trans[(pos, c) := q'.ids[Post(n, q.queue[pos], c)]]
    requires Post(n, q.queue[pos], c) == {} ==> trans' == trans
    ensures TransSound(n, q', trans')
    ensures forall k :: k in trans' <==> k in trans || (k == (pos, c) && Post(n, q.queue[pos], c) != {})
  {
    var next := Post(n, q.queue[pos], c);
    forall k | k in trans'
      ensures k.0 < |q'.queue| && k.1 in n.alphabet && trans'[k] < |q'.queue|
      ensures q'.queue[trans'[k]] == Post(n, q'.queue[k.0], k.1)
    {
      if next != {} && k == (pos, c) {
        assert q'.queue[pos] == q.queue[pos];
      } else {
        assert k in trans && trans'[k] == trans[k];
        assert q'.queue[k.0] == q.queue[k.0];
        assert q'.queue[trans[k]] == q.queue[trans[k]];
      }
    }
  }

  lemma LemmaPrefixIndex(a: seq<set<State>>, b: seq<set<State>>, pos: nat)
    requires a <= b && pos < |a|
    ensures forall i :: 0 <= i <= pos ==> b[i] == a[i]
  {
  }

  /** Queueing a successor set keeps the queue invariant and numbers it. */
  lemma LemmaQueueGrows(n: Nfa, q: Discovered, q': Discovered, next: set<State>)
    requires QueueInv(n, q) && next <= Universe(n)
    requires q' == AddToQueue(next, q)
    ensures QueueInv(n, q') && q.queue <= q'.queue
    ensures next != {} ==> next in q'.ids && q'.ids[next] < |q'.queue| && q'.queue[q'.ids[next]] == next
  {
  }

  lemma LemmaFinals(n: Nfa, q: Discovered, finals: set<State>)
    requires Numbered(q)
    requires finals == set s | s in q.ids && s * n.finals != {} :: q.ids[s]
    ensures forall i :: 0 <= i < |q.queue| ==> (i in finals <==> q.queue[i] * n.finals != {})
    ensures forall i :: i in finals ==> i < |q.queue|
  {
    forall i | 0 <= i < |q.queue| && i in finals
      ensures q.queue[i] * n.finals != {}
    {
      var s :| s in q.ids && s * n.finals != {} && q.ids[s] == i;
    }
  }

  /** In a well-formed NFA every reachable set of states consists of states. */
  lemma LemmaQueueInStates(n: Nfa, q: Discovered)
    requires WellFormedNfa(n) && QueueInv(n, q)
    ensures forall i :: 0 <= i < |q.queue| ==> q.queue[i] <= n.states
  {
    forall i, t | 0 <= i < |q.queue| && t in q.queue[i]
      ensures t in n.states
    {
      if t != n.initial {
        assert t in Targets(n);
        var k :| k in n.transitions && t in n.transitions[k];
      }
    }
  }

  /** The subset automaton is the NFA run in lock step: from the state of
      the set `q.queue[i]`, `d` accepts `w` exactly when `w` is over the
      alphabet and the NFA can read `w` from that set into a final state. */
  lemma {:induction false} LemmaSubsetRun(n: Nfa, q: Discovered, d: Dfa, i: nat, w: seq<Symbol>)
    requires SubsetAutomaton(n, q, d) && i < |q.queue|
    ensures DfaAccepts(d, i, w) <==> Over(w, n.alphabet) && Run(n, q.queue[i], w) * n.finals != {}
    decreases |w|
  {
    if w != [] {
      var c := w[0];
      LemmaOverCons(w, n.alphabet);
      if (i, c) in d.transitions {
        var j := d.transitions[(i, c)];
        LemmaSubsetRun(n, q, d, j, w[1..]);
      } else if c in n.alphabet {
        LemmaRunEmpty(n, w[1..]);
      }
    }
  }

  /** The language of the subset automaton is the language of the NFA,
      restricted to words over its alphabet. */
  lemma LemmaSubsetAccepts(n: Nfa, q: Discovered, d: Dfa, w: seq<Symbol>)
    requires SubsetAutomaton(n, q, d)
    ensures DfaAccepts(d, d.initial, w) <==> Over(w, n.alphabet) && Accepts(n, w)
  {
    LemmaSubsetRun(n, q, d, 0, w);
  }

  /** From the set of any queued state, a word over the alphabet that leads
      to some state leads to a queued set. */
  lemma {:induction false} LemmaRunQueued(n: Nfa, q: Discovered, d: Dfa, i: nat, w: seq<Symbol>)
    requires SubsetAutomaton(n, q, d) && i < |q.queue|
    requires Over(w, n.alphabet) && Run(n, q.queue[i], w) != {}
    ensures Run(n, q.queue[i], w) in q.ids
    decreases |w|
  {
    if w != [] {
      var c := w[0];
      LemmaOverCons(w, n.alphabet);
      if Post(n, q.queue[i], c) == {} {
        LemmaRunEmpty(n, w[1..]);
      } else {
        var j := d.transitions[(i, c)];
        LemmaRunQueued(n, q, d, j, w[1..]);
      }
    }
  }

  /** The queue of `ToDFA` holds exactly the non-empty sets of NFA states
      that some word over the alphabet leads to, so the DFA has one state
      per such set and no other. */
  lemma LemmaQueueReached(n: Nfa, q: Discovered, d: Dfa, s: set<State>)
    requires SubsetAutomaton(n, q, d)
    ensures s in q.ids <==> s != {} && Reached(n, s)
  {
    if s in q.ids {
      assert s == q.queue[q.ids[s]];
    }
    if s != {} && Reached(n, s) {
      var w :| Over(w, n.alphabet) && Run(n, {n.initial}, w) == s;
      LemmaRunQueued(n, q, d, 0, w);
    }
  }
}
