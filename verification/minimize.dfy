/** `ToMinimalDFA` of aag_2.cpp: both pruning passes, the refinement of the
    states into blocks, and the automaton on the blocks. */
module Minimize {
  import opened SetOrder
  import opened Automata
  import opened Graph
  import opened Prune
  import opened Refine

  /** The `remap` map: each state of block `i` (in iteration order) gets id
      `i`; a later block overwrites an earlier one. */
  function BlockIds(bs: seq<Block>): map<State, State>
    decreases |bs|
  {
    if bs == [] then map[]
    else BlockIds(bs[..|bs| - 1]) + Assign(bs[|bs| - 1], |bs| - 1)
  }

  /** Maps every state of `b` to `id`. */
  function Assign(b: Block, id: State): (r: map<State, State>)
    ensures r.Keys == b
    ensures forall s :: s in r ==> r[s] == id
    decreases b
  {
    if b == {} then map[]
    else
      var m := Min(b);
      Assign(b - {m}, id)[m := id]
  }

  /** For disjoint blocks, the id of a state is the position of its block. */
  lemma {:induction false} LemmaBlockIds(bs: seq<Block>)
    requires DistinctDisjoint(bs)
    ensures forall i, s :: 0 <= i < |bs| && s in bs[i] ==> s in BlockIds(bs) && BlockIds(bs)[s] == i
    ensures forall s :: s in BlockIds(bs) ==> BlockIds(bs)[s] < |bs| && s in bs[BlockIds(bs)[s]]
    ensures NumbersBlocks(bs, BlockIds(bs))
    decreases |bs|
  {
    if bs != [] {
      var n := |bs| - 1;
      var init := bs[..n];
      var m, a := BlockIds(init), Assign(bs[n], n);
      assert BlockIds(bs) == m + a;
      assert DistinctDisjoint(init) by {
        forall i, j | 0 <= i < j < |init|
          ensures init[i] != init[j] && init[i] * init[j] == {}
        {
          assert init[i] == bs[i] && init[j] == bs[j];
        }
      }
      LemmaBlockIds(init);
      forall i, s | 0 <= i < |bs| && s in bs[i]
        ensures s in m + a && (m + a)[s] == i
      {
        if i < n {
          assert init[i] == bs[i];
          assert s !in bs[i] * bs[n];
          assert s !in a;
        }
      }
      forall s | s in m + a
        ensures (m + a)[s] < |bs| && s in bs[(m + a)[s]]
      {
        if s !in a {
          assert init[m[s]] == bs[m[s]];
        }
      }
    }
  }

  /** Some final state can be reached from the initial state by a word. */
  ghost predicate FinalReachable(d: Dfa)
  {
    exists f :: f in d.finals && Reaches(ForwardEdges(d), d.initial, f)
  }

  /** The two pruning passes `ToMinimalDFA` starts with: `u` is what
      `removeUnreachable` leaves of `d`, and `t` what `removeRedundant`
      leaves of `u`.  So `t` keeps the states of `d` that a word reaches and
      from which a final state can be reached, with the final states and the
      transitions of `d` among them.  It is empty exactly when no final state
      can be reached, and an automaton that is already trim is left alone. */
  method Trim(d: Dfa) returns (u: Dfa, t: Dfa)
    ensures ReachablePart(d, u) && UsefulPart(u, t)
    ensures forall q :: q in t.states <==> Reaches(ForwardEdges(d), d.initial, q) && Useful(u, q)
    ensures t.finals == d.finals * t.states
    ensures t.transitions == Restrict(d.transitions, t.states)
    ensures WellFormedDfa(d) ==> t.states <= d.states
    ensures t.alphabet == d.alphabet && t.initial == d.initial
    ensures t.states != {} ==> WellFormedDfa(t)
    ensures Accessible(t) && CoAccessible(t)
    ensures t.states == {} <==> !FinalReachable(d)
    ensures WellFormedDfa(d) && Accessible(d) && CoAccessible(d) ==> t == d
    ensures forall w :: DfaAccepts(t, t.initial, w) ==> DfaAccepts(d, d.initial, w)
    ensures forall w :: Over(w, d.alphabet) && DfaAccepts(d, d.initial, w) ==> DfaAccepts(t, t.initial, w)
  {
    u := RemoveUnreachable(d);
    t := RemoveRedundant(u);
    LemmaTrimmed(d, u, t);
    LemmaTrimAccessible(u, t);
    LemmaTrimEmpty(d, u, t);
  }

  /** What the two passes leave, in terms of `d`: the reachable states that
      are useful after the first pass, with the final states and the
      transitions of `d` among them. */
  lemma LemmaTrimmed(d: Dfa, u: Dfa, t: Dfa)
    requires ReachablePart(d, u) && UsefulPart(u, t) && WellFormedDfa(u)
    ensures forall q :: q in t.states <==> Reaches(ForwardEdges(d), d.initial, q) && Useful(u, q)
    ensures t.finals == d.finals * t.states
    ensures t.transitions == Restrict(d.transitions, t.states)
    ensures WellFormedDfa(d) ==> t.states <= d.states
  {
    LemmaUsefulAreStates(u, t.states);
    LemmaTrimFinals(d, u, t);
    LemmaRestrictTwice(d.transitions, u.states, t.states);
    if WellFormedDfa(d) {
      LemmaReachableInStates(d, u);
    }
  }

  /** The final states left by the first pass are useful, so they survive
      the second. */
  lemma LemmaTrimFinals(d: Dfa, u: Dfa, t: Dfa)
    requires u.finals == d.finals * u.states && t.finals == u.finals
    requires forall q :: q in t.states <==> Useful(u, q)
    requires t.states <= u.states
    ensures t.finals == d.finals * t.states
  {
    forall f | f in t.finals
      ensures f in t.states
    {
      LemmaReachesRefl(AllEdges(u), f);
    }
  }

  /** Removing the useless states of an accessible automaton keeps it
      accessible: every state on a walk to a useful state is useful. */
  lemma LemmaTrimAccessible(u: Dfa, r: Dfa)
    requires WellFormedDfa(u) && Accessible(u)
    requires r.alphabet == u.alphabet && r.initial == u.initial && r.finals == u.finals
    requires forall q :: q in r.states <==> Useful(u, q)
    requires forall k :: k in r.transitions <==>
      k in u.transitions && k.0 in r.states && u.transitions[k] in r.states
    requires forall k :: k in r.transitions ==> r.transitions[k] == u.transitions[k]
    ensures Accessible(r)
  {
    var fe, ae, fe' := ForwardEdges(u), AllEdges(u), ForwardEdges(r);
    LemmaForwardInAll(u);
    LemmaUsefulAreStates(u, r.states);
    forall q | q in r.states
      ensures Reaches(fe', r.initial, q)
    {
      var f :| f in u.finals && Reaches(ae, q, f);
      forall x, y | (x, y) in fe && Reaches(fe, y, q)
        ensures (x, y) in fe'
      {
        LemmaUsefulEdge(u, r, x, y, q, f);
      }
      LemmaReachesAlong(fe, fe', u.initial, q);
    }
  }

  /** Every forward edge is an edge. */
  lemma LemmaForwardInAll(u: Dfa)
    ensures ForwardEdges(u) <= AllEdges(u)
  {
    forall x, y | (x, y) in ForwardEdges(u)
      ensures (x, y) in AllEdges(u)
    {
      var c: Symbol :| c in u.alphabet && (x, c) in u.transitions && u.transitions[(x, c)] == y;
    }
  }

  /** A forward edge into a state from which a final state can be reached
      joins two useful states, so the pruning keeps it. */
  lemma LemmaUsefulEdge(u: Dfa, r: Dfa, x: State, y: State, q: State, f: State)
    requires r.alphabet == u.alphabet && ForwardEdges(u) <= AllEdges(u)
    requires forall q :: q in r.states <==> Useful(u, q)
    requires forall k :: k in r.transitions <==>
      k in u.transitions && k.0 in r.states && u.transitions[k] in r.states
    requires forall k :: k in r.transitions ==> r.transitions[k] == u.transitions[k]
    requires (x, y) in ForwardEdges(u) && Reaches(ForwardEdges(u), y, q)
    requires f in u.finals && Reaches(AllEdges(u), q, f)
    ensures (x, y) in ForwardEdges(r)
  {
    var fe, ae := ForwardEdges(u), AllEdges(u);
    LemmaReachesMono(fe, ae, y, q);
    LemmaReachesTrans(ae, y, q, f);
    LemmaReachesRefl(ae, x);
    LemmaReachesStep(ae, x, x, y);
    LemmaReachesTrans(ae, x, y, f);
    var c: Symbol :| c in u.alphabet && (x, c) in u.transitions && u.transitions[(x, c)] == y;
    assert (x, c) in r.transitions;
  }

  /** Nothing is left exactly when no final state can be reached. */
  lemma LemmaTrimEmpty(d: Dfa, u: Dfa, t: Dfa)
    requires u.initial == d.initial
    requires forall q :: q in u.states <==> Reaches(ForwardEdges(d), d.initial, q)
    requires forall q :: q in u.finals <==> q in d.finals && q in u.states
    requires forall q :: q in t.states <==> Useful(u, q)
    ensures t.states == {} <==> !FinalReachable(d)
  {
    if FinalReachable(d) {
      var f :| f in d.finals && Reaches(ForwardEdges(d), d.initial, f);
      LemmaReachesRefl(AllEdges(u), f);
      assert f in t.states;
    }
    if q :| q in t.states {
      var f :| f in u.finals && Reaches(AllEdges(u), q, f);
      assert f in d.finals && Reaches(ForwardEdges(d), d.initial, f);
    }
  }

  /** Every transition starts and ends at a state that has an id. */
  predicate Numbers(t: map<(State, Symbol), State>, ids: map<State, State>)
  {
    forall k :: k in t ==> k.0 in ids && t[k] in ids
  }

  /** What the writes of the transitions leaving `s` put in place: block
      `ids[s]` goes, on each symbol `s` has a transition on, to the block of
      its target. */
  function Row(t: map<(State, Symbol), State>, ids: map<State, State>, s: State): (r: map<(State, Symbol), State>)
    requires Numbers(t, ids)
    ensures forall b: State, c: Symbol {:trigger (b, c) in r} :: (b, c) in r <==> (s, c) in t && b == ids[s]
    ensures forall c :: (s, c) in t ==> r[(ids[s], c)] == ids[t[(s, c)]]
  {
    var keys := set k | k in t && k.0 == s :: (ids[s], k.1);
    map k | k in keys :: ids[t[(s, k.1)]]
  }

  /** The writes of the transitions leaving the states of `ss`, in that
      order: a later write to a key replaces an earlier one. */
  function Writes(t: map<(State, Symbol), State>, ids: map<State, State>, ss: seq<State>): map<(State, Symbol), State>
    requires Numbers(t, ids)
    decreases |ss|
  {
    if ss == [] then map[]
    else Writes(t, ids, ss[..|ss| - 1]) + Row(t, ids, ss[|ss| - 1])
  }

  /** The states with at least one transition. */
  function SourceStates(t: map<(State, Symbol), State>): set<State>
  {
    set k | k in t :: k.0
  }

  /** The transitions between blocks (the last loop of `ToMinimalDFA`): the
      transitions are visited in ascending order of their source, each
      writing the block of its target under the block of its source. */
  function Collapse(t: map<(State, Symbol), State>, ids: map<State, State>): map<(State, Symbol), State>
    requires Numbers(t, ids)
  {
    Writes(t, ids, Sorted(SourceStates(t)))
  }

  /** With the sources in ascending order, the write that survives for
      `(b, c)` is the one of the greatest state with id `b` among them that
      has a transition on `c`. */
  lemma {:induction false} LemmaWrites(t: map<(State, Symbol), State>, ids: map<State, State>, ss: seq<State>)
    requires Numbers(t, ids)
    requires forall i, j :: 0 <= i < j < |ss| ==> ss[i] < ss[j]
    ensures forall b: State, c: Symbol :: (b, c) in Writes(t, ids, ss) <==>
      exists s :: s in ss && (s, c) in t && ids[s] == b
    ensures forall b: State, c: Symbol :: (b, c) in Writes(t, ids, ss) ==>
      exists s :: s in ss && (s, c) in t && ids[s] == b && Writes(t, ids, ss)[(b, c)] == ids[t[(s, c)]] &&
        (forall x :: x in ss && (x, c) in t && ids[x] == b ==> x <= s)
    decreases |ss|
  {
    if ss != [] {
      var n := |ss| - 1;
      var init, last := ss[..n], ss[n];
      LemmaWrites(t, ids, init);
      var w, row := Writes(t, ids, init), Row(t, ids, last);
      assert Writes(t, ids, ss) == w + row;
      forall x | x in init
        ensures x < last
      {
        var i :| 0 <= i < n && init[i] == x;
      }
      forall b: State, c: Symbol | exists s :: s in ss && (s, c) in t && ids[s] == b
        ensures (b, c) in w + row
      {
        var s :| s in ss && (s, c) in t && ids[s] == b;
        if s != last {
          assert s in init;
        }
      }
      forall b: State, c: Symbol | (b, c) in w + row
        ensures exists s :: (s in ss && (s, c) in t && ids[s] == b && (w + row)[(b, c)] == ids[t[(s, c)]] &&
                             (forall x :: x in ss && (x, c) in t && ids[x] == b ==> x <= s))
      {
        LemmaLastWriter(t, ids, ss, init, last, w, b, c);
      }
    }
  }

  /** One step of `LemmaWrites`: appending the row of `last`, greater than
      every state of `init`, to the writes of `init`. */
  lemma LemmaLastWriter(t: map<(State, Symbol), State>, ids: map<State, State>, ss: seq<State>,
                        init: seq<State>, last: State, w: map<(State, Symbol), State>, b: State, c: Symbol)
    requires Numbers(t, ids)
    requires forall x :: x in ss <==> x in init || x == last
    requires forall x :: x in init ==> x < last
    requires (b, c) in w ==>
      exists s :: s in init && (s, c) in t && ids[s] == b && w[(b, c)] == ids[t[(s, c)]] &&
        (forall x :: x in init && (x, c) in t && ids[x] == b ==> x <= s)
    requires (b, c) in w + Row(t, ids, last)
    ensures exists s :: (s in ss && (s, c) in t && ids[s] == b && (w + Row(t, ids, last))[(b, c)] == ids[t[(s, c)]] &&
                         (forall x :: x in ss && (x, c) in t && ids[x] == b ==> x <= s))
  {
    var row := Row(t, ids, last);
    if (b, c) in row {
      assert (last, c) in t && b == ids[last];
      assert (w + row)[(b, c)] == ids[t[(last, c)]];
      forall x | x in ss && (x, c) in t && ids[x] == b
        ensures x <= last
      {
        if x != last {
          assert x in init;
        }
      }
    } else {
      var s :| s in init && (s, c) in t && ids[s] == b && w[(b, c)] == ids[t[(s, c)]] &&
        (forall x :: x in init && (x, c) in t && ids[x] == b ==> x <= s);
      forall x | x in ss && (x, c) in t && ids[x] == b
        ensures x <= s
      {
        if x != last {
          assert x in init;
        }
      }
    }
  }

  /** Block `b` has a transition on `c` exactly when one of its states has,
      and it leads to the block of the target of the greatest such state:
      the last writer wins. */
  lemma LemmaCollapse(t: map<(State, Symbol), State>, ids: map<State, State>)
    requires Numbers(t, ids)
    ensures forall b: State, c: Symbol :: (b, c) in Collapse(t, ids) <==> exists s :: (s, c) in t && ids[s] == b
    ensures forall b: State, c: Symbol :: (b, c) in Collapse(t, ids) ==>
      exists s :: (s, c) in t && ids[s] == b && Collapse(t, ids)[(b, c)] == ids[t[(s, c)]] &&
        (forall x :: (x, c) in t && ids[x] == b ==> x <= s)
  {
    var src := SourceStates(t);
    LemmaSorted(src);
    LemmaWrites(t, ids, Sorted(src));
    forall s, c: Symbol | (s, c) in t
      ensures s in Sorted(src)
    {
      var k := (s, c);
      assert k.0 in src;
    }
  }

  /** The ids of the blocks cover the states the blocks hold. */
  lemma LemmaBlockIdsCover(bs: seq<Block>, s: set<State>)
    requires DistinctDisjoint(bs) && Flatten(Elems(bs)) == s
    ensures s <= BlockIds(bs).Keys
    ensures forall q :: q in s ==> BlockIds(bs)[q] < |bs| && q in bs[BlockIds(bs)[q]]
  {
    LemmaFlattenIndex(bs, s);
    LemmaIndexIds(bs, s);
  }

  lemma LemmaFlattenIndex(bs: seq<Block>, s: set<State>)
    requires Flatten(Elems(bs)) == s
    ensures forall q :: q in s ==> exists i :: 0 <= i < |bs| && q in bs[i]
  {
    forall q | q in s
      ensures exists i :: 0 <= i < |bs| && q in bs[i]
    {
      assert q in Flatten(Elems(bs));
      var y :| y in Elems(bs) && q in y;
      var i :| 0 <= i < |bs| && bs[i] == y;
      assert q in bs[i];
    }
  }

  lemma LemmaIndexIds(bs: seq<Block>, s: set<State>)
    requires DistinctDisjoint(bs)
    requires forall q :: q in s ==> exists i :: 0 <= i < |bs| && q in bs[i]
    ensures s <= BlockIds(bs).Keys
    ensures forall q :: q in s ==> BlockIds(bs)[q] < |bs| && q in bs[BlockIds(bs)[q]]
  {
    var ids := BlockIds(bs);
    LemmaBlockIds(bs);
    forall q | q in s
      ensures q in ids && ids[q] < |bs| && q in bs[ids[q]]
    {
      var i :| 0 <= i < |bs| && q in bs[i];
      assert q in ids && ids[q] == i;
    }
  }

  /** The automaton on the blocks `bs` of the states of `t`, as the end of
      `ToMinimalDFA` builds it: block `i` becomes state `i`, the initial
      state is the block of the initial state, a block is final when one of
      its states is, and the transitions are collapsed
      (`LemmaQuotient` states what each part holds). */
  function Quotient(t: Dfa, bs: seq<Block>): (r: Dfa)
    requires WellFormedDfa(t)
    requires DistinctDisjoint(bs) && Flatten(Elems(bs)) == t.states
    ensures r.states == Dense(|bs|) && r.alphabet == t.alphabet
  {
    LemmaBlockIdsCover(bs, t.states);
    var ids := BlockIds(bs);
    Dfa(Dense(|bs|), t.alphabet, Collapse(t.transitions, ids), ids[t.initial], RemapSet(t.finals, ids))
  }

  /** The quotient is well formed; its initial state is the block of the
      initial state; block `i` is final exactly when it holds a final state;
      it has a transition on `c` exactly when one of its states has, and then
      leads to the block of the target of the greatest such state. */
  lemma LemmaQuotient(t: Dfa, bs: seq<Block>)
    requires WellFormedDfa(t)
    requires DistinctDisjoint(bs) && Flatten(Elems(bs)) == t.states
    ensures WellFormedDfa(Quotient(t, bs))
    ensures Quotient(t, bs).initial < |bs| && t.initial in bs[Quotient(t, bs).initial]
    ensures forall i :: 0 <= i < |bs| ==> (i in Quotient(t, bs).finals <==> bs[i] * t.finals != {})
    ensures forall i: State, c: Symbol :: (i, c) in Quotient(t, bs).transitions <==>
      i < |bs| && exists s :: s in bs[i] && (s, c) in t.transitions
    ensures forall i: State, c: Symbol :: (i, c) in Quotient(t, bs).transitions ==>
      exists s :: (s in bs[i] && (s, c) in t.transitions &&
                   t.transitions[(s, c)] in bs[Quotient(t, bs).transitions[(i, c)]] &&
                   (forall x :: x in bs[i] && (x, c) in t.transitions ==> x <= s))
  {
    LemmaBlockIdsCover(bs, t.states);
    LemmaBlockIds(bs);
    var ids := BlockIds(bs);
    var tr := t.transitions;
    assert Numbers(tr, ids);
    LemmaCollapse(tr, ids);
    var col := Collapse(tr, ids);
    assert Quotient(t, bs) == Dfa(Dense(|bs|), t.alphabet, col, ids[t.initial], RemapSet(t.finals, ids));
    LemmaRemappedFinals(t.finals, bs, ids);
    LemmaCollapsedKeys(tr, bs, ids);
    LemmaCollapsedValues(tr, bs, ids);
    LemmaDenseWellFormed(|bs|, t.alphabet, col, ids[t.initial], RemapSet(t.finals, ids));
  }

  /** A DFA over the states `0 .. n-1` is well formed when its initial
      state, its final states and both ends of its transitions are below `n`. */
  lemma LemmaDenseWellFormed(n: nat, alphabet: set<Symbol>, tr: map<(State, Symbol), State>,
                             initial: State, finals: set<State>)
    requires initial < n
    requires forall v :: v in finals ==> v < n
    requires forall i: State, c: Symbol :: (i, c) in tr ==> i < n && tr[(i, c)] < n
    ensures WellFormedDfa(Dfa(Dense(n), alphabet, tr, initial, finals))
  {
    forall k | k in tr
      ensures k.0 < n && tr[k] < n
    {
      assert (k.0, k.1) in tr;
    }
  }

  /** `ids` numbers the blocks `bs`: every state of block `i` has id `i`,
      and every state with an id is in the block of that id. */
  ghost predicate NumbersBlocks(bs: seq<Block>, ids: map<State, State>)
  {
    && (forall i, s :: 0 <= i < |bs| && s in bs[i] ==> s in ids && ids[s] == i)
    && (forall s :: s in ids ==> ids[s] < |bs| && s in bs[ids[s]])
  }

  lemma LemmaRemappedFinals(f: set<State>, bs: seq<Block>, ids: map<State, State>)
    requires NumbersBlocks(bs, ids) && f <= ids.Keys
    ensures forall i :: 0 <= i < |bs| ==> (i in RemapSet(f, ids) <==> bs[i] * f != {})
    ensures forall v :: v in RemapSet(f, ids) ==> v < |bs|
  {
    var r := RemapSet(f, ids);
    forall i | 0 <= i < |bs|
      ensures i in r <==> bs[i] * f != {}
    {
      if i in r {
        var q :| q in f && ids[q] == i;
        assert q in bs[i] * f;
      }
      if q :| q in bs[i] * f {
        assert ids[q] == i && ids[q] in r;
      }
    }
  }

  lemma LemmaCollapsedKeys(tr: map<(State, Symbol), State>, bs: seq<Block>, ids: map<State, State>)
    requires NumbersBlocks(bs, ids) && Numbers(tr, ids)
    requires forall b: State, c: Symbol :: (b, c) in Collapse(tr, ids) <==> exists s :: (s, c) in tr && ids[s] == b
    ensures forall i: State, c: Symbol :: (i, c) in Collapse(tr, ids) <==>
      i < |bs| && exists s :: s in bs[i] && (s, c) in tr
  {
    var col := Collapse(tr, ids);
    forall i: State, c: Symbol | (i, c) in col
      ensures i < |bs| && exists s :: s in bs[i] && (s, c) in tr
    {
      var s :| (s, c) in tr && ids[s] == i;
    }
    forall i: State, c: Symbol | i < |bs| && exists s :: s in bs[i] && (s, c) in tr
      ensures (i, c) in col
    {
      var s :| s in bs[i] && (s, c) in tr;
      assert ids[s] == i;
    }
  }

  lemma LemmaCollapsedValues(tr: map<(State, Symbol), State>, bs: seq<Block>, ids: map<State, State>)
    requires NumbersBlocks(bs, ids) && Numbers(tr, ids)
    requires forall b: State, c: Symbol :: (b, c) in Collapse(tr, ids) ==>
      exists s :: (s, c) in tr && ids[s] == b && Collapse(tr, ids)[(b, c)] == ids[tr[(s, c)]] &&
        (forall x :: (x, c) in tr && ids[x] == b ==> x <= s)
    ensures forall i: State, c: Symbol :: (i, c) in Collapse(tr, ids) ==>
      Collapse(tr, ids)[(i, c)] < |bs| &&
      exists s :: (s in bs[i] && (s, c) in tr && tr[(s, c)] in bs[Collapse(tr, ids)[(i, c)]] &&
                   (forall x :: x in bs[i] && (x, c) in tr ==> x <= s))
  {
    var col := Collapse(tr, ids);
    forall i: State, c: Symbol | (i, c) in col
      ensures col[(i, c)] < |bs|
      ensures exists s :: (s in bs[i] && (s, c) in tr && tr[(s, c)] in bs[col[(i, c)]] &&
                           (forall x :: x in bs[i] && (x, c) in tr ==> x <= s))
    {
      var s :| (s, c) in tr && ids[s] == i && col[(i, c)] == ids[tr[(s, c)]] &&
        (forall x :: (x, c) in tr && ids[x] == i ==> x <= s);
      assert (s, c) in tr;
      assert tr[(s, c)] in ids;
      forall x | x in bs[i] && (x, c) in tr
        ensures x <= s
      {
        assert ids[x] == i;
      }
    }
  }

  /** What the refinement and the renumbering of `ToMinimalDFA` leave: `bs`
      partitions the states of `t` into blocks listed in `std::set` order,
      no block mixes final with non-final states, the empty block is among
      them exactly when one half of the first split was empty, and `r` is
      the quotient of `t` by them. */
  ghost predicate Renumbered(t: Dfa, r: Dfa, bs: seq<Block>)
  {
    && WellFormedDfa(t)
    && DistinctDisjoint(bs)
    && Partition(Elems(bs), t.states)
    && RespectsFinals(Elems(bs), t.finals)
    && (forall i, j :: 0 <= i < j < |bs| ==> SetLe(bs[i], bs[j]))
    && ({} in bs <==> t.states <= t.finals || t.states * t.finals == {})
    && r == Quotient(t, bs)
  }

  /** What `ToMinimalDFA` makes of `d`: `u` is what `removeUnreachable`
      leaves of `d` and `t` what `removeRedundant` leaves of `u`; with no
      state left the result `r` is the one-state automaton of the empty
      language, and otherwise `bs` lists the refined blocks of `t` and `r`
      is the quotient of `t` by them. */
  ghost predicate MinimalOf(d: Dfa, u: Dfa, t: Dfa, bs: seq<Block>, r: Dfa)
  {
    && ReachablePart(d, u) && UsefulPart(u, t)
    && (t.states == {} ==> bs == [] && r == Dfa({0}, d.alphabet, map[], 0, {}))
    && (t.states != {} ==> Renumbered(t, r, bs))
  }

  /** `ToMinimalDFA`: prune, then either the one-state automaton of the
      empty language, or the quotient of what is left by the refined
      partition.  The result accepts the empty word exactly when `d` does. */
  method ToMinimalDfa(d: Dfa) returns (r: Dfa, u: Dfa, t: Dfa, blocks: seq<Block>)
    ensures MinimalOf(d, u, t, blocks, r)
    ensures t.finals == d.finals * t.states
    ensures t.transitions == Restrict(d.transitions, t.states)
    ensures WellFormedDfa(d) ==> t.states <= d.states
    ensures t.alphabet == d.alphabet && t.initial == d.initial
    ensures t.finals <= t.states && Accessible(t) && CoAccessible(t)
    ensures t.states == {} <==> !FinalReachable(d)
    ensures WellFormedDfa(r) && r.alphabet == d.alphabet
    ensures r == Dfa({0}, d.alphabet, map[], 0, {}) <==> !FinalReachable(d)
    ensures r.initial in r.finals <==> d.initial in d.finals
    ensures forall w :: DfaAccepts(t, t.initial, w) ==> DfaAccepts(d, d.initial, w)
    ensures forall w :: Over(w, d.alphabet) && DfaAccepts(d, d.initial, w) ==> DfaAccepts(t, t.initial, w)
  {
    u, t := Trim(d);
    if t.states == {} {
      blocks := [];
      r := Dfa({0}, d.alphabet, map[], 0, {});
    } else {
      r, blocks := Renumber(t);
    }
    assert MinimalOf(d, u, t, blocks, r);
    LemmaMinimalResult(d, u, t, blocks, r);
  }

  /** The result is well formed over the alphabet of `d`, is the automaton
      of the empty language exactly when no final state of `d` can be
      reached, and accepts the empty word exactly when `d` does. */
  lemma LemmaMinimalResult(d: Dfa, u: Dfa, t: Dfa, bs: seq<Block>, r: Dfa)
    requires MinimalOf(d, u, t, bs, r)
    requires t.finals == d.finals * t.states && t.finals <= t.states && CoAccessible(t)
    requires t.states == {} <==> !FinalReachable(d)
    ensures WellFormedDfa(r) && r.alphabet == d.alphabet
    ensures r == Dfa({0}, d.alphabet, map[], 0, {}) <==> !FinalReachable(d)
    ensures r.initial in r.finals <==> d.initial in d.finals
  {
    if t.states == {} {
      if d.initial in d.finals {
        LemmaReachesRefl(ForwardEdges(d), d.initial);
      }
    } else {
      LemmaQuotient(t, bs);
      LemmaInitialFinal(d, t, r, bs);
    }
    LemmaMinimalEmpty(d, r, t, bs);
  }

  /** The block of the initial state is final exactly when the initial
      state is. */
  lemma LemmaInitialFinal(d: Dfa, t: Dfa, r: Dfa, bs: seq<Block>)
    requires Renumbered(t, r, bs)
    requires t.initial == d.initial && t.finals == d.finals * t.states
    ensures r.initial in r.finals <==> d.initial in d.finals
  {
    LemmaQuotient(t, bs);
    var i := r.initial;
    assert t.initial in bs[i] && bs[i] in Elems(bs);
    if d.initial in d.finals {
      assert t.initial in bs[i] * t.finals;
    }
  }

  /** The refinement and the renumbering. */
  method Renumber(t: Dfa) returns (r: Dfa, blocks: seq<Block>)
    requires WellFormedDfa(t)
    ensures Renumbered(t, r, blocks)
  {
    var p := RefinePartition(t);
    blocks := BlockOrder(p);
    LemmaBlockOrderElems(p);
    LemmaBlockOrderSorted(p);
    r := Quotient(t, blocks);
  }

  /** Block `i` of the result is final exactly when it is a non-empty block
      of final states. */
  lemma LemmaRenumberedFinals(t: Dfa, r: Dfa, bs: seq<Block>)
    requires Renumbered(t, r, bs)
    ensures forall i :: 0 <= i < |bs| ==> (i in r.finals <==> bs[i] != {} && bs[i] <= t.finals)
  {
    LemmaQuotient(t, bs);
    forall i | 0 <= i < |bs|
      ensures i in r.finals <==> bs[i] != {} && bs[i] <= t.finals
    {
      assert bs[i] in Elems(bs);
    }
  }

  /** When `t` has a final state, so has the result. */
  lemma LemmaHasFinalBlock(t: Dfa, r: Dfa, bs: seq<Block>)
    requires Flatten(Elems(bs)) == t.states && RespectsFinals(Elems(bs), t.finals)
    requires forall i :: 0 <= i < |bs| ==> (i in r.finals <==> bs[i] != {} && bs[i] <= t.finals)
    requires t.states * t.finals != {}
    ensures r.finals != {}
  {
    var f :| f in t.states * t.finals;
    assert f in Flatten(Elems(bs));
    var y :| y in Elems(bs) && f in y;
    var i :| 0 <= i < |bs| && bs[i] == y;
    assert f in y * t.finals;
    assert i in r.finals;
  }

  /** The phantom state: when every state of an automaton with a final
      state is final, the empty non-final half of the first split survives
      as block 0, and state 0 of the result is neither initial nor final
      and has no transitions.  A trim automaton with a state always has a
      final state (`LemmaFinalsMet`). */
  lemma LemmaPhantomState(t: Dfa, r: Dfa, bs: seq<Block>)
    requires Renumbered(t, r, bs)
    requires t.states * t.finals != {}
    ensures {} in bs <==> t.states <= t.finals
    ensures t.states <= t.finals ==>
      |bs| > 1 && bs[0] == {} && r.initial != 0 && 0 !in r.finals && forall c: Symbol :: (0, c) !in r.transitions
  {
    if t.states <= t.finals {
      LemmaQuotient(t, bs);
      LemmaPhantomBlock(t, r, bs);
    }
  }

  lemma LemmaPhantomBlock(t: Dfa, r: Dfa, bs: seq<Block>)
    requires {} in bs && forall i, j :: 0 <= i < j < |bs| ==> SetLe(bs[i], bs[j])
    requires 0 <= r.initial < |bs| && t.initial in bs[r.initial]
    requires forall i :: 0 <= i < |bs| ==> (i in r.finals <==> bs[i] * t.finals != {})
    requires forall i: State, c: Symbol :: (i, c) in r.transitions <==>
      i < |bs| && exists s :: s in bs[i] && (s, c) in t.transitions
    ensures |bs| > 1 && bs[0] == {} && r.initial != 0 && 0 !in r.finals && forall c: Symbol :: (0, c) !in r.transitions
  {
    LemmaEmptyFirst(bs);
  }

  /** In a list sorted by `SetLe`, the empty block comes first. */
  lemma LemmaEmptyFirst(bs: seq<Block>)
    requires forall i, j :: 0 <= i < j < |bs| ==> SetLe(bs[i], bs[j])
    requires {} in bs
    ensures bs[0] == {}
  {
    var k :| 0 <= k < |bs| && bs[k] == {};
    if k > 0 {
      assert SetLe(bs[0], bs[k]);
      LemmaEmptyLeast(bs[0]);
    }
  }

  /** The minimised automaton is the one-state automaton without final
      states exactly when no final state of `d` is reachable. */
  lemma LemmaMinimalEmpty(d: Dfa, r: Dfa, t: Dfa, blocks: seq<Block>)
    requires t.finals <= t.states && CoAccessible(t)
    requires t.states == {} <==> !FinalReachable(d)
    requires t.states == {} ==> r == Dfa({0}, d.alphabet, map[], 0, {})
    requires t.states != {} ==> Renumbered(t, r, blocks)
    ensures r == Dfa({0}, d.alphabet, map[], 0, {}) <==> !FinalReachable(d)
  {
    if t.states != {} {
      LemmaFinalsMet(t);
      LemmaRenumberedHasFinal(t, r, blocks);
    }
  }

  /** Renumbering an automaton with a final state keeps a final state. */
  lemma LemmaRenumberedHasFinal(t: Dfa, r: Dfa, bs: seq<Block>)
    requires Renumbered(t, r, bs) && t.states * t.finals != {}
    ensures r.finals != {}
  {
    LemmaRenumberedFinals(t, r, bs);
    LemmaHasFinalBlock(t, r, bs);
  }

  /** A trim automaton with a state has a final state among its states. */
  lemma LemmaFinalsMet(t: Dfa)
    requires t.states != {} && t.finals <= t.states && CoAccessible(t)
    ensures t.states * t.finals != {}
  {
    var q :| q in t.states;
    var f :| f in t.finals && Reaches(AllEdges(t), q, f);
    assert f in t.states * t.finals;
  }
}
