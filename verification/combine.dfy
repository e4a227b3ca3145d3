/** `unify` and `intersect` of aag_2.cpp: the union and product NFAs they
    build, and the two operations, which determinise and minimise them. */
module Combine {
  import opened SetOrder
  import opened Automata
  import opened Subset
  import opened Refine
  import opened Minimize

  /** A batch of `m_Transitions[key].insert(...)` calls: every write adds
      its set under its key, creating the key even when the set is empty,
      and the writes to one key accumulate. */
  type Writes = set<((State, Symbol), set<State>)>

  /** The transition map the writes `w` leave behind, starting from no
      transitions. */
  function Merge(w: Writes): (r: map<(State, Symbol), set<State>>)
    ensures forall k :: k in r <==> exists s :: (k, s) in w
    ensures forall k, x :: k in r ==> (x in r[k] <==> exists s :: (k, s) in w && x in s)
  {
    var keys := set e | e in w :: e.0;
    map k | k in keys :: set e, x | e in w && e.0 == k && x in e.1 :: x
  }

  // ----- unify -----

  /** `newStatesA`: the states of `a`, in ascending order, become 1, 2, ... */
  function LeftNames(a: Nfa): map<State, State>
  {
    Renaming(a.states, 1)
  }

  /** `newStatesB`: the states of `b`, in ascending order, continue after
      those of `a`. */
  function RightNames(a: Nfa, b: Nfa): map<State, State>
  {
    Renaming(b.states, 1 + |a.states|)
  }

  /** The writes of one input's transition loop in `unify`: each transition
      is copied under the renamed source, and the transitions of the initial
      state are copied under the fresh state 0 as well. */
  function CopyWrites(a: Nfa, names: map<State, State>): Writes
    requires WellFormedNfa(a) && names.Keys == a.states
  {
    Copies(a, names) + StartCopies(a, names)
  }

  function Copies(a: Nfa, names: map<State, State>): Writes
    requires WellFormedNfa(a) && names.Keys == a.states
  {
    set k | k in a.transitions :: ((names[k.0], k.1), RemapSet(a.transitions[k], names))
  }

  function StartCopies(a: Nfa, names: map<State, State>): Writes
    requires WellFormedNfa(a) && names.Keys == a.states
  {
    set k | k in a.transitions && k.0 == a.initial :: ((0, k.1), RemapSet(a.transitions[k], names))
  }

  /** The NFA `unify` builds before it determinises: a fresh initial state 0
      followed by the renamed states of `a` and of `b`. */
  function UnionNfa(a: Nfa, b: Nfa): (n: Nfa)
    requires WellFormedNfa(a) && WellFormedNfa(b)
    ensures n.initial == 0 && n.alphabet == a.alphabet + b.alphabet
  {
    var na, nb := LeftNames(a), RightNames(a, b);
    var start := if a.initial in a.finals || b.initial in b.finals then {0} else {};
    Nfa(Dense(1 + |a.states| + |b.states|),
        a.alphabet + b.alphabet,
        Merge(CopyWrites(a, na) + CopyWrites(b, nb)),
        0,
        start + RemapSet(a.finals, na) + RemapSet(b.finals, nb))
  }

  /** The three ranges of names are disjoint and together make up the
      states of the union. */
  lemma LemmaUnionNames(a: Nfa, b: Nfa)
    ensures forall x :: x in a.states ==> 1 <= LeftNames(a)[x] <= |a.states|
    ensures forall y :: y in b.states ==> |a.states| < RightNames(a, b)[y] <= |a.states| + |b.states|
    ensures forall q: State :: q < 1 + |a.states| + |b.states| ==>
      q == 0 || q in LeftNames(a).Values || q in RightNames(a, b).Values
  {
    LemmaRenaming(a.states, 1);
    LemmaRenaming(b.states, 1 + |a.states|);
  }

  /** What `unify` puts in its NFA: the renamed states of both inputs keep
      their finality and exactly their transitions, renamed; state 0 is
      final when either initial state is, and on each symbol goes to the
      renamed successors of both initial states. */
  lemma LemmaUnionNfa(a: Nfa, b: Nfa)
    requires WellFormedNfa(a) && WellFormedNfa(b)
    ensures WellFormedNfa(UnionNfa(a, b))
    ensures 0 in UnionNfa(a, b).finals <==> a.initial in a.finals || b.initial in b.finals
    ensures forall x :: x in a.states ==> (LeftNames(a)[x] in UnionNfa(a, b).finals <==> x in a.finals)
    ensures forall y :: y in b.states ==> (RightNames(a, b)[y] in UnionNfa(a, b).finals <==> y in b.finals)
    ensures forall x, c: Symbol :: x in a.states ==>
      ((LeftNames(a)[x], c) in UnionNfa(a, b).transitions <==> (x, c) in a.transitions)
    ensures forall x, c: Symbol :: x in a.states && (x, c) in a.transitions ==>
      UnionNfa(a, b).transitions[(LeftNames(a)[x], c)] == RemapSet(a.transitions[(x, c)], LeftNames(a))
    ensures forall y, c: Symbol :: y in b.states ==>
      ((RightNames(a, b)[y], c) in UnionNfa(a, b).transitions <==> (y, c) in b.transitions)
    ensures forall y, c: Symbol :: y in b.states && (y, c) in b.transitions ==>
      UnionNfa(a, b).transitions[(RightNames(a, b)[y], c)] == RemapSet(b.transitions[(y, c)], RightNames(a, b))
    ensures forall c: Symbol :: (0, c) in UnionNfa(a, b).transitions <==>
      (a.initial, c) in a.transitions || (b.initial, c) in b.transitions
    ensures forall c: Symbol :: (0, c) in UnionNfa(a, b).transitions ==>
      UnionNfa(a, b).transitions[(0, c)] ==
        RemapSet(Post(a, {a.initial}, c), LeftNames(a)) + RemapSet(Post(b, {b.initial}, c), RightNames(a, b))
  {
    LemmaUnionFinals(a, b);
    LemmaUnionWellFormed(a, b);
    LemmaUnionLeft(a, b);
    LemmaUnionRight(a, b);
    forall c: Symbol
      ensures (0, c) in UnionNfa(a, b).transitions <==> (a.initial, c) in a.transitions || (b.initial, c) in b.transitions
      ensures (0, c) in UnionNfa(a, b).transitions ==>
        UnionNfa(a, b).transitions[(0, c)] ==
          RemapSet(Post(a, {a.initial}, c), LeftNames(a)) + RemapSet(Post(b, {b.initial}, c), RightNames(a, b))
    {
      LemmaStartKey(a, b, c);
    }
  }

  /** The union copies `a` under its renaming. */
  lemma LemmaUnionLeft(a: Nfa, b: Nfa)
    requires WellFormedNfa(a) && WellFormedNfa(b)
    ensures CopiesUnder(a, UnionNfa(a, b), LeftNames(a))
  {
    var na, nb := LeftNames(a), RightNames(a, b);
    var wa, wb := CopyWrites(a, na), CopyWrites(b, nb);
    LemmaUnionNames(a, b);
    LemmaRenamingInjective(a.states, 1);
    LemmaWritesSources(b, nb);
    assert forall e: ((State, Symbol), set<State>), x :: e in wa + wb && x in a.states && e.0.0 == na[x] ==> e in wa;
    LemmaCopiesInto(a, na, wa + wb, UnionNfa(a, b));
  }

  /** The union copies `b` under its renaming. */
  lemma LemmaUnionRight(a: Nfa, b: Nfa)
    requires WellFormedNfa(a) && WellFormedNfa(b)
    ensures CopiesUnder(b, UnionNfa(a, b), RightNames(a, b))
  {
    var na, nb := LeftNames(a), RightNames(a, b);
    var wa, wb := CopyWrites(a, na), CopyWrites(b, nb);
    LemmaUnionNames(a, b);
    LemmaRenamingInjective(b.states, 1 + |a.states|);
    LemmaWritesSources(a, na);
    assert forall e: ((State, Symbol), set<State>), y :: e in wa + wb && y in b.states && e.0.0 == nb[y] ==> e in wb;
    LemmaCopiesInto(b, nb, wa + wb, UnionNfa(a, b));
  }

  /** Transitions merged from writes that hold the copy of `a` under
      `names`, and nothing else under a renamed state, copy `a`. */
  lemma LemmaCopiesInto(a: Nfa, names: map<State, State>, w: Writes, n: Nfa)
    requires WellFormedNfa(a) && names.Keys == a.states
    requires forall x :: x in a.states ==> names[x] != 0
    requires forall x1, x2 :: x1 in names && x2 in names && names[x1] == names[x2] ==> x1 == x2
    requires n.transitions == Merge(w)
    requires Copies(a, names) <= w
    requires forall e, x :: e in w && x in a.states && e.0.0 == names[x] ==> e in CopyWrites(a, names)
    ensures CopiesUnder(a, n, names)
  {
    forall x, c: Symbol | x in a.states
      ensures (names[x], c) in n.transitions <==> (x, c) in a.transitions
      ensures (x, c) in a.transitions ==> n.transitions[(names[x], c)] == RemapSet(a.transitions[(x, c)], names)
    {
      LemmaCopiedKey(a, names, w, x, c);
    }
  }

  /** Every write of a copy loop is under state 0 or under a renamed state. */
  lemma LemmaWritesSources(a: Nfa, names: map<State, State>)
    requires WellFormedNfa(a) && names.Keys == a.states
    ensures forall e :: e in CopyWrites(a, names) ==> e.0.0 == 0 || e.0.0 in names.Values
    ensures forall e :: e in StartCopies(a, names) ==> e.0.0 == 0
  {
    forall e | e in Copies(a, names)
      ensures e.0.0 in names.Values
    {
      var k :| k in a.transitions && e.0 == (names[k.0], k.1);
    }
  }

  /** Under a renamed state, the merged writes hold exactly the renamed
      transition, when no other write uses its key. */
  lemma LemmaCopiedKey(a: Nfa, names: map<State, State>, w: Writes, x: State, c: Symbol)
    requires WellFormedNfa(a) && names.Keys == a.states && x in a.states && names[x] != 0
    requires forall x1, x2 :: x1 in names && x2 in names && names[x1] == names[x2] ==> x1 == x2
    requires Copies(a, names) <= w
    requires forall e :: e in w && e.0 == (names[x], c) ==> e in CopyWrites(a, names)
    ensures (names[x], c) in Merge(w) <==> (x, c) in a.transitions
    ensures (x, c) in a.transitions ==> Merge(w)[(names[x], c)] == RemapSet(a.transitions[(x, c)], names)
  {
    var key := (names[x], c);
    forall s | (key, s) in w
      ensures (x, c) in a.transitions && s == RemapSet(a.transitions[(x, c)], names)
    {
      assert (key, s) in Copies(a, names);
      var k :| k in a.transitions && (key, s) == ((names[k.0], k.1), RemapSet(a.transitions[k], names));
      assert k == (x, c);
    }
    if (x, c) in a.transitions {
      var k := (x, c);
      assert (key, RemapSet(a.transitions[k], names)) in Copies(a, names);
    }
  }

  /** Under state 0 the merged writes hold the renamed successors of both
      initial states. */
  lemma LemmaStartKey(a: Nfa, b: Nfa, c: Symbol)
    requires WellFormedNfa(a) && WellFormedNfa(b)
    ensures (0, c) in UnionNfa(a, b).transitions <==> (a.initial, c) in a.transitions || (b.initial, c) in b.transitions
    ensures (0, c) in UnionNfa(a, b).transitions ==>
      UnionNfa(a, b).transitions[(0, c)] ==
        RemapSet(Post(a, {a.initial}, c), LeftNames(a)) + RemapSet(Post(b, {b.initial}, c), RightNames(a, b))
  {
    var na, nb := LeftNames(a), RightNames(a, b);
    var w := CopyWrites(a, na) + CopyWrites(b, nb);
    assert UnionNfa(a, b).transitions == Merge(w);
    LemmaUnionNames(a, b);
    var key: (State, Symbol) := (0, c);
    LemmaStartWrites(a, na, c);
    LemmaStartWrites(b, nb, c);
    var pa, pb := (a.initial, c) in a.transitions, (b.initial, c) in b.transitions;
    var sa := if pa then RemapSet(a.transitions[(a.initial, c)], na) else {};
    var sb := if pb then RemapSet(b.transitions[(b.initial, c)], nb) else {};
    LemmaMergeTwo(w, key, pa, sa, pb, sb);
    LemmaPostSingleton(a, a.initial, c);
    LemmaPostSingleton(b, b.initial, c);
    assert RemapSet(Post(a, {a.initial}, c), na) == sa;
    assert RemapSet(Post(b, {b.initial}, c), nb) == sb;
  }

  /** A key written at most twice holds the union of what was written. */
  lemma LemmaMergeTwo(w: Writes, key: (State, Symbol), p1: bool, s1: set<State>, p2: bool, s2: set<State>)
    requires !p1 ==> s1 == {}
    requires !p2 ==> s2 == {}
    requires forall s :: (key, s) in w <==> (p1 && s == s1) || (p2 && s == s2)
    ensures key in Merge(w) <==> p1 || p2
    ensures key in Merge(w) ==> Merge(w)[key] == s1 + s2
  {
    if p1 {
      assert (key, s1) in w;
    }
    if p2 {
      assert (key, s2) in w;
    }
  }

  /** A key written at most once, with `v` when `p` holds. */
  lemma LemmaMergeOne(w: Writes, m: map<(State, Symbol), set<State>>, key: (State, Symbol), p: bool, v: set<State>)
    requires m == Merge(w)
    requires forall s :: (key, s) in w <==> p && s == v
    ensures key in m <==> p
    ensures key in m ==> m[key] == v
  {
    LemmaMergeTwo(w, key, p, if p then v else {}, false, {});
  }

  /** The writes of one copy loop under `(0, c)`: the renamed successors of
      the initial state, if it has a transition on `c`. */
  lemma LemmaStartWrites(a: Nfa, names: map<State, State>, c: Symbol)
    requires WellFormedNfa(a) && names.Keys == a.states
    requires forall x :: x in a.states ==> names[x] != 0
    ensures forall s :: ((0, c), s) in CopyWrites(a, names) <==>
      (a.initial, c) in a.transitions && s == RemapSet(a.transitions[(a.initial, c)], names)
  {
    var key: (State, Symbol) := (0, c);
    forall s | (key, s) in CopyWrites(a, names)
      ensures (a.initial, c) in a.transitions && s == RemapSet(a.transitions[(a.initial, c)], names)
    {
      if (key, s) in Copies(a, names) {
        assert false;
      }
      var k :| k in a.transitions && k.0 == a.initial && (key, s) == ((0, k.1), RemapSet(a.transitions[k], names));
    }
    if (a.initial, c) in a.transitions {
      var k := (a.initial, c);
      assert (key, RemapSet(a.transitions[k], names)) in StartCopies(a, names);
    }
  }

  /** `n` copies the transitions of `a` under the renaming `names`. */
  ghost predicate CopiesUnder(a: Nfa, n: Nfa, names: map<State, State>)
    requires WellFormedNfa(a) && names.Keys == a.states
  {
    && (forall x, c: Symbol :: x in a.states ==> ((names[x], c) in n.transitions <==> (x, c) in a.transitions))
    && (forall x, c: Symbol :: x in a.states && (x, c) in a.transitions ==>
          n.transitions[(names[x], c)] == RemapSet(a.transitions[(x, c)], names))
  }

  /** One step of an automaton that copies `a` from renamed states is the
      renamed step of `a`. */
  lemma LemmaCopiedPost(a: Nfa, n: Nfa, names: map<State, State>, s: set<State>, c: Symbol)
    requires WellFormedNfa(a) && names.Keys == a.states && s <= a.states
    requires CopiesUnder(a, n, names)
    ensures Post(a, s, c) <= a.states &&
      Post(n, RemapSet(s, names), c) == RemapSet(Post(a, s, c), names)
  {
    LemmaPostInStates(a, s, c);
    LemmaCopiedPostSound(a, n, names, s, c);
    LemmaCopiedPostComplete(a, n, names, s, c);
  }

  lemma LemmaCopiedPostSound(a: Nfa, n: Nfa, names: map<State, State>, s: set<State>, c: Symbol)
    requires WellFormedNfa(a) && names.Keys == a.states && s <= a.states && Post(a, s, c) <= a.states
    requires CopiesUnder(a, n, names)
    ensures Post(n, RemapSet(s, names), c) <= RemapSet(Post(a, s, c), names)
  {
    forall t | t in Post(n, RemapSet(s, names), c)
      ensures t in RemapSet(Post(a, s, c), names)
    {
      var q :| q in RemapSet(s, names) && (q, c) in n.transitions && t in n.transitions[(q, c)];
      var x :| x in s && names[x] == q;
      LemmaCopiedTarget(a, n, names, s, x, c, t);
    }
  }

  lemma LemmaCopiedTarget(a: Nfa, n: Nfa, names: map<State, State>, s: set<State>, x: State, c: Symbol, t: State)
    requires WellFormedNfa(a) && names.Keys == a.states && s <= a.states && Post(a, s, c) <= a.states
    requires CopiesUnder(a, n, names)
    requires x in s && (names[x], c) in n.transitions && t in n.transitions[(names[x], c)]
    ensures t in RemapSet(Post(a, s, c), names)
  {
    assert t in RemapSet(a.transitions[(x, c)], names);
    var y :| y in a.transitions[(x, c)] && names[y] == t;
    assert y in Post(a, s, c);
  }

  lemma LemmaCopiedPostComplete(a: Nfa, n: Nfa, names: map<State, State>, s: set<State>, c: Symbol)
    requires WellFormedNfa(a) && names.Keys == a.states && s <= a.states && Post(a, s, c) <= a.states
    requires CopiesUnder(a, n, names)
    ensures RemapSet(Post(a, s, c), names) <= Post(n, RemapSet(s, names), c)
  {
    forall t | t in RemapSet(Post(a, s, c), names)
      ensures t in Post(n, RemapSet(s, names), c)
    {
      var y :| y in Post(a, s, c) && names[y] == t;
      var x :| x in s && (x, c) in a.transitions && y in a.transitions[(x, c)];
      assert names[x] in RemapSet(s, names);
      LemmaPostMember(n, RemapSet(s, names), names[x], c, t);
    }
  }

  /** A run of an automaton that copies `a` from renamed states is the
      renamed run of `a`. */
  lemma {:induction false} LemmaCopiedRun(a: Nfa, n: Nfa, names: map<State, State>, s: set<State>, w: seq<Symbol>)
    requires WellFormedNfa(a) && names.Keys == a.states && s <= a.states
    requires CopiesUnder(a, n, names)
    ensures Run(a, s, w) <= a.states &&
      Run(n, RemapSet(s, names), w) == RemapSet(Run(a, s, w), names)
    decreases |w|
  {
    LemmaRunInStates(a, s, w);
    if w != [] {
      LemmaCopiedPost(a, n, names, s, w[0]);
      LemmaCopiedRun(a, n, names, Post(a, s, w[0]), w[1..]);
    }
  }

  /** The union copies both inputs under their renamings. */
  lemma LemmaUnionCopies(a: Nfa, b: Nfa)
    requires WellFormedNfa(a) && WellFormedNfa(b)
    ensures CopiesUnder(a, UnionNfa(a, b), LeftNames(a))
    ensures CopiesUnder(b, UnionNfa(a, b), RightNames(a, b))
  {
    LemmaUnionLeft(a, b);
    LemmaUnionRight(a, b);
  }

  /** One step of the union from its fresh initial state goes to the
      renamed successors of both initial states. */
  lemma LemmaUnionPostStart(a: Nfa, b: Nfa, c: Symbol)
    requires WellFormedNfa(a) && WellFormedNfa(b)
    ensures Post(a, {a.initial}, c) <= a.states && Post(b, {b.initial}, c) <= b.states &&
      Post(UnionNfa(a, b), {0}, c) ==
        RemapSet(Post(a, {a.initial}, c), LeftNames(a)) + RemapSet(Post(b, {b.initial}, c), RightNames(a, b))
  {
    LemmaPostInStates(a, {a.initial}, c);
    LemmaPostInStates(b, {b.initial}, c);
    LemmaStartKey(a, b, c);
    LemmaStartPost(a, b, UnionNfa(a, b), LeftNames(a), RightNames(a, b), c);
  }

  /** The step from a state that carries, on `c`, the renamed transitions
      of the initial states of `a` and `b`. */
  lemma LemmaStartPost(a: Nfa, b: Nfa, n: Nfa, na: map<State, State>, nb: map<State, State>, c: Symbol)
    requires Post(a, {a.initial}, c) <= na.Keys && Post(b, {b.initial}, c) <= nb.Keys
    requires (0, c) in n.transitions <==> (a.initial, c) in a.transitions || (b.initial, c) in b.transitions
    requires (0, c) in n.transitions ==>
      n.transitions[(0, c)] == RemapSet(Post(a, {a.initial}, c), na) + RemapSet(Post(b, {b.initial}, c), nb)
    ensures Post(n, {0}, c) == RemapSet(Post(a, {a.initial}, c), na) + RemapSet(Post(b, {b.initial}, c), nb)
  {
    var pa, pb := Post(a, {a.initial}, c), Post(b, {b.initial}, c);
    if (0, c) !in n.transitions {
      LemmaPostSingleton(a, a.initial, c);
      LemmaPostSingleton(b, b.initial, c);
      assert pa == {} && pb == {};
    }
    LemmaPostByKey(n, 0, c, RemapSet(pa, na) + RemapSet(pb, nb));
  }

  /** Renamed states of both inputs meet the final states of the union
      exactly when the originals meet the final states of their input. */
  lemma LemmaUnionMeetsFinals(a: Nfa, b: Nfa, x: set<State>, y: set<State>)
    requires WellFormedNfa(a) && WellFormedNfa(b) && x <= a.states && y <= b.states
    ensures (RemapSet(x, LeftNames(a)) + RemapSet(y, RightNames(a, b))) * UnionNfa(a, b).finals != {} <==>
      x * a.finals != {} || y * b.finals != {}
  {
    var f, na, nb := UnionNfa(a, b).finals, LeftNames(a), RightNames(a, b);
    LemmaUnionFinals(a, b);
    if q :| q in (RemapSet(x, na) + RemapSet(y, nb)) * f {
      if q in RemapSet(x, na) {
        var p :| p in x && na[p] == q;
        assert p in x * a.finals;
      } else {
        var p :| p in y && nb[p] == q;
        assert p in y * b.finals;
      }
    }
    if p :| p in x * a.finals {
      assert na[p] in (RemapSet(x, na) + RemapSet(y, nb)) * f;
    }
    if p :| p in y * b.finals {
      assert nb[p] in (RemapSet(x, na) + RemapSet(y, nb)) * f;
    }
  }

  /** The NFA of `unify` accepts exactly the words either input accepts. */
  lemma LemmaUnionAccepts(a: Nfa, b: Nfa, w: seq<Symbol>)
    requires WellFormedNfa(a) && WellFormedNfa(b)
    ensures Accepts(UnionNfa(a, b), w) <==> Accepts(a, w) || Accepts(b, w)
  {
    var n, na, nb := UnionNfa(a, b), LeftNames(a), RightNames(a, b);
    if w == [] {
      LemmaUnionFinals(a, b);
      assert Run(n, {0}, w) == {0};
    } else {
      var c, rest := w[0], w[1..];
      var sa, sb := Post(a, {a.initial}, c), Post(b, {b.initial}, c);
      LemmaUnionPostStart(a, b, c);
      assert Run(n, {0}, w) == Run(n, RemapSet(sa, na) + RemapSet(sb, nb), rest);
      LemmaRunUnion(n, RemapSet(sa, na), RemapSet(sb, nb), rest);
      LemmaUnionCopies(a, b);
      LemmaCopiedRun(a, n, na, sa, rest);
      LemmaCopiedRun(b, n, nb, sb, rest);
      assert Run(a, {a.initial}, w) == Run(a, sa, rest);
      assert Run(b, {b.initial}, w) == Run(b, sb, rest);
      LemmaUnionMeetsFinals(a, b, Run(a, sa, rest), Run(b, sb, rest));
    }
  }

  lemma LemmaUnionFinals(a: Nfa, b: Nfa)
    requires WellFormedNfa(a) && WellFormedNfa(b)
    ensures 0 in UnionNfa(a, b).finals <==> a.initial in a.finals || b.initial in b.finals
    ensures forall x :: x in a.states ==> (LeftNames(a)[x] in UnionNfa(a, b).finals <==> x in a.finals)
    ensures forall y :: y in b.states ==> (RightNames(a, b)[y] in UnionNfa(a, b).finals <==> y in b.finals)
  {
    var na, nb := LeftNames(a), RightNames(a, b);
    var start := if a.initial in a.finals || b.initial in b.finals then {0} else {};
    assert UnionNfa(a, b).finals == start + RemapSet(a.finals, na) + RemapSet(b.finals, nb);
    LemmaUnionNames(a, b);
    LemmaRenamingInjective(a.states, 1);
    LemmaRenamingInjective(b.states, 1 + |a.states|);
    LemmaSideFinals(a.finals, a.states, na, b.finals, b.states, nb, |a.states|, start);
  }

  /** Finality in a union whose three parts are named from disjoint ranges:
      0, then `1..split` for the left, then above `split` for the right. */
  lemma LemmaSideFinals(fa: set<State>, sa: set<State>, na: map<State, State>,
                        fb: set<State>, sb: set<State>, nb: map<State, State>,
                        split: nat, start: set<State>)
    requires fa <= sa && na.Keys == sa && fb <= sb && nb.Keys == sb && start <= {0}
    requires forall u, v :: u in sa && v in sa && na[u] == na[v] ==> u == v
    requires forall u, v :: u in sb && v in sb && nb[u] == nb[v] ==> u == v
    requires forall x :: x in sa ==> 1 <= na[x] <= split
    requires forall y :: y in sb ==> split < nb[y] <= split + |sb|
    ensures 0 in start + RemapSet(fa, na) + RemapSet(fb, nb) <==> 0 in start
    ensures forall x :: x in sa ==> (na[x] in start + RemapSet(fa, na) + RemapSet(fb, nb) <==> x in fa)
    ensures forall y :: y in sb ==> (nb[y] in start + RemapSet(fa, na) + RemapSet(fb, nb) <==> y in fb)
  {
    LemmaRemapBounds(fa, na, 1, split);
    LemmaRemapBounds(fb, nb, split + 1, split + |sb|);
    forall x | x in sa
      ensures na[x] in start + RemapSet(fa, na) + RemapSet(fb, nb) <==> x in fa
    {
      LemmaRemapMember(fa, sa, na, x);
    }
    forall y | y in sb
      ensures nb[y] in start + RemapSet(fa, na) + RemapSet(fb, nb) <==> y in fb
    {
      LemmaRemapMember(fb, sb, nb, y);
    }
  }

  lemma LemmaUnionWellFormed(a: Nfa, b: Nfa)
    requires WellFormedNfa(a) && WellFormedNfa(b)
    ensures WellFormedNfa(UnionNfa(a, b))
  {
    var na, nb := LeftNames(a), RightNames(a, b);
    var bound := 1 + |a.states| + |b.states|;
    LemmaUnionNames(a, b);
    LemmaRemapBounds(a.finals, na, 0, bound);
    LemmaRemapBounds(b.finals, nb, 0, bound);
    LemmaCopyWritesBounded(a, na, bound);
    LemmaCopyWritesBounded(b, nb, bound);
    LemmaMergedWellFormed(UnionNfa(a, b), CopyWrites(a, na) + CopyWrites(b, nb), bound);
  }

  /** An NFA on the states below `bound` whose transitions are merged from
      writes below `bound` is well formed. */
  lemma LemmaMergedWellFormed(n: Nfa, w: Writes, bound: nat)
    requires forall q: State :: q in n.states <==> q < bound
    requires n.transitions == Merge(w)
    requires forall e :: e in w ==> e.0.0 < bound && forall q :: q in e.1 ==> q < bound
    requires n.initial < bound
    requires forall q :: q in n.finals ==> q < bound
    ensures WellFormedNfa(n)
  {
    forall k | k in n.transitions
      ensures k.0 in n.states && n.transitions[k] <= n.states
    {
      var s :| (k, s) in w;
      forall q | q in n.transitions[k]
        ensures q in n.states
      {
        var s' :| (k, s') in w && q in s';
      }
    }
  }

  /** Every write of a copy loop stays below `bound` when the names do. */
  lemma LemmaCopyWritesBounded(a: Nfa, names: map<State, State>, bound: nat)
    requires WellFormedNfa(a) && names.Keys == a.states
    requires forall x :: x in a.states ==> names[x] < bound
    ensures forall e :: e in CopyWrites(a, names) ==> e.0.0 < bound && forall q :: q in e.1 ==> q < bound
  {
    forall e | e in CopyWrites(a, names)
      ensures e.0.0 < bound && forall q :: q in e.1 ==> q < bound
    {
      var k :| k in a.transitions && e.1 == RemapSet(a.transitions[k], names);
      forall q | q in e.1
        ensures q < bound
      {
        var x :| x in a.transitions[k] && names[x] == q;
      }
    }
  }

  // ----- intersect -----

  /** The position of `x` in the ascending order of `s`. */
  function Rank(s: set<State>, x: State): nat
    requires x in s
  {
    Renaming(s, 0)[x]
  }

  /** The id `intersect` gives the pair `(x, y)`: the value of
      `remap.size()` when the pair is numbered, pairs being numbered in
      ascending order of the state of `a` and then of the state of `b`. */
  function PairId(sa: set<State>, sb: set<State>, x: State, y: State): State
    requires x in sa && y in sb
  {
    LemmaMulNat(Rank(sa, x), |sb|);
    Rank(sa, x) * |sb| + Rank(sb, y)
  }

  /** The ids of the pairs of `xs` and `ys`. */
  function Pairs(sa: set<State>, sb: set<State>, xs: set<State>, ys: set<State>): set<State>
    requires xs <= sa && ys <= sb
  {
    set x, y | x in xs && y in ys :: PairId(sa, sb, x, y)
  }

  lemma LemmaPairsMember(sa: set<State>, sb: set<State>, xs: set<State>, ys: set<State>, x: State, y: State)
    requires xs <= sa && ys <= sb && x in xs && y in ys
    ensures PairId(sa, sb, x, y) in Pairs(sa, sb, xs, ys)
  {
  }

  /** The writes of the nested transition loops of `intersect`: for each
      transition of `a` and each transition of `b` on the same symbol, the
      ids of the pairs of their targets are inserted one by one under the id
      of the pair of their sources, so the key appears only when both target
      sets are non-empty. */
  function ProductWrites(a: Nfa, b: Nfa): Writes
    requires WellFormedNfa(a) && WellFormedNfa(b)
  {
    set k1, k2 | k1 in a.transitions && k2 in b.transitions && k1.1 == k2.1 &&
                 a.transitions[k1] != {} && b.transitions[k2] != {} ::
      ((PairId(a.states, b.states, k1.0, k2.0), k1.1), Pairs(a.states, b.states, a.transitions[k1], b.transitions[k2]))
  }

  /** The NFA `intersect` builds before it determinises: the product of
      `a` and `b`. */
  function ProductNfa(a: Nfa, b: Nfa): (n: Nfa)
    requires WellFormedNfa(a) && WellFormedNfa(b)
    ensures n.alphabet == a.alphabet + b.alphabet
  {
    Nfa(Pairs(a.states, b.states, a.states, b.states),
        a.alphabet + b.alphabet,
        Merge(ProductWrites(a, b)),
        PairId(a.states, b.states, a.initial, b.initial),
        Pairs(a.states, b.states, a.finals, b.finals))
  }

  /** A number below `n * m` has one representation `q * m + r` with
      `q < n` and `r < m`. */
  lemma LemmaMixedRadix(q: nat, r: nat, q': nat, r': nat, m: nat)
    requires r < m && r' < m && q * m + r == q' * m + r'
    ensures q == q' && r == r'
  {
    if q < q' {
      LemmaMulLe(q + 1, q', m);
    } else if q' < q {
      LemmaMulLe(q' + 1, q, m);
    }
  }

  lemma LemmaMulNat(x: nat, m: nat)
    ensures 0 <= x * m
  {
  }

  lemma LemmaMulLe(x: nat, y: nat, m: nat)
    requires x <= y
    ensures x * m <= y * m
  {
  }

  lemma LemmaMixedBound(q: nat, r: nat, n: nat, m: nat)
    requires q < n && r < m
    ensures q * m + r < n * m
  {
    LemmaMulLe(q + 1, n, m);
    assert (q + 1) * m == q * m + m;
  }

  /** Every number below `n * m` is `q * m + r` with `q < n` and `r < m`. */
  lemma LemmaSplitNumber(v: nat, n: nat, m: nat) returns (q: nat, r: nat)
    requires v < n * m
    ensures q < n && r < m && v == q * m + r
  {
    assert m > 0;
    q, r := v / m, v % m;
    if q >= n {
      LemmaMulLe(n, q, m);
    }
  }

  /** Pair ids lie below `|sa| * |sb|`. */
  lemma LemmaPairIdBound(sa: set<State>, sb: set<State>, x: State, y: State)
    requires x in sa && y in sb
    ensures PairId(sa, sb, x, y) < |sa| * |sb|
  {
    LemmaRenaming(sa, 0);
    LemmaRenaming(sb, 0);
    LemmaMixedBound(Rank(sa, x), Rank(sb, y), |sa|, |sb|);
  }

  /** Distinct pairs get distinct ids. */
  lemma LemmaPairIdInjective(sa: set<State>, sb: set<State>, x: State, y: State, x': State, y': State)
    requires x in sa && y in sb && x' in sa && y' in sb
    requires PairId(sa, sb, x, y) == PairId(sa, sb, x', y')
    ensures x == x' && y == y'
  {
    LemmaRenaming(sb, 0);
    LemmaRenamingInjective(sa, 0);
    LemmaRenamingInjective(sb, 0);
    LemmaMixedRadix(Rank(sa, x), Rank(sb, y), Rank(sa, x'), Rank(sb, y'), |sb|);
  }

  /** The pair ids are exactly `0`, ..., `|sa| * |sb| - 1`: the states of the
      product are dense. */
  lemma LemmaPairIdsDense(sa: set<State>, sb: set<State>)
    ensures forall v: State :: v in Pairs(sa, sb, sa, sb) <==> v < |sa| * |sb|
  {
    forall v: State | v in Pairs(sa, sb, sa, sb)
      ensures v < |sa| * |sb|
    {
      var x, y :| x in sa && y in sb && v == PairId(sa, sb, x, y);
      LemmaPairIdBound(sa, sb, x, y);
    }
    forall v: State | v < |sa| * |sb|
      ensures v in Pairs(sa, sb, sa, sb)
    {
      var x, y := PairOf(sa, sb, v);
    }
  }

  /** The pair whose id is `v`. */
  lemma PairOf(sa: set<State>, sb: set<State>, v: State) returns (x: State, y: State)
    requires v < |sa| * |sb|
    ensures x in sa && y in sb && PairId(sa, sb, x, y) == v
  {
    var q, r := LemmaSplitNumber(v, |sa|, |sb|);
    LemmaRenaming(sa, 0);
    LemmaRenaming(sb, 0);
    assert q in Renaming(sa, 0).Values && r in Renaming(sb, 0).Values;
    x :| x in sa && Renaming(sa, 0)[x] == q;
    y :| y in sb && Renaming(sb, 0)[y] == r;
  }

  /** `n` has, under the id of each pair of states of `a` and `b`, a
      transition on `c` exactly when both states have one to some state, and
      it leads to the ids of the pairs of their targets. */
  ghost predicate PairsUnder(a: Nfa, b: Nfa, n: Nfa)
    requires WellFormedNfa(a) && WellFormedNfa(b)
  {
    && (forall x, y, c: Symbol :: x in a.states && y in b.states ==>
          ((PairId(a.states, b.states, x, y), c) in n.transitions <==>
             (x, c) in a.transitions && (y, c) in b.transitions &&
             a.transitions[(x, c)] != {} && b.transitions[(y, c)] != {}))
    && (forall x, y, c: Symbol :: x in a.states && y in b.states && (PairId(a.states, b.states, x, y), c) in n.transitions ==>
          (x, c) in a.transitions && (y, c) in b.transitions &&
          n.transitions[(PairId(a.states, b.states, x, y), c)] ==
            Pairs(a.states, b.states, a.transitions[(x, c)], b.transitions[(y, c)]))
  }

  /** The writes `intersect` makes under the id of the pair `(x, y)` and
      the symbol `c`. */
  lemma LemmaProductKey(a: Nfa, b: Nfa, x: State, y: State, c: Symbol)
    requires WellFormedNfa(a) && WellFormedNfa(b) && x in a.states && y in b.states
    ensures var key := (PairId(a.states, b.states, x, y), c);
      && (key in ProductNfa(a, b).transitions <==>
            (x, c) in a.transitions && (y, c) in b.transitions &&
            a.transitions[(x, c)] != {} && b.transitions[(y, c)] != {})
      && (key in ProductNfa(a, b).transitions ==>
            (x, c) in a.transitions && (y, c) in b.transitions &&
            ProductNfa(a, b).transitions[key] ==
              Pairs(a.states, b.states, a.transitions[(x, c)], b.transitions[(y, c)]))
  {
    var sa, sb := a.states, b.states;
    var key := (PairId(sa, sb, x, y), c);
    var p := (x, c) in a.transitions && (y, c) in b.transitions &&
             a.transitions[(x, c)] != {} && b.transitions[(y, c)] != {};
    var v := if p then Pairs(sa, sb, a.transitions[(x, c)], b.transitions[(y, c)]) else {};
    LemmaProductWritesAt(a, b, x, y, c, p, v);
    LemmaMergeOne(ProductWrites(a, b), ProductNfa(a, b).transitions, key, p, v);
  }

  lemma LemmaProductWritesAt(a: Nfa, b: Nfa, x: State, y: State, c: Symbol, p: bool, v: set<State>)
    requires WellFormedNfa(a) && WellFormedNfa(b) && x in a.states && y in b.states
    requires p == ((x, c) in a.transitions && (y, c) in b.transitions &&
                   a.transitions[(x, c)] != {} && b.transitions[(y, c)] != {})
    requires v == if p then Pairs(a.states, b.states, a.transitions[(x, c)], b.transitions[(y, c)]) else {}
    ensures forall s :: ((PairId(a.states, b.states, x, y), c), s) in ProductWrites(a, b) <==> p && s == v
  {
    var sa, sb := a.states, b.states;
    var w := ProductWrites(a, b);
    var key := (PairId(sa, sb, x, y), c);
    forall s | (key, s) in w
      ensures p && s == v
    {
      var k1, k2 :| k1 in a.transitions && k2 in b.transitions && k1.1 == k2.1 &&
        a.transitions[k1] != {} && b.transitions[k2] != {} &&
        (key, s) == ((PairId(sa, sb, k1.0, k2.0), k1.1), Pairs(sa, sb, a.transitions[k1], b.transitions[k2]));
      LemmaPairIdInjective(sa, sb, k1.0, k2.0, x, y);
      assert k1 == (x, c) && k2 == (y, c);
    }
    if p {
      var k1, k2 := (x, c), (y, c);
      assert (key, v) in w;
    }
  }

  /** The product is well formed on the dense ids of the pairs, and a pair
      is final exactly when both its states are. */
  lemma LemmaProductNfa(a: Nfa, b: Nfa)
    requires WellFormedNfa(a) && WellFormedNfa(b)
    ensures WellFormedNfa(ProductNfa(a, b))
    ensures forall x, y :: x in a.states && y in b.states ==>
      (PairId(a.states, b.states, x, y) in ProductNfa(a, b).finals <==> x in a.finals && y in b.finals)
    ensures PairsUnder(a, b, ProductNfa(a, b))
  {
    LemmaProductFinals(a, b);
    LemmaProductPairsUnder(a, b);
    LemmaProductWellFormed(a, b);
  }

  /** The states of the product are the dense ids `0`, ...,
      `|a.states| * |b.states| - 1`. */
  lemma LemmaProductStates(a: Nfa, b: Nfa)
    requires WellFormedNfa(a) && WellFormedNfa(b)
    ensures forall q: State :: q in ProductNfa(a, b).states <==> q < |a.states| * |b.states|
  {
    var n := ProductNfa(a, b);
    assert n.states == Pairs(a.states, b.states, a.states, b.states);
    LemmaPairIdsDense(a.states, b.states);
  }

  lemma LemmaProductFinals(a: Nfa, b: Nfa)
    requires WellFormedNfa(a) && WellFormedNfa(b)
    ensures forall x, y :: x in a.states && y in b.states ==>
      (PairId(a.states, b.states, x, y) in ProductNfa(a, b).finals <==> x in a.finals && y in b.finals)
  {
    var n, sa, sb := ProductNfa(a, b), a.states, b.states;
    forall x, y | x in sa && y in sb && PairId(sa, sb, x, y) in n.finals
      ensures x in a.finals && y in b.finals
    {
      var x', y' :| x' in a.finals && y' in b.finals && PairId(sa, sb, x', y') == PairId(sa, sb, x, y);
      LemmaPairIdInjective(sa, sb, x, y, x', y');
    }
  }

  lemma LemmaProductPairsUnder(a: Nfa, b: Nfa)
    requires WellFormedNfa(a) && WellFormedNfa(b)
    ensures PairsUnder(a, b, ProductNfa(a, b))
  {
    forall x, y, c: Symbol | x in a.states && y in b.states
      ensures var key := (PairId(a.states, b.states, x, y), c);
      && (key in ProductNfa(a, b).transitions <==>
            (x, c) in a.transitions && (y, c) in b.transitions &&
            a.transitions[(x, c)] != {} && b.transitions[(y, c)] != {})
      && (key in ProductNfa(a, b).transitions ==>
            (x, c) in a.transitions && (y, c) in b.transitions &&
            ProductNfa(a, b).transitions[key] ==
              Pairs(a.states, b.states, a.transitions[(x, c)], b.transitions[(y, c)]))
    {
      LemmaProductKey(a, b, x, y, c);
    }
  }

  lemma LemmaProductWellFormed(a: Nfa, b: Nfa)
    requires WellFormedNfa(a) && WellFormedNfa(b)
    ensures WellFormedNfa(ProductNfa(a, b))
  {
    var sa, sb := a.states, b.states;
    LemmaPairIdsDense(sa, sb);
    LemmaPairIdBound(sa, sb, a.initial, b.initial);
    LemmaPairsBound(sa, sb, a.finals, b.finals);
    LemmaProductWritesBounded(a, b);
    LemmaMergedWellFormed(ProductNfa(a, b), ProductWrites(a, b), |sa| * |sb|);
  }

  /** The ids of pairs are below the number of pairs. */
  lemma LemmaPairsBound(sa: set<State>, sb: set<State>, xs: set<State>, ys: set<State>)
    requires xs <= sa && ys <= sb
    ensures forall v :: v in Pairs(sa, sb, xs, ys) ==> v < |sa| * |sb|
  {
    forall v | v in Pairs(sa, sb, xs, ys)
      ensures v < |sa| * |sb|
    {
      var x, y :| x in xs && y in ys && v == PairId(sa, sb, x, y);
      LemmaPairIdBound(sa, sb, x, y);
    }
  }

  /** Every write of the product's transition loops is below the number of
      pairs. */
  lemma LemmaProductWritesBounded(a: Nfa, b: Nfa)
    requires WellFormedNfa(a) && WellFormedNfa(b)
    ensures forall e :: e in ProductWrites(a, b) ==>
      e.0.0 < |a.states| * |b.states| && forall q :: q in e.1 ==> q < |a.states| * |b.states|
  {
    var sa, sb := a.states, b.states;
    forall e | e in ProductWrites(a, b)
      ensures e.0.0 < |sa| * |sb| && forall q :: q in e.1 ==> q < |sa| * |sb|
    {
      var k1, k2 :| k1 in a.transitions && k2 in b.transitions && k1.1 == k2.1 &&
        a.transitions[k1] != {} && b.transitions[k2] != {} &&
        e == ((PairId(sa, sb, k1.0, k2.0), k1.1), Pairs(sa, sb, a.transitions[k1], b.transitions[k2]));
      LemmaPairIdBound(sa, sb, k1.0, k2.0);
      LemmaPairsBound(sa, sb, a.transitions[k1], b.transitions[k2]);
    }
  }

  /** Pairs of subsets are among the pairs of supersets. */
  lemma LemmaPairsMono(sa: set<State>, sb: set<State>, xs: set<State>, ys: set<State>, xs': set<State>, ys': set<State>)
    requires xs <= xs' <= sa && ys <= ys' <= sb
    ensures Pairs(sa, sb, xs, ys) <= Pairs(sa, sb, xs', ys')
  {
    forall v | v in Pairs(sa, sb, xs, ys)
      ensures v in Pairs(sa, sb, xs', ys')
    {
      var x, y :| x in xs && y in ys && v == PairId(sa, sb, x, y);
    }
  }

  /** One step of an automaton that pairs `a` with `b` from the ids of
      pairs is the pairs of the steps of `a` and `b`. */
  lemma LemmaPairedPost(a: Nfa, b: Nfa, n: Nfa, xs: set<State>, ys: set<State>, c: Symbol)
    requires WellFormedNfa(a) && WellFormedNfa(b) && xs <= a.states && ys <= b.states
    requires PairsUnder(a, b, n)
    ensures Post(a, xs, c) <= a.states && Post(b, ys, c) <= b.states &&
      Post(n, Pairs(a.states, b.states, xs, ys), c) ==
        Pairs(a.states, b.states, Post(a, xs, c), Post(b, ys, c))
  {
    LemmaPostInStates(a, xs, c);
    LemmaPostInStates(b, ys, c);
    LemmaPairedPostSound(a, b, n, xs, ys, c);
    LemmaPairedPostComplete(a, b, n, xs, ys, c);
  }

  lemma LemmaPairedPostSound(a: Nfa, b: Nfa, n: Nfa, xs: set<State>, ys: set<State>, c: Symbol)
    requires WellFormedNfa(a) && WellFormedNfa(b) && xs <= a.states && ys <= b.states
    requires Post(a, xs, c) <= a.states && Post(b, ys, c) <= b.states
    requires PairsUnder(a, b, n)
    ensures Post(n, Pairs(a.states, b.states, xs, ys), c) <=
      Pairs(a.states, b.states, Post(a, xs, c), Post(b, ys, c))
  {
    var sa, sb := a.states, b.states;
    var from := Pairs(sa, sb, xs, ys);
    forall t | t in Post(n, from, c)
      ensures t in Pairs(sa, sb, Post(a, xs, c), Post(b, ys, c))
    {
      var q :| q in from && (q, c) in n.transitions && t in n.transitions[(q, c)];
      var x, y :| x in xs && y in ys && q == PairId(sa, sb, x, y);
      LemmaPairedTarget(a, b, n, xs, ys, x, y, c, t);
    }
  }

  lemma LemmaPairedTarget(a: Nfa, b: Nfa, n: Nfa, xs: set<State>, ys: set<State>, x: State, y: State, c: Symbol, t: State)
    requires WellFormedNfa(a) && WellFormedNfa(b) && xs <= a.states && ys <= b.states
    requires Post(a, xs, c) <= a.states && Post(b, ys, c) <= b.states
    requires PairsUnder(a, b, n)
    requires x in xs && y in ys
    requires (PairId(a.states, b.states, x, y), c) in n.transitions
    requires t in n.transitions[(PairId(a.states, b.states, x, y), c)]
    ensures t in Pairs(a.states, b.states, Post(a, xs, c), Post(b, ys, c))
  {
    var sa, sb := a.states, b.states;
    assert t in Pairs(sa, sb, a.transitions[(x, c)], b.transitions[(y, c)]);
    var t1, t2 :| t1 in a.transitions[(x, c)] && t2 in b.transitions[(y, c)] && t == PairId(sa, sb, t1, t2);
    assert t1 in Post(a, xs, c) && t2 in Post(b, ys, c);
  }

  lemma LemmaPairedPostComplete(a: Nfa, b: Nfa, n: Nfa, xs: set<State>, ys: set<State>, c: Symbol)
    requires WellFormedNfa(a) && WellFormedNfa(b) && xs <= a.states && ys <= b.states
    requires Post(a, xs, c) <= a.states && Post(b, ys, c) <= b.states
    requires PairsUnder(a, b, n)
    ensures Pairs(a.states, b.states, Post(a, xs, c), Post(b, ys, c)) <=
      Post(n, Pairs(a.states, b.states, xs, ys), c)
  {
    var sa, sb := a.states, b.states;
    var from := Pairs(sa, sb, xs, ys);
    forall t | t in Pairs(sa, sb, Post(a, xs, c), Post(b, ys, c))
      ensures t in Post(n, from, c)
    {
      var t1, t2 :| t1 in Post(a, xs, c) && t2 in Post(b, ys, c) && t == PairId(sa, sb, t1, t2);
      var x :| x in xs && (x, c) in a.transitions && t1 in a.transitions[(x, c)];
      var y :| y in ys && (y, c) in b.transitions && t2 in b.transitions[(y, c)];
      var q := PairId(sa, sb, x, y);
      LemmaPairsMember(sa, sb, xs, ys, x, y);
      LemmaPairsMember(sa, sb, a.transitions[(x, c)], b.transitions[(y, c)], t1, t2);
      LemmaPostMember(n, from, q, c, t);
    }
  }

  /** A run of an automaton that pairs `a` with `b` from the ids of pairs
      is the pairs of the runs of `a` and `b`. */
  lemma {:induction false} LemmaPairedRun(a: Nfa, b: Nfa, n: Nfa, xs: set<State>, ys: set<State>, w: seq<Symbol>)
    requires WellFormedNfa(a) && WellFormedNfa(b) && xs <= a.states && ys <= b.states
    requires PairsUnder(a, b, n)
    ensures Run(a, xs, w) <= a.states && Run(b, ys, w) <= b.states &&
      Run(n, Pairs(a.states, b.states, xs, ys), w) == Pairs(a.states, b.states, Run(a, xs, w), Run(b, ys, w))
    decreases |w|
  {
    LemmaRunInStates(a, xs, w);
    LemmaRunInStates(b, ys, w);
    if w != [] {
      LemmaPairedPost(a, b, n, xs, ys, w[0]);
      LemmaPairedRun(a, b, n, Post(a, xs, w[0]), Post(b, ys, w[0]), w[1..]);
    }
  }

  /** The ids of pairs meet the final states of the product exactly when
      both components meet the final states of their automaton. */
  lemma LemmaProductMeetsFinals(a: Nfa, b: Nfa, xs: set<State>, ys: set<State>)
    requires WellFormedNfa(a) && WellFormedNfa(b) && xs <= a.states && ys <= b.states
    ensures Pairs(a.states, b.states, xs, ys) * ProductNfa(a, b).finals != {} <==>
      xs * a.finals != {} && ys * b.finals != {}
  {
    var sa, sb, f := a.states, b.states, ProductNfa(a, b).finals;
    LemmaProductFinals(a, b);
    if q :| q in Pairs(sa, sb, xs, ys) * f {
      var x, y :| x in xs && y in ys && q == PairId(sa, sb, x, y);
      assert x in xs * a.finals && y in ys * b.finals;
    }
    if xs * a.finals != {} && ys * b.finals != {} {
      var x :| x in xs * a.finals;
      var y :| y in ys * b.finals;
      assert PairId(sa, sb, x, y) in Pairs(sa, sb, xs, ys) * f;
    }
  }

  /** The NFA of `intersect` accepts exactly the words both inputs accept. */
  lemma LemmaProductAccepts(a: Nfa, b: Nfa, w: seq<Symbol>)
    requires WellFormedNfa(a) && WellFormedNfa(b)
    ensures Accepts(ProductNfa(a, b), w) <==> Accepts(a, w) && Accepts(b, w)
  {
    var n, sa, sb := ProductNfa(a, b), a.states, b.states;
    var start := Pairs(sa, sb, {a.initial}, {b.initial});
    assert start == {n.initial};
    LemmaProductPairsUnder(a, b);
    LemmaPairedRun(a, b, n, {a.initial}, {b.initial}, w);
    LemmaProductMeetsFinals(a, b, Run(a, {a.initial}, w), Run(b, {b.initial}, w));
  }

  // ----- the two operations -----

  /** `d` accepts exactly the words over the joint alphabet that `a` or `b`
      accepts. */
  ghost predicate AcceptsUnion(d: Dfa, a: Nfa, b: Nfa)
  {
    forall w :: DfaAccepts(d, d.initial, w) <==> Over(w, a.alphabet + b.alphabet) && (Accepts(a, w) || Accepts(b, w))
  }

  /** `d` accepts exactly the words over the joint alphabet that both `a`
      and `b` accept. */
  ghost predicate AcceptsBoth(d: Dfa, a: Nfa, b: Nfa)
  {
    forall w :: DfaAccepts(d, d.initial, w) <==> Over(w, a.alphabet + b.alphabet) && Accepts(a, w) && Accepts(b, w)
  }

  /** The subset automaton of the union NFA accepts exactly the words over
      its alphabet that either input accepts; in particular its initial state is final
      exactly when the empty word is among them. */
  lemma LemmaUnionDfaAccepts(a: Nfa, b: Nfa, q: Discovered, d: Dfa)
    requires WellFormedNfa(a) && WellFormedNfa(b) && SubsetAutomaton(UnionNfa(a, b), q, d)
    ensures AcceptsUnion(d, a, b)
    ensures d.initial in d.finals <==> (Accepts(a, []) || Accepts(b, []))
  {
    forall w
      ensures DfaAccepts(d, d.initial, w) <==> Over(w, a.alphabet + b.alphabet) && (Accepts(a, w) || Accepts(b, w))
    {
      LemmaSubsetAccepts(UnionNfa(a, b), q, d, w);
      LemmaUnionAccepts(a, b, w);
    }
    assert DfaAccepts(d, d.initial, []) <==> Over([], a.alphabet + b.alphabet) && (Accepts(a, []) || Accepts(b, []));
  }

  /** `unify`: the union NFA, determinised and minimised.  `d` is the
      subset automaton of the union NFA `n` over the queue `q`, and `r` is
      what `ToMinimalDFA` makes of `d` by way of `u`, `t` and `blocks`.  The
      result is the one-state automaton of the empty language exactly when
      no final state of `d` can be reached, and it accepts the empty word
      exactly when one of the inputs does. */
  method Unify(a: Nfa, b: Nfa) returns (r: Dfa, n: Nfa, q: Discovered, d: Dfa, u: Dfa, t: Dfa, blocks: seq<Block>)
    requires WellFormedNfa(a) && WellFormedNfa(b)
    ensures n == UnionNfa(a, b) && SubsetAutomaton(n, q, d)
    ensures AcceptsUnion(d, a, b)
    ensures MinimalOf(d, u, t, blocks, r)
    ensures WellFormedDfa(r) && r.alphabet == a.alphabet + b.alphabet
    ensures r == Dfa({0}, a.alphabet + b.alphabet, map[], 0, {}) <==> !FinalReachable(d)
    ensures r.initial in r.finals <==> Accepts(a, []) || Accepts(b, [])
  {
    n := UnionNfa(a, b);
    d, q := ToDfa(n);
    LemmaUnionDfaAccepts(a, b, q, d);
    r, u, t, blocks := ToMinimalDfa(d);
  }

  /** The subset automaton of the product NFA accepts exactly the words over
      its alphabet that both inputs accept; in particular its initial state is final
      exactly when the empty word is among them. */
  lemma LemmaProductDfaAccepts(a: Nfa, b: Nfa, q: Discovered, d: Dfa)
    requires WellFormedNfa(a) && WellFormedNfa(b) && SubsetAutomaton(ProductNfa(a, b), q, d)
    ensures AcceptsBoth(d, a, b)
    ensures d.initial in d.finals <==> Accepts(a, []) && Accepts(b, [])
  {
    forall w
      ensures DfaAccepts(d, d.initial, w) <==> Over(w, a.alphabet + b.alphabet) && Accepts(a, w) && Accepts(b, w)
    {
      LemmaSubsetAccepts(ProductNfa(a, b), q, d, w);
      LemmaProductAccepts(a, b, w);
    }
    assert DfaAccepts(d, d.initial, []) <==> Over([], a.alphabet + b.alphabet) && Accepts(a, []) && Accepts(b, []);
  }

  /** `intersect`: the product NFA, determinised and minimised.  `d` is the
      subset automaton of the product NFA `n` over the queue `q`, and `r` is
      what `ToMinimalDFA` makes of `d` by way of `u`, `t` and `blocks`.  The
      result is the one-state automaton of the empty language exactly when
      no final state of `d` can be reached, and it accepts the empty word
      exactly when both inputs do. */
  method Intersect(a: Nfa, b: Nfa) returns (r: Dfa, n: Nfa, q: Discovered, d: Dfa, u: Dfa, t: Dfa, blocks: seq<Block>)
    requires WellFormedNfa(a) && WellFormedNfa(b)
    ensures n == ProductNfa(a, b) && SubsetAutomaton(n, q, d)
    ensures AcceptsBoth(d, a, b)
    ensures MinimalOf(d, u, t, blocks, r)
    ensures WellFormedDfa(r) && r.alphabet == a.alphabet + b.alphabet
    ensures r == Dfa({0}, a.alphabet + b.alphabet, map[], 0, {}) <==> !FinalReachable(d)
    ensures r.initial in r.finals <==> Accepts(a, []) && Accepts(b, [])
  {
    n := ProductNfa(a, b);
    d, q := ToDfa(n);
    LemmaProductDfaAccepts(a, b, q, d);
    r, u, t, blocks := ToMinimalDfa(d);
  }
}
