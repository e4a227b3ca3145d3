/** Nondeterministic and deterministic finite automata over a byte alphabet,
    as the `NFA` and `DFA` records of aag_2.cpp hold them, together with the
    small set operations every construction shares. */
module Automata {
  import opened SetOrder

  /** A state identifier (`unsigned int` in the C++ code; ids stay far
      below 2^32, so no wrap-around is modelled). */
  type State = nat

  /** An input symbol (`uint8_t`). */
  type Symbol = c: nat | c < 256

  /** `transitions[(q, c)]` is the set of successors of `q` on `c`; a missing
      key means no successor. */
  datatype Nfa = Nfa(
    states: set<State>,
    alphabet: set<Symbol>,
    transitions: map<(State, Symbol), set<State>>,
    initial: State,
    finals: set<State>)

  /** A partial deterministic automaton: a missing key rejects. */
  datatype Dfa = Dfa(
    states: set<State>,
    alphabet: set<Symbol>,
    transitions: map<(State, Symbol), State>,
    initial: State,
    finals: set<State>)

  /** What callers of `unify` and `intersect` guarantee: the initial state,
      the final states and every transition endpoint are states. */
  predicate WellFormedNfa(n: Nfa)
  {
    && n.initial in n.states
    && n.finals <= n.states
    && forall k :: k in n.transitions ==> k.0 in n.states && n.transitions[k] <= n.states
  }

  /** The same closure condition for a deterministic automaton. */
  predicate WellFormedDfa(d: Dfa)
  {
    && d.initial in d.states
    && d.finals <= d.states
    && forall k :: k in d.transitions ==> k.0 in d.states && d.transitions[k] in d.states
  }

  /** The successors on `c` of any state in `s`. */
  function Post(n: Nfa, s: set<State>, c: Symbol): set<State>
  {
    set q, t | q in s && (q, c) in n.transitions && t in n.transitions[(q, c)] :: t
  }

  lemma LemmaPostMember(n: Nfa, s: set<State>, q: State, c: Symbol, t: State)
    requires q in s && (q, c) in n.transitions && t in n.transitions[(q, c)]
    ensures t in Post(n, s, c)
  {
  }

  /** The successors of one state are its transition's target set, or
      nothing when it has no transition. */
  lemma LemmaPostSingleton(n: Nfa, q: State, c: Symbol)
    ensures Post(n, {q}, c) == if (q, c) in n.transitions then n.transitions[(q, c)] else {}
  {
  }

  /** The successors of a single state are what its transition, if any,
      says. */
  lemma LemmaPostByKey(n: Nfa, q: State, c: Symbol, v: set<State>)
    requires (q, c) in n.transitions ==> n.transitions[(q, c)] == v
    requires (q, c) !in n.transitions ==> v == {}
    ensures Post(n, {q}, c) == v
  {
    LemmaPostSingleton(n, q, c);
  }

  /** Successors distribute over a union of source sets. */
  lemma LemmaPostUnion(n: Nfa, x: set<State>, y: set<State>, c: Symbol)
    ensures Post(n, x + y, c) == Post(n, x, c) + Post(n, y, c)
  {
  }

  /** In a well-formed NFA the successors of states are states. */
  lemma LemmaPostInStates(n: Nfa, s: set<State>, c: Symbol)
    requires WellFormedNfa(n) && s <= n.states
    ensures Post(n, s, c) <= n.states
  {
    forall t | t in Post(n, s, c)
      ensures t in n.states
    {
      var q :| q in s && (q, c) in n.transitions && t in n.transitions[(q, c)];
    }
  }

  /** The states `n` can be in after reading `w` from the states `s`. */
  function Run(n: Nfa, s: set<State>, w: seq<Symbol>): set<State>
    decreases |w|
  {
    if w == [] then s else Run(n, Post(n, s, w[0]), w[1..])
  }

  /** `n` accepts `w`: reading it from the initial state can end in a final
      state. */
  predicate Accepts(n: Nfa, w: seq<Symbol>)
  {
    Run(n, {n.initial}, w) * n.finals != {}
  }

  /** Runs distribute over a union of start sets. */
  lemma {:induction false} LemmaRunUnion(n: Nfa, x: set<State>, y: set<State>, w: seq<Symbol>)
    ensures Run(n, x + y, w) == Run(n, x, w) + Run(n, y, w)
    decreases |w|
  {
    if w != [] {
      LemmaPostUnion(n, x, y, w[0]);
      LemmaRunUnion(n, Post(n, x, w[0]), Post(n, y, w[0]), w[1..]);
    }
  }

  /** In a well-formed NFA a run from states stays among the states. */
  lemma {:induction false} LemmaRunInStates(n: Nfa, s: set<State>, w: seq<Symbol>)
    requires WellFormedNfa(n) && s <= n.states
    ensures Run(n, s, w) <= n.states
    decreases |w|
  {
    if w != [] {
      LemmaPostInStates(n, s, w[0]);
      LemmaRunInStates(n, Post(n, s, w[0]), w[1..]);
    }
  }

  /** Nothing can be reached from no state. */
  lemma {:induction false} LemmaRunEmpty(n: Nfa, w: seq<Symbol>)
    ensures Run(n, {}, w) == {}
    decreases |w|
  {
    if w != [] {
      assert Post(n, {}, w[0]) == {};
      LemmaRunEmpty(n, w[1..]);
    }
  }

  /** Reading one more symbol takes the states reached to their
      successors. */
  lemma {:induction false} LemmaRunSnoc(n: Nfa, s: set<State>, w: seq<Symbol>, c: Symbol)
    ensures Run(n, s, w + [c]) == Post(n, Run(n, s, w), c)
    decreases |w|
  {
    if w != [] {
      assert (w + [c])[0] == w[0] && (w + [c])[1..] == w[1..] + [c];
      LemmaRunSnoc(n, Post(n, s, w[0]), w[1..], c);
    } else {
      assert Run(n, s, [c]) == Run(n, Post(n, s, c), []);
    }
  }

  /** Every symbol of `w` is in `alphabet`. */
  predicate Over(w: seq<Symbol>, alphabet: set<Symbol>)
  {
    forall k :: 0 <= k < |w| ==> w[k] in alphabet
  }

  /** A non-empty word is over an alphabet when its first symbol and the
      rest are. */
  lemma LemmaOverCons(w: seq<Symbol>, alphabet: set<Symbol>)
    requires w != []
    ensures Over(w, alphabet) <==> w[0] in alphabet && Over(w[1..], alphabet)
  {
    if w[0] in alphabet && Over(w[1..], alphabet) {
      forall k | 0 <= k < |w|
        ensures w[k] in alphabet
      {
        if k > 0 {
          assert w[k] == w[1..][k - 1];
        }
      }
    }
  }

  /** The DFA `d`, started in `s`, follows a transition for every symbol of
      `w` and stops in a final state. */
  predicate DfaAccepts(d: Dfa, s: State, w: seq<Symbol>)
    decreases |w|
  {
    if w == [] then s in d.finals
    else (s, w[0]) in d.transitions && DfaAccepts(d, d.transitions[(s, w[0])], w[1..])
  }

  /** Every state some transition leads to. */
  function Targets(n: Nfa): set<State>
  {
    set k, t | k in n.transitions && t in n.transitions[k] :: t
  }

  lemma LemmaPostInTargets(n: Nfa, s: set<State>, c: Symbol)
    ensures Post(n, s, c) <= Targets(n)
  {
    forall t | t in Post(n, s, c)
      ensures t in Targets(n)
    {
      var q :| q in s && (q, c) in n.transitions && t in n.transitions[(q, c)];
      var k := (q, c);
      assert k in n.transitions && t in n.transitions[k];
    }
  }

  /** The dense ids `0`, `1`, ..., `n - 1`. */
  function Dense(n: nat): (r: set<State>)
    ensures forall i: nat :: i in r <==> i < n
  {
    if n == 0 then {} else Dense(n - 1) + {n - 1}
  }

  /** Renames the members of `s`, taken in ascending order, to `offset`,
      `offset + 1`, and so on (`LemmaRenaming` states the properties). */
  function Renaming(s: set<State>, offset: nat): (r: map<State, State>)
    ensures r.Keys == s
    decreases s
  {
    if s == {} then map[]
    else
      var m := Min(s);
      Renaming(s - {m}, offset + 1)[m := offset]
  }

  /** The renaming is an order-preserving bijection from `s` onto the dense
      range starting at `offset`. */
  lemma {:induction false} LemmaRenaming(s: set<State>, offset: nat)
    ensures forall x :: x in s ==> offset <= Renaming(s, offset)[x] < offset + |s|
    ensures forall x, y :: x in s && y in s && x < y ==> Renaming(s, offset)[x] < Renaming(s, offset)[y]
    ensures forall v :: v in Renaming(s, offset).Values <==> offset <= v < offset + |s|
    decreases s
  {
    if s != {} {
      var m := Min(s);
      var rest := Renaming(s - {m}, offset + 1);
      LemmaRenaming(s - {m}, offset + 1);
      var r := Renaming(s, offset);
      assert r == rest[m := offset];
      forall v | offset <= v < offset + |s|
        ensures v in r.Values
      {
        if v == offset {
          assert r[m] == v;
        } else {
          assert |s - {m}| == |s| - 1;
          assert v in rest.Values;
          var x :| x in rest && rest[x] == v;
          assert r[x] == v;
        }
      }
    }
  }

  /** Distinct states get distinct names. */
  lemma LemmaRenamingInjective(s: set<State>, offset: nat)
    ensures forall x, y :: x in s && y in s && Renaming(s, offset)[x] == Renaming(s, offset)[y] ==> x == y
  {
    LemmaRenaming(s, offset);
  }

  /** The image of a set of states under a renaming (`remapSet`). */
  function RemapSet(s: set<State>, m: map<State, State>): (r: set<State>)
    requires s <= m.Keys
    ensures forall x :: x in s ==> m[x] in r
    ensures forall y :: y in r ==> exists x :: x in s && m[x] == y
  {
    set x | x in s :: m[x]
  }

  /** Under an injective renaming, a state's name is in the renamed set
      exactly when the state is in the set. */
  lemma LemmaRemapMember(sub: set<State>, dom: set<State>, m: map<State, State>, x: State)
    requires m.Keys == dom && sub <= dom && x in dom
    requires forall u, v :: u in dom && v in dom && m[u] == m[v] ==> u == v
    ensures m[x] in RemapSet(sub, m) <==> x in sub
  {
    if m[x] in RemapSet(sub, m) {
      var u :| u in sub && m[u] == m[x];
    }
  }

  /** A renamed set stays within the range of the names it uses. */
  lemma LemmaRemapBounds(sub: set<State>, m: map<State, State>, lo: nat, hi: nat)
    requires sub <= m.Keys
    requires forall x :: x in sub ==> lo <= m[x] <= hi
    ensures forall v :: v in RemapSet(sub, m) ==> lo <= v <= hi
  {
  }

  /** Renaming through an injective map keeps the size of a set. */
  lemma {:induction false} LemmaRemapSetInjective(s: set<State>, m: map<State, State>)
    requires s <= m.Keys
    requires forall x, y :: x in m && y in m && m[x] == m[y] ==> x == y
    ensures |RemapSet(s, m)| == |s|
    decreases s
  {
    if s != {} {
      var y :| y in s;
      LemmaRemapSetInjective(s - {y}, m);
      assert RemapSet(s, m) == RemapSet(s - {y}, m) + {m[y]};
      assert m[y] !in RemapSet(s - {y}, m);
    }
  }
}
