/** Reachability in a finite directed graph, and the breadth-first worklist
    that both pruning passes of aag_2.cpp run: one forwards from the initial
    state, one backwards from the final states. */
module Graph {
  import opened SetOrder

  /** A finite directed graph on state ids, given by its edges. */
  type Edges = set<(nat, nat)>

  /** `p` is a non-empty walk along edges of `e`. */
  ghost predicate IsPath(e: Edges, p: seq<nat>)
  {
    |p| >= 1 && forall i :: 0 <= i < |p| - 1 ==> (p[i], p[i + 1]) in e
  }

  /** `t` can be reached from `s` in zero or more steps. */
  ghost predicate Reaches(e: Edges, s: nat, t: nat)
  {
    exists p :: IsPath(e, p) && p[0] == s && p[|p| - 1] == t
  }

  /** `t` can be reached from some member of `seeds`. */
  ghost predicate ReachedFrom(e: Edges, seeds: set<nat>, t: nat)
  {
    exists s :: s in seeds && Reaches(e, s, t)
  }

  /** The direct successors of `s`. */
  function Succs(e: Edges, s: nat): set<nat>
  {
    set x | x in e && x.0 == s :: x.1
  }

  /** Every node some edge leads to. */
  function Heads(e: Edges): set<nat>
  {
    set x | x in e :: x.1
  }

  /** The graph with every edge turned round. */
  function Reverse(e: Edges): (r: Edges)
    ensures forall s, t :: (s, t) in r <==> (t, s) in e
  {
    set x | x in e :: (x.1, x.0)
  }

  /** No edge leaves `r`. */
  ghost predicate Closed(e: Edges, r: set<nat>)
  {
    forall x, y :: x in r && (x, y) in e ==> y in r
  }

  lemma LemmaReachesRefl(e: Edges, s: nat)
    ensures Reaches(e, s, s)
  {
    assert IsPath(e, [s]);
  }

  /** A walk can be extended by one edge. */
  lemma LemmaReachesStep(e: Edges, s: nat, u: nat, t: nat)
    requires Reaches(e, s, u)
    requires (u, t) in e
    ensures Reaches(e, s, t)
  {
    var p :| IsPath(e, p) && p[0] == s && p[|p| - 1] == u;
    var q := p + [t];
    forall i | 0 <= i < |q| - 1
      ensures (q[i], q[i + 1]) in e
    {
      if i < |p| - 1 {
        assert q[i] == p[i] && q[i + 1] == p[i + 1];
      }
    }
    assert IsPath(e, q);
  }

  lemma {:induction false} LemmaPathStaysIn(e: Edges, r: set<nat>, p: seq<nat>, i: nat)
    requires IsPath(e, p) && p[0] in r && Closed(e, r)
    requires i < |p|
    ensures p[i] in r
  {
    if i > 0 {
      LemmaPathStaysIn(e, r, p, i - 1);
      assert (p[i - 1], p[i]) in e;
    }
  }

  /** A closed set holds everything reachable from its members. */
  lemma LemmaClosedHoldsReachable(e: Edges, r: set<nat>, s: nat, t: nat)
    requires Closed(e, r) && s in r && Reaches(e, s, t)
    ensures t in r
  {
    var p :| IsPath(e, p) && p[0] == s && p[|p| - 1] == t;
    LemmaPathStaysIn(e, r, p, |p| - 1);
  }

  /** Two walks meeting at `u` join into one. */
  lemma LemmaReachesTrans(e: Edges, s: nat, u: nat, t: nat)
    requires Reaches(e, s, u) && Reaches(e, u, t)
    ensures Reaches(e, s, t)
  {
    var p :| IsPath(e, p) && p[0] == s && p[|p| - 1] == u;
    var q :| IsPath(e, q) && q[0] == u && q[|q| - 1] == t;
    var r := p + q[1..];
    forall i | 0 <= i < |r| - 1
      ensures (r[i], r[i + 1]) in e
    {
      if i < |p| - 1 {
        assert r[i] == p[i] && r[i + 1] == p[i + 1];
      } else {
        var j := i - |p| + 1;
        assert r[i] == q[j] && r[i + 1] == q[j + 1];
      }
    }
    assert IsPath(e, r);
  }

  /** Adding edges keeps every walk. */
  lemma LemmaReachesMono(e: Edges, e': Edges, s: nat, t: nat)
    requires e <= e' && Reaches(e, s, t)
    ensures Reaches(e', s, t)
  {
    var p :| IsPath(e, p) && p[0] == s && p[|p| - 1] == t;
    assert IsPath(e', p);
  }

  /** A walk that starts inside a closed set never leaves it, so it survives
      the removal of every edge with an endpoint outside. */
  lemma LemmaReachesWithin(e: Edges, e': Edges, keep: set<nat>, s: nat, t: nat)
    requires Closed(e, keep) && s in keep && Reaches(e, s, t)
    requires forall x, y :: x in keep && y in keep && (x, y) in e ==> (x, y) in e'
    ensures Reaches(e', s, t)
  {
    var p :| IsPath(e, p) && p[0] == s && p[|p| - 1] == t;
    forall i | 0 <= i < |p| - 1
      ensures (p[i], p[i + 1]) in e'
    {
      LemmaPathStaysIn(e, keep, p, i);
      LemmaPathStaysIn(e, keep, p, i + 1);
    }
    assert IsPath(e', p);
  }

  /** Every node of a walk reaches its last node. */
  lemma LemmaSuffixReaches(e: Edges, p: seq<nat>, i: nat)
    requires IsPath(e, p) && i < |p|
    ensures Reaches(e, p[i], p[|p| - 1])
  {
    var q := p[i..];
    forall j | 0 <= j < |q| - 1
      ensures (q[j], q[j + 1]) in e
    {
      assert q[j] == p[i + j] && q[j + 1] == p[i + j + 1];
    }
    assert IsPath(e, q);
  }

  /** A walk to `t` survives the removal of every edge whose head cannot
      reach `t`. */
  lemma LemmaReachesAlong(e: Edges, e': Edges, s: nat, t: nat)
    requires Reaches(e, s, t)
    requires forall x, y :: (x, y) in e && Reaches(e, y, t) ==> (x, y) in e'
    ensures Reaches(e', s, t)
  {
    var p :| IsPath(e, p) && p[0] == s && p[|p| - 1] == t;
    forall i | 0 <= i < |p| - 1
      ensures (p[i], p[i + 1]) in e'
    {
      LemmaSuffixReaches(e, p, i + 1);
    }
    assert IsPath(e', p);
  }

  /** A walk to another node starts with an edge. */
  lemma LemmaReachesFirstEdge(e: Edges, s: nat, t: nat)
    requires Reaches(e, s, t) && s != t
    ensures exists y :: (s, y) in e
  {
    var p :| IsPath(e, p) && p[0] == s && p[|p| - 1] == t;
    assert (p[0], p[1]) in e;
  }

  /** Walks in the reversed graph are reversed walks. */
  lemma LemmaReverseReaches(e: Edges, s: nat, t: nat)
    requires Reaches(e, s, t)
    ensures Reaches(Reverse(e), t, s)
  {
    var p :| IsPath(e, p) && p[0] == s && p[|p| - 1] == t;
    var n := |p|;
    var q := seq(n, i requires 0 <= i < n => p[n - 1 - i]);
    forall i | 0 <= i < n - 1
      ensures (q[i], q[i + 1]) in Reverse(e)
    {
      assert (p[n - 2 - i], p[n - 1 - i]) in e;
    }
    assert IsPath(Reverse(e), q);
  }

  lemma LemmaReverseInvolution(e: Edges)
    ensures Reverse(Reverse(e)) == e
  {
  }

  /** One step of the search: the not yet visited successors of `head`.
      The model lists them in ascending order of node, as `removeRedundant`
      does with its `std::set` of backward neighbours; `removeUnreachable`
      visits them by ascending symbol instead.  Only the set of nodes
      reached is used afterwards, so the order does not matter. */
  method VisitSuccs(e: Edges, head: nat, reach: set<nat>) returns (added: seq<nat>, reach': set<nat>)
    ensures reach <= reach'
    ensures forall t :: (head, t) in e ==> t in reach'
    ensures forall t :: t in reach' ==> t in reach || (head, t) in e
    ensures forall i :: 0 <= i < |added| ==> added[i] in reach' - reach
    ensures forall x :: x in reach' - reach ==> x in added
    ensures |added| == |reach'| - |reach|
  {
    added, reach' := [], reach;
    var succs := Succs(e, head);
    var todo := succs;
    while todo != {}
      invariant todo <= succs
      invariant reach' == reach + (succs - todo)
      invariant forall i :: 0 <= i < |added| ==> added[i] in reach' - reach
      invariant forall x :: x in reach' - reach ==> x in added
      invariant |added| == |reach'| - |reach|
      decreases todo
    {
      var t := Min(todo);
      todo := todo - {t};
      if t !in reach' {
        added := added + [t];
        reach' := reach' + {t};
      }
    }
    forall t | (head, t) in e
      ensures t in reach'
    {
      assert t in succs;
    }
  }

  /** Visiting a new node brings the search closer to exhausting `universe`. */
  lemma LemmaProgress(universe: set<nat>, reach: set<nat>, reach': set<nat>)
    requires reach <= reach' <= universe && reach != reach'
    ensures |universe - reach'| < |universe - reach|
  {
    var x :| x in reach' && x !in reach;
    var a, b := universe - reach', universe - reach;
    assert b == a + (b - a);
    assert a * (b - a) == {};
    assert x in b - a;
  }

  /** Every visited node `x` is reachable from a seed, as the recorded walk
      `paths[x]` shows.  (The walks are ghost bookkeeping of the proof.) */
  ghost predicate Witnessed(e: Edges, seeds: set<nat>, reach: set<nat>, paths: map<nat, seq<nat>>)
  {
    forall x {:trigger x in paths} :: x in reach ==>
      x in paths && IsPath(e, paths[x]) && paths[x][0] in seeds && paths[x][|paths[x]| - 1] == x
  }

  /** Only nodes still waiting in the queue can have unvisited successors. */
  ghost predicate ClosedBut(e: Edges, reach: set<nat>, pending: seq<nat>)
  {
    forall x, t :: x in reach && (x, t) in e && x !in pending ==> t in reach
  }

  /** The nodes first seen from `head` are reached by extending the walk to `head`. */
  lemma LemmaWitnessedExtend(e: Edges, seeds: set<nat>, reach: set<nat>, paths: map<nat, seq<nat>>, head: nat, reach': set<nat>)
    returns (paths': map<nat, seq<nat>>)
    requires Witnessed(e, seeds, reach, paths) && head in reach
    requires forall t :: t in reach' ==> t in reach || (head, t) in e
    ensures Witnessed(e, seeds, reach', paths')
  {
    assert head in paths;
    paths' := map x | x in reach' :: if x in reach then paths[x] else paths[head] + [x];
    forall x | x in reach' && x !in reach
      ensures IsPath(e, paths'[x])
    {
      var p := paths[head];
      var q := p + [x];
      assert (head, x) in e;
      forall i | 0 <= i < |q| - 1
        ensures (q[i], q[i + 1]) in e
      {
        if i < |p| - 1 {
          assert q[i] == p[i] && q[i + 1] == p[i + 1];
        }
      }
    }
  }

  lemma LemmaClosedButExtend(e: Edges, reach: set<nat>, pending: seq<nat>, added: seq<nat>, reach': set<nat>)
    requires |pending| > 0 && ClosedBut(e, reach, pending)
    requires reach <= reach'
    requires forall t :: (pending[0], t) in e ==> t in reach'
    requires forall x :: x in reach' - reach ==> x in added
    ensures ClosedBut(e, reach', pending[1..] + added)
  {
  }

  lemma LemmaPendingExtend(pending: seq<nat>, added: seq<nat>, reach: set<nat>, reach': set<nat>)
    requires |pending| > 0
    requires forall i :: 0 <= i < |pending| ==> pending[i] in reach
    requires reach <= reach'
    requires forall i :: 0 <= i < |added| ==> added[i] in reach'
    ensures forall i :: 0 <= i < |pending[1..] + added| ==> (pending[1..] + added)[i] in reach'
  {
  }

  /** When the queue is empty the visited set is exactly what the seeds reach. */
  lemma LemmaBfsDone(e: Edges, seeds: set<nat>, reach: set<nat>, paths: map<nat, seq<nat>>)
    requires seeds <= reach && Witnessed(e, seeds, reach, paths) && ClosedBut(e, reach, [])
    ensures forall t :: t in reach <==> ReachedFrom(e, seeds, t)
  {
    forall t | t in reach
      ensures ReachedFrom(e, seeds, t)
    {
      assert t in paths;
      var p := paths[t];
      assert IsPath(e, p) && p[0] in seeds;
    }
    forall t | ReachedFrom(e, seeds, t)
      ensures t in reach
    {
      var s :| s in seeds && Reaches(e, s, t);
      LemmaClosedHoldsReachable(e, reach, s, t);
    }
  }

  /** Breadth-first search from `seeds`; the result is the set of nodes
      reachable from a seed.  The order in which successors are queued is
      the model's (see `VisitSuccs`) and does not affect that set.
      The queue of the C++ code is split into the visited set and the part
      `pending` not yet taken off the queue. */
  method Bfs(e: Edges, seeds: set<nat>) returns (reach: set<nat>)
    ensures forall t :: t in reach <==> ReachedFrom(e, seeds, t)
  {
    var universe := seeds + Heads(e);
    LemmaSorted(seeds);
    var pending := Sorted(seeds);
    reach := seeds;
    ghost var paths := map x | x in seeds :: [x];
    while pending != []
      invariant seeds <= reach <= universe
      invariant forall i :: 0 <= i < |pending| ==> pending[i] in reach
      invariant Witnessed(e, seeds, reach, paths)
      invariant ClosedBut(e, reach, pending)
      decreases |universe - reach|, |pending|
    {
      var head := pending[0];
      var added, reach' := VisitSuccs(e, head, reach);
      paths := LemmaWitnessedExtend(e, seeds, reach, paths, head, reach');
      LemmaClosedButExtend(e, reach, pending, added, reach');
      LemmaPendingExtend(pending, added, reach, reach');
      assert reach' <= universe by {
        forall t | t in reach' && t !in reach
          ensures t in Heads(e)
        {
          assert (head, t) in e;
        }
      }
      if reach' != reach {
        LemmaProgress(universe, reach, reach');
      }
      pending, reach := pending[1..] + added, reach';
    }
    LemmaBfsDone(e, seeds, reach, paths);
  }
}
