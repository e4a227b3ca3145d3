/** The partition refinement loop of `ToMinimalDFA` in aag_2.cpp
    (Hopcroft's algorithm), with `splitSet`.  A partition is a set of
    blocks, as the `std::set<std::set<State>>` named `resultSet` holds it,
    and the worklist is the set of blocks named `queue`. */
module Refine {
  import opened SetOrder
  import opened Automata

  type Block = set<State>
  type Blocks = set<Block>

  /** `splitSet`: the members of `src` inside `div`, and those outside. */
  function SplitSet(src: set<State>, div: set<State>): (r: (set<State>, set<State>))
    ensures r.0 + r.1 == src && r.0 * r.1 == {}
    ensures r.0 <= div && r.1 * div == {}
  {
    (src * div, src - div)
  }

  /** Splitting is the only way to cut `src` into a part inside `div` and a
      part outside it. */
  lemma LemmaSplitSetUnique(src: set<State>, div: set<State>, inside: set<State>, outside: set<State>)
    requires inside + outside == src && inside <= div && outside * div == {}
    ensures SplitSet(src, div) == (inside, outside)
  {
    forall t | t in src * div
      ensures t in inside
    {
      assert t !in outside * div;
    }
    forall t | t in outside
      ensures t !in div
    {
      assert t !in outside * div;
    }
    assert inside == src * div;
    assert outside == src - div;
  }

  /** `x` cuts `y` when both halves of `splitSet(y, x)` are non-empty. */
  predicate Cut(y: Block, x: set<State>)
  {
    SplitSet(y, x).0 != {} && SplitSet(y, x).1 != {}
  }

  /** The blocks `y` turns into: its two halves if `x` cuts it, else itself
      (`LemmaPieces` states that they cover `y`, each on one side of `x`). */
  function Pieces(y: Block, x: set<State>): (r: Blocks)
    ensures forall z :: z in r ==> z <= y
    ensures !Cut(y, x) ==> r == {y}
    ensures Cut(y, x) ==> |r| == 2 && forall z :: z in r ==> z != {}
  {
    if Cut(y, x) then
      var h := SplitSet(y, x);
      assert h.0 != h.1;
      {h.0, h.1}
    else {y}
  }

  /** The pieces of `y` cover it, and on a cut each lies inside `x` or
      outside it; with the two non-empty pieces `Pieces` promises, one is
      inside and the other outside. */
  lemma LemmaPieces(y: Block, x: set<State>)
    ensures Flatten(Pieces(y, x)) == y
    ensures Cut(y, x) ==> forall z :: z in Pieces(y, x) ==> z <= x || z * x == {}
    ensures Cut(y, x) ==> exists z, z' :: z in Pieces(y, x) && z' in Pieces(y, x) && z <= x && z' * x == {}
  {
    var r := Pieces(y, x);
    forall s | s in y
      ensures s in Flatten(r)
    {
      if Cut(y, x) {
        var h := SplitSet(y, x);
        assert s in h.0 || s in h.1;
        assert h.0 in r && h.1 in r;
      } else {
        assert y in r;
      }
    }
    if Cut(y, x) {
      var h := SplitSet(y, x);
      assert h.0 in r && h.1 in r;
    }
  }

  /** `newResSet`: every block of `p` replaced by its pieces. */
  function SplitAll(p: Blocks, x: set<State>): Blocks
  {
    set y, z | y in p && z in Pieces(y, x) :: z
  }

  /** What the worklist receives for block `y` of the partition: its halves
      if `x` cuts it and it is waiting, else its smaller half (the first on a
      tie) if `x` cuts it, else `y` itself if it is waiting. */
  function Queued(y: Block, w: Blocks, x: set<State>): (r: Blocks)
  {
    var h := SplitSet(y, x);
    if !Cut(y, x) then (if y in w then {y} else {})
    else if y in w then {h.0, h.1}
    else if |h.0| <= |h.1| then {h.0}
    else {h.1}
  }

  /** What the blocks of `p` put on the worklist. */
  function Gathered(p: Blocks, w: Blocks, x: set<State>): Blocks
  {
    set y, z | y in p && z in Queued(y, w, x) :: z
  }

  /** The worklist after one splitter `x` has been applied to every block. */
  function Requeue(p: Blocks, w: Blocks, x: set<State>): Blocks
  {
    (w - p) + Gathered(p, w, x)
  }

  /** The union of the blocks. */
  function Flatten(p: Blocks): set<State>
  {
    set y, s | y in p && s in y :: s
  }

  /** Distinct blocks share no state. */
  predicate Disjoint(p: Blocks)
  {
    forall y, z :: y in p && z in p && y != z ==> y * z == {}
  }

  /** `p` partitions `s`, perhaps with the empty block among its blocks. */
  predicate Partition(p: Blocks, s: set<State>)
  {
    Disjoint(p) && Flatten(p) == s
  }

  /** No block mixes final and non-final states. */
  predicate RespectsFinals(p: Blocks, f: set<State>)
  {
    forall y :: y in p ==> y <= f || y * f == {}
  }

  /** The states with a transition on `c` into `a` (the set `from`). */
  function From(d: Dfa, a: Block, c: Symbol): (r: set<State>)
    ensures forall s :: s in r <==> s in d.states && (s, c) in d.transitions && d.transitions[(s, c)] in a
  {
    set s | s in d.states && (s, c) in d.transitions && d.transitions[(s, c)] in a
  }

  lemma LemmaSplitAllPartition(p: Blocks, s: set<State>, x: set<State>)
    requires Partition(p, s)
    ensures Partition(SplitAll(p, x), s)
  {
    LemmaSplitAllDisjoint(p, x);
    LemmaSplitAllCovers(p, x);
  }

  lemma LemmaSplitAllDisjoint(p: Blocks, x: set<State>)
    requires Disjoint(p)
    ensures Disjoint(SplitAll(p, x))
  {
    var q := SplitAll(p, x);
    forall y, z | y in q && z in q && y != z
      ensures y * z == {}
    {
      var y0 :| y0 in p && y in Pieces(y0, x);
      var z0 :| z0 in p && z in Pieces(z0, x);
      if y0 == z0 {
        assert Cut(y0, x);
        var h := SplitSet(y0, x);
        assert y == h.0 || y == h.1;
      } else {
        assert y0 * z0 == {};
      }
    }
  }

  lemma LemmaSplitAllCovers(p: Blocks, x: set<State>)
    ensures Flatten(SplitAll(p, x)) == Flatten(p)
  {
    var q := SplitAll(p, x);
    forall t | t in Flatten(p)
      ensures t in Flatten(q)
    {
      var y :| y in p && t in y;
      if Cut(y, x) {
        var h := SplitSet(y, x);
        if t in h.0 {
          assert h.0 in Pieces(y, x);
        } else {
          assert h.1 in Pieces(y, x);
        }
      } else {
        assert y in Pieces(y, x);
      }
    }
    forall t | t in Flatten(q)
      ensures t in Flatten(p)
    {
      var z :| z in q && t in z;
      var y :| y in p && z in Pieces(y, x);
    }
  }

  lemma LemmaSplitAllRespects(p: Blocks, f: set<State>, x: set<State>)
    requires RespectsFinals(p, f)
    ensures RespectsFinals(SplitAll(p, x), f)
  {
    forall z | z in SplitAll(p, x)
      ensures z <= f || z * f == {}
    {
      var y :| y in p && z in Pieces(y, x);
    }
  }

  /** The empty block is never created by a split, and never removed. */
  lemma LemmaSplitAllEmpty(p: Blocks, x: set<State>)
    ensures {} in SplitAll(p, x) <==> {} in p
  {
    if {} in p {
      assert {} in Pieces({}, x);
    }
  }

  /** The worklist only ever holds blocks of the partition. */
  lemma LemmaRequeueInPartition(p: Blocks, w: Blocks, x: set<State>)
    requires w <= p
    ensures Requeue(p, w, x) <= SplitAll(p, x)
  {
    assert w - p == {};
    forall z | z in Requeue(p, w, x)
      ensures z in SplitAll(p, x)
    {
      var y :| y in p && z in Queued(y, w, x);
      LemmaQueuedPieces(y, w, x);
    }
  }

  lemma LemmaQueuedPieces(y: Block, w: Blocks, x: set<State>)
    ensures Queued(y, w, x) <= Pieces(y, x)
  {
  }

  /** A splitter that cuts nothing changes neither set. */
  lemma LemmaNoCut(p: Blocks, w: Blocks, x: set<State>)
    requires w <= p
    requires forall y :: y in p ==> !Cut(y, x)
    ensures SplitAll(p, x) == p && Requeue(p, w, x) == w
  {
    forall y | y in p
      ensures y in SplitAll(p, x)
    {
      assert y in Pieces(y, x);
    }
    forall z | z in w
      ensures z in Requeue(p, w, x)
    {
      assert z in Queued(z, w, x);
    }
  }

  /** Disjoint non-empty blocks inside `s` number at most `|s|`. */
  lemma {:induction false} LemmaNonEmptyBound(p: Blocks, s: set<State>)
    requires Disjoint(p) && {} !in p && Flatten(p) <= s
    ensures |p| <= |s|
    decreases p
  {
    if p != {} {
      var y :| y in p;
      var rest := p - {y};
      forall t | t in Flatten(rest)
        ensures t in s - y
      {
        var z :| z in rest && t in z;
        assert t !in z * y;
        assert t in Flatten(p);
      }
      LemmaNonEmptyBound(rest, s - y);
      forall t | t in y
        ensures t in s
      {
        assert t in Flatten(p);
      }
      LemmaRemoveCard(s, y);
    }
  }

  /** A partition of `s` has at most `|s| + 1` blocks: the empty block is
      the only extra one. */
  lemma LemmaPartitionBound(p: Blocks, s: set<State>)
    requires Partition(p, s)
    ensures |p| <= |s| + 1
  {
    var rest := p - {{}};
    assert Flatten(rest) <= Flatten(p);
    LemmaNonEmptyBound(rest, s);
  }

  /** Removing one block from the partition removes its pieces. */
  lemma LemmaSplitAllRemove(p: Blocks, y: Block, x: set<State>)
    requires Disjoint(p) && y in p
    ensures SplitAll(p, x) == SplitAll(p - {y}, x) + Pieces(y, x)
    ensures SplitAll(p - {y}, x) * Pieces(y, x) == {}
  {
    var rest := p - {y};
    forall z | z in SplitAll(rest, x)
      ensures z !in Pieces(y, x)
    {
      var y' :| y' in rest && z in Pieces(y', x);
      LemmaPiecesApart(y, y', x);
    }
    forall z | z in SplitAll(p, x)
      ensures z in SplitAll(rest, x) + Pieces(y, x)
    {
      var y' :| y' in p && z in Pieces(y', x);
      if y' != y {
        assert y' in rest;
      }
    }
  }

  /** Different blocks of a partition have different pieces. */
  lemma LemmaPiecesApart(y: Block, y': Block, x: set<State>)
    requires y != y' && y * y' == {}
    ensures forall z :: z in Pieces(y', x) ==> z !in Pieces(y, x)
  {
    forall z | z in Pieces(y', x)
      ensures z !in Pieces(y, x)
    {
      if z in Pieces(y, x) {
        assert false;
      }
    }
  }

  /** Splitting never loses a block, and a cut adds one. */
  lemma {:induction false} LemmaSplitAllCard(p: Blocks, x: set<State>)
    requires Disjoint(p)
    ensures |SplitAll(p, x)| >= |p|
    ensures (exists y :: y in p && Cut(y, x)) ==> |SplitAll(p, x)| > |p|
    decreases p
  {
    if p != {} {
      var y :| y in p;
      if exists y' :: y' in p && Cut(y', x) {
        y :| y in p && Cut(y, x);
      }
      var rest := p - {y};
      LemmaSplitAllCard(rest, x);
      LemmaSplitAllRemove(p, y, x);
    }
  }

  /** What the refinement loop keeps: `p` partitions the states without
      mixing final and non-final ones, the worklist holds blocks of `p`, and
      the empty block is there exactly when one half of the first split was
      empty. */
  predicate RefineInv(d: Dfa, first: (set<State>, set<State>), p: Blocks, w: Blocks)
  {
    && Partition(p, d.states)
    && RespectsFinals(p, d.finals)
    && w <= p
    && ({} in p <==> first.0 == {} || first.1 == {})
  }

  /** Applying one splitter keeps the invariant, and either changes nothing
      or adds a block. */
  lemma LemmaApplySplitter(d: Dfa, first: (set<State>, set<State>), p: Blocks, w: Blocks, x: set<State>)
    requires RefineInv(d, first, p, w)
    ensures RefineInv(d, first, SplitAll(p, x), Requeue(p, w, x))
    ensures (SplitAll(p, x) == p && Requeue(p, w, x) == w) || |SplitAll(p, x)| > |p|
  {
    LemmaSplitAllPartition(p, d.states, x);
    LemmaSplitAllRespects(p, d.finals, x);
    LemmaSplitAllEmpty(p, x);
    LemmaRequeueInPartition(p, w, x);
    LemmaSplitAllCard(p, x);
    if forall y :: y in p ==> !Cut(y, x) {
      LemmaNoCut(p, w, x);
    }
  }

  /** The first split: final states apart from the others. */
  lemma LemmaRefineStart(d: Dfa)
    ensures var first := SplitSet(d.states, d.finals);
      RefineInv(d, first, {first.0, first.1}, {first.0, first.1})
  {
    var first := SplitSet(d.states, d.finals);
    assert Flatten({first.0, first.1}) == d.states;
  }

  /** The refinement loop of `ToMinimalDFA`: starts from the final and the
      non-final states (both in the partition and in the worklist), takes the
      first waiting block `a`, and splits every block by the states leading
      into `a` on each symbol, until no block waits. */
  method RefinePartition(d: Dfa) returns (p: Blocks)
    ensures Partition(p, d.states)
    ensures RespectsFinals(p, d.finals)
    ensures {} in p <==> d.states <= d.finals || d.states * d.finals == {}
  {
    var first := SplitSet(d.states, d.finals);
    p := {first.0, first.1};
    var w := p;
    LemmaRefineStart(d);
    while w != {}
      invariant RefineInv(d, first, p, w)
      decreases |d.states| + 1 - |p|, |w|
    {
      LemmaPartitionBound(p, d.states);
      var a := MinBlock(w);
      p, w := SplitByBlock(d, first, a, p, w - {a});
      LemmaPartitionBound(p, d.states);
    }
    LemmaFirstSplitEmpty(d.states, d.finals);
  }

  lemma LemmaFirstSplitEmpty(s: set<State>, f: set<State>)
    ensures SplitSet(s, f).0 == {} <==> s * f == {}
    ensures SplitSet(s, f).1 == {} <==> s <= f
  {
    if s <= f {
      assert s - f == {};
    }
  }

  /** The loop over the alphabet, for one block `a` taken off the worklist:
      symbols in ascending order, each splitting by the states that lead into
      `a` on it. */
  method SplitByBlock(d: Dfa, first: (set<State>, set<State>), a: Block, p0: Blocks, w0: Blocks)
    returns (p: Blocks, w: Blocks)
    requires RefineInv(d, first, p0, w0)
    ensures RefineInv(d, first, p, w)
    ensures (p == p0 && w == w0) || |p| > |p0|
  {
    p, w := p0, w0;
    var todo := d.alphabet;
    while todo != {}
      invariant RefineInv(d, first, p, w)
      invariant (p == p0 && w == w0) || |p| > |p0|
      decreases todo
    {
      var c: Symbol := Min(todo);
      todo := todo - {c};
      var x := From(d, a, c);
      if x != {} {
        var next := SplitPass(BlockOrder(p), x, {}, w);
        LemmaSplitStep(d, first, p, w, x);
        p, w := next.0, next.1;
      }
    }
  }

  /** One pass of the inner loop, over the blocks in their set order, is the
      splitter applied to the whole partition. */
  lemma LemmaSplitStep(d: Dfa, first: (set<State>, set<State>), p: Blocks, w: Blocks, x: set<State>)
    requires RefineInv(d, first, p, w)
    ensures var next := SplitPass(BlockOrder(p), x, {}, w);
      && RefineInv(d, first, next.0, next.1)
      && ((next.0 == p && next.1 == w) || |next.0| > |p|)
  {
    var bs := BlockOrder(p);
    LemmaBlockOrderElems(p);
    LemmaSplitPass(bs, x, {}, w);
    LemmaEmptyUnionLeft(SplitAll(p, x));
    LemmaApplySplitter(d, first, p, w, x);
  }

  lemma LemmaEmptyUnionLeft(q: Blocks)
    ensures {} + q == q
  {
  }

  /** The blocks listed in `bs`. */
  function Elems(bs: seq<Block>): Blocks
  {
    set i | 0 <= i < |bs| :: bs[i]
  }

  /** The blocks of `bs` are distinct and share no state. */
  predicate DistinctDisjoint(bs: seq<Block>)
  {
    forall i, j :: 0 <= i < j < |bs| ==> bs[i] != bs[j] && bs[i] * bs[j] == {}
  }

  /** The inner `for (tmp : resultSet)` loop as the code runs it: blocks in
      the order of `bs`, `res` the new partition so far, `queue` the
      worklist so far. */
  function SplitPass(bs: seq<Block>, x: set<State>, res: Blocks, queue: Blocks): (Blocks, Blocks)
    decreases |bs|
  {
    if bs == [] then (res, queue)
    else
      var y := bs[0];
      var h := SplitSet(y, x);
      if h.0 == {} || h.1 == {} then SplitPass(bs[1..], x, res + {y}, queue)
      else if y in queue then SplitPass(bs[1..], x, res + {h.0, h.1}, queue - {y} + {h.0, h.1})
      else if |h.0| <= |h.1| then SplitPass(bs[1..], x, res + {h.0, h.1}, queue + {h.0})
      else SplitPass(bs[1..], x, res + {h.0, h.1}, queue + {h.1})
  }

  /** One turn of that loop adds the pieces of the block to the partition and
      replaces the block by what `Queued` says in the worklist. */
  lemma LemmaPassStep(bs: seq<Block>, x: set<State>, res: Blocks, queue: Blocks)
    requires bs != []
    ensures SplitPass(bs, x, res, queue)
      == SplitPass(bs[1..], x, res + Pieces(bs[0], x), (queue - {bs[0]}) + Queued(bs[0], queue, x))
  {
    var y := bs[0];
    if y in queue {
      assert (queue - {y}) + {y} == queue;
    } else {
      assert queue - {y} == queue;
    }
  }

  /** A block is not a piece of another block it shares no state with. */
  lemma LemmaBlockNotPiece(y: Block, y': Block, x: set<State>)
    requires y != y' && y * y' == {}
    ensures y' !in Pieces(y, x)
  {
    if y' in Pieces(y, x) {
      if Cut(y, x) {
        assert false;
      }
    }
  }

  lemma LemmaElemsCons(bs: seq<Block>)
    requires bs != []
    ensures Elems(bs) == {bs[0]} + Elems(bs[1..])
  {
    forall b | b in Elems(bs)
      ensures b in {bs[0]} + Elems(bs[1..])
    {
      var i :| 0 <= i < |bs| && bs[i] == b;
      if i > 0 {
        assert bs[1..][i - 1] == b;
      }
    }
    forall b | b in Elems(bs[1..])
      ensures b in Elems(bs)
    {
      var i :| 0 <= i < |bs[1..]| && bs[1..][i] == b;
      assert bs[i + 1] == b;
    }
  }

  lemma LemmaSplitAllCons(y: Block, p: Blocks, x: set<State>)
    ensures SplitAll({y} + p, x) == Pieces(y, x) + SplitAll(p, x)
  {
  }

  lemma LemmaGatheredCons(y: Block, rest: Blocks, w: Blocks, x: set<State>)
    ensures Gathered({y} + rest, w, x) == Queued(y, w, x) + Gathered(rest, w, x)
  {
  }

  lemma LemmaGatheredSame(p: Blocks, w: Blocks, w': Blocks, x: set<State>)
    requires forall y :: y in p ==> Queued(y, w, x) == Queued(y, w', x)
    ensures Gathered(p, w, x) == Gathered(p, w', x)
  {
    forall z | z in Gathered(p, w, x)
      ensures z in Gathered(p, w', x)
    {
      var y :| y in p && z in Queued(y, w, x);
      assert z in Queued(y, w', x);
    }
    forall z | z in Gathered(p, w', x)
      ensures z in Gathered(p, w, x)
    {
      var y :| y in p && z in Queued(y, w', x);
      assert z in Queued(y, w, x);
    }
  }

  /** Handling block `y` first and the rest after gives the worklist of
      handling all of them at once. */
  lemma LemmaRequeueCons(y: Block, rest: Blocks, queue: Blocks, x: set<State>)
    requires y !in rest && forall y' :: y' in rest ==> y * y' == {}
    ensures Requeue({y} + rest, queue, x) == Requeue(rest, (queue - {y}) + Queued(y, queue, x), x)
  {
    var mine := Queued(y, queue, x);
    var q1 := (queue - {y}) + mine;
    forall y' | y' in rest
      ensures y' in q1 <==> y' in queue
      ensures y' !in mine
    {
      LemmaBlockNotPiece(y, y', x);
      LemmaQueuedPieces(y, queue, x);
    }
    LemmaGatheredCons(y, rest, queue, x);
    LemmaGatheredSame(rest, q1, queue, x);
    assert q1 - rest == (queue - ({y} + rest)) + mine;
  }

  lemma LemmaDistinctTail(bs: seq<Block>)
    requires bs != [] && DistinctDisjoint(bs)
    ensures DistinctDisjoint(bs[1..])
    ensures bs[0] !in Elems(bs[1..])
    ensures forall y' :: y' in Elems(bs[1..]) ==> bs[0] * y' == {}
  {
    var rest := bs[1..];
    forall i, j | 0 <= i < j < |rest|
      ensures rest[i] != rest[j] && rest[i] * rest[j] == {}
    {
      assert rest[i] == bs[i + 1] && rest[j] == bs[j + 1];
    }
    forall y' | y' in Elems(rest)
      ensures y' != bs[0] && bs[0] * y' == {}
    {
      var j :| 0 <= j < |rest| && rest[j] == y';
      assert bs[j + 1] == y';
    }
  }

  /** The code's sequential pass over the blocks computes `SplitAll` and
      `Requeue`, whatever the order of the blocks. */
  lemma {:induction false} LemmaSplitPass(bs: seq<Block>, x: set<State>, res: Blocks, queue: Blocks)
    requires DistinctDisjoint(bs)
    ensures SplitPass(bs, x, res, queue) == (res + SplitAll(Elems(bs), x), Requeue(Elems(bs), queue, x))
    decreases |bs|
  {
    if bs == [] {
      assert Elems(bs) == {};
      assert SplitAll({}, x) == {};
      assert Gathered({}, queue, x) == {};
      assert queue - {} == queue;
    } else {
      var y, rest := bs[0], bs[1..];
      var r1 := res + Pieces(y, x);
      var q1 := (queue - {y}) + Queued(y, queue, x);
      LemmaPassStep(bs, x, res, queue);
      LemmaDistinctTail(bs);
      LemmaSplitPass(rest, x, r1, q1);
      LemmaElemsCons(bs);
      LemmaSplitAllCons(y, Elems(rest), x);
      LemmaRequeueCons(y, Elems(rest), queue, x);
      assert r1 + SplitAll(Elems(rest), x) == res + SplitAll(Elems(bs), x);
    }
  }

  /** The iteration order of a partition lists each block once. */
  lemma LemmaBlockOrderElems(p: Blocks)
    requires Disjoint(p)
    ensures DistinctDisjoint(BlockOrder(p)) && Elems(BlockOrder(p)) == p
  {
    var bs := BlockOrder(p);
    forall i, j | 0 <= i < j < |bs|
      ensures bs[i] != bs[j] && bs[i] * bs[j] == {}
    {
      assert bs[i] in p && bs[j] in p;
    }
    forall b | b in p
      ensures b in Elems(bs)
    {
      var i :| 0 <= i < |bs| && bs[i] == b;
    }
  }
}
