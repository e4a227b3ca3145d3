/** Orders on finite sets of states, as the C++ standard library sees them.

    A range-for over a `std::set<unsigned>` visits the elements in ascending
    order, and a `std::set<std::set<unsigned>>` keeps its members sorted by
    `std::lexicographical_compare` on those ascending sequences, so that the
    empty set comes first.  Every traversal order of the automata core is one
    of these two. */
module SetOrder {

  /** `m` is the least element of `s`. */
  predicate IsLeast(m: nat, s: set<nat>)
  {
    m in s && forall x :: x in s ==> m <= x
  }

  /** The least element of a non-empty set (what `begin()` points to). */
  function Min(s: set<nat>): (m: nat)
    requires s != {}
    ensures m in s
    ensures forall x :: x in s ==> m <= x
  {
    LemmaMinExists(s);
    var m :| IsLeast(m, s);
    m
  }

  lemma {:induction false} LemmaMinExists(s: set<nat>)
    requires s != {}
    ensures exists m :: IsLeast(m, s)
    decreases s
  {
    var y :| y in s;
    if s == {y} {
      assert IsLeast(y, s);
    } else {
      LemmaMinExists(s - {y});
      var m :| IsLeast(m, s - {y});
      var least := if y < m then y else m;
      forall x | x in s
        ensures least <= x
      {
        if x != y {
          assert x in s - {y};
        }
      }
      assert IsLeast(least, s);
    }
  }

  /** `m` is the greatest element of `s`. */
  predicate IsGreatest(m: nat, s: set<nat>)
  {
    m in s && forall x :: x in s ==> x <= m
  }

  /** The greatest element of a non-empty set (what `rbegin()` points to). */
  function Max(s: set<nat>): (m: nat)
    requires s != {}
    ensures m in s
    ensures forall x :: x in s ==> x <= m
  {
    LemmaMaxExists(s);
    var m :| IsGreatest(m, s);
    m
  }

  lemma {:induction false} LemmaMaxExists(s: set<nat>)
    requires s != {}
    ensures exists m :: IsGreatest(m, s)
    decreases s
  {
    var y :| y in s;
    if s == {y} {
      assert IsGreatest(y, s);
    } else {
      LemmaMaxExists(s - {y});
      var m :| IsGreatest(m, s - {y});
      var greatest := if y > m then y else m;
      forall x | x in s
        ensures x <= greatest
      {
        if x != y {
          assert x in s - {y};
        }
      }
      assert IsGreatest(greatest, s);
    }
  }

  /** A subset is no larger than its superset. */
  lemma LemmaSubsetCard<T>(a: set<T>, b: set<T>)
    requires a <= b
    ensures |a| <= |b|
  {
    assert b == a + (b - a);
    assert a * (b - a) == {};
  }

  /** Removing a non-empty part makes a set strictly smaller. */
  lemma LemmaRemoveCard<T>(s: set<T>, y: set<T>)
    requires y <= s && y != {}
    ensures |s - y| < |s|
  {
    var t :| t in y;
    LemmaSubsetCard(s - y, s - {t});
  }

  /** The ascending enumeration of a set.  Its properties are stated by
      `LemmaSorted` rather than as postconditions, so that comparing two
      sets does not drag them into every proof. */
  function Sorted(s: set<nat>): seq<nat>
    decreases s
  {
    if s == {} then []
    else
      var m := Min(s);
      [m] + Sorted(s - {m})
  }

  /** `Sorted(s)` lists exactly the members of `s`, each once, ascending. */
  lemma {:induction false} LemmaSorted(s: set<nat>)
    ensures |Sorted(s)| == |s|
    ensures forall x :: x in Sorted(s) <==> x in s
    ensures forall i, j :: 0 <= i < j < |Sorted(s)| ==> Sorted(s)[i] < Sorted(s)[j]
    decreases s
  {
    if s != {} {
      var m := Min(s);
      LemmaSorted(s - {m});
      var q := Sorted(s);
      assert q == [m] + Sorted(s - {m});
      forall i, j | 0 <= i < j < |q|
        ensures q[i] < q[j]
      {
        if i == 0 {
          assert q[j] in Sorted(s - {m});
        }
      }
    }
  }

  /** In a strictly increasing sequence, positions and values are ordered alike. */
  lemma LemmaIncreasingIndex(q: seq<nat>, i: int, j: int)
    requires forall a, b :: 0 <= a < b < |q| ==> q[a] < q[b]
    requires 0 <= i < |q| && 0 <= j < |q|
    ensures q[i] < q[j] <==> i < j
    ensures q[i] == q[j] <==> i == j
  {
  }

  /** Two sets with the same enumeration are equal. */
  lemma LemmaSortedInjective(a: set<nat>, b: set<nat>)
    requires Sorted(a) == Sorted(b)
    ensures a == b
  {
    LemmaSorted(a);
    LemmaSorted(b);
  }

  /** `a` is no greater than `b` in lexicographic order; a proper prefix is
      smaller than the sequence it starts. */
  predicate LexLe(a: seq<nat>, b: seq<nat>)
  {
    |a| == 0 || (|b| > 0 && (a[0] < b[0] || (a[0] == b[0] && LexLe(a[1..], b[1..]))))
  }

  lemma {:induction false} LemmaLexTotal(a: seq<nat>, b: seq<nat>)
    ensures LexLe(a, b) || LexLe(b, a)
    decreases |a|
  {
    if |a| > 0 && |b| > 0 && a[0] == b[0] {
      LemmaLexTotal(a[1..], b[1..]);
    }
  }

  lemma {:induction false} LemmaLexAntisymmetric(a: seq<nat>, b: seq<nat>)
    requires LexLe(a, b) && LexLe(b, a)
    ensures a == b
    decreases |a|
  {
    if |a| > 0 {
      LemmaLexAntisymmetric(a[1..], b[1..]);
      assert a == [a[0]] + a[1..];
      assert b == [b[0]] + b[1..];
    }
  }

  lemma {:induction false} LemmaLexTransitive(a: seq<nat>, b: seq<nat>, c: seq<nat>)
    requires LexLe(a, b) && LexLe(b, c)
    ensures LexLe(a, c)
    decreases |a|
  {
    if |a| > 0 && a[0] == b[0] && b[0] == c[0] {
      LemmaLexTransitive(a[1..], b[1..], c[1..]);
    }
  }

  /** The order of `std::set<std::set<unsigned>>`. */
  predicate SetLe(a: set<nat>, b: set<nat>)
  {
    LexLe(Sorted(a), Sorted(b))
  }

  lemma LemmaSetLeAntisymmetric()
    ensures forall a, b :: SetLe(a, b) && SetLe(b, a) ==> a == b
  {
    forall a, b | SetLe(a, b) && SetLe(b, a)
      ensures a == b
    {
      LemmaLexAntisymmetric(Sorted(a), Sorted(b));
      LemmaSortedInjective(a, b);
    }
  }

  /** The empty set is below every set. */
  lemma LemmaEmptyLeast(a: set<nat>)
    requires SetLe(a, {})
    ensures a == {}
  {
    assert Sorted(a) == [];
    LemmaSorted(a);
  }

  lemma LemmaSetLeTotal(a: set<nat>, b: set<nat>)
    ensures SetLe(a, b) || SetLe(b, a)
  {
    LemmaLexTotal(Sorted(a), Sorted(b));
  }

  lemma LemmaSetLeTransitive(a: set<nat>, b: set<nat>, c: set<nat>)
    requires SetLe(a, b) && SetLe(b, c)
    ensures SetLe(a, c)
  {
    LemmaLexTransitive(Sorted(a), Sorted(b), Sorted(c));
  }

  /** `m` is the first member of `w` in the order of `SetLe`. */
  predicate IsLeastBlock(m: set<nat>, w: set<set<nat>>)
  {
    m in w && forall b :: b in w ==> SetLe(m, b)
  }

  /** Every finite non-empty family of sets has a least member. */
  lemma {:induction false} LemmaMinBlockExists(w: set<set<nat>>)
    requires w != {}
    ensures exists m :: IsLeastBlock(m, w)
    decreases w
  {
    var y :| y in w;
    LemmaSetLeTotal(y, y);
    if w == {y} {
      assert forall b :: b in w ==> b == y;
      assert IsLeastBlock(y, w);
    } else {
      LemmaMinBlockExists(w - {y});
      var m :| IsLeastBlock(m, w - {y});
      LemmaSetLeTotal(y, m);
      var least := if SetLe(y, m) then y else m;
      forall b | b in w
        ensures SetLe(least, b)
      {
        if b != y {
          assert b in w - {y};
          if least == y {
            LemmaSetLeTransitive(y, m, b);
          }
        }
      }
      assert IsLeastBlock(least, w);
    }
  }

  /** The first member of a `std::set<std::set<unsigned>>` (what `begin()`
      points to). */
  function MinBlock(w: set<set<nat>>): (m: set<nat>)
    requires w != {}
    ensures m in w
  {
    LemmaMinBlockExists(w);
    LemmaSetLeAntisymmetric();
    var m :| IsLeastBlock(m, w);
    m
  }

  /** `MinBlock` is below every member. */
  lemma LemmaMinBlockLeast(w: set<set<nat>>)
    requires w != {}
    ensures forall b :: b in w ==> SetLe(MinBlock(w), b)
  {
  }

  /** The members of a `std::set<std::set<unsigned>>` in iteration order. */
  function BlockOrder(p: set<set<nat>>): (q: seq<set<nat>>)
    ensures |q| == |p|
    ensures forall b :: b in q <==> b in p
    ensures forall i, j :: 0 <= i < j < |q| ==> q[i] != q[j]
    decreases p
  {
    if p == {} then []
    else
      var m := MinBlock(p);
      [m] + BlockOrder(p - {m})
  }

  /** The empty block, when present, is enumerated first. */
  lemma LemmaEmptyBlockFirst(p: set<set<nat>>)
    requires {} in p
    ensures |BlockOrder(p)| > 0 && BlockOrder(p)[0] == {}
  {
    var m := MinBlock(p);
    LemmaMinBlockLeast(p);
    LemmaEmptyLeast(m);
  }

  /** The iteration order is ascending in the order of `SetLe`. */
  lemma {:induction false} LemmaBlockOrderSorted(p: set<set<nat>>)
    ensures forall i, j :: 0 <= i < j < |BlockOrder(p)| ==> SetLe(BlockOrder(p)[i], BlockOrder(p)[j])
    decreases p
  {
    if p != {} {
      var m := MinBlock(p);
      var rest := BlockOrder(p - {m});
      LemmaBlockOrderSorted(p - {m});
      LemmaMinBlockLeast(p);
      forall j | 0 <= j < |rest|
        ensures SetLe(m, rest[j])
      {
        assert rest[j] in p;
      }
      LemmaConsSorted(m, rest);
      assert BlockOrder(p) == [m] + rest;
    }
  }

  /** A least set put in front of an ascending list keeps it ascending. */
  lemma LemmaConsSorted(m: set<nat>, rest: seq<set<nat>>)
    requires forall j :: 0 <= j < |rest| ==> SetLe(m, rest[j])
    requires forall i, j :: 0 <= i < j < |rest| ==> SetLe(rest[i], rest[j])
    ensures forall i, j :: 0 <= i < j < |[m] + rest| ==> SetLe(([m] + rest)[i], ([m] + rest)[j])
  {
    var q := [m] + rest;
    forall i, j | 0 <= i < j < |q|
      ensures SetLe(q[i], q[j])
    {
      if i == 0 {
        assert q[j] == rest[j - 1];
      } else {
        assert q[i] == rest[i - 1] && q[j] == rest[j - 1];
      }
    }
  }
}
