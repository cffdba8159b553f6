/** Strict total orders, and the ascending enumeration of a finite set under one.
    Every ordered map of the program (BTreeMap, or a JavaScript Map read back
    through sort()) is modelled as a Dafny map that is walked in this order. */
module Orders {

  ghost predicate StrictTotal<K(!new)>(lt: (K, K) -> bool) {
    && (forall x :: !lt(x, x))
    && (forall x, y, z :: lt(x, y) && lt(y, z) ==> lt(x, z))
    && (forall x, y :: x != y ==> lt(x, y) || lt(y, x))
  }

  lemma {:induction false} LeastExists<K(!new)>(lt: (K, K) -> bool, s: set<K>)
    requires StrictTotal(lt) && s != {}
    ensures exists m :: m in s && forall y | y in s && y != m :: lt(m, y)
  {
    var x :| x in s;
    var rest := s - {x};
    if rest == {} {
      assert s == {x};
    } else {
      LeastExists(lt, rest);
      var m :| m in rest && forall y | y in rest && y != m :: lt(m, y);
      var least := if lt(x, m) then x else m;
      forall y | y in s && y != least
        ensures lt(least, y)
      {
        assert y == x || y in rest;
        if y != x && least == x && y != m { assert lt(m, y); }
      }
    }
  }

  /** The first key of an ordered map. */
  function Least<K(==,!new)>(lt: (K, K) -> bool, s: set<K>): (m: K)
    requires StrictTotal(lt) && s != {}
    ensures m in s && forall y | y in s && y != m :: lt(m, y)
  {
    LeastExists(lt, s);
    var m :| m in s && forall y | y in s && y != m :: lt(m, y);
    m
  }

  ghost predicate Ascending<K(!new)>(lt: (K, K) -> bool, q: seq<K>) {
    forall i, j | 0 <= i < j < |q| :: lt(q[i], q[j])
  }

  function Elems<T>(q: seq<T>): set<T> {
    set x | x in q
  }

  lemma UnionAssociates<T>(a: set<T>, b: set<T>, c: set<T>)
    ensures a + b + c == a + (b + c)
  {
  }

  lemma MinusOne<T>(a: set<T>, b: set<T>, x: T)
    ensures a - b - {x} == a - (b + {x})
  {
  }

  lemma Regroup<T>(p: seq<T>, x: T, q: seq<T>)
    ensures p + ([x] + q) == (p + [x]) + q
  {
  }

  lemma DropHead<T>(q: seq<T>, i: nat)
    requires i < |q|
    ensures q[i..][0] == q[i] && q[i..][1..] == q[i + 1..] && q[i] in q
  {
  }

  lemma DropNothing<T>(q: seq<T>)
    ensures q[0..] == q && q[..|q|] == q && q[..0] == []
  {
  }

  lemma ElemsTake<T>(q: seq<T>, i: nat)
    requires i < |q|
    ensures Elems(q[..i + 1]) == Elems(q[..i]) + {q[i]}
  {
    assert q[..i + 1] == q[..i] + [q[i]];
  }

  lemma ElemsAll<T>(q: seq<T>)
    ensures Elems(q[..|q|]) == Elems(q) && Elems(q[..0]) == {}
  {
    assert q[..|q|] == q;
  }

  lemma ElemsSnoc<T>(q: seq<T>, x: T)
    ensures Elems(q + [x]) == Elems(q) + {x}
  {
  }

  lemma ElemsAre<T>(q: seq<T>)
    ensures forall x :: x in Elems(q) <==> x in q
  {
  }

  lemma ElemsNone<T>(q: seq<T>)
    ensures Elems(q) == {} <==> q == []
  {
    if q != [] { assert q[0] in Elems(q); }
  }

  lemma ElemsConcat<T>(p: seq<T>, q: seq<T>)
    ensures Elems(p + q) == Elems(p) + Elems(q)
  {
  }

  lemma AscendingCons<K(!new)>(lt: (K, K) -> bool, m: K, q: seq<K>)
    requires Ascending(lt, q) && forall x | x in Elems(q) :: lt(m, x)
    ensures Ascending(lt, [m] + q) && Elems([m] + q) == {m} + Elems(q)
  {
    assert forall j | 0 <= j < |q| :: q[j] in Elems(q);
    ElemsConcat([m], q);
  }

  /** The keys of an ordered map, in iteration order. */
  function Sorted<K(==,!new)>(lt: (K, K) -> bool, s: set<K>): (q: seq<K>)
    requires StrictTotal(lt)
    ensures Ascending(lt, q)
    ensures Elems(q) == s
    ensures |q| == |s|
    decreases |s|
  {
    if s == {} then [] else
      var m := Least(lt, s);
      var rest := s - {m};
      AscendingCons(lt, m, Sorted(lt, rest));
      [m] + Sorted(lt, rest)
  }

  /** Only one ascending sequence lists given members; asymmetry is enough for this. */
  lemma {:induction false} AscendingUnique<K(!new)>(lt: (K, K) -> bool, p: seq<K>, q: seq<K>)
    requires forall x, y :: !(lt(x, y) && lt(y, x))
    requires Ascending(lt, p) && Ascending(lt, q)
    requires forall x :: x in p <==> x in q
    ensures p == q
  {
    if p != [] { assert p[0] in q; }
    if q != [] { assert q[0] in p; }
    if p != [] && q != [] {
      assert p[0] == q[0];
      forall x
        ensures x in p[1..] <==> x in q[1..]
      {
        if x in p[1..] { assert x in p; assert x in q && x != q[0]; }
        if x in q[1..] { assert x in q; assert x in p && x != p[0]; }
      }
      AscendingUnique(lt, p[1..], q[1..]);
      assert p == [p[0]] + p[1..] && q == [q[0]] + q[1..];
    }
  }
}
