/** Truncation as a choice function on finite key sets: the newest k keys, the
    newest k keys of every group, and the nesting of the two. The point is path
    independence: truncating early never changes what a later truncation keeps.
    It is derived from two simpler laws, heredity (a key kept from a set is kept
    from any subset holding it) and size monotonicity. */
module Choice {
  import opened Orders

  ghost function Above<K(!new)>(lt: (K, K) -> bool, s: set<K>, x: K): set<K> {
    set y | y in s && lt(x, y)
  }

  /** The k greatest members of s. */
  ghost function Top<K(!new)>(lt: (K, K) -> bool, s: set<K>, k: nat): set<K> {
    set x | x in s && |Above(lt, s, x)| < k
  }

  lemma SubsetSize<K>(a: set<K>, b: set<K>)
    requires a <= b
    ensures |a| <= |b|
    ensures |a| == |b| ==> a == b
  {
    assert b == a + (b - a);
    assert |b| == |a| + |b - a|;
  }

  lemma TopSmall<K(!new)>(lt: (K, K) -> bool, s: set<K>, k: nat)
    requires StrictTotal(lt) && |s| <= k
    ensures Top(lt, s, k) == s
  {
    forall x | x in s
      ensures |Above(lt, s, x)| < k
    {
      SubsetSize(Above(lt, s, x), s - {x});
    }
  }

  /** Dropping the least key of an oversized set leaves its top unchanged. */
  lemma TopDropLeast<K(!new)>(lt: (K, K) -> bool, s: set<K>, k: nat, m: K)
    requires StrictTotal(lt) && |s| > k
    requires m in s && forall y | y in s && y != m :: lt(m, y)
    ensures Top(lt, s, k) == Top(lt, s - {m}, k)
  {
    assert Above(lt, s, m) == s - {m};
    forall x | x in s && x != m
      ensures Above(lt, s, x) == Above(lt, s - {m}, x)
    {
      assert !lt(x, m);
    }
  }

  lemma {:induction false} TopSize<K(!new)>(lt: (K, K) -> bool, s: set<K>, k: nat)
    requires StrictTotal(lt)
    ensures |Top(lt, s, k)| == if |s| <= k then |s| else k
    decreases |s|
  {
    if |s| <= k {
      TopSmall(lt, s, k);
    } else {
      LeastExists(lt, s);
      var m :| m in s && forall y | y in s && y != m :: lt(m, y);
      TopDropLeast(lt, s, k, m);
      TopSize(lt, s - {m}, k);
    }
  }

  /** Truncation keeps the tail of the ascending enumeration. */
  lemma {:induction false} TopIsTail<K(!new)>(lt: (K, K) -> bool, s: set<K>, k: nat, excess: nat)
    requires StrictTotal(lt) && excess == if |s| > k then |s| - k else 0
    ensures Top(lt, s, k) == Elems(Sorted(lt, s)[excess..])
    decreases |s|
  {
    var q := Sorted(lt, s);
    if |s| <= k {
      TopSmall(lt, s, k);
      assert q[excess..] == q;
    } else {
      var m := Least(lt, s);
      var p := Sorted(lt, s - {m});
      assert q[excess..] == p[excess - 1..] by { assert q == [m] + p; }
      TopIsTail(lt, s - {m}, k, excess - 1);
      TopDropLeast(lt, s, k, m);
    }
  }

  /** So it drops the head. */
  lemma TopDropsHead<K(!new)>(lt: (K, K) -> bool, s: set<K>, k: nat, excess: nat)
    requires StrictTotal(lt) && excess == if |s| > k then |s| - k else 0
    ensures s - Elems(Sorted(lt, s)[..excess]) == Top(lt, s, k)
  {
    TopIsTail(lt, s, k, excess);
    AscendingSplit(lt, Sorted(lt, s), excess);
  }

  lemma AscendingSplit<K(!new)>(lt: (K, K) -> bool, q: seq<K>, i: nat)
    requires StrictTotal(lt) && Ascending(lt, q) && i <= |q|
    ensures Elems(q) - Elems(q[..i]) == Elems(q[i..])
  {
    assert q == q[..i] + q[i..];
    ElemsConcat(q[..i], q[i..]);
    forall x | x in Elems(q[..i])
      ensures x !in Elems(q[i..])
    {
      var a :| 0 <= a < i && q[a] == x;
      forall b | i <= b < |q|
        ensures q[b] != x
      {
        assert lt(q[a], q[b]);
      }
    }
  }

  lemma ImageSize<K(!new), L(!new)>(f: K -> L, s: set<K>)
    requires forall x, y | x in s && y in s && f(x) == f(y) :: x == y
    ensures |set x | x in s :: f(x)| == |s|
    decreases |s|
  {
    var image := set x | x in s :: f(x);
    if s == {} {
      assert image == {};
    } else {
      var x :| x in s;
      var rest := set y | y in s - {x} :: f(y);
      ImageSize(f, s - {x});
      assert image == rest + {f(x)};
      assert f(x) !in rest;
    }
  }

  ghost function Image<K(!new), L(!new)>(f: K -> L, s: set<K>): set<L> {
    set x | x in s :: f(x)
  }

  /** f maps the order of s faithfully into the other order. */
  ghost predicate Embeds<K(!new), L(!new)>(lt: (K, K) -> bool, lt': (L, L) -> bool, f: K -> L, s: set<K>) {
    forall x, y | x in s && y in s :: (lt'(f(x), f(y)) <==> lt(x, y)) && (f(x) == f(y) ==> x == y)
  }

  /** Truncation commutes with an order embedding. */
  lemma TopImage<K(!new), L(!new)>(
      lt: (K, K) -> bool, lt': (L, L) -> bool, f: K -> L, s: set<K>, k: nat)
    requires Embeds(lt, lt', f, s)
    ensures Top(lt', Image(f, s), k) == Image(f, Top(lt, s, k))
  {
    forall x | x in s
      ensures |Above(lt', Image(f, s), f(x))| == |Above(lt, s, x)|
    {
      assert Above(lt', Image(f, s), f(x)) == set y | y in Above(lt, s, x) :: f(y);
      ImageSize(f, Above(lt, s, x));
    }
  }

  lemma TopHeredity<K(!new)>(lt: (K, K) -> bool, a: set<K>, b: set<K>, k: nat, x: K)
    requires a <= b && x in a && x in Top(lt, b, k)
    ensures x in Top(lt, a, k)
  {
    SubsetSize(Above(lt, a, x), Above(lt, b, x));
  }

  /** Every kept key is above every dropped one. */
  lemma TopAboveRest<K(!new)>(lt: (K, K) -> bool, s: set<K>, k: nat, x: K, y: K)
    requires StrictTotal(lt) && x in s && x !in Top(lt, s, k) && y in Top(lt, s, k)
    ensures lt(x, y)
  {
    if lt(y, x) {
      SubsetSize(Above(lt, s, x), Above(lt, s, y));
    }
  }

  // ---- The laws, and path independence ------------------------------------

  ghost predicate Contracts<K(!new)>(keep: set<K> -> set<K>) {
    forall s :: keep(s) <= s
  }

  ghost predicate Hereditary<K(!new)>(keep: set<K> -> set<K>) {
    forall a, b, x | a <= b && x in a && x in keep(b) :: x in keep(a)
  }

  ghost predicate SizeMonotone<K(!new)>(keep: set<K> -> set<K>) {
    forall a, b | a <= b :: |keep(a)| <= |keep(b)|
  }

  ghost predicate PathIndependent<K(!new)>(keep: set<K> -> set<K>) {
    forall a, b {:trigger keep(keep(a) + b)} :: keep(keep(a) + b) == keep(a + b)
  }

  /** Between what is kept and the whole set, the choice does not change. */
  lemma Sandwich<K(!new)>(keep: set<K> -> set<K>, a: set<K>, b: set<K>)
    requires Contracts(keep) && Hereditary(keep) && SizeMonotone(keep)
    requires keep(b) <= a <= b
    ensures keep(a) == keep(b)
  {
    assert forall x | x in keep(b) :: x in keep(a);
    assert |keep(a)| <= |keep(b)|;
    SubsetSize(keep(b), keep(a));
  }

  lemma PathIndependence<K(!new)>(keep: set<K> -> set<K>)
    requires Contracts(keep) && Hereditary(keep) && SizeMonotone(keep)
    ensures PathIndependent(keep)
  {
    forall a, b
      ensures keep(keep(a) + b) == keep(a + b)
    {
      assert keep(a) <= a && keep(a + b) <= a + b;
      forall x | x in keep(a + b)
        ensures x in keep(a) + b
      {
        if x in a { assert a <= a + b; }
      }
      Sandwich(keep, keep(a) + b, a + b);
    }
  }

  // ---- Per-group truncation ------------------------------------------------

  ghost function Group<K(!new), G(!new)>(group: K -> G, s: set<K>, g: G): set<K> {
    set x | x in s && group(x) == g
  }

  /** The k greatest members of every group. */
  ghost function GroupTop<K(!new), G(!new)>(
    lt: (K, K) -> bool, group: K -> G, s: set<K>, k: nat): set<K>
  {
    set x | x in s && x in Top(lt, Group(group, s, group(x)), k)
  }

  /** Cutting one group out of a set splits its per-group top in two. */
  lemma GroupTopSplit<K(!new), G(!new)>(
      lt: (K, K) -> bool, group: K -> G, s: set<K>, k: nat, g: G)
    requires StrictTotal(lt)
    ensures |GroupTop(lt, group, s, k)|
         == |GroupTop(lt, group, s - Group(group, s, g), k)| + |Top(lt, Group(group, s, g), k)|
  {
    var mine := Group(group, s, g);
    var others := s - mine;
    forall x | x in others
      ensures Group(group, s, group(x)) == Group(group, others, group(x))
    {
    }
    assert GroupTop(lt, group, s, k)
        == GroupTop(lt, group, others, k) + Top(lt, mine, k);
    assert GroupTop(lt, group, others, k) !! Top(lt, mine, k);
  }

  lemma {:induction false} GroupTopSizeMonotone<K(!new), G(!new)>(
      lt: (K, K) -> bool, group: K -> G, a: set<K>, b: set<K>, k: nat)
    requires StrictTotal(lt) && a <= b
    ensures |GroupTop(lt, group, a, k)| <= |GroupTop(lt, group, b, k)|
    decreases |b|
  {
    if b == {} {
      assert a == {};
    } else {
      var x :| x in b;
      var g := group(x);
      var mineA, mineB := Group(group, a, g), Group(group, b, g);
      GroupTopSplit(lt, group, a, k, g);
      GroupTopSplit(lt, group, b, k, g);
      TopSize(lt, mineA, k);
      TopSize(lt, mineB, k);
      SubsetSize(mineA, mineB);
      assert x in mineB && x !in b - mineB;
      SubsetSize(b - mineB, b);
      GroupTopSizeMonotone(lt, group, a - mineA, b - mineB, k);
    }
  }

  lemma GroupTopHeredity<K(!new), G(!new)>(
      lt: (K, K) -> bool, group: K -> G, a: set<K>, b: set<K>, k: nat, x: K)
    requires a <= b && x in a && x in GroupTop(lt, group, b, k)
    ensures x in GroupTop(lt, group, a, k)
  {
    TopHeredity(lt, Group(group, a, group(x)), Group(group, b, group(x)), k, x);
  }

  // ---- Nested truncation ---------------------------------------------------

  /** Newest k of every group, then the newest n of what is left. */
  ghost function Nested<K(!new), G(!new)>(
    lt: (K, K) -> bool, group: K -> G, s: set<K>, n: nat, k: nat): set<K>
  {
    Top(lt, GroupTop(lt, group, s, k), n)
  }

  /** A key's rank inside its group depends only on greater keys, so the keys
      above x that survive the group cap are the survivors of the keys above x. */
  lemma AboveGroupTop<K(!new), G(!new)>(
      lt: (K, K) -> bool, group: K -> G, s: set<K>, k: nat, x: K)
    requires StrictTotal(lt)
    ensures Above(lt, GroupTop(lt, group, s, k), x) == GroupTop(lt, group, Above(lt, s, x), k)
  {
    var high := Above(lt, s, x);
    forall y | y in high
      ensures y in GroupTop(lt, group, s, k) <==> y in GroupTop(lt, group, high, k)
    {
      assert Above(lt, Group(group, s, group(y)), y) == Above(lt, Group(group, high, group(y)), y);
    }
  }

  lemma NestedHeredity<K(!new), G(!new)>(
      lt: (K, K) -> bool, group: K -> G, a: set<K>, b: set<K>, n: nat, k: nat, x: K)
    requires StrictTotal(lt) && a <= b && x in a && x in Nested(lt, group, b, n, k)
    ensures x in Nested(lt, group, a, n, k)
  {
    GroupTopHeredity(lt, group, a, b, k, x);
    AboveGroupTop(lt, group, a, k, x);
    AboveGroupTop(lt, group, b, k, x);
    GroupTopSizeMonotone(lt, group, Above(lt, a, x), Above(lt, b, x), k);
  }

  lemma NestedSizeMonotone<K(!new), G(!new)>(
      lt: (K, K) -> bool, group: K -> G, a: set<K>, b: set<K>, n: nat, k: nat)
    requires StrictTotal(lt) && a <= b
    ensures |Nested(lt, group, a, n, k)| <= |Nested(lt, group, b, n, k)|
  {
    GroupTopSizeMonotone(lt, group, a, b, k);
    TopSize(lt, GroupTop(lt, group, a, k), n);
    TopSize(lt, GroupTop(lt, group, b, k), n);
  }

  /** Sets already within both caps are left alone. */
  lemma NestedWithinCaps<K(!new), G(!new)>(
      lt: (K, K) -> bool, group: K -> G, s: set<K>, n: nat, k: nat)
    requires StrictTotal(lt) && |s| <= n
    requires forall x | x in s :: |Group(group, s, group(x))| <= k
    ensures Nested(lt, group, s, n, k) == s
  {
    forall x | x in s
      ensures x in GroupTop(lt, group, s, k)
    {
      TopSmall(lt, Group(group, s, group(x)), k);
    }
    assert GroupTop(lt, group, s, k) == s;
    TopSmall(lt, s, n);
  }

  lemma GroupsSplit<K(!new), G(!new)>(group: K -> G, s: set<K>, x: K)
    requires x in s
    ensures |Image(group, s)| == |Image(group, s - Group(group, s, group(x)))| + 1
  {
    var g := group(x);
    var groups, rest := Image(group, s), Image(group, s - Group(group, s, g));
    assert groups == rest + {g};
    assert g !in rest;
  }

  /** Distinct groups times k bounds what the group cap lets through. */
  lemma {:induction false} GroupTopTotal<K(!new), G(!new)>(
      lt: (K, K) -> bool, group: K -> G, s: set<K>, k: nat)
    requires StrictTotal(lt)
    ensures |GroupTop(lt, group, s, k)| <= |Image(group, s)| * k
    decreases |s|
  {
    if s == {} {
      assert GroupTop(lt, group, s, k) == {};
    } else {
      var x :| x in s;
      var mine := Group(group, s, group(x));
      assert x in mine;
      SubsetSize(s - mine, s);
      hide *;
      GroupTopSplit(lt, group, s, k, group(x));
      TopSize(lt, mine, k);
      GroupTopTotal(lt, group, s - mine, k);
      GroupsSplit(group, s, x);
      OneMore(|Image(group, s - mine)|, k);
    }
  }

  lemma OneMore(n: nat, k: nat)
    ensures (n + 1) * k == n * k + k
  {
  }

  /** Keys whose rank lies between n - k and n: at most k of them. */
  lemma BandSize<K(!new)>(lt: (K, K) -> bool, s: set<K>, n: nat, k: nat)
    requires StrictTotal(lt) && k <= n
    ensures |Top(lt, s, n) - Top(lt, s, n - k)| <= k
  {
    hide Top, StrictTotal;
    TopSize(lt, s, n);
    TopSize(lt, s, n - k);
    TopGrows(lt, s, n - k, n);
    DifferenceSize(Top(lt, s, n), Top(lt, s, n - k));
  }

  lemma TopGrows<K(!new)>(lt: (K, K) -> bool, s: set<K>, k: nat, n: nat)
    requires k <= n
    ensures Top(lt, s, k) <= Top(lt, s, n)
  {
  }

  lemma DifferenceSize<K>(a: set<K>, b: set<K>)
    requires b <= a
    ensures |a - b| == |a| - |b|
  {
    assert a == (a - b) + b;
  }

  /** A key of another group pushed out by the flood had its rank in that band. */
  lemma LostInBand<K(!new), G(!new)>(
      lt: (K, K) -> bool, group: K -> G, x: set<K>, f: set<K>, g: G, n: nat, k: nat, v: K)
    requires StrictTotal(lt) && k <= n && forall y | y in f :: group(y) == g
    requires v in Nested(lt, group, x, n, k) && group(v) != g && v !in Nested(lt, group, x + f, n, k)
    ensures var others := set y | y in GroupTop(lt, group, x, k) && group(y) != g;
      v in Top(lt, others, n) - Top(lt, others, n - k)
  {
    var others := set y | y in GroupTop(lt, group, x, k) && group(y) != g;
    OthersKeepRank(lt, group, x, f, g, k);
    FloodShift(lt, group, x, f, g, k, v);
    assert v in others;
    assert v in set y | y in GroupTop(lt, group, x + f, k) && group(y) != g;
    SubsetSize(Above(lt, others, v), Above(lt, GroupTop(lt, group, x, k), v));
  }

  ghost function Lost<K(!new), G(!new)>(
    lt: (K, K) -> bool, group: K -> G, x: set<K>, f: set<K>, g: G, n: nat, k: nat): set<K>
  {
    set y | y in Nested(lt, group, x, n, k) && group(y) != g && y !in Nested(lt, group, x + f, n, k)
  }

  /** Keys of one group push at most k keys of the other groups out of a nested truncation. */
  lemma FloodBound<K(!new), G(!new)>(
      lt: (K, K) -> bool, group: K -> G, x: set<K>, f: set<K>, g: G, n: nat, k: nat)
    requires StrictTotal(lt) && forall y | y in f :: group(y) == g
    ensures |Lost(lt, group, x, f, g, n, k)| <= k
  {
    hide StrictTotal, GroupTop, Above, Top;
    var lost := Lost(lt, group, x, f, g, n, k);
    if n < k {
      TopSize(lt, GroupTop(lt, group, x, k), n);
      SubsetSize(lost, Top(lt, GroupTop(lt, group, x, k), n));
    } else {
      var others := set y | y in GroupTop(lt, group, x, k) && group(y) != g;
      forall v | v in lost
        ensures v in Top(lt, others, n) - Top(lt, others, n - k)
      {
        LostInBand(lt, group, x, f, g, n, k, v);
      }
      BandSize(lt, others, n, k);
      SubsetSize(lost, Top(lt, others, n) - Top(lt, others, n - k));
    }
  }

  lemma OthersKeepRank<K(!new), G(!new)>(
      lt: (K, K) -> bool, group: K -> G, x: set<K>, f: set<K>, g: G, k: nat)
    requires forall y | y in f :: group(y) == g
    ensures (set y | y in GroupTop(lt, group, x + f, k) && group(y) != g)
         == (set y | y in GroupTop(lt, group, x, k) && group(y) != g)
  {
    forall y | y in x && group(y) != g
      ensures Group(group, x + f, group(y)) == Group(group, x, group(y))
    {
    }
  }

  lemma FloodShift<K(!new), G(!new)>(
      lt: (K, K) -> bool, group: K -> G, x: set<K>, f: set<K>, g: G, k: nat, v: K)
    requires StrictTotal(lt) && forall y | y in f :: group(y) == g
    ensures var others := set y | y in GroupTop(lt, group, x, k) && group(y) != g;
      |Above(lt, GroupTop(lt, group, x + f, k), v)| <= |Above(lt, others, v)| + k
  {
    var after := GroupTop(lt, group, x + f, k);
    var others := set y | y in GroupTop(lt, group, x, k) && group(y) != g;
    OthersKeepRank(lt, group, x, f, g, k);
    var mine := Top(lt, Group(group, x + f, g), k);
    TopSize(lt, Group(group, x + f, g), k);
    SubsetSize(Above(lt, after, v), Above(lt, others, v) + mine);
    assert |Above(lt, others, v) + mine| <= |Above(lt, others, v)| + |mine|;
  }
}
