/** The greedy spacing filter behind the pixel cooldown and the chat rate limit:
    walk entries by ascending timestamp and accept each one that reaches the bar
    set by the last accepted. */
module Filter {

  ghost predicate ByTime<T>(es: seq<T>, ts: T -> nat) {
    forall i, j | 0 <= i < j < |es| :: ts(es[i]) <= ts(es[j])
  }

  /** lo is the least acceptable timestamp; accepting e raises it to bar(ts(e)). */
  function Greedy<T>(es: seq<T>, ts: T -> nat, bar: nat -> nat, lo: nat): seq<T> {
    if es == [] then []
    else if ts(es[0]) >= lo then [es[0]] + Greedy(es[1..], ts, bar, bar(ts(es[0])))
    else Greedy(es[1..], ts, bar, lo)
  }

  /** Every later member reaches the bar of every earlier one. */
  ghost predicate Spaced<T>(es: seq<T>, ts: T -> nat, bar: nat -> nat) {
    forall i, j | 0 <= i < j < |es| :: ts(es[j]) >= bar(ts(es[i]))
  }

  ghost predicate Rising(bar: nat -> nat) {
    forall x, y | x <= y :: bar(x) <= bar(y)
  }

  lemma {:induction false} GreedyMembers<T>(es: seq<T>, ts: T -> nat, bar: nat -> nat, lo: nat)
    requires Rising(bar) && forall e | e in es :: bar(ts(e)) >= ts(e)
    requires ByTime(es, ts)
    ensures forall e | e in Greedy(es, ts, bar, lo) :: e in es && ts(e) >= lo
  {
    if es != [] {
      assert es[0] in es;
      assert forall e | e in es[1..] :: e in es && ts(es[0]) <= ts(e);
      GreedyMembers(es[1..], ts, bar, bar(ts(es[0])));
      GreedyMembers(es[1..], ts, bar, lo);
    }
  }

  lemma {:induction false} GreedyFrom<T>(es: seq<T>, ts: T -> nat, bar: nat -> nat, lo: nat)
    ensures forall e | e in Greedy(es, ts, bar, lo) :: e in es
  {
    if es != [] {
      GreedyFrom(es[1..], ts, bar, bar(ts(es[0])));
      GreedyFrom(es[1..], ts, bar, lo);
    }
  }

  /** Accepted entries are pairwise spaced. */
  lemma {:induction false} GreedySpaced<T>(es: seq<T>, ts: T -> nat, bar: nat -> nat, lo: nat)
    requires Rising(bar) && forall e | e in es :: bar(ts(e)) >= ts(e)
    requires ByTime(es, ts)
    ensures Spaced(Greedy(es, ts, bar, lo), ts, bar)
  {
    if es != [] {
      hide Greedy, Rising, Spaced, ByTime;
      TailByTime(es, ts);
      GreedyUnfolds(es, ts, bar, lo);
      GreedySpaced(es[1..], ts, bar, lo);
      GreedySpaced(es[1..], ts, bar, bar(ts(es[0])));
      GreedyMembers(es[1..], ts, bar, bar(ts(es[0])));
      SpacedCons(es[0], Greedy(es[1..], ts, bar, bar(ts(es[0]))), ts, bar);
    } else {
      assert Greedy(es, ts, bar, lo) == [];
    }
  }

  lemma TailByTime<T>(es: seq<T>, ts: T -> nat)
    requires es != [] && ByTime(es, ts)
    ensures ByTime(es[1..], ts) && es[0] in es && forall e | e in es[1..] :: e in es && ts(es[0]) <= ts(e)
  {
  }

  lemma SpacedCons<T>(e: T, acc: seq<T>, ts: T -> nat, bar: nat -> nat)
    requires Spaced(acc, ts, bar) && forall a | a in acc :: ts(a) >= bar(ts(e))
    ensures Spaced([e] + acc, ts, bar)
  {
    assert forall j | 0 <= j < |acc| :: acc[j] in acc;
  }

  lemma GreedyUnfolds<T>(es: seq<T>, ts: T -> nat, bar: nat -> nat, lo: nat)
    requires es != []
    ensures ts(es[0]) >= lo ==> Greedy(es, ts, bar, lo) == [es[0]] + Greedy(es[1..], ts, bar, bar(ts(es[0])))
    ensures ts(es[0]) < lo ==> Greedy(es, ts, bar, lo) == Greedy(es[1..], ts, bar, lo)
  {
  }

  /** A wider bar accepts the same exactly where what the narrower one accepted reaches it. */
  lemma {:induction false} GreedyWider<T>(
      es: seq<T>, ts: T -> nat, bar: nat -> nat, bar': nat -> nat, lo: nat, lo': nat)
    requires lo <= lo' && forall t :: bar(t) <= bar'(t)
    requires Spaced(Greedy(es, ts, bar, lo), ts, bar') && forall e | e in Greedy(es, ts, bar, lo) :: ts(e) >= lo'
    ensures Greedy(es, ts, bar', lo') == Greedy(es, ts, bar, lo)
  {
    if es != [] {
      hide Greedy;
      GreedyUnfolds(es, ts, bar, lo);
      GreedyUnfolds(es, ts, bar', lo');
      var first, rest, acc := es[0], es[1..], Greedy(es, ts, bar, lo);
      if ts(first) >= lo {
        var tail := acc[1..];
        assert first in acc && tail == Greedy(rest, ts, bar, bar(ts(first)));
        forall e | e in tail
          ensures ts(e) >= bar'(ts(first))
        {
          var j :| 0 <= j < |tail| && tail[j] == e;
          assert ts(acc[j + 1]) >= bar'(ts(acc[0]));
        }
        forall i, j | 0 <= i < j < |tail|
          ensures ts(tail[j]) >= bar'(ts(tail[i]))
        {
          assert ts(acc[j + 1]) >= bar'(ts(acc[i + 1]));
        }
        GreedyWider(rest, ts, bar, bar', bar(ts(first)), bar'(ts(first)));
      } else {
        GreedyWider(rest, ts, bar, bar', lo, lo');
      }
    }
  }

  /** Every rejected entry falls short of lo or of an accepted entry before it. */
  lemma {:induction false} GreedyRejects<T>(
      es: seq<T>, ts: T -> nat, bar: nat -> nat, lo: nat, e: T)
    requires ByTime(es, ts) && e in es && e !in Greedy(es, ts, bar, lo)
    ensures ts(e) < lo || exists a :: a in Greedy(es, ts, bar, lo) && ts(a) <= ts(e) < bar(ts(a))
  {
    var first, rest := es[0], es[1..];
    if ts(first) >= lo {
      var acc := Greedy(rest, ts, bar, bar(ts(first)));
      assert first in [first] + acc && e != first && e in rest && e !in acc;
      GreedyRejects(rest, ts, bar, bar(ts(first)), e);
      if ts(e) >= bar(ts(first)) {
        var a :| a in acc && ts(a) <= ts(e) < bar(ts(a));
        assert a in [first] + acc;
      }
    } else if e != first {
      GreedyRejects(rest, ts, bar, lo, e);
    }
  }

  /** No spaced selection from the input is longer than the greedy one. */
  lemma {:induction false} GreedyOptimal<T>(
      es: seq<T>, ts: T -> nat, bar: nat -> nat, lo: nat, other: seq<T>)
    requires ByTime(es, ts) && Rising(bar)
    requires forall e | e in es :: bar(ts(e)) > ts(e)
    requires Spaced(other, ts, bar)
    requires forall e | e in other :: e in es && ts(e) >= lo
    ensures |other| <= |Greedy(es, ts, bar, lo)|
    decreases |es|
  {
    if other != [] {
      hide Greedy;
      assert other[0] in other;
      var first, rest := es[0], es[1..];
      GreedyUnfolds(es, ts, bar, lo);
      assert forall e | e in es :: e == first || e in rest;
      if ts(first) >= lo {
        forall e | e in other[1..]
          ensures e in rest && ts(e) >= bar(ts(first))
        {
          var j :| 0 < j < |other| && other[j] == e;
          assert e in other && bar(ts(first)) <= bar(ts(other[0])) <= ts(e);
          assert first in es;
        }
        GreedyOptimal(rest, ts, bar, bar(ts(first)), other[1..]);
      } else {
        assert forall e | e in other :: e in rest;
        GreedyOptimal(rest, ts, bar, lo, other);
      }
    }
  }

  // ---- Losing the oldest entries -----------------------------------------------------

  /** Starting later accepts no more. */
  lemma {:induction false} GreedyFewer<T>(es: seq<T>, ts: T -> nat, bar: nat -> nat, lo: nat, lo': nat)
    requires ByTime(es, ts) && Rising(bar) && lo <= lo'
    ensures |Greedy(es, ts, bar, lo')| <= |Greedy(es, ts, bar, lo)|
    decreases |es|
  {
    if es != [] {
      hide Greedy, ByTime;
      TailByTime(es, ts);
      GreedyUnfolds(es, ts, bar, lo);
      GreedyUnfolds(es, ts, bar, lo');
      var t := ts(es[0]);
      GreedyFewer(es[1..], ts, bar, lo, lo');
      if lo <= t < lo' { GreedyOneMore(es[1..], ts, bar, lo', bar(t)); }
    }
  }

  /** And at most one less, if every entry's own bar is at or past the later start. */
  lemma {:induction false} GreedyOneMore<T>(es: seq<T>, ts: T -> nat, bar: nat -> nat, lo: nat, lo': nat)
    requires ByTime(es, ts) && Rising(bar) && forall e | e in es :: lo' <= bar(ts(e))
    ensures |Greedy(es, ts, bar, lo)| <= |Greedy(es, ts, bar, lo')| + 1
    decreases |es|
  {
    if es != [] {
      hide Greedy, ByTime;
      TailByTime(es, ts);
      GreedyUnfolds(es, ts, bar, lo);
      GreedyUnfolds(es, ts, bar, lo');
      var t := ts(es[0]);
      GreedyOneMore(es[1..], ts, bar, lo, lo');
      GreedyOneMore(es[1..], ts, bar, lo, bar(t));
      if lo <= t < lo' { GreedyFewer(es[1..], ts, bar, lo', bar(t)); }
    }
  }

  /** From an entry that both accept, they accept the same. */
  lemma {:induction false} GreedyRejoins<T(!new)>(
      es: seq<T>, ts: T -> nat, bar: nat -> nat, lo: nat, lo': nat, i: nat, j: nat)
    requires forall m, n | 0 <= m < n < |es| :: es[m] != es[n]
    requires i < |Greedy(es, ts, bar, lo)| && j < |Greedy(es, ts, bar, lo')|
    requires Greedy(es, ts, bar, lo)[i] == Greedy(es, ts, bar, lo')[j]
    ensures Greedy(es, ts, bar, lo)[i..] == Greedy(es, ts, bar, lo')[j..]
  {
    hide Greedy;
    GreedyFrom(es, ts, bar, lo);
    assert Greedy(es, ts, bar, lo)[i] in Greedy(es, ts, bar, lo);
    GreedyUnfolds(es, ts, bar, lo);
    GreedyUnfolds(es, ts, bar, lo');
    GreedyFrom(es[1..], ts, bar, bar(ts(es[0])));
    GreedyFrom(es[1..], ts, bar, lo);
    GreedyFrom(es[1..], ts, bar, lo');
    assert es[0] !in es[1..];
    var x, y := ts(es[0]) >= lo, ts(es[0]) >= lo';
    var acc, acc' := Greedy(es, ts, bar, lo), Greedy(es, ts, bar, lo');
    assert x && i > 0 ==> acc[i] == acc[1..][i - 1] && acc[i] in acc[1..];
    assert y && j > 0 ==> acc'[j] == acc'[1..][j - 1] && acc'[j] in acc'[1..];
    if x && y {
      assert i == 0 <==> j == 0;
      if i > 0 {
        GreedyRejoins(es[1..], ts, bar, bar(ts(es[0])), bar(ts(es[0])), i - 1, j - 1);
      }
    } else if x {
      assert acc'[j] in acc';
      GreedyRejoins(es[1..], ts, bar, bar(ts(es[0])), lo', i - 1, j);
    } else if y {
      assert acc[i] in acc;
      GreedyRejoins(es[1..], ts, bar, lo, bar(ts(es[0])), i, j - 1);
    } else {
      GreedyRejoins(es[1..], ts, bar, lo, lo', i, j);
    }
  }

  /** The least acceptable timestamp after some entries. */
  function After<T>(es: seq<T>, ts: T -> nat, bar: nat -> nat, lo: nat): nat {
    var acc := Greedy(es, ts, bar, lo);
    if acc == [] then lo else bar(ts(acc[|acc| - 1]))
  }

  lemma {:induction false} GreedyConcat<T>(p: seq<T>, q: seq<T>, ts: T -> nat, bar: nat -> nat, lo: nat)
    ensures Greedy(p + q, ts, bar, lo) == Greedy(p, ts, bar, lo) + Greedy(q, ts, bar, After(p, ts, bar, lo))
    decreases |p|
  {
    if p == [] {
      assert p + q == q;
    } else {
      hide Greedy;
      assert (p + q)[1..] == p[1..] + q && (p + q)[0] == p[0];
      GreedyUnfolds(p, ts, bar, lo);
      GreedyUnfolds(p + q, ts, bar, lo);
      var next := if ts(p[0]) >= lo then bar(ts(p[0])) else lo;
      GreedyConcat(p[1..], q, ts, bar, next);
    }
  }

  /** Keeping the entries up to a cutoff. */
  function Until<T>(es: seq<T>, ts: T -> nat, cutoff: nat): seq<T> {
    if es == [] then []
    else (if ts(es[0]) <= cutoff then [es[0]] else []) + Until(es[1..], ts, cutoff)
  }

  lemma {:induction false} UntilMembers<T>(es: seq<T>, ts: T -> nat, cutoff: nat)
    ensures forall e | e in Until(es, ts, cutoff) :: e in es && ts(e) <= cutoff
    ensures forall e | e in es && ts(e) <= cutoff :: e in Until(es, ts, cutoff)
  {
    if es != [] {
      UntilMembers(es[1..], ts, cutoff);
      assert forall e | e in es :: e == es[0] || e in es[1..];
    }
  }

  /** In time order the entries up to the cutoff come first. */
  lemma {:induction false} UntilIsPrefix<T>(es: seq<T>, ts: T -> nat, cutoff: nat)
    requires ByTime(es, ts)
    ensures |Until(es, ts, cutoff)| <= |es| && es[..|Until(es, ts, cutoff)|] == Until(es, ts, cutoff)
    ensures forall i | |Until(es, ts, cutoff)| <= i < |es| :: ts(es[i]) > cutoff
  {
    if es != [] {
      hide Until;
      UntilStep(es, ts, cutoff);
      if ts(es[0]) <= cutoff {
        UntilIsPrefix(es[1..], ts, cutoff);
        assert es == [es[0]] + es[1..];
      } else {
        assert forall e | e in es :: ts(es[0]) <= ts(e);
        NoneUntil(es, ts, cutoff);
      }
    }
  }

  lemma {:induction false} UntilConcat<T>(p: seq<T>, q: seq<T>, ts: T -> nat, c: nat)
    ensures Until(p + q, ts, c) == Until(p, ts, c) + Until(q, ts, c)
  {
    if p == [] {
      assert p + q == q;
    } else {
      hide Until;
      assert (p + q)[1..] == p[1..] + q;
      UntilConcat(p[1..], q, ts, c);
      UntilStep(p, ts, c);
      UntilStep(p + q, ts, c);
    }
  }

  lemma UntilStep<T>(es: seq<T>, ts: T -> nat, c: nat)
    requires es != []
    ensures Until(es, ts, c) == (if ts(es[0]) <= c then [es[0]] else []) + Until(es[1..], ts, c)
  {
  }

  /** Cutting the history and then filtering is filtering and then cutting. */
  lemma {:induction false} CutoffCommutes<T>(
      es: seq<T>, ts: T -> nat, bar: nat -> nat, lo: nat, cutoff: nat)
    requires ByTime(es, ts)
    ensures Greedy(Until(es, ts, cutoff), ts, bar, lo) == Until(Greedy(es, ts, bar, lo), ts, cutoff)
    decreases |es|
  {
    if es != [] {
      var first, rest := es[0], es[1..];
      if ts(first) <= cutoff {
        assert Until(es, ts, cutoff) == [first] + Until(rest, ts, cutoff);
        assert Until(es, ts, cutoff)[1..] == Until(rest, ts, cutoff);
        if ts(first) >= lo {
          CutoffCommutes(rest, ts, bar, bar(ts(first)), cutoff);
          var acc := Greedy(rest, ts, bar, bar(ts(first)));
          assert ([first] + acc)[1..] == acc;
        } else {
          CutoffCommutes(rest, ts, bar, lo, cutoff);
        }
      } else {
        assert forall e | e in es :: ts(first) <= ts(e);
        NoneUntil(es, ts, cutoff);
        GreedyFrom(es, ts, bar, lo);
        NoneUntil(Greedy(es, ts, bar, lo), ts, cutoff);
      }
    }
  }

  lemma {:induction false} NoneUntil<T>(es: seq<T>, ts: T -> nat, cutoff: nat)
    requires forall e | e in es :: ts(e) > cutoff
    ensures Until(es, ts, cutoff) == []
  {
    if es != [] {
      assert es[0] in es;
      NoneUntil(es[1..], ts, cutoff);
    }
  }

  // ---- Fixed gaps --------------------------------------------------------------

  function Plus(gap: nat): nat -> nat { (t: nat) => t + gap }

  /** Entries a fixed gap apart: the count is at most 1 + (newest - oldest) / gap. */
  lemma {:induction false} SpacedCount<T>(es: seq<T>, ts: T -> nat, gap: nat)
    requires gap > 0 && es != [] && Spaced(es, ts, Plus(gap))
    ensures ts(es[0]) <= ts(es[|es| - 1])
    ensures |es| <= 1 + (ts(es[|es| - 1]) - ts(es[0])) / gap
  {
    SpacedSpan(es, ts, gap);
    var span := ts(es[|es| - 1]) - ts(es[0]);
    assert (|es| - 1) * gap <= span;
    DivideBound(|es| - 1, gap, span);
  }

  lemma DivideBound(n: nat, gap: nat, span: nat)
    requires gap > 0 && n * gap <= span
    ensures n <= span / gap
  {
    if n > span / gap { TooMany(n, gap, span); }
  }

  lemma TooMany(n: nat, gap: nat, span: nat)
    requires gap > 0 && n > span / gap
    ensures n * gap > span
  {
    var q := span / gap;
    assert n * gap == (q + 1) * gap + (n - q - 1) * gap;
    assert (n - q - 1) * gap >= 0;
    assert span == q * gap + span % gap;
  }

  lemma {:induction false} SpacedSpan<T>(es: seq<T>, ts: T -> nat, gap: nat)
    requires es != [] && Spaced(es, ts, Plus(gap))
    ensures ts(es[0]) + (|es| - 1) * gap <= ts(es[|es| - 1])
  {
    if |es| > 1 {
      var init := es[..|es| - 1];
      SpacedSpan(init, ts, gap);
      assert ts(es[|es| - 1]) >= Plus(gap)(ts(es[|es| - 2]));
      assert (|es| - 1) * gap == (|init| - 1) * gap + gap;
    }
  }
}
