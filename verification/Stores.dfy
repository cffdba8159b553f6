/** A capped store seen as a function of the set of elements ever offered to it.
    Elements with the same slot compete, and only the slot's best survives; a
    truncation then decides which slots are kept. The chat ring buffer, a live
    placement log and a baked placement log are all instances. */
module Stores {
  import opened Choice

  datatype Store<!E(!new), !K(!new)> = Store(
    slot: E -> K,
    beats: (E, E) -> bool,
    keep: set<K> -> set<K>)
  {
    ghost predicate Lawful() {
      && (forall e :: !beats(e, e))
      && (forall a, b, c :: beats(a, b) && beats(b, c) ==> beats(a, c))
      && (forall a, b :: slot(a) == slot(b) && a != b ==> beats(a, b) || beats(b, a))
      && Contracts(keep) && Hereditary(keep) && PathIndependent(keep)
    }

    ghost function Slots(s: set<E>): set<K> {
      set e | e in s :: slot(e)
    }

    ghost predicate Best(s: set<E>, e: E) {
      e in s && forall f | f in s && slot(f) == slot(e) :: !beats(f, e)
    }

    ghost function Winners(s: set<E>): set<E> {
      set e | e in s && Best(s, e)
    }

    /** What a store holds after being offered exactly the elements of s. */
    ghost function Normal(s: set<E>): set<E> {
      set e | e in s && Best(s, e) && slot(e) in keep(Slots(s))
    }

    /** The slot winners that the truncation displaces. */
    ghost function Rest(s: set<E>): set<E> {
      set e | e in s && Best(s, e) && slot(e) !in keep(Slots(s))
    }

    lemma {:induction false} BestExists(s: set<E>, e: E) returns (w: E)
      requires Lawful() && e in s
      ensures Best(s, w) && slot(w) == slot(e) && (w == e || beats(w, e))
      decreases |s|
    {
      if Best(s, e) {
        w := e;
      } else {
        var f :| f in s && slot(f) == slot(e) && beats(f, e);
        w := BestExists(s - {e}, f);
      }
    }

    lemma SlotsOfUnion(a: set<E>, b: set<E>)
      ensures Slots(a + b) == Slots(a) + Slots(b)
    {
    }

    lemma SlotsOfNormal(s: set<E>)
      requires Lawful()
      ensures Slots(Normal(s)) == keep(Slots(s))
    {
      assert keep(Slots(s)) <= Slots(s);
      forall k | k in keep(Slots(s))
        ensures k in Slots(Normal(s))
      {
        var e :| e in s && slot(e) == k;
        var w := BestExists(s, e);
        assert w in Normal(s);
      }
    }

    /** A kept slot of a union that occurs in a is kept by a alone. */
    lemma KeptInPart(a: set<E>, b: set<E>, k: K)
      requires Lawful() && k in Slots(a) && k in keep(Slots(a + b))
      ensures k in keep(Slots(a))
    {
      SlotsOfUnion(a, b);
      assert Slots(a) <= Slots(a + b);
    }

    /** Truncating early changes nothing: the store after a and then b depends
        only on the union, although b meets a state already cut down. */
    lemma NormalAbsorbs(a: set<E>, b: set<E>)
      requires Lawful()
      ensures Normal(Normal(a) + b) == Normal(a + b)
    {
      var cut := Normal(a) + b;
      SlotsOfNormal(a);
      SlotsOfUnion(Normal(a), b);
      SlotsOfUnion(a, b);
      assert keep(Slots(cut)) == keep(Slots(a + b));
      forall e | e in Normal(a + b)
        ensures e in Normal(cut)
      {
        if e in a {
          KeptInPart(a, b, slot(e));
          assert Best(a, e);
        }
      }
      forall e | e in Normal(cut)
        ensures Best(a + b, e)
      {
        forall f | f in a + b && slot(f) == slot(e)
          ensures !beats(f, e)
        {
          if f in a {
            KeptInPart(a, b, slot(e));
            var w := BestExists(a, f);
            assert w in cut;
          }
        }
      }
    }

    /** Leaving elements out is harmless exactly when every survivor is still offered. */
    lemma OnlySurvivorsMatter(part: set<E>, all: set<E>)
      requires Lawful() && part <= all
      ensures Normal(part) == Normal(all) <==> Normal(all) <= part
    {
      if Normal(all) <= part {
        SlotsOfNormal(all);
        assert Slots(part) <= Slots(all);
        assert Slots(Normal(all)) <= Slots(part);
        assert keep(Slots(all)) + Slots(part) == Slots(part) && Slots(all) + Slots(part) == Slots(all);
        assert keep(keep(Slots(all)) + Slots(part)) == keep(Slots(all) + Slots(part));
        forall e | e in Normal(part)
          ensures e in Normal(all)
        {
          var w := BestExists(all, e);
          assert w in Normal(all);
        }
      }
    }

    /** Elements beaten in their own slot may be left out of what is offered. */
    lemma DropBeaten(z: set<E>, core: set<E>)
      requires Lawful() && core <= z
      requires forall e | e in z :: e in core || exists f :: f in core && slot(f) == slot(e) && beats(f, e)
      ensures Normal(z) == Normal(core)
    {
      assert Slots(z) == Slots(core);
      forall e | e in core && Best(core, e)
        ensures Best(z, e)
      {
        forall f | f in z && slot(f) == slot(e)
          ensures !beats(f, e)
        {
          if f !in core {
            var g :| g in core && slot(g) == slot(f) && beats(g, f);
          }
        }
      }
    }

    /** Two sets have the same normal form exactly when both hold every survivor of their union. */
    lemma SameNormal(x: set<E>, y: set<E>)
      requires Lawful()
      ensures Normal(x) == Normal(y) <==> Normal(x + y) <= x && Normal(x + y) <= y
    {
      hide Lawful, Normal;
      OnlySurvivorsMatter(x, x + y);
      OnlySurvivorsMatter(y, x + y);
      NormalAbsorbs(x, y);
      NormalAbsorbs(y, y);
      assert y + y == y;
    }

    /** A set with one element per slot, all of them kept, is already normal. */
    lemma AlreadyNormal(s: set<E>)
      requires Lawful() && keep(Slots(s)) == Slots(s)
      requires forall e, f | e in s && f in s && slot(e) == slot(f) :: e == f
      ensures Normal(s) == s
    {
      assert forall e | e in s :: slot(e) in Slots(s);
    }

    lemma RestInUnion(x: set<E>, y: set<E>, e: E)
      requires Lawful() && e in Rest(x + y)
      ensures e in Rest(x) + Rest(Normal(x) + y)
    {
      SlotsOfNormal(x);
      SlotsOfUnion(Normal(x), y);
      SlotsOfUnion(x, y);
      if e in x && e !in Normal(x) {
        assert Best(x, e);
      } else {
        assert Best(Normal(x) + y, e);
      }
    }

    /** What two rounds of truncation displace is, up to beaten duplicates, what
        one truncation of everything displaces. */
    lemma RestInRounds(x: set<E>, y: set<E>, e: E)
      requires Lawful() && e in Rest(x) + Rest(Normal(x) + y)
      ensures e in Rest(x + y) || exists f :: f in Rest(x + y) && slot(f) == slot(e) && beats(f, e)
    {
      SlotsOfNormal(x);
      SlotsOfUnion(Normal(x), y);
      SlotsOfUnion(x, y);
      assert slot(e) !in keep(Slots(x + y)) by {
        if e in Rest(x) && slot(e) in keep(Slots(x + y)) { KeptInPart(x, y, slot(e)); }
      }
      var w := BestExists(x + y, e);
      assert w in Rest(x + y);
    }
  }

  /** Beaten duplicates of what is already offered do not matter on top of any base. */
  lemma DropBeatenOver<E(!new), K(!new)>(st: Store<E, K>, base: set<E>, z: set<E>, core: set<E>)
    requires st.Lawful() && core <= z
    requires forall e | e in z :: e in core || exists f :: f in core && st.slot(f) == st.slot(e) && st.beats(f, e)
    ensures st.Normal(base + z) == st.Normal(base + core)
  {
    forall e | e in base + z
      ensures e in base + core || exists f :: f in base + core && st.slot(f) == st.slot(e) && st.beats(f, e)
    {
      if e !in base + core {
        var f :| f in core && st.slot(f) == st.slot(e) && st.beats(f, e);
        assert f in base + core;
      }
    }
    st.DropBeaten(base + z, base + core);
  }

  lemma RoundsCoverOnce<E(!new), K(!new)>(st: Store<E, K>, x: set<E>, y: set<E>)
    requires st.Lawful()
    ensures st.Rest(x + y) <= st.Rest(x) + st.Rest(st.Normal(x) + y)
    ensures forall e | e in st.Rest(x) + st.Rest(st.Normal(x) + y) ::
      e in st.Rest(x + y) || exists f :: f in st.Rest(x + y) && st.slot(f) == st.slot(e) && st.beats(f, e)
  {
    forall e | e in st.Rest(x + y)
      ensures e in st.Rest(x) + st.Rest(st.Normal(x) + y)
    {
      st.RestInUnion(x, y, e);
    }
    forall e | e in st.Rest(x) + st.Rest(st.Normal(x) + y)
      ensures e in st.Rest(x + y) || exists f :: f in st.Rest(x + y) && st.slot(f) == st.slot(e) && st.beats(f, e)
    {
      st.RestInRounds(x, y, e);
    }
  }

  /** Displacing in rounds fills a lower layer exactly as displacing at once. */
  lemma LowerLayerAbsorbs<E(!new), K(!new)>(
      upper: Store<E, K>, lower: Store<E, K>, base: set<E>, x: set<E>, y: set<E>)
    requires upper.Lawful() && lower.Lawful()
    requires lower.slot == upper.slot && lower.beats == upper.beats
    ensures lower.Normal(base + (upper.Rest(x) + upper.Rest(upper.Normal(x) + y)))
         == lower.Normal(base + upper.Rest(x + y))
  {
    RoundsCoverOnce(upper, x, y);
    DropBeatenOver(lower, base, upper.Rest(x) + upper.Rest(upper.Normal(x) + y), upper.Rest(x + y));
  }
}
