/** Two capped stores stacked: what the upper one displaces falls into the lower one.
    A state is the pair of what both hold. Inserting, baking and merging are all the
    same join, which associates and commutes on arbitrary pairs and is idempotent
    exactly where both layers are already settled. */
module Layers {
  import opened Choice
  import opened Stores
  import opened Orders

  datatype Pair<E> = Pair(live: set<E>, baked: set<E>)

  datatype Stack<!E(!new), !K(!new)> = Stack(upper: Store<E, K>, lower: Store<E, K>)
  {
    ghost predicate Lawful() {
      && upper.Lawful() && lower.Lawful()
      && lower.slot == upper.slot && lower.beats == upper.beats
    }

    ghost function Join(a: Pair<E>, b: Pair<E>): Pair<E> {
      Pair(upper.Normal(a.live + b.live),
           lower.Normal(a.baked + b.baked + upper.Rest(a.live + b.live)))
    }

    ghost predicate Settled(a: Pair<E>) {
      upper.Normal(a.live) == a.live && lower.Normal(a.baked) == a.baked
    }

    /** The state built from a history of insertions alone. */
    ghost function From(history: set<E>): Pair<E> {
      Join(Pair(history, {}), Pair({}, {}))
    }

    lemma JoinCommutes(a: Pair<E>, b: Pair<E>)
      ensures Join(a, b) == Join(b, a)
    {
      assert a.live + b.live == b.live + a.live;
      assert a.baked + b.baked == b.baked + a.baked;
    }

    /** Left-nested joins depend only on the unions of the layers. */
    lemma JoinTwice(a: Pair<E>, b: Pair<E>, c: Pair<E>)
      requires Lawful()
      ensures Join(Join(a, b), c) ==
        Pair(upper.Normal(a.live + b.live + c.live),
             lower.Normal(a.baked + b.baked + c.baked + upper.Rest(a.live + b.live + c.live)))
    {
      hide Store.Lawful, Store.Normal, Store.Rest;
      var x, y := a.live + b.live, c.live;
      upper.NormalAbsorbs(x, y);
      var first, second := upper.Rest(x), upper.Rest(upper.Normal(x) + y);
      var before, added := a.baked + b.baked + first, c.baked + second;
      lower.NormalAbsorbs(before, added);
      assert lower.Normal(before) + c.baked + second == lower.Normal(before) + added;
      var base := a.baked + b.baked + c.baked;
      LowerLayerAbsorbs(upper, lower, base, x, y);
      assert before + added == base + (first + second);
    }

    lemma JoinAssociates(a: Pair<E>, b: Pair<E>, c: Pair<E>)
      requires Lawful()
      ensures Join(Join(a, b), c) == Join(a, Join(b, c))
    {
      hide Lawful, Join, Store.Normal, Store.Rest;
      JoinTwice(a, b, c);
      JoinTwice(b, c, a);
      JoinCommutes(a, Join(b, c));
      assert a.live + b.live + c.live == b.live + c.live + a.live;
      assert a.baked + b.baked + c.baked == b.baked + c.baked + a.baked;
    }

    lemma RestOfSettled(x: set<E>)
      requires Lawful() && upper.Normal(x) == x
      ensures upper.Rest(x) == {}
    {
      assert forall e | e in x :: e in upper.Normal(x);
    }

    lemma NormalOfNormal(x: set<E>)
      requires Lawful()
      ensures upper.Normal(upper.Normal(x)) == upper.Normal(x)
      ensures lower.Normal(lower.Normal(x)) == lower.Normal(x)
    {
      upper.NormalAbsorbs(x, {});
      lower.NormalAbsorbs(x, {});
      assert upper.Normal(x) + {} == upper.Normal(x) && x + {} == x;
      assert lower.Normal(x) + {} == lower.Normal(x);
    }

    lemma JoinSettles(a: Pair<E>, b: Pair<E>)
      requires Lawful()
      ensures Settled(Join(a, b))
    {
      hide Store.Normal, Store.Rest, Store.Lawful;
      NormalOfNormal(a.live + b.live);
      NormalOfNormal(a.baked + b.baked + upper.Rest(a.live + b.live));
    }

    /** Idempotence and the unit hold exactly on settled pairs. */
    lemma JoinIdempotent(a: Pair<E>)
      requires Lawful()
      ensures Settled(a) <==> Join(a, a) == a
      ensures Settled(a) <==> Join(a, Pair({}, {})) == a
    {
      hide Store.Normal, Store.Rest, Store.Lawful;
      assert a.live + a.live == a.live && a.live + {} == a.live;
      if Settled(a) {
        RestOfSettled(a.live);
        assert a.baked + a.baked + {} == a.baked && a.baked + {} + {} == a.baked;
      }
      JoinSettles(a, a);
      JoinSettles(a, Pair({}, {}));
    }

    /** Joining two histories' states is building from both histories. */
    lemma FromUnion(x: set<E>, y: set<E>)
      requires Lawful()
      ensures Join(From(x), From(y)) == From(x + y)
    {
      hide Store.Normal, Store.Rest, Join;
      var none, p, q := Pair({}, {}), Pair(x, {}), Pair(y, {});
      JoinAssociates(p, none, Join(q, none));
      JoinCommutes(none, Join(q, none));
      JoinAssociates(q, none, none);
      JoinTwice(q, none, none);
      JoinAssociates(p, q, none);
      JoinSettles(q, none);
      JoinIdempotent(Join(q, none));
      JoinTwice(p, q, none);
      JoinTwice(Pair(x + y, {}), none, none);
      JoinSettles(Pair(x + y, {}), none);
      JoinIdempotent(Join(Pair(x + y, {}), none));
      assert x + y + {} == x + y;
    }

    /** Offering a history to a state is joining with the state built from it alone. */
    lemma JoinHistory(s: Pair<E>, history: set<E>)
      requires Lawful()
      ensures Settled(Join(s, Pair(history, {})))
      ensures Join(s, Pair(history, {})) == Join(s, From(history))
    {
      hide Store.Normal, Store.Rest, Join, Lawful, Settled;
      var none, p := Pair({}, {}), Pair(history, {});
      JoinSettles(s, p);
      JoinIdempotent(Join(s, p));
      JoinAssociates(s, p, none);
    }

    /** What a join offers to the lower layer. */
    ghost function Fallen(a: Pair<E>, b: Pair<E>): set<E> {
      a.baked + b.baked + upper.Rest(a.live + b.live)
    }

    /** Two offers have the same effect exactly when each layer's survivors of both together
        are among what each offers to that layer. */
    lemma SameJoin(s: Pair<E>, x: Pair<E>, y: Pair<E>)
      requires Lawful()
      ensures Join(s, x) == Join(s, y) <==>
        && upper.Normal(s.live + x.live + (s.live + y.live)) <= s.live + x.live
        && upper.Normal(s.live + x.live + (s.live + y.live)) <= s.live + y.live
        && lower.Normal(Fallen(s, x) + Fallen(s, y)) <= Fallen(s, x)
        && lower.Normal(Fallen(s, x) + Fallen(s, y)) <= Fallen(s, y)
    {
      hide Store.Normal, Store.Rest, Store.Lawful;
      upper.SameNormal(s.live + x.live, s.live + y.live);
      lower.SameNormal(Fallen(s, x), Fallen(s, y));
    }

    /** Two offers are one offer of the union. */
    lemma JoinOffers(s: Pair<E>, x: Pair<E>, y: Pair<E>)
      requires Lawful()
      ensures Join(Join(s, x), y) == Join(s, Pair(x.live + y.live, x.baked + y.baked))
    {
      hide Store.Normal, Store.Rest, Lawful;
      JoinTwice(s, x, y);
      assert s.live + (x.live + y.live) == s.live + x.live + y.live;
      assert s.baked + (x.baked + y.baked) == s.baked + x.baked + y.baked;
    }
  }
}
