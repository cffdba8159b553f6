/** Reading decoded CBOR (web/src/cbor.ts, mapGet; web/src/identity.ts, asByteArray;
    web/src/state.ts, asNumber). */
module WireFields {
  import opened Bytes
  import opened Orders
  import opened Outcomes
  import opened Cbor
  import CborLaws
  import Signing

  const TS: Value := Text(Signing.Ascii("ts"))
  const AUTHOR: Value := Text(Signing.Ascii("author"))
  const SIGNATURE: Value := Text(Signing.Ascii("signature"))

  /** Setting a key twice keeps the later value. */
  function Lookup(es: seq<Entry>, key: Value): Option<Value> {
    if es == [] then None
    else if es[|es| - 1].key == key then Some(es[|es| - 1].value)
    else Lookup(es[..|es| - 1], key)
  }

  function MapGet(v: Value, key: Value): Option<Value> {
    if v.Map? then Lookup(v.entries, key) else None
  }

  lemma {:induction false} LookupAt(es: seq<Entry>, key: Value, i: nat)
    requires i < |es| && es[i].key == key && forall j | i < j < |es| :: es[j].key != key
    ensures Lookup(es, key) == Some(es[i].value)
  {
    if i < |es| - 1 {
      LookupAt(es[..|es| - 1], key, i);
    }
  }

  lemma {:induction false} LookupNone(es: seq<Entry>, key: Value)
    requires forall j | 0 <= j < |es| :: es[j].key != key
    ensures Lookup(es, key) == None
  {
    if es != [] { LookupNone(es[..|es| - 1], key); }
  }

  /** Array.from of a byte array. */
  function ByteList(b: Bytes): Value {
    Arr(seq(|b|, i requires 0 <= i < |b| => Int(b[i])))
  }

  /** asByteArray: a byte string or an array of byte-sized numbers. */
  function AsByteArray(v: Option<Value>): Option<Bytes> {
    match v
    case Some(Blob(b)) => Some(b)
    case Some(Arr(items)) =>
      if forall i | 0 <= i < |items| :: items[i].Int? && 0 <= items[i].n < 0x100
      then Some(seq(|items|, i requires 0 <= i < |items| => ByteOf(items[i])))
      else None
    case _ => None
  }

  function ByteOf(v: Value): byte
    requires v.Int? && 0 <= v.n < 0x100
  {
    v.n
  }

  lemma ByteListBack(b: Bytes)
    ensures AsByteArray(Some(ByteList(b))) == Some(b)
    ensures |b| <= MAX_SAFE_INTEGER ==> Encodable(ByteList(b))
  {
    var items := ByteList(b).items;
    assert forall i | 0 <= i < |items| :: items[i] == Int(b[i]);
    assert AsByteArray(Some(ByteList(b))).value == b;
  }

  function AsNumber(v: Option<Value>, limit: nat): Option<nat> {
    match v
    case Some(Int(n)) => if 0 <= n < limit then Some(n) else None
    case _ => None
  }

  lemma BlobBack(b: Bytes)
    ensures AsByteArray(Some(Blob(b))) == Some(b)
  {
  }

  lemma EncodeNotEmpty(v: Value)
    requires Encodable(v)
    ensures Encode(v) != []
  {
    hide Head;
  }

  // ---- Lists ------------------------------------------------------------------------------------

  function ValuesOf(es: seq<Entry>): (vs: seq<Value>)
    ensures |vs| == |es| && forall i | 0 <= i < |es| :: vs[i] == es[i].value
  {
    seq(|es|, i requires 0 <= i < |es| => es[i].value)
  }

  /** Keys a JavaScript Map compares by value; arrays, byte strings and maps are compared by
      identity, so two decoded ones never collide. */
  predicate Primitive(v: Value) { v.Null? || v.Bool? || v.Int? || v.Text? }

  /** Map.set: a repeated key keeps its place and takes the new value. */
  function MapSet(m: seq<Entry>, e: Entry): seq<Entry> {
    if m == [] then [e]
    else if Primitive(e.key) && m[0].key == e.key then [e] + m[1..]
    else [m[0]] + MapSet(m[1..], e)
  }

  /** The Map a decoder builds from the entries it reads. */
  function MapOf(es: seq<Entry>): seq<Entry> {
    if es == [] then [] else MapSet(MapOf(es[..|es| - 1]), es[|es| - 1])
  }

  function MapValues(es: seq<Entry>): seq<Value> { ValuesOf(MapOf(es)) }

  lemma {:induction false} SetNew(m: seq<Entry>, e: Entry)
    requires forall i | 0 <= i < |m| :: !Primitive(e.key) || m[i].key != e.key
    ensures MapSet(m, e) == m + [e]
  {
    if m != [] { SetNew(m[1..], e); }
  }

  lemma {:induction false} DistinctMap(es: seq<Entry>)
    requires forall i, j | 0 <= i < j < |es| :: !Primitive(es[j].key) || es[i].key != es[j].key
    ensures MapOf(es) == es
  {
    if es != [] {
      var n := |es| - 1;
      DistinctMap(es[..n]);
      SetNew(es[..n], es[n]);
      assert es == es[..n] + [es[n]];
    }
  }

  /** No primitive key is left twice. */
  lemma {:induction false} MapIsDistinct(es: seq<Entry>)
    ensures forall i, j | 0 <= i < j < |MapOf(es)| :: !Primitive(MapOf(es)[j].key) || MapOf(es)[i].key != MapOf(es)[j].key
    ensures forall key | Primitive(key) :: Lookup(MapOf(es), key) == Lookup(es, key)
  {
    if es != [] {
      hide Primitive;
      var n := |es| - 1;
      MapIsDistinct(es[..n]);
      SetDistinct(MapOf(es[..n]), es[n]);
      forall key | Primitive(key)
        ensures Lookup(MapOf(es), key) == Lookup(es, key)
      {
        SetLookup(MapOf(es[..n]), es[n], key);
      }
    }
  }

  lemma {:induction false} SetDistinct(m: seq<Entry>, e: Entry)
    requires forall i, j | 0 <= i < j < |m| :: !Primitive(m[j].key) || m[i].key != m[j].key
    ensures var r := MapSet(m, e);
      && (forall i, j | 0 <= i < j < |r| :: !Primitive(r[j].key) || r[i].key != r[j].key)
      && (forall x | x in r :: x.key == e.key || exists y :: y in m && y.key == x.key)
  {
    hide Primitive;
    if m != [] {
      var tail := MapSet(m[1..], e);
      SetDistinct(m[1..], e);
      var r := MapSet(m, e);
      if Primitive(e.key) && m[0].key == e.key {
        assert r == [e] + m[1..];
      } else {
        assert r == [m[0]] + tail;
        forall j | 0 <= j < |tail|
          ensures !Primitive(tail[j].key) || m[0].key != tail[j].key
        {
          assert tail[j] in tail;
          if tail[j].key != e.key {
            var y :| y in m[1..] && y.key == tail[j].key;
            var k :| 0 <= k < |m[1..]| && m[1..][k] == y;
            assert m[k + 1] == y;
          }
        }
      }
      forall x | x in r
        ensures x.key == e.key || exists y :: y in m && y.key == x.key
      {
        if x in tail && x.key != e.key {
          var y :| y in m[1..] && y.key == x.key;
          assert y in m;
        }
      }
    }
  }

  lemma {:induction false} SetLookup(m: seq<Entry>, e: Entry, key: Value)
    requires Primitive(key) && forall i, j | 0 <= i < j < |m| :: !Primitive(m[j].key) || m[i].key != m[j].key
    ensures Lookup(MapSet(m, e), key) == if e.key == key then Some(e.value) else Lookup(m, key)
  {
    hide Primitive;
    if m == [] {
      assert Lookup([e][..0], key) == None;
    } else {
      var tail := MapSet(m[1..], e);
      SetLookup(m[1..], e, key);
      LookupCons(m[0], m[1..], key);
      LookupCons(m[0], tail, key);
      LookupCons(e, m[1..], key);
      assert m == [m[0]] + m[1..];
      if Primitive(e.key) && m[0].key == e.key {
        NotAgain(m, e.key);
      }
    }
  }

  lemma NotAgain(m: seq<Entry>, key: Value)
    requires m != [] && m[0].key == key && Primitive(key)
    requires forall i, j | 0 <= i < j < |m| :: !Primitive(m[j].key) || m[i].key != m[j].key
    ensures Lookup(m[1..], key) == None
  {
    LookupNone(m[1..], key);
  }

  lemma {:induction false} LookupCons(e: Entry, es: seq<Entry>, key: Value)
    ensures Lookup([e] + es, key)
         == if Lookup(es, key).Some? then Lookup(es, key) else if e.key == key then Some(e.value) else None
  {
    if es == [] {
      assert [e] + es == [e] && [e][..0] == [];
    } else {
      assert ([e] + es)[..|es|] == [e] + es[..|es| - 1];
      LookupCons(e, es[..|es| - 1], key);
    }
  }

  /** Decoding element by element; one that throws fails them all. */
  function DecodeAll<T>(items: seq<Value>, decode: Value -> Option<T>): Option<seq<T>> {
    if items == [] then Some([])
    else
      match (DecodeAll(items[..|items| - 1], decode), decode(items[|items| - 1]))
      case (Some(xs), Some(x)) => Some(xs + [x])
      case _ => None
  }

  lemma {:induction false} DecodeAllExact<T>(items: seq<Value>, decode: Value -> Option<T>, xs: seq<T>)
    ensures DecodeAll(items, decode) == Some(xs) <==>
      |xs| == |items| && forall i | 0 <= i < |items| :: decode(items[i]) == Some(xs[i])
  {
    if items != [] {
      var n := |items| - 1;
      if |xs| == |items| {
        DecodeAllExact(items[..n], decode, xs[..n]);
        assert xs == xs[..n] + [xs[n]];
      }
      if DecodeAll(items, decode) == Some(xs) {
        DecodeAllExact(items[..n], decode, DecodeAll(items[..n], decode).value);
      }
    }
  }

  lemma {:induction false} OneBadItem<T>(items: seq<Value>, decode: Value -> Option<T>, k: nat)
    requires k <= |items| && DecodeAll(items[..k], decode) == None
    ensures DecodeAll(items, decode) == None
    decreases |items|
  {
    if k < |items| {
      assert items[..|items| - 1][..k] == items[..k];
      OneBadItem(items[..|items| - 1], decode, k);
    } else {
      assert items[..k] == items;
    }
  }

  method DecodeItems<T>(items: seq<Value>, decode: Value -> Option<T>) returns (xs: Option<seq<T>>)
    ensures xs == DecodeAll(items, decode)
  {
    var found: seq<T> := [];
    DropNothing(items);
    for i := 0 to |items|
      invariant DecodeAll(items[..i], decode) == Some(found)
    {
      assert items[..i + 1][..i] == items[..i];
      var x := decode(items[i]);
      if x.None? {
        OneBadItem(items, decode, i + 1);
        return None;
      }
      found := found + [x.value];
    }
    return Some(found);
  }

  // ---- Bounded numbers --------------------------------------------------------------------------

  lemma {:induction false} LookupBounded(es: seq<Entry>, key: Value)
    requires forall e | e in es :: CborLaws.Bounded(e.value)
    ensures Lookup(es, key).Some? ==> CborLaws.Bounded(Lookup(es, key).value)
  {
    if es != [] { LookupBounded(es[..|es| - 1], key); }
  }

  /** Reading a field of a bounded value gives a bounded value. */
  lemma MapGetBounded(v: Value, key: Value)
    requires CborLaws.Bounded(v)
    ensures MapGet(v, key).Some? ==> CborLaws.Bounded(MapGet(v, key).value)
  {
    if v.Map? { LookupBounded(v.entries, key); }
  }

  lemma {:induction false} SetWithin(m: seq<Entry>, e: Entry)
    ensures forall x | x in MapSet(m, e) :: x in m || x == e
  {
    if m != [] { SetWithin(m[1..], e); }
  }

  lemma {:induction false} MapWithin(es: seq<Entry>)
    ensures forall x | x in MapOf(es) :: x in es
  {
    if es != [] {
      var n := |es| - 1;
      MapWithin(es[..n]);
      SetWithin(MapOf(es[..n]), es[n]);
    }
  }
}
