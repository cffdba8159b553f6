/** The sorted entry list behind the client's registry merge (web/src/merge.ts): splicing
    and replacing keep it the one listing, by strictly ascending key, of the identities. */
module RegistryList {
  import opened Bytes
  import opened Orders
  import opened Outcomes
  import opened RegistryValues
  import opened RegistryLaws

  datatype Entry = Entry(key: Bytes32, record: AdmissionRecord)

  predicate EntryLess(a: Entry, b: Entry) { BytesLess(a.key, b.key) }

  /** The list enumerates the map by strictly ascending key. */
  ghost predicate Lists(es: seq<Entry>, m: Identities) {
    && Ascending(EntryLess, es)
    && (forall e | e in es :: e.key in m && m[e.key] == e.record)
    && (forall id | id in m :: Entry(id, m[id]) in es)
  }

  lemma Spliced(es: seq<Entry>, m: Identities, i: nat, record: AdmissionRecord)
    requires Lists(es, m) && i <= |es|
    requires forall j | 0 <= j < i :: BytesLess(es[j].key, record.identity)
    requires i < |es| ==> BytesLess(record.identity, es[i].key)
    ensures record.identity !in m
    ensures Lists(es[..i] + [Entry(record.identity, record)] + es[i..], m[record.identity := record])
  {
    var e := Entry(record.identity, record);
    SpliceAscends(es, i, e);
    SpliceMembers(es, i, e);
    NotListed(es, m, record.identity);
    hide EntryLess, BytesLess, Ascending;
    var out := es[..i] + [e] + es[i..];
    var m' := m[record.identity := record];
    forall id | id in m'
      ensures Entry(id, m'[id]) in out
    {
      if id != record.identity { assert Entry(id, m[id]) in es; }
    }
  }

  lemma SpliceMembers(es: seq<Entry>, i: nat, e: Entry)
    requires i <= |es|
    ensures forall x :: x in es[..i] + [e] + es[i..] <==> x == e || x in es
  {
    assert es == es[..i] + es[i..];
  }

  lemma SpliceAscends(es: seq<Entry>, i: nat, e: Entry)
    requires Ascending(EntryLess, es) && i <= |es|
    requires forall j | 0 <= j < i :: BytesLess(es[j].key, e.key)
    requires i < |es| ==> BytesLess(e.key, es[i].key)
    ensures Ascending(EntryLess, es[..i] + [e] + es[i..])
    ensures forall x | x in es :: x.key != e.key
  {
    BytesOrder();
    hide BytesLess;
    forall j | i <= j < |es|
      ensures EntryLess(e, es[j])
    {
      if i < j { assert EntryLess(es[i], es[j]); }
    }
    assert forall j | 0 <= j < |es| :: EntryLess(es[j], e) || EntryLess(e, es[j]);
  }

  lemma Replaced(es: seq<Entry>, m: Identities, i: nat, record: AdmissionRecord)
    requires Lists(es, m) && i < |es|
    ensures es[i].key in m && m[es[i].key] == es[i].record
    ensures Lists(es[i := Entry(es[i].key, record)], m[es[i].key := record])
  {
    BytesOrder();
    hide BytesLess;
    var key := es[i].key;
    assert es[i] in es;
    var out := es[i := Entry(key, record)];
    forall j | 0 <= j < |es| && j != i
      ensures es[j].key != key
    {
      if j < i { assert EntryLess(es[j], es[i]); } else { assert EntryLess(es[i], es[j]); }
    }
    var m' := m[key := record];
    forall id | id in m'
      ensures Entry(id, m'[id]) in out
    {
      if id == key {
        assert out[i] == Entry(id, record);
      } else {
        assert Entry(id, m[id]) in es;
        var j :| 0 <= j < |es| && es[j] == Entry(id, m[id]);
        assert out[j] == es[j];
      }
    }
    forall e | e in out
      ensures e.key in m' && m'[e.key] == e.record
    {
      var j :| 0 <= j < |out| && out[j] == e;
      if j != i { assert e == es[j] && es[j] in es; }
    }
  }

  lemma CompareConnected(a: Bytes, b: Bytes)
    ensures a != b ==> BytesLess(a, b) || BytesLess(b, a)
  {
    BytesOrder();
  }

  lemma NotListed(es: seq<Entry>, m: Identities, id: Bytes32)
    requires Lists(es, m) && forall j | 0 <= j < |es| :: es[j].key != id
    ensures id !in m
  {
    assert forall e | e in es :: e.key != id;
  }

  lemma NothingListed()
    ensures Lists([], map[])
  {
  }

  /** A map has one such listing. */
  lemma OneListing(p: seq<Entry>, q: seq<Entry>, m: Identities)
    requires Lists(p, m) && Lists(q, m)
    ensures p == q
  {
    BytesOrder();
    hide BytesLess;
    forall e
      ensures e in p <==> e in q
    {
      if e in p { assert Entry(e.key, m[e.key]) in q; }
      if e in q { assert Entry(e.key, m[e.key]) in p; }
    }
    AscendingUnique(EntryLess, p, q);
  }
}
