/** The identity registry (common/src/registry.rs): admission cores converge to the
    smallest, nicknames to the highest, each on its own. */
module Registry {
  import opened Bytes
  import opened Orders
  import opened Outcomes
  import opened RegistryValues
  import opened RegistryLaws

  class RegistryState {
    var identities: Identities

    constructor ()
      ensures identities == map[]
    {
      identities := map[];
    }

    method InsertRecord(record: AdmissionRecord)
      modifies this
      ensures identities == WithRecord(old(identities), record)
      ensures identities.Keys == old(identities).Keys + {record.identity}
      ensures forall id | id in old(identities) && id != record.identity :: identities[id] == old(identities)[id]
      ensures if record.identity in old(identities)
        then Settles(identities[record.identity], old(identities)[record.identity], record)
        else identities[record.identity] == record
      ensures forall cores, names | Represents(old(identities), cores, names) ::
        Represents(identities, cores + {Core(record)}, names + NamesOfRecord(record))
    {
      hide Represents, Settles;
      WithRecordSettles(identities, record);
      forall cores, names | Represents(identities, cores, names)
        ensures Represents(WithRecord(identities, record), cores + {Core(record)}, names + NamesOfRecord(record))
      {
        AdmitRepresents(identities, cores, names, record);
      }
      var author := record.identity;
      var merged;
      if author !in identities {
        merged := record;
      } else {
        var existing := identities[author];
        var nickname := BetterNickname(existing.nickname, record.nickname);
        var core := if CoreLess(record, existing) then record else existing;
        merged := core.(nickname := nickname);
      }
      identities := identities[author := merged];
    }

    /** Updates for identities not admitted yet are dropped. */
    method ApplyNickname(update: NicknameUpdate)
      modifies this
      ensures identities == WithNickname(old(identities), update)
      ensures update.identity !in old(identities) ==> identities == old(identities)
      ensures forall cores, names | update.identity in old(identities) && Represents(old(identities), cores, names) ::
        Represents(identities, cores, names + {update})
    {
      hide Represents;
      forall cores, names | update.identity in identities && Represents(identities, cores, names)
        ensures Represents(WithNickname(identities, update), cores, names + {update})
      {
        RenameRepresents(identities, cores, names, update);
      }
      if update.identity in identities {
        var entry := identities[update.identity];
        identities := identities[update.identity :=
          entry.(nickname := BetterNickname(entry.nickname, Some(update.nickname)))];
      }
    }

    method InsertRecords(records: seq<AdmissionRecord>)
      modifies this
      ensures identities == WithRecords(old(identities), records)
    {
      DropNothing(records);
      for i := 0 to |records|
        invariant identities == WithRecords(old(identities), records[..i])
      {
        assert records[..i + 1][..i] == records[..i];
        InsertRecord(records[i]);
      }
    }

    /** The pointwise join with the other state, and so of both histories. */
    method Merge(other: RegistryState)
      requires other != this
      modifies this
      ensures identities == WithRecords(old(identities), RecordsInOrder(other.identities))
      ensures Keyed(other.identities) ==> identities == Join(old(identities), other.identities)
      ensures Keyed(other.identities) ==>
        && identities.Keys == old(identities).Keys + other.identities.Keys
        && forall id | id in identities ::
             if id in old(identities) && id in other.identities
             then Settles(identities[id], old(identities)[id], other.identities[id])
             else identities[id] == if id in old(identities) then old(identities)[id] else other.identities[id]
      ensures forall ca, na, cb, nb | Represents(old(identities), ca, na) && Represents(other.identities, cb, nb) ::
        Represents(identities, ca + cb, na + nb)
    {
      hide Represents, Join, WithRecords, Settles;
      JoinSettles(identities, other.identities);
      if Keyed(other.identities) {
        MergeIsJoin(identities, other.identities, RecordsInOrder(other.identities));
      }
      forall ca, na, cb, nb | Represents(identities, ca, na) && Represents(other.identities, cb, nb)
        ensures Represents(Join(identities, other.identities), ca + cb, na + nb) && Keyed(other.identities)
      {
        JoinRepresents(identities, ca, na, other.identities, cb, nb);
        RepresentsKeyed(other.identities, cb, nb);
      }
      InsertRecords(RecordsInOrder(other.identities));
    }

    /** The highest nickname version of every admitted identity, 0 for none. */
    method Summarize() returns (summary: Summary)
      ensures summary.Keys == identities.Keys
      ensures forall id | id in identities :: summary[id] == VersionOf(identities[id].nickname)
      ensures forall cores, names | Represents(identities, cores, names) :: HighestVersions(summary, cores, names)
    {
      hide Represents, HighestVersions;
      summary := map id | id in identities :: VersionOf(identities[id].nickname);
      forall cores, names | Represents(identities, cores, names)
        ensures HighestVersions(summary, cores, names)
      {
        SummaryIsHighest(identities, summary, cores, names);
      }
    }

    /** None means converged. */
    method Delta(summary: Summary) returns (delta: Option<RegistryDelta>)
      ensures delta == None <==>
        Admissions(identities, summary, identities.Keys) == {} && Nicknames(identities, summary, identities.Keys) == {}
      ensures delta.Some? ==>
        && Elems(delta.value.admissions) == Admissions(identities, summary, identities.Keys)
        && Elems(delta.value.nicknames) == Nicknames(identities, summary, identities.Keys)
    {
      hide *;
      var order := SortedIdentities(identities.Keys);
      ElemsAll(order);
      NothingSent(identities, summary);
      var admissions: seq<AdmissionRecord>, nicknames: seq<NicknameUpdate> := [], [];
      ElemsNone(admissions);
      ElemsNone(nicknames);
      for i := 0 to |order|
        invariant Elems(admissions) == Admissions(identities, summary, Elems(order[..i]))
        invariant Elems(nicknames) == Nicknames(identities, summary, Elems(order[..i]))
      {
        var author := order[i];
        SentStep(identities, summary, order, i);
        var record := identities[author];
        if author !in summary {
          ElemsSnoc(admissions, record);
          admissions := admissions + [record];
        } else if record.nickname.Some? && record.nickname.value.version > summary[author] {
          ElemsSnoc(nicknames, NicknameUpdate(record.identity, record.nickname.value));
          nicknames := nicknames + [NicknameUpdate(record.identity, record.nickname.value)];
        }
      }
      ElemsNone(admissions);
      ElemsNone(nicknames);
      delta := if admissions == [] && nicknames == [] then None else Some(RegistryDelta(admissions, nicknames));
    }

    /** Admissions before nicknames, so a nickname riding with its admission lands. */
    method ApplyDelta(delta: RegistryDelta)
      modifies this
      ensures identities == Applied(old(identities), delta)
      ensures identities.Keys == old(identities).Keys + IdentitiesOf(delta.admissions)
      ensures forall u | u in delta.nicknames && u.identity in identities ::
        identities[u.identity].nickname.Some? && NotHigher(u.nickname, identities[u.identity].nickname.value)
      ensures forall cores, names | Represents(old(identities), cores, names) ::
        Represents(identities, cores + CoresIn(delta.admissions),
          names + NamesIn(delta.admissions) + Landing(delta.nicknames, identities.Keys))
    {
      hide *;
      AppliedShape(identities, delta);
      DeltaLands(identities, delta);
      forall cores, names | Represents(identities, cores, names)
        ensures Represents(Applied(identities, delta), cores + CoresIn(delta.admissions),
          names + NamesIn(delta.admissions) + Landing(delta.nicknames, Applied(identities, delta).Keys))
      {
        DeltaRepresents(identities, cores, names, delta);
      }
      InsertRecords(delta.admissions);
      ghost var admitted := identities;
      NamedStart(admitted, delta.nicknames);
      for i := 0 to |delta.nicknames|
        invariant identities == WithNicknames(admitted, delta.nicknames[..i])
      {
        NamedStep(admitted, delta.nicknames, i);
        ApplyNickname(delta.nicknames[i]);
      }
    }
  }
}
