/** What the contract host supplies: a clock, signature checking, and the registry's
    identities (contracts/tile-contract/src/lib.rs, contracts/chat-contract/src/lib.rs). */
module Host {
  import opened Bytes
  import opened Orders
  import opened Outcomes

  const MAX_FUTURE_SKEW_SECS: nat := 300

  /** A host clock reading: an i64 clamped at zero, so adding the skew cannot overflow. */
  type HostTime = t: u64 | t <= 0x7FFF_FFFF_FFFF_FFFF

  type Verifier = (Bytes32, Bytes, Bytes64) -> bool

  function Limit(now: HostTime): (t: u64)
    ensures t == now + MAX_FUTURE_SKEW_SECS
  {
    now + MAX_FUTURE_SKEW_SECS
  }

  /** What the host supplied of the registry: its admitted identities, if its bytes decode. */
  datatype Lookup = NotFetched | Unavailable | Fetched(identities: Option<set<Bytes32>>)

  datatype Verdict = Valid | Invalid | RequestRegistry

  /** check_registry_membership: every author must be admitted. */
  method CheckRegistryMembership(authors: seq<Bytes32>, identities: Option<set<Bytes32>>) returns (ok: bool)
    ensures ok <==> identities.Some? && Elems(authors) <= identities.value
  {
    if identities.None? {
      return false;
    }
    for i := 0 to |authors|
      invariant forall j | 0 <= j < i :: authors[j] in identities.value
    {
      if authors[i] !in identities.value {
        assert authors[i] in Elems(authors);
        return false;
      }
    }
    return true;
  }
}
