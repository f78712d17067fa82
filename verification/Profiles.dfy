/**
 The eight fragmentation profiles.
 */
module Profiles {

  datatype Strategy = Passthrough | Equal | Sni | SniPrefixed

  datatype Profile = Profile(id: string, numChunks: nat, delayMs: nat, strategy: Strategy)

  const PROFILES: seq<Profile> := [
    Profile("p00", 1, 0, Passthrough),
    Profile("p01", 8, 5, SniPrefixed),
    Profile("p02", 16, 1, Equal),
    Profile("p03", 32, 3, Equal),
    Profile("p04", 64, 5, Equal),
    Profile("p05", 87, 5, Equal),
    Profile("p06", 120, 10, Equal),
    Profile("p07", 8, 25, Sni)
  ]

  const DEFAULT_PROFILE := PROFILES[5]

  predicate IsFragmenting(p: Profile) { p.strategy != Passthrough }

  /** Every profile that fragments asks for at least two chunks. */
  lemma FragmentingHasChunks(k: nat)
    requires k < |PROFILES| && IsFragmenting(PROFILES[k])
    ensures PROFILES[k].numChunks >= 2
  {}
}
