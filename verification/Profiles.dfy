// The named profiles, fixed lists of sources (cryptoflex/profiles.py).
module Profiles {
  import opened Wrappers
  import opened Sources

  datatype Profile = Profile(profileId: string, sources: seq<Source>, strengthLevel: int) {
    predicate IsAvailable() {
      forall i :: 0 <= i < |sources| ==> sources[i].isAvailable
    }
  }

  type Registry = map<string, Profile>

  /** The three shipped profiles, over whatever the three sources are. */
  function ProfileRegistry(x25519: Source, mlkem768: Source, mlkem1024: Source): Registry {
    map[
      "classical_only" := Profile("classical_only", [x25519], 0),
      "hybrid_standard" := Profile("hybrid_standard", [x25519, mlkem768], 1),
      "hybrid_high" := Profile("hybrid_high", [x25519, mlkem1024], 2)
    ]
  }

  function GetProfile(reg: Registry, id: string): Result<Profile> {
    if id in reg then Success(reg[id]) else Failure(ValueError)
  }

  /** Every profile is registered under its own identifier. */
  predicate Keyed(reg: Registry) {
    forall id :: id in reg ==> reg[id].profileId == id
  }

  lemma ShippedRegistryKeyed(x25519: Source, mlkem768: Source, mlkem1024: Source)
    ensures Keyed(ProfileRegistry(x25519, mlkem768, mlkem1024))
  {
  }
}
