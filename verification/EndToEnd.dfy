// From key generation to decrypted text, as the library ships: bundled risk table, shipped
// registry, default constraint and chunk size (cryptoflex/api.py, cryptoflex/streaming.py).
module EndToEnd {
  import opened Wrappers
  import opened Bytes
  import opened Aead
  import opened Header
  import opened Sources
  import opened Profiles
  import opened Policy
  import opened Combiner
  import opened Api
  import opened StreamLaws
  import opened Streaming
  import Utf8

  const DEFAULT_CHUNK_SIZE: nat := 64 * 1024

  /** At the default chunk size the frame limit stops encryption at 65,536,000,000 bytes, before the
      64 GiB the size limit allows. */
  lemma DefaultCapacity(length: nat)
    ensures WithinCapacity(length, DEFAULT_CHUNK_SIZE) <==> length <= 65_536_000_000
  {
  }

  /** A correct source that generates keys, encapsulates to the keys it generated, and makes
      ciphertexts of at most 1568 bytes, the size of ML-KEM-1024. */
  ghost predicate Working(s: Source) {
    && Correct(s)
    && forall keySeed: Seed ::
         && s.generateKeypair(keySeed).Some?
         && EncapsulatesTo(s, s.generateKeypair(keySeed).value.0)
  }

  ghost predicate EncapsulatesTo(s: Source, pub: bytes) {
    forall seed: Seed ::
      s.encapsulate(pub, seed).Some? && |s.encapsulate(pub, seed).value.ciphertext| <= 1568
  }

  lemma MockSourceWorks()
    ensures Working(MockSource())
  {
    MockSourceCorrect();
  }

  /** Two sources that encapsulate to a bundle's keys make a session whose header fits one read. */
  lemma TwoSourceSession(env: Env, bundle: PublicBundle, seeds: Seeds, nonce: Nonce)
    requires bundle.profileId in env.reg && TextFits(bundle.profileId)
    requires |bundle.publicKeys| == 2 && BundleFits(env.reg[bundle.profileId], bundle.publicKeys)
    requires TextFits(bundle.publicKeys[0].algId) && TextFits(bundle.publicKeys[1].algId)
    requires EncapsulatesTo(env.reg[bundle.profileId].sources[0], bundle.publicKeys[0].key)
    requires EncapsulatesTo(env.reg[bundle.profileId].sources[1], bundle.publicKeys[1].key)
    ensures SenderSession(env, bundle, seeds, nonce).Some?
    ensures |SenderSession(env, bundle, seeds, nonce).value.header| <= 65536
  {
    hide RootKey, Utf8.Encode, Serialized;
    var p, keys := env.reg[bundle.profileId], bundle.publicKeys;
    assert AllEncapsulate(p, keys, seeds);
    SentAt(p, keys, seeds, 0);
    SentAt(p, keys, seeds, 1);
    var cs := SentComponents(p, keys, seeds);
    hide SentComponents;
    assert ComponentFits(cs[0]) && ComponentFits(cs[1]) && AllFit(cs);
    assert InfoFits(DEFAULT_CONTEXT, cs, COMBINER_SPEC_VERSION);
    assert CanDerive(env, bundle, seeds) && Serializable(Derived(env, bundle, seeds, nonce).header);
    HeaderLength(Derived(env, bundle, seeds, nonce).header, 1568);
  }

  lemma ShippedTextsFit()
    ensures TextFits("hybrid_standard") && TextFits("x25519") && TextFits("mlkem768")
  {
    hide Utf8.Encode;
    Utf8.EncodeAsciiLength("hybrid_standard");
    Utf8.EncodeAsciiLength("x25519");
    Utf8.EncodeAsciiLength("mlkem768");
  }

  /** What the keys of EstablishDefaultKeys are good for. */
  lemma DefaultKeysWork(s: Suite, x: Source, m768: Source, m1024: Source, bundle: PublicBundle,
                        handles: seq<Handle>, keySeeds: Seeds, seeds: Seeds, nonce: Nonce)
    requires AllShipped(x, m768, m1024) && Working(x) && Working(m768)
    requires bundle.profileId == "hybrid_standard" && |bundle.publicKeys| == |handles| == 2
    requires KeyIds(bundle.publicKeys) == ["x25519", "mlkem768"]
    requires x.generateKeypair(keySeeds(0)) == Some((bundle.publicKeys[0].key, handles[0]))
    requires m768.generateKeypair(keySeeds(1)) == Some((bundle.publicKeys[1].key, handles[1]))
    ensures var env := Env(s, ProfileRegistry(x, m768, m1024));
            && SenderSession(env, bundle, seeds, nonce).Some?
            && |SenderSession(env, bundle, seeds, nonce).value.header| <= 65536
            && HandlesMatch(env.reg["hybrid_standard"], bundle.publicKeys, handles)
            && NamesFit("hybrid_standard", env.reg["hybrid_standard"])
            && Gate(env.reg, "hybrid_standard", Some("hybrid_standard")) == None
  {
    hide SenderSession, EncapsulatesTo, Matches, TextFits, NamesFit;
    var env := Env(s, ProfileRegistry(x, m768, m1024));
    ShippedTextsFit();
    assert bundle.publicKeys[0].algId == KeyIds(bundle.publicKeys)[0];
    assert bundle.publicKeys[1].algId == KeyIds(bundle.publicKeys)[1];
    assert Matches(x, bundle.publicKeys[0].key, handles[0]);
    assert Matches(m768, bundle.publicKeys[1].key, handles[1]);
    TwoSourceSession(env, bundle, seeds, nonce);
    ShippedNamesFit(x, m768, m1024, "hybrid_standard");
  }

  /** Generate keys by default policy, encrypt a text of any length to them in streaming mode, and
      decrypt it under the policy's own minimum: the text comes back exactly when it has at most
      65,536,000,000 bytes. */
  method KeygenEncryptDecrypt(s: Suite, note: string, notes: string -> string, x: Source, m768: Source,
                              m1024: Source, requireQuantumSafe: bool, text: bytes,
                              keySeeds: Seeds, seeds: Seeds, nonce: Nonce)
    returns (r: Result<bytes>)
    requires AllShipped(x, m768, m1024) && Working(x) && Working(m768)
    ensures r.Success? <==> |text| <= 65_536_000_000
    ensures r.Success? ==> r.value == text
  {
    hide SenderSession, HandlesMatch, NamesFit, Gate, WithinCapacity;
    var env := Env(s, ProfileRegistry(x, m768, m1024));
    var keys := EstablishDefaultKeys(s, note, notes, x, m768, m1024, requireQuantumSafe, keySeeds);
    if keys.Failure? { assert false; }
    var bundle, handles := keys.value.publicBundle, keys.value.privateHandles;
    DefaultKeysWork(s, x, m768, m1024, bundle, handles, keySeeds, seeds, nonce);
    DefaultCapacity(|text|);
    r := EncryptThenDecrypt(env, bundle, handles, Some("hybrid_standard"), text, DEFAULT_CHUNK_SIZE, seeds, nonce);
  }
}
