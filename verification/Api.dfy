// Key agreement between a sender and a recipient, the downgrade gate, and
// whole-message encryption (cryptoflex/api.py).
module Api {
  import opened Wrappers
  import opened Bytes
  import opened Aead
  import opened Header
  import opened Combiner
  import opened Sources
  import opened Profiles
  import opened Policy

  datatype PublicKey = PublicKey(algId: string, key: bytes)

  datatype PublicBundle = PublicBundle(profileId: string, publicKeys: seq<PublicKey>)

  datatype KeySet = KeySet(profile: Profile, publicBundle: PublicBundle, privateHandles: seq<Handle>,
                           decision: PolicyDecision)

  datatype DerivedRoot = DerivedRoot(rootKey: Key, header: Header)

  /** The primitives and the profile registry of one installation. */
  datatype Env = Env(suite: Suite, reg: Registry)

  /** Randomness of one run: one seed per source. */
  type Seeds = nat -> Seed

  // ---- The sender's side ----

  /** The bundle lists one key per source of the profile, under its identifier and in its order. */
  predicate BundleFits(p: Profile, keys: seq<PublicKey>) {
    |p.sources| == |keys| && forall i :: 0 <= i < |keys| ==> p.sources[i].algorithmId == keys[i].algId
  }

  predicate AllEncapsulate(p: Profile, keys: seq<PublicKey>, seeds: Seeds)
    requires |p.sources| == |keys|
  {
    forall i :: 0 <= i < |keys| ==> p.sources[i].encapsulate(keys[i].key, seeds(i)).Some?
  }

  function Encapsulations(p: Profile, keys: seq<PublicKey>, seeds: Seeds): (encs: seq<Encapsulation>)
    requires |p.sources| == |keys| && AllEncapsulate(p, keys, seeds)
    ensures |encs| == |keys|
  {
    seq(|keys|, i requires 0 <= i < |keys| => p.sources[i].encapsulate(keys[i].key, seeds(i)).value)
  }

  function KeyIds(keys: seq<PublicKey>): (ids: seq<string>)
    ensures |ids| == |keys|
  {
    seq(|keys|, i requires 0 <= i < |keys| => keys[i].algId)
  }

  function SentComponents(p: Profile, keys: seq<PublicKey>, seeds: Seeds): (cs: seq<Component>)
    requires |p.sources| == |keys| && AllEncapsulate(p, keys, seeds)
    ensures |cs| == |keys|
  {
    Bound(KeyIds(keys), Encapsulations(p, keys, seeds))
  }

  predicate CanDerive(env: Env, bundle: PublicBundle, seeds: Seeds) {
    && bundle.profileId in env.reg
    && var p := env.reg[bundle.profileId];
       && p.sources != [] && BundleFits(p, bundle.publicKeys) && AllEncapsulate(p, bundle.publicKeys, seeds)
       && InfoFits(DEFAULT_CONTEXT, SentComponents(p, bundle.publicKeys, seeds), COMBINER_SPEC_VERSION)
  }

  function Derived(env: Env, bundle: PublicBundle, seeds: Seeds, nonce: Nonce): DerivedRoot
    requires CanDerive(env, bundle, seeds)
  {
    var p := env.reg[bundle.profileId];
    var cs := SentComponents(p, bundle.publicKeys, seeds);
    DerivedRoot(
      RootKey(env.suite, Secrets(Encapsulations(p, bundle.publicKeys, seeds)), cs),
      Header(bundle.profileId, cs, Some(nonce), FORMAT_VERSION))
  }

  /** What a sender starts from, when deriving and serializing both succeed. */
  function SenderSession(env: Env, bundle: PublicBundle, seeds: Seeds, nonce: Nonce): Option<Session> {
    if !CanDerive(env, bundle, seeds) then None
    else
      var d := Derived(env, bundle, seeds, nonce);
      if Serializable(d.header) then Some(Session(d.rootKey, Serialized(d.header), nonce)) else None
  }

  /** What a sender derives, from the encapsulations themselves: HKDF of the secrets joined in the
      profile's order, under the info string of the components that go into the header. */
  lemma DerivedFrom(env: Env, bundle: PublicBundle, seeds: Seeds, nonce: Nonce,
                    secrets: seq<bytes>, cs: seq<Component>)
    requires CanDerive(env, bundle, seeds) && |secrets| == |cs| == |bundle.publicKeys|
    requires forall i :: 0 <= i < |cs| ==>
      && cs[i].algId == bundle.publicKeys[i].algId
      && env.reg[bundle.profileId].sources[i].encapsulate(bundle.publicKeys[i].key, seeds(i))
           == Some(Encapsulation(cs[i].ciphertext, secrets[i]))
    ensures InfoFits(DEFAULT_CONTEXT, cs, COMBINER_SPEC_VERSION)
    ensures Derived(env, bundle, seeds, nonce)
         == DerivedRoot(env.suite.hkdf(Join(secrets), Info(DEFAULT_CONTEXT, cs, COMBINER_SPEC_VERSION)),
                        Header(bundle.profileId, cs, Some(nonce), 2))
  {
    hide InfoFits, Info;
    var p, keys := env.reg[bundle.profileId], bundle.publicKeys;
    assert SentComponents(p, keys, seeds) == cs && Secrets(Encapsulations(p, keys, seeds)) == secrets;
  }

  function SentSecrets(env: Env, bundle: PublicBundle, seeds: Seeds): seq<bytes>
    requires CanDerive(env, bundle, seeds)
  {
    Secrets(Encapsulations(env.reg[bundle.profileId], bundle.publicKeys, seeds))
  }

  lemma DerivedUnder(env: Env, s: Suite, bundle: PublicBundle, seeds: Seeds, nonce: Nonce)
    requires CanDerive(env, bundle, seeds)
    ensures CanDerive(env.(suite := s), bundle, seeds)
    ensures var cs := Derived(env, bundle, seeds, nonce).header.components;
            && InfoFits(DEFAULT_CONTEXT, cs, COMBINER_SPEC_VERSION)
            && Derived(env.(suite := s), bundle, seeds, nonce).rootKey
                 == RootKey(s, SentSecrets(env, bundle, seeds), cs)
  {
    hide InfoFits, RootKey, SentComponents, Encapsulations, Secrets, AllEncapsulate;
  }

  /** Every secret of every component goes into the root key. Of two derivations whose secrets have
      the same lengths, some key derivation function tells the keys apart exactly when a secret, an
      identifier or a ciphertext differs. */
  lemma EverySecretCounts(env: Env, a: PublicBundle, seeds: Seeds, b: PublicBundle, others: Seeds, nonce: Nonce)
    requires CanDerive(env, a, seeds) && CanDerive(env, b, others)
    requires SameLengths(SentSecrets(env, a, seeds), SentSecrets(env, b, others))
    ensures forall s: Suite :: CanDerive(env.(suite := s), a, seeds) && CanDerive(env.(suite := s), b, others)
    ensures (exists s: Suite :: Derived(env.(suite := s), a, seeds, nonce).rootKey
                             != Derived(env.(suite := s), b, others, nonce).rootKey)
       <==> SentSecrets(env, a, seeds) != SentSecrets(env, b, others)
            || Derived(env, a, seeds, nonce).header.components != Derived(env, b, others, nonce).header.components
  {
    hide CanDerive, Derived, SentSecrets, RootKey, InfoFits, SameLengths;
    forall s: Suite
      ensures CanDerive(env.(suite := s), a, seeds) && CanDerive(env.(suite := s), b, others)
    {
      DerivedUnder(env, s, a, seeds, nonce);
      DerivedUnder(env, s, b, others, nonce);
    }
    DerivedUnder(env, env.suite, a, seeds, nonce);
    DerivedUnder(env, env.suite, b, others, nonce);
    var x, cs := SentSecrets(env, a, seeds), Derived(env, a, seeds, nonce).header.components;
    var y, ds := SentSecrets(env, b, others), Derived(env, b, others, nonce).header.components;
    forall s: Suite
      ensures Derived(env.(suite := s), a, seeds, nonce).rootKey == RootKey(s, x, cs)
      ensures Derived(env.(suite := s), b, others, nonce).rootKey == RootKey(s, y, ds)
    {
      DerivedUnder(env, s, a, seeds, nonce);
      DerivedUnder(env, s, b, others, nonce);
    }
    RootKeyTellsApart(x, cs, y, ds);
    if x != y || cs != ds {
      var s: Suite :| RootKey(s, x, cs) != RootKey(s, y, ds);
      assert Derived(env.(suite := s), a, seeds, nonce).rootKey != Derived(env.(suite := s), b, others, nonce).rootKey;
    }
  }

  // ---- The recipient's side ----

  predicate ComponentsFit(p: Profile, handles: seq<Handle>, cs: seq<Component>) {
    |p.sources| == |handles| == |cs| && forall i :: 0 <= i < |cs| ==> p.sources[i].algorithmId == cs[i].algId
  }

  predicate AllDecapsulate(p: Profile, handles: seq<Handle>, cs: seq<Component>)
    requires |p.sources| == |handles| == |cs|
  {
    forall i :: 0 <= i < |cs| ==> p.sources[i].decapsulate(handles[i], cs[i].ciphertext).Some?
  }

  function Decapsulated(p: Profile, handles: seq<Handle>, cs: seq<Component>): (ss: seq<bytes>)
    requires |p.sources| == |handles| == |cs| && AllDecapsulate(p, handles, cs)
    ensures |ss| == |cs|
  {
    seq(|cs|, i requires 0 <= i < |cs| => p.sources[i].decapsulate(handles[i], cs[i].ciphertext).value)
  }

  function Recovered(s: Suite, p: Profile, handles: seq<Handle>, cs: seq<Component>): Option<Key> {
    if ComponentsFit(p, handles, cs) && AllDecapsulate(p, handles, cs)
       && InfoFits(DEFAULT_CONTEXT, cs, COMBINER_SPEC_VERSION)
    then Some(RootKey(s, Decapsulated(p, handles, cs), cs))
    else None
  }

  /** The downgrade check: the error it raises, None when it lets the header pass. */
  function Gate(reg: Registry, profileId: string, minProfile: Option<string>): Option<Error> {
    if minProfile.None? then None
    else if profileId !in reg || minProfile.value !in reg then Some(DecryptionError)
    else if reg[profileId].strengthLevel < reg[minProfile.value].strengthLevel then Some(DowngradeError)
    else None
  }

  /** From the header at the start of data to the session it belongs to, and the header's length. */
  function RecipientSession(env: Env, handles: seq<Handle>, minProfile: Option<string>,
                            data: bytes): (r: Result<(Session, nat)>)
    ensures r.Success? ==> r.value.1 <= |data| && r.value.0.header == data[..r.value.1]
    ensures r.Failure? ==> r.error in {DecryptionError, DowngradeError}
  {
    match Parsed(data)
    case None => Failure(DecryptionError)
    case Some((h, consumed)) =>
      PrintParsed(data);
      var gate := Gate(env.reg, h.profileId, minProfile);
      if gate.Some? then Failure(gate.value)
      else if h.nonce.None? || h.profileId !in env.reg then Failure(DecryptionError)
      else match Recovered(env.suite, env.reg[h.profileId], handles, h.components)
        case None => Failure(DecryptionError)
        case Some(key) => Success((Session(key, data[..consumed], h.nonce.value), consumed))
  }

  // ---- Agreement ----

  /** Each handle is the private half of the bundle's key at its position. */
  ghost predicate HandlesMatch(p: Profile, keys: seq<PublicKey>, handles: seq<Handle>) {
    |p.sources| == |keys| == |handles|
    && forall i :: 0 <= i < |keys| ==> Matches(p.sources[i], keys[i].key, handles[i])
  }

  /** The identifiers of a profile can stand in a header. */
  predicate NamesFit(profileId: string, p: Profile) {
    && profileId != ""
    && (forall i :: 0 <= i < |p.sources| ==> p.sources[i].algorithmId != "")
    && (forall i, j :: 0 <= i < j < |p.sources| ==> p.sources[i].algorithmId != p.sources[j].algorithmId)
  }

  /** Component and secret i come from source i's encapsulation. */
  lemma SentAt(p: Profile, keys: seq<PublicKey>, seeds: Seeds, i: nat)
    requires |p.sources| == |keys| && AllEncapsulate(p, keys, seeds) && i < |keys|
    ensures var enc := p.sources[i].encapsulate(keys[i].key, seeds(i)).value;
            && SentComponents(p, keys, seeds)[i] == Component(keys[i].algId, enc.ciphertext)
            && Secrets(Encapsulations(p, keys, seeds))[i] == enc.sharedSecret
  {
  }

  lemma RecipientRecoversAt(p: Profile, keys: seq<PublicKey>, seeds: Seeds, handles: seq<Handle>, i: nat)
    requires |p.sources| == |keys| && AllEncapsulate(p, keys, seeds) && i < |keys|
    requires HandlesMatch(p, keys, handles)
    ensures p.sources[i].decapsulate(handles[i], SentComponents(p, keys, seeds)[i].ciphertext)
         == Some(Secrets(Encapsulations(p, keys, seeds))[i])
  {
    hide SentComponents, Encapsulations, Secrets;
    SentAt(p, keys, seeds, i);
    assert Matches(p.sources[i], keys[i].key, handles[i]);
  }

  lemma RecoveredFrom(s: Suite, p: Profile, handles: seq<Handle>, cs: seq<Component>, ids: seq<string>,
                      secrets: seq<bytes>)
    requires |p.sources| == |handles| == |cs| == |ids| == |secrets|
    requires forall k :: 0 <= k < |cs| ==>
      && p.sources[k].algorithmId == cs[k].algId == ids[k]
      && p.sources[k].decapsulate(handles[k], cs[k].ciphertext) == Some(secrets[k])
    ensures ids == Ids(cs)
    ensures Recovered(s, p, handles, cs)
         == if InfoFits(DEFAULT_CONTEXT, cs, COMBINER_SPEC_VERSION) then Some(RootKey(s, secrets, cs)) else None
  {
    hide InfoFits, RootKey;
    assert AllDecapsulate(p, handles, cs) && Decapsulated(p, handles, cs) == secrets;
  }

  lemma RecipientRecovers(s: Suite, p: Profile, keys: seq<PublicKey>, seeds: Seeds, handles: seq<Handle>)
    requires BundleFits(p, keys) && AllEncapsulate(p, keys, seeds) && HandlesMatch(p, keys, handles)
    requires InfoFits(DEFAULT_CONTEXT, SentComponents(p, keys, seeds), COMBINER_SPEC_VERSION)
    ensures Recovered(s, p, handles, SentComponents(p, keys, seeds))
         == Some(RootKey(s, Secrets(Encapsulations(p, keys, seeds)), SentComponents(p, keys, seeds)))
  {
    assert |handles| == |keys|;
    hide InfoFits, RootKey, SentComponents, Encapsulations, Secrets, AllEncapsulate, Recovered, Ids, HandlesMatch;
    var cs := SentComponents(p, keys, seeds);
    var secrets := Secrets(Encapsulations(p, keys, seeds));
    forall i: nat | i < |cs|
      ensures p.sources[i].algorithmId == cs[i].algId == KeyIds(keys)[i]
      ensures p.sources[i].decapsulate(handles[i], cs[i].ciphertext) == Some(secrets[i])
    {
      SentAt(p, keys, seeds, i);
      RecipientRecoversAt(p, keys, seeds, handles, i);
    }
    RecoveredFrom(s, p, handles, cs, KeyIds(keys), secrets);
  }

  lemma NamesCarryOver(profileId: string, p: Profile, keys: seq<PublicKey>, seeds: Seeds)
    requires BundleFits(p, keys) && AllEncapsulate(p, keys, seeds)
    ensures NamesFit(profileId, p) <==>
            && profileId != ""
            && NonEmptyIds(SentComponents(p, keys, seeds)) && DistinctIds(SentComponents(p, keys, seeds))
  {
    hide SentComponents, AllEncapsulate;
    var cs := SentComponents(p, keys, seeds);
    forall i: nat | i < |cs| ensures p.sources[i].algorithmId == cs[i].algId {
      SentAt(p, keys, seeds, i);
    }
  }

  /** The fields of a sender's header, and that its recipient recovers the sender's key from them. */
  lemma SentHeader(env: Env, bundle: PublicBundle, seeds: Seeds, nonce: Nonce)
    requires CanDerive(env, bundle, seeds)
    ensures bundle.profileId in env.reg
    ensures var d, p := Derived(env, bundle, seeds, nonce), env.reg[bundle.profileId];
            && d.header.profileId == bundle.profileId
            && d.header.version == FORMAT_VERSION && d.header.nonce == Some(nonce)
            && d.header.components != []
            && (NamesFit(bundle.profileId, p) <==>
                bundle.profileId != "" && NonEmptyIds(d.header.components) && DistinctIds(d.header.components))
            && forall handles :: HandlesMatch(p, bundle.publicKeys, handles) ==>
                 Recovered(env.suite, p, handles, d.header.components) == Some(d.rootKey)
  {
    hide RootKey, InfoFits, NamesFit, SentComponents, AllEncapsulate, Encapsulations, BundleFits, Secrets,
      NonEmptyIds, DistinctIds, Recovered, HandlesMatch;
    var p := env.reg[bundle.profileId];
    NamesCarryOver(bundle.profileId, p, bundle.publicKeys, seeds);
    assert |p.sources| == |bundle.publicKeys| by { SameCount(p, bundle.publicKeys); }
    forall handles | HandlesMatch(p, bundle.publicKeys, handles)
      ensures Recovered(env.suite, p, handles, Derived(env, bundle, seeds, nonce).header.components)
           == Some(Derived(env, bundle, seeds, nonce).rootKey)
    {
      RecipientRecovers(env.suite, p, bundle.publicKeys, seeds, handles);
    }
  }

  lemma SameCount(p: Profile, keys: seq<PublicKey>)
    requires BundleFits(p, keys)
    ensures |p.sources| == |keys|
  {
  }

  /** A sender's header parses back exactly when the profile's names can stand in a header. */
  lemma SentHeaderParses(env: Env, bundle: PublicBundle, seeds: Seeds, nonce: Nonce, rest: bytes)
    requires SenderSession(env, bundle, seeds, nonce).Some?
    ensures var c := SenderSession(env, bundle, seeds, nonce).value;
            Parsed(c.header + rest) == if NamesFit(bundle.profileId, env.reg[bundle.profileId])
                                       then Some((Derived(env, bundle, seeds, nonce).header, |c.header|)) else None
  {
    hide Parsed, Serialized, Serializable, WellFormed, NamesFit, CanDerive, Derived, NonEmptyIds, DistinctIds,
      HandlesMatch, Recovered, AsWritten;
    SentHeader(env, bundle, seeds, nonce);
    CurrentHeaderWellFormedIff(Derived(env, bundle, seeds, nonce).header);
    ParsePrinted(Derived(env, bundle, seeds, nonce).header, rest);
  }

  /** What the recipient makes of a sender's header: a rejection when the profile's names
      cannot stand in a header, else the gate's error, else the sender's own session. */
  lemma SessionsAgree(env: Env, bundle: PublicBundle, seeds: Seeds, nonce: Nonce,
                      handles: seq<Handle>, minProfile: Option<string>, rest: bytes)
    requires SenderSession(env, bundle, seeds, nonce).Some?
    requires HandlesMatch(env.reg[bundle.profileId], bundle.publicKeys, handles)
    ensures var c := SenderSession(env, bundle, seeds, nonce).value;
            RecipientSession(env, handles, minProfile, c.header + rest)
              == if !NamesFit(bundle.profileId, env.reg[bundle.profileId]) then Failure(DecryptionError)
                 else match Gate(env.reg, bundle.profileId, minProfile)
                   case Some(e) => Failure(e)
                   case None => Success((c, |c.header|))
  {
    hide Parsed, Serialized, Serializable, Recovered, NamesFit, Gate, CanDerive, Derived, NonEmptyIds, DistinctIds,
        HandlesMatch;
    var c := SenderSession(env, bundle, seeds, nonce).value;
    SentHeader(env, bundle, seeds, nonce);
    SentHeaderParses(env, bundle, seeds, nonce, rest);
    assert (c.header + rest)[..|c.header|] == c.header;
  }

  /** With one source, a sender session exists as soon as it encapsulates and the fields fit. */
  lemma OneSourceSession(s: Suite, id: string, source: Source, pub: bytes, seeds: Seeds, nonce: Nonce)
    requires TextFits(id) && TextFits(source.algorithmId)
    requires source.encapsulate(pub, seeds(0)).Some?
    requires |source.encapsulate(pub, seeds(0)).value.ciphertext| < U16_LIMIT
    ensures var env := Env(s, map[id := Profile(id, [source], 1)]);
            SenderSession(env, PublicBundle(id, [PublicKey(source.algorithmId, pub)]), seeds, nonce).Some?
  {
    hide RootKey, Utf8.Encode;
    var p, keys := Profile(id, [source], 1), [PublicKey(source.algorithmId, pub)];
    var env, bundle := Env(s, map[id := p]), PublicBundle(id, keys);
    SentAt(p, keys, seeds, 0);
    var cs := SentComponents(p, keys, seeds);
    assert |cs| == 1 && ComponentFits(cs[0]) && InfoFits(DEFAULT_CONTEXT, cs, COMBINER_SPEC_VERSION);
    assert CanDerive(env, bundle, seeds) && Serializable(Derived(env, bundle, seeds, nonce).header);
  }

  /** The premises of agreement hold together: with the mock source as only component a sender
      session exists, its handles match and its names fit. */
  lemma MockSessionExists(s: Suite, keySeed: Seed, seeds: Seeds, nonce: Nonce)
    ensures var p := Profile("mock", [MockSource()], 1);
            var (pub, handle) := MockSource().generateKeypair(keySeed).value;
            var bundle := PublicBundle("mock", [PublicKey(MockSource().algorithmId, pub)]);
            && SenderSession(Env(s, map["mock" := p]), bundle, seeds, nonce).Some?
            && HandlesMatch(p, bundle.publicKeys, [handle]) && NamesFit("mock", p)
  {
    hide SenderSession, Utf8.Encode;
    var (pub, handle) := MockSource().generateKeypair(keySeed).value;
    MockSourceCorrect();
    Utf8.EncodeAsciiLength("mock");
    Utf8.EncodeAsciiLength(MockSource().algorithmId);
    OneSourceSession(s, "mock", MockSource(), pub, seeds, nonce);
  }

  /** The shipped profiles have names that fit, given the identifiers of the shipped sources. */
  lemma ShippedNamesFit(x: Source, m768: Source, m1024: Source, id: string)
    requires x.algorithmId == "x25519" && m768.algorithmId == "mlkem768" && m1024.algorithmId == "mlkem1024"
    requires id in ProfileRegistry(x, m768, m1024)
    ensures NamesFit(id, ProfileRegistry(x, m768, m1024)[id])
  {
    assert x.algorithmId[0] != m768.algorithmId[0] && x.algorithmId[0] != m1024.algorithmId[0];
  }

  function SourceIds(p: Profile): seq<string> {
    seq(|p.sources|, i requires 0 <= i < |p.sources| => p.sources[i].algorithmId)
  }

  lemma RecoveredMatchesProfile(s: Suite, p: Profile, handles: seq<Handle>, cs: seq<Component>)
    requires Recovered(s, p, handles, cs).Some?
    ensures Ids(cs) == SourceIds(p) && |handles| == |p.sources|
  {
    hide InfoFits, AllDecapsulate, RootKey;
  }

  /** A header the recipient accepts names exactly the sources of its profile, in order
      and number, one handle each, and is no weaker than the stated minimum. */
  lemma AcceptedHeaderMatchesProfile(env: Env, handles: seq<Handle>, minProfile: Option<string>, data: bytes)
    requires RecipientSession(env, handles, minProfile, data).Success?
    ensures Parsed(data).Some?
    ensures var h := Parsed(data).value.0;
            && h.version == FORMAT_VERSION && h.profileId in env.reg
            && var p := env.reg[h.profileId];
               && Ids(h.components) == SourceIds(p) && |handles| == |p.sources|
               && (minProfile.Some? ==>
                   minProfile.value in env.reg && env.reg[minProfile.value].strengthLevel <= p.strengthLevel)
  {
    hide Parsed, Recovered, SourceIds, Ids;
    var h := Parsed(data).value.0;
    PrintParsed(data);
    RecoveredMatchesProfile(env.suite, env.reg[h.profileId], handles, h.components);
  }

  /** Once the header parses, DowngradeError means exactly that both profiles are known and the
      header's is weaker than the minimum; no primitive and no key has a say in it. */
  lemma DowngradeIffWeaker(env: Env, handles: seq<Handle>, minProfile: Option<string>, data: bytes)
    requires Parsed(data).Some?
    ensures RecipientSession(env, handles, minProfile, data) == Failure(DowngradeError)
       <==> minProfile.Some? && var id := Parsed(data).value.0.profileId;
            id in env.reg && minProfile.value in env.reg
            && env.reg[id].strengthLevel < env.reg[minProfile.value].strengthLevel
  {
    hide Parsed, Recovered;
  }

  /** Under the shipped registry the gate lets exactly the profiles from the minimum up pass. */
  lemma ShippedGate(x: Source, m768: Source, m1024: Source)
    ensures var order := ["classical_only", "hybrid_standard", "hybrid_high"];
            forall i, j :: 0 <= i < 3 && 0 <= j < 3 ==>
              Gate(ProfileRegistry(x, m768, m1024), order[i], Some(order[j]))
                == if i < j then Some(DowngradeError) else None
  {
  }

  // ---- Whole-message encryption ----

  function Blob(s: Suite, c: Session, text: bytes): bytes {
    c.header + Seal(s, c.key, c.base, c.header, text)
  }

  function Decrypted(env: Env, handles: seq<Handle>, minProfile: Option<string>, blob: bytes): Result<bytes> {
    match RecipientSession(env, handles, minProfile, blob)
    case Failure(e) => Failure(e)
    case Success((c, consumed)) =>
      match Open(env.suite, c.key, c.base, c.header, blob[consumed..])
      case None => Failure(DecryptionError)
      case Some(text) => Success(text)
  }

  /** Decryption accepts a blob exactly when the blob is the text sealed under the session its header opens. */
  lemma DecryptsExactlyBlobs(env: Env, handles: seq<Handle>, minProfile: Option<string>, blob: bytes, text: bytes)
    ensures Decrypted(env, handles, minProfile, blob) == Success(text)
       <==> RecipientSession(env, handles, minProfile, blob).Success?
            && blob == Blob(env.suite, RecipientSession(env, handles, minProfile, blob).value.0, text)
  {
    hide RecipientSession, Open, Seal;
    if RecipientSession(env, handles, minProfile, blob).Success? {
      var (c, consumed) := RecipientSession(env, handles, minProfile, blob).value;
      OpenIffSealed(env.suite, c.key, c.base, c.header, blob[consumed..], text);
      assert blob == blob[..consumed] + blob[consumed..];
      assert Blob(env.suite, c, text)[consumed..] == Seal(env.suite, c.key, c.base, c.header, text);
    }
  }

  /** A blob byte by byte: the header, the text with the keystream's bits flipped, and the tag of
      that under the whole header. */
  lemma BlobLayout(s: Suite, c: Session, text: bytes)
    ensures var b, h := Blob(s, c, text), |c.header|;
            && |b| == h + |text| + 16 && b[..h] == c.header
            && (forall i, j :: 0 <= i < |text| && 0 <= j < 8 ==>
                  (Bit(b[h + i], j) <==> Bit(text[i], j) != Bit(s.keystream(c.key, c.base, i), j)))
            && b[h + |text|..] == s.tag(c.key, c.base, c.header, b[h..h + |text|])
  {
    hide Seal, Bit;
    var ct := Seal(s, c.key, c.base, c.header, text);
    var b, h := Blob(s, c, text), |c.header|;
    SealMasksEveryBit(s, c.key, c.base, c.header, text);
    assert b[h..h + |text|] == ct[..|text|] && b[h + |text|..] == ct[|text|..];
    forall i, j | 0 <= i < |text| && 0 <= j < 8
      ensures Bit(b[h + i], j) <==> Bit(text[i], j) != Bit(s.keystream(c.key, c.base, i), j)
    {
      assert b[h + i] == ct[i];
    }
  }

  /** decrypt(encrypt(m)) is m, up to the gate, exactly for profiles whose names fit. */
  lemma BlobRoundTrip(env: Env, bundle: PublicBundle, seeds: Seeds, nonce: Nonce,
                      handles: seq<Handle>, minProfile: Option<string>, text: bytes)
    requires SenderSession(env, bundle, seeds, nonce).Some?
    requires HandlesMatch(env.reg[bundle.profileId], bundle.publicKeys, handles)
    ensures Decrypted(env, handles, minProfile, Blob(env.suite, SenderSession(env, bundle, seeds, nonce).value, text))
         == if !NamesFit(bundle.profileId, env.reg[bundle.profileId]) then Failure(DecryptionError)
            else match Gate(env.reg, bundle.profileId, minProfile)
              case Some(e) => Failure(e)
              case None => Success(text)
  {
    hide RecipientSession, SenderSession, NamesFit, Gate, Seal, Open;
    var c := SenderSession(env, bundle, seeds, nonce).value;
    var ct := Seal(env.suite, c.key, c.base, c.header, text);
    SessionsAgree(env, bundle, seeds, nonce, handles, minProfile, ct);
    OpenSealed(env.suite, c.key, c.base, c.header, text);
    assert Blob(env.suite, c, text)[|c.header|..] == ct;
  }

  /** A message sealed for the profile of a policy decision opens under the decision's own
      minimum: it can never be refused as a downgrade of itself. */
  lemma OwnDecisionNeverDowngrades(env: Env, table: Json.Json, c: Constraint, i: nat, bundle: PublicBundle,
                                   seeds: Seeds, nonce: Nonce, handles: seq<Handle>, text: bytes)
    requires Policy.Complete(env.reg) && i < 3
    requires bundle.profileId == DecisionAt(table, env.reg, c, i).profile.profileId
    ensures SenderSession(env, bundle, seeds, nonce).Some?
            && HandlesMatch(env.reg[bundle.profileId], bundle.publicKeys, handles)
            && NamesFit(bundle.profileId, env.reg[bundle.profileId]) ==>
              Decrypted(env, handles, Some(DecisionAt(table, env.reg, c, i).minAcceptedProfile),
                        Blob(env.suite, SenderSession(env, bundle, seeds, nonce).value, text)) == Success(text)
  {
    hide Decrypted, Blob, NamesFit, HandlesMatch;
    var minProfile := Some(DecisionAt(table, env.reg, c, i).minAcceptedProfile);
    assert Gate(env.reg, bundle.profileId, minProfile) == None;
    if SenderSession(env, bundle, seeds, nonce).Some?
       && HandlesMatch(env.reg[bundle.profileId], bundle.publicKeys, handles) {
      BlobRoundTrip(env, bundle, seeds, nonce, handles, minProfile, text);
    }
  }

  // ---- The operations as the library runs them ----

  predicate AllGenerate(p: Profile, seeds: Seeds) {
    forall k :: 0 <= k < |p.sources| ==> p.sources[k].generateKeypair(seeds(k)).Some?
  }

  /** The profile is the engine's choice; the key set exists exactly when there is a choice and all
      its sources generate; and correct sources make matching handles. */
  method EstablishKeys(env: Env, engine: PolicyEngine, c: Constraint, requireQuantumSafe: bool, seeds: Seeds)
    returns (r: Result<KeySet>)
    requires Policy.Complete(env.reg)
    ensures exists i: nat ::
      && IsChoice(engine.riskTable, env.reg, c, requireQuantumSafe, i)
      && (r.Success? <==> i < 3 && AllGenerate(DecisionAt(engine.riskTable, env.reg, c, i).profile, seeds))
      && (r.Success? ==> r.value.decision == DecisionAt(engine.riskTable, env.reg, c, i))
      && (r.Failure? ==> r.error == if i == 3 then RuntimeError else SourceError)
    ensures r.Success? ==>
      && r.value.profile == r.value.decision.profile
      && r.value.publicBundle.profileId == r.value.profile.profileId
      && BundleFits(r.value.profile, r.value.publicBundle.publicKeys)
      && |r.value.privateHandles| == |r.value.profile.sources|
      && (forall k :: 0 <= k < |r.value.profile.sources| ==>
            r.value.profile.sources[k].generateKeypair(seeds(k))
              == Some((r.value.publicBundle.publicKeys[k].key, r.value.privateHandles[k])))
      && ((forall i :: 0 <= i < |r.value.profile.sources| ==> Correct(r.value.profile.sources[i]))
          ==> HandlesMatch(r.value.profile, r.value.publicBundle.publicKeys, r.value.privateHandles))
  {
    hide Usable, HasDeprecated, IsChoice, Matches;
    var decided := engine.Decide(env.reg, c, requireQuantumSafe);
    if decided.Failure? { return Failure(RuntimeError); }
    ghost var choice: nat :| choice < 3 && IsChoice(engine.riskTable, env.reg, c, requireQuantumSafe, choice)
      && decided.value == DecisionAt(engine.riskTable, env.reg, c, choice);
    var p := decided.value.profile;
    var publicKeys: seq<PublicKey> := [];
    var privateHandles: seq<Handle> := [];
    for i := 0 to |p.sources|
      invariant |publicKeys| == |privateHandles| == i
      invariant forall k :: 0 <= k < i ==>
        && p.sources[k].generateKeypair(seeds(k)) == Some((publicKeys[k].key, privateHandles[k]))
        && publicKeys[k].algId == p.sources[k].algorithmId
        && (Correct(p.sources[k]) ==> Matches(p.sources[k], publicKeys[k].key, privateHandles[k]))
    {
      var pair := p.sources[i].generateKeypair(seeds(i));
      if pair.None? {
        assert !AllGenerate(p, seeds);
        return Failure(SourceError);
      }
      publicKeys := publicKeys + [PublicKey(p.sources[i].algorithmId, pair.value.0)];
      privateHandles := privateHandles + [pair.value.1];
    }
    return Success(KeySet(p, PublicBundle(p.profileId, publicKeys), privateHandles, decided.value));
  }

  /** establish_keys() as shipped: the bundled table, the shipped registry, the default constraint.
      While every source is available it makes a key pair for X25519 and then one for ML-KEM-768. */
  method EstablishDefaultKeys(s: Suite, note: string, notes: string -> string, x: Source, m768: Source,
                              m1024: Source, requireQuantumSafe: bool, seeds: Seeds)
    returns (r: Result<KeySet>)
    requires AllShipped(x, m768, m1024)
    ensures r.Success? <==> x.generateKeypair(seeds(0)).Some? && m768.generateKeypair(seeds(1)).Some?
    ensures r.Success? ==>
      && r.value.publicBundle.profileId == "hybrid_standard"
      && |r.value.publicBundle.publicKeys| == |r.value.privateHandles| == 2
      && KeyIds(r.value.publicBundle.publicKeys) == ["x25519", "mlkem768"]
      && x.generateKeypair(seeds(0)) == Some((r.value.publicBundle.publicKeys[0].key, r.value.privateHandles[0]))
      && m768.generateKeypair(seeds(1)) == Some((r.value.publicBundle.publicKeys[1].key, r.value.privateHandles[1]))
  {
    hide ShippedTable, ValidTable, Usable, HasDeprecated, IsChoice;
    var env := Env(s, ProfileRegistry(x, m768, m1024));
    ghost var table := ShippedTable(note, notes);
    ShippedTableIsValid(note, notes);
    ShippedChoice(note, notes, x, m768, m1024, BALANCED, requireQuantumSafe);
    var engine := PolicyEngine.Make(ShippedTable(note, notes));
    if engine.Failure? { assert false; }
    r := EstablishKeys(env, engine.value, BALANCED, requireQuantumSafe, seeds);
    ghost var i: nat :| IsChoice(table, env.reg, BALANCED, requireQuantumSafe, i)
      && (r.Success? <==> i < 3 && AllGenerate(DecisionAt(table, env.reg, BALANCED, i).profile, seeds))
      && (r.Success? ==> r.value.decision == DecisionAt(table, env.reg, BALANCED, i));
    ChoiceIsUnique(table, env.reg, BALANCED, requireQuantumSafe, i, 0);
    TwoGenerate(env.reg["hybrid_standard"], seeds);
  }

  lemma TwoGenerate(p: Profile, seeds: Seeds)
    requires |p.sources| == 2
    ensures AllGenerate(p, seeds) <==>
            p.sources[0].generateKeypair(seeds(0)).Some? && p.sources[1].generateKeypair(seeds(1)).Some?
  {
  }

  lemma EncapsulationsAre(p: Profile, keys: seq<PublicKey>, seeds: Seeds, encs: seq<Encapsulation>)
    requires |p.sources| == |keys| == |encs|
    requires forall k :: 0 <= k < |keys| ==>
      && p.sources[k].algorithmId == keys[k].algId
      && p.sources[k].encapsulate(keys[k].key, seeds(k)) == Some(encs[k])
    ensures BundleFits(p, keys) && AllEncapsulate(p, keys, seeds) && Encapsulations(p, keys, seeds) == encs
  {
  }

  method DeriveRootKey(env: Env, bundle: PublicBundle, seeds: Seeds, nonce: Nonce) returns (r: Result<DerivedRoot>)
    ensures r.Success? <==> CanDerive(env, bundle, seeds)
    ensures r.Success? ==> r.value == Derived(env, bundle, seeds, nonce)
    ensures r.Failure? ==> r.error in {ValueError, SourceError, StructError}
  {
    hide InfoFits, RootKey, Encapsulations, Secrets, Bound, KeyIds;
    var profile := GetProfile(env.reg, bundle.profileId);
    if profile.Failure? { return Failure(ValueError); }
    var p, keys := profile.value, bundle.publicKeys;
    if |p.sources| != |keys| { return Failure(ValueError); }
    var encs: seq<Encapsulation> := [];
    for i := 0 to |keys|
      invariant |encs| == i
      invariant forall k :: 0 <= k < i ==>
        && p.sources[k].algorithmId == keys[k].algId
        && p.sources[k].encapsulate(keys[k].key, seeds(k)) == Some(encs[k])
    {
      if p.sources[i].algorithmId != keys[i].algId { return Failure(ValueError); }
      var enc := p.sources[i].encapsulate(keys[i].key, seeds(i));
      if enc.None? { return Failure(SourceError); }
      encs := encs + [enc.value];
    }
    EncapsulationsAre(p, keys, seeds, encs);
    var combined := Combine(env.suite, KeyIds(keys), encs);
    if combined.Failure? { return Failure(combined.error); }
    var header := Header(bundle.profileId, combined.value.components, Some(nonce), FORMAT_VERSION);
    return Success(DerivedRoot(combined.value.rootKey, header));
  }

  /** The common start of encrypt, encrypt_stream and migrate_stream: derive and serialize. */
  method StartSession(env: Env, bundle: PublicBundle, seeds: Seeds, nonce: Nonce) returns (r: Result<Session>)
    ensures r.Success? <==> SenderSession(env, bundle, seeds, nonce).Some?
    ensures r.Success? ==> Some(r.value) == SenderSession(env, bundle, seeds, nonce)
    ensures r.Failure? ==> r.error in {ValueError, SourceError, StructError}
  {
    hide CanDerive, Serializable, RootKey;
    var derived := DeriveRootKey(env, bundle, seeds, nonce);
    if derived.Failure? { return Failure(derived.error); }
    var headerBytes := ToBytes(derived.value.header);
    if headerBytes.Failure? { return Failure(ValueError); }
    if derived.value.header.nonce.None? { assert false; }
    return Success(Session(derived.value.rootKey, headerBytes.value, nonce));
  }

  method RecoverRootKeyInternal(s: Suite, handles: seq<Handle>, h: Header, p: Profile) returns (r: Result<Key>)
    ensures r.Success? <==> Recovered(s, p, handles, h.components).Some?
    ensures r.Success? ==> Some(r.value) == Recovered(s, p, handles, h.components)
    ensures r.Failure? ==> r.error in {ValueError, SourceError, StructError}
  {
    hide InfoFits, RootKey, Ids, Decapsulated;
    var cs := h.components;
    if !(|p.sources| == |handles| == |cs|) { return Failure(ValueError); }
    var ids: seq<string> := [];
    var secrets: seq<bytes> := [];
    for i := 0 to |cs|
      invariant |ids| == |secrets| == i
      invariant forall k :: 0 <= k < i ==>
        && p.sources[k].algorithmId == cs[k].algId == ids[k]
        && p.sources[k].decapsulate(handles[k], cs[k].ciphertext) == Some(secrets[k])
    {
      if p.sources[i].algorithmId != cs[i].algId { return Failure(ValueError); }
      var secret := p.sources[i].decapsulate(handles[i], cs[i].ciphertext);
      if secret.None? { return Failure(SourceError); }
      ids, secrets := ids + [cs[i].algId], secrets + [secret.value];
    }
    RecoveredFrom(s, p, handles, cs, ids, secrets);
    var combined := CombineFromSecrets(s, ids, secrets, cs);
    if combined.Failure? { return Failure(combined.error); }
    return Success(combined.value.rootKey);
  }

  method DowngradeCheck(reg: Registry, profileId: string, minProfile: Option<string>) returns (r: Result<()>)
    ensures r == match Gate(reg, profileId, minProfile) case Some(e) => Failure(e) case None => Success(())
  {
    if minProfile.None? { return Success(()); }
    var headerProfile := GetProfile(reg, profileId);
    var minProf := GetProfile(reg, minProfile.value);
    if headerProfile.Failure? || minProf.Failure? { return Failure(DecryptionError); }
    if headerProfile.value.strengthLevel < minProf.value.strengthLevel { return Failure(DowngradeError); }
    return Success(());
  }

  /** recover_root_key(): also accepts version 1 headers. */
  method RecoverRootKey(env: Env, handles: seq<Handle>, h: Header, minProfile: Option<string>) returns (r: Result<Key>)
    ensures r == if h.profileId !in env.reg then Failure(DecryptionError)
                 else match Gate(env.reg, h.profileId, minProfile)
                   case Some(e) => Failure(e)
                   case None =>
                     match Recovered(env.suite, env.reg[h.profileId], handles, h.components)
                     case None => Failure(DecryptionError)
                     case Some(key) => Success(key)
  {
    hide Recovered;
    var profile := GetProfile(env.reg, h.profileId);
    if profile.Failure? { return Failure(DecryptionError); }
    var gate := DowngradeCheck(env.reg, h.profileId, minProfile);
    if gate.Failure? { return Failure(gate.error); }
    r := RecoverRootKeyInternal(env.suite, handles, h, profile.value);
    if r.Failure? { return Failure(DecryptionError); }
  }

  /** The common start of decrypt, decrypt_stream and migrate_stream, on the bytes that hold the header. */
  method OpenSession(env: Env, handles: seq<Handle>, minProfile: Option<string>,
                     data: bytes) returns (r: Result<(Session, nat)>)
    ensures r == RecipientSession(env, handles, minProfile, data)
  {
    hide Parsed, Gate, Recovered;
    var parsed := FromBytes(data);
    if parsed.Failure? { return Failure(DecryptionError); }
    var (h, consumed) := parsed.value;
    PrintParsed(data);
    var gate := DowngradeCheck(env.reg, h.profileId, minProfile);
    if gate.Failure? { return Failure(gate.error); }
    if h.nonce.None? { return Failure(DecryptionError); }
    var profile := GetProfile(env.reg, h.profileId);
    if profile.Failure? { return Failure(DecryptionError); }
    var key := RecoverRootKeyInternal(env.suite, handles, h, profile.value);
    if key.Failure? { return Failure(DecryptionError); }
    return Success((Session(key.value, data[..consumed], h.nonce.value), consumed));
  }

  /** encrypt(); also reports what was sealed. */
  method Encrypt(env: Env, bundle: PublicBundle, text: bytes, seeds: Seeds, nonce: Nonce)
    returns (r: Result<bytes>, ghost log: seq<Sealed>)
    ensures r.Success? <==> SenderSession(env, bundle, seeds, nonce).Some?
    ensures r.Success? ==> var c := SenderSession(env, bundle, seeds, nonce).value;
                           r.value == Blob(env.suite, c, text) && log == [SealedBlob(env.suite, c, text)]
    ensures r.Success? ==>
      var c := SenderSession(env, bundle, seeds, nonce).value;
      var h := |c.header|;
      && |r.value| == h + |text| + 16 && r.value[..h] == c.header
      && forall i, j :: 0 <= i < |text| && 0 <= j < 8 ==>
           (Bit(r.value[h + i], j) <==> Bit(text[i], j) != Bit(env.suite.keystream(c.key, c.base, i), j))
    ensures r.Failure? ==> log == [] && r.error in {ValueError, SourceError, StructError}
  {
    hide SenderSession, Seal, Bit;
    var started := StartSession(env, bundle, seeds, nonce);
    if started.Failure? { return Failure(started.error), []; }
    var c := started.value;
    var aesgcm := new AesGcm(env.suite, c.key);
    var ct := aesgcm.Encrypt(c.base, text, c.header);
    BlobLayout(env.suite, c, text);
    return Success(c.header + ct), aesgcm.sealed;
  }

  function SealedBlob(s: Suite, c: Session, text: bytes): Sealed {
    Sealed(c.key, c.base, c.header, Seal(s, c.key, c.base, c.header, text))
  }

  method Decrypt(env: Env, handles: seq<Handle>, blob: bytes, minProfile: Option<string>) returns (r: Result<bytes>)
    ensures r == Decrypted(env, handles, minProfile, blob)
  {
    hide RecipientSession, Open;
    var session := OpenSession(env, handles, minProfile, blob);
    if session.Failure? { return Failure(session.error); }
    var (c, consumed) := session.value;
    var aesgcm := new AesGcm(env.suite, c.key);
    var text := aesgcm.Decrypt(c.base, blob[consumed..], c.header);
    if text.None? { return Failure(DecryptionError); }
    return Success(text.value);
  }

  /** migrate(): the plaintext under a new bundle; the new recipient reads what the old one would have. */
  method Migrate(env: Env, handles: seq<Handle>, blob: bytes, newBundle: PublicBundle, minProfile: Option<string>,
                 seeds: Seeds, nonce: Nonce)
    returns (r: Result<bytes>, ghost log: seq<Sealed>)
    ensures r.Success? <==>
      Decrypted(env, handles, minProfile, blob).Success? && SenderSession(env, newBundle, seeds, nonce).Some?
    ensures r.Success? ==> forall newHandles ::
      HandlesMatch(env.reg[newBundle.profileId], newBundle.publicKeys, newHandles)
      && NamesFit(newBundle.profileId, env.reg[newBundle.profileId])
      ==> Decrypted(env, newHandles, None, r.value) == Decrypted(env, handles, minProfile, blob)
    ensures r.Success? ==> r.value == Blob(env.suite, SenderSession(env, newBundle, seeds, nonce).value,
                                           Decrypted(env, handles, minProfile, blob).value)
    ensures log == if r.Failure? then []
                   else [SealedBlob(env.suite, SenderSession(env, newBundle, seeds, nonce).value,
                                    Decrypted(env, handles, minProfile, blob).value)]
  {
    hide Decrypted, NamesFit, HandlesMatch, Blob;
    var text := Decrypt(env, handles, blob, minProfile);
    if text.Failure? { return Failure(text.error), []; }
    r, log := Encrypt(env, newBundle, text.value, seeds, nonce);
    if r.Success? {
      forall newHandles | HandlesMatch(env.reg[newBundle.profileId], newBundle.publicKeys, newHandles)
        && NamesFit(newBundle.profileId, env.reg[newBundle.profileId])
        ensures Decrypted(env, newHandles, None, r.value) == text
      {
        BlobRoundTrip(env, newBundle, seeds, nonce, newHandles, None, text.value);
      }
    }
  }
}
