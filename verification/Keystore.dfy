// Password-wrapped key sets: export, import and the structural checks between them
// (cryptoflex/keystore.py). JSON and base64 text are abstract codecs.
module Keystore {
  import opened Wrappers
  import opened Bytes
  import opened Aead
  import opened Json
  import opened Sources
  import opened Profiles
  import opened Policy
  import opened Api

  const MAGIC_KEYSTORE_SCRYPT: bytes := [0x43, 0x46, 0x4C, 0x4B]   // "CFLK"
  const MAGIC_KEYSTORE_ARGON2: bytes := [0x43, 0x46, 0x4C, 0x41]   // "CFLA"
  const SALT_LEN: nat := 16
  const MAX_KEYSTORE_SIZE: nat := 16 * 1024 * 1024

  type Salt = s: bytes | |s| == SALT_LEN witness seq(SALT_LEN, _ => 0)

  /** json.dumps and json.loads with their UTF-8, base64, and the two password KDFs. */
  datatype Codec = Codec(
    dumps: Json -> bytes,
    loads: bytes -> Option<Json>,
    b64encode: bytes -> string,
    b64decode: string -> Option<bytes>,
    kdf: (string, bytes, bytes) -> Option<Key>)    // of (type, password, salt); None when it raises

  /** Base64 gives back what it was given. */
  ghost predicate Lossless(k: Codec) {
    forall b :: k.b64decode(k.b64encode(b)) == Some(b)
  }

  /** JSON text gives back this value. */
  predicate TextSurvives(k: Codec, j: Json) {
    k.loads(k.dumps(j)) == Some(j)
  }

  // ---- Public bundles ----

  function KeyJson(k: Codec, key: PublicKey): Json {
    JObject(map["alg_id" := JString(key.algId), "key_b64" := JString(k.b64encode(key.key))])
  }

  function BundleJson(k: Codec, bundle: PublicBundle): Json {
    JObject(map[
      "profile_id" := JString(bundle.profileId),
      "public_keys" := JArray(
        seq(|bundle.publicKeys|, i requires 0 <= i < |bundle.publicKeys| => KeyJson(k, bundle.publicKeys[i])))])
  }

  function KeyOf(k: Codec, item: Json): Option<PublicKey> {
    if !item.JObject? || !Get(item, "alg_id").JString? || !Get(item, "key_b64").JString? then None
    else match k.b64decode(Get(item, "key_b64").s)
      case None => None
      case Some(key) => Some(PublicKey(Get(item, "alg_id").s, key))
  }

  /** The bundle a JSON value describes, when every part has the right type and decodes. */
  function BundleOf(k: Codec, j: Json): Option<PublicBundle> {
    if !j.JObject? || !Get(j, "profile_id").JString? || !Get(j, "public_keys").JArray? then None
    else
      var items := Get(j, "public_keys").items;
      if forall i :: 0 <= i < |items| ==> KeyOf(k, items[i]).Some?
      then Some(PublicBundle(Get(j, "profile_id").s,
                             seq(|items|, i requires 0 <= i < |items| => KeyOf(k, items[i]).value)))
      else None
  }

  lemma KeyRoundTrip(k: Codec, key: PublicKey)
    requires Lossless(k)
    ensures KeyOf(k, KeyJson(k, key)) == Some(key)
  {
  }

  /** The field names of a bundle, in a bundle of one key. */
  lemma OneKeyBundle(k: Codec, id: string, algId: string, text: string)
    ensures var key := JObject(map["alg_id" := JString(algId), "key_b64" := JString(text)]);
            BundleOf(k, JObject(map["profile_id" := JString(id), "public_keys" := JArray([key])]))
              == match k.b64decode(text)
                 case None => None
                 case Some(bytes) => Some(PublicBundle(id, [PublicKey(algId, bytes)]))
  {
    var key := JObject(map["alg_id" := JString(algId), "key_b64" := JString(text)]);
    assert KeyOf(k, key) == match k.b64decode(text)
                            case None => None
                            case Some(bytes) => Some(PublicKey(algId, bytes));
    hide KeyOf;
    var j := JObject(map["profile_id" := JString(id), "public_keys" := JArray([key])]);
    assert Get(j, "public_keys").items == [key];
    assert forall i :: 0 <= i < 1 ==> Get(j, "public_keys").items[i] == key;
    if KeyOf(k, key).Some? {
      assert BundleOf(k, j).value.publicKeys == [KeyOf(k, key).value];
    } else {
      assert KeyOf(k, Get(j, "public_keys").items[0]).None?;
    }
  }

  lemma BundleRoundTrip(k: Codec, bundle: PublicBundle)
    requires Lossless(k)
    ensures BundleOf(k, BundleJson(k, bundle)) == Some(bundle)
  {
    hide KeyOf, KeyJson;
    var items := Get(BundleJson(k, bundle), "public_keys").items;
    forall i | 0 <= i < |items| ensures KeyOf(k, items[i]) == Some(bundle.publicKeys[i]) {
      KeyRoundTrip(k, bundle.publicKeys[i]);
    }
    assert seq(|items|, i requires 0 <= i < |items| => KeyOf(k, items[i]).value) == bundle.publicKeys;
  }

  method DeserializePublicBundle(k: Codec, j: Json) returns (r: Result<PublicBundle>)
    ensures r == match BundleOf(k, j) case Some(b) => Success(b) case None => Failure(DecryptionError)
  {
    hide KeyOf;
    if !j.JObject? || !Get(j, "profile_id").JString? { return Failure(DecryptionError); }
    if !Get(j, "public_keys").JArray? { return Failure(DecryptionError); }
    var items := Get(j, "public_keys").items;
    var publicKeys: seq<PublicKey> := [];
    for i := 0 to |items|
      invariant |publicKeys| == i
      invariant forall n :: 0 <= n < i ==> KeyOf(k, items[n]) == Some(publicKeys[n])
    {
      var key := KeyOf(k, items[i]);
      if key.None? { return Failure(DecryptionError); }
      publicKeys := publicKeys + [key.value];
    }
    assert publicKeys == seq(|items|, i requires 0 <= i < |items| => KeyOf(k, items[i]).value);
    return Success(PublicBundle(Get(j, "profile_id").s, publicKeys));
  }

  // ---- The payload ----

  /** Profile, bundle and handles are of one profile and one length. */
  predicate SameShape(ks: KeySet) {
    && ks.profile.profileId == ks.publicBundle.profileId
    && |ks.profile.sources| == |ks.publicBundle.publicKeys| == |ks.privateHandles|
  }

  /** What export demands of a key set. It does not compare identifiers. */
  predicate Exportable(ks: KeySet) {
    && SameShape(ks)
    && forall i :: 0 <= i < |ks.privateHandles| ==> ks.profile.sources[i].serializePrivate(ks.privateHandles[i]).Some?
  }

  function HandleJson(k: Codec, algId: string, priv: bytes): Json {
    JObject(map["alg_id" := JString(algId), "priv_b64" := JString(k.b64encode(priv))])
  }

  function HandlesJson(k: Codec, ks: KeySet): (items: seq<Json>)
    requires Exportable(ks)
    ensures |items| == |ks.privateHandles|
  {
    seq(|ks.privateHandles|, i requires 0 <= i < |ks.privateHandles| =>
      HandleJson(k, ks.profile.sources[i].algorithmId,
                 ks.profile.sources[i].serializePrivate(ks.privateHandles[i]).value))
  }

  function PayloadJson(k: Codec, ks: KeySet): Json
    requires Exportable(ks)
  {
    JObject(map[
      "profile_id" := JString(ks.profile.profileId),
      "public_bundle" := BundleJson(k, ks.publicBundle),
      "private_handles" := JArray(HandlesJson(k, ks))])
  }

  /** The private handle of one entry, when it and the bundle both carry the source's identifier. */
  function HandleOf(k: Codec, s: Source, item: Json, bundleAlgId: string): Option<Handle> {
    if Get(item, "alg_id") != JString(s.algorithmId) || bundleAlgId != s.algorithmId then None
    else if !Get(item, "priv_b64").JString? then None
    else match k.b64decode(Get(item, "priv_b64").s)
      case None => None
      case Some(priv) => s.deserializePrivate(priv)
  }

  function HandleItems(payload: Json): Json {
    if Has(payload, "private_handles") then Get(payload, "private_handles") else JArray([])
  }

  /** The three lists have one length. */
  predicate SameCounts(p: Profile, bundle: PublicBundle, items: Json) {
    items.JArray? && |p.sources| == |items.items| == |bundle.publicKeys|
  }

  predicate AllHandles(k: Codec, p: Profile, bundle: PublicBundle, items: Json)
    requires SameCounts(p, bundle, items)
  {
    forall i :: 0 <= i < |p.sources| ==> HandleOf(k, p.sources[i], items.items[i], bundle.publicKeys[i].algId).Some?
  }

  function ImportedKeySet(k: Codec, p: Profile, bundle: PublicBundle, items: Json): KeySet
    requires SameCounts(p, bundle, items) && AllHandles(k, p, bundle, items)
  {
    KeySet(p, bundle,
      seq(|p.sources|, i requires 0 <= i < |p.sources| =>
        HandleOf(k, p.sources[i], items.items[i], bundle.publicKeys[i].algId).value),
      PolicyDecision(p, false, p.profileId))
  }

  /** The key set a decrypted payload describes. A payload that is no object, or lacks its
      bundle, raises outside the error boundary. */
  function PayloadKeySet(k: Codec, reg: Registry, payload: Json): Result<KeySet> {
    if !payload.JObject? then Failure(TypeError)
    else
      var id := Get(payload, "profile_id");
      if !id.JString? || id.s == "" || id.s !in reg then Failure(DecryptionError)
      else if !Has(payload, "public_bundle") then Failure(KeyError)
      else match BundleOf(k, Get(payload, "public_bundle"))
        case None => Failure(DecryptionError)
        case Some(bundle) =>
          var p := reg[id.s];
          if bundle.profileId != id.s || p.profileId != id.s || !SameCounts(p, bundle, HandleItems(payload)) then
            Failure(DecryptionError)
          else if AllHandles(k, p, bundle, HandleItems(payload)) then
            Success(ImportedKeySet(k, p, bundle, HandleItems(payload)))
          else Failure(DecryptionError)
  }

  /** Profile sources, public keys and private handles stand side by side under one set of identifiers. */
  predicate Aligned(reg: Registry, ks: KeySet) {
    && ks.profile.profileId in reg && ks.publicBundle.profileId == ks.profile.profileId
    && BundleFits(ks.profile, ks.publicBundle.publicKeys)
    && |ks.privateHandles| == |ks.profile.sources|
  }

  /** Whatever import accepts is aligned with a registered profile, and so were the private
      entries it was read from: one a source, each under its source's identifier. */
  lemma ImportedIsAligned(k: Codec, reg: Registry, payload: Json)
    requires PayloadKeySet(k, reg, payload).Success?
    ensures var ks := PayloadKeySet(k, reg, payload).value;
            && Aligned(reg, ks) && reg[ks.profile.profileId] == ks.profile
            && HandleItems(payload).JArray? && |HandleItems(payload).items| == |ks.profile.sources|
            && forall i :: 0 <= i < |ks.profile.sources| ==>
                 Get(HandleItems(payload).items[i], "alg_id") == JString(ks.profile.sources[i].algorithmId)
  {
    hide BundleOf;
    var bundle := BundleOf(k, Get(payload, "public_bundle")).value;
    var p := reg[Get(payload, "profile_id").s];
    forall i | 0 <= i < |bundle.publicKeys| ensures p.sources[i].algorithmId == bundle.publicKeys[i].algId {
      assert HandleOf(k, p.sources[i], HandleItems(payload).items[i], bundle.publicKeys[i].algId).Some?;
    }
  }

  /** The field names of a payload, in one for a profile of one source: what import makes of it. */
  lemma OneKeyPayload(k: Codec, reg: Registry, s: Source, id: string, level: int, keyText: string, privText: string)
    requires id != "" && id in reg && reg[id] == Profile(id, [s], level)
    ensures var key := JObject(map["alg_id" := JString(s.algorithmId), "key_b64" := JString(keyText)]);
            var bundle := JObject(map["profile_id" := JString(id), "public_keys" := JArray([key])]);
            var entry := JObject(map["alg_id" := JString(s.algorithmId), "priv_b64" := JString(privText)]);
            var payload := JObject(map["profile_id" := JString(id), "public_bundle" := bundle,
                                       "private_handles" := JArray([entry])]);
            var priv := k.b64decode(privText);
            PayloadKeySet(k, reg, payload)
              == if k.b64decode(keyText).None? || priv.None? || s.deserializePrivate(priv.value).None?
                 then Failure(DecryptionError)
                 else Success(KeySet(
                   reg[id],
                   PublicBundle(id, [PublicKey(s.algorithmId, k.b64decode(keyText).value)]),
                   [s.deserializePrivate(priv.value).value],
                   PolicyDecision(reg[id], false, id)))
  {
    var key := JObject(map["alg_id" := JString(s.algorithmId), "key_b64" := JString(keyText)]);
    var bundle := JObject(map["profile_id" := JString(id), "public_keys" := JArray([key])]);
    var entry := JObject(map["alg_id" := JString(s.algorithmId), "priv_b64" := JString(privText)]);
    var payload := JObject(map["profile_id" := JString(id), "public_bundle" := bundle,
                               "private_handles" := JArray([entry])]);
    OneKeyBundle(k, id, s.algorithmId, keyText);
    assert HandleItems(payload) == JArray([entry]);
    if k.b64decode(keyText).Some? {
      OneEntry(k, reg[id], s, PublicBundle(id, [PublicKey(s.algorithmId, k.b64decode(keyText).value)]), privText);
    }
    hide BundleOf, HandleOf, AllHandles, ImportedKeySet;
  }

  lemma OneEntry(k: Codec, p: Profile, s: Source, bundle: PublicBundle, privText: string)
    requires p.sources == [s] && |bundle.publicKeys| == 1 && bundle.publicKeys[0].algId == s.algorithmId
    ensures var items := JArray([JObject(map["alg_id" := JString(s.algorithmId), "priv_b64" := JString(privText)])]);
            var priv := k.b64decode(privText);
            && SameCounts(p, bundle, items)
            && (AllHandles(k, p, bundle, items) <==> priv.Some? && s.deserializePrivate(priv.value).Some?)
            && (AllHandles(k, p, bundle, items) ==>
                ImportedKeySet(k, p, bundle, items)
                  == KeySet(p, bundle, [s.deserializePrivate(priv.value).value], PolicyDecision(p, false, p.profileId)))
  {
    var entry := JObject(map["alg_id" := JString(s.algorithmId), "priv_b64" := JString(privText)]);
    var items := JArray([entry]);
    assert items.items[0] == entry;
    var h := HandleOf(k, s, entry, bundle.publicKeys[0].algId);
    assert h == match k.b64decode(privText) case None => None case Some(priv) => s.deserializePrivate(priv);
    hide HandleOf;
    if AllHandles(k, p, bundle, items) {
      assert ImportedKeySet(k, p, bundle, items).privateHandles == [h.value];
    }
  }

  /** Each private handle survives serialization. */
  predicate HandlesSurvive(ks: KeySet)
    requires Exportable(ks)
  {
    forall i :: 0 <= i < |ks.privateHandles| ==>
      ks.profile.sources[i].deserializePrivate(ks.profile.sources[i].serializePrivate(ks.privateHandles[i]).value)
        == Some(ks.privateHandles[i])
  }

  lemma ExportedHandle(k: Codec, ks: KeySet, i: nat)
    requires Lossless(k) && Exportable(ks) && HandlesSurvive(ks) && i < |ks.privateHandles|
    ensures HandleOf(k, ks.profile.sources[i], HandlesJson(k, ks)[i], ks.publicBundle.publicKeys[i].algId)
         == if ks.profile.sources[i].algorithmId == ks.publicBundle.publicKeys[i].algId
            then Some(ks.privateHandles[i]) else None
  {
  }

  /** An exported payload imports to the same profile, bundle and handles exactly when the bundle
      carries the profile's identifiers in order; otherwise export wrote something import rejects. */
  lemma PayloadRoundTrip(k: Codec, reg: Registry, ks: KeySet)
    requires Lossless(k) && Exportable(ks) && HandlesSurvive(ks)
    requires ks.profile.profileId != "" && ks.profile.profileId in reg && reg[ks.profile.profileId] == ks.profile
    ensures PayloadKeySet(k, reg, PayloadJson(k, ks))
         == if BundleFits(ks.profile, ks.publicBundle.publicKeys)
            then Success(ks.(decision := PolicyDecision(ks.profile, false, ks.profile.profileId)))
            else Failure(DecryptionError)
  {
    hide BundleOf, BundleJson, HandleOf, HandlesJson;
    var payload := PayloadJson(k, ks);
    var items := HandleItems(payload);
    BundleRoundTrip(k, ks.publicBundle);
    assert items == JArray(HandlesJson(k, ks));
    forall i: nat | i < |ks.privateHandles|
      ensures HandleOf(k, ks.profile.sources[i], items.items[i], ks.publicBundle.publicKeys[i].algId)
           == if ks.profile.sources[i].algorithmId == ks.publicBundle.publicKeys[i].algId
            then Some(ks.privateHandles[i]) else None
    {
      ExportedHandle(k, ks, i);
    }
    if BundleFits(ks.profile, ks.publicBundle.publicKeys) {
      assert ImportedKeySet(k, ks.profile, ks.publicBundle, items).privateHandles == ks.privateHandles;
    }
  }

  // ---- The wrapped file ----

  function KdfName(useArgon2: bool): string { if useArgon2 then "argon2id" else "scrypt" }

  function MagicOf(useArgon2: bool): bytes { if useArgon2 then MAGIC_KEYSTORE_ARGON2 else MAGIC_KEYSTORE_SCRYPT }

  function Wrapped(s: Suite, key: Key, useArgon2: bool, salt: Salt, nonce: Nonce, text: bytes): (w: bytes)
    ensures |w| == 32 + |text| + TAG_LEN
  {
    MagicOf(useArgon2) + salt + nonce + Seal(s, key, nonce, MagicOf(useArgon2), text)
  }

  /** Size and magic are those of a key store. */
  predicate GoodEnvelope(data: bytes) {
    && 4 + SALT_LEN + NONCE_LEN <= |data| <= MAX_KEYSTORE_SIZE
    && (data[..4] == MagicOf(true) || data[..4] == MagicOf(false))
  }

  function WrappingKey(k: Codec, data: bytes, password: bytes): Option<Key>
    requires GoodEnvelope(data)
  {
    k.kdf(KdfName(data[..4] == MagicOf(true)), password, data[4..20])
  }

  /** The payload of a file under its wrapping key. */
  function FilePayload(s: Suite, k: Codec, data: bytes, key: Key): Option<Json>
    requires GoodEnvelope(data)
  {
    match Open(s, key, data[20..32], data[..4], data[32..])
    case None => None
    case Some(text) => k.loads(text)
  }

  /** What import makes of a file; granted tells whether the semaphore gave a permit in time. */
  function OpenedKeystore(s: Suite, k: Codec, reg: Registry, data: bytes, password: bytes, granted: bool)
    : Result<KeySet>
  {
    if !GoodEnvelope(data) then Failure(DecryptionError)
    else if password == [] then Failure(ValueError)
    else if !granted then Failure(RuntimeError)
    else match WrappingKey(k, data, password)
      case None => Failure(SourceError)
      case Some(key) =>
        match FilePayload(s, k, data, key)
        case None => Failure(DecryptionError)
        case Some(payload) => PayloadKeySet(k, reg, payload)
  }

  // ---- Errors of import other than DecryptionError ----

  predicate NamesRegistered(reg: Registry, payload: Json) {
    var id := Get(payload, "profile_id");
    id.JString? && id.s != "" && id.s in reg
  }

  /** The structural checks raise TypeError exactly for a payload that is no object, KeyError exactly
      for one that names a registered profile and has no bundle, and else only DecryptionError. */
  lemma PayloadErrors(k: Codec, reg: Registry, payload: Json)
    ensures var r := PayloadKeySet(k, reg, payload);
            && (r == Failure(TypeError) <==> !payload.JObject?)
            && (r == Failure(KeyError) <==>
                payload.JObject? && NamesRegistered(reg, payload) && !Has(payload, "public_bundle"))
            && (r.Failure? ==> r.error in {TypeError, KeyError, DecryptionError})
  {
    hide BundleOf, AllHandles;
  }

  /** The file gets as far as having its payload read, and this is the payload. */
  predicate OpensTo(s: Suite, k: Codec, data: bytes, password: bytes, granted: bool, payload: Json) {
    GoodEnvelope(data) && password != [] && granted
    && WrappingKey(k, data, password).Some?
    && FilePayload(s, k, data, WrappingKey(k, data, password).value) == Some(payload)
  }

  /** When import fails with anything but DecryptionError, over every file, password and state of
      the semaphore: each error with its own exact condition. */
  lemma ImportErrors(s: Suite, k: Codec, reg: Registry, data: bytes, password: bytes, granted: bool)
    ensures var r := OpenedKeystore(s, k, reg, data, password, granted);
            && (r == Failure(ValueError) <==> GoodEnvelope(data) && password == [])
            && (r == Failure(RuntimeError) <==> GoodEnvelope(data) && password != [] && !granted)
            && (r == Failure(SourceError) <==>
                GoodEnvelope(data) && password != [] && granted && WrappingKey(k, data, password) == None)
            && (r == Failure(TypeError) <==>
                exists payload :: OpensTo(s, k, data, password, granted, payload) && !payload.JObject?)
            && (r == Failure(KeyError) <==>
                exists payload :: OpensTo(s, k, data, password, granted, payload)
                  && payload.JObject? && NamesRegistered(reg, payload) && !Has(payload, "public_bundle"))
            && (r.Failure? ==>
                r.error in {ValueError, RuntimeError, SourceError, TypeError, KeyError, DecryptionError})
  {
    hide GoodEnvelope, FilePayload, WrappingKey, PayloadKeySet, NamesRegistered;
    if GoodEnvelope(data) && password != [] && granted && WrappingKey(k, data, password).Some? {
      var payload := FilePayload(s, k, data, WrappingKey(k, data, password).value);
      if payload.Some? {
        PayloadErrors(k, reg, payload.value);
        assert OpensTo(s, k, data, password, granted, payload.value);
      }
    }
  }

  /** The envelope in bytes: the magic "CFLA" means Argon2id, "CFLK" means scrypt, nothing else is a
      key store, and the salt stands in the 16 bytes behind it. */
  lemma EnvelopeInBytes(k: Codec, data: bytes, password: bytes)
    ensures GoodEnvelope(data) <==>
            && 32 <= |data| <= 16_777_216
            && data[..4] in {[0x43, 0x46, 0x4C, 0x41], [0x43, 0x46, 0x4C, 0x4B]}
    ensures GoodEnvelope(data) && data[..4] == [0x43, 0x46, 0x4C, 0x41] ==>
      WrappingKey(k, data, password) == k.kdf("argon2id", password, data[4..20])
    ensures GoodEnvelope(data) && data[..4] == [0x43, 0x46, 0x4C, 0x4B] ==>
      WrappingKey(k, data, password) == k.kdf("scrypt", password, data[4..20])
  {
  }

  /** The key of this KDF, over the salt in the file, opens the file under this magic. */
  predicate OpensUnder(s: Suite, k: Codec, data: bytes, password: bytes, magic: bytes, kdfType: string) {
    && |data| >= 32 && data[..4] == magic
    && k.kdf(kdfType, password, data[4..20]).Some?
    && Open(s, k.kdf(kdfType, password, data[4..20]).value, data[20..32], magic, data[32..]).Some?
  }

  /** The layout of a wrapped file: magic, salt, nonce, then the sealed text, bound to the magic. */
  lemma WrappedFields(s: Suite, key: Key, useArgon2: bool, salt: Salt, nonce: Nonce, text: bytes)
    ensures var w := Wrapped(s, key, useArgon2, salt, nonce, text);
            && w[..4] == MagicOf(useArgon2) == [0x43, 0x46, 0x4C, if useArgon2 then 0x41 else 0x4B]
            && w[4..20] == salt && w[20..32] == nonce
            && w[32..] == Seal(s, key, nonce, MagicOf(useArgon2), text)
  {
    hide Seal;
  }

  /** A wrapped text that fits opens to what it says. */
  lemma WrappedOpensTo(s: Suite, k: Codec, payload: Json, password: bytes, useArgon2: bool,
                       key: Key, salt: Salt, nonce: Nonce)
    requires TextSurvives(k, payload) && password != [] && k.kdf(KdfName(useArgon2), password, salt) == Some(key)
    ensures var file := Wrapped(s, key, useArgon2, salt, nonce, k.dumps(payload));
            if |file| <= MAX_KEYSTORE_SIZE then OpensTo(s, k, file, password, true, payload) else !GoodEnvelope(file)
  {
    hide Wrapped, Seal, Open;
    WrappedFields(s, key, useArgon2, salt, nonce, k.dumps(payload));
    OpenSealed(s, key, nonce, MagicOf(useArgon2), k.dumps(payload));
  }

  /** Files, made with the right password, at which import raises TypeError and KeyError. */
  lemma ImportErrorsOccur(s: Suite, k: Codec, reg: Registry, id: string, password: bytes, useArgon2: bool,
                          key: Key, salt: Salt, nonce: Nonce)
    requires id != "" && id in reg
    requires password != [] && k.kdf(KdfName(useArgon2), password, salt) == Some(key)
    ensures var noObject := JArray([]);
            var file := Wrapped(s, key, useArgon2, salt, nonce, k.dumps(noObject));
            TextSurvives(k, noObject) && |file| <= MAX_KEYSTORE_SIZE ==>
              OpenedKeystore(s, k, reg, file, password, true) == Failure(TypeError)
    ensures var noBundle := JObject(map["profile_id" := JString(id)]);
            var file := Wrapped(s, key, useArgon2, salt, nonce, k.dumps(noBundle));
            TextSurvives(k, noBundle) && |file| <= MAX_KEYSTORE_SIZE ==>
              OpenedKeystore(s, k, reg, file, password, true) == Failure(KeyError)
  {
    hide Wrapped, GoodEnvelope, WrappingKey, FilePayload;
    if TextSurvives(k, JArray([])) {
      WrappedOpensTo(s, k, JArray([]), password, useArgon2, key, salt, nonce);
    }
    var noBundle := JObject(map["profile_id" := JString(id)]);
    if TextSurvives(k, noBundle) {
      WrappedOpensTo(s, k, noBundle, password, useArgon2, key, salt, nonce);
      PayloadErrors(k, reg, noBundle);
    }
  }

  /** Export then import, through the file: the key set comes back under the same conditions,
      and the file's size is the only thing that can come in between. */
  lemma KeystoreRoundTrip(s: Suite, k: Codec, reg: Registry, ks: KeySet, password: bytes, useArgon2: bool,
                          key: Key, salt: Salt, nonce: Nonce)
    requires Lossless(k) && Exportable(ks) && HandlesSurvive(ks)
    requires ks.profile.profileId != "" && ks.profile.profileId in reg && reg[ks.profile.profileId] == ks.profile
    requires TextSurvives(k, PayloadJson(k, ks))
    requires password != [] && k.kdf(KdfName(useArgon2), password, salt) == Some(key)
    ensures var file := Wrapped(s, key, useArgon2, salt, nonce, k.dumps(PayloadJson(k, ks)));
            OpenedKeystore(s, k, reg, file, password, true)
              == if |file| <= MAX_KEYSTORE_SIZE && BundleFits(ks.profile, ks.publicBundle.publicKeys)
                 then Success(ks.(decision := PolicyDecision(ks.profile, false, ks.profile.profileId)))
                 else Failure(DecryptionError)
  {
    hide PayloadJson, PayloadKeySet, Wrapped, BundleFits, HandlesSurvive, Exportable, GoodEnvelope,
      WrappingKey, FilePayload;
    WrappedOpensTo(s, k, PayloadJson(k, ks), password, useArgon2, key, salt, nonce);
    PayloadRoundTrip(k, reg, ks);
  }

  // ---- The operations as the library runs them ----

  /** threading.Semaphore, as one thread uses it. */
  class Semaphore {
    var permits: nat

    constructor (permits: nat)
      ensures this.permits == permits
    {
      this.permits := permits;
    }

    /** Takes a free permit, or, when there is none, waits for one; freed tells whether another
        thread releases one to it before the timeout. */
    method Acquire(freed: bool) returns (acquired: bool)
      modifies this
      ensures acquired == Granted(old(permits), freed)
      ensures permits == if old(permits) > 0 then old(permits) - 1 else 0
    {
      if permits > 0 {
        permits := permits - 1;
        return true;
      }
      return freed;
    }

    method Release()
      modifies this
      ensures permits == old(permits) + 1
    {
      permits := permits + 1;
    }
  }

  predicate Granted(permits: nat, freed: bool) { permits > 0 || freed }

  /** _derive_wrapping_key. Whatever happens in it, the permits are afterwards as before, plus the
      one another thread released if it had to wait for that. */
  method DeriveWrappingKey(sem: Semaphore, k: Codec, password: bytes, salt: bytes, kdfType: string, freed: bool)
    returns (r: Result<Key>)
    modifies sem
    ensures sem.permits == PermitsAfter(old(sem.permits), password, freed)
    ensures r == if password == [] then Failure(ValueError)
                 else if !Granted(old(sem.permits), freed) then Failure(RuntimeError)
                 else if kdfType !in {"argon2id", "scrypt"} then Failure(ValueError)
                 else match k.kdf(kdfType, password, salt)
                   case Some(key) => Success(key)
                   case None => Failure(SourceError)
  {
    if password == [] { return Failure(ValueError); }
    var acquired := sem.Acquire(freed);
    if !acquired { return Failure(RuntimeError); }
    if kdfType == "argon2id" || kdfType == "scrypt" {
      var key := k.kdf(kdfType, password, salt);
      r := match key case Some(value) => Success(value) case None => Failure(SourceError);
    } else {
      r := Failure(ValueError);
    }
    sem.Release();
  }

  /** A call that waited leaves behind the permit that was released to it. */
  function PermitsAfter(permits: nat, password: bytes, freed: bool): nat {
    if password != [] && permits == 0 && freed then 1 else permits
  }

  method ExportKeysetBytes(sem: Semaphore, s: Suite, k: Codec, ks: KeySet, password: bytes, useArgon2: bool,
                           salt: Salt, nonce: Nonce, freed: bool)
    returns (r: Result<bytes>)
    modifies sem
    ensures sem.permits == if Exportable(ks) then PermitsAfter(old(sem.permits), password, freed) else old(sem.permits)
    ensures r.Success? <==> Exportable(ks) && password != [] && Granted(old(sem.permits), freed)
                            && k.kdf(KdfName(useArgon2), password, salt).Some?
    ensures r.Success? ==>
      r.value == Wrapped(s, k.kdf(KdfName(useArgon2), password, salt).value, useArgon2, salt, nonce,
                         k.dumps(PayloadJson(k, ks)))
    ensures r.Failure? ==>
      r.error == if !SameShape(ks) then ValueError
                 else if !Exportable(ks) then DecryptionError
                 else if password == [] then ValueError
                 else if !Granted(old(sem.permits), freed) then RuntimeError
                 else SourceError
  {
    hide Seal, BundleJson;
    if ks.profile.profileId != ks.publicBundle.profileId { return Failure(ValueError); }
    if |ks.profile.sources| != |ks.publicBundle.publicKeys| { return Failure(ValueError); }
    if |ks.profile.sources| != |ks.privateHandles| { return Failure(ValueError); }
    var serialized: seq<Json> := [];
    for i := 0 to |ks.privateHandles|
      invariant |serialized| == i
      invariant forall n :: 0 <= n < i ==>
        && ks.profile.sources[n].serializePrivate(ks.privateHandles[n]).Some?
        && serialized[n] == HandleJson(k, ks.profile.sources[n].algorithmId,
                                       ks.profile.sources[n].serializePrivate(ks.privateHandles[n]).value)
    {
      var priv := ks.profile.sources[i].serializePrivate(ks.privateHandles[i]);
      if priv.None? { return Failure(DecryptionError); }
      serialized := serialized + [HandleJson(k, ks.profile.sources[i].algorithmId, priv.value)];
    }
    assert serialized == HandlesJson(k, ks);
    var payload := JObject(map[
      "profile_id" := JString(ks.profile.profileId),
      "public_bundle" := BundleJson(k, ks.publicBundle),
      "private_handles" := JArray(serialized)]);
    var text := k.dumps(payload);
    var key := DeriveWrappingKey(sem, k, password, salt, KdfName(useArgon2), freed);
    if key.Failure? { return Failure(key.error); }
    var aesgcm := new AesGcm(s, key.value);
    var ct := aesgcm.Encrypt(nonce, text, MagicOf(useArgon2));
    return Success(MagicOf(useArgon2) + salt + nonce + ct);
  }

  /** The structural half of import: from the decrypted payload to the key set. */
  method ReadPayload(k: Codec, reg: Registry, payload: Json) returns (r: Result<KeySet>)
    ensures r == PayloadKeySet(k, reg, payload)
  {
    hide BundleOf, HandleOf;
    if !payload.JObject? { return Failure(TypeError); }
    var id := Get(payload, "profile_id");
    if !id.JString? || id.s == "" { return Failure(DecryptionError); }
    var profile := GetProfile(reg, id.s);
    if profile.Failure? { return Failure(DecryptionError); }
    var p := profile.value;
    if "public_bundle" !in payload.fields { return Failure(KeyError); }
    var bundleResult := DeserializePublicBundle(k, payload.fields["public_bundle"]);
    if bundleResult.Failure? { return Failure(DecryptionError); }
    var bundle := bundleResult.value;
    if bundle.profileId != id.s { return Failure(DecryptionError); }
    if p.profileId != id.s { return Failure(DecryptionError); }
    var items := HandleItems(payload);
    if !items.JArray? { return Failure(DecryptionError); }
    if |p.sources| != |items.items| { return Failure(DecryptionError); }
    if |p.sources| != |bundle.publicKeys| { return Failure(DecryptionError); }
    var handles: seq<Handle> := [];
    for i := 0 to |p.sources|
      invariant |handles| == i
      invariant forall n :: 0 <= n < i ==>
        HandleOf(k, p.sources[n], items.items[n], bundle.publicKeys[n].algId) == Some(handles[n])
    {
      var handle := HandleOf(k, p.sources[i], items.items[i], bundle.publicKeys[i].algId);
      if handle.None? { return Failure(DecryptionError); }
      handles := handles + [handle.value];
    }
    assert handles == ImportedKeySet(k, p, bundle, items).privateHandles;
    return Success(KeySet(p, bundle, handles, PolicyDecision(p, false, p.profileId)));
  }

  method ImportKeysetBytes(sem: Semaphore, s: Suite, k: Codec, reg: Registry, data: bytes, password: bytes,
                           freed: bool)
    returns (r: Result<KeySet>)
    modifies sem
    ensures sem.permits == if GoodEnvelope(data) then PermitsAfter(old(sem.permits), password, freed)
                           else old(sem.permits)
    ensures r == OpenedKeystore(s, k, reg, data, password, Granted(old(sem.permits), freed))
    ensures r.Success? ==>
      || OpensUnder(s, k, data, password, [0x43, 0x46, 0x4C, 0x41], "argon2id")
      || OpensUnder(s, k, data, password, [0x43, 0x46, 0x4C, 0x4B], "scrypt")
    ensures r.Success? ==> Aligned(reg, r.value)
  {
    hide PayloadKeySet, Open, Aligned;
    if |data| > MAX_KEYSTORE_SIZE { return Failure(DecryptionError); }
    if |data| < 4 + SALT_LEN + NONCE_LEN { return Failure(DecryptionError); }
    var magic := data[..4];
    if magic != MAGIC_KEYSTORE_ARGON2 && magic != MAGIC_KEYSTORE_SCRYPT { return Failure(DecryptionError); }
    var kdfType := KdfName(magic == MAGIC_KEYSTORE_ARGON2);
    var key := DeriveWrappingKey(sem, k, password, data[4..20], kdfType, freed);
    if key.Failure? { return Failure(key.error); }
    var aesgcm := new AesGcm(s, key.value);
    var text := aesgcm.Decrypt(data[20..32], data[32..], magic);
    if text.None? { return Failure(DecryptionError); }
    var payload := k.loads(text.value);
    if payload.None? { return Failure(DecryptionError); }
    r := ReadPayload(k, reg, payload.value);
    if r.Success? { ImportedIsAligned(k, reg, payload.value); }
  }
}
