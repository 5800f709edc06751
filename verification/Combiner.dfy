// The hybrid combiner: canonical HKDF info, concatenated input key material,
// and the two sides that rebuild one root key (cryptoflex/combiner.py).
module Combiner {
  import opened Wrappers
  import opened Bytes
  import opened Aead
  import opened Header
  import opened Sources

  const COMBINER_SPEC_VERSION: nat := 2

  /** "cryptoflex-hybrid-kem-combiner" */
  const DEFAULT_CONTEXT: bytes := [
    0x63, 0x72, 0x79, 0x70, 0x74, 0x6F, 0x66, 0x6C, 0x65, 0x78,
    0x2D, 0x68, 0x79, 0x62, 0x72, 0x69, 0x64, 0x2D, 0x6B, 0x65,
    0x6D, 0x2D, 0x63, 0x6F, 0x6D, 0x62, 0x69, 0x6E, 0x65, 0x72]

  // ---- The canonical info string ----

  predicate InfoComponentFits(c: Component) {
    |Utf8.Encode(c.algId)| < U32_LIMIT && |c.ciphertext| < U32_LIMIT
  }

  predicate InfoComponentsFit(cs: seq<Component>) {
    forall i :: 0 <= i < |cs| ==> InfoComponentFits(cs[i])
  }

  /** Every length and count fits its field. */
  predicate InfoFits(context: bytes, cs: seq<Component>, version: nat) {
    version < U16_LIMIT && |context| < U32_LIMIT && |cs| < U16_LIMIT && InfoComponentsFit(cs)
  }

  function InfoField(c: Component): bytes
    requires InfoComponentFits(c)
  {
    Prefixed(Utf8.Encode(c.algId)) + Prefixed(c.ciphertext)
  }

  function InfoFields(cs: seq<Component>): bytes
    requires InfoComponentsFit(cs)
  {
    if cs == [] then [] else InfoField(cs[0]) + InfoFields(cs[1..])
  }

  function Info(context: bytes, cs: seq<Component>, version: nat): bytes
    requires InfoFits(context, cs, version)
  {
    U16(version) + Prefixed(context) + U16(|cs|) + InfoFields(cs)
  }

  lemma InfoFieldInjective(a: Component, b: Component, x: bytes, y: bytes)
    requires InfoComponentFits(a) && InfoComponentFits(b)
    requires InfoField(a) + x == InfoField(b) + y
    ensures a == b && x == y
  {
    hide Prefixed;
    var ea, eb := Utf8.Encode(a.algId), Utf8.Encode(b.algId);
    assert InfoField(a) + x == Prefixed(ea) + (Prefixed(a.ciphertext) + x);
    assert InfoField(b) + y == Prefixed(eb) + (Prefixed(b.ciphertext) + y);
    PrefixedInjective(ea, eb, Prefixed(a.ciphertext) + x, Prefixed(b.ciphertext) + y);
    PrefixedInjective(a.ciphertext, b.ciphertext, x, y);
    Utf8.EncodeInjective(a.algId, b.algId);
  }

  lemma {:induction false} InfoFieldsInjective(a: seq<Component>, b: seq<Component>)
    requires InfoComponentsFit(a) && InfoComponentsFit(b) && |a| == |b|
    requires InfoFields(a) == InfoFields(b)
    ensures a == b
    decreases |a|
  {
    hide InfoField;
    if a != [] {
      InfoFieldInjective(a[0], b[0], InfoFields(a[1..]), InfoFields(b[1..]));
      InfoFieldsInjective(a[1..], b[1..]);
      assert a == [a[0]] + a[1..] && b == [b[0]] + b[1..];
    }
  }

  lemma U16Injective(m: nat, n: nat)
    requires m < U16_LIMIT && n < U16_LIMIT && U16(m) == U16(n)
    ensures m == n
  {
    assert FromU16(U16(m)) == FromU16(U16(n));
  }

  /** The info string determines the version, the context and the component list. */
  lemma InfoInjective(c: bytes, cs: seq<Component>, v: nat, d: bytes, ds: seq<Component>, w: nat)
    requires InfoFits(c, cs, v) && InfoFits(d, ds, w)
    requires Info(c, cs, v) == Info(d, ds, w)
    ensures v == w && c == d && cs == ds
  {
    hide Prefixed, FromU16, U16, InfoFields, InfoComponentsFit;
    var x, y := U16(|cs|) + InfoFields(cs), U16(|ds|) + InfoFields(ds);
    assert Info(c, cs, v) == U16(v) + (Prefixed(c) + x);
    assert Info(d, ds, w) == U16(w) + (Prefixed(d) + y);
    SplitConcat(U16(v), U16(w), Prefixed(c) + x, Prefixed(d) + y);
    U16Injective(v, w);
    PrefixedInjective(c, d, x, y);
    SplitConcat(U16(|cs|), U16(|ds|), InfoFields(cs), InfoFields(ds));
    U16Injective(|cs|, |ds|);
    InfoFieldsInjective(cs, ds);
  }

  lemma ContextIsText()
    ensures DEFAULT_CONTEXT == Utf8.Encode("cryptoflex-hybrid-kem-combiner")
  {
    hide Utf8.Encode;
    var text := "cryptoflex-hybrid-kem-combiner";
    Utf8.EncodeAsciiLength(text);
    forall i: nat | i < 30 ensures DEFAULT_CONTEXT[i] == Utf8.Encode(text)[i] {
      Utf8.EncodeAscii(text, i);
    }
  }

  /** The layout of the info string: spec version 2, the context behind its 4-byte length, the
      number of components, then the components. */
  lemma InfoLayout(cs: seq<Component>)
    requires InfoFits(DEFAULT_CONTEXT, cs, COMBINER_SPEC_VERSION)
    ensures var b := Info(DEFAULT_CONTEXT, cs, COMBINER_SPEC_VERSION);
            && |b| >= 38 && b[..2] == [0x00, 0x02] && b[2..6] == [0x00, 0x00, 0x00, 0x1E]
            && b[6..36] == Utf8.Encode("cryptoflex-hybrid-kem-combiner")
            && b[36] == |cs| / 0x100 && b[37] == |cs| % 0x100 && b[38..] == InfoFields(cs)
  {
    hide Utf8.Encode, InfoFields, InfoComponentsFit, FromU32, FromU16;
    ContextIsText();
    assert U32(30) == [0x00, 0x00, 0x00, 0x1E];
    FivePartsAt([0x00, 0x02], U32(30), DEFAULT_CONTEXT, U16(|cs|), InfoFields(cs));
  }

  lemma FivePartsAt(version: bytes, length: bytes, context: bytes, count: bytes, fields: bytes)
    requires |version| == 2 && |length| == 4 && |context| == 30 && |count| == 2
    ensures var b := version + (length + context) + count + fields;
            && b[..2] == version && b[2..6] == length && b[6..36] == context
            && b[36] == count[0] && b[37] == count[1] && b[38..] == fields
  {
  }

  /** And of its components: for each the identifier, then the ciphertext, each behind its 4-byte
      length. */
  lemma InfoFieldsLayout(cs: seq<Component>)
    requires InfoComponentsFit(cs)
    ensures cs == [] ==> InfoFields(cs) == []
    ensures cs != [] ==>
      var b, id, ct := InfoFields(cs), Utf8.Encode(cs[0].algId), cs[0].ciphertext;
      && |b| >= 8 + |id| + |ct|
      && FromU32(b[..4]) == |id| && b[4..4 + |id|] == id
      && FromU32(b[4 + |id|..8 + |id|]) == |ct| && b[8 + |id|..8 + |id| + |ct|] == ct
      && b[8 + |id| + |ct|..] == InfoFields(cs[1..])
  {
    hide Prefixed, Utf8.Encode;
    if cs != [] {
      var id, ct := Utf8.Encode(cs[0].algId), cs[0].ciphertext;
      assert InfoFields(cs) == Prefixed(id) + (Prefixed(ct) + InfoFields(cs[1..]));
      PrefixedAt(id, Prefixed(ct) + InfoFields(cs[1..]));
      PrefixedAt(ct, InfoFields(cs[1..]));
      Shifted(InfoFields(cs), 4 + |id|, 4 + |ct|);
    }
  }

  // ---- The input key material ----

  predicate SameLengths(a: seq<bytes>, b: seq<bytes>) {
    |a| == |b| && forall i :: 0 <= i < |a| ==> |a[i]| == |b[i]|
  }

  /** With the length of each secret fixed, their concatenation determines them. */
  lemma {:induction false} JoinInjective(a: seq<bytes>, b: seq<bytes>)
    requires SameLengths(a, b) && Join(a) == Join(b)
    ensures a == b
    decreases |a|
  {
    if a != [] {
      SplitConcat(a[0], b[0], Join(a[1..]), Join(b[1..]));
      JoinInjective(a[1..], b[1..]);
      assert a == [a[0]] + a[1..] && b == [b[0]] + b[1..];
    }
  }

  /** Two equal concatenations come from equal lists exactly when the lengths agree;
      the source fixes the lengths per algorithm and does not check them. */
  lemma JoinedSecretsAgreeIffLengthsDo(a: seq<bytes>, b: seq<bytes>)
    requires Join(a) == Join(b)
    ensures a == b <==> SameLengths(a, b)
  {
    if SameLengths(a, b) {
      JoinInjective(a, b);
    }
  }

  /** Without fixed lengths, two different secret lists give one concatenation. */
  lemma JoinIsNotInjective()
    ensures Join([[1], [2, 3]]) == Join([[1, 2], [3]]) && [[1], [2, 3]] != [[1, 2], [3]]
  {
    var a: seq<bytes>, b: seq<bytes> := [[1], [2, 3]], [[1, 2], [3]];
    assert a[1..] == [[2, 3]] && b[1..] == [[3]];
    assert Join(a) == [1] + ([2, 3] + Join([])) && Join(b) == [1, 2] + ([3] + Join([]));
    assert |a[0]| != |b[0]|;
  }

  // ---- The root key ----

  function RootKey(s: Suite, secrets: seq<bytes>, cs: seq<Component>): Key
    requires InfoFits(DEFAULT_CONTEXT, cs, COMBINER_SPEC_VERSION)
  {
    s.hkdf(Join(secrets), Info(DEFAULT_CONTEXT, cs, COMBINER_SPEC_VERSION))
  }

  /** One HKDF query stands for one component list and, lengths fixed, one secret list. */
  lemma HkdfInputsDetermineSecrets(a: seq<bytes>, cs: seq<Component>, b: seq<bytes>, ds: seq<Component>)
    requires InfoFits(DEFAULT_CONTEXT, cs, COMBINER_SPEC_VERSION) && InfoFits(DEFAULT_CONTEXT, ds,
        COMBINER_SPEC_VERSION)
    requires SameLengths(a, b)
    ensures (Join(a), Info(DEFAULT_CONTEXT, cs, COMBINER_SPEC_VERSION))
         == (Join(b), Info(DEFAULT_CONTEXT, ds, COMBINER_SPEC_VERSION))
       <==> a == b && cs == ds
  {
    hide Info, InfoFits;
    if Join(a) == Join(b) {
      JoinInjective(a, b);
    }
    if Info(DEFAULT_CONTEXT, cs, COMBINER_SPEC_VERSION) == Info(DEFAULT_CONTEXT, ds, COMBINER_SPEC_VERSION) {
      InfoInjective(DEFAULT_CONTEXT, cs, COMBINER_SPEC_VERSION, DEFAULT_CONTEXT, ds, COMBINER_SPEC_VERSION);
    }
  }

  /** A suite whose key derivation answers one query with a key of its own. */
  function TellingSuite(ikm: bytes, info: bytes): Suite {
    Suite(
      (k: Key, n: Nonce, i: nat) => 0,
      (k: Key, n: Nonce, aad: bytes, c: bytes) => seq<byte>(TAG_LEN, _ => 0),
      (x: bytes, y: bytes) => if x == ikm && y == info then seq<byte>(KEY_LEN, _ => 1) else seq<byte>(KEY_LEN, _ => 0))
  }

  /** The root key depends on every secret, identifier and ciphertext: two derivations are told
      apart by some key derivation function exactly when they differ in one of them. */
  lemma RootKeyTellsApart(a: seq<bytes>, cs: seq<Component>, b: seq<bytes>, ds: seq<Component>)
    requires InfoFits(DEFAULT_CONTEXT, cs, COMBINER_SPEC_VERSION)
    requires InfoFits(DEFAULT_CONTEXT, ds, COMBINER_SPEC_VERSION)
    requires SameLengths(a, b)
    ensures (exists s: Suite :: RootKey(s, a, cs) != RootKey(s, b, ds)) <==> a != b || cs != ds
  {
    hide Info, InfoFits, SameLengths;
    HkdfInputsDetermineSecrets(a, cs, b, ds);
    if a != b || cs != ds {
      var s := TellingSuite(Join(a), Info(DEFAULT_CONTEXT, cs, COMBINER_SPEC_VERSION));
      assert RootKey(s, a, cs)[0] == 1 && RootKey(s, b, ds)[0] == 0;
    }
  }

  datatype CombinedKeyMaterial = CombinedKeyMaterial(rootKey: Key, components: seq<Component>)

  lemma {:induction false} InfoFieldsAppend(cs: seq<Component>, c: Component)
    requires InfoComponentsFit(cs) && InfoComponentFits(c)
    ensures InfoComponentsFit(cs + [c]) && InfoFields(cs + [c]) == InfoFields(cs) + InfoField(c)
    decreases |cs|
  {
    hide InfoField;
    if cs == [] {
      assert cs + [c] == [c];
      assert InfoFields([c]) == InfoField(c) + InfoFields([]);
    } else {
      InfoFieldsAppend(cs[1..], c);
      assert (cs + [c])[1..] == cs[1..] + [c];
    }
  }

  method EncodeInfo(context: bytes, cs: seq<Component>, version: nat) returns (r: Result<bytes>)
    ensures r == if InfoFits(context, cs, version) then Success(Info(context, cs, version)) else Failure(StructError)
  {
    hide Prefixed, InfoFields;
    if version >= U16_LIMIT { return Failure(StructError); }
    var out := U16(version);
    if |context| >= U32_LIMIT { return Failure(StructError); }
    out := out + Prefixed(context);
    if |cs| >= U16_LIMIT { return Failure(StructError); }
    out := out + U16(|cs|);
    r := EncodeInfoFields(out, cs);
  }

  method EncodeInfoFields(start: bytes, cs: seq<Component>) returns (r: Result<bytes>)
    ensures r == if InfoComponentsFit(cs) then Success(start + InfoFields(cs)) else Failure(StructError)
  {
    hide Prefixed;
    var out := start;
    for i := 0 to |cs|
      invariant InfoComponentsFit(cs[..i])
      invariant out == start + InfoFields(cs[..i])
    {
      var algBytes := Utf8.Encode(cs[i].algId);
      if |algBytes| >= U32_LIMIT || |cs[i].ciphertext| >= U32_LIMIT { return Failure(StructError); }
      ghost var before := out;
      out := out + Prefixed(algBytes);
      out := out + Prefixed(cs[i].ciphertext);
      assert out == before + InfoField(cs[i]);
      InfoFieldsAppend(cs[..i], cs[i]);
      assert cs[..i + 1] == cs[..i] + [cs[i]];
    }
    assert cs[..|cs|] == cs;
    return Success(out);
  }

  function Ids(cs: seq<Component>): seq<string> {
    seq(|cs|, i requires 0 <= i < |cs| => cs[i].algId)
  }

  /** The component list an encapsulating side binds. */
  function Bound(ids: seq<string>, encs: seq<Encapsulation>): (cs: seq<Component>)
    requires |ids| == |encs|
    ensures |cs| == |ids|
  {
    seq(|ids|, i requires 0 <= i < |ids| => Component(ids[i], encs[i].ciphertext))
  }

  function Secrets(encs: seq<Encapsulation>): (ss: seq<bytes>)
    ensures |ss| == |encs|
  {
    seq(|encs|, i requires 0 <= i < |encs| => encs[i].sharedSecret)
  }

  /** combine(): the encapsulating side. */
  method Combine(s: Suite, ids: seq<string>, encs: seq<Encapsulation>) returns (r: Result<CombinedKeyMaterial>)
    requires |ids| == |encs|
    ensures r.Success? <==> encs != [] && InfoFits(DEFAULT_CONTEXT, Bound(ids, encs), COMBINER_SPEC_VERSION)
    ensures r.Success? ==> r.value == CombinedKeyMaterial(RootKey(s, Secrets(encs), Bound(ids, encs)), Bound(ids, encs))
    ensures r.Success? ==>
      r.value.rootKey == s.hkdf(Join(Secrets(encs)), Info(DEFAULT_CONTEXT, r.value.components, COMBINER_SPEC_VERSION))
    ensures r.Failure? ==> r.error == if encs == [] then ValueError else StructError
  {
    if encs == [] { return Failure(ValueError); }
    var cs := Bound(ids, encs);
    var info := EncodeInfo(DEFAULT_CONTEXT, cs, COMBINER_SPEC_VERSION);
    if info.Failure? { return Failure(StructError); }
    return Success(CombinedKeyMaterial(s.hkdf(Join(Secrets(encs)), info.value), cs));
  }

  /** combine_from_secrets(): the decapsulating side, which checks the order of the identifiers. */
  method CombineFromSecrets(s: Suite, ids: seq<string>, secrets: seq<bytes>, cs: seq<Component>)
    returns (r: Result<CombinedKeyMaterial>)
    ensures r.Success? <==> ids == Ids(cs) && InfoFits(DEFAULT_CONTEXT, cs, COMBINER_SPEC_VERSION)
    ensures r.Success? ==> r.value == CombinedKeyMaterial(RootKey(s, secrets, cs), cs)
    ensures r.Success? ==>
      r.value.rootKey == s.hkdf(Join(secrets), Info(DEFAULT_CONTEXT, cs, COMBINER_SPEC_VERSION))
    ensures r.Failure? ==> r.error == if ids != Ids(cs) then ValueError else StructError
  {
    if ids != Ids(cs) { return Failure(ValueError); }
    var info := EncodeInfo(DEFAULT_CONTEXT, cs, COMBINER_SPEC_VERSION);
    if info.Failure? { return Failure(StructError); }
    return Success(CombinedKeyMaterial(s.hkdf(Join(secrets), info.value), cs));
  }
  // ---- What the two sides' results depend on ----

  /** combine() run twice, under a suite made for the purpose: inputs that differ in a secret, an
      identifier or a ciphertext give different root keys. */
  method CombineTellsApart(ids: seq<string>, a: seq<Encapsulation>, jds: seq<string>, b: seq<Encapsulation>)
    returns (s: Suite, x: Result<CombinedKeyMaterial>, y: Result<CombinedKeyMaterial>)
    requires |ids| == |a| > 0 && |jds| == |b| && SameLengths(Secrets(a), Secrets(b))
    ensures InfoFits(DEFAULT_CONTEXT, Bound(ids, a), COMBINER_SPEC_VERSION)
            && InfoFits(DEFAULT_CONTEXT, Bound(jds, b), COMBINER_SPEC_VERSION) ==>
              && x.Success? && y.Success?
              && (x.value.rootKey != y.value.rootKey <==> Secrets(a) != Secrets(b) || Bound(ids, a) != Bound(jds, b))
  {
    hide Info, InfoFits, Bound, Secrets, RootKey;
    var cs, ds := Bound(ids, a), Bound(jds, b);
    var info := EncodeInfo(DEFAULT_CONTEXT, cs, COMBINER_SPEC_VERSION);
    s := TellingSuite(Join(Secrets(a)), if info.Success? then info.value else []);
    x := Combine(s, ids, a);
    y := Combine(s, jds, b);
    if x.Success? && y.Success? {
      HkdfInputsDetermineSecrets(Secrets(a), cs, Secrets(b), ds);
      if Secrets(a) != Secrets(b) || cs != ds {
        assert x.value.rootKey[0] == 1 && y.value.rootKey[0] == 0;
      }
    }
  }

  /** The same of combine_from_secrets(). */
  method CombineFromSecretsTellsApart(a: seq<bytes>, cs: seq<Component>, b: seq<bytes>, ds: seq<Component>)
    returns (s: Suite, x: Result<CombinedKeyMaterial>, y: Result<CombinedKeyMaterial>)
    requires SameLengths(a, b)
    ensures InfoFits(DEFAULT_CONTEXT, cs, COMBINER_SPEC_VERSION)
            && InfoFits(DEFAULT_CONTEXT, ds, COMBINER_SPEC_VERSION) ==>
              && x.Success? && y.Success?
              && (x.value.rootKey != y.value.rootKey <==> a != b || cs != ds)
  {
    hide Info, InfoFits, RootKey;
    var info := EncodeInfo(DEFAULT_CONTEXT, cs, COMBINER_SPEC_VERSION);
    s := TellingSuite(Join(a), if info.Success? then info.value else []);
    x := CombineFromSecrets(s, Ids(cs), a, cs);
    y := CombineFromSecrets(s, Ids(ds), b, ds);
    if x.Success? && y.Success? {
      HkdfInputsDetermineSecrets(a, cs, b, ds);
      if a != b || cs != ds {
        assert x.value.rootKey[0] == 1 && y.value.rootKey[0] == 0;
      }
    }
  }
}
