// The versioned header: its wire format, the printer, the parser, and the
// laws that tie them together (cryptoflex/header.py).
module Header {
  import opened Wrappers
  import opened Bytes
  import opened Aead
  import Utf8

  const MAGIC: bytes := [0x43, 0x46, 0x4C, 0x58]   // "CFLX"
  const FORMAT_VERSION := 2

  datatype Component = Component(algId: string, ciphertext: bytes)

  datatype Header = Header(profileId: string, components: seq<Component>, nonce: Option<bytes>, version: int)

  // ---- Wire format ----

  predicate TextFits(t: string) { |Utf8.Encode(t)| <= 255 }

  predicate ComponentFits(c: Component) { TextFits(c.algId) && |c.ciphertext| < U16_LIMIT }

  predicate AllFit(cs: seq<Component>) {
    forall i :: 0 <= i < |cs| ==> ComponentFits(cs[i])
  }

  /** What the printer accepts. */
  predicate Serializable(h: Header) {
    && h.version in {1, 2}
    && TextFits(h.profileId)
    && |h.components| <= 255
    && AllFit(h.components)
    && (h.version == 2 ==> h.nonce.Some? && |h.nonce.value| == NONCE_LEN)
  }

  function TextField(t: string): bytes
    requires TextFits(t)
  {
    [|Utf8.Encode(t)|] + Utf8.Encode(t)
  }

  function CiphertextField(ct: bytes): bytes
    requires |ct| < U16_LIMIT
  {
    U16(|ct|) + ct
  }

  function ComponentField(c: Component): bytes
    requires ComponentFits(c)
  {
    TextField(c.algId) + CiphertextField(c.ciphertext)
  }

  function ComponentFields(cs: seq<Component>): bytes
    requires AllFit(cs)
  {
    if cs == [] then [] else ComponentField(cs[0]) + ComponentFields(cs[1..])
  }

  function NonceField(h: Header): bytes
    requires Serializable(h)
  {
    if h.version == 2 then h.nonce.value else []
  }

  function Body(h: Header): bytes
    requires Serializable(h)
  {
    TextField(h.profileId) + [|h.components|] + ComponentFields(h.components) + NonceField(h)
  }

  /** The bytes of a header the printer accepts. */
  function Serialized(h: Header): (b: bytes)
    requires Serializable(h)
    ensures |b| >= 6
  {
    MAGIC + [h.version] + Body(h)
  }

  /** A header that survives printing and parsing unchanged. */
  predicate WellFormed(h: Header) {
    && Serializable(h)
    && h.profileId != ""
    && h.components != []
    && DistinctIds(h.components)
    && NonEmptyIds(h.components)
    && (h.version == 1 ==> h.nonce == None)
  }

  predicate NonEmptyIds(cs: seq<Component>) {
    forall i :: 0 <= i < |cs| ==> cs[i].algId != ""
  }

  predicate DistinctIds(cs: seq<Component>) {
    forall i, j :: 0 <= i < j < |cs| ==> cs[i].algId != cs[j].algId
  }

  // ---- The grammar the parser recognises, field by field ----

  function ReadText(s: bytes): Option<(string, bytes)> {
    if s == [] then None
    else
      var n: nat := s[0];
      if |s| < 1 + n then None
      else match Utf8.Decode(s[1..1 + n])
        case None => None
        case Some(t) => if t == "" then None else Some((t, s[1 + n..]))
  }

  function ReadCiphertext(s: bytes): Option<(bytes, bytes)> {
    if |s| < 2 then None
    else
      var n := FromU16(s[..2]);
      if |s| < 2 + n then None else Some((s[2..2 + n], s[2 + n..]))
  }

  function ReadComponent(s: bytes): Option<(Component, bytes)> {
    match ReadText(s)
    case None => None
    case Some((id, s1)) =>
      match ReadCiphertext(s1)
      case None => None
      case Some((ct, s2)) => Some((Component(id, ct), s2))
  }

  function ReadComponents(s: bytes, n: nat): Option<(seq<Component>, bytes)> {
    if n == 0 then Some(([], s))
    else match ReadComponent(s)
      case None => None
      case Some((c, s1)) =>
        match ReadComponents(s1, n - 1)
        case None => None
        case Some((cs, s2)) => Some(([c] + cs, s2))
  }

  function ReadNonce(s: bytes, version: int): Option<(Option<bytes>, bytes)> {
    if version < 2 then Some((None, s))
    else if |s| < NONCE_LEN then None
    else Some((Some(s[..NONCE_LEN]), s[NONCE_LEN..]))
  }

  function ReadBody(s: bytes, version: int): Option<(Header, bytes)> {
    match ReadText(s)
    case None => None
    case Some((profileId, s1)) =>
      if s1 == [] || s1[0] == 0 then None
      else match ReadComponents(s1[1..], s1[0])
        case None => None
        case Some((cs, s2)) =>
          if !DistinctIds(cs) then None
          else match ReadNonce(s2, version)
          case None => None
          case Some((nonce, s3)) => Some((Header(profileId, cs, nonce, version), s3))
  }

  /** The header at the start of data, with the number of bytes it takes. */
  function Parsed(data: bytes): Option<(Header, nat)> {
    if |data| < 6 || data[..4] != MAGIC || data[4] !in {1, 2} then None
    else match ReadBody(data[5..], data[4])
      case None => None
      case Some((h, rest)) => if |rest| <= |data| then Some((h, |data| - |rest|)) else None
  }

  // ---- Printing then parsing ----

  lemma Reassociate(a: bytes, b: bytes, c: bytes, d: bytes)
    ensures a + b + c + d == a + (b + (c + d))
  {
  }

  lemma TakeFirst(a: bytes, b: bytes, c: bytes, rest: bytes, s: bytes)
    requires |a| + |b| <= |s| && a == s[..|a|] && b == s[|a|..|a| + |b|] && s[|a| + |b|..] == c + rest
    ensures a + b + c == s[..|s| - |rest|]
  {
  }

  lemma DropFirst(a: bytes, b: bytes, c: bytes, rest: bytes)
    ensures var s := a + b + c + rest;
            s[..|a|] == a && s[|a|..|a| + |b|] == b && s[|a| + |b|..] == c + rest
  {
  }

  lemma WellFormedIsSerializable(h: Header)
    requires WellFormed(h)
    ensures Serializable(h) && h.version in {1, 2}
  {
  }

  lemma ReadTextField(t: string, rest: bytes)
    requires TextFits(t)
    ensures ReadText(TextField(t) + rest) == if t == "" then None else Some((t, rest))
  {
    var e := Utf8.Encode(t);
    var s := TextField(t) + rest;
    assert s[1..1 + |e|] == e && s[1 + |e|..] == rest;
    Utf8.DecodeEncode(t);
  }

  lemma ReadCiphertextField(ct: bytes, rest: bytes)
    requires |ct| < U16_LIMIT
    ensures ReadCiphertext(CiphertextField(ct) + rest) == Some((ct, rest))
  {
    var s := CiphertextField(ct) + rest;
    assert s[..2] == U16(|ct|) && s[2..2 + |ct|] == ct && s[2 + |ct|..] == rest;
  }

  lemma ReadComponentField(c: Component, rest: bytes)
    requires ComponentFits(c)
    ensures ReadComponent(ComponentField(c) + rest) == if c.algId == "" then None else Some((c, rest))
  {
    var s1 := CiphertextField(c.ciphertext) + rest;
    ReadTextField(c.algId, s1);
    ReadCiphertextField(c.ciphertext, rest);
    assert ComponentField(c) + rest == TextField(c.algId) + s1;
  }

  lemma ComponentFieldsSplit(cs: seq<Component>, rest: bytes)
    requires AllFit(cs) && cs != []
    ensures AllFit(cs[1..]) && ComponentFits(cs[0])
    ensures ComponentFields(cs) + rest == ComponentField(cs[0]) + (ComponentFields(cs[1..]) + rest)
  {
  }

  /** Printed components are read back exactly when their identifiers are non-empty. */
  lemma {:induction false} ReadComponentFields(cs: seq<Component>, rest: bytes)
    requires AllFit(cs)
    ensures ReadComponents(ComponentFields(cs) + rest, |cs|) == if NonEmptyIds(cs) then Some((cs, rest)) else None
    decreases |cs|
  {
    hide ReadComponent, ComponentField, AllFit;
    if cs == [] {
      assert ComponentFields(cs) + rest == rest;
    } else {
      assert cs == [cs[0]] + cs[1..];
      ComponentFieldsSplit(cs, rest);
      ReadComponentField(cs[0], ComponentFields(cs[1..]) + rest);
      ReadComponentFields(cs[1..], rest);
      assert NonEmptyIds(cs) <==> cs[0].algId != "" && NonEmptyIds(cs[1..]);
    }
  }

  lemma BodySplit(h: Header, rest: bytes)
    requires Serializable(h)
    ensures Body(h) + rest
         == TextField(h.profileId) + ([|h.components|] + (ComponentFields(h.components) + (NonceField(h) + rest)))
  {
    var t, n, c, o := TextField(h.profileId), [|h.components|], ComponentFields(h.components), NonceField(h);
    Reassociate(t, n, c, o);
    Reassociate(t, n, c, o + rest);
    assert t + n + c + o + rest == t + n + c + (o + rest);
  }

  /** What a header says on the wire: version 1 carries no nonce. */
  function AsWritten(h: Header): Header {
    if h.version == 1 then h.(nonce := None) else h
  }

  lemma CurrentHeaderWellFormedIff(h: Header)
    requires Serializable(h) && h.version == FORMAT_VERSION
    ensures AsWritten(h) == h
    ensures WellFormed(h) <==>
            h.profileId != "" && h.components != [] && NonEmptyIds(h.components) && DistinctIds(h.components)
  {
  }

  lemma ReadSerializedBody(h: Header, rest: bytes)
    requires Serializable(h)
    ensures ReadBody(Body(h) + rest, h.version)
         == if WellFormed(AsWritten(h)) then Some((AsWritten(h), rest)) else None
  {
    hide ReadText, ReadComponents, TextField, ComponentFields, Body, AllFit, NonEmptyIds, DistinctIds;
    var s3 := NonceField(h) + rest;
    var s2 := ComponentFields(h.components) + s3;
    var s1 := [|h.components|] + s2;
    BodySplit(h, rest);
    ReadTextField(h.profileId, s1);
    assert s1[1..] == s2;
    ReadComponentFields(h.components, s3);
    if h.version == 2 {
      assert s3[..NONCE_LEN] == h.nonce.value && s3[NONCE_LEN..] == rest;
    } else {
      assert s3 == rest;
    }
  }

  /** Parsing what was printed, whatever follows it: the header as written and its length
      when that is well formed, a rejection when it is not. */
  lemma ParsePrinted(h: Header, rest: bytes)
    requires Serializable(h)
    ensures Parsed(Serialized(h) + rest)
         == if WellFormed(AsWritten(h)) then Some((AsWritten(h), |Serialized(h)|)) else None
  {
    hide Body, WellFormed, ReadBody, AllFit;
    var data := Serialized(h) + rest;
    DropFirst(MAGIC, [h.version], Body(h), rest);
    ReadSerializedBody(h, rest);
  }

  // ---- Parsing then printing ----

  lemma ReadTextIsField(s: bytes)
    requires ReadText(s).Some?
    ensures var (t, rest) := ReadText(s).value;
            TextFits(t) && t != "" && s == TextField(t) + rest
  {
    var n: nat := s[0];
    Utf8.EncodeDecode(s[1..1 + n]);
    assert s == [s[0]] + s[1..1 + n] + s[1 + n..];
  }

  lemma ReadCiphertextIsField(s: bytes)
    requires ReadCiphertext(s).Some?
    ensures var (ct, rest) := ReadCiphertext(s).value;
            |ct| < U16_LIMIT && s == CiphertextField(ct) + rest
  {
    U16Canonical(s[..2]);
    var n := FromU16(s[..2]);
    assert s == s[..2] + s[2..2 + n] + s[2 + n..];
  }

  lemma ReadComponentIsField(s: bytes)
    requires ReadComponent(s).Some?
    ensures var (c, rest) := ReadComponent(s).value;
            ComponentFits(c) && c.algId != "" && s == ComponentField(c) + rest
  {
    ReadTextIsField(s);
    var (_, s1) := ReadText(s).value;
    ReadCiphertextIsField(s1);
  }

  lemma {:induction false} ReadComponentsAreFields(s: bytes, n: nat)
    requires ReadComponents(s, n).Some?
    ensures var (cs, rest) := ReadComponents(s, n).value;
            |cs| == n && AllFit(cs) && NonEmptyIds(cs) && s == ComponentFields(cs) + rest
    decreases n
  {
    hide ReadComponent, ComponentField;
    if n > 0 {
      var (c, s1) := ReadComponent(s).value;
      var (tail, rest) := ReadComponents(s1, n - 1).value;
      ReadComponentIsField(s);
      ReadComponentsAreFields(s1, n - 1);
      assert ([c] + tail)[1..] == tail;
      ComponentFieldsSplit([c] + tail, rest);
    }
  }

  lemma ReadNonceIsField(s: bytes, version: int)
    requires version in {1, 2} && ReadNonce(s, version).Some?
    ensures var (nonce, rest) := ReadNonce(s, version).value;
            && (if version == 2 then nonce.Some? && |nonce.value| == NONCE_LEN else nonce == None)
            && s == (if nonce.Some? then nonce.value else []) + rest
  {
  }

  lemma ReadBodyIsSerialized(s: bytes, version: int)
    requires version in {1, 2} && ReadBody(s, version).Some?
    ensures var (h, rest) := ReadBody(s, version).value;
            && WellFormed(h) && h.version == version
            && s == Body(h) + rest
  {
    hide ReadText, ReadComponents, ReadNonce, TextField, ComponentFields, Body, AllFit, NonEmptyIds, DistinctIds;
    var (h, rest) := ReadBody(s, version).value;
    var (_, s1) := ReadText(s).value;
    var (cs, s2) := ReadComponents(s1[1..], s1[0]).value;
    ReadTextIsField(s);
    ReadComponentsAreFields(s1[1..], s1[0]);
    assert h.components == cs && h.profileId == ReadText(s).value.0;
    ReadNonceIsField(s2, version);
    assert s1 == [s1[0]] + s1[1..];
    BodySplit(h, rest);
  }

  /** A parsed header is well formed, and printing it gives back the bytes it was read from. */
  lemma PrintParsed(data: bytes)
    requires Parsed(data).Some?
    ensures var (h, consumed) := Parsed(data).value;
            WellFormed(h) && consumed <= |data| && Serialized(h) == data[..consumed]
  {
    hide Body, WellFormed, Serializable;
    var (h, rest) := ReadBody(data[5..], data[4]).value;
    ReadBodyIsSerialized(data[5..], data[4]);
    WellFormedIsSerializable(h);
    TakeFirst(data[..4], [data[4]], Body(h), rest, data);
  }

  // ---- Consequences ----

  /** A printable header survives the round trip exactly when it is well formed. */
  lemma RoundTripIffWellFormed(h: Header, rest: bytes)
    requires Serializable(h)
    ensures Parsed(Serialized(h) + rest) == Some((h, |Serialized(h)|)) <==> WellFormed(h)
  {
    ParsePrinted(h, rest);
  }

  /** The parser recognises exactly the printed well-formed headers at the start of its input. */
  lemma ParsesExactlyPrinted(data: bytes, h: Header, consumed: nat)
    ensures Parsed(data) == Some((h, consumed))
       <==> WellFormed(h) && Serialized(h) <= data && consumed == |Serialized(h)|
  {
    hide Parsed, Serialized, Serializable;
    if Parsed(data) == Some((h, consumed)) {
      PrintParsed(data);
    }
    if WellFormed(h) && Serialized(h) <= data && consumed == |Serialized(h)| {
      ParsePrinted(h, data[consumed..]);
      assert Serialized(h) + data[consumed..] == data;
    }
  }

  /** The layout of a header, as its readers rely on it: magic, version, profile identifier behind
      its length, component count, components, and, in version 2, the nonce in the last 12 bytes. */
  lemma HeaderLayout(h: Header)
    requires Serializable(h)
    ensures var b := Serialized(h);
            var n, tail := |Utf8.Encode(h.profileId)|, if h.version == 2 then 12 else 0;
            && b[..4] == [0x43, 0x46, 0x4C, 0x58] && b[4] == h.version && b[5] == n
            && |b| >= 7 + n + tail && b[6..6 + n] == Utf8.Encode(h.profileId) && b[6 + n] == |h.components|
            && b[7 + n..|b| - tail] == ComponentFields(h.components)
            && (h.version == 2 ==> b[|b| - 12..] == h.nonce.value)
  {
    hide ComponentFields, AllFit;
    var e := Utf8.Encode(h.profileId);
    var fields := ComponentFields(h.components);
    var b := Serialized(h);
    assert b == MAGIC + [h.version] + [|e|] + e + [|h.components|] + fields + NonceField(h);
  }

  /** And of its components: for each the identifier behind its 1-byte length, then the ciphertext
      behind its 2-byte length, most significant byte first. */
  lemma ComponentFieldsLayout(cs: seq<Component>)
    requires AllFit(cs)
    ensures cs == [] ==> ComponentFields(cs) == []
    ensures cs != [] ==>
      var b, id, ct := ComponentFields(cs), Utf8.Encode(cs[0].algId), cs[0].ciphertext;
      && |b| >= 3 + |id| + |ct|
      && b[0] == |id| && b[1..1 + |id|] == id
      && b[1 + |id|] == |ct| / 0x100 && b[2 + |id|] == |ct| % 0x100
      && b[3 + |id|..3 + |id| + |ct|] == ct
      && b[3 + |id| + |ct|..] == ComponentFields(cs[1..])
  {
    hide ComponentField;
    if cs != [] {
      assert ComponentFields(cs) == ComponentField(cs[0]) + ComponentFields(cs[1..]);
      ComponentFieldLayout(cs[0], ComponentFields(cs[1..]));
    }
  }

  lemma ComponentFieldLayout(c: Component, rest: bytes)
    requires ComponentFits(c)
    ensures var b, id, ct := ComponentField(c) + rest, Utf8.Encode(c.algId), c.ciphertext;
            && |b| >= 3 + |id| + |ct|
            && b[0] == |id| && b[1..1 + |id|] == id
            && b[1 + |id|] == |ct| / 0x100 && b[2 + |id|] == |ct| % 0x100
            && b[3 + |id|..3 + |id| + |ct|] == ct
            && b[3 + |id| + |ct|..] == rest
  {
    hide ComponentFields, Utf8.Encode, Utf8.Decode;
    var b, id, ct := ComponentField(c) + rest, Utf8.Encode(c.algId), c.ciphertext;
    assert b[1..1 + |id|] == TextField(c.algId)[1..] == id;
    assert b[3 + |id|..3 + |id| + |ct|] == CiphertextField(ct)[2..] == ct;
  }

  /** The result depends on nothing after the consumed bytes. */
  lemma ParseIsLocal(data: bytes, rest: bytes)
    requires Parsed(data).Some?
    ensures Parsed(data[..Parsed(data).value.1] + rest) == Parsed(data)
  {
    PrintParsed(data);
    ParsePrinted(Parsed(data).value.0, rest);
  }

  /** No printed header is a proper prefix of another, and printing is injective. */
  lemma SerializedPrefixFree(a: Header, b: Header, x: bytes, y: bytes)
    requires WellFormed(a) && WellFormed(b)
    requires Serialized(a) + x == Serialized(b) + y
    ensures a == b && x == y
  {
    ParsePrinted(a, x);
    ParsePrinted(b, y);
    SplitConcat(Serialized(a), Serialized(b), x, y);
  }

  /** Cutting the input parses exactly when the cut leaves every consumed byte in place. */
  lemma ParseOfCut(data: bytes, cut: nat)
    requires Parsed(data).Some? && cut <= |data|
    ensures Parsed(data[..cut]) == if cut >= Parsed(data).value.1 then Parsed(data) else None
  {
    hide Parsed, Serialized, WellFormed;
    var consumed := Parsed(data).value.1;
    PrintParsed(data);
    if cut >= consumed {
      ParseIsLocal(data, data[consumed..cut]);
      assert data[..consumed] + data[consumed..cut] == data[..cut];
    } else if Parsed(data[..cut]).Some? {
      var c := Parsed(data[..cut]).value.1;
      PrintParsed(data[..cut]);
      assert data[..cut][..c] + data[c..] == data;
      ParseIsLocal(data[..cut], data[c..]);
    }
  }

  // ---- The printer and the parser as the library runs them ----

  lemma {:induction false} ComponentFieldsAppend(cs: seq<Component>, c: Component)
    requires AllFit(cs) && ComponentFits(c)
    ensures AllFit(cs + [c])
    ensures ComponentFields(cs + [c]) == ComponentFields(cs) + ComponentField(c)
    decreases |cs|
  {
    hide ComponentFits, ComponentField;
    if cs == [] {
      assert cs + [c] == [c];
      assert ComponentFields([c]) == ComponentField(c) + ComponentFields([]);
    } else {
      ComponentFieldsAppend(cs[1..], c);
      assert (cs + [c])[1..] == cs[1..] + [c];
    }
  }

  lemma NoFields()
    ensures AllFit([]) && ComponentFields([]) == []
  {
  }

  lemma FieldWritten(before: bytes, c: Component)
    requires ComponentFits(c)
    ensures before + [|Utf8.Encode(c.algId)|] + Utf8.Encode(c.algId) + U16(|c.ciphertext|) + c.ciphertext
         == before + ComponentField(c)
  {
    hide U16;
    var e := Utf8.Encode(c.algId);
    assert before + [|e|] + e == before + TextField(c.algId);
    Reassociate(before, TextField(c.algId), U16(|c.ciphertext|), c.ciphertext);
  }

  method WriteComponents(cs: seq<Component>, start: bytes) returns (r: Result<bytes>)
    ensures r == if AllFit(cs) then Success(start + ComponentFields(cs)) else Failure(ValueError)
  {
    NoFields();
    hide ComponentField, ComponentFields, U16;
    var out := start;
    for i := 0 to |cs|
      invariant AllFit(cs[..i])
      invariant out == start + ComponentFields(cs[..i])
    {
      var c := cs[i];
      var algBytes := Utf8.Encode(c.algId);
      if |algBytes| > 255 { return Failure(ValueError); }
      if |c.ciphertext| > 65535 { return Failure(ValueError); }
      ghost var before := out;
      out := out + [|algBytes|];
      out := out + algBytes;
      out := out + U16(|c.ciphertext|);
      out := out + c.ciphertext;
      FieldWritten(before, c);
      ComponentFieldsAppend(cs[..i], c);
      assert cs[..i + 1] == cs[..i] + [c];
    }
    assert cs[..|cs|] == cs;
    return Success(out);
  }

  method ToBytes(h: Header) returns (r: Result<bytes>)
    ensures r == if Serializable(h) then Success(Serialized(h)) else Failure(ValueError)
  {
    hide AllFit, ComponentFields;
    if h.version !in {1, 2} { return Failure(ValueError); }
    var out: bytes := MAGIC;
    out := out + [h.version];

    var profileBytes := Utf8.Encode(h.profileId);
    if |profileBytes| > 255 { return Failure(ValueError); }
    out := out + [|profileBytes|];
    out := out + profileBytes;

    if |h.components| > 255 { return Failure(ValueError); }
    out := out + [|h.components|];
    var written := WriteComponents(h.components, out);
    if written.Failure? { return Failure(ValueError); }

    if h.version >= 2 && (h.nonce.None? || |h.nonce.value| != NONCE_LEN) { return Failure(ValueError); }
    assert written.value + NonceField(h) == Serialized(h);
    if h.version >= 2 { return Success(written.value + h.nonce.value); }
    assert written.value + [] == written.value;
    return Success(written.value);
  }

  /** Invariant of the component loop: what is read and what is still to read make up the whole. */
  ghost predicate ReadSoFar(all: Option<(seq<Component>, bytes)>, done: seq<Component>,
                            rest: Option<(seq<Component>, bytes)>) {
    all == match rest
           case None => None
           case Some((cs, tail)) => Some((done + cs, tail))
  }

  lemma ReadOneMore(all: Option<(seq<Component>, bytes)>, done: seq<Component>, s: bytes, n: nat, c: Component,
                    rest: bytes)
    requires n > 0 && ReadSoFar(all, done, ReadComponents(s, n))
    requires ReadComponent(s) == Some((c, rest))
    ensures ReadSoFar(all, done + [c], ReadComponents(rest, n - 1))
  {
    var more := ReadComponents(rest, n - 1);
    if more.Some? {
      assert done + ([c] + more.value.0) == done + [c] + more.value.0;
    }
  }

  /** A repeated identifier spoils the whole list, whatever is still to come. */
  lemma RepeatedId(all: Option<(seq<Component>, bytes)>, done: seq<Component>, c: Component,
                   rest: Option<(seq<Component>, bytes)>)
    requires ReadSoFar(all, done + [c], rest) && c.algId in IdSet(done)
    ensures all.Some? ==> !DistinctIds(all.value.0)
  {
    if all.Some? {
      var i :| 0 <= i < |done| && done[i].algId == c.algId;
      assert all.value.0[i].algId == all.value.0[|done|].algId;
    }
  }

  function IdSet(cs: seq<Component>): set<string> {
    set i | 0 <= i < |cs| :: cs[i].algId
  }

  lemma IdSetAppend(cs: seq<Component>, c: Component)
    ensures IdSet(cs + [c]) == IdSet(cs) + {c.algId}
    ensures DistinctIds(cs) && c.algId !in IdSet(cs) ==> DistinctIds(cs + [c])
  {
    var d := cs + [c];
    assert forall i :: 0 <= i < |cs| ==> d[i] == cs[i];
    assert d[|cs|] == c;
    forall id | id in IdSet(cs) + {c.algId} ensures id in IdSet(d) {
      if id == c.algId {
        assert d[|cs|].algId == id;
      } else {
        var i :| 0 <= i < |cs| && cs[i].algId == id;
        assert d[i].algId == id;
      }
    }
  }

  /** The component loop, from offset start; None stands for any parse error. */
  method ParseComponents(data: bytes, start: nat, count: nat) returns (r: Option<(seq<Component>, nat)>)
    requires start <= |data|
    ensures var all := ReadComponents(data[start..], count);
            && (r.None? <==> all == None || !DistinctIds(all.value.0))
            && (r.Some? ==> r.value.1 <= |data| && all == Some((r.value.0, data[r.value.1..])))
  {
    hide ReadComponent, IdSet, DistinctIds;
    var offset: nat := start;
    var components: seq<Component> := [];
    var seenAlgIds: set<string> := {};
    NoIds();
    ghost var all := ReadComponents(data[start..], count);
    assert forall cs: seq<Component> :: [] + cs == cs;
    for k := 0 to count
      invariant offset <= |data|
      invariant seenAlgIds == IdSet(components) && DistinctIds(components)
      invariant ReadSoFar(all, components, ReadComponents(data[offset..], count - k))
    {
      var one := ParseComponent(data, offset);
      if one.None? { return None; }
      var (c, next) := one.value;
      ReadOneMore(all, components, data[offset..], count - k, c, data[next..]);
      if c.algId in seenAlgIds {
        RepeatedId(all, components, c, ReadComponents(data[next..], count - k - 1));
        return None;
      }
      IdSetAppend(components, c);
      offset, components, seenAlgIds := next, components + [c], seenAlgIds + {c.algId};
    }
    assert components + [] == components;
    return Some((components, offset));
  }

  lemma NoIds()
    ensures IdSet([]) == {} && DistinctIds([])
  {
  }

  method ParseComponent(data: bytes, start: nat) returns (r: Option<(Component, nat)>)
    requires start <= |data|
    ensures r.None? <==> ReadComponent(data[start..]) == None
    ensures r.Some? ==> start < r.value.1 <= |data|
    ensures r.Some? ==> ReadComponent(data[start..]) == Some((r.value.0, data[r.value.1..]))
  {
    hide ReadText;
    var text := ParseText(data, start);
    if text.None? { return None; }
    var (algId, offset) := text.value;
    ghost var s1 := data[offset..];
    if offset + 2 > |data| { return None; }
    assert s1[..2] == data[offset..offset + 2];
    var ctLen := FromU16(data[offset..offset + 2]);
    offset := offset + 2;
    if offset + ctLen > |data| { return None; }
    var ciphertext := data[offset..offset + ctLen];
    assert s1[2..2 + ctLen] == ciphertext && s1[2 + ctLen..] == data[offset + ctLen..];
    return Some((Component(algId, ciphertext), offset + ctLen));
  }

  /** A length byte and that many bytes of non-empty UTF-8, at offset. */
  method ParseText(data: bytes, offset: nat) returns (r: Option<(string, nat)>)
    requires offset <= |data|
    ensures r.None? <==> ReadText(data[offset..]) == None
    ensures r.Some? ==> offset < r.value.1 <= |data|
    ensures r.Some? ==> ReadText(data[offset..]) == Some((r.value.0, data[r.value.1..]))
  {
    var s := data[offset..];
    if offset >= |data| { return None; }
    var n: nat := data[offset];
    if offset + 1 + n > |data| { return None; }
    assert s[1..1 + n] == data[offset + 1..offset + 1 + n];
    var text := Utf8.Decode(data[offset + 1..offset + 1 + n]);
    if text.None? || text.value == "" { return None; }
    return Some((text.value, offset + 1 + n));
  }

  method FromBytes(data: bytes) returns (r: Result<(Header, nat)>)
    ensures r == match Parsed(data) case Some(p) => Success(p) case None => Failure(HeaderParseError)
  {
    hide ReadText, ReadComponents;
    if |data| < 6 || data[..4] != MAGIC { return Failure(HeaderParseError); }
    var version: int := data[4];
    if version !in {1, 2} { return Failure(HeaderParseError); }

    var text := ParseText(data, 5);
    if text.None? { return Failure(HeaderParseError); }
    var (profileId, offset) := text.value;

    if offset >= |data| { return Failure(HeaderParseError); }
    var numComponents: nat := data[offset];
    if numComponents == 0 { return Failure(HeaderParseError); }
    assert data[offset..][1..] == data[offset + 1..];
    var parsed := ParseComponents(data, offset + 1, numComponents);
    if parsed.None? { return Failure(HeaderParseError); }
    var (components, end) := parsed.value;

    var nonce: Option<bytes> := None;
    ghost var s2 := data[end..];
    if version >= 2 {
      if end + NONCE_LEN > |data| { return Failure(HeaderParseError); }
      nonce := Some(data[end..end + NONCE_LEN]);
      assert s2[..NONCE_LEN] == nonce.value;
      end := end + NONCE_LEN;
    }
    assert ReadNonce(s2, version) == Some((nonce, data[end..]));
    return Success((Header(profileId, components, nonce, version), end));
  }
}
