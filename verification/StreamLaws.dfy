// What encrypt_stream, decrypt_stream and migrate_stream mean for whole streams:
// header first, frames behind it (cryptoflex/streaming.py).
module StreamLaws {
  import opened Wrappers
  import opened Bytes
  import opened Aead
  import opened Header
  import opened Frames
  import opened Sources
  import opened Profiles
  import opened Api
  import opened Combiner

  /** A stream as written: the header, then what a verdict says was written behind it. */
  function StreamBytes(s: Suite, c: Session, v: Verdict): bytes
    requires |v.chunks| <= MAX_STREAM_DATA_FRAMES
  {
    c.header + Verified(s, c, 0, v)
  }

  // ---- The meaning of an input ----

  /** The session an input opens and the decoder's verdict on its frames, when the first
      read returned its first bytes. The header must lie within that read. */
  function StreamVerdict(env: Env, handles: seq<Handle>, minProfile: Option<string>, input: bytes, first: nat)
    : (r: Result<(Session, Verdict)>)
    requires first <= |input|
    ensures r.Success? ==> |r.value.1.chunks| <= MAX_STREAM_DATA_FRAMES
  {
    match RecipientSession(env, handles, minProfile, input[..first])
    case Failure(e) => Failure(e)
    case Success((c, consumed)) =>
      DecodedIsEncoded(env.suite, c, 0, 0, input[consumed..]);
      Success((c, Decode(env.suite, c, 0, 0, input[consumed..])))
  }

  function Outcome(v: Verdict): Result<()> {
    if v.end == Complete then Success(()) else Failure(DecryptionError)
  }

  /** What encrypt_stream has done when it stops: the chunks it sealed cover the input, or the
      next chunk, read but not sealed, would have broken a limit. */
  ghost predicate EncryptionStopped(text: bytes, left: bytes, chunkSize: nat, chunks: seq<Chunk>, ok: bool) {
    && (forall i :: 0 <= i < |chunks| ==> |chunks[i]| <= chunkSize)
    && Fits(0, 0, chunks)
    && (if ok then Join(chunks) == text && left == []
        else exists lost: Chunk ::
          |lost| <= chunkSize && !Fits(0, 0, chunks + [lost]) && Join(chunks) + lost + left == text)
  }

  // ---- Chunks of a full input ----

  /** Every chunk has the full size. */
  predicate AllOfSize(chunks: seq<Chunk>, size: nat) {
    forall i :: 0 <= i < |chunks| ==> |chunks[i]| == size
  }

  /** Every chunk but the last has the full size. */
  predicate Chunked(chunks: seq<Chunk>, size: nat) {
    forall i :: 0 <= i < |chunks| ==> |chunks[i]| <= size && (i < |chunks| - 1 ==> |chunks[i]| == size)
  }

  lemma {:induction false} AllOfSizeLength(chunks: seq<Chunk>, size: nat)
    requires AllOfSize(chunks, size)
    ensures |Join(chunks)| == |chunks| * size
  {
    if chunks != [] {
      JoinSplit(chunks);
      AllOfSizeLength(chunks[1..], size);
      OneMore(|chunks|, size);
    }
  }

  /** So the number of chunks is the length divided by the size, rounded up. */
  lemma ChunkCount(chunks: seq<Chunk>, size: nat)
    requires size > 0 && Chunked(chunks, size)
    ensures |chunks| * size >= |Join(chunks)| && (chunks != [] ==> (|chunks| - 1) * size < |Join(chunks)|)
    ensures |chunks| == (|Join(chunks)| + size - 1) / size
  {
    if chunks != [] {
      var front := chunks[..|chunks| - 1];
      var last := chunks[|chunks| - 1];
      AllOfSizeLength(front, size);
      assert chunks == front + [last];
      JoinAppend(front, last);
      OneMore(|chunks|, size);
    }
    RoundedUp(|chunks|, |Join(chunks)|, size);
  }

  /** The longest full input encrypt_stream takes: 64 GiB, and a million chunks. */
  predicate WithinCapacity(length: nat, chunkSize: int) {
    length <= 68_719_476_736 && length <= 1_000_000 * chunkSize
  }

  lemma ChunkedAppend(chunks: seq<Chunk>, chunk: Chunk, size: nat)
    requires AllOfSize(chunks, size) && |chunk| <= size
    ensures Chunked(chunks + [chunk], size) && (|chunk| == size ==> AllOfSize(chunks + [chunk], size))
  {
  }

  /** Over a full input, encryption goes through exactly when the input is within capacity, and
      the input's length fixes the number of chunks. */
  lemma FullInputRun(text: bytes, left: bytes, size: nat, chunks: seq<Chunk>, ok: bool)
    requires size > 0 && EncryptionStopped(text, left, size, chunks, ok)
    requires Chunked(chunks, size) && (ok || AllOfSize(chunks, size))
    ensures ok <==> WithinCapacity(|text|, size)
    ensures ok ==> |chunks| == (|text| + size - 1) / size
  {
    hide Chunked, AllOfSize;
    if ok {
      ChunkCount(chunks, size);
      ProductMonotone(|chunks|, 1_000_000, size);
    } else {
      AllOfSizeLength(chunks, size);
      var lost: Chunk :| |lost| <= size && !Fits(0, 0, chunks + [lost]) && Join(chunks) + lost + left == text;
      JoinAppend(chunks, lost);
      if |chunks| >= 1_000_000 { ProductMonotone(1_000_000, |chunks|, size); }
    }
  }

  // ---- The first read ----

  /** The session a cut input opens: that of the whole input when the cut leaves the header
      in place, a rejection otherwise. */
  lemma SessionOfCut(env: Env, handles: seq<Handle>, minProfile: Option<string>, input: bytes, first: nat)
    requires first <= |input|
    ensures RecipientSession(env, handles, minProfile, input[..first])
         == if Parsed(input).Some? && Parsed(input).value.1 <= first
            then RecipientSession(env, handles, minProfile, input) else Failure(DecryptionError)
  {
    hide Parsed, Recovered, Gate;
    if Parsed(input).Some? {
      ParseOfCut(input, first);
      PrintParsed(input);
      var consumed := Parsed(input).value.1;
      if consumed <= first {
        assert input[..first][..consumed] == input[..consumed];
      }
    } else if Parsed(input[..first]).Some? {
      var c := Parsed(input[..first]).value.1;
      PrintParsed(input[..first]);
      assert input[..first][..c] + input[c..] == input;
      ParseIsLocal(input[..first], input[c..]);
    }
  }

  /** decrypt_stream and migrate_stream fetch the header in one read. Its length matters only
      against the header's: a read that ends inside the header rejects an otherwise good
      stream, and every read that covers it gives the same session and verdict. */
  lemma FirstReadMustCoverHeader(env: Env, handles: seq<Handle>, minProfile: Option<string>, input: bytes, first: nat)
    requires first <= |input|
    ensures StreamVerdict(env, handles, minProfile, input, first)
         == if Parsed(input).Some? && Parsed(input).value.1 <= first
            then StreamVerdict(env, handles, minProfile, input, |input|) else Failure(DecryptionError)
  {
    hide Parsed, RecipientSession, Decode;
    SessionOfCut(env, handles, minProfile, input, first);
    assert input[..|input|] == input;
    if Parsed(input).Some? {
      PrintParsed(input);
    } else {
      SessionOfCut(env, handles, minProfile, input, |input|);
    }
  }

  /** So no stream at all, however good, survives a first read of fewer than 6 bytes. */
  lemma TinyFirstReadRejects(env: Env, handles: seq<Handle>, minProfile: Option<string>, input: bytes, first: nat)
    requires first <= |input| && first < 6
    ensures StreamVerdict(env, handles, minProfile, input, first) == Failure(DecryptionError)
  {
    hide Parsed, RecipientSession, Decode, Serialized;
    FirstReadMustCoverHeader(env, handles, minProfile, input, first);
    if Parsed(input).Some? {
      PrintParsed(input);
      assert |Serialized(Parsed(input).value.0)| >= 6;
    }
  }

  predicate Accepted(env: Env, handles: seq<Handle>, minProfile: Option<string>, input: bytes, first: nat)
    requires first <= |input|
  {
    var r := StreamVerdict(env, handles, minProfile, input, first);
    r.Success? && r.value.1.end == Complete
  }

  // ---- Exactness ----

  /** decrypt_stream succeeds with a chunk list exactly when the input is the header of the
      session it opens followed by the encoding of that list, within the limits. */
  lemma StreamAcceptsExactly(env: Env, handles: seq<Handle>, minProfile: Option<string>, input: bytes, first: nat,
                             c: Session, chunks: seq<Chunk>)
    requires first <= |input|
    ensures StreamVerdict(env, handles, minProfile, input, first) == Success((c, Verdict(chunks, Complete)))
       <==> && RecipientSession(env, handles, minProfile, input[..first]) == Success((c, |c.header|))
            && Fits(0, 0, chunks) && input == c.header + Encoded(env.suite, c, 0, chunks)
  {
    hide RecipientSession, Decode, Encoded;
    match RecipientSession(env, handles, minProfile, input[..first])
    case Failure(_) =>
    case Success((d, consumed)) =>
      AcceptsExactlyEncodings(env.suite, d, input[consumed..], chunks);
      assert |d.header| == consumed && d.header == input[..consumed];
      assert input == input[..consumed] + input[consumed..];
      if d == c && Fits(0, 0, chunks) {
        assert (c.header + Encoded(env.suite, c, 0, chunks))[consumed..] == Encoded(env.suite, c, 0, chunks);
      }
  }

  // ---- Inputs that fill the first read ----

  /** What the first read of a full input returns: 64 KiB, or all there is. */
  function FullFirst(input: bytes): (n: nat)
    ensures n == |input| <= 65536 || n == 65536 < |input|
  {
    if |input| <= 65536 then |input| else 65536
  }

  /** A stream for these handles: a header of at most 64 KiB that opens a session, then the encoding
      of a chunk list within the limits, and nothing behind it. */
  predicate IsStream(env: Env, handles: seq<Handle>, minProfile: Option<string>, input: bytes,
                     c: Session, chunks: seq<Chunk>)
  {
    && |c.header| <= 65536
    && RecipientSession(env, handles, minProfile, c.header) == Success((c, |c.header|))
    && Fits(0, 0, chunks) && input == c.header + Encoded(env.suite, c, 0, chunks)
  }

  /** A session is opened by the bytes of its header, whatever follows them. */
  lemma SessionOfHeader(env: Env, handles: seq<Handle>, minProfile: Option<string>, data: bytes, c: Session)
    ensures RecipientSession(env, handles, minProfile, data) == Success((c, |c.header|))
       <==> c.header <= data && RecipientSession(env, handles, minProfile, c.header) == Success((c, |c.header|))
  {
    hide Parsed, RecipientSession;
    if c.header <= data {
      SessionOfCut(env, handles, minProfile, data, |c.header|);
      assert data[..|c.header|] == c.header;
      if RecipientSession(env, handles, minProfile, data) == Success((c, |c.header|)) {
        SessionConsumesHeader(env, handles, minProfile, data);
      }
    }
  }

  /** Decryption of a full input succeeds with a chunk list exactly when the input is a stream of
      that list; nothing is left to how its reads went. */
  lemma FullInputAcceptsExactly(env: Env, handles: seq<Handle>, minProfile: Option<string>, input: bytes,
                                c: Session, chunks: seq<Chunk>)
    ensures StreamVerdict(env, handles, minProfile, input, FullFirst(input)) == Success((c, Verdict(chunks, Complete)))
       <==> IsStream(env, handles, minProfile, input, c, chunks)
  {
    hide StreamVerdict, RecipientSession, Encoded, Fits;
    var first := FullFirst(input);
    StreamAcceptsExactly(env, handles, minProfile, input, first, c, chunks);
    SessionOfHeader(env, handles, minProfile, input[..first], c);
  }

  /** The same over all chunk lists. */
  lemma FullInputVerdict(env: Env, handles: seq<Handle>, minProfile: Option<string>, input: bytes)
    ensures Accepted(env, handles, minProfile, input, FullFirst(input))
       <==> exists c: Session, chunks: seq<Chunk> :: IsStream(env, handles, minProfile, input, c, chunks)
    ensures forall c: Session, chunks: seq<Chunk> :: IsStream(env, handles, minProfile, input, c, chunks) ==>
      && |chunks| <= MAX_STREAM_DATA_FRAMES
      && StreamVerdict(env, handles, minProfile, input, FullFirst(input)) == Success((c, Verdict(chunks, Complete)))
  {
    hide StreamVerdict, IsStream, FullFirst;
    var r := StreamVerdict(env, handles, minProfile, input, FullFirst(input));
    if r.Success? && r.value.1.end == Complete {
      FullInputAcceptsExactly(env, handles, minProfile, input, r.value.0, r.value.1.chunks);
    }
    forall c: Session, chunks: seq<Chunk> | IsStream(env, handles, minProfile, input, c, chunks)
      ensures r == Success((c, Verdict(chunks, Complete)))
    {
      FullInputAcceptsExactly(env, handles, minProfile, input, c, chunks);
    }
  }

  /** An input is a stream in at most one way. */
  lemma StreamIsUnique(env: Env, handles: seq<Handle>, minProfile: Option<string>, input: bytes,
                       c: Session, chunks: seq<Chunk>)
    requires IsStream(env, handles, minProfile, input, c, chunks)
    ensures Fits(0, 0, chunks)
    ensures forall d: Session, others: seq<Chunk> :: IsStream(env, handles, minProfile, input, d, others) ==>
      d == c && others == chunks
  {
    hide RecipientSession, Encoded, StreamVerdict, FullFirst;
    FullInputVerdict(env, handles, minProfile, input);
  }

  /** No proper extension of an accepted stream is accepted, hence no proper prefix either,
      wherever the cut falls and however the first reads went. */
  lemma StreamsPrefixFree(env: Env, handles: seq<Handle>, minProfile: Option<string>,
                          a: bytes, m: nat, b: bytes, n: nat)
    requires m <= |a| && n <= |b| && a < b
    requires Accepted(env, handles, minProfile, a, m)
    ensures !Accepted(env, handles, minProfile, b, n)
  {
    hide Parsed, Decode, RecipientSession;
    if Accepted(env, handles, minProfile, b, n) {
      FirstReadMustCoverHeader(env, handles, minProfile, a, m);
      FirstReadMustCoverHeader(env, handles, minProfile, b, n);
      var consumed := Parsed(a).value.1;
      PrintParsed(a);
      SessionOfCut(env, handles, minProfile, b, |a|);
      ParseIsLocal(a, b[consumed..]);
      assert b[..|a|] == a && a[..consumed] + b[consumed..] == b;
      assert a[..|a|] == a && b[..|b|] == b;
      var (c, k) := RecipientSession(env, handles, minProfile, a).value;
      SessionConsumesHeader(env, handles, minProfile, a);
      assert a[consumed..] < b[consumed..];
      AcceptedPrefixFree(env.suite, c, a[consumed..], b[consumed..]);
    }
  }

  lemma SessionConsumesHeader(env: Env, handles: seq<Handle>, minProfile: Option<string>, data: bytes)
    requires RecipientSession(env, handles, minProfile, data).Success?
    ensures Parsed(data).Some? && RecipientSession(env, handles, minProfile, data).value.1 == Parsed(data).value.1
  {
    hide Parsed, Recovered, Gate;
  }

  // ---- Streams that are not made of typed frames ----

  /** A byte behind the header that is no frame type ends decoding there and then: nothing was
      verified, decrypt_stream has written nothing, and migrate_stream only its new header. */
  lemma UntypedFrameIsRefused(env: Env, handles: seq<Handle>, minProfile: Option<string>, input: bytes, first: nat)
    requires first <= |input| && StreamVerdict(env, handles, minProfile, input, first).Success?
    ensures var (c, v) := StreamVerdict(env, handles, minProfile, input, first).value;
            |c.header| < |input| && input[|c.header|] !in {FRAME_TYPE_DATA, FRAME_TYPE_FINAL} ==>
              && v == Verdict([], Broken) && Outcome(v) == Failure(DecryptionError)
              && Join(v.chunks) == []
              && forall d: Session :: StreamBytes(env.suite, d, v) == d.header
  {
    hide RecipientSession;
  }

  /** The frames before version 0.5.2 had no type: a 4-byte length and a ciphertext, ended by four
      zero bytes. Any length below 2 to the 24, and the end marker itself, starts with a zero
      byte, so such a stream is refused at its first frame, by migration as by decryption. */
  lemma LegacyStreamIsRefused(env: Env, handles: seq<Handle>, minProfile: Option<string>, input: bytes, first: nat,
                              ct: bytes, rest: bytes)
    requires first <= |input| && StreamVerdict(env, handles, minProfile, input, first).Success? && |ct| < 0x100_0000
    ensures var (c, v) := StreamVerdict(env, handles, minProfile, input, first).value;
            input == c.header + Prefixed(ct) + rest ==> v == Verdict([], Broken)
  {
    hide RecipientSession, Decode;
    var (c, v) := StreamVerdict(env, handles, minProfile, input, first).value;
    if input == c.header + Prefixed(ct) + rest {
      assert input[|c.header|] == Prefixed(ct)[0] == U32(|ct|)[0] == 0;
      UntypedFrameIsRefused(env, handles, minProfile, input, first);
    }
  }

  /** The empty legacy stream: the header and the bare marker. */
  lemma LegacyMarkerIsRefused(env: Env, handles: seq<Handle>, minProfile: Option<string>, input: bytes, first: nat)
    requires first <= |input| && StreamVerdict(env, handles, minProfile, input, first).Success?
    ensures var (c, v) := StreamVerdict(env, handles, minProfile, input, first).value;
            input == c.header + [0, 0, 0, 0] ==> v == Verdict([], Broken)
  {
    hide StreamVerdict;
    var (c, v) := StreamVerdict(env, handles, minProfile, input, first).value;
    assert Prefixed([]) == [0, 0, 0, 0];
    assert c.header + [0, 0, 0, 0] == c.header + Prefixed([]) + [];
    LegacyStreamIsRefused(env, handles, minProfile, input, first, [], []);
  }

  // ---- Writing and reading back ----

  /** What a recipient makes of anything a sender wrote, complete or broken off, by
      encryption or by migration. The chunks come back, provided the first read covers the
      header, the profile's names fit and the gate lets the profile pass; and these
      conditions cannot be dropped. */
  lemma RecipientReadsSender(env: Env, bundle: PublicBundle, seeds: Seeds, nonce: Nonce,
                             handles: seq<Handle>, minProfile: Option<string>, v: Verdict, first: nat)
    requires SenderSession(env, bundle, seeds, nonce).Some?
    requires HandlesMatch(env.reg[bundle.profileId], bundle.publicKeys, handles)
    requires Fits(0, 0, v.chunks) && v.end != Trailing
    requires first <= |StreamBytes(env.suite, SenderSession(env, bundle, seeds, nonce).value, v)|
    ensures var c := SenderSession(env, bundle, seeds, nonce).value;
            StreamVerdict(env, handles, minProfile, StreamBytes(env.suite, c, v), first)
              == if !NamesFit(bundle.profileId, env.reg[bundle.profileId]) || first < |c.header|
                 then Failure(DecryptionError)
                 else match Gate(env.reg, bundle.profileId, minProfile)
                   case Some(e) => Failure(e)
                   case None => Success((c, v))
  {
    hide SenderSession, RecipientSession, NamesFit, Gate, Parsed, Decode, Verified;
    var c := SenderSession(env, bundle, seeds, nonce).value;
    var input := StreamBytes(env.suite, c, v);
    FirstReadMustCoverHeader(env, handles, minProfile, input, first);
    SessionsAgree(env, bundle, seeds, nonce, handles, minProfile, Verified(env.suite, c, 0, v));
    SentHeaderParses(env, bundle, seeds, nonce, Verified(env.suite, c, 0, v));
    assert input[..|input|] == input && input[|c.header|..] == Verified(env.suite, c, 0, v);
    DecodeVerified(env.suite, c, v);
  }

  /** The streaming round trip: when encrypt_stream of a text succeeded, decrypt_stream of what it
      wrote succeeds and writes the text, if and only if the first read covers the header. */
  lemma StreamRoundTrip(env: Env, bundle: PublicBundle, seeds: Seeds, nonce: Nonce, handles: seq<Handle>,
                        text: bytes, chunkSize: nat, chunks: seq<Chunk>, first: nat)
    requires SenderSession(env, bundle, seeds, nonce).Some?
    requires HandlesMatch(env.reg[bundle.profileId], bundle.publicKeys, handles)
    requires NamesFit(bundle.profileId, env.reg[bundle.profileId])
    requires EncryptionStopped(text, [], chunkSize, chunks, true)
    requires first <= |StreamBytes(env.suite, SenderSession(env, bundle, seeds, nonce).value, Verdict(chunks,
        Complete))|
    ensures var c := SenderSession(env, bundle, seeds, nonce).value;
            var r := StreamVerdict(env, handles, None, StreamBytes(env.suite, c, Verdict(chunks, Complete)), first);
            r.Success? && Outcome(r.value.1) == Success(()) && Join(r.value.1.chunks) == text <==> first >= |c.header|
  {
    hide SenderSession, NamesFit, HandlesMatch, StreamBytes, StreamVerdict;
    RecipientReadsSender(env, bundle, seeds, nonce, handles, None, Verdict(chunks, Complete), first);
  }

  /** The header is fetched in one read of at most MAX_HEADER_SIZE bytes, so a longer header makes
      a stream that encrypts and never decrypts. */
  lemma OversizedHeaderNeverDecrypts(env: Env, bundle: PublicBundle, seeds: Seeds, nonce: Nonce,
                                     handles: seq<Handle>, minProfile: Option<string>, v: Verdict, first: nat)
    requires SenderSession(env, bundle, seeds, nonce).Some?
    requires HandlesMatch(env.reg[bundle.profileId], bundle.publicKeys, handles)
    requires Fits(0, 0, v.chunks) && v.end != Trailing
    requires |SenderSession(env, bundle, seeds, nonce).value.header| > MAX_HEADER_SIZE >= first
    ensures StreamVerdict(env, handles, minProfile, StreamBytes(env.suite, SenderSession(env, bundle, seeds,
        nonce).value, v), first)
         == Failure(DecryptionError)
  {
    hide SenderSession, NamesFit, HandlesMatch, StreamVerdict, Verified, Fits;
    RecipientReadsSender(env, bundle, seeds, nonce, handles, minProfile, v, first);
  }

  /** The printer makes well-formed headers of that size. */
  lemma OversizedHeaderExists()
    ensures exists h: Header :: WellFormed(h) && h.version == FORMAT_VERSION && |Serialized(h)| > MAX_HEADER_SIZE
  {
    var ct: bytes := seq<byte>(65535, _ => 0);
    var a, b := Component("a", ct), Component("b", ct);
    var h := Header("p", [a, b], Some(seq<byte>(12, _ => 0)), FORMAT_VERSION);
    assert Utf8.Encode("a") == [0x61] && Utf8.Encode("b") == [0x62] && Utf8.Encode("p") == [0x70];
    assert ComponentFits(a) && ComponentFits(b);
    assert h.components[1..] == [b] && [b][1..] == [];
    assert |ComponentField(a)| == |ComponentField(b)| == 65539;
    assert ComponentFields([b]) == ComponentField(b) + ComponentFields([]);
    assert ComponentFields(h.components) == ComponentField(a) + ComponentFields([b]);
    assert WellFormed(h) && |Serialized(h)| > MAX_HEADER_SIZE;
  }

  /** A correct source with ciphertexts of the largest size a header can hold. */
  function BulkySource(id: string): Source {
    Source(id, true,
      (seed: Seed) => Some(([], Handle([]))),
      (pub: bytes, seed: Seed) => Some(Encapsulation(seq<byte>(65535, _ => 0), [])),
      (h: Handle, ct: bytes) => Some([]),
      (h: Handle) => Some(h.state),
      (data: bytes) => Some(Handle(data)))
  }

  /** An installation, a bundle and its handles at which encrypt_stream starts under a header that
      is too long: two sources are enough. */
  lemma OversizedSenderExists(s: Suite, seeds: Seeds, nonce: Nonce)
    ensures var p := Profile("p", [BulkySource("a"), BulkySource("b")], 0);
            var env := Env(s, map["p" := p]);
            var bundle := PublicBundle("p", [PublicKey("a", []), PublicKey("b", [])]);
            && SenderSession(env, bundle, seeds, nonce).Some?
            && |SenderSession(env, bundle, seeds, nonce).value.header| > MAX_HEADER_SIZE
            && HandlesMatch(p, bundle.publicKeys, [Handle([]), Handle([])])
            && NamesFit("p", p)
  {
    hide RootKey;
    var p := Profile("p", [BulkySource("a"), BulkySource("b")], 0);
    var env := Env(s, map["p" := p]);
    var bundle := PublicBundle("p", [PublicKey("a", []), PublicKey("b", [])]);
    assert Utf8.Encode("a") == [0x61] && Utf8.Encode("b") == [0x62] && Utf8.Encode("p") == [0x70];
    var cs := SentComponents(p, bundle.publicKeys, seeds);
    assert InfoFits(DEFAULT_CONTEXT, cs, COMBINER_SPEC_VERSION);
    assert CanDerive(env, bundle, seeds);
    var h := Derived(env, bundle, seeds, nonce).header;
    assert h.components == cs && Serializable(h);
    assert |ComponentField(cs[0])| == |ComponentField(cs[1])| == 65539;
    assert ComponentFields(cs) == ComponentField(cs[0]) + ComponentFields(cs[1..]);
  }

  /** Every ciphertext of the source has at most the given length. */
  ghost predicate CiphertextsWithin(s: Source, most: nat) {
    forall pub, seed: Seed :: s.encapsulate(pub, seed).Some? ==> |s.encapsulate(pub, seed).value.ciphertext| <= most
  }

  lemma {:induction false} ComponentFieldsBound(cs: seq<Component>, most: nat)
    requires AllFit(cs) && forall i :: 0 <= i < |cs| ==> |cs[i].ciphertext| <= most
    ensures |ComponentFields(cs)| <= |cs| * (258 + most)
    decreases |cs|
  {
    hide Utf8.Encode;
    if cs != [] {
      ComponentFieldBound(cs[0], most);
      ComponentFieldsBound(cs[1..], most);
      OneMore(|cs|, 258 + most);
    }
  }

  lemma ComponentFieldBound(c: Component, most: nat)
    requires ComponentFits(c) && |c.ciphertext| <= most
    ensures |ComponentField(c)| <= 258 + most
  {
    hide Utf8.Encode;
  }

  lemma SentCiphertextsWithin(p: Profile, keys: seq<PublicKey>, seeds: Seeds, most: nat)
    requires |p.sources| == |keys| && AllEncapsulate(p, keys, seeds)
    requires forall i :: 0 <= i < |p.sources| ==> CiphertextsWithin(p.sources[i], most)
    ensures forall i :: 0 <= i < |keys| ==> |SentComponents(p, keys, seeds)[i].ciphertext| <= most
  {
    hide SentComponents;
    forall i: nat | i < |keys| ensures |SentComponents(p, keys, seeds)[i].ciphertext| <= most {
      SentAt(p, keys, seeds, i);
      assert CiphertextsWithin(p.sources[i], most);
    }
  }

  /** The shipped profiles never come near the limit: with ciphertexts of at most 1568 bytes, the
      size of ML-KEM-1024, every header they make fits the first read. */
  lemma ShippedHeadersFit(env: Env, x: Source, m768: Source, m1024: Source, bundle: PublicBundle, seeds: Seeds,
                          nonce: Nonce)
    requires env.reg == ProfileRegistry(x, m768, m1024)
    requires CiphertextsWithin(x, 1568) && CiphertextsWithin(m768, 1568) && CiphertextsWithin(m1024, 1568)
    ensures SenderSession(env, bundle, seeds, nonce).Some? ==>
      |SenderSession(env, bundle, seeds, nonce).value.header| <= MAX_HEADER_SIZE
  {
    hide RootKey, InfoFits, SentComponents, Serialized, Serializable, CiphertextsWithin, AllEncapsulate;
    if SenderSession(env, bundle, seeds, nonce).Some? {
      var p := env.reg[bundle.profileId];
      var h := Derived(env, bundle, seeds, nonce).header;
      SentCiphertextsWithin(p, bundle.publicKeys, seeds, 1568);
      assert |p.sources| <= 2;
      HeaderLength(h, 1568);
    }
  }

  lemma HeaderLength(h: Header, most: nat)
    requires Serializable(h) && forall i :: 0 <= i < |h.components| ==> |h.components[i].ciphertext| <= most
    ensures |Serialized(h)| <= 274 + |h.components| * (258 + most)
  {
    ComponentFieldsBound(h.components, most);
    hide ComponentFields, AllFit;
  }

  /** Progressive output. Of all the byte strings that begin what a sender writes, by encryption or
      by migration, a recipient accepts exactly one: the whole of it, once it ends in FINAL and
      provided the first read covers the header. */
  lemma OnlyWholeOutputIsAccepted(env: Env, bundle: PublicBundle, seeds: Seeds, nonce: Nonce,
                                  handles: seq<Handle>, v: Verdict, k: nat, first: nat)
    requires SenderSession(env, bundle, seeds, nonce).Some?
    requires HandlesMatch(env.reg[bundle.profileId], bundle.publicKeys, handles)
    requires NamesFit(bundle.profileId, env.reg[bundle.profileId])
    requires Fits(0, 0, v.chunks)
    requires first <= k <= |StreamBytes(env.suite, SenderSession(env, bundle, seeds, nonce).value, v)|
    ensures var c := SenderSession(env, bundle, seeds, nonce).value;
            var output := StreamBytes(env.suite, c, v);
            Accepted(env, handles, None, output[..k], first)
            <==> v.end != Broken && k == |output| && first >= |c.header|
  {
    var c := SenderSession(env, bundle, seeds, nonce).value;
    hide SenderSession, NamesFit, HandlesMatch, StreamVerdict, DataFrames;
    var output := StreamBytes(env.suite, c, v);
    var whole := StreamBytes(env.suite, c, Verdict(v.chunks, Complete));
    assert output <= whole && (v.end != Broken <==> output == whole) && output[..k] <= whole;
    RecipientReadsSender(env, bundle, seeds, nonce, handles, None, Verdict(v.chunks, Complete), |whole|);
    RecipientReadsSender(env, bundle, seeds, nonce, handles, None, Verdict(v.chunks, Complete), first);
    assert Accepted(env, handles, None, whole, |whole|);
    if output[..k] != whole && Accepted(env, handles, None, output[..k], first) {
      StreamsPrefixFree(env, handles, None, output[..k], first, whole, |whole|);
    }
  }

  /** The same step by step, over the pieces an output stream was given: whatever stands written
      after j of them is acceptable only when all of a finished stream does. An interrupted
      migration or encryption has therefore never produced a readable stream. */
  lemma NoStepBeforeTheLastIsAccepted(env: Env, bundle: PublicBundle, seeds: Seeds, nonce: Nonce,
                                      handles: seq<Handle>, v: Verdict, pieces: seq<bytes>, j: nat)
    requires SenderSession(env, bundle, seeds, nonce).Some? && Fits(0, 0, v.chunks) && j <= |pieces|
    requires HandlesMatch(env.reg[bundle.profileId], bundle.publicKeys, handles)
    requires NamesFit(bundle.profileId, env.reg[bundle.profileId])
    requires Join(pieces) == StreamBytes(env.suite, SenderSession(env, bundle, seeds, nonce).value, v)
    ensures Join(pieces[..j]) <= Join(pieces)
    ensures Accepted(env, handles, None, Join(pieces[..j]), |Join(pieces[..j])|)
       <==> v.end != Broken && Join(pieces[..j]) == Join(pieces)
  {
    hide SenderSession, NamesFit, HandlesMatch, StreamVerdict, Verified, Accepted;
    JoinPrefix(pieces[..j], pieces);
    var k := |Join(pieces[..j])|;
    assert Join(pieces)[..k] == Join(pieces[..j]);
    OnlyWholeOutputIsAccepted(env, bundle, seeds, nonce, handles, v, k, k);
  }

  /** Migration end to end. Given any input that opens under the old handles, what migrate_stream
      writes reads back, under the new handles, as the same chunk list; it is accepted exactly
      when the old FINAL verified, so a migration refused for trailing data has already written
      an acceptable stream. */
  lemma MigratedStreamReads(env: Env, oldHandles: seq<Handle>, minProfile: Option<string>, input: bytes, first: nat,
                            newBundle: PublicBundle, seeds: Seeds, nonce: Nonce, newHandles: seq<Handle>)
    requires first <= |input|
    ensures StreamVerdict(env, oldHandles, minProfile, input, first).Success?
            && SenderSession(env, newBundle, seeds, nonce).Some?
            && HandlesMatch(env.reg[newBundle.profileId], newBundle.publicKeys, newHandles)
            && NamesFit(newBundle.profileId, env.reg[newBundle.profileId]) ==>
              var (c, v) := StreamVerdict(env, oldHandles, minProfile, input, first).value;
              var d := SenderSession(env, newBundle, seeds, nonce).value;
              var output := d.header + Verified(env.suite, d, 0, v);
              && |output| - |d.header| <= |input| - |c.header|
              && (v.end == Complete ==> |output| - |d.header| == |input| - |c.header|)
              && StreamVerdict(env, newHandles, None, output, |output|)
                   == Success((d, AsRun(v)))
              && (Accepted(env, newHandles, None, output, |output|) <==> v.end != Broken)
  {
    assert SenderSession(env, newBundle, seeds, nonce).Some? ==> newBundle.profileId in env.reg;
    hide SenderSession, RecipientSession, NamesFit, HandlesMatch, Decode, Verified;
    if StreamVerdict(env, oldHandles, minProfile, input, first).Success?
       && SenderSession(env, newBundle, seeds, nonce).Some?
       && HandlesMatch(env.reg[newBundle.profileId], newBundle.publicKeys, newHandles)
       && NamesFit(newBundle.profileId, env.reg[newBundle.profileId]) {
      var (c, v) := StreamVerdict(env, oldHandles, minProfile, input, first).value;
      var d := SenderSession(env, newBundle, seeds, nonce).value;
      var rest := input[|c.header|..];
      MigrationRefinesDecoding(env.suite, c, d, rest);
      DecodedIsEncoded(env.suite, c, 0, 0, rest);
      var w := AsRun(v);
      VerifiedIgnoresTrailing(env.suite, d, v);
      assert d.header + Verified(env.suite, d, 0, v) == StreamBytes(env.suite, d, w);
      RecipientReadsSender(env, newBundle, seeds, nonce, newHandles, None, w, |StreamBytes(env.suite, d, w)|);
    }
  }
}
