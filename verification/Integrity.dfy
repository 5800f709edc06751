// Domain separation of the associated data, and integrity of streams over any number of
// honest runs: an input without forged frames holds the beginning of one honest stream,
// and is accepted only if it is that whole stream.
module Integrity {
  import opened Wrappers
  import opened Bytes
  import opened Aead
  import opened Header
  import opened Frames
  import opened Api
  import opened StreamLaws
  import opened Sources

  // ---- Associated data ----

  /** The three uses of associated data: a whole message, DATA frame n, FINAL frame n. */
  datatype AadKind = BlobAad | DataAad(n: nat) | FinalAad(n: nat)

  predicate Numbered(kind: AadKind) { kind.BlobAad? || kind.n < U32_LIMIT }

  function AadOf(header: bytes, kind: AadKind): bytes
    requires Numbered(kind)
  {
    match kind
    case BlobAad => header
    case DataAad(n) => DeriveChunkAad(header, n, AAD_TAG_DATA)
    case FinalAad(n) => DeriveChunkAad(header, n, AAD_TAG_FINAL)
  }

  /** The bytes are one header, all of them. */
  predicate IsHeader(b: bytes) { Parsed(b).Some? && Parsed(b).value.1 == |b| }

  lemma HeadersSelfDelimiting(a: bytes, b: bytes, x: bytes, y: bytes)
    requires IsHeader(a) && IsHeader(b) && a + x == b + y
    ensures a == b && x == y
  {
    hide Parsed;
    ParseIsLocal(a, x);
    ParseIsLocal(b, y);
    assert a[..|a|] == a && b[..|b|] == b;
    SplitConcat(a, b, x, y);
  }

  /** Sequence number and tag, as they stand behind the header. */
  function AadTail(kind: AadKind): bytes
    requires Numbered(kind)
  {
    match kind
    case BlobAad => []
    case DataAad(n) => U32(n) + AAD_TAG_DATA
    case FinalAad(n) => U32(n) + AAD_TAG_FINAL
  }

  lemma AadTailInjective(k: AadKind, l: AadKind)
    requires Numbered(k) && Numbered(l) && AadTail(k) == AadTail(l)
    ensures k == l
  {
    hide U32;
    if !k.BlobAad? && |AadTail(k)| == |AadTail(l)| {
      SplitConcat(U32(k.n), U32(l.n), AadTail(k)[4..], AadTail(l)[4..]);
      assert FromU32(U32(k.n)) == FromU32(U32(l.n));
    }
  }

  /** Whole-message, DATA and FINAL associated data never coincide across headers, kinds or numbers. */
  lemma AadInjective(a: bytes, k: AadKind, b: bytes, l: AadKind)
    requires IsHeader(a) && IsHeader(b) && Numbered(k) && Numbered(l)
    requires AadOf(a, k) == AadOf(b, l)
    ensures a == b && k == l
  {
    hide IsHeader, U32;
    assert AadOf(a, k) == a + AadTail(k) && AadOf(b, l) == b + AadTail(l);
    HeadersSelfDelimiting(a, b, AadTail(k), AadTail(l));
    AadTailInjective(k, l);
  }

  // ---- Honest runs ----

  /** The session's header is a header and carries the session's nonce. */
  predicate OwnsHeader(c: Session) {
    IsHeader(c.header) && Parsed(c.header).value.0.nonce == Some(c.base)
  }

  /** One run of encrypt_stream or migrate_stream, complete or broken off, or of encrypt. A
      migration refused for trailing data has sealed its FINAL and counts as complete. */
  datatype Run = StreamRun(c: Session, v: Verdict) | BlobRun(c: Session, text: bytes)

  predicate ValidRun(run: Run) {
    OwnsHeader(run.c) && (run.StreamRun? ==> Fits(0, 0, run.v.chunks) && run.v.end != Trailing)
  }

  /** Everything a run seals. */
  function RunSeals(s: Suite, run: Run): seq<Sealed>
    requires ValidRun(run)
  {
    match run
    case StreamRun(c, v) => Seals(s, c, v)
    case BlobRun(c, text) => [SealedBlob(s, c, text)]
  }

  predicate HonestRuns(runs: seq<Run>) {
    && (forall k :: 0 <= k < |runs| ==> ValidRun(runs[k]))
    && (forall j, k :: 0 <= j < k < |runs| ==> runs[j].c.header != runs[k].c.header)
  }

  predicate SealedInSome(s: Suite, e: Sealed, runs: seq<Run>)
    requires HonestRuns(runs)
  {
    exists k :: 0 <= k < |runs| && e in RunSeals(s, runs[k])
  }

  /** Every frame of the input that opened is one some run sealed. This speaks of the frames of
      one input only: over all ciphertexts it would contradict decryption being total. */
  predicate NoForgery(s: Suite, c: Session, v: Verdict, runs: seq<Run>)
    requires |v.chunks| <= MAX_STREAM_DATA_FRAMES && HonestRuns(runs)
  {
    forall i: nat :: i < |Seals(s, c, v)| ==> SealedInSome(s, Seals(s, c, v)[i], runs)
  }

  lemma SenderOwnsHeader(env: Env, bundle: PublicBundle, seeds: Seeds, nonce: Nonce)
    requires SenderSession(env, bundle, seeds, nonce).Some?
    requires NamesFit(bundle.profileId, env.reg[bundle.profileId])
    ensures OwnsHeader(SenderSession(env, bundle, seeds, nonce).value)
  {
    hide Parsed, Serialized, Serializable, NamesFit, CanDerive, Derived;
    var c := SenderSession(env, bundle, seeds, nonce).value;
    SentHeader(env, bundle, seeds, nonce);
    SentHeaderParses(env, bundle, seeds, nonce, []);
    assert c.header + [] == c.header;
  }

  lemma RecipientOwnsHeader(env: Env, handles: seq<Handle>, minProfile: Option<string>, data: bytes)
    requires RecipientSession(env, handles, minProfile, data).Success?
    ensures OwnsHeader(RecipientSession(env, handles, minProfile, data).value.0)
  {
    hide Parsed, Recovered, Gate;
    var consumed := Parsed(data).value.1;
    ParseIsLocal(data, []);
    PrintParsed(data);
    assert data[..consumed] + [] == data[..consumed];
  }

  // ---- The operations make honest runs ----

  /** A run of encrypt_stream, finished or stopped by a limit, with the log it reports. */
  lemma EncryptionRunIsValid(env: Env, bundle: PublicBundle, seeds: Seeds, nonce: Nonce,
                             text: bytes, left: bytes, chunkSize: nat, chunks: seq<Chunk>, ok: bool)
    requires EncryptionStopped(text, left, chunkSize, chunks, ok)
    ensures SenderSession(env, bundle, seeds, nonce).Some?
            && NamesFit(bundle.profileId, env.reg[bundle.profileId]) ==>
              var c := SenderSession(env, bundle, seeds, nonce).value;
              var v := Verdict(chunks, if ok then Complete else Broken);
              ValidRun(StreamRun(c, v)) && RunSeals(env.suite, StreamRun(c, v)) == Seals(env.suite, c, v)
  {
    assert SenderSession(env, bundle, seeds, nonce).Some? ==> bundle.profileId in env.reg;
    hide SenderSession, OwnsHeader, NamesFit, Seals;
    if SenderSession(env, bundle, seeds, nonce).Some? && NamesFit(bundle.profileId, env.reg[bundle.profileId]) {
      SenderOwnsHeader(env, bundle, seeds, nonce);
    }
  }

  /** A run of migrate_stream, however it ended, with the log it reports. */
  lemma MigrationRunIsValid(env: Env, handles: seq<Handle>, minProfile: Option<string>, input: bytes, first: nat,
                            newBundle: PublicBundle, seeds: Seeds, nonce: Nonce)
    requires first <= |input| && StreamVerdict(env, handles, minProfile, input, first).Success?
    ensures SenderSession(env, newBundle, seeds, nonce).Some?
            && NamesFit(newBundle.profileId, env.reg[newBundle.profileId]) ==>
              var v := StreamVerdict(env, handles, minProfile, input, first).value.1;
              var d := SenderSession(env, newBundle, seeds, nonce).value;
              ValidRun(StreamRun(d, AsRun(v))) && RunSeals(env.suite, StreamRun(d, AsRun(v))) == Seals(env.suite, d, v)
  {
    assert SenderSession(env, newBundle, seeds, nonce).Some? ==> newBundle.profileId in env.reg;
    hide SenderSession, RecipientSession, OwnsHeader, NamesFit, Decode;
    var (c, v) := StreamVerdict(env, handles, minProfile, input, first).value;
    DecodedIsEncoded(env.suite, c, 0, 0, input[|c.header|..]);
    if SenderSession(env, newBundle, seeds, nonce).Some?
       && NamesFit(newBundle.profileId, env.reg[newBundle.profileId]) {
      SenderOwnsHeader(env, newBundle, seeds, nonce);
    }
  }

  /** A run of encrypt or migrate on a whole message, with the log it reports. */
  lemma BlobRunIsValid(env: Env, bundle: PublicBundle, seeds: Seeds, nonce: Nonce, text: bytes)
    requires SenderSession(env, bundle, seeds, nonce).Some?
    requires NamesFit(bundle.profileId, env.reg[bundle.profileId])
    ensures var c := SenderSession(env, bundle, seeds, nonce).value;
            ValidRun(BlobRun(c, text)) && RunSeals(env.suite, BlobRun(c, text)) == [SealedBlob(env.suite, c, text)]
  {
    SenderOwnsHeader(env, bundle, seeds, nonce);
  }

  // ---- Where a frame that opened came from ----

  function SealKind(v: Verdict, i: nat): (kind: AadKind)
  {
    if i < |v.chunks| then DataAad(i) else FinalAad(i)
  }

  lemma SealCarriesKind(s: Suite, c: Session, v: Verdict, i: nat)
    requires |v.chunks| <= MAX_STREAM_DATA_FRAMES && i < |Seals(s, c, v)|
    ensures Numbered(SealKind(v, i))
    ensures Seals(s, c, v)[i].aad == AadOf(c.header, SealKind(v, i)) && Seals(s, c, v)[i].key == c.key
  {
    hide FrameNonce, SealData, SealFinal, DeriveChunkAad;
  }

  /** A frame that opened under c and was sealed in some run was sealed in a stream run of the
      very same session, under the same number and as the same kind. */
  lemma SealComesFromSameSession(s: Suite, c: Session, v: Verdict, i: nat, run: Run)
    requires OwnsHeader(c) && ValidRun(run) && |v.chunks| <= MAX_STREAM_DATA_FRAMES && i < |Seals(s, c, v)|
    ensures Seals(s, c, v)[i] in RunSeals(s, run) ==>
      && run.StreamRun? && run.c == c
      && i < |Seals(s, c, run.v)| && Seals(s, c, v)[i] == Seals(s, c, run.v)[i]
      && SealKind(v, i) == SealKind(run.v, i)
  {
    hide Seals, AadOf, Parsed, SealKind;
    var e := Seals(s, c, v)[i];
    if e in RunSeals(s, run) {
      SealCarriesKind(s, c, v, i);
      KindIsNumbered(v, i);
      if run.BlobRun? {
        BlobSealKind(s, run.c, run.text);
        AadInjective(c.header, SealKind(v, i), run.c.header, BlobAad);
        assert false;
      } else {
        var j: nat :| j < |Seals(s, run.c, run.v)| && Seals(s, run.c, run.v)[j] == e;
        SealCarriesKind(s, run.c, run.v, j);
        AadInjective(c.header, SealKind(v, i), run.c.header, SealKind(run.v, j));
        KindIsNumbered(run.v, j);
      }
    }
  }

  lemma BlobSealKind(s: Suite, c: Session, text: bytes)
    ensures Numbered(BlobAad) && SealedBlob(s, c, text).aad == AadOf(c.header, BlobAad)
  {
  }

  lemma KindIsNumbered(v: Verdict, i: nat)
    ensures !SealKind(v, i).BlobAad? && SealKind(v, i).n == i
  {
  }

  // ---- Equal seals, equal chunks ----

  lemma SealInjective(s: Suite, k: Key, n: Nonce, aad: bytes, a: bytes, b: bytes)
    requires Seal(s, k, n, aad, a) == Seal(s, k, n, aad, b)
    ensures a == b
  {
    hide Seal, Open;
    OpenSealed(s, k, n, aad, a);
    OpenSealed(s, k, n, aad, b);
  }

  lemma EqualSealsEqualChunks(s: Suite, c: Session, v: Verdict, w: Verdict, i: nat)
    requires |v.chunks| <= MAX_STREAM_DATA_FRAMES && |w.chunks| <= MAX_STREAM_DATA_FRAMES
    requires i < |v.chunks| && i < |w.chunks| && Seals(s, c, v)[i] == Seals(s, c, w)[i]
    ensures v.chunks[i] == w.chunks[i]
  {
    hide Seal, FrameNonce, DeriveChunkAad;
    SealInjective(s, c.key, FrameNonce(c, i), DeriveChunkAad(c.header, i, AAD_TAG_DATA), v.chunks[i], w.chunks[i]);
  }

  predicate SameSealAt(s: Suite, c: Session, v: Verdict, w: Verdict, i: nat)
    requires |v.chunks| <= MAX_STREAM_DATA_FRAMES && |w.chunks| <= MAX_STREAM_DATA_FRAMES && i < |Seals(s, c, v)|
  {
    i < |Seals(s, c, w)| && Seals(s, c, v)[i] == Seals(s, c, w)[i] && SealKind(v, i) == SealKind(w, i)
  }

  /** A verdict whose seals all occur, in place and in kind, in another's verified a beginning of
      its chunks, and all of them once its FINAL verified. */
  lemma SealsDetermineChunks(s: Suite, c: Session, v: Verdict, w: Verdict)
    requires |v.chunks| <= MAX_STREAM_DATA_FRAMES && |w.chunks| <= MAX_STREAM_DATA_FRAMES
    requires forall i: nat :: i < |Seals(s, c, v)| ==> SameSealAt(s, c, v, w, i)
    ensures v.chunks <= w.chunks
    ensures v.end != Broken ==> v.chunks == w.chunks && w.end != Broken
  {
    hide DataSeals, FinalSeal;
    forall i: nat | i < |v.chunks| ensures i < |w.chunks| && v.chunks[i] == w.chunks[i] {
      assert i < |Seals(s, c, v)| && SameSealAt(s, c, v, w, i);
      EqualSealsEqualChunks(s, c, v, w, i);
    }
    if v.chunks != [] {
      assert SameSealAt(s, c, v, w, |v.chunks| - 1);
    }
    if v.end != Broken {
      assert |v.chunks| < |Seals(s, c, v)| && SameSealAt(s, c, v, w, |v.chunks|);
      assert |v.chunks| == |w.chunks| && w.chunks[..|w.chunks|] == w.chunks;
    }
  }

  // ---- Integrity ----

  /** What the decoder verified of an input is the beginning of one run's chunks, all of them
      once FINAL verified. */
  predicate BeginsRun(c: Session, v: Verdict, run: Run) {
    && run.StreamRun? && run.c == c
    && v.chunks <= run.v.chunks
    && (v.end != Broken ==> v.chunks == run.v.chunks && run.v.end == Complete)
  }

  lemma VerifiedFramesBeginOneRun(s: Suite, c: Session, v: Verdict, runs: seq<Run>)
    requires OwnsHeader(c) && |v.chunks| <= MAX_STREAM_DATA_FRAMES && HonestRuns(runs)
    requires NoForgery(s, c, v, runs) && Seals(s, c, v) != []
    ensures exists k :: 0 <= k < |runs| && BeginsRun(c, v, runs[k])
  {
    hide Seals, SealKind, OwnsHeader, RunSeals;
    assert SealedInSome(s, Seals(s, c, v)[0], runs);
    var k :| 0 <= k < |runs| && Seals(s, c, v)[0] in RunSeals(s, runs[k]);
    SealComesFromSameSession(s, c, v, 0, runs[k]);
    var w := runs[k].v;
    forall i: nat | i < |Seals(s, c, v)| ensures SameSealAt(s, c, v, w, i) {
      assert SealedInSome(s, Seals(s, c, v)[i], runs);
      var j :| 0 <= j < |runs| && Seals(s, c, v)[i] in RunSeals(s, runs[j]);
      SealComesFromSameSession(s, c, v, i, runs[j]);
      assert j == k;
    }
    SealsDetermineChunks(s, c, v, w);
    assert BeginsRun(c, v, runs[k]);
  }

  /** Integrity over whole runs. Take any number of honest runs with pairwise distinct headers,
      and any input whose opened frames were all sealed in them. As soon as one frame verified,
      the input belongs to exactly one of the runs: the plaintext released is a beginning of
      that run's plaintext, and if the input is accepted it is, byte for byte, that run's whole
      stream and the run was completed. So nothing truncated, reordered, duplicated, spliced,
      re-headed or taken from a whole-message ciphertext is ever accepted. */
  lemma UnforgedInputIsHonest(env: Env, handles: seq<Handle>, minProfile: Option<string>, input: bytes, first: nat,
                              runs: seq<Run>)
    requires first <= |input| && HonestRuns(runs)
    ensures StreamVerdict(env, handles, minProfile, input, first).Success? ==>
            var (c, v) := StreamVerdict(env, handles, minProfile, input, first).value;
            NoForgery(env.suite, c, v, runs) && Seals(env.suite, c, v) != [] ==>
            exists k :: 0 <= k < |runs| && BeginsRun(c, v, runs[k])
              && Join(v.chunks) <= Join(runs[k].v.chunks)
              && (v.end == Complete ==> input == StreamBytes(env.suite, c, runs[k].v))
              && (forall j :: 0 <= j < |runs| && BeginsRun(c, v, runs[j]) ==> j == k)
  {
    hide NoForgery, Seals, OwnsHeader, Decode, RecipientSession, Verified;
    if StreamVerdict(env, handles, minProfile, input, first).Success? {
      var (c, v) := StreamVerdict(env, handles, minProfile, input, first).value;
      if NoForgery(env.suite, c, v, runs) && Seals(env.suite, c, v) != [] {
        RecipientOwnsHeader(env, handles, minProfile, input[..first]);
        VerifiedFramesBeginOneRun(env.suite, c, v, runs);
        var k :| 0 <= k < |runs| && BeginsRun(c, v, runs[k]);
        JoinPrefix(v.chunks, runs[k].v.chunks);
        if v.end == Complete {
          VerdictIsWhole(env, handles, minProfile, input, first);
          assert v == runs[k].v;
        }
      }
    }
  }

  /** Honest streams contain no forged frame, so the assumption is never idle: whatever a run wrote
      under a session is vouched for by that run's own log. */
  lemma HonestStreamIsUnforged(s: Suite, runs: seq<Run>, k: nat)
    requires HonestRuns(runs) && k < |runs| && runs[k].StreamRun?
    ensures NoForgery(s, runs[k].c, runs[k].v, runs)
  {
    assert ValidRun(runs[k]);
    hide Seals, OwnsHeader;
    forall i: nat | i < |Seals(s, runs[k].c, runs[k].v)|
      ensures SealedInSome(s, Seals(s, runs[k].c, runs[k].v)[i], runs)
    {
      assert Seals(s, runs[k].c, runs[k].v)[i] in RunSeals(s, runs[k]);
    }
  }

  /** Run k is a completed stream run and input is the stream it wrote under session c. */
  predicate IsStreamOf(s: Suite, input: bytes, c: Session, run: Run)
    requires ValidRun(run)
  {
    run.StreamRun? && run.c == c && run.v.end == Complete && input == StreamBytes(s, c, run.v)
  }

  /** An accepted input is free of forged frames exactly when it is, byte for byte, the stream of
      a completed run. */
  lemma AcceptedIsUnforgedIffHonest(env: Env, handles: seq<Handle>, minProfile: Option<string>, input: bytes,
                                    first: nat,
                                    runs: seq<Run>)
    requires first <= |input| && HonestRuns(runs) && Accepted(env, handles, minProfile, input, first)
    ensures var (c, v) := StreamVerdict(env, handles, minProfile, input, first).value;
            NoForgery(env.suite, c, v, runs)
            <==> exists k :: 0 <= k < |runs| && IsStreamOf(env.suite, input, c, runs[k])
  {
    hide NoForgery, Decode, RecipientSession, OwnsHeader, Encoded, DataSeals;
    var (c, v) := StreamVerdict(env, handles, minProfile, input, first).value;
    if NoForgery(env.suite, c, v, runs) {
      assert Seals(env.suite, c, v)[|v.chunks|] == FinalSeal(env.suite, c, |v.chunks|);
      RecipientOwnsHeader(env, handles, minProfile, input[..first]);
      VerifiedFramesBeginOneRun(env.suite, c, v, runs);
      var k :| 0 <= k < |runs| && BeginsRun(c, v, runs[k]);
      VerdictIsWhole(env, handles, minProfile, input, first);
      assert v == runs[k].v && IsStreamOf(env.suite, input, c, runs[k]);
    }
    forall k: nat | k < |runs| && IsStreamOf(env.suite, input, c, runs[k]) ensures NoForgery(env.suite, c, v, runs) {
      VerdictIsWhole(env, handles, minProfile, input, first);
      EqualStreamsEqualVerdicts(env.suite, c, v, runs[k].v);
      HonestStreamIsUnforged(env.suite, runs, k);
    }
  }

  lemma EqualStreamsEqualVerdicts(s: Suite, c: Session, v: Verdict, w: Verdict)
    requires Fits(0, 0, v.chunks) && Fits(0, 0, w.chunks) && v.end == Complete && w.end == Complete
    requires StreamBytes(s, c, v) == StreamBytes(s, c, w)
    ensures v == w
  {
    hide Decode, Verified;
    DecodeVerified(s, c, v);
    DecodeVerified(s, c, w);
    SplitConcat(c.header, c.header, Verified(s, c, 0, v), Verified(s, c, 0, w));
  }

  lemma VerdictIsWhole(env: Env, handles: seq<Handle>, minProfile: Option<string>, input: bytes, first: nat)
    requires first <= |input| && StreamVerdict(env, handles, minProfile, input, first).Success?
    requires StreamVerdict(env, handles, minProfile, input, first).value.1.end == Complete
    ensures var (c, v) := StreamVerdict(env, handles, minProfile, input, first).value;
            Fits(0, 0, v.chunks) && input == StreamBytes(env.suite, c, v)
  {
    hide RecipientSession, Decode, Encoded;
    var (c, v) := StreamVerdict(env, handles, minProfile, input, first).value;
    StreamAcceptsExactly(env, handles, minProfile, input, first, c, v.chunks);
  }

  /** The same for whole messages: a blob that decrypts, and whose seal some honest run made, is a
      blob of exactly one run of encrypt, with that run's text; never a frame of a stream. */
  lemma UnforgedBlobIsHonest(env: Env, handles: seq<Handle>, minProfile: Option<string>, blob: bytes, runs: seq<Run>)
    requires HonestRuns(runs)
    ensures Decrypted(env, handles, minProfile, blob).Success? ==>
            var c := RecipientSession(env, handles, minProfile, blob).value.0;
            var text := Decrypted(env, handles, minProfile, blob).value;
            SealedInSome(env.suite, SealedBlob(env.suite, c, text), runs) ==>
            && blob == Blob(env.suite, c, text)
            && exists k :: 0 <= k < |runs| && runs[k] == BlobRun(c, text)
                 && forall j :: 0 <= j < |runs| && runs[j] == runs[k] ==> j == k
  {
    hide RecipientSession, OwnsHeader, Seals, Seal, SealKind, AadOf, Open;
    if Decrypted(env, handles, minProfile, blob).Success? {
      var s := env.suite;
      var c := RecipientSession(env, handles, minProfile, blob).value.0;
      var text := Decrypted(env, handles, minProfile, blob).value;
      if SealedInSome(s, SealedBlob(s, c, text), runs) {
        DecryptsExactlyBlobs(env, handles, minProfile, blob, text);
        RecipientOwnsHeader(env, handles, minProfile, blob);
        var k :| 0 <= k < |runs| && SealedBlob(s, c, text) in RunSeals(s, runs[k]);
        BlobSealComesFromSameSession(s, c, text, runs[k]);
      }
    }
  }

  lemma BlobSealComesFromSameSession(s: Suite, c: Session, text: bytes, run: Run)
    requires OwnsHeader(c) && ValidRun(run)
    ensures SealedBlob(s, c, text) in RunSeals(s, run) ==> run == BlobRun(c, text)
  {
    hide Seals, AadOf, Parsed, SealKind, Seal;
    if SealedBlob(s, c, text) in RunSeals(s, run) {
      BlobSealKind(s, c, text);
      if run.StreamRun? {
        var j: nat :| j < |Seals(s, run.c, run.v)| && Seals(s, run.c, run.v)[j] == SealedBlob(s, c, text);
        SealCarriesKind(s, run.c, run.v, j);
        KindIsNumbered(run.v, j);
        AadInjective(c.header, BlobAad, run.c.header, SealKind(run.v, j));
        assert false;
      } else {
        BlobSealKind(s, run.c, run.text);
        AadInjective(c.header, BlobAad, run.c.header, BlobAad);
        SealInjective(s, c.key, c.base, c.header, text, run.text);
      }
    }
  }
}
