// encrypt_stream, decrypt_stream and migrate_stream (cryptoflex/streaming.py) as they run over
// streams, against what StreamLaws says whole streams mean.
module Streaming {
  import opened Wrappers
  import opened Bytes
  import opened Aead
  import opened Frames
  import opened Streams
  import opened Sources
  import opened Api
  import opened StreamLaws

  // ---- One frame at a time ----

  method ChunkNonce(c: Session, n: nat) returns (nonce: Nonce)
    requires n <= MAX_STREAM_DATA_FRAMES
    ensures nonce == FrameNonce(c, n)
  {
    var derived := DeriveChunkNonce(c.base, n);
    NonceGuardsUnreachable(c.base, n);
    if derived.Failure? { assert false; }
    return derived.value;
  }

  method WriteFrame(output: OutputStream, kind: byte, ct: bytes)
    requires |ct| < U32_LIMIT
    modifies output
    ensures output.Written() == old(output.Written()) + ([kind] + Prefixed(ct)) && old(output.pieces) <= output.pieces
  {
    output.Write([kind]);
    output.Write(U32(|ct|));
    output.Write(ct);
  }

  method WriteData(aesgcm: AesGcm, output: OutputStream, c: Session, n: nat, chunk: Chunk)
    requires n < MAX_STREAM_DATA_FRAMES && aesgcm.key == c.key
    modifies aesgcm, output
    ensures output.Written() == old(output.Written()) + DataFrame(aesgcm.suite, c, n, chunk)
    ensures old(output.pieces) <= output.pieces
    ensures aesgcm.sealed == old(aesgcm.sealed) + [DataSeal(aesgcm.suite, c, n, chunk)]
    ensures aesgcm.accepted == old(aesgcm.accepted)
  {
    hide Seal, FrameNonce;
    var nonce := ChunkNonce(c, n);
    var aad := DeriveChunkAad(c.header, n, AAD_TAG_DATA);
    var ct := aesgcm.Encrypt(nonce, chunk, aad);
    WriteFrame(output, FRAME_TYPE_DATA, ct);
  }

  method WriteFinal(aesgcm: AesGcm, output: OutputStream, c: Session, n: nat)
    requires n <= MAX_STREAM_DATA_FRAMES && aesgcm.key == c.key
    modifies aesgcm, output
    ensures output.Written() == old(output.Written()) + FinalFrame(aesgcm.suite, c, n)
    ensures old(output.pieces) <= output.pieces
    ensures aesgcm.sealed == old(aesgcm.sealed) + [FinalSeal(aesgcm.suite, c, n)]
    ensures aesgcm.accepted == old(aesgcm.accepted)
  {
    hide Seal, FrameNonce;
    var nonce := ChunkNonce(c, n);
    var aad := DeriveChunkAad(c.header, n, AAD_TAG_FINAL);
    var ct := aesgcm.Encrypt(nonce, [], aad);
    WriteFrame(output, FRAME_TYPE_FINAL, ct);
  }

  /** A DATA frame behind its type byte: read, checked against the limits, authenticated. */
  method ReadData(reader: StreamReader, aesgcm: AesGcm, c: Session, n: nat, total: nat) returns (r: Option<Chunk>)
    requires n <= MAX_STREAM_DATA_FRAMES && aesgcm.key == c.key
    modifies reader, reader.stream, aesgcm
    ensures var body := old(reader.Remaining());
            match OpenData(aesgcm.suite, c, n, total, body)
            case None => r == None && aesgcm.accepted == old(aesgcm.accepted)
            case Some((chunk, rest)) =>
              && n < MAX_STREAM_DATA_FRAMES && r == Some(chunk) && reader.Remaining() == rest
              && aesgcm.accepted == old(aesgcm.accepted) + [DataSeal(aesgcm.suite, c, n, chunk)]
    ensures aesgcm.sealed == old(aesgcm.sealed)
  {
    hide FromU32, Open, Seal, FrameNonce, DeriveChunkAad, StreamReader.Remaining;
    if n >= MAX_STREAM_DATA_FRAMES { return None; }
    ghost var body := reader.Remaining();
    var lengthBytes := reader.ReadExact(4);
    if lengthBytes.None? { return None; }
    var len := FromU32(lengthBytes.value);
    if len <= TAG_LEN || len > MAX_CHUNK_CIPHERTEXT_SIZE { return None; }
    if total + (len - TAG_LEN) > MAX_STREAM_PLAINTEXT_SIZE { return None; }
    ghost var behind := reader.Remaining();
    var ct := reader.ReadExact(len);
    if ct.None? { return None; }
    assert behind[..len] == body[4..4 + len] && behind[len..] == body[4 + len..];
    var nonce := ChunkNonce(c, n);
    var aad := DeriveChunkAad(c.header, n, AAD_TAG_DATA);
    var text := aesgcm.Decrypt(nonce, ct.value, aad);
    if text.None? { return None; }
    OpenedIsSealed(aesgcm.suite, c.key, nonce, aad, ct.value);
    return Some(text.value);
  }

  /** A FINAL frame behind its type byte. */
  method ReadFinal(reader: StreamReader, aesgcm: AesGcm, c: Session, n: nat) returns (ok: bool)
    requires n <= MAX_STREAM_DATA_FRAMES && aesgcm.key == c.key
    modifies reader, reader.stream, aesgcm
    ensures var body := old(reader.Remaining());
            match OpenFinal(aesgcm.suite, c, n, body)
            case None => !ok && aesgcm.accepted == old(aesgcm.accepted)
            case Some(rest) =>
              && ok && reader.Remaining() == rest
              && aesgcm.accepted == old(aesgcm.accepted) + [FinalSeal(aesgcm.suite, c, n)]
    ensures aesgcm.sealed == old(aesgcm.sealed)
  {
    hide FromU32, Open, Seal, FrameNonce, DeriveChunkAad, StreamReader.Remaining;
    ghost var body := reader.Remaining();
    var lengthBytes := reader.ReadExact(4);
    if lengthBytes.None? { return false; }
    var len := FromU32(lengthBytes.value);
    if len != TAG_LEN { return false; }
    ghost var behind := reader.Remaining();
    var ct := reader.ReadExact(len);
    if ct.None? { return false; }
    assert behind[..len] == body[4..4 + len] && behind[len..] == body[4 + len..];
    var nonce := ChunkNonce(c, n);
    var aad := DeriveChunkAad(c.header, n, AAD_TAG_FINAL);
    var text := aesgcm.Decrypt(nonce, ct.value, aad);
    if text.Some? {
      OpenedIsSealed(aesgcm.suite, c.key, nonce, aad, ct.value);
      assert text.value == [];
    }
    return text.Some?;
  }

  // ---- Encryption ----

  method EncryptStream(env: Env, bundle: PublicBundle, input: InputStream, output: OutputStream, chunkSize: int,
                       seeds: Seeds, nonce: Nonce)
    returns (r: Result<()>, ghost chunks: seq<Chunk>, ghost log: seq<Sealed>)
    modifies input, output
    ensures |chunks| <= MAX_STREAM_DATA_FRAMES && old(output.pieces) <= output.pieces
    ensures SenderSession(env, bundle, seeds, nonce) == None || !(0 < chunkSize <= MAX_CHUNK_PLAINTEXT_SIZE) ==>
      r.Failure? && log == [] && input.remaining == old(input.remaining) && output.Written() == old(output.Written())
    ensures SenderSession(env, bundle, seeds, nonce).Some? && 0 < chunkSize <= MAX_CHUNK_PLAINTEXT_SIZE ==>
      var c := SenderSession(env, bundle, seeds, nonce).value;
      var v := Verdict(chunks, if r.Success? then Complete else Broken);
      && EncryptionStopped(old(input.remaining), input.remaining, chunkSize, chunks, r.Success?)
      && output.Written() == old(output.Written()) + c.header + Verified(env.suite, c, 0, v)
      && log == Seals(env.suite, c, v)
      && (r.Failure? ==> r.error == ValueError)
    ensures SenderSession(env, bundle, seeds, nonce) == None ==>
      r.Failure? && r.error in {ValueError, SourceError, StructError}
    ensures input.full ==>
      (r.Success? <==>
        && SenderSession(env, bundle, seeds, nonce).Some? && 0 < chunkSize <= 9_437_184
        && WithinCapacity(|old(input.remaining)|, chunkSize))
    ensures input.full && r.Success? ==>
      Chunked(chunks, chunkSize) && |chunks| == (|old(input.remaining)| + chunkSize - 1) / chunkSize
  {
    hide SenderSession, EncryptionStopped, Seals, Verified, WithinCapacity, Chunked, AllOfSize;
    chunks, log := [], [];
    var started := StartSession(env, bundle, seeds, nonce);
    if started.Failure? { return Failure(started.error), [], []; }
    var c := started.value;
    if chunkSize <= 0 || chunkSize > MAX_CHUNK_PLAINTEXT_SIZE { return Failure(ValueError), [], []; }
    output.Write(c.header);
    ghost var text := input.remaining;
    r, chunks, log := EncryptFrames(env.suite, c, input, output, chunkSize);
    if input.full { FullInputRun(text, input.remaining, chunkSize, chunks, r.Success?); }
  }

  method EncryptFrames(s: Suite, c: Session, input: InputStream, output: OutputStream, chunkSize: nat)
    returns (r: Result<()>, ghost chunks: seq<Chunk>, ghost log: seq<Sealed>)
    requires 0 < chunkSize <= MAX_CHUNK_PLAINTEXT_SIZE
    modifies input, output
    ensures |chunks| <= MAX_STREAM_DATA_FRAMES && old(output.pieces) <= output.pieces
    ensures var v := Verdict(chunks, if r.Success? then Complete else Broken);
            && EncryptionStopped(old(input.remaining), input.remaining, chunkSize, chunks, r.Success?)
            && output.Written() == old(output.Written()) + Verified(s, c, 0, v)
            && log == Seals(s, c, v)
    ensures r.Failure? ==> r.error == ValueError
    ensures input.full ==>
      Chunked(chunks, chunkSize) && (r.Success? || AllOfSize(chunks, chunkSize))
  {
    hide OutputStream.Written, Join, Prefixed, FrameNonce, Chunked, AllOfSize, DataFrame, FinalFrame, DataSeal,
      FinalSeal, DataSeals, DataFrames, Verified, Seals;
    var aesgcm := new AesGcm(s, c.key);
    var n: nat, total: nat := 0, 0;
    chunks := [];
    EmptyRun(s, c);
    NoChunks(chunkSize);
    while true
      invariant fresh(aesgcm) && aesgcm.suite == s && aesgcm.key == c.key
      invariant n == |chunks| && total == |Join(chunks)| && Fits(0, 0, chunks)
      invariant forall i :: 0 <= i < |chunks| ==> |chunks[i]| <= chunkSize
      invariant input.full ==> Chunked(chunks, chunkSize) && (input.remaining != [] ==> AllOfSize(chunks, chunkSize))
      invariant Join(chunks) + input.remaining == old(input.remaining)
      invariant output.Written() == old(output.Written()) + DataFrames(s, c, 0, chunks)
      invariant old(output.pieces) <= output.pieces
      invariant aesgcm.sealed == DataSeals(s, c, chunks)
      decreases |input.remaining|
    {
      var chunk := input.Read(chunkSize);
      if chunk == [] { break; }
      JoinAppend(chunks, chunk);
      if n >= MAX_STREAM_DATA_FRAMES || total + |chunk| > MAX_STREAM_PLAINTEXT_SIZE {
        assert !Fits(0, 0, chunks + [chunk]);
        assert Join(chunks) + chunk + input.remaining == old(input.remaining);
        EndOfRun(s, c, old(output.Written()), chunks, Broken);
        return Failure(ValueError), chunks, aesgcm.sealed;
      }
      WriteData(aesgcm, output, c, n, chunk);
      LongerRun(s, c, old(output.Written()), chunks, chunk);
      if input.full { ChunkedAppend(chunks, chunk, chunkSize); }
      chunks := chunks + [chunk];
      total := total + |chunk|;
      n := n + 1;
    }
    WriteFinal(aesgcm, output, c, n);
    EndOfRun(s, c, old(output.Written()), chunks, Complete);
    return Success(()), chunks, aesgcm.sealed;
  }

  lemma NoChunks(size: nat)
    ensures Chunked([], size) && AllOfSize([], size)
  {
  }

  lemma EmptyRun(s: Suite, c: Session)
    ensures DataFrames(s, c, 0, []) == [] && DataSeals(s, c, []) == [] && Join([]) == []
  {
  }

  /** A DATA frame written behind start and the run so far makes the run one chunk longer. */
  lemma LongerRun(s: Suite, c: Session, start: bytes, chunks: seq<Chunk>, chunk: Chunk)
    requires |chunks| < MAX_STREAM_DATA_FRAMES
    ensures start + DataFrames(s, c, 0, chunks) + DataFrame(s, c, |chunks|, chunk)
         == start + DataFrames(s, c, 0, chunks + [chunk])
    ensures DataSeals(s, c, chunks) + [DataSeal(s, c, |chunks|, chunk)] == DataSeals(s, c, chunks + [chunk])
  {
    hide DataFrame, DataSeal, DataSeals;
    DataFramesAppend(s, c, 0, chunks, chunk);
    DataSealsAppend(s, c, chunks, chunk);
  }

  /** The run so far is what a broken verdict stands for; a FINAL frame turns it into a finished one. */
  lemma EndOfRun(s: Suite, c: Session, start: bytes, chunks: seq<Chunk>, end: Ending)
    requires |chunks| <= MAX_STREAM_DATA_FRAMES
    ensures end == Broken ==>
      && start + DataFrames(s, c, 0, chunks) == start + Verified(s, c, 0, Verdict(chunks, end))
      && DataSeals(s, c, chunks) == Seals(s, c, Verdict(chunks, end))
    ensures end != Broken ==>
      && start + DataFrames(s, c, 0, chunks) + FinalFrame(s, c, |chunks|)
           == start + Verified(s, c, 0, Verdict(chunks, end))
      && DataSeals(s, c, chunks) + [FinalSeal(s, c, |chunks|)] == Seals(s, c, Verdict(chunks, end))
  {
    hide DataFrames, FinalFrame, DataSeals, FinalSeal;
  }

  // ---- Decryption ----

  /** done is verified and rest is the verdict on what is still to come. */
  ghost predicate Ahead(whole: Verdict, done: seq<Chunk>, rest: Verdict) {
    whole == Verdict(done + rest.chunks, rest.end)
  }

  lemma AheadOfData(s: Suite, c: Session, whole: Verdict, done: seq<Chunk>, n: nat, total: nat, input: bytes,
                    chunk: Chunk, rest: bytes)
    requires n < MAX_STREAM_DATA_FRAMES && input != [] && input[0] == FRAME_TYPE_DATA
    requires OpenData(s, c, n, total, input[1..]) == Some((chunk, rest))
    requires Ahead(whole, done, Decode(s, c, n, total, input))
    ensures Ahead(whole, done + [chunk], Decode(s, c, n + 1, total + |chunk|, rest))
  {
    hide OpenData, OpenFinal;
    var v := Decode(s, c, n + 1, total + |chunk|, rest);
    assert done + ([chunk] + v.chunks) == done + [chunk] + v.chunks;
  }

  lemma AheadAtStart(whole: Verdict)
    ensures Ahead(whole, [], whole)
  {
    assert [] + whole.chunks == whole.chunks;
  }

  lemma AheadOfBreak(s: Suite, c: Session, whole: Verdict, done: seq<Chunk>, n: nat, total: nat, input: bytes)
    requires n <= MAX_STREAM_DATA_FRAMES && Ahead(whole, done, Decode(s, c, n, total, input))
    requires input != [] && input[0] == FRAME_TYPE_DATA ==> OpenData(s, c, n, total, input[1..]) == None
    requires input != [] && input[0] == FRAME_TYPE_FINAL ==> OpenFinal(s, c, n, input[1..]) == None
    ensures whole == Verdict(done, Broken)
  {
    assert done + [] == done;
  }

  lemma AheadOfFinal(s: Suite, c: Session, whole: Verdict, done: seq<Chunk>, n: nat, total: nat, input: bytes)
    requires n <= MAX_STREAM_DATA_FRAMES && Ahead(whole, done, Decode(s, c, n, total, input))
    requires input != [] && input[0] == FRAME_TYPE_FINAL && OpenFinal(s, c, n, input[1..]).Some?
    ensures whole == Verdict(done, if OpenFinal(s, c, n, input[1..]).value == [] then Complete else Trailing)
  {
    assert done + [] == done;
  }

  /** The frame loop. At every step the output holds exactly the chunks verified so far. */
  method DecryptFrames(s: Suite, c: Session, reader: StreamReader, output: OutputStream)
    returns (r: Result<()>, ghost log: seq<Sealed>)
    modifies reader, reader.stream, output
    ensures var v := Decode(s, c, 0, 0, old(reader.Remaining()));
            && |v.chunks| <= MAX_STREAM_DATA_FRAMES
            && r == Outcome(v)
            && output.pieces == old(output.pieces) + v.chunks
            && log == Seals(s, c, v)
  {
    hide OutputStream.Written, Join, OpenData, OpenFinal, DataSeal, FinalSeal, DataSeals, DataFrame, FinalFrame,
      DataFrames, Encoded, Verified, Seals, Ahead, FrameNonce, DeriveChunkAad, Prefixed, StreamReader.Remaining;
    var aesgcm := new AesGcm(s, c.key);
    var n: nat, total: nat, receivedFinal := 0, 0, false;
    ghost var whole := Decode(s, c, 0, 0, reader.Remaining());
    ghost var done: seq<Chunk> := [];
    EmptyRun(s, c);
    AheadAtStart(whole);
    while true
      invariant fresh(aesgcm) && aesgcm.suite == s && aesgcm.key == c.key
      invariant n == |done| <= MAX_STREAM_DATA_FRAMES && total == |Join(done)| && !receivedFinal
      invariant Ahead(whole, done, Decode(s, c, n, total, reader.Remaining()))
      invariant output.pieces == old(output.pieces) + done
      invariant aesgcm.accepted == DataSeals(s, c, done)
      decreases |reader.Remaining()|
    {
      ghost var input := reader.Remaining();
      var frameType := reader.ReadExact(1);
      if frameType.None? {
        AheadOfBreak(s, c, whole, done, n, total, input);
        EndOfRun(s, c, [], done, Broken);
        return Failure(DecryptionError), aesgcm.accepted;
      }
      if receivedFinal { assert false; }

      if frameType.value[0] == FRAME_TYPE_DATA {
        var chunk := ReadData(reader, aesgcm, c, n, total);
        if chunk.None? {
          AheadOfBreak(s, c, whole, done, n, total, input);
          EndOfRun(s, c, [], done, Broken);
          return Failure(DecryptionError), aesgcm.accepted;
        }
        output.Write(chunk.value);
        AheadOfData(s, c, whole, done, n, total, input, chunk.value, reader.Remaining());
        JoinAppend(done, chunk.value);
        DataSealsAppend(s, c, done, chunk.value);
        done := done + [chunk.value];
        total := total + |chunk.value|;
        n := n + 1;
      } else if frameType.value[0] == FRAME_TYPE_FINAL {
        var ok := ReadFinal(reader, aesgcm, c, n);
        if !ok {
          AheadOfBreak(s, c, whole, done, n, total, input);
          EndOfRun(s, c, [], done, Broken);
          return Failure(DecryptionError), aesgcm.accepted;
        }
        receivedFinal := true;
        AheadOfFinal(s, c, whole, done, n, total, input);
        EndOfRun(s, c, [], done, whole.end);
        var trailing := reader.HasRemaining();
        if trailing { return Failure(DecryptionError), aesgcm.accepted; }
        return Success(()), aesgcm.accepted;
      } else {
        AheadOfBreak(s, c, whole, done, n, total, input);
        EndOfRun(s, c, [], done, Broken);
        return Failure(DecryptionError), aesgcm.accepted;
      }
    }
  }

  method DecryptStream(env: Env, handles: seq<Handle>, input: InputStream, output: OutputStream,
                       minProfile: Option<string>)
    returns (r: Result<()>, ghost first: nat, ghost log: seq<Sealed>)
    modifies input, output
    ensures first <= MAX_HEADER_SIZE && first <= |old(input.remaining)| && (first == 0 <==> old(input.remaining) == [])
    ensures match StreamVerdict(env, handles, minProfile, old(input.remaining), first)
            case Failure(e) =>
              && r == Failure(e) && log == []
              && output.Written() == old(output.Written()) && output.pieces == old(output.pieces)
            case Success((c, v)) =>
              && r == Outcome(v)
              && output.Written() == old(output.Written()) + Join(v.chunks)
              && output.pieces == old(output.pieces) + v.chunks
              && log == Seals(env.suite, c, v)
    ensures input.full ==> first == FullFirst(old(input.remaining))
    ensures input.full ==>
      (r.Success? <==>
        exists c: Session, chunks: seq<Chunk> :: IsStream(env, handles, minProfile, old(input.remaining), c, chunks))
    ensures input.full ==>
      forall c: Session, chunks: seq<Chunk> :: IsStream(env, handles, minProfile, old(input.remaining), c, chunks) ==>
        r == Success(()) && output.Written() == old(output.Written()) + Join(chunks)
  {
    hide Decode, RecipientSession, Seals, IsStream;
    ghost var whole := input.remaining;
    FullInputVerdict(env, handles, minProfile, whole);
    var initial := input.Read(MAX_HEADER_SIZE);
    first, log := |initial|, [];
    assert whole[..first] == initial;
    if initial == [] {
      NothingOpens(env, handles, minProfile);
      return Failure(DecryptionError), first, log;
    }
    var session := OpenSession(env, handles, minProfile, initial);
    if session.Failure? { return Failure(session.error), first, log; }
    var (c, consumed) := session.value;
    var reader := new StreamReader(initial[consumed..], input);
    assert reader.Remaining() == whole[consumed..];
    ghost var before := output.pieces;
    r, log := DecryptFrames(env.suite, c, reader, output);
    JoinConcat(before, output.pieces[|before|..]);
    assert output.pieces == before + output.pieces[|before|..];
  }

  lemma NothingOpens(env: Env, handles: seq<Handle>, minProfile: Option<string>)
    ensures RecipientSession(env, handles, minProfile, []) == Failure(DecryptionError)
  {
  }

  // ---- Migration ----

  /** The frame loop of migration. At every step the output holds exactly the chunks verified
      so far, sealed under the new session; the two sequence counters never diverge. */
  method MigrateFrames(s: Suite, c: Session, d: Session, reader: StreamReader, output: OutputStream)
    returns (r: Result<()>, ghost log: seq<Sealed>)
    modifies reader, reader.stream, output
    ensures var v := Decode(s, c, 0, 0, old(reader.Remaining()));
            && |v.chunks| <= MAX_STREAM_DATA_FRAMES
            && r == Outcome(v)
            && output.Written() == old(output.Written()) + Verified(s, d, 0, v)
            && log == Seals(s, d, v)
    ensures old(output.pieces) <= output.pieces
  {
    hide OpenData, OpenFinal, DataSeal, FinalSeal, DataSeals, DataFrame, FinalFrame, StreamReader.Remaining,
      DataFrames, Verified, Seals, Ahead;
    var oldAesgcm := new AesGcm(s, c.key);
    var newAesgcm := new AesGcm(s, d.key);
    var n: nat, newN: nat, total: nat, receivedFinal := 0, 0, 0, false;
    ghost var whole := Decode(s, c, 0, 0, reader.Remaining());
    ghost var done: seq<Chunk> := [];
    EmptyRun(s, d);
    AheadAtStart(whole);
    while true
      invariant fresh(oldAesgcm) && oldAesgcm.suite == s && oldAesgcm.key == c.key
      invariant fresh(newAesgcm) && newAesgcm.suite == s && newAesgcm.key == d.key && newAesgcm != oldAesgcm
      invariant n == newN == |done| <= MAX_STREAM_DATA_FRAMES && !receivedFinal
      invariant Ahead(whole, done, Decode(s, c, n, total, reader.Remaining()))
      invariant output.Written() == old(output.Written()) + DataFrames(s, d, 0, done)
      invariant old(output.pieces) <= output.pieces
      invariant newAesgcm.sealed == DataSeals(s, d, done)
      decreases |reader.Remaining()|
    {
      ghost var input := reader.Remaining();
      var frameType := reader.ReadExact(1);
      if frameType.None? {
        AheadOfBreak(s, c, whole, done, n, total, input);
        EndOfRun(s, d, old(output.Written()), done, Broken);
        return Failure(DecryptionError), newAesgcm.sealed;
      }
      if receivedFinal { assert false; }

      if frameType.value[0] == FRAME_TYPE_DATA {
        if n != newN { assert false; }
        var chunk := ReadData(reader, oldAesgcm, c, n, total);
        if chunk.None? {
          AheadOfBreak(s, c, whole, done, n, total, input);
          EndOfRun(s, d, old(output.Written()), done, Broken);
          return Failure(DecryptionError), newAesgcm.sealed;
        }
        WriteData(newAesgcm, output, d, newN, chunk.value);
        AheadOfData(s, c, whole, done, n, total, input, chunk.value, reader.Remaining());
        LongerRun(s, d, old(output.Written()), done, chunk.value);
        done := done + [chunk.value];
        total := total + |chunk.value|;
        n := n + 1;
        newN := newN + 1;
      } else if frameType.value[0] == FRAME_TYPE_FINAL {
        if n != newN { assert false; }
        var ok := ReadFinal(reader, oldAesgcm, c, n);
        if !ok {
          AheadOfBreak(s, c, whole, done, n, total, input);
          EndOfRun(s, d, old(output.Written()), done, Broken);
          return Failure(DecryptionError), newAesgcm.sealed;
        }
        receivedFinal := true;
        WriteFinal(newAesgcm, output, d, newN);
        AheadOfFinal(s, c, whole, done, n, total, input);
        EndOfRun(s, d, old(output.Written()), done, whole.end);
        var trailing := reader.HasRemaining();
        if trailing { return Failure(DecryptionError), newAesgcm.sealed; }
        return Success(()), newAesgcm.sealed;
      } else {
        AheadOfBreak(s, c, whole, done, n, total, input);
        EndOfRun(s, d, old(output.Written()), done, Broken);
        return Failure(DecryptionError), newAesgcm.sealed;
      }
    }
  }

  method MigrateStream(env: Env, handles: seq<Handle>, input: InputStream, output: OutputStream,
                       newBundle: PublicBundle,
                       minProfile: Option<string>, seeds: Seeds, nonce: Nonce)
    returns (r: Result<()>, ghost first: nat, ghost log: seq<Sealed>)
    modifies input, output
    ensures old(output.pieces) <= output.pieces
    ensures first <= MAX_HEADER_SIZE && first <= |old(input.remaining)| && (first == 0 <==> old(input.remaining) == [])
    ensures match StreamVerdict(env, handles, minProfile, old(input.remaining), first)
            case Failure(e) => r == Failure(e) && output.Written() == old(output.Written()) && log == []
            case Success((c, v)) =>
              match SenderSession(env, newBundle, seeds, nonce)
              case None => r.Failure? && output.Written() == old(output.Written()) && log == []
              case Some(d) =>
                && r == Outcome(v)
                && output.Written() == old(output.Written()) + d.header + Verified(env.suite, d, 0, v)
                && log == Seals(env.suite, d, v)
    ensures input.full ==> first == FullFirst(old(input.remaining))
    ensures input.full ==>
      (r.Success? <==>
        && SenderSession(env, newBundle, seeds, nonce).Some?
        && exists c: Session, chunks: seq<Chunk> :: IsStream(env, handles, minProfile, old(input.remaining), c, chunks))
    ensures input.full && SenderSession(env, newBundle, seeds, nonce).Some? ==>
      var d := SenderSession(env, newBundle, seeds, nonce).value;
      forall c: Session, chunks: seq<Chunk> :: IsStream(env, handles, minProfile, old(input.remaining), c, chunks) ==>
        && |chunks| <= MAX_STREAM_DATA_FRAMES
        && output.Written() == old(output.Written()) + d.header + Verified(env.suite, d, 0, Verdict(chunks, Complete))
  {
    hide Decode, RecipientSession, SenderSession, Seals, Verified, FullFirst, IsStream;
    ghost var whole := input.remaining;
    FullInputVerdict(env, handles, minProfile, whole);
    var initial := input.Read(MAX_HEADER_SIZE);
    first, log := |initial|, [];
    assert whole[..first] == initial;
    if initial == [] {
      NothingOpens(env, handles, minProfile);
      return Failure(DecryptionError), first, log;
    }
    var session := OpenSession(env, handles, minProfile, initial);
    if session.Failure? { return Failure(session.error), first, log; }
    var (c, consumed) := session.value;
    var started := StartSession(env, newBundle, seeds, nonce);
    if started.Failure? { return Failure(started.error), first, log; }
    output.Write(started.value.header);
    var reader := new StreamReader(initial[consumed..], input);
    assert reader.Remaining() == whole[consumed..];
    r, log := MigrateFrames(env.suite, c, started.value, reader, output);
  }
  // ---- From file to file ----

  /** The conditions of the round trip over full streams, each of which a caller can check. */
  predicate RoundTrips(env: Env, bundle: PublicBundle, minProfile: Option<string>, length: nat, chunkSize: int,
                       header: bytes)
  {
    && 0 < chunkSize <= 9_437_184 && WithinCapacity(length, chunkSize)
    && |header| <= 65536
    && bundle.profileId in env.reg && NamesFit(bundle.profileId, env.reg[bundle.profileId])
    && Gate(env.reg, bundle.profileId, minProfile) == None
  }

  /** What decrypting all of a full input into a buffer gives. */
  function DecryptedText(env: Env, handles: seq<Handle>, minProfile: Option<string>, contents: bytes): Result<bytes> {
    match StreamVerdict(env, handles, minProfile, contents, FullFirst(contents))
    case Failure(e) => Failure(e)
    case Success((_, v)) => if v.end == Complete then Success(Join(v.chunks)) else Failure(DecryptionError)
  }

  method DecryptText(env: Env, handles: seq<Handle>, minProfile: Option<string>, contents: bytes)
    returns (r: Result<bytes>)
    ensures r == DecryptedText(env, handles, minProfile, contents)
  {
    hide StreamVerdict, IsStream, Seals, FullFirst;
    var source := new InputStream(contents, true);
    var target := new OutputStream();
    assert target.Written() == [];
    var decrypted, first, log := DecryptStream(env, handles, source, target, minProfile);
    if decrypted.Failure? { return Failure(decrypted.error); }
    ghost var v := StreamVerdict(env, handles, minProfile, contents, first).value.1;
    assert target.Written() == [] + Join(v.chunks) == Join(v.chunks);
    return Success(target.Written());
  }

  /** What a full input with everything a sender wrote decrypts to. */
  lemma SentTextReads(env: Env, bundle: PublicBundle, seeds: Seeds, nonce: Nonce, handles: seq<Handle>,
                      minProfile: Option<string>, chunks: seq<Chunk>)
    requires SenderSession(env, bundle, seeds, nonce).Some? && Fits(0, 0, chunks)
    requires HandlesMatch(env.reg[bundle.profileId], bundle.publicKeys, handles)
    ensures var c := SenderSession(env, bundle, seeds, nonce).value;
            var r := DecryptedText(env, handles, minProfile, StreamBytes(env.suite, c, Verdict(chunks, Complete)));
            if |c.header| <= 65536 && NamesFit(bundle.profileId, env.reg[bundle.profileId])
               && Gate(env.reg, bundle.profileId, minProfile) == None
            then r == Success(Join(chunks)) else r.Failure?
  {
    hide SenderSession, HandlesMatch, NamesFit, Gate, StreamVerdict, Verified;
    var c, v := SenderSession(env, bundle, seeds, nonce).value, Verdict(chunks, Complete);
    RecipientReadsSender(env, bundle, seeds, nonce, handles, minProfile, v, FullFirst(StreamBytes(env.suite, c, v)));
  }

  method EncryptText(env: Env, bundle: PublicBundle, text: bytes, chunkSize: int, seeds: Seeds, nonce: Nonce)
    returns (r: Result<bytes>)
    ensures SenderSession(env, bundle, seeds, nonce).Some? ==>
      && (r.Success? <==> 0 < chunkSize <= 9_437_184 && WithinCapacity(|text|, chunkSize))
      && (r.Success? ==>
            exists chunks: seq<Chunk> ::
              && Fits(0, 0, chunks) && Join(chunks) == text
              && r.value == StreamBytes(env.suite, SenderSession(env, bundle, seeds, nonce).value,
                                        Verdict(chunks, Complete)))
  {
    hide SenderSession, WithinCapacity, Chunked, Seals, Verified, Fits;
    var source := new InputStream(text, true);
    var target := new OutputStream();
    assert target.Written() == [];
    var encrypted, chunks, log := EncryptStream(env, bundle, source, target, chunkSize, seeds, nonce);
    if encrypted.Failure? { return Failure(encrypted.error); }
    return Success(target.Written());
  }

  method MigrateText(env: Env, handles: seq<Handle>, minProfile: Option<string>, contents: bytes,
                     newBundle: PublicBundle, seeds: Seeds, nonce: Nonce)
    returns (r: Result<bytes>)
    ensures SenderSession(env, newBundle, seeds, nonce).Some? ==>
      && (r.Success? <==>
            exists c: Session, chunks: seq<Chunk> :: IsStream(env, handles, minProfile, contents, c, chunks))
      && (forall c: Session, chunks: seq<Chunk> :: IsStream(env, handles, minProfile, contents, c, chunks) ==>
            && |chunks| <= MAX_STREAM_DATA_FRAMES
            && r == Success(StreamBytes(env.suite, SenderSession(env, newBundle, seeds, nonce).value,
                                        Verdict(chunks, Complete))))
  {
    hide SenderSession, StreamVerdict, Seals, Verified, IsStream;
    var source := new InputStream(contents, true);
    var target := new OutputStream();
    assert target.Written() == [];
    var migrated, first, log := MigrateStream(env, handles, source, target, newBundle, minProfile, seeds, nonce);
    if migrated.Failure? { return Failure(migrated.error); }
    if SenderSession(env, newBundle, seeds, nonce).Some? {
      ghost var d := SenderSession(env, newBundle, seeds, nonce).value;
      forall c: Session, chunks: seq<Chunk> | IsStream(env, handles, minProfile, contents, c, chunks)
        ensures |chunks| <= MAX_STREAM_DATA_FRAMES
        ensures target.Written() == StreamBytes(env.suite, d, Verdict(chunks, Complete))
      {
        assert [] + d.header + Verified(env.suite, d, 0, Verdict(chunks, Complete))
            == d.header + Verified(env.suite, d, 0, Verdict(chunks, Complete));
      }
    }
    return Success(target.Written());
  }

  /** encrypt_stream from one full stream into a buffer, then decrypt_stream from that: the text
      comes back exactly when it is within capacity, the header fits the first read, the profile's
      names can stand in a header, and the gate lets the profile pass. */
  method EncryptThenDecrypt(env: Env, bundle: PublicBundle, handles: seq<Handle>, minProfile: Option<string>,
                            text: bytes, chunkSize: int, seeds: Seeds, nonce: Nonce)
    returns (r: Result<bytes>)
    ensures SenderSession(env, bundle, seeds, nonce).Some?
            && HandlesMatch(env.reg[bundle.profileId], bundle.publicKeys, handles) ==>
      && (r.Success? <==> RoundTrips(env, bundle, minProfile, |text|, chunkSize,
                                     SenderSession(env, bundle, seeds, nonce).value.header))
      && (r.Success? ==> r.value == text)
  {
    assert SenderSession(env, bundle, seeds, nonce).Some? ==> bundle.profileId in env.reg;
    hide SenderSession, HandlesMatch, NamesFit, Gate, WithinCapacity, StreamBytes, DecryptedText, Fits;
    var sealed := EncryptText(env, bundle, text, chunkSize, seeds, nonce);
    if sealed.Failure? { return Failure(sealed.error); }
    r := DecryptText(env, handles, minProfile, sealed.value);
    if SenderSession(env, bundle, seeds, nonce).Some?
       && HandlesMatch(env.reg[bundle.profileId], bundle.publicKeys, handles) {
      ghost var chunks: seq<Chunk> :| Fits(0, 0, chunks) && Join(chunks) == text
        && sealed.value == StreamBytes(env.suite, SenderSession(env, bundle, seeds, nonce).value,
                                       Verdict(chunks, Complete));
      SentTextReads(env, bundle, seeds, nonce, handles, minProfile, chunks);
    }
  }

  /** migrate_stream from a full stream into a buffer, then decrypt_stream from that with the new
      handles: the text of the old stream comes back exactly when the input is a stream for the old
      handles, provided the new header fits the first read and the new profile's names a header. */
  method MigrateThenDecrypt(env: Env, handles: seq<Handle>, minProfile: Option<string>, contents: bytes,
                            newBundle: PublicBundle, newHandles: seq<Handle>, seeds: Seeds, nonce: Nonce)
    returns (r: Result<bytes>)
    ensures SenderSession(env, newBundle, seeds, nonce).Some?
            && HandlesMatch(env.reg[newBundle.profileId], newBundle.publicKeys, newHandles)
            && NamesFit(newBundle.profileId, env.reg[newBundle.profileId])
            && |SenderSession(env, newBundle, seeds, nonce).value.header| <= 65536 ==>
      && (r.Success? <==>
            exists c: Session, chunks: seq<Chunk> :: IsStream(env, handles, minProfile, contents, c, chunks))
      && (forall c: Session, chunks: seq<Chunk> :: IsStream(env, handles, minProfile, contents, c, chunks) ==>
            r == Success(Join(chunks)))
  {
    assert SenderSession(env, newBundle, seeds, nonce).Some? ==> newBundle.profileId in env.reg;
    hide SenderSession, HandlesMatch, NamesFit, StreamBytes, DecryptedText, IsStream, Fits;
    var migrated := MigrateText(env, handles, minProfile, contents, newBundle, seeds, nonce);
    if migrated.Failure? { return Failure(migrated.error); }
    r := DecryptText(env, newHandles, None, migrated.value);
    if SenderSession(env, newBundle, seeds, nonce).Some?
       && HandlesMatch(env.reg[newBundle.profileId], newBundle.publicKeys, newHandles) {
      ghost var c: Session, chunks: seq<Chunk> :| IsStream(env, handles, minProfile, contents, c, chunks);
      StreamIsUnique(env, handles, minProfile, contents, c, chunks);
      SentTextReads(env, newBundle, seeds, nonce, newHandles, None, chunks);
    }
  }
}
