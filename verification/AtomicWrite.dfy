// Atomic replacement of a file (cryptoflex/cli.py): every file-system operation may fail,
// and the process may stop after any of them.
module AtomicWrite {
  import opened Wrappers
  import opened Bytes
  import opened Aead
  import opened Frames
  import opened Streams
  import opened Api
  import opened StreamLaws
  import opened Streaming
  import opened Sources

  type Files = map<string, bytes>

  /** A file system that remembers, as a ghost, every state it has been in. Any operation may fail,
      except that on a reliable one those that write succeed, and on a removable one unlink does. */
  class FileSystem {
    const reliable: bool
    const removable: bool
    var files: Files
    ghost var history: seq<Files>

    ghost predicate Valid()
      reads this
    {
      history != [] && history[|history| - 1] == files
    }

    constructor (files: Files, reliable: bool, removable: bool)
      ensures Valid() && this.files == files && history == [files]
      ensures this.reliable == reliable && this.removable == removable
    {
      this.reliable, this.removable := reliable, removable;
      this.files := files;
      history := [files];
    }

    /** Enters a new state. */
    method Become(state: Files)
      modifies this
      ensures Valid() && files == state && history == old(history) + [state]
    {
      files := state;
      history := history + [state];
    }

    /** mkstemp: an empty file under a name not yet taken, or nothing at all. */
    method Create(path: string) returns (ok: bool)
      requires Valid()
      modifies this
      ensures Valid()
      ensures ok ==> path !in old(files) && files == old(files)[path := []] && history == old(history) + [files]
      ensures !ok ==> files == old(files) && history == old(history)
      ensures reliable ==> (ok <==> path !in old(files))
    {
      var fails: bool := *;
      if (fails && !reliable) || path in files { return false; }
      Become(files[path := []]);
      return true;
    }

    /** Appends data, or, when it fails, some beginning of it. */
    method Append(path: string, data: bytes) returns (ok: bool)
      requires Valid() && path in files
      modifies this
      ensures Valid() && path in files && files - {path} == old(files) - {path}
      ensures history == old(history) + [files]
      ensures ok ==> files[path] == old(files)[path] + data
      ensures reliable ==> ok
    {
      ok := *;
      ok := ok || reliable;
      var k: nat := |data|;
      if !ok { k :| 0 <= k <= |data|; }
      Become(files[path := files[path] + data[..k]]);
    }

    /** os.replace: source's content becomes destination's, in one step. */
    method Replace(source: string, destination: string) returns (ok: bool)
      requires Valid() && source in files
      modifies this
      ensures Valid()
      ensures ok ==> files == (old(files) - {source})[destination := old(files)[source]]
      ensures ok ==> history == old(history) + [files]
      ensures !ok ==> files == old(files) && history == old(history)
      ensures reliable ==> ok
    {
      ok := *;
      ok := ok || reliable;
      if ok { Become((files - {source})[destination := files[source]]); }
    }

    method Unlink(path: string) returns (ok: bool)
      requires Valid()
      modifies this
      ensures Valid()
      ensures ok ==> files == old(files) - {path} && history == old(history) + [files]
      ensures !ok ==> files == old(files) && history == old(history)
      ensures removable ==> ok
    {
      ok := *;
      ok := ok || removable;
      if ok { Become(files - {path}); }
    }
  }

  /** A file opened for writing: what is not yet on disk waits in a buffer. */
  class BufferedFile {
    const fs: FileSystem
    const path: string
    var pending: bytes

    constructor (fs: FileSystem, path: string)
      ensures this.fs == fs && this.path == path && pending == []
    {
      this.fs := fs;
      this.path := path;
      pending := [];
    }

    /** Buffers b; any beginning of the buffer may go to disk, and that may fail. */
    method Write(b: bytes) returns (ok: bool)
      requires fs.Valid() && path in fs.files
      modifies this, fs
      ensures fs.Valid() && path in fs.files && fs.files - {path} == old(fs.files) - {path}
      ensures fs.history == old(fs.history) + [fs.files]
      ensures ok ==> fs.files[path] + pending == old(fs.files[path] + pending) + b
      ensures fs.reliable ==> ok
    {
      pending := pending + b;
      var k: nat :| 0 <= k <= |pending|;
      ghost var before := fs.files[path] + pending;
      ok := fs.Append(path, pending[..k]);
      pending := pending[k..];
      assert ok ==> fs.files[path] + pending == before;
    }

    /** Flush, and close after it: everything reaches the disk, or the operation fails. */
    method Flush() returns (ok: bool)
      requires fs.Valid() && path in fs.files
      modifies this, fs
      ensures fs.Valid() && path in fs.files && fs.files - {path} == old(fs.files) - {path}
      ensures fs.history == old(fs.history) + [fs.files]
      ensures ok ==> fs.files[path] == old(fs.files[path] + pending) && pending == []
      ensures fs.reliable ==> ok
    {
      ok := fs.Append(path, pending);
      pending := [];
    }
  }

  /** What the callback does to the file object: the pieces it writes, and whether it returns. */
  datatype Writer = Writer(pieces: seq<bytes>, completes: bool)

  /** The destination is as it was before. */
  predicate DestinationOld(before: Files, state: Files, dest: string) {
    (dest in state <==> dest in before) && (dest in before ==> state[dest] == before[dest])
  }

  /** All or nothing: the destination is as before, or holds everything a writer that returned
      wrote. No other file but the temporary one differs. */
  predicate AllOrNothing(before: Files, state: Files, dest: string, temp: string, writer: Writer) {
    && state - {dest, temp} == before - {dest, temp}
    && (DestinationOld(before, state, dest)
        || (writer.completes && dest in state && state[dest] == Join(writer.pieces)))
  }

  /** Only the temporary file differs from before. */
  predicate OnlyTemp(before: Files, state: Files, temp: string) {
    state - {temp} == before - {temp}
  }

  lemma OnlyTempIsAllOrNothing(before: Files, state: Files, dest: string, temp: string, writer: Writer)
    requires OnlyTemp(before, state, temp)
    ensures dest != temp ==> AllOrNothing(before, state, dest, temp, writer) && DestinationOld(before, state, dest)
  {
    if dest == temp { return; }
    assert dest in state <==> dest in state - {temp};
    assert dest in before <==> dest in before - {temp};
    assert dest in before ==> state[dest] == (state - {temp})[dest] == before[dest];
    assert state - {dest, temp} == (state - {temp}) - {dest};
    assert before - {dest, temp} == (before - {temp}) - {dest};
  }

  lemma OnlyTempRemoved(before: Files, state: Files, temp: string)
    requires OnlyTemp(before, state, temp) && temp !in before && temp !in state
    ensures state == before
  {
    assert state - {temp} == state && before - {temp} == before;
  }

  /** Every state from position start on satisfies all-or-nothing. */
  ghost predicate AllStates(history: seq<Files>, start: nat, before: Files, dest: string, temp: string,
                            writer: Writer) {
    forall k :: start <= k < |history| ==> AllOrNothing(before, history[k], dest, temp, writer)
  }

  /** write_fn under the with statement: the pieces, then flush and close. */
  method WriteTemp(fs: FileSystem, temp: string, writer: Writer, ghost before: Files, ghost dest: string,
                   ghost start: nat)
    returns (ok: bool)
    requires fs.Valid() && temp in fs.files && fs.files[temp] == [] && OnlyTemp(before, fs.files, temp)
    requires start <= |fs.history| && (dest != temp ==> AllStates(fs.history, start, before, dest, temp, writer))
    modifies fs
    ensures fs.Valid() && temp in fs.files && OnlyTemp(before, fs.files, temp)
    ensures old(fs.history) <= fs.history
    ensures dest != temp ==> AllStates(fs.history, start, before, dest, temp, writer)
    ensures ok ==> writer.completes && fs.files[temp] == Join(writer.pieces)
    ensures fs.reliable ==> (ok <==> writer.completes)
  {
    hide AllOrNothing;
    var file := new BufferedFile(fs, temp);
    for i := 0 to |writer.pieces|
      invariant fresh(file) && file.fs == fs && file.path == temp
      invariant fs.Valid() && temp in fs.files && OnlyTemp(before, fs.files, temp)
      invariant old(fs.history) <= fs.history
      invariant dest != temp ==> AllStates(fs.history, start, before, dest, temp, writer)
      invariant fs.files[temp] + file.pending == Join(writer.pieces[..i])
    {
      ok := file.Write(writer.pieces[i]);
      OnlyTempIsAllOrNothing(before, fs.files, dest, temp, writer);
      if !ok { return false; }
      JoinAppend(writer.pieces[..i], writer.pieces[i]);
      assert writer.pieces[..i + 1] == writer.pieces[..i] + [writer.pieces[i]];
    }
    assert writer.pieces[..|writer.pieces|] == writer.pieces;
    if !writer.completes { return false; }
    ok := file.Flush();
    OnlyTempIsAllOrNothing(before, fs.files, dest, temp, writer);
    if !ok { return false; }
    ok := file.Flush();   // close
    OnlyTempIsAllOrNothing(before, fs.files, dest, temp, writer);
  }

  lemma UnchangedIsAllOrNothing(before: Files, dest: string, temp: string, writer: Writer)
    ensures AllOrNothing(before, before, dest, temp, writer)
  {
  }

  /** mkstemp never picks a name that is taken. What it must not pick besides is the name of a
      destination that does not exist yet: the moment the temporary file is created, all or
      nothing holds exactly when the names differ or nothing was to be written. */
  lemma FreshTempIsAllOrNothingIff(before: Files, dest: string, temp: string, writer: Writer)
    requires temp !in before
    ensures AllOrNothing(before, before[temp := []], dest, temp, writer)
       <==> temp != dest || (writer.completes && Join(writer.pieces) == [])
  {
    var state := before[temp := []];
    assert state - {dest, temp} == before - {dest, temp};
  }

  /** The temporary name may be any but that of a destination that does not exist yet. */
  predicate NoCollision(files: Files, dest: string, temp: string) {
    dest in files || temp != dest
  }

  /** _atomic_stream_write; temp is the name mkstemp picks. Unless the names collide, the
      destination is old or complete in every state the file system passes through. */
  method AtomicStreamWrite(fs: FileSystem, dest: string, writer: Writer, temp: string) returns (r: Result<()>)
    requires fs.Valid()
    modifies fs
    ensures fs.Valid() && old(fs.history) <= fs.history
    ensures NoCollision(old(fs.files), dest, temp) ==>
      AllStates(fs.history, |old(fs.history)| - 1, old(fs.files), dest, temp, writer)
    ensures NoCollision(old(fs.files), dest, temp) && r.Failure? ==> DestinationOld(old(fs.files), fs.files, dest)
    ensures r.Success? ==>
      writer.completes && temp !in old(fs.files) && fs.files == old(fs.files)[dest := Join(writer.pieces)]
    ensures fs.reliable ==> (r.Success? <==> writer.completes && temp !in old(fs.files))
    ensures fs.removable && r.Failure? ==> fs.files == old(fs.files)
  {
    hide AllOrNothing;
    ghost var before, start := fs.files, |fs.history| - 1;
    UnchangedIsAllOrNothing(before, dest, temp, writer);
    var created := fs.Create(temp);
    if !created { return Failure(RuntimeError); }
    OnlyTempIsAllOrNothing(before, fs.files, dest, temp, writer);
    var written := WriteTemp(fs, temp, writer, before, dest, start);
    OnlyTempIsAllOrNothing(before, fs.files, dest, temp, writer);
    if written {
      ghost var full := fs.files;
      var replaced := fs.Replace(temp, dest);
      if replaced {
        assert fs.files == before[dest := Join(writer.pieces)] by {
          assert full - {temp} == before - {temp} == before;
        }
        ReplacedIsAllOrNothing(before, fs.files, dest, temp, writer);
        return Success(());
      }
    }
    var removed := fs.Unlink(temp);   // failure ignored
    OnlyTempIsAllOrNothing(before, fs.files, dest, temp, writer);
    if removed { OnlyTempRemoved(before, fs.files, temp); }
    return Failure(RuntimeError);
  }

  lemma ReplacedIsAllOrNothing(before: Files, state: Files, dest: string, temp: string, writer: Writer)
    requires writer.completes && state == before[dest := Join(writer.pieces)]
    ensures AllOrNothing(before, state, dest, temp, writer)
  {
    assert state - {dest, temp} == before - {dest, temp};
  }

  /** _atomic_write_bytes: one piece, and the writer always returns. */
  method AtomicWriteBytes(fs: FileSystem, dest: string, data: bytes, temp: string) returns (r: Result<()>)
    requires fs.Valid()
    modifies fs
    ensures fs.Valid() && old(fs.history) <= fs.history
    ensures NoCollision(old(fs.files), dest, temp) ==>
      AllStates(fs.history, |old(fs.history)| - 1, old(fs.files), dest, temp, Writer([data], true))
    ensures NoCollision(old(fs.files), dest, temp) && r.Failure? ==> DestinationOld(old(fs.files), fs.files, dest)
    ensures r.Success? ==> temp !in old(fs.files) && fs.files == old(fs.files)[dest := data]
    ensures fs.reliable ==> (r.Success? <==> temp !in old(fs.files))
    ensures fs.removable && r.Failure? ==> fs.files == old(fs.files)
  {
    hide AllOrNothing;
    assert Join([data]) == data + Join([]) == data;
    r := AtomicStreamWrite(fs, dest, Writer([data], true), temp);
  }

  // ---- decrypt_stream as the writer ----

  /** What the destination may hold while a stream is decrypted into it: what it held before, or
      the whole plaintext of an accepted stream. */
  predicate OldOrWholePlaintext(before: Files, state: Files, dest: string, r: Result<(Session, Verdict)>) {
    DestinationOld(before, state, dest)
    || (r.Success? && r.value.1.end == Complete && dest in state && state[dest] == Join(r.value.1.chunks))
  }

  /** The decrypt command in stream mode: decrypt_stream is the callback, what it writes reaches
      the temporary file piece by piece in that order, and its failure is the callback's. Unless
      the names collide, no state the file system passes through shows, at the destination,
      plaintext of a stream that is not accepted in the end; and success means the stream was
      accepted and its plaintext stands there. */
  method DecryptToFile(env: Env, handles: seq<Handle>, input: InputStream, minProfile: Option<string>,
                       fs: FileSystem, dest: string, temp: string)
    returns (r: Result<()>, ghost first: nat)
    requires fs.Valid()
    modifies input, fs
    ensures first <= |old(input.remaining)| && fs.Valid() && old(fs.history) <= fs.history
    ensures var verdict := StreamVerdict(env, handles, minProfile, old(input.remaining), first);
            && (NoCollision(old(fs.files), dest, temp) ==>
                  forall k :: |old(fs.history)| - 1 <= k < |fs.history| ==>
                    OldOrWholePlaintext(old(fs.files), fs.history[k], dest, verdict))
            && (NoCollision(old(fs.files), dest, temp) && r.Failure? ==> DestinationOld(old(fs.files), fs.files, dest))
            && (r.Success? ==>
                  && verdict.Success? && verdict.value.1.end == Complete
                  && temp !in old(fs.files) && fs.files == old(fs.files)[dest := Join(verdict.value.1.chunks)])
    ensures fs.removable && r.Failure? ==> fs.files == old(fs.files)
    ensures fs.reliable && input.full && temp !in old(fs.files) ==>
      && (r.Success? <==> exists c: Session, chunks: seq<Chunk> ::
            IsStream(env, handles, minProfile, old(input.remaining), c, chunks))
      && (forall c: Session, chunks: seq<Chunk> ::
            IsStream(env, handles, minProfile, old(input.remaining), c, chunks) ==>
              fs.files == old(fs.files)[dest := Join(chunks)])
  {
    hide StreamVerdict, Seals, IsStream, FullFirst;
    FullInputVerdict(env, handles, minProfile, input.remaining);
    ghost var contents := input.remaining;
    var output := new OutputStream();
    ghost var log: seq<Sealed>;
    var decrypted: Result<()>;
    decrypted, first, log := DecryptStream(env, handles, input, output, minProfile);
    assert decrypted.Success? ==>
      output.pieces == StreamVerdict(env, handles, minProfile, contents, first).value.1.chunks;
    var writer := Writer(output.pieces, decrypted.Success?);
    r := AtomicStreamWrite(fs, dest, writer, temp);
  }
}
