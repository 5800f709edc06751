// The DATA/FINAL frame protocol: the encoding of a chunk list under a session,
// the decoder's verdict on a byte string, and how the two determine each other
// (cryptoflex/streaming.py). Nothing here touches a stream.
module Frames {
  import opened Wrappers
  import opened Bytes
  import opened Aead

  const MAX_CHUNK_PLAINTEXT_SIZE: nat := 9 * 1024 * 1024
  const MAX_CHUNK_CIPHERTEXT_SIZE: nat := MAX_CHUNK_PLAINTEXT_SIZE + 16
  const MAX_HEADER_SIZE: nat := 64 * 1024
  const MAX_STREAM_PLAINTEXT_SIZE: nat := 64 * 1024 * 1024 * 1024
  const MAX_STREAM_DATA_FRAMES: nat := 1_000_000

  const FRAME_TYPE_DATA: byte := 0x01
  const FRAME_TYPE_FINAL: byte := 0x02
  const AAD_TAG_DATA: bytes := [0x44, 0x41, 0x54, 0x41]          // "DATA"
  const AAD_TAG_FINAL: bytes := [0x46, 0x49, 0x4E, 0x41, 0x4C]   // "FINAL"

  /** The plaintext of one DATA frame. */
  type Chunk = c: bytes | 1 <= |c| <= MAX_CHUNK_PLAINTEXT_SIZE witness [0]

  // ---- Nonces and associated data ----

  /** Per-chunk nonce: the first 8 bytes of the base, then the sequence number. */
  function DeriveChunkNonce(base: bytes, n: nat): Result<Nonce> {
    if |base| != NONCE_LEN then Failure(ValueError)
    else if n > 0xFFFF_FFFF then Failure(OverflowError)
    else Success(base[..8] + U32(n))
  }

  function DeriveChunkAad(header: bytes, n: nat, tag: bytes): bytes
    requires n < U32_LIMIT
  {
    header + U32(n) + tag
  }

  /** Below the frame limit neither guard of the nonce derivation can fire. */
  lemma NonceGuardsUnreachable(base: Nonce, n: nat)
    requires n <= MAX_STREAM_DATA_FRAMES
    ensures DeriveChunkNonce(base, n).Success?
  {
  }

  function FrameNonce(c: Session, n: nat): Nonce
    requires n <= MAX_STREAM_DATA_FRAMES
  {
    NonceGuardsUnreachable(c.base, n);
    DeriveChunkNonce(c.base, n).value
  }

  /** Under one base nonce, distinct sequence numbers give distinct nonces. */
  lemma ChunkNoncesDistinct(base: Nonce, i: nat, j: nat)
    requires i != j && DeriveChunkNonce(base, i).Success? && DeriveChunkNonce(base, j).Success?
    ensures DeriveChunkNonce(base, i) != DeriveChunkNonce(base, j)
  {
    if base[..8] + U32(i) == base[..8] + U32(j) {
      SplitConcat(base[..8], base[..8], U32(i), U32(j));
    }
  }

  /** The layout a reader of the wire format relies on: the base's first 8 bytes, then the
      sequence number, most significant byte first. */
  lemma NonceLayout(base: Nonce, n: nat)
    requires n < U32_LIMIT
    ensures DeriveChunkNonce(base, n).Success?
    ensures var nonce := DeriveChunkNonce(base, n).value;
            && nonce[..8] == base[..8] && FromU32(nonce[8..]) == n
            && nonce[8] == n / 0x100_0000 && nonce[9] == n / 0x1_0000 % 0x100
            && nonce[10] == n / 0x100 % 0x100 && nonce[11] == n % 0x100
  {
    U32Bytes(n);
    hide U32, FromU32;
    assert (base[..8] + U32(n))[8..] == U32(n);
  }

  // ---- The encoding of a chunk list ----

  function SealData(s: Suite, c: Session, n: nat, chunk: Chunk): (ct: bytes)
    requires n < MAX_STREAM_DATA_FRAMES
    ensures |ct| == |chunk| + TAG_LEN
  {
    Seal(s, c.key, FrameNonce(c, n), DeriveChunkAad(c.header, n, AAD_TAG_DATA), chunk)
  }

  function SealFinal(s: Suite, c: Session, n: nat): (ct: bytes)
    requires n <= MAX_STREAM_DATA_FRAMES
    ensures |ct| == TAG_LEN
  {
    Seal(s, c.key, FrameNonce(c, n), DeriveChunkAad(c.header, n, AAD_TAG_FINAL), [])
  }

  function DataFrame(s: Suite, c: Session, n: nat, chunk: Chunk): bytes
    requires n < MAX_STREAM_DATA_FRAMES
  {
    [FRAME_TYPE_DATA] + Prefixed(SealData(s, c, n, chunk))
  }

  function FinalFrame(s: Suite, c: Session, n: nat): (f: bytes)
    requires n <= MAX_STREAM_DATA_FRAMES
    ensures |f| == 5 + TAG_LEN
  {
    [FRAME_TYPE_FINAL] + Prefixed(SealFinal(s, c, n))
  }

  /** The layout of a DATA frame: type 1, the length of ciphertext and tag, then those. */
  lemma DataFrameLayout(s: Suite, c: Session, n: nat, chunk: Chunk)
    requires n < MAX_STREAM_DATA_FRAMES
    ensures var f := DataFrame(s, c, n, chunk);
            && |f| == 21 + |chunk| && f[0] == 0x01 && FromU32(f[1..5]) == |chunk| + 16
            && Open(s, c.key, FrameNonce(c, n), c.header + U32(n) + [0x44, 0x41, 0x54, 0x41], f[5..]) == Some(chunk)
            && forall i, j :: 0 <= i < |chunk| && 0 <= j < 8 ==>
                 (Bit(f[5 + i], j) <==> Bit(chunk[i], j) != Bit(s.keystream(c.key, FrameNonce(c, n), i), j))
  {
    hide Seal, Open, FrameNonce, FromU32, Bit;
    var ct := SealData(s, c, n, chunk);
    var f := DataFrame(s, c, n, chunk);
    assert f[1..5] == U32(|ct|) && f[5..] == ct;
    SealMasksEveryBit(s, c.key, FrameNonce(c, n), DeriveChunkAad(c.header, n, AAD_TAG_DATA), chunk);
    forall i, j | 0 <= i < |chunk| && 0 <= j < 8
      ensures Bit(f[5 + i], j) <==> Bit(chunk[i], j) != Bit(s.keystream(c.key, FrameNonce(c, n), i), j)
    {
      assert f[5 + i] == ct[i];
    }
    OpenSealed(s, c.key, FrameNonce(c, n), DeriveChunkAad(c.header, n, AAD_TAG_DATA), chunk);
  }

  /** The layout of a FINAL frame: type 2, length 16, the tag of the empty text. */
  lemma FinalFrameLayout(s: Suite, c: Session, n: nat)
    requires n <= MAX_STREAM_DATA_FRAMES
    ensures var f := FinalFrame(s, c, n);
            && |f| == 21 && f[0] == 0x02 && FromU32(f[1..5]) == 16
            && Open(s, c.key, FrameNonce(c, n), c.header + U32(n) + [0x46, 0x49, 0x4E, 0x41, 0x4C], f[5..])
                 == Some([])
  {
    hide Seal, Open, FrameNonce, FromU32;
    var ct := SealFinal(s, c, n);
    var f := FinalFrame(s, c, n);
    assert f[1..5] == U32(|ct|) && f[5..] == ct;
    OpenSealed(s, c.key, FrameNonce(c, n), DeriveChunkAad(c.header, n, AAD_TAG_FINAL), []);
  }

  /** The DATA frames of chunks, numbered from n. */
  function DataFrames(s: Suite, c: Session, n: nat, chunks: seq<Chunk>): bytes
    requires n + |chunks| <= MAX_STREAM_DATA_FRAMES
    decreases |chunks|
  {
    if chunks == [] then []
    else DataFrame(s, c, n, chunks[0]) + DataFrames(s, c, n + 1, chunks[1..])
  }

  /** A complete frame sequence: the DATA frames, then FINAL with the next number. */
  function Encoded(s: Suite, c: Session, n: nat, chunks: seq<Chunk>): bytes
    requires n + |chunks| <= MAX_STREAM_DATA_FRAMES
  {
    DataFrames(s, c, n, chunks) + FinalFrame(s, c, n + |chunks|)
  }

  /** The limits on a stream that already holds n frames of total plaintext bytes. */
  predicate Fits(n: nat, total: nat, chunks: seq<Chunk>) {
    n + |chunks| <= MAX_STREAM_DATA_FRAMES && total + |Join(chunks)| <= MAX_STREAM_PLAINTEXT_SIZE
  }

  // ---- The decoder's verdict ----

  /** How decoding ended: at a verified FINAL with nothing after it, at a verified
      FINAL with data after it, or before any FINAL verified. */
  datatype Ending = Complete | Trailing | Broken

  /** The chunks verified, in order, and the ending. */
  datatype Verdict = Verdict(chunks: seq<Chunk>, end: Ending)

  /** Length field, limits and authentication of a DATA frame after its type byte. */
  function OpenData(s: Suite, c: Session, n: nat, total: nat, body: bytes): (r: Option<(Chunk, bytes)>)
    requires n <= MAX_STREAM_DATA_FRAMES
    ensures r.Some? ==> |r.value.1| < |body|
  {
    if n >= MAX_STREAM_DATA_FRAMES || |body| < 4 then None
    else
      var len := FromU32(body[..4]);
      if len <= TAG_LEN || len > MAX_CHUNK_CIPHERTEXT_SIZE then None
      else if total + (len - TAG_LEN) > MAX_STREAM_PLAINTEXT_SIZE then None
      else if |body| < 4 + len then None
      else match Open(s, c.key, FrameNonce(c, n), DeriveChunkAad(c.header, n, AAD_TAG_DATA), body[4..4 + len])
        case None => None
        case Some(text) => Some((text, body[4 + len..]))
  }

  function OpenFinal(s: Suite, c: Session, n: nat, body: bytes): Option<bytes>
    requires n <= MAX_STREAM_DATA_FRAMES
  {
    if |body| < 4 || FromU32(body[..4]) != TAG_LEN || |body| < 4 + TAG_LEN then None
    else match Open(s, c.key, FrameNonce(c, n), DeriveChunkAad(c.header, n, AAD_TAG_FINAL), body[4..4 + TAG_LEN])
      case None => None
      case Some(_) => Some(body[4 + TAG_LEN..])
  }

  /** The decoder on input, with n frames of total bytes already verified. */
  function Decode(s: Suite, c: Session, n: nat, total: nat, input: bytes): Verdict
    requires n <= MAX_STREAM_DATA_FRAMES
    decreases |input|
  {
    if input == [] then Verdict([], Broken)
    else if input[0] == FRAME_TYPE_DATA then
      match OpenData(s, c, n, total, input[1..])
      case None => Verdict([], Broken)
      case Some((chunk, rest)) =>
        if n < MAX_STREAM_DATA_FRAMES then
          var v := Decode(s, c, n + 1, total + |chunk|, rest);
          Verdict([chunk] + v.chunks, v.end)
        else Verdict([], Broken)
    else if input[0] == FRAME_TYPE_FINAL then
      match OpenFinal(s, c, n, input[1..])
      case None => Verdict([], Broken)
      case Some(rest) => Verdict([], if rest == [] then Complete else Trailing)
    else Verdict([], Broken)
  }

  /** What a run that seals a verdict's chunks again has written: its own FINAL stands once the old
      one verified, whatever came behind that. */
  function AsRun(v: Verdict): Verdict {
    Verdict(v.chunks, if v.end == Broken then Broken else Complete)
  }

  /** What a verdict says was present: its DATA frames, and FINAL unless broken. */
  function Verified(s: Suite, c: Session, n: nat, v: Verdict): bytes
    requires n + |v.chunks| <= MAX_STREAM_DATA_FRAMES
  {
    if v.end == Broken then DataFrames(s, c, n, v.chunks) else Encoded(s, c, n, v.chunks)
  }

  // ---- What a run seals ----

  function DataSeal(s: Suite, c: Session, n: nat, chunk: Chunk): Sealed
    requires n < MAX_STREAM_DATA_FRAMES
  {
    Sealed(c.key, FrameNonce(c, n), DeriveChunkAad(c.header, n, AAD_TAG_DATA), SealData(s, c, n, chunk))
  }

  function FinalSeal(s: Suite, c: Session, n: nat): Sealed
    requires n <= MAX_STREAM_DATA_FRAMES
  {
    Sealed(c.key, FrameNonce(c, n), DeriveChunkAad(c.header, n, AAD_TAG_FINAL), SealFinal(s, c, n))
  }

  function DataSeals(s: Suite, c: Session, chunks: seq<Chunk>): (log: seq<Sealed>)
    requires |chunks| <= MAX_STREAM_DATA_FRAMES
    ensures |log| == |chunks|
  {
    seq(|chunks|, i requires 0 <= i < |chunks| => DataSeal(s, c, i, chunks[i]))
  }

  /** Every use of the key that a verdict stands for: its DATA frames, and FINAL unless broken. */
  function Seals(s: Suite, c: Session, v: Verdict): seq<Sealed>
    requires |v.chunks| <= MAX_STREAM_DATA_FRAMES
  {
    DataSeals(s, c, v.chunks) + (if v.end == Broken then [] else [FinalSeal(s, c, |v.chunks|)])
  }

  /** Entry i of the log carries sequence number i, so one run never repeats a nonce:
      the uniqueness requirement of section 8 of NIST SP 800-38D, FINAL included. */
  lemma NoncesOfARunDistinct(s: Suite, c: Session, v: Verdict, i: nat, j: nat)
    requires |v.chunks| <= MAX_STREAM_DATA_FRAMES && i < j < |Seals(s, c, v)|
    ensures Seals(s, c, v)[i].key == Seals(s, c, v)[j].key == c.key
    ensures Seals(s, c, v)[i].nonce != Seals(s, c, v)[j].nonce
  {
    hide DeriveChunkNonce, SealData, SealFinal, DeriveChunkAad;
    NonceGuardsUnreachable(c.base, i);
    NonceGuardsUnreachable(c.base, j);
    ChunkNoncesDistinct(c.base, i, j);
  }

  lemma DataSealsAppend(s: Suite, c: Session, chunks: seq<Chunk>, chunk: Chunk)
    requires |chunks| < MAX_STREAM_DATA_FRAMES
    ensures DataSeals(s, c, chunks + [chunk]) == DataSeals(s, c, chunks) + [DataSeal(s, c, |chunks|, chunk)]
  {
    hide DataSeal;
  }

  // ---- Encoding then decoding ----

  lemma OpenPrefixedData(s: Suite, c: Session, n: nat, total: nat, chunk: Chunk, rest: bytes)
    requires n < MAX_STREAM_DATA_FRAMES && total + |chunk| <= MAX_STREAM_PLAINTEXT_SIZE
    ensures OpenData(s, c, n, total, Prefixed(SealData(s, c, n, chunk)) + rest) == Some((chunk, rest))
  {
    hide Seal, Open, FrameNonce, DeriveChunkAad;
    var ct := SealData(s, c, n, chunk);
    var body := Prefixed(ct) + rest;
    assert body[..4] == U32(|ct|) && body[4..4 + |ct|] == ct && body[4 + |ct|..] == rest;
    OpenSealed(s, c.key, FrameNonce(c, n), DeriveChunkAad(c.header, n, AAD_TAG_DATA), chunk);
  }

  lemma OpenPrefixedFinal(s: Suite, c: Session, n: nat, rest: bytes)
    requires n <= MAX_STREAM_DATA_FRAMES
    ensures OpenFinal(s, c, n, Prefixed(SealFinal(s, c, n)) + rest) == Some(rest)
  {
    hide Seal, Open, FrameNonce, DeriveChunkAad;
    var ct := SealFinal(s, c, n);
    var body := Prefixed(ct) + rest;
    assert body[..4] == U32(|ct|) && body[4..4 + |ct|] == ct && body[4 + |ct|..] == rest;
    OpenSealed(s, c.key, FrameNonce(c, n), DeriveChunkAad(c.header, n, AAD_TAG_FINAL), []);
  }

  /** The limits in numbers. A sealed text of any length, framed as DATA number n behind total bytes,
      opens exactly when at most 999,999 frames and 64 GiB less its own length came before it and
      it has between 1 byte and 9 MiB. */
  lemma DataOpensIffWithinLimits(s: Suite, c: Session, n: nat, total: nat, text: bytes, rest: bytes)
    requires n <= 1_000_000 && |text| + 16 < 0x1_0000_0000
    ensures var ct := Seal(s, c.key, FrameNonce(c, n), c.header + U32(n) + [0x44, 0x41, 0x54, 0x41], text);
            OpenData(s, c, n, total, Prefixed(ct) + rest)
              == if n < 1_000_000 && 1 <= |text| <= 9_437_184 && total + |text| <= 68_719_476_736
                 then Some((text, rest)) else None
  {
    hide Seal, Open, FrameNonce;
    var aad := DeriveChunkAad(c.header, n, AAD_TAG_DATA);
    var ct := Seal(s, c.key, FrameNonce(c, n), aad, text);
    PrefixedAt(ct, rest);
    OpenSealed(s, c.key, FrameNonce(c, n), aad, text);
  }

  /** The same for FINAL, which holds the empty text only. */
  lemma FinalOpensIffEmpty(s: Suite, c: Session, n: nat, text: bytes, rest: bytes)
    requires n <= 1_000_000 && |text| + 16 < 0x1_0000_0000
    ensures var ct := Seal(s, c.key, FrameNonce(c, n), c.header + U32(n) + [0x46, 0x49, 0x4E, 0x41, 0x4C], text);
            OpenFinal(s, c, n, Prefixed(ct) + rest) == if text == [] then Some(rest) else None
  {
    hide Seal, Open, FrameNonce;
    var aad := DeriveChunkAad(c.header, n, AAD_TAG_FINAL);
    var ct := Seal(s, c.key, FrameNonce(c, n), aad, text);
    PrefixedAt(ct, rest);
    OpenSealed(s, c.key, FrameNonce(c, n), aad, text);
  }

  /** What a sender may write, in numbers. */
  lemma FitsInNumbers(chunks: seq<Chunk>)
    ensures Fits(0, 0, chunks) <==> |chunks| <= 1_000_000 && |Join(chunks)| <= 68_719_476_736
    ensures forall i :: 0 <= i < |chunks| ==> 1 <= |chunks[i]| <= 9_437_184
  {
  }

  lemma TypeByte(kind: byte, body: bytes, rest: bytes)
    ensures ([kind] + body + rest)[0] == kind && ([kind] + body + rest)[1..] == body + rest
  {
  }

  /** One DATA frame within the limits decodes to its chunk, then decoding goes on behind it. */
  lemma DecodeDataFrame(s: Suite, c: Session, n: nat, total: nat, chunk: Chunk, more: bytes)
    requires n < MAX_STREAM_DATA_FRAMES && total + |chunk| <= MAX_STREAM_PLAINTEXT_SIZE
    ensures var v := Decode(s, c, n + 1, total + |chunk|, more);
            Decode(s, c, n, total, DataFrame(s, c, n, chunk) + more) == Verdict([chunk] + v.chunks, v.end)
  {
    hide OpenData, OpenFinal, Prefixed, SealData;
    OpenPrefixedData(s, c, n, total, chunk, more);
    TypeByte(FRAME_TYPE_DATA, Prefixed(SealData(s, c, n, chunk)), more);
  }

  /** DATA frames within the limits decode to their chunks, then decoding goes on behind them. */
  lemma {:induction false} DecodeDataFrames(s: Suite, c: Session, n: nat, total: nat, chunks: seq<Chunk>, rest: bytes)
    requires Fits(n, total, chunks)
    ensures var v := Decode(s, c, n + |chunks|, total + |Join(chunks)|, rest);
            Decode(s, c, n, total, DataFrames(s, c, n, chunks) + rest) == Verdict(chunks + v.chunks, v.end)
    decreases |chunks|
  {
    hide Decode, DataFrame;
    var v := Decode(s, c, n + |chunks|, total + |Join(chunks)|, rest);
    if chunks == [] {
      assert DataFrames(s, c, n, chunks) + rest == rest;
      assert chunks + v.chunks == v.chunks;
    } else {
      JoinSplit(chunks);
      var more := DataFrames(s, c, n + 1, chunks[1..]) + rest;
      DecodeDataFrame(s, c, n, total, chunks[0], more);
      assert DataFrames(s, c, n, chunks) + rest == DataFrame(s, c, n, chunks[0]) + more;
      DecodeDataFrames(s, c, n + 1, total + |chunks[0]|, chunks[1..], rest);
      assert [chunks[0]] + (chunks[1..] + v.chunks) == chunks + v.chunks;
    }
  }

  /** The decoder accepts an encoding, and tells whether anything follows it. */
  lemma DecodeEncoded(s: Suite, c: Session, n: nat, total: nat, chunks: seq<Chunk>, rest: bytes)
    requires Fits(n, total, chunks)
    ensures Decode(s, c, n, total, Encoded(s, c, n, chunks) + rest)
         == Verdict(chunks, if rest == [] then Complete else Trailing)
  {
    hide OpenData, OpenFinal, Prefixed, SealFinal, DataFrames;
    var m := n + |chunks|;
    var tail := FinalFrame(s, c, m) + rest;
    assert Encoded(s, c, n, chunks) + rest == DataFrames(s, c, n, chunks) + tail;
    DecodeDataFrames(s, c, n, total, chunks, tail);
    TypeByte(FRAME_TYPE_FINAL, Prefixed(SealFinal(s, c, m)), rest);
    OpenPrefixedFinal(s, c, m, rest);
    assert chunks + [] == chunks;
  }

  // ---- Decoding then encoding ----

  lemma OpenedDataIsPrefixed(s: Suite, c: Session, n: nat, total: nat, body: bytes)
    requires n <= MAX_STREAM_DATA_FRAMES && OpenData(s, c, n, total, body).Some?
    ensures n < MAX_STREAM_DATA_FRAMES
    ensures var (chunk, rest) := OpenData(s, c, n, total, body).value;
            && total + |chunk| <= MAX_STREAM_PLAINTEXT_SIZE
            && body == Prefixed(SealData(s, c, n, chunk)) + rest
  {
    hide Seal, Open, FrameNonce, DeriveChunkAad;
    var len := FromU32(body[..4]);
    OpenedIsSealed(s, c.key, FrameNonce(c, n), DeriveChunkAad(c.header, n, AAD_TAG_DATA), body[4..4 + len]);
    U32Canonical(body[..4]);
    assert body == body[..4] + body[4..4 + len] + body[4 + len..];
  }

  lemma OpenedFinalIsPrefixed(s: Suite, c: Session, n: nat, body: bytes)
    requires n <= MAX_STREAM_DATA_FRAMES && OpenFinal(s, c, n, body).Some?
    ensures body == Prefixed(SealFinal(s, c, n)) + OpenFinal(s, c, n, body).value
  {
    hide Seal, Open, FrameNonce, DeriveChunkAad;
    OpenedIsSealed(s, c.key, FrameNonce(c, n), DeriveChunkAad(c.header, n, AAD_TAG_FINAL), body[4..4 + TAG_LEN]);
    U32Canonical(body[..4]);
    assert body == body[..4] + body[4..4 + TAG_LEN] + body[4 + TAG_LEN..];
  }

  /** Whatever the decoder verified is within the limits and stands, byte for byte as the
      encoder would write it, at the start of the input; all of it when it accepts. */
  lemma {:induction false} DecodedIsEncoded(s: Suite, c: Session, n: nat, total: nat, input: bytes)
    requires n <= MAX_STREAM_DATA_FRAMES && total <= MAX_STREAM_PLAINTEXT_SIZE
    ensures var v := Decode(s, c, n, total, input);
            && Fits(n, total, v.chunks)
            && Verified(s, c, n, v) <= input
            && (v.end == Complete <==> v.end != Broken && Verified(s, c, n, v) == input)
    decreases |input|
  {
    hide OpenData, OpenFinal, Prefixed, SealData, SealFinal;
    if input != [] {
      assert input == [input[0]] + input[1..];
      if input[0] == FRAME_TYPE_DATA && OpenData(s, c, n, total, input[1..]).Some? {
        OpenedDataIsPrefixed(s, c, n, total, input[1..]);
        var (chunk, rest) := OpenData(s, c, n, total, input[1..]).value;
        DecodedIsEncoded(s, c, n + 1, total + |chunk|, rest);
        var v := Decode(s, c, n + 1, total + |chunk|, rest);
        VerifiedCons(s, c, n, chunk, v);
        JoinSplit([chunk] + v.chunks);
        PrefixBehind(DataFrame(s, c, n, chunk), Verified(s, c, n + 1, v), rest, input);
      } else if input[0] == FRAME_TYPE_FINAL && OpenFinal(s, c, n, input[1..]).Some? {
        OpenedFinalIsPrefixed(s, c, n, input[1..]);
        var rest := OpenFinal(s, c, n, input[1..]).value;
        assert Encoded(s, c, n, []) == FinalFrame(s, c, n);
        PrefixBehind(FinalFrame(s, c, n), [], rest, input);
      }
    }
  }

  lemma VerifiedCons(s: Suite, c: Session, n: nat, chunk: Chunk, v: Verdict)
    requires n + 1 + |v.chunks| <= MAX_STREAM_DATA_FRAMES
    ensures Verified(s, c, n, Verdict([chunk] + v.chunks, v.end))
         == DataFrame(s, c, n, chunk) + Verified(s, c, n + 1, v)
  {
    hide DataFrame, FinalFrame;
    var all := [chunk] + v.chunks;
    assert all[1..] == v.chunks;
    assert DataFrames(s, c, n, all) == DataFrame(s, c, n, chunk) + DataFrames(s, c, n + 1, v.chunks);
  }

  lemma PrefixBehind(a: bytes, b: bytes, rest: bytes, input: bytes)
    requires input == a + rest && b <= rest
    ensures a + b <= input && (a + b == input <==> b == rest)
  {
  }

  // ---- What the verdict means ----

  /** The decoder accepts exactly the encoder's image, with the one chunk list that encodes to it. */
  lemma AcceptsExactlyEncodings(s: Suite, c: Session, input: bytes, chunks: seq<Chunk>)
    ensures Decode(s, c, 0, 0, input) == Verdict(chunks, Complete)
       <==> Fits(0, 0, chunks) && input == Encoded(s, c, 0, chunks)
  {
    hide Decode, Encoded, DataFrames;
    DecodedIsEncoded(s, c, 0, 0, input);
    if Fits(0, 0, chunks) {
      DecodeEncoded(s, c, 0, 0, chunks, []);
      assert Encoded(s, c, 0, chunks) + [] == Encoded(s, c, 0, chunks);
    }
  }

  /** No accepted frame sequence is a proper prefix of an accepted one. */
  lemma AcceptedPrefixFree(s: Suite, c: Session, a: bytes, b: bytes)
    requires Decode(s, c, 0, 0, a).end == Complete && a < b
    ensures Decode(s, c, 0, 0, b).end != Complete
  {
    hide Decode, Encoded, DataFrames;
    var chunks := Decode(s, c, 0, 0, a).chunks;
    DecodedIsEncoded(s, c, 0, 0, a);
    DecodeEncoded(s, c, 0, 0, chunks, b[|a|..]);
    assert a + b[|a|..] == b;
  }

  const FRAME_OVERHEAD: nat := 5 + TAG_LEN

  /** Framing costs 21 bytes a frame, FINAL included, whatever the session. */
  lemma {:induction false} DataFramesLength(s: Suite, c: Session, n: nat, chunks: seq<Chunk>)
    requires n + |chunks| <= MAX_STREAM_DATA_FRAMES
    ensures |DataFrames(s, c, n, chunks)| == |Join(chunks)| + FRAME_OVERHEAD * |chunks|
    decreases |chunks|
  {
    if chunks != [] {
      JoinSplit(chunks);
      DataFramesLength(s, c, n + 1, chunks[1..]);
    }
  }

  /** Appending one chunk appends one DATA frame. */
  lemma {:induction false} DataFramesAppend(s: Suite, c: Session, n: nat, chunks: seq<Chunk>, chunk: Chunk)
    requires n + |chunks| < MAX_STREAM_DATA_FRAMES
    ensures DataFrames(s, c, n, chunks + [chunk])
         == DataFrames(s, c, n, chunks) + DataFrame(s, c, n + |chunks|, chunk)
    decreases |chunks|
  {
    hide DataFrame;
    if chunks == [] {
      assert [] + [chunk] == [chunk];
      assert DataFrames(s, c, n, [chunk]) == DataFrame(s, c, n, chunk) + DataFrames(s, c, n + 1, []);
    } else {
      assert (chunks + [chunk])[1..] == chunks[1..] + [chunk];
      DataFramesAppend(s, c, n + 1, chunks[1..], chunk);
    }
  }

  // ---- Migration ----

  lemma NothingIsBroken(s: Suite, c: Session, n: nat, total: nat)
    requires n <= MAX_STREAM_DATA_FRAMES
    ensures Decode(s, c, n, total, []) == Verdict([], Broken)
  {
  }

  /** Whatever a run wrote, finished or broken off, decodes to what it meant. */
  lemma DecodeVerified(s: Suite, c: Session, v: Verdict)
    requires Fits(0, 0, v.chunks) && v.end != Trailing
    ensures Decode(s, c, 0, 0, Verified(s, c, 0, v)) == v
  {
    hide Decode, DataFrames, Encoded;
    if v.end == Broken {
      DecodeDataFrames(s, c, 0, 0, v.chunks, []);
      NothingIsBroken(s, c, |v.chunks|, |Join(v.chunks)|);
      assert DataFrames(s, c, 0, v.chunks) + [] == DataFrames(s, c, 0, v.chunks);
      assert v.chunks + [] == v.chunks;
    } else {
      DecodeEncoded(s, c, 0, 0, v.chunks, []);
      assert Encoded(s, c, 0, v.chunks) + [] == Encoded(s, c, 0, v.chunks);
    }
  }

  lemma VerifiedIgnoresTrailing(s: Suite, c: Session, v: Verdict)
    requires |v.chunks| <= MAX_STREAM_DATA_FRAMES
    ensures Verified(s, c, 0, v) == Verified(s, c, 0, AsRun(v))
  {
  }

  /** What migration writes behind the new header decodes, frame by frame, to the chunks the
      old stream decoded to, has the length of the part it verified, and ends in a FINAL
      exactly when the old FINAL verified, trailing data or not. */
  lemma MigrationRefinesDecoding(s: Suite, source: Session, target: Session, input: bytes)
    ensures var v := Decode(s, source, 0, 0, input);
            && Fits(0, 0, v.chunks)
            && Decode(s, target, 0, 0, Verified(s, target, 0, v))
                 == AsRun(v)
            && |Verified(s, target, 0, v)| == |Verified(s, source, 0, v)| <= |input|
  {
    hide Decode, DataFrames, FinalFrame;
    var v := Decode(s, source, 0, 0, input);
    DecodedIsEncoded(s, source, 0, 0, input);
    DataFramesLength(s, source, 0, v.chunks);
    DataFramesLength(s, target, 0, v.chunks);
    VerifiedIgnoresTrailing(s, target, v);
    DecodeVerified(s, target, AsRun(v));
  }

  /** The old FINAL verified exactly when some beginning of the input is an acceptable stream. */
  lemma FinalVerifiedIffPrefixAccepted(s: Suite, c: Session, input: bytes)
    ensures Decode(s, c, 0, 0, input).end != Broken
       <==> exists k: nat :: k <= |input| && Decode(s, c, 0, 0, input[..k]).end == Complete
  {
    hide Decode, Encoded;
    var v := Decode(s, c, 0, 0, input);
    DecodedIsEncoded(s, c, 0, 0, input);
    if v.end != Broken {
      var e := Encoded(s, c, 0, v.chunks);
      AcceptsExactlyEncodings(s, c, e, v.chunks);
      assert input[..|e|] == e;
    }
    forall k: nat | k <= |input| && Decode(s, c, 0, 0, input[..k]).end == Complete ensures v.end != Broken {
      var chunks := Decode(s, c, 0, 0, input[..k]).chunks;
      DecodedIsEncoded(s, c, 0, 0, input[..k]);
      DecodeEncoded(s, c, 0, 0, chunks, input[k..]);
      assert input[..k] + input[k..] == input;
    }
  }
}
