// Key-establishment sources as KEMs (cryptoflex/sources.py).
module Sources {
  import opened Wrappers
  import opened Bytes

  /** Randomness one call draws from the operating system. */
  type Seed = s: bytes | |s| == 64 witness seq(64, _ => 0)

  /** An opaque private key handle. */
  datatype Handle = Handle(state: bytes)

  datatype Encapsulation = Encapsulation(ciphertext: bytes, sharedSecret: bytes)

  /** One source: its primitives are uninterpreted functions of their inputs
      and their randomness; None stands for whatever exception they raise. */
  datatype Source = Source(
    algorithmId: string,
    isAvailable: bool,
    generateKeypair: Seed -> Option<(bytes, Handle)>,
    encapsulate: (bytes, Seed) -> Option<Encapsulation>,
    decapsulate: (Handle, bytes) -> Option<bytes>,
    serializePrivate: Handle -> Option<bytes>,
    deserializePrivate: bytes -> Option<Handle>)

  /** Whatever is encapsulated to pub, handle recovers. */
  ghost predicate Matches(s: Source, pub: bytes, handle: Handle) {
    forall seed: Seed :: s.encapsulate(pub, seed).Some? ==>
      s.decapsulate(handle, s.encapsulate(pub, seed).value.ciphertext)
        == Some(s.encapsulate(pub, seed).value.sharedSecret)
  }

  /** The law of a KEM: its key pairs match. */
  ghost predicate Correct(s: Source) {
    forall seed: Seed :: s.generateKeypair(seed).Some? ==>
      Matches(s, s.generateKeypair(seed).value.0, s.generateKeypair(seed).value.1)
  }

  /** Byte-wise exclusive or, as long as the shorter operand. */
  function XorZip(a: bytes, b: bytes): (x: bytes)
    ensures |x| == if |a| < |b| then |a| else |b|
  {
    seq<byte>(if |a| < |b| then |a| else |b|, i requires 0 <= i < |a| && i < |b| => Xor(a[i], b[i]))
  }

  lemma XorZipInvolutive(a: bytes, b: bytes)
    requires |a| <= |b|
    ensures XorZip(XorZip(a, b), b) == a
  {
    forall i | 0 <= i < |a| ensures XorZip(XorZip(a, b), b)[i] == a[i] {
      XorInvolutive(a[i], b[i]);
    }
  }

  /** The test-only source: the "public key" is the private key. */
  function MockSource(): Source {
    Source("mock-pqc-test-only", true,
      (seed: Seed) => Some((seed[..32], Handle(seed[..32]))),
      (pub: bytes, seed: Seed) => Some(Encapsulation(XorZip(seed[..32], pub), seed[..32])),
      (h: Handle, ct: bytes) => Some(XorZip(ct, h.state)),
      (h: Handle) => Some(h.state),
      (data: bytes) => Some(Handle(data)))
  }

  /** What the mock source sends: the 32 secret bytes, each bit flipped where the peer's key has
      one set. */
  lemma MockCiphertext(pub: bytes, seed: Seed)
    requires |pub| == 32
    ensures var enc := MockSource().encapsulate(pub, seed).value;
            && enc.sharedSecret == seed[..32] && |enc.ciphertext| == 32
            && forall i, j :: 0 <= i < 32 && 0 <= j < 8 ==>
                 (Bit(enc.ciphertext[i], j) <==> Bit(seed[i], j) != Bit(pub[i], j))
  {
    hide Bit;
    var enc := MockSource().encapsulate(pub, seed).value;
    forall i, j | 0 <= i < 32 && 0 <= j < 8
      ensures Bit(enc.ciphertext[i], j) <==> Bit(seed[i], j) != Bit(pub[i], j)
    {
      XorBit(8, seed[i], pub[i], j);
    }
  }

  /** The KEM law is satisfiable: the mock source meets it. */
  lemma MockSourceCorrect()
    ensures Correct(MockSource())
  {
    var m := MockSource();
    forall ks: Seed ensures Matches(m, m.generateKeypair(ks).value.0, m.generateKeypair(ks).value.1) {
      var (pub, handle) := m.generateKeypair(ks).value;
      forall es: Seed ensures m.decapsulate(handle, m.encapsulate(pub, es).value.ciphertext)
                           == Some(m.encapsulate(pub, es).value.sharedSecret) {
        XorZipInvolutive(es[..32], pub);
      }
    }
  }
}
