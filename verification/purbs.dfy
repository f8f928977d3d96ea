/** The data model of a PURB and its header. Group elements, scalars and key
    pairs are opaque byte strings; the per-suite capability bundle (group,
    hashing, randomness, encoding) is represented only by the suite's name. */
module Purbs {
  import opened Wrappers

  type byte = bv8
  type Bytes = seq<byte>

  /** Public placement data of one suite: the candidate cornerstone start
      offsets, in order, and the length in bytes of that suite's cornerstone. */
  datatype SuiteInfo = SuiteInfo(allowedPositions: seq<nat>, cornerstoneLength: nat)

  /** Suite name to placement data. */
  type SuiteInfoMap = map<string, SuiteInfo>

  datatype KeyPair = KeyPair(public: Bytes, private: Bytes)

  /** Someone a PURB is encrypted for. The private key is present only on the
      decoder's own side; the encoder holds None. */
  datatype Recipient = Recipient(suiteName: string, publicKey: Bytes, privateKey: Option<Bytes>)

  /** The sender's ephemeral key for one suite. `bytes` caches the (randomised)
      uniform encoding of the public key once it has been produced. */
  datatype Cornerstone = Cornerstone(suiteName: string, keyPair: KeyPair, offset: nat, bytes: Option<Bytes>)

  /** The data one recipient needs to find the payload key; offset is its first
      byte in the header. */
  datatype EntryPoint = EntryPoint(recipient: Recipient, sharedSecret: Bytes, offset: nat)

  /** At most one cornerstone per suite and an ordered list of entry points per
      suite, all entry points sharing the one entryPointLength. */
  datatype Header = Header(
    entryPoints: map<string, seq<EntryPoint>>,
    cornerstones: map<string, Cornerstone>,
    length: nat,
    entryPointLength: nat)
  {
    /** Every cornerstone and every entry point is filed under its own suite's name. */
    predicate WellKeyed() {
      && (forall name :: name in cornerstones ==> cornerstones[name].suiteName == name)
      && (forall name, e :: name in entryPoints && e in entryPoints[name] ==> e.recipient.suiteName == name)
    }
  }

  /** How entry points wrap the payload key: plain stream encryption or AEAD. */
  datatype KeyWrapType = Stream | Aead

  datatype Purb = Purb(
    nonce: Bytes,
    header: Header,
    payload: Bytes,
    payloadKey: Bytes,
    isVerbose: bool,
    recipients: seq<Recipient>,
    infoMap: SuiteInfoMap,
    symmKeyWrapType: KeyWrapType,
    originalData: Bytes)

  /** The recipient as the encoder knows it: the same suite and public key and
      no private key. */
  function EncoderView(r: Recipient): (v: Recipient)
    ensures v.privateKey.None?
    ensures v.suiteName == r.suiteName && v.publicKey == r.publicKey
  {
    r.(privateKey := None)
  }

  /** The encoder's view forgets the private key and nothing else: two
      recipients look the same to the encoder exactly when they share suite and
      public key, whatever private keys they hold. */
  lemma EncoderViewForgetsOnlyPrivateKey(r1: Recipient, r2: Recipient)
    ensures EncoderView(r1) == EncoderView(r2) <==> r1.suiteName == r2.suiteName && r1.publicKey == r2.publicKey
  {
  }

  /** The cornerstone of a suite in a well-keyed header, if the suite has one. */
  function CornerstoneOf(h: Header, name: string): (c: Option<Cornerstone>)
    requires h.WellKeyed()
    ensures c.Some? <==> name in h.cornerstones
    ensures c.Some? ==> c.value == h.cornerstones[name] && c.value.suiteName == name
  {
    if name in h.cornerstones then Some(h.cornerstones[name]) else None
  }

  /** Reads a cornerstone's encoding. `marshalled` is what marshalling the key pair
      would give now (it differs from call to call); it is used only when no
      encoding has been cached yet, and is then cached. */
  function ReadBytes(c: Cornerstone, marshalled: Bytes): (r: (Bytes, Cornerstone))
    ensures r.1.bytes == Some(r.0)
    ensures c.bytes.Some? ==> r == (c.bytes.value, c)
    ensures c.bytes.None? ==> r.0 == marshalled
    ensures r.1.(bytes := c.bytes) == c
  {
    match c.bytes
    case Some(b) => (b, c)
    case None => (marshalled, c.(bytes := Some(marshalled)))
  }

  /** The encoding is produced once: a second read returns the bytes of the
      first, whatever a new marshalling would have produced. */
  lemma ReadBytesStable(c: Cornerstone, encoding1: Bytes, encoding2: Bytes)
    ensures ReadBytes(ReadBytes(c, encoding1).1, encoding2) == ReadBytes(c, encoding1)
  {
  }

  /** Reads the encoding of a suite's cornerstone through the header. The Go
      header holds cornerstones by pointer, so the cached encoding is seen by
      every later reader of the header: here the header is returned with that
      cornerstone replaced and everything else as it was. */
  function ReadCornerstoneBytes(h: Header, name: string, marshalled: Bytes): (r: Option<(Bytes, Header)>)
    requires h.WellKeyed()
    ensures r.Some? <==> name in h.cornerstones
    ensures r.Some? ==> r.value.1.WellKeyed()
    ensures r.Some? ==> r.value.1.(cornerstones := h.cornerstones) == h
    ensures r.Some? ==> r.value.1.cornerstones.Keys == h.cornerstones.Keys
    ensures r.Some? ==> r.value.1.cornerstones[name].bytes == Some(r.value.0)
    ensures r.Some? ==> r.value.1.cornerstones[name].(bytes := h.cornerstones[name].bytes) == h.cornerstones[name]
    ensures r.Some? ==> forall other :: other in h.cornerstones && other != name ==>
      r.value.1.cornerstones[other] == h.cornerstones[other]
    ensures r.Some? ==> (h.cornerstones[name].bytes.Some? ==> r.value == (h.cornerstones[name].bytes.value, h))
    ensures r.Some? ==> (h.cornerstones[name].bytes.None? ==> r.value.0 == marshalled)
  {
    if name !in h.cornerstones then None
    else
      var (b, c) := ReadBytes(h.cornerstones[name], marshalled);
      var h1 := h.(cornerstones := h.cornerstones[name := c]);
      assert h.cornerstones[name].bytes.Some? ==> h1 == h by {
        if h.cornerstones[name].bytes.Some? {
          assert h.cornerstones[name := c] == h.cornerstones;
        }
      }
      Some((b, h1))
  }

  /** Reading through the header twice gives the first read's bytes and header,
      whatever the second marshalling would have produced. */
  lemma ReadCornerstoneBytesStable(h: Header, name: string, encoding1: Bytes, encoding2: Bytes)
    requires h.WellKeyed() && name in h.cornerstones
    ensures var first := ReadCornerstoneBytes(h, name, encoding1).value;
      ReadCornerstoneBytes(first.1, name, encoding2) == Some(first)
  {
    var first := ReadCornerstoneBytes(h, name, encoding1).value;
    assert first.1.cornerstones[name].bytes == Some(first.0);
  }
}
