/** Which containers a reader accepts under a given content key (crates/hide-object/src/lib.rs). */
module ContainerExact {
  import opened Aead
  import opened Bytes
  import opened Containers
  import opened ContainerTheorems
  import opened ContainerWriting
  import opened Extensions
  import opened Hashing
  import opened HeaderCodec
  import opened Payloads
  import opened PayloadTheorems
  import opened Results
  import opened Signing
  import opened Transcripts
  import M = MetadataCodec

  // ---------------------------------------------------------------- what a reader relies on

  /** The content key a reader gets out of a container's front. */
  function KeyOf(pr: Primitives, secret: Bytes, s: Bytes): Option<Bytes> {
    if |s| < PREAMBLE_LEN then None
    else
      match DecodePreamble(s[..PREAMBLE_LEN])
      case Err(_) => None
      case Ok(p) =>
        if |s| < PREAMBLE_LEN + p.headerLen then None
        else
          match Unlock(pr, secret, s[..PREAMBLE_LEN], p, s[PREAMBLE_LEN..][..p.headerLen])
          case Err(_) => None
          case Ok(unlocked) => Some(unlocked.2)
  }

  /** What the MAC in a container's header covers, and that MAC. */
  function CoveredBy(s: Bytes): Result<(Bytes, ProtectedHeader, Digest), FormatError> {
    if |s| < PREAMBLE_LEN then Err(InvalidContainer)
    else
      var p :- DecodePreamble(s[..PREAMBLE_LEN]);
      if |s| < PREAMBLE_LEN + p.headerLen then Err(MalformedHeader)
      else
        var (protected, mac) :- DecodedOuter(s[PREAMBLE_LEN..][..p.headerLen]);
        var h :- Decoded(protected);
        Ok((s[..PREAMBLE_LEN] + protected, h, mac))
  }

  /** A MAC that checks under the content key, over something its writer did not write. */
  predicate HeaderForged(pr: Primitives, cek: Bytes, s: Bytes, covered: Bytes) {
    && CoveredBy(s).Ok?
    && var (other, h, mac) := CoveredBy(s).value;
       other != covered && mac == pr.mac(HeaderKey(pr, cek, h.objectId), other)
  }

  lemma {:induction false} RecoveredChecks(
      pr: Primitives, secret: Bytes, id: Digest, stanzas: seq<Stanza>, covered: Bytes, mac: Digest)
    requires Recovered(pr, secret, id, stanzas, covered, mac).Some?
    ensures mac == pr.mac(HeaderKey(pr, Recovered(pr, secret, id, stanzas, covered, mac).value, id), covered)
    decreases |stanzas|
  {
    var front := stanzas[..|stanzas| - 1];
    if Recovered(pr, secret, id, front, covered, mac).Some? {
      RecoveredChecks(pr, secret, id, front, covered, mac);
    }
  }

  /** Everything a container that opens consists of. */
  lemma OpenedParts(pr: Primitives, secret: Bytes, s: Bytes)
    requires Opened(pr, secret, s).Ok?
    ensures KeyOf(pr, secret, s).Some? && CoveredBy(s).Ok?
    ensures var (u, payload) := Opened(pr, secret, s).value;
            var cek, (covered, h, mac) := KeyOf(pr, secret, s).value, CoveredBy(s).value;
            var n := PREAMBLE_LEN + u.preamble.headerLen;
            && |covered| >= PREAMBLE_LEN && n + 16 <= |s|
            && var protected, salt := covered[PREAMBLE_LEN..], s[n..][..16];
               && covered[..PREAMBLE_LEN] == s[..PREAMBLE_LEN] && h == u.header && payload == s[n..][16..]
               && DecodePreamble(s[..PREAMBLE_LEN]) == Ok(u.preamble)
               && |protected| < 0x2000_0000_0000_0000
               && DecodedOuter(s[PREAMBLE_LEN..][..u.preamble.headerLen]) == Ok((protected, mac))
               && mac == pr.mac(HeaderKey(pr, cek, h.objectId), covered)
               && Decoded(protected) == Ok(h)
               && u.stream == PayloadObject(pr, cek, h.objectId, salt, protected)
  {
    hide Decoded, DecodedOuter, Recovered, OpenMetadata, M.Decoded, LegacyAdmitted, DecodePreamble, HeaderKey;
    var front, s1 := s[..PREAMBLE_LEN], s[PREAMBLE_LEN..];
    var p := DecodePreamble(front).value;
    var (protected, mac) := DecodedOuter(s1[..p.headerLen]).value;
    var h := Decoded(protected).value;
    RecoveredChecks(pr, secret, h.objectId, h.recipients, front + protected, mac);
    assert (front + protected)[PREAMBLE_LEN..] == protected && (front + protected)[..PREAMBLE_LEN] == front;
    assert s[PREAMBLE_LEN + p.headerLen..] == s1[p.headerLen..];
  }

  // ---------------------------------------------------------------- nothing else is accepted

  /** Under the content key, nothing opens but the records of this payload. */
  ghost predicate IdealPayload(pr: Primitives, material: Material, protected: Bytes, plain: Bytes) {
    && Ideal(pr.cipher, StreamUnder(pr, material, protected).key, SealedBy(StreamUnder(pr, material, protected), plain))
    && forall salt: Salt :: salt != material.salt ==>
         Ideal(pr.cipher, PayloadObject(pr, material.cek, material.id, salt, protected).key, iset{})
  }

  lemma NothingOpens(o: Object, s: Bytes)
    requires Ideal(o.cipher, o.key, iset{})
    ensures Unstream(o, s, 0).verdict != Pass
  {
    hide Unstream, RecordNonce, ChunkAad, FromBigEndian;
    UnstreamStep(o, s, 0);
  }

  /** The same front, salt and payload make the same container. */
  lemma Reassembled(s: Bytes, n: nat, front: Bytes)
    requires n + 16 <= |s| && s[..n] == front
    ensures s == front + (s[n..][..16] + s[n..][16..])
  {
  }

  /** What opened has this front, and a payload under this content key behind its salt. */
  ghost predicate WearsFront(pr: Primitives, s: Bytes, u: Unlocked, payload: Bytes, material: Material,
                             h: ProtectedHeader,
                       front: Bytes, protected: Bytes)
  {
    var n := PREAMBLE_LEN + u.preamble.headerLen;
    && n + 16 <= |s| && s[..n] == front && u.header == h && payload == s[n..][16..]
    && u.stream == PayloadObject(pr, material.cek, material.id, s[n..][..16], protected)
  }

  /** Headers under one MAC are one header. */
  lemma SameFront(pr: Primitives, secret: Bytes, s: Bytes, material: Material, h: ProtectedHeader, flags: byte)
    requires Opened(pr, secret, s).Ok? && KeyOf(pr, secret, s) == Some(material.cek)
    requires Front(pr, material, h, flags).Ok? && h.objectId == material.id
    ensures var (front, protected) := Front(pr, material, h, flags).value;
            && |front| >= PREAMBLE_LEN
            && var (u, payload) := Opened(pr, secret, s).value;
               || HeaderForged(pr, material.cek, s, front[..PREAMBLE_LEN] + protected)
               || WearsFront(pr, s, u, payload, material, h, front, protected)
  {
    hide Front, Encoded, Decoded, DecodedOuter, EncodedOuter, Opened, KeyOf, CoveredBy, DecodePreamble, Preamble.Encode,
      HeaderKey, PayloadObject;
    var (front, protected) := Front(pr, material, h, flags).value;
    var p, outer, mac := FrontRoundTrip(pr, material, h, flags);
    OpenedParts(pr, secret, s);
    var (u, payload) := Opened(pr, secret, s).value;
    var (covered, _, mac') := CoveredBy(s).value;
    assert front[..PREAMBLE_LEN] == p.Encode();
    if covered == p.Encode() + protected {
      var n := PREAMBLE_LEN + u.preamble.headerLen;
      assert covered[PREAMBLE_LEN..] == protected && covered[..PREAMBLE_LEN] == p.Encode();
      assert mac' == mac && u.preamble == p;
      OuterRoundTrip(protected, mac, outer);
      OuterRoundTrip(protected, mac, s[PREAMBLE_LEN..][..p.headerLen]);
      assert s[..n] == s[..PREAMBLE_LEN] + s[PREAMBLE_LEN..][..p.headerLen];
    }
  }

  /**
   A container accepted under the content key of one that was written is that one, byte for byte, or
   its header carries a forged MAC.
   */
  lemma AcceptedIsWritten(pr: Primitives, secret: Bytes, s: Bytes, m: M.Metadata, material: Material,
                          recipients: seq<Stanza>, author: Option<(Author, Placement)>, plain: Bytes)
    requires Tagged(pr.cipher) && Encrypted(pr, m, material, recipients, author, plain).Ok?
    requires var made := Prepare(pr, m, material, recipients, author, plain).value;
             IdealPayload(pr, material, made.protected, plain)
    requires Decrypted(pr, secret, s).0.Ok? && KeyOf(pr, secret, s) == Some(material.cek)
    ensures var made := Prepare(pr, m, material, recipients, author, plain).value;
            || s == Encrypted(pr, m, material, recipients, author, plain).value
            || (|made.front| >= PREAMBLE_LEN
                && HeaderForged(pr, material.cek, s, made.front[..PREAMBLE_LEN] + made.protected))
  {
    hide Prepare, Front, Opened, KeyOf, HeaderForged, Unstream, Stream, Ideal, SealedBy, PayloadObject, FlagsOf,
      VerifiedSigner,
      Tagged;
    var made := Prepare(pr, m, material, recipients, author, plain).value;
    PreparedParts(pr, m, material, recipients, author, plain);
    SameFront(pr, secret, s, material, made.header, FlagsOf(author));
    var (u, payload) := Opened(pr, secret, s).value;
    var n := PREAMBLE_LEN + u.preamble.headerLen;
    if WearsFront(pr, s, u, payload, material, made.header, made.front, made.protected) {
      CipherOf(pr, material.cek, material.id, s[n..][..16], made.protected);
      PassesUnstream(pr, secret, s);
      if s[n..][..16] != material.salt {
        NothingOpens(u.stream, payload);
      } else {
        StreamExact(u.stream, plain, payload);
        Reassembled(s, n, made.front);
      }
    }
  }

  lemma CipherOf(pr: Primitives, cek: Bytes, id: Digest, salt: Salt, protected: Bytes)
    ensures PayloadObject(pr, cek, id, salt, protected).cipher == pr.cipher
  {
  }

  lemma PassesUnstream(pr: Primitives, secret: Bytes, s: Bytes)
    requires Tagged(pr.cipher) && Decrypted(pr, secret, s).0.Ok?
    ensures Opened(pr, secret, s).Ok?
    ensures var (u, payload) := Opened(pr, secret, s).value;
            Unstream(u.stream, payload, 0).verdict == Pass
  {
    hide Opened, Unstream, VerifiedSigner, Tagged;
    OpenedCountable(pr, secret, s);
  }

  /** The content key a recipient gets out of what was written. */
  lemma WrittenKey(pr: Primitives, secret: Bytes, material: Material, m: M.Metadata, h: ProtectedHeader, flags: byte,
                   payload: Bytes)
    requires Tagged(pr.cipher) && OpensHonestly(pr, secret, material, h.recipients)
    requires IsRecipient(pr, secret, material, h.recipients)
    requires h.objectId == material.id && Reveals(pr, material, h, m) && Front(pr, material, h, flags).Ok?
    ensures KeyOf(pr, secret, Front(pr, material, h, flags).value.0 + (material.salt + payload)) == Some(material.cek)
  {
    hide Front, Unlock, DecodePreamble, IsRecipient, OpensHonestly, Preamble.Encode, Tagged, Reveals, Encoded;
    var p, outer := UnlockWritten(pr, secret, material, m, h, flags);
    WrittenSlices(p.Encode(), outer, material.salt, payload);
  }

  /**
   To a recipient of a container whose metadata bore no signature of its own: short of a forged MAC,
   what is accepted under its content key is that container and no other.
   */
  lemma AcceptedExactly(pr: Primitives, secret: Bytes, s: Bytes, m: M.Metadata, material: Material,
                        recipients: seq<Stanza>, author: Option<(Author, Placement)>, signed: iset<Bytes>, plain: Bytes)
    requires OpensOwn(pr, m, material, recipients, author, plain) && OpensHonestly(pr, secret, material, recipients)
    requires IsRecipient(pr, secret, material, recipients) && SignerVerdict(m, author).Ok?
    requires author.Some? ==> Signs(pr, author.value.0, signed, Intended(m, material, recipients, plain))
    requires Encrypted(pr, m, material, recipients, author, plain).Ok?
    requires var made := Prepare(pr, m, material, recipients, author, plain).value;
             IdealPayload(pr, material, made.protected, plain)
    ensures var made := Prepare(pr, m, material, recipients, author, plain).value;
            && |made.front| >= PREAMBLE_LEN
            && (HeaderForged(pr, material.cek, s, made.front[..PREAMBLE_LEN] + made.protected)
                || (Decrypted(pr, secret, s).0.Ok? && KeyOf(pr, secret, s) == Some(material.cek)
                    <==> s == Encrypted(pr, m, material, recipients, author, plain).value))
  {
    hide Prepare, Front, Decrypted, KeyOf, HeaderForged, Stream, Ideal, SealedBy, PayloadObject, FlagsOf, SignerVerdict,
      IsRecipient, OpensHonestly, Reveals, Faithful, Signs, Authored, Tagged;
    var made := Prepare(pr, m, material, recipients, author, plain).value;
    var written := Encrypted(pr, m, material, recipients, author, plain).value;
    PreparedParts(pr, m, material, recipients, author, plain);
    FrontIsLong(pr, material, made.header, FlagsOf(author));
    ContainerRoundTrip(pr, secret, m, material, recipients, author, signed, plain);
    WrittenKey(pr, secret, material, made.metadata, made.header, FlagsOf(author),
               Stream(StreamUnder(pr, material, made.protected), plain, 0));
    if Decrypted(pr, secret, s).0.Ok? && KeyOf(pr, secret, s) == Some(material.cek) {
      AcceptedIsWritten(pr, secret, s, m, material, recipients, author, plain);
    }
  }

  lemma FrontIsLong(pr: Primitives, material: Material, h: ProtectedHeader, flags: byte)
    requires Front(pr, material, h, flags).Ok?
    ensures |Front(pr, material, h, flags).value.0| >= PREAMBLE_LEN
  {
    hide Encoded, HeaderKey, PutOuter;
  }

  // ---------------------------------------------------------------- such keys exist

  function Joining(): (Bytes, Bytes, Bytes) -> Bytes {
    (key, salt, info) => salt + info
  }

  function Constant(): (Bytes, Bytes) -> Digest {
    (key, message) => Zeros(32)
  }

  /** Keys that show what they are derived from; every wrapping opens. */
  ghost function BookWorld(crypto: Crypto, cek: Bytes, book: Bytes -> iset<(Nonce, Bytes, Bytes)>): Primitives {
    Primitives(crypto, BookCipher(book), Joining(), Constant(), (secret, id, encapsulation, wrappedCek) => Some(cek))
  }

  /** What is prepared depends on how the cipher seals, not on what it opens. */
  lemma SamePrepared(a: Primitives, b: Primitives, m: M.Metadata, material: Material, recipients: seq<Stanza>,
                     author: Option<(Author, Placement)>, plain: Bytes)
    requires Tagged(a.cipher) && Tagged(b.cipher)
    requires |recipients| <= MAX_RECIPIENTS && (author.Some? ==> |plain| <= MAX_SIGNED_INPUT)
    requires a.crypto == b.crypto && a.derive == b.derive && a.mac == b.mac && a.cipher.seal == b.cipher.seal
    ensures Prepare(a, m, material, recipients, author, plain) == Prepare(b, m, material, recipients, author, plain)
  {
    hide Encoded, EncodedOuter, FromParts, M.Encoded, M.SigningBase, Preamble.Encode, Transcript, Bind, Tagged;
  }

  /** What a container seals under each key, given its header and metadata. */
  ghost function BookOf(o: Object, metadataKey: Bytes, aad: Bytes, metadata: Bytes, plain: Bytes)
    : Bytes -> iset<(Nonce, Bytes, Bytes)>
  {
    key => if key == o.key then SealedBy(o, plain)
           else if key == metadataKey then iset{(Zeros(12), aad, metadata)} else iset{}
  }

  lemma KeysApart(pr: Primitives, material: Material, salt: Salt, protected: Bytes)
    requires pr.derive == Joining()
    ensures StreamUnder(pr, material, protected).key != MetadataKey(pr, material.cek, material.id)
    ensures PayloadObject(pr, material.cek, material.id, salt, protected).key
            != MetadataKey(pr, material.cek, material.id)
    ensures salt != material.salt ==>
              PayloadObject(pr, material.cek, material.id, salt, protected).key
                != StreamUnder(pr, material, protected).key
  {
    var a := PayloadObject(pr, material.cek, material.id, salt, protected).key;
    var b := StreamUnder(pr, material, protected).key;
    assert |a| == |b| == 64 && |MetadataKey(pr, material.cek, material.id)| == 49;
    assert a[..16] == salt && b[..16] == material.salt;
  }

  /** The book holds for the stream of this container whatever its cipher opens. */
  lemma BookIdealPayload(pr: Primitives, material: Material, protected: Bytes, o: Object, aad: Bytes, metadata: Bytes,
                         plain: Bytes)
    requires pr.derive == Joining() && o.key == StreamUnder(pr, material, protected).key
    requires o.id == material.id && o.headerHash == pr.crypto.hash(protected)
    requires pr.cipher == BookCipher(BookOf(o, MetadataKey(pr, material.cek, material.id), aad, metadata, plain))
    ensures IdealPayload(pr, material, protected, plain)
    ensures Ideal(pr.cipher, MetadataKey(pr, material.cek, material.id), iset{(Zeros(12), aad, metadata)})
  {
    hide BookCipher, Ideal, MetadataKey, Joining;
    var book := BookOf(o, MetadataKey(pr, material.cek, material.id), aad, metadata, plain);
    BookIsIdeal(book, o.key);
    BookIsIdeal(book, MetadataKey(pr, material.cek, material.id));
    KeysApart(pr, material, material.salt, protected);
    SameSealed(o, StreamUnder(pr, material, protected), plain);
    forall salt: Salt | salt != material.salt
      ensures Ideal(pr.cipher, PayloadObject(pr, material.cek, material.id, salt, protected).key, iset{})
    {
      KeysApart(pr, material, salt, protected);
      BookIsIdeal(book, PayloadObject(pr, material.cek, material.id, salt, protected).key);
    }
  }

  lemma SameSealed(a: Object, b: Object, plain: Bytes)
    requires a.id == b.id && a.headerHash == b.headerHash
    ensures SealedBy(a, plain) == SealedBy(b, plain)
  {
    hide RecordNonce, KindOf, ChunkOf, RestAt;
    forall k: nat | HasRecord(plain, k)
      ensures SealedRecord(a, k, RestAt(plain, k)) == SealedRecord(b, k, RestAt(plain, k))
    {
    }
  }

  /** For every container that can be written there are primitives of which all of that holds. */
  lemma ExactSettingExists(crypto: Crypto, secret: Bytes, m: M.Metadata, material: Material, recipients: seq<Stanza>,
                           author: Option<(Author, Placement)>, plain: Bytes)
    returns (pr: Primitives)
    requires AllXWing(recipients) && Refusal(m, recipients, author, plain).None?
    ensures pr.crypto == crypto && OpensOwn(pr, m, material, recipients, author, plain)
    ensures OpensHonestly(pr, secret, material, recipients) && IsRecipient(pr, secret, material, recipients)
    ensures Encrypted(pr, m, material, recipients, author, plain).Ok?
    ensures var made := Prepare(pr, m, material, recipients, author, plain).value;
            IdealPayload(pr, material, made.protected, plain)
  {
    hide Prepare, BookCipher, BookOf, Ideal, SealedBy, PayloadObject, M.Encoded, MetadataKey, MetadataAad, Tagged,
      Front,
      Authored, Stream, IdealPayload, FlagsOf;
    var blank := BookWorld(crypto, material.cek, _ => iset{});
    BookIsIdeal(_ => iset{}, []);
    IdealIsTagged(blank.cipher, [], iset{});
    EncryptedExactly(blank, m, material, recipients, author, plain);
    var made := Prepare(blank, m, material, recipients, author, plain).value;
    PreparedParts(blank, m, material, recipients, author, plain);
    var metadata := M.Encoded(made.metadata).value;
    var o := StreamUnder(blank, material, made.protected);
    var book := BookOf(o, MetadataKey(blank, material.cek, material.id), MetadataAad(material.id), metadata, plain);
    pr := BookWorld(crypto, material.cek, book);
    SealsAlike(blank.cipher, pr.cipher, _ => iset{}, book);
    BookIsIdeal(book, []);
    IdealIsTagged(pr.cipher, [], book([]));
    SamePrepared(blank, pr, m, material, recipients, author, plain);
    EncryptedExactly(pr, m, material, recipients, author, plain);
    SameKeys(blank, pr, material, made.protected);
    BookIdealPayload(pr, material, made.protected, o, MetadataAad(material.id), metadata, plain);
    assert IsRecipient(pr, secret, material, recipients) by {
      assert Opens(pr, secret, material, recipients[0]);
    }
    IdealPayloadFacts(pr, material, made.protected, plain);
    IdealOpensOwn(pr, m, material, recipients, author, plain);
  }

  lemma SealsAlike(a: Cipher, b: Cipher, book: Bytes -> iset<(Nonce, Bytes, Bytes)>,
                   book': Bytes -> iset<(Nonce, Bytes, Bytes)>)
    requires a == BookCipher(book) && b == BookCipher(book')
    ensures a.seal == b.seal
  {
  }

  lemma SameKeys(a: Primitives, b: Primitives, material: Material, protected: Bytes)
    requires a.crypto == b.crypto && a.derive == b.derive
    ensures MetadataKey(a, material.cek, material.id) == MetadataKey(b, material.cek, material.id)
    ensures StreamUnder(a, material, protected).key == StreamUnder(b, material, protected).key
    ensures StreamUnder(a, material, protected).id == material.id
    ensures StreamUnder(a, material, protected).headerHash == b.crypto.hash(protected)
  {
  }

  lemma IdealPayloadFacts(pr: Primitives, material: Material, protected: Bytes, plain: Bytes)
    requires IdealPayload(pr, material, protected, plain)
    ensures Ideal(pr.cipher, StreamUnder(pr, material, protected).key,
                  SealedBy(StreamUnder(pr, material, protected), plain))
  {
  }
}
