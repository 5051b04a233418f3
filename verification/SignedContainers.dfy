/** A signed container beside everything else that is accepted in its author's name (crates/hide-object/src/lib.rs). */
module SignedContainers {
  import opened Aead
  import opened Bytes
  import opened Containers
  import opened ContainerTheorems
  import opened ContainerWriting
  import opened Extensions
  import opened Hashing
  import opened HeaderCodec
  import opened Results
  import opened Signing
  import opened Transcripts
  import M = MetadataCodec

  /** A container is accepted with this signer. */
  predicate AcceptedFrom(pr: Primitives, secret: Bytes, s: Bytes, key: Bytes)
    requires Tagged(pr.cipher)
  {
    var verdict := Decrypted(pr, secret, s).0;
    verdict.Ok? && verdict.value.signer == Some(key)
  }

  /** One author signs one container, and nothing else in the contexts containers use. */
  ghost predicate SignsOnlyThis(pr: Primitives, who: Author, signed: iset<Bytes>, st: Statement) {
    Signs(pr, who, signed, st) && Unforgeable(pr.crypto, who.key, signed) && SignedOnly(pr, signed, iset{st})
  }

  /** Everything the two halves below rest on. */
  ghost predicate Setting(pr: Primitives, secret: Bytes, m: M.Metadata, material: Material, recipients: seq<Stanza>,
                          who: Author, placement: Placement, signed: iset<Bytes>, plain: Bytes)
  {
    && OpensOwn(pr, m, material, recipients, Some((who, placement)), plain)
    && OpensHonestly(pr, secret, material, recipients) && IsRecipient(pr, secret, material, recipients)
    && AllXWing(recipients) && Refusal(m, recipients, Some((who, placement)), plain).None?
    && SignsOnlyThis(pr, who, signed, Intended(m, material, recipients, plain))
  }

  /**
   In one and the same setting, the author's container is accepted by its recipients with plaintext,
   metadata and signer, and whatever else anybody accepts from that author says the same.
   */
  lemma AcceptedAndAlone(pr: Primitives, secret: Bytes, m: M.Metadata, material: Material, recipients: seq<Stanza>,
                         who: Author, placement: Placement, signed: iset<Bytes>, plain: Bytes, secret': Bytes, s: Bytes)
    requires Setting(pr, secret, m, material, recipients, who, placement, signed, plain)
    requires m.signature.None? || placement.Confidential?
    ensures var written := Encrypted(pr, m, material, recipients, Some((who, placement)), plain);
            && written.Ok? && AcceptedFrom(pr, secret, written.value, who.key)
            && Says(pr, secret, written.value, Intended(m, material, recipients, plain))
            && Decrypted(pr, secret, written.value).1 == plain
    ensures AcceptedFrom(pr, secret', s, who.key) ==> Says(pr, secret', s, Intended(m, material, recipients, plain))
  {
    hide Encrypted, Decrypted, Opened, Refusal, OpensOwn, OpensHonestly, IsRecipient, Signs, Intended, AllXWing,
      Authored,
      Says, Unforgeable, SignedOnly;
    var author, st := Some((who, placement)), Intended(m, material, recipients, plain);
    OwnIsTagged(pr, m, material, recipients, author, plain);
    EncryptedExactly(pr, m, material, recipients, author, plain);
    ContainerRoundTrip(pr, secret, m, material, recipients, author, signed, plain);
    SaysIt(pr, secret, Encrypted(pr, m, material, recipients, author, plain).value, who, signed, st);
    if AcceptedFrom(pr, secret', s, who.key) {
      SaysIt(pr, secret', s, who, signed, st);
    }
  }

  lemma OwnIsTagged(pr: Primitives, m: M.Metadata, material: Material, recipients: seq<Stanza>,
                    author: Option<(Author, Placement)>, plain: Bytes)
    requires OpensOwn(pr, m, material, recipients, author, plain)
    ensures Tagged(pr.cipher)
  {
    hide Tagged, Prepare;
  }

  lemma SaysIt(pr: Primitives, secret: Bytes, s: Bytes, who: Author, signed: iset<Bytes>, st: Statement)
    requires Tagged(pr.cipher) && SignsOnlyThis(pr, who, signed, st) && AcceptedFrom(pr, secret, s, who.key)
    ensures Says(pr, secret, s, st)
  {
    hide Decrypted, Says, Unforgeable, SignedOnly, Tagged, Signs;
    var behind := SignerMeantIt(pr, secret, s, who.key, signed, iset{st});
  }

  // ---------------------------------------------------------------- such a setting exists

  /** Keys are not told apart, and every wrapping opens. */
  function OpenWorld(crypto: Crypto, cek: Bytes): Primitives {
    Primitives(crypto, MarkingCipher(), (key, salt, info) => [], (key, message) => Zeros(32),
      (secret, id, encapsulation, wrappedCek) => Some(cek))
  }

  /** For every hash and every container that can be written there are primitives that meet the setting. */
  lemma SettingExists(hash: Hasher, secret: Bytes, m: M.Metadata, material: Material, recipients: seq<Stanza>,
                      key: Bytes, placement: Placement, plain: Bytes)
    returns (pr: Primitives, signed: iset<Bytes>)
    requires |key| == VERIFYING_KEY_LENGTH && AllXWing(recipients)
    requires Refusal(m, recipients, Some((MarkOf(key), placement)), plain).None?
    ensures pr.crypto.hash == hash
            && Setting(pr, secret, m, material, recipients, MarkOf(key), placement, signed, plain)
  {
    hide Refusal, MarkingCipher, OpensOwn, PayloadOf, Correct, Genuine, Unforgeable, Sensible, Notary;
    var st := Intended(m, material, recipients, plain);
    WritableIsSensible(m, material, recipients, MarkOf(key), placement, plain);
    signed := iset{PayloadOf(OpenWorld(Notary(hash, map[]), material.cek), st)};
    var crypto := Notary(hash, map[key := signed]);
    pr := OpenWorld(crypto, material.cek);
    NotaryHash(hash, map[key := signed]);
    NotaryHash(hash, map[]);
    NotaryIsSound(hash, map[key := signed], key);
    MarkingCipherCorrect();
    CorrectOpensOwn(pr, m, material, recipients, Some((MarkOf(key), placement)), plain);
    assert IsRecipient(pr, secret, material, recipients) by {
      assert Opens(pr, secret, material, recipients[0]);
    }
    SamePayload(OpenWorld(Notary(hash, map[]), material.cek), pr, st);
    OnlyOneSigned(pr, st, signed);
  }

  lemma NotaryHash(hash: Hasher, book: map<Bytes, iset<Bytes>>)
    ensures Notary(hash, book).hash == hash
  {
  }

  lemma SamePayload(a: Primitives, b: Primitives, st: Statement)
    requires Sensible(st) && a.crypto.hash == b.crypto.hash
    ensures PayloadOf(a, st) == PayloadOf(b, st)
  {
    hide Sensible, Transcript, Bind;
  }

  lemma OnlyOneSigned(pr: Primitives, st: Statement, signed: iset<Bytes>)
    requires Sensible(st) && signed == iset{PayloadOf(pr, st)}
    ensures SignedOnly(pr, signed, iset{st})
  {
    hide Sensible, PayloadOf, Bind;
  }

  lemma WritableIsSensible(m: M.Metadata, material: Material, recipients: seq<Stanza>, who: Author,
                           placement: Placement,
                           plain: Bytes)
    requires Refusal(m, recipients, Some((who, placement)), plain).None?
    ensures 0 < |recipients| <= MAX_RECIPIENTS && |plain| <= MAX_SIGNED_INPUT
    ensures Sensible(Intended(m, material, recipients, plain))
  {
    hide M.Encoded, M.SigningBase, StanzaFits, Prospect;
    BaseOfProspect(m, Some((who, placement)));
  }
}
