/** Under an ideal cipher, nothing opens as a store but the file that was sealed, byte for byte. */
module StoreExact {
  import opened Aead
  import opened Bytes
  import opened EpochStoreFormat
  import opened EpochStores
  import opened Hashing
  import opened Results
  import opened SortedKeys
  import opened StoreRules

  /** Everything one seal encrypts: the empty trailer over the whole file, and each secret for its number. */
  ghost function SealedIn(l: Layout, store: Store): iset<(Nonce, Bytes, Bytes)>
    requires |l.entries| <= MAX_ENTRIES
  {
    iset{(l.trailerNonce, l.header + BodyForm(l.entries), [])}
    + (iset i: nat | i < |l.entries| && l.entries[i].number in store.entries
         :: (l.entries[i].nonce, l.header + U64(l.entries[i].number), store.entries[l.entries[i].number]))
  }

  /** Under the key of this seal, what it encrypted opens and nothing else; under any other key, nothing does. */
  ghost predicate SealedAlone(v: Vault, l: Layout, store: Store, passphrase: string)
    requires |l.entries| <= MAX_ENTRIES
  {
    var key := v.derive(v.nfc(passphrase), l.params, l.salt);
    && Ideal(v.cipher, key, SealedIn(l, store))
    && forall other :: other != key ==> Ideal(v.cipher, other, iset{})
  }

  /** A trailer that opens is the one of the seal: no secret is empty. */
  lemma TrailerIsSealed(v: Vault, l: Layout, store: Store, passphrase: string, m: Layout, key: Bytes)
    requires |l.entries| <= MAX_ENTRIES && |m.entries| <= MAX_ENTRIES
    requires SealedAlone(v, l, store, passphrase) && TrailerOpens(v, m, key)
    ensures key == v.derive(v.nfc(passphrase), l.params, l.salt)
    ensures m.trailerNonce == l.trailerNonce
         && m.header + BodyForm(m.entries) == l.header + BodyForm(l.entries)
         && m.trailerTag == v.cipher.seal(key, l.trailerNonce, l.header + BodyForm(l.entries), [])
  {
    hide BodyForm, U64;
    assert key != v.derive(v.nfc(passphrase), l.params, l.salt) ==> Ideal(v.cipher, key, iset{});
    var plain := v.cipher.open(key, m.trailerNonce, m.header + BodyForm(m.entries), m.trailerTag).value;
    assert |plain| + TAG_LEN == |m.trailerTag|;
  }

  /** What is accepted is the file, whatever is typed. */
  lemma AcceptedIsSealed(v: Vault, store: Store, passphrase: string, random: Randomness, s: Bytes, typed: string)
    requires Tagged(v.cipher) && |store.entries| <= MAX_ENTRIES && SealedFile(v, store, passphrase, random).Ok?
    requires SealedAlone(v, LayoutOf(v, store, passphrase, random), store, passphrase)
    requires Opened(v, s, typed).Ok?
    ensures s == SealedFile(v, store, passphrase, random).value
  {
    hide Opened, SealedFile, LayoutOf, SealedAlone, BodyForm, HeaderForm, EntriesOpen, Tagged, LegalEntries, Spellings;
    var l := LayoutOf(v, store, passphrase, random);
    SealLimits(v, store, passphrase, random);
    SealedExactly(v, store, passphrase, random);
    var m, key := OpenedIsRight(v, s, typed, Opened(v, s, typed).value);
    Covered(s, m);
    TrailerIsSealed(v, l, store, passphrase, m, key);
  }

  /** The file itself opens to the store. */
  lemma SealedIsAccepted(v: Vault, store: Store, passphrase: string, random: Randomness)
    requires Tagged(v.cipher) && |store.entries| <= MAX_ENTRIES && SealedFile(v, store, passphrase, random).Ok?
    requires SealedAlone(v, LayoutOf(v, store, passphrase, random), store, passphrase)
    ensures Opened(v, SealedFile(v, store, passphrase, random).value, passphrase) == Ok(store)
  {
    hide Opened, SealedFile, LayoutOf, BodyForm, HeaderForm, Tagged, LegalEntries, U64;
    var l := LayoutOf(v, store, passphrase, random);
    var s := SealedFile(v, store, passphrase, random).value;
    SealLimits(v, store, passphrase, random);
    SealedExactly(v, store, passphrase, random);
    Covered(s, l);
    var key := v.derive(v.nfc(passphrase), l.params, l.salt);
    TrailerIn(l, store);
    forall i | 0 <= i < |l.entries|
      ensures v.cipher.open(key, l.entries[i].nonce, l.header + U64(l.entries[i].number), l.entries[i].sealed)
              == Some(store.entries[l.entries[i].number])
    {
      EntryIn(l, store, i);
    }
    assert v.cipher.open(key, l.trailerNonce, l.header + BodyForm(l.entries), l.trailerTag) == Some([]);
    hide SealedIn, Ideal, SealedAlone, SealedAs;
    assert Spellings(v, passphrase)[0] == v.nfc(passphrase) && TrailerOpens(v, l, key);
    assert KeyFound(v, l, passphrase, key);
    assert OpensAs(v, s, passphrase, store, l, key);
    RightIsOpened(v, s, passphrase, store, l, key);
  }

  lemma TrailerIn(l: Layout, store: Store)
    requires |l.entries| <= MAX_ENTRIES
    ensures (l.trailerNonce, l.header + BodyForm(l.entries), []) in SealedIn(l, store)
  {
    hide BodyForm, U64;
  }

  lemma EntryIn(l: Layout, store: Store, i: nat)
    requires |l.entries| <= MAX_ENTRIES && i < |l.entries| && l.entries[i].number in store.entries
    ensures (l.entries[i].nonce, l.header + U64(l.entries[i].number), store.entries[l.entries[i].number])
            in SealedIn(l, store)
  {
    hide BodyForm, U64;
  }

  /**
   Where a store is sealed under a key that encrypts nothing else, bytes open to it under its passphrase
   if and only if they are the sealed file, and under no passphrase does anything else open.
   */
  lemma OpensExactly(v: Vault, store: Store, passphrase: string, random: Randomness, s: Bytes, typed: string)
    requires Tagged(v.cipher) && |store.entries| <= MAX_ENTRIES && SealedFile(v, store, passphrase, random).Ok?
    requires SealedAlone(v, LayoutOf(v, store, passphrase, random), store, passphrase)
    ensures Opened(v, s, typed).Ok? ==> s == SealedFile(v, store, passphrase, random).value
    ensures Opened(v, s, passphrase) == Ok(store) <==> s == SealedFile(v, store, passphrase, random).value
  {
    hide Opened, SealedFile, LayoutOf, SealedAlone, Tagged;
    if Opened(v, s, typed).Ok? {
      AcceptedIsSealed(v, store, passphrase, random, s, typed);
    }
    if Opened(v, s, passphrase).Ok? {
      AcceptedIsSealed(v, store, passphrase, random, s, passphrase);
    }
    SealedIsAccepted(v, store, passphrase, random);
  }

  // ---------------------------------------------------------------- such a cipher exists

  /** Layouts depend on how the cipher seals, not on what it opens. */
  lemma SameLayout(v: Vault, w: Vault, store: Store, passphrase: string, random: Randomness)
    requires Tagged(v.cipher) && Tagged(w.cipher) && |store.entries| <= MAX_ENTRIES
    requires v.derive == w.derive && v.nfc == w.nfc && v.cipher.seal == w.cipher.seal
    ensures LayoutOf(v, store, passphrase, random) == LayoutOf(w, store, passphrase, random)
  {
    hide EncodedBody, EncodeHeader, Placeholders;
    var key, items := v.derive(v.nfc(passphrase), WRITER, random.salt), Items(store.entries);
    BodySize(Placeholders(items, random));
    var header := EncodeHeader(WRITER, random.salt, store.chainHead, |EncodedBody(Placeholders(items, random))|);
    assert SealedEntries(v, key, header, items, random) == SealedEntries(w, key, header, items, random);
  }

  /** For every store, passphrase and key stretching there is a cipher of which all of that holds. */
  lemma SettingExists(derive: (string, Argon2Params, Salt) -> Bytes, nfc: string -> string, nfd: string -> string,
                      store: Store, passphrase: string, random: Randomness) returns (v: Vault)
    requires |store.entries| <= MAX_ENTRIES && |nfc(passphrase)| >= MIN_PASSPHRASE_LEN
    ensures v.derive == derive && v.nfc == nfc && v.nfd == nfd && Tagged(v.cipher)
    ensures SealedFile(v, store, passphrase, random).Ok?
    ensures SealedAlone(v, LayoutOf(v, store, passphrase, random), store, passphrase)
  {
    hide BookCipher, Ideal, Tagged, LayoutOf, SealedIn, SealedFile;
    var blank := Vault(BookCipher(_ => iset{}), derive, nfc, nfd);
    BookIsIdeal(_ => iset{}, []);
    IdealIsTagged(blank.cipher, [], iset{});
    SealedExactly(blank, store, passphrase, random);
    var l := LayoutOf(blank, store, passphrase, random);
    var key := derive(nfc(passphrase), l.params, l.salt);
    var book: Bytes -> iset<(Nonce, Bytes, Bytes)> := k => if k == key then SealedIn(l, store) else iset{};
    v := Vault(BookCipher(book), derive, nfc, nfd);
    forall k ensures Ideal(v.cipher, k, book(k)) {
      BookIsIdeal(book, k);
    }
    IdealIsTagged(v.cipher, key, book(key));
    SealsAlike(_ => iset{}, book);
    forall other | other != key ensures Ideal(v.cipher, other, iset{}) {
      assert book(other) == iset{};
    }
    SameLayout(blank, v, store, passphrase, random);
    SealedExactly(v, store, passphrase, random);
  }

  lemma SealsAlike(book: Bytes -> iset<(Nonce, Bytes, Bytes)>, book': Bytes -> iset<(Nonce, Bytes, Bytes)>)
    ensures BookCipher(book).seal == BookCipher(book').seal
  {
  }
}
