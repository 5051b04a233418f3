/** A sealed epoch store byte by byte, and exactly what opens (crates/hide-keyring/src/epoch_store.rs). */
module StoreRules {
  import opened Aead
  import opened Bytes
  import opened Cbor
  import opened CborLists
  import opened EpochChains
  import opened EpochStoreFormat
  import opened EpochStores
  import opened Hashing
  import opened Results
  import opened SortedKeys
  import opened WireForms
  import FiniteSets

  // ---------------------------------------------------------------- the bytes of a file

  /** Magic and version, the stretching parameters, salt, chain head, and the length of the body. */
  function HeaderForm(p: Argon2Params, salt: Salt, chainHead: Digest, bodyLen: u32): Bytes {
    Ascii("HIDE-EPK") + [1] + [p.parallelism] + Word(p.memory) + Word(p.iterations) + salt + chainHead + Word(bodyLen)
  }

  function EntryForm(entry: RawEntry): Bytes {
    [0x83] + Item(0, entry.number) + [0x4c] + entry.nonce + [0x58, 48] + entry.sealed
  }

  function BodyForm(entries: seq<RawEntry>): Bytes
    requires |entries| < 0x1_0000_0000_0000_0000
  {
    Item(4, |entries|) + Joined(EntryForm, entries)
  }

  /** At most 65536 entries, of rising numbers. */
  predicate LegalEntries(entries: seq<RawEntry>) {
    |entries| <= 65536 && forall i :: 0 <= i < |entries| - 1 ==> entries[i].number < entries[i + 1].number
  }

  predicate LegalParams(p: Argon2Params) {
    && 1 <= p.parallelism <= 4 && 8192 <= p.memory <= 262144 && 1 <= p.iterations <= 64
    && p.memory / 8 >= p.parallelism
  }

  lemma HeaderIsForm(p: Argon2Params, salt: Salt, chainHead: Digest, bodyLen: u32)
    ensures EncodeHeader(p, salt, chainHead, bodyLen) == HeaderForm(p, salt, chainHead, bodyLen)
  {
    hide Word, BigEndian, Ascii;
    WordIs(p.memory);
    WordIs(p.iterations);
    WordIs(bodyLen);
  }

  lemma SmallHeads(nonce: Nonce, sealed: Sealed)
    ensures Item(4, 3) == [0x83] && ByteString(nonce) == [0x4c] + nonce && ByteString(sealed) == [0x58, 48] + sealed
  {
  }

  lemma EntryIsForm(entry: RawEntry, rest: Bytes)
    ensures PutEntry(entry, rest) == EntryForm(entry) + rest
  {
    hide PutUint, PutBytes, PutArray, Item, ByteString;
    SmallHeads(entry.nonce, entry.sealed);
    var s2 := PutBytes(entry.sealed, rest);
    var s1 := PutBytes(entry.nonce, s2);
    BytesForm(entry.sealed, rest);
    BytesForm(entry.nonce, s2);
    UintForm(entry.number, s1);
    ArrayForm(3, PutUint(entry.number, s1));
  }

  lemma BodyIsForm(entries: seq<RawEntry>)
    requires |entries| < 0x1_0000_0000_0000_0000
    ensures EncodedBody(entries) == BodyForm(entries)
  {
    hide PutEntry, EntryForm, PutArray, Item, PutAll, Joined;
    forall entry: RawEntry, rest: Bytes | entry in entries
      ensures PutEntry(entry, rest) == EntryForm(entry) + rest
    {
      EntryIsForm(entry, rest);
    }
    AllForm(PutEntry, EntryForm, entries, []);
    ArrayForm(|entries|, PutAll(PutEntry, entries, []));
    assert Joined(EntryForm, entries) + [] == Joined(EntryForm, entries);
  }

  lemma {:induction false} Rises(entries: seq<RawEntry>, i: nat, j: nat)
    requires LegalEntries(entries) && i < j < |entries|
    ensures entries[i].number < entries[j].number
    decreases j
  {
    if i + 1 < j {
      Rises(entries, i, j - 1);
    }
  }

  lemma EntriesExactly(entries: seq<RawEntry>)
    ensures |entries| <= MAX_ENTRIES && AscendingEntries(entries) <==> LegalEntries(entries)
  {
    if LegalEntries(entries) {
      forall i, j | 0 <= i < j < |entries| ensures entries[i].number < entries[j].number {
        Rises(entries, i, j);
      }
    }
  }

  /** What a file must be to be taken apart, and into what. */
  predicate Consists(s: Bytes, l: Layout) {
    && LegalParams(l.params) && LegalEntries(l.entries)
    && var body := BodyForm(l.entries);
       && |body| == l.bodyLen && l.bodyLen <= 4784133
       && l.header == HeaderForm(l.params, l.salt, l.chainHead, l.bodyLen)
       && s == l.header + body + l.trailerNonce + l.trailerTag
  }

  /** A file is taken apart if and only if it consists of a legal header and body, and a nonce and tag. */
  lemma ParsedExactly(s: Bytes, l: Layout)
    ensures Parse(s) == Ok(l) <==> Consists(s, l)
  {
    hide Parse, EncodedBody, BodyForm, EncodeHeader, HeaderForm, FileBytes, AscendingEntries, LegalEntries;
    EntriesExactly(l.entries);
    if Parse(s) == Ok(l) {
      FileCanonical(s);
      FileIsForm(l);
      ParsedHeader(s, l);
    }
    if Consists(s, l) {
      FileIsForm(l);
      FileRoundTrip(l.params, l.salt, l.chainHead, l.entries, l.trailerNonce, l.trailerTag);
      assert s[..HEADER_LEN] == l.header by { HeaderLong(l); }
    }
  }

  lemma HeaderLong(l: Layout)
    requires l.bodyLen < 0x1_0000_0000 && l.header == HeaderForm(l.params, l.salt, l.chainHead, l.bodyLen)
    ensures |l.header| == HEADER_LEN
  {
    hide U64, Ascii;
  }

  lemma ParsedHeader(s: Bytes, l: Layout)
    requires Parse(s) == Ok(l) && |l.entries| <= MAX_ENTRIES && |EncodedBody(l.entries)| <= MAX_BODY_LEN
    requires s == FileBytes(l.params, l.salt, l.chainHead, l.entries, l.trailerNonce, l.trailerTag)
    ensures l.header == EncodeHeader(l.params, l.salt, l.chainHead, |EncodedBody(l.entries)|)
  {
    hide Parse, EncodedBody, EncodeHeader;
    ParseFacts(s);
  }

  lemma FileIsForm(l: Layout)
    requires |l.entries| <= MAX_ENTRIES
    ensures |EncodedBody(l.entries)| <= MAX_BODY_LEN && EncodedBody(l.entries) == BodyForm(l.entries)
    ensures var body := BodyForm(l.entries);
            var header := HeaderForm(l.params, l.salt, l.chainHead, |body|);
            && EncodeHeader(l.params, l.salt, l.chainHead, |body|) == header
            && FileBytes(l.params, l.salt, l.chainHead, l.entries, l.trailerNonce, l.trailerTag)
               == header + body + l.trailerNonce + l.trailerTag
  {
    BodySize(l.entries);
    BodyIsForm(l.entries);
    hide EncodedBody, BodyForm, EncodeHeader, HeaderForm;
    HeaderIsForm(l.params, l.salt, l.chainHead, |BodyForm(l.entries)|);
  }

  // ---------------------------------------------------------------- what is sealed

  /** The file is this store's, sealed under this passphrase with this randomness. */
  ghost predicate SealedAs(v: Vault, s: Bytes, store: Store, passphrase: string, random: Randomness, l: Layout) {
    && Consists(s, l)
    && l.params == Argon2Params(1, 19456, 2) && l.salt == random.salt && l.chainHead == store.chainHead
    && |l.entries| == |store.entries|
    && var key := v.derive(v.nfc(passphrase), l.params, l.salt);
       && (forall i :: 0 <= i < |l.entries| ==>
             && l.entries[i].number in store.entries && l.entries[i].nonce == random.nonce(i)
             && l.entries[i].sealed
                == v.cipher.seal(key, random.nonce(i), l.header + U64(l.entries[i].number),
                                 store.entries[l.entries[i].number]))
       && l.trailerNonce == random.nonce(|store.entries|)
       && l.trailerTag == v.cipher.seal(key, l.trailerNonce, l.header + BodyForm(l.entries), [])
  }

  /** The parts of a sealed file. */
  ghost function LayoutOf(v: Vault, store: Store, passphrase: string, random: Randomness): Layout
    requires Tagged(v.cipher) && |store.entries| <= MAX_ENTRIES
  {
    var p := PartsOf(v, store, passphrase, random);
    Layout(WRITER, random.salt, store.chainHead, p.header, |EncodedBody(p.entries)|, p.entries, p.nonce, p.tag)
  }

  lemma PartsAre(v: Vault, store: Store, passphrase: string, random: Randomness)
    requires Tagged(v.cipher) && |store.entries| <= MAX_ENTRIES
    ensures var p, items := PartsOf(v, store, passphrase, random), Items(store.entries);
            && p.key == v.derive(v.nfc(passphrase), WRITER, random.salt)
            && |p.entries| == |store.entries| && p.nonce == random.nonce(|store.entries|)
            && forall i :: 0 <= i < |p.entries| ==>
                 && p.entries[i].number == items[i].0 && p.entries[i].nonce == random.nonce(i)
                 && p.entries[i].sealed
                    == v.cipher.seal(p.key, random.nonce(i), p.header + U64(items[i].0), items[i].1)
  {
    hide EncodedBody, EncodeHeader, Placeholders, Items;
  }

  /** What is sealed, and when it is not. */
  lemma SealedExactly(v: Vault, store: Store, passphrase: string, random: Randomness)
    requires Tagged(v.cipher)
    ensures var file := SealedFile(v, store, passphrase, random);
            if |v.nfc(passphrase)| < 8 then file == Err(PassphraseTooShort(8))
            else if |store.entries| > 65536 then file == Err(TooManyEntries(65536))
            else file.Ok? && SealedAs(v, file.value, store, passphrase, random, LayoutOf(v, store, passphrase, random))
  {
    hide PartsOf, EncodedBody, EncodeHeader, FileBytes, AscendingEntries, BodyForm, HeaderForm, Items, Tagged,
      Placeholders, SealedEntries, LegalEntries;
    if |v.nfc(passphrase)| >= 8 && |store.entries| <= 65536 {
      var l := LayoutOf(v, store, passphrase, random);
      SealedFileParts(v, store, passphrase, random);
      PartsShape(v, store, passphrase, random);
      PartsAre(v, store, passphrase, random);
      EntriesExactly(l.entries);
      FileIsForm(l);
      hide SealedFile;
    }
  }

  // ---------------------------------------------------------------- what opens

  /** The three spellings that are tried, in order. */
  function Spellings(v: Vault, passphrase: string): seq<string> {
    [v.nfc(passphrase), passphrase, v.nfd(passphrase)]
  }

  predicate TrailerOpens(v: Vault, l: Layout, key: Bytes)
    requires |l.entries| <= 65536
  {
    v.cipher.open(key, l.trailerNonce, l.header + BodyForm(l.entries), l.trailerTag).Some?
  }

  /** The key is stretched from the first spelling under which the trailer opens. */
  predicate KeyFound(v: Vault, l: Layout, passphrase: string, key: Bytes)
    requires |l.entries| <= 65536
  {
    exists i :: 0 <= i < 3 && key == v.derive(Spellings(v, passphrase)[i], l.params, l.salt)
      && TrailerOpens(v, l, key)
      && forall j :: 0 <= j < i ==> !TrailerOpens(v, l, v.derive(Spellings(v, passphrase)[j], l.params, l.salt))
  }

  /** Every entry opens, for this file's header and its number, to the secret the store has for that number. */
  predicate EntriesOpen(v: Vault, l: Layout, key: Bytes, store: Store) {
    && |store.entries| == |l.entries|
    && forall i :: 0 <= i < |l.entries| ==>
         && l.entries[i].number in store.entries
         && v.cipher.open(key, l.entries[i].nonce, l.header + U64(l.entries[i].number), l.entries[i].sealed)
            == Some(store.entries[l.entries[i].number])
  }

  /** Everything a file must be to open to a store. */
  ghost predicate OpensAs(v: Vault, s: Bytes, passphrase: string, store: Store, l: Layout, key: Bytes) {
    && Consists(s, l) && KeyFound(v, l, passphrase, key)
    && store.chainHead == l.chainHead && EntriesOpen(v, l, key, store)
  }

  predicate FoundIn(v: Vault, l: Layout, authenticated: Bytes, candidates: seq<string>, key: Bytes) {
    exists i :: 0 <= i < |candidates| && key == v.derive(candidates[i], l.params, l.salt)
      && v.cipher.open(key, l.trailerNonce, authenticated, l.trailerTag).Some?
      && forall j :: 0 <= j < i ==>
           v.cipher.open(v.derive(candidates[j], l.params, l.salt), l.trailerNonce, authenticated, l.trailerTag).None?
  }

  lemma {:induction false} FirstKeyExactly(v: Vault, l: Layout, authenticated: Bytes, candidates: seq<string>,
                                           key: Bytes)
    ensures FirstKey(v, l, authenticated, candidates) == Some(key) <==> FoundIn(v, l, authenticated, candidates, key)
    decreases |candidates|
  {
    if candidates != [] {
      var rest := candidates[1..];
      FirstKeyExactly(v, l, authenticated, rest, key);
      assert forall j :: 0 <= j < |rest| ==> rest[j] == candidates[j + 1];
      var first := v.derive(candidates[0], l.params, l.salt);
      if v.cipher.open(first, l.trailerNonce, authenticated, l.trailerTag).None? {
        if FoundIn(v, l, authenticated, rest, key) {
          var i :| 0 <= i < |rest| && key == v.derive(rest[i], l.params, l.salt)
            && v.cipher.open(key, l.trailerNonce, authenticated, l.trailerTag).Some?
            && forall j :: 0 <= j < i ==>
              v.cipher.open(v.derive(rest[j], l.params, l.salt), l.trailerNonce, authenticated, l.trailerTag).None?;
          forall j | 0 <= j < i + 1
            ensures v.cipher.open(v.derive(candidates[j], l.params, l.salt), l.trailerNonce, authenticated,
                                  l.trailerTag).None?
          {
            assert j > 0 ==> candidates[j] == rest[j - 1];
          }
          assert candidates[i + 1] == rest[i];
        }
        if FoundIn(v, l, authenticated, candidates, key) {
          var i :| 0 <= i < |candidates| && key == v.derive(candidates[i], l.params, l.salt)
            && v.cipher.open(key, l.trailerNonce, authenticated, l.trailerTag).Some?
            && forall j :: 0 <= j < i ==>
              v.cipher.open(v.derive(candidates[j], l.params, l.salt), l.trailerNonce, authenticated,
                            l.trailerTag).None?;
          assert i > 0 && rest[i - 1] == candidates[i];
        }
      }
    }
  }

  lemma FirstKeyStep(v: Vault, l: Layout, authenticated: Bytes, first: string, rest: seq<string>)
    ensures FirstKey(v, l, authenticated, [first] + rest)
         == var key := v.derive(first, l.params, l.salt);
            if v.cipher.open(key, l.trailerNonce, authenticated, l.trailerTag).Some? then Some(key)
            else FirstKey(v, l, authenticated, rest)
  {
    assert ([first] + rest)[1..] == rest;
  }

  /** A spelling tried twice is a spelling tried once. */
  lemma WithoutRepeats(v: Vault, l: Layout, authenticated: Bytes, passphrase: string)
    ensures FirstKey(v, l, authenticated, Candidates(v, passphrase))
         == FirstKey(v, l, authenticated, Spellings(v, passphrase))
  {
    var a, b, c := v.nfc(passphrase), passphrase, v.nfd(passphrase);
    hide FirstKey;
    assert [a, b, c] == [a] + [b, c] && [b, c] == [b] + [c] && [c] == [c] + [];
    assert [a, b] == [a] + [b] && [a, c] == [a] + [c] && [a, b, c] == [a, b] + [c];
    assert [a] + [] == [a] && [b] + [] == [b];
    assert Candidates(v, passphrase)
        == if a == b then (if c == a then [a] else [a, c]) else (if c == a || c == b then [a, b] else [a, b, c]);
    FirstKeyStep(v, l, authenticated, a, [b, c]);
    FirstKeyStep(v, l, authenticated, b, [c]);
    FirstKeyStep(v, l, authenticated, c, []);
    FirstKeyStep(v, l, authenticated, a, [b]);
    FirstKeyStep(v, l, authenticated, a, [c]);
    FirstKeyStep(v, l, authenticated, a, []);
    FirstKeyStep(v, l, authenticated, b, []);
  }

  lemma KeyExactly(v: Vault, l: Layout, passphrase: string, key: Bytes)
    requires |l.entries| <= 65536
    ensures FirstKey(v, l, l.header + BodyForm(l.entries), Candidates(v, passphrase)) == Some(key)
       <==> KeyFound(v, l, passphrase, key)
  {
    hide FirstKey, Candidates, BodyForm;
    var authenticated := l.header + BodyForm(l.entries);
    WithoutRepeats(v, l, authenticated, passphrase);
    FirstKeyExactly(v, l, authenticated, Spellings(v, passphrase), key);
    hide Spellings;
  }

  predicate OpensTo(v: Vault, key: Bytes, header: Bytes, entry: RawEntry, item: (u64, Seed)) {
    && item.0 == entry.number
    && v.cipher.open(key, entry.nonce, header + U64(entry.number), entry.sealed) == Some(item.1)
  }

  lemma EntryOpened(v: Vault, key: Bytes, header: Bytes, entry: RawEntry, item: (u64, Seed))
    ensures OpenEntry(v, key, header, entry) == Some(item) <==> OpensTo(v, key, header, entry, item)
  {
    hide U64;
  }

  lemma {:induction false} EntriesOpened(v: Vault, key: Bytes, header: Bytes, entries: seq<RawEntry>,
                                         items: seq<(u64, Seed)>)
    ensures OpenEntries(v, key, header, entries) == Some(items)
       <==> |items| == |entries|
            && forall i :: 0 <= i < |entries| ==> OpensTo(v, key, header, entries[i], items[i])
    decreases |entries|
  {
    hide OpensTo, OpenEntry;
    if entries != [] {
      var n := |entries| - 1;
      if OpenEntries(v, key, header, entries).Some? {
        var found := OpenEntries(v, key, header, entries).value;
        EntriesOpened(v, key, header, entries[..n], OpenEntries(v, key, header, entries[..n]).value);
        EntryOpened(v, key, header, entries[n], found[|found| - 1]);
        assert items == found ==> items[..n] == OpenEntries(v, key, header, entries[..n]).value;
      }
      if |items| == |entries| {
        EntriesOpened(v, key, header, entries[..n], items[..n]);
        EntryOpened(v, key, header, entries[n], items[n]);
        assert items == items[..n] + [items[n]];
      }
    }
  }

  lemma {:induction false} BuiltSize<V>(items: seq<(u64, V)>)
    requires Ascending(items)
    ensures |FromItems(items)| == |items|
    decreases |items|
  {
    if items != [] {
      var before := items[..|items| - 1];
      BuiltSize(before);
      FromItemsHas(before);
      hide FromItems;
      assert items[|items| - 1].0 !in FromItems(before);
      MapPlusOne(FromItems(before), items[|items| - 1].0, items[|items| - 1].1);
    }
  }

  lemma MapPlusOne<V>(m: map<u64, V>, k: u64, x: V)
    requires k !in m
    ensures |m[k := x]| == |m| + 1
  {
    assert m[k := x].Keys == m.Keys + {k};
  }

  /** A map that has each of these items and no more entries than there are items is built from them. */
  lemma BuiltFrom(items: seq<(u64, Seed)>, m: map<u64, Seed>)
    requires Ascending(items) && |m| == |items|
    requires forall i :: 0 <= i < |items| ==> items[i].0 in m && m[items[i].0] == items[i].1
    ensures FromItems(items) == m
  {
    hide FromItems, Ascending;
    var built := FromItems(items);
    BuiltSize(items);
    BuiltWithin(items, m);
    SameSize(built.Keys, m.Keys);
  }

  lemma BuiltWithin(items: seq<(u64, Seed)>, m: map<u64, Seed>)
    requires Ascending(items)
    requires forall i :: 0 <= i < |items| ==> items[i].0 in m && m[items[i].0] == items[i].1
    ensures forall k :: k in FromItems(items) ==> k in m && FromItems(items)[k] == m[k]
  {
    FromItemsHas(items);
    hide FromItems, Ascending;
    var built := FromItems(items);
    forall k | k in built ensures k in m && built[k] == m[k] {
      var i :| 0 <= i < |items| && items[i].0 == k;
    }
  }

  lemma SameSize<T>(a: set<T>, b: set<T>)
    requires a <= b && |a| == |b|
    ensures a == b
  {
    assert b == a + (b - a);
    assert |b - a| == 0;
  }

  lemma HasItems(items: seq<(u64, Seed)>)
    requires Ascending(items)
    ensures |FromItems(items)| == |items|
    ensures forall i :: 0 <= i < |items| ==>
            items[i].0 in FromItems(items) && FromItems(items)[items[i].0] == items[i].1
  {
    BuiltSize(items);
    FromItemsHas(items);
  }

  /** A file opens to a store if and only if it is a legal file whose trailer and entries all open to it. */
  lemma OpenedExactly(v: Vault, s: Bytes, passphrase: string, store: Store)
    ensures Opened(v, s, passphrase) == Ok(store) <==> exists l, key :: OpensAs(v, s, passphrase, store, l, key)
  {
    hide Opened, OpensAs;
    if Opened(v, s, passphrase) == Ok(store) {
      var l, key := OpenedIsRight(v, s, passphrase, store);
    }
    if l, key :| OpensAs(v, s, passphrase, store, l, key) {
      RightIsOpened(v, s, passphrase, store, l, key);
    }
  }

  lemma Covered(s: Bytes, l: Layout)
    requires Consists(s, l)
    ensures |s| >= HEADER_LEN + l.bodyLen && s[..HEADER_LEN + l.bodyLen] == l.header + BodyForm(l.entries)
    ensures |l.entries| <= 65536
  {
    HeaderLong(l);
    hide HeaderForm, BodyForm;
  }

  lemma OpenedIsRight(v: Vault, s: Bytes, passphrase: string, store: Store) returns (l: Layout, key: Bytes)
    requires Opened(v, s, passphrase) == Ok(store)
    ensures OpensAs(v, s, passphrase, store, l, key)
  {
    hide Parse, FirstKey, OpenEntries, Candidates, FromItems, Consists, BodyForm, KeyFound, LegalEntries;
    l := Parse(s).value;
    ParsedExactly(s, l);
    Covered(s, l);
    key := FirstKey(v, l, l.header + BodyForm(l.entries), Candidates(v, passphrase)).value;
    KeyExactly(v, l, passphrase, key);
    var items := OpenEntries(v, key, l.header, l.entries).value;
    EntriesOpened(v, key, l.header, l.entries, items);
    Rising(s, l, items);
    HasItems(items);
  }

  lemma Rising(s: Bytes, l: Layout, items: seq<(u64, Seed)>)
    requires Consists(s, l) && |items| == |l.entries|
    requires forall i :: 0 <= i < |items| ==> items[i].0 == l.entries[i].number
    ensures Ascending(items)
  {
    EntriesExactly(l.entries);
    hide BodyForm, HeaderForm;
  }

  lemma RightIsOpened(v: Vault, s: Bytes, passphrase: string, store: Store, l: Layout, key: Bytes)
    requires OpensAs(v, s, passphrase, store, l, key)
    ensures Opened(v, s, passphrase) == Ok(store)
  {
    hide Parse, FirstKey, OpenEntries, Candidates, FromItems, Consists, BodyForm, KeyFound, LegalEntries;
    ParsedExactly(s, l);
    Covered(s, l);
    KeyExactly(v, l, passphrase, key);
    var items := seq(|l.entries|, i requires 0 <= i < |l.entries| && l.entries[i].number in store.entries =>
      (l.entries[i].number, store.entries[l.entries[i].number]));
    EntriesOpened(v, key, l.header, l.entries, items);
    Rising(s, l, items);
    BuiltFrom(items, store.entries);
  }
}
