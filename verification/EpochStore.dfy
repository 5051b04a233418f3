/** Sealing and opening the store of live epoch secrets (crates/hide-keyring/src/epoch_store.rs). */
module EpochStores {
  import opened Aead
  import opened Bytes
  import opened EpochChains
  import opened EpochStoreFormat
  import opened Hashing
  import opened Results
  import opened SortedKeys

  const MIN_PASSPHRASE_LEN := 8

  /** The cipher, the key stretching and the two Unicode forms a passphrase can be typed in. */
  datatype Vault = Vault(
    cipher: Cipher,
    derive: (string, Argon2Params, Salt) -> Bytes,
    nfc: string -> string,
    nfd: string -> string)

  /** The fresh randomness of one seal: a salt and as many nonces as are drawn. */
  datatype Randomness = Randomness(salt: Salt, nonce: nat -> Nonce)

  /** A store as a value: the chain head it belongs to and the secrets still held. */
  datatype Store = Store(chainHead: Digest, entries: map<u64, Seed>)

  // ---------------------------------------------------------------- sealing

  /** What an epoch's sealed seed is tied to: no seed can move to another file or another number. */
  function EntryAad(header: Bytes, number: u64): Bytes {
    header + U64(number)
  }

  function Placeholders(items: seq<(u64, Seed)>, random: Randomness): (entries: seq<RawEntry>)
    ensures |entries| == |items|
  {
    seq(|items|, i requires 0 <= i < |items| => RawEntry(items[i].0, random.nonce(i), Zeros(48)))
  }

  function SealedEntries(v: Vault, key: Bytes, header: Bytes, items: seq<(u64, Seed)>, random: Randomness)
    : (entries: seq<RawEntry>)
    requires Tagged(v.cipher)
    ensures |entries| == |items|
  {
    seq(|items|, i requires 0 <= i < |items| =>
      RawEntry(items[i].0, random.nonce(i),
               v.cipher.seal(key, random.nonce(i), EntryAad(header, items[i].0), items[i].1)))
  }

  /** The sealed file: the body's length goes into the header before any ciphertext exists. */
  function SealedFile(v: Vault, store: Store, passphrase: string, random: Randomness): Result<Bytes, KeyringError>
    requires Tagged(v.cipher)
  {
    var normal := v.nfc(passphrase);
    if |normal| < MIN_PASSPHRASE_LEN then Err(PassphraseTooShort(MIN_PASSPHRASE_LEN))
    else if |store.entries| > MAX_ENTRIES then Err(TooManyEntries(MAX_ENTRIES))
    else
      var items := Items(store.entries);
      BodySize(Placeholders(items, random));
      var header := EncodeHeader(WRITER, random.salt, store.chainHead, |EncodedBody(Placeholders(items, random))|);
      var key := v.derive(normal, WRITER, random.salt);
      var signedPart := header + EncodedBody(SealedEntries(v, key, header, items, random));
      var nonce := random.nonce(|items|);
      Ok(signedPart + nonce + v.cipher.seal(key, nonce, signedPart, []))
  }

  // ---------------------------------------------------------------- opening

  /** The spellings a reader tries, in order, without repeats. */
  function Candidates(v: Vault, passphrase: string): seq<string> {
    var forms := [v.nfc(passphrase)];
    var more := if passphrase in forms then forms else forms + [passphrase];
    if v.nfd(passphrase) in more then more else more + [v.nfd(passphrase)]
  }

  /** The key of the first candidate under which the trailer authenticates the file. */
  function FirstKey(v: Vault, l: Layout, authenticated: Bytes, candidates: seq<string>): Option<Bytes> {
    if candidates == [] then None
    else
      var key := v.derive(candidates[0], l.params, l.salt);
      if v.cipher.open(key, l.trailerNonce, authenticated, l.trailerTag).Some? then Some(key)
      else FirstKey(v, l, authenticated, candidates[1..])
  }

  function OpenEntry(v: Vault, key: Bytes, header: Bytes, entry: RawEntry): Option<(u64, Seed)> {
    match v.cipher.open(key, entry.nonce, EntryAad(header, entry.number), entry.sealed)
    case None => None
    case Some(seed) => if |seed| == 32 then Some((entry.number, seed)) else None
  }

  function OpenEntries(v: Vault, key: Bytes, header: Bytes, entries: seq<RawEntry>): Option<seq<(u64, Seed)>> {
    if entries == [] then Some([])
    else
      var last := |entries| - 1;
      match OpenEntries(v, key, header, entries[..last])
      case None => None
      case Some(items) =>
        match OpenEntry(v, key, header, entries[last])
        case None => None
        case Some(item) => Some(items + [item])
  }

  function Opened(v: Vault, s: Bytes, passphrase: string): Result<Store, KeyringError> {
    match Parse(s)
    case Err(error) => Err(error)
    case Ok(l) =>
      match FirstKey(v, l, s[..HEADER_LEN + l.bodyLen], Candidates(v, passphrase))
      case None => Err(WrongPassphrase)
      case Some(key) =>
        match OpenEntries(v, key, l.header, l.entries)
        case None => Err(WrongPassphrase)
        case Some(items) => Ok(Store(l.chainHead, FromItems(items)))
  }

  // ---------------------------------------------------------------- the round trip

  lemma {:induction false} OpenSealed(
      v: Vault, key: Bytes, header: Bytes, items: seq<(u64, Seed)>, random: Randomness, k: nat)
    requires Correct(v.cipher) && k <= |items|
    ensures OpenEntries(v, key, header, SealedEntries(v, key, header, items, random)[..k]) == Some(items[..k])
  {
    if k > 0 {
      OpenSealed(v, key, header, items, random, k - 1);
      var entries := SealedEntries(v, key, header, items, random)[..k];
      assert entries[..k - 1] == SealedEntries(v, key, header, items, random)[..k - 1];
      assert items[..k] == items[..k - 1] + [items[k - 1]];
      var (number, seed) := items[k - 1];
      var nonce, aad := random.nonce(k - 1), EntryAad(header, number);
      assert entries[k - 1] == RawEntry(number, nonce, v.cipher.seal(key, nonce, aad, seed));
      assert v.cipher.open(key, nonce, aad, v.cipher.seal(key, nonce, aad, seed)) == Some(seed);
    }
  }

  /** The length fixed from placeholders is the length of the sealed body, and numbers still rise. */
  lemma SealedShape(v: Vault, key: Bytes, header: Bytes, items: seq<(u64, Seed)>, random: Randomness)
    requires Tagged(v.cipher) && |items| <= MAX_ENTRIES && Ascending(items)
    ensures |EncodedBody(SealedEntries(v, key, header, items, random))| == |EncodedBody(Placeholders(items, random))|
    ensures AscendingEntries(SealedEntries(v, key, header, items, random))
  {
    SizeDependsOnNumbers(SealedEntries(v, key, header, items, random), Placeholders(items, random));
  }

  /** The parts a seal is made of, each named once. */
  datatype Parts = Parts(
    items: seq<(u64, Seed)>, key: Bytes, header: Bytes, entries: seq<RawEntry>, nonce: Nonce, tag: Tag)

  ghost function PartsOf(v: Vault, store: Store, passphrase: string, random: Randomness): (p: Parts)
    requires Tagged(v.cipher) && |store.entries| <= MAX_ENTRIES
    ensures |p.entries| <= MAX_ENTRIES
  {
    var items := Items(store.entries);
    BodySize(Placeholders(items, random));
    var header := EncodeHeader(WRITER, random.salt, store.chainHead, |EncodedBody(Placeholders(items, random))|);
    var key := v.derive(v.nfc(passphrase), WRITER, random.salt);
    var entries := SealedEntries(v, key, header, items, random);
    var nonce := random.nonce(|items|);
    Parts(items, key, header, entries, nonce, v.cipher.seal(key, nonce, header + EncodedBody(entries), []))
  }

  /** The sealed file is the canonical assembly of its parts. */
  lemma SealedFileParts(v: Vault, store: Store, passphrase: string, random: Randomness)
    requires Tagged(v.cipher) && |v.nfc(passphrase)| >= MIN_PASSPHRASE_LEN && |store.entries| <= MAX_ENTRIES
    ensures var p := PartsOf(v, store, passphrase, random);
            && AscendingEntries(p.entries) && |EncodedBody(p.entries)| <= MAX_BODY_LEN
            && p.header == EncodeHeader(WRITER, random.salt, store.chainHead, |EncodedBody(p.entries)|)
            && SealedFile(v, store, passphrase, random)
               == Ok(FileBytes(WRITER, random.salt, store.chainHead, p.entries, p.nonce, p.tag))
  {
    var p := PartsOf(v, store, passphrase, random);
    SealedShape(v, p.key, p.header, p.items, random);
    BodySize(p.entries);
    hide Items, EncodedBody, EncodeHeader, Placeholders, SealedEntries, AscendingEntries;
  }

  lemma PartsShape(v: Vault, store: Store, passphrase: string, random: Randomness)
    requires Tagged(v.cipher) && |store.entries| <= MAX_ENTRIES
    ensures var p := PartsOf(v, store, passphrase, random);
            && p.items == Items(store.entries) && p.key == v.derive(v.nfc(passphrase), WRITER, random.salt)
            && p.entries == SealedEntries(v, p.key, p.header, p.items, random)
            && p.tag == v.cipher.seal(p.key, p.nonce, p.header + EncodedBody(p.entries), [])
  {
    hide Items, EncodedBody, SealedEntries, EncodeHeader, Placeholders;
  }

  /** Every part opens under the key it was sealed with. */
  lemma PartsOpen(v: Vault, store: Store, passphrase: string, random: Randomness)
    requires Correct(v.cipher) && |store.entries| <= MAX_ENTRIES
    ensures var p := PartsOf(v, store, passphrase, random);
            && p.key == v.derive(v.nfc(passphrase), WRITER, random.salt)
            && v.cipher.open(p.key, p.nonce, p.header + EncodedBody(p.entries), p.tag).Some?
            && OpenEntries(v, p.key, p.header, p.entries) == Some(p.items)
            && FromItems(p.items) == store.entries
  {
    hide Items, EncodedBody, EncodeHeader, Placeholders, SealedEntries, OpenEntries, FromItems, PartsOf;
    var p := PartsOf(v, store, passphrase, random);
    PartsShape(v, store, passphrase, random);
    OpenSealed(v, p.key, p.header, p.items, random, |p.items|);
    assert p.entries[..|p.items|] == p.entries && p.items[..|p.items|] == p.items;
    FromItemsOfItems(store.entries);
  }

  /**
   For any store within the limit and any accepted passphrase, opening the sealed file gives back
   the same head and secrets, and the file is within the size a reader accepts.
   */
  lemma SealThenOpen(v: Vault, store: Store, passphrase: string, random: Randomness)
    requires Correct(v.cipher) && |v.nfc(passphrase)| >= MIN_PASSPHRASE_LEN && |store.entries| <= MAX_ENTRIES
    ensures var file := SealedFile(v, store, passphrase, random);
            && file.Ok? && |file.value| <= MAX_FILE_LEN
            && Opened(v, file.value, passphrase) == Ok(store)
  {
    hide SealedFile, Opened, OpenEntries, PartsOf, FromItems, EncodedBody, EncodeHeader, FileBytes, AscendingEntries,
      Parse, Tagged;
    SealedFileParts(v, store, passphrase, random);
    PartsOpen(v, store, passphrase, random);
    var p := PartsOf(v, store, passphrase, random);
    FileRoundTrip(WRITER, random.salt, store.chainHead, p.entries, p.nonce, p.tag);
    AuthenticatedPart(random.salt, store.chainHead, p.entries, p.nonce, p.tag);
    OpenedWhen(v, FileBytes(WRITER, random.salt, store.chainHead, p.entries, p.nonce, p.tag), passphrase,
               Layout(WRITER, random.salt, store.chainHead, p.header, |EncodedBody(p.entries)|, p.entries, p.nonce,
                      p.tag),
               p.key, p.items);
  }

  lemma SealLimits(v: Vault, store: Store, passphrase: string, random: Randomness)
    requires Tagged(v.cipher) && SealedFile(v, store, passphrase, random).Ok?
    ensures |v.nfc(passphrase)| >= MIN_PASSPHRASE_LEN && |store.entries| <= MAX_ENTRIES
  {
    hide Items, EncodedBody, SealedEntries;
  }

  /** How a sealed file parses, and how its trailer was made. */
  lemma SealedLayout(v: Vault, store: Store, passphrase: string, random: Randomness) returns (l: Layout)
    requires Tagged(v.cipher) && SealedFile(v, store, passphrase, random).Ok?
    ensures var file := SealedFile(v, store, passphrase, random).value;
            && Parse(file) == Ok(l) && l.params == WRITER && l.salt == random.salt
            && |file| >= HEADER_LEN + l.bodyLen
            && l.trailerTag == v.cipher.seal(v.derive(v.nfc(passphrase), WRITER, random.salt),
                                             l.trailerNonce, file[..HEADER_LEN + l.bodyLen], [])
  {
    hide SealedFile, PartsOf, EncodedBody, EncodeHeader, FileBytes, AscendingEntries, Parse, Tagged;
    SealLimits(v, store, passphrase, random);
    SealedFileParts(v, store, passphrase, random);
    PartsShape(v, store, passphrase, random);
    var p := PartsOf(v, store, passphrase, random);
    FileRoundTrip(WRITER, random.salt, store.chainHead, p.entries, p.nonce, p.tag);
    AuthenticatedPart(random.salt, store.chainHead, p.entries, p.nonce, p.tag);
    l := Parse(SealedFile(v, store, passphrase, random).value).value;
  }

  /** What the trailer covers is everything in front of it. */
  lemma AuthenticatedPart(salt: Salt, chainHead: Digest, entries: seq<RawEntry>, nonce: Nonce, tag: Tag)
    requires |entries| <= MAX_ENTRIES
    ensures |EncodedBody(entries)| <= MAX_BODY_LEN
    ensures var file := FileBytes(WRITER, salt, chainHead, entries, nonce, tag);
            var header := EncodeHeader(WRITER, salt, chainHead, |EncodedBody(entries)|);
            && |file| >= HEADER_LEN + |EncodedBody(entries)|
            && file[..HEADER_LEN] == header
            && file[..HEADER_LEN + |EncodedBody(entries)|] == header + EncodedBody(entries)
  {
    BodySize(entries);
    hide EncodedBody, EncodeHeader;
  }

  lemma OpenedWhen(v: Vault, s: Bytes, passphrase: string, l: Layout, key: Bytes, items: seq<(u64, Seed)>)
    requires Parse(s) == Ok(l)
    requires key == v.derive(v.nfc(passphrase), l.params, l.salt)
    requires v.cipher.open(key, l.trailerNonce, s[..HEADER_LEN + l.bodyLen], l.trailerTag).Some?
    requires OpenEntries(v, key, l.header, l.entries) == Some(items)
    ensures Opened(v, s, passphrase) == Ok(Store(l.chainHead, FromItems(items)))
  {
    hide Parse, OpenEntries, FromItems;
    assert Candidates(v, passphrase)[0] == v.nfc(passphrase);
  }

  // ---------------------------------------------------------------- the store object

  class EpochStore {
    var chainHead: Digest
    var entries: map<u64, Seed>

    constructor (chainHead: Digest)
      ensures State() == Store(chainHead, map[])
    {
      this.chainHead, entries := chainHead, map[];
    }

    function State(): Store
      reads this
    {
      Store(chainHead, entries)
    }

    method Insert(number: u64, secret: Seed) returns (outcome: Outcome<KeyringError>)
      modifies this`entries
      ensures if number !in old(entries) && |old(entries)| >= MAX_ENTRIES
              then outcome == Fail(TooManyEntries(MAX_ENTRIES)) && entries == old(entries)
              else outcome == Pass && entries == old(entries)[number := secret]
    {
      if number !in entries && |entries| >= MAX_ENTRIES {
        return Fail(TooManyEntries(MAX_ENTRIES));
      }
      entries := entries[number := secret];
      return Pass;
    }

    method Remove(number: u64) returns (removed: bool)
      modifies this`entries
      ensures removed == (number in old(entries)) && entries == old(entries) - {number}
    {
      removed := number in entries;
      entries := entries - {number};
    }

    method Seal(v: Vault, passphrase: string, random: Randomness) returns (result: Result<Bytes, KeyringError>)
      requires Tagged(v.cipher)
      ensures result == SealedFile(v, State(), passphrase, random)
    {
      var normal := v.nfc(passphrase);
      if |normal| < MIN_PASSPHRASE_LEN {
        return Err(PassphraseTooShort(MIN_PASSPHRASE_LEN));
      }
      if |entries| > MAX_ENTRIES {
        return Err(TooManyEntries(MAX_ENTRIES));
      }
      var items := Items(entries);
      BodySize(Placeholders(items, random));
      var sized := EncodeBody(Placeholders(items, random));
      var header := EncodeHeader(WRITER, random.salt, chainHead, |sized|);
      var key := v.derive(normal, WRITER, random.salt);
      var body := EncodeBody(SealedEntries(v, key, header, items, random));
      var out := header + body;
      var nonce := random.nonce(|items|);
      var tag := v.cipher.seal(key, nonce, out, []);
      return Ok(out + nonce + tag);
    }

    /** Parsed and bounded first, authenticated next; only then is any seed decrypted. */
    static method Open(v: Vault, s: Bytes, passphrase: string) returns (result: Result<EpochStore, KeyringError>)
      ensures match Opened(v, s, passphrase)
              case Ok(store) => result.Ok? && fresh(result.value) && result.value.State() == store
              case Err(error) => result == Err(error)
    {
      var parsed := Parse(s);
      if parsed.Err? {
        return Err(parsed.error);
      }
      var l := parsed.value;
      var key := FirstKey(v, l, s[..HEADER_LEN + l.bodyLen], Candidates(v, passphrase));
      if key.None? {
        return Err(WrongPassphrase);
      }
      hide Parse, FirstKey, Candidates;
      var store := new EpochStore(l.chainHead);
      var all := store.LoadEntries(v, key.value, l.header, l.entries);
      if !all {
        return Err(WrongPassphrase);
      }
      return Ok(store);
    }

    /** Decrypts the entries one by one into the map; false as soon as one does not open. */
    method LoadEntries(v: Vault, key: Bytes, header: Bytes, raw: seq<RawEntry>) returns (all: bool)
      requires entries == map[]
      modifies this`entries
      ensures match OpenEntries(v, key, header, raw)
              case None => !all
              case Some(items) => all && entries == FromItems(items)
    {
      hide OpenEntry;
      ghost var done: seq<(u64, Seed)> := [];
      for k := 0 to |raw|
        invariant OpenEntries(v, key, header, raw[..k]) == Some(done)
        invariant entries == FromItems(done)
      {
        assert raw[..k + 1][..k] == raw[..k];
        var item := OpenEntry(v, key, header, raw[k]);
        if item.None? {
          NoneOpens(v, key, header, raw, k + 1);
          return false;
        }
        entries := entries[item.value.0 := item.value.1];
        assert (done + [item.value])[..|done|] == done;
        done := done + [item.value];
      }
      assert raw[..|raw|] == raw;
      return true;
    }
  }

  lemma {:induction false} NoneOpens(v: Vault, key: Bytes, header: Bytes, entries: seq<RawEntry>, k: nat)
    requires k <= |entries| && OpenEntries(v, key, header, entries[..k]) == None
    ensures OpenEntries(v, key, header, entries) == None
    decreases |entries|
  {
    if k < |entries| {
      assert entries[..|entries| - 1][..k] == entries[..k];
      NoneOpens(v, key, header, entries[..|entries| - 1], k);
    } else {
      assert entries[..k] == entries;
    }
  }
}
