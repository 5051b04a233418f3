/** Exactly what each epoch command does to the two files, and when (apps/hide-cli/src/main.rs). */
module CommandRules {
  import opened Bytes
  import opened EpochChains
  import opened EpochCodec
  import opened EpochFiles
  import opened EpochStores
  import opened Hashing
  import opened Results
  import opened SortedKeys
  import Aead
  import EpochRules
  import EpochStoreFormat

  // ---------------------------------------------------------------- two files that belong together

  /** Each secret of the store is that of its record. */
  predicate StoreFits(w: World, records: seq<EpochRecord>, store: Store) {
    && records != []
    && store.chainHead == records[|records| - 1].link
    && forall n :: n in store.entries ==> n < |records| && w.keyOf(store.entries[n]) == records[n].publicKey
  }

  /** A history and a store of the sizes that are read, both in order, and the one belonging to the other. */
  predicate Together(w: World, disk: Disk, passphrase: string, records: seq<EpochRecord>, store: Store) {
    && disk.history.Some? && |disk.history.value| <= 16777216
    && 1 <= |records| <= 1_000_000 && disk.history.value == EpochRules.HistoryForm(records)
    && ChainVerdict(w.hash, records) == Pass
    && disk.store.Some? && |disk.store.value| <= 4784231
    && Opened(w.vault, disk.store.value, passphrase) == Ok(store)
    && StoreFits(w, records, store)
  }

  /** The slots of a chain hold what the store has for them. */
  predicate Slots(secrets: seq<Option<Seed>>, records: seq<EpochRecord>, store: Store) {
    && |secrets| == |records|
    && forall n: u64 :: n < |records| ==>
         secrets[n] == if n in store.entries then Some(store.entries[n]) else None
  }

  /** The entries of a map are its items. */
  lemma ItemsExactly(entries: map<u64, Seed>, n: u64, seed: Seed)
    ensures (n, seed) in Items(entries) <==> n in entries && entries[n] == seed
  {
    var items := Items(entries);
    if n in entries {
      ItemsHaveAll(entries, n);
      var i :| 0 <= i < |items| && items[i].0 == n;
      assert items[i] == (n, entries[n]);
    }
  }

  lemma FitsExactly(w: World, records: seq<EpochRecord>, store: Store)
    requires records != [] && store.chainHead == records[|records| - 1].link
    ensures EpochRules.Fitting(w.keyOf, records, Items(store.entries)) <==> StoreFits(w, records, store)
  {
    var items := Items(store.entries);
    hide Items;
    if EpochRules.Fitting(w.keyOf, records, items) {
      forall n | n in store.entries
        ensures n < |records| && w.keyOf(store.entries[n]) == records[n].publicKey
      {
        ItemsExactly(store.entries, n, store.entries[n]);
        var i :| 0 <= i < |items| && items[i] == (n, store.entries[n]);
      }
    }
  }

  lemma RestoredFromStore(w: World, records: seq<EpochRecord>, store: Store)
    requires ChainVerdict(w.hash, records) == Pass && 1 <= |records| <= 1_000_000
    requires store.chainHead == records[|records| - 1].link
    ensures Restored(w.hash, w.keyOf, records, Items(store.entries)).Ok? <==> StoreFits(w, records, store)
    ensures Restored(w.hash, w.keyOf, records, Items(store.entries)).Ok? ==>
              Slots(Restored(w.hash, w.keyOf, records, Items(store.entries)).value, records, store)
  {
    hide ChainVerdict, Restored, Items, StoreFits, EpochRules.Fitting;
    var restored := Restored(w.hash, w.keyOf, records, Items(store.entries));
    EpochRules.RestoredExactly(w.hash, w.keyOf, records, Items(store.entries));
    FitsExactly(w, records, store);
    if restored.Ok? {
      forall n: u64 | n < |records|
        ensures restored.value[n] == if n in store.entries then Some(store.entries[n]) else None
      {
        if n in store.entries {
          ItemsExactly(store.entries, n, store.entries[n]);
        } else if restored.value[n].Some? {
          ItemsExactly(store.entries, n, restored.value[n].value);
        }
      }
    }
  }

  /** The files hold this chain: its records, and its secrets in the places the store gives them. */
  predicate HoldsChain(w: World, disk: Disk, passphrase: string, chain: Chain, store: Store) {
    Together(w, disk, passphrase, chain.records, store) && Slots(chain.secrets, chain.records, store)
  }

  /** A chain is loaded if and only if the two files hold it. */
  lemma LoadedExactly(w: World, disk: Disk, passphrase: string, chain: Chain)
    ensures Load(w, disk, passphrase) == Ok(chain) <==> exists store :: HoldsChain(w, disk, passphrase, chain, store)
  {
    if Load(w, disk, passphrase) == Ok(chain) {
      LoadedIsHeld(w, disk, passphrase);
    }
    if store :| HoldsChain(w, disk, passphrase, chain, store) {
      HeldIsLoaded(w, disk, passphrase, chain, store);
    }
    hide Load, Opened;
  }

  lemma LoadedIsHeld(w: World, disk: Disk, passphrase: string)
    requires Load(w, disk, passphrase).Ok?
    ensures disk.store.Some? && Opened(w.vault, disk.store.value, passphrase).Ok?
    ensures HoldsChain(w, disk, passphrase, Load(w, disk, passphrase).value,
                       Opened(w.vault, disk.store.value, passphrase).value)
  {
    hide Opened, DecodedRecords, ChainVerdict, Restored, Items, StoreFits, EpochRules.HistoryForm, Slots;
    var chain := Load(w, disk, passphrase).value;
    EpochRules.DecodedExactly(disk.history.value, chain.records);
    NotEmpty(w, chain.records, Items(Opened(w.vault, disk.store.value, passphrase).value.entries));
    LastLink(chain.records);
    RestoredFromStore(w, chain.records, Opened(w.vault, disk.store.value, passphrase).value);
  }

  lemma NotEmpty(w: World, records: seq<EpochRecord>, supplied: seq<(u64, Seed)>)
    requires Restored(w.hash, w.keyOf, records, supplied).Ok?
    ensures records != []
  {
    hide Place, ChainVerdict;
  }

  lemma LastLink(records: seq<EpochRecord>)
    requires records != []
    ensures HeadOf(records) == records[|records| - 1].link
  {
  }

  lemma HeldIsLoaded(w: World, disk: Disk, passphrase: string, chain: Chain, store: Store)
    requires HoldsChain(w, disk, passphrase, chain, store)
    ensures Load(w, disk, passphrase) == Ok(chain)
  {
    hide Opened, DecodedRecords, ChainVerdict, Restored, Items, EpochRules.HistoryForm, Slots;
    EpochRules.DecodedExactly(disk.history.value, chain.records);
    LastLink(chain.records);
    RestoredFromStore(w, chain.records, store);
    SameSlots(Restored(w.hash, w.keyOf, chain.records, Items(store.entries)).value, chain.secrets, chain.records,
              store);
  }

  lemma SameSlots(a: seq<Option<Seed>>, b: seq<Option<Seed>>, records: seq<EpochRecord>, store: Store)
    requires Slots(a, records, store) && Slots(b, records, store) && |records| <= 1_000_000
    ensures a == b
  {
    forall n | 0 <= n < |a| ensures a[n] == b[n] {
      var m: u64 := n;
      assert a[m] == b[m];
    }
  }

  // ---------------------------------------------------------------- the three commands

  /** The replacements that save `saved` and, after it, publish `records`: or why there are none. */
  function Publishing(w: World, records: seq<EpochRecord>, saved: Store, passphrase: string, random: Randomness)
    : Result<seq<Write>, CliError>
    requires Sound(w) && |records| < 0x1_0000_0000_0000_0000
  {
    if |saved.entries| > 65536 then Err(Keyring(EpochStoreFormat.TooManyEntries(65536)))
    else
      match SealedFile(w.vault, saved, passphrase, random)
      case Err(error) => Err(Keyring(error))
      case Ok(file) => Ok([ToStore(file), ToHistory(EpochRules.HistoryForm(records))])
  }

  /** The next epoch of these records. */
  predicate IsNext(w: World, records: seq<EpochRecord>, seed: Seed, next: EpochRecord)
    requires |records| < 0x1_0000_0000_0000_0000
  {
    && next.number == |records| && next.publicKey == w.keyOf(seed)
    && next.link == w.hash(EpochRules.LinkForm(records + [next], |records|))
  }

  lemma NextIs(w: World, records: seq<EpochRecord>, seed: Seed, next: EpochRecord)
    requires |records| < 0x1_0000_0000_0000_0000 && IsNext(w, records, seed, next)
    ensures next == NextRecord(w.hash, w.keyOf, records, seed)
  {
    var made := NextRecord(w.hash, w.keyOf, records, seed);
    EpochRules.NextExactly(w.hash, w.keyOf, records, seed);
    assert (records + [next])[|records|] == next && (records + [made])[|records|] == made;
    assert EpochRules.LinkForm(records + [next], |records|) == EpochRules.LinkForm(records + [made], |records|);
  }

  lemma HeldIsStore(chain: Chain, store: Store)
    requires Slots(chain.secrets, chain.records, store) && |chain.records| <= 1_000_000
    requires forall n :: n in store.entries ==> n < |chain.records|
    ensures HeldMap(chain.secrets) == store.entries
  {
  }

  lemma HeldMore(secrets: seq<Option<Seed>>, seed: Seed)
    requires |secrets| <= 1_000_000
    ensures HeldMap(secrets + [Some(seed)]) == HeldMap(secrets)[|secrets| := seed]
  {
  }

  lemma HeldLess(secrets: seq<Option<Seed>>, number: u64)
    requires |secrets| <= 1_000_000 && number < |secrets|
    ensures HeldMap(secrets[number := None]) == HeldMap(secrets) - {number}
  {
  }

  /** A published chain is sealed first and written after. */
  lemma PublishedExactly(w: World, chain: Chain, saved: Store, passphrase: string, random: Randomness)
    requires Sound(w) && 1 <= |chain.records| <= 1_000_000 && |chain.secrets| <= 1_000_000
    requires saved == Store(chain.records[|chain.records| - 1].link, HeldMap(chain.secrets))
    ensures Publish(w, chain, passphrase, random) == Publishing(w, chain.records, saved, passphrase, random)
  {
    hide SealedFile, EpochRules.HistoryForm, EncodedRecords, HeldMap, Sound;
    LastLink(chain.records);
    EpochRules.HistoryIsForm(chain.records);
  }

  /** A first epoch is made only where there is neither file; its secret is saved and then it is published. */
  lemma InitExactly(w: World, disk: Disk, passphrase: string, generated: Option<Seed>, random: Randomness,
                    next: EpochRecord)
    requires Sound(w) && (generated.Some? ==> IsNext(w, [], generated.value, next))
    ensures PlanOf(w, disk, Init(passphrase, generated, random))
         == if disk.history.Some? || disk.store.Some? then Err(OutputExists)
            else if generated.None? then Err(Epoch(Crypto))
            else Publishing(w, [next], Store(next.link, map[0 := generated.value]), passphrase, random)
  {
    hide SealedFile, EpochRules.HistoryForm, EncodedRecords, IsNext, Publish, Publishing, NextRecord, Sound;
    if disk.history.None? && disk.store.None? && generated.Some? {
      NextIs(w, [], generated.value, next);
      assert [] + [next] == [next] && [] + [generated] == [generated];
      assert HeldMap([generated]) == map[0 := generated.value];
      PublishedExactly(w, Chain([next], [generated]), Store(next.link, map[0 := generated.value]), passphrase, random);
    }
  }

  /** An epoch is added to files that hold a chain; its secret is saved with the old ones, then it is published. */
  lemma AdvanceExactly(w: World, disk: Disk, passphrase: string, generated: Option<Seed>, random: Randomness,
                       chain: Chain, store: Store, next: EpochRecord)
    requires Sound(w) && HoldsChain(w, disk, passphrase, chain, store)
    requires generated.Some? ==> IsNext(w, chain.records, generated.value, next)
    ensures PlanOf(w, disk, Advance(passphrase, generated, random))
         == if |chain.records| == 1_000_000 then Err(Epoch(TooManyRecords(1_000_000)))
            else if generated.None? then Err(Epoch(Crypto))
            else Publishing(w, chain.records + [next],
                            Store(next.link, store.entries[|chain.records| := generated.value]), passphrase, random)
  {
    hide SealedFile, EpochRules.HistoryForm, EncodedRecords, IsNext, Publish, Publishing, NextRecord, Load, HeldMap,
      Slots, Sound, HoldsChain;
    HeldIsLoaded(w, disk, passphrase, chain, store);
    HeldFacts(w, disk, passphrase, chain, store);
    if |chain.records| < 1_000_000 && generated.Some? {
      NextIs(w, chain.records, generated.value, next);
      HeldMore(chain.secrets, generated.value);
      var longer := Chain(chain.records + [next], chain.secrets + [generated]);
      PublishedExactly(w, longer, Store(next.link, store.entries[|chain.records| := generated.value]), passphrase,
                       random);
    }
  }

  /** A past epoch's secret is taken out of the store, and the history is left alone. */
  lemma EraseExactly(w: World, disk: Disk, number: u64, passphrase: string, random: Randomness, chain: Chain,
                     store: Store)
    requires Sound(w) && HoldsChain(w, disk, passphrase, chain, store)
    ensures PlanOf(w, disk, Erase(number, passphrase, random))
         == if number >= |chain.records| then Err(Epoch(UnknownEpoch(number)))
            else if number == |chain.records| - 1 then Err(IsCurrent(number))
            else if number !in store.entries then Err(AlreadyErased(number))
            else Erasing(w, Store(store.chainHead, store.entries - {number}), passphrase, random)
  {
    hide SealedFile, HeldMap, Load, Sound, Opened, HoldsChain, Erasing, SealChain;
    HeldIsLoaded(w, disk, passphrase, chain, store);
    HeldFacts(w, disk, passphrase, chain, store);
    if number < |chain.records| {
      ErasedExactly(w, chain, number, store, passphrase, random);
    }
  }

  lemma HeldFacts(w: World, disk: Disk, passphrase: string, chain: Chain, store: Store)
    requires HoldsChain(w, disk, passphrase, chain, store)
    ensures 1 <= |chain.records| <= 1_000_000 && |chain.secrets| == |chain.records|
    ensures store.chainHead == HeadOf(chain.records) && HeldMap(chain.secrets) == store.entries
    ensures forall n: u64 :: n < |chain.records| ==> (chain.secrets[n].Some? <==> n in store.entries)
  {
    hide Opened, EpochRules.HistoryForm, ChainVerdict, HeldMap;
    HeldIsStore(chain, store);
    LastLink(chain.records);
  }

  lemma ErasedExactly(w: World, chain: Chain, number: u64, store: Store, passphrase: string, random: Randomness)
    requires Sound(w) && number < |chain.secrets| <= 1_000_000
    requires store.chainHead == HeadOf(chain.records) && HeldMap(chain.secrets) == store.entries
    ensures var sealed := SealChain(w, Chain(chain.records, chain.secrets[number := None]), passphrase, random);
            var erasing := Erasing(w, Store(store.chainHead, store.entries - {number}), passphrase, random);
            erasing == if sealed.Err? then Err(sealed.error) else Ok([ToStore(sealed.value)])
  {
    hide SealedFile, HeldMap, Sound;
    HeldLess(chain.secrets, number);
  }

  /** The one replacement of an erase, or why there is none. */
  function Erasing(w: World, saved: Store, passphrase: string, random: Randomness): Result<seq<Write>, CliError>
    requires Sound(w)
  {
    if |saved.entries| > 65536 then Err(Keyring(EpochStoreFormat.TooManyEntries(65536)))
    else
      match SealedFile(w.vault, saved, passphrase, random)
      case Err(error) => Err(Keyring(error))
      case Ok(file) => Ok([ToStore(file)])
  }

  /** Advance and erase fail on files that hold no chain, each with the reason the files are not loaded. */
  lemma NothingHeld(w: World, disk: Disk, passphrase: string, generated: Option<Seed>, number: u64, random: Randomness)
    requires Sound(w) && forall chain, store :: !HoldsChain(w, disk, passphrase, chain, store)
    ensures Load(w, disk, passphrase).Err?
    ensures PlanOf(w, disk, Advance(passphrase, generated, random)) == Err(Load(w, disk, passphrase).error)
    ensures PlanOf(w, disk, Erase(number, passphrase, random)) == Err(Load(w, disk, passphrase).error)
  {
    hide Load, Opened, Sound, Publish, SealChain, HoldsChain, Longer;
    if Load(w, disk, passphrase).Ok? {
      LoadedIsHeld(w, disk, passphrase);
    }
  }

  // ---------------------------------------------------------------- a command that is cut short

  /** After one replacement the store is new and the history old; only after both are both new. */
  lemma CutExactly(w: World, disk: Disk, command: Command, budget: nat, saved: Bytes, published: Bytes)
    requires Sound(w) && PlanOf(w, disk, command) == Ok([ToStore(saved), ToHistory(published)])
    ensures Executed(w, disk, command, budget)
         == if budget == 0 then disk
            else if budget == 1 then Disk(disk.history, Some(saved))
            else Disk(Some(published), Some(saved))
    ensures Reported(w, disk, command, budget) == if budget < 2 then Fail(Crashed) else Pass
  {
    hide PlanOf, Sound;
    var writes := [ToStore(saved), ToHistory(published)];
    assert writes[..2] == writes && writes[..2][..1] == writes[..1] && writes[..1][..0] == writes[..0] == [];
    assert writes[..1] == [ToStore(saved)];
    assert Written(disk, []) == disk;
    assert Written(disk, writes[..1]) == Disk(disk.history, Some(saved));
  }

  lemma CutEraseExactly(w: World, disk: Disk, command: Command, budget: nat, saved: Bytes)
    requires Sound(w) && PlanOf(w, disk, command) == Ok([ToStore(saved)])
    ensures Executed(w, disk, command, budget) == if budget == 0 then disk else Disk(disk.history, Some(saved))
    ensures Reported(w, disk, command, budget) == if budget == 0 then Fail(Crashed) else Pass
  {
    hide PlanOf, Sound;
    var writes := [ToStore(saved)];
    assert writes[..1] == writes && writes[..1][..0] == writes[..0] == [];
    assert Written(disk, []) == disk;
  }
}
