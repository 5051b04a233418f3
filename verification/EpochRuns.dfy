/** What holds of the epoch files in every state any run of commands and crashes can reach. */
module EpochRuns {
  import opened Bytes
  import opened EpochChains
  import opened EpochCodec
  import opened EpochFiles
  import opened EpochStores
  import opened Hashing
  import opened Results
  import opened SortedKeys
  import EpochStoreFormat

  // ---------------------------------------------------------------- the invariant

  /** Of these passphrases, none opens the file but spellings of one normal form. */
  ghost predicate OpensOnlyTo(w: World, typed: set<string>, normal: string, file: Bytes) {
    forall q :: q in typed && w.vault.nfc(q) != normal ==> Opened(w.vault, file, q).Err?
  }

  /**
   Mistyping is noticed: the store this one command seals, if it gets that far, opens under no other
   passphrase that is typed. A cipher with short tags cannot promise that of every store at once.
   */
  ghost predicate Noticed(w: World, typed: set<string>, disk: Disk, command: Command)
    requires Sound(w)
  {
    var plan := PlanOf(w, disk, command);
    plan.Ok? ==> forall file :: ToStore(file) in plan.value ==>
                   OpensOnlyTo(w, typed, w.vault.nfc(command.passphrase), file)
  }

  lemma NoticedAt(w: World, typed: set<string>, disk: Disk, command: Command, file: Bytes)
    requires Sound(w) && Noticed(w, typed, disk, command)
    requires PlanOf(w, disk, command).Ok? && ToStore(file) in PlanOf(w, disk, command).value
    ensures OpensOnlyTo(w, typed, w.vault.nfc(command.passphrase), file)
  {
  }

  /** Where only one passphrase is typed, there is nothing to notice. */
  lemma NothingToNotice(w: World, disk: Disk, command: Command)
    requires Sound(w)
    ensures Noticed(w, {command.passphrase}, disk, command)
  {
    hide PlanOf, Opened;
  }

  /**
   The store file opens, under any spelling of the passphrase, to exactly what `kept` holds, and
   under no other passphrase that is typed.
   */
  ghost predicate StoreHolds(w: World, typed: set<string>, normal: string, file: Bytes, kept: Chain) {
    && |normal| >= MIN_PASSPHRASE_LEN
    && OpensOnlyTo(w, typed, normal, file)
    && kept.records != [] && ChainVerdict(w.hash, kept.records) == Pass
    && Matches(w.keyOf, kept.records, kept.secrets)
    && kept.secrets[|kept.secrets| - 1].Some?
    && |file| <= EpochStoreFormat.MAX_FILE_LEN
    && forall p :: w.vault.nfc(p) == normal ==>
         Opened(w.vault, file, p) == Ok(Store(HeadOf(kept.records), HeldMap(kept.secrets)))
  }

  /** The published history is the one the store was sealed for, or exactly one epoch behind it. */
  ghost predicate InStep(published: seq<EpochRecord>, kept: Chain) {
    && 0 < |published| <= |kept.records| <= |published| + 1
    && kept.records[..|published|] == published
    && |kept.secrets| == |kept.records| && kept.secrets[|published| - 1].Some?
  }

  ghost predicate Holds(
      w: World, typed: set<string>, normal: string, disk: Disk, published: seq<EpochRecord>, kept: Chain)
  {
    && (disk.store.None? ==> disk.history.None?)
    && (disk.store.Some? ==> StoreHolds(w, typed, normal, disk.store.value, kept))
    && (disk.history.Some? ==>
          && InStep(published, kept) && |published| <= MAX_CHAIN_ENTRIES
          && disk.history.value == EncodedRecords(published))
  }

  // ---------------------------------------------------------------- sealing and restoring

  /** Secrets that match their chain are restored exactly from the store that holds them. */
  lemma RestoredBack(w: World, chain: Chain)
    requires chain.records != [] && ChainVerdict(w.hash, chain.records) == Pass
    requires Matches(w.keyOf, chain.records, chain.secrets)
    ensures Restored(w.hash, w.keyOf, chain.records, Items(HeldMap(chain.secrets))) == Ok(chain.secrets)
  {
    hide Items;
    var items := Items(HeldMap(chain.secrets));
    var none := NoSecrets(|chain.records|);
    PlaceSucceeds(w.keyOf, chain.records, none, items);
    PlaceMeaning(w.keyOf, chain.records, none, items);
    var placed := Place(w.keyOf, chain.records, none, items).value;
    forall i | 0 <= i < |chain.records|
      ensures placed[i] == chain.secrets[i]
    {
      if chain.secrets[i].Some? {
        ItemsHaveAll(HeldMap(chain.secrets), i);
        var j :| 0 <= j < |items| && items[j].0 == i;
      }
    }
    assert placed == chain.secrets;
  }

  lemma {:induction false} PlaceSucceeds(keyOf: KeyOf, records: seq<EpochRecord>, held: seq<Option<Seed>>,
                                         items: seq<(u64, Seed)>)
    requires |held| == |records| && Ascending(items)
    requires forall j :: 0 <= j < |items| ==>
               && items[j].0 < |records| && keyOf(items[j].1) == records[items[j].0].publicKey
               && held[items[j].0].None?
    ensures Place(keyOf, records, held, items).Ok?
    decreases |items|
  {
    if items != [] {
      var (number, seed) := items[0];
      var next := held[number := Some(seed)];
      assert forall j :: 0 <= j < |items[1..]| ==> items[1..][j] == items[j + 1] && items[j + 1].0 > number;
      PlaceSucceeds(keyOf, records, next, items[1..]);
    }
  }

  /** What is sealed under one spelling opens under every spelling. */
  lemma SealedOpens(w: World, chain: Chain, passphrase: string, random: Randomness, p: string)
    requires Sound(w) && |chain.secrets| < 0x1_0000_0000_0000_0000
    requires SealChain(w, chain, passphrase, random).Ok?
    requires w.vault.nfc(p) == w.vault.nfc(passphrase)
    ensures |SealChain(w, chain, passphrase, random).value| <= EpochStoreFormat.MAX_FILE_LEN
    ensures Opened(w.vault, SealChain(w, chain, passphrase, random).value, p)
         == Ok(Store(HeadOf(chain.records), HeldMap(chain.secrets)))
  {
    var store := Store(HeadOf(chain.records), HeldMap(chain.secrets));
    assert SealedFile(w.vault, store, passphrase, random) == SealedFile(w.vault, store, p, random);
    hide Opened, HeldMap;
    assert |w.vault.nfc(p)| >= MIN_PASSPHRASE_LEN;
    SealThenOpen(w.vault, store, p, random);
  }

  lemma SealedHolds(
      w: World, typed: set<string>, normal: string, chain: Chain, passphrase: string, random: Randomness)
    requires Sound(w) && w.vault.nfc(passphrase) == normal
    requires chain.records != [] && ChainVerdict(w.hash, chain.records) == Pass
    requires Matches(w.keyOf, chain.records, chain.secrets) && chain.secrets[|chain.secrets| - 1].Some?
    requires |chain.records| <= MAX_CHAIN_ENTRIES && SealChain(w, chain, passphrase, random).Ok?
    requires OpensOnlyTo(w, typed, normal, SealChain(w, chain, passphrase, random).value)
    ensures StoreHolds(w, typed, normal, SealChain(w, chain, passphrase, random).value, chain)
  {
    SealedBy(w, chain, passphrase, random);
    hide SealChain, SealedFile, Opened, HeldMap, ChainVerdict;
    SealedOpens(w, chain, passphrase, random, passphrase);
    forall p | w.vault.nfc(p) == normal
      ensures Opened(w.vault, SealChain(w, chain, passphrase, random).value, p)
           == Ok(Store(HeadOf(chain.records), HeldMap(chain.secrets)))
    {
      SealedOpens(w, chain, passphrase, random, p);
    }
  }

  lemma SealedBy(w: World, chain: Chain, passphrase: string, random: Randomness)
    requires Sound(w) && |chain.secrets| < 0x1_0000_0000_0000_0000 && SealChain(w, chain, passphrase, random).Ok?
    ensures |w.vault.nfc(passphrase)| >= MIN_PASSPHRASE_LEN
    ensures SealedFile(w.vault, Store(HeadOf(chain.records), HeldMap(chain.secrets)), passphrase, random)
         == Ok(SealChain(w, chain, passphrase, random).value)
  {
    hide HeldMap, EpochStoreFormat.EncodedBody, Items;
  }

  // ---------------------------------------------------------------- loading

  /** A verified chain cut short is verified. */
  lemma CutVerified(w: World, records: seq<EpochRecord>, k: nat)
    requires ChainVerdict(w.hash, records) == Pass && k <= |records|
    ensures ChainVerdict(w.hash, records[..k]) == Pass
  {
    if k < |records| {
      RecordFacts(w.hash, records, k);
    } else {
      assert records[..k] == records;
    }
  }

  /** A store one epoch ahead of the history is refused, even if the two heads collide. */
  lemma AheadIsRefused(w: World, published: seq<EpochRecord>, kept: Chain)
    requires InStep(published, kept) && |published| < |kept.records| && |kept.records| < 0x1_0000_0000_0000_0000
    requires kept.secrets[|kept.secrets| - 1].Some?
    ensures Restored(w.hash, w.keyOf, published, Items(HeldMap(kept.secrets))).Err?
  {
    var items := Items(HeldMap(kept.secrets));
    if Restored(w.hash, w.keyOf, published, items).Ok? {
      PlaceMeaning(w.keyOf, published, NoSecrets(|published|), items);
      ItemsHaveAll(HeldMap(kept.secrets), |published|);
    }
  }

  /** Loading, once both files have been read and understood. */
  lemma LoadSteps(w: World, disk: Disk, p: string, records: seq<EpochRecord>, store: Store)
    requires disk.history.Some? && |disk.history.value| <= MAX_LOG_FILE
    requires DecodedRecords(disk.history.value) == Ok(records) && ChainVerdict(w.hash, records) == Pass
    requires disk.store.Some? && |disk.store.value| <= EpochStoreFormat.MAX_FILE_LEN
    requires Opened(w.vault, disk.store.value, p) == Ok(store)
    ensures var restored := Restored(w.hash, w.keyOf, records, Items(store.entries));
            Load(w, disk, p)
            == if store.chainHead != HeadOf(records) then Err(NotTogether)
               else if restored.Err? then Err(Epoch(restored.error))
               else Ok(Chain(records, restored.value))
  {
    hide DecodedRecords, ChainVerdict, Opened, Restored, Items, HeadOf;
  }

  /** What a look at the files under passphrase `p` says: readable, and not one epoch ahead. */
  ghost predicate Loadable(w: World, disk: Disk, p: string) {
    && disk.history.Some? && |disk.history.value| <= MAX_LOG_FILE && Level(w, disk, p)
  }

  /** The store has no secret beyond the published history. */
  ghost predicate Level(w: World, disk: Disk, p: string) {
    && disk.history.Some? && DecodedRecords(disk.history.value).Ok?
    && disk.store.Some? && Opened(w.vault, disk.store.value, p).Ok?
    && |DecodedRecords(disk.history.value).value| !in Opened(w.vault, disk.store.value, p).value.entries
  }

  lemma LevelExactly(
      w: World, typed: set<string>, normal: string, disk: Disk, published: seq<EpochRecord>, kept: Chain, p: string)
    requires Holds(w, typed, normal, disk, published, kept) && w.vault.nfc(p) == normal
    ensures Level(w, disk, p) <==> disk.history.Some? && kept.records == published
  {
    hide Opened, DecodedRecords, EncodedRecords, ChainVerdict, HeadOf, Matches;
    if disk.history.Some? {
      RecordsRoundTrip(published);
      assert Opened(w.vault, disk.store.value, p).value.entries == HeldMap(kept.secrets);
      assert kept.records != published ==> |kept.records| == |published| + 1;
      assert kept.records[..|published|] == published;
    }
  }

  /**
   In every state that holds and for every passphrase typed, loading succeeds exactly when the files
   are loadable; it then yields what was sealed.
   */
  lemma LoadExactly(
      w: World, typed: set<string>, normal: string, disk: Disk, published: seq<EpochRecord>, kept: Chain, p: string)
    requires Holds(w, typed, normal, disk, published, kept) && p in typed
    ensures var loaded := Load(w, disk, p);
            && (loaded.Ok? <==> Loadable(w, disk, p))
            && (loaded.Ok? ==> loaded.value == kept && kept.records == published && w.vault.nfc(p) == normal)
  {
    if w.vault.nfc(p) == normal {
      LevelExactly(w, typed, normal, disk, published, kept, p);
      LoadWith(w, typed, normal, disk, published, kept, p);
      hide Load, Level, Opened;
    } else if disk.store.Some? {
      hide DecodedRecords, Opened, Restored, ChainVerdict, HeldMap, Items;
      assert Opened(w.vault, disk.store.value, p).Err?;
    }
  }

  /** Loading under the passphrase the store was sealed with. */
  lemma LoadWith(
      w: World, typed: set<string>, normal: string, disk: Disk, published: seq<EpochRecord>, kept: Chain, p: string)
    requires Holds(w, typed, normal, disk, published, kept) && w.vault.nfc(p) == normal
    ensures var loaded := Load(w, disk, p);
            && (loaded.Ok? <==> disk.history.Some? && |disk.history.value| <= MAX_LOG_FILE && kept.records == published)
            && (loaded.Ok? ==> loaded.value == kept)
  {
    if disk.history.Some? && |disk.history.value| <= MAX_LOG_FILE {
      RecordsRoundTrip(published);
      CutVerified(w, kept.records, |published|);
      hide Load, Opened, DecodedRecords, EncodedRecords, Restored, HeldMap, ChainVerdict, Items, Matches;
      LoadSteps(w, disk, p, published, Store(HeadOf(kept.records), HeldMap(kept.secrets)));
      if kept.records == published {
        RestoredBack(w, kept);
      } else {
        AheadIsRefused(w, published, kept);
      }
    }
  }

  /** Everything known once a load has succeeded. */
  lemma LoadedFacts(
      w: World, typed: set<string>, normal: string, disk: Disk, published: seq<EpochRecord>, kept: Chain, p: string)
    requires Holds(w, typed, normal, disk, published, kept) && p in typed && Load(w, disk, p).Ok?
    ensures Load(w, disk, p) == Ok(kept) && kept.records == published && w.vault.nfc(p) == normal
    ensures disk.history.Some? && disk.store.Some? && 0 < |published| <= MAX_CHAIN_ENTRIES
    ensures disk.history.value == EncodedRecords(published) && InStep(published, kept)
    ensures ChainVerdict(w.hash, kept.records) == Pass && Matches(w.keyOf, kept.records, kept.secrets)
    ensures |kept.secrets| == |published| && kept.secrets[|published| - 1].Some?
  {
    LoadExactly(w, typed, normal, disk, published, kept, p);
    hide Load, Opened, EncodedRecords, HeldMap, ChainVerdict, DecodedRecords;
  }

  // ---------------------------------------------------------------- one command

  /** Erasure and history only ever grow from one state to the next. */
  ghost predicate Grows(before: Chain, after: Chain) {
    && before.records <= after.records
    && |before.secrets| <= |after.secrets|
    && forall i :: 0 <= i < |before.secrets| && before.secrets[i].None? ==> after.secrets[i].None?
  }

  /** No secret has been erased. */
  predicate AllHeld(chain: Chain) {
    forall i :: 0 <= i < |chain.secrets| ==> chain.secrets[i].Some?
  }

  lemma TwoWrites(disk: Disk, file: Bytes, history: Bytes)
    ensures Written(disk, [ToStore(file)]) == disk.(store := Some(file))
    ensures Written(disk, [ToStore(file), ToHistory(history)]) == Disk(Some(history), Some(file))
  {
    assert Written(disk, []) == disk;
    assert [ToStore(file)][..0] == [];
    assert [ToStore(file), ToHistory(history)][..1] == [ToStore(file)];
  }

  lemma LongerVerified(w: World, chain: Chain, generated: Option<Seed>)
    requires Sound(w) && ChainVerdict(w.hash, chain.records) == Pass && Matches(w.keyOf, chain.records, chain.secrets)
    requires Longer(w, chain, generated).Ok?
    ensures var longer := Longer(w, chain, generated).value;
            && ChainVerdict(w.hash, longer.records) == Pass && Matches(w.keyOf, longer.records, longer.secrets)
            && |longer.records| == |chain.records| + 1 <= MAX_CHAIN_ENTRIES
            && longer.records[..|chain.records|] == chain.records
            && longer.secrets[..|chain.secrets|] == chain.secrets
            && longer.secrets[|chain.secrets|].Some?
  {
    var longer := Longer(w, chain, generated).value;
    assert longer.records[..|chain.records|] == chain.records;
  }

  /** A saved chain that is one epoch ahead of what is published, or level with it. */
  lemma SavedHolds(
      w: World, typed: set<string>, normal: string, disk: Disk, published: seq<EpochRecord>, file: Bytes, kept: Chain)
    requires StoreHolds(w, typed, normal, file, kept)
    requires disk.history.Some? ==>
               && InStep(published, kept) && |published| <= MAX_CHAIN_ENTRIES
               && disk.history.value == EncodedRecords(published)
    ensures Holds(w, typed, normal, disk.(store := Some(file)), published, kept)
  {
  }

  lemma PublishedHolds(w: World, typed: set<string>, normal: string, file: Bytes, kept: Chain)
    requires StoreHolds(w, typed, normal, file, kept) && |kept.records| <= MAX_CHAIN_ENTRIES
    ensures Holds(w, typed, normal, Disk(Some(EncodedRecords(kept.records)), Some(file)), kept.records, kept)
  {
    assert kept.records[..|kept.records|] == kept.records;
  }

  lemma PublishFacts(w: World, chain: Chain, passphrase: string, random: Randomness)
    requires Sound(w) && |chain.secrets| <= MAX_CHAIN_ENTRIES && |chain.records| <= MAX_CHAIN_ENTRIES
    requires Publish(w, chain, passphrase, random).Ok?
    ensures var sealed := SealChain(w, chain, passphrase, random);
            && sealed.Ok?
            && Publish(w, chain, passphrase, random).value
               == [ToStore(sealed.value), ToHistory(EncodedRecords(chain.records))]
  {
    hide SealChain, EncodedRecords;
  }

  /** What each kind of command has computed when it starts to write. */
  lemma InitPlan(w: World, disk: Disk, command: Command)
    requires Sound(w) && command.Init? && PlanOf(w, disk, command).Ok?
    ensures disk == EMPTY_DISK && Longer(w, Chain([], []), command.generated).Ok?
    ensures var longer := Longer(w, Chain([], []), command.generated).value;
            && |longer.records| == 1 && |longer.secrets| == 1 && AllHeld(longer)
            && PlanOf(w, disk, command) == Publish(w, longer, command.passphrase, command.random)
  {
    hide Publish;
  }

  lemma AdvancePlan(w: World, disk: Disk, command: Command)
    requires Sound(w) && command.Advance? && PlanOf(w, disk, command).Ok?
    ensures Load(w, disk, command.passphrase).Ok?
    ensures var chain := Load(w, disk, command.passphrase).value;
            && Longer(w, chain, command.generated).Ok?
            && var longer := Longer(w, chain, command.generated).value;
               && |longer.records| <= MAX_CHAIN_ENTRIES && |longer.secrets| <= MAX_CHAIN_ENTRIES
               && PlanOf(w, disk, command) == Publish(w, longer, command.passphrase, command.random)
  {
    hide Publish, Load, ChainVerdict, Matches, HeadOf;
    LoadedShape(w, disk, command.passphrase);
  }

  lemma ErasePlan(w: World, disk: Disk, command: Command)
    requires Sound(w) && command.Erase? && PlanOf(w, disk, command).Ok?
    ensures Load(w, disk, command.passphrase).Ok?
    ensures var chain := Load(w, disk, command.passphrase).value;
            && |chain.secrets| == |chain.records| <= MAX_CHAIN_ENTRIES
            && command.number < |chain.records| - 1 && chain.secrets[command.number].Some?
            && var sealed := SealChain(w, Chain(chain.records, chain.secrets[command.number := None]),
                                       command.passphrase, command.random);
               sealed.Ok? && PlanOf(w, disk, command).value == [ToStore(sealed.value)]
  {
    LoadedShape(w, disk, command.passphrase);
    hide SealChain, Load;
  }

  /** No half-finished command: what was saved is what is published. */
  ghost predicate Even(disk: Disk, published: seq<EpochRecord>, kept: Chain) {
    disk.store.Some? ==> disk.history.Some? && kept.records == published
  }

  lemma InitHolds(
      w: World, typed: set<string>, disk: Disk, published: seq<EpochRecord>, command: Command, cut: nat)
    returns (published': seq<EpochRecord>, kept': Chain)
    requires Sound(w) && Noticed(w, typed, disk, command)
    requires command.Init? && PlanOf(w, disk, command).Ok? && 0 < cut <= |PlanOf(w, disk, command).value|
    ensures disk == EMPTY_DISK && |PlanOf(w, disk, command).value| == 2
    ensures var after := Written(disk, PlanOf(w, disk, command).value[..cut]);
            && Holds(w, typed, w.vault.nfc(command.passphrase), after, published', kept')
            && after.store.Some? && (cut == 2 ==> Even(after, published', kept'))
            && |kept'.records| == 1 && AllHeld(kept')
  {
    InitPlan(w, disk, command);
    LongerVerified(w, Chain([], []), command.generated);
    kept' := Longer(w, Chain([], []), command.generated).value;
    published' := if cut == 1 then published else kept'.records;
    hide Holds, SealChain, Longer, EncodedRecords, Written, PlanOf, Publish, ChainVerdict, Matches, StoreHolds, Sound,
      Noticed, OpensOnlyTo, AllHeld;
    var normal := w.vault.nfc(command.passphrase);
    PublishFacts(w, kept', command.passphrase, command.random);
    var file := SealChain(w, kept', command.passphrase, command.random).value;
    NoticedAt(w, typed, disk, command, file);
    SealedHolds(w, typed, normal, kept', command.passphrase, command.random);
    SavedHolds(w, typed, normal, disk, published, file, kept');
    PublishedHolds(w, typed, normal, file, kept');
    TwoWrites(disk, file, EncodedRecords(kept'.records));
    CutPlan(ToStore(file), ToHistory(EncodedRecords(kept'.records)), cut);
  }

  lemma CutPlan(a: Write, b: Write, cut: nat)
    requires 0 < cut <= 2
    ensures [a, b][..cut] == if cut == 1 then [a] else [a, b]
  {
  }

  lemma AdvanceHolds(
      w: World, typed: set<string>, normal: string, disk: Disk, published: seq<EpochRecord>, kept: Chain,
      command: Command, cut: nat)
    returns (published': seq<EpochRecord>, kept': Chain)
    requires Sound(w) && Noticed(w, typed, disk, command) && Holds(w, typed, normal, disk, published, kept)
    requires command.passphrase in typed
    requires command.Advance? && PlanOf(w, disk, command).Ok? && 0 < cut <= |PlanOf(w, disk, command).value|
    ensures |PlanOf(w, disk, command).value| == 2
    ensures var after := Written(disk, PlanOf(w, disk, command).value[..cut]);
            && Holds(w, typed, normal, after, published', kept')
            && after.store.Some? && after.history.Some? && Grows(kept, kept')
            && (cut == 2 ==> Even(after, published', kept'))
            && |kept'.records| == |published| + 1 && (cut == 1 ==> published' == published)
            && (AllHeld(kept) ==> AllHeld(kept'))
  {
    hide Holds, SealChain, Longer, EncodedRecords, Written, PlanOf, Publish, ChainVerdict, Matches, StoreHolds, Sound,
      Load,
      Noticed, OpensOnlyTo;
    AdvancePlan(w, disk, command);
    LoadedFacts(w, typed, normal, disk, published, kept, command.passphrase);
    LongerVerified(w, kept, command.generated);
    kept' := Longer(w, kept, command.generated).value;
    published' := if cut == 1 then published else kept'.records;
    PublishFacts(w, kept', command.passphrase, command.random);
    var file := SealChain(w, kept', command.passphrase, command.random).value;
    NoticedAt(w, typed, disk, command, file);
    SealedHolds(w, typed, normal, kept', command.passphrase, command.random);
    assert kept'.secrets[|published| - 1] == kept'.secrets[..|kept.secrets|][|published| - 1];
    SavedHolds(w, typed, normal, disk, published, file, kept');
    PublishedHolds(w, typed, normal, file, kept');
    TwoWrites(disk, file, EncodedRecords(kept'.records));
    CutPlan(ToStore(file), ToHistory(EncodedRecords(kept'.records)), cut);
    assert forall i :: 0 <= i < |kept.secrets| ==> kept'.secrets[i] == kept'.secrets[..|kept.secrets|][i];
  }

  lemma EraseHolds(
      w: World, typed: set<string>, normal: string, disk: Disk, published: seq<EpochRecord>, kept: Chain,
      command: Command)
    returns (kept': Chain)
    requires Sound(w) && Noticed(w, typed, disk, command) && Holds(w, typed, normal, disk, published, kept)
    requires command.passphrase in typed
    requires command.Erase? && PlanOf(w, disk, command).Ok?
    ensures |PlanOf(w, disk, command).value| == 1 && w.vault.nfc(command.passphrase) == normal
    ensures var after := Written(disk, PlanOf(w, disk, command).value);
            && Holds(w, typed, normal, after, published, kept')
            && disk.store.Some? && after.store.Some? && Grows(kept, kept') && Even(after, published, kept')
    ensures command.number < |kept'.secrets| && kept'.secrets[command.number].None?
  {
    hide Holds, SealChain, EncodedRecords, Written, PlanOf, ChainVerdict, StoreHolds, Sound, Load, Noticed, OpensOnlyTo;
    ErasePlan(w, disk, command);
    LoadedFacts(w, typed, normal, disk, published, kept, command.passphrase);
    kept' := Chain(kept.records, kept.secrets[command.number := None]);
    var file := SealChain(w, kept', command.passphrase, command.random).value;
    NoticedAt(w, typed, disk, command, file);
    SealedHolds(w, typed, normal, kept', command.passphrase, command.random);
    SavedHolds(w, typed, normal, disk, published, file, kept');
    TwoWrites(disk, file, []);
  }

  /**
   What one command, given any passphrase and cut short anywhere, leaves behind. The first store that
   is written fixes the passphrase.
   */
  lemma CommandHolds(
      w: World, typed: set<string>, normal: string, disk: Disk, published: seq<EpochRecord>, kept: Chain,
      command: Command, budget: nat)
    returns (normal': string, published': seq<EpochRecord>, kept': Chain)
    requires Sound(w) && Noticed(w, typed, disk, command) && Holds(w, typed, normal, disk, published, kept)
    requires command.passphrase in typed
    ensures var after := Executed(w, disk, command, budget);
            && Holds(w, typed, normal', after, published', kept')
            && (disk.store.Some? ==> after.store.Some? && normal' == normal && Grows(kept, kept'))
            && (disk.store.None? && after.store.Some? ==> normal' == w.vault.nfc(command.passphrase))
            && (Even(disk, published, kept) && budget >= 2 ==> Even(after, published', kept'))
    ensures command.Erase? && PlanOf(w, disk, command).Ok? ==>
              && disk.store.Some? && w.vault.nfc(command.passphrase) == normal
              && (budget > 0 ==> command.number < |kept'.secrets| && kept'.secrets[command.number].None?)
  {
    hide Sound, Holds, PlanOf, Noticed;
    normal', published', kept' := normal, published, kept;
    var plan := PlanOf(w, disk, command);
    if plan.Ok? {
      var cut := if budget < |plan.value| then budget else |plan.value|;
      if cut == 0 {
        assert plan.value[..cut] == [] && Written(disk, []) == disk;
        if command.Erase? {
          var _ := EraseHolds(w, typed, normal, disk, published, kept, command);
        }
        PlanWrites(w, disk, command);
      } else if command.Init? {
        published', kept' := InitHolds(w, typed, disk, published, command, cut);
        normal' := w.vault.nfc(command.passphrase);
      } else if command.Advance? {
        published', kept' := AdvanceHolds(w, typed, normal, disk, published, kept, command, cut);
        assert disk.store.Some? by { AdvanceNeedsStore(w, disk, command); }
      } else {
        kept' := EraseHolds(w, typed, normal, disk, published, kept, command);
        assert plan.value[..cut] == plan.value;
      }
    }
  }

  /** A plan that can be carried out writes something. */
  lemma PlanWrites(w: World, disk: Disk, command: Command)
    requires Sound(w) && PlanOf(w, disk, command).Ok?
    ensures |PlanOf(w, disk, command).value| == if command.Erase? then 1 else 2
  {
    hide Load, SealChain, EncodedRecords;
  }

  lemma AdvanceNeedsStore(w: World, disk: Disk, command: Command)
    requires Sound(w) && command.Advance? && PlanOf(w, disk, command).Ok?
    ensures disk.store.Some?
  {
    hide Publish, Longer, Opened, DecodedRecords, ChainVerdict, Restored;
  }

  // ---------------------------------------------------------------- a world in which mistyping is noticed

  /** Keys that differ exactly when the passphrase is, or is not, this one. */
  function OneMark(p: string): (string, EpochStoreFormat.Argon2Params, Aead.Salt) -> Bytes {
    (s, params, salt) => if s == p then Zeros(Aead.TAG_LEN - 1) + [1] else Zeros(Aead.TAG_LEN)
  }

  function MarkingWorld(hash: Hasher, p: string): World {
    World(hash, seed => Zeros(PUBLIC_KEY_LENGTH), Vault(Aead.MarkingCipher(), OneMark(p), s => s, s => s))
  }

  lemma MarksDiffer(p: string, x: string, y: string, params: EpochStoreFormat.Argon2Params, salt: Aead.Salt)
    requires x != y && (x == p || y == p)
    ensures Aead.KeyMark(OneMark(p)(x, params, salt)) != Aead.KeyMark(OneMark(p)(y, params, salt))
  {
    assert (Zeros(Aead.TAG_LEN - 1) + [1])[Aead.TAG_LEN - 1] != Zeros(Aead.TAG_LEN)[Aead.TAG_LEN - 1];
  }

  /** More than any run needs: no store at all opens under another of these passphrases. */
  ghost predicate Separates(w: World, typed: set<string>)
    requires Sound(w)
  {
    forall p, q, store: Store, random: Randomness ::
      p in typed && q in typed && w.vault.nfc(p) != w.vault.nfc(q) && SealedFile(w.vault, store, p, random).Ok? ==>
        Opened(w.vault, SealedFile(w.vault, store, p, random).value, q).Err?
  }

  lemma SeparatesNotices(w: World, typed: set<string>, disk: Disk, command: Command)
    requires Sound(w) && Separates(w, typed) && command.passphrase in typed
    ensures Noticed(w, typed, disk, command)
  {
    hide Separates, PlanOf, OpensOnlyTo;
    var plan := PlanOf(w, disk, command);
    if plan.Ok? {
      forall file | ToStore(file) in plan.value
        ensures OpensOnlyTo(w, typed, w.vault.nfc(command.passphrase), file)
      {
        var store := StoreWritten(w, disk, command, file);
        SealedOnlyTo(w, typed, store, command.passphrase, command.random);
      }
    }
  }

  lemma SealedOnlyTo(w: World, typed: set<string>, store: Store, p: string, random: Randomness)
    requires Sound(w) && Separates(w, typed) && p in typed && SealedFile(w.vault, store, p, random).Ok?
    ensures OpensOnlyTo(w, typed, w.vault.nfc(p), SealedFile(w.vault, store, p, random).value)
  {
    hide SealedFile, Opened;
  }

  /** What a command writes to the store is a sealed store. */
  lemma StoreWritten(w: World, disk: Disk, command: Command, file: Bytes) returns (store: Store)
    requires Sound(w) && PlanOf(w, disk, command).Ok? && ToStore(file) in PlanOf(w, disk, command).value
    ensures SealedFile(w.vault, store, command.passphrase, command.random) == Ok(file)
  {
    hide SealedFile, Load, Longer, HeldMap, EncodedRecords, ChainVerdict;
    if command.Init? {
      InitPlan(w, disk, command);
      var chain := Longer(w, Chain([], []), command.generated).value;
      store := Store(HeadOf(chain.records), HeldMap(chain.secrets));
    } else if command.Advance? {
      AdvancePlan(w, disk, command);
      var chain := Longer(w, Load(w, disk, command.passphrase).value, command.generated).value;
      store := Store(HeadOf(chain.records), HeldMap(chain.secrets));
    } else {
      LoadedShape(w, disk, command.passphrase);
      var chain := Load(w, disk, command.passphrase).value;
      store := Store(HeadOf(chain.records), HeldMap(chain.secrets[command.number := None]));
    }
  }

  /** The assumptions of the whole-run theorems can hold together, with two passphrases to confuse. */
  lemma MistypingCanBeNoticed(hash: Hasher, p: string, q: string)
    requires p != q
    ensures var w := MarkingWorld(hash, p);
            Sound(w) && Separates(w, {p, q}) && w.vault.nfc(p) == p && w.vault.nfc(q) == q
  {
    var w := MarkingWorld(hash, p);
    Aead.MarkingCipherCorrect();
    hide Aead.MarkingCipher, SealedFile, Opened, Aead.Correct, OneMark;
    forall x, y, store: Store, random: Randomness |
      x in {p, q} && y in {p, q} && x != y && SealedFile(w.vault, store, x, random).Ok?
      ensures Opened(w.vault, SealedFile(w.vault, store, x, random).value, y).Err?
    {
      MarksDiffer(p, x, y, EpochStoreFormat.WRITER, random.salt);
      WrongMark(w, store, x, random, y);
    }
  }

  lemma WrongMark(w: World, store: Store, x: string, random: Randomness, y: string)
    requires Sound(w) && w.vault.cipher == Aead.MarkingCipher() && SealedFile(w.vault, store, x, random).Ok?
    requires w.vault.nfc(x) == x && w.vault.nfc(y) == y && w.vault.nfd(y) == y
    requires Aead.KeyMark(w.vault.derive(x, EpochStoreFormat.WRITER, random.salt))
          != Aead.KeyMark(w.vault.derive(y, EpochStoreFormat.WRITER, random.salt))
    ensures Opened(w.vault, SealedFile(w.vault, store, x, random).value, y).Err?
  {
    hide SealedFile, Opened, Aead.KeyMark, Aead.MarkingCipher, Candidates, EpochStoreFormat.Parse, Aead.Tagged;
    var l := SealedLayout(w.vault, store, x, random);
    var file := SealedFile(w.vault, store, x, random).value;
    var authenticated := file[..EpochStoreFormat.HEADER_LEN + l.bodyLen];
    OneSpelling(w.vault, y);
    Aead.OtherKeyFails(w.vault.derive(x, EpochStoreFormat.WRITER, random.salt), l.trailerNonce, authenticated,
                  w.vault.derive(y, EpochStoreFormat.WRITER, random.salt), l.trailerNonce, authenticated);
    NotOpened(w.vault, file, l, y);
  }

  lemma OneSpelling(v: Vault, p: string)
    requires v.nfc(p) == p && v.nfd(p) == p
    ensures Candidates(v, p) == [p]
  {
  }

  lemma NotOpened(v: Vault, s: Bytes, l: EpochStoreFormat.Layout, p: string)
    requires EpochStoreFormat.Parse(s) == Ok(l) && Candidates(v, p) == [p]
    requires |s| >= EpochStoreFormat.HEADER_LEN + l.bodyLen
    requires v.cipher.open(v.derive(p, l.params, l.salt), l.trailerNonce,
                           s[..EpochStoreFormat.HEADER_LEN + l.bodyLen], l.trailerTag) == None
    ensures Opened(v, s, p).Err?
  {
    hide EpochStoreFormat.Parse, OpenEntries, Candidates;
    assert [p][1..] == [];
    var authenticated := s[..EpochStoreFormat.HEADER_LEN + l.bodyLen];
    assert FirstKey(v, l, authenticated, []) == None;
    assert FirstKey(v, l, authenticated, [p]) == None;
  }
}
