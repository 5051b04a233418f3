/** Exactly when the epoch files can never be changed again (apps/hide-cli/src/main.rs). */
module EpochFrozen {
  import opened Bytes
  import opened EpochChains
  import opened EpochCodec
  import opened EpochFiles
  import opened EpochHistorySize
  import opened EpochRuns
  import opened EpochStores
  import opened EpochTheorems
  import opened Results

  /** What a first successful init leaves, whole or cut after the store. */
  lemma AfterInit(w: World, p: string, seed: Seed, random: Randomness, budget: nat)
    returns (published: seq<EpochRecord>, kept: Chain)
    requires Sound(w) && |w.vault.nfc(p)| >= MIN_PASSPHRASE_LEN && budget > 0
    ensures var after := Executed(w, EMPTY_DISK, Init(p, Some(seed), random), budget);
            && Holds(w, {p}, w.vault.nfc(p), after, published, kept) && after.store.Some? && AllHeld(kept)
            && (budget == 1 ==> after.history.None?)
            && (budget >= 2 ==> after.history.Some? && Even(after, published, kept) && |published| == 1)
  {
    hide Sound, Holds, PlanOf, Noticed, Even, Written, InStep, StoreHolds, AllHeld;
    InitWrites(w, p, seed, random);
    var command := Init(p, Some(seed), random);
    var cut := if budget < 2 then budget else 2;
    FirstWrite(w, p, seed, random);
    NothingToNotice(w, EMPTY_DISK, command);
    published, kept := InitHolds(w, {p}, EMPTY_DISK, [], command, cut);
    EvenMeansLevel(w, {p}, w.vault.nfc(p), Executed(w, EMPTY_DISK, command, budget), published, kept);
  }

  lemma EvenMeansLevel(
      w: World, typed: set<string>, normal: string, disk: Disk, published: seq<EpochRecord>, kept: Chain)
    requires Holds(w, typed, normal, disk, published, kept) && disk.store.Some?
    ensures Even(disk, published, kept) ==> disk.history.Some? && kept.records == published
  {
  }

  lemma FirstWrite(w: World, p: string, seed: Seed, random: Randomness)
    requires Sound(w) && PlanOf(w, EMPTY_DISK, Init(p, Some(seed), random)).Ok?
    ensures |PlanOf(w, EMPTY_DISK, Init(p, Some(seed), random)).value| == 2
    ensures Written(EMPTY_DISK, PlanOf(w, EMPTY_DISK, Init(p, Some(seed), random)).value[..1]).history.None?
  {
    hide SealChain, EncodedRecords, Longer;
    var plan := PlanOf(w, EMPTY_DISK, Init(p, Some(seed), random)).value;
    assert plan[..1][..0] == [];
  }

  /** What advancing loadable files leaves, whole or cut after the store. */
  lemma AfterAdvance(
      w: World, normal: string, disk: Disk, published: seq<EpochRecord>, kept: Chain,
      p: string, seed: Seed, random: Randomness, budget: nat)
    returns (published': seq<EpochRecord>, kept': Chain)
    requires Sound(w) && Holds(w, {p}, normal, disk, published, kept) && Loadable(w, disk, p) && budget > 0
    ensures var after := Executed(w, disk, Advance(p, Some(seed), random), budget);
            && Holds(w, {p}, normal, after, published', kept') && after.store.Some? && after.history.Some?
            && |kept'.records| == |published| + 1 && (AllHeld(kept) ==> AllHeld(kept'))
            && (budget == 1 ==> published' == published) && (budget >= 2 ==> Even(after, published', kept'))
  {
    hide Sound, Holds, PlanOf, Noticed, Loadable, Even, Written, InStep, StoreHolds, AllHeld;
    AdvancePossible(w, {p}, normal, disk, published, kept, p, seed, random);
    PlanWrites(w, disk, Advance(p, Some(seed), random));
    var command := Advance(p, Some(seed), random);
    NothingToNotice(w, disk, command);
    published', kept' := AdvanceHolds(w, {p}, normal, disk, published, kept, command, if budget < 2 then budget else 2);
  }

  /** What holds with many passphrases typed holds with one of them. */
  lemma HoldsAlone(
      w: World, typed: set<string>, normal: string, disk: Disk, published: seq<EpochRecord>, kept: Chain, p: string)
    requires Holds(w, typed, normal, disk, published, kept) && p in typed
    ensures Holds(w, {p}, normal, disk, published, kept)
  {
    hide Opened, ChainVerdict, Matches, InStep;
  }

  /** Histories of different lengths are different files. */
  lemma LongerDiffers(
      w: World, typed: set<string>, normal: string, disk: Disk, published: seq<EpochRecord>, kept: Chain,
      after: Disk, published': seq<EpochRecord>, kept': Chain)
    requires Holds(w, typed, normal, disk, published, kept) && Holds(w, typed, normal, after, published', kept')
    requires disk.history.Some? && |published'| != |published|
    ensures after != disk
  {
    if after == disk {
      RecordsRoundTrip(published);
      RecordsRoundTrip(published');
    }
    hide EncodedRecords, DecodedRecords, StoreHolds;
  }

  /**
   After any run, the files are frozen if and only if there is a store and a look at the files says
   they cannot be loaded: no history yet, a history too large, or a store one epoch ahead of it.
   */
  lemma FrozenExactly(w: World, typed: set<string>, steps: seq<Step>, p: string, seed: Seed, random: Randomness)
    requires Sound(w) && RunNoticed(w, typed, EMPTY_DISK, steps) && TypedIn(steps, typed) && Opens(w, steps, p)
    requires p in typed
    requires RunFrom(w, EMPTY_DISK, steps).store.None? ==> |w.vault.nfc(p)| >= MIN_PASSPHRASE_LEN
    ensures var disk := RunFrom(w, EMPTY_DISK, steps);
            Frozen(w, typed, disk) <==> disk.store.Some? && !Loadable(w, disk, p)
  {
    hide Sound, Holds, RunFrom, Opens, RunNoticed, Even, Loadable, Executed, InStep;
    var normal, published, kept := Reached(w, typed, steps, p);
    var disk := RunFrom(w, EMPTY_DISK, steps);
    if disk.store.None? {
      HistoryNeedsStore(w, typed, normal, disk, published, kept);
      var _, _ := AfterInit(w, p, seed, random, 1);
      assert Executed(w, disk, Init(p, Some(seed), random), 1) != disk;
    } else if Loadable(w, disk, p) {
      HoldsAlone(w, typed, normal, disk, published, kept, p);
      var published', kept' := AfterAdvance(w, normal, disk, published, kept, p, seed, random, 2);
      var after := Executed(w, disk, Advance(p, Some(seed), random), 2);
      EvenMeans(w, {p}, normal, after, published', kept');
      LoadedHistory(w, disk, p);
      LongerDiffers(w, {p}, normal, disk, published, kept, after, published', kept');
    } else {
      forall command: Command, budget: nat | command.passphrase in typed
        ensures Executed(w, disk, command, budget) == disk
      {
        RefusedIsUnchanged(w, typed, normal, disk, published, kept, p, command, budget);
      }
    }
  }

  lemma EvenMeans(
      w: World, typed: set<string>, normal: string, disk: Disk, published: seq<EpochRecord>, kept: Chain)
    requires Holds(w, typed, normal, disk, published, kept) && Even(disk, published, kept) && disk.store.Some?
    ensures disk.history.Some? && kept.records == published && ChainVerdict(w.hash, published) == Pass
    ensures disk.history.value == EncodedRecords(published) && |published| <= MAX_CHAIN_ENTRIES
  {
  }

  lemma LoadedHistory(w: World, disk: Disk, p: string)
    requires Loadable(w, disk, p)
    ensures disk.history.Some? && disk.store.Some?
  {
  }

  // ---------------------------------------------------------------- runs that are never cut short

  /** Commands that are never cut short keep store and history level. */
  lemma UncutStaysLevel(w: World, typed: set<string>, steps: seq<Step>, p: string)
    requires Sound(w) && RunNoticed(w, typed, EMPTY_DISK, steps) && TypedIn(steps, typed) && Opens(w, steps, p)
    requires Uncut(steps)
    ensures RunFrom(w, EMPTY_DISK, steps).store.Some? ==> Level(w, RunFrom(w, EMPTY_DISK, steps), p)
  {
    hide Sound, Holds, RunFrom, Opens, RunNoticed, Level, Even;
    var normal, published, kept := Reached(w, typed, steps, p);
    var disk := RunFrom(w, EMPTY_DISK, steps);
    if disk.store.Some? {
      EvenMeans(w, typed, normal, disk, published, kept);
      LevelExactly(w, typed, normal, disk, published, kept, p);
    }
  }

  /** So they freeze the files if and only if the history has outgrown what is read back. */
  lemma UncutFreezesExactly(w: World, typed: set<string>, steps: seq<Step>, p: string, seed: Seed, random: Randomness)
    requires Sound(w) && RunNoticed(w, typed, EMPTY_DISK, steps) && TypedIn(steps, typed) && Opens(w, steps, p)
    requires p in typed && Uncut(steps)
    requires RunFrom(w, EMPTY_DISK, steps).store.Some?
    ensures var disk := RunFrom(w, EMPTY_DISK, steps);
            && disk.history.Some? && DecodedRecords(disk.history.value).Ok?
            && (Frozen(w, typed, disk) <==> |DecodedRecords(disk.history.value).value| > MAX_LOADABLE)
  {
    hide Sound, Holds, RunFrom, Opens, RunNoticed, Level, Even, Frozen, DecodedRecords, EncodedRecords, ChainVerdict;
    var normal, published, kept := Reached(w, typed, steps, p);
    EvenMeans(w, typed, normal, RunFrom(w, EMPTY_DISK, steps), published, kept);
    RecordsRoundTrip(published);
    ReadBackExactly(w.hash, published);
    UncutStaysLevel(w, typed, steps, p);
    FrozenExactly(w, typed, steps, p, seed, random);
  }

  // ---------------------------------------------------------------- frozen states that are reached

  /** A run that begins by founding the store under `p`. */
  lemma FoundedBy(w: World, steps: seq<Step>, p: string, seed: Seed, random: Randomness)
    requires Sound(w) && |w.vault.nfc(p)| >= MIN_PASSPHRASE_LEN
    requires steps != [] && steps[0].command == Init(p, Some(seed), random) && steps[0].budget > 0
    ensures Opens(w, steps, p)
  {
    var _, _ := AfterInit(w, p, seed, random, steps[0].budget);
    hide Sound, Executed;
  }

  /** An init cut after its first replacement freezes the files: a store, and no history. */
  lemma CutInitFreezes(w: World, typed: set<string>, p: string, seed: Seed, random: Randomness)
    requires Sound(w) && p in typed && |w.vault.nfc(p)| >= MIN_PASSPHRASE_LEN
    requires RunNoticed(w, typed, EMPTY_DISK, [Step(Init(p, Some(seed), random), 1)])
    ensures var disk := RunFrom(w, EMPTY_DISK, [Step(Init(p, Some(seed), random), 1)]);
            disk.store.Some? && disk.history.None? && Frozen(w, typed, disk)
  {
    var steps := [Step(Init(p, Some(seed), random), 1)];
    assert steps[1..] == [];
    var _, _ := AfterInit(w, p, seed, random, 1);
    FoundedBy(w, steps, p, seed, random);
    hide Sound, Executed, RunNoticed, Frozen, Level, Opens;
    FrozenExactly(w, typed, steps, p, seed, random);
  }

  lemma {:induction false} RunSnoc(w: World, disk: Disk, steps: seq<Step>, last: Step)
    requires Sound(w)
    ensures RunFrom(w, disk, steps + [last]) == Executed(w, RunFrom(w, disk, steps), last.command, last.budget)
    decreases |steps|
  {
    hide Executed, Sound;
    if steps == [] {
      assert [last][1..] == [];
      assert [] + [last] == [last];
    } else {
      RunSnoc(w, Executed(w, disk, steps[0].command, steps[0].budget), steps[1..], last);
      assert (steps + [last])[1..] == steps[1..] + [last];
    }
  }

  /** An init and `n` advances, none of them cut short. */
  function Growth(p: string, seed: Seed, random: Randomness, n: nat): (steps: seq<Step>)
    ensures |steps| == n + 1 && steps[0] == Step(Init(p, Some(seed), random), 2)
    ensures forall i :: 0 <= i <= n ==> steps[i].command.passphrase == p && steps[i].budget == 2
  {
    if n == 0 then [Step(Init(p, Some(seed), random), 2)]
    else Growth(p, seed, random, n - 1) + [Step(Advance(p, Some(seed), random), 2)]
  }

  /** Each of the first 13347 advances adds an epoch, and nothing is erased. */
  lemma {:induction false} GrowthHolds(w: World, p: string, seed: Seed, random: Randomness, n: nat)
    returns (published: seq<EpochRecord>, kept: Chain)
    requires Sound(w) && |w.vault.nfc(p)| >= MIN_PASSPHRASE_LEN && n <= MAX_LOADABLE
    ensures var disk := RunFrom(w, EMPTY_DISK, Growth(p, seed, random, n));
            && Holds(w, {p}, w.vault.nfc(p), disk, published, kept) && AllHeld(kept)
            && disk.store.Some? && disk.history.Some? && Even(disk, published, kept) && |published| == n + 1
    decreases n
  {
    hide Sound, Holds, Executed, Even, Level, AllHeld;
    if n == 0 {
      published, kept := AfterInit(w, p, seed, random, 2);
      var init := Step(Init(p, Some(seed), random), 2);
      RunSnoc(w, EMPTY_DISK, [], init);
      assert [] + [init] == [init];
      EvenMeans(w, {p}, w.vault.nfc(p), RunFrom(w, EMPTY_DISK, [init]), published, kept);
    } else {
      published, kept := GrowthHolds(w, p, seed, random, n - 1);
      var steps := Growth(p, seed, random, n - 1);
      var disk := RunFrom(w, EMPTY_DISK, steps);
      EvenMeans(w, {p}, w.vault.nfc(p), disk, published, kept);
      LevelExactly(w, {p}, w.vault.nfc(p), disk, published, kept, p);
      ReadBackExactly(w.hash, published);
      published, kept := AfterAdvance(w, w.vault.nfc(p), disk, published, kept, p, seed, random, 2);
      RunSnoc(w, EMPTY_DISK, steps, Step(Advance(p, Some(seed), random), 2));
      EvenMeans(w, {p}, w.vault.nfc(p), RunFrom(w, EMPTY_DISK, Growth(p, seed, random, n)), published, kept);
    }
  }

  /** After an init and up to 13346 advances, every epoch before the last can be erased. */
  lemma EraseReached(w: World, p: string, seed: Seed, random: Randomness, n: nat, number: u64)
    requires Sound(w) && |w.vault.nfc(p)| >= MIN_PASSPHRASE_LEN && number < n < MAX_LOADABLE
    ensures PlanOf(w, RunFrom(w, EMPTY_DISK, Growth(p, seed, random, n)), Erase(number, p, random)).Ok?
  {
    hide Sound, Holds, Even, Level, RunFrom, Growth, ChainVerdict, EncodedRecords, PlanOf;
    var normal := w.vault.nfc(p);
    var disk := RunFrom(w, EMPTY_DISK, Growth(p, seed, random, n));
    var published, kept := GrowthHolds(w, p, seed, random, n);
    EvenMeans(w, {p}, normal, disk, published, kept);
    LevelExactly(w, {p}, normal, disk, published, kept, p);
    ReadBackExactly(w.hash, published);
    LoadExactly(w, {p}, normal, disk, published, kept, p);
    LoadedFacts(w, {p}, normal, disk, published, kept, p);
    ErasePossible(w, {p}, normal, disk, published, kept, p, number, random);
  }

  /** An advance cut after its first replacement freezes the files: the store knows one epoch more. */
  lemma CutAdvanceFreezes(w: World, typed: set<string>, p: string, seed: Seed, random: Randomness)
    requires Sound(w) && p in typed && |w.vault.nfc(p)| >= MIN_PASSPHRASE_LEN
    requires RunNoticed(w, typed, EMPTY_DISK, Growth(p, seed, random, 0) + [Step(Advance(p, Some(seed), random), 1)])
    ensures var disk := RunFrom(w, EMPTY_DISK, Growth(p, seed, random, 0) + [Step(Advance(p, Some(seed), random), 1)]);
            disk.store.Some? && disk.history.Some? && !Level(w, disk, p) && Frozen(w, typed, disk)
  {
    hide Sound, Holds, Executed, RunNoticed, Even, Level, Opens, Frozen, RunFrom, ChainVerdict, EncodedRecords;
    var normal := w.vault.nfc(p);
    var first, last := Growth(p, seed, random, 0), Step(Advance(p, Some(seed), random), 1);
    var published, kept := GrowthHolds(w, p, seed, random, 0);
    var disk := RunFrom(w, EMPTY_DISK, first);
    EvenMeans(w, {p}, normal, disk, published, kept);
    LevelExactly(w, {p}, normal, disk, published, kept, p);
    ReadBackExactly(w.hash, published);
    var published', kept' := AfterAdvance(w, normal, disk, published, kept, p, seed, random, 1);
    RunSnoc(w, EMPTY_DISK, first, last);
    var after := RunFrom(w, EMPTY_DISK, first + [last]);
    LevelExactly(w, {p}, normal, after, published', kept', p);
    FoundedBy(w, first + [last], p, seed, random);
    FrozenExactly(w, typed, first + [last], p, seed, random);
  }

  /** And 13347 advances in a row, none cut short, publish a history that is never read again. */
  lemma GrowthFreezes(w: World, typed: set<string>, p: string, seed: Seed, random: Randomness)
    requires Sound(w) && p in typed && |w.vault.nfc(p)| >= MIN_PASSPHRASE_LEN
    requires RunNoticed(w, typed, EMPTY_DISK, Growth(p, seed, random, MAX_LOADABLE))
    ensures var disk := RunFrom(w, EMPTY_DISK, Growth(p, seed, random, MAX_LOADABLE));
            disk.history.Some? && |disk.history.value| > MAX_LOG_FILE && Frozen(w, typed, disk)
  {
    hide Sound, Holds, Executed, RunNoticed, Even, Level, Opens, Frozen, RunFrom, ChainVerdict, EncodedRecords, Growth;
    var steps := Growth(p, seed, random, MAX_LOADABLE);
    var published, kept := GrowthHolds(w, p, seed, random, MAX_LOADABLE);
    EvenMeans(w, {p}, w.vault.nfc(p), RunFrom(w, EMPTY_DISK, steps), published, kept);
    ReadBackExactly(w.hash, published);
    FoundedBy(w, steps, p, seed, random);
    FrozenExactly(w, typed, steps, p, seed, random);
  }
}
