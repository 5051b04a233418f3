/** Crash safety, erasure and what a crash costs, over whole runs of the epoch commands. */
module EpochTheorems {
  import opened Bytes
  import opened EpochChains
  import opened EpochCodec
  import opened EpochFiles
  import opened EpochHistorySize
  import opened EpochRuns
  import opened EpochStores
  import opened FiniteSets
  import opened Results
  import opened SortedKeys
  import EpochStoreFormat

  /** One command and how many file replacements it gets to make before the machine stops. */
  datatype Step = Step(command: Command, budget: nat)

  function RunFrom(w: World, disk: Disk, steps: seq<Step>): Disk
    requires Sound(w)
    decreases |steps|
  {
    if steps == [] then disk else RunFrom(w, Executed(w, disk, steps[0].command, steps[0].budget), steps[1..])
  }

  /** Every passphrase given in the run, right or mistyped, is among these. */
  predicate TypedIn(steps: seq<Step>, typed: set<string>) {
    forall i :: 0 <= i < |steps| ==> steps[i].command.passphrase in typed
  }

  /** Whatever the commands of this run seal opens under no other passphrase that is typed. */
  ghost predicate RunNoticed(w: World, typed: set<string>, disk: Disk, steps: seq<Step>)
    requires Sound(w)
    decreases |steps|
  {
    steps == []
    || (Noticed(w, typed, disk, steps[0].command)
        && RunNoticed(w, typed, Executed(w, disk, steps[0].command, steps[0].budget), steps[1..]))
  }

  /** The passphrase of the step that first wrote a store, if one did. */
  function Founding(w: World, disk: Disk, steps: seq<Step>): Option<string>
    requires Sound(w)
    decreases |steps|
  {
    if steps == [] then None
    else
      var next := Executed(w, disk, steps[0].command, steps[0].budget);
      if disk.store.None? && next.store.Some? then Some(steps[0].command.passphrase)
      else Founding(w, next, steps[1..])
  }

  /** `p` is a spelling of the passphrase the store was founded with, once there is a store. */
  predicate Opens(w: World, steps: seq<Step>, p: string)
    requires Sound(w)
  {
    var founding := Founding(w, EMPTY_DISK, steps);
    founding.Some? ==> w.vault.nfc(p) == w.vault.nfc(founding.value)
  }

  predicate Uncut(steps: seq<Step>) {
    forall i :: 0 <= i < |steps| ==> steps[i].budget >= 2
  }

  lemma TailTyped(steps: seq<Step>, typed: set<string>)
    requires steps != []
    ensures TypedIn(steps, typed) ==> steps[0].command.passphrase in typed && TypedIn(steps[1..], typed)
    ensures Uncut(steps) ==> steps[0].budget >= 2 && Uncut(steps[1..])
  {
    assert forall i :: 0 <= i < |steps[1..]| ==> steps[1..][i] == steps[i + 1];
  }

  /** The invariant holds after every run, whatever was typed and wherever it was cut short. */
  lemma {:induction false} RunHolds(
      w: World, typed: set<string>, normal: string, disk: Disk, published: seq<EpochRecord>, kept: Chain,
      steps: seq<Step>)
    returns (normal': string, published': seq<EpochRecord>, kept': Chain)
    requires Sound(w) && RunNoticed(w, typed, disk, steps) && TypedIn(steps, typed)
    requires Holds(w, typed, normal, disk, published, kept)
    ensures var after := RunFrom(w, disk, steps);
            && Holds(w, typed, normal', after, published', kept')
            && (disk.store.Some? ==> after.store.Some? && normal' == normal && Grows(kept, kept'))
            && (disk.store.None? ==> (after.store.Some? <==> Founding(w, disk, steps).Some?))
            && (disk.store.None? && after.store.Some? ==> normal' == w.vault.nfc(Founding(w, disk, steps).value))
            && (Even(disk, published, kept) && Uncut(steps) ==> Even(after, published', kept'))
    decreases |steps|
  {
    hide Sound, Holds, Executed, Noticed, Even, Grows, TypedIn, Uncut;
    normal', published', kept' := normal, published, kept;
    if steps == [] {
      GrowsFrom(kept);
    } else {
      TailTyped(steps, typed);
      var next := Executed(w, disk, steps[0].command, steps[0].budget);
      normal', published', kept' :=
        CommandHolds(w, typed, normal, disk, published, kept, steps[0].command, steps[0].budget);
      var middle := kept';
      normal', published', kept' := RunHolds(w, typed, normal', next, published', kept', steps[1..]);
      if disk.store.Some? {
        GrowsOn(kept, middle, kept');
      }
    }
  }

  lemma GrowsFrom(a: Chain)
    ensures Grows(a, a)
  {
  }

  lemma GrowsOn(a: Chain, b: Chain, c: Chain)
    requires Grows(a, b) && Grows(b, c)
    ensures Grows(a, c)
  {
  }

  /** What every run from an empty disk leaves, for a spelling `p` of its passphrase. */
  lemma Reached(w: World, typed: set<string>, steps: seq<Step>, p: string)
    returns (normal: string, published: seq<EpochRecord>, kept: Chain)
    requires Sound(w) && RunNoticed(w, typed, EMPTY_DISK, steps) && TypedIn(steps, typed) && Opens(w, steps, p)
    ensures Holds(w, typed, normal, RunFrom(w, EMPTY_DISK, steps), published, kept)
    ensures RunFrom(w, EMPTY_DISK, steps).store.Some? ==> w.vault.nfc(p) == normal
    ensures Uncut(steps) ==> Even(RunFrom(w, EMPTY_DISK, steps), published, kept)
  {
    assert Holds(w, typed, "", EMPTY_DISK, [], Chain([], [])) && Even(EMPTY_DISK, [], Chain([], []));
    hide Sound, Holds, RunFrom, Founding, RunNoticed, Even;
    normal, published, kept := RunHolds(w, typed, "", EMPTY_DISK, [], Chain([], []), steps);
  }

  // ---------------------------------------------------------------- crash safety

  /** The store belongs to the published history continued by one record whose secret it holds. */
  ghost predicate OneAhead(w: World, records: seq<EpochRecord>, store: Store) {
    exists next: EpochRecord ::
      && ChainVerdict(w.hash, records + [next]) == Pass && store.chainHead == next.link
      && |records| in store.entries && w.keyOf(store.entries[|records|]) == next.publicKey
  }

  /**
   Whoever encrypts to the current epoch of what is published encrypts to a key whose secret is in
   the store, and store and history are level or the store is one epoch ahead.
   */
  ghost predicate Safe(w: World, disk: Disk, p: string) {
    disk.history.Some? ==>
      && disk.store.Some? && DecodedRecords(disk.history.value).Ok?
      && var records := DecodedRecords(disk.history.value).value;
      && records != [] && ChainVerdict(w.hash, records) == Pass
      && Opened(w.vault, disk.store.value, p).Ok?
      && var store := Opened(w.vault, disk.store.value, p).value;
      var current := |records| - 1;
      && current in store.entries && w.keyOf(store.entries[current]) == records[current].publicKey
      && (store.chainHead == HeadOf(records) || OneAhead(w, records, store))
  }

  lemma HoldsIsSafe(
      w: World, typed: set<string>, normal: string, disk: Disk, published: seq<EpochRecord>, kept: Chain, p: string)
    requires Holds(w, typed, normal, disk, published, kept) && w.vault.nfc(p) == normal
    ensures Safe(w, disk, p)
  {
    hide Opened, DecodedRecords, EncodedRecords, ChainVerdict;
    if disk.history.Some? {
      RecordsRoundTrip(published);
      CutVerified(w, kept.records, |published|);
      var store := Store(HeadOf(kept.records), HeldMap(kept.secrets));
      assert published[|published| - 1] == kept.records[|published| - 1];
      if kept.records == published {
        assert store.chainHead == HeadOf(published);
      } else {
        var next := kept.records[|published|];
        assert published + [next] == kept.records;
        assert OneAhead(w, published, store);
      }
    }
  }

  /** Every state reachable by init, advance and erase, with a crash at any write, is safe. */
  lemma CrashSafe(w: World, typed: set<string>, steps: seq<Step>, p: string)
    requires Sound(w) && RunNoticed(w, typed, EMPTY_DISK, steps) && TypedIn(steps, typed) && Opens(w, steps, p)
    ensures Safe(w, RunFrom(w, EMPTY_DISK, steps), p)
  {
    hide Sound, Holds, RunFrom, Opens, RunNoticed, Even;
    var normal, published, kept := Reached(w, typed, steps, p);
    var disk := RunFrom(w, EMPTY_DISK, steps);
    if disk.store.Some? {
      HoldsIsSafe(w, typed, normal, disk, published, kept, p);
    } else {
      HistoryNeedsStore(w, typed, normal, disk, published, kept);
    }
  }

  lemma HistoryNeedsStore(
      w: World, typed: set<string>, normal: string, disk: Disk, published: seq<EpochRecord>, kept: Chain)
    requires Holds(w, typed, normal, disk, published, kept) && disk.store.None?
    ensures disk == EMPTY_DISK
  {
  }

  // ---------------------------------------------------------------- erasure

  /** The epoch number is absent from the store this file opens to. */
  ghost predicate Gone(w: World, disk: Disk, number: u64, p: string) {
    && disk.store.Some? && Opened(w.vault, disk.store.value, p).Ok?
    && number !in Opened(w.vault, disk.store.value, p).value.entries
  }

  /**
   Once an erase has replaced the store, that epoch's secret is in no later store, whatever
   commands follow and wherever they are cut short.
   */
  lemma ErasedForever(w: World, typed: set<string>, before: seq<Step>, erase: Step, after: seq<Step>, p: string)
    requires Sound(w) && RunNoticed(w, typed, EMPTY_DISK, before + [erase] + after) && Opens(w, before, p)
    requires TypedIn(before + [erase] + after, typed)
    requires erase.command.Erase? && erase.budget > 0
    requires PlanOf(w, RunFrom(w, EMPTY_DISK, before), erase.command).Ok?
    ensures var erased := Executed(w, RunFrom(w, EMPTY_DISK, before), erase.command, erase.budget);
            Gone(w, erased, erase.command.number, p) && Gone(w, RunFrom(w, erased, after), erase.command.number, p)
  {
    hide Sound, RunFrom, Executed, Gone, PlanOf, Holds, Noticed, RunNoticed, Opens, Even;
    var start := RunFrom(w, EMPTY_DISK, before);
    TypedApart(before, erase, after, typed);
    NoticedApart(w, typed, EMPTY_DISK, before, erase, after);
    var normal, published, kept := Reached(w, typed, before, p);
    var same, published', kept' := CommandHolds(w, typed, normal, start, published, kept, erase.command, erase.budget);
    var erased := Executed(w, start, erase.command, erase.budget);
    var still, last, final := RunHolds(w, typed, same, erased, published', kept', after);
    GoneWhen(w, typed, same, erased, published', kept', erase.command.number, p);
    GoneWhen(w, typed, still, RunFrom(w, erased, after), last, final, erase.command.number, p);
  }

  lemma TypedApart(before: seq<Step>, step: Step, after: seq<Step>, typed: set<string>)
    requires TypedIn(before + [step] + after, typed)
    ensures TypedIn(before, typed) && step.command.passphrase in typed && TypedIn(after, typed)
  {
    var steps := before + [step] + after;
    assert steps[|before|] == step;
    assert forall i :: 0 <= i < |before| ==> before[i] == steps[i];
    assert forall i :: 0 <= i < |after| ==> after[i] == steps[|before| + 1 + i];
  }

  lemma {:induction false} NoticedApart(
      w: World, typed: set<string>, disk: Disk, before: seq<Step>, step: Step, after: seq<Step>)
    requires Sound(w) && RunNoticed(w, typed, disk, before + [step] + after)
    ensures RunNoticed(w, typed, disk, before)
    ensures var start := RunFrom(w, disk, before);
            && Noticed(w, typed, start, step.command)
            && RunNoticed(w, typed, Executed(w, start, step.command, step.budget), after)
    decreases |before|
  {
    hide Sound, Executed, Noticed;
    var steps := before + [step] + after;
    if before == [] {
      assert steps[0] == step && steps[1..] == after;
    } else {
      assert steps[0] == before[0] && steps[1..] == before[1..] + [step] + after;
      NoticedApart(w, typed, Executed(w, disk, before[0].command, before[0].budget), before[1..], step, after);
    }
  }

  lemma GoneWhen(
      w: World, typed: set<string>, normal: string, disk: Disk, published: seq<EpochRecord>, kept: Chain,
      number: u64, p: string)
    requires Holds(w, typed, normal, disk, published, kept) && w.vault.nfc(p) == normal && disk.store.Some?
    requires number < |kept.secrets| && kept.secrets[number].None?
    ensures Gone(w, disk, number, p)
  {
    hide Opened, ChainVerdict;
  }

  // ---------------------------------------------------------------- when an erase succeeds

  /**
   Whatever has been run before, an erase goes ahead if and only if a look at the files says so: they
   are loadable under this passphrase, and the epoch is one before the last and in the store.
   */
  lemma EraseExactly(
      w: World, typed: set<string>, steps: seq<Step>, p: string, number: u64, random: Randomness)
    requires Sound(w) && RunNoticed(w, typed, EMPTY_DISK, steps) && TypedIn(steps, typed) && Opens(w, steps, p)
    requires p in typed
    ensures var disk := RunFrom(w, EMPTY_DISK, steps);
            PlanOf(w, disk, Erase(number, p, random)).Ok?
            <==> && Loadable(w, disk, p)
                 && number + 1 < |DecodedRecords(disk.history.value).value|
                 && number in Opened(w.vault, disk.store.value, p).value.entries
  {
    hide Sound, Holds, RunFrom, Opens, RunNoticed, Even, Loadable, PlanOf, Opened, DecodedRecords;
    var normal, published, kept := Reached(w, typed, steps, p);
    var disk := RunFrom(w, EMPTY_DISK, steps);
    LoadExactly(w, typed, normal, disk, published, kept, p);
    if Loadable(w, disk, p) {
      LoadedFacts(w, typed, normal, disk, published, kept, p);
      ErasePossible(w, typed, normal, disk, published, kept, p, number, random);
    } else if PlanOf(w, disk, Erase(number, p, random)).Ok? {
      EraseNeedsLoad(w, disk, number, p, random);
    }
  }

  lemma EraseNeedsLoad(w: World, disk: Disk, number: u64, p: string, random: Randomness)
    requires Sound(w) && PlanOf(w, disk, Erase(number, p, random)).Ok?
    ensures Load(w, disk, p).Ok?
  {
    hide Load, SealChain;
  }

  lemma ErasePossible(
      w: World, typed: set<string>, normal: string, disk: Disk, published: seq<EpochRecord>, kept: Chain, p: string,
      number: u64, random: Randomness)
    requires Sound(w) && Holds(w, typed, normal, disk, published, kept) && p in typed && Loadable(w, disk, p)
    ensures DecodedRecords(disk.history.value) == Ok(published)
    ensures Opened(w.vault, disk.store.value, p).Ok?
    ensures number in Opened(w.vault, disk.store.value, p).value.entries <==>
            number < |published| && kept.secrets[number].Some?
    ensures PlanOf(w, disk, Erase(number, p, random)).Ok?
       <==> number + 1 < |published| && number < |kept.secrets| && kept.secrets[number].Some?
  {
    hide Holds, Load, Level, SealChain, EncodedRecords, DecodedRecords, Opened, ChainVerdict, Sound, InStep, Matches;
    LoadExactly(w, typed, normal, disk, published, kept, p);
    LoadedFacts(w, typed, normal, disk, published, kept, p);
    RecordsRoundTrip(published);
    ReadBackExactly(w.hash, published);
    LongPassphrase(w, typed, normal, disk, published, kept);
    OpenedEntries(w, typed, normal, disk, published, kept, p);
    LoadedShape(w, disk, p);
    if number + 1 < |published| && kept.secrets[number].Some? {
      SealsWhenFew(w, Chain(kept.records, kept.secrets[number := None]), p, random);
    }
  }

  lemma OpenedEntries(
      w: World, typed: set<string>, normal: string, disk: Disk, published: seq<EpochRecord>, kept: Chain, p: string)
    requires Holds(w, typed, normal, disk, published, kept) && w.vault.nfc(p) == normal && disk.store.Some?
    requires |kept.secrets| < 0x1_0000_0000_0000_0000
    ensures Opened(w.vault, disk.store.value, p) == Ok(Store(HeadOf(kept.records), HeldMap(kept.secrets)))
  {
    hide Opened, ChainVerdict, HeldMap;
  }

  // ---------------------------------------------------------------- what a crash costs

  /** No command with any of these passphrases changes the files any more, whole or cut short. */
  ghost predicate Frozen(w: World, typed: set<string>, disk: Disk)
    requires Sound(w)
  {
    forall command: Command, budget: nat :: command.passphrase in typed ==> Executed(w, disk, command, budget) == disk
  }

  /** What is frozen stays as it is, whatever is typed and wherever it is cut short. */
  lemma {:induction false} StuckStays(w: World, typed: set<string>, disk: Disk, steps: seq<Step>)
    requires Sound(w) && Frozen(w, typed, disk) && TypedIn(steps, typed)
    ensures RunFrom(w, disk, steps) == disk
    decreases |steps|
  {
    hide Sound, Executed;
    if steps != [] {
      TailTyped(steps, typed);
      assert Executed(w, disk, steps[0].command, steps[0].budget) == disk;
      StuckStays(w, typed, disk, steps[1..]);
    }
  }

  /** Files that cannot be loaded are left alone by every command. */
  lemma RefusedIsUnchanged(
      w: World, typed: set<string>, normal: string, disk: Disk, published: seq<EpochRecord>, kept: Chain, p: string,
      command: Command, budget: nat)
    requires Sound(w) && Holds(w, typed, normal, disk, published, kept) && w.vault.nfc(p) == normal && p in typed
    requires disk.store.Some? && !Loadable(w, disk, p) && command.passphrase in typed
    ensures Executed(w, disk, command, budget) == disk
  {
    LoadExactly(w, typed, normal, disk, published, kept, command.passphrase);
    LoadExactly(w, typed, normal, disk, published, kept, p);
    if w.vault.nfc(command.passphrase) == normal {
      SameSpelling(w, typed, normal, disk, published, kept, command.passphrase, p);
    }
    hide Load, Holds, Loadable, Publish, Longer, SealChain;
  }

  lemma SameSpelling(
      w: World, typed: set<string>, normal: string, disk: Disk, published: seq<EpochRecord>, kept: Chain,
      p: string, q: string)
    requires Holds(w, typed, normal, disk, published, kept) && disk.store.Some?
    requires w.vault.nfc(p) == normal && w.vault.nfc(q) == normal
    ensures Loadable(w, disk, p) <==> Loadable(w, disk, q)
  {
    hide Opened, DecodedRecords, ChainVerdict, Matches;
  }

  /** A first store is written whenever there is none, a seed was generated and the passphrase is long enough. */
  lemma InitWrites(w: World, p: string, seed: Seed, random: Randomness)
    requires Sound(w) && |w.vault.nfc(p)| >= MIN_PASSPHRASE_LEN
    ensures PlanOf(w, EMPTY_DISK, Init(p, Some(seed), random)).Ok?
  {
    var longer := Longer(w, Chain([], []), Some(seed)).value;
    assert longer.secrets == [Some(seed)];
    SealsWhenFew(w, longer, p, random);
    hide SealChain, EncodedRecords;
  }

  lemma SealsWhenFew(w: World, chain: Chain, p: string, random: Randomness)
    requires Sound(w) && |w.vault.nfc(p)| >= MIN_PASSPHRASE_LEN && |chain.secrets| <= EpochStoreFormat.MAX_ENTRIES
    ensures SealChain(w, chain, p, random).Ok?
  {
    var held := HeldMap(chain.secrets);
    BelowSize(held.Keys, |chain.secrets|);
    SealThenOpen(w.vault, Store(HeadOf(chain.records), held), p, random);
    hide SealedFile, HeldMap, Opened;
  }

  /** Loadable files can be advanced. */
  lemma AdvancePossible(
      w: World, typed: set<string>, normal: string, disk: Disk, published: seq<EpochRecord>, kept: Chain, p: string,
      seed: Seed, random: Randomness)
    requires Sound(w) && Holds(w, typed, normal, disk, published, kept) && p in typed && Loadable(w, disk, p)
    ensures PlanOf(w, disk, Advance(p, Some(seed), random)).Ok?
    ensures 0 < |published| <= MAX_LOADABLE
  {
    LoadExactly(w, typed, normal, disk, published, kept, p);
    LoadedFacts(w, typed, normal, disk, published, kept, p);
    ReadBackExactly(w.hash, published);
    LongPassphrase(w, typed, normal, disk, published, kept);
    hide Holds, Load, Loadable, SealChain, EncodedRecords, ChainVerdict, Sound;
    var longer := Longer(w, kept, Some(seed)).value;
    SealsWhenFew(w, longer, p, random);
    LoadedShape(w, disk, p);
  }

  lemma LongPassphrase(
      w: World, typed: set<string>, normal: string, disk: Disk, published: seq<EpochRecord>, kept: Chain)
    requires Holds(w, typed, normal, disk, published, kept) && disk.store.Some?
    ensures |normal| >= MIN_PASSPHRASE_LEN
  {
  }

  // ---------------------------------------------------------------- a world in which every run is noticed

  /** Where no store opens under two of the passphrases, whatever they are typed for is noticed. */
  lemma {:induction false} SeparatesRuns(w: World, typed: set<string>, disk: Disk, steps: seq<Step>)
    requires Sound(w) && Separates(w, typed) && TypedIn(steps, typed)
    ensures RunNoticed(w, typed, disk, steps)
    decreases |steps|
  {
    hide Sound, Separates, Noticed, Executed, TypedIn;
    if steps != [] {
      TailTyped(steps, typed);
      SeparatesNotices(w, typed, disk, steps[0].command);
      SeparatesRuns(w, typed, Executed(w, disk, steps[0].command, steps[0].budget), steps[1..]);
    }
  }
}
