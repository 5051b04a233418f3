/** The epoch commands themselves: load, change the chain, replace the files in order. */
module EpochCommands {
  import opened Bytes
  import opened EpochChains
  import opened EpochCodec
  import opened EpochFiles
  import opened EpochStores
  import opened FiniteSets
  import opened Results
  import opened SortedKeys
  import EpochStoreFormat

  /** Two files and the number of replacements left before the machine stops. */
  class Files {
    const world: World
    var history: Option<Bytes>
    var store: Option<Bytes>
    var budget: nat

    constructor (world: World, disk: Disk, budget: nat)
      ensures this.world == world && State() == disk && this.budget == budget
    {
      this.world, history, store, this.budget := world, disk.history, disk.store, budget;
    }

    function State(): Disk
      reads this
    {
      Disk(history, store)
    }

    /** Replaces one file whole, unless the machine stops first. */
    method Replace(write: Write) returns (done: bool)
      modifies this
      ensures done == (old(budget) > 0)
      ensures done ==> budget == old(budget) - 1 && State() == Written(old(State()), [write])
      ensures !done ==> budget == old(budget) && State() == old(State())
    {
      if budget == 0 {
        return false;
      }
      assert [write][..0] == [];
      match write {
        case ToStore(content) => store := Some(content);
        case ToHistory(content) => history := Some(content);
      }
      budget := budget - 1;
      return true;
    }

    /** Replaces store and history, in that order. */
    method ReplaceBoth(first: Write, second: Write) returns (done: bool)
      modifies this
      ensures State() == Written(old(State()), [first, second][..if old(budget) < 2 then old(budget) else 2])
      ensures done == (old(budget) >= 2)
    {
      assert [first, second][..0] == [] && [first, second][..1] == [first] && [first, second][..2] == [first, second];
      assert Written(State(), []) == State();
      done := Replace(first);
      if done {
        assert [first, second][..|[first, second]| - 1] == [first];
        assert [second][..0] == [];
        done := Replace(second);
      }
    }
  }

  method SealHeld(w: World, chain: EpochChain, passphrase: string, random: Randomness)
    returns (result: Result<Bytes, CliError>)
    requires Sound(w) && chain.Valid()
    ensures |chain.secrets| <= MAX_CHAIN_ENTRIES
    ensures result == SealChain(w, Chain(chain.records, chain.secrets), passphrase, random)
  {
    hide ChainInput, CheckRecords, SealedFile, HeldMap;
    var store := new EpochStore(HeadOf(chain.records));
    var filled := Fill(store, chain.secrets);
    if filled.Fail? {
      return Err(Keyring(filled.error));
    }
    var sealed := store.Seal(w.vault, passphrase, random);
    return match sealed case Ok(file) => Ok(file) case Err(error) => Err(Keyring(error));
  }

  /** Puts the secrets there are into an empty store, one by one, as long as they fit. */
  method Fill(store: EpochStore, secrets: seq<Option<Seed>>) returns (outcome: Outcome<EpochStoreFormat.KeyringError>)
    requires store.entries == map[] && |secrets| <= MAX_CHAIN_ENTRIES
    modifies store`entries
    ensures if |HeldMap(secrets)| > EpochStoreFormat.MAX_ENTRIES
            then outcome == Fail(EpochStoreFormat.TooManyEntries(EpochStoreFormat.MAX_ENTRIES))
            else outcome == Pass && store.entries == HeldMap(secrets)
  {
    for i := 0 to |secrets|
      invariant store.entries == HeldMap(secrets[..i]) && |store.entries| <= EpochStoreFormat.MAX_ENTRIES
    {
      HeldStep(secrets, i);
      if secrets[i].Some? {
        var inserted := store.Insert(i, secrets[i].value);
        if inserted.Fail? {
          MoreHeld(secrets, i);
          return inserted;
        }
      }
    }
    assert secrets[..|secrets|] == secrets;
    return Pass;
  }

  lemma HeldStep(secrets: seq<Option<Seed>>, i: nat)
    requires i < |secrets| < 0x1_0000_0000_0000_0000
    ensures i !in HeldMap(secrets[..i])
    ensures HeldMap(secrets[..i + 1])
         == if secrets[i].Some? then HeldMap(secrets[..i])[i := secrets[i].value] else HeldMap(secrets[..i])
  {
  }

  /** A full store cannot take one more secret. */
  lemma MoreHeld(secrets: seq<Option<Seed>>, i: nat)
    requires i < |secrets| < 0x1_0000_0000_0000_0000 && secrets[i].Some?
    requires |HeldMap(secrets[..i])| >= EpochStoreFormat.MAX_ENTRIES
    ensures |HeldMap(secrets)| > EpochStoreFormat.MAX_ENTRIES
  {
    var some, all := HeldMap(secrets[..i]), HeldMap(secrets);
    assert some.Keys + {i} <= all.Keys;
    SubsetSize(some.Keys + {i}, all.Keys);
  }

  method LoadEpochs(w: World, files: Files, passphrase: string) returns (result: Result<EpochChain, CliError>)
    ensures match Load(w, files.State(), passphrase)
            case Err(error) => result == Err(error)
            case Ok(chain) =>
              && result.Ok? && fresh(result.value) && result.value.Valid()
              && result.value.hasher == w.hash && result.value.keyOf == w.keyOf
              && Chain(result.value.records, result.value.secrets) == chain
  {
    hide DecodedRecords, Opened, ChainVerdict, Restored, Items, HeadOf;
    if files.history.None? {
      return Err(Missing);
    }
    if |files.history.value| > MAX_LOG_FILE {
      return Err(TooLarge);
    }
    var decoded := DecodeRecords(files.history.value);
    if decoded.Err? {
      return Err(Epoch(decoded.error));
    }
    var verdict := Verify(w.hash, decoded.value);
    if verdict.Fail? {
      return Err(Epoch(verdict.error));
    }
    if files.store.None? {
      return Err(Missing);
    }
    if |files.store.value| > EpochStoreFormat.MAX_FILE_LEN {
      return Err(TooLarge);
    }
    var held := EpochStore.Open(w.vault, files.store.value, passphrase);
    if held.Err? {
      return Err(Keyring(held.error));
    }
    if held.value.chainHead != HeadOf(decoded.value) {
      return Err(NotTogether);
    }
    var restored := EpochChain.Restore(w.hash, w.keyOf, decoded.value, Items(held.value.entries));
    if restored.Err? {
      return Err(Epoch(restored.error));
    }
    return Ok(restored.value);
  }

  method EpochInit(w: World, files: Files, passphrase: string, generated: Option<Seed>, random: Randomness)
    returns (outcome: Outcome<CliError>)
    requires Sound(w)
    modifies files
    ensures files.State() == Executed(w, old(files.State()), Init(passphrase, generated, random), old(files.budget))
    ensures outcome == Reported(w, old(files.State()), Init(passphrase, generated, random), old(files.budget))
  {
    hide SealChain, Written, ChainVerdict;
    if files.history.Some? || files.store.Some? {
      return Fail(OutputExists);
    }
    var chain := EpochChain.Start(w.hash, w.keyOf, generated);
    if chain.Err? {
      return Fail(Epoch(chain.error));
    }
    assert [] + [NextRecord(w.hash, w.keyOf, [], generated.value)] == chain.value.records;
    assert [] + [generated] == chain.value.secrets;
    var sealed := SealHeld(w, chain.value, passphrase, random);
    if sealed.Err? {
      return Fail(sealed.error);
    }
    var encoded := EncodeRecords(chain.value.records);
    var done := files.ReplaceBoth(ToStore(sealed.value), ToHistory(encoded));
    return if done then Pass else Fail(Crashed);
  }

  method EpochAdvance(w: World, files: Files, passphrase: string, generated: Option<Seed>, random: Randomness)
    returns (outcome: Outcome<CliError>)
    requires Sound(w)
    modifies files
    ensures files.State() == Executed(w, old(files.State()), Advance(passphrase, generated, random), old(files.budget))
    ensures outcome == Reported(w, old(files.State()), Advance(passphrase, generated, random), old(files.budget))
  {
    hide SealChain, Written, ChainVerdict, Load, EncodedRecords, NextRecord, HeldMap;
    var loaded := LoadEpochs(w, files, passphrase);
    if loaded.Err? {
      return Fail(loaded.error);
    }
    var chain := loaded.value;
    var advanced := chain.Advance(generated);
    if advanced.Err? {
      return Fail(Epoch(advanced.error));
    }
    var sealed := SealHeld(w, chain, passphrase, random);
    if sealed.Err? {
      return Fail(sealed.error);
    }
    var encoded := EncodeRecords(chain.records);
    var done := files.ReplaceBoth(ToStore(sealed.value), ToHistory(encoded));
    return if done then Pass else Fail(Crashed);
  }

  method EpochErase(w: World, files: Files, number: u64, passphrase: string, random: Randomness)
    returns (outcome: Outcome<CliError>)
    requires Sound(w)
    modifies files
    ensures files.State() == Executed(w, old(files.State()), Erase(number, passphrase, random), old(files.budget))
    ensures outcome == Reported(w, old(files.State()), Erase(number, passphrase, random), old(files.budget))
  {
    assert Written(files.State(), []) == files.State();
    assert forall write: Write :: [write][..0] == [] && [write][..1] == [write];
    hide SealChain, Written, ChainVerdict, Load;
    var loaded := LoadEpochs(w, files, passphrase);
    if loaded.Err? {
      return Fail(loaded.error);
    }
    var chain := loaded.value;
    if number >= |chain.records| {
      return Fail(Epoch(UnknownEpoch(number)));
    }
    if number == |chain.records| - 1 {
      return Fail(IsCurrent(number));
    }
    if chain.secrets[number].None? {
      return Fail(AlreadyErased(number));
    }
    var erased := chain.Erase(number);
    var sealed := SealHeld(w, chain, passphrase, random);
    if sealed.Err? {
      return Fail(sealed.error);
    }
    var done := files.Replace(ToStore(sealed.value));
    return if done then Pass else Fail(Crashed);
  }
}
