/**
 The epoch commands of apps/hide-cli/src/main.rs as steps on two files, each file replaced whole
 and in one go, with a crash possible before any replacement.
 */
module EpochFiles {
  import opened Bytes
  import opened EpochChains
  import opened EpochCodec
  import opened EpochStores
  import opened Hashing
  import opened Results
  import opened SortedKeys
  import Aead
  import EpochStoreFormat

  const MAX_LOG_FILE := 16 * 1024 * 1024

  /** The primitives: one hash, one key generator, one vault. */
  datatype World = World(hash: Hasher, keyOf: KeyOf, vault: Vault)

  ghost predicate Sound(w: World) {
    WellSized(w.keyOf) && Aead.Correct(w.vault.cipher)
  }

  datatype Disk = Disk(history: Option<Bytes>, store: Option<Bytes>)

  const EMPTY_DISK := Disk(None, None)

  datatype CliError =
    | OutputExists
    | Missing
    | TooLarge
    | NotTogether
    | IsCurrent(number: nat)
    | AlreadyErased(number: nat)
    | Epoch(epoch: EpochError)
    | Keyring(keyring: EpochStoreFormat.KeyringError)
    | Crashed

  /** The two things a restored chain consists of. */
  datatype Chain = Chain(records: seq<EpochRecord>, secrets: seq<Option<Seed>>)

  datatype Command =
    | Init(passphrase: string, generated: Option<Seed>, random: Randomness)
    | Advance(passphrase: string, generated: Option<Seed>, random: Randomness)
    | Erase(number: u64, passphrase: string, random: Randomness)

  datatype Write = ToStore(content: Bytes) | ToHistory(content: Bytes)

  // ---------------------------------------------------------------- what a command does

  /** The secrets still held, by epoch number. */
  function HeldMap(secrets: seq<Option<Seed>>): (held: map<u64, Seed>)
    requires |secrets| < 0x1_0000_0000_0000_0000
    ensures forall i :: i in held <==> 0 <= i < |secrets| && secrets[i].Some?
    ensures forall i :: i in held ==> held[i] == secrets[i].value
  {
    map i: u64 | 0 <= i < |secrets| && secrets[i].Some? :: secrets[i].value
  }

  /** The store file of a chain: its secrets, those erased left out, under its last link. */
  function SealChain(w: World, chain: Chain, passphrase: string, random: Randomness): Result<Bytes, CliError>
    requires Sound(w) && |chain.secrets| < 0x1_0000_0000_0000_0000
  {
    var held := HeldMap(chain.secrets);
    if |held| > EpochStoreFormat.MAX_ENTRIES then
      Err(Keyring(EpochStoreFormat.TooManyEntries(EpochStoreFormat.MAX_ENTRIES)))
    else
      match SealedFile(w.vault, Store(HeadOf(chain.records), held), passphrase, random)
      case Err(error) => Err(Keyring(error))
      case Ok(file) => Ok(file)
  }

  /** The chain in the two files, if each is in order and they fit each other. */
  function Load(w: World, disk: Disk, passphrase: string): Result<Chain, CliError> {
    if disk.history.None? then Err(Missing)
    else if |disk.history.value| > MAX_LOG_FILE then Err(TooLarge)
    else
      match DecodedRecords(disk.history.value)
      case Err(error) => Err(Epoch(error))
      case Ok(records) =>
        match ChainVerdict(w.hash, records)
        case Fail(error) => Err(Epoch(error))
        case Pass =>
          if disk.store.None? then Err(Missing)
          else if |disk.store.value| > EpochStoreFormat.MAX_FILE_LEN then Err(TooLarge)
          else
            match Opened(w.vault, disk.store.value, passphrase)
            case Err(error) => Err(Keyring(error))
            case Ok(store) =>
              if store.chainHead != HeadOf(records) then Err(NotTogether)
              else
                match Restored(w.hash, w.keyOf, records, Items(store.entries))
                case Err(error) => Err(Epoch(error))
                case Ok(secrets) => Ok(Chain(records, secrets))
  }

  /** The chain with one more epoch. */
  function Longer(w: World, chain: Chain, generated: Option<Seed>): Result<Chain, CliError> {
    if |chain.records| >= MAX_CHAIN_ENTRIES then Err(Epoch(TooManyRecords(|chain.records|)))
    else if generated.None? then Err(Epoch(Crypto))
    else Ok(Chain(chain.records + [NextRecord(w.hash, w.keyOf, chain.records, generated.value)],
                  chain.secrets + [generated]))
  }

  /** Store before history: a published key must never be one whose secret was not saved. */
  function Publish(w: World, chain: Chain, passphrase: string, random: Randomness): Result<seq<Write>, CliError>
    requires Sound(w) && |chain.secrets| < 0x1_0000_0000_0000_0000 && |chain.records| < 0x1_0000_0000_0000_0000
  {
    match SealChain(w, chain, passphrase, random)
    case Err(error) => Err(error)
    case Ok(file) => Ok([ToStore(file), ToHistory(EncodedRecords(chain.records))])
  }

  /** The file replacements a command makes, in order, or the reason it makes none. */
  function PlanOf(w: World, disk: Disk, command: Command): Result<seq<Write>, CliError>
    requires Sound(w)
  {
    match command
    case Init(passphrase, generated, random) =>
      if disk.history.Some? || disk.store.Some? then Err(OutputExists)
      else
        (match Longer(w, Chain([], []), generated)
         case Err(error) => Err(error)
         case Ok(chain) => Publish(w, chain, passphrase, random))
    case Advance(passphrase, generated, random) =>
      (match Load(w, disk, passphrase)
       case Err(error) => Err(error)
       case Ok(chain) =>
         match Longer(w, chain, generated)
         case Err(error) => Err(error)
         case Ok(longer) =>
           LoadedShape(w, disk, passphrase);
           Publish(w, longer, passphrase, random))
    case Erase(number, passphrase, random) =>
      (match Load(w, disk, passphrase)
       case Err(error) => Err(error)
       case Ok(chain) =>
         LoadedShape(w, disk, passphrase);
         if number >= |chain.records| then Err(Epoch(UnknownEpoch(number)))
         else if number == |chain.records| - 1 then Err(IsCurrent(number))
         else if chain.secrets[number].None? then Err(AlreadyErased(number))
         else
           match SealChain(w, Chain(chain.records, chain.secrets[number := None]), passphrase, random)
           case Err(error) => Err(error)
           case Ok(file) => Ok([ToStore(file)]))
  }

  lemma LoadedShape(w: World, disk: Disk, passphrase: string)
    requires Load(w, disk, passphrase).Ok?
    ensures var chain := Load(w, disk, passphrase).value;
            && chain.records != [] && ChainVerdict(w.hash, chain.records) == Pass
            && Matches(w.keyOf, chain.records, chain.secrets)
            && |chain.secrets| == |chain.records| <= MAX_CHAIN_ENTRIES
  {
    hide DecodedRecords, Opened, CheckRecords, Items;
    var chain := Load(w, disk, passphrase).value;
    var store := Opened(w.vault, disk.store.value, passphrase).value;
    PlaceMeaning(w.keyOf, chain.records, NoSecrets(|chain.records|), Items(store.entries));
  }

  function Written(disk: Disk, writes: seq<Write>): Disk {
    if writes == [] then disk
    else
      var before := Written(disk, writes[..|writes| - 1]);
      match writes[|writes| - 1]
      case ToStore(content) => before.(store := Some(content))
      case ToHistory(content) => before.(history := Some(content))
  }

  /** The disk after a command that is cut short after `budget` replacements, if it makes that many. */
  function Executed(w: World, disk: Disk, command: Command, budget: nat): Disk
    requires Sound(w)
  {
    match PlanOf(w, disk, command)
    case Err(_) => disk
    case Ok(writes) => Written(disk, writes[..if budget < |writes| then budget else |writes|])
  }

  /** What the command reports: its first error, the crash that stopped it, or success. */
  function Reported(w: World, disk: Disk, command: Command, budget: nat): Outcome<CliError>
    requires Sound(w)
  {
    match PlanOf(w, disk, command)
    case Err(error) => Fail(error)
    case Ok(writes) => if budget < |writes| then Fail(Crashed) else Pass
  }
}
