/** Reading a backup archive back against its manifest
    (`gateway-config/src/backup.rs`, `read_archive`). */
module BackupArchive {
  import opened Bytes
  import opened Results
  import opened BackupTypes

  const MANIFEST_ENTRY: string := "gateway-backup.json"
  const MAX_MANIFEST_BYTES: nat := 1024 * 1024
  const DATABASE_HEADER_BYTES: nat := 100

  /** Whether the staging copy could be created, flushed and read again. */
  datatype Staging = Staging(created: bool, flushed: bool, readable: bool)

  /** An admitted entry, with what copying it yields. */
  datatype Item =
    | FileItem(path: string, size: nat, position: nat, content: Result<ByteString, ContainerError>, staging: Staging)
    | DirectoryItem(position: nat)

  /** What the container's reader reports next, short of its end. */
  datatype Event = Admitted(item: Item) | Refusal(error: ContainerError)

  datatype SqliteFailure = Corrupt | Unavailable

  datatype ParseFailure = Malformed | UnsupportedVersion

  /** What reading relies on: the manifest parser, SHA-256 in hexadecimal, and the
      inspection of a staged database and of the staged ledger. */
  datatype Tools = Tools(
    parse: ByteString -> Result<Manifest, ParseFailure>,
    sha256: ByteString -> string,
    isRollback: ByteString -> bool,
    describe: ByteString -> Result<string, SqliteFailure>,
    ledger: seq<StagedFile> -> Result<string, SqliteFailure>)

  class ContainerReader {
    var rest: seq<Event>
    const finish: Option<ContainerError>

    constructor (events: seq<Event>, finish: Option<ContainerError>)
      ensures rest == events && this.finish == finish
    {
      rest := events;
      this.finish := finish;
    }

    method Next() returns (r: Result<Option<Item>, ContainerError>)
      modifies this
      ensures old(rest) == [] ==> r == Ok(None) && rest == []
      ensures old(rest) != [] ==>
                && rest == old(rest)[1..]
                && r == match old(rest)[0] case Admitted(item) => Ok(Some(item)) case Refusal(error) => Err(error)
    {
      if rest == [] {
        return Ok(None);
      }
      r := match rest[0] case Admitted(item) => Ok(Some(item)) case Refusal(error) => Err(error);
      rest := rest[1..];
    }
  }

  const ALL: seq<StateFile> := [Audit, Discovery, Principals, Connections, ServiceTokens, PolicyHistory, ConfigLedger]

  /** The first store an entry holds. */
  function StoreOf(m: Manifest, name: string, from: nat := 0): Option<StateFile>
    decreases |ALL| - from
  {
    if from >= |ALL| then None
    else if ALL[from] in m.stores && m.stores[ALL[from]] == name then Some(ALL[from])
    else StoreOf(m, name, from + 1)
  }

  /** Where a store comes in the order they are tried. */
  function Rank(store: StateFile): nat {
    match store
    case Audit => 0 case Discovery => 1 case Principals => 2 case Connections => 3
    case ServiceTokens => 4 case PolicyHistory => 5 case ConfigLedger => 6
  }

  lemma {:induction false} StoreOfExact(m: Manifest, name: string, store: StateFile, from: nat := 0)
    ensures StoreOf(m, name, from) == Some(store) <==>
            && Rank(store) >= from && store in m.stores && m.stores[store] == name
            && forall other :: from <= Rank(other) < Rank(store) && other in m.stores ==> m.stores[other] != name
    decreases |ALL| - from
  {
    if from < |ALL| {
      assert Rank(ALL[from]) == from && forall s :: Rank(s) == from ==> s == ALL[from];
      StoreOfExact(m, name, store, from + 1);
    }
  }

  predicate IsManifestItem(item: Item) { item.FileItem? && item.path == MANIFEST_ENTRY }

  /** The manifest an archive opens with. */
  function ManifestOf(events: seq<Event>, tools: Tools): Option<Manifest> {
    if events == [] || events[0].Refusal? || !IsManifestItem(events[0].item) then None
    else if events[0].item.size > MAX_MANIFEST_BYTES || events[0].item.content.Err? then None
    else
      var parsed := tools.parse(events[0].item.content.value);
      if parsed.Ok? then Some(parsed.value) else None
  }

  /** The entry the manifest lists: a file with its name and size. */
  predicate IsListed(item: Item, x: EntryRecord) {
    item.FileItem? && item.path == x.name && item.size == x.bytes
  }

  /** The listed file, copied in full, with the digest the manifest records. */
  predicate Stages(event: Event, x: EntryRecord, m: Manifest, tools: Tools) {
    && event.Admitted? && IsListed(event.item, x) && StoreOf(m, x.name).Some?
    && event.item.staging.created && event.item.content.Ok? && event.item.staging.flushed
    && tools.sha256(event.item.content.value) == x.sha256
  }

  /** A file in the staging directory, and whether it can be read again. */
  datatype StagedFile = StagedFile(content: ByteString, readable: bool)

  /** What is staged for an event. */
  function StagedOf(event: Event): StagedFile {
    if event.Admitted? && event.item.FileItem? && event.item.content.Ok?
    then StagedFile(event.item.content.value, event.item.staging.readable) else StagedFile([], false)
  }

  function Staged(events: seq<Event>): seq<StagedFile> {
    seq(|events|, i requires 0 <= i < |events| => StagedOf(events[i]))
  }

  /** A staged file that is the database the manifest describes. */
  predicate IsDescribed(file: StagedFile, x: EntryRecord, tools: Tools) {
    && file.readable && tools.isRollback(Header(file.content))
    && tools.describe(file.content) == Ok(x.database)
  }

  function Header(content: ByteString): ByteString { content[..Min(|content|, DATABASE_HEADER_BYTES)] }

  predicate LedgerAgrees(files: seq<StagedFile>, m: Manifest, tools: Tools) {
    m.ledger.Some? ==> tools.ledger(files) == Ok(m.ledger.value)
  }

  /** The first `k` events after the manifest are the first `k` it lists. */
  ghost predicate Reaches(events: seq<Event>, m: Manifest, tools: Tools, k: nat) {
    && k <= |m.entries| && k <= |events|
    && forall i :: 0 <= i < k ==> Stages(events[i], m.entries[i], m, tools)
  }

  /** The first `k` files are of a store, and the databases described. */
  ghost predicate Described(files: seq<StagedFile>, m: Manifest, tools: Tools, k: nat) {
    && k <= |m.entries| && k <= |files|
    && forall i :: 0 <= i < k ==>
         StoreOf(m, m.entries[i].name).Some? && IsDescribed(files[i], m.entries[i], tools)
  }

  /** An archive that is exactly its manifest: the manifest first, then every
      listed entry in order, then the end, each the database described. */
  ghost predicate IsArchiveOf(events: seq<Event>, finish: Option<ContainerError>, m: Manifest, tools: Tools) {
    && ManifestOf(events, tools) == Some(m) && finish.None?
    && var rest := events[1..];
       && |rest| == |m.entries|
       && Reaches(rest, m, tools, |rest|) && Described(Staged(rest), m, tools, |rest|)
       && LedgerAgrees(Staged(rest), m, tools)
  }

  /** What can be wrong with the entries: the archive ends, another entry comes, the
      container refuses one, no store is in it, it cannot be staged, or its digest differs. */
  datatype Fault =
    | Missing | Unexpected(position: nat) | Refused(error: ContainerError) | NoStore | Unstaged
    | BadDigest(store: StateFile)

  function FaultError(fault: Fault): BackupError {
    match fault
    case Missing => EntryMissing
    case Unexpected(position) => UnexpectedEntry(position)
    case Refused(error) => Container(error)
    case NoStore => ManifestInvalid
    case Unstaged => StagingUnavailable
    case BadDigest(store) => Entry(store, ChecksumMismatch)
  }

  /** A listed file, copied in full, whose digest is not the one recorded. */
  predicate HasBadDigest(item: Item, x: EntryRecord, m: Manifest, tools: Tools, store: StateFile) {
    && IsListed(item, x) && StoreOf(m, x.name) == Some(store)
    && item.staging.created && item.content.Ok? && item.staging.flushed
    && tools.sha256(item.content.value) != x.sha256
  }

  /** What is wrong with the rest of an archive, where one more entry is listed. */
  ghost predicate IsFault(rest: seq<Event>, x: EntryRecord, m: Manifest, tools: Tools, fault: Fault) {
    match fault
    case Missing => rest == []
    case Unexpected(position) =>
      rest != [] && rest[0].Admitted? && !IsListed(rest[0].item, x) && position == rest[0].item.position
    case Refused(error) =>
      && rest != []
      && (|| rest[0] == Refusal(error)
          || (IsNext(rest[0], x) && StoreOf(m, x.name).Some? && rest[0].item.staging.created
              && rest[0].item.content == Err(error)))
    case NoStore => rest != [] && IsNext(rest[0], x) && StoreOf(m, x.name).None?
    case Unstaged =>
      && rest != [] && IsNext(rest[0], x) && StoreOf(m, x.name).Some?
      && (!rest[0].item.staging.created || (rest[0].item.content.Ok? && !rest[0].item.staging.flushed))
    case BadDigest(store) => rest != [] && rest[0].Admitted? && HasBadDigest(rest[0].item, x, m, tools, store)
  }

  predicate IsNext(event: Event, x: EntryRecord) { event.Admitted? && IsListed(event.item, x) }

  /** The archive keeps to its manifest for `k` entries and then does not, or
      goes on after the last. */
  ghost predicate FaultAt(events: seq<Event>, m: Manifest, tools: Tools, k: nat, fault: Fault) {
    && Reaches(events, m, tools, k)
    && if k < |m.entries| then IsFault(events[k..], m.entries[k], m, tools, fault)
       else
         && k < |events|
         && fault == match events[k]
                     case Admitted(item) => Unexpected(item.position)
                     case Refusal(error) => Refused(error)
  }

  ghost predicate HasFault(events: seq<Event>, m: Manifest, tools: Tools, fault: Fault) {
    exists k: nat :: FaultAt(events, m, tools, k, fault)
  }

  lemma FaultStops(events: seq<Event>, m: Manifest, tools: Tools, k: nat, fault: Fault, n: nat)
    requires FaultAt(events, m, tools, k, fault) && Reaches(events, m, tools, n)
    ensures n <= k
  {
  }

  /** An archive has one fault at most. */
  lemma FaultIsUnique(events: seq<Event>, m: Manifest, tools: Tools, a: Fault, b: Fault)
    requires HasFault(events, m, tools, a) && HasFault(events, m, tools, b)
    ensures a == b
  {
    var i: nat :| FaultAt(events, m, tools, i, a);
    var j: nat :| FaultAt(events, m, tools, j, b);
    FaultStops(events, m, tools, i, a, j);
    FaultStops(events, m, tools, j, b, i);
  }

  lemma ArchiveHasNoFault(events: seq<Event>, finish: Option<ContainerError>, m: Manifest, tools: Tools, fault: Fault)
    requires IsArchiveOf(events, finish, m, tools)
    ensures !HasFault(events[1..], m, tools, fault)
  {
    forall k: nat ensures !FaultAt(events[1..], m, tools, k, fault) {
      if FaultAt(events[1..], m, tools, k, fault) {
        FaultStops(events[1..], m, tools, k, fault, |m.entries|);
      }
    }
  }

  /** One turn of the loop over the manifest's entries. */
  method StageEntry(reader: ContainerReader, x: EntryRecord, m: Manifest, tools: Tools)
    returns (r: Result<StagedFile, BackupError>)
    modifies reader
    ensures r.Ok? <==> old(reader.rest) != [] && Stages(old(reader.rest)[0], x, m, tools)
    ensures r.Ok? ==> reader.rest == old(reader.rest)[1..] && r.value == StagedOf(old(reader.rest)[0])
    ensures forall fault :: IsFault(old(reader.rest), x, m, tools, fault) <==> r == Err(FaultError(fault))
    ensures r.Err? ==> exists fault :: r.error == FaultError(fault)
  {
    var next := reader.Next();
    if next.Err? {
      assert FaultError(Refused(next.error)) == Container(next.error);
      return Err(Container(next.error));
    }
    if next.value.None? {
      assert FaultError(Missing) == EntryMissing;
      return Err(EntryMissing);
    }
    var item := next.value.value;
    if !item.FileItem? || item.path != x.name || item.size != x.bytes {
      assert FaultError(Unexpected(item.position)) == UnexpectedEntry(item.position);
      return Err(UnexpectedEntry(item.position));
    }
    var store := StoreOf(m, x.name);
    if store.None? {
      assert FaultError(NoStore) == ManifestInvalid;
      return Err(ManifestInvalid);
    }
    assert FaultError(Unstaged) == StagingUnavailable;
    if !item.staging.created {
      return Err(StagingUnavailable);
    }
    if item.content.Err? {
      assert FaultError(Refused(item.content.error)) == Container(item.content.error);
      return Err(Container(item.content.error));
    }
    if !item.staging.flushed {
      return Err(StagingUnavailable);
    }
    if tools.sha256(item.content.value) != x.sha256 {
      assert FaultError(BadDigest(store.value)) == Entry(store.value, ChecksumMismatch);
      return Err(Entry(store.value, ChecksumMismatch));
    }
    r := Ok(StagedFile(item.content.value, item.staging.readable));
  }

  /** The loop over the manifest's entries, and the end after the last. */
  method StageEntries(reader: ContainerReader, m: Manifest, tools: Tools)
    returns (r: Result<seq<StagedFile>, BackupError>)
    modifies reader
    ensures r.Ok? <==> |old(reader.rest)| == |m.entries| && Reaches(old(reader.rest), m, tools, |m.entries|)
    ensures r.Ok? ==> r.value == Staged(old(reader.rest))
    ensures forall fault :: HasFault(old(reader.rest), m, tools, fault) <==> r == Err(FaultError(fault))
    ensures r.Err? ==> exists fault :: r.error == FaultError(fault)
  {
    var files: seq<StagedFile> := [];
    ghost var events := reader.rest;
    for k := 0 to |m.entries|
      invariant k <= |events| && reader.rest == events[k..] && Reaches(events, m, tools, k)
      invariant files == Staged(events[..k])
    {
      var staged := StageEntry(reader, m.entries[k], m, tools);
      if staged.Err? {
        FaultsAt(events, m, tools, k);
        return Err(staged.error);
      }
      assert Stages(events[k], m.entries[k], m, tools);
      files := files + [staged.value];
    }
    FaultsAt(events, m, tools, |m.entries|);
    var next := reader.Next();
    if next.Err? {
      assert FaultError(Refused(next.error)) == Container(next.error);
      return Err(Container(next.error));
    }
    if next.value.Some? {
      assert FaultError(Unexpected(next.value.value.position)) == UnexpectedEntry(next.value.value.position);
      return Err(UnexpectedEntry(next.value.value.position));
    }
    assert events[..|m.entries|] == events;
    r := Ok(files);
  }

  // Where the next entry is not the one listed, the faults are that entry's.
  lemma FaultsAt(events: seq<Event>, m: Manifest, tools: Tools, k: nat)
    requires Reaches(events, m, tools, k)
    requires k < |m.entries| && k < |events| ==> !Stages(events[k], m.entries[k], m, tools)
    ensures forall fault :: HasFault(events, m, tools, fault) <==> FaultAt(events, m, tools, k, fault)
  {
    forall fault, n: nat | FaultAt(events, m, tools, n, fault) ensures n == k {
      FaultStops(events, m, tools, n, fault, k);
    }
  }

  /** What an entry problem says of the staged file it is reported for. */
  ghost predicate IsProblemOf(problem: EntryProblem, file: StagedFile, x: EntryRecord, tools: Tools) {
    && file.readable
    && var rollback, described := tools.isRollback(Header(file.content)), tools.describe(file.content);
       || (problem.IntegrityFailed? && (!rollback || described == Err(Corrupt)))
       || (problem.DescriptionMismatch? && rollback && described.Ok? && described.value != x.database)
  }

  /** The first staged file that is not as described has the problem; or all are,
      and the ledger has it. */
  ghost predicate HasProblem(
    files: seq<StagedFile>, m: Manifest, tools: Tools, store: StateFile, problem: EntryProblem)
  {
    || (exists i :: 0 <= i < |files| && Described(files, m, tools, i) && i < |m.entries|
                    && StoreOf(m, m.entries[i].name) == Some(store)
                    && IsProblemOf(problem, files[i], m.entries[i], tools))
    || (&& store.ConfigLedger? && m.ledger.Some? && Described(files, m, tools, |files|)
        && match tools.ledger(files)
           case Err(failure) => failure.Corrupt? && problem.LedgerInvalid?
           case Ok(found) => found != m.ledger.value && problem.LedgerMismatch?)
  }

  /** The first staged file that is not as described cannot be read or inspected; or
      all are, and the ledger cannot be. */
  ghost predicate IsUnavailable(files: seq<StagedFile>, m: Manifest, tools: Tools) {
    || (exists i :: 0 <= i < |files| && Described(files, m, tools, i) && i < |m.entries|
                    && StoreOf(m, m.entries[i].name).Some? && CannotInspect(files[i], tools))
    || (m.ledger.Some? && Described(files, m, tools, |files|) && tools.ledger(files) == Err(Unavailable))
  }

  /** The first staged file that is not as described is of no store. */
  ghost predicate IsOfNoStore(files: seq<StagedFile>, m: Manifest, tools: Tools) {
    exists i :: 0 <= i < |files| && Described(files, m, tools, i) && i < |m.entries|
                && StoreOf(m, m.entries[i].name).None?
  }

  ghost predicate CannotInspect(file: StagedFile, tools: Tools) {
    !file.readable || (tools.isRollback(Header(file.content)) && tools.describe(file.content) == Err(Unavailable))
  }

  /** The error of the first staged file that is not as described. */
  ghost predicate IsFileError(e: BackupError, files: seq<StagedFile>, m: Manifest, tools: Tools, i: int) {
    && 0 <= i < |files| && Described(files, m, tools, i) && i < |m.entries|
    && var store := StoreOf(m, m.entries[i].name);
       match e
       case Entry(s, problem) => store == Some(s) && IsProblemOf(problem, files[i], m.entries[i], tools)
       case StagingUnavailable => store.Some? && CannotInspect(files[i], tools)
       case ManifestInvalid => store.None?
       case _ => false
  }

  /** The loop over the staged databases. */
  method VerifyFiles(files: seq<StagedFile>, m: Manifest, tools: Tools) returns (r: Option<BackupError>)
    requires |files| == |m.entries|
    ensures r.None? <==> Described(files, m, tools, |files|)
    ensures r.Some? ==> exists i :: IsFileError(r.value, files, m, tools, i)
  {
    for i := 0 to |files|
      invariant Described(files, m, tools, i)
    {
      var x := m.entries[i];
      var store := StoreOf(m, x.name);
      if store.None? {
        assert IsFileError(ManifestInvalid, files, m, tools, i);
        return Some(ManifestInvalid);
      }
      var error := VerifyFile(files[i], x, store.value, tools);
      if error.Some? {
        assert IsFileError(error.value, files, m, tools, i);
        return error;
      }
    }
    r := None;
  }

  method VerifyFile(file: StagedFile, x: EntryRecord, store: StateFile, tools: Tools) returns (r: Option<BackupError>)
    ensures r.None? <==> IsDescribed(file, x, tools)
    ensures r.Some? ==>
              match r.value
              case Entry(s, problem) => s == store && IsProblemOf(problem, file, x, tools)
              case StagingUnavailable => CannotInspect(file, tools)
              case _ => false
  {
    if !file.readable {
      return Some(StagingUnavailable);
    }
    if !tools.isRollback(Header(file.content)) {
      return Some(Entry(store, IntegrityFailed));
    }
    match tools.describe(file.content) {
      case Err(Corrupt) => return Some(Entry(store, IntegrityFailed));
      case Err(Unavailable) => return Some(StagingUnavailable);
      case Ok(database) =>
        if database != x.database {
          return Some(Entry(store, DescriptionMismatch));
        }
    }
    r := None;
  }

  /** The first file that is not as described is one file, with one error. */
  lemma FileErrorIsUnique(
    a: BackupError, b: BackupError, files: seq<StagedFile>, m: Manifest, tools: Tools, i: int, j: int)
    requires IsFileError(a, files, m, tools, i) && IsFileError(b, files, m, tools, j)
    ensures a == b && !Described(files, m, tools, |files|)
  {
    NotDescribed(a, files, m, tools, i);
    NotDescribed(b, files, m, tools, j);
  }

  lemma NotDescribed(e: BackupError, files: seq<StagedFile>, m: Manifest, tools: Tools, i: int)
    requires IsFileError(e, files, m, tools, i)
    ensures forall k: nat :: k > i ==> !Described(files, m, tools, k)
  {
    assert StoreOf(m, m.entries[i].name).None? || !IsDescribed(files[i], m.entries[i], tools);
  }

  /** The staged databases and ledger against the manifest. */
  method VerifyStaged(files: seq<StagedFile>, m: Manifest, tools: Tools) returns (r: Option<BackupError>)
    requires |files| == |m.entries|
    ensures r.None? <==> Described(files, m, tools, |files|) && LedgerAgrees(files, m, tools)
    ensures forall store, problem ::
              HasProblem(files, m, tools, store, problem) <==> r == Some(Entry(store, problem))
    ensures IsUnavailable(files, m, tools) <==> r == Some(StagingUnavailable)
    ensures IsOfNoStore(files, m, tools) <==> r == Some(ManifestInvalid)
    ensures r.Some? ==> r.value.Entry? || r.value.StagingUnavailable? || r.value.ManifestInvalid?
  {
    r := VerifyFiles(files, m, tools);
    ErrorsAre(files, m, tools);
    if r.Some? {
      ghost var i :| IsFileError(r.value, files, m, tools, i);
      forall e, j | IsFileError(e, files, m, tools, j) ensures e == r.value {
        FileErrorIsUnique(e, r.value, files, m, tools, j, i);
      }
      FileErrorIsUnique(r.value, r.value, files, m, tools, i, i);
      return;
    }
    hide IsFileError, Described;
    if m.ledger.Some? {
      match tools.ledger(files) {
        case Err(Corrupt) => return Some(Entry(ConfigLedger, LedgerInvalid));
        case Err(Unavailable) => return Some(StagingUnavailable);
        case Ok(found) =>
          if found != m.ledger.value {
            return Some(Entry(ConfigLedger, LedgerMismatch));
          }
      }
    }
  }

  /** What the ledger has against the manifest. */
  ghost predicate IsLedgerError(e: BackupError, files: seq<StagedFile>, m: Manifest, tools: Tools) {
    && m.ledger.Some?
    && match tools.ledger(files)
       case Err(Corrupt) => e == Entry(ConfigLedger, LedgerInvalid)
       case Err(Unavailable) => e == StagingUnavailable
       case Ok(found) => found != m.ledger.value && e == Entry(ConfigLedger, LedgerMismatch)
  }

  // The problems are the first file's, or the ledger's when there is none.
  lemma ErrorsAre(files: seq<StagedFile>, m: Manifest, tools: Tools)
    requires |files| == |m.entries|
    ensures forall store, problem ::
              HasProblem(files, m, tools, store, problem) <==>
              || (exists i :: IsFileError(Entry(store, problem), files, m, tools, i))
              || (Described(files, m, tools, |files|) && IsLedgerError(Entry(store, problem), files, m, tools))
    ensures IsUnavailable(files, m, tools) <==>
            || (exists i :: IsFileError(StagingUnavailable, files, m, tools, i))
            || (Described(files, m, tools, |files|) && IsLedgerError(StagingUnavailable, files, m, tools))
    ensures IsOfNoStore(files, m, tools) <==> exists i :: IsFileError(ManifestInvalid, files, m, tools, i)
    ensures (exists e, i :: IsFileError(e, files, m, tools, i)) ==> !Described(files, m, tools, |files|)
  {
    forall e, i | IsFileError(e, files, m, tools, i) ensures !Described(files, m, tools, |files|) {
      NotDescribed(e, files, m, tools, i);
    }
    forall store, problem
      ensures HasProblem(files, m, tools, store, problem) <==>
              || (exists i :: IsFileError(Entry(store, problem), files, m, tools, i))
              || (Described(files, m, tools, |files|) && IsLedgerError(Entry(store, problem), files, m, tools))
    {
      if i :| 0 <= i < |files| && Described(files, m, tools, i)
              && StoreOf(m, m.entries[i].name) == Some(store) && IsProblemOf(problem, files[i], m.entries[i], tools)
      {
        assert IsFileError(Entry(store, problem), files, m, tools, i);
      }
    }
    if i :| 0 <= i < |files| && Described(files, m, tools, i)
            && StoreOf(m, m.entries[i].name).Some? && CannotInspect(files[i], tools)
    {
      assert IsFileError(StagingUnavailable, files, m, tools, i);
    }
    if i :| 0 <= i < |files| && Described(files, m, tools, i) && StoreOf(m, m.entries[i].name).None? {
      assert IsFileError(ManifestInvalid, files, m, tools, i);
    }
  }

  /** What can be wrong with the first entry, read as the manifest. */
  ghost predicate IsManifestError(e: BackupError, events: seq<Event>, tools: Tools) {
    match e
    case ManifestMissing => events == [] || (events[0].Admitted? && !IsManifestItem(events[0].item))
    case ManifestInvalid =>
      && StartsWithManifest(events)
      && (events[0].item.size > MAX_MANIFEST_BYTES
          || (events[0].item.content.Ok? && tools.parse(events[0].item.content.value) == Err(Malformed)))
    case UnsupportedManifestVersion =>
      && StartsWithManifest(events) && events[0].item.size <= MAX_MANIFEST_BYTES && events[0].item.content.Ok?
      && tools.parse(events[0].item.content.value) == Err(UnsupportedVersion)
    case Container(error) =>
      && events != []
      && (|| events[0] == Refusal(error)
          || (StartsWithManifest(events) && events[0].item.size <= MAX_MANIFEST_BYTES
              && events[0].item.content == Err(error)))
    case _ => false
  }

  predicate StartsWithManifest(events: seq<Event>) {
    events != [] && events[0].Admitted? && IsManifestItem(events[0].item)
  }

  /** The first entry of the archive, read as its manifest. */
  method ReadManifest(reader: ContainerReader, tools: Tools) returns (r: Result<Manifest, BackupError>)
    modifies reader
    ensures var events := old(reader.rest);
            && (r.Ok? <==> ManifestOf(events, tools).Some?)
            && (r.Ok? ==> r.value == ManifestOf(events, tools).value && reader.rest == events[1..])
            && forall e :: r == Err(e) <==> IsManifestError(e, events, tools)
  {
    var next := reader.Next();
    if next.Err? {
      return Err(Container(next.error));
    }
    if next.value.None? || !next.value.value.FileItem? || next.value.value.path != MANIFEST_ENTRY {
      return Err(ManifestMissing);
    }
    var item := next.value.value;
    if item.size > MAX_MANIFEST_BYTES {
      return Err(ManifestInvalid);
    }
    if item.content.Err? {
      return Err(Container(item.content.error));
    }
    match tools.parse(item.content.value) {
      case Err(Malformed) => return Err(ManifestInvalid);
      case Err(UnsupportedVersion) => return Err(UnsupportedManifestVersion);
      case Ok(m) => return Ok(m);
    }
  }

  /** Every entry the manifest lists, in order, and no other. */
  ghost predicate HoldsListed(events: seq<Event>, tools: Tools) {
    var m := ManifestOf(events, tools);
    m.Some? && |events| == |m.value.entries| + 1 && Reaches(events[1..], m.value, tools, |m.value.entries|)
  }

  /** `read_archive`, once the container is open. */
  method ReadArchive(reader: ContainerReader, tools: Tools) returns (r: Result<Manifest, BackupError>)
    modifies reader
    ensures forall m :: IsArchiveOf(old(reader.rest), reader.finish, m, tools) <==> r == Ok(m)
    ensures var events := old(reader.rest);
            ManifestOf(events, tools).None? ==> forall e :: r == Err(e) <==> IsManifestError(e, events, tools)
    ensures forall fault ::
              && (ManifestOf(old(reader.rest), tools).Some?
                  && HasFault(old(reader.rest)[1..], ManifestOf(old(reader.rest), tools).value, tools, fault)
                  ==> r == Err(FaultError(fault)))
              && (r == Err(FaultError(fault)) && (fault.Missing? || fault.Unexpected? || fault.BadDigest?) ==>
                    ManifestOf(old(reader.rest), tools).Some?
                    && HasFault(old(reader.rest)[1..], ManifestOf(old(reader.rest), tools).value, tools, fault))
    ensures var events := old(reader.rest);
            HoldsListed(events, tools) ==>
              var m, files := ManifestOf(events, tools).value, Staged(events[1..]);
              if reader.finish.Some? then r == Err(Container(reader.finish.value))
              else
                && (forall store, problem ::
                      HasProblem(files, m, tools, store, problem) <==> r == Err(Entry(store, problem)))
                && (IsUnavailable(files, m, tools) <==> r == Err(StagingUnavailable))
  {
    ghost var events := reader.rest;
    var parsed := ReadManifest(reader, tools);
    if parsed.Err? {
      return Err(parsed.error);
    }
    var m := parsed.value;
    var staged := StageEntries(reader, m, tools);
    if staged.Err? {
      return Err(staged.error);
    }
    if reader.finish.Some? {
      return Err(Container(reader.finish.value));
    }
    var problem := VerifyStaged(staged.value, m, tools);
    if problem.Some? {
      return Err(problem.value);
    }
    r := Ok(m);
  }
}
