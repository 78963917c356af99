/** The entities of a backup (`gateway-config/src/backup.rs`, `state_dir.rs`). */
module BackupTypes {
  import opened Results

  datatype StateFile = Audit | Discovery | Principals | Connections | ServiceTokens | PolicyHistory | ConfigLedger

  datatype StoreProblem = LedgerShared | OtherStoreProblem(code: nat)

  datatype EntryProblem = ChecksumMismatch | IntegrityFailed | DescriptionMismatch | LedgerInvalid | LedgerMismatch

  /** A refusal of the container or of the shared admission rules. */
  datatype ContainerError = ContainerError(code: nat)

  datatype BackupError =
    | StateDirUnavailable
    | Store(store: StateFile, storeProblem: StoreProblem)
    | NothingToBackUp
    | OutputExists
    | OutputUnusable
    | PermissionsUnavailable
    | ArchiveUnreadable
    | StagingUnavailable
    | Container(container: ContainerError)
    | ManifestMissing
    | ManifestInvalid
    | UnsupportedManifestVersion
    | UnexpectedEntry(position: nat)
    | EntryMissing
    | Entry(entryStore: StateFile, entryProblem: EntryProblem)

  datatype EntryRecord = EntryRecord(name: string, bytes: nat, sha256: string, database: string)

  /** A manifest: its entries in archive order, the entry that holds each
      included store, and the ledger's record. */
  datatype Manifest = Manifest(entries: seq<EntryRecord>, stores: map<StateFile, string>, ledger: Option<string>)
}
