/** Creating a backup over a directory where every step may fail and others may
    act at any moment (`gateway-config/src/backup.rs`, `create` and `Private`). */
module BackupPublication {
  import opened Bytes
  import opened Results
  import opened BackupTypes
  import opened BackupGroups
  import opened BackupWorld
  import opened BackupTrace

  function StopError(stop: Stop): BackupError {
    match stop
    case OutputSeen => OutputExists
    case NoHiddenName(Verify) => StagingUnavailable
    case NotOwnerOnly => PermissionsUnavailable
    case NotRead => ArchiveUnreadable
    case _ => OutputUnusable
  }

  ghost predicate SomeFree(files: Files, purpose: Purpose) {
    exists attempt: nat :: attempt < ATTEMPTS && Hidden(purpose, attempt) !in files
  }

  // The calls `create` makes, as steps of the world.

  datatype IoResult = Done | AlreadyExists | Failed

  /** What a step that works makes of the names seen. */
  lemma EffectSeen(kind: Kind, met: Files)
    requires kind.Linking? ==> kind.name in met
    requires kind.Creating? || kind.Removing? || kind.Writing? ==> kind.name.Hidden?
    ensures Seen(Effect(kind, Works, met)) == match kind
            case Creating(name, node) => if name in Seen(met) then Seen(met) else Seen(met)[name := node]
            case Removing(name) => Seen(met) - {name}
            case Writing(name, bytes) => Seen(met)[name := FileNode(bytes)]
            case Linking(name) => if Output in Seen(met) then Seen(met) else Seen(met)[Output := met[name]]
            case _ => Seen(met)
    ensures forall name: Name :: !name.Foreign? ==> (name in Seen(met) <==> name in met)
  {
  }

  /** `create_new` or `mkdir`. */
  method CreateNew(world: World, name: Name, node: Node) returns (r: IoResult)
    requires world.Valid() && name.Hidden? && name !in world.owned
    modifies world
    ensures world.Valid() && Keeps(old(world.files), world.files, old(world.owned))
    ensures world.stuck == old(world.stuck) && world.torn == old(world.torn)
    ensures world.owned == if r.Done? then old(world.owned) + {name} else old(world.owned)
    ensures r.Done? ==> world.files[name] == node
    ensures world.stop == if r.Failed? || (r.AlreadyExists? && name.attempt == ATTEMPTS - 1)
                          then Some(NoHiddenName(name.purpose)) else old(world.stop)
    ensures Quietly(old(world.steps), world.steps)
    ensures Harmless(old(world.script)) ==>
              && Harmless(world.script) && !r.Failed? && (r.Done? <==> name !in Seen(old(world.files)))
              && Seen(world.files) == if r.Done? then Seen(old(world.files))[name := node] else Seen(old(world.files))
  {
    hide Acted, World.Traced, Seen, Harmless;
    ghost var s;
    var fate, there;
    fate, there, s := world.Do(Creating(name, node));
    EffectSeen(Creating(name, node), s.met);
    r := if !fate.Works? then Failed else if there then AlreadyExists else Done;
  }

  /** Removes an own file or directory, best effort. */
  method Remove(world: World, name: Name)
    requires world.Valid() && name in world.owned && name !in world.stuck
    modifies world
    ensures world.Valid() && Keeps(old(world.files), world.files, world.owned)
    ensures world.stop == old(world.stop) && world.torn == old(world.torn)
    ensures world.stuck == old(world.stuck) + (world.owned * {name})
    ensures world.owned == old(world.owned) - ({name} - world.stuck)
    ensures Quietly(old(world.steps), world.steps)
    ensures Harmless(old(world.script)) ==>
              && Harmless(world.script) && world.stuck == old(world.stuck)
              && Seen(world.files) == Seen(old(world.files)) - {name}
  {
    hide Acted, World.Traced, Seen, Harmless;
    ghost var s;
    var fate, there;
    fate, there, s := world.Do(Removing(name));
    EffectSeen(Removing(name), s.met);
  }

  /** Writes an own file; it may be torn, and may not say so. */
  method Write(world: World, name: Name, bytes: ByteString) returns (ok: bool)
    requires world.Valid() && name in world.owned && world.files[name].FileNode? && world.torn.None?
    modifies world
    ensures world.Valid() && Keeps(old(world.files), world.files, world.owned - {name})
    ensures world.owned == old(world.owned) && world.stuck == old(world.stuck)
    ensures world.files[name].FileNode? && (ok ==> world.files[name] == FileNode(Left(bytes, world.torn)))
    ensures world.stop == if ok then old(world.stop) else Some(NotWritten)
    ensures Quietly(old(world.steps), world.steps)
    ensures Harmless(old(world.script)) ==>
              && Harmless(world.script) && ok && world.torn.None?
              && Seen(world.files) == Seen(old(world.files))[name := FileNode(bytes)]
  {
    hide Acted, World.Traced, Seen, Harmless;
    ghost var s;
    var fate, there;
    fate, there, s := world.Do(Writing(name, bytes));
    EffectSeen(Writing(name, bytes), s.met);
    ok := fate.Works? || (fate.Tears? && !fate.reported);
  }

  /** A step that changes nothing here: taking snapshots, or reading an own file. */
  method Look(world: World, step: Stop) returns (ok: bool)
    requires world.Valid() && (step == NotSnapshot || step == NotOwnerOnly || step == NotRead)
    modifies world
    ensures world.Valid() && Keeps(old(world.files), world.files, world.owned)
    ensures world.owned == old(world.owned) && world.stuck == old(world.stuck) && world.torn == old(world.torn)
    ensures world.stop == if ok then old(world.stop) else Some(step)
    ensures Quietly(old(world.steps), world.steps)
    ensures Harmless(old(world.script)) ==>
              Harmless(world.script) && ok && Seen(world.files) == Seen(old(world.files))
  {
    hide Acted, World.Traced, Seen, Harmless;
    ghost var s;
    var fate, there;
    fate, there, s := world.Do(Looking(step));
    ok := fate.Works?;
  }

  /** `symlink_metadata` of the output; `Done` means there is nothing. */
  method StatOutput(world: World) returns (r: IoResult)
    requires world.Valid()
    modifies world
    ensures world.Valid() && Keeps(old(world.files), world.files, world.owned)
    ensures world.owned == old(world.owned) && world.stuck == old(world.stuck) && world.torn == old(world.torn)
    ensures world.stop == match r
            case Done => old(world.stop)
            case AlreadyExists => Some(OutputSeen)
            case Failed => Some(OutputUnknown)
    ensures Quietly(old(world.steps), world.steps)
    ensures Harmless(old(world.script)) ==>
              && Harmless(world.script) && Seen(world.files) == Seen(old(world.files))
              && r == if Output in Seen(old(world.files)) then AlreadyExists else Done
  {
    hide Acted, World.Traced, Seen, Harmless;
    ghost var s;
    var fate, there;
    fate, there, s := world.Do(Checking);
    EffectSeen(Checking, s.met);
    r := if !fate.Works? then Failed else if there then AlreadyExists else Done;
  }

  /** `hard_link` from an own file to the output. */
  method LinkOutput(world: World, name: Name) returns (r: IoResult)
    requires world.Valid() && name in world.owned && world.files[name].FileNode?
    modifies world
    ensures world.Valid() && Keeps(old(world.files), world.files, world.owned)
    ensures world.owned == old(world.owned) && world.stuck == old(world.stuck) && world.torn == old(world.torn)
    ensures world.stop == match r
            case Done => old(world.stop)
            case AlreadyExists => Some(OutputSeen)
            case Failed => Some(NotLinked)
    ensures !r.Done? ==> Quietly(old(world.steps), world.steps)
    ensures |world.steps| == |old(world.steps)| + 1 && old(world.steps) <= world.steps
    ensures r.Done? ==> Links(world.steps[|old(world.steps)|], old(world.files)[name].bytes)
    ensures Harmless(old(world.script)) ==>
              && Harmless(world.script) && !r.Failed? && (r.Done? <==> Output !in Seen(old(world.files)))
              && Seen(world.files) ==
                 if r.Done? then Seen(old(world.files))[Output := old(world.files)[name]] else Seen(old(world.files))
  {
    hide Acted, World.Traced, Seen, Harmless;
    ghost var s;
    var fate, there;
    fate, there, s := world.Do(Linking(name));
    EffectSeen(Linking(name), s.met);
    r := if !fate.Works? then Failed else if there then AlreadyExists else Done;
  }

  /** `Private::create`: the first hidden name not taken, created exclusively. */
  method CreatePrivate(world: World, purpose: Purpose, node: Node) returns (name: Option<Name>)
    requires world.Valid() && forall n <- world.owned :: n.purpose != purpose
    modifies world
    ensures world.Valid() && Keeps(old(world.files), world.files, old(world.owned))
    ensures world.stuck == old(world.stuck) && world.torn == old(world.torn)
    ensures world.stop == if name.Some? then old(world.stop) else Some(NoHiddenName(purpose))
    ensures name.None? ==> world.owned == old(world.owned)
    ensures name.Some? ==>
              && name.value.Hidden? && name.value.purpose == purpose && name.value.attempt < ATTEMPTS
              && world.owned == old(world.owned) + {name.value} && world.files[name.value] == node
    ensures Quietly(old(world.steps), world.steps)
    ensures Harmless(old(world.script)) ==>
              && Harmless(world.script) && (name.Some? <==> SomeFree(Seen(old(world.files)), purpose))
              && (name.None? ==> Seen(world.files) == Seen(old(world.files)))
              && (name.Some? ==> name.value !in Seen(old(world.files)) &&
                                 Seen(world.files) == Seen(old(world.files))[name.value := node])
  {
    hide LeavesOutput, Seen, Harmless, World.Traced;
    for attempt := 0 to ATTEMPTS
      invariant world.Valid() && world.owned == old(world.owned) && world.stuck == old(world.stuck)
      invariant world.torn == old(world.torn)
      invariant world.stop == if attempt == ATTEMPTS then Some(NoHiddenName(purpose)) else old(world.stop)
      invariant Keeps(old(world.files), world.files, world.owned)
      invariant Quietly(old(world.steps), world.steps)
      invariant Harmless(old(world.script)) ==>
                  && Harmless(world.script) && Seen(world.files) == Seen(old(world.files))
                  && forall a :: 0 <= a < attempt ==> Hidden(purpose, a) in Seen(old(world.files))
    {
      var r := CreateNew(world, Hidden(purpose, attempt), node);
      match r {
        case Done => return Some(Hidden(purpose, attempt));
        case AlreadyExists =>
        case Failed => return None;
      }
    }
    name := None;
  }

  /** A manifest and the archive that holds it. */
  datatype Draft = Draft(manifest: Manifest, archive: ByteString)

  /** What `create` is asked for: whether the output has a file name, the stores
      present, and the draft that the snapshots yield. */
  datatype Request = Request(
    named: bool,
    present: Result<seq<Present>, BackupError>,
    draft: Result<Draft, BackupError>)

  type Reading = ByteString -> Result<Manifest, BackupError>

  lemma OthersFree(files: Files, name: Name, node: Node, purpose: Purpose)
    requires name.Hidden? && name.purpose != purpose
    ensures SomeFree(files[name := node], purpose) == SomeFree(files, purpose)
  {
  }

  /** The archive written into a hidden file, which does not outlive a failure. */
  method WritePartial(world: World, archive: ByteString) returns (r: Option<Name>)
    requires world.Valid() && world.stuck == {} && world.stop.None? && world.torn.None?
    requires forall name <- world.owned :: name.purpose == Work
    modifies world
    ensures world.Valid() && Quietly(old(world.steps), world.steps)
    ensures Keeps(old(world.files), world.files, old(world.owned))
    ensures world.stop.None? <==> r.Some?
    ensures world.stop.Some? ==> StopError(world.stop.value) == OutputUnusable
    ensures forall name <- world.owned - old(world.owned) :: name.purpose == Partial
    ensures world.owned == old(world.owned) + world.stuck + if r.Some? then {r.value} else {}
    ensures world.stuck !! old(world.owned)
    ensures r.Some? ==>
              world.stuck == {} && r.value !in old(world.owned) &&
                  world.files[r.value] == FileNode(Left(archive, world.torn))
    ensures Harmless(old(world.script)) ==>
              && Harmless(world.script) && world.stuck == {} && world.torn.None?
              && r.Some? == SomeFree(Seen(old(world.files)), Partial)
              && (r.Some? ==> && r.value !in Seen(old(world.files))
                              && Seen(world.files) == Seen(old(world.files))[r.value := FileNode(archive)])
              && (r.None? ==> Seen(world.files) == Seen(old(world.files)))
  {
    hide LeavesOutput, SomeFree, Seen, Harmless, World.Traced, Left;
    r := CreatePrivate(world, Partial, FileNode([]));
    if r.Some? {
      var written := Write(world, r.value, archive);
      if !written {
        Remove(world, r.value);
        r := None;
      }
    }
  }

  /** Takes the snapshots and writes the archive, with the working directory there. */
  method WriteDraft(world: World, draft: Result<Draft, BackupError>) returns (r: Result<Name, BackupError>)
    requires world.Valid() && world.stuck == {} && world.stop.None? && world.torn.None?
    requires forall name <- world.owned :: name.purpose == Work
    modifies world
    ensures world.Valid() && Quietly(old(world.steps), world.steps)
    ensures Keeps(old(world.files), world.files, old(world.owned))
    ensures world.stop.Some? ==> r == Err(StopError(world.stop.value))
    ensures world.stop.None? ==> if draft.Err? then r == Err(draft.error) else r.Ok?
    ensures forall name <- world.owned - old(world.owned) :: name.purpose == Partial
    ensures world.owned == old(world.owned) + world.stuck + if r.Ok? then {r.value} else {}
    ensures world.stuck !! old(world.owned)
    ensures r.Ok? ==>
              && draft.Ok? && world.stuck == {} && r.value !in old(world.owned)
              && world.files[r.value] == FileNode(Left(draft.value.archive, world.torn))
    ensures Harmless(old(world.script)) ==>
              && Harmless(world.script) && world.stuck == {} && world.torn.None?
              && r.Ok? == (draft.Ok? && SomeFree(Seen(old(world.files)), Partial))
              && (r.Ok? ==> r.value !in Seen(old(world.files)) &&
                            Seen(world.files) == Seen(old(world.files))[r.value := FileNode(draft.value.archive)])
              && (r.Err? ==> Seen(world.files) == Seen(old(world.files)) &&
                             r.error == if draft.Err? then draft.error else OutputUnusable)
  {
    hide LeavesOutput, SomeFree, Seen, Harmless, World.Traced, Left;
    var taken := Look(world, NotSnapshot);
    if !taken {
      return Err(OutputUnusable);
    }
    if draft.Err? {
      return Err(draft.error);
    }
    var partial := WritePartial(world, draft.value.archive);
    r := if partial.None? then Err(OutputUnusable) else Ok(partial.value);
  }

  /** Snapshots into a working directory, then the archive in a hidden file. */
  method Assemble(world: World, draft: Result<Draft, BackupError>) returns (r: Result<Name, BackupError>)
    requires world.Valid() && world.owned == {} && world.stop.None? && world.torn.None?
    modifies world
    ensures world.Valid() && Quietly(old(world.steps), world.steps)
    ensures world.stop.Some? ==> r == Err(StopError(world.stop.value))
    ensures world.stop.None? ==> if draft.Err? then r == Err(draft.error) else r.Ok?
    ensures forall name <- world.owned :: name.purpose != Verify
    ensures r.Err? ==> world.owned == world.stuck
    ensures r.Ok? ==>
              && draft.Ok? && r.value in world.owned
              && world.files[r.value] == FileNode(Left(draft.value.archive, world.torn))
              && world.stuck == world.owned - {r.value}
    ensures Harmless(old(world.script)) ==>
              && Harmless(world.script) && world.stuck == {} && world.torn.None?
              && r.Ok? == (draft.Ok? && SomeFree(Seen(old(world.files)), Work) &&
                  SomeFree(Seen(old(world.files)), Partial))
              && (r.Ok? ==> r.value !in Seen(old(world.files)) &&
                            Seen(world.files) == Seen(old(world.files))[r.value := FileNode(draft.value.archive)])
              && (r.Err? ==> Seen(world.files) == Seen(old(world.files)) &&
                             r.error == if SomeFree(Seen(old(world.files)), Work) &&
                                 draft.Err? then draft.error else OutputUnusable)
  {
    hide LeavesOutput, SomeFree, Seen, Harmless, World.Traced, Left;
    ghost var files := Seen(world.files);
    var work := CreatePrivate(world, Work, DirectoryNode);
    if work.None? {
      return Err(OutputUnusable);
    }
    OthersFree(files, work.value, DirectoryNode, Partial);
    r := WriteDraft(world, draft);
    Remove(world, work.value);
    assert Harmless(old(world.script)) ==>
        Seen(world.files) == if r.Err? then files else files[r.value := FileNode(draft.value.archive)];
  }

  /** Reads the hidden archive back through a staging directory. */
  method ReadBack(world: World, partial: Name, read: Reading) returns (r: Result<Manifest, BackupError>)
    requires world.Valid() && partial in world.owned && world.files[partial].FileNode?
    requires world.stuck == world.owned - {partial} && world.stop.None?
    requires forall name <- world.owned :: name.purpose != Verify
    modifies world
    ensures world.Valid() && Quietly(old(world.steps), world.steps)
    ensures r == if world.stop.Some? then Err(StopError(world.stop.value)) else read(old(world.files)[partial].bytes)
    ensures partial in world.owned && world.files[partial] == old(world.files)[partial] && world.torn == old(world.torn)
    ensures world.stuck == world.owned - {partial}
    ensures Harmless(old(world.script)) ==>
              && Harmless(world.script) && Seen(world.files) == Seen(old(world.files)) &&
                  world.stuck == old(world.stuck)
              && r == if SomeFree(Seen(old(world.files)), Verify)
                      then read(old(world.files)[partial].bytes) else Err(StagingUnavailable)
  {
    hide LeavesOutput, SomeFree, Seen, Harmless, World.Traced, Left;
    var owner := Look(world, NotOwnerOnly);
    if !owner {
      return Err(PermissionsUnavailable);
    }
    var staging := CreatePrivate(world, Verify, DirectoryNode);
    if staging.None? {
      return Err(StagingUnavailable);
    }
    var readable := Look(world, NotRead);
    r := if readable then read(world.files[partial].bytes) else Err(ArchiveUnreadable);
    Remove(world, staging.value);
    assert Harmless(old(world.script)) ==> Seen(world.files) == Seen(old(world.files));
  }

  /** With the output, if it was linked. */
  ghost function Linked(files: Files, linked: bool, node: Node): Files {
    if linked then files[Output := node] else files
  }

  /** `Private::publish`: links the archive to the output without replacing
      anything there; its hidden name goes either way. */
  method Publish(world: World, partial: Name) returns (r: Option<BackupError>)
    requires world.Valid() && partial in world.owned && world.files[partial].FileNode?
    requires world.stuck == world.owned - {partial} && world.stop.None?
    modifies world
    ensures world.Valid() && world.owned == world.stuck
    ensures r == if world.stop.Some? then Some(StopError(world.stop.value)) else None
    ensures world.torn == old(world.torn)
    ensures r.Some? ==> Quietly(old(world.steps), world.steps)
    ensures r.None? ==> PublishesAt(old(world.steps), world.steps, |old(world.steps)|, old(world.files)[partial].bytes)
    ensures Harmless(old(world.script)) ==>
              && Harmless(world.script) && world.stuck == old(world.stuck)
              && r == (if Output in Seen(old(world.files)) then Some(OutputExists) else None)
              && Seen(world.files) == Linked(Seen(old(world.files)), r.None?, old(world.files)[partial]) - {partial}
  {
    hide LeavesOutput, Seen, Harmless, World.Traced;
    var linked := LinkOutput(world, partial);
    Remove(world, partial);
    r := match linked case Done => None case AlreadyExists => Some(OutputExists) case Failed => Some(OutputUnusable);
  }

  /** Reads the hidden archive back and, if it is the one drafted, publishes it. */
  method VerifyAndPublish(world: World, partial: Name, manifest: Manifest, read: Reading)
    returns (r: Option<BackupError>)
    requires world.Valid() && partial in world.owned && world.files[partial].FileNode?
    requires world.stuck == world.owned - {partial} && world.stop.None?
    requires forall name <- world.owned :: name.purpose != Verify
    modifies world
    ensures world.Valid() && world.owned == world.stuck
    ensures r == if world.stop.Some? then Some(StopError(world.stop.value)) else
                   Mismatch(read(old(world.files)[partial].bytes), manifest)
    ensures r.Some? ==> Quietly(old(world.steps), world.steps)
    ensures r.None? ==> Publishes(old(world.steps), world.steps, old(world.files)[partial].bytes)
    ensures world.torn == old(world.torn)
    ensures Harmless(old(world.script)) ==>
              && Harmless(world.script) && world.stuck == old(world.stuck)
              && r == QuietProblem(Seen(old(world.files)), old(world.files)[partial].bytes, manifest, read)
              && Seen(world.files) == Linked(Seen(old(world.files)), r.None?, old(world.files)[partial]) - {partial}
  {
    hide LeavesOutput, Links, SomeFree, Seen, Harmless, World.Traced;
    var bytes := world.files[partial].bytes;
    var found := ReadBack(world, partial, read);
    r := Mismatch(found, manifest);
    if r.Some? {
      Remove(world, partial);
      return;
    }
    ghost var middle := world.steps;
    r := Publish(world, partial);
    if r.None? {
      PublishesLater(old(world.steps), middle, world.steps, |middle|, bytes);
    }
  }

  lemma PublishesLater(steps: seq<Step>, middle: seq<Step>, steps': seq<Step>, k: nat, bytes: ByteString)
    requires Quietly(steps, middle) && PublishesAt(middle, steps', k, bytes)
    ensures PublishesAt(steps, steps', k, bytes)
  {
    hide LeavesOutput, Links;
  }

  /** The one change that publishes; every other new change leaves the output alone. */
  ghost predicate PublishesAt(steps: seq<Step>, steps': seq<Step>, k: nat, bytes: ByteString) {
    && steps <= steps' && |steps| <= k < |steps'| && Links(steps'[k], bytes)
    && Quietly(steps, steps'[..k]) && Quietly(steps'[..k + 1], steps')
  }

  /** One of the new changes put these bytes at the output, which was absent. */
  ghost predicate Publishes(steps: seq<Step>, steps': seq<Step>, bytes: ByteString) {
    exists k: nat :: PublishesAt(steps, steps', k, bytes)
  }

  /** What is wrong with an archive that read back as `found`. */
  function Mismatch(found: Result<Manifest, BackupError>, manifest: Manifest): Option<BackupError> {
    match found
    case Err(error) => Some(error)
    case Ok(m) => if m == manifest then None else Some(ManifestInvalid)
  }

  ghost function QuietProblem(files: Files, bytes: ByteString, manifest: Manifest, read: Reading): Option<BackupError> {
    if !SomeFree(files, Verify) then Some(StagingUnavailable)
    else if Mismatch(read(bytes), manifest).Some? then Mismatch(read(bytes), manifest)
    else if Output in files then Some(OutputExists)
    else None
  }

  /** What `create` does when every step works and others keep to their own names. */
  ghost function QuietOutcome(request: Request, read: Reading, files: Files): Result<Manifest, BackupError> {
    if !request.named then Err(OutputUnusable)
    else if Output in files then Err(OutputExists)
    else if request.present.Err? then Err(request.present.error)
    else if LedgerIsShared(request.present.value, |request.present.value|) then Err(Store(ConfigLedger, LedgerShared))
    else if request.present.value == [] then Err(NothingToBackUp)
    else if !SomeFree(files, Work) then Err(OutputUnusable)
    else if request.draft.Err? then Err(request.draft.error)
    else if !SomeFree(files, Partial) then Err(OutputUnusable)
    else
      var problem := QuietProblem(files, request.draft.value.archive, request.draft.value.manifest, read);
      if problem.Some? then Err(problem.value) else Ok(request.draft.value.manifest)
  }

  /** The outcome when nothing stops the run: decided by the request and by what
      the write of the archive left. */
  ghost function Decided(request: Request, read: Reading, torn: Option<ByteString>): Result<Manifest, BackupError> {
    if !request.named then Err(OutputUnusable)
    else if request.present.Err? then Err(request.present.error)
    else if LedgerIsShared(request.present.value, |request.present.value|) then Err(Store(ConfigLedger, LedgerShared))
    else if request.present.value == [] then Err(NothingToBackUp)
    else if request.draft.Err? then Err(request.draft.error)
    else
      var problem := Mismatch(read(Left(request.draft.value.archive, torn)), request.draft.value.manifest);
      if problem.Some? then Err(problem.value) else Ok(request.draft.value.manifest)
  }

  lemma NoGroupsNoStores(present: seq<Present>, groups: seq<Group>)
    requires IsGrouping(present, |present|, groups)
    ensures groups == [] <==> present == []
  {
    if present != [] {
      FirstSeenHolds(present, |present|, present[0].identity);
    }
  }

  /** `create`. For every course of failures and of others' acts: nothing of
      anyone else's changes; an error leaves the output alone; success means the
      output was absent and got bytes that read back as the manifest; and the
      hidden names left are exactly those whose removal failed. */
  method Create(world: World, request: Request, read: Reading) returns (r: Result<Manifest, BackupError>)
    requires world.Valid() && world.owned == {} && world.stop.None? && world.torn.None?
    modifies world
    ensures world.Valid() && world.owned == world.stuck
    ensures r == if world.stop.Some? then Err(StopError(world.stop.value)) else Decided(request, read, world.torn)
    ensures r.Err? ==> Quietly(old(world.steps), world.steps)
    ensures r.Ok? ==>
              && request.draft.Ok? && r.value == request.draft.value.manifest
              && var bytes := Left(request.draft.value.archive, world.torn);
                 read(bytes) == Ok(r.value) && Publishes(old(world.steps), world.steps, bytes)
    ensures Harmless(old(world.script)) ==>
              && world.stuck == {} && r == QuietOutcome(request, read, Seen(old(world.files)))
              && Seen(world.files) ==
                 if r.Ok? then Seen(old(world.files))[Output := FileNode(request.draft.value.archive)]
                 else Seen(old(world.files))
  {
    hide LeavesOutput, Links, SomeFree, LedgerIsShared, IsGrouping, PublishesAt, Seen, Harmless, World.Traced;
    ghost var files := Seen(world.files);
    if !request.named {
      return Err(OutputUnusable);
    }
    var output := StatOutput(world);
    if !output.Done? {
      return Err(if output.AlreadyExists? then OutputExists else OutputUnusable);
    }
    if request.present.Err? {
      return Err(request.present.error);
    }
    var groups := GroupStores(request.present.value);
    if groups.Err? {
      return Err(groups.error);
    }
    NoGroupsNoStores(request.present.value, groups.value);
    if groups.value == [] {
      return Err(NothingToBackUp);
    }
    var partial := Assemble(world, request.draft);
    if partial.Err? {
      return Err(partial.error);
    }
    ghost var middle := world.steps;
    OthersFree(files, partial.value, FileNode(request.draft.value.archive), Verify);
    var manifest := request.draft.value.manifest;
    var problem := VerifyAndPublish(world, partial.value, manifest, read);
    if problem.Some? {
      assert Harmless(old(world.script)) ==> Seen(world.files) == files;
      return Err(problem.value);
    }
    Published(old(world.steps), middle, world.steps, Left(request.draft.value.archive, world.torn));
    assert Harmless(old(world.script)) ==> Seen(world.files) == files[Output := FileNode(request.draft.value.archive)];
    r := Ok(manifest);
  }

  lemma Published(steps: seq<Step>, middle: seq<Step>, steps': seq<Step>, bytes: ByteString)
    requires Quietly(steps, middle) && Publishes(middle, steps', bytes)
    ensures Publishes(steps, steps', bytes)
  {
    hide LeavesOutput, Links;
    var k: nat :| PublishesAt(middle, steps', k, bytes);
    PublishesLater(steps, middle, steps', k, bytes);
  }

  /** What a run of `create` means for the directory, whatever the course: nothing of
      anyone else's changes and no output that exists is altered; the output, if others
      leave it alone, is the archive after success and untouched after an error; a
      hidden name, if others leave it alone, is as before unless removing it failed; and
      a run that stops does so at a step that says why, an output being met only if it
      was there or others put it there. */
  ghost predicate IsRunOf(
    world: World, files: Files, script: seq<Turn>, archive: ByteString, ok: bool)
    reads world
  {
    && (forall i :: 0 <= i < |world.steps| ==> Respects(world.steps[i]))
    && (KeepOff(script, Output) ==>
          At(world.files, Output) == if ok then Some(FileNode(Left(archive, world.torn))) else At(files, Output))
    && (forall name: Name :: name.Hidden? && KeepOff(script, name) ==>
          (At(world.files, name) == At(files, name) || exists s <- world.steps :: FailsToRemove(s, name)))
    && (forall name :: name in world.owned <==> exists s <- world.steps :: FailsToRemove(s, name))
    && (world.stop.Some? ==> exists s <- world.steps :: StopOf(s) == world.stop)
    && (world.stop == Some(OutputSeen) ==> Output in files || Puts(script, Output))
  }

  /** `create` in a directory, for a course of what happens at its steps. */
  method CreateIn(files: Files, script: seq<Turn>, request: Request, read: Reading)
    returns (r: Result<Manifest, BackupError>, world: World)
    ensures fresh(world) && world.Valid() && world.start == files && world.course == script
    ensures r == if world.stop.Some? then Err(StopError(world.stop.value)) else Decided(request, read, world.torn)
    ensures r.Ok? ==> request.draft.Ok? && read(Left(request.draft.value.archive, world.torn)) == Ok(r.value)
    ensures IsRunOf(world, files, script, if request.draft.Ok? then request.draft.value.archive else [], r.Ok?)
    ensures Harmless(script) ==>
              && r == QuietOutcome(request, read, Seen(files))
              && Seen(world.files) ==
                 if r.Ok? then Seen(files)[Output := FileNode(request.draft.value.archive)] else Seen(files)
  {
    hide *;
    world := new World(files, script);
    r := Create(world, request, read);
    RunMeans(world, files, script, if request.draft.Ok? then request.draft.value.archive else [], r.Ok?);
  }

  lemma RunMeans(world: World, files: Files, script: seq<Turn>, archive: ByteString, ok: bool)
    requires world.Valid() && world.start == files && world.course == script && world.owned == world.stuck
    requires ok ==> world.stop.None? && Publishes([], world.steps, Left(archive, world.torn))
    requires !ok ==> Quietly([], world.steps)
    ensures IsRunOf(world, files, script, archive, ok)
  {
    hide IsTrace, LastStop, LastTorn, StopOf, Respects, At, FailsToRemove, FailedRemovals, KeepOff, LeavesOutput, Links;
    var steps := world.steps;
    EveryStepRespects(steps, script, files, world.files, world.owned);
    StopIsAStep(steps);
    OutputMeans(world, files, script, archive, ok);
    if world.stop == Some(OutputSeen) {
      SeenOutputWasThere(steps, script, files, world.files, world.owned);
    }
    forall name: Name ensures name in world.owned <==> exists s <- steps :: FailsToRemove(s, name) {
      FailedRemovalsAre(steps, name);
    }
    forall name: Name | name.Hidden? && KeepOff(script, name)
      ensures At(world.files, name) == At(files, name) || exists s <- steps :: FailsToRemove(s, name)
    {
      HiddenNamesRestored(steps, script, files, world.files, world.owned, name);
      FailedRemovalsAre(steps, name);
    }
  }

  lemma OutputMeans(world: World, files: Files, script: seq<Turn>, archive: ByteString, ok: bool)
    requires IsTrace(world.steps, script, files, world.files, world.owned)
    requires ok ==> Publishes([], world.steps, Left(archive, world.torn))
    requires !ok ==> Quietly([], world.steps)
    ensures KeepOff(script, Output) ==>
              At(world.files, Output) == if ok then Some(FileNode(Left(archive, world.torn))) else At(files, Output)
  {
    hide IsTrace, LeavesOutput, KeepOff;
    if ok {
      var bytes := Left(archive, world.torn);
      var k: nat :| PublishesAt([], world.steps, k, bytes);
      OutputSince(world.steps, script, files, world.files, world.owned, k + 1);
    } else {
      OutputSince(world.steps, script, files, world.files, world.owned, 0);
    }
  }
}
