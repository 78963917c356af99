/** The admission guard every archive is read through (`gateway-config/src/archive.rs`). */
module ArchiveGuard {
  import opened Bytes
  import opened Results
  import opened ArchiveNames
  import opened ArchiveClaims
  import opened ArchiveAdmission
  import opened ArchiveStreams

  const COPY_CHUNK_BYTES: nat := 16 * 1024

  datatype Compression = Stored | Metered(counter: CompressedCounter)

  /** An entry the guard accepted, with its 1-based position. */
  datatype AdmittedEntry = AdmittedEntry(position: nat, entry: Entry)

  datatype ArchiveRefusal = ArchiveRefusal(
    code: ArchiveCode, entry: Option<nat>, conflictsWith: Option<nat>)

  datatype ArchiveSummary = ArchiveSummary(
    entries: U64, files: nat, directories: nat, declaredBytes: U64, copiedBytes: U64)

  function CountDirectories(headers: seq<EntryHeader>): nat {
    if headers == [] then 0
    else CountDirectories(headers[..|headers| - 1])
         + if headers[|headers| - 1].kind.Directory? then 1 else 0
  }

  /** Declared bytes of the files not yet taken for copying. */
  function Outstanding(headers: seq<EntryHeader>, taken: set<ByteString>): nat {
    if headers == [] then 0
    else
      var last := headers[|headers| - 1];
      Outstanding(headers[..|headers| - 1], taken)
      + if EntryOf(last).path in taken then 0 else Charge(last)
  }

  /** What a fresh refusal says is true of the entries it names. */
  ghost predicate Explains(
    refusal: ArchiveRefusal, admitted: seq<EntryHeader>, header: EntryHeader, limits: ArchiveLimits)
  {
    && refusal.entry == Some(Saturate(|admitted| + 1))
    && if Saturate(|admitted| + 1) > limits.maxEntries then
         refusal.code == TooManyEntries && refusal.conflictsWith == None
       else if HeaderCode(header, limits).Some? then
         refusal.code == HeaderCode(header, limits).value && refusal.conflictsWith == None
       else if Saturate(TotalDeclared(admitted) + Charge(header)) > limits.maxTotalBytes then
         refusal.code == TotalTooLarge && refusal.conflictsWith == None
       else
         exists i :: 0 <= i < |admitted| && refusal.conflictsWith == Some(Saturate(i + 1))
                     && Clash(refusal.code, EntryOf(admitted[i]), EntryOf(header))
  }

  lemma MultiplyMonotone(a: nat, b: nat, c: nat)
    requires a <= b
    ensures a * c <= b * c
  {
  }

  lemma MonotoneBound(smaller: nat, larger: nat, limits: ArchiveLimits)
    requires smaller <= larger
    ensures RatioBound(smaller, limits) <= RatioBound(larger, limits)
  {
    MultiplyMonotone(smaller, larger, limits.maxExpansionRatio);
  }

  lemma {:induction false} OutstandingUntouched(headers: seq<EntryHeader>, taken: set<ByteString>, path: ByteString)
    requires forall h <- headers :: EntryOf(h).path != path
    ensures Outstanding(headers, taken + {path}) == Outstanding(headers, taken)
    decreases |headers|
  {
    if headers != [] {
      var last := |headers| - 1;
      assert headers[last] in headers;
      OutstandingUntouched(headers[..last], taken, path);
    }
  }

  /** Taking one entry lowers what is outstanding by exactly its size. */
  lemma {:induction false} OutstandingTaken(headers: seq<EntryHeader>, taken: set<ByteString>, i: int)
    requires AllCompatible(EntriesOf(headers))
    requires 0 <= i < |headers| && EntryOf(headers[i]).path !in taken
    ensures Outstanding(headers, taken + {EntryOf(headers[i]).path}) + Charge(headers[i])
            == Outstanding(headers, taken)
    decreases |headers|
  {
    var last, path := |headers| - 1, EntryOf(headers[i]).path;
    var before, entries := headers[..last], EntriesOf(headers);
    assert forall j :: 0 <= j < last ==> EntriesOf(before)[j] == entries[j];
    if i == last {
      forall h | h in before ensures EntryOf(h).path != path {
        var j :| 0 <= j < last && before[j] == h;
        assert Compatible(entries[j], entries[last]);
      }
      OutstandingUntouched(before, taken, path);
    } else {
      assert Compatible(entries[i], entries[last]);
      OutstandingTaken(before, taken, i);
    }
  }

  lemma OutstandingExtends(headers: seq<EntryHeader>, header: EntryHeader, taken: set<ByteString>)
    ensures Outstanding(headers + [header], taken)
            == Outstanding(headers, taken) + if EntryOf(header).path in taken then 0 else Charge(header)
    ensures TotalDeclared(headers + [header]) == TotalDeclared(headers) + Charge(header)
    ensures CountDirectories(headers + [header])
            == CountDirectories(headers) + if header.kind.Directory? then 1 else 0
  {
    assert (headers + [header])[..|headers|] == headers;
  }

  predicate AreParents(parents: seq<(ByteString, ByteString)>, path: ByteString, claims: Claims) {
    forall pair <- parents ::
      && pair.0 !in claims
      && exists n :: 0 <= n < |path| && IsCut(path, n) && pair == (Fold(path[..n]), path[..n])
  }

  predicate NamesCut(parents: seq<(ByteString, ByteString)>, path: ByteString, claims: Claims, n: int)
    requires 0 <= n <= |path|
  {
    Fold(path[..n]) in claims || (Fold(path[..n]), path[..n]) in parents
  }

  lemma EmptyParents(path: ByteString, claims: Claims)
    ensures AreParents([], path, claims)
  {
  }

  lemma PushParent(parents: seq<(ByteString, ByteString)>, path: ByteString, claims: Claims, n: int)
    requires AreParents(parents, path, claims) && IsCut(path, n) && n < |path| && Fold(path[..n]) !in claims
    ensures var more := parents + [(Fold(path[..n]), path[..n])];
            && AreParents(more, path, claims)
            && forall m :: 0 <= m <= |path| && NamesCut(parents, path, claims, m) ==> NamesCut(more, path, claims, m)
  {
  }

  lemma KnownParent(parents: seq<(ByteString, ByteString)>, path: ByteString, claims: Claims, n: nat)
    requires n <= |path|
    requires Fold(path[..n]) in claims || (|parents| > 0 && parents[|parents| - 1] == (Fold(path[..n]), path[..n]))
    ensures NamesCut(parents, path, claims, n)
  {
  }

  /** One segment further: no prefix ends inside it, and the next separator or
      the end of the path follows it. */
  lemma SegmentAdvances(path: ByteString, offset: nat, segments: seq<ByteString>, k: nat)
    requires IsPortablePath(path) && segments == Segments(path)
    requires k < |segments| && offset <= |path| && segments[k..] == Split(path[offset..], SEPARATOR)
    ensures |segments[k]| > 0 && offset + |segments[k]| <= |path|
    ensures forall n :: offset <= n < offset + |segments[k]| ==> path[n] != SLASH
    ensures k + 1 == |segments| <==> offset + |segments[k]| == |path|
    ensures k + 1 < |segments| ==>
              && path[offset + |segments[k]|] == SLASH
              && segments[k + 1..] == Split(path[offset + |segments[k]| + 1..], SEPARATOR)
  {
    hide IsWindowsDeviceName;
    var segment := segments[k];
    assert segment in segments && IsPortableSegment(segment);
    var rest := path[offset..];
    SplitStep(rest, SEPARATOR);
    assert segments[k..][0] == segment && segments[k..][1..] == segments[k + 1..];
    assert forall i :: 0 <= i < |segment| ==> path[offset + i] == rest[i] == segment[i];
    if |segment| < |rest| {
      assert rest[|segment| + 1..] == path[offset + |segment| + 1..];
    }
  }

  /** The value `Claimed` gives one of its keys. */
  function Inserted(before: Claims, path: ByteString, kind: ClaimKind, position: nat, key: ByteString): Claim {
    if key == Fold(path) then Claim(path, kind, position)
    else if key in before then before[key]
    else Claim(path[..Min(|key|, |path|)], ParentClaim, position)
  }

  /** `claim` is the one the parents' loop stores under `key`. */
  ghost predicate FromParent(
    parents: seq<(ByteString, ByteString)>, key: ByteString, claim: Claim, position: nat)
  {
    exists j :: 0 <= j < |parents| && parents[j].0 == key && claim == Claim(parents[j].1, ParentClaim, position)
  }

  lemma WholePathKey(path: ByteString)
    requires path != []
    ensures Fold(path) in FoldedPrefixes(path)
  {
    assert path[..|path|] == path && IsCut(path, |path|);
  }

  lemma ParentKey(parents: seq<(ByteString, ByteString)>, path: ByteString, claims: Claims, i: int)
    requires AreParents(parents, path, claims) && 0 <= i < |parents|
    ensures var pair := parents[i];
            && pair.0 !in claims && pair.0 != Fold(path)
            && pair.0 in FoldedPrefixes(path)
            && pair.1 == path[..Min(|pair.0|, |path|)]
  {
    assert parents[i] in parents;
    var n :| 0 <= n < |path| && IsCut(path, n) && parents[i] == (Fold(path[..n]), path[..n]);
    assert |parents[i].0| == n && |Fold(path)| == |path|;
  }

  lemma PrefixKey(parents: seq<(ByteString, ByteString)>, path: ByteString, claims: Claims, key: ByteString)
    requires key in FoldedPrefixes(path) && key !in claims && key != Fold(path)
    requires forall n :: IsCut(path, n) && n < |path| ==> NamesCut(parents, path, claims, n)
    ensures exists j :: 0 <= j < |parents| && parents[j].0 == key
  {
    var n :| 0 < n <= |path| && IsCut(path, n) && key == Fold(path[..n]);
    assert path[..|path|] == path;
    assert NamesCut(parents, path, claims, n);
  }

  /** Storing the whole path, then the unnamed parents, is `Claimed`. */
  lemma ClaimedFrom(
    after: Claims, before: Claims, path: ByteString, kind: ClaimKind, position: nat,
    parents: seq<(ByteString, ByteString)>)
    requires path != [] && AreParents(parents, path, before)
    requires forall n :: IsCut(path, n) && n < |path| ==> NamesCut(parents, path, before, n)
    requires var base := before[Fold(path) := Claim(path, kind, position)];
             && base.Keys <= after.Keys
             && (forall j :: 0 <= j < |parents| ==> parents[j].0 in after)
             && forall key <- after ::
                  FromParent(parents, key, after[key], position) || (key in base && after[key] == base[key])
    ensures after == Claimed(before, path, kind, position)
  {
    hide AreParents, FoldedPrefixes, NamesCut, IsCut, Fold;
    WholePathKey(path);
    forall key | key in before.Keys + FoldedPrefixes(path) ensures key in after {
      if key !in before && key != Fold(path) {
        PrefixKey(parents, path, before, key);
      }
    }
    forall key | key in after
      ensures key in before.Keys + FoldedPrefixes(path)
      ensures after[key] == Inserted(before, path, kind, position, key)
    {
      if FromParent(parents, key, after[key], position) {
        var j :| 0 <= j < |parents| && parents[j].0 == key && after[key] == Claim(parents[j].1, ParentClaim, position);
        ParentKey(parents, path, before, j);
      }
    }
    assert after.Keys == before.Keys + FoldedPrefixes(path);
  }

  /** Why an entry is refused before anything is claimed. */
  function ScreenCode(position: nat, declared: U64, header: EntryHeader, limits: ArchiveLimits): Option<ArchiveCode> {
    if position > limits.maxEntries then Some(TooManyEntries)
    else if HeaderCode(header, limits).Some? then HeaderCode(header, limits)
    else if !header.kind.Directory? && Saturate(declared + header.size) > limits.maxTotalBytes then Some(TotalTooLarge)
    else None
  }

  /** An entry refused before anything is claimed is inadmissible. */
  lemma ScreenRefuses(admitted: seq<EntryHeader>, header: EntryHeader, limits: ArchiveLimits)
    requires Admissible(admitted, limits)
    requires ScreenCode(Saturate(|admitted| + 1), Saturate(TotalDeclared(admitted)), header, limits).Some?
    ensures !Admissible(admitted + [header], limits)
    ensures var position, declared := Saturate(|admitted| + 1), Saturate(TotalDeclared(admitted));
            var code := ScreenCode(position, declared, header, limits).value;
            Explains(ArchiveRefusal(code, Some(position), None), admitted, header, limits)
  {
    hide HeaderCode, Legal, AllCompatible, TotalDeclared;
    HeaderCodeExact(header, limits);
    OutstandingExtends(admitted, header, {});
    SaturateAdd(TotalDeclared(admitted), Charge(header));
    assert (admitted + [header])[|admitted|] == header;
  }

  /** An entry that passes is legal and fits the totals. */
  lemma ScreenPasses(admitted: seq<EntryHeader>, header: EntryHeader, limits: ArchiveLimits)
    requires Admissible(admitted, limits)
    requires ScreenCode(Saturate(|admitted| + 1), Saturate(TotalDeclared(admitted)), header, limits).None?
    ensures Saturate(|admitted| + 1) <= limits.maxEntries
    ensures Legal(header, limits) && IsPortablePath(EntryOf(header).path)
    ensures Saturate(TotalDeclared(admitted) + Charge(header)) <= limits.maxTotalBytes
    ensures HeaderCode(header, limits).None?
  {
    hide HeaderCode, AllCompatible, TotalDeclared, WithinBounds, ExceedsRatio;
    HeaderCodeExact(header, limits);
    SaturateAdd(TotalDeclared(admitted), Charge(header));
  }

  /** Position `i` holds an admitted entry the conflict truly describes. */
  ghost predicate Names(conflict: Conflict, admitted: seq<EntryHeader>, header: EntryHeader, i: int) {
    && 0 <= i < |admitted|
    && conflict.earlier == Saturate(i + 1)
    && Clash(conflict.code, EntryOf(admitted[i]), EntryOf(header))
  }

  lemma ReportNames(claims: Claims, admitted: seq<EntryHeader>, header: EntryHeader, conflict: Conflict)
    requires Represents(claims, EntriesOf(admitted))
    requires Reports(claims, EntryOf(header).path, KindOf(EntryOf(header)), conflict)
    ensures exists i :: Names(conflict, admitted, header, i)
  {
    var entries, entry := EntriesOf(admitted), EntryOf(header);
    var n :| FirstConflict(claims, entry.path, KindOf(entry), n, conflict);
    ConflictIsTrue(claims, entries, entry, n);
    var i :| 0 <= i < |entries| && conflict.earlier == Saturate(i + 1) && Clash(conflict.code, entries[i], entry);
    assert Names(conflict, admitted, header, i);
  }

  lemma NamedIsInadmissible(conflict: Conflict, admitted: seq<EntryHeader>, header: EntryHeader,
      limits: ArchiveLimits, i: int)
    requires Names(conflict, admitted, header, i)
    ensures !Admissible(admitted + [header], limits)
  {
    hide Legal;
    ClashIsIncompatible(conflict.code, EntryOf(admitted[i]), EntryOf(header));
    var all := EntriesOf(admitted + [header]);
    assert all[i] == EntryOf(admitted[i]) && all[|admitted|] == EntryOf(header);
    assert !Compatible(all[i], all[|admitted|]);
  }

  /** A conflict the table reports makes the extended sequence inadmissible. */
  lemma ConflictRefuses(
    claims: Claims, admitted: seq<EntryHeader>, header: EntryHeader, conflict: Conflict, limits: ArchiveLimits)
    requires Represents(claims, EntriesOf(admitted))
    requires Saturate(|admitted| + 1) <= limits.maxEntries && HeaderCode(header, limits).None?
    requires Saturate(TotalDeclared(admitted) + Charge(header)) <= limits.maxTotalBytes
    requires Reports(claims, EntryOf(header).path, KindOf(EntryOf(header)), conflict)
    ensures !Admissible(admitted + [header], limits)
    ensures Explains(ArchiveRefusal(conflict.code, Some(Saturate(|admitted| + 1)), Some(conflict.earlier)),
                     admitted, header, limits)
  {
    hide HeaderCode, Admissible, Represents, Reports, Clash, TotalDeclared;
    ReportNames(claims, admitted, header, conflict);
    var i :| Names(conflict, admitted, header, i);
    NamedIsInadmissible(conflict, admitted, header, limits, i);
  }

  /** When the table reports nothing, the extended sequence is admissible and
      the extended table represents it. */
  lemma SilenceAdmits(claims: Claims, admitted: seq<EntryHeader>, header: EntryHeader, limits: ArchiveLimits)
    requires Admissible(admitted, limits) && Legal(header, limits)
    requires Saturate(|admitted| + 1) <= limits.maxEntries
    requires Saturate(TotalDeclared(admitted) + Charge(header)) <= limits.maxTotalBytes
    requires Represents(claims, EntriesOf(admitted)) && NoConflict(claims, EntryOf(header))
    ensures Admissible(admitted + [header], limits)
    ensures var entry := EntryOf(header);
            Represents(Claimed(claims, entry.path, KindOf(entry), Saturate(|admitted| + 1)),
                       EntriesOf(admitted + [header]))
  {
    hide HeaderCode, Legal, Compatible, Unopposed, Represents, Claimed, TotalDeclared;
    var entries, entry := EntriesOf(admitted), EntryOf(header);
    HeaderCodeExact(header, limits);
    AllSilent(claims, admitted, header, limits);
    assert EntriesOf(admitted + [header]) == entries + [entry];
    assert Admissible(admitted + [header], limits) by {
      AdmissibleExtends(admitted, header, limits);
    }
    ClaimedRepresents(claims, entries, entry);
  }

  lemma AllSilent(claims: Claims, admitted: seq<EntryHeader>, header: EntryHeader, limits: ArchiveLimits)
    requires Admissible(admitted, limits) && Legal(header, limits)
    requires Represents(claims, EntriesOf(admitted)) && NoConflict(claims, EntryOf(header))
    ensures forall i :: 0 <= i < |admitted| ==> Compatible(EntryOf(admitted[i]), EntryOf(header))
    ensures forall i :: 0 <= i < |admitted| ==> Compatible(EntriesOf(admitted)[i], EntryOf(header))
  {
    hide Legal, HeaderCode, Compatible, Unopposed, Represents;
    HeaderCodeExact(header, limits);
    forall i | 0 <= i < |admitted| ensures Compatible(EntryOf(admitted[i]), EntryOf(header)) {
      assert admitted[i] in admitted;
      HeaderCodeExact(admitted[i], limits);
      SilenceIsCompatible(claims, EntriesOf(admitted), EntryOf(header), i);
    }
  }

  /** A newly admitted path was never handed to `Copy`. */
  lemma FreshPath(admitted: seq<EntryHeader>, header: EntryHeader, taken: set<ByteString>)
    requires AllCompatible(EntriesOf(admitted + [header]))
    requires forall path <- taken :: exists h <- admitted :: EntryOf(h).path == path
    ensures EntryOf(header).path !in taken
    ensures forall path <- taken :: exists h <- admitted + [header] :: EntryOf(h).path == path
  {
    var all := EntriesOf(admitted + [header]);
    forall path | path in taken
      ensures path != EntryOf(header).path
      ensures exists h <- admitted + [header] :: EntryOf(h).path == path
    {
      var h :| h in admitted && EntryOf(h).path == path;
      var i :| 0 <= i < |admitted| && admitted[i] == h;
      assert Compatible(all[i], all[|admitted|]);
      assert h in admitted + [header];
    }
  }

  /** The state a copy starts from. */
  datatype CopyStart = CopyStart(
    stream: ByteString, ending: Ending, room: nat, written: ByteString, consumed: nat, copied: nat,
    summary: ArchiveSummary)

  /** What a copy of `stream` may have done: `sent` reached the sink, and the
      result says why it stopped there. */
  ghost predicate CopyOutcome(
    r: Result<U64, ArchiveCode>, sent: ByteString,
    size: U64, stream: ByteString, ending: Ending, room: nat, flushes: bool)
  {
    && sent <= stream && Saturate(|sent|) <= size && |sent| <= room
    && match r
       case Ok(count) => count == size == Saturate(|stream|) && ending == AtEnd && sent == stream && flushes
       case Err(DeclaredSizeExceeded) => Saturate(|stream|) > size
       case Err(Truncated) => (ending == AtEnd && Saturate(|stream|) < size) || ending == Broken(UnexpectedEof)
       case Err(ReadFailed) => ending == Broken(OtherError)
       case Err(WriteFailed) => room < |stream| || !flushes
       case Err(code) => code == ExpansionRatioExceeded
  }

  /** `k` more bytes on top of `before` would pass the ratio. */
  predicate Overruns(before: nat, k: nat, drawn: nat, limits: ArchiveLimits) {
    ExceedsRatio(Saturate(before + k), drawn, limits)
  }

  lemma OverrunsFurther(before: nat, sent: nat, k: nat, drawn: nat, limits: ArchiveLimits)
    requires Overruns(before + sent, k, drawn, limits)
    ensures Overruns(before, sent + k, drawn, limits)
  {
  }

  lemma NextChunk(stream: ByteString, sent: ByteString, bytes: ByteString, later: ByteString)
    requires sent <= stream && stream[|sent|..] == bytes + later
    ensures sent + bytes <= stream && stream[|sent + bytes|..] == later
  {
    assert stream == sent + stream[|sent|..];
    assert stream == sent + bytes + later;
  }

  /** A refused chunk leaves a prefix of the stream, within the size, in the sink. */
  lemma ChunkRefused(
    code: ArchiveCode, stream: ByteString, sent: ByteString, bytes: ByteString, accepted: nat,
    size: U64, ending: Ending, room: nat, flushes: bool)
    requires sent + bytes <= stream && accepted <= |bytes| && Saturate(|sent|) <= size && |sent| + accepted <= room
    requires match code
             case DeclaredSizeExceeded => accepted == 0 && Saturate(|sent| + |bytes|) > size
             case ExpansionRatioExceeded => accepted == 0
             case WriteFailed => room < |sent| + |bytes| && Saturate(|sent| + |bytes|) <= size
             case _ => false
    ensures CopyOutcome(Err(code), sent + bytes[..accepted], size, stream, ending, room, flushes)
    ensures |sent| + |bytes| <= |stream|
  {
    assert bytes == bytes[..accepted] + bytes[accepted..];
    assert sent + bytes == (sent + bytes[..accepted]) + bytes[accepted..];
  }

  /** Reading stopped with all of `sent` written: at the end, or on an error. */
  lemma ReadingStopped(
    r: Result<U64, ArchiveCode>, stream: ByteString, sent: ByteString, size: U64, ending: Ending, room: nat,
        flushes: bool)
    requires sent == stream && Saturate(|sent|) <= size && |sent| <= room
    requires match ending
             case Broken(error) => error != Interrupted && r == Err(if error ==
                 UnexpectedEof then Truncated else ReadFailed)
             case AtEnd =>
               r == if Saturate(|sent|) < size then Err(Truncated)
                    else if !flushes then Err(WriteFailed) else Ok(Saturate(|sent|))
    ensures CopyOutcome(r, sent, size, stream, ending, room, flushes)
  {
  }

  /** A total the check passes is within the bound on the true byte count,
      though the counter it loads may have wrapped. */
  lemma RatioHolds(total: nat, compression: Compression, limits: ArchiveLimits)
    requires total <= U64_MAX
    requires compression.Metered? ==> !ExceedsRatio(total, compression.counter.Load(), limits)
    ensures compression.Metered? ==> total <= RatioBound(compression.counter.total, limits)
  {
    if compression.Metered? {
      MonotoneBound(compression.counter.Load(), compression.counter.total, limits);
    }
  }

  function Attributed(r: Result<U64, ArchiveCode>, position: nat): Result<U64, ArchiveRefusal> {
    match r
    case Ok(count) => Ok(count)
    case Err(code) => Err(ArchiveRefusal(code, Some(position), None))
  }

  /** `entry` was admitted as a file and not copied yet. */
  ghost predicate Pending(entry: Entry, taken: set<ByteString>, admitted: seq<EntryHeader>) {
    && entry.path !in taken && entry.size < U64_MAX
    && exists i :: 0 <= i < |admitted| && EntryOf(admitted[i]) == entry
  }

  lemma TakeEntry(admitted: seq<EntryHeader>, taken: set<ByteString>, entry: Entry, limits: ArchiveLimits)
    requires Admissible(admitted, limits) && Pending(entry, taken, admitted) && !entry.directory
    ensures Outstanding(admitted, taken + {entry.path}) + entry.size == Outstanding(admitted, taken)
    ensures exists h <- admitted :: EntryOf(h).path == entry.path
  {
    hide Legal;
    var i :| 0 <= i < |admitted| && EntryOf(admitted[i]) == entry;
    OutstandingTaken(admitted, taken, i);
    assert admitted[i] in admitted;
  }

  lemma {:induction false} AdmissibleUpTo(headers: seq<EntryHeader>, n: nat, limits: ArchiveLimits)
    requires n <= |headers| && Admissible(headers, limits)
    ensures Admissible(headers[..n], limits)
    decreases |headers|
  {
    if n == |headers| {
      assert headers[..n] == headers;
    } else {
      var last := |headers| - 1;
      assert headers == headers[..last] + [headers[last]];
      AdmissiblePrefix(headers[..last], headers[last], limits);
      assert headers[..last][..n] == headers[..n];
      AdmissibleUpTo(headers[..last], n, limits);
    }
  }

  class ArchiveGuard {
    const limits: ArchiveLimits
    const compression: Compression
    var claims: Claims
    var summary: ArchiveSummary
    var refused: Option<ArchiveRefusal>

    /** The headers admitted so far. */
    ghost var admitted: seq<EntryHeader>
    /** The exact number of bytes copied, and the paths handed to `Copy`. */
    ghost var copied: nat
    ghost var taken: set<ByteString>
    /** Every copy so far was of a distinct admitted file. */
    ghost var once: bool

    ghost predicate Running()
      reads this
    {
      && Represents(claims, EntriesOf(admitted))
      && summary.entries == Saturate(|admitted|)
      && summary.directories == CountDirectories(admitted)
      && summary.files + summary.directories == |admitted|
      && summary.declaredBytes == Saturate(TotalDeclared(admitted))
    }

    ghost predicate Balanced()
      reads this
    {
      && (forall path <- taken :: exists h <- admitted :: EntryOf(h).path == path)
      && copied + Outstanding(admitted, taken) <= TotalDeclared(admitted)
      && (refused.None? ==> copied + Outstanding(admitted, taken) == TotalDeclared(admitted))
    }

    ghost predicate Valid()
      reads this, if compression.Metered? then {compression.counter} else {}
    {
      && Admissible(admitted, limits)
      && summary.copiedBytes == Saturate(copied)
      && (refused.None? ==> Running())
      && (once ==> Balanced())
      && (compression.Metered? ==> summary.copiedBytes <= RatioBound(compression.counter.total, limits))
    }

    constructor (limits: ArchiveLimits, compression: Compression)
      ensures Valid() && this.limits == limits && this.compression == compression
      ensures admitted == [] && refused == None && copied == 0 && taken == {} && once
    {
      this.limits, this.compression := limits, compression;
      claims, summary, refused := map[], ArchiveSummary(0, 0, 0, 0, 0), None;
      admitted, copied, taken, once := [], 0, {}, true;
    }

    /** The loop of `claim` over a path's parents, outermost first: the first
        one another entry uses differently, or the ones no entry has named. */
    method ScanParents(path: ByteString, kind: ClaimKind)
      returns (conflict: Option<Conflict>, parents: seq<(ByteString, ByteString)>)
      requires IsPortablePath(path)
      ensures AreParents(parents, path, claims)
      ensures conflict.None? ==>
                && (forall n :: n < |path| ==> Silent(claims, path, kind, n))
                && (forall n :: IsCut(path, n) && n < |path| ==> NamesCut(parents, path, claims, n))
      ensures conflict.Some? ==>
                Reports(claims, path, kind, conflict.value)
    {
      hide IsPortablePath, Split, AreParents, NamesCut;
      EmptyParents(path, claims);
      parents := [];
      var segments := Segments(path);
      var end := 0;
      assert path[0..] == path;
      for k := 0 to |segments|
        invariant 0 <= end <= |path| && (k == 0 <==> end == 0)
        invariant k == |segments| ==> end == |path|
        invariant k < |segments| && k > 0 ==> end < |path| && path[end] == SLASH
        invariant k < |segments| ==>
                    segments[k..] == Split(path[if k == 0 then 0 else end + 1..], SEPARATOR)
        invariant forall n :: n < end ==> Silent(claims, path, kind, n)
        invariant forall n :: IsCut(path, n) && n < end ==> NamesCut(parents, path, claims, n)
        invariant AreParents(parents, path, claims)
      {
        var segment := segments[k];
        ghost var offset := if k == 0 then 0 else end + 1;
        SegmentAdvances(path, offset, segments, k);
        if end > 0 {
          var parent := path[..end];
          var key := Fold(parent);
          assert IsCut(path, end);
          if key !in claims {
            PushParent(parents, path, claims, end);
            parents := parents + [(key, parent)];
          } else if claims[key].exact != parent {
            conflict := Some(Conflict(CaseFoldCollision, claims[key].position));
            assert FirstConflict(claims, path, kind, end, conflict.value);
            return;
          } else if claims[key].kind == FileClaim {
            conflict := Some(Conflict(PathConflict, claims[key].position));
            assert FirstConflict(claims, path, kind, end, conflict.value);
            return;
          }
          KnownParent(parents, path, claims, end);
          end := end + 1;
        }
        end := end + |segment|;
      }
      conflict := None;
    }

    /** Claims `path` and its parents, or reports the outermost conflict and
        claims nothing. */
    method ClaimPath(path: ByteString, kind: ClaimKind, position: nat) returns (conflict: Option<Conflict>)
      requires IsPortablePath(path)
      modifies this`claims
      ensures conflict.None? ==>
                Unopposed(old(claims), path, kind) && claims == Claimed(old(claims), path, kind, position)
      ensures conflict.Some? ==> claims == old(claims) && Reports(claims, path, kind, conflict.value)
    {
      var parents;
      conflict, parents := ScanParents(path, kind);
      if conflict.Some? {
        return;
      }
      var key := Fold(path);
      PortablePathBytes(path);
      assert IsCut(path, |path|) && path[..|path|] == path;
      if key !in claims {
        claims := claims[key := Claim(path, kind, position)];
      } else if claims[key].exact != path {
        conflict := Some(Conflict(CaseFoldCollision, claims[key].position));
      } else if claims[key].kind == ParentClaim && kind == DirectoryClaim {
        claims := claims[key := claims[key].(kind := DirectoryClaim, position := position)];
      } else if claims[key].kind == kind {
        conflict := Some(Conflict(DuplicateEntry, claims[key].position));
      } else {
        conflict := Some(Conflict(PathConflict, claims[key].position));
      }
      if conflict.Some? {
        assert FirstConflict(claims, path, kind, |path|, conflict.value);
      } else {
        InsertParents(parents, position);
        ClaimedFrom(claims, old(claims), path, kind, position, parents);
      }
    }

    /** The loop of `claim` that inserts the parents no entry had named. */
    method InsertParents(parents: seq<(ByteString, ByteString)>, position: nat)
      modifies this`claims
      ensures forall key <- claims ::
                FromParent(parents, key, claims[key], position)
                || (key in old(claims) && claims[key] == old(claims)[key])
      ensures old(claims).Keys <= claims.Keys
      ensures forall j :: 0 <= j < |parents| ==> parents[j].0 in claims
    {
      for i := 0 to |parents|
        invariant forall key <- claims ::
                    FromParent(parents, key, claims[key], position)
                    || (key in old(claims) && claims[key] == old(claims)[key])
        invariant old(claims).Keys <= claims.Keys
        invariant forall j :: 0 <= j < i ==> parents[j].0 in claims
      {
        claims := claims[parents[i].0 := Claim(parents[i].1, ParentClaim, position)];
        assert FromParent(parents, parents[i].0, claims[parents[i].0], position);
      }
    }

    /** The checks before anything is claimed: the count, the header itself and
        the total it declares, charged when it fits. */
    method Screen(header: EntryHeader, position: nat) returns (code: Option<ArchiveCode>)
      modifies this`summary
      ensures code == ScreenCode(position, old(summary).declaredBytes, header, limits)
      ensures code.None? ==>
                summary == old(summary).(
                             entries := position,
                             declaredBytes := Saturate(old(summary).declaredBytes + Charge(header)))
      ensures summary.copiedBytes == old(summary).copiedBytes
    {
      if position > limits.maxEntries {
        return Some(TooManyEntries);
      }
      summary := summary.(entries := position);
      code := HeaderCode(header, limits);
      if code.Some? {
        return;
      }
      if !header.kind.Directory? {
        var total := Saturate(summary.declaredBytes + header.size);
        if total > limits.maxTotalBytes {
          return Some(TotalTooLarge);
        }
        summary := summary.(declaredBytes := total);
      }
    }

    method AdmitEntry(header: EntryHeader) returns (r: Result<AdmittedEntry, ArchiveRefusal>)
      requires Admissible(admitted, limits) && Running()
      modifies this`claims, this`summary, this`admitted
      ensures r.Ok? <==> Admissible(old(admitted) + [header], limits)
      ensures r.Ok? ==>
                && Running() && admitted == old(admitted) + [header]
                && r.value == AdmittedEntry(Saturate(|old(admitted)| + 1), EntryOf(header))
      ensures r.Err? ==> admitted == old(admitted) && Explains(r.error, admitted, header, limits)
      ensures summary.copiedBytes == old(summary).copiedBytes
    {
      hide HeaderCode, Legal, IsPortablePath, Represents, Reports, Unopposed, Admissible, Explains, ScreenCode, Claimed;
      ghost var before := claims;
      assert Represents(before, EntriesOf(admitted));
      var position := Saturate(summary.entries + 1);
      SaturateAdd(|admitted|, 1);
      var code := Screen(header, position);
      if code.Some? {
        ScreenRefuses(admitted, header, limits);
        return Err(ArchiveRefusal(code.value, Some(position), None));
      }
      ScreenPasses(admitted, header, limits);
      var entry := EntryOf(header);
      var conflict := ClaimPath(entry.path, KindOf(entry), position);
      if conflict.Some? {
        ConflictRefuses(before, admitted, header, conflict.value, limits);
        return Err(ArchiveRefusal(conflict.value.code, Some(position), Some(conflict.value.earlier)));
      }
      SilenceAdmits(before, admitted, header, limits);
      OutstandingExtends(admitted, header, {});
      SaturateAdd(TotalDeclared(admitted), Charge(header));
      if entry.directory {
        summary := summary.(directories := summary.directories + 1);
      } else {
        summary := summary.(files := summary.files + 1);
      }
      admitted := admitted + [header];
      r := Ok(AdmittedEntry(position, entry));
    }

    /** Admits the next entry exactly when the headers admitted so far stay
        admissible with it; the first refusal is final. */
    method Admit(header: EntryHeader) returns (r: Result<AdmittedEntry, ArchiveRefusal>)
      requires Valid()
      modifies this
      ensures Valid() && copied == old(copied) && taken == old(taken) && once == old(once)
      ensures old(refused).Some? ==>
                r == Err(old(refused).value) && refused == old(refused) && admitted == old(admitted)
      ensures old(refused).None? ==> (r.Ok? <==> Admissible(old(admitted) + [header], limits))
      ensures r.Ok? ==>
                && refused.None? && admitted == old(admitted) + [header]
                && r.value == AdmittedEntry(Saturate(|old(admitted)| + 1), EntryOf(header))
      ensures r.Err? ==> refused == Some(r.error) && admitted == old(admitted)
      ensures old(refused).None? && r.Err? ==> Explains(r.error, admitted, header, limits)
    {
      if refused.Some? {
        return Err(refused.value);
      }
      hide Explains, Legal, AllCompatible, Represents, RatioBound, TotalDeclared, Outstanding, CountDirectories;
      OutstandingExtends(admitted, header, taken);
      ghost var before := admitted;
      r := AdmitEntry(header);
      if r.Err? {
        refused := Some(r.error);
      } else if once {
        FreshPath(before, header, taken);
      }
    }

    /** Counted bytes stay within what the compressed bytes drawn so far allow. */
    ghost predicate WithinRatio(bytes: nat)
      reads if compression.Metered? then {compression.counter} else {}
    {
      compression.Metered? ==> Saturate(bytes) <= RatioBound(compression.counter.total, limits)
    }

    /** One chunk read: refused if it overruns the declared size or the ratio,
        otherwise written and counted. */
    method CopyChunk(size: U64, taken: U64, bytes: ByteString, sink: Sink)
      returns (code: Option<ArchiveCode>, ghost accepted: nat)
      requires summary.copiedBytes == Saturate(copied) && WithinRatio(copied)
      modifies this`summary, this`copied, sink
      ensures accepted <= |bytes| && accepted <= old(sink.room)
      ensures sink.written == old(sink.written) + bytes[..accepted] && sink.room == old(sink.room) - accepted
      ensures summary == old(summary).(copiedBytes := Saturate(copied))
      ensures WithinRatio(copied) && WithinRatio(old(copied) + accepted)
      ensures match code
              case None =>
                accepted == |bytes| && copied == old(copied) + |bytes| && Saturate(taken + |bytes|) <= size
              case Some(DeclaredSizeExceeded) =>
                accepted == 0 && copied == old(copied) && Saturate(taken + |bytes|) > size
              case Some(ExpansionRatioExceeded) =>
                && accepted == 0 && copied == old(copied) && compression.Metered?
                && Overruns(copied, |bytes|, compression.counter.Load(), limits)
              case Some(other) =>
                && other == WriteFailed && copied == old(copied)
                && old(sink.room) < |bytes| && Saturate(taken + |bytes|) <= size
    {
      if Saturate(taken + |bytes|) > size {
        return Some(DeclaredSizeExceeded), 0;
      }
      SaturateAdd(copied, |bytes|);
      var total := Saturate(summary.copiedBytes + |bytes|);
      if compression.Metered? && ExceedsRatio(total, compression.counter.Load(), limits) {
        return Some(ExpansionRatioExceeded), 0;
      }
      RatioHolds(total, compression, limits);
      accepted := Min(|bytes|, sink.room);
      var ok := sink.WriteAll(bytes);
      if !ok {
        return Some(WriteFailed), accepted;
      }
      summary := summary.(copiedBytes := total);
      copied := copied + |bytes|;
      code := None;
    }

    /** Partway through a copy: everything read so far was sent and counted, but
        for the bytes `ahead`. */
    ghost predicate Copying(
      start: CopyStart, sent: ByteString, ahead: ByteString, size: U64, data: Reader, sink: Sink)
      reads this`copied, this`summary, data, sink, if compression.Metered? then {compression.counter} else {}
    {
      && sent + ahead <= start.stream && Saturate(|sent|) <= size && |sent| <= start.room
      && Stream(data.events) == start.stream[|sent + ahead|..] && EndingOf(data.events) == start.ending
      && sink.written == start.written + sent && sink.room == start.room - |sent|
      && data.consumed == start.consumed + |sent| + |ahead|
      && copied == start.copied + |sent|
      && summary == start.summary.(copiedBytes := Saturate(copied))
      && WithinRatio(copied)
    }

    /** A copy that ended with result `r`, having sent `sent`. */
    ghost predicate Copied(
      start: CopyStart, r: Result<U64, ArchiveCode>, sent: ByteString, size: U64, data: Reader, sink: Sink)
      reads this`copied, this`summary, data, sink, if compression.Metered? then {compression.counter} else {}
    {
      && CopyOutcome(r, sent, size, start.stream, start.ending, start.room, sink.flushes)
      && sink.written == start.written + sent
      && (size < U64_MAX ==> data.consumed <= start.consumed + size + 1)
      && start.copied <= copied <= start.copied + |sent|
      && (r.Ok? ==> copied == start.copied + |sent|)
      && summary == start.summary.(copiedBytes := Saturate(copied))
      && WithinRatio(copied) && WithinRatio(start.copied + |sent|)
      && (r == Err(ExpansionRatioExceeded) ==>
            && compression.Metered?
            && exists k :: |sent| < k <= |start.stream|
                           && Overruns(start.copied, k, compression.counter.Load(), limits))
    }

    /** One turn of the copy loop. */
    method CopyStep(size: U64, taken: U64, data: Reader, sink: Sink, ghost start: CopyStart, ghost sent: ByteString)
      returns (r: Option<Result<U64, ArchiveCode>>, more: U64, ghost now: ByteString)
      requires Copying(start, sent, [], size, data, sink) && taken == Saturate(|sent|)
      modifies this`summary, this`copied, data, data.counter, sink
      ensures r.None? ==>
                && Copying(start, now, [], size, data, sink) && more == Saturate(|now|)
                && Weight(data.events) < Weight(old(data.events))
      ensures r.Some? ==> Copied(start, r.value, now, size, data, sink)
    {
      hide Stream, EndingOf, Weight, RatioBound, Overruns, CopyOutcome;
      more, now := taken, sent;
      assert sent + [] == sent;
      var wanted := Min(Saturate(size - taken + 1), COPY_CHUNK_BYTES);
      ghost var drawn := if compression.Metered? then compression.counter.total else 0;
      var read := data.Read(wanted);
      if compression.Metered? {
        MonotoneBound(drawn, compression.counter.total, limits);
      }
      if read.Failed? && read.error == Interrupted {
        assert [] + Stream(data.events) == Stream(data.events);
        return None, taken, sent;
      }
      if read.Failed? || read.bytes == [] {
        assert sent == start.stream;
        var stopped: Result<U64, ArchiveCode> :=
          if read.Failed? then Err(if read.error == UnexpectedEof then Truncated else ReadFailed)
          else if taken < size then Err(Truncated)
          else if !sink.flushes then Err(WriteFailed) else Ok(taken);
        ReadingStopped(stopped, start.stream, sent, size, start.ending, start.room, sink.flushes);
        return Some(stopped), taken, sent;
      }
      NextChunk(start.stream, sent, read.bytes, Stream(data.events));
      r, more, now := SendChunk(size, taken, read.bytes, data, sink, start, sent);
    }

    /** The rest of the turn, once bytes are read. */
    method SendChunk(
      size: U64, taken: U64, bytes: ByteString, data: Reader, sink: Sink, ghost start: CopyStart,
          ghost sent: ByteString)
      returns (r: Option<Result<U64, ArchiveCode>>, more: U64, ghost now: ByteString)
      requires Copying(start, sent, bytes, size, data, sink) && taken == Saturate(|sent|) && bytes != []
      requires size < U64_MAX ==> |sent| + |bytes| <= size + 1
      modifies this`summary, this`copied, sink
      ensures r.None? ==> Copying(start, now, [], size, data, sink) && more == Saturate(|now|)
      ensures r.Some? ==> Copied(start, r.value, now, size, data, sink)
    {
      hide Stream, EndingOf, RatioBound, Overruns, CopyOutcome;
      SaturateAdd(|sent|, |bytes|);
      var code;
      ghost var accepted;
      code, accepted := CopyChunk(size, taken, bytes, sink);
      more, now := taken, sent + bytes[..accepted];
      Associates(start.written, sent, bytes[..accepted]);
      if code.None? {
        assert bytes[..accepted] == bytes && now + [] == sent + bytes;
        more := Saturate(taken + |bytes|);
        return None, more, now;
      }
      ChunkRefused(code.value, start.stream, sent, bytes, accepted, size, start.ending, start.room, sink.flushes);
      if code.value == ExpansionRatioExceeded {
        OverrunsFurther(start.copied, |sent|, |bytes|, compression.counter.Load(), limits);
      }
      r := Some(Err(code.value));
    }

    method CopyData(size: U64, data: Reader, sink: Sink)
      returns (r: Result<U64, ArchiveCode>, ghost start: CopyStart, ghost sent: ByteString)
      requires summary.copiedBytes == Saturate(copied) && WithinRatio(copied)
      modifies this`summary, this`copied, data, data.counter, sink
      ensures start == CopyStart(
                         Stream(old(data.events)), EndingOf(old(data.events)), old(sink.room),
                         old(sink.written), old(data.consumed), old(copied), old(summary))
      ensures Copied(start, r, sent, size, data, sink)
    {
      start := CopyStart(
        Stream(data.events), EndingOf(data.events), sink.room, sink.written, data.consumed, copied, summary);
      var taken: U64 := 0;
      var ended: Option<Result<U64, ArchiveCode>> := None;
      sent := [];
      while ended.None?
        invariant ended.None? ==> Copying(start, sent, [], size, data, sink) && taken == Saturate(|sent|)
        invariant ended.Some? ==> Copied(start, ended.value, sent, size, data, sink)
        decreases ended.None?, Weight(data.events)
      {
        ended, taken, sent := CopyStep(size, taken, data, sink, start, sent);
      }
      r := ended.value;
    }

    /** Copies an admitted file's data, or refuses it and everything after it. */
    method Copy(file: AdmittedEntry, data: Reader, sink: Sink)
      returns (r: Result<U64, ArchiveRefusal>, ghost start: CopyStart, ghost code: Result<U64, ArchiveCode>,
          ghost sent: ByteString)
      requires Valid() && !file.entry.directory
      modifies this, data, data.counter, sink
      ensures Valid() && admitted == old(admitted)
      ensures old(refused).Some? ==>
                && r == Err(old(refused).value) && refused == old(refused)
                && data.events == old(data.events) && sink.written == old(sink.written) && copied == old(copied)
      ensures start == CopyStart(
                         Stream(old(data.events)), EndingOf(old(data.events)), old(sink.room),
                         old(sink.written), old(data.consumed), old(copied), old(summary))
      ensures old(refused).None? ==>
                && Copied(start, code, sent, file.entry.size, data, sink)
                && r == Attributed(code, file.position)
                && refused == (if r.Err? then Some(r.error) else None)
                && taken == old(taken) + {file.entry.path}
                && once == (old(once) && Pending(file.entry, old(taken), admitted))
    {
      hide Admissible, Represents, CopyOutcome, Stream, EndingOf, RatioBound, Outstanding, TotalDeclared, Overruns;
      if refused.Some? {
        start := CopyStart(
          Stream(data.events), EndingOf(data.events), sink.room, sink.written, data.consumed, copied, summary);
        return Err(refused.value), start, Err(refused.value.code), [];
      }
      var result;
      result, start, sent := CopyAdmitted(file.entry.size, data, sink);
      code := result;
      r := Attributed(result, file.position);
      if r.Err? {
        refused := Some(r.error);
      }
      if once && Pending(file.entry, taken, admitted) {
        TakeEntry(admitted, taken, file.entry, limits);
      } else {
        once := false;
      }
      taken := taken + {file.entry.path};
    }

    /** `CopyData`, keeping only what the guard's bookkeeping needs of the outcome. */
    method CopyAdmitted(size: U64, data: Reader, sink: Sink)
      returns (r: Result<U64, ArchiveCode>, ghost start: CopyStart, ghost sent: ByteString)
      requires summary.copiedBytes == Saturate(copied) && WithinRatio(copied)
      modifies this`summary, this`copied, data, data.counter, sink
      ensures start == CopyStart(
                         Stream(old(data.events)), EndingOf(old(data.events)), old(sink.room),
                         old(sink.written), old(data.consumed), old(copied), old(summary))
      ensures Copied(start, r, sent, size, data, sink)
      ensures old(copied) <= copied && summary == old(summary).(copiedBytes := Saturate(copied))
      ensures size < U64_MAX ==> copied <= old(copied) + size && (r.Ok? ==> copied == old(copied) + size)
    {
      r, start, sent := CopyData(size, data, sink);
    }

    /** Ends the archive: the refusal, or totals that account for every entry. */
    method Finish() returns (r: Result<ArchiveSummary, ArchiveRefusal>)
      requires Valid()
      ensures refused.Some? ==> r == Err(refused.value)
      ensures refused.None? ==>
                && r == Ok(summary)
                && summary.entries == Saturate(|admitted|)
                && summary.files + summary.directories == |admitted|
                && summary.declaredBytes == Saturate(TotalDeclared(admitted))
                && summary.copiedBytes == Saturate(copied)
                && (once ==> copied + Outstanding(admitted, taken) == TotalDeclared(admitted)
                             && summary.copiedBytes <= summary.declaredBytes)
    {
      if refused.Some? {
        return Err(refused.value);
      }
      return Ok(summary);
    }
  }

  /** Without metering, and with data that ends and a writer that takes it, a copy
      succeeds exactly when the data's length, saturated, is the declared size. So the
      data is exactly as long as declared at every declared size but the greatest, and
      there unless it is longer. */
  lemma CopiesDeclaredLength(
    guard: ArchiveGuard, start: CopyStart, r: Result<U64, ArchiveCode>, sent: ByteString, size: U64, data: Reader,
        sink: Sink)
    requires guard.Copied(start, r, sent, size, data, sink) && !guard.compression.Metered?
    requires start.ending == AtEnd && start.room >= |start.stream| && sink.flushes
    ensures r.Ok? <==> Saturate(|start.stream|) == size
    ensures (r.Ok? ==> |start.stream| == size) <==> size < U64_MAX || |start.stream| <= U64_MAX
  {
  }

  /** At the greatest declared size, data one byte longer is copied as if it had it. */
  lemma LongerThanDeclared(
    guard: ArchiveGuard, start: CopyStart, r: Result<U64, ArchiveCode>, sent: ByteString, data: Reader, sink: Sink)
    requires guard.Copied(start, r, sent, U64_MAX, data, sink) && !guard.compression.Metered?
    requires start.stream == seq(U64_MAX + 1, _ => 0)
    requires start.ending == AtEnd && start.room >= |start.stream| && sink.flushes
    ensures r == Ok(U64_MAX) && |sent| == U64_MAX + 1
  {
    CopiesDeclaredLength(guard, start, r, sent, U64_MAX, data, sink);
  }

  /** An adapter handing the guard every header of an archive: the longest
      admissible prefix is accepted, and every header after it draws the same
      refusal, so the whole archive is accepted exactly when it is admissible. */
  method AdmitAll(limits: ArchiveLimits, compression: Compression, headers: seq<EntryHeader>)
    returns (guard: ArchiveGuard, results: seq<Result<AdmittedEntry, ArchiveRefusal>>, kept: nat)
    ensures fresh(guard) && guard.Valid() && guard.limits == limits
    ensures |results| == |headers| && kept <= |headers| && guard.admitted == headers[..kept]
    ensures forall j :: 0 <= j < kept ==> results[j] == Ok(AdmittedEntry(Saturate(j + 1), EntryOf(headers[j])))
    ensures Admissible(headers[..kept], limits)
    ensures kept == |headers| <==> guard.refused.None?
    ensures kept < |headers| ==>
              && !Admissible(headers[..kept + 1], limits)
              && guard.refused.Some? && Explains(guard.refused.value, headers[..kept], headers[kept], limits)
              && forall j :: kept <= j < |headers| ==> results[j] == Err(guard.refused.value)
    ensures kept == |headers| <==> Admissible(headers, limits)
  {
    hide Explains, Admissible;
    guard := new ArchiveGuard(limits, compression);
    results, kept := [], 0;
    for k := 0 to |headers|
      invariant fresh(guard) && guard.Valid() && guard.limits == limits
      invariant |results| == k && kept <= k && guard.admitted == headers[..kept]
      invariant forall j :: 0 <= j < kept ==> results[j] == Ok(AdmittedEntry(Saturate(j + 1), EntryOf(headers[j])))
      invariant kept == k <==> guard.refused.None?
      invariant kept < k ==>
                  && !Admissible(headers[..kept + 1], limits)
                  && Explains(guard.refused.value, headers[..kept], headers[kept], limits)
                  && forall j :: kept <= j < k ==> results[j] == Err(guard.refused.value)
    {
      assert headers[..k + 1] == headers[..k] + [headers[k]];
      var r := guard.Admit(headers[k]);
      results := results + [r];
      if r.Ok? {
        kept := kept + 1;
      }
    }
    assert headers[..|headers|] == headers;
    if kept < |headers| && Admissible(headers, limits) {
      AdmissibleUpTo(headers, kept + 1, limits);
    }
  }
}
