/** The naive statement of which header sequences an archive may hold. */
module ArchiveAdmission {
  import opened Bytes
  import opened Results
  import opened ArchiveNames
  import opened ArchiveClaims

  predicate ExceedsRatio(decompressed: nat, compressed: nat, limits: ArchiveLimits) {
    && decompressed > limits.ratioFloorBytes
    && decompressed > Saturate(compressed * limits.maxExpansionRatio)
  }

  /** The most decompressed bytes the ratio allows after `drawn` compressed ones. */
  function RatioBound(drawn: nat, limits: ArchiveLimits): nat {
    Max(limits.ratioFloorBytes, Saturate(drawn * limits.maxExpansionRatio))
  }

  /** The ratio is exceeded exactly above its bound: for a count that fits in 64 bits,
      above the floor and above the exact product. */
  lemma ExceedsRatioExact(decompressed: nat, compressed: nat, limits: ArchiveLimits)
    ensures ExceedsRatio(decompressed, compressed, limits) <==> decompressed > RatioBound(compressed, limits)
    ensures decompressed <= U64_MAX ==>
              (ExceedsRatio(decompressed, compressed, limits) <==>
               decompressed > limits.ratioFloorBytes && decompressed > compressed * limits.maxExpansionRatio)
  {
    assert decompressed <= U64_MAX ==> (decompressed > Saturate(compressed * limits.maxExpansionRatio) <==>
                                        decompressed > compressed * limits.maxExpansionRatio);
  }

  /** A header that breaks no rule on its own. */
  predicate Legal(header: EntryHeader, limits: ArchiveLimits) {
    var entry := EntryOf(header);
    && IsPortablePath(entry.path)
    && WithinBounds(header.name, entry.path, limits)
    && match header.kind
       case Directory => header.size == 0 && (header.storedSize.Some? ==> header.storedSize.value == 0)
       case File =>
         && header.size <= limits.maxEntryBytes
         && (header.storedSize.Some? ==> header.size <= RatioBound(header.storedSize.value, limits))
       case _ => false
  }

  /** Why a header is refused on its own, in the order the checks run. */
  function HeaderCode(header: EntryHeader, limits: ArchiveLimits): Option<ArchiveCode> {
    match AdmitName(header.name, header.kind.Directory?, limits)
    case Err(code) => Some(code)
    case Ok(_) =>
      match header.kind
      case Symlink => Some(SymlinkEntry)
      case HardLink => Some(HardLinkEntry)
      case CharacterDevice => Some(SpecialEntry)
      case BlockDevice => Some(SpecialEntry)
      case Fifo => Some(SpecialEntry)
      case Socket => Some(SpecialEntry)
      case Other => Some(UnsupportedEntry)
      case Directory =>
        if header.size != 0 || (header.storedSize.Some? && header.storedSize.value != 0)
        then Some(DirectoryHasData) else None
      case File =>
        if header.size > limits.maxEntryBytes then Some(EntryTooLarge)
        else if header.storedSize.Some? && ExceedsRatio(header.size, header.storedSize.value, limits)
        then Some(ExpansionRatioExceeded) else None
  }

  lemma HeaderCodeExact(header: EntryHeader, limits: ArchiveLimits)
    ensures HeaderCode(header, limits).None? <==> Legal(header, limits)
    ensures Legal(header, limits) ==>
              && AdmitName(header.name, header.kind.Directory?, limits) == Ok(EntryOf(header).path)
              && EntryOf(header).path != []
  {
    hide AdmitName, IsPortablePath, WithinBounds, ExceedsRatio, RatioBound;
    if header.storedSize.Some? {
      ExceedsRatioExact(header.size, header.storedSize.value, limits);
    }
    AdmitNameExact(header.name, header.kind.Directory?, limits);
    if Legal(header, limits) {
      PortablePathBytes(EntryOf(header).path);
    }
  }

  /** What each code says of a header whose name is admitted. */
  predicate IsHeaderFault(code: ArchiveCode, header: EntryHeader, limits: ArchiveLimits) {
    match code
    case SymlinkEntry => header.kind.Symlink?
    case HardLinkEntry => header.kind.HardLink?
    case SpecialEntry =>
      header.kind.CharacterDevice? || header.kind.BlockDevice? || header.kind.Fifo? || header.kind.Socket?
    case UnsupportedEntry => header.kind.Other?
    case DirectoryHasData => header.kind.Directory? && (header.size > 0 || StoredSize(header) > 0)
    case EntryTooLarge => header.kind.File? && header.size > limits.maxEntryBytes
    case ExpansionRatioExceeded =>
      && header.kind.File? && header.size <= limits.maxEntryBytes
      && header.storedSize.Some? && header.size > RatioBound(header.storedSize.value, limits)
    case _ => false
  }

  function StoredSize(header: EntryHeader): nat {
    if header.storedSize.Some? then header.storedSize.value else 0
  }

  /** A header whose name is admitted is refused with a code exactly for its fault. */
  lemma HeaderCodes(header: EntryHeader, code: ArchiveCode, limits: ArchiveLimits)
    requires AdmitName(header.name, header.kind.Directory?, limits).Ok?
    ensures HeaderCode(header, limits) == Some(code) <==> IsHeaderFault(code, header, limits)
  {
    hide AdmitName, ExceedsRatio, RatioBound;
    if header.storedSize.Some? {
      ExceedsRatioExact(header.size, header.storedSize.value, limits);
    }
  }

  function Charge(header: EntryHeader): nat {
    if header.kind.Directory? then 0 else header.size
  }

  /** The exact sum of the sizes declared. */
  function TotalDeclared(headers: seq<EntryHeader>): nat {
    if headers == [] then 0
    else TotalDeclared(headers[..|headers| - 1]) + Charge(headers[|headers| - 1])
  }

  /** Every header is legal, the counts and totals fit, and every two entries
      are compatible. The sums saturate at `u64::MAX`, so that bound admits any. */
  ghost predicate Admissible(headers: seq<EntryHeader>, limits: ArchiveLimits) {
    && Saturate(|headers|) <= limits.maxEntries
    && (forall header <- headers :: Legal(header, limits))
    && Saturate(TotalDeclared(headers)) <= limits.maxTotalBytes
    && AllCompatible(EntriesOf(headers))
  }

  lemma AdmissiblePrefix(headers: seq<EntryHeader>, header: EntryHeader, limits: ArchiveLimits)
    requires Admissible(headers + [header], limits)
    ensures Admissible(headers, limits)
    ensures forall e <- EntriesOf(headers) :: Compatible(e, EntryOf(header))
  {
    hide Legal, Compatible;
    var all := headers + [header];
    assert all[..|headers|] == headers;
    var entries := EntriesOf(all);
    assert forall i :: 0 <= i < |headers| ==> EntriesOf(headers)[i] == entries[i];
    forall h | h in headers ensures Legal(h, limits) {
      assert h in all;
    }
    forall e | e in EntriesOf(headers) ensures Compatible(e, EntryOf(header)) {
      var i :| 0 <= i < |headers| && EntriesOf(headers)[i] == e;
      assert Compatible(entries[i], entries[|headers|]);
    }
  }

  lemma AdmissibleExtends(headers: seq<EntryHeader>, header: EntryHeader, limits: ArchiveLimits)
    requires Admissible(headers, limits) && Legal(header, limits)
    requires Saturate(|headers| + 1) <= limits.maxEntries
    requires Saturate(TotalDeclared(headers) + Charge(header)) <= limits.maxTotalBytes
    requires forall i :: 0 <= i < |headers| ==> Compatible(EntryOf(headers[i]), EntryOf(header))
    ensures Admissible(headers + [header], limits)
  {
    hide Legal, Compatible;
    var all := headers + [header];
    assert all[..|headers|] == headers;
    var entries := EntriesOf(all);
    forall i, j | 0 <= i < j < |entries| ensures Compatible(entries[i], entries[j]) {
      if j < |headers| {
        assert entries[i] == EntriesOf(headers)[i] && entries[j] == EntriesOf(headers)[j];
      }
    }
  }

  // Admission does not depend on the order of the entries.

  /** Pairwise compatibility, stated without positions. */
  ghost predicate CompatibleBag(bag: multiset<EntryHeader>) {
    && (forall h <- bag :: bag[h] == 1)
    && (forall g <- bag, h <- bag :: g != h ==> Compatible(EntryOf(g), EntryOf(h)))
  }

  lemma TwoPositions<T>(s: seq<T>, i: int, j: int)
    requires 0 <= i < j < |s| && s[i] == s[j]
    ensures multiset(s)[s[i]] >= 2
  {
    assert s == s[..i] + [s[i]] + s[i + 1..j] + [s[j]] + s[j + 1..];
  }

  lemma {:induction false} OnePosition<T>(s: seq<T>, x: T)
    requires multiset(s)[x] >= 2
    ensures exists i, j :: 0 <= i < j < |s| && s[i] == x && s[j] == x
  {
    assert s == [s[0]] + s[1..];
    if s[0] == x {
      assert multiset(s)[x] == 1 + multiset(s[1..])[x];
      assert x in s[1..];
      var j :| 0 <= j < |s[1..]| && s[1..][j] == x;
      assert s[0] == x && s[j + 1] == x;
    } else {
      assert multiset(s)[x] == multiset(s[1..])[x];
      OnePosition(s[1..], x);
      var i, j :| 0 <= i < j < |s[1..]| && s[1..][i] == x && s[1..][j] == x;
      assert s[i + 1] == x && s[j + 1] == x;
    }
  }

  lemma RepeatIsIncompatible(headers: seq<EntryHeader>, h: EntryHeader)
    requires multiset(headers)[h] >= 2
    ensures !AllCompatible(EntriesOf(headers))
  {
    OnePosition(headers, h);
    var i, j :| 0 <= i < j < |headers| && headers[i] == h && headers[j] == h;
    assert !Compatible(EntriesOf(headers)[i], EntriesOf(headers)[j]);
  }

  lemma AllCompatibleIsBag(headers: seq<EntryHeader>)
    ensures AllCompatible(EntriesOf(headers)) <==> CompatibleBag(multiset(headers))
  {
    var bag, entries := multiset(headers), EntriesOf(headers);
    if AllCompatible(entries) {
      forall h | h in bag ensures bag[h] == 1 {
        if bag[h] >= 2 {
          RepeatIsIncompatible(headers, h);
        }
      }
      forall g, h | g in bag && h in bag && g != h ensures Compatible(EntryOf(g), EntryOf(h)) {
        var i :| 0 <= i < |headers| && headers[i] == g;
        var j :| 0 <= j < |headers| && headers[j] == h;
        CompatibleSymmetric(EntryOf(g), EntryOf(h));
        if i < j {
          assert Compatible(entries[i], entries[j]);
        } else {
          assert Compatible(entries[j], entries[i]);
        }
      }
    }
    if CompatibleBag(bag) {
      forall i, j | 0 <= i < j < |entries| ensures Compatible(entries[i], entries[j]) {
        if headers[i] == headers[j] {
          TwoPositions(headers, i, j);
        }
        assert headers[i] in bag && headers[j] in bag;
      }
    }
  }

  lemma {:induction false} TotalWithout(headers: seq<EntryHeader>, i: int)
    requires 0 <= i < |headers|
    ensures TotalDeclared(headers) == TotalDeclared(headers[..i] + headers[i + 1..]) + Charge(headers[i])
    decreases |headers|
  {
    var last := |headers| - 1;
    var without := headers[..i] + headers[i + 1..];
    if i == last {
      assert without == headers[..last];
    } else {
      TotalWithout(headers[..last], i);
      assert headers[..last][..i] + headers[..last][i + 1..] == without[..last - 1];
      assert without[last - 1] == headers[last];
    }
  }

  lemma {:induction false} TotalPermuted(headers: seq<EntryHeader>, permuted: seq<EntryHeader>)
    requires multiset(headers) == multiset(permuted)
    ensures TotalDeclared(headers) == TotalDeclared(permuted)
    decreases |headers|
  {
    assert |headers| == |multiset(headers)| == |permuted|;
    if headers != [] {
      var last := |headers| - 1;
      assert headers == headers[..last] + [headers[last]];
      assert headers[last] in multiset(permuted);
      var i :| 0 <= i < |permuted| && permuted[i] == headers[last];
      assert permuted == permuted[..i] + [permuted[i]] + permuted[i + 1..];
      var without := permuted[..i] + permuted[i + 1..];
      assert multiset(headers) == multiset(headers[..last]) + multiset{headers[last]};
      assert multiset(permuted) == multiset(without) + multiset{headers[last]};
      assert multiset(headers[..last]) == multiset(headers) - multiset{headers[last]} == multiset(without);
      TotalPermuted(headers[..last], without);
      TotalWithout(permuted, i);
    }
  }

  /** Whether an archive is admitted does not depend on the order of its entries. */
  lemma AdmissiblePermuted(headers: seq<EntryHeader>, permuted: seq<EntryHeader>, limits: ArchiveLimits)
    requires multiset(headers) == multiset(permuted)
    ensures Admissible(headers, limits) <==> Admissible(permuted, limits)
  {
    AllCompatibleIsBag(headers);
    AllCompatibleIsBag(permuted);
    TotalPermuted(headers, permuted);
    assert |headers| == |multiset(headers)| == |permuted|;
    assert forall h :: h in headers <==> h in multiset(headers);
    assert forall h :: h in permuted <==> h in multiset(permuted);
  }
}
