/** What extracting an admitted archive does to a case-insensitive filesystem:
    the harm the uniqueness rules exist to prevent (`gateway-config/src/archive.rs`). */
module Extraction {
  import opened Bytes
  import opened Results
  import opened ArchiveNames
  import opened ArchiveClaims
  import opened ArchiveAdmission

  datatype Node = DirectoryNode(exact: ByteString) | FileNode(entry: Entry)

  /** Paths beneath a fresh root; names that differ only in letter case are one name. */
  type FileSystem = map<ByteString, Node>

  /** `None` where a directory would have to be made in place of, or beneath, a file. */
  function MakeDirectory(fs: FileSystem, path: ByteString): Option<FileSystem> {
    if Fold(path) !in fs then Some(fs[Fold(path) := DirectoryNode(path)])
    else if fs[Fold(path)].DirectoryNode? then Some(fs) else None
  }

  /** `None` where something would be overwritten. */
  function MakeFile(fs: FileSystem, entry: Entry): Option<FileSystem> {
    if Fold(entry.path) in fs then None else Some(fs[Fold(entry.path) := FileNode(entry)])
  }

  /** Makes the parent directories that end before byte `n`, outermost first. */
  function MakeParents(fs: FileSystem, path: ByteString, n: nat): Option<FileSystem>
    requires n <= |path|
  {
    if n == 0 then Some(fs)
    else match MakeParents(fs, path, n - 1)
      case None => None
      case Some(made) => if IsCut(path, n - 1) then MakeDirectory(made, path[..n - 1]) else Some(made)
  }

  function Extract(fs: FileSystem, entry: Entry): Option<FileSystem> {
    match MakeParents(fs, entry.path, |entry.path|)
    case None => None
    case Some(made) => if entry.directory then MakeDirectory(made, entry.path) else MakeFile(made, entry)
  }

  /** Extracts the entries in order onto an empty filesystem. */
  function Replay(entries: seq<Entry>): Option<FileSystem> {
    if entries == [] then Some(map[])
    else match Replay(entries[..|entries| - 1])
      case None => None
      case Some(fs) => Extract(fs, entries[|entries| - 1])
  }

  /** What an entry puts at one prefix of its path. */
  function NodeAt(entry: Entry, n: nat): Node
    requires n <= |entry.path|
  {
    if n == |entry.path| && !entry.directory then FileNode(entry) else DirectoryNode(entry.path[..n])
  }

  /** Entry `i` finds its own node at prefix `n`, spelled as it spells it. */
  ghost predicate Placed(fs: FileSystem, entries: seq<Entry>, i: int, n: int) {
    0 <= i < |entries| && IsCut(entries[i].path, n) ==>
      var key := Fold(entries[i].path[..n]);
      key in fs && fs[key] == NodeAt(entries[i], n)
  }

  ghost predicate MadeBy(entries: seq<Entry>, key: ByteString, i: int, n: int) {
    0 <= i < |entries| && IsCut(entries[i].path, n) && key == Fold(entries[i].path[..n])
  }

  ghost predicate Owned(fs: FileSystem, entries: seq<Entry>, key: ByteString) {
    key in fs ==> exists i, n :: MadeBy(entries, key, i, n)
  }

  /** The filesystem holds the entries and their parents, and nothing else. */
  ghost predicate Describes(fs: FileSystem, entries: seq<Entry>) {
    && (forall i, n {:trigger Placed(fs, entries, i, n)} :: Placed(fs, entries, i, n))
    && (forall key {:trigger Owned(fs, entries, key)} :: Owned(fs, entries, key))
  }

  ghost predicate CompatibleWithAll(entries: seq<Entry>, entry: Entry) {
    forall i :: 0 <= i < |entries| ==> Compatible(entries[i], entry)
  }

  /** Whatever a new entry meets along its path is a directory it spells the same way. */
  lemma MeetsDirectory(fs: FileSystem, entries: seq<Entry>, entry: Entry, n: int)
    requires Describes(fs, entries) && CompatibleWithAll(entries, entry)
    requires IsCut(entry.path, n) && Fold(entry.path[..n]) in fs
    ensures fs[Fold(entry.path[..n])] == DirectoryNode(entry.path[..n])
    ensures n == |entry.path| ==> entry.directory
  {
    var key := Fold(entry.path[..n]);
    assert Owned(fs, entries, key);
    var i, m :| MadeBy(entries, key, i, m);
    assert Placed(fs, entries, i, m);
    assert m == |key| == n;
    var p, q := entries[i].path, entry.path;
    assert p[..n] == q[..n] by {
      assert !FoldsTogether(p, q, n);
    }
    assert p[..|p|] == p && q[..|q|] == q;
  }

  /** Folding keeps the length, so a prefix's key tells which prefix it is. */
  ghost predicate CutKey(path: ByteString, key: ByteString, m: int)
    ensures CutKey(path, key, m) ==> |key| == m
  {
    IsCut(path, m) && key == Fold(path[..m])
  }

  /** The parents made are exactly the missing ones. */
  ghost predicate ParentsMade(before: FileSystem, after: FileSystem, path: ByteString, n: int) {
    && before.Keys <= after.Keys
    && (forall key <- before :: after[key] == before[key])
    && (forall m :: m < n && IsCut(path, m) ==> Fold(path[..m]) in after)
    && forall key <- after :: key !in before ==>
         (exists m :: m < n && CutKey(path, key, m)) && after[key] == DirectoryNode(path[..Min(|key|, |path|)])
  }

  /** A prefix whose directory is there already, or that is none, makes nothing. */
  lemma ParentKept(before: FileSystem, made: FileSystem, path: ByteString, n: nat)
    requires ParentsMade(before, made, path, n) && n <= |path|
    requires IsCut(path, n) ==> Fold(path[..n]) in before
    ensures ParentsMade(before, made, path, n + 1)
  {
  }

  lemma ParentAdded(before: FileSystem, made: FileSystem, path: ByteString, n: nat)
    requires ParentsMade(before, made, path, n) && IsCut(path, n) && Fold(path[..n]) !in before
    ensures Fold(path[..n]) !in made
    ensures ParentsMade(before, made[Fold(path[..n]) := DirectoryNode(path[..n])], path, n + 1)
  {
    var key := Fold(path[..n]);
    assert CutKey(path, key, n);
  }

  lemma {:induction false} MakesParents(fs: FileSystem, entries: seq<Entry>, entry: Entry, n: nat)
    requires Describes(fs, entries) && CompatibleWithAll(entries, entry) && n <= |entry.path|
    ensures MakeParents(fs, entry.path, n).Some?
    ensures ParentsMade(fs, MakeParents(fs, entry.path, n).value, entry.path, n)
  {
    if n > 0 {
      MakesParents(fs, entries, entry, n - 1);
      hide Describes, CompatibleWithAll;
      var path := entry.path;
      var made := MakeParents(fs, path, n - 1).value;
      if IsCut(path, n - 1) && Fold(path[..n - 1]) !in fs {
        ParentAdded(fs, made, path, n - 1);
      } else {
        if IsCut(path, n - 1) {
          MeetsDirectory(fs, entries, entry, n - 1);
        }
        ParentKept(fs, made, path, n - 1);
        assert MakeParents(fs, path, n) == Some(made);
      }
    }
  }

  /** `after` adds the entry, and the missing parents, to `before`. */
  ghost predicate Added(before: FileSystem, after: FileSystem, entry: Entry) {
    var path := entry.path;
    && before.Keys <= after.Keys
    && (forall key <- before :: after[key] == before[key])
    && (forall n :: IsCut(path, n) ==>
          Fold(path[..n]) in after && (Fold(path[..n]) !in before ==> after[Fold(path[..n])] == NodeAt(entry, n)))
    && (forall key <- after :: key !in before ==> exists n :: CutKey(path, key, n))
  }

  /** The entry is extracted without overwriting or entering a file. */
  lemma Extracts(fs: FileSystem, entries: seq<Entry>, entry: Entry)
    requires Describes(fs, entries) && CompatibleWithAll(entries, entry) && entry.path != []
    ensures Extract(fs, entry).Some? && Added(fs, Extract(fs, entry).value, entry)
  {
    hide Describes, CompatibleWithAll, Compatible;
    var path := entry.path;
    MakesParents(fs, entries, entry, |path|);
    var made := MakeParents(fs, path, |path|).value;
    assert path[..|path|] == path && IsCut(path, |path|);
    var key := Fold(path);
    if key in fs {
      MeetsDirectory(fs, entries, entry, |path|);
    }
    assert CutKey(path, key, |path|);
    assert key in made ==> key in fs;
    var after := Extract(fs, entry).value;
    assert after == if key in fs then made else made[key := NodeAt(entry, |path|)];
    LastAdded(fs, made, after, entry);
  }

  lemma LastAdded(fs: FileSystem, made: FileSystem, after: FileSystem, entry: Entry)
    requires var path := entry.path;
             && path != [] && ParentsMade(fs, made, path, |path|)
             && after == if Fold(path) in fs then made else made[Fold(path) := NodeAt(entry, |path|)]
    ensures Added(fs, after, entry)
  {
    var path := entry.path;
    assert path[..|path|] == path && CutKey(path, Fold(path), |path|);
    forall n | IsCut(path, n)
      ensures Fold(path[..n]) in after
      ensures Fold(path[..n]) !in fs ==> after[Fold(path[..n])] == NodeAt(entry, n)
    {
      assert CutKey(path, Fold(path[..n]), n);
    }
  }

  /** Adding a compatible entry keeps the description exact. */
  lemma AddedDescribes(before: FileSystem, after: FileSystem, entries: seq<Entry>, entry: Entry)
    requires Describes(before, entries) && CompatibleWithAll(entries, entry) && Added(before, after, entry)
    ensures Describes(after, entries + [entry])
  {
    hide CompatibleWithAll, Compatible;
    var all := entries + [entry];
    forall i, n ensures Placed(after, all, i, n) {
      if 0 <= i < |entries| {
        assert Placed(before, entries, i, n);
      } else if i == |entries| && IsCut(entry.path, n) && Fold(entry.path[..n]) in before {
        MeetsDirectory(before, entries, entry, n);
      }
    }
    forall key ensures Owned(after, all, key) {
      if key in before {
        assert Owned(before, entries, key);
        var i, n :| MadeBy(entries, key, i, n);
        assert MadeBy(all, key, i, n);
      } else if key in after {
        var n :| CutKey(entry.path, key, n);
        assert MadeBy(all, key, |entries|, n);
      }
    }
  }

  /** Replaying compatible entries never overwrites or enters a file, and
      leaves exactly the entries and their parents. */
  lemma {:induction false} ReplayDescribes(entries: seq<Entry>)
    requires AllCompatible(entries)
    requires forall entry <- entries :: entry.path != []
    ensures Replay(entries).Some? && Describes(Replay(entries).value, entries)
    decreases |entries|
  {
    hide Compatible, Extract, Added;
    if entries == [] {
      assert forall i, n :: Placed(map[], entries, i, n);
      assert forall key :: Owned(map[], entries, key);
    } else {
      var last := |entries| - 1;
      var before, entry := entries[..last], entries[last];
      assert entries == before + [entry];
      ReplayDescribes(before);
      var fs := Replay(before).value;
      assert entry in entries;
      assert CompatibleWithAll(before, entry);
      Extracts(fs, before, entry);
      AddedDescribes(fs, Extract(fs, entry).value, before, entry);
    }
  }

  /** Two filesystems that describe the same entries, in whatever order, are equal. */
  lemma DescriptionIsUnique(a: FileSystem, b: FileSystem, first: seq<Entry>, second: seq<Entry>)
    requires Describes(a, first) && Describes(b, second)
    requires forall entry :: entry in first <==> entry in second
    ensures a == b
  {
    forall key | key in a ensures key in b && b[key] == a[key] {
      AgreesAt(a, b, first, second, key);
    }
    forall key | key in b ensures key in a {
      AgreesAt(b, a, second, first, key);
    }
  }

  lemma AgreesAt(a: FileSystem, b: FileSystem, first: seq<Entry>, second: seq<Entry>, key: ByteString)
    requires Describes(a, first) && Describes(b, second) && key in a
    requires forall entry <- first :: entry in second
    ensures key in b && b[key] == a[key]
  {
    assert Owned(a, first, key);
    var i, n :| MadeBy(first, key, i, n);
    assert Placed(a, first, i, n);
    assert first[i] in second;
    var j :| 0 <= j < |second| && second[j] == first[i];
    assert Placed(b, second, j, n);
  }

  /** Extraction is safe: an admitted archive, its entries replayed in any order
      onto an empty case-insensitive filesystem, never overwrites a file and
      never enters one, and always leaves the same tree: exactly the admitted
      files under the names the archive spells, and their directories. */
  lemma ExtractionIsSafe(headers: seq<EntryHeader>, permuted: seq<EntryHeader>, limits: ArchiveLimits)
    requires Admissible(headers, limits) && multiset(headers) == multiset(permuted)
    ensures Replay(EntriesOf(permuted)).Some?
    ensures Replay(EntriesOf(permuted)) == Replay(EntriesOf(headers))
    ensures Describes(Replay(EntriesOf(permuted)).value, EntriesOf(headers))
  {
    AdmissiblePermuted(headers, permuted, limits);
    AdmittedPathsNonempty(headers, limits);
    AdmittedPathsNonempty(permuted, limits);
    var first, second := EntriesOf(headers), EntriesOf(permuted);
    ReplayDescribes(first);
    ReplayDescribes(second);
    SameEntries(headers, permuted);
    SameEntries(permuted, headers);
    DescriptionIsUnique(Replay(first).value, Replay(second).value, first, second);
  }

  lemma AdmittedPathsNonempty(headers: seq<EntryHeader>, limits: ArchiveLimits)
    requires Admissible(headers, limits)
    ensures forall entry <- EntriesOf(headers) :: entry.path != []
  {
    hide Legal, HeaderCode, AllCompatible;
    forall i | 0 <= i < |headers| ensures EntriesOf(headers)[i].path != [] {
      assert headers[i] in headers;
      HeaderCodeExact(headers[i], limits);
    }
  }

  lemma SameEntries(headers: seq<EntryHeader>, permuted: seq<EntryHeader>)
    requires multiset(headers) == multiset(permuted)
    ensures forall entry <- EntriesOf(headers) :: entry in EntriesOf(permuted)
  {
    forall entry | entry in EntriesOf(headers) ensures entry in EntriesOf(permuted) {
      var i :| 0 <= i < |headers| && EntryOf(headers[i]) == entry;
      assert headers[i] in multiset(permuted);
      var j :| 0 <= j < |permuted| && permuted[j] == headers[i];
      assert EntriesOf(permuted)[j] == entry;
    }
  }
}
