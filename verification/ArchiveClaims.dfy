/** Which entries may share an archive: the pairwise rule, and the table of
    claimed paths the guard keeps instead of comparing every pair. */
module ArchiveClaims {
  import opened Bytes
  import opened Results
  import opened ArchiveNames

  datatype EntryKind =
    | File | Directory | Symlink | HardLink | CharacterDevice | BlockDevice | Fifo | Socket | Other

  datatype EntryHeader = EntryHeader(
    name: ByteString, kind: EntryKind, size: U64, storedSize: Option<U64>)

  /** What an accepted header stands for. */
  datatype Entry = Entry(path: ByteString, directory: bool, size: U64)

  function EntryOf(header: EntryHeader): Entry {
    Entry(Stripped(header.name, header.kind.Directory?), header.kind.Directory?, header.size)
  }

  function EntriesOf(headers: seq<EntryHeader>): (entries: seq<Entry>)
    ensures |entries| == |headers|
  {
    seq(|headers|, i requires 0 <= i < |headers| => EntryOf(headers[i]))
  }

  // The pairwise rule.

  /** `path[..n]` is the whole path or one of its parent directories. */
  predicate IsCut(path: ByteString, n: int) {
    0 < n <= |path| && (n == |path| || path[n] == SLASH)
  }

  predicate IsAncestor(p: ByteString, q: ByteString) {
    |p| < |q| && p == q[..|p|] && q[|p|] == SLASH
  }

  /** Some prefix the two paths share after case folding is spelled differently. */
  predicate FoldsTogether(p: ByteString, q: ByteString, n: int) {
    IsCut(p, n) && IsCut(q, n) && Fold(p[..n]) == Fold(q[..n]) && p[..n] != q[..n]
  }

  ghost predicate Collides(p: ByteString, q: ByteString) {
    exists n :: FoldsTogether(p, q, n)
  }

  /** Two entries may appear together, in either order. */
  ghost predicate Compatible(a: Entry, b: Entry) {
    && a.path != b.path
    && !Collides(a.path, b.path)
    && (IsAncestor(a.path, b.path) ==> a.directory)
    && (IsAncestor(b.path, a.path) ==> b.directory)
  }

  ghost predicate AllCompatible(entries: seq<Entry>) {
    forall i, j :: 0 <= i < j < |entries| ==> Compatible(entries[i], entries[j])
  }

  /** What a refusal with `code` says about the entries it names. */
  ghost predicate Clash(code: ArchiveCode, a: Entry, b: Entry) {
    match code
    case CaseFoldCollision => Collides(a.path, b.path)
    case DuplicateEntry => a.path == b.path && a.directory == b.directory
    case PathConflict =>
      || (a.path == b.path && a.directory != b.directory)
      || (IsAncestor(a.path, b.path) && !a.directory)
      || (IsAncestor(b.path, a.path) && !b.directory)
    case _ => false
  }

  lemma ClashIsIncompatible(code: ArchiveCode, a: Entry, b: Entry)
    requires Clash(code, a, b)
    ensures !Compatible(a, b)
  {
  }

  lemma CompatibleSymmetric(a: Entry, b: Entry)
    ensures Compatible(a, b) <==> Compatible(b, a)
  {
    if Collides(a.path, b.path) {
      var n :| FoldsTogether(a.path, b.path, n);
      assert FoldsTogether(b.path, a.path, n);
    }
    if Collides(b.path, a.path) {
      var n :| FoldsTogether(b.path, a.path, n);
      assert FoldsTogether(a.path, b.path, n);
    }
  }

  // The table of claims.

  datatype ClaimKind = FileClaim | DirectoryClaim | ParentClaim

  datatype Claim = Claim(exact: ByteString, kind: ClaimKind, position: nat)

  type Claims = map<ByteString, Claim>

  function KindOf(entry: Entry): ClaimKind {
    if entry.directory then DirectoryClaim else FileClaim
  }

  datatype Conflict = Conflict(code: ArchiveCode, earlier: nat)

  /** What the table says about one prefix of a new entry's path. */
  function CutConflict(claims: Claims, path: ByteString, kind: ClaimKind, n: int): Option<Conflict>
    requires IsCut(path, n)
  {
    var key := Fold(path[..n]);
    if key !in claims then None
    else
      var earlier := claims[key];
      if earlier.exact != path[..n] then Some(Conflict(CaseFoldCollision, earlier.position))
      else if n < |path| then
        if earlier.kind.FileClaim? then Some(Conflict(PathConflict, earlier.position)) else None
      else if earlier.kind.ParentClaim? && kind.DirectoryClaim? then None
      else if earlier.kind == kind then Some(Conflict(DuplicateEntry, earlier.position))
      else Some(Conflict(PathConflict, earlier.position))
  }

  function FoldedPrefixes(path: ByteString): set<ByteString> {
    set n | 0 < n <= |path| && IsCut(path, n) :: Fold(path[..n])
  }

  /** The table once `path` and its parents are claimed; a parent's key has the
      parent's length, folding being length-preserving. */
  function Claimed(claims: Claims, path: ByteString, kind: ClaimKind, position: nat): Claims {
    map key | key in claims.Keys + FoldedPrefixes(path) ::
      if key == Fold(path) then Claim(path, kind, position)
      else if key in claims then claims[key]
      else Claim(path[..Min(|key|, |path|)], ParentClaim, position)
  }

  /** A claim is a prefix of the entry at its position, and says how that entry uses it. */
  ghost predicate Backed(key: ByteString, claim: Claim, entries: seq<Entry>, i: int) {
    && 0 <= i < |entries|
    && claim.position == Saturate(i + 1)
    && Fold(claim.exact) == key
    && IsCut(entries[i].path, |claim.exact|)
    && claim.exact == entries[i].path[..|claim.exact|]
    && (claim.exact != entries[i].path ==> claim.kind == ParentClaim)
    && (claim.exact == entries[i].path ==> claim.kind == KindOf(entries[i]))
  }

  /** Whatever the table holds under `key` is some entry's claim. */
  ghost predicate BackedBySome(claims: Claims, entries: seq<Entry>, key: ByteString) {
    key in claims ==> exists i :: Backed(key, claims[key], entries, i)
  }

  /** The table's answer for a prefix of an admitted entry. */
  ghost predicate Answers(claims: Claims, entry: Entry, n: int) {
    IsCut(entry.path, n) ==>
      var key := Fold(entry.path[..n]);
      && key in claims
      && claims[key].exact == entry.path[..n]
      && (n == |entry.path| ==> claims[key].kind == KindOf(entry))
      && (n < |entry.path| ==> claims[key].kind != FileClaim)
  }

  ghost predicate AnswersAt(claims: Claims, entries: seq<Entry>, i: int, n: int) {
    0 <= i < |entries| ==> Answers(claims, entries[i], n)
  }

  /** The table holds exactly the prefixes of the admitted paths. */
  ghost predicate Represents(claims: Claims, entries: seq<Entry>) {
    && (forall key {:trigger BackedBySome(claims, entries, key)} :: BackedBySome(claims, entries, key))
    && (forall i, n {:trigger AnswersAt(claims, entries, i, n)} :: AnswersAt(claims, entries, i, n))
  }

  /** A conflict the table reports names an admitted entry that clashes, in the
      way the code says, with the new one. */
  lemma ConflictIsTrue(claims: Claims, entries: seq<Entry>, entry: Entry, n: int)
    requires Represents(claims, entries)
    requires IsCut(entry.path, n) && CutConflict(claims, entry.path, KindOf(entry), n).Some?
    ensures var conflict := CutConflict(claims, entry.path, KindOf(entry), n).value;
            exists i :: 0 <= i < |entries| && conflict.earlier == Saturate(i + 1)
                        && Clash(conflict.code, entries[i], entry)
  {
    var conflict := CutConflict(claims, entry.path, KindOf(entry), n).value;
    var key := Fold(entry.path[..n]);
    assert BackedBySome(claims, entries, key);
    var i :| Backed(key, claims[key], entries, i);
    assert |claims[key].exact| == |key| == n;
    if claims[key].exact != entry.path[..n] {
      assert FoldsTogether(entries[i].path, entry.path, n);
    }
    assert Clash(conflict.code, entries[i], entry);
  }

  /** The table reports nothing at prefix `n`, if that is a prefix of `path`. */
  predicate Silent(claims: Claims, path: ByteString, kind: ClaimKind, n: int) {
    IsCut(path, n) ==> CutConflict(claims, path, kind, n).None?
  }

  /** The table reports nothing at any prefix of `path`. */
  ghost predicate Unopposed(claims: Claims, path: ByteString, kind: ClaimKind) {
    forall n {:trigger Silent(claims, path, kind, n)} :: Silent(claims, path, kind, n)
  }

  ghost predicate NoConflict(claims: Claims, entry: Entry) {
    Unopposed(claims, entry.path, KindOf(entry))
  }

  /** The table reports `conflict` at prefix `n` and nothing at any shorter one. */
  ghost predicate FirstConflict(claims: Claims, path: ByteString, kind: ClaimKind, n: int, conflict: Conflict) {
    && IsCut(path, n)
    && CutConflict(claims, path, kind, n) == Some(conflict)
    && forall m {:trigger Silent(claims, path, kind, m)} :: m < n ==> Silent(claims, path, kind, m)
  }

  /** `conflict` is the outermost one the table reports for `path`. */
  ghost predicate Reports(claims: Claims, path: ByteString, kind: ClaimKind, conflict: Conflict) {
    exists n :: FirstConflict(claims, path, kind, n, conflict)
  }

  /** When the table reports nothing, the new entry is compatible with every admitted one. */
  lemma SilenceIsCompatible(claims: Claims, entries: seq<Entry>, entry: Entry, i: int)
    requires Represents(claims, entries) && NoConflict(claims, entry)
    requires 0 <= i < |entries| && entries[i].path != [] && entry.path != []
    ensures Compatible(entries[i], entry)
  {
    var p, q := entries[i].path, entry.path;
    assert IsCut(p, |p|) && IsCut(q, |q|);
    assert p[..|p|] == p && q[..|q|] == q;
    assert AnswersAt(claims, entries, i, |p|);
    assert Silent(claims, q, KindOf(entry), |q|);
    forall n ensures !FoldsTogether(p, q, n) {
      assert AnswersAt(claims, entries, i, n) && Silent(claims, q, KindOf(entry), n);
    }
    if IsAncestor(p, q) {
      assert IsCut(q, |p|);
      assert Silent(claims, q, KindOf(entry), |p|);
    }
    if IsAncestor(q, p) {
      assert IsCut(p, |q|);
      assert AnswersAt(claims, entries, i, |q|);
    }
  }

  lemma ClaimedKeepsBacking(claims: Claims, entries: seq<Entry>, entry: Entry, key: ByteString)
    requires Represents(claims, entries) && entry.path != []
    requires key in Claimed(claims, entry.path, KindOf(entry), Saturate(|entries| + 1))
    ensures var after := Claimed(claims, entry.path, KindOf(entry), Saturate(|entries| + 1));
            exists i :: Backed(key, after[key], entries + [entry], i)
  {
    var path := entry.path;
    var after := Claimed(claims, path, KindOf(entry), Saturate(|entries| + 1));
    var all := entries + [entry];
    assert path[..|path|] == path;
    if key == Fold(path) {
      assert Backed(key, after[key], all, |entries|);
    } else if key in claims {
      assert BackedBySome(claims, entries, key);
      var i :| Backed(key, claims[key], entries, i);
      assert all[i] == entries[i];
      assert Backed(key, after[key], all, i);
    } else {
      var n :| 0 < n <= |path| && IsCut(path, n) && key == Fold(path[..n]);
      assert |key| == n;
      assert Backed(key, after[key], all, |entries|);
    }
  }

  lemma ClaimedKeepsAnswers(claims: Claims, entries: seq<Entry>, entry: Entry, i: int, n: int)
    requires Represents(claims, entries) && NoConflict(claims, entry) && entry.path != []
    requires 0 <= i < |entries| && IsCut(entries[i].path, n)
    requires Compatible(entries[i], entry)
    ensures Answers(Claimed(claims, entry.path, KindOf(entry), Saturate(|entries| + 1)), entries[i], n)
  {
    var p, path := entries[i].path, entry.path;
    var key := Fold(p[..n]);
    assert AnswersAt(claims, entries, i, n);
    assert path[..|path|] == path && IsCut(path, |path|);
    if key == Fold(path) {
      assert n == |path|;
      assert Silent(claims, path, KindOf(entry), n);
      assert claims[key].exact == path;
    }
  }

  lemma ClaimedAnswersNew(claims: Claims, entry: Entry, position: nat, n: int)
    requires NoConflict(claims, entry)
    requires IsCut(entry.path, n)
    ensures Answers(Claimed(claims, entry.path, KindOf(entry), position), entry, n)
  {
    var path := entry.path;
    var key := Fold(path[..n]);
    assert key in FoldedPrefixes(path);
    assert |key| == n;
    if n == |path| {
      assert path[..n] == path;
    } else {
      assert |Fold(path)| != n;
      assert Silent(claims, path, KindOf(entry), n);
    }
  }

  /** Claiming an entry nothing conflicts with extends what the table represents. */
  lemma ClaimedRepresents(claims: Claims, entries: seq<Entry>, entry: Entry)
    requires Represents(claims, entries) && NoConflict(claims, entry) && entry.path != []
    requires forall i :: 0 <= i < |entries| ==> Compatible(entries[i], entry)
    ensures Represents(Claimed(claims, entry.path, KindOf(entry), Saturate(|entries| + 1)), entries + [entry])
  {
    var position := Saturate(|entries| + 1);
    var after := Claimed(claims, entry.path, KindOf(entry), position);
    var all := entries + [entry];
    forall key ensures BackedBySome(after, all, key) {
      if key in after {
        ClaimedKeepsBacking(claims, entries, entry, key);
      }
    }
    forall i, n ensures AnswersAt(after, all, i, n) {
      if 0 <= i < |all| && IsCut(all[i].path, n) {
        if i < |entries| {
          ClaimedKeepsAnswers(claims, entries, entry, i, n);
        } else {
          ClaimedAnswersNew(claims, entry, position, n);
        }
      }
    }
  }
}
