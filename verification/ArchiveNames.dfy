/** Entry names an archive may carry (`gateway-config/src/archive.rs`, `admit_name`). */
module ArchiveNames {
  import opened Bytes
  import opened Results
  import Utf8

  datatype ArchiveLimits = ArchiveLimits(
    maxEntries: U64,
    maxPathBytes: U64,
    maxSegmentBytes: U64,
    maxDepth: U64,
    maxEntryBytes: U64,
    maxTotalBytes: U64,
    maxExpansionRatio: U64,
    ratioFloorBytes: U64)

  datatype ArchiveCode =
    | TooManyEntries | NameTooLong | PathTooDeep | InvalidName | AbsolutePath
    | EntryOutsideRoot | AlternateDataStream | ReservedName | DuplicateEntry
    | CaseFoldCollision | PathConflict | SymlinkEntry | HardLinkEntry
    | SpecialEntry | UnsupportedEntry | DirectoryHasData | EntryTooLarge
    | TotalTooLarge | ExpansionRatioExceeded | DeclaredSizeExceeded
    | Truncated | ReadFailed | WriteFailed

  const SEPARATOR: set<Byte> := {SLASH}
  const WINDOWS_SEPARATORS: set<Byte> := {SLASH, BACKSLASH}

  function Segments(path: ByteString): (segments: seq<ByteString>)
    ensures |segments| >= 1
  {
    Split(path, SEPARATOR)
  }

  predicate IsNameByte(b: Byte) {
    IsAlphanumeric(b) || b == DOT || b == 0x5F || b == 0x2D
  }

  /** `^[A-Za-z0-9][A-Za-z0-9._-]*$`, not ending in `.`. */
  predicate IsPortableSegment(segment: ByteString) {
    && segment != []
    && IsAlphanumeric(segment[0])
    && (forall b <- segment :: IsNameByte(b))
    && segment[|segment| - 1] != DOT
  }

  /** The stem before the first `.` names a device in any letter case. */
  predicate IsWindowsDeviceName(segment: ByteString) { IsDeviceStem(Fold(Split(segment, {DOT})[0])) }

  predicate IsDeviceStem(stem: ByteString) {
    || stem == [0x63, 0x6F, 0x6E]                                          // con
    || stem == [0x70, 0x72, 0x6E]                                          // prn
    || stem == [0x61, 0x75, 0x78]                                          // aux
    || stem == [0x6E, 0x75, 0x6C]                                          // nul
    || (|stem| == 4 && stem[..3] == [0x63, 0x6F, 0x6D] && IsDigit(stem[3])) // com0-9
    || (|stem| == 4 && stem[..3] == [0x6C, 0x70, 0x74] && IsDigit(stem[3])) // lpt0-9
  }

  predicate IsLetterOrDigit(b: Byte) {
    'a' as int <= b <= 'z' as int || 'A' as int <= b <= 'Z' as int || '0' as int <= b <= '9' as int
  }

  /** The grammar of a segment, by its characters. */
  lemma PortableSegmentExact(segment: ByteString)
    ensures IsPortableSegment(segment) <==>
            && segment != [] && IsLetterOrDigit(segment[0]) && segment[|segment| - 1] != '.' as int
            && forall b <- segment :: IsLetterOrDigit(b) || b in Ascii("._-")
  {
    var marks := Ascii("._-");
    assert marks[0] == 0x2E && marks[1] == 0x5F && marks[2] == 0x2D;
    assert forall b: Byte :: IsNameByte(b) <==> IsLetterOrDigit(b) || b in marks;
  }

  /** The device names, in capitals. */
  predicate IsDevice(name: string) {
    || name in {"CON", "PRN", "AUX", "NUL"}
    || (|name| == 4 && name[..3] in {"COM", "LPT"} && name[3] in "0123456789")
  }

  /** A device's name in some letter case, with no extension. */
  ghost predicate SpellsDevice(stem: ByteString) {
    exists name: string :: IsDevice(name) && SpelledAs(stem, name)
  }

  predicate SpelledAs(stem: ByteString, name: string) {
    |stem| == |name| && forall i :: 0 <= i < |name| ==> name[i] as int < 128 && SameLetter(stem[i], name[i] as int)
  }

  lemma SpelledFolds(stem: ByteString, name: string)
    requires forall i :: 0 <= i < |name| ==> name[i] as int < 128
    ensures SpelledAs(stem, name) <==> Fold(stem) == Fold(Ascii(name))
  {
    FoldsAlike(stem, Ascii(name));
  }

  lemma DeviceFolds(name: string)
    requires IsDevice(name)
    ensures (forall i :: 0 <= i < |name| ==> name[i] as int < 128) && IsDeviceStem(Fold(Ascii(name)))
    ensures forall b <- Fold(Ascii(name)) :: b != DOT
  {
    if |name| == 4 {
      var k :| 0 <= k < 10 && name[3] == "0123456789"[k];
      assert name[3] as int == 0x30 + k;
      assert name[0] == name[..3][0] && name[1] == name[..3][1] && name[2] == name[..3][2];
    }
    assert forall i :: 0 <= i < |name| ==> name[i] as int < 128;
    var stem := Fold(Ascii(name));
    assert |stem| == |name| && forall i :: 0 <= i < |name| ==> stem[i] == FoldByte(name[i] as int);
    assert |name| == 4 ==> stem[..3] == [stem[0], stem[1], stem[2]];
    assert |name| == 3 ==> stem == [stem[0], stem[1], stem[2]];
  }

  lemma FoldedWord(stem: ByteString) returns (name: string)
    requires |stem| == 3 && IsDeviceStem(stem)
    ensures name in {"CON", "PRN", "AUX", "NUL"} && Fold(Ascii(name)) == stem
  {
    name := if stem[0] == 0x63 then "CON" else if stem[0] == 0x70 then "PRN"
    else if stem[0] == 0x61 then "AUX" else "NUL";
  }

  lemma FoldedPort(stem: ByteString) returns (name: string)
    requires |stem| == 4 && IsDeviceStem(stem)
    ensures IsDevice(name) && (forall i :: 0 <= i < |name| ==> name[i] as int < 128) && Fold(Ascii(name)) == stem
  {
    var word := if stem[..3] == [0x63, 0x6F, 0x6D] then "COM" else "LPT";
    assert Fold(Ascii(word)) == stem[..3];
    var digit := ["0123456789"[stem[3] - 0x30]];
    assert Fold(Ascii(digit)) == [stem[3]];
    name := word + digit;
    FoldsByParts(word, digit);
    assert stem == stem[..3] + [stem[3]];
    assert name[..3] == word && name[3] == digit[0];
  }

  lemma FoldsByParts(a: string, b: string)
    requires forall i :: 0 <= i < |a| ==> a[i] as int < 128
    requires forall i :: 0 <= i < |b| ==> b[i] as int < 128
    ensures Fold(Ascii(a + b)) == Fold(Ascii(a)) + Fold(Ascii(b))
  {
  }

  lemma FoldedDevice(stem: ByteString) returns (name: string)
    requires IsDeviceStem(stem)
    ensures IsDevice(name) && (forall i :: 0 <= i < |name| ==> name[i] as int < 128) && Fold(Ascii(name)) == stem
  {
    hide Fold, Ascii;
    if |stem| == 3 {
      name := FoldedWord(stem);
    } else {
      name := FoldedPort(stem);
    }
  }

  lemma DeviceStems(stem: ByteString)
    ensures IsDeviceStem(Fold(stem)) <==> SpellsDevice(stem)
    ensures SpellsDevice(stem) ==> DOT !in stem
  {
    hide IsDevice, IsDeviceStem, SpelledAs;
    if IsDeviceStem(Fold(stem)) {
      var name := FoldedDevice(Fold(stem));
      SpelledFolds(stem, name);
    }
    if name: string :| IsDevice(name) && SpelledAs(stem, name) {
      DeviceFolds(name);
      SpelledFolds(stem, name);
      forall i | 0 <= i < |stem| ensures stem[i] != DOT {
        assert Fold(stem)[i] == FoldByte(stem[i]) && Fold(stem)[i] in Fold(stem);
      }
    }
  }

  /** A segment is a device's name exactly when it spells one in some letter case,
      alone or before a `.`. */
  lemma DeviceNamesExactly(segment: ByteString)
    ensures IsWindowsDeviceName(segment) <==>
            exists n | 0 <= n <= |segment| ::
              SpellsDevice(segment[..n]) && (n < |segment| ==> segment[n] == '.' as int)
  {
    hide IsDeviceStem, Split, Fold, SpellsDevice;
    SplitStep(segment, {DOT});
    var first := Split(segment, {DOT})[0];
    DeviceStems(first);
    assert first == segment[..|first|];
    if n :| 0 <= n <= |segment| && SpellsDevice(segment[..n]) && (n < |segment| ==> segment[n] == '.' as int) {
      DeviceStems(segment[..n]);
      assert forall i :: 0 <= i < n ==> segment[i] == segment[..n][i] && segment[i] in segment[..n];
      assert forall i :: 0 <= i < |first| ==> segment[i] == first[i] && segment[i] in first;
      assert n == |first|;
    }
  }

  predicate HasDrivePrefix(name: ByteString) {
    |name| >= 2 && (IsUpper(name[0]) || IsLower(name[0])) && name[1] == COLON
  }

  /** Why the first offending segment is refused. */
  function SegmentsCode(segments: seq<ByteString>, limits: ArchiveLimits): Option<ArchiveCode> {
    if segments == [] then None
    else if |segments[0]| > limits.maxSegmentBytes then Some(NameTooLong)
    else if IsWindowsDeviceName(segments[0]) then Some(ReservedName)
    else if !IsPortableSegment(segments[0]) then Some(InvalidName)
    else SegmentsCode(segments[1..], limits)
  }

  /** A directory's name may carry one trailing `/`. */
  function Stripped(name: ByteString, directory: bool): ByteString {
    if directory && name != [] && name[|name| - 1] == SLASH then name[..|name| - 1] else name
  }

  function AdmitName(raw: ByteString, directory: bool, limits: ArchiveLimits): Result<ByteString, ArchiveCode> {
    if |raw| > limits.maxPathBytes then Err(NameTooLong)
    else if !Utf8.IsUtf8(raw) then Err(InvalidName)
    else
      var name := Stripped(raw, directory);
      if name == [] then Err(InvalidName)
      else if name[0] in WINDOWS_SEPARATORS || HasDrivePrefix(name) then Err(AbsolutePath)
      else if [DOT, DOT] in Split(name, WINDOWS_SEPARATORS) then Err(EntryOutsideRoot)
      else if COLON in name then Err(AlternateDataStream)
      else if |Segments(name)| > limits.maxDepth then Err(PathTooDeep)
      else match SegmentsCode(Segments(name), limits)
        case Some(code) => Err(code)
        case None => Ok(name)
  }

  /** The grammar a name must meet, without the order the code checks it in. */
  predicate IsPortablePath(path: ByteString) {
    forall segment <- Segments(path) :: IsPortableSegment(segment) && !IsWindowsDeviceName(segment)
  }

  predicate WithinBounds(raw: ByteString, path: ByteString, limits: ArchiveLimits) {
    && |raw| <= limits.maxPathBytes
    && |Segments(path)| <= limits.maxDepth
    && forall segment <- Segments(path) :: |segment| <= limits.maxSegmentBytes
  }

  lemma {:induction false} SegmentsCodeNone(segments: seq<ByteString>, limits: ArchiveLimits)
    ensures SegmentsCode(segments, limits).None? <==>
            forall segment <- segments ::
              |segment| <= limits.maxSegmentBytes && IsPortableSegment(segment) && !IsWindowsDeviceName(segment)
  {
    hide IsPortableSegment, IsWindowsDeviceName;
    if segments != [] {
      SegmentsCodeNone(segments[1..], limits);
      assert segments == [segments[0]] + segments[1..];
    }
  }

  /** A portable path is built from name bytes and `/`, and starts with a letter or digit. */
  lemma PortablePathBytes(path: ByteString)
    requires IsPortablePath(path)
    ensures path != [] && IsAlphanumeric(path[0])
    ensures forall i :: 0 <= i < |path| ==> IsNameByte(path[i]) || path[i] == SLASH
  {
    SplitStep(path, SEPARATOR);
    assert Segments(path)[0] in Segments(path);
    forall i | 0 <= i < |path| && path[i] != SLASH
      ensures IsNameByte(path[i])
    {
      SplitCovers(path, SEPARATOR, i);
    }
  }

  lemma PortablePathChecks(path: ByteString)
    requires IsPortablePath(path)
    ensures path != [] && path[0] !in WINDOWS_SEPARATORS && COLON !in path && !HasDrivePrefix(path)
    ensures Split(path, WINDOWS_SEPARATORS) == Segments(path)
    ensures [DOT, DOT] !in Segments(path)
    ensures Utf8.IsUtf8(path) && Utf8.IsUtf8(path + [SLASH])
  {
    PortablePathBytes(path);
    SplitSameSeparators(path, SEPARATOR, WINDOWS_SEPARATORS);
    Utf8.AsciiIsUtf8(path);
    Utf8.AsciiIsUtf8(path + [SLASH]);
  }

  /** `admit_name` accepts exactly the names within the bounds whose every
      segment is portable and no device: the earlier, more specific checks only
      choose which code a refusal carries. */
  lemma AdmitNameExact(raw: ByteString, directory: bool, limits: ArchiveLimits)
    ensures var path := Stripped(raw, directory);
            && (AdmitName(raw, directory, limits).Ok? <==>
                  IsPortablePath(path) && WithinBounds(raw, path, limits))
            && (AdmitName(raw, directory, limits).Ok? ==> AdmitName(raw, directory, limits) == Ok(path))
  {
    hide IsPortableSegment, IsWindowsDeviceName, Split, SegmentsCode, Utf8.IsUtf8;
    var path := Stripped(raw, directory);
    SegmentsCodeNone(Segments(path), limits);
    if IsPortablePath(path) {
      PortablePathChecks(path);
      assert Utf8.IsUtf8(raw) by {
        assert raw == path || raw == path + [SLASH];
      }
      assert !([DOT, DOT] in Split(path, WINDOWS_SEPARATORS));
      assert AdmitName(raw, directory, limits).Ok? <==> WithinBounds(raw, path, limits);
    }
  }

  lemma PortableEnd(path: ByteString)
    requires IsPortablePath(path)
    ensures path != [] && path[|path| - 1] != SLASH
  {
    PortablePathBytes(path);
    if path[|path| - 1] == SLASH {
      var init := path[..|path| - 1];
      assert path == init + [SLASH];
      TrailingIsNotPortable(init);
    }
  }

  lemma TrailingIsNotPortable(init: ByteString)
    ensures !IsPortablePath(init + [SLASH])
  {
    SplitTrailing(init, SEPARATOR, SLASH);
    var segments := Segments(init + [SLASH]);
    assert segments[|segments| - 1] == [];
    assert [] in segments && !IsPortableSegment([]);
  }

  /** The path admitted is the name, or a directory's without its trailing `/`. */
  lemma AdmittedPath(raw: ByteString, directory: bool, limits: ArchiveLimits, path: ByteString)
    ensures AdmitName(raw, directory, limits) == Ok(path) <==>
            && IsPortablePath(path) && WithinBounds(raw, path, limits)
            && (raw == path || (directory && raw == path + Ascii("/")))
  {
    hide AdmitName, WithinBounds, IsPortablePath;
    AdmitNameExact(raw, directory, limits);
    assert Ascii("/") == [SLASH];
    if IsPortablePath(path) {
      PortableEnd(path);
    }
  }

  /** What a code says of the segment it is reported for. */
  predicate IsSegmentFault(code: ArchiveCode, segment: ByteString, limits: ArchiveLimits) {
    match code
    case NameTooLong => |segment| > limits.maxSegmentBytes
    case ReservedName => IsWindowsDeviceName(segment)
    case InvalidName => !IsPortableSegment(segment)
    case _ => false
  }

  lemma {:induction false} SegmentsCodeIsTrue(segments: seq<ByteString>, limits: ArchiveLimits)
    requires SegmentsCode(segments, limits).Some?
    ensures exists segment <- segments :: IsSegmentFault(SegmentsCode(segments, limits).value, segment, limits)
  {
    hide IsPortableSegment, IsWindowsDeviceName;
    if !IsSegmentFault(SegmentsCode(segments, limits).value, segments[0], limits) {
      SegmentsCodeIsTrue(segments[1..], limits);
    }
  }

  /** A refused name has the fault its code says, read with both separators
      where Windows would. */
  lemma NameRefusalIsTrue(raw: ByteString, directory: bool, limits: ArchiveLimits)
    requires AdmitName(raw, directory, limits).Err?
    ensures var name, code := Stripped(raw, directory), AdmitName(raw, directory, limits).error;
            || (code.AbsolutePath? && WindowsLocation(name) == Elsewhere)
            || (code.EntryOutsideRoot? && [DOT, DOT] in Split(name, WINDOWS_SEPARATORS))
            || (code.AlternateDataStream? && COLON in name)
            || (code.PathTooDeep? && |Segments(name)| > limits.maxDepth)
            || (code.NameTooLong? && |raw| > limits.maxPathBytes)
            || (code.InvalidName? && (!Utf8.IsUtf8(raw) || name == []))
            || exists segment <- Segments(name) :: IsSegmentFault(code, segment, limits)
  {
    hide IsSegmentFault, Utf8.IsUtf8, Split;
    var segments := Segments(Stripped(raw, directory));
    if SegmentsCode(segments, limits).Some? {
      SegmentsCodeIsTrue(segments, limits);
    }
  }

  /** The first segment with any fault, and its first: too long before reserved,
      reserved before invalid. */
  ghost predicate FirstFaultAt(code: ArchiveCode, segments: seq<ByteString>, limits: ArchiveLimits, k: int) {
    && 0 <= k < |segments| && IsSegmentFault(code, segments[k], limits)
    && (code != NameTooLong ==> !IsSegmentFault(NameTooLong, segments[k], limits))
    && (code == InvalidName ==> !IsSegmentFault(ReservedName, segments[k], limits))
    && forall j :: 0 <= j < k ==> IsFaultless(segments[j], limits)
  }

  predicate IsFaultless(segment: ByteString, limits: ArchiveLimits) {
    |segment| <= limits.maxSegmentBytes && IsPortableSegment(segment) && !IsWindowsDeviceName(segment)
  }

  ghost predicate IsFirstFault(code: ArchiveCode, segments: seq<ByteString>, limits: ArchiveLimits) {
    exists k :: FirstFaultAt(code, segments, limits, k)
  }

  lemma {:induction false} SegmentsCodeIs(segments: seq<ByteString>, code: ArchiveCode, limits: ArchiveLimits)
    ensures SegmentsCode(segments, limits) == Some(code) <==> IsFirstFault(code, segments, limits)
  {
    hide IsPortableSegment, IsWindowsDeviceName;
    if segments != [] {
      SegmentsCodeIs(segments[1..], code, limits);
      if k :| FirstFaultAt(code, segments, limits, k) {
        assert k > 0 ==> FirstFaultAt(code, segments[1..], limits, k - 1);
      }
      if k :| FirstFaultAt(code, segments[1..], limits, k) {
        assert IsFaultless(segments[0], limits) ==> FirstFaultAt(code, segments, limits, k + 1);
      }
      assert IsSegmentFault(code, segments[0], limits) && SegmentsCode(segments, limits) == Some(code) ==>
          FirstFaultAt(code, segments, limits, 0);
    }
  }

  /** Rooted with either separator, or on a drive. */
  predicate IsAbsolute(name: ByteString) {
    || (|name| >= 1 && name[0] in Ascii("/\\"))
    || (|name| >= 2 && name[1] == ':' as int && IsLetterOrDigit(name[0]) && !('0' as int <= name[0] <= '9' as int))
  }

  ghost predicate Climbs(name: ByteString) { Ascii("..") in Split(name, WINDOWS_SEPARATORS) }

  /** Within the bound on its bytes, a text, and not empty. */
  ghost predicate HasTextForm(raw: ByteString, name: ByteString, limits: ArchiveLimits) {
    |raw| <= limits.maxPathBytes && Utf8.IsUtf8(raw) && name != []
  }

  /** The code is the first fault's: of the whole name, as Windows would read it, and
      then of its segments. */
  lemma NameCodes(raw: ByteString, directory: bool, limits: ArchiveLimits, code: ArchiveCode)
    ensures var name := Stripped(raw, directory);
            var text, absolute, climbs := HasTextForm(raw, name, limits), IsAbsolute(name), Climbs(name);
            var stream, deep := ':' as int in name, |Segments(name)| > limits.maxDepth;
            AdmitName(raw, directory, limits) == Err(code) <==>
            || (code == NameTooLong && |raw| > limits.maxPathBytes)
            || (code == InvalidName && |raw| <= limits.maxPathBytes && !text)
            || (code == AbsolutePath && text && absolute)
            || (code == EntryOutsideRoot && text && !absolute && climbs)
            || (code == AlternateDataStream && text && !absolute && !climbs && stream)
            || (code == PathTooDeep && text && !absolute && !climbs && !stream && deep)
            || (&& text && !absolute && !climbs && !stream && !deep
                && IsFirstFault(code, Segments(name), limits))
  {
    hide IsFirstFault, SegmentsCode, Utf8.IsUtf8, Split;
    var name := Stripped(raw, directory);
    SegmentsCodeIs(Segments(name), code, limits);
    assert Ascii("..") == [DOT, DOT];
    assert Ascii("/\\") == [SLASH, BACKSLASH];
  }

  // What a name means to the two families of filesystem.

  datatype Location = Elsewhere | Beneath(segments: seq<ByteString>)

  /** Walks POSIX components from `base`: empty and `.` components stay, `..` climbs. */
  function WalkPosix(components: seq<ByteString>, base: seq<ByteString>): Location
    decreases |components|
  {
    if components == [] then Beneath(base)
    else if components[0] == [] || components[0] == [DOT] then WalkPosix(components[1..], base)
    else if components[0] == [DOT, DOT] then
      if base == [] then Elsewhere else WalkPosix(components[1..], base[..|base| - 1])
    else WalkPosix(components[1..], base + [components[0]])
  }

  function PosixLocation(name: ByteString): Location {
    if name != [] && name[0] == SLASH then Elsewhere else WalkPosix(Split(name, SEPARATOR), [])
  }

  /** Windows drops trailing dots and spaces from a component. */
  function TrimComponent(component: ByteString): ByteString {
    if component != [] && component[|component| - 1] in {DOT, 0x20}
    then TrimComponent(component[..|component| - 1]) else component
  }

  function WalkWindows(components: seq<ByteString>, base: seq<ByteString>): Location
    decreases |components|
  {
    if components == [] then Beneath(base)
    else if components[0] == [] || components[0] == [DOT] then WalkWindows(components[1..], base)
    else if components[0] == [DOT, DOT] then
      if base == [] then Elsewhere else WalkWindows(components[1..], base[..|base| - 1])
    else if IsWindowsDeviceName(components[0]) then Elsewhere
    else WalkWindows(components[1..], base + [TrimComponent(components[0])])
  }

  /** Rooted, drive and stream names are not beneath the extraction root. */
  function WindowsLocation(name: ByteString): Location {
    if (name != [] && name[0] in WINDOWS_SEPARATORS) || COLON in name then Elsewhere
    else WalkWindows(Split(name, WINDOWS_SEPARATORS), [])
  }

  /** Components that stand for themselves: not empty, no dot segment. */
  predicate IsLiteral(component: ByteString) {
    component != [] && component != Ascii(".") && component != Ascii("..")
  }

  /** On Windows, not a device either, and not ending in a dot or a space. */
  predicate IsWindowsLiteral(component: ByteString) {
    && IsLiteral(component) && !IsWindowsDeviceName(component)
    && component[|component| - 1] != '.' as int && component[|component| - 1] != ' ' as int
  }

  lemma Dots()
    ensures Ascii(".") == [DOT] && Ascii("..") == [DOT, DOT]
  {
  }

  /** A walk keeps every component exactly when each stands for itself. */
  lemma {:induction false} WalkPosixExact(components: seq<ByteString>, base: seq<ByteString>)
    ensures WalkPosix(components, base) == Beneath(base + components) <==> forall c <- components :: IsLiteral(c)
    ensures WalkPosix(components, base).Beneath? ==> |WalkPosix(components, base).segments| <= |base| + |components|
    decreases |components|
  {
    Dots();
    if components == [] {
      assert base + components == base;
    } else {
      var first, rest := components[0], components[1..];
      assert components == [first] + rest;
      assert first in components && forall c :: c in components <==> c == first || c in rest;
      assert base + components == base + [first] + rest;
      if first == [] || first == [DOT] {
        WalkPosixExact(rest, base);
      } else if first != [DOT, DOT] {
        WalkPosixExact(rest, base + [first]);
      } else if base != [] {
        WalkPosixExact(rest, base[..|base| - 1]);
      }
    }
  }

  lemma {:induction false} TrimKeeps(component: ByteString)
    ensures |TrimComponent(component)| <= |component|
    ensures TrimComponent(component) == component <==>
            component == [] || (component[|component| - 1] != '.' as int && component[|component| - 1] != ' ' as int)
  {
    if component != [] {
      TrimKeeps(component[..|component| - 1]);
    }
  }

  lemma {:induction false} WalkWindowsExact(components: seq<ByteString>, base: seq<ByteString>)
    ensures WalkWindows(components, base) == Beneath(base + components) <==>
            forall c <- components :: IsWindowsLiteral(c)
    ensures WalkWindows(components, base).Beneath? ==> |WalkWindows(components, base).segments| <= |base| + |components|
    ensures WalkWindows(components, base).Beneath? && |WalkWindows(components, base).segments| == |base| + |components|
            ==> base <= WalkWindows(components, base).segments
    decreases |components|
  {
    hide IsWindowsDeviceName, TrimComponent;
    Dots();
    if components == [] {
      assert base + components == base;
    } else {
      var first, rest := components[0], components[1..];
      assert components == [first] + rest;
      assert first in components && forall c :: c in components <==> c == first || c in rest;
      assert base + components == base + [first] + rest;
      if first == [] || first == [DOT] {
        WalkWindowsExact(rest, base);
      } else if first == [DOT, DOT] {
        if base != [] {
          WalkWindowsExact(rest, base[..|base| - 1]);
        }
      } else if !IsWindowsDeviceName(first) {
        TrimKeeps(first);
        WalkWindowsExact(rest, base + [TrimComponent(first)]);
        KeepsFirst(base, TrimComponent(first), first, rest, WalkWindows(components, base));
      }
    }
  }

  lemma KeepsFirst(
    base: seq<ByteString>, trimmed: ByteString, first: ByteString, rest: seq<ByteString>, location: Location)
    requires location.Beneath? && |location.segments| == |base| + 1 + |rest| ==> base + [trimmed] <= location.segments
    ensures location == Beneath(base + [first] + rest) ==> trimmed == first
    ensures location.Beneath? && |location.segments| == |base| + 1 + |rest| ==> base <= location.segments
  {
    if location == Beneath(base + [first] + rest) {
      assert location.segments[|base|] == first;
      assert (base + [trimmed])[|base|] == trimmed;
    }
  }

  /** A name means exactly its components when it is not rooted and each stands for itself. */
  lemma MeansItself(name: ByteString)
    ensures PosixLocation(name) == Beneath(Split(name, SEPARATOR)) <==>
            (name == [] || name[0] != '/' as int) && forall c <- Split(name, SEPARATOR) :: IsLiteral(c)
    ensures WindowsLocation(name) == Beneath(Split(name, WINDOWS_SEPARATORS)) <==>
            && (name == [] || name[0] !in Ascii("/\\")) && ':' as int !in name
            && forall c <- Split(name, WINDOWS_SEPARATORS) :: IsWindowsLiteral(c)
  {
    assert Ascii("/\\") == [SLASH, BACKSLASH];
    hide Split, IsLiteral, IsWindowsLiteral, WalkPosix, WalkWindows, Ascii;
    WalkPosixExact(Split(name, SEPARATOR), []);
    WalkWindowsExact(Split(name, WINDOWS_SEPARATORS), []);
    assert [] + Split(name, SEPARATOR) == Split(name, SEPARATOR);
    assert [] + Split(name, WINDOWS_SEPARATORS) == Split(name, WINDOWS_SEPARATORS);
  }

  lemma {:induction false} PortableWalk(components: seq<ByteString>, base: seq<ByteString>, trailing: bool)
    requires forall c <- components :: IsPortableSegment(c) && !IsWindowsDeviceName(c)
    ensures var walked := components + if trailing then [[]] else [];
            && WalkPosix(walked, base) == Beneath(base + components)
            && WalkWindows(walked, base) == Beneath(base + components)
    decreases |components|
  {
    var walked := components + if trailing then [[]] else [];
    if components == [] {
      assert base + components == base;
      assert walked == [] || (walked == [[]] && walked[1..] == []);
    } else {
      assert walked[1..] == components[1..] + if trailing then [[]] else [];
      assert base + components == (base + [components[0]]) + components[1..];
      var first := components[0];
      assert first in components && first[|first| - 1] in first;
      assert TrimComponent(first) == first;
      PortableWalk(components[1..], base + [components[0]], trailing);
    }
  }

  /** An accepted name means one path everywhere: POSIX and Windows resolution,
      of the name as the archive spells it, both reach exactly its admitted
      segments, at least one of them, beneath the extraction root. */
  lemma AdmittedNameMeansOnePath(raw: ByteString, directory: bool, limits: ArchiveLimits)
    requires AdmitName(raw, directory, limits).Ok?
    ensures var path := AdmitName(raw, directory, limits).value;
            && PosixLocation(raw) == Beneath(Segments(path))
            && WindowsLocation(raw) == Beneath(Segments(path))
  {
    hide IsPortableSegment, IsWindowsDeviceName, Split, AdmitName, WithinBounds, WalkPosix, WalkWindows;
    AdmitNameExact(raw, directory, limits);
    var path := Stripped(raw, directory);
    PortablePathChecks(path);
    PortableWalk(Segments(path), [], raw != path);
    assert [] + Segments(path) == Segments(path);
    if raw == path {
      assert Segments(path) + [] == Segments(path);
    } else {
      assert raw == path + [SLASH];
      SplitTrailing(path, SEPARATOR, SLASH);
      SplitTrailing(path, WINDOWS_SEPARATORS, SLASH);
    }
  }
}
