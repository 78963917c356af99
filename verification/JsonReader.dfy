/** An independent reader of JSON texts, RFC 8259, and what it makes of canonical
    bytes. Numbers are read as exact decimals. */
module JsonReader {
  import opened Bytes
  import opened Results
  import Utf8
  import opened Utf16Order
  import opened Decimals
  import opened Doubles
  import opened JsonText
  import opened NumberLayout
  import opened JsonNumbers
  import opened CanonicalJson

  // The grammar of numbers, section 6 of RFC 8259.

  /** Zero, or digits that do not start with it. */
  predicate IsInt(s: ByteString) {
    s != [] && AllDigits(s) && (s[0] == ZERO ==> |s| == 1)
  }

  predicate IsFraction(s: ByteString) {
    s == [] || (s[0] == DOT && |s| > 1 && AllDigits(s[1..]))
  }

  predicate IsExponent(s: ByteString) {
    s == [] || ((s[0] == LETTER_E || s[0] == 0x45) && IsSignedDigits(s[1..]))
  }

  predicate IsSignedDigits(s: ByteString) {
    s != [] && var digits := if s[0] == PLUS || s[0] == MINUS then s[1..] else s; digits != [] && AllDigits(digits)
  }

  ghost predicate IsUnsigned(s: ByteString) {
    exists whole, fraction, exponent :: IsSplit(s, whole, fraction, exponent)
  }

  predicate IsSplit(s: ByteString, whole: ByteString, fraction: ByteString, exponent: ByteString) {
    s == whole + fraction + exponent && IsInt(whole) && IsFraction(fraction) && IsExponent(exponent)
  }

  ghost predicate IsJsonNumber(s: ByteString) {
    s != [] && IsUnsigned(if s[0] == MINUS then s[1..] else s)
  }

  // The grammar of values, sections 2 to 5.

  predicate IsSpace(b: Byte) { b == 0x20 || b == 0x09 || b == 0x0A || b == 0x0D }

  function SkipSpace(s: ByteString): (r: ByteString)
    ensures |r| <= |s|
    ensures s == [] || !IsSpace(s[0]) ==> r == s
  {
    if s != [] && IsSpace(s[0]) then SkipSpace(s[1..]) else s
  }

  type Reading<T> = Option<(T, ByteString)>

  function ReadWord<T>(s: ByteString, word: ByteString, value: T): Reading<T> {
    if word <= s then Some((value, s[|word|..])) else None
  }

  ghost function ReadNumberToken(s: ByteString): Reading<Tree> {
    var token := s[..Run(s)];
    if IsJsonNumber(token) then Some((NumTree(ReadNumber(Fold(token))), s[Run(s)..])) else None
  }

  function ReadString(s: ByteString): (r: Reading<Text>)
    ensures r.Some? ==> |r.value.1| < |s|
  {
    if s == [] || s[0] != QUOTE then None else ReadText(s[1..])
  }

  /** A value and what follows it. */
  ghost function ReadValue(s: ByteString): (r: Reading<Tree>)
    ensures r.Some? ==> |r.value.1| < |s|
    decreases |s|, 0
  {
    var t := SkipSpace(s);
    if t == [] then None
    else
      match KindAt(t[0])
      case NullKind => ReadWord(t, NULL_TEXT, NullTree)
      case TrueKind => ReadWord(t, TRUE_TEXT, BoolTree(true))
      case FalseKind => ReadWord(t, FALSE_TEXT, BoolTree(false))
      case NumKind => ReadNumberToken(t)
      case StrKind =>
        (match ReadString(t)
         case None => None
         case Some((text, rest)) => Some((StrTree(text), rest)))
      case ArrayKind =>
        var u := SkipSpace(t[1..]);
        if u != [] && u[0] == RIGHT_BRACKET then Some((ArrayTree([]), u[1..]))
        else
          (match ReadElements(t[1..])
           case None => None
           case Some((items, rest)) => Some((ArrayTree(items), rest)))
      case ObjectKind =>
        var u := SkipSpace(t[1..]);
        if u != [] && u[0] == RIGHT_BRACE then Some((ObjectTree(map[]), u[1..]))
        else
          (match ReadMembers(t[1..])
           case None => None
           case Some((members, rest)) => Some((ObjectTree(members), rest)))
      case NoKind => None
  }

  /** One or more values with commas between them, up to the closing bracket. */
  ghost function ReadElements(s: ByteString): (r: Reading<seq<Tree>>)
    ensures r.Some? ==> |r.value.1| < |s|
    decreases |s|, 1
  {
    match ReadValue(s)
    case None => None
    case Some((item, after)) =>
      var t := SkipSpace(after);
      if t == [] then None
      else if t[0] == RIGHT_BRACKET then Some(([item], t[1..]))
      else if t[0] != COMMA then None
      else
        match ReadElements(t[1..])
        case None => None
        case Some((items, rest)) => Some(([item] + items, rest))
  }

  /** One or more members with commas between them, up to the closing brace; of
      equal names the last counts. */
  ghost function ReadMembers(s: ByteString): (r: Reading<map<Name, Tree>>)
    ensures r.Some? ==> |r.value.1| < |s|
    decreases |s|, 1
  {
    match ReadString(SkipSpace(s))
    case None => None
    case Some((name, after)) =>
      var t := SkipSpace(after);
      if t == [] || t[0] != COLON then None
      else
        match ReadValue(t[1..])
        case None => None
        case Some((value, following)) =>
          var u := SkipSpace(following);
          if u == [] then None
          else if u[0] == RIGHT_BRACE then Some((map[name := value], u[1..]))
          else if u[0] != COMMA then None
          else
            match ReadMembers(u[1..])
            case None => None
            case Some((members, rest)) => Some((map[name := value] + members, rest))
  }

  /** A JSON text: one value, with nothing but space after it. */
  ghost function ReadJson(s: ByteString): Option<Tree> {
    match ReadValue(s)
    case None => None
    case Some((tree, rest)) => if SkipSpace(rest) == [] then Some(tree) else None
  }

  /** An escape reads as the character whose UTF-16 units its digits are. */
  lemma EscapesAreUnits(s: ByteString, c: Utf8.Scalar)
    requires |s| >= 12 && s[0] == s[6] == '\\' as int && s[1] == s[7] == 'u' as int
    ensures ReadUnicode(s) == Utf8.Decoded(c, 12) <==>
            Units(c) == [ReadHex4(s[2..]), ReadHex4(s[8..])]
    ensures ReadUnicode(s) == Utf8.Decoded(c, 6) <==> Units(c) == [ReadHex4(s[2..])]
  {
    hide ReadHex4;
    var high, low := ReadHex4(s[2..]), ReadHex4(s[8..]);
    if c >= 0x1_0000 {
      var x := c - 0x1_0000;
      assert x == x / 1024 * 1024 + x % 1024;
      assert Units(c) == [high, low] <==> Units(c)[0] == high && Units(c)[1] == low;
    }
  }

  // Canonical numbers are JSON numbers.

  lemma {:induction false} NatTextIsInt(n: nat)
    ensures IsInt(NatText(n)) && (n > 0 ==> NatText(n)[0] != ZERO)
  {
    if n >= 10 {
      NatTextIsInt(n / 10);
    }
  }

  lemma LayoutIsUnsigned(digits: ByteString, n: int)
    requires digits != [] && AllDigits(digits) && digits[0] != ZERO
    ensures IsUnsigned(Layout(digits, n))
  {
    hide Scientific;
    var text := Layout(digits, n);
    if |digits| <= n <= 21 {
      assert text == text + [] + [];
      assert IsSplit(text, text, [], []);
    } else if 0 < n <= 21 {
      var fraction := [DOT] + digits[n..];
      assert fraction[1..] == digits[n..] && text == digits[..n] + fraction + [];
      assert IsSplit(text, digits[..n], fraction, []);
    } else if -6 < n <= 0 {
      ZeroLayoutShape(digits, n);
      var fraction := [DOT] + (Zeros(-n) + digits);
      assert fraction[1..] == Zeros(-n) + digits && text == [ZERO] + fraction + [];
      assert IsSplit(text, [ZERO], fraction, []);
    } else {
      ScientificIsUnsigned(digits, n);
    }
  }

  lemma ScientificIsUnsigned(digits: ByteString, n: int)
    requires digits != [] && AllDigits(digits) && digits[0] != ZERO
    ensures IsUnsigned(Scientific(digits, n))
  {
    hide NatText;
    var fraction := if |digits| > 1 then [DOT] + digits[1..] else [];
    var exponent := [LETTER_E] + ExponentText(n - 1);
    assert fraction != [] ==> fraction[1..] == digits[1..];
    assert exponent[1..] == ExponentText(n - 1);
    var absolute := if n >= 1 then n - 1 else 1 - n;
    assert ExponentText(n - 1)[1..] == NatText(absolute);
    assert Scientific(digits, n) == digits[..1] + fraction + exponent;
    assert IsSplit(Scientific(digits, n), digits[..1], fraction, exponent);
  }

  lemma NatTextIsUnsigned(n: nat)
    ensures IsUnsigned(NatText(n))
  {
    NatTextIsInt(n);
    assert NatText(n) == NatText(n) + [] + [];
    assert IsSplit(NatText(n), NatText(n), [], []);
  }

  lemma UnsignedStart(s: ByteString)
    requires IsUnsigned(s)
    ensures s != [] && s[0] != MINUS
  {
    var whole, fraction, exponent :| IsSplit(s, whole, fraction, exponent);
    assert s[0] == whole[0];
  }

  lemma MagnitudeIsUnsigned(f: Formatter, d: Double)
    requires Faithful(f) && IsDouble(d)
    ensures MagnitudeText(f, d).Some? && IsUnsigned(MagnitudeText(f, d).value)
  {
    hide Faithful, Layout, ChosenDigits, NatText, TrimZeros, IsUnsigned;
    ChosenIsEcmaScript(f, d);
    var chosen := ChosenDigits(f, d);
    NatTextIsInt(chosen.s);
    LayoutIsUnsigned(NatText(chosen.s), chosen.q + |NatText(chosen.s)|);
  }

  /** The text of an accepted number is a JSON number. */
  lemma NumberTextIsJson(f: Formatter, number: Number)
    requires Faithful(f) && Accepted(f, number)
    ensures IsJsonNumber(NumberText(f, number).value)
  {
    hide Faithful, MagnitudeText, NatText, IsUnsigned;
    var text := NumberText(f, number).value;
    match number {
      case Unsigned(n) =>
        NatTextIsUnsigned(n);
        UnsignedStart(NatText(n));
      case Signed(i) =>
        NatTextIsUnsigned(UnsignedAbs(i));
        UnsignedStart(NatText(UnsignedAbs(i)));
        assert i < 0 ==> text[1..] == NatText(UnsignedAbs(i));
      case Zero =>
        NatTextIsUnsigned(0);
        NatTextZero();
      case Float(negative, d) =>
        MagnitudeIsUnsigned(f, d);
        UnsignedStart(MagnitudeText(f, d).value);
        assert negative ==> text[1..] == MagnitudeText(f, d).value;
      case NotFinite =>
    }
  }

  // What is read of canonical bytes.

  /** The decimal `x` parses to `value`, a zero or a double. */
  ghost predicate RoundsTo(x: real, value: real) {
    if value == 0.0 then x == 0.0 else exists d :: ReadsAs(x, value, d)
  }

  /** The trees are the same, each number read parsing to the other's. */
  ghost predicate Rounds(t: Tree, m: Tree)
    decreases t
  {
    match t
    case NumTree(x) => m.NumTree? && RoundsTo(x, m.value)
    case ArrayTree(items) =>
      m.ArrayTree? && |items| == |m.items| && forall i :: 0 <= i < |items| ==> Rounds(items[i], m.items[i])
    case ObjectTree(members) =>
      && m.ObjectTree? && members.Keys == m.members.Keys
      && forall name :: name in members && name in m.members ==> Rounds(members[name], m.members[name])
    case _ => t == m
  }

  lemma FoldsToItself(token: ByteString)
    requires forall i :: 0 <= i < |token| ==> IsNumberByte(token[i])
    ensures Fold(token) == token
  {
  }

  lemma ReadsNumber(f: Formatter, number: Number, rest: ByteString)
    requires Faithful(f) && Accepted(f, number) && Delimited(rest)
    ensures var r := ReadNumberToken(NumberText(f, number).value + rest);
            && r.Some? && r.value.1 == rest
            && r.value.0.NumTree? && RoundsTo(r.value.0.value, NumberValue(number))
  {
    hide Faithful, NumberText, IsJsonNumber, ReadNumber, NumberValue, ReadsAs;
    var token := NumberText(f, number).value;
    NumberTextBytes(f, number);
    RunExact(token, rest);
    assert (token + rest)[..|token|] == token && (token + rest)[|token|..] == rest;
    FoldsToItself(token);
    NumberTextIsJson(f, number);
    var d := NumberReads(f, number);
  }

  lemma ReadsString(text: Text, rest: ByteString)
    ensures ReadString(Quoted(text) + rest) == Some((text, rest))
    ensures !IsSpace((Quoted(text) + rest)[0])
  {
    hide EscapeText, ReadText;
    var s := Quoted(text) + rest;
    assert s[1..] == EscapeText(text) + [QUOTE] + rest;
    ReadsQuoted(text, rest);
  }

  /** A value's first byte is no space, so nothing is skipped before it. */
  lemma NothingSkipped(f: Formatter, v: Json, rest: ByteString)
    requires Faithful(f) && Encodable(f, v)
    ensures var s := Encode(f, v) + rest;
            s != [] && SkipSpace(s) == s && KindAt(s[0]) == KindOf(v)
  {
    hide Faithful, Encode;
    FirstByte(f, v, rest);
  }

  ghost predicate ReadsAsItems(r: Reading<seq<Tree>>, v: Json, i: nat, rest: ByteString)
    requires v.Array? && i <= |v.items|
  {
    && r.Some? && r.value.1 == rest && |r.value.0| == |v.items| - i
    && forall j :: 0 <= j < |r.value.0| ==> Rounds(r.value.0[j], Meaning(v.items[i + j]))
  }

  lemma {:induction false} ReadsItems(f: Formatter, v: Json, i: nat, rest: ByteString)
    requires Faithful(f) && v.Array? && Encodable(f, v) && i < |v.items|
    ensures ReadsAsItems(
              ReadElements(Encode(f, v.items[i]) + (EncodeItems(f, v, i + 1) + [RIGHT_BRACKET] + rest)), v, i, rest)
    decreases v, 0, |v.items| - i
  {
    hide Faithful, Encode, EncodeItems, ReadValue, Meaning, Rounds;
    var later := EncodeItems(f, v, i + 1) + [RIGHT_BRACKET] + rest;
    ItemsDelimited(f, v, i + 1, rest);
    ItemsUnfold(f, v, i + 1, rest);
    ReadsBack(f, v.items[i], later);
    if i + 1 == |v.items| {
      assert later[1..] == rest;
    } else {
      assert later[1..] == Encode(f, v.items[i + 1]) + (EncodeItems(f, v, i + 2) + [RIGHT_BRACKET] + rest);
      ReadsItems(f, v, i + 1, rest);
    }
  }

  ghost predicate ReadsAsMembers(r: Reading<map<Name, Tree>>, v: Json, names: seq<Name>, i: nat, rest: ByteString)
    requires v.Object? && i <= |names|
  {
    && r.Some? && r.value.1 == rest
    && (forall name :: name in r.value.0 <==> name in names[i..])
    && forall name :: name in r.value.0 && name in v.members ==> Rounds(r.value.0[name], Meaning(v.members[name]))
  }

  // One turn of the members' reader.
  lemma MembersStep(s: ByteString, name: Name, value: ByteString, tree: Tree, later: ByteString)
    requires s != [] && !IsSpace(s[0]) && ReadString(s) == Some((name, [COLON] + value))
    requires ReadValue(value) == Some((tree, later)) && later != []
    ensures later[0] == RIGHT_BRACE ==> ReadMembers(s) == Some((map[name := tree], later[1..]))
    ensures later[0] == COMMA && ReadMembers(later[1..]).Some? ==>
              var tail := ReadMembers(later[1..]).value;
              ReadMembers(s) == Some((map[name := tree] + tail.0, tail.1))
  {
    hide ReadValue, ReadString;
    assert ([COLON] + value)[1..] == value;
  }

  lemma LastMember(v: Json, names: seq<Name>, i: nat, tree: Tree, rest: ByteString)
    requires v.Object? && i + 1 == |names| && names[i] in v.members && Rounds(tree, Meaning(v.members[names[i]]))
    ensures ReadsAsMembers(Some((map[names[i] := tree], rest)), v, names, i, rest)
  {
    hide Rounds, Meaning;
    assert names[i..] == [names[i]];
  }

  lemma AddMember(v: Json, names: seq<Name>, i: nat, tree: Tree, tail: Reading<map<Name, Tree>>, rest: ByteString)
    requires v.Object? && i + 1 < |names| && names[i] in v.members && Rounds(tree, Meaning(v.members[names[i]]))
    requires forall a, b :: 0 <= a < b < |names| ==> names[a] != names[b]
    requires ReadsAsMembers(tail, v, names, i + 1, rest)
    ensures ReadsAsMembers(Some((map[names[i] := tree] + tail.value.0, rest)), v, names, i, rest)
  {
    hide Rounds, Meaning;
    assert names[i..] == [names[i]] + names[i + 1..];
    assert names[i] !in names[i + 1..];
  }

  lemma {:induction false} ReadsMembers(f: Formatter, v: Json, names: seq<Name>, i: nat, rest: ByteString)
    requires Faithful(f) && v.Object? && Encodable(f, v) && i < |names|
    requires forall name <- names :: name in v.members
    requires forall a, b :: 0 <= a < b < |names| ==> names[a] != names[b]
    ensures ReadsAsMembers(
              ReadMembers(Quoted(names[i]) + ([COLON] +
                (Encode(f, v.members[names[i]]) + (EncodeMembers(f, v, names, i + 1) + [RIGHT_BRACE] + rest)))),
              v, names, i, rest)
    decreases v, 0, |names| - i
  {
    hide Faithful, Encode, EncodeMembers, ReadValue, ReadString, ReadMembers, Meaning, Rounds, Quoted, ReadsAsMembers;
    var later := EncodeMembers(f, v, names, i + 1) + [RIGHT_BRACE] + rest;
    var value := Encode(f, v.members[names[i]]) + later;
    MembersDelimited(f, v, names, i + 1, rest);
    MembersUnfold(f, v, names, i + 1, rest);
    ReadsBack(f, v.members[names[i]], later);
    var tree := ReadValue(value).value.0;
    ReadsString(names[i], [COLON] + value);
    MembersStep(Quoted(names[i]) + ([COLON] + value), names[i], value, tree, later);
    if i + 1 == |names| {
      assert later[1..] == rest;
      LastMember(v, names, i, tree, rest);
    } else {
      var next := Quoted(names[i + 1]) + ([COLON] +
        (Encode(f, v.members[names[i + 1]]) + (EncodeMembers(f, v, names, i + 2) + [RIGHT_BRACE] + rest)));
      assert later[0] == COMMA && later[1..] == next;
      ReadsMembers(f, v, names, i + 1, rest);
      SomeMembers(ReadMembers(next), v, names, i + 1, rest);
      AddMember(v, names, i, tree, ReadMembers(next), rest);
    }
  }

  lemma SomeMembers(r: Reading<map<Name, Tree>>, v: Json, names: seq<Name>, i: nat, rest: ByteString)
    requires v.Object? && i <= |names| && ReadsAsMembers(r, v, names, i, rest)
    ensures r.Some? && r.value.1 == rest
  {
  }

  lemma ReadsArray(f: Formatter, v: Json, rest: ByteString)
    requires Faithful(f) && v.Array? && Encodable(f, v)
    ensures var r := ReadValue(Encode(f, v) + rest);
            r.Some? && r.value.1 == rest && Rounds(r.value.0, Meaning(v))
    decreases v, 0, |v.items| + 1
  {
    hide Faithful, EncodeItems, ReadElements, Encode, ReadsAsItems, ReadValue, Rounds, Meaning;
    var body := EncodeItems(f, v, 0) + [RIGHT_BRACKET] + rest;
    ArrayBytes(f, v, rest);
    var s := Encode(f, v) + rest;
    assert s[0] == LEFT_BRACKET && s[1..] == body;
    ItemsUnfold(f, v, 0, rest);
    if v.items == [] {
      EmptyArray(v, s, body, rest);
    } else {
      var later := EncodeItems(f, v, 1) + [RIGHT_BRACKET] + rest;
      assert body == Encode(f, v.items[0]) + later;
      NothingSkipped(f, v.items[0], later);
      ReadsItems(f, v, 0, rest);
      ArrayOf(v, s, body, rest);
    }
  }

  lemma EmptyArray(v: Json, s: ByteString, body: ByteString, rest: ByteString)
    requires v.Array? && v.items == []
    requires s != [] && s[0] == LEFT_BRACKET && s[1..] == body && body == [RIGHT_BRACKET] + rest
    ensures var r := ReadValue(s); r.Some? && r.value.1 == rest && Rounds(r.value.0, Meaning(v))
  {
    assert body[0] == RIGHT_BRACKET && body[1..] == rest;
  }

  lemma ArrayOf(v: Json, s: ByteString, body: ByteString, rest: ByteString)
    requires s != [] && s[0] == LEFT_BRACKET && s[1..] == body
    requires body != [] && KindAt(body[0]) != NoKind && SkipSpace(body) == body
    requires v.Array? && ReadsAsItems(ReadElements(body), v, 0, rest)
    ensures var r := ReadValue(s); r.Some? && r.value.1 == rest && Rounds(r.value.0, Meaning(v))
  {
    hide ReadElements;
  }

  lemma NamesDistinct(keys: set<Name>)
    ensures var names := SortedNames(keys);
            && (forall name :: name in names <==> name in keys)
            && forall a, b :: 0 <= a < b < |names| ==> names[a] != names[b]
  {
    hide SortedNames;
    var names := SortedNames(keys);
    forall a, b | 0 <= a < b < |names| ensures names[a] != names[b] {
      BeforeIsStrictTotalOrder(names[a], names[b], names[b]);
    }
  }

  lemma ReadsObject(f: Formatter, v: Json, rest: ByteString)
    requires Faithful(f) && v.Object? && Encodable(f, v)
    ensures var r := ReadValue(Encode(f, v) + rest);
            r.Some? && r.value.1 == rest && Rounds(r.value.0, Meaning(v))
    decreases v, 0, |SortedNames(v.members.Keys)| + 1
  {
    hide Faithful, EncodeMembers, ReadMembers, Encode, SortedNames, Quoted, ReadsAsMembers;
    var names := SortedNames(v.members.Keys);
    var body := EncodeMembers(f, v, names, 0) + [RIGHT_BRACE] + rest;
    NamesDistinct(v.members.Keys);
    ObjectBytes(f, v, rest);
    var s := Encode(f, v) + rest;
    assert s[0] == LEFT_BRACE && s[1..] == body;
    MembersUnfold(f, v, names, 0, rest);
    if names == [] {
      EmptyObject(v, s, body, rest);
    } else {
      hide ReadValue, Rounds, Meaning;
      var value := [COLON] + (Encode(f, v.members[names[0]]) + (EncodeMembers(f, v, names, 1) + [RIGHT_BRACE] + rest));
      assert body == Quoted(names[0]) + value;
      ReadsString(names[0], value);
      QuoteFirst(names[0]);
      ReadsMembers(f, v, names, 0, rest);
      SomeMembers(ReadMembers(body), v, names, 0, rest);
      ObjectOf(s, body);
      ObjectRounds(v, names, ReadMembers(body), rest);
    }
  }

  lemma EmptyObject(v: Json, s: ByteString, body: ByteString, rest: ByteString)
    requires v.Object? && v.members.Keys == {}
    requires s != [] && s[0] == LEFT_BRACE && s[1..] == body && body == [RIGHT_BRACE] + rest
    ensures var r := ReadValue(s); r.Some? && r.value.1 == rest && Rounds(r.value.0, Meaning(v))
  {
    assert body[0] == RIGHT_BRACE && body[1..] == rest;
    assert Meaning(v) == ObjectTree(map[]);
  }

  lemma ObjectOf(s: ByteString, body: ByteString)
    requires s != [] && s[0] == LEFT_BRACE && s[1..] == body && body != [] && body[0] == QUOTE
    requires ReadMembers(body).Some?
    ensures ReadValue(s) == Some((ObjectTree(ReadMembers(body).value.0), ReadMembers(body).value.1))
  {
    hide ReadMembers;
  }

  lemma ObjectRounds(v: Json, names: seq<Name>, r: Reading<map<Name, Tree>>, rest: ByteString)
    requires v.Object? && ReadsAsMembers(r, v, names, 0, rest)
    requires forall name :: name in names <==> name in v.members.Keys
    ensures Rounds(ObjectTree(r.value.0), Meaning(v))
  {
    assert names[0..] == names;
    assert r.value.0.Keys == v.members.Keys;
  }

  /** Where canonical bytes are followed by nothing or by a delimiter, the reader
      reads them as JSON, stops exactly at their end, and gets what they mean. */
  lemma {:induction false} ReadsBack(f: Formatter, v: Json, rest: ByteString)
    requires Faithful(f) && Encodable(f, v) && Delimited(rest)
    ensures var r := ReadValue(Encode(f, v) + rest);
            r.Some? && r.value.1 == rest && Rounds(r.value.0, Meaning(v))
    decreases v, 1, 0
  {
    hide Faithful, NumberText, NumberValue, EncodeItems, EncodeMembers, SortedNames, Quoted, Delimited,
      ReadElements, ReadMembers, ReadNumberToken, ReadString;
    NothingSkipped(f, v, rest);
    match v {
      case Null =>
      case Bool(b) =>
      case Num(number) => ReadsNumber(f, number, rest);
      case Str(text) => ReadsString(text, rest);
      case Array(items) => ReadsArray(f, v, rest);
      case Object(members) => ReadsObject(f, v, rest);
    }
  }

  /** Canonical bytes are a JSON text, and it says what the value means. */
  lemma CanonicalIsJson(f: Formatter, v: Json)
    requires Faithful(f) && Encodable(f, v)
    ensures ReadJson(Encode(f, v)).Some? && Rounds(ReadJson(Encode(f, v)).value, Meaning(v))
  {
    hide Faithful, Encode, ReadValue, Rounds, Meaning;
    assert Encode(f, v) + [] == Encode(f, v);
    ReadsBack(f, v, []);
  }
}
