/** The RFC 8785 canonical encoder (`gateway-config/src/canonical_json.rs`, `write_value`). */
module CanonicalJson {
  import opened Bytes
  import opened Results
  import opened Utf8
  import opened Utf16Order
  import opened Ordering
  import opened JsonText
  import opened NumberLayout
  import opened JsonNumbers

  /** A `serde_json::Value`. An object is a map from its names; the order a map
      is iterated in is left open. */
  datatype Json =
    | Null
    | Bool(b: bool)
    | Num(number: Number)
    | Str(text: Text)
    | Array(items: seq<Json>)
    | Object(members: map<Name, Json>)

  /** What a value means: numbers by their nearest double, strings by their
      characters, objects as maps. */
  datatype Tree =
    | NullTree
    | BoolTree(b: bool)
    | NumTree(value: real)
    | StrTree(text: Text)
    | ArrayTree(items: seq<Tree>)
    | ObjectTree(members: map<Name, Tree>)

  function Meaning(v: Json): Tree {
    match v
    case Null => NullTree
    case Bool(b) => BoolTree(b)
    case Num(number) => NumTree(NumberValue(number))
    case Str(text) => StrTree(text)
    case Array(items) => ArrayTree(seq(|items|, i requires 0 <= i < |items| => Meaning(items[i])))
    case Object(members) => ObjectTree(map name | name in members :: Meaning(members[name]))
  }

  /** Every number in the value is within the I-JSON safe range. */
  ghost predicate AllSafe(v: Json) {
    match v
    case Num(number) => IsSafe(number)
    case Array(items) => forall i :: 0 <= i < |items| ==> AllSafe(items[i])
    case Object(members) => forall name :: name in members ==> AllSafe(members[name])
    case _ => true
  }

  /** A value has an encoding exactly when all its numbers are safe. */
  lemma {:induction false} EncodableExactly(f: Formatter, v: Json)
    requires Faithful(f)
    ensures Encodable(f, v) <==> AllSafe(v)
  {
    hide Faithful, Accepted, IsSafe;
    match v {
      case Num(number) => AcceptedExactly(f, number);
      case Array(items) =>
        forall i | 0 <= i < |items| ensures Encodable(f, items[i]) <==> AllSafe(items[i]) {
          EncodableExactly(f, items[i]);
        }
      case Object(members) =>
        forall name | name in members ensures Encodable(f, members[name]) <==> AllSafe(members[name]) {
          EncodableExactly(f, members[name]);
        }
      case _ =>
    }
  }

  /** Every number in the value has a text. */
  ghost predicate Encodable(f: Formatter, v: Json) {
    match v
    case Num(number) => Accepted(f, number)
    case Array(items) => forall i :: 0 <= i < |items| ==> Encodable(f, items[i])
    case Object(members) => forall name :: name in members ==> Encodable(f, members[name])
    case _ => true
  }

  // Member order.

  predicate Increasing(names: seq<Name>) {
    forall i, j :: 0 <= i < j < |names| ==> Before(names[i], names[j])
  }

  ghost predicate Sorts(names: seq<Name>, keys: set<Name>) {
    Increasing(names) && forall name :: name in names <==> name in keys
  }

  ghost predicate IsLeast(least: Name, keys: set<Name>) {
    least in keys && forall other <- keys :: other != least ==> Before(least, other)
  }

  lemma {:induction false} LeastExists(keys: set<Name>) returns (least: Name)
    requires keys != {}
    ensures IsLeast(least, keys)
    decreases |keys|
  {
    hide Before;
    var some :| some in keys;
    var rest := keys - {some};
    if rest == {} {
      least := some;
      assert forall other <- keys :: other == some || other in rest;
    } else {
      var low := LeastExists(rest);
      BeforeIsStrictTotalOrder(some, low, low);
      least := if Before(some, low) then some else low;
      forall other | other in keys && other != least ensures Before(least, other) {
        assert other == some || other in rest;
        BeforeIsStrictTotalOrder(some, low, other);
      }
    }
  }

  lemma SortsCons(least: Name, tail: seq<Name>, keys: set<Name>)
    requires IsLeast(least, keys) && Sorts(tail, keys - {least})
    ensures Sorts([least] + tail, keys)
  {
    hide Before;
    var names := [least] + tail;
    forall i, j | 0 <= i < j < |names| ensures Before(names[i], names[j]) {
      assert names[j] == tail[j - 1] && tail[j - 1] in tail;
    }
    forall name ensures name in names <==> name in keys {
      assert name in names <==> name == least || name in tail;
    }
  }

  /** The names in the order they are written. */
  ghost function SortedNames(keys: set<Name>): (names: seq<Name>)
    ensures Sorts(names, keys)
    decreases |keys|
  {
    if keys == {} then []
    else
      assert exists least :: IsLeast(least, keys) by {
        var least := LeastExists(keys);
      }
      var least :| IsLeast(least, keys);
      SortsCons(least, SortedNames(keys - {least}), keys);
      [least] + SortedNames(keys - {least})
  }

  /** There is only one such order, whatever order the map was iterated in. */
  lemma {:induction false} SortingUnique(a: seq<Name>, b: seq<Name>, keys: set<Name>)
    requires Sorts(a, keys) && Sorts(b, keys)
    ensures a == b
    decreases |a|
  {
    hide Before;
    assert |b| > 0 ==> b[0] in keys && b[0] in a;
    if a != [] {
      assert a[0] in keys;
      var i :| 0 <= i < |b| && b[i] == a[0];
      assert b[0] in keys;
      var j :| 0 <= j < |a| && a[j] == b[0];
      BeforeIsStrictTotalOrder(a[0], b[0], a[0]);
      assert i == 0;
      SortsTail(a, keys);
      SortsTail(b, keys);
      SortingUnique(a[1..], b[1..], keys - {a[0]});
      assert a == [a[0]] + a[1..] && b == [b[0]] + b[1..];
    }
  }

  lemma SortsTail(names: seq<Name>, keys: set<Name>)
    requires Sorts(names, keys) && names != []
    ensures Sorts(names[1..], keys - {names[0]})
  {
    forall name ensures name in names[1..] <==> name in keys - {names[0]} {
      BeforeIsStrictTotalOrder(name, name, name);
      assert names == [names[0]] + names[1..];
      if name in names[1..] {
        var i :| 0 <= i < |names[1..]| && names[1..][i] == name;
        assert Before(names[0], names[i + 1]);
      }
    }
  }

  // The encoding.

  const LEFT_BRACKET: Byte := 0x5B
  const RIGHT_BRACKET: Byte := 0x5D
  const LEFT_BRACE: Byte := 0x7B
  const RIGHT_BRACE: Byte := 0x7D
  const COMMA: Byte := 0x2C

  const NULL_TEXT: ByteString := [0x6E, 0x75, 0x6C, 0x6C]
  const TRUE_TEXT: ByteString := [0x74, 0x72, 0x75, 0x65]
  const FALSE_TEXT: ByteString := [0x66, 0x61, 0x6C, 0x73, 0x65]

  ghost function Encode(f: Formatter, v: Json): ByteString
    requires Encodable(f, v)
    decreases v, 1, 0
  {
    match v
    case Null => NULL_TEXT
    case Bool(b) => if b then TRUE_TEXT else FALSE_TEXT
    case Num(number) => NumberText(f, number).value
    case Str(text) => Quoted(text)
    case Array(items) => [LEFT_BRACKET] + EncodeItems(f, v, 0) + [RIGHT_BRACKET]
    case Object(members) => [LEFT_BRACE] + EncodeMembers(f, v, SortedNames(members.Keys), 0) + [RIGHT_BRACE]
  }

  /** The items from the `i`th on, each after the first preceded by a comma. */
  ghost function EncodeItems(f: Formatter, v: Json, i: nat): ByteString
    requires v.Array? && Encodable(f, v) && i <= |v.items|
    decreases v, 0, |v.items| - i
  {
    if i == |v.items| then [] else Separator(i) + Encode(f, v.items[i]) + EncodeItems(f, v, i + 1)
  }

  ghost function EncodeMembers(f: Formatter, v: Json, names: seq<Name>, i: nat): ByteString
    requires v.Object? && Encodable(f, v) && i <= |names|
    requires forall name <- names :: name in v.members
    decreases v, 0, |names| - i
  {
    if i == |names| then []
    else Separator(i) + EncodeMember(f, v, names[i]) + EncodeMembers(f, v, names, i + 1)
  }

  ghost function EncodeMember(f: Formatter, v: Json, name: Name): ByteString
    requires v.Object? && Encodable(f, v) && name in v.members
    decreases v, 0, 0
  {
    Quoted(name) + [COLON] + Encode(f, v.members[name])
  }

  function Separator(i: nat): ByteString { if i > 0 then [COMMA] else [] }

  // The encoding, text by text.

  /** Texts with a comma between any two. */
  function Joined(texts: seq<ByteString>): ByteString {
    if texts == [] then []
    else if |texts| == 1 then texts[0]
    else texts[0] + Ascii(",") + Joined(texts[1..])
  }

  lemma Punctuation()
    ensures NULL_TEXT == Ascii("null") && TRUE_TEXT == Ascii("true") && FALSE_TEXT == Ascii("false")
    ensures [LEFT_BRACKET] == Ascii("[") && [RIGHT_BRACKET] == Ascii("]") && [COMMA] == Ascii(",")
    ensures [LEFT_BRACE] == Ascii("{") && [RIGHT_BRACE] == Ascii("}") && [COLON] == Ascii(":")
    ensures [QUOTE] == Ascii("\"")
  {
  }

  lemma EncodedWord(f: Formatter, v: Json)
    requires v.Null? || v.Bool? || v.Str?
    ensures Encode(f, v) == match v
            case Null => Ascii("null")
            case Bool(b) => if b then Ascii("true") else Ascii("false")
            case Str(text) => Ascii("\"") + EscapeText(text) + Ascii("\"")
            case _ => []
  {
    Punctuation();
  }

  /** An array is its items' texts between brackets, with commas and nothing else. */
  lemma EncodedArray(f: Formatter, v: Json, texts: seq<ByteString>)
    requires v.Array? && Encodable(f, v) && |texts| == |v.items|
    requires forall i :: 0 <= i < |texts| ==> texts[i] == Encode(f, v.items[i])
    ensures Encode(f, v) == Ascii("[") + Joined(texts) + Ascii("]")
  {
    hide Encode, EncodeItems, Joined, Ascii, Encodable;
    ArrayUnfolds(f, v);
    ItemsJoined(f, v, texts, 0);
    NothingBefore(texts);
    Punctuation();
  }

  lemma ArrayUnfolds(f: Formatter, v: Json)
    requires v.Array? && Encodable(f, v)
    ensures Encode(f, v) == [LEFT_BRACKET] + EncodeItems(f, v, 0) + [RIGHT_BRACKET]
  {
    hide EncodeItems;
  }

  lemma NothingBefore(texts: seq<ByteString>)
    ensures (if 0 < |texts| then Separator(0) + Joined(texts[0..]) else []) == Joined(texts)
  {
    assert texts[0..] == texts && Separator(0) + Joined(texts) == Joined(texts);
  }

  lemma {:induction false} ItemsJoined(f: Formatter, v: Json, texts: seq<ByteString>, i: nat)
    requires v.Array? && Encodable(f, v) && i <= |texts| == |v.items|
    requires forall i :: 0 <= i < |texts| ==> texts[i] == Encode(f, v.items[i])
    ensures EncodeItems(f, v, i) == if i < |texts| then Separator(i) + Joined(texts[i..]) else []
    decreases |texts| - i
  {
    if i < |texts| {
      ItemsJoined(f, v, texts, i + 1);
      hide Encode, Joined;
      JoinedStep(Separator(i), texts, i);
    }
  }

  lemma JoinedStep(before: ByteString, texts: seq<ByteString>, i: nat)
    requires i < |texts|
    ensures before + texts[i] + (if i + 1 < |texts| then Separator(i + 1) + Joined(texts[i + 1..]) else [])
            == before + Joined(texts[i..])
  {
    Punctuation();
    assert texts[i..][1..] == texts[i + 1..];
    hide Ascii;
    if i + 1 < |texts| {
      Associates(before, texts[i], [COMMA] + Joined(texts[i + 1..]));
      Associates(texts[i], [COMMA], Joined(texts[i + 1..]));
    } else {
      assert before + texts[i] + [] == before + texts[i];
    }
  }

  /** An object is its members between braces, in the order of their names, each the
      name's text, a colon and the value's text. */
  lemma EncodedObject(f: Formatter, v: Json, names: seq<Name>, texts: seq<ByteString>)
    requires v.Object? && Encodable(f, v) && Sorts(names, v.members.Keys) && |texts| == |names|
    requires forall i :: 0 <= i < |names| ==>
               names[i] in v.members && texts[i] == Quoted(names[i]) + Ascii(":") + Encode(f, v.members[names[i]])
    ensures Encode(f, v) == Ascii("{") + Joined(texts) + Ascii("}")
  {
    hide Encode, EncodeMembers, Joined, Ascii, Encodable, Quoted, Increasing;
    ObjectUnfolds(f, v, names);
    MembersJoined(f, v, names, texts, 0);
    NothingBefore(texts);
    Punctuation();
  }

  lemma ObjectUnfolds(f: Formatter, v: Json, names: seq<Name>)
    requires v.Object? && Encodable(f, v) && Sorts(names, v.members.Keys)
    ensures Encode(f, v) == [LEFT_BRACE] + EncodeMembers(f, v, names, 0) + [RIGHT_BRACE]
  {
    hide EncodeMembers;
    SortingUnique(names, SortedNames(v.members.Keys), v.members.Keys);
  }

  lemma {:induction false} MembersJoined(f: Formatter, v: Json, names: seq<Name>, texts: seq<ByteString>, i: nat)
    requires v.Object? && Encodable(f, v) && i <= |texts| == |names|
    requires forall name <- names :: name in v.members
    requires forall i :: 0 <= i < |names| ==>
               names[i] in v.members && texts[i] == Quoted(names[i]) + Ascii(":") + Encode(f, v.members[names[i]])
    ensures EncodeMembers(f, v, names, i) == if i < |texts| then Separator(i) + Joined(texts[i..]) else []
    decreases |texts| - i
  {
    if i < |texts| {
      MembersJoined(f, v, names, texts, i + 1);
      Punctuation();
      assert EncodeMember(f, v, names[i]) == texts[i];
      hide Encode, EncodeMember, Joined, Ascii, Quoted;
      JoinedStep(Separator(i), texts, i);
    }
  }

  // Unique decodability.

  /** What may follow a value inside an array or object, or at the end. */
  predicate Delimited(rest: ByteString) {
    rest == [] || rest[0] == COMMA || rest[0] == RIGHT_BRACKET || rest[0] == RIGHT_BRACE
  }

  datatype Kind = NullKind | TrueKind | FalseKind | NumKind | StrKind | ArrayKind | ObjectKind | NoKind

  function KindOf(v: Json): Kind {
    match v
    case Null => NullKind
    case Bool(b) => if b then TrueKind else FalseKind
    case Num(_) => NumKind
    case Str(_) => StrKind
    case Array(_) => ArrayKind
    case Object(_) => ObjectKind
  }

  function KindAt(b: Byte): Kind {
    if b == 0x6E then NullKind
    else if b == 0x74 then TrueKind
    else if b == 0x66 then FalseKind
    else if IsDigit(b) || b == MINUS then NumKind
    else if b == QUOTE then StrKind
    else if b == LEFT_BRACKET then ArrayKind
    else if b == LEFT_BRACE then ObjectKind
    else NoKind
  }

  /** The first byte says what kind of value follows. */
  lemma FirstByte(f: Formatter, v: Json, rest: ByteString)
    requires Faithful(f) && Encodable(f, v)
    ensures Encode(f, v) != [] && KindAt((Encode(f, v) + rest)[0]) == KindOf(v)
  {
    hide Faithful, NumberText, EncodeItems, EncodeMembers, EscapeText;
    if v.Num? {
      NumberTextBytes(f, v.number);
    }
  }

  /** A number ends where its number characters do. */
  lemma RunUnique(a: ByteString, b: ByteString, restA: ByteString, restB: ByteString)
    requires forall i :: 0 <= i < |a| ==> IsNumberByte(a[i])
    requires forall i :: 0 <= i < |b| ==> IsNumberByte(b[i])
    requires Delimited(restA) && Delimited(restB) && a + restA == b + restB
    ensures a == b && restA == restB
  {
    RunExact(a, restA);
    RunExact(b, restB);
    var s := a + restA;
    assert a == s[..|a|] == b && restA == s[|a|..] == restB;
  }

  /** What follows an item: the next one after a comma, or the closing bracket. */
  lemma ItemsDelimited(f: Formatter, v: Json, i: nat, rest: ByteString)
    requires v.Array? && Encodable(f, v) && 0 < i <= |v.items|
    ensures Delimited(EncodeItems(f, v, i) + [RIGHT_BRACKET] + rest)
  {
    hide Encode;
    var s := EncodeItems(f, v, i) + [RIGHT_BRACKET] + rest;
    assert s[0] == if i == |v.items| then RIGHT_BRACKET else COMMA;
  }

  lemma MembersDelimited(f: Formatter, v: Json, names: seq<Name>, i: nat, rest: ByteString)
    requires v.Object? && Encodable(f, v) && 0 < i <= |names| && forall name <- names :: name in v.members
    ensures Delimited(EncodeMembers(f, v, names, i) + [RIGHT_BRACE] + rest)
  {
    hide EncodeMember;
    var s := EncodeMembers(f, v, names, i) + [RIGHT_BRACE] + rest;
    assert s[0] == if i == |names| then RIGHT_BRACE else COMMA;
  }

  /** The items from the `i`th on, up to the bracket, start with the separator,
      the item and the items after it, or with the bracket. */
  lemma ItemsUnfold(f: Formatter, v: Json, i: nat, rest: ByteString)
    requires v.Array? && Encodable(f, v) && i <= |v.items|
    ensures var s := EncodeItems(f, v, i) + [RIGHT_BRACKET] + rest;
            if i == |v.items| then s == [RIGHT_BRACKET] + rest
            else s == Separator(i) + (Encode(f, v.items[i]) + (EncodeItems(f, v, i + 1) + [RIGHT_BRACKET] + rest))
  {
    hide Encode;
    if i < |v.items| {
      var item, later := Encode(f, v.items[i]), EncodeItems(f, v, i + 1);
      assert EncodeItems(f, v, i) == Separator(i) + item + later;
      hide EncodeItems;
      Associates(Separator(i) + item, later, [RIGHT_BRACKET]);
      Associates(Separator(i) + item, later + [RIGHT_BRACKET], rest);
      Associates(Separator(i), item, later + [RIGHT_BRACKET] + rest);
    }
  }

  lemma MembersUnfold(f: Formatter, v: Json, names: seq<Name>, i: nat, rest: ByteString)
    requires v.Object? && Encodable(f, v) && i <= |names| && forall name <- names :: name in v.members
    ensures var s := EncodeMembers(f, v, names, i) + [RIGHT_BRACE] + rest;
            if i == |names| then s == [RIGHT_BRACE] + rest
            else s == Separator(i) + (Quoted(names[i]) + ([COLON] +
                        (Encode(f, v.members[names[i]]) + (EncodeMembers(f, v, names, i + 1) + [RIGHT_BRACE] + rest))))
  {
    hide Encode, Quoted;
    if i < |names| {
      var name, value := Quoted(names[i]), Encode(f, v.members[names[i]]);
      var later := EncodeMembers(f, v, names, i + 1);
      var end := later + [RIGHT_BRACE] + rest;
      assert EncodeMembers(f, v, names, i) == Separator(i) + (name + [COLON] + value) + later;
      hide EncodeMembers;
      Associates(Separator(i) + (name + [COLON] + value), later, [RIGHT_BRACE]);
      Associates(Separator(i) + (name + [COLON] + value), later + [RIGHT_BRACE], rest);
      Associates(Separator(i), name + [COLON] + value, end);
      Associates(name + [COLON], value, end);
      Associates(name, [COLON], value + end);
    }
  }

  lemma StripPrefix(prefix: ByteString, a: ByteString, b: ByteString)
    requires prefix + a == prefix + b
    ensures a == b
  {
    assert a == (prefix + a)[|prefix|..] && b == (prefix + b)[|prefix|..];
  }

  /** The closing bytes tell whether another item or member follows. */
  lemma SeparatorTells(f: Formatter, i: nat, item: ByteString, close: Byte, rest: ByteString)
    requires item != [] && KindAt(item[0]) != NoKind && KindAt(close) == NoKind && close != COMMA
    ensures Separator(i) + item != [close] + rest
  {
    assert (Separator(i) + item)[0] == if i > 0 then COMMA else item[0];
    assert ([close] + rest)[0] == close;
  }

  /** Where the items end, and what they mean, is determined by the bytes. */
  lemma {:induction false} ItemsUnique(f: Formatter, v: Json, w: Json, i: nat, restV: ByteString, restW: ByteString)
    requires Faithful(f) && v.Array? && w.Array? && Encodable(f, v) && Encodable(f, w)
    requires i <= |v.items| && i <= |w.items|
    requires EncodeItems(f, v, i) + [RIGHT_BRACKET] + restV == EncodeItems(f, w, i) + [RIGHT_BRACKET] + restW
    ensures |v.items| == |w.items| && restV == restW
    ensures forall j :: i <= j < |v.items| ==> Meaning(v.items[j]) == Meaning(w.items[j])
    decreases v, 0, |v.items| - i
  {
    hide Faithful, Encode, EncodeItems;
    ItemsUnfold(f, v, i, restV);
    ItemsUnfold(f, w, i, restW);
    if i < |v.items| && i < |w.items| {
      var laterV := EncodeItems(f, v, i + 1) + [RIGHT_BRACKET] + restV;
      var laterW := EncodeItems(f, w, i + 1) + [RIGHT_BRACKET] + restW;
      StripPrefix(Separator(i), Encode(f, v.items[i]) + laterV, Encode(f, w.items[i]) + laterW);
      ItemsDelimited(f, v, i + 1, restV);
      ItemsDelimited(f, w, i + 1, restW);
      ValueUnique(f, v.items[i], w.items[i], laterV, laterW);
      ItemsUnique(f, v, w, i + 1, restV, restW);
    } else if i < |v.items| {
      var later := EncodeItems(f, v, i + 1) + [RIGHT_BRACKET] + restV;
      FirstByte(f, v.items[i], later);
      SeparatorTells(f, i, Encode(f, v.items[i]) + later, RIGHT_BRACKET, restW);
    } else if i < |w.items| {
      var later := EncodeItems(f, w, i + 1) + [RIGHT_BRACKET] + restW;
      FirstByte(f, w.items[i], later);
      SeparatorTells(f, i, Encode(f, w.items[i]) + later, RIGHT_BRACKET, restV);
    } else {
      StripPrefix([RIGHT_BRACKET], restV, restW);
    }
  }

  lemma {:induction false} MembersUnique(
    f: Formatter, v: Json, w: Json, vs: seq<Name>, ws: seq<Name>, i: nat, restV: ByteString, restW: ByteString)
    requires Faithful(f) && v.Object? && w.Object? && Encodable(f, v) && Encodable(f, w)
    requires (forall name <- vs :: name in v.members) && (forall name <- ws :: name in w.members)
    requires i <= |vs| && i <= |ws|
    requires EncodeMembers(f, v, vs, i) + [RIGHT_BRACE] + restV == EncodeMembers(f, w, ws, i) + [RIGHT_BRACE] + restW
    ensures |vs| == |ws| && restV == restW
    ensures forall j :: i <= j < |vs| ==> vs[j] == ws[j] && Meaning(v.members[vs[j]]) == Meaning(w.members[ws[j]])
    decreases v, 0, |vs| - i
  {
    hide Faithful, Encode, EncodeMembers, Quoted;
    MembersUnfold(f, v, vs, i, restV);
    MembersUnfold(f, w, ws, i, restW);
    if i < |vs| && i < |ws| {
      var laterV := EncodeMembers(f, v, vs, i + 1) + [RIGHT_BRACE] + restV;
      var laterW := EncodeMembers(f, w, ws, i + 1) + [RIGHT_BRACE] + restW;
      var valueV, valueW := Encode(f, v.members[vs[i]]), Encode(f, w.members[ws[i]]);
      StripPrefix(Separator(i), Quoted(vs[i]) + ([COLON] + (valueV + laterV)),
          Quoted(ws[i]) + ([COLON] + (valueW + laterW)));
      QuotedUnique(vs[i], ws[i], [COLON] + (valueV + laterV), [COLON] + (valueW + laterW));
      StripPrefix([COLON], valueV + laterV, valueW + laterW);
      MembersDelimited(f, v, vs, i + 1, restV);
      MembersDelimited(f, w, ws, i + 1, restW);
      ValueUnique(f, v.members[vs[i]], w.members[ws[i]], laterV, laterW);
      MembersUnique(f, v, w, vs, ws, i + 1, restV, restW);
    } else if i < |vs| {
      QuoteFirst(vs[i]);
      SeparatorTells(f, i, Quoted(vs[i]) + ([COLON] + (Encode(f, v.members[vs[i]])
        + (EncodeMembers(f, v, vs, i + 1) + [RIGHT_BRACE] + restV))), RIGHT_BRACE, restW);
    } else if i < |ws| {
      QuoteFirst(ws[i]);
      SeparatorTells(f, i, Quoted(ws[i]) + ([COLON] + (Encode(f, w.members[ws[i]])
        + (EncodeMembers(f, w, ws, i + 1) + [RIGHT_BRACE] + restW))), RIGHT_BRACE, restV);
    } else {
      StripPrefix([RIGHT_BRACE], restV, restW);
    }
  }

  lemma QuoteFirst(name: Name)
    ensures Quoted(name) != [] && Quoted(name)[0] == QUOTE
  {
  }

  lemma ArrayBytes(f: Formatter, v: Json, rest: ByteString)
    requires v.Array? && Encodable(f, v)
    ensures Encode(f, v) + rest == [LEFT_BRACKET] + (EncodeItems(f, v, 0) + [RIGHT_BRACKET] + rest)
  {
    hide EncodeItems;
    Associates([LEFT_BRACKET], EncodeItems(f, v, 0), [RIGHT_BRACKET]);
    Associates([LEFT_BRACKET], EncodeItems(f, v, 0) + [RIGHT_BRACKET], rest);
  }

  lemma ObjectBytes(f: Formatter, v: Json, rest: ByteString)
    requires v.Object? && Encodable(f, v)
    ensures Encode(f, v) + rest
            == [LEFT_BRACE] + (EncodeMembers(f, v, SortedNames(v.members.Keys), 0) + [RIGHT_BRACE] + rest)
  {
    hide EncodeMembers, SortedNames;
    var inner := EncodeMembers(f, v, SortedNames(v.members.Keys), 0);
    Associates([LEFT_BRACE], inner, [RIGHT_BRACE]);
    Associates([LEFT_BRACE], inner + [RIGHT_BRACE], rest);
  }

  lemma ArrayUnique(f: Formatter, v: Json, w: Json, restV: ByteString, restW: ByteString)
    requires Faithful(f) && v.Array? && w.Array? && Encodable(f, v) && Encodable(f, w)
    requires Encode(f, v) + restV == Encode(f, w) + restW
    ensures Meaning(v) == Meaning(w) && restV == restW
    decreases v, 0, |v.items| + 1
  {
    hide Faithful, Encode, EncodeItems, Encodable;
    ArrayBytes(f, v, restV);
    ArrayBytes(f, w, restW);
    StripPrefix([LEFT_BRACKET], EncodeItems(f, v, 0) + [RIGHT_BRACKET] + restV,
                EncodeItems(f, w, 0) + [RIGHT_BRACKET] + restW);
    ItemsUnique(f, v, w, 0, restV, restW);
  }

  lemma ObjectUnique(f: Formatter, v: Json, w: Json, restV: ByteString, restW: ByteString)
    requires Faithful(f) && v.Object? && w.Object? && Encodable(f, v) && Encodable(f, w)
    requires Encode(f, v) + restV == Encode(f, w) + restW
    ensures Meaning(v) == Meaning(w) && restV == restW
    decreases v, 0, |SortedNames(v.members.Keys)| + 1
  {
    hide Faithful, Encode, EncodeMembers, SortedNames, Encodable, Meaning;
    var vs, ws := SortedNames(v.members.Keys), SortedNames(w.members.Keys);
    ObjectBytes(f, v, restV);
    ObjectBytes(f, w, restW);
    StripPrefix([LEFT_BRACE], EncodeMembers(f, v, vs, 0) + [RIGHT_BRACE] + restV,
                EncodeMembers(f, w, ws, 0) + [RIGHT_BRACE] + restW);
    MembersUnique(f, v, w, vs, ws, 0, restV, restW);
    SameMembers(v, w, vs);
  }

  /** Where a value ends, and what it means, is determined by the bytes. */
  lemma {:induction false} ValueUnique(f: Formatter, v: Json, w: Json, restV: ByteString, restW: ByteString)
    requires Faithful(f) && Encodable(f, v) && Encodable(f, w)
    requires Delimited(restV) && Delimited(restW) && Encode(f, v) + restV == Encode(f, w) + restW
    ensures Meaning(v) == Meaning(w) && restV == restW
    decreases v, 1, 0
  {
    hide Faithful, NumberText, NumberValue, EncodeItems, EncodeMembers, SortedNames, Quoted, Delimited;
    FirstByte(f, v, restV);
    FirstByte(f, w, restW);
    assert KindOf(v) == KindOf(w);
    match v {
      case Null => StripPrefix(NULL_TEXT, restV, restW);
      case Bool(b) => StripPrefix(if b then TRUE_TEXT else FALSE_TEXT, restV, restW);
      case Num(number) =>
        NumberTextBytes(f, v.number);
        NumberTextBytes(f, w.number);
        RunUnique(Encode(f, v), Encode(f, w), restV, restW);
        NumbersByValue(f, v.number, w.number);
      case Str(text) => QuotedUnique(v.text, w.text, restV, restW);
      case Array(items) => ArrayUnique(f, v, w, restV, restW);
      case Object(members) => ObjectUnique(f, v, w, restV, restW);
    }
  }

  lemma SameMembers(v: Json, w: Json, names: seq<Name>)
    requires v.Object? && w.Object? && Sorts(names, v.members.Keys) && Sorts(names, w.members.Keys)
    requires forall j :: 0 <= j < |names| ==>
               && names[j] in v.members && names[j] in w.members
               && Meaning(v.members[names[j]]) == Meaning(w.members[names[j]])
    ensures Meaning(v) == Meaning(w)
  {
    hide Increasing;
    forall name ensures name in v.members <==> name in w.members {
      assert name in names <==> name in v.members.Keys;
      assert name in names <==> name in w.members.Keys;
    }
    forall name | name in v.members ensures Meaning(v.members[name]) == Meaning(w.members[name]) {
      assert name in names;
      var j :| 0 <= j < |names| && names[j] == name;
    }
  }

  // The other direction: the encoding depends only on the meaning.

  lemma {:induction false} ItemsDetermined(f: Formatter, v: Json, w: Json, i: nat)
    requires Faithful(f) && v.Array? && w.Array? && Encodable(f, v) && Encodable(f, w)
    requires Meaning(v) == Meaning(w) && |v.items| == |w.items| && i <= |v.items|
    ensures EncodeItems(f, v, i) == EncodeItems(f, w, i)
    decreases v, 0, |v.items| - i
  {
    hide Faithful, Encode;
    if i < |v.items| {
      assert Meaning(v).items[i] == Meaning(v.items[i]) && Meaning(w).items[i] == Meaning(w.items[i]);
      MeaningDetermines(f, v.items[i], w.items[i]);
      ItemsDetermined(f, v, w, i + 1);
    }
  }

  lemma {:induction false} MembersDetermined(f: Formatter, v: Json, w: Json, names: seq<Name>, i: nat)
    requires Faithful(f) && v.Object? && w.Object? && Encodable(f, v) && Encodable(f, w)
    requires Meaning(v) == Meaning(w) && i <= |names|
    requires forall name <- names :: name in v.members && name in w.members
    ensures EncodeMembers(f, v, names, i) == EncodeMembers(f, w, names, i)
    decreases v, 0, |names| - i
  {
    hide Faithful, Encode, Quoted;
    if i < |names| {
      var name := names[i];
      assert Meaning(v).members[name] == Meaning(v.members[name]) &&
          Meaning(w).members[name] == Meaning(w.members[name]);
      MeaningDetermines(f, v.members[name], w.members[name]);
      MembersDetermined(f, v, w, names, i + 1);
    }
  }

  lemma {:induction false} MeaningDetermines(f: Formatter, v: Json, w: Json)
    requires Faithful(f) && Encodable(f, v) && Encodable(f, w) && Meaning(v) == Meaning(w)
    ensures Encode(f, v) == Encode(f, w)
    decreases v, 1, 0
  {
    hide Faithful, NumberText, NumberValue, EncodeItems, EncodeMembers, SortedNames, Quoted;
    match v {
      case Num(number) => NumbersByValue(f, number, w.number);
      case Array(items) =>
        assert |Meaning(v).items| == |Meaning(w).items|;
        ItemsDetermined(f, v, w, 0);
      case Object(members) =>
        forall name ensures name in v.members <==> name in w.members {
          assert name in v.members <==> name in Meaning(v).members;
          assert name in w.members <==> name in Meaning(w).members;
        }
        assert v.members.Keys == w.members.Keys;
        MembersDetermined(f, v, w, SortedNames(v.members.Keys), 0);
      case _ =>
    }
  }

  lemma {:induction false} ItemsAgree(f: Formatter, g: Formatter, v: Json, i: nat)
    requires Faithful(f) && Faithful(g) && v.Array? && Encodable(f, v) && Encodable(g, v) && i <= |v.items|
    ensures EncodeItems(f, v, i) == EncodeItems(g, v, i)
    decreases v, 0, |v.items| - i
  {
    hide Faithful, Encode;
    if i < |v.items| {
      FormattersEncodeAlike(f, g, v.items[i]);
      ItemsAgree(f, g, v, i + 1);
    }
  }

  lemma {:induction false} MembersAgree(f: Formatter, g: Formatter, v: Json, names: seq<Name>, i: nat)
    requires Faithful(f) && Faithful(g) && v.Object? && Encodable(f, v) && Encodable(g, v) && i <= |names|
    requires forall name <- names :: name in v.members
    ensures EncodeMembers(f, v, names, i) == EncodeMembers(g, v, names, i)
    decreases v, 0, |names| - i
  {
    hide Faithful, Encode, Quoted;
    if i < |names| {
      FormattersEncodeAlike(f, g, v.members[names[i]]);
      MembersAgree(f, g, v, names, i + 1);
    }
  }

  /** A value's canonical bytes do not depend on the platform's formatter. */
  lemma {:induction false} FormattersEncodeAlike(f: Formatter, g: Formatter, v: Json)
    requires Faithful(f) && Faithful(g) && Encodable(f, v)
    ensures Encodable(g, v) && Encode(f, v) == Encode(g, v)
    decreases v, 1, 0
  {
    hide Faithful, NumberText, EncodeItems, EncodeMembers, SortedNames, Quoted, AllSafe;
    EncodableExactly(f, v);
    EncodableExactly(g, v);
    match v {
      case Num(number) => FormattersAgree(f, g, number);
      case Array(items) => ItemsAgree(f, g, v, 0);
      case Object(members) => MembersAgree(f, g, v, SortedNames(members.Keys), 0);
      case _ =>
    }
  }

  /** Canonical bytes identify the value: two encodable values have the same
      canonical form, on whatever platforms, exactly when they mean the same. */
  lemma CanonicalBytesIdentifyValue(f: Formatter, g: Formatter, v: Json, w: Json)
    requires Faithful(f) && Faithful(g) && Encodable(f, v) && Encodable(g, w)
    ensures Encode(f, v) == Encode(g, w) <==> Meaning(v) == Meaning(w)
  {
    hide Faithful, Encodable, Encode, Meaning;
    FormattersEncodeAlike(g, f, w);
    if Encode(f, v) == Encode(f, w) {
      ValueUnique(f, v, w, [], []);
    }
    if Meaning(v) == Meaning(w) {
      MeaningDetermines(f, v, w);
    }
  }

  // The encoder itself.

  /** `members.sort_by`: the names of the members in the order they are written. */
  method SortNames(names: seq<Name>, ghost keys: set<Name>) returns (sorted: seq<Name>)
    requires AreDistinct(names) && forall name :: name in names <==> name in keys
    ensures sorted == SortedNames(keys)
  {
    hide Before, SortedNames, IsStrictTotal;
    BeforeIsTotal();
    sorted := Ordering.Sorted(names, Before);
    assert Increasing(sorted);
    SortingUnique(sorted, SortedNames(keys), keys);
  }

  lemma BeforeIsTotal()
    ensures IsStrictTotal(Before)
  {
    hide Before;
    forall a, b ensures !Before(a, a) && (a == b || Before(a, b) || Before(b, a)) {
      BeforeIsStrictTotalOrder(a, b, b);
    }
    forall a, b, c | Before(a, b) && Before(b, c) ensures Before(a, c) {
      BeforeIsStrictTotalOrder(a, b, c);
    }
  }

  /** `write_value`: appends the canonical bytes of an encodable value and
      refuses any other. */
  method WriteValue(v: Json, f: Formatter, out: Output) returns (ok: bool)
    modifies out
    ensures ok <==> Encodable(f, v)
    ensures ok ==> out.bytes == old(out.bytes) + Encode(f, v)
    decreases v, 2
  {
    hide Quoted, NumberText;
    ok := true;
    match v {
      case Null => out.bytes := out.bytes + NULL_TEXT;
      case Bool(b) => out.bytes := out.bytes + if b then TRUE_TEXT else FALSE_TEXT;
      case Num(number) => ok := WriteNumber(number, f, out);
      case Str(text) => WriteString(text, out);
      case Array(items) => ok := WriteArray(v, f, out);
      case Object(members) => ok := WriteObject(v, f, out);
    }
  }

  method WriteArray(v: Json, f: Formatter, out: Output) returns (ok: bool)
    requires v.Array?
    modifies out
    ensures ok <==> Encodable(f, v)
    ensures ok ==> out.bytes == old(out.bytes) + Encode(f, v)
    decreases v, 0
  {
    out.bytes := out.bytes + [LEFT_BRACKET];
    ghost var start := out.bytes;
    for i := 0 to |v.items|
      invariant forall j :: 0 <= j < i ==> Encodable(f, v.items[j])
      invariant Encodable(f, v) ==> out.bytes + EncodeItems(f, v, i) == start + EncodeItems(f, v, 0)
    {
      ghost var before := out.bytes;
      if i > 0 {
        out.bytes := out.bytes + [COMMA];
      }
      ok := WriteValue(v.items[i], f, out);
      if !ok {
        return;
      }
      if Encodable(f, v) {
        PieceWritten(before, Separator(i), Encode(f, v.items[i]), EncodeItems(f, v, i + 1));
      }
    }
    assert Encodable(f, v);
    out.bytes := out.bytes + [RIGHT_BRACKET];
    Associates(old(out.bytes), [LEFT_BRACKET], EncodeItems(f, v, 0));
    Associates(old(out.bytes), [LEFT_BRACKET] + EncodeItems(f, v, 0), [RIGHT_BRACKET]);
    ok := true;
  }

  lemma PieceWritten(before: ByteString, separator: ByteString, piece: ByteString, later: ByteString)
    ensures (before + separator + piece) + later == before + (separator + piece + later)
    ensures before + [] == before
  {
  }

  method WriteMember(name: Name, value: Json, f: Formatter, out: Output) returns (ok: bool)
    modifies out
    ensures ok <==> Encodable(f, value)
    ensures ok ==> out.bytes == old(out.bytes) + (Quoted(name) + [COLON] + Encode(f, value))
    decreases value, 3
  {
    hide Quoted, Encode, Encodable;
    WriteString(name, out);
    out.bytes := out.bytes + [COLON];
    ok := WriteValue(value, f, out);
    if ok {
      Associates(old(out.bytes), Quoted(name), [COLON]);
      Associates(old(out.bytes), Quoted(name) + [COLON], Encode(f, value));
    }
  }

  method WriteObject(v: Json, f: Formatter, out: Output) returns (ok: bool)
    requires v.Object?
    modifies out
    ensures ok <==> Encodable(f, v)
    ensures ok ==> out.bytes == old(out.bytes) + Encode(f, v)
    decreases v, 1
  {
    hide Quoted, SortedNames, Increasing;
    var collected := Listed(v.members.Keys);
    var names := SortNames(collected, v.members.Keys);
    out.bytes := out.bytes + [LEFT_BRACE];
    ok := WriteMembers(v, names, f, out);
    if !ok {
      return;
    }
    hide EncodeMembers;
    out.bytes := out.bytes + [RIGHT_BRACE];
    Associates(old(out.bytes), [LEFT_BRACE], EncodeMembers(f, v, names, 0));
    Associates(old(out.bytes), [LEFT_BRACE] + EncodeMembers(f, v, names, 0), [RIGHT_BRACE]);
  }

  /** The loop over the sorted members. */
  method WriteMembers(v: Json, names: seq<Name>, f: Formatter, out: Output) returns (ok: bool)
    requires v.Object? && forall name :: name in names <==> name in v.members
    modifies out
    ensures ok <==> Encodable(f, v)
    ensures ok ==> out.bytes == old(out.bytes) + EncodeMembers(f, v, names, 0)
    decreases v, 0
  {
    hide Quoted, Encode;
    ghost var start := out.bytes;
    for i := 0 to |names|
      invariant forall j :: 0 <= j < i ==> Encodable(f, v.members[names[j]])
      invariant Encodable(f, v) ==> out.bytes + EncodeMembers(f, v, names, i) == start + EncodeMembers(f, v, names, 0)
    {
      ghost var before := out.bytes;
      if i > 0 {
        out.bytes := out.bytes + [COMMA];
      }
      assert names[i] in names;
      ok := WriteMember(names[i], v.members[names[i]], f, out);
      if !ok {
        return;
      }
      if Encodable(f, v) {
        PieceWritten(before, Separator(i), EncodeMember(f, v, names[i]), EncodeMembers(f, v, names, i + 1));
      }
    }
    forall name | name in v.members ensures Encodable(f, v.members[name]) {
      assert name in names;
      var j :| 0 <= j < |names| && names[j] == name;
    }
    ok := true;
  }

  /** `canonical_json_bytes`. */
  method CanonicalJsonBytes(v: Json, f: Formatter) returns (r: Option<ByteString>)
    ensures r.Some? <==> Encodable(f, v)
    ensures Faithful(f) ==> (r.Some? <==> AllSafe(v))
    ensures r.Some? ==> r.value == Encode(f, v)
  {
    hide Faithful, AllSafe, Encodable;
    if Faithful(f) {
      EncodableExactly(f, v);
    }
    var out := new Output();
    var ok := WriteValue(v, f, out);
    if !ok {
      return None;
    }
    assert [] + Encode(f, v) == Encode(f, v);
    r := Some(out.bytes);
  }
}
