/** The wire format read back: what the bytes of a value mean, one numeral at a time, and that encoding is undone. */
module Reading {
  import opened Wrappers
  import opened ByteStrings
  import opened Hex
  import opened Numbers
  import opened Values
  import opened Sequences

  /** What was read, and what is left behind it. */
  type Read<+T> = Option<(T, Bytes)>
  type Reader<!T> = Bytes -> Read<T>

  /** In front of whatever follows, the code is read as x. */
  ghost predicate Reads<T>(read: Reader<T>, code: Bytes, x: T) {
    forall rest :: read(code + rest) == Some((x, rest))
  }

  // ---------- numbers, byte strings, optionals and lists ----------

  function ReadNat(width: nat, s: Bytes): Read<nat> {
    if |s| < width then None else Some((ValueOf(s[..width]), s[width..]))
  }

  function ReadInt32(s: Bytes): Read<int> {
    var (n, t) :- ReadNat(4, s);
    Some((if n < 0x8000_0000 then n else n - 0x1_0000_0000, t))
  }

  function ReadInt64(s: Bytes): Read<int> {
    var (n, t) :- ReadNat(8, s);
    Some((if n < 0x8000_0000_0000_0000 then n else n - 0x1_0000_0000_0000_0000, t))
  }

  function ReadBool(s: Bytes): Read<bool> {
    if s == [] || s[0] > 1 then None else Some((s[0] == 1, s[1..]))
  }

  /** That many bytes. */
  function ReadFixed(width: nat, s: Bytes): Read<Bytes> {
    if |s| < width then None else Some((s[..width], s[width..]))
  }

  function ReadBytes(s: Bytes): Read<Bytes> {
    var (n, t) :- ReadNat(4, s);
    ReadFixed(n, t)
  }

  function ReadHex(s: Bytes): Read<string> {
    var (bytes, t) :- ReadBytes(s);
    Some((ToHex(bytes), t))
  }

  function ReadOptional<T>(read: Reader<T>, s: Bytes): Read<Option<T>> {
    if s == [] || s[0] > 1 then None
    else if s[0] == 0 then Some((None, s[1..]))
    else
      var (x, t) :- read(s[1..]);
      Some((Some(x), t))
  }

  function ReadMany<T>(read: Reader<T>, n: nat, s: Bytes): Read<seq<T>> {
    if n == 0 then Some(([], s))
    else
      var (x, t) :- read(s);
      var (xs, u) :- ReadMany(read, n - 1, t);
      Some(([x] + xs, u))
  }

  function ReadRepeated<T>(read: Reader<T>, s: Bytes): Read<seq<T>> {
    var (n, t) :- ReadNat(4, s);
    ReadMany(read, n, t)
  }

  function ReadStrings(s: Bytes): Read<seq<Utf8>> {
    ReadRepeated(ReadBytes, s)
  }

  /** A name in pieces, none of which holds a dot. */
  function ReadName(s: Bytes): Read<Utf8> {
    var (pieces, t) :- ReadStrings(s);
    if pieces == [] || exists i :: 0 <= i < |pieces| && 0x2e in pieces[i] then None else Some((JoinDots(pieces), t))
  }

  function ReadIdentifier(s: Bytes): Read<Identifier> {
    var (packageId, t) :- ReadBytes(s);
    var (moduleName, u) :- ReadName(t);
    var (entityName, rest) :- ReadName(u);
    Some((Identifier(packageId, moduleName, entityName), rest))
  }

  // ---------- values ----------

  /** A value nested less deeply than the bound. */
  function ReadNested(bound: nat, s: Bytes): Read<Value>
    decreases bound, 0
  {
    if bound == 0 || s == [] then None
    else if s[0] <= 0x08 then ReadScalar(s[0], s[1..])
    else if s[0] <= 0x0f then ReadComposite(bound - 1, s[0], s[1..])
    else None
  }

  function ReadScalar(tag: byte, s: Bytes): Read<Value> {
    match tag
    case 0x00 => Some((Unit, s))
    case 0x01 => var (b, t) :- ReadBool(s); Some((Bool(b), t))
    case 0x02 => var (n, t) :- ReadInt64(s); Some((Int64(n), t))
    case 0x03 => var (text, t) :- ReadBytes(s); Some((Numeric(text), t))
    case 0x04 => var (n, t) :- ReadInt64(s); Some((Timestamp(n), t))
    case 0x05 => var (n, t) :- ReadInt32(s); Some((Date(n), t))
    case 0x06 => var (text, t) :- ReadBytes(s); Some((Party(text), t))
    case 0x07 => var (text, t) :- ReadBytes(s); Some((Text(text), t))
    case 0x08 => var (hex, t) :- ReadHex(s); Some((ContractId(hex), t))
    case _ => None
  }

  function ReadComposite(bound: nat, tag: byte, s: Bytes): Read<Value>
    decreases bound, 3
  {
    match tag
    case 0x09 => var (o, t) :- ReadOptional(ValueReader(bound), s); Some((Optional(o), t))
    case 0x0a => var (vs, t) :- ReadRepeated(ValueReader(bound), s); Some((List(vs), t))
    case 0x0b => var (es, t) :- ReadRepeated(TextEntryReader(bound), s); Some((TextMap(es), t))
    case 0x0c => ReadRecord(bound, s)
    case 0x0d => ReadVariant(bound, s)
    case 0x0e => ReadEnum(s)
    case 0x0f => var (es, t) :- ReadRepeated(EntryReader(bound), s); Some((GenMap(es), t))
    case _ => None
  }

  function ReadRecord(bound: nat, s: Bytes): Read<Value>
    decreases bound, 2
  {
    var (id, t) :- ReadOptional(ReadIdentifier, s);
    var (fs, u) :- ReadRepeated(FieldReader(bound), t);
    Some((Record(id, fs), u))
  }

  function ReadVariant(bound: nat, s: Bytes): Read<Value>
    decreases bound, 2
  {
    var (id, t) :- ReadOptional(ReadIdentifier, s);
    var (name, u) :- ReadBytes(t);
    var (v, rest) :- ReadNested(bound, u);
    Some((Variant(id, name, v), rest))
  }

  function ReadEnum(s: Bytes): Read<Value> {
    var (id, t) :- ReadOptional(ReadIdentifier, s);
    var (name, u) :- ReadBytes(t);
    Some((Enum(id, name), u))
  }

  function ValueReader(bound: nat): Reader<Value>
    decreases bound, 1
  {
    s => ReadNested(bound, s)
  }

  function TextEntryReader(bound: nat): Reader<TextMapEntry>
    decreases bound, 1
  {
    s =>
      var (key, t) :- ReadBytes(s);
      var (v, u) :- ReadNested(bound, t);
      Some((TextMapEntry(key, v), u))
  }

  function FieldReader(bound: nat): Reader<RecordField>
    decreases bound, 1
  {
    s =>
      var (name, t) :- ReadOptional(ReadBytes, s);
      var (v, u) :- ReadNested(bound, t);
      Some((RecordField(name, v), u))
  }

  function EntryReader(bound: nat): Reader<GenMapEntry>
    decreases bound, 1
  {
    s =>
      var (k, t) :- ReadNested(bound, s);
      var (v, u) :- ReadNested(bound, t);
      Some((GenMapEntry(k, v), u))
  }

  /** Each level of nesting takes at least its tag byte. */
  function ReadValue(s: Bytes): Read<Value> {
    ReadNested(|s|, s)
  }

  // ---------- reading undoes encoding ----------

  lemma Front(code: Bytes, rest: Bytes)
    ensures (code + rest)[..|code|] == code && (code + rest)[|code|..] == rest
  {
  }

  lemma FixedReads(code: Bytes, rest: Bytes)
    ensures ReadFixed(|code|, code + rest) == Some((code, rest))
  {
    Front(code, rest);
  }

  lemma NatReads(n: nat, rest: Bytes)
    requires n < TWO_32
    ensures ReadNat(4, EncodeInt32(n) + rest) == Some((n, rest))
  {
    Front(EncodeInt32(n), rest);
    Int32Value(n);
  }

  lemma Int32Reads(n: int, rest: Bytes)
    requires -TWO_31 <= n < TWO_31
    ensures ReadInt32(EncodeInt32(n) + rest) == Some((n, rest))
  {
    Front(EncodeInt32(n), rest);
    Int32Value(n);
  }

  lemma Int64Reads(n: int, rest: Bytes)
    requires IsInt64(n)
    ensures ReadInt64(EncodeInt64(n) + rest) == Some((n, rest))
  {
    Front(EncodeInt64(n), rest);
    Int64Value(n);
  }

  lemma BytesRead(x: Bytes)
    requires |x| < TWO_32
    ensures Reads(ReadBytes, EncodeBytes(x), x)
  {
    forall rest
      ensures ReadBytes(EncodeBytes(x) + rest) == Some((x, rest))
    {
      assert EncodeBytes(x) + rest == EncodeInt32(|x|) + (x + rest);
      NatReads(|x|, x + rest);
      FixedReads(x, rest);
    }
  }

  lemma HexReads(x: string)
    requires WfHex(x)
    ensures Reads(ReadHex, EncodeHexString(x), x)
  {
    BytesRead(HexBytes(x));
    ToHexHexBytes(x);
  }

  lemma OptionalReads<T>(read: Reader<T>, code: Option<Code>, x: Option<T>, rest: Bytes)
    requires EncodeOptional(code).Some? && (code.Some? <==> x.Some?)
    requires code.Some? && code.value.Some? ==> Reads(read, code.value.value, x.value)
    ensures ReadOptional(read, EncodeOptional(code).value + rest) == Some((x, rest))
  {
    if x.Some? {
      JoinTwo(Some([1]), code.value);
      assert [1] + code.value.value + rest == [1] + (code.value.value + rest);
      Front([1], code.value.value + rest);
    } else {
      Front([0], rest);
    }
  }

  lemma JoinFront(parts: seq<Code>, rest: Bytes)
    requires parts != [] && Join(parts).Some?
    ensures parts[0].Some? && Join(parts[1..]).Some?
    ensures Join(parts).value + rest == parts[0].value + (Join(parts[1..]).value + rest)
  {
    Associative(parts[0].value, Join(parts[1..]).value, rest);
  }

  lemma JoinOne(code: Code)
    ensures Join([code]) == code
  {
    assert code.Some? ==> code.value + [] == code.value;
  }

  lemma {:induction false} PartSize(parts: seq<Code>, i: nat)
    requires Join(parts).Some? && i < |parts|
    ensures parts[i].Some? && |parts[i].value| <= |Join(parts).value|
  {
    if i > 0 {
      PartSize(parts[1..], i - 1);
    }
  }

  lemma {:induction false} ManyRead<T>(read: Reader<T>, codes: seq<Code>, xs: seq<T>, rest: Bytes)
    requires |codes| == |xs| && Join(codes).Some?
    requires forall i :: 0 <= i < |xs| ==> codes[i].Some? && Reads(read, codes[i].value, xs[i])
    ensures ReadMany(read, |xs|, Join(codes).value + rest) == Some((xs, rest))
  {
    if xs == [] {
      assert [] + rest == rest;
    } else {
      JoinFront(codes, rest);
      assert Reads(read, codes[0].value, xs[0]);
      assert forall i :: 0 <= i < |xs[1..]| ==> codes[1..][i] == codes[i + 1] && xs[1..][i] == xs[i + 1];
      ManyRead(read, codes[1..], xs[1..], rest);
      assert xs == [xs[0]] + xs[1..];
    }
  }

  lemma RepeatedReads<T>(read: Reader<T>, codes: seq<Code>, xs: seq<T>, rest: Bytes)
    requires |codes| == |xs| < TWO_32 && EncodeRepeated(codes).Some?
    requires forall i :: 0 <= i < |xs| ==> codes[i].Some? && Reads(read, codes[i].value, xs[i])
    ensures ReadRepeated(read, EncodeRepeated(codes).value + rest) == Some((xs, rest))
  {
    var count := EncodeInt32(|xs|);
    JoinTwo(Some(count), Join(codes));
    assert count + Join(codes).value + rest == count + (Join(codes).value + rest);
    NatReads(|xs|, Join(codes).value + rest);
    ManyRead(read, codes, xs, rest);
  }

  lemma StringsRead(xs: seq<Utf8>)
    requires WfStrings(xs)
    ensures EncodeStrings(xs).Some? && Reads(ReadStrings, EncodeStrings(xs).value, xs)
  {
    StringsSome(xs);
    var codes: seq<Code> := seq(|xs|, i requires 0 <= i < |xs| => Some(EncodeBytes(xs[i])));
    forall rest
      ensures ReadStrings(EncodeStrings(xs).value + rest) == Some((xs, rest))
    {
      forall i | 0 <= i < |xs|
        ensures Reads(ReadBytes, codes[i].value, xs[i])
      {
        BytesRead(xs[i]);
      }
      RepeatedReads(ReadBytes, codes, xs, rest);
    }
  }

  lemma {:induction false} PiecesHaveNoDot(s: Utf8)
    ensures forall i :: 0 <= i < |SplitDots(s)| ==> 0x2e !in SplitDots(s)[i]
  {
    if s != [] {
      PiecesHaveNoDot(s[1..]);
    }
  }

  lemma NameReads(s: Utf8)
    requires Short(s)
    ensures Reads(ReadName, EncodeName(s), s)
  {
    PiecesHaveNoDot(s);
    JoinSplitDots(s);
    StringsRead(SplitDots(s));
  }

  lemma IdentifierReads(id: Identifier)
    requires WfIdentifier(id)
    ensures EncodeIdentifier(id).Some? && Reads(ReadIdentifier, EncodeIdentifier(id).value, id)
  {
    IdentifierSome(id);
    forall rest
      ensures ReadIdentifier(EncodeIdentifier(id).value + rest) == Some((id, rest))
    {
      IdentifierFront(id, rest);
      BytesRead(id.packageId);
      NameReads(id.moduleName);
      NameReads(id.entityName);
      IdentifierSteps(id, EncodeBytes(id.packageId), EncodeName(id.moduleName), EncodeName(id.entityName), rest);
    }
  }

  lemma IdentifierFront(id: Identifier, rest: Bytes)
    ensures EncodeIdentifier(id).Some?
    ensures EncodeIdentifier(id).value + rest
      == EncodeBytes(id.packageId) + (EncodeName(id.moduleName) + (EncodeName(id.entityName) + rest))
  {
    StringsSome(SplitDots(id.moduleName));
    StringsSome(SplitDots(id.entityName));
    ThreeParts(EncodeBytes(id.packageId), EncodeName(id.moduleName), EncodeName(id.entityName), rest);
  }

  lemma IdentifierSteps(id: Identifier, p: Bytes, m: Bytes, e: Bytes, rest: Bytes)
    requires Reads(ReadBytes, p, id.packageId) && Reads(ReadName, m, id.moduleName) && Reads(ReadName, e, id.entityName)
    ensures ReadIdentifier(p + (m + (e + rest))) == Some((id, rest))
  {
    assert ReadBytes(p + (m + (e + rest))) == Some((id.packageId, m + (e + rest)));
    assert ReadName(m + (e + rest)) == Some((id.moduleName, e + rest));
    assert ReadName(e + rest) == Some((id.entityName, rest));
  }

  function EncodeName(s: Utf8): Bytes
  {
    StringsSome(SplitDots(s));
    EncodeStrings(SplitDots(s)).value
  }

  lemma ThreeParts(a: Bytes, b: Bytes, c: Bytes, rest: Bytes)
    ensures Join([Some(a), Some(b), Some(c)]).Some?
    ensures Join([Some(a), Some(b), Some(c)]).value + rest == a + (b + (c + rest))
  {
    JoinTwo(Some(b), Some(c));
    assert [Some(a), Some(b), Some(c)][1..] == [Some(b), Some(c)];
  }

  lemma OptionalIdentifierReads(id: Option<Identifier>, rest: Bytes)
    requires WfOptionalIdentifier(id)
    ensures EncodeOptionalIdentifier(id).Some?
    ensures ReadOptional(ReadIdentifier, EncodeOptionalIdentifier(id).value + rest) == Some((id, rest))
  {
    OptionalIdentifierSome(id);
    if id.Some? {
      IdentifierReads(id.value);
    }
    OptionalReads(ReadIdentifier, match id case None => None case Some(i) => Some(EncodeIdentifier(i)), id, rest);
  }

  lemma LabelReads(name: Option<Utf8>, rest: Bytes)
    requires name.Some? ==> Short(name.value)
    ensures EncodeLabel(name).Some?
    ensures ReadOptional(ReadBytes, EncodeLabel(name).value + rest) == Some((name, rest))
  {
    if name.Some? {
      BytesRead(name.value);
    }
    var code: Option<Code> := match name case None => None case Some(s) => Some(Some(EncodeBytes(s)));
    OptionalSome(code);
    OptionalReads(ReadBytes, code, name, rest);
  }

  // ---------- values ----------

  /** What has to be read behind the tag of a value without parts that are values. */
  ghost predicate ScalarContentReads(v: Value, p: Bytes, rest: Bytes)
    requires IsScalar(v)
  {
    match v
    case Unit => p == []
    case Bool(b) => ReadBool(p + rest) == Some((b, rest))
    case Int64(n) => ReadInt64(p + rest) == Some((n, rest))
    case Numeric(text) => ReadBytes(p + rest) == Some((text, rest))
    case Timestamp(n) => ReadInt64(p + rest) == Some((n, rest))
    case Date(n) => ReadInt32(p + rest) == Some((n, rest))
    case Party(text) => ReadBytes(p + rest) == Some((text, rest))
    case Text(text) => ReadBytes(p + rest) == Some((text, rest))
    case ContractId(hex) => ReadHex(p + rest) == Some((hex, rest))
  }

  lemma ScalarSteps(v: Value, p: Bytes, rest: Bytes)
    requires IsScalar(v) && ScalarContentReads(v, p, rest)
    ensures ReadScalar(Tag(v), p + rest) == Some((v, rest))
  {
    if v.Unit? {
      assert p + rest == rest;
    }
  }

  lemma ScalarReads(v: Value, rest: Bytes)
    requires IsScalar(v) && WfValue(v)
    ensures Join(ValueParts(v)).Some?
    ensures ReadScalar(Tag(v), Join(ValueParts(v)).value + rest) == Some((v, rest))
  {
    if !v.Unit? {
      JoinOne(ValueParts(v)[0]);
    }
    assert ScalarContentReads(v, Join(ValueParts(v)).value, rest) by {
      match v
      case Unit =>
      case Bool(b) => Front(EncodeBool(b), rest);
      case Int64(n) => Int64Reads(n, rest);
      case Numeric(s) => BytesRead(s);
      case Timestamp(n) => Int64Reads(n, rest);
      case Date(n) => Int32Reads(n, rest);
      case Party(s) => BytesRead(s);
      case Text(s) => BytesRead(s);
      case ContractId(s) => HexReads(s);
    }
    ScalarSteps(v, Join(ValueParts(v)).value, rest);
  }

  /** Whatever follows the encoding of a value, the value is read from its front. */
  lemma {:induction false} NestedReads(bound: nat, v: Value)
    requires WfValue(v) && EncodeValue(v).Some? && |EncodeValue(v).value| <= bound
    ensures Reads(ValueReader(bound), EncodeValue(v).value, v)
    decreases v, 2
  {
    forall rest
      ensures ValueReader(bound)(EncodeValue(v).value + rest) == Some((v, rest))
    {
      TagFront(v, rest);
      PartsRead(bound - 1, v, rest);
      NestedStep(bound, Tag(v), Join(ValueParts(v)).value + rest, v, rest);
    }
  }

  lemma {:induction false} PartsRead(bound: nat, v: Value, rest: Bytes)
    requires WfValue(v) && !v.Unset? && Join(ValueParts(v)).Some? && |Join(ValueParts(v)).value| <= bound
    ensures IsScalar(v) ==> ReadScalar(Tag(v), Join(ValueParts(v)).value + rest) == Some((v, rest))
    ensures !IsScalar(v) ==> ReadComposite(bound, Tag(v), Join(ValueParts(v)).value + rest) == Some((v, rest))
    decreases v, 1
  {
    if IsScalar(v) {
      ScalarReads(v, rest);
    } else if v.Record? || v.Variant? || v.Enum? {
      NamedReads(bound, v, rest);
    } else {
      ContainerReads(bound, v, rest);
    }
    if !IsScalar(v) {
      CompositeSteps(bound, v, Join(ValueParts(v)).value + rest, rest);
    }
  }

  /** What has to be read behind the tag of any other value. */
  ghost predicate CompositeContentReads(bound: nat, v: Value, s: Bytes, rest: Bytes)
    requires !IsScalar(v) && !v.Unset?
  {
    match v
    case Optional(o) => ReadOptional(ValueReader(bound), s) == Some((o, rest))
    case List(vs) => ReadRepeated(ValueReader(bound), s) == Some((vs, rest))
    case TextMap(es) => ReadRepeated(TextEntryReader(bound), s) == Some((es, rest))
    case Record(_, _) => ReadRecord(bound, s) == Some((v, rest))
    case Variant(_, _, _) => ReadVariant(bound, s) == Some((v, rest))
    case Enum(_, _) => ReadEnum(s) == Some((v, rest))
    case GenMap(es) => ReadRepeated(EntryReader(bound), s) == Some((es, rest))
  }

  lemma CompositeSteps(bound: nat, v: Value, s: Bytes, rest: Bytes)
    requires !IsScalar(v) && !v.Unset? && CompositeContentReads(bound, v, s, rest)
    ensures ReadComposite(bound, Tag(v), s) == Some((v, rest))
  {
  }

  lemma NestedStep(bound: nat, tag: byte, s: Bytes, v: Value, rest: Bytes)
    requires bound > 0 && tag <= 0x0f
    requires tag <= 0x08 ==> ReadScalar(tag, s) == Some((v, rest))
    requires tag > 0x08 ==> ReadComposite(bound - 1, tag, s) == Some((v, rest))
    ensures ReadNested(bound, [tag] + s) == Some((v, rest))
  {
    Front([tag], s);
  }

  lemma TagFront(v: Value, rest: Bytes)
    requires EncodeValue(v).Some?
    ensures Join(ValueParts(v)).Some? && |EncodeValue(v).value| == 1 + |Join(ValueParts(v)).value|
    ensures EncodeValue(v).value + rest == [Tag(v)] + (Join(ValueParts(v)).value + rest)
    ensures Tag(v) <= 0x0f && (IsScalar(v) <==> Tag(v) <= 0x08)
  {
    JoinHead([Tag(v)], ValueParts(v));
  }

  lemma {:induction false} ContainerReads(bound: nat, v: Value, rest: Bytes)
    requires v.Optional? || v.List? || v.TextMap? || v.GenMap?
    requires WfValue(v) && Join(ValueParts(v)).Some? && |Join(ValueParts(v)).value| <= bound
    ensures CompositeContentReads(bound, v, Join(ValueParts(v)).value + rest, rest)
    decreases v, 0
  {
    JoinOne(ValueParts(v)[0]);
    match v
    case Optional(o) => OptionalValueReads(bound, o, rest);
    case List(vs) => ElementsRead(bound, vs, rest);
    case TextMap(es) => TextEntriesRead(bound, es, rest);
    case GenMap(es) => EntriesRead(bound, es, rest);
  }

  lemma {:induction false} OptionalValueReads(bound: nat, o: Option<Value>, rest: Bytes)
    requires (o.Some? ==> WfValue(o.value))
    requires var code := EncodeOptional(match o case None => None case Some(w) => Some(EncodeValue(w)));
      code.Some? && |code.value| <= bound
    ensures ReadOptional(ValueReader(bound),
              EncodeOptional(match o case None => None case Some(w) => Some(EncodeValue(w))).value + rest)
      == Some((o, rest))
    decreases o
  {
    if o.Some? {
      JoinTwo(Some([1]), EncodeValue(o.value));
      NestedReads(bound, o.value);
    }
    OptionalReads(ValueReader(bound), match o case None => None case Some(w) => Some(EncodeValue(w)), o, rest);
  }

  lemma {:induction false} ElementsRead(bound: nat, vs: seq<Value>, rest: Bytes)
    requires Short(vs) && forall i :: 0 <= i < |vs| ==> WfValue(vs[i])
    requires EncodeRepeated(ElementCodes(vs)).Some? && |EncodeRepeated(ElementCodes(vs)).value| <= bound
    ensures ReadRepeated(ValueReader(bound), EncodeRepeated(ElementCodes(vs)).value + rest) == Some((vs, rest))
    decreases vs
  {
    JoinTwo(Some(EncodeInt32(|vs|)), Join(ElementCodes(vs)));
    forall i | 0 <= i < |vs|
      ensures ElementCodes(vs)[i].Some? && Reads(ValueReader(bound), ElementCodes(vs)[i].value, vs[i])
    {
      PartSize(ElementCodes(vs), i);
      NestedReads(bound, vs[i]);
    }
    RepeatedReads(ValueReader(bound), ElementCodes(vs), vs, rest);
  }

  lemma {:induction false} TextEntriesRead(bound: nat, es: seq<TextMapEntry>, rest: Bytes)
    requires Short(es) && forall i :: 0 <= i < |es| ==> Short(es[i].key) && WfValue(es[i].value)
    requires EncodeRepeated(TextEntryCodes(es)).Some? && |EncodeRepeated(TextEntryCodes(es)).value| <= bound
    ensures ReadRepeated(TextEntryReader(bound), EncodeRepeated(TextEntryCodes(es)).value + rest) == Some((es, rest))
    decreases es
  {
    JoinTwo(Some(EncodeInt32(|es|)), Join(TextEntryCodes(es)));
    forall i | 0 <= i < |es|
      ensures TextEntryCodes(es)[i].Some? && Reads(TextEntryReader(bound), TextEntryCodes(es)[i].value, es[i])
    {
      PartSize(TextEntryCodes(es), i);
      TextEntryReads(bound, es[i]);
    }
    RepeatedReads(TextEntryReader(bound), TextEntryCodes(es), es, rest);
  }

  lemma {:induction false} EntriesRead(bound: nat, es: seq<GenMapEntry>, rest: Bytes)
    requires Short(es) && forall i :: 0 <= i < |es| ==> WfValue(es[i].key) && WfValue(es[i].value)
    requires EncodeRepeated(EntryCodes(es)).Some? && |EncodeRepeated(EntryCodes(es)).value| <= bound
    ensures ReadRepeated(EntryReader(bound), EncodeRepeated(EntryCodes(es)).value + rest) == Some((es, rest))
    decreases es
  {
    JoinTwo(Some(EncodeInt32(|es|)), Join(EntryCodes(es)));
    forall i | 0 <= i < |es|
      ensures EntryCodes(es)[i].Some? && Reads(EntryReader(bound), EntryCodes(es)[i].value, es[i])
    {
      PartSize(EntryCodes(es), i);
      EntryReads(bound, es[i]);
    }
    RepeatedReads(EntryReader(bound), EntryCodes(es), es, rest);
  }

  lemma {:induction false} NamedReads(bound: nat, v: Value, rest: Bytes)
    requires v.Record? || v.Variant? || v.Enum?
    requires WfValue(v) && Join(ValueParts(v)).Some? && |Join(ValueParts(v)).value| <= bound
    ensures CompositeContentReads(bound, v, Join(ValueParts(v)).value + rest, rest)
    decreases v, 0
  {
    match v
    case Record(id, fs) => FieldsRead(bound, id, fs, rest);
    case Variant(id, c, w) => VariantReads(bound, v, rest);
    case Enum(id, c) => EnumReads(v, rest);
  }

  lemma {:induction false} VariantReads(bound: nat, v: Value, rest: Bytes)
    requires v.Variant? && WfValue(v) && Join(ValueParts(v)).Some? && |Join(ValueParts(v)).value| <= bound
    ensures ReadVariant(bound, Join(ValueParts(v)).value + rest) == Some((v, rest))
    decreases v.payload, 3
  {
    var i, n, u := EncodeOptionalIdentifier(v.variantId), EncodeBytes(v.constr), EncodeValue(v.payload);
    PartSize([i, Some(n), u], 2);
    ThreeParts(i.value, n, u.value, rest);
    OptionalIdentifierReads(v.variantId, n + (u.value + rest));
    BytesRead(v.constr);
    NestedReads(bound, v.payload);
    VariantSteps(bound, v, i.value, n, u.value, rest);
  }

  lemma EnumReads(v: Value, rest: Bytes)
    requires v.Enum? && WfValue(v) && Join(ValueParts(v)).Some?
    ensures ReadEnum(Join(ValueParts(v)).value + rest) == Some((v, rest))
  {
    var i, n := EncodeOptionalIdentifier(v.enumId), EncodeBytes(v.enumConstr);
    JoinTwo(i, Some(n));
    OptionalIdentifierReads(v.enumId, n + rest);
    BytesRead(v.enumConstr);
    EnumSteps(v, i.value, n, rest);
  }

  lemma {:induction false} FieldsRead(bound: nat, id: Option<Identifier>, fs: seq<RecordField>, rest: Bytes)
    requires var v := Record(id, fs);
      WfValue(v) && Join(ValueParts(v)).Some? && |Join(ValueParts(v)).value| <= bound
    ensures ReadRecord(bound, Join(ValueParts(Record(id, fs))).value + rest) == Some((Record(id, fs), rest))
    decreases fs, 0
  {
    var codes := FieldCodes(fs);
    var i, r := EncodeOptionalIdentifier(id), EncodeRepeated(codes);
    JoinTwo(i, r);
    JoinTwo(Some(EncodeInt32(|fs|)), Join(codes));
    forall k | 0 <= k < |fs|
      ensures codes[k].Some? && Reads(FieldReader(bound), codes[k].value, fs[k])
    {
      PartSize(codes, k);
      FieldReads(bound, fs[k]);
    }
    RepeatedReads(FieldReader(bound), codes, fs, rest);
    OptionalIdentifierReads(id, r.value + rest);
    RecordSteps(bound, id, fs, i.value, r.value, rest);
  }

  lemma RecordSteps(bound: nat, id: Option<Identifier>, fs: seq<RecordField>, p: Bytes, q: Bytes, rest: Bytes)
    requires ReadOptional(ReadIdentifier, p + (q + rest)) == Some((id, q + rest))
    requires ReadRepeated(FieldReader(bound), q + rest) == Some((fs, rest))
    ensures ReadRecord(bound, p + q + rest) == Some((Record(id, fs), rest))
  {
    Associative(p, q, rest);
  }

  lemma VariantSteps(bound: nat, v: Value, p: Bytes, q: Bytes, r: Bytes, rest: Bytes)
    requires v.Variant? && ReadOptional(ReadIdentifier, p + (q + (r + rest))) == Some((v.variantId, q + (r + rest)))
    requires Reads(ReadBytes, q, v.constr) && Reads(ValueReader(bound), r, v.payload)
    ensures ReadVariant(bound, p + (q + (r + rest))) == Some((v, rest))
  {
    assert ReadBytes(q + (r + rest)) == Some((v.constr, r + rest));
    assert ValueReader(bound)(r + rest) == Some((v.payload, rest));
  }

  lemma EnumSteps(v: Value, p: Bytes, q: Bytes, rest: Bytes)
    requires v.Enum? && ReadOptional(ReadIdentifier, p + (q + rest)) == Some((v.enumId, q + rest))
    requires Reads(ReadBytes, q, v.enumConstr)
    ensures ReadEnum(p + q + rest) == Some((v, rest))
  {
    Associative(p, q, rest);
    assert ReadBytes(q + rest) == Some((v.enumConstr, rest));
  }

  lemma {:induction false} TextEntryReads(bound: nat, e: TextMapEntry)
    requires Short(e.key) && WfValue(e.value)
    requires EncodeTextMapEntry(e).Some? && |EncodeTextMapEntry(e).value| <= bound
    ensures Reads(TextEntryReader(bound), EncodeTextMapEntry(e).value, e)
    decreases e
  {
    var a, b := EncodeBytes(e.key), EncodeValue(e.value);
    JoinTwo(Some(a), b);
    BytesRead(e.key);
    NestedReads(bound, e.value);
    forall rest
      ensures TextEntryReader(bound)(EncodeTextMapEntry(e).value + rest) == Some((e, rest))
    {
      TextEntrySteps(bound, e, a, b.value, rest);
    }
  }

  lemma TextEntrySteps(bound: nat, e: TextMapEntry, a: Bytes, b: Bytes, rest: Bytes)
    requires Reads(ReadBytes, a, e.key) && Reads(ValueReader(bound), b, e.value)
    ensures TextEntryReader(bound)(a + b + rest) == Some((e, rest))
  {
    Associative(a, b, rest);
    assert ReadBytes(a + (b + rest)) == Some((e.key, b + rest));
    assert ValueReader(bound)(b + rest) == Some((e.value, rest));
  }

  lemma {:induction false} FieldReads(bound: nat, f: RecordField)
    requires (f.fieldLabel.Some? ==> Short(f.fieldLabel.value)) && WfValue(f.value)
    requires EncodeRecordField(f).Some? && |EncodeRecordField(f).value| <= bound
    ensures Reads(FieldReader(bound), EncodeRecordField(f).value, f)
    decreases f
  {
    var a, b := EncodeLabel(f.fieldLabel), EncodeValue(f.value);
    JoinTwo(a, b);
    NestedReads(bound, f.value);
    forall rest
      ensures FieldReader(bound)(EncodeRecordField(f).value + rest) == Some((f, rest))
    {
      LabelReads(f.fieldLabel, b.value + rest);
      assert a.value + b.value + rest == a.value + (b.value + rest);
    }
  }

  lemma {:induction false} EntryReads(bound: nat, e: GenMapEntry)
    requires WfValue(e.key) && WfValue(e.value)
    requires EncodeGenMapEntry(e).Some? && |EncodeGenMapEntry(e).value| <= bound
    ensures Reads(EntryReader(bound), EncodeGenMapEntry(e).value, e)
    decreases e
  {
    var a, b := EncodeValue(e.key), EncodeValue(e.value);
    JoinTwo(a, b);
    NestedReads(bound, e.key);
    NestedReads(bound, e.value);
    forall rest
      ensures EntryReader(bound)(EncodeGenMapEntry(e).value + rest) == Some((e, rest))
    {
      assert a.value + b.value + rest == a.value + (b.value + rest);
    }
  }

  /** Reading undoes encoding: the value is read from the front of its bytes, whatever stands behind them. */
  lemma ValueReads(v: Value)
    requires WfValue(v) && EncodeValue(v).Some?
    ensures Reads(ReadValue, EncodeValue(v).value, v)
  {
    forall rest
      ensures ReadValue(EncodeValue(v).value + rest) == Some((v, rest))
    {
      NestedReads(|EncodeValue(v).value + rest|, v);
    }
  }

  /**
   * What can be read from its front cannot be confused: the same bytes with whatever behind them come from one value.
   */
  lemma ReadOneWay<T>(read: Reader<T>, a: Bytes, x: T, s: Bytes, b: Bytes, y: T, t: Bytes)
    requires Reads(read, a, x) && Reads(read, b, y) && a + s == b + t
    ensures x == y && s == t
  {
    assert read(a + s) == Some((x, s)) && read(b + t) == Some((y, t));
  }

  /** The encoding is uniquely decodable: it can be read off the front of any byte string in one way only. */
  lemma ValueUniquelyDecodable(v: Value, s: Bytes, w: Value, t: Bytes)
    requires WfValue(v) && WfValue(w)
    requires EncodeValue(v).Some? && EncodeValue(w).Some?
    requires EncodeValue(v).value + s == EncodeValue(w).value + t
    ensures v == w && s == t
  {
    ValueReads(v);
    ValueReads(w);
    ReadOneWay(ReadValue, EncodeValue(v).value, v, s, EncodeValue(w).value, w, t);
  }

  /** No encoding of a value is a proper prefix of another, and equal encodings come from equal values. */
  lemma ValueApart(v: Value, w: Value)
    requires WfValue(v) && WfValue(w)
    ensures Apart(EncodeValue(v), EncodeValue(w))
    ensures EncodeValue(v).Some? && EncodeValue(v) == EncodeValue(w) ==> v == w
  {
    if EncodeValue(v).Some? && EncodeValue(w).Some? && Comparable(EncodeValue(v).value, EncodeValue(w).value) {
      var a, b := EncodeValue(v).value, EncodeValue(w).value;
      if a <= b {
        assert a + b[|a|..] == b + [];
        ValueUniquelyDecodable(v, b[|a|..], w, []);
      } else {
        assert a + [] == b + a[|b|..];
        ValueUniquelyDecodable(v, [], w, a[|b|..]);
      }
    }
  }
}
