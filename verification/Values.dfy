/** Daml values and their tagged, length-prefixed encoding. */
module Values {
  import opened Wrappers
  import opened ByteStrings
  import opened Hex
  import opened Numbers

  datatype Identifier = Identifier(packageId: Utf8, moduleName: Utf8, entityName: Utf8)

  datatype RecordField = RecordField(fieldLabel: Option<Utf8>, value: Value)
  datatype TextMapEntry = TextMapEntry(key: Utf8, value: Value)
  datatype GenMapEntry = GenMapEntry(key: Value, value: Value)

  /** Unset stands for an absent value message and for a `sum` that is none of the known kinds. */
  datatype Value =
    | Unit
    | Bool(b: bool)
    | Int64(int64: int)
    | Numeric(numeric: Utf8)
    | Timestamp(timestamp: int)
    | Date(date: int)
    | Party(party: Utf8)
    | Text(text: Utf8)
    | ContractId(contractId: string)
    | Optional(optional: Option<Value>)
    | List(elements: seq<Value>)
    | TextMap(textEntries: seq<TextMapEntry>)
    | Record(recordId: Option<Identifier>, fields: seq<RecordField>)
    | Variant(variantId: Option<Identifier>, constr: Utf8, payload: Value)
    | Enum(enumId: Option<Identifier>, enumConstr: Utf8)
    | GenMap(entries: seq<GenMapEntry>)
    | Unset

  const DOT: byte := 46

  /** String.split('.'): always at least one piece. */
  function SplitDots(s: Utf8): (r: seq<Utf8>)
    ensures 1 <= |r| <= |s| + 1
    ensures forall i :: 0 <= i < |r| ==> |r[i]| <= |s|
  {
    if s == [] then [[]]
    else
      var rest := SplitDots(s[1..]);
      if s[0] == DOT then [[]] + rest else [[s[0]] + rest[0]] + rest[1..]
  }

  function JoinDots(pieces: seq<Utf8>): Utf8
    requires pieces != []
  {
    if |pieces| == 1 then pieces[0] else pieces[0] + [DOT] + JoinDots(pieces[1..])
  }

  lemma {:induction false} JoinSplitDots(s: Utf8)
    ensures JoinDots(SplitDots(s)) == s
  {
    if s != [] {
      var rest := SplitDots(s[1..]);
      JoinSplitDots(s[1..]);
      if s[0] == DOT {
        assert ([[]] + rest)[1..] == rest;
        assert [] + [DOT] + JoinDots(rest) == s;
      } else {
        assert ([[s[0]] + rest[0]] + rest[1..])[1..] == rest[1..];
        assert [s[0]] + s[1..] == s;
        if |rest| > 1 {
          assert [s[0]] + rest[0] + [DOT] + JoinDots(rest[1..]) == [s[0]] + (rest[0] + [DOT] + JoinDots(rest[1..]));
        }
      }
    }
  }

  // ---------- encoders ----------

  function EncodeBool(b: bool): Bytes {
    [if b then 1 else 0]
  }

  function EncodeHexString(value: string): Bytes {
    EncodeBytes(HexBytes(value))
  }

  /** encodeOptional and encodeProtoOptional: a presence byte, then the encoding if there is one. */
  function EncodeOptional(value: Option<Code>): Code {
    match value
    case None => Some([0])
    case Some(code) => Join([Some([1]), code])
  }

  function EncodeStrings(values: seq<Utf8>): Code {
    EncodeRepeated(seq(|values|, i requires 0 <= i < |values| => Some(EncodeBytes(values[i]))))
  }

  function EncodeIdentifier(id: Identifier): Code {
    Join([Some(EncodeBytes(id.packageId)), EncodeStrings(SplitDots(id.moduleName)),
      EncodeStrings(SplitDots(id.entityName))])
  }

  function EncodeOptionalIdentifier(id: Option<Identifier>): Code {
    EncodeOptional(match id case None => None case Some(i) => Some(EncodeIdentifier(i)))
  }

  function Tag(v: Value): byte
    requires !v.Unset?
  {
    match v
    case Unit => 0x00
    case Bool(_) => 0x01
    case Int64(_) => 0x02
    case Numeric(_) => 0x03
    case Timestamp(_) => 0x04
    case Date(_) => 0x05
    case Party(_) => 0x06
    case Text(_) => 0x07
    case ContractId(_) => 0x08
    case Optional(_) => 0x09
    case List(_) => 0x0a
    case TextMap(_) => 0x0b
    case Record(_, _) => 0x0c
    case Variant(_, _, _) => 0x0d
    case Enum(_, _) => 0x0e
    case GenMap(_) => 0x0f
  }

  /** What follows the tag byte, part by part. */
  function ValueParts(v: Value): seq<Code>
    requires !v.Unset?
    decreases v, 0
  {
    match v
    case Unit => []
    case Bool(b) => [Some(EncodeBool(b))]
    case Int64(n) => [Some(EncodeInt64(ToDouble(n)))]
    case Numeric(s) => [Some(EncodeBytes(s))]
    case Timestamp(n) => [Some(EncodeInt64(n))]
    case Date(n) => [Some(EncodeInt32(n))]
    case Party(s) => [Some(EncodeBytes(s))]
    case Text(s) => [Some(EncodeBytes(s))]
    case ContractId(s) => [Some(EncodeHexString(s))]
    case Optional(o) => [EncodeOptional(match o case None => None case Some(w) => Some(EncodeValue(w)))]
    case List(vs) => [EncodeRepeated(ElementCodes(vs))]
    case TextMap(es) => [EncodeRepeated(TextEntryCodes(es))]
    case Record(id, fs) => [EncodeOptionalIdentifier(id), EncodeRepeated(FieldCodes(fs))]
    case Variant(id, c, w) => [EncodeOptionalIdentifier(id), Some(EncodeBytes(c)), EncodeValue(w)]
    case Enum(id, c) => [EncodeOptionalIdentifier(id), Some(EncodeBytes(c))]
    case GenMap(es) => [EncodeRepeated(EntryCodes(es))]
  }

  function ElementCodes(vs: seq<Value>): (codes: seq<Code>)
    decreases vs
  {
    seq(|vs|, i requires 0 <= i < |vs| => EncodeValue(vs[i]))
  }

  function TextEntryCodes(es: seq<TextMapEntry>): (codes: seq<Code>)
    decreases es
  {
    seq(|es|, i requires 0 <= i < |es| => EncodeTextMapEntry(es[i]))
  }

  function FieldCodes(fs: seq<RecordField>): (codes: seq<Code>)
    decreases fs
  {
    seq(|fs|, i requires 0 <= i < |fs| => EncodeRecordField(fs[i]))
  }

  function EntryCodes(es: seq<GenMapEntry>): (codes: seq<Code>)
    decreases es
  {
    seq(|es|, i requires 0 <= i < |es| => EncodeGenMapEntry(es[i]))
  }

  function EncodeTextMapEntry(entry: TextMapEntry): Code
    decreases entry
  {
    Join([Some(EncodeBytes(entry.key)), EncodeValue(entry.value)])
  }

  function EncodeRecordField(field: RecordField): Code
    decreases field
  {
    Join([EncodeLabel(field.fieldLabel), EncodeValue(field.value)])
  }

  function EncodeGenMapEntry(entry: GenMapEntry): Code
    decreases entry
  {
    Join([EncodeValue(entry.key), EncodeValue(entry.value)])
  }

  function EncodeLabel(name: Option<Utf8>): Code {
    EncodeOptional(match name case None => None case Some(s) => Some(Some(EncodeBytes(s))))
  }

  function EncodeValue(v: Value): Code
    decreases v, 1
  {
    if v.Unset? then None else Join([Some([Tag(v)])] + ValueParts(v))
  }

  // ---------- the inputs on which the encoding can be read back ----------

  const TWO_31: int := 0x8000_0000

  ghost predicate Short<T>(s: seq<T>) {
    |s| < TWO_31
  }

  ghost predicate WfIdentifier(id: Identifier) {
    Short(id.packageId) && Short(id.moduleName) && Short(id.entityName)
  }

  ghost predicate WfOptionalIdentifier(id: Option<Identifier>) {
    id.Some? ==> WfIdentifier(id.value)
  }

  ghost predicate WfStrings(ss: seq<Utf8>) {
    |ss| < TWO_32 && forall i :: 0 <= i < |ss| ==> Short(ss[i])
  }

  ghost predicate WfHex(s: string) {
    Short(s) && CanonicalHex(s)
  }

  /** A signed 64-bit integer that survives parseInt's conversion to a double. */
  ghost predicate WfInt64(n: int) {
    IsInt64(n) && ToDouble(n) == n
  }

  ghost predicate WfValue(v: Value) {
    match v
    case Unit => true
    case Bool(_) => true
    case Int64(n) => WfInt64(n)
    case Numeric(s) => Short(s)
    case Timestamp(n) => IsInt64(n)
    case Date(n) => -TWO_31 <= n < TWO_31
    case Party(s) => Short(s)
    case Text(s) => Short(s)
    case ContractId(s) => WfHex(s)
    case Optional(o) => o.Some? ==> WfValue(o.value)
    case List(vs) => Short(vs) && forall i :: 0 <= i < |vs| ==> WfValue(vs[i])
    case TextMap(es) => Short(es) && forall i :: 0 <= i < |es| ==> Short(es[i].key) && WfValue(es[i].value)
    case Record(id, fs) =>
      && WfOptionalIdentifier(id) && Short(fs)
      && forall i ::
        0 <= i < |fs| ==> (fs[i].fieldLabel.Some? ==> Short(fs[i].fieldLabel.value)) && WfValue(fs[i].value)
    case Variant(id, c, w) => WfOptionalIdentifier(id) && Short(c) && WfValue(w)
    case Enum(id, c) => WfOptionalIdentifier(id) && Short(c)
    case GenMap(es) => Short(es) && forall i :: 0 <= i < |es| ==> WfValue(es[i].key) && WfValue(es[i].value)
    case Unset => true
  }

  /** Every value inside v is of a known kind. */
  predicate Known(v: Value) {
    match v
    case Optional(o) => o.Some? ==> Known(o.value)
    case List(vs) => forall i :: 0 <= i < |vs| ==> Known(vs[i])
    case TextMap(es) => forall i :: 0 <= i < |es| ==> Known(es[i].value)
    case Record(_, fs) => forall i :: 0 <= i < |fs| ==> Known(fs[i].value)
    case Variant(_, _, w) => Known(w)
    case GenMap(es) => forall i :: 0 <= i < |es| ==> Known(es[i].key) && Known(es[i].value)
    case Unset => false
    case _ => true
  }

  // ---------- which values encode at all ----------

  predicate IsScalar(v: Value) {
    v.Unit? || v.Bool? || v.Int64? || v.Numeric? || v.Timestamp? || v.Date? || v.Party? || v.Text? || v.ContractId?
  }

  lemma StringsSome(ss: seq<Utf8>)
    ensures EncodeStrings(ss).Some?
  {
    RepeatedSome(seq(|ss|, i requires 0 <= i < |ss| => Some(EncodeBytes(ss[i]))));
  }

  lemma IdentifierSome(id: Identifier)
    ensures EncodeIdentifier(id).Some?
  {
    StringsSome(SplitDots(id.moduleName));
    StringsSome(SplitDots(id.entityName));
    JoinSome([Some(EncodeBytes(id.packageId)), EncodeStrings(SplitDots(id.moduleName)),
      EncodeStrings(SplitDots(id.entityName))]);
  }

  lemma OptionalSome(value: Option<Code>)
    ensures EncodeOptional(value).Some? <==> (value.Some? ==> value.value.Some?)
  {
    if value.Some? {
      JoinTwo(Some([1]), value.value);
    }
  }

  lemma OptionalIdentifierSome(id: Option<Identifier>)
    ensures EncodeOptionalIdentifier(id).Some?
  {
    if id.Some? {
      IdentifierSome(id.value);
      JoinTwo(Some([1]), EncodeIdentifier(id.value));
    }
  }

  /** A value encodes exactly when every value inside it is of a known kind. */
  lemma {:induction false} KnownEncodes(v: Value)
    ensures EncodeValue(v).Some? <==> Known(v)
    decreases v, 1
  {
    if !v.Unset? {
      JoinHead([Tag(v)], ValueParts(v));
      JoinSome(ValueParts(v));
      if IsScalar(v) {
      } else if v.Record? || v.Variant? || v.Enum? {
        NamedKnown(v);
      } else {
        ContainerKnown(v);
      }
    }
  }

  lemma {:induction false} ContainerKnown(v: Value)
    requires v.Optional? || v.List? || v.TextMap? || v.GenMap?
    ensures ValueParts(v)[0].Some? <==> Known(v)
    decreases v, 0
  {
    match v
    case Optional(o) =>
      if o.Some? {
        KnownEncodes(o.value);
      }
      OptionalSome(match o case None => None case Some(u) => Some(EncodeValue(u)));
    case List(vs) =>
      forall i | 0 <= i < |vs|
        ensures ElementCodes(vs)[i].Some? <==> Known(vs[i])
      {
        KnownEncodes(vs[i]);
      }
      RepeatedSome(ElementCodes(vs));
    case TextMap(es) =>
      forall i | 0 <= i < |es|
        ensures TextEntryCodes(es)[i].Some? <==> Known(es[i].value)
      {
        TextEntryKnown(es[i]);
      }
      RepeatedSome(TextEntryCodes(es));
    case GenMap(es) =>
      forall i | 0 <= i < |es|
        ensures EntryCodes(es)[i].Some? <==> Known(es[i].key) && Known(es[i].value)
      {
        EntryKnown(es[i]);
      }
      RepeatedSome(EntryCodes(es));
  }

  lemma {:induction false} NamedKnown(v: Value)
    requires v.Record? || v.Variant? || v.Enum?
    ensures match v
      case Record(_, _) => |ValueParts(v)| == 2 && ValueParts(v)[0].Some? && (ValueParts(v)[1].Some? <==> Known(v))
      case Variant(_, _, _) => |ValueParts(v)| == 3 && ValueParts(v)[0].Some? && ValueParts(v)[1].Some?
        && (ValueParts(v)[2].Some? <==> Known(v))
      case Enum(_, _) => |ValueParts(v)| == 2 && ValueParts(v)[0].Some? && ValueParts(v)[1].Some?
    decreases v, 0
  {
    match v
    case Record(id, fs) =>
      OptionalIdentifierSome(id);
      forall i | 0 <= i < |fs|
        ensures FieldCodes(fs)[i].Some? <==> Known(fs[i].value)
      {
        FieldKnown(fs[i]);
      }
      RepeatedSome(FieldCodes(fs));
    case Variant(id, _, u) =>
      OptionalIdentifierSome(id);
      KnownEncodes(u);
    case Enum(id, _) =>
      OptionalIdentifierSome(id);
  }

  lemma {:induction false} TextEntryKnown(e: TextMapEntry)
    ensures EncodeTextMapEntry(e).Some? <==> Known(e.value)
    decreases e
  {
    KnownEncodes(e.value);
    JoinTwo(Some(EncodeBytes(e.key)), EncodeValue(e.value));
  }

  lemma {:induction false} FieldKnown(f: RecordField)
    ensures EncodeRecordField(f).Some? <==> Known(f.value)
    decreases f
  {
    KnownEncodes(f.value);
    OptionalSome(match f.fieldLabel case None => None case Some(s) => Some(Some(EncodeBytes(s))));
    JoinTwo(EncodeLabel(f.fieldLabel), EncodeValue(f.value));
  }

  lemma {:induction false} EntryKnown(e: GenMapEntry)
    ensures EncodeGenMapEntry(e).Some? <==> Known(e.key) && Known(e.value)
    decreases e
  {
    KnownEncodes(e.key);
    KnownEncodes(e.value);
    JoinTwo(EncodeValue(e.key), EncodeValue(e.value));
  }

  // ---------- 64-bit integers go through a double ----------

  predicate IsInt64(n: int) {
    -TWO_63 <= n < TWO_63
  }

  function Magnitude(n: int): nat {
    if n < 0 then -n else n
  }

  lemma Int64Code(n: int)
    ensures EncodeValue(Int64(n)) == Some([2] + EncodeInt64(ToDouble(n)))
  {
    JoinHead([2], ValueParts(Int64(n)));
    assert Join([]) == Some([]);
    assert EncodeInt64(ToDouble(n)) + [] == EncodeInt64(ToDouble(n));
    JoinSome(ValueParts(Int64(n)));
  }

  lemma Int64CodesAgree(m: int, n: int)
    requires IsInt64(m) && IsInt64(n)
    ensures EncodeValue(Int64(m)) == EncodeValue(Int64(n)) <==> ToDouble(m) % TWO_64 == ToDouble(n) % TWO_64
  {
    Int64Code(m);
    Int64Code(n);
    if EncodeValue(Int64(m)) == EncodeValue(Int64(n)) {
      assert EncodeInt64(ToDouble(m)) == ([2] + EncodeInt64(ToDouble(m)))[1..];
      assert EncodeInt64(ToDouble(n)) == ([2] + EncodeInt64(ToDouble(n)))[1..];
      Int64Injective(ToDouble(m), ToDouble(n));
    }
  }

  /** Two different 64-bit integers with the same encoding. */
  lemma Int64NotInjective()
    ensures EncodeValue(Int64(0x20_0000_0000_0000)) == EncodeValue(Int64(0x20_0000_0000_0001))
  {
  }

  /** Exactly which 64-bit integers share their encoding with no other. */
  lemma Int64AloneIff(n: int)
    requires IsInt64(n)
    ensures (forall m :: IsInt64(m) && EncodeValue(Int64(m)) == EncodeValue(Int64(n)) ==> m == n) <==>
      Undisturbed(Magnitude(n))
  {
    if Undisturbed(Magnitude(n)) {
      forall m | IsInt64(m) && EncodeValue(Int64(m)) == EncodeValue(Int64(n))
        ensures m == n
      {
        Int64Alone(n, m);
      }
    } else {
      var m := Int64Twin(n);
    }
  }

  lemma SameResidue(a: int, b: int)
    requires a % TWO_64 == b % TWO_64 && 0 - TWO_64 < a - b < TWO_64
    ensures a == b
  {
  }

  lemma Int64Alone(n: int, m: int)
    requires IsInt64(n) && Undisturbed(Magnitude(n)) && IsInt64(m)
    requires EncodeValue(Int64(m)) == EncodeValue(Int64(n))
    ensures m == n
  {
    Int64CodesAgree(m, n);
    DoubleMagnitude(m);
    DoubleMagnitude(n);
    SameResidue(ToDouble(m), ToDouble(n));
    UndisturbedIsAlone(Magnitude(n), Magnitude(m));
  }

  lemma DoubleMagnitude(n: int)
    requires IsInt64(n)
    ensures Magnitude(ToDouble(n)) == RoundFrom(Magnitude(n), 1) <= TWO_63
    ensures n < 0 ==> ToDouble(n) < 0
    ensures n >= 0 ==> ToDouble(n) >= 0
  {
    RoundTwice(Magnitude(n));
  }

  lemma Int64Twin(n: int) returns (m: int)
    requires IsInt64(n) && !Undisturbed(Magnitude(n))
    ensures IsInt64(m) && m != n && EncodeValue(Int64(m)) == EncodeValue(Int64(n))
  {
    var other := DisturbedHasTwin(Magnitude(n));
    m := if n < 0 then -other else if other < TWO_63 then other else -TWO_63;
    if n >= 0 && other == TWO_63 {
      LimitWraps(n);
    }
    Int64CodesAgree(m, n);
  }

  /** 2^63 is out of range and wraps to -2^63. */
  lemma LimitWraps(n: int)
    requires 0 <= n < TWO_63 && RoundFrom(n, 1) == RoundFrom(TWO_63, 1)
    ensures ToDouble(-TWO_63) % TWO_64 == ToDouble(n) % TWO_64
  {
    MultipleIsExact(TWO_53, 1024);
    assert ToDouble(-TWO_63) == -TWO_63;
    assert ToDouble(n) == TWO_63;
  }
}
