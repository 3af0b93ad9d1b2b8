/** Transaction nodes and the trees they unfold to, encoded with every child replaced by its digest. */
module Nodes {
  import opened Wrappers
  import opened ByteStrings
  import opened Values
  import opened Hex

  datatype Create = Create(
    lfVersion: Utf8,
    contractId: string,
    packageName: Utf8,
    templateId: Option<Identifier>,
    argument: Value,
    signatories: seq<Utf8>,
    stakeholders: seq<Utf8>)

  /** An exercise without its children. */
  datatype Exercise = Exercise(
    lfVersion: Utf8,
    contractId: string,
    packageName: Utf8,
    templateId: Option<Identifier>,
    signatories: seq<Utf8>,
    stakeholders: seq<Utf8>,
    actingParties: seq<Utf8>,
    interfaceId: Option<Identifier>,
    choiceId: Utf8,
    chosenValue: Value,
    consuming: bool,
    exerciseResult: Option<Value>,
    choiceObservers: seq<Utf8>)

  datatype Fetch = Fetch(
    lfVersion: Utf8,
    contractId: string,
    packageName: Utf8,
    templateId: Option<Identifier>,
    signatories: seq<Utf8>,
    stakeholders: seq<Utf8>,
    interfaceId: Option<Identifier>,
    actingParties: seq<Utf8>)

  /** A transaction node with its children in place. */
  datatype Tree =
    | CreateTree(create: Create, createSeed: Option<Bytes>)
    | ExerciseTree(exercise: Exercise, seed: Bytes, children: seq<Tree>)
    | FetchTree(fetch: Fetch)
    | RollbackTree(children: seq<Tree>)

  const NODE_ENCODING_VERSION: byte := 1

  // ---------- encoders ----------

  /** A missing template id rejects. */
  function EncodeTemplateId(id: Option<Identifier>): Code {
    match id
    case None => None
    case Some(i) => EncodeIdentifier(i)
  }

  function EncodeSeed(seed: Option<Bytes>): Code {
    EncodeOptional(match seed case None => None case Some(s) => Some(Some(s)))
  }

  function EncodeResult(result: Option<Value>): Code {
    EncodeOptional(match result case None => None case Some(v) => Some(EncodeValue(v)))
  }

  /** The common start of create, exercise and fetch nodes, in front of the rest. */
  function Header(lfVersion: Utf8, tag: byte, rest: Bytes): Bytes {
    [NODE_ENCODING_VERSION] + (EncodeBytes(lfVersion) + ([tag] + rest))
  }

  function Versioned(lfVersion: Utf8, tag: byte, body: seq<Code>): Code {
    match Join(body)
    case None => None
    case Some(rest) => Some(Header(lfVersion, tag, rest))
  }

  function CreateBody(c: Create, seed: Option<Bytes>): seq<Code> {
    [EncodeSeed(seed),
     Some(EncodeHexString(c.contractId)),
     Some(EncodeBytes(c.packageName)),
     EncodeTemplateId(c.templateId),
     EncodeValue(c.argument),
     EncodeStrings(c.signatories),
     EncodeStrings(c.stakeholders)]
  }

  function EncodeCreateNode(c: Create, seed: Option<Bytes>): Code {
    Versioned(c.lfVersion, 0, CreateBody(c, seed))
  }

  function ExerciseBody(e: Exercise, seed: Bytes, children: seq<Code>): seq<Code> {
    ExerciseTarget(e, seed) + ExerciseChoice(e, children)
  }

  function ExerciseTarget(e: Exercise, seed: Bytes): seq<Code> {
    [Some(seed),
     Some(EncodeHexString(e.contractId)),
     Some(EncodeBytes(e.packageName)),
     EncodeTemplateId(e.templateId),
     EncodeStrings(e.signatories),
     EncodeStrings(e.stakeholders),
     EncodeStrings(e.actingParties)]
  }

  function ExerciseChoice(e: Exercise, children: seq<Code>): seq<Code> {
    [EncodeOptionalIdentifier(e.interfaceId),
     Some(EncodeBytes(e.choiceId)),
     EncodeValue(e.chosenValue),
     Some(EncodeBool(e.consuming)),
     EncodeResult(e.exerciseResult),
     EncodeStrings(e.choiceObservers),
     EncodeRepeated(children)]
  }

  function EncodeExerciseNode(e: Exercise, seed: Bytes, children: seq<Code>): Code {
    Versioned(e.lfVersion, 1, ExerciseBody(e, seed, children))
  }

  function FetchBody(f: Fetch): seq<Code> {
    [Some(EncodeHexString(f.contractId)),
     Some(EncodeBytes(f.packageName)),
     EncodeTemplateId(f.templateId),
     EncodeStrings(f.signatories),
     EncodeStrings(f.stakeholders),
     EncodeOptionalIdentifier(f.interfaceId),
     EncodeStrings(f.actingParties)]
  }

  function EncodeFetchNode(f: Fetch): Code {
    Versioned(f.lfVersion, 2, FetchBody(f))
  }

  function EncodeRollbackNode(children: seq<Code>): Code {
    Join([Some([NODE_ENCODING_VERSION])] + ([Some([3])] + [EncodeRepeated(children)]))
  }

  function DigestOf(sha: Hash, code: Code): Code {
    match code
    case None => None
    case Some(bytes) => Some(sha(bytes))
  }

  function EncodeTree(sha: Hash, t: Tree): Code
    decreases t
  {
    match t
    case CreateTree(c, seed) => EncodeCreateNode(c, seed)
    case ExerciseTree(e, seed, ts) => EncodeExerciseNode(e, seed, ChildDigests(sha, ts))
    case FetchTree(f) => EncodeFetchNode(f)
    case RollbackTree(ts) => EncodeRollbackNode(ChildDigests(sha, ts))
  }

  function ChildDigests(sha: Hash, ts: seq<Tree>): (digests: seq<Code>)
    decreases ts
  {
    seq(|ts|, i requires 0 <= i < |ts| => DigestOf(sha, EncodeTree(sha, ts[i])))
  }

  // ---------- the trees whose encoding can be read back ----------

  /** A version this long would make the length start with the rollback tag. */
  const LF_VERSION_LIMIT: nat := 3 * 0x100_0000

  ghost predicate WfLfVersion(s: Utf8) {
    |s| < LF_VERSION_LIMIT
  }

  ghost predicate WfSeed(seed: Bytes) {
    |seed| == 32
  }

  ghost predicate WfCreate(c: Create) {
    && WfLfVersion(c.lfVersion) && WfHex(c.contractId) && Short(c.packageName) && WfOptionalIdentifier(c.templateId)
    && WfValue(c.argument) && WfStrings(c.signatories) && WfStrings(c.stakeholders)
  }

  ghost predicate WfExercise(e: Exercise) {
    && WfLfVersion(e.lfVersion) && WfHex(e.contractId) && Short(e.packageName) && WfOptionalIdentifier(e.templateId)
    && WfStrings(e.signatories) && WfStrings(e.stakeholders) && WfStrings(e.actingParties)
    && WfOptionalIdentifier(e.interfaceId) && Short(e.choiceId) && WfValue(e.chosenValue)
    && (e.exerciseResult.Some? ==> WfValue(e.exerciseResult.value)) && WfStrings(e.choiceObservers)
  }

  ghost predicate WfFetch(f: Fetch) {
    && WfLfVersion(f.lfVersion) && WfHex(f.contractId) && Short(f.packageName) && WfOptionalIdentifier(f.templateId)
    && WfStrings(f.signatories) && WfStrings(f.stakeholders) && WfOptionalIdentifier(f.interfaceId)
      && WfStrings(f.actingParties)
  }

  ghost predicate WfTree(t: Tree) {
    match t
    case CreateTree(c, seed) => WfCreate(c) && (seed.Some? ==> WfSeed(seed.value))
    case ExerciseTree(e, seed, ts) => WfExercise(e) && WfSeed(seed) && Short(ts)
      && forall i :: 0 <= i < |ts| ==> WfTree(ts[i])
    case FetchTree(f) => WfFetch(f)
    case RollbackTree(ts) => Short(ts) && forall i :: 0 <= i < |ts| ==> WfTree(ts[i])
  }

  // ---------- which nodes encode at all ----------

  /** A versioned node is the concatenation of all its parts. */
  lemma VersionedIsJoin(lfVersion: Utf8, tag: byte, body: seq<Code>)
    ensures Versioned(lfVersion, tag, body)
         == Join([Some([NODE_ENCODING_VERSION])] + ([Some(EncodeBytes(lfVersion))] + ([Some([tag])] + body)))
  {
    JoinHead([tag], body);
    JoinHead(EncodeBytes(lfVersion), [Some([tag])] + body);
    JoinHead([NODE_ENCODING_VERSION], [Some(EncodeBytes(lfVersion))] + ([Some([tag])] + body));
  }

  ghost predicate AllDigests(codes: seq<Code>) {
    forall i :: 0 <= i < |codes| && codes[i].Some? ==> |codes[i].value| == 32
  }

  ghost predicate AllSome(ps: seq<Code>) {
    forall i :: 0 <= i < |ps| ==> ps[i].Some?
  }

  lemma RollbackJoin(ds: seq<Code>)
    ensures EncodeRollbackNode(ds) ==
      if EncodeRepeated(ds).Some? then Some([NODE_ENCODING_VERSION] + ([3] + EncodeRepeated(ds).value)) else None
  {
    var r := EncodeRepeated(ds);
    JoinHead([NODE_ENCODING_VERSION], [Some([3])] + [r]);
    assert [Some([3])] + [r] == [Some([3]), r];
    JoinTwo(Some([3]), r);
  }

  predicate CreateSupported(c: Create) {
    c.templateId.Some? && Known(c.argument)
  }

  predicate ExerciseSupported(e: Exercise) {
    e.templateId.Some? && Known(e.chosenValue) && (e.exerciseResult.Some? ==> Known(e.exerciseResult.value))
  }

  predicate FetchSupported(f: Fetch) {
    f.templateId.Some?
  }

  lemma TemplateIdSome(id: Option<Identifier>)
    ensures EncodeTemplateId(id).Some? <==> id.Some?
  {
    if id.Some? {
      IdentifierSome(id.value);
    }
  }

  lemma CreateEncodes(c: Create, seed: Option<Bytes>)
    ensures EncodeCreateNode(c, seed).Some? <==> CreateSupported(c)
  {
    var ps := CreateBody(c, seed);
    JoinSome(ps);
    OptionalSome(match seed case None => None case Some(s) => Some(Some(s)));
    TemplateIdSome(c.templateId);
    KnownEncodes(c.argument);
    StringsSome(c.signatories);
    StringsSome(c.stakeholders);
    assert ps[3] == EncodeTemplateId(c.templateId) && ps[4] == EncodeValue(c.argument);
  }

  lemma FetchEncodes(f: Fetch)
    ensures EncodeFetchNode(f).Some? <==> FetchSupported(f)
  {
    var ps := FetchBody(f);
    JoinSome(ps);
    TemplateIdSome(f.templateId);
    StringsSome(f.signatories);
    StringsSome(f.stakeholders);
    OptionalIdentifierSome(f.interfaceId);
    StringsSome(f.actingParties);
    assert ps[2] == EncodeTemplateId(f.templateId);
  }

  lemma ExerciseEncodes(e: Exercise, seed: Bytes, ds: seq<Code>)
    ensures EncodeExerciseNode(e, seed, ds).Some? <==> ExerciseSupported(e) && AllSome(ds)
  {
    var ps, qs := ExerciseTarget(e, seed), ExerciseChoice(e, ds);
    JoinSome(ps + qs);
    assert AllSome(ps + qs) <==> AllSome(ps) && AllSome(qs) by {
      if AllSome(ps + qs) {
        assert forall i :: 0 <= i < |ps| ==> ps[i] == (ps + qs)[i];
        assert forall i :: 0 <= i < |qs| ==> qs[i] == (ps + qs)[|ps| + i];
      }
    }
    ExerciseTargetSome(e, seed);
    ExerciseChoiceSome(e, ds);
  }

  lemma ExerciseTargetSome(e: Exercise, seed: Bytes)
    ensures AllSome(ExerciseTarget(e, seed)) <==> e.templateId.Some?
  {
    TemplateIdSome(e.templateId);
    StringsSome(e.signatories);
    StringsSome(e.stakeholders);
    StringsSome(e.actingParties);
    assert ExerciseTarget(e, seed)[3] == EncodeTemplateId(e.templateId);
  }

  lemma ExerciseChoiceSome(e: Exercise, ds: seq<Code>)
    ensures AllSome(ExerciseChoice(e, ds)) <==>
      Known(e.chosenValue) && (e.exerciseResult.Some? ==> Known(e.exerciseResult.value)) && AllSome(ds)
  {
    OptionalIdentifierSome(e.interfaceId);
    KnownEncodes(e.chosenValue);
    if e.exerciseResult.Some? {
      KnownEncodes(e.exerciseResult.value);
    }
    OptionalSome(match e.exerciseResult case None => None case Some(v) => Some(EncodeValue(v)));
    StringsSome(e.choiceObservers);
    RepeatedSome(ds);
    var ps := ExerciseChoice(e, ds);
    assert ps[2] == EncodeValue(e.chosenValue) && ps[4] == EncodeResult(e.exerciseResult)
      && ps[6] == EncodeRepeated(ds);
  }

  lemma RollbackEncodes(ds: seq<Code>)
    ensures EncodeRollbackNode(ds).Some? <==> AllSome(ds)
  {
    RollbackJoin(ds);
    RepeatedSome(ds);
  }
}
