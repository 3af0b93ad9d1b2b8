/** Transaction nodes read back from their bytes, field by field. */
module NodeReading {
  import opened Wrappers
  import opened ByteStrings
  import opened Hex
  import opened Values
  import opened Nodes
  import opened Reading

  /** What the bytes of a node say: its children are known by their digests only. */
  datatype Shape =
    | CreateShape(create: Create, createSeed: Option<Bytes>)
    | ExerciseShape(exercise: Exercise, seed: Bytes, digests: seq<Bytes>)
    | FetchShape(fetch: Fetch)
    | RollbackShape(digests: seq<Bytes>)

  // ---------- the format ----------

  function ReadDigest(s: Bytes): Read<Bytes> {
    ReadFixed(32, s)
  }

  function ReadDigests(s: Bytes): Read<seq<Bytes>> {
    ReadRepeated(ReadDigest, s)
  }

  function ReadSeed(s: Bytes): Read<Option<Bytes>> {
    ReadOptional(ReadDigest, s)
  }

  function ReadOptionalIdentifier(s: Bytes): Read<Option<Identifier>> {
    ReadOptional(ReadIdentifier, s)
  }

  function ReadResult(s: Bytes): Read<Option<Value>> {
    ReadOptional(ReadValue, s)
  }

  function ReadCreate(lfVersion: Utf8, s: Bytes): Read<Shape> {
    var (seed, s1) :- ReadSeed(s);
    var (contractId, s2) :- ReadHex(s1);
    var (packageName, s3) :- ReadBytes(s2);
    var (templateId, s4) :- ReadIdentifier(s3);
    var (argument, s5) :- ReadValue(s4);
    var (signatories, s6) :- ReadStrings(s5);
    var (stakeholders, rest) :- ReadStrings(s6);
    Some((CreateShape(
            Create(
              lfVersion := lfVersion, contractId := contractId, packageName := packageName,
              templateId := Some(templateId), argument := argument, signatories := signatories,
              stakeholders := stakeholders),
            seed), rest))
  }

  function ReadFetch(lfVersion: Utf8, s: Bytes): Read<Shape> {
    var (contractId, s1) :- ReadHex(s);
    var (packageName, s2) :- ReadBytes(s1);
    var (templateId, s3) :- ReadIdentifier(s2);
    var (signatories, s4) :- ReadStrings(s3);
    var (stakeholders, s5) :- ReadStrings(s4);
    var (interfaceId, s6) :- ReadOptionalIdentifier(s5);
    var (actingParties, rest) :- ReadStrings(s6);
    Some((FetchShape(
            Fetch(
              lfVersion := lfVersion, contractId := contractId, packageName := packageName,
              templateId := Some(templateId), signatories := signatories, stakeholders := stakeholders,
              interfaceId := interfaceId, actingParties := actingParties)), rest))
  }

  /** The first half of an exercise: seed and target. The fields read later keep the values of base. */
  function ReadTarget(base: Exercise, s: Bytes): Read<(Exercise, Bytes)> {
    var (seed, s1) :- ReadDigest(s);
    var (contractId, s2) :- ReadHex(s1);
    var (packageName, s3) :- ReadBytes(s2);
    var (templateId, s4) :- ReadIdentifier(s3);
    var (signatories, s5) :- ReadStrings(s4);
    var (stakeholders, s6) :- ReadStrings(s5);
    var (actingParties, rest) :- ReadStrings(s6);
    Some(((base.(
             contractId := contractId, packageName := packageName, templateId := Some(templateId),
             signatories := signatories, stakeholders := stakeholders, actingParties := actingParties), seed), rest))
  }

  function ReadChoice(base: Exercise, s: Bytes): Read<(Exercise, seq<Bytes>)> {
    var (interfaceId, s1) :- ReadOptionalIdentifier(s);
    var (choiceId, s2) :- ReadBytes(s1);
    var (chosenValue, s3) :- ReadValue(s2);
    var (consuming, s4) :- ReadBool(s3);
    var (exerciseResult, s5) :- ReadResult(s4);
    var (choiceObservers, s6) :- ReadStrings(s5);
    var (digests, rest) :- ReadDigests(s6);
    Some(((base.(
             interfaceId := interfaceId, choiceId := choiceId, chosenValue := chosenValue, consuming := consuming,
             exerciseResult := exerciseResult, choiceObservers := choiceObservers), digests), rest))
  }

  function Blank(lfVersion: Utf8): Exercise {
    Exercise(lfVersion, "", [], None, [], [], [], None, [], Unset, false, None, [])
  }

  function ReadExercise(lfVersion: Utf8, s: Bytes): Read<Shape> {
    var ((target, seed), t) :- ReadTarget(Blank(lfVersion), s);
    var ((exercise, digests), rest) :- ReadChoice(target, t);
    Some((ExerciseShape(exercise, seed, digests), rest))
  }

  function ReadNode(s: Bytes): Read<Shape> {
    if |s| < 2 || s[0] != 1 then None
    else if s[1] == 3 then
      var (digests, rest) :- ReadDigests(s[2..]);
      Some((RollbackShape(digests), rest))
    else
      var (lfVersion, t) :- ReadBytes(s[1..]);
      if t == [] then None
      else if t[0] == 0 then ReadCreate(lfVersion, t[1..])
      else if t[0] == 1 then ReadExercise(lfVersion, t[1..])
      else if t[0] == 2 then ReadFetch(lfVersion, t[1..])
      else None
  }

  // ---------- reading undoes encoding ----------

  lemma DigestReads(d: Bytes)
    requires |d| == 32
    ensures Reads(ReadDigest, d, d)
  {
    forall rest
      ensures ReadDigest(d + rest) == Some((d, rest))
    {
      FixedReads(d, rest);
    }
  }

  function Contents(codes: seq<Code>): seq<Bytes>
    requires AllSome(codes)
  {
    seq(|codes|, i requires 0 <= i < |codes| => codes[i].value)
  }

  lemma DigestsRead(codes: seq<Code>)
    requires AllSome(codes) && AllDigests(codes) && Short(codes)
    ensures EncodeRepeated(codes).Some? && Reads(ReadDigests, EncodeRepeated(codes).value, Contents(codes))
  {
    RepeatedSome(codes);
    forall rest
      ensures ReadDigests(EncodeRepeated(codes).value + rest) == Some((Contents(codes), rest))
    {
      forall i | 0 <= i < |codes|
        ensures Reads(ReadDigest, codes[i].value, Contents(codes)[i])
      {
        DigestReads(codes[i].value);
      }
      RepeatedReads(ReadDigest, codes, Contents(codes), rest);
    }
  }

  lemma SeedReads(seed: Option<Bytes>)
    requires seed.Some? ==> WfSeed(seed.value)
    ensures EncodeSeed(seed).Some? && Reads(ReadSeed, EncodeSeed(seed).value, seed)
  {
    var code: Option<Code> := match seed case None => None case Some(s) => Some(Some(s));
    OptionalSome(code);
    if seed.Some? {
      DigestReads(seed.value);
    }
    forall rest
      ensures ReadSeed(EncodeSeed(seed).value + rest) == Some((seed, rest))
    {
      OptionalReads(ReadDigest, code, seed, rest);
    }
  }

  lemma InterfaceIdReads(id: Option<Identifier>)
    requires WfOptionalIdentifier(id)
    ensures EncodeOptionalIdentifier(id).Some?
    ensures Reads(ReadOptionalIdentifier, EncodeOptionalIdentifier(id).value, id)
  {
    OptionalIdentifierSome(id);
    forall rest
      ensures ReadOptionalIdentifier(EncodeOptionalIdentifier(id).value + rest) == Some((id, rest))
    {
      OptionalIdentifierReads(id, rest);
    }
  }

  lemma ResultReads(result: Option<Value>)
    requires (result.Some? ==> WfValue(result.value)) && EncodeResult(result).Some?
    ensures Reads(ReadResult, EncodeResult(result).value, result)
  {
    var code: Option<Code> := match result case None => None case Some(v) => Some(EncodeValue(v));
    OptionalSome(code);
    if result.Some? {
      ValueReads(result.value);
    }
    forall rest
      ensures ReadResult(EncodeResult(result).value + rest) == Some((result, rest))
    {
      OptionalReads(ReadValue, code, result, rest);
    }
  }

  lemma BoolReads(b: bool)
    ensures Reads(ReadBool, EncodeBool(b), b)
  {
    forall rest
      ensures ReadBool(EncodeBool(b) + rest) == Some((b, rest))
    {
      Front(EncodeBool(b), rest);
    }
  }

  // ---------- seven fields in a row ----------

  lemma {:induction false} JoinAppend(ps: seq<Code>, qs: seq<Code>, rest: Bytes)
    requires Join(ps + qs).Some?
    ensures Join(ps).Some? && Join(qs).Some?
    ensures Join(ps + qs).value + rest == Join(ps).value + (Join(qs).value + rest)
  {
    if ps == [] {
      assert ps + qs == qs;
      assert [] + (Join(qs).value + rest) == Join(qs).value + rest;
    } else {
      assert (ps + qs)[1..] == ps[1..] + qs;
      JoinFront(ps + qs, rest);
      JoinAppend(ps[1..], qs, rest);
      JoinFront(ps, Join(qs).value + rest);
    }
  }

  lemma SevenParts(ps: seq<Code>, rest: Bytes)
    requires |ps| == 7 && Join(ps).Some?
    ensures AllSome(ps)
    ensures Join(ps).value + rest == ps[0].value + (ps[1].value + (ps[2].value + (ps[3].value + (ps[4].value
      + (ps[5].value + (ps[6].value + rest))))))
  {
    JoinSome(ps);
    JoinFront(ps, rest);
    JoinFront(ps[1..], rest);
    assert ps[1..][1..] == ps[2..];
    JoinFront(ps[2..], rest);
    assert ps[2..][1..] == ps[3..];
    FourParts(ps[3..], rest);
  }

  lemma FourParts(ps: seq<Code>, rest: Bytes)
    requires |ps| == 4 && Join(ps).Some?
    ensures ps[0].Some? && ps[1].Some? && ps[2].Some? && ps[3].Some?
    ensures Join(ps).value + rest == ps[0].value + (ps[1].value + (ps[2].value + (ps[3].value + rest)))
  {
    JoinFront(ps, rest);
    JoinFront(ps[1..], rest);
    assert ps[1..][1..] == ps[2..] == [ps[2], ps[3]];
    JoinTwo(ps[2], ps[3]);
    Sequences.Associative(ps[2].value, ps[3].value, rest);
  }

  lemma CreateSteps(c: Create, seed: Option<Bytes>, templateId: Identifier, p: Bytes, q: Bytes, r: Bytes, s: Bytes,
        t: Bytes, u: Bytes, v: Bytes, rest: Bytes)
    requires c.templateId == Some(templateId)
    requires Reads(ReadSeed, p, seed) && Reads(ReadHex, q, c.contractId) && Reads(ReadBytes, r, c.packageName)
    requires Reads(ReadIdentifier, s, templateId) && Reads(ReadValue, t, c.argument)
    requires Reads(ReadStrings, u, c.signatories) && Reads(ReadStrings, v, c.stakeholders)
    ensures ReadCreate(c.lfVersion, p + (q + (r + (s + (t + (u + (v + rest)))))))
      == Some((CreateShape(c, seed), rest))
  {
    assert ReadSeed(p + (q + (r + (s + (t + (u + (v + rest)))))))
      == Some((seed, q + (r + (s + (t + (u + (v + rest)))))));
    assert ReadHex(q + (r + (s + (t + (u + (v + rest)))))) == Some((c.contractId, r + (s + (t + (u + (v + rest))))));
    assert ReadBytes(r + (s + (t + (u + (v + rest))))) == Some((c.packageName, s + (t + (u + (v + rest)))));
    assert ReadIdentifier(s + (t + (u + (v + rest)))) == Some((templateId, t + (u + (v + rest))));
    assert ReadValue(t + (u + (v + rest))) == Some((c.argument, u + (v + rest)));
    assert ReadStrings(u + (v + rest)) == Some((c.signatories, v + rest));
    assert ReadStrings(v + rest) == Some((c.stakeholders, rest));
  }

  lemma CreateReads(c: Create, seed: Option<Bytes>, rest: Bytes)
    requires WfCreate(c) && (seed.Some? ==> WfSeed(seed.value)) && Join(CreateBody(c, seed)).Some?
    ensures ReadCreate(c.lfVersion, Join(CreateBody(c, seed)).value + rest) == Some((CreateShape(c, seed), rest))
  {
    var ps := CreateBody(c, seed);
    SevenParts(ps, rest);
    assert ps[3].Some? && ps[4].Some?;
    SeedReads(seed);
    HexReads(c.contractId);
    BytesRead(c.packageName);
    IdentifierReads(c.templateId.value);
    ValueReads(c.argument);
    StringsRead(c.signatories);
    StringsRead(c.stakeholders);
    CreateSteps(c, seed, c.templateId.value, ps[0].value, ps[1].value, ps[2].value, ps[3].value, ps[4].value,
      ps[5].value, ps[6].value, rest);
  }

  lemma FetchSteps(f: Fetch, templateId: Identifier, p: Bytes, q: Bytes, r: Bytes, s: Bytes, t: Bytes, u: Bytes,
        v: Bytes, rest: Bytes)
    requires f.templateId == Some(templateId)
    requires Reads(ReadHex, p, f.contractId) && Reads(ReadBytes, q, f.packageName)
    requires Reads(ReadIdentifier, r, templateId) && Reads(ReadStrings, s, f.signatories)
    requires Reads(ReadStrings, t, f.stakeholders) && Reads(ReadOptionalIdentifier, u, f.interfaceId)
    requires Reads(ReadStrings, v, f.actingParties)
    ensures ReadFetch(f.lfVersion, p + (q + (r + (s + (t + (u + (v + rest))))))) == Some((FetchShape(f), rest))
  {
    assert ReadHex(p + (q + (r + (s + (t + (u + (v + rest)))))))
      == Some((f.contractId, q + (r + (s + (t + (u + (v + rest)))))));
    assert ReadBytes(q + (r + (s + (t + (u + (v + rest)))))) == Some((f.packageName, r + (s + (t + (u + (v + rest))))));
    assert ReadIdentifier(r + (s + (t + (u + (v + rest))))) == Some((templateId, s + (t + (u + (v + rest)))));
    assert ReadStrings(s + (t + (u + (v + rest)))) == Some((f.signatories, t + (u + (v + rest))));
    assert ReadStrings(t + (u + (v + rest))) == Some((f.stakeholders, u + (v + rest)));
    assert ReadOptionalIdentifier(u + (v + rest)) == Some((f.interfaceId, v + rest));
    assert ReadStrings(v + rest) == Some((f.actingParties, rest));
  }

  lemma FetchReads(f: Fetch, rest: Bytes)
    requires WfFetch(f) && Join(FetchBody(f)).Some?
    ensures ReadFetch(f.lfVersion, Join(FetchBody(f)).value + rest) == Some((FetchShape(f), rest))
  {
    var ps := FetchBody(f);
    SevenParts(ps, rest);
    assert ps[2].Some?;
    HexReads(f.contractId);
    BytesRead(f.packageName);
    IdentifierReads(f.templateId.value);
    StringsRead(f.signatories);
    StringsRead(f.stakeholders);
    InterfaceIdReads(f.interfaceId);
    StringsRead(f.actingParties);
    FetchSteps(f, f.templateId.value, ps[0].value, ps[1].value, ps[2].value, ps[3].value, ps[4].value, ps[5].value,
      ps[6].value, rest);
  }

  /** The target is read; what belongs to the choice is still that of base. */
  function Targeted(base: Exercise, e: Exercise): Exercise {
    base.(
      contractId := e.contractId, packageName := e.packageName, templateId := e.templateId,
      signatories := e.signatories, stakeholders := e.stakeholders, actingParties := e.actingParties)
  }

  lemma TargetSteps(base: Exercise, e: Exercise, seed: Bytes, templateId: Identifier, p: Bytes, q: Bytes, r: Bytes,
        s: Bytes, t: Bytes, u: Bytes, v: Bytes, rest: Bytes)
    requires e.templateId == Some(templateId)
    requires Reads(ReadDigest, p, seed) && Reads(ReadHex, q, e.contractId) && Reads(ReadBytes, r, e.packageName)
    requires Reads(ReadIdentifier, s, templateId) && Reads(ReadStrings, t, e.signatories)
    requires Reads(ReadStrings, u, e.stakeholders) && Reads(ReadStrings, v, e.actingParties)
    ensures ReadTarget(base, p + (q + (r + (s + (t + (u + (v + rest)))))))
      == Some(((Targeted(base, e), seed), rest))
  {
    assert ReadDigest(p + (q + (r + (s + (t + (u + (v + rest)))))))
      == Some((seed, q + (r + (s + (t + (u + (v + rest)))))));
    assert ReadHex(q + (r + (s + (t + (u + (v + rest)))))) == Some((e.contractId, r + (s + (t + (u + (v + rest))))));
    assert ReadBytes(r + (s + (t + (u + (v + rest))))) == Some((e.packageName, s + (t + (u + (v + rest)))));
    assert ReadIdentifier(s + (t + (u + (v + rest)))) == Some((templateId, t + (u + (v + rest))));
    assert ReadStrings(t + (u + (v + rest))) == Some((e.signatories, u + (v + rest)));
    assert ReadStrings(u + (v + rest)) == Some((e.stakeholders, v + rest));
    assert ReadStrings(v + rest) == Some((e.actingParties, rest));
  }

  lemma TargetReads(base: Exercise, e: Exercise, seed: Bytes, rest: Bytes)
    requires WfExercise(e) && WfSeed(seed) && Join(ExerciseTarget(e, seed)).Some?
    ensures ReadTarget(base, Join(ExerciseTarget(e, seed)).value + rest) == Some(((Targeted(base, e), seed), rest))
  {
    var ps := ExerciseTarget(e, seed);
    SevenParts(ps, rest);
    assert ps[3].Some?;
    DigestReads(seed);
    HexReads(e.contractId);
    BytesRead(e.packageName);
    IdentifierReads(e.templateId.value);
    StringsRead(e.signatories);
    StringsRead(e.stakeholders);
    StringsRead(e.actingParties);
    TargetSteps(base, e, seed, e.templateId.value, ps[0].value, ps[1].value, ps[2].value, ps[3].value, ps[4].value,
      ps[5].value, ps[6].value, rest);
  }

  lemma ChoiceSteps(e: Exercise, digests: seq<Bytes>, p: Bytes, q: Bytes, r: Bytes, s: Bytes, t: Bytes, u: Bytes,
        v: Bytes, rest: Bytes)
    requires Reads(ReadOptionalIdentifier, p, e.interfaceId) && Reads(ReadBytes, q, e.choiceId)
    requires Reads(ReadValue, r, e.chosenValue) && Reads(ReadBool, s, e.consuming)
    requires Reads(ReadResult, t, e.exerciseResult) && Reads(ReadStrings, u, e.choiceObservers)
    requires Reads(ReadDigests, v, digests)
    ensures ReadChoice(Targeted(Blank(e.lfVersion), e), p + (q + (r + (s + (t + (u + (v + rest)))))))
      == Some(((e, digests), rest))
  {
    assert ReadOptionalIdentifier(p + (q + (r + (s + (t + (u + (v + rest)))))))
      == Some((e.interfaceId, q + (r + (s + (t + (u + (v + rest)))))));
    assert ReadBytes(q + (r + (s + (t + (u + (v + rest)))))) == Some((e.choiceId, r + (s + (t + (u + (v + rest))))));
    assert ReadValue(r + (s + (t + (u + (v + rest))))) == Some((e.chosenValue, s + (t + (u + (v + rest)))));
    assert ReadBool(s + (t + (u + (v + rest)))) == Some((e.consuming, t + (u + (v + rest))));
    assert ReadResult(t + (u + (v + rest))) == Some((e.exerciseResult, u + (v + rest)));
    assert ReadStrings(u + (v + rest)) == Some((e.choiceObservers, v + rest));
    assert ReadDigests(v + rest) == Some((digests, rest));
  }

  lemma ChoiceReads(e: Exercise, ds: seq<Code>, rest: Bytes)
    requires WfExercise(e) && AllSome(ds) && AllDigests(ds) && Short(ds) && Join(ExerciseChoice(e, ds)).Some?
    ensures ReadChoice(Targeted(Blank(e.lfVersion), e), Join(ExerciseChoice(e, ds)).value + rest)
      == Some(((e, Contents(ds)), rest))
  {
    var ps := ExerciseChoice(e, ds);
    SevenParts(ps, rest);
    assert ps[2].Some? && ps[4].Some?;
    InterfaceIdReads(e.interfaceId);
    BytesRead(e.choiceId);
    ValueReads(e.chosenValue);
    BoolReads(e.consuming);
    ResultReads(e.exerciseResult);
    StringsRead(e.choiceObservers);
    DigestsRead(ds);
    ChoiceSteps(e, Contents(ds), ps[0].value, ps[1].value, ps[2].value, ps[3].value, ps[4].value, ps[5].value,
      ps[6].value, rest);
  }

  lemma ExerciseReads(e: Exercise, seed: Bytes, ds: seq<Code>, rest: Bytes)
    requires WfExercise(e) && WfSeed(seed) && AllSome(ds) && AllDigests(ds) && Short(ds)
    requires Join(ExerciseBody(e, seed, ds)).Some?
    ensures ReadExercise(e.lfVersion, Join(ExerciseBody(e, seed, ds)).value + rest)
      == Some((ExerciseShape(e, seed, Contents(ds)), rest))
  {
    var ps, qs := ExerciseTarget(e, seed), ExerciseChoice(e, ds);
    JoinAppend(ps, qs, rest);
    TargetReads(Blank(e.lfVersion), e, seed, Join(qs).value + rest);
    ChoiceReads(e, ds, rest);
  }

  // ---------- whole nodes ----------

  /** The length of an LF version starts with a byte below 3, so no such node reads as a rollback. */
  lemma LeadingLengthByte(n: nat)
    requires n < LF_VERSION_LIMIT
    ensures EncodeInt32(n)[0] < 3
  {
    var a := n / 256;
    var b := a / 256;
    var c := b / 256;
    assert c < 3;
    assert BigEndian(c, 1) == [c] by { assert BigEndian(c / 256, 0) == []; }
    assert BigEndian(b, 2) == BigEndian(c, 1) + [b % 256];
    assert BigEndian(a, 3) == BigEndian(b, 2) + [a % 256];
    assert BigEndian(n, 4) == BigEndian(a, 3) + [n % 256];
  }

  lemma HeaderReads(lfVersion: Utf8, tag: byte, body: seq<Code>, rest: Bytes, shape: Shape)
    requires WfLfVersion(lfVersion) && Versioned(lfVersion, tag, body).Some? && tag <= 2
    requires tag == 0 ==> ReadCreate(lfVersion, Join(body).value + rest) == Some((shape, rest))
    requires tag == 1 ==> ReadExercise(lfVersion, Join(body).value + rest) == Some((shape, rest))
    requires tag == 2 ==> ReadFetch(lfVersion, Join(body).value + rest) == Some((shape, rest))
    ensures ReadNode(Versioned(lfVersion, tag, body).value + rest) == Some((shape, rest))
  {
    HeaderFront(lfVersion, tag, Join(body).value, rest);
    LeadingLengthByte(|lfVersion|);
    BytesRead(lfVersion);
    HeaderSteps(lfVersion, EncodeBytes(lfVersion), tag, Join(body).value + rest, rest, shape);
  }

  lemma HeaderFront(lfVersion: Utf8, tag: byte, fields: Bytes, rest: Bytes)
    ensures Header(lfVersion, tag, fields) + rest == [1] + (EncodeBytes(lfVersion) + ([tag] + (fields + rest)))
    ensures EncodeBytes(lfVersion)[0] == EncodeInt32(|lfVersion|)[0]
  {
  }

  lemma HeaderSteps(lfVersion: Utf8, p: Bytes, tag: byte, fields: Bytes, rest: Bytes, shape: Shape)
    requires Reads(ReadBytes, p, lfVersion) && p != [] && p[0] != 3 && tag <= 2
    requires tag == 0 ==> ReadCreate(lfVersion, fields) == Some((shape, rest))
    requires tag == 1 ==> ReadExercise(lfVersion, fields) == Some((shape, rest))
    requires tag == 2 ==> ReadFetch(lfVersion, fields) == Some((shape, rest))
    ensures ReadNode([1] + (p + ([tag] + fields))) == Some((shape, rest))
  {
    Front([1], p + ([tag] + fields));
    Front([tag], fields);
    assert ReadBytes(p + ([tag] + fields)) == Some((lfVersion, [tag] + fields));
  }

  lemma RollbackReads(ds: seq<Code>, rest: Bytes)
    requires AllSome(ds) && AllDigests(ds) && Short(ds) && EncodeRollbackNode(ds).Some?
    ensures ReadNode(EncodeRollbackNode(ds).value + rest) == Some((RollbackShape(Contents(ds)), rest))
  {
    RollbackJoin(ds);
    DigestsRead(ds);
    var s := EncodeRollbackNode(ds).value + rest;
    assert s == [1, 3] + (EncodeRepeated(ds).value + rest);
    Front([1, 3], EncodeRepeated(ds).value + rest);
  }

  ghost predicate AllEncode(sha: Hash, ts: seq<Tree>) {
    forall i :: 0 <= i < |ts| ==> EncodeTree(sha, ts[i]).Some?
  }

  /** The hashes of the encodings, in order. */
  function HashesOf(sha: Hash, ts: seq<Tree>): seq<Bytes>
    requires AllEncode(sha, ts)
  {
    seq(|ts|, i requires 0 <= i < |ts| => sha(EncodeTree(sha, ts[i]).value))
  }

  lemma HashesAreContents(sha: Hash, ts: seq<Tree>)
    requires AllSome(ChildDigests(sha, ts))
    ensures AllEncode(sha, ts) && Contents(ChildDigests(sha, ts)) == HashesOf(sha, ts)
  {
    assert forall i :: 0 <= i < |ts| ==> ChildDigests(sha, ts)[i] == DigestOf(sha, EncodeTree(sha, ts[i]));
  }

  /** What the encoding of a tree says of its root. */
  function ShapeOf(sha: Hash, t: Tree): Shape
    requires EncodeTree(sha, t).Some?
  {
    match t
    case CreateTree(c, seed) => CreateShape(c, seed)
    case ExerciseTree(e, seed, ts) =>
      ExerciseEncodes(e, seed, ChildDigests(sha, ts));
      HashesAreContents(sha, ts);
      ExerciseShape(e, seed, HashesOf(sha, ts))
    case FetchTree(f) => FetchShape(f)
    case RollbackTree(ts) =>
      RollbackEncodes(ChildDigests(sha, ts));
      HashesAreContents(sha, ts);
      RollbackShape(HashesOf(sha, ts))
  }

  /** Every field of a node is read back from its bytes, and of each child its digest. */
  lemma NodeReads(sha: Hash, t: Tree)
    requires WfTree(t) && EncodeTree(sha, t).Some?
    ensures Reads(ReadNode, EncodeTree(sha, t).value, ShapeOf(sha, t))
  {
    forall rest
      ensures ReadNode(EncodeTree(sha, t).value + rest) == Some((ShapeOf(sha, t), rest))
    {
      match t
      case CreateTree(c, seed) =>
        CreateReads(c, seed, rest);
        HeaderReads(c.lfVersion, 0, CreateBody(c, seed), rest, ShapeOf(sha, t));
      case ExerciseTree(e, seed, ts) =>
        var ds := ChildDigests(sha, ts);
        ExerciseEncodes(e, seed, ds);
        HashesAreContents(sha, ts);
        ExerciseReads(e, seed, ds, rest);
        HeaderReads(e.lfVersion, 1, ExerciseBody(e, seed, ds), rest, ShapeOf(sha, t));
      case FetchTree(f) =>
        FetchReads(f, rest);
        HeaderReads(f.lfVersion, 2, FetchBody(f), rest, ShapeOf(sha, t));
      case RollbackTree(ts) =>
        RollbackEncodes(ChildDigests(sha, ts));
        HashesAreContents(sha, ts);
        RollbackReads(ChildDigests(sha, ts), rest);
    }
  }

  /** Equal encodings come from nodes that agree in every field and in the digests of their children. */
  lemma SameEncoding(sha: Hash, t: Tree, u: Tree)
    requires WfTree(t) && WfTree(u)
    requires EncodeTree(sha, t).Some? && EncodeTree(sha, t) == EncodeTree(sha, u)
    ensures ShapeOf(sha, t) == ShapeOf(sha, u)
  {
    NodeReads(sha, t);
    NodeReads(sha, u);
    var code := EncodeTree(sha, t).value;
    ReadOneWay(ReadNode, code, ShapeOf(sha, t), [], code, ShapeOf(sha, u), []);
  }
}
