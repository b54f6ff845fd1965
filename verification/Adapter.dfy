/** The forgeseal adapter (internal/forgeseal/adapter.go): find the output files by content,
    wrap the raw ones in statements and envelopes, and hand them to the engine in order. */
module Adapter {
  import opened Prelude
  import opened Json
  import opened Evidence
  import opened Encoding
  import opened Envelope
  import opened Predicates
  import opened Engine

  const STATEMENT_TYPE := "https://in-toto.io/Statement/v1"
  const IN_TOTO_PAYLOAD := "application/vnd.in-toto+json"
  const SLSA_TYPE := "https://slsa.dev/provenance/v1"
  const SBOM_TYPE := "https://cyclonedx.org/bom"
  const VEX_TYPE := "https://openvex.dev/ns/v0.2.0"
  const SUBJECT_NAME := "forgeseal-artifact"

  // --- Classification ---------------------------------------------------------------------

  datatype Kind = OtherFile | SbomFile | VexFile | SlsaBundle | SlsaStatementFile | BlobSig

  // The object and its content object, as sigstoreBundle decodes them; None when a field is of
  // the wrong kind.
  function BundleFields(j: Json): Option<(seq<Member>, seq<Member>)> {
    match Fields(j)
    case None => None
    case Some(m) =>
      var content := StructField(m, "content");
      if StringField(m, "mediaType").None? || content.None? then None else Some((m, content.value))
  }

  // rawPresent: a value that is there and not null.
  function Present(m: seq<Member>, key: string): Option<Json> {
    var raw := RawField(m, key);
    if raw.Some? && raw.value.Null? then None else raw
  }

  // The value at the top level, else the one under content.
  function Either(m: seq<Member>, content: seq<Member>, key: string): Option<Json> {
    if Present(m, key).Some? then Present(m, key) else Present(content, key)
  }

  // bundleDSSEEnvelope on the parsed file
  function BundleEnvelope(j: Json): Option<Json> {
    match BundleFields(j)
    case None => None
    case Some((m, content)) => Either(m, content, "dsseEnvelope")
  }

  // The payload of an envelope, as the classifier decodes it.
  function CarriedPayload(env: Json): Option<bytes> {
    match Fields(env)
    case None => None
    case Some(e) =>
      match ReadEnvelope(e)
      case None => None
      case Some(wire) => Decode(Standard, wire.payload)
  }

  // predicateTypeOfDSSE(env) == "slsa"
  predicate CarriesProvenance(lib: Libraries, env: Json) {
    match CarriedPayload(env)
    case None => false
    case Some(payload) => Contains(ExtractPredicateType(lib, payload), "slsa.dev/provenance")
  }

  // The members the lenient first probe sees: a document of another kind shows it nothing.
  function Probed(j: Json): seq<Member> {
    if j.Obj? then j.members else []
  }

  function ClassifyTree(lib: Libraries, j: Json): Kind {
    var m := Probed(j);
    var context := RawField(m, "@context");
    if LenientString(m, "bomFormat") == "CycloneDX" then SbomFile
    else if context.Some? && lib.rawMentions(context.value, "openvex.dev") then VexFile
    else if Contains(LenientString(m, "_type"), "in-toto.io/Statement")
            && Contains(LenientString(m, "predicateType"), "slsa.dev/provenance") then SlsaStatementFile
    else
      match BundleFields(j)
      case None => OtherFile
      case Some((top, content)) =>
        match BundleEnvelope(j)
        case Some(env) => if CarriesProvenance(lib, env) then SlsaBundle else OtherFile
        case None => if Either(top, content, "messageSignature").Some? then BlobSig else OtherFile
  }

  function Classify(lib: Libraries, content: bytes): Kind {
    match lib.parseJson(content)
    case None => OtherFile
    case Some(j) => ClassifyTree(lib, j)
  }

  // --- What each kind of file is ------------------------------------------------------------

  ghost predicate SaysCycloneDx(j: Json) {
    j.Obj? && LastStringIs(Values(j.members, "bomFormat"), "CycloneDX")
  }

  ghost predicate MentionsOpenVex(lib: Libraries, j: Json) {
    j.Obj? &&
    var vs := Values(j.members, "@context");
    vs != [] && lib.rawMentions(vs[|vs| - 1], "openvex.dev")
  }

  ghost predicate StatesProvenance(j: Json) {
    && j.Obj?
    && (exists t :: LastStringIs(Values(j.members, "_type"), t) && Contains(t, "in-toto.io/Statement"))
    && (exists p :: LastStringIs(Values(j.members, "predicateType"), p) && Contains(p, "slsa.dev/provenance"))
  }

  // The last value for the key, if it is there and not null.
  ghost predicate Gives(m: seq<Member>, key: string, v: Json) {
    var vs := Values(m, key);
    vs != [] && vs[|vs| - 1] == v && !v.Null?
  }

  // The bundle fields decode, and the value stands at the top level, or under content and not there.
  ghost predicate BundleGives(j: Json, key: string, v: Json) {
    && Fields(j).Some? && StringField(Fields(j).value, "mediaType").Some?
    && StructField(Fields(j).value, "content").Some?
    && (Gives(Fields(j).value, key, v)
        || ((forall w :: !Gives(Fields(j).value, key, w))
          && Gives(StructField(Fields(j).value, "content").value, key, v)))
  }

  // The envelope's payload, in standard base64, is a statement that names provenance.
  ghost predicate WrapsProvenance(lib: Libraries, env: Json) {
    && Fields(env).Some? && StringField(Fields(env).value, "payloadType").Some?
    && exists text, payload, stmt, p ::
         && StringField(Fields(env).value, "payload") == Some(text) && Decode(Standard, text) == Some(payload)
         && lib.parseJson(payload) == Some(stmt) && Fields(stmt).Some?
         && StringField(Fields(stmt).value, "predicateType") == Some(p) && Contains(p, "slsa.dev/provenance")
  }

  /** The kinds in the order in which they are tried; a file of none of them is another file. */
  ghost predicate DocumentIs(lib: Libraries, j: Json, kind: Kind) {
    match kind
    case SbomFile => SaysCycloneDx(j)
    case VexFile => !SaysCycloneDx(j) && MentionsOpenVex(lib, j)
    case SlsaStatementFile => !SaysCycloneDx(j) && !MentionsOpenVex(lib, j) && StatesProvenance(j)
    case SlsaBundle =>
      && !SaysCycloneDx(j) && !MentionsOpenVex(lib, j) && !StatesProvenance(j)
      && exists env :: BundleGives(j, "dsseEnvelope", env) && WrapsProvenance(lib, env)
    case BlobSig =>
      && !SaysCycloneDx(j) && !MentionsOpenVex(lib, j) && !StatesProvenance(j)
      && (forall env :: !BundleGives(j, "dsseEnvelope", env)) && exists ms :: BundleGives(j, "messageSignature", ms)
    case OtherFile =>
      && !SaysCycloneDx(j) && !MentionsOpenVex(lib, j) && !StatesProvenance(j)
      && (forall env :: BundleGives(j, "dsseEnvelope", env) ==> !WrapsProvenance(lib, env))
      && ((exists env :: BundleGives(j, "dsseEnvelope", env)) || forall ms :: !BundleGives(j, "messageSignature", ms))
  }

  lemma {:induction false} LastGoodIsLast(vs: seq<Json>, s: string)
    ensures LastStringIs(vs, s) ==> LastGoodString(vs) == s
    ensures LastGoodString(vs) == s && s != "" ==> LastStringIs(vs, s)
  {
    hide LastStringIs;
    if vs == [] {
      NothingIsLastString();
    } else if vs[|vs| - 1].Str? {
      StringLast(vs, s);
    } else {
      NoStringLast(vs, s);
      LastGoodIsLast(vs[..|vs| - 1], s);
    }
  }

  lemma LenientContains(m: seq<Member>, key: string, sub: string)
    requires sub != ""
    ensures Contains(LenientString(m, key), sub) <==> exists t :: LastStringIs(Values(m, key), t) && Contains(t, sub)
  {
    hide Contains, Values, LastGoodString, LastStringIs;
    EmptyContainsNothing(sub);
    forall t ensures LastStringIs(Values(m, key), t) ==> LenientString(m, key) == t {
      LastGoodIsLast(Values(m, key), t);
    }
    LastGoodIsLast(Values(m, key), LenientString(m, key));
  }

  lemma ProbeSays(lib: Libraries, j: Json)
    ensures LenientString(Probed(j), "bomFormat") == "CycloneDX" <==> SaysCycloneDx(j)
    ensures (RawField(Probed(j), "@context").Some?
             && lib.rawMentions(RawField(Probed(j), "@context").value, "openvex.dev")) <==> MentionsOpenVex(lib, j)
    ensures (Contains(LenientString(Probed(j), "_type"), "in-toto.io/Statement")
             && Contains(LenientString(Probed(j), "predicateType"), "slsa.dev/provenance")) <==> StatesProvenance(j)
  {
    hide Contains, LastGoodString, LastStringIs;
    LastGoodIsLast(Values(Probed(j), "bomFormat"), "CycloneDX");
    LenientContains(Probed(j), "_type", "in-toto.io/Statement");
    LenientContains(Probed(j), "predicateType", "slsa.dev/provenance");
    NothingIsLastString();
  }

  lemma NothingIsLastString()
    ensures forall s :: !LastStringIs([], s)
    ensures forall key :: Values([], key) == []
  {
  }

  lemma BundleSays(j: Json, key: string, v: Json)
    ensures BundleGives(j, key, v)
       <==> BundleFields(j).Some? && Either(BundleFields(j).value.0, BundleFields(j).value.1, key) == Some(v)
  {
    hide Values, StringField, StructField;
    if Fields(j).Some? && Present(Fields(j).value, key).Some? {
      assert Gives(Fields(j).value, key, Present(Fields(j).value, key).value);
    }
  }

  lemma EnvelopeSays(lib: Libraries, env: Json)
    ensures CarriesProvenance(lib, env) <==> WrapsProvenance(lib, env)
  {
    hide Contains, StringField, Decode;
    EmptyContainsNothing("slsa.dev/provenance");
  }

  /** The classifier sorts documents into exactly these kinds. */
  lemma ClassifyTreeIff(lib: Libraries, j: Json, kind: Kind)
    ensures ClassifyTree(lib, j) == kind <==> DocumentIs(lib, j, kind)
  {
    hide Contains, CarriesProvenance, WrapsProvenance, BundleGives, Either, BundleFields, LenientString, RawField,
         SaysCycloneDx, MentionsOpenVex, StatesProvenance;
    ProbeSays(lib, j);
    forall v ensures BundleGives(j, "dsseEnvelope", v) <==> BundleEnvelope(j) == Some(v) {
      BundleSays(j, "dsseEnvelope", v);
    }
    forall v
      ensures BundleGives(j, "messageSignature", v)
         <==> BundleFields(j).Some?
              && Either(BundleFields(j).value.0, BundleFields(j).value.1, "messageSignature") == Some(v)
    {
      BundleSays(j, "messageSignature", v);
    }
    if BundleEnvelope(j).Some? {
      EnvelopeSays(lib, BundleEnvelope(j).value);
    }
  }

  // A readable file whose document is of this kind; what is not JSON is another file.
  ghost predicate FileIs(lib: Libraries, content: bytes, kind: Kind) {
    match lib.parseJson(content)
    case None => kind.OtherFile?
    case Some(j) => DocumentIs(lib, j, kind)
  }

  lemma ClassifyIff(lib: Libraries, content: bytes, kind: Kind)
    ensures Classify(lib, content) == kind <==> FileIs(lib, content, kind)
  {
    hide ClassifyTree, DocumentIs;
    if lib.parseJson(content).Some? {
      ClassifyTreeIff(lib, lib.parseJson(content).value, kind);
    }
  }

  // What classification depends on.
  ghost predicate SameForClassifier(a: seq<Member>, b: seq<Member>) {
    && (forall key | key in ["bomFormat", "@context", "_type", "predicateType", "mediaType"] ::
          Values(a, key) == Values(b, key))
    && SamePresent(a, b)
    && match (StructField(a, "content"), StructField(b, "content"))
       case (Some(c), Some(d)) => SamePresent(c, d)
       case (None, None) => true
       case _ => false
  }

  ghost predicate SamePresent(a: seq<Member>, b: seq<Member>) {
    && Present(a, "dsseEnvelope") == Present(b, "dsseEnvelope")
    && Present(a, "messageSignature") == Present(b, "messageSignature")
  }

  lemma SameFieldsSameKind(lib: Libraries, a: seq<Member>, b: seq<Member>)
    requires SameForClassifier(a, b)
    ensures ClassifyTree(lib, Obj(a)) == ClassifyTree(lib, Obj(b))
  {
    hide Contains, CarriesProvenance, Values, LastGoodString, BundleEnvelope, BundleFields, Present, StructField,
        SamePresent;
    assert Values(a, "bomFormat") == Values(b, "bomFormat") && Values(a, "@context") == Values(b, "@context");
    assert Values(a, "_type") == Values(b, "_type") && Values(a, "predicateType") == Values(b, "predicateType");
    SameFieldsSameEnvelope(a, b);
  }

  lemma SameFieldsSameEnvelope(a: seq<Member>, b: seq<Member>)
    requires SameForClassifier(a, b)
    ensures BundleEnvelope(Obj(a)) == BundleEnvelope(Obj(b))
    ensures match (BundleFields(Obj(a)), BundleFields(Obj(b)))
            case (Some((m, c)), Some((n, d))) => Either(m, c, "messageSignature") == Either(n, d, "messageSignature")
            case (None, None) => true
            case _ => false
  {
    hide Values, LastString, Merged, Present;
    assert Values(a, "mediaType") == Values(b, "mediaType");
  }

  lemma NullIsNotPresent(m: seq<Member>, key: string)
    ensures SamePresent(With(m, key, Null), Without(m, key))
  {
    hide With, Without, Values, SameKey;
    forall other ensures Present(With(m, key, Null), other) == Present(Without(m, key), other) {
      ValuesWith(m, key, Null, other);
      ValuesWithout(m, key, other);
    }
  }

  lemma EnvelopeKeysStandApart(key: string)
    requires key == "dsseEnvelope" || key == "messageSignature"
    ensures forall other | other in ["bomFormat", "@context", "_type", "predicateType", "mediaType"] ::
              !SameKey(key, other)
    ensures !SameKey(key, "content") && !SameKey("content", key)
  {
    assert |key| == 12 || |key| == 16;
  }

  lemma ContentStandsApart()
    ensures forall other | other in ["bomFormat", "@context", "_type", "predicateType", "mediaType",
                                     "dsseEnvelope", "messageSignature"] ::
              !SameKey("content", other)
    ensures SameKey("content", "content")
  {
  }

  lemma TopNullIsAbsent(m: seq<Member>, key: string)
    requires key == "dsseEnvelope" || key == "messageSignature"
    ensures SameForClassifier(With(m, key, Null), Without(m, key))
  {
    hide With, Without, Values, SameKey, Present;
    EnvelopeKeysStandApart(key);
    NullIsNotPresent(m, key);
    forall other | !SameKey(key, other) ensures Values(With(m, key, Null), other) == Values(Without(m, key), other) {
      ValuesWith(m, key, Null, other);
      ValuesWithout(m, key, other);
    }
  }

  lemma NestedNullIsAbsent(m: seq<Member>, content: seq<Member>, key: string)
    ensures SameForClassifier(With(m, "content", Obj(With(content, key, Null))),
                              With(m, "content", Obj(Without(content, key))))
  {
    hide With, Without, Values, SameKey, SamePresent, Merged;
    var c, d := Obj(With(content, key, Null)), Obj(Without(content, key));
    ContentStandsApart();
    NullIsNotPresent(content, key);
    forall other
      ensures !SameKey("content", other) ==>
                Values(With(m, "content", c), other) == Values(With(m, "content", d), other)
    {
      ValuesWith(m, "content", c, other);
      ValuesWith(m, "content", d, other);
    }
    assert SamePresent(With(m, "content", c), With(m, "content", d)) by {
      SameValuesSamePresent(With(m, "content", c), With(m, "content", d));
    }
    ValuesWith(m, "content", c, "content");
    ValuesWith(m, "content", d, "content");
    OneValue(c);
    OneValue(d);
  }

  lemma SameValuesSamePresent(a: seq<Member>, b: seq<Member>)
    requires Values(a, "dsseEnvelope") == Values(b, "dsseEnvelope")
    requires Values(a, "messageSignature") == Values(b, "messageSignature")
    ensures SamePresent(a, b)
  {
  }

  /** An explicit null envelope or message signature counts as absent, at either level. */
  lemma NullFieldsAreAbsent(lib: Libraries, m: seq<Member>, content: seq<Member>, key: string)
    requires key == "dsseEnvelope" || key == "messageSignature"
    ensures ClassifyTree(lib, Obj(With(m, key, Null))) == ClassifyTree(lib, Obj(Without(m, key)))
    ensures ClassifyTree(lib, Obj(With(m, "content", Obj(With(content, key, Null)))))
         == ClassifyTree(lib, Obj(With(m, "content", Obj(Without(content, key)))))
  {
    hide ClassifyTree, SameForClassifier;
    TopNullIsAbsent(m, key);
    NestedNullIsAbsent(m, content, key);
    SameFieldsSameKind(lib, With(m, key, Null), Without(m, key));
    SameFieldsSameKind(lib, With(m, "content", Obj(With(content, key, Null))),
                       With(m, "content", Obj(Without(content, key))));
  }

  // --- Wrapping ----------------------------------------------------------------------------

  predicate ValidSlsaBundle(lib: Libraries, content: bytes) {
    lib.parseJson(content).Some? && BundleEnvelope(lib.parseJson(content).value).Some?
  }

  // The wire form of an unsigned envelope.
  function EnvelopeDoc(stmt: bytes): (j: Json)
    ensures j.Obj?
  {
    Obj([
      Member("payloadType", Str(IN_TOTO_PAYLOAD)),
      Member("payload", Str(Encode(stmt))),
      Member("signatures", Arr([]))])
  }

  function WrapInDSSE(lib: Libraries, stmt: bytes): bytes {
    lib.printJson(EnvelopeDoc(stmt))
  }

  // The one subject of a synthetic statement.
  function SubjectDoc(digestHex: string): Json {
    Obj([Member("name", Str(SUBJECT_NAME)), Member("digest", Obj([Member("sha256", Str(digestHex))]))])
  }

  function StatementDoc(digestHex: string, predicateType: string, doc: Json): (j: Json)
    ensures j.Obj?
  {
    Obj([
      Member("_type", Str(STATEMENT_TYPE)),
      Member("subject", Arr([SubjectDoc(digestHex)])),
      Member("predicateType", Str(predicateType)),
      Member("predicate", doc)])
  }

  // wrapRawStatement; None when the raw bytes are not JSON.
  function WrapRaw(lib: Libraries, raw: bytes, digestHex: string, predicateType: string): Option<bytes> {
    match lib.parseJson(raw)
    case None => None
    case Some(doc) => Some(WrapInDSSE(lib, lib.printJson(StatementDoc(digestHex, predicateType, doc))))
  }

  // --- EvidenceFromOutput ------------------------------------------------------------------

  // A directory entry: a directory, or a file whose content may be unreadable.
  datatype Entry = Directory | File(content: Option<bytes>)

  ghost predicate Is(lib: Libraries, e: Entry, kind: Kind) {
    e.File? && e.content.Some? && FileIs(lib, e.content.value, kind)
  }

  ghost function LastFile(lib: Libraries, entries: seq<Entry>, kind: Kind): Option<bytes> {
    if entries == [] then None
    else if Is(lib, entries[|entries| - 1], kind) then entries[|entries| - 1].content
    else LastFile(lib, entries[..|entries| - 1], kind)
  }

  ghost function FirstFile(lib: Libraries, entries: seq<Entry>, kind: Kind): Option<bytes> {
    if entries == [] then None
    else
      var earlier := FirstFile(lib, entries[..|entries| - 1], kind);
      if earlier.Some? then earlier
      else if Is(lib, entries[|entries| - 1], kind) then entries[|entries| - 1].content
      else None
  }

  ghost predicate HasKind(lib: Libraries, entries: seq<Entry>, kind: Kind) {
    exists i | 0 <= i < |entries| :: Is(lib, entries[i], kind)
  }

  // The attestation made from a raw document, if there is one.
  ghost function RawAttestation(lib: Libraries, raw: Option<bytes>, digestHex: string,
      predicateType: string): seq<Attestation> {
    if raw.None? || WrapRaw(lib, raw.value, digestHex, predicateType).None? then []
    else [Attestation(predicateType, WrapRaw(lib, raw.value, digestHex, predicateType).value)]
  }

  // The provenance attestation: the last bundle as it is, else the first statement wrapped.
  ghost function SlsaAttestation(lib: Libraries, bundle: Option<bytes>, stmt: Option<bytes>): seq<Attestation> {
    if bundle.Some? then [Attestation("https://slsa.dev/provenance/v1", bundle.value)]
    else if stmt.Some? then [Attestation("https://slsa.dev/provenance/v1", WrapInDSSE(lib, stmt.value))]
    else []
  }

  ghost function DigestHex(art: ArtifactRef): string {
    if "sha256" in art.digest then art.digest["sha256"] else ""
  }

  /** The evidence for a listing that has an SBOM or provenance. */
  ghost function EvidenceOf(lib: Libraries, entries: seq<Entry>, artifactDigest: string): Evidence {
    var art := AsArtifact("forgeseal-artifact", artifactDigest);
    Evidence(
      art,
      SlsaAttestation(lib, LastFile(lib, entries, SlsaBundle), FirstFile(lib, entries, SlsaStatementFile))
      + RawAttestation(lib, LastFile(lib, entries, SbomFile), DigestHex(art), "https://cyclonedx.org/bom")
      + RawAttestation(lib, LastFile(lib, entries, VexFile), DigestHex(art), "https://openvex.dev/ns/v0.2.0"),
      None, [], None)
  }

  lemma ClassifiedFilesParse(lib: Libraries, content: bytes)
    ensures Classify(lib, content) != OtherFile ==> lib.parseJson(content).Some?
    ensures Classify(lib, content) == SlsaBundle ==> ValidSlsaBundle(lib, content)
  {
    hide Contains, CarriesProvenance;
  }

  lemma {:induction false} LastFileIsOfKind(lib: Libraries, entries: seq<Entry>, kind: Kind)
    ensures LastFile(lib, entries, kind).Some? <==> HasKind(lib, entries, kind)
    ensures LastFile(lib, entries, kind).Some? ==> Classify(lib, LastFile(lib, entries, kind).value) == kind
  {
    hide Classify, FileIs;
    if entries != [] {
      var n := |entries| - 1;
      if entries[n].File? && entries[n].content.Some? { ClassifyIff(lib, entries[n].content.value, kind); }
      LastFileIsOfKind(lib, entries[..n], kind);
      if i :| 0 <= i < n && Is(lib, entries[i], kind) {
        assert entries[..n][i] == entries[i];
      }
    }
  }

  lemma {:induction false} FirstFileIsOfKind(lib: Libraries, entries: seq<Entry>, kind: Kind)
    ensures FirstFile(lib, entries, kind).Some? <==> HasKind(lib, entries, kind)
    ensures FirstFile(lib, entries, kind).Some? ==> Classify(lib, FirstFile(lib, entries, kind).value) == kind
  {
    hide Classify, FileIs;
    if entries != [] {
      var n := |entries| - 1;
      if entries[n].File? && entries[n].content.Some? { ClassifyIff(lib, entries[n].content.value, kind); }
      FirstFileIsOfKind(lib, entries[..n], kind);
      if i :| 0 <= i < n && Is(lib, entries[i], kind) {
        assert entries[..n][i] == entries[i];
      }
    }
  }

  // The scanning loop.
  method ScanFiles(lib: Libraries, entries: seq<Entry>)
    returns (slsaBundle: Option<bytes>, slsaStmt: Option<bytes>, sbomRaw: Option<bytes>, vexRaw: Option<bytes>)
    ensures slsaBundle == LastFile(lib, entries, SlsaBundle)
    ensures slsaStmt == FirstFile(lib, entries, SlsaStatementFile)
    ensures sbomRaw == LastFile(lib, entries, SbomFile)
    ensures vexRaw == LastFile(lib, entries, VexFile)
  {
    hide Classify, FileIs;
    slsaBundle, slsaStmt, sbomRaw, vexRaw := None, None, None, None;
    for i := 0 to |entries|
      invariant slsaBundle == LastFile(lib, entries[..i], SlsaBundle)
      invariant slsaStmt == FirstFile(lib, entries[..i], SlsaStatementFile)
      invariant sbomRaw == LastFile(lib, entries[..i], SbomFile)
      invariant vexRaw == LastFile(lib, entries[..i], VexFile)
    {
      assert entries[..i + 1][..i] == entries[..i];
      var e := entries[i];
      if e.Directory? || e.content.None? {
        continue;
      }
      var b := e.content.value;
      ClassifyIff(lib, b, SlsaBundle);
      ClassifyIff(lib, b, SlsaStatementFile);
      ClassifyIff(lib, b, SbomFile);
      ClassifyIff(lib, b, VexFile);
      match Classify(lib, b) {
        case SlsaBundle => slsaBundle := Some(b);
        case SlsaStatementFile =>
          if slsaStmt.None? {
            slsaStmt := Some(b);
          }
        case SbomFile => sbomRaw := Some(b);
        case VexFile => vexRaw := Some(b);
        case _ =>
      }
    }
    assert entries[..|entries|] == entries;
  }

  /** A readable listing yields evidence unless it holds neither an SBOM nor provenance:
      nothing that was classified fails to validate or to wrap later. */
  method EvidenceFromOutput(lib: Libraries, entries: seq<Entry>, artifactDigest: string) returns (r: Option<Evidence>)
    ensures r.None?
       <==> !HasKind(lib, entries, SbomFile) && !HasKind(lib, entries, SlsaBundle)
            && !HasKind(lib, entries, SlsaStatementFile)
    ensures r.Some? ==> r.value == EvidenceOf(lib, entries, artifactDigest)
  {
    hide Classify, ValidSlsaBundle, LastFile, FirstFile, HasKind, WrapInDSSE, AsArtifact;
    var slsaBundle, slsaStmt, sbomRaw, vexRaw := ScanFiles(lib, entries);
    LastFileIsOfKind(lib, entries, SlsaBundle);
    LastFileIsOfKind(lib, entries, SbomFile);
    LastFileIsOfKind(lib, entries, VexFile);
    FirstFileIsOfKind(lib, entries, SlsaStatementFile);
    if sbomRaw.None? && slsaBundle.None? && slsaStmt.None? {
      return None;
    }
    var art := AsArtifact(SUBJECT_NAME, artifactDigest);
    var digestHex := if "sha256" in art.digest then art.digest["sha256"] else "";
    var attestations: seq<Attestation> := [];
    if slsaBundle.Some? {
      ClassifiedFilesParse(lib, slsaBundle.value);
      if !ValidSlsaBundle(lib, slsaBundle.value) {
        return None;
      }
      attestations := attestations + [Attestation(SLSA_TYPE, slsaBundle.value)];
    } else if slsaStmt.Some? {
      attestations := attestations + [Attestation(SLSA_TYPE, WrapInDSSE(lib, slsaStmt.value))];
    }
    assert attestations == SlsaAttestation(lib, slsaBundle, slsaStmt);
    var ok;
    ok, attestations := AppendRaw(lib, attestations, sbomRaw, SbomFile, digestHex, SBOM_TYPE);
    if !ok {
      return None;
    }
    ok, attestations := AppendRaw(lib, attestations, vexRaw, VexFile, digestHex, VEX_TYPE);
    if !ok {
      return None;
    }
    r := Some(Evidence(art, attestations, None, [], None));
  }

  // Wrap a raw document found in the scan and append its attestation; never fails for one.
  method AppendRaw(lib: Libraries, before: seq<Attestation>, raw: Option<bytes>, ghost kind: Kind,
      digestHex: string, predicateType: string)
    returns (ok: bool, attestations: seq<Attestation>)
    requires raw.Some? ==> Classify(lib, raw.value) == kind && kind != OtherFile
    ensures ok && attestations == before + RawAttestation(lib, raw, digestHex, predicateType)
  {
    hide Classify;
    attestations := before;
    if raw.Some? {
      ClassifiedFilesParse(lib, raw.value);
      var env := WrapRaw(lib, raw.value, digestHex, predicateType);
      if env.None? {
        return false, attestations;
      }
      attestations := attestations + [Attestation(predicateType, env.value)];
    }
    ok := true;
  }

  // --- What the engine reads back ------------------------------------------------------------

  /** encoding/json: nothing is no document, what parses is well-formed and not nested too deeply,
      and a well-formed tree that is written reads back, unless it is. */
  ghost predicate JsonLaws(lib: Libraries) {
    && lib.parseJson([]).None?
    && (forall b | lib.parseJson(b).Some? ::
          NumbersValid(lib.parseJson(b).value) && Depth(lib.parseJson(b).value) <= MAX_DEPTH)
    && (forall j | NumbersValid(j) ::
          lib.parseJson(lib.printJson(j)) == if Depth(j) <= MAX_DEPTH then Some(j) else None)
  }

  // A member whose key no other key could be by its length.
  lemma {:induction false} OnlyMember(ms: seq<Member>, i: nat)
    requires i < |ms| && forall j | 0 <= j < |ms| && j != i :: |ms[j].key| != |ms[i].key|
    ensures Values(ms, ms[i].key) == [ms[i].value]
  {
    if i == 0 {
      NoMember(ms[1..], ms[0].key);
    } else {
      OnlyMember(ms[1..], i - 1);
    }
  }

  lemma {:induction false} NoMember(ms: seq<Member>, key: string)
    requires forall j | 0 <= j < |ms| :: |ms[j].key| != |key|
    ensures Values(ms, key) == []
  {
    if ms != [] {
      NoMember(ms[1..], key);
    }
  }

  // The deepest member decides.
  lemma {:induction false} DeepestMember(ms: seq<Member>, i: nat)
    requires i < |ms| && forall j | 0 <= j < |ms| :: Depth(ms[j].value) <= Depth(ms[i].value)
    ensures DepthOfMembers(ms) == Depth(ms[i].value)
  {
    if i == 0 {
      if |ms| > 1 {
        ShallowMembers(ms[1..], Depth(ms[0].value));
      }
    } else {
      DeepestMember(ms[1..], i - 1);
    }
  }

  lemma {:induction false} ShallowMembers(ms: seq<Member>, bound: nat)
    requires forall j | 0 <= j < |ms| :: Depth(ms[j].value) <= bound
    ensures DepthOfMembers(ms) <= bound
  {
    if ms != [] {
      ShallowMembers(ms[1..], bound);
    }
  }

  lemma MembersOfEnvelopeDoc(stmt: bytes)
    ensures NumbersValid(EnvelopeDoc(stmt)) && Depth(EnvelopeDoc(stmt)) == 2
    ensures ReadEnvelope(EnvelopeDoc(stmt).members) == Some(DsseEnvelope(IN_TOTO_PAYLOAD, Encode(stmt)))
  {
    hide Encode, Values, LastString;
    var m := EnvelopeDoc(stmt).members;
    assert Depth(Arr([])) == 1;
    DeepestMember(m, 2);
    OnlyMember(m, 0);
    OnlyMember(m, 1);
    OneValue(m[0].value);
    OneValue(m[1].value);
  }

  lemma MembersOfStatementDoc(digestHex: string, predicateType: string, doc: Json)
    ensures var stmt := StatementDoc(digestHex, predicateType, doc);
            && StringField(stmt.members, "predicateType") == Some(predicateType)
            && RawField(stmt.members, "predicate") == Some(doc)
  {
    hide Values, LastString;
    var m := StatementDoc(digestHex, predicateType, doc).members;
    OnlyMember(m, 2);
    OnlyMember(m, 3);
    OneValue(m[2].value);
  }

  lemma DeepestOfOne(j: Json)
    ensures DepthOfItems([j]) == Depth(j)
  {
    assert [j][1..] == [];
  }

  lemma SubjectIsShallow(digestHex: string)
    ensures var subjects := Arr([SubjectDoc(digestHex)]);
            NumbersValid(subjects) && Depth(subjects) == 3
  {
    var m := SubjectDoc(digestHex).members;
    var digest := m[1].value;
    assert digest == Obj([Member("sha256", Str(digestHex))]);
    assert Depth(digest.members[0].value) == 0;
    DeepestMember(digest.members, 0);
    assert DepthOfMembers(digest.members) == 0;
    assert Depth(digest) == 1 + DepthOfMembers(digest.members);
    assert NumbersValid(digest);
    DeepestMember(m, 1);
    assert Depth(SubjectDoc(digestHex)) == 2;
    assert NumbersValid(SubjectDoc(digestHex));
    DeepestOfOne(SubjectDoc(digestHex));
  }

  lemma DepthOfStatementDoc(digestHex: string, predicateType: string, doc: Json)
    requires NumbersValid(doc)
    ensures var stmt := StatementDoc(digestHex, predicateType, doc);
            NumbersValid(stmt) && Depth(stmt) == 1 + if Depth(doc) > 3 then Depth(doc) else 3
  {
    hide SubjectDoc;
    var m := StatementDoc(digestHex, predicateType, doc).members;
    SubjectIsShallow(digestHex);
    assert m[1].value == Arr([SubjectDoc(digestHex)]) && m[3].value == doc;
    DeepestMember(m, if Depth(doc) > 3 then 3 else 1);
  }

  // Any bytes that parse to the wire form decode to what was put in.
  lemma EnvelopeDocDecodes(lib: Libraries, envelope: bytes, stmt: bytes)
    requires lib.parseJson(envelope) == Some(EnvelopeDoc(stmt))
    ensures DecodeDSSE(lib, envelope) == Some(DecodedEnvelope(IN_TOTO_PAYLOAD, stmt))
  {
    hide DecodePayload, Encode, ExtractBundleEnvelope, ReadEnvelope, EnvelopeDoc;
    EncodeDecode(stmt);
    MembersOfEnvelopeDoc(stmt);
    assert IN_TOTO_PAYLOAD != "";
  }

  lemma WrappedDecodes(lib: Libraries, stmt: bytes)
    requires JsonLaws(lib)
    ensures lib.parseJson(WrapInDSSE(lib, stmt)) == Some(EnvelopeDoc(stmt))
    ensures DecodeDSSE(lib, WrapInDSSE(lib, stmt)) == Some(DecodedEnvelope(IN_TOTO_PAYLOAD, stmt))
  {
    hide EnvelopeDoc, NumbersValid, Depth, DecodeDSSE;
    MembersOfEnvelopeDoc(stmt);
    EnvelopeDocDecodes(lib, WrapInDSSE(lib, stmt), stmt);
  }

  // The engine reads type and predicate back from a statement.
  lemma StatementDocReads(lib: Libraries, env: DecodedEnvelope, digestHex: string, predicateType: string, doc: Json)
    requires lib.parseJson(env.payload) == Some(StatementDoc(digestHex, predicateType, doc))
    ensures ExtractPredicateType(lib, env.payload) == predicateType && PredicateOf(lib, env) == Some(doc)
  {
    hide Values, LastString, StatementDoc;
    MembersOfStatementDoc(digestHex, predicateType, doc);
  }

  lemma OccurrenceStarts(s: string, sub: string, i: nat)
    requires |sub| >= 2 && OccursAt(s, sub, i)
    ensures s[i] == sub[0] && s[i + 1] == sub[1]
  {
    assert s[i..i + |sub|][0] == s[i] && s[i..i + |sub|][1] == s[i + 1];
  }

  // A word whose first two characters never meet does not occur.
  lemma NeverStarts(s: string, sub: string)
    requires |sub| >= 2
    requires forall i | 0 <= i < |s| - 1 :: s[i] != sub[0] || s[i + 1] != sub[1]
    ensures !Contains(s, sub)
  {
    if i: nat :| i <= |s| && OccursAt(s, sub, i) {
      OccurrenceStarts(s, sub, i);
      assert false;
    }
  }

  lemma ContainsMiddle(before: string, sub: string, after: string)
    ensures Contains(before + sub + after, sub)
  {
    var s := before + sub + after;
    assert s[|before|..|before| + |sub|] == sub;
    assert OccursAt(s, sub, |before|);
  }

  lemma SlsaTypeRoutes()
    ensures RouteOf(SLSA_TYPE) == Slsa
  {
    hide Contains, OccursAt;
    ContainsMiddle("https://", "slsa.dev/provenance", "/v1");
    assert SLSA_TYPE == "https://" + "slsa.dev/provenance" + "/v1";
  }

  lemma SbomTypeRoutes()
    ensures RouteOf(SBOM_TYPE) == Sbom
  {
    hide Contains, OccursAt;
    NeverStarts(SBOM_TYPE, "slsa.dev/provenance");
    ContainsMiddle("https://", "cyclonedx", ".org/bom");
    assert SBOM_TYPE == "https://" + "cyclonedx" + ".org/bom";
  }

  lemma VexTypeIsNoOther()
    ensures !Contains(VEX_TYPE, "slsa.dev/provenance") && !Contains(VEX_TYPE, "cyclonedx")
  {
    hide Contains, OccursAt;
    NeverStarts(VEX_TYPE, "slsa.dev/provenance");
    NeverStarts(VEX_TYPE, "cyclonedx");
  }

  lemma VexTypeRoutes()
    ensures RouteOf(VEX_TYPE) == Vex
  {
    hide Contains, OccursAt;
    VexTypeIsNoOther();
    ContainsMiddle("https://", "openvex", ".dev/ns/v0.2.0");
    assert VEX_TYPE == "https://" + "openvex" + ".dev/ns/v0.2.0";
  }

  /** The three types the adapter writes are routed to their own verifiers. */
  lemma TypesRouteToTheirClass()
    ensures RouteOf(SLSA_TYPE) == Slsa && RouteOf(SBOM_TYPE) == Sbom && RouteOf(VEX_TYPE) == Vex
  {
    SlsaTypeRoutes();
    SbomTypeRoutes();
    VexTypeRoutes();
  }

  /** Adapter and engine undo each other, up to the nesting limit: a wrapped document is routed by
      the type it was wrapped under, and the verifier is handed the document itself, unless the
      document already exhausts the nesting encoding/json accepts. Then the statement around it
      does not parse, and the attestation is routed to no verifier. */
  lemma WrappingIsUndone(lib: Libraries, raw: bytes, digestHex: string, predicateType: string)
    requires JsonLaws(lib) && lib.parseJson(raw).Some?
    ensures var doc := lib.parseJson(raw).value;
            var env := WrapRaw(lib, raw, digestHex, predicateType);
            && env.Some? && DecodeDSSE(lib, env.value).Some?
            && var decoded := DecodeDSSE(lib, env.value).value;
               if Depth(doc) < MAX_DEPTH
               then ClassOf(lib, Attestation(predicateType, env.value)) == RouteOf(predicateType)
                    && PredicateOf(lib, decoded) == Some(doc)
               else ClassOf(lib, Attestation(predicateType, env.value)) == Unrouted
                    && PredicateOf(lib, decoded) == None
  {
    hide WrapInDSSE, DecodeDSSE, Contains, NumbersValid, Depth, Values, LastString, StatementDoc;
    var doc := lib.parseJson(raw).value;
    var stmt := StatementDoc(digestHex, predicateType, doc);
    var printed := lib.printJson(stmt);
    WrappedDecodes(lib, printed);
    DepthOfStatementDoc(digestHex, predicateType, doc);
    NothingRoutesNowhere();
    assert lib.parseJson(printed) == if Depth(doc) < MAX_DEPTH then Some(stmt) else None;
    if Depth(doc) < MAX_DEPTH {
      StatementDocReads(lib, DecodedEnvelope(IN_TOTO_PAYLOAD, printed), digestHex, predicateType, doc);
    }
  }

  lemma NothingRoutesNowhere()
    ensures RouteOf("") == Unrouted
  {
    EmptyContainsNothing("slsa.dev/provenance");
    EmptyContainsNothing("cyclonedx");
    EmptyContainsNothing("openvex");
  }

  /** A wrapped provenance statement is routed as provenance exactly when the engine can read its
      predicateType; the classifier also accepts one given a second time in the wrong kind. */
  lemma WrappedStatementRoutes(lib: Libraries, stmt: bytes)
    requires JsonLaws(lib) && Classify(lib, stmt) == SlsaStatementFile
    ensures ClassOf(lib, Attestation(SLSA_TYPE, WrapInDSSE(lib, stmt)))
         == if TypeIsReadable(lib, stmt) then Slsa else Unrouted
    ensures DecodeDSSE(lib, WrapInDSSE(lib, stmt)) == Some(DecodedEnvelope(IN_TOTO_PAYLOAD, stmt))
  {
    hide WrapInDSSE, DecodeDSSE, Contains, Classify;
    WrappedDecodes(lib, stmt);
    StatementNamesProvenance(lib, stmt);
    NothingRoutesNowhere();
  }

  lemma EmptyContainsNothing(sub: string)
    requires sub != ""
    ensures !Contains("", sub)
  {
  }

  // The verifier of this class is handed an envelope whose predicate is the file's document,
  // unless that document exhausts the nesting limit.
  ghost predicate Sees(lib: Libraries, atts: seq<Attestation>, c: Class, file: Option<bytes>) {
    file.Some? && lib.parseJson(file.value).Some? && Depth(lib.parseJson(file.value).value) < MAX_DEPTH ==>
      LastOf(lib, atts, c).Some? && PredicateOf(lib, LastOf(lib, atts, c).value) == lib.parseJson(file.value)
  }

  // The envelope the router opens in this file, if what it names belongs to this class.
  ghost function OpenedAs(lib: Libraries, content: bytes, c: Class): Option<DecodedEnvelope> {
    if ClassOf(lib, Attestation(SLSA_TYPE, content)) == c then DecodeDSSE(lib, content) else None
  }

  // The payload for which the classifier took this file for a bundle.
  ghost function ClassifiedPayload(lib: Libraries, content: bytes): Option<bytes> {
    if lib.parseJson(content).None? || BundleEnvelope(lib.parseJson(content).value).None? then None
    else CarriedPayload(BundleEnvelope(lib.parseJson(content).value).value)
  }

  /** From directory to verifiers: whatever else the directory holds, the engine's SBOM and VEX
      verifiers see its last SBOM and last VEX file. If there is a bundle, the SLSA verifier sees the
      envelope the router opens in the last one, or nothing if that names no provenance; it is what
      the classifier read there if the router opens the envelope the classifier looked into. If
      there is no bundle, the SLSA verifier sees the first statement file, or nothing if its
      predicateType cannot be read. */
  lemma EngineSeesTheFiles(lib: Libraries, entries: seq<Entry>, artifactDigest: string)
    requires JsonLaws(lib)
    ensures var atts := EvidenceOf(lib, entries, artifactDigest).attestations;
            var bundle, stmt := LastFile(lib, entries, SlsaBundle), FirstFile(lib, entries, SlsaStatementFile);
            && |atts| <= 3
            && Sees(lib, atts, Sbom, LastFile(lib, entries, SbomFile))
            && Sees(lib, atts, Vex, LastFile(lib, entries, VexFile))
            && (bundle.Some? ==>
                  && LastOf(lib, atts, Slsa) == OpenedAs(lib, bundle.value, Slsa)
                  && (OpensClassified(lib, bundle.value) ==>
                        LastOf(lib, atts, Slsa).Some?
                        && Some(LastOf(lib, atts, Slsa).value.payload) == ClassifiedPayload(lib, bundle.value)))
            && (bundle.None? ==>
                  LastOf(lib, atts, Slsa)
                  == if stmt.Some? && TypeIsReadable(lib, stmt.value)
                     then Some(DecodedEnvelope(IN_TOTO_PAYLOAD, stmt.value)) else None)
  {
    hide Classify, LastFile, FirstFile, HasKind, WrapInDSSE, AsArtifact, LastOf, ClassOf, RouteOf, DecodeDSSE,
         PredicateOf, OpensClassified, Depth, TypeIsReadable, BundleEnvelope, CarriedPayload;
    var hex := DigestHex(AsArtifact(SUBJECT_NAME, artifactDigest));
    var bundle, stmt := LastFile(lib, entries, SlsaBundle), FirstFile(lib, entries, SlsaStatementFile);
    var sbom, vex := LastFile(lib, entries, SbomFile), LastFile(lib, entries, VexFile);
    var a := SlsaAttestation(lib, bundle, stmt);
    var b, c := RawAttestation(lib, sbom, hex, SBOM_TYPE), RawAttestation(lib, vex, hex, VEX_TYPE);
    FirstFileIsOfKind(lib, entries, SlsaStatementFile);
    LastFileIsOfKind(lib, entries, SlsaBundle);
    LastFileIsOfKind(lib, entries, SbomFile);
    LastFileIsOfKind(lib, entries, VexFile);
    TypesRouteToTheirClass();
    RawIsSeen(lib, sbom, SbomFile, hex, SBOM_TYPE);
    RawIsSeen(lib, vex, VexFile, hex, VEX_TYPE);
    LastOfThree(lib, a, b, c, Slsa);
    LastOfThree(lib, a, b, c, Sbom);
    LastOfThree(lib, a, b, c, Vex);
    if bundle.Some? && OpensClassified(lib, bundle.value) {
      ClassifiedBundleRoutes(lib, bundle.value);
      ClassifiedFilesParse(lib, bundle.value);
    }
    if bundle.None? && stmt.Some? {
      WrappedStatementRoutes(lib, stmt.value);
    }
  }

  lemma {:induction false} NoneLater(lib: Libraries, entries: seq<Entry>, kind: Kind, i: nat)
    requires i < |entries| && Is(lib, entries[i], kind)
    requires forall j | i < j < |entries| :: !Is(lib, entries[j], kind)
    ensures LastFile(lib, entries, kind) == entries[i].content
  {
    hide FileIs;
    if i < |entries| - 1 {
      NoneLater(lib, entries[..|entries| - 1], kind, i);
    }
  }

  /** A listing with a readable CycloneDX document yields evidence in which the SBOM verifier is
      handed the last such document, whatever else the listing holds. */
  lemma CycloneDxReachesTheVerifier(lib: Libraries, entries: seq<Entry>, artifactDigest: string, i: nat, doc: Json)
    requires JsonLaws(lib) && i < |entries| && entries[i].File? && entries[i].content.Some?
    requires lib.parseJson(entries[i].content.value) == Some(doc) && SaysCycloneDx(doc) && Depth(doc) < MAX_DEPTH
    requires forall j | i < j < |entries| && entries[j].File? && entries[j].content.Some? ::
               forall later | lib.parseJson(entries[j].content.value) == Some(later) :: !SaysCycloneDx(later)
    ensures HasKind(lib, entries, SbomFile)
    ensures var last := LastOf(lib, EvidenceOf(lib, entries, artifactDigest).attestations, Sbom);
            last.Some? && PredicateOf(lib, last.value) == Some(doc)
  {
    hide SaysCycloneDx, MentionsOpenVex, StatesProvenance, EvidenceOf, LastOf, PredicateOf, LastFile, FirstFile, Depth,
         TypeIsReadable, OpensClassified;
    assert Is(lib, entries[i], SbomFile);
    NoneLater(lib, entries, SbomFile, i);
    EngineSeesTheFiles(lib, entries, artifactDigest);
  }

  /** A wrapped document, field by field: an unsigned in-toto envelope around a statement about the
      one subject, with the document as its predicate. */
  lemma WrappedDocumentSays(lib: Libraries, raw: bytes, digestHex: string, predicateType: string, doc: Json)
    requires JsonLaws(lib) && lib.parseJson(raw) == Some(doc) && Depth(doc) < MAX_DEPTH
    ensures exists env, payload, stmt, subject, digest ::
              && WrapRaw(lib, raw, digestHex, predicateType).Some?
              && lib.parseJson(WrapRaw(lib, raw, digestHex, predicateType).value) == Some(Obj(env))
              && IsUnsignedEnvelope(env, payload)
              && lib.parseJson(payload) == Some(Obj(stmt))
              && IsStatementAbout(stmt, predicateType, doc, subject)
              && StringField(subject, "name") == Some("forgeseal-artifact")
              && StructField(subject, "digest") == Some(digest) && StringField(digest, "sha256") == Some(digestHex)
  {
    hide NumbersValid, Depth, StatementDoc, EnvelopeDoc, IsUnsignedEnvelope, IsStatementAbout, SubjectDoc, StringField,
         StructField;
    var stmt := StatementDoc(digestHex, predicateType, doc);
    var payload := lib.printJson(stmt);
    DepthOfStatementDoc(digestHex, predicateType, doc);
    MembersOfEnvelopeDoc(payload);
    EnvelopeSaysSo(payload);
    StatementSaysSo(digestHex, predicateType, doc);
    SubjectSaysSo(digestHex);
    assert StructField(SubjectDoc(digestHex).members, "digest").Some?;
  }

  // payloadType, base64 payload, and no signatures.
  ghost predicate IsUnsignedEnvelope(env: seq<Member>, payload: bytes) {
    && StringField(env, "payloadType") == Some("application/vnd.in-toto+json")
    && StringField(env, "payload").Some? && Decode(Standard, StringField(env, "payload").value) == Some(payload)
    && SliceField(env, "signatures") == Some([])
  }

  ghost predicate IsStatementAbout(stmt: seq<Member>, predicateType: string, doc: Json, subject: seq<Member>) {
    && StringField(stmt, "_type") == Some("https://in-toto.io/Statement/v1")
    && StringField(stmt, "predicateType") == Some(predicateType)
    && RawField(stmt, "predicate") == Some(doc)
    && SliceField(stmt, "subject") == Some([Obj(subject)])
  }

  lemma EnvelopeSaysSo(payload: bytes)
    ensures IsUnsignedEnvelope(EnvelopeDoc(payload).members, payload)
  {
    hide Encode, Decode, Values, LastString;
    var m := EnvelopeDoc(payload).members;
    OnlyMember(m, 0);
    OnlyMember(m, 1);
    OnlyMember(m, 2);
    OneValue(m[0].value);
    OneValue(m[1].value);
    OneSlice([]);
    EncodeDecode(payload);
  }

  lemma OneSlice(items: seq<Json>)
    ensures LastItems([Arr(items)]) == Some(items)
  {
    assert [Arr(items)][..0] == [];
  }

  lemma StatementSaysSo(digestHex: string, predicateType: string, doc: Json)
    ensures SubjectDoc(digestHex).Obj?
    ensures IsStatementAbout(StatementDoc(digestHex, predicateType, doc).members, predicateType, doc,
                             SubjectDoc(digestHex).members)
  {
    hide Values, LastString;
    var m := StatementDoc(digestHex, predicateType, doc).members;
    OnlyMember(m, 0);
    OnlyMember(m, 1);
    OnlyMember(m, 2);
    OnlyMember(m, 3);
    OneValue(m[0].value);
    OneValue(m[2].value);
    OneSlice([SubjectDoc(digestHex)]);
  }

  lemma SubjectSaysSo(digestHex: string)
    ensures SubjectDoc(digestHex).Obj?
    ensures var m := SubjectDoc(digestHex).members;
            && StringField(m, "name") == Some("forgeseal-artifact")
            && StructField(m, "digest").Some?
            && StringField(StructField(m, "digest").value, "sha256") == Some(digestHex)
  {
    hide Values, LastString, Merged;
    var m := SubjectDoc(digestHex).members;
    OnlyMember(m, 0);
    OnlyMember(m, 1);
    OneValue(m[0].value);
    OneValue(m[1].value);
    var d := m[1].value.members;
    OnlyMember(d, 0);
    OneValue(d[0].value);
  }

  lemma RawIsSeen(lib: Libraries, raw: Option<bytes>, kind: Kind, digestHex: string, predicateType: string)
    requires JsonLaws(lib) && kind != OtherFile
    requires raw.Some? ==> Classify(lib, raw.value) == kind
    ensures var atts := RawAttestation(lib, raw, digestHex, predicateType);
            && (raw.None? ==> atts == [])
            && (raw.Some? ==>
                  && |atts| == 1
                  && lib.parseJson(raw.value).Some?
                  && DecodeDSSE(lib, atts[0].envelope).Some?
                  && (if Depth(lib.parseJson(raw.value).value) < MAX_DEPTH
                      then ClassOf(lib, atts[0]) == RouteOf(predicateType)
                           && PredicateOf(lib, DecodeDSSE(lib, atts[0].envelope).value) == lib.parseJson(raw.value)
                      else ClassOf(lib, atts[0]) == Unrouted))
  {
    hide Classify, WrapInDSSE, DecodeDSSE, RouteOf, PredicateOf, WrapRaw, Depth;
    if raw.Some? {
      ClassifiedFilesParse(lib, raw.value);
      WrappingIsUndone(lib, raw.value, digestHex, predicateType);
    }
  }

  lemma LastOfThree(lib: Libraries, a: seq<Attestation>, b: seq<Attestation>, c: seq<Attestation>, cls: Class)
    requires |a| <= 1 && |b| <= 1 && |c| <= 1
    ensures LastOf(lib, a + b + c, cls)
         == if c != [] && ClassOf(lib, c[0]) == cls then DecodeDSSE(lib, c[0].envelope)
            else if b != [] && ClassOf(lib, b[0]) == cls then DecodeDSSE(lib, b[0].envelope)
            else if a != [] && ClassOf(lib, a[0]) == cls then DecodeDSSE(lib, a[0].envelope)
            else None
  {
    hide ClassOf, DecodeDSSE, LastOf;
    LastOfAppend(lib, a + b, c, cls);
    LastOfAppend(lib, a, b, cls);
    LastOfAppend(lib, [], a, cls);
    NothingIsLast(lib, cls);
    assert [] + a == a;
  }

  lemma NothingIsLast(lib: Libraries, c: Class)
    ensures LastOf(lib, [], c).None?
  {
  }

  // Appending at most one attestation.
  lemma LastOfAppend(lib: Libraries, atts: seq<Attestation>, more: seq<Attestation>, c: Class)
    requires |more| <= 1
    ensures LastOf(lib, atts + more, c)
         == if more != [] && ClassOf(lib, more[0]) == c then DecodeDSSE(lib, more[0].envelope) else LastOf(lib, atts, c)
  {
    hide ClassOf, DecodeDSSE;
    if more == [] {
      assert atts + more == atts;
    } else {
      assert (atts + more)[..|atts|] == atts;
    }
  }

  // --- Classifier and router ------------------------------------------------------------------

  // Where the classifier found the envelope of a bundle.
  ghost function ClassifiedShape(m: seq<Member>): Shape {
    if Present(m, "dsseEnvelope").Some? then TopLevel else Nested
  }

  // The envelope there, as the router decodes it.
  ghost function EnvelopeAt(m: seq<Member>, content: seq<Member>, shape: Shape): Option<Option<DsseEnvelope>> {
    if shape.TopLevel? then EnvelopeField(m) else EnvelopeField(content)
  }

  // Nothing at the top level claims a payload type, every envelope decodes, and the one the
  // classifier looked into has a type.
  ghost predicate NothingInterferes(m: seq<Member>, content: seq<Member>) {
    && ReadEnvelope(m).Some? && ReadEnvelope(m).value.payloadType == ""
    && EnvelopeField(m).Some? && EnvelopeField(content).Some?
    && var env := EnvelopeAt(m, content, ClassifiedShape(m)).value;
       env.Some? && env.value.payloadType != ""
  }

  /** For every file classified as a bundle: the router opens the envelope the classifier looked
      into exactly when nothing interferes. */
  lemma RouterFollowsClassifierIff(j: Json)
    requires BundleFields(j).Some? && BundleEnvelope(j).Some?
    ensures var (m, content) := BundleFields(j).value;
            (Select(m).Some? && Select(m).value.0 == ClassifiedShape(m)) <==> NothingInterferes(m, content)
  {
    hide ReadEnvelope, StringField, StructField, SameKey;
    var (m, content) := BundleFields(j).value;
    NullPointerIsNil(Values(m, "dsseEnvelope"));
  }

  lemma NullPointerIsNil(vs: seq<Json>)
    ensures vs == [] || vs[|vs| - 1].Null? ==> Pointed(vs).None? || Pointed(vs) == Some(None)
    ensures vs != [] && !vs[|vs| - 1].Null? ==> Pointed(vs).None? || Pointed(vs).value.Some?
  {
  }

  // The router opens the envelope the classifier looked into.
  ghost predicate OpensClassified(lib: Libraries, content: bytes) {
    && lib.parseJson(content).Some? && BundleFields(lib.parseJson(content).value).Some?
    && var (m, c) := BundleFields(lib.parseJson(content).value).value;
       NothingInterferes(m, c)
  }

  lemma {:induction false} LaterStringWins(a: seq<Json>, b: seq<Json>)
    ensures LastString(a + b).Some? ==>
              LastString(b).Some? && (LastString(b).value != "" ==> LastString(a + b) == LastString(b))
  {
    if b != [] {
      assert (a + b)[..|a + b| - 1] == a + b[..|b| - 1];
      LaterStringWins(a, b[..|b| - 1]);
    }
  }

  // An envelope given several times is merged, but a payload in the last one is the payload.
  lemma LaterPayloadWins(vs: seq<Json>)
    requires vs != [] && vs[|vs| - 1].Obj? && Pointed(vs).Some? && Pointed(vs).value.Some?
    requires ReadEnvelope(Pointed(vs).value.value).Some?
    ensures var last := ReadEnvelope(vs[|vs| - 1].members);
            last.Some? && last.value.payload != "" ==>
              ReadEnvelope(Pointed(vs).value.value).value.payload == last.value.payload
  {
    hide Values, LastString;
    var last := vs[|vs| - 1].members;
    var earlier := Pointed(vs[..|vs| - 1]).value;
    var before := if earlier.Some? then earlier.value else [];
    assert Pointed(vs).value.value == before + last;
    ValuesAppend(before, last, "payload");
    LaterStringWins(Values(before, "payload"), Values(last, "payload"));
  }

  lemma NothingCarriesNothing(lib: Libraries, env: Json)
    requires lib.parseJson([]).None? && CarriesProvenance(lib, env)
    ensures env.Obj? && ReadEnvelope(env.members).Some? && ReadEnvelope(env.members).value.payload != ""
    ensures DecodePayload(ReadEnvelope(env.members).value.payload) == CarriedPayload(env)
  {
    hide Contains, ReadEnvelope;
    EmptyContainsNothing("slsa.dev/provenance");
    if env.Null? {
      NoBareFields([]);
    }
  }

  /** A bundle classified as provenance is then routed as provenance, and it is the payload the
      classifier read that is routed. */
  lemma ClassifiedBundleRoutes(lib: Libraries, content: bytes)
    requires lib.parseJson([]).None? && Classify(lib, content) == SlsaBundle && OpensClassified(lib, content)
    ensures ClassOf(lib, Attestation(SLSA_TYPE, content)) == Slsa
    ensures DecodeDSSE(lib, content).Some?
    ensures Some(DecodeDSSE(lib, content).value.payload)
        == CarriedPayload(BundleEnvelope(lib.parseJson(content).value).value)
  {
    hide Contains, ExtractPredicateType, Decode, DecodePayload, ReadEnvelope, StringField, StructField, SameKey,
         LenientString, Values, CarriedPayload;
    var j := lib.parseJson(content).value;
    var (m, c) := BundleFields(j).value;
    var env := BundleEnvelope(j).value;
    assert CarriesProvenance(lib, env);
    RouterFollowsClassifierIff(j);
    NothingCarriesNothing(lib, env);
    var vs := if ClassifiedShape(m).TopLevel? then Values(m, "dsseEnvelope") else Values(c, "dsseEnvelope");
    assert vs != [] && vs[|vs| - 1] == env;
    LaterPayloadWins(vs);
    assert Fields(j) == Some(m);
  }

  /** Signing does not hide provenance: put the envelope of a provenance statement into a bundle,
      at the top level or under content, and the file is recognised and routed as provenance. */
  lemma BundledStatementIsRecognised(lib: Libraries, stmt: bytes, nested: bool)
    requires JsonLaws(lib) && Classify(lib, stmt) == SlsaStatementFile && TypeIsReadable(lib, stmt)
    ensures var m := [Member("dsseEnvelope", EnvelopeDoc(stmt))];
            var file := lib.printJson(Obj(if nested then [Member("content", Obj(m))] else m));
            Classify(lib, file) == SlsaBundle && ClassOf(lib, Attestation(SLSA_TYPE, file)) == Slsa
  {
    hide Contains, OccursAt, CarriesProvenance, WrapInDSSE, ReadEnvelope, Depth, NumbersValid, EnvelopeDoc,
         ClassifyTree, NothingInterferes;
    var env := EnvelopeDoc(stmt);
    WrappedEnvelopeCarries(lib, stmt);
    MembersOfEnvelopeDoc(stmt);
    BundleMembers(env, nested);
    var m := [Member("dsseEnvelope", env)];
    var j := Obj(if nested then [Member("content", Obj(m))] else m);
    BundleDepth(env, nested);
    assert lib.parseJson(lib.printJson(j)) == Some(j);
    BundleIsClassified(lib, env, nested);
    ClassifiedBundleRoutes(lib, lib.printJson(j));
  }

  lemma BundleDepth(env: Json, nested: bool)
    requires NumbersValid(env) && Depth(env) == 2
    ensures var m := [Member("dsseEnvelope", env)];
            var j := Obj(if nested then [Member("content", Obj(m))] else m);
            NumbersValid(j) && Depth(j) <= 4
  {
    var m := [Member("dsseEnvelope", env)];
    DeepestMember(m, 0);
    DeepestMember([Member("content", Obj(m))], 0);
    assert NumbersValid(Obj(m));
  }

  // The fields of a document that holds nothing but this envelope.
  lemma BundleMembers(env: Json, nested: bool)
    requires env.Obj? && ReadEnvelope(env.members).Some? && ReadEnvelope(env.members).value.payloadType != ""
    ensures var inner := [Member("dsseEnvelope", env)];
            var m := if nested then [Member("content", Obj(inner))] else inner;
            && BundleFields(Obj(m)) == Some((m, if nested then inner else []))
            && BundleEnvelope(Obj(m)) == Some(env)
            && NothingInterferes(m, if nested then inner else [])
  {
    hide ReadEnvelope, SameKey;
    var inner := [Member("dsseEnvelope", env)];
    var m := if nested then [Member("content", Obj(inner))] else inner;
    KeysDiffer();
    ContentStandsApart();
    SameKeyIsAnEquivalence("dsseEnvelope", "dsseEnvelope", "dsseEnvelope");
    assert inner[1..] == [] && m[1..] == [];
    assert Values(inner, "dsseEnvelope") == [env];
    OneValue(env);
    OneValue(Obj(inner));
    assert Values(m, "mediaType") == [];
    assert Values(m, "content") == (if nested then [Obj(inner)] else []);
    assert ReadEnvelope(m) == Some(DsseEnvelope("", "")) by { NoBareFields(m); }
    assert EnvelopeField(inner) == Some(ReadEnvelope(env.members));
  }

  lemma NoBareFields(m: seq<Member>)
    requires Values(m, "payloadType") == [] && Values(m, "payload") == []
    ensures ReadEnvelope(m) == Some(DsseEnvelope("", ""))
  {
  }

  lemma BundleIsClassified(lib: Libraries, env: Json, nested: bool)
    requires CarriesProvenance(lib, env)
    requires var m := [Member("dsseEnvelope", env)];
             var j := Obj(if nested then [Member("content", Obj(m))] else m);
             BundleFields(j).Some? && BundleEnvelope(j) == Some(env)
    ensures var m := [Member("dsseEnvelope", env)];
            ClassifyTree(lib, Obj(if nested then [Member("content", Obj(m))] else m)) == SlsaBundle
  {
    hide Contains, OccursAt, CarriesProvenance, BundleFields, BundleEnvelope, Values;
    var inner := [Member("dsseEnvelope", env)];
    var m := if nested then [Member("content", Obj(inner))] else inner;
    NothingProbed(m[0]);
    EmptyContainsNothing("in-toto.io/Statement");
    assert LastGoodString([]) == "";
  }

  // The first probe sees nothing in a lone envelope or content.
  lemma NothingProbed(m: Member)
    requires m.key == "dsseEnvelope" || m.key == "content"
    ensures Values([m], "bomFormat") == Values([m], "@context") == Values([m], "_type") == []
  {
    hide SameKey;
    ContentStandsApart();
    EnvelopeKeysStandApart("dsseEnvelope");
    var keys := ["bomFormat", "@context", "_type"];
    assert keys[0] in keys && keys[1] in keys && keys[2] in keys && [m][1..] == [];
    forall key | key in keys ensures Values([m], key) == [] {
      assert !SameKey(m.key, key) && Values([m][1..], key) == [];
    }
  }

  lemma WrappedEnvelopeCarries(lib: Libraries, stmt: bytes)
    requires Classify(lib, stmt) == SlsaStatementFile && TypeIsReadable(lib, stmt)
    ensures CarriesProvenance(lib, EnvelopeDoc(stmt))
  {
    hide Contains, Decode, Encode, ExtractPredicateType, Classify, ReadEnvelope;
    EncodeDecode(stmt);
    MembersOfEnvelopeDoc(stmt);
    StatementNamesProvenance(lib, stmt);
  }

  // The strict reader agrees with the lenient one unless some value is of the wrong kind.
  lemma {:induction false} LenientAgrees(vs: seq<Json>)
    ensures LastString(vs).Some? ==> LastString(vs).value == LastGoodString(vs)
  {
    if vs != [] {
      LenientAgrees(vs[..|vs| - 1]);
    }
  }

  // No predicateType of the statement is of the wrong kind.
  ghost predicate TypeIsReadable(lib: Libraries, stmt: bytes) {
    lib.parseJson(stmt).Some? && StringField(Probed(lib.parseJson(stmt).value), "predicateType").Some?
  }

  lemma StatementNamesProvenance(lib: Libraries, stmt: bytes)
    requires Classify(lib, stmt) == SlsaStatementFile
    ensures if TypeIsReadable(lib, stmt) then Contains(ExtractPredicateType(lib, stmt), "slsa.dev/provenance")
            else ExtractPredicateType(lib, stmt) == ""
  {
    hide Contains, Values, LastString, LastGoodString;
    var m := Probed(lib.parseJson(stmt).value);
    assert lib.parseJson(stmt).value.Obj? by { OnlyObjectsAreStatements(lib, lib.parseJson(stmt).value); }
    LenientAgrees(Values(m, "predicateType"));
  }

  lemma OnlyObjectsAreStatements(lib: Libraries, j: Json)
    ensures ClassifyTree(lib, j) == SlsaStatementFile ==> j.Obj?
  {
    hide Contains, CarriesProvenance;
    EmptyContainsNothing("in-toto.io/Statement");
  }
}
