/** The predicate verifiers (pkg/core/verify/slsa.go, sbom.go, vex.go) and the digest
    choice of pkg/core/evidence_codec.go. Maps are walked in an arbitrary order. */
module Predicates {
  import opened Prelude
  import opened Json
  import opened Evidence
  import opened Encoding
  import opened Envelope
  import opened Ordering

  // --- SLSA -----------------------------------------------------------------------

  datatype SlsaResult = SlsaResult(verified: bool, builderID: string, buildLevel: int, subjectDigestMatch: bool)

  const NO_SLSA := SlsaResult(false, "", 0, false)

  ghost predicate AlgorithmMatches(lib: Libraries, subject: map<string, string>, art: ArtifactRef, alg: string) {
    alg in art.digest && art.digest[alg] != "" && alg in subject
        && EqualFold(lib.foldOther, subject[alg], art.digest[alg])
  }

  // Some algorithm names the same non-empty digest on both sides.
  ghost predicate SubjectMatches(lib: Libraries, subject: map<string, string>, art: ArtifactRef) {
    exists alg :: AlgorithmMatches(lib, subject, art, alg)
  }

  method MatchSubject(lib: Libraries, subject: map<string, string>, art: ArtifactRef) returns (matches: bool)
    ensures matches <==> SubjectMatches(lib, subject, art)
  {
    var todo := art.digest.Keys;
    while todo != {}
      invariant todo <= art.digest.Keys
      invariant forall alg | alg in art.digest && alg !in todo :: !AlgorithmMatches(lib, subject, art, alg)
      decreases |todo|
    {
      var alg :| alg in todo;
      todo := todo - {alg};
      var hexText := art.digest[alg];
      if hexText != "" && alg in subject && EqualFold(lib.foldOther, subject[alg], hexText) {
        assert AlgorithmMatches(lib, subject, art, alg);
        return true;
      }
    }
    return false;
  }

  function DeriveBuildLevel(builderID: string, buildType: string): int {
    if builderID == "" then 1
    else if HasPrefix(builderID, "https://") && buildType != "" then 3
    else 2
  }

  // The level the comment on SLSAResult.BuildLevel documents; None where it is silent.
  ghost function DocumentedLevel(builderID: string, buildType: string): Option<int> {
    if HasPrefix(builderID, "https://") && buildType != "" then Some(3)
    else if builderID != "" && buildType == "" then Some(2)
    else if builderID == "" then Some(1)
    else None
  }

  /** The documented heuristic covers the code except for one family: a builder that is not an
      https URI with a build type, which the code puts at level 2. */
  lemma LevelIsAsDocumentedIff(builderID: string, buildType: string)
    ensures DocumentedLevel(builderID, buildType) == Some(DeriveBuildLevel(builderID, buildType))
       <==> !(builderID != "" && !HasPrefix(builderID, "https://") && buildType != "")
    ensures DocumentedLevel(builderID, buildType).None? ==> DeriveBuildLevel(builderID, buildType) == 2
    ensures DocumentedLevel("tekton", "build").None? && DeriveBuildLevel("tekton", "build") == 2
  {
    assert "tekton"[0] != "https://"[0];
    if builderID == "" {
      assert !HasPrefix(builderID, "https://");
    }
  }

  ghost predicate AnySubjectMatches(lib: Libraries, subjects: seq<map<string, string>>, art: ArtifactRef) {
    exists i | 0 <= i < |subjects| :: SubjectMatches(lib, subjects[i], art)
  }

  ghost function SlsaOf(lib: Libraries, env: DecodedEnvelope, art: ArtifactRef): SlsaResult {
    match lib.parseStatement(env.payload)
    case None => SlsaResult(false, "", 0, false)
    case Some(stmt) =>
      var matches := AnySubjectMatches(lib, stmt.subjects, art);
      match stmt.provenance
      case UnreadablePredicate => SlsaResult(false, "", 0, false)
      case NoPredicate => SlsaResult(matches, "", 1, matches)
      case Provenance(builderID, buildType) =>
        SlsaResult(matches, builderID, DeriveBuildLevel(builderID, buildType), matches)
  }

  method VerifySLSA(lib: Libraries, env: DecodedEnvelope, art: ArtifactRef) returns (result: SlsaResult)
    ensures result == SlsaOf(lib, env, art)
  {
    var parsed := lib.parseStatement(env.payload);
    if parsed.None? {
      return NO_SLSA;
    }
    var stmt := parsed.value;
    var subjectDigestMatch := false;
    for i := 0 to |stmt.subjects|
      invariant !subjectDigestMatch
      invariant forall k | 0 <= k < i :: !SubjectMatches(lib, stmt.subjects[k], art)
    {
      var m := MatchSubject(lib, stmt.subjects[i], art);
      if m {
        subjectDigestMatch := true;
        break;
      }
    }
    var builderID, buildType := "", "";
    match stmt.provenance {
      case NoPredicate =>
      case UnreadablePredicate =>
        return NO_SLSA;
      case Provenance(id, t) =>
        builderID, buildType := id, t;
    }
    result := SlsaResult(subjectDigestMatch, builderID, DeriveBuildLevel(builderID, buildType), subjectDigestMatch);
  }

  // --- SBOM -----------------------------------------------------------------------

  datatype SbomResult = SbomResult(present: bool, licenses: seq<string>)

  const NO_SBOM := SbomResult(false, [])

  // The first licence id, name or expression of a component; "" when it has none.
  function FirstLicense(choices: seq<LicenseChoice>): string {
    if choices == [] then ""
    else
      var c := choices[0];
      if c.license.Some? && c.license.value.id != "" then c.license.value.id
      else if c.license.Some? && c.license.value.name != "" then c.license.value.name
      else if c.expression != "" then c.expression
      else FirstLicense(choices[1..])
  }

  // Everything a choice offers as a licence.
  ghost predicate Offers(c: LicenseChoice, l: string) {
    l != "" && (l == c.expression || (c.license.Some? && (l == c.license.value.id || l == c.license.value.name)))
  }

  /** A component has a licence exactly when some choice offers one, and it is one of those the
      first such choice offers: its id before its name before its expression. */
  lemma {:induction false} FirstLicenseIsFirst(choices: seq<LicenseChoice>)
    ensures var l := FirstLicense(choices);
            if l == "" then forall i, x | 0 <= i < |choices| :: !Offers(choices[i], x)
            else exists i | 0 <= i < |choices| ::
              && Offers(choices[i], l)
              && (forall j, x | 0 <= j < i :: !Offers(choices[j], x))
              && (choices[i].license.Some? && choices[i].license.value.id != "" ==> l == choices[i].license.value.id)
              && (choices[i].license.Some? && choices[i].license.value.id == ""
                  && choices[i].license.value.name != "" ==>
                    l == choices[i].license.value.name)
  {
    if choices != [] && (forall x :: !Offers(choices[0], x)) {
      assert !Offers(choices[0], choices[0].expression);
      if choices[0].license.Some? {
        assert !Offers(choices[0], choices[0].license.value.id);
        assert !Offers(choices[0], choices[0].license.value.name);
      }
      FirstLicenseIsFirst(choices[1..]);
      var l := FirstLicense(choices[1..]);
      if l != "" {
        var rest := choices[1..];
        var i :|
          && 0 <= i < |rest|
          && Offers(rest[i], l)
          && (forall j, x | 0 <= j < i :: !Offers(rest[j], x))
          && (rest[i].license.Some? && rest[i].license.value.id != "" ==> l == rest[i].license.value.id)
          && (rest[i].license.Some? && rest[i].license.value.id == "" && rest[i].license.value.name != "" ==>
                l == rest[i].license.value.name);
        forall j, x | 0 <= j < i + 1 ensures !Offers(choices[j], x) {
          if j > 0 { assert choices[j] == choices[1..][j - 1]; }
        }
        assert choices[i + 1] == choices[1..][i];
      } else {
        forall i, x | 0 <= i < |choices| ensures !Offers(choices[i], x) {
          if i > 0 { assert choices[i] == choices[1..][i - 1]; }
        }
      }
    }
  }

  // The predicate of the in-toto statement in the payload.
  function PredicateOf(lib: Libraries, env: DecodedEnvelope): Option<Json> {
    match lib.parseJson(env.payload)
    case None => None
    case Some(j) =>
      match Fields(j)
      case None => None
      case Some(m) => RawField(m, "predicate")
  }

  // The BOM the SBOM verifier accepts.
  function BomOf(lib: Libraries, env: DecodedEnvelope): Option<Bom> {
    match PredicateOf(lib, env)
    case None => None
    case Some(p) =>
      var bom := lib.parseBom(p);
      if bom.Some? && bom.value.format == "CycloneDX" then bom else None
  }

  // One licence per component, in component order.
  function ComponentLicenses(components: seq<seq<LicenseChoice>>): seq<string> {
    seq(|components|, i requires 0 <= i < |components| => FirstLicense(components[i]))
  }

  function VerifySBOM(lib: Libraries, env: DecodedEnvelope): SbomResult {
    match BomOf(lib, env)
    case None => NO_SBOM
    case Some(bom) => SbomResult(true, ComponentLicenses(bom.components))
  }

  // The last value the payload gives for the statement's predicate.
  ghost predicate StatesPredicate(lib: Libraries, payload: bytes, p: Json) {
    exists m :: lib.parseJson(payload) == Some(Obj(m)) &&
                var vs := Values(m, "predicate"); vs != [] && vs[|vs| - 1] == p
  }

  lemma PredicateIsStated(lib: Libraries, env: DecodedEnvelope, p: Json)
    ensures PredicateOf(lib, env) == Some(p) <==> StatesPredicate(lib, env.payload, p)
  {
    assert Values([], "predicate") == [];
  }

  // The statement's predicate parses as this BOM, of the format CycloneDX.
  ghost predicate StatesBom(lib: Libraries, payload: bytes, bom: Bom) {
    bom.format == "CycloneDX" && exists p :: StatesPredicate(lib, payload, p) && lib.parseBom(p) == Some(bom)
  }

  /** An SBOM is present exactly when the statement's predicate is a CycloneDX BOM; it then has one
      licence per component, in component order. */
  lemma SbomPresentIff(lib: Libraries, env: DecodedEnvelope)
    ensures VerifySBOM(lib, env).present <==> exists bom :: StatesBom(lib, env.payload, bom)
    ensures forall bom | StatesBom(lib, env.payload, bom) ::
              && |VerifySBOM(lib, env).licenses| == |bom.components|
              && forall i | 0 <= i < |bom.components| ::
                   VerifySBOM(lib, env).licenses[i] == FirstLicense(bom.components[i])
    ensures !VerifySBOM(lib, env).present ==> VerifySBOM(lib, env).licenses == []
  {
    hide PredicateOf, StatesPredicate, FirstLicense;
    forall p ensures PredicateOf(lib, env) == Some(p) <==> StatesPredicate(lib, env.payload, p) {
      PredicateIsStated(lib, env, p);
    }
    if BomOf(lib, env).Some? {
      assert StatesBom(lib, env.payload, BomOf(lib, env).value);
    }
  }

  // --- VEX ------------------------------------------------------------------------

  datatype VexResult = VexResult(present: bool, statuses: map<string, string>)

  const NO_VEX := VexResult(false, map[])

  // The canonical name of the vulnerability, or its @id when the name is empty.
  function VulnerabilityID(s: VexStatement): string {
    if s.name != "" then s.name else s.id
  }

  // The status given by the last statement that names id.
  ghost function LastStatus(statements: seq<VexStatement>, id: string): Option<string> {
    if statements == [] then None
    else
      var s := statements[|statements| - 1];
      if VulnerabilityID(s) == id then Some(s.status) else LastStatus(statements[..|statements| - 1], id)
  }

  // statuses is that assignment, for the non-empty ids.
  ghost predicate RecordsLast(statements: seq<VexStatement>, statuses: map<string, string>) {
    forall id :: (id in statuses <==> id != "" && LastStatus(statements, id).Some?)
              && (id in statuses ==> LastStatus(statements, id) == Some(statuses[id]))
  }

  // The statements the VEX verifier accepts: a readable document with at least one.
  function StatementsOf(lib: Libraries, env: DecodedEnvelope): Option<seq<VexStatement>> {
    match PredicateOf(lib, env)
    case None => None
    case Some(p) =>
      var statements := lib.parseVex(p);
      if statements.Some? && statements.value != [] then statements else None
  }

  /** A VEX document is accepted exactly when the predicate parses to at least one statement. */
  lemma VexAcceptedIff(lib: Libraries, env: DecodedEnvelope, statements: seq<VexStatement>)
    ensures StatementsOf(lib, env) == Some(statements)
       <==> statements != [] && exists p :: StatesPredicate(lib, env.payload, p) && lib.parseVex(p) == Some(statements)
  {
    hide PredicateOf, StatesPredicate;
    forall p ensures PredicateOf(lib, env) == Some(p) <==> StatesPredicate(lib, env.payload, p) {
      PredicateIsStated(lib, env, p);
    }
  }

  ghost predicate IsVexOf(lib: Libraries, env: DecodedEnvelope, result: VexResult) {
    match StatementsOf(lib, env)
    case None => result == VexResult(false, map[])
    case Some(statements) => result.present && RecordsLast(statements, result.statuses)
  }

  method VerifyVEX(lib: Libraries, env: DecodedEnvelope) returns (result: VexResult)
    ensures IsVexOf(lib, env, result)
  {
    var parsed := StatementsOf(lib, env);
    if parsed.None? {
      return NO_VEX;
    }
    var statements := parsed.value;
    var statuses: map<string, string> := map[];
    for i := 0 to |statements|
      invariant RecordsLast(statements[..i], statuses)
    {
      var s := statements[i];
      assert statements[..i + 1][..i] == statements[..i];
      var id := s.name;
      if id == "" {
        id := s.id;
      }
      if id != "" {
        statuses := statuses[id := s.status];
      }
    }
    assert statements[..|statements|] == statements;
    result := VexResult(true, statuses);
  }

  // --- PrimaryDigest ----------------------------------------------------------------

  // The key PrimaryDigest must pick: sha256, else the least algorithm name.
  ghost predicate IsPrimary(digest: map<string, string>, alg: string) {
    alg in digest && if "sha256" in digest then alg == "sha256" else forall k | k in digest :: !Less(k, alg)
  }

  /** For every iteration order: some entry of the set, and the primary one whenever no
      algorithm name is empty ("" doubles as the mark of an unset choice). */
  method PrimaryDigest(art: ArtifactRef) returns (alg: string, hexText: string, ok: bool)
    ensures ok <==> art.digest != map[]
    ensures ok ==> alg in art.digest && hexText == art.digest[alg]
    ensures ok && ("" !in art.digest || "sha256" in art.digest) ==> IsPrimary(art.digest, alg)
    ensures !ok ==> alg == "" && hexText == ""
  {
    if |art.digest| == 0 {
      return "", "", false;
    }
    if "sha256" in art.digest {
      return "sha256", art.digest["sha256"], true;
    }
    var best := "";
    var todo := art.digest.Keys;
    while todo != {}
      invariant todo <= art.digest.Keys
      invariant best in art.digest || (best == "" && todo == art.digest.Keys)
      invariant "" !in art.digest && best == "" ==> todo == art.digest.Keys
      invariant "" !in art.digest ==> forall k | k in art.digest && k !in todo :: !Less(k, best)
      decreases |todo|
    {
      var k :| k in todo;
      todo := todo - {k};
      if best == "" || Less(k, best) {
        if "" !in art.digest {
          LeastSoFar(art.digest.Keys - todo, best, k);
        }
        best := k;
      }
    }
    return best, art.digest[best], true;
  }

  // A new least name stays below everything the old one was below.
  lemma LeastSoFar(seen: set<string>, best: string, k: string)
    requires best == "" ==> seen == {k}
    requires best != "" ==> Less(k, best) && forall x | x in seen && x != k :: !Less(x, best)
    ensures forall x | x in seen :: !Less(x, k)
  {
    forall x | x in seen ensures !Less(x, k) {
      if Less(x, k) {
        LessIsAsymmetric(x, k);
        LessIsTransitive(x, k, best);
      }
    }
  }

  /** So the choice is a function of the digest set. */
  lemma PrimaryIsUnique(digest: map<string, string>, a: string, b: string)
    requires IsPrimary(digest, a) && IsPrimary(digest, b)
    ensures a == b
  {
    LessIsTotal(a, b);
  }

  // parseDigest and AsArtifact: "alg:hex" with both sides present, else the empty set.
  function ParseDigest(s: string): Option<map<string, string>> {
    match Cut(s)
    case None => None
    case Some((alg, hexText)) => if alg == "" || hexText == "" then None else Some(map[alg := hexText])
  }

  function AsArtifact(name: string, digest: string): ArtifactRef {
    var ds := ParseDigest(digest);
    ArtifactRef("container", name, if ds.Some? then ds.value else map[])
  }

  /** A digest text is read exactly when it is a non-empty algorithm, the first colon, and a
      non-empty rest; the artifact of any other text has no digest. */
  lemma ParseDigestIff(name: string, s: string, digest: map<string, string>)
    ensures ParseDigest(s) == Some(digest)
       <==> exists alg, hexText ::
              alg != "" && hexText != "" && ':' !in alg && s == alg + ":" + hexText && digest == map[alg := hexText]
    ensures AsArtifact(name, s)
         == ArtifactRef("container", name, if ParseDigest(s).Some? then ParseDigest(s).value else map[])
  {
    hide Cut;
    if Cut(s).Some? { CutJoins(s); }
    forall alg, hexText | ':' !in alg && s == alg + ":" + hexText ensures Cut(s) == Some((alg, hexText)) {
      CutOfJoined(alg, hexText);
    }
  }

  /** An artifact built from "alg:hex" has that one digest, never an empty algorithm name,
      and it is the primary one. */
  lemma ParsedDigestIsPrimary(name: string, alg: string, hexText: string)
    requires alg != "" && hexText != "" && ':' !in alg
    ensures var art := AsArtifact(name, alg + ":" + hexText);
            art.digest == map[alg := hexText] && "" !in art.digest && IsPrimary(art.digest, alg)
  {
    CutOfJoined(alg, hexText);
    LessIsTotal(alg, alg);
    if Less(alg, alg) { LessIsAsymmetric(alg, alg); }
  }
}
