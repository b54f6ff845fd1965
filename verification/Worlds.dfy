/** Evidence built to order: for any signer, provenance, licences, identity and findings a library
    and evidence that show exactly those to the engine. They make the weakening order on evidence
    exact and give runs in which the engine departs from what its documentation says. */
module Worlds {
  import opened Prelude
  import opened Json
  import opened Policies
  import opened PolicyEval
  import opened PolicyTheorems
  import opened Evidence
  import opened Encoding
  import opened Envelope
  import opened Predicates
  import opened Engine
  import opened EngineTheorems
  import opened SignatureTheorems
  import Adapter
  import Glob
  import Pae

  // --- Scenarios and their worlds ---------------------------------------------------------

  // What sigstore-go makes of the first attestation, which nothing else can read.
  datatype Signer = Nobody | Somebody(issuer: string, name: string, logged: bool)

  datatype Origin = Origin(builderID: string, buildType: string)

  datatype Scenario = Scenario(
    signer: Signer,
    origin: Option<Origin>,          // the provenance, for the artifact at hand
    licenses: Option<seq<string>>,   // the SBOM
    affected: bool,                  // a VEX document that leaves a vulnerability affected
    identity: Option<IdentityResult>,
    findings: seq<Finding>)

  const ARTIFACT := ArtifactRef("container", "app", map["sha256" := "aa"])
  const ROOTS := TrustRoots([1], map[], [])

  const SIGNATURE: bytes := [1]
  const PROVENANCE: bytes := [2]
  const SBOM: bytes := [3]
  const VEX: bytes := [4]

  // The payload of each of the last three envelopes.
  function PayloadOf(envelope: bytes): bytes {
    envelope + [0]
  }

  function TypeOf(envelope: bytes): string {
    if envelope == PROVENANCE then Adapter.SLSA_TYPE
    else if envelope == SBOM then Adapter.SBOM_TYPE
    else Adapter.VEX_TYPE
  }

  function ParseIn(b: bytes): Option<Json> {
    if b == PROVENANCE || b == SBOM || b == VEX then Some(Adapter.EnvelopeDoc(PayloadOf(b)))
    else if |b| == 2 && b != SIGNATURE then Some(Adapter.StatementDoc("", TypeOf(b[..1]), Null))
    else None
  }

  function LibrariesIn(s: Scenario): Libraries {
    Libraries(
      b => ParseIn(b), _ => [], (j, word) => false, c => c, _ => None, (cert, cas) => false, b => b,
      (key, digest, sig) => false, _ => Some([]), _ => None,
      b => if b == SIGNATURE then Some(SigstoreBundle(None, SIGNATURE)) else None,
      (root, bundle: SigstoreBundle, digest) =>
        if bundle.rest == SIGNATURE && s.signer.Somebody?
        then KeylessVerified(Some(CertSummary(s.signer.issuer, s.signer.name)), if s.signer.logged then 1 else 0)
        else KeylessError,
      (id, art, roots) => if s.identity.Some? then s.identity.value else IdentityResult(false, "", "", false),
      _ => if s.origin.None? then None
           else Some(SlsaStatement([map["sha256" := "aa"]],
               Provenance(s.origin.value.builderID, s.origin.value.buildType))),
      _ => Some(Bom("CycloneDX", ComponentsOf(if s.licenses.Some? then s.licenses.value else []))),
      _ => Some([VexStatement("x", "", "affected")]))
  }

  function ComponentsOf(licenses: seq<string>): seq<seq<LicenseChoice>> {
    seq(|licenses|, i requires 0 <= i < |licenses| => [LicenseChoice(None, licenses[i])])
  }

  function If(present: bool, envelope: bytes): seq<Attestation> {
    if present then [Attestation("", envelope)] else []
  }

  function AttestationsIn(s: Scenario): seq<Attestation> {
    [Attestation("", SIGNATURE)] + If(s.origin.Some?, PROVENANCE) + If(s.licenses.Some?, SBOM) + If(s.affected, VEX)
  }

  function EvidenceIn(s: Scenario): Evidence {
    Evidence(ARTIFACT, AttestationsIn(s), if s.identity.Some? then Some(WorkloadIdentity("", "", [])) else None,
             s.findings, None)
  }

  // --- What the engine sees of a world ------------------------------------------------------

  lemma OpensIn(s: Scenario, envelope: bytes)
    requires envelope == PROVENANCE || envelope == SBOM || envelope == VEX
    ensures var lib, env := LibrariesIn(s), DecodedEnvelope(Adapter.IN_TOTO_PAYLOAD, PayloadOf(envelope));
            && DecodeDSSE(lib, envelope) == Some(env)
            && ClassOf(lib, Attestation("", envelope)) == RouteOf(TypeOf(envelope))
            && PredicateOf(lib, env) == Some(Null)
  {
    hide DecodeDSSE, Adapter.EnvelopeDoc, Adapter.StatementDoc, RouteOf, ExtractPredicateType, PredicateOf;
    var lib, env := LibrariesIn(s), DecodedEnvelope(Adapter.IN_TOTO_PAYLOAD, PayloadOf(envelope));
    Adapter.EnvelopeDocDecodes(lib, envelope, PayloadOf(envelope));
    assert PayloadOf(envelope)[..1] == envelope;
    assert lib.parseJson(PayloadOf(envelope)) == ParseIn(PayloadOf(envelope));
    Adapter.StatementDocReads(lib, env, "", TypeOf(envelope), Null);
  }

  lemma SignatureOpensNowhere(s: Scenario)
    ensures DecodeDSSE(LibrariesIn(s), SIGNATURE).None?
  {
  }

  lemma LastIn(s: Scenario)
    ensures var lib, atts := LibrariesIn(s), AttestationsIn(s);
            && LastOf(lib, atts, Slsa) == (if s.origin.Some? then DecodeDSSE(lib, PROVENANCE) else None)
            && LastOf(lib, atts, Sbom) == (if s.licenses.Some? then DecodeDSSE(lib, SBOM) else None)
            && LastOf(lib, atts, Vex) == (if s.affected then DecodeDSSE(lib, VEX) else None)
  {
    hide LastOf, ClassOf, RouteOf, DecodeDSSE, PredicateOf, LibrariesIn;
    var lib := LibrariesIn(s);
    var a, b, c, d := [Attestation("", SIGNATURE)], If(s.origin.Some?, PROVENANCE), If(s.licenses.Some?, SBOM),
        If(s.affected, VEX);
    Adapter.TypesRouteToTheirClass();
    OpensIn(s, PROVENANCE);
    OpensIn(s, SBOM);
    OpensIn(s, VEX);
    assert ClassOf(lib, a[0]) == Unrouted by { SignatureClass(s); }
    forall cls | cls != Unrouted
      ensures LastOf(lib, a + b + c + d, cls)
           == if d != [] && ClassOf(lib, d[0]) == cls then DecodeDSSE(lib, VEX)
              else if c != [] && ClassOf(lib, c[0]) == cls then DecodeDSSE(lib, SBOM)
              else if b != [] && ClassOf(lib, b[0]) == cls then DecodeDSSE(lib, PROVENANCE)
              else None
    {
      Adapter.LastOfAppend(lib, a + b + c, d, cls);
      Adapter.LastOfThree(lib, a, b, c, cls);
    }
  }

  lemma SignatureClass(s: Scenario)
    ensures ClassOf(LibrariesIn(s), Attestation("", SIGNATURE)) == Unrouted
  {
    hide DecodeDSSE;
    SignatureOpensNowhere(s);
  }

  function ResultIn(s: Scenario): SignatureResult {
    if s.signer.Somebody? then SignatureResult(true, true, s.signer.issuer, s.signer.name, s.signer.logged) else REFUSED
  }

  // Without anchors nothing is keyed, and sigstore-go needs a root.
  lemma NothingIsKeyed(s: Scenario, live: nat -> Option<bytes>, call: nat, envelope: bytes, roots: TrustRoots)
    requires roots.signatureCAs == []
    ensures var lib := LibrariesIn(s).(liveRoot := live);
            && VerifyKeyedBundle(lib, envelope, roots).None?
            && VerifySignature(Native, lib, call, Attestation("", envelope), roots)
               == if envelope == SIGNATURE && ResolveRoot(lib, call, roots).Some? then ResultIn(s) else REFUSED
  {
    hide ReadKeyedBundle, ParseIn;
  }

  lemma RefusedIn(s: Scenario, call: nat, envelope: bytes)
    ensures VerifySignature(Native, LibrariesIn(s), call, Attestation("", envelope), ROOTS)
         == if envelope == SIGNATURE then ResultIn(s) else REFUSED
  {
    hide VerifySignature;
    var live := LibrariesIn(s).liveRoot;
    assert LibrariesIn(s).(liveRoot := live) == LibrariesIn(s);
    NothingIsKeyed(s, live, call, envelope, ROOTS);
  }

  lemma ResultsIn(s: Scenario)
    ensures var rs := SignatureResults(Native, LibrariesIn(s), EvidenceIn(s), ROOTS);
            rs != [] && rs[0] == ResultIn(s) && forall i | 1 <= i < |rs| :: rs[i] == REFUSED
  {
    hide VerifySignature, LibrariesIn;
    var ev := EvidenceIn(s);
    forall i | 0 <= i < |ev.attestations|
      ensures VerifySignature(Native, LibrariesIn(s), i, ev.attestations[i], ROOTS)
           == if i == 0 then ResultIn(s) else REFUSED
    {
      RefusedIn(s, i, ev.attestations[i].envelope);
    }
  }

  // --- Compliance of a scenario ---------------------------------------------------------------

  ghost predicate SignerOk(rule: SignatureRule, signer: Signer) {
    && (rule.required ==> signer.Somebody?)
    && (rule.rekorRequired ==> signer.Somebody? && signer.logged)
    && (rule.keyless.Some? && signer.Somebody? ==>
          && signer.issuer == rule.keyless.value.issuer
          && Glob.GlobAccepts(rule.keyless.value.identityPattern, signer.name))
  }

  // This builder and build type meet the rule.
  ghost predicate SlsaAccepts(rule: SlsaRule, builderID: string, buildType: string) {
    && (rule.minLevel > 0 ==> rule.minLevel <= DeriveBuildLevel(builderID, buildType))
    && (rule.allowedBuilders != [] ==> BuilderAllowed(rule.allowedBuilders, builderID))
  }

  ghost predicate OriginOk(rule: SlsaRule, origin: Option<Origin>) {
    SlsaInScope(rule) ==> origin.Some? && SlsaAccepts(rule, origin.value.builderID, origin.value.buildType)
  }

  ghost predicate LicensesOk(rule: SbomRule, licenses: Option<seq<string>>) {
    && (rule.required ==> licenses.Some?)
    && (licenses.Some? ==> forall l | l in licenses.value :: l != "" ==> l !in rule.disallowedLicenses)
  }

  ghost predicate IdentityResultOk(rule: IdentityRule, id: Option<IdentityResult>) {
    rule.required ==>
      && id.Some? && id.value.verified && id.value.bindingMatch
      && (rule.trustDomain == "" || id.value.trustDomain == rule.trustDomain)
      && (rule.idPattern == "" || Glob.GlobAccepts(rule.idPattern, id.value.spiffeID))
  }

  ghost predicate ScenarioComplies(pol: Policy, s: Scenario) {
    && SignerOk(pol.signature, s.signer)
    && OriginOk(pol.slsa, s.origin)
    && (pol.vex.maxUnmitigatedSeverity != "" ==> !s.affected)
    && LicensesOk(pol.sbom, s.licenses)
    && IdentityResultOk(pol.identity, s.identity)
    && FindingsOk(pol.findings, s.findings)
  }

  lemma SignerIn(s: Scenario, rule: SignatureRule)
    ensures SignaturesComply(rule, SignatureResults(Native, LibrariesIn(s), EvidenceIn(s), ROOTS))
        <==> SignerOk(rule, s.signer)
  {
    hide SignatureResults, LibrariesIn, Glob.GlobAccepts;
    var rs := SignatureResults(Native, LibrariesIn(s), EvidenceIn(s), ROOTS);
    ResultsIn(s);
    FirstVerifiedIsFirst(rs);
    assert rs[0] in rs;
    assert forall r | r in rs && r.verified :: r == rs[0];
  }

  lemma OriginIn(s: Scenario, rule: SlsaRule)
    ensures ProvenanceComplies(rule, LibrariesIn(s), ARTIFACT, LastOf(LibrariesIn(s), AttestationsIn(s), Slsa))
        <==> OriginOk(rule, s.origin)
  {
    hide LastOf, DecodeDSSE, DeriveBuildLevel, BuilderAllowed, AnySubjectMatches, ParseIn;
    LastIn(s);
    OpensIn(s, PROVENANCE);
    assert AnySubjectMatches(LibrariesIn(s), [map["sha256" := "aa"]], ARTIFACT) by { SubjectIn(s); }
  }

  lemma SubjectIn(s: Scenario)
    ensures AnySubjectMatches(LibrariesIn(s), [map["sha256" := "aa"]], ARTIFACT)
  {
    var subject := map["sha256" := "aa"];
    assert AlgorithmMatches(LibrariesIn(s), subject, ARTIFACT, "sha256");
    assert SubjectMatches(LibrariesIn(s), [subject][0], ARTIFACT);
  }

  lemma VexIn(s: Scenario, rule: VexRule)
    ensures VexComplies(rule, LibrariesIn(s), LastOf(LibrariesIn(s), AttestationsIn(s), Vex))
       <==> (rule.maxUnmitigatedSeverity != "" ==> !s.affected)
  {
    hide LastOf, DecodeDSSE, ParseIn, PredicateOf;
    LastIn(s);
    OpensIn(s, VEX);
    assert LastStatus([VexStatement("x", "", "affected")], "x") == Some("affected");
  }

  lemma LicensesIn(s: Scenario, rule: SbomRule)
    ensures SbomComplies(rule, LibrariesIn(s), LastOf(LibrariesIn(s), AttestationsIn(s), Sbom))
        <==> LicensesOk(rule, s.licenses)
  {
    hide LastOf, DecodeDSSE, ParseIn, PredicateOf;
    LastIn(s);
    OpensIn(s, SBOM);
    if s.licenses.Some? {
      var components := ComponentsOf(s.licenses.value);
      assert forall i | 0 <= i < |components| :: FirstLicense(components[i]) == s.licenses.value[i];
    }
  }

  /** A world complies exactly when its scenario does. */
  lemma WorldComplies(s: Scenario, pol: Policy)
    ensures EvidenceComplies(Native, LibrariesIn(s), EvidenceIn(s), pol, ROOTS) <==> ScenarioComplies(pol, s)
  {
    hide SignaturesComply, ProvenanceComplies, VexComplies, SbomComplies, FindingsOk, SignerOk, OriginOk, LicensesOk,
         LastOf, SignatureResults;
    SignerIn(s, pol.signature);
    OriginIn(s, pol.slsa);
    VexIn(s, pol.vex);
    LicensesIn(s, pol.sbom);
  }

  // --- The exact weakening order on evidence -----------------------------------------------------

  // A logged signature is a verified one, so a demand for the log covers one for a signature.
  ghost predicate SignerWeakens(p: SignatureRule, q: SignatureRule) {
    && (q.required ==> p.required || p.rekorRequired)
    && (q.rekorRequired ==> p.rekorRequired)
    && KeylessWeakens(p.keyless, q.keyless)
  }

  ghost predicate OriginWeakens(p: SlsaRule, q: SlsaRule) {
    && (SlsaInScope(q) ==> SlsaInScope(p))
    && forall builderID, buildType | SlsaAccepts(p, builderID, buildType) :: SlsaAccepts(q, builderID, buildType)
  }

  // A component without a licence never shows, so forbidding "" forbids nothing.
  ghost predicate LicensesWeaken(p: SbomRule, q: SbomRule) {
    (q.required ==> p.required) && forall l | l in q.disallowedLicenses :: l == "" || l in p.disallowedLicenses
  }

  // No builder reaches the level, or none that is allowed does.
  ghost predicate NoOriginMeets(rule: SlsaRule) {
    SlsaInScope(rule) && forall builderID, buildType :: !SlsaAccepts(rule, builderID, buildType)
  }

  /** That is so above level 3, and at level 3 when no allowed builder is an https URI. */
  lemma NoOriginMeetsIff(rule: SlsaRule)
    ensures NoOriginMeets(rule) <==>
              || rule.minLevel > 3
              || (&& rule.minLevel == 3 && rule.allowedBuilders != []
                  && forall builderID | HasPrefix(builderID, "https://") ::
                       !BuilderAllowed(rule.allowedBuilders, builderID))
  {
    hide Glob.GlobAccepts;
    var some := GlobIsSatisfiable(if rule.allowedBuilders != [] then rule.allowedBuilders[0] else "");
    if rule.allowedBuilders != [] {
      assert rule.allowedBuilders[0] in rule.allowedBuilders;
      assert BuilderAllowed(rule.allowedBuilders, some);
    }
    assert HasPrefix("https://", "https://");
    assert rule.minLevel <= 2 ==> SlsaAccepts(rule, some, "");
    if rule.minLevel <= 3 && rule.allowedBuilders == [] {
      assert SlsaAccepts(rule, "https://", "x");
    }
    if builderID :| HasPrefix(builderID, "https://") && BuilderAllowed(rule.allowedBuilders, builderID) {
      assert rule.minLevel <= 3 ==> SlsaAccepts(rule, builderID, "x");
    }
  }

  ghost predicate EvidenceWeakens(p: Policy, q: Policy) {
    || NoOriginMeets(p.slsa)
    || (&& SignerWeakens(p.signature, q.signature)
        && OriginWeakens(p.slsa, q.slsa)
        && VexWeakens(p.vex, q.vex)
        && LicensesWeaken(p.sbom, q.sbom)
        && IdentityWeakens(p.identity, q.identity)
        && FindingsWeakens(p.findings, q.findings))
  }

  ghost predicate EvidenceImplied(p: Policy, q: Policy) {
    forall build, lib, ev, roots ::
      EvidenceComplies(build, lib, ev, p, roots) ==> EvidenceComplies(build, lib, ev, q, roots)
  }

  lemma WeakerSigner(p: SignatureRule, q: SignatureRule, rs: seq<SignatureResult>)
    requires SignerWeakens(p, q) && SignaturesComply(p, rs)
    ensures SignaturesComply(q, rs)
  {
    hide Glob.Split, Glob.Fills;
    FirstVerifiedIsFirst(rs);
    if FirstVerified(rs).Some? {
      var i :| 0 <= i < |rs| && rs[i] == FirstVerified(rs).value && rs[i].verified;
      assert rs[i] in rs;
    }
  }

  lemma WeakerOrigin(p: SlsaRule, q: SlsaRule, lib: Libraries, art: ArtifactRef, last: Option<DecodedEnvelope>)
    requires OriginWeakens(p, q) && ProvenanceComplies(p, lib, art, last)
    ensures ProvenanceComplies(q, lib, art, last)
  {
    hide BuilderAllowed, AnySubjectMatches, DeriveBuildLevel;
    if SlsaInScope(q) {
      var stmt := lib.parseStatement(last.value.payload).value;
      var builder := if stmt.provenance.Provenance? then stmt.provenance.builderID else "";
      var buildType := if stmt.provenance.Provenance? then stmt.provenance.buildType else "";
      assert SlsaAccepts(p, builder, buildType);
    }
  }

  lemma NoOriginComplies(rule: SlsaRule, lib: Libraries, art: ArtifactRef, last: Option<DecodedEnvelope>)
    requires NoOriginMeets(rule)
    ensures !ProvenanceComplies(rule, lib, art, last)
  {
    hide BuilderAllowed, AnySubjectMatches, DeriveBuildLevel;
    if last.Some? && lib.parseStatement(last.value.payload).Some? {
      var stmt := lib.parseStatement(last.value.payload).value;
      var builder := if stmt.provenance.Provenance? then stmt.provenance.builderID else "";
      var buildType := if stmt.provenance.Provenance? then stmt.provenance.buildType else "";
      assert !SlsaAccepts(rule, builder, buildType);
    }
  }

  lemma WeakerIdentityResult(p: IdentityRule, q: IdentityRule, lib: Libraries, ev: Evidence, roots: TrustRoots)
    requires IdentityWeakens(p, q) && IdentityComplies(p, lib, ev, roots)
    ensures IdentityComplies(q, lib, ev, roots)
  {
    hide Glob.Split, Glob.Fills;
    if q.required && q.idPattern != "" {
      assert Glob.GlobAccepts(p.idPattern, lib.verifyIdentity(ev.identity.value, ev.artifact, roots).spiffeID);
    }
  }

  lemma WeakerEvidence(build: Build, lib: Libraries, ev: Evidence, p: Policy, q: Policy, roots: TrustRoots)
    requires EvidenceWeakens(p, q) && EvidenceComplies(build, lib, ev, p, roots)
    ensures EvidenceComplies(build, lib, ev, q, roots)
  {
    hide SignaturesComply, ProvenanceComplies, IdentityComplies, SignatureResults, LastOf, LastStatus, FirstLicense,
         SignerWeakens, OriginWeakens, IdentityWeakens, NoOriginMeets, FindingsWeakens, FindingsOk;
    var last := LastOf(lib, ev.attestations, Slsa);
    if NoOriginMeets(p.slsa) {
      NoOriginComplies(p.slsa, lib, ev.artifact, last);
    } else {
      WeakerSigner(p.signature, q.signature, SignatureResults(build, lib, ev, roots));
      WeakerOrigin(p.slsa, q.slsa, lib, ev.artifact, last);
      WeakerIdentityResult(p.identity, q.identity, lib, ev, roots);
      WeakerFindings(p.findings, q.findings, ev.findings);
    }
  }

  ghost predicate ScenarioImplied(p: Policy, q: Policy) {
    forall s :: ScenarioComplies(p, s) ==> ScenarioComplies(q, s)
  }

  lemma EvidenceImpliesScenarios(p: Policy, q: Policy)
    requires EvidenceImplied(p, q)
    ensures ScenarioImplied(p, q)
  {
    hide EvidenceComplies, ScenarioComplies;
    forall s | ScenarioComplies(p, s) ensures ScenarioComplies(q, s) {
      WorldComplies(s, p);
      WorldComplies(s, q);
    }
  }

  // A scenario that complies, unless the provenance rule is out of reach.
  lemma SomeScenario(p: Policy) returns (s: Scenario)
    requires !NoOriginMeets(p.slsa)
    ensures ScenarioComplies(p, s)
  {
    hide Glob.Split, Glob.Fills, SlsaAccepts;
    var rule := if p.signature.keyless.Some? then p.signature.keyless.value else KeylessRule("", "");
    var name := GlobIsSatisfiable(rule.identityPattern);
    var id := GlobIsSatisfiable(p.identity.idPattern);
    var origin := None;
    if SlsaInScope(p.slsa) {
      var builderID, buildType :| SlsaAccepts(p.slsa, builderID, buildType);
      origin := Some(Origin(builderID, buildType));
    }
    s := Scenario(Somebody(rule.issuer, name, true), origin, Some([]), false,
                  Some(IdentityResult(true, id, p.identity.trustDomain, true)), []);
  }

  lemma SignerWeakensIfImplied(p: SignatureRule, q: SignatureRule)
    requires forall signer :: SignerOk(p, signer) ==> SignerOk(q, signer)
    ensures SignerWeakens(p, q)
  {
    hide Glob.Split, Glob.Fills;
    var rule := if p.keyless.Some? then p.keyless.value else KeylessRule("", "");
    var name := GlobIsSatisfiable(rule.identityPattern);
    assert p.required || p.rekorRequired || SignerOk(p, Nobody);
    assert SignerOk(p, Somebody(rule.issuer, name, p.rekorRequired));
    if q.keyless.Some? {
      assert p.keyless.Some? || SignerOk(p, Somebody(q.keyless.value.issuer + "x", "", true));
      forall s | Glob.GlobAccepts(rule.identityPattern, s)
        ensures Glob.GlobAccepts(q.keyless.value.identityPattern, s)
      {
        assert SignerOk(p, Somebody(rule.issuer, s, true));
      }
    }
  }

  lemma OriginWeakensIfImplied(p: SlsaRule, q: SlsaRule)
    requires forall origin :: OriginOk(p, origin) ==> OriginOk(q, origin)
    ensures OriginWeakens(p, q)
  {
    hide SlsaAccepts;
    assert SlsaInScope(p) || OriginOk(p, None);
    forall builderID, buildType | SlsaAccepts(p, builderID, buildType) ensures SlsaAccepts(q, builderID, buildType) {
      assert OriginOk(p, Some(Origin(builderID, buildType)));
      assert OriginOk(q, Some(Origin(builderID, buildType)));
      if !SlsaInScope(q) {
        UnscopedAccepts(q, builderID, buildType);
      }
    }
  }

  lemma UnscopedAccepts(rule: SlsaRule, builderID: string, buildType: string)
    requires !SlsaInScope(rule)
    ensures SlsaAccepts(rule, builderID, buildType)
  {
  }

  lemma LicensesWeakenIfImplied(p: SbomRule, q: SbomRule)
    requires forall licenses :: LicensesOk(p, licenses) ==> LicensesOk(q, licenses)
    ensures LicensesWeaken(p, q)
  {
    assert p.required || LicensesOk(p, None);
    assert LicensesOk(p, Some([]));
    forall l | l in q.disallowedLicenses && l != "" ensures l in p.disallowedLicenses {
      assert l in [l];
      assert !LicensesOk(q, Some([l]));
      assert !LicensesOk(p, Some([l]));
    }
  }

  lemma IdentityResultWeakensIfImplied(p: IdentityRule, q: IdentityRule)
    requires forall id :: IdentityResultOk(p, id) ==> IdentityResultOk(q, id)
    ensures IdentityWeakens(p, q)
  {
    hide Glob.Split, Glob.Fills;
    if q.required {
      var id := GlobIsSatisfiable(p.idPattern);
      assert p.required || IdentityResultOk(p, None);
      var domain := if p.trustDomain == "" then q.trustDomain + "x" else p.trustDomain;
      assert IdentityResultOk(p, Some(IdentityResult(true, id, domain, true)));
      if q.idPattern != "" {
        forall s | Glob.GlobAccepts(p.idPattern, s) ensures Glob.GlobAccepts(q.idPattern, s) {
          assert IdentityResultOk(p, Some(IdentityResult(true, s, p.trustDomain, true)));
        }
      }
    }
  }

  /** Over everything the engine can be given, q complies wherever p does if and only if p weakens
      to q in this order. It is coarser than Weakens, which also counts views no evidence shows: a
      rule that asks only for a log entry already weakens to one that asks only for a signature. */
  lemma EvidenceWeakensIsExact(p: Policy, q: Policy)
    ensures EvidenceWeakens(p, q) <==> EvidenceImplied(p, q)
    ensures Weakens(p, q) ==> EvidenceWeakens(p, q)
    ensures p.signature == SignatureRule(false, None, true) && q == p.(signature := REQUIRED) ==>
              EvidenceWeakens(p, q) && !Weakens(p, q)
  {
    hide EvidenceComplies, SignerOk, OriginOk, LicensesOk, IdentityResultOk, FindingsOk, SignerWeakens, OriginWeakens,
         VexWeakens, LicensesWeaken, IdentityWeakens, FindingsWeakens, NoOriginMeets, Weakens;
    if EvidenceWeakens(p, q) {
      forall build, lib, ev, roots | EvidenceComplies(build, lib, ev, p, roots)
        ensures EvidenceComplies(build, lib, ev, q, roots)
      {
        WeakerEvidence(build, lib, ev, p, q, roots);
      }
    }
    if EvidenceImplied(p, q) && !NoOriginMeets(p.slsa) {
      EvidenceImpliesScenarios(p, q);
      var m := SomeScenario(p);
      forall x | SignerOk(p.signature, x)
          ensures SignerOk(q.signature, x) { assert ScenarioComplies(q, m.(signer := x)); }
      forall x | OriginOk(p.slsa, x) ensures OriginOk(q.slsa, x) { assert ScenarioComplies(q, m.(origin := x)); }
      forall x | LicensesOk(p.sbom, x) ensures LicensesOk(q.sbom, x) { assert ScenarioComplies(q, m.(licenses := x)); }
      forall x | IdentityResultOk(p.identity, x)
          ensures IdentityResultOk(q.identity, x) { assert ScenarioComplies(q, m.(identity := x)); }
      forall x | FindingsOk(p.findings, x)
          ensures FindingsOk(q.findings, x) { assert ScenarioComplies(q, m.(findings := x)); }
      SignerWeakensIfImplied(p.signature, q.signature);
      OriginWeakensIfImplied(p.slsa, q.slsa);
      LicensesWeakenIfImplied(p.sbom, q.sbom);
      IdentityResultWeakensIfImplied(p.identity, q.identity);
      FindingsWeakenIfImplied(p.findings, q.findings);
      assert VexWeakens(p.vex, q.vex) by { VexWeakensIfImplied(p, q, m); }
    }
    if Weakens(p, q) { StrictlyWeakens(p, q); }
    if p.signature == SignatureRule(false, None, true) && q == p.(signature := SignatureRule(true, None, false)) {
      LogCoversSignature(p, q);
    }
  }

  lemma VexWeakensIfImplied(p: Policy, q: Policy, m: Scenario)
    requires ScenarioImplied(p, q) && ScenarioComplies(p, m)
    ensures VexWeakens(p.vex, q.vex)
  {
    hide SignerOk, OriginOk, LicensesOk, IdentityResultOk, FindingsOk;
    if p.vex.maxUnmitigatedSeverity == "" {
      assert ScenarioComplies(p, m.(affected := true));
    }
  }

  lemma StrictlyWeakens(p: Policy, q: Policy)
    requires Weakens(p, q)
    ensures EvidenceWeakens(p, q)
  {
    hide KeylessWeakens, IdentityWeakens, FindingsWeakens, NoOriginMeets, DeriveBuildLevel, BuilderAllowed;
  }

  lemma LogCoversSignature(p: Policy, q: Policy)
    requires p.signature == SignatureRule(false, None, true) && q == p.(signature := SignatureRule(true, None, false))
    ensures EvidenceWeakens(p, q) && !Weakens(p, q)
  {
    hide NoOriginMeets, DeriveBuildLevel, BuilderAllowed, Glob.GlobAccepts, SeverityRank;
  }

  /** A weaker policy, run on the same evidence by the same build, does not deny what was allowed. */
  lemma WeakeningKeepsEngineAllow(build: Build, lib: Libraries, ev: Evidence, p: Policy, q: Policy,
      roots: TrustRoots, d: Decision, d': Decision)
    requires EvidenceWeakens(p, q) && Enforces(p.mode)
    requires MayDecide(build, lib, ev, p, roots, d) && MayDecide(build, lib, ev, q, roots, d')
    ensures d.result == Allow ==> d'.result != Deny
  {
    hide MayDecide, EvidenceComplies, EvidenceWeakens;
    AllowsExactlyCompliantEvidence(build, lib, ev, p, roots, d);
    AllowsExactlyCompliantEvidence(build, lib, ev, q, roots, d');
    if d.result == Allow {
      WeakerEvidence(build, lib, ev, p, q, roots);
    }
  }

  // --- Runs in which the engine departs from what is written about it ------------------------------

  // An enforcing policy with this signature rule and this level, and nothing else.
  function Asks(rule: SignatureRule, minLevel: int): Policy {
    Policy("p", "1", Enforce, rule, SlsaRule(minLevel, []), VexRule(""), SbomRule(false, []),
           IdentityRule(false, "", ""), FindingsRule([], ""))
  }

  const REQUIRED := SignatureRule(true, None, false)

  function OnlySignedBy(signer: Signer): Scenario {
    Scenario(signer, None, None, false, None, [])
  }

  /** A keyless rule alone admits an attestation that nothing verified and nothing could read. */
  method KeylessRuleAdmitsUnreadable(now: int) returns (d: Decision)
    ensures var lib, ev := LibrariesIn(OnlySignedBy(Nobody)), EvidenceIn(OnlySignedBy(Nobody));
            && MayDecide(Native, lib, ev, Asks(SignatureRule(false, Some(KeylessRule("issuer", "name")), false), 0),
              ROOTS, d)
            && SignatureResults(Native, lib, ev, ROOTS) == [REFUSED]
            && DecodeDSSE(lib, ev.attestations[0].envelope).None?
            && d.result == Allow
  {
    hide EvidenceComplies, MayDecide, LibrariesIn;
    var s := OnlySignedBy(Nobody);
    var pol := Asks(SignatureRule(false, Some(KeylessRule("issuer", "name")), false), 0);
    d := Evaluate(Native, LibrariesIn(s), EvidenceIn(s), pol, ROOTS, now);
    AllowsExactlyCompliantEvidence(Native, LibrariesIn(s), EvidenceIn(s), pol, ROOTS, d);
    WorldComplies(s, pol);
    ResultsIn(s);
    SignatureOpensNowhere(s);
  }

  /** Signature and provenance rule are met by different attestations: the provenance that decides
      is refused by the signature verifier. */
  method UnsignedProvenanceDecides(now: int) returns (d: Decision)
    ensures var s := OnlySignedBy(Somebody("issuer", "name", true)).(origin := Some(Origin("builder", "type")));
            var lib, ev := LibrariesIn(s), EvidenceIn(s);
            && MayDecide(Native, lib, ev, Asks(REQUIRED, 2), ROOTS, d)
            && IsLastOf(lib, ev.attestations, Slsa, 1)
            && VerifySignature(Native, lib, 1, ev.attestations[1], ROOTS) == REFUSED
            && d.result == Allow
  {
    hide EvidenceComplies, MayDecide, LibrariesIn, ClassOf, VerifySignature;
    var s := OnlySignedBy(Somebody("issuer", "name", true)).(origin := Some(Origin("builder", "type")));
    d := Evaluate(Native, LibrariesIn(s), EvidenceIn(s), Asks(REQUIRED, 2), ROOTS, now);
    AllowsExactlyCompliantEvidence(Native, LibrariesIn(s), EvidenceIn(s), Asks(REQUIRED, 2), ROOTS, d);
    WorldComplies(s, Asks(REQUIRED, 2));
    assert DeriveBuildLevel("builder", "type") == 2 by { assert "builder"[0] != "https://"[0]; }
    RefusedIn(s, 1, PROVENANCE);
    OpensIn(s, PROVENANCE);
    Adapter.TypesRouteToTheirClass();
  }

  const NO_ROOTS := TrustRoots([], map[], [])

  /** The same evidence under the same policy, once with the live root at hand and once without:
      allowed, then denied. */
  method LiveRootFlips(now: int) returns (d: Decision, d': Decision)
    ensures var s := OnlySignedBy(Somebody("issuer", "name", true));
            var lib, lib' := LibrariesIn(s).(liveRoot := _ => Some([])), LibrariesIn(s).(liveRoot := _ => None);
            && MayDecide(Native, lib, EvidenceIn(s), Asks(REQUIRED, 0), NO_ROOTS, d)
            && MayDecide(Native, lib', EvidenceIn(s), Asks(REQUIRED, 0), NO_ROOTS, d')
            && d.result == Allow && d'.result == Deny
  {
    hide MayDecide, LibrariesIn, VerifySignature, LastOf, VerifyKeyedBundle;
    var s := OnlySignedBy(Somebody("issuer", "name", true));
    var live, dead := (n: nat) => Some([]), (n: nat) => None;
    var lib, lib' := LibrariesIn(s).(liveRoot := live), LibrariesIn(s).(liveRoot := dead);
    d := Evaluate(Native, lib, EvidenceIn(s), Asks(REQUIRED, 0), NO_ROOTS, now);
    d' := Evaluate(Native, lib', EvidenceIn(s), Asks(REQUIRED, 0), NO_ROOTS, now);
    AllowsExactlyCompliantEvidence(Native, lib, EvidenceIn(s), Asks(REQUIRED, 0), NO_ROOTS, d);
    AllowsExactlyCompliantEvidence(Native, lib', EvidenceIn(s), Asks(REQUIRED, 0), NO_ROOTS, d');
    NothingIsKeyed(s, live, 0, SIGNATURE, NO_ROOTS);
    NothingIsKeyed(s, dead, 0, SIGNATURE, NO_ROOTS);
    assert SignatureResults(Native, lib, EvidenceIn(s), NO_ROOTS) == [ResultIn(s)];
    assert SignatureResults(Native, lib', EvidenceIn(s), NO_ROOTS) == [REFUSED];
    assert ResultIn(s) in [ResultIn(s)];
  }

  // --- A keyed bundle, and what wasm makes of it ----------------------------------------------------

  function One(key: string, value: Json): Json {
    Obj([Member(key, value)])
  }

  // A bundle signed with a configured key: certificate and envelope, and no log entries.
  function KeyedDoc(cert: bytes, payload: bytes, sig: bytes): (j: Json)
    ensures j.Obj?
  {
    Obj([
      Member("verificationMaterial", One("certificate", One("rawBytes", Str(Encode(cert))))),
      Member("content", One("dsseEnvelope", SignedDoc(payload, sig)))])
  }

  function SignedDoc(payload: bytes, sig: bytes): (j: Json)
    ensures j.Obj?
  {
    Obj([
      Member("payloadType", Str(Adapter.IN_TOTO_PAYLOAD)),
      Member("payload", Str(Encode(payload))),
      Member("signatures", Arr([One("sig", Str(Encode(sig)))]))])
  }

  lemma OneReads(key: string, value: Json)
    ensures Values(One(key, value).members, key) == [value]
  {
    Adapter.OnlyMember(One(key, value).members, 0);
  }

  lemma SignedDocReads(payload: bytes, sig: bytes)
    ensures ReadSignedEnvelope(SignedDoc(payload, sig).members)
         == Some(SignedEnvelope(Adapter.IN_TOTO_PAYLOAD, Encode(payload), [Encode(sig)]))
  {
    hide Encode, Values, LastString;
    var m := SignedDoc(payload, sig).members;
    Adapter.OnlyMember(m, 0);
    Adapter.OnlyMember(m, 1);
    Adapter.OnlyMember(m, 2);
    OneValue(m[0].value);
    OneValue(m[1].value);
    var items := [One("sig", Str(Encode(sig)))];
    assert LastItems([Arr(items)]) == Some(items) by { assert [Arr(items)][..0] == []; }
    OneReads("sig", Str(Encode(sig)));
    OneValue(Str(Encode(sig)));
    assert Fields(items[0]) == Some(items[0].members) && StringField(items[0].members, "sig") == Some(Encode(sig));
    assert items[1..] == [] && ReadSignatures([]) == Some([]);
    assert ReadSignatures(items) == Some([Encode(sig)] + []);
    assert [Encode(sig)] + [] == [Encode(sig)];
    assert ReadEnvelope(m) == Some(DsseEnvelope(Adapter.IN_TOTO_PAYLOAD, Encode(payload)));
    assert SliceField(m, "signatures") == Some(items);
  }

  lemma MaterialReads(cert: bytes, payload: bytes, sig: bytes)
    ensures ReadMaterial(KeyedDoc(cert, payload, sig).members) == Some(Material(Some(Encode(cert)), 0))
  {
    hide Encode, Values, LastString, Merged, Pointed, SignedDoc;
    var m := KeyedDoc(cert, payload, sig).members;
    var vm := m[0].value;
    Adapter.OnlyMember(m, 0);
    OneValue(vm);
    OneReads("certificate", One("rawBytes", Str(Encode(cert))));
    OneReads("rawBytes", Str(Encode(cert)));
    OneValue(One("rawBytes", Str(Encode(cert))));
    OneValue(Str(Encode(cert)));
    assert Values(vm.members, "tlogEntries") == [] by { NoLogEntries(vm.members[0].value); }
  }

  lemma NoLogEntries(value: Json)
    ensures Values(One("certificate", value).members, "tlogEntries") == []
  {
    assert One("certificate", value).members[1..] == [];
    assert !SameKey("certificate", "tlogEntries") by {
      assert FoldAscii("certificate"[0]) != FoldAscii("tlogEntries"[0]);
    }
  }

  lemma KeyedDocReads(cert: bytes, payload: bytes, sig: bytes)
    ensures ReadKeyedBundle(KeyedDoc(cert, payload, sig).members)
         == Some(KeyedBundle(Material(Some(Encode(cert)), 0),
                             Some(SignedEnvelope(Adapter.IN_TOTO_PAYLOAD, Encode(payload), [Encode(sig)]))))
  {
    hide Encode, Values, Merged, Pointed, SignedDoc, ReadMaterial, ReadSignedEnvelope;
    var m := KeyedDoc(cert, payload, sig).members;
    MaterialReads(cert, payload, sig);
    SignedDocReads(payload, sig);
    Adapter.OnlyMember(m, 1);
    OneValue(m[1].value);
    OneReads("dsseEnvelope", SignedDoc(payload, sig));
    OneValue(SignedDoc(payload, sig));
  }

  lemma KeyedMembersVerifyIff(lib: Libraries, roots: TrustRoots, cert: bytes, payload: bytes, sig: bytes)
    requires cert != [] && roots.signatureCAs != []
    ensures var r := VerifyKeyedMembers(lib, KeyedDoc(cert, payload, sig).members, roots);
            r.Some? && (r.value.verified <==>
              && lib.parseCert(cert).Some? && lib.chains(lib.parseCert(cert).value, roots.signatureCAs)
              && lib.parseCert(cert).value.ecdsaKey.Some?
              && lib.verifyECDSA(lib.parseCert(cert).value.ecdsaKey.value,
                                 lib.sha256(Pae.Pae(Adapter.IN_TOTO_PAYLOAD, payload)), sig))
  {
    hide Encode, Decode, DecodePayload, ReadKeyedBundle, KeyedDoc, Pae.Pae;
    KeyedDocReads(cert, payload, sig);
    EncodeDecode(cert);
    EncodeDecode(payload);
    EncodeDecode(sig);
    assert Encode(cert) != "" by { SomethingEncodes(cert); }
  }

  /** A keyed bundle is verified exactly when its leaf chains and the leaf's ECDSA key checks the
      signature over the pre-authentication encoding of what it carries. */
  lemma KeyedDocVerifiesIff(lib: Libraries, envelope: bytes, roots: TrustRoots, cert: bytes, payload: bytes, sig: bytes)
    requires lib.parseJson(envelope) == Some(KeyedDoc(cert, payload, sig)) && cert != [] && roots.signatureCAs != []
    ensures VerifyKeyedBundle(lib, envelope, roots).Some?
    ensures VerifyKeyedBundle(lib, envelope, roots).value.verified <==>
              && lib.parseCert(cert).Some? && lib.chains(lib.parseCert(cert).value, roots.signatureCAs)
              && lib.parseCert(cert).value.ecdsaKey.Some?
              && lib.verifyECDSA(lib.parseCert(cert).value.ecdsaKey.value,
                                 lib.sha256(Pae.Pae(Adapter.IN_TOTO_PAYLOAD, payload)), sig)
  {
    hide VerifyKeyedMembers, KeyedDoc, Pae.Pae;
    KeyedMembersVerifyIff(lib, roots, cert, payload, sig);
  }

  // Nothing at the top level of such a bundle is an envelope.
  lemma NoTopLevelFields(cert: bytes, payload: bytes, sig: bytes)
    ensures var m := KeyedDoc(cert, payload, sig).members;
            && Values(m, "payloadType") == Values(m, "payload") == []
            && Values(m, "mediaType") == Values(m, "dsseEnvelope") == []
            && StructField(m, "content") == Some(One("dsseEnvelope", SignedDoc(payload, sig)).members)
  {
    hide Encode, SignedDoc, Values, Merged, FoldAscii;
    var m := KeyedDoc(cert, payload, sig).members;
    Adapter.NoMember(m, "payloadType");
    Adapter.NoMember(m, "mediaType");
    Adapter.NoMember(m, "dsseEnvelope");
    KeysDiffer();
    assert Values(m, "payload") == [] by { NoPayload(m[0].value, m[1].value); }
    Adapter.OnlyMember(m, 1);
    OneValue(m[1].value);
  }

  lemma NoPayload(material: Json, content: Json)
    ensures Values([Member("verificationMaterial", material), Member("content", content)], "payload") == []
  {
    var m := [Member("verificationMaterial", material), Member("content", content)];
    KeysDiffer();
    assert m[1..][1..] == [] && !SameKey(m[1..][0].key, "payload") && !SameKey(m[0].key, "payload");
    assert Values(m[1..], "payload") == [];
  }

  /** Such a bundle is routed with the payload it was signed for. With another envelope at its top
      level the verdict stays and that envelope's payload is routed. */
  lemma KeyedDocRoutes(lib: Libraries, roots: TrustRoots, cert: bytes, payload: bytes, sig: bytes, other: bytes)
    ensures var m := KeyedDoc(cert, payload, sig).members;
            var m' := WithTop(m, Adapter.EnvelopeDoc(other).members);
            && !Overridden(m) && DecodeMembers(m) == Some(DecodedEnvelope(Adapter.IN_TOTO_PAYLOAD, payload))
            && VerifyKeyedMembers(lib, m', roots) == VerifyKeyedMembers(lib, m, roots)
            && DecodeMembers(m') == Some(DecodedEnvelope(Adapter.IN_TOTO_PAYLOAD, other))
  {
    hide Encode, DecodePayload, Values, SignedDoc, KeyedDoc, WithTop, VerifyKeyedMembers, Adapter.EnvelopeDoc,
         ReadEnvelope, Pointed, Merged;
    var m, env := KeyedDoc(cert, payload, sig).members, Adapter.EnvelopeDoc(other).members;
    NoTopLevelFields(cert, payload, sig);
    assert ReadEnvelope(m) == Some(DsseEnvelope("", "")) by { Adapter.NoBareFields(m); }
    SignedDocReads(payload, sig);
    var content := One("dsseEnvelope", SignedDoc(payload, sig)).members;
    OneReads("dsseEnvelope", SignedDoc(payload, sig));
    OneValue(SignedDoc(payload, sig));
    assert Pointed([]) == Some(None) by { NothingPointed(); }
    assert ReadEnvelope(SignedDoc(payload, sig).members)
        == Some(DsseEnvelope(Adapter.IN_TOTO_PAYLOAD, Encode(payload)));
    EncodeDecode(payload);
    EncodeDecode(other);
    Adapter.MembersOfEnvelopeDoc(other);
    assert Adapter.IN_TOTO_PAYLOAD != "";
    OverrideKeepsTheVerdict(lib, m, env, roots);
  }

  lemma NothingPointed()
    ensures Pointed([]) == Some(None)
  {
  }

  lemma SomethingEncodes(b: bytes)
    requires b != []
    ensures Encode(b) != ""
  {
  }

  const ANCHORED := TrustRoots([], map[], [1])

  // One attestation, a keyed bundle whose certificate and signature are good.
  function KeyedLibraries(): Libraries {
    LibrariesIn(OnlySignedBy(Nobody)).(
      parseJson := b => if b == SIGNATURE then Some(KeyedDoc([0], [0], [0])) else None,
      parseCert := _ => Some(Cert([], Some([]))),
      chains := (cert, cas) => true,
      verifyECDSA := (key, digest, sig) => true)
  }

  // Such a policy asks nothing beyond its signature rule.
  lemma AsksNothingElse(build: Build, lib: Libraries, ev: Evidence, rule: SignatureRule, roots: TrustRoots)
    ensures EvidenceComplies(build, lib, ev, Unsigned(Asks(rule, 0)), roots)
  {
    hide SignatureResults, LastOf, BomOf, FirstLicense, LastStatus;
    assert SeverityRank("") == 0 by { SeverityWords(); }
  }

  lemma KeyedWorldVerifies(ev: Evidence)
    requires ev.attestations == [Attestation("", SIGNATURE)]
    ensures IsKeyedSigned(KeyedLibraries(), ev.attestations[0], ANCHORED)
  {
    hide VerifyKeyedBundle, KeyedDoc;
    KeyedDocVerifiesIff(KeyedLibraries(), SIGNATURE, ANCHORED, [0], [0], [0]);
  }

  /** A wasm run under a policy that requires a signature, and the answer is allow. */
  method WasmAllowsSigned(now: int) returns (d: Decision)
    ensures MayDecide(Wasm, KeyedLibraries(), EvidenceIn(OnlySignedBy(Nobody)), Asks(REQUIRED, 0), ANCHORED, d)
    ensures d.result == Allow
  {
    hide MayDecide, KeyedLibraries, SignatureResults, EvidenceComplies, IsKeyedSigned, FirstVerified;
    var lib, ev := KeyedLibraries(), EvidenceIn(OnlySignedBy(Nobody));
    d := Evaluate(Wasm, lib, ev, Asks(REQUIRED, 0), ANCHORED, now);
    KeyedWorldVerifies(ev);
    AsksNothingElse(Wasm, lib, ev, REQUIRED, ANCHORED);
    assert ev.attestations[0] in ev.attestations;
    WasmAllowsSignedIff(lib, ev, Asks(REQUIRED, 0), ANCHORED, d);
  }

  // --- A keyed bundle with an envelope on top -------------------------------------------------------

  const SIGNED: bytes := [0]
  const ON_TOP: bytes := [9]

  // A bundle signed over one payload, with the envelope of another at its top level.
  function OverriddenMembers(): seq<Member> {
    WithTop(KeyedDoc([0], SIGNED, [0]).members, Adapter.EnvelopeDoc(ON_TOP).members)
  }

  // One attestation, that bundle. The key checks the signature over the one payload and over nothing
  // else; the other payload is provenance of level 3 for the artifact.
  function OverriddenLibraries(): Libraries {
    LibrariesIn(OnlySignedBy(Nobody).(origin := Some(Origin("https://builder", "type")))).(
      parseJson := b => if b == SIGNATURE then Some(Obj(OverriddenMembers()))
                        else if b == ON_TOP then Some(Adapter.StatementDoc("", Adapter.SLSA_TYPE, Null))
                        else None,
      parseCert := _ => Some(Cert([], Some([]))),
      chains := (cert, cas) => true,
      verifyECDSA := (key, digest, sig) => digest == Pae.Pae(Adapter.IN_TOTO_PAYLOAD, SIGNED))
  }

  const LONE := Attestation("", SIGNATURE)

  function LoneEvidence(): Evidence {
    Evidence(ARTIFACT, [LONE], None, [], None)
  }

  // What these libraries answer.
  lemma OverriddenAnswers()
    ensures var lib := OverriddenLibraries();
            && lib.parseJson(SIGNATURE) == Some(Obj(OverriddenMembers()))
            && lib.parseJson(ON_TOP) == Some(Adapter.StatementDoc("", Adapter.SLSA_TYPE, Null))
            && lib.parseStatement(ON_TOP)
               == Some(SlsaStatement([map["sha256" := "aa"]], Provenance("https://builder", "type")))
            && (forall der :: lib.parseCert(der) == Some(Cert([], Some([]))))
            && (forall cert, cas :: lib.chains(cert, cas))
            && (forall b :: lib.sha256(b) == b)
            && (forall key, digest, sig ::
                  lib.verifyECDSA(key, digest, sig) <==> digest == Pae.Pae(Adapter.IN_TOTO_PAYLOAD, SIGNED))
  {
    hide OverriddenMembers, Adapter.StatementDoc, Pae.Pae, ParseIn;
  }

  lemma OverriddenIsVerified()
    ensures IsKeyedSigned(OverriddenLibraries(), LONE, ANCHORED)
    ensures VerifySignature(Native, OverriddenLibraries(), 0, LONE, ANCHORED).verified
  {
    hide VerifyKeyedMembers, KeyedDoc, WithTop, Pae.Pae, DecodeMembers, Overridden, OverriddenLibraries;
    OverriddenAnswers();
    KeyedMembersVerifyIff(OverriddenLibraries(), ANCHORED, [0], SIGNED, [0]);
    KeyedDocRoutes(OverriddenLibraries(), ANCHORED, [0], SIGNED, [0], ON_TOP);
  }

  lemma OverriddenIsRouted()
    ensures var lib, env := OverriddenLibraries(), DecodedEnvelope(Adapter.IN_TOTO_PAYLOAD, ON_TOP);
            && MembersOf(lib, SIGNATURE) == OverriddenMembers()
            && DecodeDSSE(lib, SIGNATURE) == Some(env)
            && ClassOf(lib, LONE) == Slsa
  {
    hide VerifyKeyedMembers, KeyedDoc, WithTop, Pae.Pae, DecodeMembers, Overridden, RouteOf, ExtractPredicateType,
         Adapter.StatementDoc, Adapter.EnvelopeDoc, OverriddenLibraries;
    var lib, env := OverriddenLibraries(), DecodedEnvelope(Adapter.IN_TOTO_PAYLOAD, ON_TOP);
    OverriddenAnswers();
    KeyedDocRoutes(lib, ANCHORED, [0], SIGNED, [0], ON_TOP);
    Adapter.StatementDocReads(lib, env, "", Adapter.SLSA_TYPE, Null);
    Adapter.TypesRouteToTheirClass();
  }

  lemma TheOtherIsUnsigned()
    ensures !BundleSigns(OverriddenLibraries(), ANCHORED, OverriddenMembers(), Adapter.IN_TOTO_PAYLOAD, ON_TOP)
  {
    hide ReadKeyedBundle, OverriddenMembers, Pae.Pae, OwnLeaf, OverriddenLibraries;
    OverriddenAnswers();
    if Pae.Pae(Adapter.IN_TOTO_PAYLOAD, ON_TOP) == Pae.Pae(Adapter.IN_TOTO_PAYLOAD, SIGNED) {
      Pae.PaeIsInjective(Adapter.IN_TOTO_PAYLOAD, ON_TOP, Adapter.IN_TOTO_PAYLOAD, SIGNED);
      assert false;
    }
  }

  lemma OverriddenProvenance(lib: Libraries, payloadType: string)
    requires lib.parseStatement(ON_TOP)
             == Some(SlsaStatement([map["sha256" := "aa"]], Provenance("https://builder", "type")))
    ensures ProvenanceComplies(SlsaRule(3, []), lib, ARTIFACT, Some(DecodedEnvelope(payloadType, ON_TOP)))
  {
    hide BuilderAllowed;
    var subject := map["sha256" := "aa"];
    assert AlgorithmMatches(lib, subject, ARTIFACT, "sha256");
    assert SubjectMatches(lib, [subject][0], ARTIFACT);
  }

  // Evidence with a single, verified attestation that is the provenance.
  lemma LoneComplies(lib: Libraries, roots: TrustRoots)
    requires VerifySignature(Native, lib, 0, LONE, roots).verified && ClassOf(lib, LONE) == Slsa
    requires ProvenanceComplies(SlsaRule(3, []), lib, ARTIFACT, DecodeDSSE(lib, SIGNATURE))
    ensures EvidenceComplies(Native, lib, LoneEvidence(), Asks(REQUIRED, 3), roots)
    ensures LastOf(lib, LoneEvidence().attestations, Slsa) == DecodeDSSE(lib, SIGNATURE)
  {
    hide VerifySignature, DecodeDSSE, ClassOf, LastOf, ProvenanceComplies, BomOf, FirstLicense, LastStatus,
        SeverityRank;
    var ev := LoneEvidence();
    var rs := SignatureResults(Native, lib, ev, roots);
    assert rs[0] in rs && rs[0].verified;
    EveryResultIsCoherent(Native, lib, ev, roots);
    LastOfIsLast(lib, ev.attestations, Slsa, 0);
    assert SeverityRank("") == 0 by { SeverityWords(); }
  }

  // The only attestation verifies and is the provenance that decides, and nobody signed what it says.
  ghost predicate VerifiedButUnsigned(lib: Libraries, ev: Evidence, roots: TrustRoots) {
    && ev.attestations == [LONE] && IsLastOf(lib, ev.attestations, Slsa, 0)
    && VerifySignature(Native, lib, 0, LONE, roots).verified
    && LastOf(lib, ev.attestations, Slsa) == Some(DecodedEnvelope(Adapter.IN_TOTO_PAYLOAD, ON_TOP))
    && !BundleSigns(lib, roots, MembersOf(lib, SIGNATURE), Adapter.IN_TOTO_PAYLOAD, ON_TOP)
    && !ProvenanceIsSigned(lib, ev, roots, 0)
  }

  /** Allowed under a required signature and level 3 on one verified keyed bundle, although nobody
      signed the provenance that decides: it is the envelope on top. */
  method OverriddenBundleDecides(now: int) returns (d: Decision)
    ensures MayDecide(Native, OverriddenLibraries(), LoneEvidence(), Asks(REQUIRED, 3), ANCHORED, d)
    ensures d.result == Allow
    ensures VerifiedButUnsigned(OverriddenLibraries(), LoneEvidence(), ANCHORED)
  {
    hide EvidenceComplies, MayDecide, OverriddenLibraries, OverriddenMembers, VerifySignature, LastOf, ClassOf,
         DecodeDSSE, BundleSigns, MembersOf, Covers, IsKeyed, ProvenanceComplies;
    var lib, ev := OverriddenLibraries(), LoneEvidence();
    d := Evaluate(Native, lib, ev, Asks(REQUIRED, 3), ANCHORED, now);
    OverriddenAnswers();
    OverriddenIsVerified();
    OverriddenIsRouted();
    OverriddenProvenance(lib, Adapter.IN_TOTO_PAYLOAD);
    LoneComplies(lib, ANCHORED);
    AllowsExactlyCompliantEvidence(Native, lib, ev, Asks(REQUIRED, 3), ANCHORED, d);
    TheOtherIsUnsigned();
  }
}
