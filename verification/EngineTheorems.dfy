/** End to end: what the engine allows, that it has one answer, and how the native and the
    wasm build compare. */
module EngineTheorems {
  import opened Prelude
  import opened Ordering
  import opened Policies
  import opened PolicyEval
  import opened PolicyTheorems
  import opened Evidence
  import opened Envelope
  import opened Predicates
  import opened Engine
  import Glob

  // --- Compliance of evidence, without views -------------------------------------------

  ghost predicate KeylessAccepts(rule: KeylessRule, r: SignatureResult) {
    r.issuer == rule.issuer && Glob.GlobAccepts(rule.identityPattern, r.subjectIdentity)
  }

  // A keyless rule constrains the first verified result, and only if there is one.
  ghost predicate IdentityOfSigner(rule: SignatureRule, rs: seq<SignatureResult>) {
    rule.keyless.Some? && FirstVerified(rs).Some? ==> KeylessAccepts(rule.keyless.value, FirstVerified(rs).value)
  }

  ghost predicate SignaturesComply(rule: SignatureRule, rs: seq<SignatureResult>) {
    SignatureRequested(rule) ==>
      && AnyAvailable(rs)
      && (rule.required ==> exists r | r in rs :: r.verified)
      && (rule.rekorRequired ==> FirstVerified(rs).Some? && FirstVerified(rs).value.rekorLogged)
      && IdentityOfSigner(rule, rs)
  }

  // The last provenance statement names the artifact, an allowed builder and a high enough level.
  ghost predicate ProvenanceComplies(rule: SlsaRule, lib: Libraries, art: ArtifactRef, last: Option<DecodedEnvelope>) {
    SlsaInScope(rule) ==>
      && last.Some? && lib.parseStatement(last.value.payload).Some?
      && var stmt := lib.parseStatement(last.value.payload).value;
         && !stmt.provenance.UnreadablePredicate?
         && AnySubjectMatches(lib, stmt.subjects, art)
         && var builder := if stmt.provenance.Provenance? then stmt.provenance.builderID else "";
            var buildType := if stmt.provenance.Provenance? then stmt.provenance.buildType else "";
            && (rule.minLevel > 0 ==> rule.minLevel <= DeriveBuildLevel(builder, buildType))
            && (rule.allowedBuilders != [] ==> BuilderAllowed(rule.allowedBuilders, builder))
  }

  // No vulnerability is left "affected" by the last statement about it in the last document.
  ghost predicate VexComplies(rule: VexRule, lib: Libraries, last: Option<DecodedEnvelope>) {
    rule.maxUnmitigatedSeverity != "" && last.Some? && StatementsOf(lib, last.value).Some? ==>
      forall id | id != "" :: LastStatus(StatementsOf(lib, last.value).value, id) != Some("affected")
  }

  ghost predicate SbomComplies(rule: SbomRule, lib: Libraries, last: Option<DecodedEnvelope>) {
    && (rule.required ==> last.Some? && BomOf(lib, last.value).Some?)
    && (last.Some? && BomOf(lib, last.value).Some? ==>
          forall i | 0 <= i < |BomOf(lib, last.value).value.components| ::
            var license := FirstLicense(BomOf(lib, last.value).value.components[i]);
            license != "" ==> license !in rule.disallowedLicenses)
  }

  ghost predicate IdentityComplies(rule: IdentityRule, lib: Libraries, ev: Evidence, roots: TrustRoots) {
    rule.required ==>
      && ev.identity.Some?
      && var r := lib.verifyIdentity(ev.identity.value, ev.artifact, roots);
         && r.verified && r.bindingMatch
         && (rule.trustDomain == "" || r.trustDomain == rule.trustDomain)
         && (rule.idPattern == "" || Glob.GlobAccepts(rule.idPattern, r.spiffeID))
  }

  ghost predicate EvidenceComplies(build: Build, lib: Libraries, ev: Evidence, pol: Policy, roots: TrustRoots) {
    && SignaturesComply(pol.signature, SignatureResults(build, lib, ev, roots))
    && ProvenanceComplies(pol.slsa, lib, ev.artifact, LastOf(lib, ev.attestations, Slsa))
    && VexComplies(pol.vex, lib, LastOf(lib, ev.attestations, Vex))
    && SbomComplies(pol.sbom, lib, LastOf(lib, ev.attestations, Sbom))
    && IdentityComplies(pol.identity, lib, ev, roots)
    && FindingsOk(pol.findings, ev.findings)
  }

  // --- The views say neither more nor less ---------------------------------------------

  lemma SignatureViewFaithful(rule: SignatureRule, rs: seq<SignatureResult>, v: SignatureView)
    requires IsFoldOf(rs, v)
    ensures SignatureOk(rule, v) <==> SignaturesComply(rule, rs)
  {
    FirstVerifiedIsFirst(rs);
    assert v.verified <==> exists r | r in rs :: r.verified by {
      if FirstVerified(rs).Some? {
        var i :| 0 <= i < |rs| && rs[i] == FirstVerified(rs).value && rs[i].verified;
        assert rs[i] in rs;
      }
    }
  }

  lemma SlsaViewFaithful(rule: SlsaRule, lib: Libraries, art: ArtifactRef, last: Option<DecodedEnvelope>, r: SlsaResult)
    requires r == match last case None => NO_SLSA case Some(env) => SlsaOf(lib, env, art)
    ensures SlsaOk(rule, SlsaView(r.verified, r.builderID, r.buildLevel, r.subjectDigestMatch))
       <==> ProvenanceComplies(rule, lib, art, last)
  {
    hide BuilderAllowed, AnySubjectMatches, DeriveBuildLevel;
    assert DeriveBuildLevel("", "") == 1 by { NoBuilderIsLevelOne(); }
  }

  lemma NoBuilderIsLevelOne()
    ensures DeriveBuildLevel("", "") == 1
  {
  }

  lemma VexViewFaithful(rule: VexRule, lib: Libraries, last: Option<DecodedEnvelope>, vex: VexResult, v: VexView)
    requires match last case None => vex == NO_VEX case Some(env) => IsVexOf(lib, env, vex)
    requires Lists(v.affectedCVEs, AffectedSet(vex))
    ensures VexOk(rule, v) <==> VexComplies(rule, lib, last)
  {
    if v.affectedCVEs != [] {
      var id := v.affectedCVEs[0];
      assert id in v.affectedCVEs;
      assert id in AffectedSet(vex);
    }
    if last.Some? && StatementsOf(lib, last.value).Some? {
      var statements := StatementsOf(lib, last.value).value;
      forall id | id != "" && LastStatus(statements, id) == Some("affected") ensures v.affectedCVEs != [] {
        assert id in vex.statuses;
        assert id in AffectedSet(vex);
        assert id in v.affectedCVEs;
      }
    }
  }

  lemma {:induction false} NonEmptyMembers(licenses: seq<string>, l: string)
    ensures l in NonEmpty(licenses) <==> l in licenses && l != ""
  {
    if licenses != [] {
      var front, last := licenses[..|licenses| - 1], licenses[|licenses| - 1];
      assert licenses == front + [last];
      NonEmptyMembers(front, l);
    }
  }

  lemma SortKeepsMembers(xs: seq<string>, x: string)
    ensures x in StableSort(Self, xs) <==> x in xs
  {
    StableSortIsStableSort(Self, xs);
    WithKeyMember(Self, x, xs, x);
    WithKeyMember(Self, x, StableSort(Self, xs), x);
  }

  lemma SbomViewFaithful(rule: SbomRule, lib: Libraries, last: Option<DecodedEnvelope>, sbom: SbomResult)
    requires sbom == match last case None => NO_SBOM case Some(env) => VerifySBOM(lib, env)
    ensures SbomOk(rule, SbomViewOf(sbom)) <==> SbomComplies(rule, lib, last)
  {
    hide StableSort, NonEmpty, BomOf, FirstLicense;
    var v := SbomViewOf(sbom);
    forall l ensures l in v.licenses <==> l in sbom.licenses && l != "" {
      SortKeepsMembers(NonEmpty(sbom.licenses), l);
      NonEmptyMembers(sbom.licenses, l);
    }
    if last.Some? && BomOf(lib, last.value).Some? {
      var components := BomOf(lib, last.value).value.components;
      assert |sbom.licenses| == |components|
             && forall i | 0 <= i < |components| :: sbom.licenses[i] == FirstLicense(components[i]);
      if SbomOk(rule, v) {
        forall i | 0 <= i < |components| && FirstLicense(components[i]) != ""
          ensures FirstLicense(components[i]) !in rule.disallowedLicenses
        {
          assert sbom.licenses[i] in sbom.licenses;
          assert sbom.licenses[i] in v.licenses;
        }
      }
    } else {
      assert sbom.licenses == [];
    }
  }

  lemma ViewsAreFaithful(build: Build, lib: Libraries, ev: Evidence, pol: Policy, roots: TrustRoots, v: Views)
    requires AreViewsOf(build, lib, ev, roots, v)
    ensures Compliant(pol, v) <==> EvidenceComplies(build, lib, ev, pol, roots)
  {
    hide SignatureOk, SlsaOk, VexOk, SbomOk, FindingsOk, SignaturesComply, ProvenanceComplies, VexComplies,
         SbomComplies, SbomViewOf, IsVexOf, VerifySBOM, SlsaOf, LastOf, IsFoldOf, SignatureResults, Lists,
         AffectedSet, Glob.GlobAccepts;
    var slots :| PresentsSlots(lib, ev, slots, v);
    SignatureViewFaithful(pol.signature, SignatureResults(build, lib, ev, roots), v.signature);
    SlsaViewFaithful(pol.slsa, lib, ev.artifact, LastOf(lib, ev.attestations, Slsa), slots.slsa);
    VexViewFaithful(pol.vex, lib, LastOf(lib, ev.attestations, Vex), slots.vex, v.vex);
    SbomViewFaithful(pol.sbom, lib, LastOf(lib, ev.attestations, Sbom), slots.sbom);
  }

  /** Under enforce, and under any unknown mode, the engine allows exactly the evidence that
      complies with the policy; audit always audits and warn always allows. */
  lemma AllowsExactlyCompliantEvidence(build: Build, lib: Libraries, ev: Evidence, pol: Policy,
      roots: TrustRoots, d: Decision)
    requires MayDecide(build, lib, ev, pol, roots, d)
    ensures Enforces(pol.mode) ==> d.result == if EvidenceComplies(build, lib, ev, pol, roots) then Allow else Deny
    ensures pol.mode.Audit? ==> d.result == Audited
    ensures pol.mode.Warn? ==> d.result == Allow
  {
    hide AreViewsOf, IsDecision, EvidenceComplies, Compliant;
    var v :| AreViewsOf(build, lib, ev, roots, v) && IsDecision(pol, v, d.result, d.reasons);
    AllowIffCompliant(pol, v, d.result, d.reasons);
    ViewsAreFaithful(build, lib, ev, pol, roots, v);
  }

  /** A policy that only asks for a transparency-log entry still demands a verified signature. */
  lemma RekorOnlyDemandsASignature(build: Build, lib: Libraries, ev: Evidence, pol: Policy, roots: TrustRoots,
      d: Decision)
    requires MayDecide(build, lib, ev, pol, roots, d)
    requires Enforces(pol.mode) && pol.signature == SignatureRule(false, None, true) && d.result == Allow
    ensures exists r | r in SignatureResults(build, lib, ev, roots) :: r.verified && r.available && r.rekorLogged
  {
    hide MayDecide, SignatureResults, ProvenanceComplies, VexComplies, SbomComplies, IdentityComplies, FindingsOk;
    var rs := SignatureResults(build, lib, ev, roots);
    AllowsExactlyCompliantEvidence(build, lib, ev, pol, roots, d);
    EveryResultIsCoherent(build, lib, ev, roots);
    FirstVerifiedIsFirst(rs);
    var i :| 0 <= i < |rs| && rs[i] == FirstVerified(rs).value && rs[i].verified;
    assert rs[i] in rs;
  }

  lemma EveryResultIsCoherent(build: Build, lib: Libraries, ev: Evidence, roots: TrustRoots)
    ensures forall r | r in SignatureResults(build, lib, ev, roots) :: Coherent(r)
  {
    hide VerifySignature, VerifyBlob;
    var rs := SignatureResults(build, lib, ev, roots);
    forall i | 0 <= i < |rs| ensures Coherent(rs[i]) {
      if i < |ev.attestations| {
        ResultsAreCoherent(build, lib, i, ev.attestations[i], BlobSignature([], ""), roots);
      } else {
        ResultsAreCoherent(build, lib, i, Attestation("", []), ev.blobSignature.value, roots);
      }
    }
  }

  /** Build levels end at 3: an enforcing policy that asks for more allows nothing, and one that
      asks for 3 allows only provenance by an https builder that states a build type. */
  lemma LevelsEndAtThree(build: Build, lib: Libraries, ev: Evidence, pol: Policy, roots: TrustRoots, d: Decision)
    requires MayDecide(build, lib, ev, pol, roots, d)
    requires Enforces(pol.mode) && pol.slsa.minLevel >= 3 && d.result == Allow
    ensures pol.slsa.minLevel == 3
    ensures LastOf(lib, ev.attestations, Slsa).Some?
            && exists stmt ::
                 lib.parseStatement(LastOf(lib, ev.attestations, Slsa).value.payload) == Some(stmt)
                 && stmt.provenance.Provenance? && HasPrefix(stmt.provenance.builderID, "https://")
                   && stmt.provenance.buildType != ""
  {
    hide MayDecide, SignaturesComply, VexComplies, SbomComplies, IdentityComplies, FindingsOk, LastOf;
    AllowsExactlyCompliantEvidence(build, lib, ev, pol, roots, d);
    assert ProvenanceComplies(pol.slsa, lib, ev.artifact, LastOf(lib, ev.attestations, Slsa));
  }

  /** A keyless rule alone demands no signature: evidence without any verified result passes the
      signature rules exactly when nothing is requested, or when the verifier ran and neither a
      signature nor a log entry is required. */
  lemma UnsignedEvidencePassesIff(rule: SignatureRule, rs: seq<SignatureResult>)
    requires forall r | r in rs :: !r.verified
    ensures SignaturesComply(rule, rs)
       <==> !SignatureRequested(rule) || (AnyAvailable(rs) && !rule.required && !rule.rekorRequired)
  {
    FirstVerifiedIsFirst(rs);
  }

  // --- One answer ----------------------------------------------------------------------

  lemma RecordsLastIsUnique(statements: seq<VexStatement>, a: map<string, string>, b: map<string, string>)
    requires RecordsLast(statements, a) && RecordsLast(statements, b)
    ensures a == b
  {
    assert forall id :: id in a <==> id in b;
    assert forall id | id in a :: Some(a[id]) == Some(b[id]);
  }

  lemma SlotsAreUnique(lib: Libraries, art: ArtifactRef, atts: seq<Attestation>, a: Slots, b: Slots)
    requires AreSlotsOf(lib, art, atts, a) && AreSlotsOf(lib, art, atts, b)
    ensures a == b
  {
    hide RecordsLast;
    var last := LastOf(lib, atts, Vex);
    if last.Some? && StatementsOf(lib, last.value).Some? {
      RecordsLastIsUnique(StatementsOf(lib, last.value).value, a.vex.statuses, b.vex.statuses);
    }
  }

  lemma ViewsAreUnique(build: Build, lib: Libraries, ev: Evidence, roots: TrustRoots, v: Views, v': Views)
    requires AreViewsOf(build, lib, ev, roots, v) && AreViewsOf(build, lib, ev, roots, v')
    ensures v == v'
  {
    hide AreSlotsOf, Lists, AffectedSet, SbomViewOf, SignatureResults, FirstVerified;
    var slots :| PresentsSlots(lib, ev, slots, v);
    var slots' :| PresentsSlots(lib, ev, slots', v');
    SlotsAreUnique(lib, ev.artifact, ev.attestations, slots, slots');
    ListingIsUnique(v.vex.affectedCVEs, v'.vex.affectedCVEs, AffectedSet(slots.vex));
  }

  /** Whatever order the maps of a run are walked in, the decision is the same: two runs whose
      libraries answer alike and whose clocks agree return equal decisions. */
  lemma EvaluateIsDeterministic(build: Build, lib: Libraries, ev: Evidence, pol: Policy, roots: TrustRoots,
      d: Decision, d': Decision)
    requires MayDecide(build, lib, ev, pol, roots, d) && MayDecide(build, lib, ev, pol, roots, d')
    requires d.decidedAt == d'.decidedAt
    ensures d == d'
  {
    hide AreViewsOf, Verdict, IsDecision;
    var v :| AreViewsOf(build, lib, ev, roots, v) && IsDecision(pol, v, d.result, d.reasons);
    var v' :| AreViewsOf(build, lib, ev, roots, v') && IsDecision(pol, v', d'.result, d'.reasons);
    ViewsAreUnique(build, lib, ev, roots, v, v');
    DecisionIsUnique(pol, v, v', d.result, d.reasons, d'.result, d'.reasons);
  }

  // --- Attestation order ----------------------------------------------------------------

  /** Only the last attestation of each class counts: any rearrangement that keeps those
      leaves the SLSA, SBOM and VEX views as they were. */
  lemma OnlyTheLastOfEachClassCounts(
    build: Build, lib: Libraries, ev: Evidence, atts: seq<Attestation>, roots: TrustRoots, v: Views, v': Views)
    requires forall c | c != Unrouted :: LastOf(lib, ev.attestations, c) == LastOf(lib, atts, c)
    requires AreViewsOf(build, lib, ev, roots, v) && AreViewsOf(build, lib, ev.(attestations := atts), roots, v')
    ensures v.slsa == v'.slsa && v.sbom == v'.sbom && v.vex == v'.vex && v.identity == v'.identity
  {
    hide SbomViewOf, IsFoldOf, SignatureResults, Lists, AffectedSet, LastOf, SlsaOf, VerifySBOM, IsVexOf;
    var ev' := ev.(attestations := atts);
    var slots :| PresentsSlots(lib, ev, slots, v);
    var slots' :| PresentsSlots(lib, ev', slots', v');
    assert AreSlotsOf(lib, ev.artifact, atts, slots);
    SlotsAreUnique(lib, ev.artifact, atts, slots, slots');
    ListingIsUnique(v.vex.affectedCVEs, v'.vex.affectedCVEs, AffectedSet(slots.vex));
  }

  // i is the last attestation of its class.
  ghost predicate IsLastOf(lib: Libraries, atts: seq<Attestation>, c: Class, i: nat) {
    i < |atts| && ClassOf(lib, atts[i]) == c && forall j | i < j < |atts| :: ClassOf(lib, atts[j]) != c
  }

  /** LastOf is what its name says; nothing is returned when the class is empty. */
  lemma {:induction false} LastOfIsLast(lib: Libraries, atts: seq<Attestation>, c: Class, i: nat)
    requires c != Unrouted
    ensures IsLastOf(lib, atts, c, i) ==>
              LastOf(lib, atts, c) == DecodeDSSE(lib, atts[i].envelope) && LastOf(lib, atts, c).Some?
    ensures (forall j | 0 <= j < |atts| :: ClassOf(lib, atts[j]) != c) ==> LastOf(lib, atts, c).None?
  {
    hide DecodeDSSE, RouteOf, ExtractPredicateType;
    if atts != [] && ClassOf(lib, atts[|atts| - 1]) != c {
      LastOfIsLast(lib, atts[..|atts| - 1], c, i);
    }
  }

  // --- Native and wasm --------------------------------------------------------------------

  /** Without a signature rule the two builds return the same decision, reasons included. */
  lemma BuildsAgreeWithoutSignatureRule(lib: Libraries, ev: Evidence, pol: Policy, roots: TrustRoots,
      d: Decision, d': Decision)
    requires !SignatureRequested(pol.signature)
    requires MayDecide(Native, lib, ev, pol, roots, d) && MayDecide(Wasm, lib, ev, pol, roots, d')
    requires d.decidedAt == d'.decidedAt
    ensures d == d'
  {
    hide AreViewsOf, Verdict, IsDecision;
    var v :| AreViewsOf(Native, lib, ev, roots, v) && IsDecision(pol, v, d.result, d.reasons);
    var v' :| AreViewsOf(Wasm, lib, ev, roots, v') && IsDecision(pol, v', d'.result, d'.reasons);
    SameBesidesSignature(lib, ev, roots, v, v');
    forall c ensures Verdict(pol, v, c) == Verdict(pol, v', c) {
      UnrequestedSignatureIsUnseen(pol, v, v', c);
    }
    DecisionIsUnique(pol, v, v', d.result, d.reasons, d'.result, d'.reasons);
  }

  lemma SameBesidesSignature(lib: Libraries, ev: Evidence, roots: TrustRoots, v: Views, v': Views)
    requires AreViewsOf(Native, lib, ev, roots, v) && AreViewsOf(Wasm, lib, ev, roots, v')
    ensures v == v'.(signature := v.signature)
  {
    hide AreSlotsOf, Lists, AffectedSet, SbomViewOf, SignatureResults, IsFoldOf;
    var slots :| PresentsSlots(lib, ev, slots, v);
    var slots' :| PresentsSlots(lib, ev, slots', v');
    SlotsAreUnique(lib, ev.artifact, ev.attestations, slots, slots');
    ListingIsUnique(v.vex.affectedCVEs, v'.vex.affectedCVEs, AffectedSet(slots.vex));
  }

  lemma UnrequestedSignatureIsUnseen(pol: Policy, v: Views, v': Views, c: Code)
    requires !SignatureRequested(pol.signature) && v == v'.(signature := v.signature)
    ensures Verdict(pol, v, c) == Verdict(pol, v', c)
  {
  }

  /** When every attestation is keyed and there is no blob, the builds agree for every policy. */
  lemma BuildsAgreeOnKeyedEvidence(lib: Libraries, ev: Evidence, pol: Policy, roots: TrustRoots, d: Decision,
      d': Decision)
    requires forall att | att in ev.attestations :: VerifyKeyedBundle(lib, att.envelope, roots).Some?
    requires ev.blobSignature.None?
    requires MayDecide(Native, lib, ev, pol, roots, d) && MayDecide(Wasm, lib, ev, pol, roots, d')
    requires d.decidedAt == d'.decidedAt
    ensures d == d'
  {
    hide AreViewsOf, IsDecision, VerifyKeyedBundle;
    assert SignatureResults(Native, lib, ev, roots) == SignatureResults(Wasm, lib, ev, roots);
    forall v ensures AreViewsOf(Native, lib, ev, roots, v) <==> AreViewsOf(Wasm, lib, ev, roots, v) {
      ViewsDependOnResults(lib, ev, roots, v);
    }
    EvaluateIsDeterministic(Native, lib, ev, pol, roots, d, d');
  }

  lemma ViewsDependOnResults(lib: Libraries, ev: Evidence, roots: TrustRoots, v: Views)
    requires SignatureResults(Native, lib, ev, roots) == SignatureResults(Wasm, lib, ev, roots)
    ensures AreViewsOf(Native, lib, ev, roots, v) <==> AreViewsOf(Wasm, lib, ev, roots, v)
  {
    hide SignatureResults, IsFoldOf, PresentsSlots;
  }

  // Result by result, wasm either agrees with native or could not run; it never logs.
  lemma WasmSeesLess(lib: Libraries, ev: Evidence, roots: TrustRoots)
    ensures var native, wasm := SignatureResults(Native, lib, ev, roots), SignatureResults(Wasm, lib, ev, roots);
            |native| == |wasm|
            && forall i | 0 <= i < |wasm| :: !wasm[i].rekorLogged && (wasm[i] == native[i] || wasm[i] == UNAVAILABLE)
  {
    hide VerifyKeyedBundle, VerifyKeyless, VerifyBlobNative;
    forall i | 0 <= i < |ev.attestations| {
      ResultsAreCoherent(Wasm, lib, i, ev.attestations[i], BlobSignature([], ""), roots);
    }
  }

  lemma SeesLessOfAny(native: seq<SignatureResult>, wasm: seq<SignatureResult>)
    requires |native| == |wasm| && forall i | 0 <= i < |wasm| :: wasm[i] == native[i] || wasm[i] == UNAVAILABLE
    ensures AnyAvailable(wasm) ==> AnyAvailable(native)
    ensures (exists r | r in wasm :: r.verified) ==> exists r | r in native :: r.verified
  {
    if r :| r in wasm && r.available {
      var i :| 0 <= i < |wasm| && wasm[i] == r;
      assert native[i] in native;
    }
    if r :| r in wasm && r.verified {
      var i :| 0 <= i < |wasm| && wasm[i] == r;
      assert native[i] in native;
    }
  }

  /** What a wasm allow says about the native build under an enforcing policy: native allows
      as well, exactly if its own first verified signer satisfies the keyless rule. */
  lemma WasmAllowCarriesOver(lib: Libraries, ev: Evidence, pol: Policy, roots: TrustRoots, d: Decision, d': Decision)
    requires Enforces(pol.mode)
    requires MayDecide(Native, lib, ev, pol, roots, d) && MayDecide(Wasm, lib, ev, pol, roots, d')
    requires d'.result == Allow
    ensures d.result == Allow <==> IdentityOfSigner(pol.signature, SignatureResults(Native, lib, ev, roots))
    ensures pol.signature.keyless.None? ==> d.result == Allow
  {
    hide MayDecide, SignatureResults, ProvenanceComplies, VexComplies, SbomComplies, IdentityComplies,
        FindingsOk, KeylessAccepts;
    AllowsExactlyCompliantEvidence(Native, lib, ev, pol, roots, d);
    AllowsExactlyCompliantEvidence(Wasm, lib, ev, pol, roots, d');
    WasmSeesLess(lib, ev, roots);
    var native, wasm := SignatureResults(Native, lib, ev, roots), SignatureResults(Wasm, lib, ev, roots);
    SeesLessOfAny(native, wasm);
    FirstVerifiedIsFirst(wasm);
  }
}
