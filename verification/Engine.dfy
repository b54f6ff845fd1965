/** The composition root (pkg/core/engine/engine.go): fold the signature results, route the
    predicates, project everything to views and let the policy decide. */
module Engine {
  import opened Prelude
  import opened Json
  import opened Ordering
  import opened Policies
  import opened PolicyEval
  import opened Evidence
  import opened Envelope
  import opened Predicates

  // --- Step 1: signatures -----------------------------------------------------------

  // Every result in the order the engine obtains it: the attestations, then the blob.
  ghost function SignatureResults(build: Build, lib: Libraries, ev: Evidence, roots: TrustRoots): seq<SignatureResult> {
    var n := |ev.attestations|;
    seq(n, i requires 0 <= i < n => VerifySignature(build, lib, i, ev.attestations[i], roots)) +
    (if ev.blobSignature.Some? then [VerifyBlob(build, lib, n, ev.blobSignature.value, roots)] else [])
  }

  ghost function FirstVerified(rs: seq<SignatureResult>): Option<SignatureResult> {
    if rs == [] then None
    else
      var earlier, last := FirstVerified(rs[..|rs| - 1]), rs[|rs| - 1];
      if earlier.Some? then earlier else if last.verified then Some(last) else None
  }

  ghost predicate AnyAvailable(rs: seq<SignatureResult>) {
    exists r | r in rs :: r.available
  }

  /** FirstVerified is what its name says: the verified result no verified result precedes. */
  lemma {:induction false} FirstVerifiedIsFirst(rs: seq<SignatureResult>)
    ensures FirstVerified(rs).None? <==> forall r | r in rs :: !r.verified
    ensures FirstVerified(rs).Some? ==>
              exists i | 0 <= i < |rs| :: rs[i] == FirstVerified(rs).value && rs[i].verified
                  && forall j | 0 <= j < i :: !rs[j].verified
  {
    if rs != [] {
      var front, last := rs[..|rs| - 1], rs[|rs| - 1];
      assert rs == front + [last];
      FirstVerifiedIsFirst(front);
      if FirstVerified(front).Some? {
        var i :| 0 <= i < |front| && front[i] == FirstVerified(front).value && front[i].verified
            && forall j | 0 <= j < i :: !front[j].verified;
        assert rs[i] == front[i] && forall j | 0 <= j < i :: rs[j] == front[j];
        assert rs[i] in rs;
      } else {
        forall j | 0 <= j < |rs| - 1 ensures !rs[j].verified {
          assert front[j] in front;
        }
      }
    }
  }

  /** What the fold must leave behind: both flags are disjunctions over all results, and the
      identity and the log flag are those of the first verified one. */
  ghost predicate IsFoldOf(rs: seq<SignatureResult>, v: SignatureView) {
    && (v.available <==> AnyAvailable(rs))
    && match FirstVerified(rs)
       case None => !v.verified && v.issuer == "" && v.subjectIdentity == "" && !v.rekorLogged
       case Some(r) =>
         && v.verified && v.issuer == r.issuer && v.subjectIdentity == r.subjectIdentity
         && v.rekorLogged == r.rekorLogged
  }

  // The zero sigView.
  function NoSignature(): (v: SignatureView)
    ensures IsFoldOf([], v)
  {
    SignatureView(false, false, "", "", false)
  }

  method FoldResult(v: SignatureView, r: SignatureResult, ghost rs: seq<SignatureResult>) returns (view: SignatureView)
    requires IsFoldOf(rs, v)
    ensures IsFoldOf(rs + [r], view)
  {
    view := v;
    if r.available {
      view := view.(available := true);
    }
    if r.verified && !view.verified {
      view := view.(verified := true, issuer := r.issuer, subjectIdentity := r.subjectIdentity,
                    rekorLogged := r.rekorLogged);
    }
    assert (rs + [r])[..|rs|] == rs;
  }

  method FoldSignatures(build: Build, lib: Libraries, ev: Evidence, roots: TrustRoots) returns (sigView: SignatureView)
    ensures IsFoldOf(SignatureResults(build, lib, ev, roots), sigView)
  {
    hide VerifySignature, VerifyBlob, IsFoldOf;
    sigView := NoSignature();
    ghost var rs: seq<SignatureResult> := [];
    for i := 0 to |ev.attestations|
      invariant |rs| == i
      invariant forall k | 0 <= k < i :: rs[k] == VerifySignature(build, lib, k, ev.attestations[k], roots)
      invariant IsFoldOf(rs, sigView)
    {
      var r := VerifySignature(build, lib, i, ev.attestations[i], roots);
      sigView := FoldResult(sigView, r, rs);
      rs := rs + [r];
    }
    if ev.blobSignature.Some? {
      var r := VerifyBlob(build, lib, |ev.attestations|, ev.blobSignature.value, roots);
      sigView := FoldResult(sigView, r, rs);
      rs := rs + [r];
    }
    assert rs == SignatureResults(build, lib, ev, roots);
  }

  // --- Step 2: predicate routing ------------------------------------------------------

  datatype Class = Slsa | Sbom | Vex | Unrouted

  function ExtractPredicateType(lib: Libraries, payload: bytes): string {
    match lib.parseJson(payload)
    case None => ""
    case Some(j) =>
      match Fields(j)
      case None => ""
      case Some(m) =>
        var t := StringField(m, "predicateType");
        if t.Some? then t.value else ""
  }

  function RouteOf(predType: string): Class {
    if Contains(predType, "slsa.dev/provenance") then Slsa
    else if Contains(predType, "cyclonedx") then Sbom
    else if Contains(predType, "openvex") then Vex
    else Unrouted
  }

  // The class an attestation is routed to; Unrouted also when its envelope does not decode.
  function ClassOf(lib: Libraries, att: Attestation): Class {
    match DecodeDSSE(lib, att.envelope)
    case None => Unrouted
    case Some(env) => RouteOf(ExtractPredicateType(lib, env.payload))
  }

  /** The envelope of the last attestation routed to this class. */
  ghost function LastOf(lib: Libraries, atts: seq<Attestation>, c: Class): Option<DecodedEnvelope> {
    if atts == [] then None
    else
      var att := atts[|atts| - 1];
      if ClassOf(lib, att) == c then DecodeDSSE(lib, att.envelope) else LastOf(lib, atts[..|atts| - 1], c)
  }

  datatype Slots = Slots(slsa: SlsaResult, sbom: SbomResult, vex: VexResult)

  ghost predicate AreSlotsOf(lib: Libraries, art: ArtifactRef, atts: seq<Attestation>, slots: Slots) {
    && slots.slsa == (match LastOf(lib, atts, Slsa)
                      case None => SlsaResult(false, "", 0, false)
                      case Some(env) => SlsaOf(lib, env, art))
    && slots.sbom == (match LastOf(lib, atts, Sbom)
                      case None => SbomResult(false, [])
                      case Some(env) => VerifySBOM(lib, env))
    && (match LastOf(lib, atts, Vex)
        case None => slots.vex == VexResult(false, map[])
        case Some(env) => IsVexOf(lib, env, slots.vex))
  }

  method RoutePredicates(lib: Libraries, ev: Evidence) returns (slots: Slots)
    ensures AreSlotsOf(lib, ev.artifact, ev.attestations, slots)
  {
    hide VerifySBOM, IsVexOf, SlsaOf, DecodeDSSE, Contains;
    var slsaResult, sbomResult, vexResult := NO_SLSA, NO_SBOM, NO_VEX;
    var atts := ev.attestations;
    for i := 0 to |atts|
      invariant AreSlotsOf(lib, ev.artifact, atts[..i], Slots(slsaResult, sbomResult, vexResult))
    {
      var att := atts[i];
      assert atts[..i + 1][..i] == atts[..i];
      var env := DecodeDSSE(lib, att.envelope);
      if env.None? {
        continue;
      }
      var predType := ExtractPredicateType(lib, env.value.payload);
      if Contains(predType, "slsa.dev/provenance") {
        slsaResult := VerifySLSA(lib, env.value, ev.artifact);
      } else if Contains(predType, "cyclonedx") {
        sbomResult := VerifySBOM(lib, env.value);
      } else if Contains(predType, "openvex") {
        vexResult := VerifyVEX(lib, env.value);
      }
    }
    assert atts[..|atts|] == atts;
    slots := Slots(slsaResult, sbomResult, vexResult);
  }

  // --- Steps 3 and 4: identity and views ---------------------------------------------

  ghost function AffectedSet(vex: VexResult): set<string> {
    set id | id in vex.statuses && vex.statuses[id] == "affected"
  }

  method ProjectVex(vex: VexResult) returns (view: VexView)
    ensures view.present == vex.present && Lists(view.affectedCVEs, AffectedSet(vex))
  {
    var affectedCVEs: seq<string> := [];
    var todo := vex.statuses.Keys;
    while todo != {}
      invariant todo <= vex.statuses.Keys
      invariant forall i, j | 0 <= i < j < |affectedCVEs| :: affectedCVEs[i] != affectedCVEs[j]
      invariant forall id :: id in affectedCVEs <==> id in AffectedSet(vex) && id !in todo
      decreases |todo|
    {
      var cve :| cve in todo;
      todo := todo - {cve};
      if vex.statuses[cve] == "affected" {
        affectedCVEs := affectedCVEs + [cve];
      }
    }
    SortListsTheSet(affectedCVEs, AffectedSet(vex));
    view := VexView(vex.present, StableSort(Self, affectedCVEs));
  }

  // The non-empty licences, sorted.
  ghost function NonEmpty(licenses: seq<string>): seq<string> {
    if licenses == [] then []
    else
      NonEmpty(licenses[..|licenses| - 1]) +
      (if licenses[|licenses| - 1] != "" then [licenses[|licenses| - 1]] else [])
  }

  ghost function SbomViewOf(sbom: SbomResult): SbomView {
    SbomView(sbom.present, StableSort(Self, NonEmpty(sbom.licenses)))
  }

  method ProjectSbom(sbom: SbomResult) returns (view: SbomView)
    ensures view == SbomViewOf(sbom)
  {
    var licenses: seq<string> := [];
    for i := 0 to |sbom.licenses|
      invariant licenses == NonEmpty(sbom.licenses[..i])
    {
      assert sbom.licenses[..i + 1][..i] == sbom.licenses[..i];
      if sbom.licenses[i] != "" {
        licenses := licenses + [sbom.licenses[i]];
      }
    }
    assert sbom.licenses[..|sbom.licenses|] == sbom.licenses;
    view := SbomView(sbom.present, StableSort(Self, licenses));
  }

  ghost function IdentityViewOf(lib: Libraries, ev: Evidence, roots: TrustRoots): IdentityView {
    match ev.identity
    case None => IdentityView(false, false, "", "", false)
    case Some(id) =>
      var r := lib.verifyIdentity(id, ev.artifact, roots);
      IdentityView(true, r.verified, r.spiffeID, r.trustDomain, r.bindingMatch)
  }

  /** The views a build presents to the policy for this evidence. */
  ghost predicate AreViewsOf(build: Build, lib: Libraries, ev: Evidence, roots: TrustRoots, v: Views) {
    && IsFoldOf(SignatureResults(build, lib, ev, roots), v.signature)
    && (exists slots :: PresentsSlots(lib, ev, slots, v))
    && v.identity == IdentityViewOf(lib, ev, roots)
    && v.findings == ev.findings
  }

  ghost predicate PresentsSlots(lib: Libraries, ev: Evidence, slots: Slots, v: Views) {
    && AreSlotsOf(lib, ev.artifact, ev.attestations, slots)
    && v.slsa == SlsaView(slots.slsa.verified, slots.slsa.builderID, slots.slsa.buildLevel,
                          slots.slsa.subjectDigestMatch)
    && v.sbom == SbomViewOf(slots.sbom)
    && v.vex.present == slots.vex.present
    && Lists(v.vex.affectedCVEs, AffectedSet(slots.vex))
  }

  method ProjectViews(build: Build, lib: Libraries, ev: Evidence, roots: TrustRoots) returns (v: Views)
    ensures AreViewsOf(build, lib, ev, roots, v)
  {
    var sigView := FoldSignatures(build, lib, ev, roots);
    var slots := RoutePredicates(lib, ev);
    var idResult := IdentityResult(false, "", "", false);
    if ev.identity.Some? {
      idResult := lib.verifyIdentity(ev.identity.value, ev.artifact, roots);
    }
    var slsaView :=
        SlsaView(slots.slsa.verified, slots.slsa.builderID, slots.slsa.buildLevel, slots.slsa.subjectDigestMatch);
    var sbomView := ProjectSbom(slots.sbom);
    var vexView := ProjectVex(slots.vex);
    var idView := IdentityView(ev.identity.Some?, idResult.verified, idResult.spiffeID, idResult.trustDomain,
        idResult.bindingMatch);
    v := Views(sigView, slsaView, sbomView, vexView, idView, ev.findings);
    assert PresentsSlots(lib, ev, slots, v);
  }

  // --- Step 5 -------------------------------------------------------------------------

  datatype EvidenceSummary = EvidenceSummary(
    artifact: ArtifactRef, attestationTypes: seq<string>, identityPresent: bool, spiffeID: string)

  // decidedAt is the injected clock's answer.
  datatype Decision = Decision(
    result: Result, policy: string, reasons: seq<Reason>, evidence: EvidenceSummary, decidedAt: int)

  // The summary lists what the evidence claims about itself, in order.
  ghost predicate IsSummaryOf(ev: Evidence, summary: EvidenceSummary) {
    && summary.artifact == ev.artifact
    && |summary.attestationTypes| == |ev.attestations|
    && (forall i | 0 <= i < |ev.attestations| :: summary.attestationTypes[i] == ev.attestations[i].predicateType)
    && summary.identityPresent == ev.identity.Some?
    && summary.spiffeID == (if ev.identity.Some? then ev.identity.value.spiffeID else "")
  }

  method BuildSummary(ev: Evidence) returns (summary: EvidenceSummary)
    ensures IsSummaryOf(ev, summary)
  {
    var types := new string[|ev.attestations|](_ => "");
    for i := 0 to |ev.attestations|
      invariant forall k | 0 <= k < i :: types[k] == ev.attestations[k].predicateType
    {
      types[i] := ev.attestations[i].predicateType;
    }
    var spiffeID := "";
    var identityPresent := ev.identity.Some?;
    if identityPresent {
      spiffeID := ev.identity.value.spiffeID;
    }
    summary := EvidenceSummary(ev.artifact, types[..], identityPresent, spiffeID);
  }

  /** A decision the engine may return: the policy's answer on the views of the evidence. */
  ghost predicate MayDecide(build: Build, lib: Libraries, ev: Evidence, pol: Policy, roots: TrustRoots, d: Decision) {
    && d.policy == pol.name + "@" + pol.version
    && IsSummaryOf(ev, d.evidence)
    && exists v :: AreViewsOf(build, lib, ev, roots, v) && IsDecision(pol, v, d.result, d.reasons)
  }

  method Evaluate(build: Build, lib: Libraries, ev: Evidence, pol: Policy, roots: TrustRoots, now: int)
    returns (d: Decision)
    ensures MayDecide(build, lib, ev, pol, roots, d) && d.decidedAt == now
  {
    hide AreViewsOf, IsDecision;
    var summary := BuildSummary(ev);
    var v := ProjectViews(build, lib, ev, roots);
    var result, reasons := EvaluatePolicy(pol, v);
    d := Decision(result, pol.name + "@" + pol.version, reasons, summary, now);
  }
}
