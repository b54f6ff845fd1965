/** EvaluatePolicy (pkg/core/policy/evaluate.go): one reason per configured check, sorted
    by code, and a result that depends on the mode and on whether a check failed. */
module PolicyEval {
  import opened Prelude
  import opened Ordering
  import opened Policies
  import Glob

  // --- What each code must say, whatever order the checks run in ---------------------

  predicate SignatureRequested(rule: SignatureRule) {
    rule.required || rule.rekorRequired || rule.keyless.Some?
  }

  predicate SlsaInScope(rule: SlsaRule) {
    rule.minLevel > 0 || rule.allowedBuilders != []
  }

  ghost predicate KeylessMatches(rule: KeylessRule, v: SignatureView) {
    v.issuer == rule.issuer && Glob.GlobAccepts(rule.identityPattern, v.subjectIdentity)
  }

  ghost predicate BuilderAllowed(builders: seq<string>, id: string) {
    exists p | p in builders :: Glob.GlobAccepts(p, id)
  }

  ghost predicate IdentityVerified(v: IdentityView) {
    v.present && v.verified
  }

  ghost predicate IdentityMatches(rule: IdentityRule, v: IdentityView) {
    && (rule.trustDomain == "" || v.trustDomain == rule.trustDomain)
    && (rule.idPattern == "" || Glob.GlobAccepts(rule.idPattern, v.spiffeID))
  }

  predicate FindingsGated(rule: FindingsRule) {
    rule.forbiddenCodes != [] || rule.maxSeverity != ""
  }

  predicate Forbidden(rule: FindingsRule, f: Finding) {
    f.code in rule.forbiddenCodes
  }

  ghost predicate TooSevere(rule: FindingsRule, f: Finding) {
    Exceeds(rule.maxSeverity, f.severity)
  }

  ghost predicate FindingsOk(rule: FindingsRule, findings: seq<Finding>) {
    forall f | f in findings :: !Forbidden(rule, f) && !TooSevere(rule, f)
  }

  ghost function FindingAdds(code: Code, rule: FindingsRule, f: Finding): seq<Reason> {
    if (code == FindingsForbiddenCodePresent && Forbidden(rule, f))
        || (code == FindingsSeverityExceeded && TooSevere(rule, f))
    then [Reason(code, f.severity, f.code, false)]
    else []
  }

  // One violation per offending finding, in finding order.
  ghost function Violations(code: Code, rule: FindingsRule, findings: seq<Finding>): seq<Reason> {
    if findings == [] then []
    else Violations(code, rule, findings[..|findings| - 1]) + FindingAdds(code, rule, findings[|findings| - 1])
  }

  ghost function Check(asked: bool, code: Code, severity: string, met: bool): seq<Reason> {
    if asked then [Reason(code, severity, "", met)] else []
  }

  /** The reasons a decision carries under one code, read off the policy and the views. */
  ghost function Verdict(pol: Policy, v: Views, code: Code): seq<Reason> {
    match code
    case SignatureVerificationUnavailable =>
      Check(SignatureRequested(pol.signature) && !v.signature.available, code, CRITICAL, false)
    case SignatureRequiredMissing =>
      Check(v.signature.available && pol.signature.required, code, HIGH, v.signature.verified)
    case SignatureIdentityMismatch =>
      Check(v.signature.available && pol.signature.keyless.Some? && v.signature.verified, code, HIGH,
            pol.signature.keyless.Some? && KeylessMatches(pol.signature.keyless.value, v.signature))
    case RekorRequiredMissing =>
      Check(v.signature.available && pol.signature.rekorRequired, code, HIGH, v.signature.rekorLogged)
    case SlsaLevelBelowThreshold =>
      Check(pol.slsa.minLevel > 0, code, HIGH, v.slsa.buildLevel >= pol.slsa.minLevel)
    case SlsaBuilderNotAllowed =>
      Check(pol.slsa.allowedBuilders != [], code, HIGH, BuilderAllowed(pol.slsa.allowedBuilders, v.slsa.builderID))
    case SubjectDigestMismatch =>
      Check(SlsaInScope(pol.slsa), code, CRITICAL, v.slsa.subjectDigestMatch)
    case VexUnmitigatedCritical =>
      Check(pol.vex.maxUnmitigatedSeverity != "", code, CRITICAL, v.vex.affectedCVEs == [])
    case SbomRequiredMissing =>
      Check(pol.sbom.required, code, HIGH, v.sbom.present)
    case SbomDisallowedLicense =>
      Check(pol.sbom.disallowedLicenses != [], code, MEDIUM,
            forall l | l in v.sbom.licenses :: l !in pol.sbom.disallowedLicenses)
    case IdentityRequiredMissing =>
      Check(pol.identity.required, code, HIGH, IdentityVerified(v.identity))
    case IdentityTrustDomainMismatch =>
      Check(pol.identity.required && IdentityVerified(v.identity)
            && (pol.identity.trustDomain != "" || pol.identity.idPattern != ""), code, HIGH,
            IdentityMatches(pol.identity, v.identity))
    case IdentityBindingMismatch =>
      Check(pol.identity.required && IdentityVerified(v.identity), code, HIGH, v.identity.bindingMatch)
    case _ => FindingsVerdict(pol.findings, v.findings, code)
  }

  ghost function FindingsVerdict(rule: FindingsRule, findings: seq<Finding>, code: Code): seq<Reason> {
    match code
    case FindingsForbiddenCodePresent => Violations(code, rule, findings)
    case FindingsSeverityExceeded => Violations(code, rule, findings)
    case FindingsWithinPolicy => Check(FindingsGated(rule) && FindingsOk(rule, findings), code, LOW, true)
    case _ => []
  }

  ghost function WithCode(code: Code, reasons: seq<Reason>): seq<Reason> {
    if reasons == [] then []
    else
      var r := reasons[|reasons| - 1];
      WithCode(code, reasons[..|reasons| - 1]) + (if r.code == code then [r] else [])
  }

  ghost predicate Failed(reasons: seq<Reason>) {
    exists r | r in reasons :: !r.met
  }

  ghost function Outcome(mode: Mode, failed: bool): Result {
    match mode
    case Audit => Audited
    case Warn => Allow
    case _ => if failed then Deny else Allow
  }

  /** What EvaluatePolicy promises about its two results. PolicyTheorems shows that it
      leaves no choice. */
  ghost predicate IsDecision(pol: Policy, v: Views, result: Result, reasons: seq<Reason>) {
    && SortedBy(ReasonKey, reasons)
    && (forall c :: WithCode(c, reasons) == Verdict(pol, v, c))
    && result == Outcome(pol.mode, Failed(reasons))
  }

  // --- The checks, in source order ----------------------------------------------------

  // The reasons under this code are now the verdict; no other code gained or lost any.
  ghost predicate Settles(pol: Policy, v: Views, code: Code, before: seq<Reason>, reasons: seq<Reason>) {
    && WithCode(code, reasons) == Verdict(pol, v, code)
    && forall c | c != code :: WithCode(c, reasons) == WithCode(c, before)
  }

  lemma NoReasons()
    ensures forall c :: WithCode(c, []) == []
  {
  }

  // The emit closure.
  method Emit(reasons: seq<Reason>, code: Code, severity: string, met: bool, about: string := "")
    returns (after: seq<Reason>)
    ensures WithCode(code, after) == WithCode(code, reasons) + [Reason(code, severity, about, met)]
    ensures forall c | c != code :: WithCode(c, after) == WithCode(c, reasons)
  {
    after := reasons + [Reason(code, severity, about, met)];
    assert after[..|after| - 1] == reasons;
  }

  method CheckSignatureRequired(pol: Policy, v: Views, before: seq<Reason>) returns (reasons: seq<Reason>)
    requires v.signature.available && WithCode(SignatureRequiredMissing, before) == []
    ensures Settles(pol, v, SignatureRequiredMissing, before, reasons)
  {
    reasons := before;
    if pol.signature.required {
      if !v.signature.verified {
        reasons := Emit(reasons, SignatureRequiredMissing, HIGH, false);
      } else {
        reasons := Emit(reasons, SignatureRequiredMissing, HIGH, true);
      }
    }
  }

  method CheckKeyless(pol: Policy, v: Views, before: seq<Reason>) returns (reasons: seq<Reason>)
    requires v.signature.available && WithCode(SignatureIdentityMismatch, before) == []
    ensures Settles(pol, v, SignatureIdentityMismatch, before, reasons)
  {
    var rule, sig := pol.signature.keyless, v.signature;
    reasons := before;
    if rule.Some? {
      if sig.verified {
        var issuerOK := sig.issuer == rule.value.issuer;
        var patternOK := Glob.GlobMatch(rule.value.identityPattern, sig.subjectIdentity);
        if !issuerOK || !patternOK {
          reasons := Emit(reasons, SignatureIdentityMismatch, HIGH, false);
        } else {
          reasons := Emit(reasons, SignatureIdentityMismatch, HIGH, true);
        }
      }
    }
  }

  method CheckRekor(pol: Policy, v: Views, before: seq<Reason>) returns (reasons: seq<Reason>)
    requires v.signature.available && WithCode(RekorRequiredMissing, before) == []
    ensures Settles(pol, v, RekorRequiredMissing, before, reasons)
  {
    reasons := before;
    if pol.signature.rekorRequired {
      if !v.signature.rekorLogged {
        reasons := Emit(reasons, RekorRequiredMissing, HIGH, false);
      } else {
        reasons := Emit(reasons, RekorRequiredMissing, HIGH, true);
      }
    }
  }

  ghost predicate IsSignatureCode(c: Code) {
    || c == SignatureVerificationUnavailable
    || c == SignatureRequiredMissing
    || c == SignatureIdentityMismatch
    || c == RekorRequiredMissing
  }

  method CheckSignature(pol: Policy, v: Views) returns (reasons: seq<Reason>)
    ensures forall c :: WithCode(c, reasons) == if IsSignatureCode(c) then Verdict(pol, v, c) else []
  {
    hide WithCode, KeylessMatches;
    reasons := [];
    NoReasons();
    var sigChecksRequested :=
      pol.signature.required || pol.signature.rekorRequired || pol.signature.keyless.Some?;
    if sigChecksRequested && !v.signature.available {
      reasons := Emit(reasons, SignatureVerificationUnavailable, CRITICAL, false);
    } else if v.signature.available {
      var required := CheckSignatureRequired(pol, v, reasons);
      var keyless := CheckKeyless(pol, v, required);
      reasons := CheckRekor(pol, v, keyless);
    }
  }

  method CheckLevel(pol: Policy, v: Views, before: seq<Reason>) returns (reasons: seq<Reason>)
    requires WithCode(SlsaLevelBelowThreshold, before) == []
    ensures Settles(pol, v, SlsaLevelBelowThreshold, before, reasons)
  {
    reasons := before;
    if pol.slsa.minLevel > 0 {
      if v.slsa.buildLevel < pol.slsa.minLevel {
        reasons := Emit(reasons, SlsaLevelBelowThreshold, HIGH, false);
      } else {
        reasons := Emit(reasons, SlsaLevelBelowThreshold, HIGH, true);
      }
    }
  }

  method CheckBuilder(pol: Policy, v: Views, before: seq<Reason>) returns (reasons: seq<Reason>)
    requires WithCode(SlsaBuilderNotAllowed, before) == []
    ensures Settles(pol, v, SlsaBuilderNotAllowed, before, reasons)
  {
    reasons := before;
    if |pol.slsa.allowedBuilders| > 0 {
      var allowed := Glob.AnyGlobMatch(pol.slsa.allowedBuilders, v.slsa.builderID);
      if !allowed {
        reasons := Emit(reasons, SlsaBuilderNotAllowed, HIGH, false);
      } else {
        reasons := Emit(reasons, SlsaBuilderNotAllowed, HIGH, true);
      }
    }
  }

  method CheckSubject(pol: Policy, v: Views, before: seq<Reason>) returns (reasons: seq<Reason>)
    requires WithCode(SubjectDigestMismatch, before) == []
    ensures Settles(pol, v, SubjectDigestMismatch, before, reasons)
  {
    reasons := before;
    var slsaInScope := pol.slsa.minLevel > 0 || |pol.slsa.allowedBuilders| > 0;
    if slsaInScope {
      if !v.slsa.subjectDigestMatch {
        reasons := Emit(reasons, SubjectDigestMismatch, CRITICAL, false);
      } else {
        reasons := Emit(reasons, SubjectDigestMismatch, CRITICAL, true);
      }
    }
  }

  ghost predicate IsSlsaCode(c: Code) {
    c == SlsaLevelBelowThreshold || c == SlsaBuilderNotAllowed || c == SubjectDigestMismatch
  }

  method CheckSlsa(pol: Policy, v: Views, before: seq<Reason>) returns (reasons: seq<Reason>)
    requires forall c | IsSlsaCode(c) :: WithCode(c, before) == []
    ensures forall c :: WithCode(c, reasons) == if IsSlsaCode(c) then Verdict(pol, v, c) else WithCode(c, before)
  {
    hide Verdict, WithCode;
    var level := CheckLevel(pol, v, before);
    var builder := CheckBuilder(pol, v, level);
    reasons := CheckSubject(pol, v, builder);
  }

  method CheckVex(pol: Policy, v: Views, before: seq<Reason>) returns (reasons: seq<Reason>)
    requires WithCode(VexUnmitigatedCritical, before) == []
    ensures Settles(pol, v, VexUnmitigatedCritical, before, reasons)
  {
    reasons := before;
    if pol.vex.maxUnmitigatedSeverity != "" {
      if |v.vex.affectedCVEs| > 0 {
        reasons := Emit(reasons, VexUnmitigatedCritical, CRITICAL, false);
      } else {
        reasons := Emit(reasons, VexUnmitigatedCritical, CRITICAL, true);
      }
    }
  }

  method CheckSbom(pol: Policy, v: Views, before: seq<Reason>) returns (reasons: seq<Reason>)
    requires WithCode(SbomRequiredMissing, before) == []
    ensures Settles(pol, v, SbomRequiredMissing, before, reasons)
  {
    reasons := before;
    if pol.sbom.required {
      if !v.sbom.present {
        reasons := Emit(reasons, SbomRequiredMissing, HIGH, false);
      } else {
        reasons := Emit(reasons, SbomRequiredMissing, HIGH, true);
      }
    }
  }

  method CheckLicenses(pol: Policy, v: Views, before: seq<Reason>) returns (reasons: seq<Reason>)
    requires WithCode(SbomDisallowedLicense, before) == []
    ensures Settles(pol, v, SbomDisallowedLicense, before, reasons)
  {
    reasons := before;
    if |pol.sbom.disallowedLicenses| > 0 {
      var common := Intersect(v.sbom.licenses, pol.sbom.disallowedLicenses);
      if |common| > 0 {
        assert common[0] in common;
        reasons := Emit(reasons, SbomDisallowedLicense, MEDIUM, false);
      } else {
        reasons := Emit(reasons, SbomDisallowedLicense, MEDIUM, true);
      }
    }
  }

  ghost predicate IsDocumentCode(c: Code) {
    c == VexUnmitigatedCritical || c == SbomRequiredMissing || c == SbomDisallowedLicense
  }

  method CheckDocuments(pol: Policy, v: Views, before: seq<Reason>) returns (reasons: seq<Reason>)
    requires forall c | IsDocumentCode(c) :: WithCode(c, before) == []
    ensures forall c :: WithCode(c, reasons) == if IsDocumentCode(c) then Verdict(pol, v, c) else WithCode(c, before)
  {
    hide Verdict, WithCode;
    var vex := CheckVex(pol, v, before);
    var sbom := CheckSbom(pol, v, vex);
    reasons := CheckLicenses(pol, v, sbom);
  }

  method Intersect(a: seq<string>, b: seq<string>) returns (result: seq<string>)
    ensures forall x :: x in result <==> x in a && x in b
  {
    var members: map<string, ()> := map[];
    for i := 0 to |b|
      invariant forall x :: x in members <==> x in b[..i]
    {
      members := members[b[i] := ()];
    }
    result := [];
    for i := 0 to |a|
      invariant forall x :: x in result <==> x in a[..i] && x in b
    {
      if a[i] in members {
        result := result + [a[i]];
      }
    }
  }

  method CheckIdentityPresent(pol: Policy, v: Views, before: seq<Reason>) returns (reasons: seq<Reason>)
    requires pol.identity.required && WithCode(IdentityRequiredMissing, before) == []
    ensures Settles(pol, v, IdentityRequiredMissing, before, reasons)
  {
    reasons := Emit(before, IdentityRequiredMissing, HIGH, v.identity.present && v.identity.verified);
  }

  method CheckTrustDomain(pol: Policy, v: Views, before: seq<Reason>) returns (reasons: seq<Reason>)
    requires pol.identity.required && IdentityVerified(v.identity)
    requires WithCode(IdentityTrustDomainMismatch, before) == []
    ensures Settles(pol, v, IdentityTrustDomainMismatch, before, reasons)
  {
    var rule, id := pol.identity, v.identity;
    reasons := before;
    if rule.trustDomain != "" || rule.idPattern != "" {
      var trustOK := rule.trustDomain == "" || id.trustDomain == rule.trustDomain;
      var patternOK := rule.idPattern == "";
      if !patternOK {
        patternOK := Glob.GlobMatch(rule.idPattern, id.spiffeID);
      }
      var domainMatch := trustOK && patternOK;
      reasons := Emit(reasons, IdentityTrustDomainMismatch, HIGH, domainMatch);
    }
  }

  ghost predicate IsIdentityCode(c: Code) {
    c == IdentityRequiredMissing || c == IdentityTrustDomainMismatch || c == IdentityBindingMismatch
  }

  method CheckIdentity(pol: Policy, v: Views, before: seq<Reason>) returns (reasons: seq<Reason>)
    requires forall c | IsIdentityCode(c) :: WithCode(c, before) == []
    ensures forall c :: WithCode(c, reasons) == if IsIdentityCode(c) then Verdict(pol, v, c) else WithCode(c, before)
  {
    reasons := before;
    if pol.identity.required {
      var present := CheckIdentityPresent(pol, v, reasons);
      reasons := present;
      var identityOK := v.identity.present && v.identity.verified;
      if identityOK {
        var domain := CheckTrustDomain(pol, v, reasons);
        reasons := Emit(domain, IdentityBindingMismatch, HIGH, v.identity.bindingMatch);
      }
    }
  }

  // The loop body: what one finding adds.
  method EvaluateFinding(rule: FindingsRule, forbidden: map<string, bool>, max: nat, f: Finding, before: seq<Reason>)
    returns (reasons: seq<Reason>, violated: bool)
    requires forall x :: x in forbidden <==> x in rule.forbiddenCodes
    requires forall x | x in forbidden :: forbidden[x]
    requires max == SeverityRank(rule.maxSeverity)
    ensures violated <==> Forbidden(rule, f) || TooSevere(rule, f)
    ensures forall c :: WithCode(c, reasons) == WithCode(c, before) + FindingAdds(c, rule, f)
  {
    hide WithCode, Exceeds, SeverityRank;
    RanksCompare(rule.maxSeverity, f.severity);
    reasons, violated := before, false;
    if f.code in forbidden && forbidden[f.code] {
      violated := true;
      reasons := Emit(reasons, FindingsForbiddenCodePresent, f.severity, false, f.code);
    }
    if max > 0 && SeverityRank(f.severity) > max {
      violated := true;
      reasons := Emit(reasons, FindingsSeverityExceeded, f.severity, false, f.code);
    }
  }

  method EvaluateFindings(rule: FindingsRule, findings: seq<Finding>) returns (reasons: seq<Reason>)
    ensures forall c :: WithCode(c, reasons) == FindingsVerdict(rule, findings, c)
  {
    hide WithCode, Forbidden, TooSevere, FindingsOk, FindingAdds, SeverityRank;
    reasons := [];
    NoReasons();
    NothingGatesNothing(rule);
    if |rule.forbiddenCodes| == 0 && rule.maxSeverity == "" {
      UngatedNeverViolates(rule, findings);
      return;
    }
    var forbidden: map<string, bool> := map[];
    for i := 0 to |rule.forbiddenCodes|
      invariant forall x :: x in forbidden <==> x in rule.forbiddenCodes[..i]
      invariant forall x | x in forbidden :: forbidden[x]
    {
      forbidden := forbidden[rule.forbiddenCodes[i] := true];
    }
    var violated := false;
    var max := SeverityRank(rule.maxSeverity);
    for i := 0 to |findings|
      invariant violated <==> !FindingsOk(rule, findings[..i])
      invariant forall c :: WithCode(c, reasons) == Violations(c, rule, findings[..i])
    {
      assert findings[..i + 1] == findings[..i] + [findings[i]];
      FindingsOkAppend(rule, findings[..i], findings[i]);
      var hit;
      reasons, hit := EvaluateFinding(rule, forbidden, max, findings[i], reasons);
      violated := violated || hit;
    }
    assert findings[..|findings|] == findings;
    NothingElseViolates(rule, findings);
    if !violated {
      reasons := Emit(reasons, FindingsWithinPolicy, LOW, true);
    }
  }

  lemma NothingGatesNothing(rule: FindingsRule)
    ensures FindingsOk(rule, [])
  {
  }

  lemma FindingsOkAppend(rule: FindingsRule, findings: seq<Finding>, f: Finding)
    ensures FindingsOk(rule, findings + [f])
       <==> FindingsOk(rule, findings) && !Forbidden(rule, f) && !TooSevere(rule, f)
    ensures (findings + [f])[..|findings|] == findings
  {
    assert forall g | g in findings :: g in findings + [f];
    assert (findings + [f])[|findings|] == f;
  }

  // An empty rule: "" is no severity, so findings are carried but never gate.
  lemma {:induction false} UngatedNeverViolates(rule: FindingsRule, findings: seq<Finding>)
    requires !FindingsGated(rule)
    ensures forall c :: Violations(c, rule, findings) == []
  {
    if findings != [] {
      UngatedNeverViolates(rule, findings[..|findings| - 1]);
      assert ToLower("") == "";
    }
  }

  lemma {:induction false} NothingElseViolates(rule: FindingsRule, findings: seq<Finding>)
    ensures forall c | c != FindingsForbiddenCodePresent && c != FindingsSeverityExceeded ::
              Violations(c, rule, findings) == []
  {
    if findings != [] {
      NothingElseViolates(rule, findings[..|findings| - 1]);
    }
  }

  lemma {:induction false} WithCodeAppend(code: Code, xs: seq<Reason>, ys: seq<Reason>)
    ensures WithCode(code, xs + ys) == WithCode(code, xs) + WithCode(code, ys)
  {
    if ys == [] {
      assert xs + ys == xs;
    } else {
      assert (xs + ys)[..|xs + ys| - 1] == xs + ys[..|ys| - 1];
      WithCodeAppend(code, xs, ys[..|ys| - 1]);
    }
  }

  // WithCode walks from the back, the sort's WithKey from the front.
  lemma {:induction false} WithCodeIsWithKey(code: Code, reasons: seq<Reason>)
    ensures WithCode(code, reasons) == WithKey(ReasonKey, Text(code), reasons)
  {
    if reasons != [] {
      var front, last := reasons[..|reasons| - 1], reasons[|reasons| - 1];
      assert reasons == front + [last];
      WithCodeIsWithKey(code, front);
      WithKeyAppend(ReasonKey, Text(code), front, [last]);
      if ReasonKey(last) == Text(code) {
        TextIsInjective(last.code, code);
      }
    }
  }

  method RunChecks(pol: Policy, v: Views) returns (reasons: seq<Reason>)
    ensures forall c :: WithCode(c, reasons) == if IsFindingsCode(c) then [] else Verdict(pol, v, c)
  {
    hide Verdict, WithCode;
    var signature := CheckSignature(pol, v);
    var slsa := CheckSlsa(pol, v, signature);
    var documents := CheckDocuments(pol, v, slsa);
    reasons := CheckIdentity(pol, v, documents);
  }

  ghost predicate IsFindingsCode(c: Code) {
    c == FindingsForbiddenCodePresent || c == FindingsSeverityExceeded || c == FindingsWithinPolicy
  }

  method SortReasons(pol: Policy, v: Views, emitted: seq<Reason>) returns (reasons: seq<Reason>)
    requires forall c :: WithCode(c, emitted) == Verdict(pol, v, c)
    ensures SortedBy(ReasonKey, reasons)
    ensures forall c :: WithCode(c, reasons) == Verdict(pol, v, c)
    ensures multiset(reasons) == multiset(emitted)
  {
    reasons := StableSort(ReasonKey, emitted);
    StableSortIsStableSort(ReasonKey, emitted);
    forall c ensures WithCode(c, reasons) == Verdict(pol, v, c) {
      WithCodeIsWithKey(c, reasons);
      WithCodeIsWithKey(c, emitted);
    }
  }

  method EvaluatePolicy(pol: Policy, v: Views) returns (result: Result, reasons: seq<Reason>)
    ensures IsDecision(pol, v, result, reasons)
  {
    var checked := RunChecks(pol, v);
    var more := EvaluateFindings(pol.findings, v.findings);
    reasons := SortReasons(pol, v, checked + more) by {
      forall c ensures WithCode(c, checked + more) == Verdict(pol, v, c) {
        WithCodeAppend(c, checked, more);
      }
    }

    var failed := false;
    for i := 0 to |reasons|
      invariant !failed && !Failed(reasons[..i])
    {
      if !reasons[i].met {
        failed := true;
        break;
      }
    }
    assert reasons[..|reasons|] == reasons;
    match pol.mode
    case Enforce => result := if failed then Deny else Allow;
    case Audit => result := Audited;
    case Warn => result := Allow;
    case OtherMode(_) => result := if failed then Deny else Allow;
  }
}
