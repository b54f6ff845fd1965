/** What follows from the contract of EvaluatePolicy: which evidence is allowed, that the
    answer is unique, and that a weaker policy never denies what a stricter one allowed. */
module PolicyTheorems {
  import opened Prelude
  import opened Ordering
  import opened Policies
  import opened PolicyEval
  import Glob

  // --- Compliance, stated without reasons or codes ------------------------------------

  ghost predicate SignatureOk(rule: SignatureRule, v: SignatureView) {
    SignatureRequested(rule) ==>
      && v.available
      && (rule.required ==> v.verified)
      && (rule.rekorRequired ==> v.rekorLogged)
      && (rule.keyless.Some? && v.verified ==> KeylessMatches(rule.keyless.value, v))
  }

  ghost predicate SlsaOk(rule: SlsaRule, v: SlsaView) {
    SlsaInScope(rule) ==>
      && v.subjectDigestMatch
      && (rule.minLevel > 0 ==> v.buildLevel >= rule.minLevel)
      && (rule.allowedBuilders != [] ==> BuilderAllowed(rule.allowedBuilders, v.builderID))
  }

  ghost predicate VexOk(rule: VexRule, v: VexView) {
    rule.maxUnmitigatedSeverity != "" ==> v.affectedCVEs == []
  }

  ghost predicate SbomOk(rule: SbomRule, v: SbomView) {
    && (rule.required ==> v.present)
    && forall l | l in v.licenses :: l !in rule.disallowedLicenses
  }

  ghost predicate IdentityOk(rule: IdentityRule, v: IdentityView) {
    rule.required ==> IdentityVerified(v) && v.bindingMatch && IdentityMatches(rule, v)
  }

  ghost predicate Compliant(pol: Policy, v: Views) {
    && SignatureOk(pol.signature, v.signature)
    && SlsaOk(pol.slsa, v.slsa)
    && VexOk(pol.vex, v.vex)
    && SbomOk(pol.sbom, v.sbom)
    && IdentityOk(pol.identity, v.identity)
    && FindingsOk(pol.findings, v.findings)
  }

  ghost predicate Enforces(mode: Mode) {
    mode.Enforce? || mode.OtherMode?
  }

  // --- Allow if and only if compliant -------------------------------------------------

  ghost predicate Passes(reasons: seq<Reason>) {
    forall r | r in reasons :: r.met
  }

  lemma {:induction false} FoundUnderItsCode(reasons: seq<Reason>, r: Reason)
    ensures r in reasons <==> r in WithCode(r.code, reasons)
  {
    if reasons != [] {
      FoundUnderItsCode(reasons[..|reasons| - 1], r);
      assert reasons == reasons[..|reasons| - 1] + [reasons[|reasons| - 1]];
    }
  }

  lemma {:induction false} OnlyItsOwnCode(c: Code, reasons: seq<Reason>)
    ensures forall r | r in WithCode(c, reasons) :: r.code == c
  {
    if reasons != [] {
      OnlyItsOwnCode(c, reasons[..|reasons| - 1]);
    }
  }

  ghost predicate PassesUnder(c: Code, reasons: seq<Reason>) {
    Passes(WithCode(c, reasons))
  }

  lemma PassesCodewise(reasons: seq<Reason>)
    ensures !Failed(reasons) <==> forall c :: PassesUnder(c, reasons)
  {
    if !Failed(reasons) {
      forall c, r | r in WithCode(c, reasons) ensures r.met {
        OnlyItsOwnCode(c, reasons);
        FoundUnderItsCode(reasons, r);
      }
    } else {
      var r :| r in reasons && !r.met;
      FoundUnderItsCode(reasons, r);
      assert !PassesUnder(r.code, reasons);
    }
  }

  lemma {:induction false} ViolationsPass(c: Code, rule: FindingsRule, findings: seq<Finding>)
    ensures Passes(Violations(c, rule, findings)) <==> forall f | f in findings :: FindingAdds(c, rule, f) == []
  {
    if findings != [] {
      var front, last := findings[..|findings| - 1], findings[|findings| - 1];
      assert findings == front + [last];
      ViolationsPass(c, rule, front);
      if FindingAdds(c, rule, last) != [] {
        var r := FindingAdds(c, rule, last)[0];
        assert r in Violations(c, rule, findings) && !r.met;
      } else {
        assert Violations(c, rule, findings) == Violations(c, rule, front);
      }
    }
  }

  lemma FindingsPass(pol: Policy, v: Views)
    ensures (forall c | IsFindingsCode(c) :: Passes(Verdict(pol, v, c))) <==> FindingsOk(pol.findings, v.findings)
  {
    var rule, findings := pol.findings, v.findings;
    ViolationsPass(FindingsForbiddenCodePresent, rule, findings);
    ViolationsPass(FindingsSeverityExceeded, rule, findings);
    assert Passes(Verdict(pol, v, FindingsForbiddenCodePresent)) <==> forall f | f in findings :: !Forbidden(rule, f);
    assert Passes(Verdict(pol, v, FindingsSeverityExceeded)) <==> forall f | f in findings :: !TooSevere(rule, f);
    assert Passes(Verdict(pol, v, FindingsWithinPolicy));
  }

  // A check fails exactly when it was asked for and not met.
  lemma CheckPasses(asked: bool, c: Code, severity: string, met: bool)
    ensures Passes(Check(asked, c, severity, met)) <==> (asked ==> met)
  {
    if asked {
      assert Check(asked, c, severity, met)[0] == Reason(c, severity, "", met);
    }
  }

  lemma ChecksPass()
    ensures forall asked, c, severity, met :: Passes(Check(asked, c, severity, met)) <==> (asked ==> met)
  {
    forall asked, c, severity, met ensures Passes(Check(asked, c, severity, met)) <==> (asked ==> met) {
      CheckPasses(asked, c, severity, met);
    }
  }

  lemma SignaturePasses(pol: Policy, v: Views)
    ensures (forall c | IsSignatureCode(c) :: Passes(Verdict(pol, v, c))) <==> SignatureOk(pol.signature, v.signature)
  {
    hide Passes, Check;
    ChecksPass();
    assert Passes(Verdict(pol, v, SignatureVerificationUnavailable))
      <==> (SignatureRequested(pol.signature) ==> v.signature.available);
    assert Passes(Verdict(pol, v, SignatureRequiredMissing))
      <==> (v.signature.available && pol.signature.required ==> v.signature.verified);
    assert Passes(Verdict(pol, v, RekorRequiredMissing))
      <==> (v.signature.available && pol.signature.rekorRequired ==> v.signature.rekorLogged);
    assert Passes(Verdict(pol, v, SignatureIdentityMismatch))
      <==> (v.signature.available && pol.signature.keyless.Some? && v.signature.verified ==>
              KeylessMatches(pol.signature.keyless.value, v.signature));
  }

  lemma SlsaPasses(pol: Policy, v: Views)
    ensures (forall c | IsSlsaCode(c) :: Passes(Verdict(pol, v, c))) <==> SlsaOk(pol.slsa, v.slsa)
  {
    hide Passes, Check, BuilderAllowed;
    ChecksPass();
    assert Passes(Verdict(pol, v, SlsaLevelBelowThreshold))
      <==> (pol.slsa.minLevel > 0 ==> v.slsa.buildLevel >= pol.slsa.minLevel);
    assert Passes(Verdict(pol, v, SlsaBuilderNotAllowed))
      <==> (pol.slsa.allowedBuilders != [] ==> BuilderAllowed(pol.slsa.allowedBuilders, v.slsa.builderID));
    assert Passes(Verdict(pol, v, SubjectDigestMismatch)) <==> (SlsaInScope(pol.slsa) ==> v.slsa.subjectDigestMatch);
  }

  lemma DocumentsPass(pol: Policy, v: Views)
    ensures (forall c | IsDocumentCode(c) :: Passes(Verdict(pol, v, c)))
       <==> VexOk(pol.vex, v.vex) && SbomOk(pol.sbom, v.sbom)
  {
    hide Passes, Check;
    ChecksPass();
    assert Passes(Verdict(pol, v, VexUnmitigatedCritical)) <==> VexOk(pol.vex, v.vex);
    assert Passes(Verdict(pol, v, SbomRequiredMissing)) <==> (pol.sbom.required ==> v.sbom.present);
    assert Passes(Verdict(pol, v, SbomDisallowedLicense))
      <==> (forall l | l in v.sbom.licenses :: l !in pol.sbom.disallowedLicenses);
  }

  lemma IdentityPasses(pol: Policy, v: Views)
    ensures (forall c | IsIdentityCode(c) :: Passes(Verdict(pol, v, c))) <==> IdentityOk(pol.identity, v.identity)
  {
    hide Passes, Check;
    ChecksPass();
    var rule, id := pol.identity, v.identity;
    assert Passes(Verdict(pol, v, IdentityRequiredMissing)) <==> (rule.required ==> IdentityVerified(id));
    assert Passes(Verdict(pol, v, IdentityTrustDomainMismatch))
      <==> (rule.required && IdentityVerified(id) ==> IdentityMatches(rule, id));
    assert Passes(Verdict(pol, v, IdentityBindingMismatch))
      <==> (rule.required && IdentityVerified(id) ==> id.bindingMatch);
  }

  lemma VerdictsPass(pol: Policy, v: Views)
    ensures (forall c :: Passes(Verdict(pol, v, c))) <==> Compliant(pol, v)
  {
    hide Verdict, Passes, SignatureOk, SlsaOk, VexOk, SbomOk, IdentityOk, FindingsOk;
    SignaturePasses(pol, v);
    SlsaPasses(pol, v);
    DocumentsPass(pol, v);
    IdentityPasses(pol, v);
    FindingsPass(pol, v);
    assert forall c ::
        IsSignatureCode(c) || IsSlsaCode(c) || IsDocumentCode(c) || IsIdentityCode(c) || IsFindingsCode(c);
  }

  /** Under enforce, and under any mode that is not recognised, allow means compliant and
      deny means not compliant. Audit and warn never deny. */
  lemma AllowIffCompliant(pol: Policy, v: Views, result: Result, reasons: seq<Reason>)
    requires IsDecision(pol, v, result, reasons)
    ensures Enforces(pol.mode) ==> result == if Compliant(pol, v) then Allow else Deny
    ensures pol.mode.Audit? ==> result == Audited
    ensures pol.mode.Warn? ==> result == Allow
  {
    hide Verdict, Compliant, Passes, Failed;
    PassesCodewise(reasons);
    VerdictsPass(pol, v);
    forall c ensures PassesUnder(c, reasons) <==> Passes(Verdict(pol, v, c)) {
      assert WithCode(c, reasons) == Verdict(pol, v, c);
    }
  }

  // --- What findings do to a decision --------------------------------------------------

  lemma {:induction false} ViolationMembers(c: Code, rule: FindingsRule, findings: seq<Finding>, r: Reason)
    ensures r in Violations(c, rule, findings) <==> exists f | f in findings :: r in FindingAdds(c, rule, f)
  {
    hide FindingAdds;
    if findings != [] {
      var front, last := findings[..|findings| - 1], findings[|findings| - 1];
      assert findings == front + [last];
      ViolationMembers(c, rule, front, r);
    }
  }

  /** The severity gate and the code gate, end to end: a decision reports exactly the findings that
      are graver than the bound and exactly those with a forbidden code; it reports that all is
      within policy exactly if there is a gate and neither kind; under enforce either kind denies. */
  lemma FindingsAreGated(pol: Policy, v: Views, result: Result, reasons: seq<Reason>)
    requires IsDecision(pol, v, result, reasons)
    ensures var rule := pol.findings;
            var graver := (f: Finding) => Exceeds(rule.maxSeverity, f.severity);
            && (forall r: Reason | r.code == FindingsSeverityExceeded ::
                  r in reasons <==> exists f | f in v.findings
                      && graver(f) :: r == Reason(r.code, f.severity, f.code, false))
            && (forall r: Reason | r.code == FindingsForbiddenCodePresent ::
                  r in reasons
                  <==> exists f | f in v.findings && f.code in rule.forbiddenCodes ::
                         r == Reason(r.code, f.severity, f.code, false))
            && (Reason(FindingsWithinPolicy, "low", "", true) in reasons
                <==> (rule.forbiddenCodes != [] || rule.maxSeverity != "")
                     && forall f | f in v.findings :: !graver(f) && f.code !in rule.forbiddenCodes)
            && (Enforces(pol.mode) && (exists f | f in v.findings :: graver(f) || f.code in rule.forbiddenCodes) ==>
                  result == Deny)
  {
    hide Exceeds, WithCode, Violations;
    forall r ensures r in reasons <==> r in Verdict(pol, v, r.code) {
      FoundUnderItsCode(reasons, r);
      assert WithCode(r.code, reasons) == Verdict(pol, v, r.code);
    }
    forall r: Reason | r.code == FindingsSeverityExceeded || r.code == FindingsForbiddenCodePresent
      ensures r in reasons <==> exists f | f in v.findings :: r in FindingAdds(r.code, pol.findings, f)
    {
      ViolationMembers(r.code, pol.findings, v.findings, r);
    }
    AllowIffCompliant(pol, v, result, reasons);
  }

  // --- One answer ---------------------------------------------------------------------

  // Every key of a reason is the text of its code, so the code classes are the key classes.
  lemma {:induction false} SameUnderEveryKey(key: string, xs: seq<Reason>, ys: seq<Reason>)
    requires forall c :: WithCode(c, xs) == WithCode(c, ys)
    ensures WithKey(ReasonKey, key, xs) == WithKey(ReasonKey, key, ys)
  {
    if c :| Text(c) == key {
      WithCodeIsWithKey(c, xs);
      WithCodeIsWithKey(c, ys);
    } else {
      NoSuchKey(key, xs);
      NoSuchKey(key, ys);
    }
  }

  lemma {:induction false} NoSuchKey(key: string, xs: seq<Reason>)
    requires forall c :: Text(c) != key
    ensures WithKey(ReasonKey, key, xs) == []
  {
    if xs != [] {
      NoSuchKey(key, xs[1..]);
    }
  }

  /** The contract leaves no freedom: two views that agree on every verdict get the same
      result and the same reasons in the same order. */
  lemma DecisionIsUnique(
    pol: Policy, v: Views, v': Views, result: Result, reasons: seq<Reason>, result': Result, reasons': seq<Reason>)
    requires forall c :: Verdict(pol, v, c) == Verdict(pol, v', c)
    requires IsDecision(pol, v, result, reasons) && IsDecision(pol, v', result', reasons')
    ensures result == result' && reasons == reasons'
  {
    hide Verdict, WithCode, WithKey;
    forall k ensures WithKey(ReasonKey, k, reasons) == WithKey(ReasonKey, k, reasons') {
      SameUnderEveryKey(k, reasons, reasons');
    }
    SortedIsDetermined(ReasonKey, reasons, reasons');
  }

  /** Only the two findings-violation codes can occur twice. */
  lemma OtherCodesOccurOnce(pol: Policy, v: Views, result: Result, reasons: seq<Reason>, i: nat, j: nat)
    requires IsDecision(pol, v, result, reasons)
    requires i < j < |reasons| && reasons[i].code == reasons[j].code
    ensures reasons[i].code == FindingsForbiddenCodePresent || reasons[i].code == FindingsSeverityExceeded
  {
    hide WithCode, Verdict;
    var c := reasons[i].code;
    var front, back := reasons[..j], reasons[j..];
    assert reasons == front + back;
    WithCodeAppend(c, front, back);
    FoundUnderItsCode(front, front[i]);
    FoundUnderItsCode(back, back[0]);
    assert |WithCode(c, front)| >= 1 && |WithCode(c, back)| >= 1;
    assert WithCode(c, reasons) == Verdict(pol, v, c);
    if c != FindingsForbiddenCodePresent && c != FindingsSeverityExceeded {
      VerdictLength(pol, v, c);
    }
  }

  lemma VerdictLength(pol: Policy, v: Views, c: Code)
    requires c != FindingsForbiddenCodePresent && c != FindingsSeverityExceeded
    ensures |Verdict(pol, v, c)| <= 1
  {
  }

  // --- Weaker policies ----------------------------------------------------------------

  // q accepts whatever p accepts.
  ghost predicate GlobWidens(p: string, q: string) {
    forall s :: Glob.GlobAccepts(p, s) ==> Glob.GlobAccepts(q, s)
  }

  ghost predicate KeylessWeakens(p: Option<KeylessRule>, q: Option<KeylessRule>) {
    q.Some? ==> p.Some? && q.value.issuer == p.value.issuer
                && GlobWidens(p.value.identityPattern, q.value.identityPattern)
  }

  ghost predicate SignatureWeakens(p: SignatureRule, q: SignatureRule) {
    (q.required ==> p.required) && (q.rekorRequired ==> p.rekorRequired) && KeylessWeakens(p.keyless, q.keyless)
  }

  ghost predicate SlsaWeakens(p: SlsaRule, q: SlsaRule) {
    && (SlsaInScope(q) ==> SlsaInScope(p))
    && (q.minLevel > 0 ==> q.minLevel <= p.minLevel)
    && (q.allowedBuilders != [] ==>
          forall s :: p.allowedBuilders == [] || BuilderAllowed(p.allowedBuilders, s)
              ==> BuilderAllowed(q.allowedBuilders, s))
  }

  ghost predicate SbomWeakens(p: SbomRule, q: SbomRule) {
    (q.required ==> p.required) && forall l | l in q.disallowedLicenses :: l in p.disallowedLicenses
  }

  ghost predicate IdentityWeakens(p: IdentityRule, q: IdentityRule) {
    q.required ==>
      && p.required
      && (q.trustDomain == "" || q.trustDomain == p.trustDomain)
      && (q.idPattern == "" || GlobWidens(p.idPattern, q.idPattern))
  }

  // A MaxSeverity the ranking does not know switches the severity gate off, and nothing
  // exceeds critical.
  ghost predicate FindingsWeakens(p: FindingsRule, q: FindingsRule) {
    && (forall c | c in q.forbiddenCodes :: c in p.forbiddenCodes)
    && (0 < SeverityRank(q.maxSeverity) < 4 ==> 0 < SeverityRank(p.maxSeverity) <= SeverityRank(q.maxSeverity))
  }

  ghost predicate VexWeakens(p: VexRule, q: VexRule) {
    q.maxUnmitigatedSeverity != "" ==> p.maxUnmitigatedSeverity != ""
  }

  ghost predicate Weakens(p: Policy, q: Policy) {
    && SignatureWeakens(p.signature, q.signature)
    && SlsaWeakens(p.slsa, q.slsa)
    && VexWeakens(p.vex, q.vex)
    && SbomWeakens(p.sbom, q.sbom)
    && IdentityWeakens(p.identity, q.identity)
    && FindingsWeakens(p.findings, q.findings)
  }

  lemma WeakerSignature(p: SignatureRule, q: SignatureRule, v: SignatureView)
    requires SignatureWeakens(p, q) && SignatureOk(p, v)
    ensures SignatureOk(q, v)
  {
  }

  lemma WeakerSlsa(p: SlsaRule, q: SlsaRule, v: SlsaView)
    requires SlsaWeakens(p, q) && SlsaOk(p, v)
    ensures SlsaOk(q, v)
  {
    hide BuilderAllowed;
  }

  lemma WeakerIdentity(p: IdentityRule, q: IdentityRule, v: IdentityView)
    requires IdentityWeakens(p, q) && IdentityOk(p, v)
    ensures IdentityOk(q, v)
  {
    hide Glob.Split, Glob.Fills;
    if q.required && q.idPattern != "" {
      assert Glob.GlobAccepts(p.idPattern, v.spiffeID);
    }
  }

  lemma WeakerFindings(p: FindingsRule, q: FindingsRule, findings: seq<Finding>)
    requires FindingsWeakens(p, q) && FindingsOk(p, findings)
    ensures FindingsOk(q, findings)
  {
    hide Exceeds, SeverityRank;
    forall f | f in findings ensures !Forbidden(q, f) && !TooSevere(q, f) {
      RanksCompare(p.maxSeverity, f.severity);
      RanksCompare(q.maxSeverity, f.severity);
      RankIsSmall(f.severity);
    }
  }

  lemma WeakerCompliance(p: Policy, q: Policy, v: Views)
    requires Weakens(p, q) && Compliant(p, v)
    ensures Compliant(q, v)
  {
    hide FindingsOk, FindingsWeakens;
    WeakerSignature(p.signature, q.signature, v.signature);
    WeakerSlsa(p.slsa, q.slsa, v.slsa);
    WeakerIdentity(p.identity, q.identity, v.identity);
    WeakerFindings(p.findings, q.findings, v.findings);
  }

  /** Weakening a policy never turns an allow into a deny. */
  lemma WeakeningKeepsAllow(p: Policy, q: Policy, v: Views,
                            result: Result, reasons: seq<Reason>, result': Result, reasons': seq<Reason>)
    requires Weakens(p, q) && Enforces(p.mode)
    requires IsDecision(p, v, result, reasons) && IsDecision(q, v, result', reasons')
    ensures result == Allow && q.mode.Enforce? ==> result' == Allow
    ensures result == Allow ==> result' != Deny
  {
    AllowIffCompliant(p, v, result, reasons);
    AllowIffCompliant(q, v, result', reasons');
    if Compliant(p, v) {
      WeakerCompliance(p, q, v);
    }
  }

  /** The edits an operator makes are weakenings: dropping a requirement, lowering a level,
      adding or clearing builders, forbidding fewer licences or codes, raising or clearing
      the severity bound, clearing an identity pattern or a trust domain. */
  lemma EditsThatWeaken(p: Policy, level: int, builders: seq<string>, licenses: seq<string>,
      codes: seq<string>, bound: string)
    ensures Weakens(p, p.(signature := p.signature.(required := false)))
    ensures Weakens(p, p.(signature := p.signature.(rekorRequired := false)))
    ensures Weakens(p, p.(signature := p.signature.(keyless := None)))
    ensures p.signature.keyless.Some? ==>
              var rule := p.signature.keyless.value.(identityPattern := "");
              Weakens(p, p.(signature := p.signature.(keyless := Some(rule))))
    ensures level <= p.slsa.minLevel ==> Weakens(p, p.(slsa := p.slsa.(minLevel := level)))
    ensures Weakens(p, p.(slsa := p.slsa.(allowedBuilders := [])))
    ensures p.slsa.allowedBuilders != [] && (forall b | b in p.slsa.allowedBuilders :: b in builders) ==>
              Weakens(p, p.(slsa := p.slsa.(allowedBuilders := builders)))
    ensures Weakens(p, p.(vex := VexRule("")))
    ensures Weakens(p, p.(sbom := p.sbom.(required := false)))
    ensures (forall l | l in licenses :: l in p.sbom.disallowedLicenses) ==>
              Weakens(p, p.(sbom := p.sbom.(disallowedLicenses := licenses)))
    ensures Weakens(p, p.(identity := p.identity.(required := false)))
    ensures Weakens(p, p.(identity := p.identity.(trustDomain := "")))
    ensures Weakens(p, p.(identity := p.identity.(idPattern := "")))
    ensures (forall c | c in codes :: c in p.findings.forbiddenCodes) ==>
              Weakens(p, p.(findings := p.findings.(forbiddenCodes := codes)))
    ensures SeverityRank(bound) == 0 || 0 < SeverityRank(p.findings.maxSeverity) <= SeverityRank(bound) ==>
              Weakens(p, p.(findings := p.findings.(maxSeverity := bound)))
  {
    hide SeverityRank, Glob.Split, Glob.Fills;
    if p.slsa.allowedBuilders != [] && forall b | b in p.slsa.allowedBuilders :: b in builders {
      var b := p.slsa.allowedBuilders[0];
      assert b in p.slsa.allowedBuilders;
      assert b in builders;
      assert builders != [];
    }
  }

  /** Adding a first builder is not one of them: an empty list allows any builder and asks
      for no subject digest. */
  lemma FirstBuilderStrengthens(b: string, p: Policy, v: Views)
    requires p.slsa == SlsaRule(0, []) && !v.slsa.subjectDigestMatch && Compliant(p, v)
    ensures !Compliant(p.(slsa := SlsaRule(0, [b])), v)
  {
  }

  // --- Weakens is exact -----------------------------------------------------------------

  // With every star filled by an x a pattern accepts something, and not the empty text.
  lemma {:induction false} FilledStars(parts: seq<string>) returns (gaps: seq<string>, s: string)
    requires |parts| >= 1
    ensures Glob.Fills(parts, gaps, s) && (|parts| > 1 || parts[0] != "" ==> s != "")
  {
    if |parts| == 1 {
      gaps, s := [], parts[0];
    } else {
      var gaps', rest := FilledStars(parts[1..]);
      Glob.FillsCons(parts, "x", gaps', rest);
      gaps, s := ["x"] + gaps', parts[0] + "x" + rest;
    }
  }

  lemma GlobIsSatisfiable(pattern: string) returns (s: string)
    ensures Glob.GlobAccepts(pattern, s) && s != ""
  {
    if pattern == "" {
      s := "x";
    } else {
      Glob.SplitInvertsJoin(pattern);
      var gaps, t := FilledStars(Glob.Split(pattern));
      s := t;
    }
  }

  lemma {:induction false} FreshString(xs: seq<string>) returns (s: string)
    ensures forall x | x in xs :: |x| < |s|
  {
    if xs == [] {
      s := "";
    } else {
      var t := FreshString(xs[1..]);
      s := t + xs[0] + "x";
      forall x | x in xs ensures |x| < |s| {
        assert x == xs[0] || x in xs[1..];
      }
    }
  }

  // Views that satisfy the policy: no policy is contradictory.
  lemma PolicyIsSatisfiable(p: Policy) returns (v: Views)
    ensures Compliant(p, v)
  {
    hide Glob.Split, Glob.Fills;
    var rule := if p.signature.keyless.Some? then p.signature.keyless.value else KeylessRule("", "");
    var subject := GlobIsSatisfiable(rule.identityPattern);
    var pattern := if p.slsa.allowedBuilders != [] then p.slsa.allowedBuilders[0] else "";
    var builder := GlobIsSatisfiable(pattern);
    assert p.slsa.allowedBuilders != [] ==> pattern in p.slsa.allowedBuilders;
    var id := GlobIsSatisfiable(p.identity.idPattern);
    v := Views(
      SignatureView(true, true, rule.issuer, subject, true),
      SlsaView(true, builder, if p.slsa.minLevel > 0 then p.slsa.minLevel else 0, true),
      SbomView(true, []),
      VexView(true, []),
      IdentityView(true, true, id, p.identity.trustDomain, true),
      []);
  }

  ghost predicate Implied(p: Policy, q: Policy) {
    forall v :: Compliant(p, v) ==> Compliant(q, v)
  }

  lemma SignatureWeakensIfImplied(p: SignatureRule, q: SignatureRule)
    requires forall v :: SignatureOk(p, v) ==> SignatureOk(q, v)
    ensures SignatureWeakens(p, q)
  {
    hide Glob.Split, Glob.Fills;
    var rule := if p.keyless.Some? then p.keyless.value else KeylessRule("", "");
    var subject := GlobIsSatisfiable(rule.identityPattern);
    assert p.required || SignatureOk(p, SignatureView(true, false, "", "", true));
    assert SignatureOk(p, SignatureView(true, true, rule.issuer, subject, p.rekorRequired));
    if q.keyless.Some? {
      assert p.keyless.Some? || SignatureOk(p, SignatureView(true, true, q.keyless.value.issuer + "x", "", true));
      forall s | Glob.GlobAccepts(rule.identityPattern, s)
        ensures Glob.GlobAccepts(q.keyless.value.identityPattern, s)
      {
        assert SignatureOk(p, SignatureView(true, true, rule.issuer, s, true));
      }
    }
  }

  lemma SlsaWeakensIfImplied(p: SlsaRule, q: SlsaRule)
    requires forall v :: SlsaOk(p, v) ==> SlsaOk(q, v)
    ensures SlsaWeakens(p, q)
  {
    hide Glob.Split, Glob.Fills, Glob.GlobAccepts;
    var pattern := if p.allowedBuilders != [] then p.allowedBuilders[0] else "";
    var builder := GlobIsSatisfiable(pattern);
    assert p.allowedBuilders != [] ==> pattern in p.allowedBuilders && BuilderAllowed(p.allowedBuilders, builder);
    var level := if p.minLevel > 0 then p.minLevel else 0;
    assert SlsaInScope(p) || SlsaOk(p, SlsaView(false, "", 0, false));
    assert SlsaOk(p, SlsaView(true, builder, level, true));
    if q.allowedBuilders != [] {
      forall s | p.allowedBuilders == [] || BuilderAllowed(p.allowedBuilders, s)
        ensures BuilderAllowed(q.allowedBuilders, s)
      {
        assert SlsaOk(p, SlsaView(true, s, level, true));
      }
    }
  }

  lemma DocumentsWeakenIfImplied(p: Policy, q: Policy)
    requires forall v :: VexOk(p.vex, v) ==> VexOk(q.vex, v)
    requires forall v :: SbomOk(p.sbom, v) ==> SbomOk(q.sbom, v)
    ensures VexWeakens(p.vex, q.vex) && SbomWeakens(p.sbom, q.sbom)
  {
    assert p.vex.maxUnmitigatedSeverity != "" || VexOk(p.vex, VexView(true, ["x"]));
    assert p.sbom.required || SbomOk(p.sbom, SbomView(false, []));
    forall l | l in q.sbom.disallowedLicenses ensures l in p.sbom.disallowedLicenses {
      var v := SbomView(true, [l]);
      assert l in v.licenses;
      assert !SbomOk(q.sbom, v);
      assert !SbomOk(p.sbom, v);
    }
  }

  lemma IdentityWeakensIfImplied(p: IdentityRule, q: IdentityRule)
    requires forall v :: IdentityOk(p, v) ==> IdentityOk(q, v)
    ensures IdentityWeakens(p, q)
  {
    hide Glob.Split, Glob.Fills;
    if q.required {
      var id := GlobIsSatisfiable(p.idPattern);
      assert p.required || IdentityOk(p, IdentityView(false, false, "", "", false));
      var domain := if p.trustDomain == "" then q.trustDomain + "x" else p.trustDomain;
      assert IdentityOk(p, IdentityView(true, true, id, domain, true));
      if q.idPattern != "" {
        forall s | Glob.GlobAccepts(p.idPattern, s) ensures Glob.GlobAccepts(q.idPattern, s) {
          assert IdentityOk(p, IdentityView(true, true, s, p.trustDomain, true));
        }
      }
    }
  }

  lemma SeverityWords()
    ensures SeverityRank("") == 0 && SeverityRank(MEDIUM) == 2 && SeverityRank(HIGH) == 3 && SeverityRank(CRITICAL) == 4
  {
    assert ToLower("") == "" && ToLower(MEDIUM) == MEDIUM && ToLower(HIGH) == HIGH && ToLower(CRITICAL) == CRITICAL;
  }

  lemma FindingsWeakenIfImplied(p: FindingsRule, q: FindingsRule)
    requires forall fs :: FindingsOk(p, fs) ==> FindingsOk(q, fs)
    ensures FindingsWeakens(p, q)
  {
    hide SeverityRank, Exceeds;
    SeverityWords();
    forall c | c in q.forbiddenCodes ensures c in p.forbiddenCodes {
      var f := Finding(c, "");
      RanksCompare(p.maxSeverity, "");
      OneFinding(p, f);
      OneFinding(q, f);
    }
    var bound := SeverityRank(q.maxSeverity);
    if 0 < bound < 4 {
      var code := FreshString(p.forbiddenCodes);
      var f := Finding(code, if bound == 1 then MEDIUM else if bound == 2 then HIGH else CRITICAL);
      RanksCompare(p.maxSeverity, f.severity);
      RanksCompare(q.maxSeverity, f.severity);
      OneFinding(p, f);
      OneFinding(q, f);
    }
  }

  lemma OneFinding(rule: FindingsRule, f: Finding)
    ensures FindingsOk(rule, [f]) <==> !Forbidden(rule, f) && !TooSevere(rule, f)
  {
    assert f in [f];
  }

  /** Weakens is not just sufficient: q allows every view p allows if and only if p weakens to q. */
  lemma WeakensIsExact(p: Policy, q: Policy)
    ensures Weakens(p, q) <==> Implied(p, q)
  {
    hide SignatureOk, SlsaOk, VexOk, SbomOk, IdentityOk, FindingsOk,
         SignatureWeakens, SlsaWeakens, VexWeakens, SbomWeakens, IdentityWeakens, FindingsWeakens;
    if Weakens(p, q) {
      forall v | Compliant(p, v) ensures Compliant(q, v) {
        WeakerCompliance(p, q, v);
      }
    }
    if Implied(p, q) {
      var m := PolicyIsSatisfiable(p);
      forall v | SignatureOk(p.signature, v)
          ensures SignatureOk(q.signature, v) { assert Compliant(q, m.(signature := v)); }
      forall v | SlsaOk(p.slsa, v) ensures SlsaOk(q.slsa, v) { assert Compliant(q, m.(slsa := v)); }
      forall v | VexOk(p.vex, v) ensures VexOk(q.vex, v) { assert Compliant(q, m.(vex := v)); }
      forall v | SbomOk(p.sbom, v) ensures SbomOk(q.sbom, v) { assert Compliant(q, m.(sbom := v)); }
      forall v | IdentityOk(p.identity, v) ensures IdentityOk(q.identity, v) { assert Compliant(q, m.(identity := v)); }
      forall fs | FindingsOk(p.findings, fs)
          ensures FindingsOk(q.findings, fs) { assert Compliant(q, m.(findings := fs)); }
      SignatureWeakensIfImplied(p.signature, q.signature);
      SlsaWeakensIfImplied(p.slsa, q.slsa);
      DocumentsWeakenIfImplied(p, q);
      IdentityWeakensIfImplied(p.identity, q.identity);
      FindingsWeakenIfImplied(p.findings, q.findings);
    }
  }
}
