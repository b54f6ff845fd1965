/** Policies, the views the policy layer sees, and the reasons it returns
    (pkg/core/policy/policy.go, pkg/core/policy/evaluate.go, pkg/core/model.go). */
module Policies {
  import opened Prelude

  // The Mode string; anything but the three known words is carried as is.
  datatype Mode = Enforce | Audit | Warn | OtherMode(text: string)

  datatype KeylessRule = KeylessRule(issuer: string, identityPattern: string)
  datatype SignatureRule = SignatureRule(required: bool, keyless: Option<KeylessRule>, rekorRequired: bool)
  datatype SlsaRule = SlsaRule(minLevel: int, allowedBuilders: seq<string>)
  datatype VexRule = VexRule(maxUnmitigatedSeverity: string)
  datatype SbomRule = SbomRule(required: bool, disallowedLicenses: seq<string>)
  datatype IdentityRule = IdentityRule(required: bool, trustDomain: string, idPattern: string)
  datatype FindingsRule = FindingsRule(forbiddenCodes: seq<string>, maxSeverity: string)

  datatype Policy = Policy(
    name: string,
    version: string,
    mode: Mode,
    signature: SignatureRule,
    slsa: SlsaRule,
    vex: VexRule,
    sbom: SbomRule,
    identity: IdentityRule,
    findings: FindingsRule)

  datatype SignatureView = SignatureView(
    available: bool, verified: bool, issuer: string, subjectIdentity: string, rekorLogged: bool)
  datatype SlsaView = SlsaView(verified: bool, builderID: string, buildLevel: int, subjectDigestMatch: bool)
  datatype SbomView = SbomView(present: bool, licenses: seq<string>)
  datatype VexView = VexView(present: bool, affectedCVEs: seq<string>)
  datatype IdentityView = IdentityView(
    present: bool, verified: bool, spiffeID: string, trustDomain: string, bindingMatch: bool)
  datatype Finding = Finding(code: string, severity: string)

  datatype Views = Views(
    signature: SignatureView,
    slsa: SlsaView,
    sbom: SbomView,
    vex: VexView,
    identity: IdentityView,
    findings: seq<Finding>)

  const LOW := "low"
  const MEDIUM := "medium"
  const HIGH := "high"
  const CRITICAL := "critical"

  datatype Result = Allow | Deny | Audited

  datatype Code =
    | FindingsForbiddenCodePresent
    | FindingsSeverityExceeded
    | FindingsWithinPolicy
    | IdentityBindingMismatch
    | IdentityRequiredMissing
    | IdentityTrustDomainMismatch
    | RekorRequiredMissing
    | SbomDisallowedLicense
    | SbomRequiredMissing
    | SignatureIdentityMismatch
    | SignatureRequiredMissing
    | SignatureVerificationUnavailable
    | SlsaBuilderNotAllowed
    | SlsaLevelBelowThreshold
    | SubjectDigestMismatch
    | VexUnmitigatedCritical

  function Text(code: Code): string {
    match code
    case FindingsForbiddenCodePresent => "FINDINGS_FORBIDDEN_CODE_PRESENT"
    case FindingsSeverityExceeded => "FINDINGS_SEVERITY_EXCEEDED"
    case FindingsWithinPolicy => "FINDINGS_WITHIN_POLICY"
    case IdentityBindingMismatch => "IDENTITY_BINDING_MISMATCH"
    case IdentityRequiredMissing => "IDENTITY_REQUIRED_MISSING"
    case IdentityTrustDomainMismatch => "IDENTITY_TRUST_DOMAIN_MISMATCH"
    case RekorRequiredMissing => "REKOR_REQUIRED_MISSING"
    case SbomDisallowedLicense => "SBOM_DISALLOWED_LICENSE"
    case SbomRequiredMissing => "SBOM_REQUIRED_MISSING"
    case SignatureIdentityMismatch => "SIGNATURE_IDENTITY_MISMATCH"
    case SignatureRequiredMissing => "SIGNATURE_REQUIRED_MISSING"
    case SignatureVerificationUnavailable => "SIGNATURE_VERIFICATION_UNAVAILABLE"
    case SlsaBuilderNotAllowed => "SLSA_BUILDER_NOT_ALLOWED"
    case SlsaLevelBelowThreshold => "SLSA_LEVEL_BELOW_THRESHOLD"
    case SubjectDigestMismatch => "SUBJECT_DIGEST_MISMATCH"
    case VexUnmitigatedCritical => "VEX_UNMITIGATED_CRITICAL"
  }

  // about: the finding code named in the Detail of the two findings-violation reasons.
  datatype Reason = Reason(code: Code, severity: string, about: string, met: bool)

  function ReasonKey(r: Reason): string {
    Text(r.code)
  }

  // Length, first and tenth character tell the sixteen texts apart.
  ghost function Fingerprint(code: Code): (int, char, char) {
    match code
    case FindingsForbiddenCodePresent => (31, 'F', 'F')
    case FindingsSeverityExceeded => (26, 'F', 'S')
    case FindingsWithinPolicy => (22, 'F', 'W')
    case IdentityBindingMismatch => (25, 'I', 'B')
    case IdentityRequiredMissing => (25, 'I', 'R')
    case IdentityTrustDomainMismatch => (30, 'I', 'T')
    case RekorRequiredMissing => (22, 'R', 'U')
    case SbomDisallowedLicense => (23, 'S', 'L')
    case SbomRequiredMissing => (21, 'S', 'I')
    case SignatureIdentityMismatch => (27, 'S', '_')
    case SignatureRequiredMissing => (26, 'S', '_')
    case SignatureVerificationUnavailable => (34, 'S', '_')
    case SlsaBuilderNotAllowed => (24, 'S', 'D')
    case SlsaLevelBelowThreshold => (26, 'S', 'L')
    case SubjectDigestMismatch => (23, 'S', 'I')
    case VexUnmitigatedCritical => (24, 'V', 'I')
  }

  lemma TextHasFingerprint(code: Code)
    ensures |Text(code)| > 9 && (|Text(code)|, Text(code)[0], Text(code)[9]) == Fingerprint(code)
  {
    match code
    case FindingsForbiddenCodePresent =>
    case FindingsSeverityExceeded =>
    case FindingsWithinPolicy =>
    case IdentityBindingMismatch =>
    case IdentityRequiredMissing =>
    case IdentityTrustDomainMismatch =>
    case RekorRequiredMissing =>
    case SbomDisallowedLicense =>
    case SbomRequiredMissing =>
    case SignatureIdentityMismatch =>
    case SignatureRequiredMissing =>
    case SignatureVerificationUnavailable =>
    case SlsaBuilderNotAllowed =>
    case SlsaLevelBelowThreshold =>
    case SubjectDigestMismatch =>
    case VexUnmitigatedCritical =>
  }

  // The sixteen codes and the texts callers match on.
  ghost function CodeList(): seq<(Code, string)> {
    [(FindingsForbiddenCodePresent, "FINDINGS_FORBIDDEN_CODE_PRESENT"),
     (FindingsSeverityExceeded, "FINDINGS_SEVERITY_EXCEEDED"),
     (FindingsWithinPolicy, "FINDINGS_WITHIN_POLICY"),
     (IdentityBindingMismatch, "IDENTITY_BINDING_MISMATCH"),
     (IdentityRequiredMissing, "IDENTITY_REQUIRED_MISSING"),
     (IdentityTrustDomainMismatch, "IDENTITY_TRUST_DOMAIN_MISMATCH"),
     (RekorRequiredMissing, "REKOR_REQUIRED_MISSING"),
     (SbomDisallowedLicense, "SBOM_DISALLOWED_LICENSE"),
     (SbomRequiredMissing, "SBOM_REQUIRED_MISSING"),
     (SignatureIdentityMismatch, "SIGNATURE_IDENTITY_MISMATCH"),
     (SignatureRequiredMissing, "SIGNATURE_REQUIRED_MISSING"),
     (SignatureVerificationUnavailable, "SIGNATURE_VERIFICATION_UNAVAILABLE"),
     (SlsaBuilderNotAllowed, "SLSA_BUILDER_NOT_ALLOWED"),
     (SlsaLevelBelowThreshold, "SLSA_LEVEL_BELOW_THRESHOLD"),
     (SubjectDigestMismatch, "SUBJECT_DIGEST_MISMATCH"),
     (VexUnmitigatedCritical, "VEX_UNMITIGATED_CRITICAL")]
  }

  /** Every code has its listed text, and every entry of the list is a code. */
  lemma CodeTexts(code: Code, text: string)
    ensures text == Text(code) <==> (code, text) in CodeList()
  {
    hide CodeList, Text;
    var i := IndexOf(code);
    if (code, text) in CodeList() {
      var j :| 0 <= j < |CodeList()| && CodeList()[j] == (code, text);
    }
  }

  lemma IndexOf(code: Code) returns (i: nat)
    ensures i < |CodeList()| && CodeList()[i] == (code, Text(code))
    ensures forall j | 0 <= j < |CodeList()| && CodeList()[j].0 == code :: j == i
  {
    i := match code
      case FindingsForbiddenCodePresent => 0
      case FindingsSeverityExceeded => 1
      case FindingsWithinPolicy => 2
      case IdentityBindingMismatch => 3
      case IdentityRequiredMissing => 4
      case IdentityTrustDomainMismatch => 5
      case RekorRequiredMissing => 6
      case SbomDisallowedLicense => 7
      case SbomRequiredMissing => 8
      case SignatureIdentityMismatch => 9
      case SignatureRequiredMissing => 10
      case SignatureVerificationUnavailable => 11
      case SlsaBuilderNotAllowed => 12
      case SlsaLevelBelowThreshold => 13
      case SubjectDigestMismatch => 14
      case VexUnmitigatedCritical => 15;
  }

  // Sorting by the text of a code never merges two codes.
  lemma TextIsInjective(a: Code, b: Code)
    requires Text(a) == Text(b)
    ensures a == b
  {
    hide Text;
    TextHasFingerprint(a);
    TextHasFingerprint(b);
    assert Fingerprint(a) == Fingerprint(b);
  }

  // strings.ToLower, as far as it can produce the four ASCII severity words: besides A-Z
  // only U+0130 and U+212A lower to ASCII letters. Other letters never spell a severity.
  function LowerChar(c: char): char {
    if 'A' <= c <= 'Z' then (c as int + 32) as char
    else if c == '\U{0130}' then 'i'
    else if c == '\U{212A}' then 'k'
    else c
  }

  function ToLower(s: string): string {
    seq(|s|, i requires 0 <= i < |s| => LowerChar(s[i]))
  }

  // severityRank[strings.ToLower(text)]; 0 for an unknown severity.
  function SeverityRank(text: string): nat {
    var t := ToLower(text);
    if t == LOW then 1
    else if t == MEDIUM then 2
    else if t == HIGH then 3
    else if t == CRITICAL then 4
    else 0
  }

  // --- What a severity text means -----------------------------------------------------

  // text is this lower-case word in some casing; U+0130 also lowers to i.
  ghost predicate Spells(text: string, word: string) {
    && |text| == |word|
    && forall k | 0 <= k < |word| ::
         || text[k] == word[k]
         || text[k] as int + 32 == word[k] as int
         || (word[k] == 'i' && text[k] == '\U{0130}')
  }

  // The four severities, mildest first.
  ghost function Severities(): (words: seq<string>)
    ensures |words| == 4
  {
    ["low", "medium", "high", "critical"]
  }

  /** Both texts are severities, and the second is the graver one. */
  ghost predicate Exceeds(bound: string, severity: string) {
    exists i, j | 0 <= i < j < 4 :: Spells(bound, Severities()[i]) && Spells(severity, Severities()[j])
  }

  lemma LowersTo(c: char, w: char)
    requires 'a' <= w <= 'z' && w != 'k'
    ensures LowerChar(c) == w <==> c == w || c as int + 32 == w as int || (w == 'i' && c == '\U{0130}')
  {
    if c as int + 32 == w as int {
      assert (c as int + 32) as char == w;
    }
  }

  lemma LowersToWord(text: string, word: string)
    requires forall c | c in word :: 'a' <= c <= 'z' && c != 'k'
    ensures ToLower(text) == word <==> Spells(text, word)
  {
    hide LowerChar;
    forall k | 0 <= k < |text| && k < |word|
      ensures LowerChar(text[k]) == word[k] <==>
                text[k] == word[k] || text[k] as int + 32 == word[k] as int || (word[k] == 'i' && text[k] == '\U{0130}')
    {
      assert word[k] in word;
      LowersTo(text[k], word[k]);
    }
  }

  /** The rank of a text is its position among the severities, and 0 if it is none of them. */
  lemma RankIsPosition(text: string)
    ensures forall i | 0 <= i < 4 :: SeverityRank(text) == i + 1 <==> Spells(text, Severities()[i])
    ensures SeverityRank(text) == 0 <==> forall i | 0 <= i < 4 :: !Spells(text, Severities()[i])
  {
    hide ToLower, Spells;
    var words := Severities();
    LowersToWord(text, words[0]);
    LowersToWord(text, words[1]);
    LowersToWord(text, words[2]);
    LowersToWord(text, words[3]);
  }

  lemma RanksCompare(bound: string, severity: string)
    ensures SeverityRank(bound) > 0 && SeverityRank(severity) > SeverityRank(bound) <==> Exceeds(bound, severity)
  {
    hide SeverityRank, Spells, Severities;
    RankIsPosition(bound);
    RankIsPosition(severity);
    var i, j := SeverityRank(bound) - 1, SeverityRank(severity) - 1;
    RankIsSmall(severity);
    if 0 <= i < j {
      assert Spells(bound, Severities()[i]) && Spells(severity, Severities()[j]);
    }
  }

  lemma RankIsSmall(text: string)
    ensures SeverityRank(text) <= 4
  {
  }

  /** A text spells at most one severity, so of two severities the later in the list exceeds the
      earlier, and a text that is none of the four neither bounds nor exceeds anything. */
  lemma ExceedsIsTheOrder(bound: string, severity: string)
    ensures forall i, j | 0 <= i < 4 && 0 <= j < 4 && Spells(bound, Severities()[i])
        && Spells(severity, Severities()[j]) ::
              Exceeds(bound, severity) <==> i < j
    ensures (forall i | 0 <= i < 4 :: !Spells(bound, Severities()[i])) ==> !Exceeds(bound, severity)
    ensures (forall j | 0 <= j < 4 :: !Spells(severity, Severities()[j])) ==> !Exceeds(bound, severity)
  {
    hide Spells, SeverityRank;
    RankIsPosition(bound);
    RankIsPosition(severity);
  }
}
