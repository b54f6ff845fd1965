/** Evidence, trust roots and verifier results (pkg/core/model.go), and the libraries the
    verifiers call. Library calls are arbitrary functions: nothing proved depends on what
    they compute, unless a statement says so. */
module Evidence {
  import opened Prelude
  import opened Json
  import Policies

  datatype ArtifactRef = ArtifactRef(kind: string, name: string, digest: map<string, string>)
  datatype Attestation = Attestation(predicateType: string, envelope: bytes)
  datatype WorkloadIdentity = WorkloadIdentity(spiffeID: string, svidType: string, raw: bytes)
  datatype BlobSignature = BlobSignature(bundle: bytes, artifactDigest: string)
  datatype TrustRoots = TrustRoots(sigstoreTUF: bytes, spiffeBundles: map<string, bytes>, signatureCAs: bytes)

  datatype Evidence = Evidence(
    artifact: ArtifactRef,
    attestations: seq<Attestation>,
    identity: Option<WorkloadIdentity>,
    findings: seq<Policies.Finding>,
    blobSignature: Option<BlobSignature>)

  datatype SignatureResult = SignatureResult(
    available: bool, verified: bool, issuer: string, subjectIdentity: string, rekorLogged: bool)

  // The verifier ran and refused; the verifier could not run.
  const REFUSED := SignatureResult(true, false, "", "", false)
  const UNAVAILABLE := SignatureResult(false, false, "", "", false)

  datatype IdentityResult = IdentityResult(verified: bool, spiffeID: string, trustDomain: string, bindingMatch: bool)

  // A parsed X.509 leaf: its URI names and, if its key is ECDSA, that key.
  datatype Cert = Cert(uris: seq<string>, ecdsaKey: Option<bytes>)

  // What sigstore-go reports: an error, or a result that may lack a certificate summary.
  datatype KeylessOutcome = KeylessError | KeylessVerified(cert: Option<CertSummary>, timestamps: nat)
  datatype CertSummary = CertSummary(issuer: string, san: string)

  // A bundle as sigstore-go parses it: the type and payload of its DSSE envelope if it holds one,
  // and the rest, which nothing here looks at.
  datatype SigstoreBundle = SigstoreBundle(envelope: Option<(string, bytes)>, rest: bytes)

  datatype SlsaPredicate = NoPredicate | UnreadablePredicate | Provenance(builderID: string, buildType: string)
  datatype SlsaStatement = SlsaStatement(subjects: seq<map<string, string>>, provenance: SlsaPredicate)

  datatype LicenseChoice = LicenseChoice(license: Option<License>, expression: string)
  datatype License = License(id: string, name: string)
  datatype Bom = Bom(format: string, components: seq<seq<LicenseChoice>>)

  datatype VexStatement = VexStatement(name: string, id: string, status: string)

  datatype Libraries = Libraries(
    // encoding/json: syntax only; struct decoding is modelled in Json
    parseJson: bytes -> Option<Json>,
    printJson: Json -> bytes,
    // whether the raw text of a value contains a word (bytes.Contains on a RawMessage)
    rawMentions: (Json, string) -> bool,
    // unicode.SimpleFold outside the orbits that meet ASCII
    foldOther: char -> char,
    // crypto/x509, with the PEM bundle of roots
    parseCert: bytes -> Option<Cert>,
    chains: (Cert, bytes) -> bool,
    // crypto/sha256, crypto/ecdsa
    sha256: bytes -> bytes,
    verifyECDSA: (bytes, bytes, bytes) -> bool,
    // sigstore-go: trusted root from JSON; the live root as call number n finds it; a bundle from
    // JSON; verification of a bundle, bound to a digest for blobs
    parseRoot: bytes -> Option<bytes>,
    liveRoot: nat -> Option<bytes>,
    parseBundle: bytes -> Option<SigstoreBundle>,
    keyless: (bytes, SigstoreBundle, Option<bytes>) -> KeylessOutcome,
    // go-spiffe
    verifyIdentity: (WorkloadIdentity, ArtifactRef, TrustRoots) -> IdentityResult,
    // protojson with the in-toto types, cyclonedx-go, go-vex
    parseStatement: bytes -> Option<SlsaStatement>,
    parseBom: Json -> Option<Bom>,
    parseVex: Json -> Option<seq<VexStatement>>)
}
