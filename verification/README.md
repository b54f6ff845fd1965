# Verified model of assayward's decision core

assayward decides whether a workload may run: it takes attestations, an identity and findings,
verifies them, projects the results to views and evaluates a policy over the views. This project
models that path in Dafny, from the bytes of an envelope to the decision and its reasons, and proves
what the repository promises about it: which evidence is allowed, that there is one answer, that the
two builds agree where they claim to, and that what is written can be read back.

| file | models |
|---|---|
| Prelude.dfy, Ordering.dfy, Json.dfy | strings and bytes, Go's string order and stable sort, struct decoding from JSON trees |
| Glob.dfy | the glob-to-regexp compiler and the regular expressions it produces |
| Policies.dfy, PolicyEval.dfy, PolicyTheorems.dfy | policies, `EvaluatePolicy`, and what follows from its contract |
| Evidence.dfy | evidence, trust roots, and the libraries the verifiers call |
| Encoding.dfy, Pae.dfy, FixedWidth.dfy | base64, hex and digest comparison; UTF-8 and the DSSE pre-authentication encoding; r \|\| s signatures |
| Envelope.dfy, Predicates.dfy | `DecodeDSSE`, the keyed, keyless and blob verifiers of both builds; SLSA, SBOM, VEX, digests |
| Engine.dfy, EngineTheorems.dfy | `Evaluate` and the end-to-end results |
| SignatureTheorems.dfy | what a signature rule establishes end to end: in wasm, with a keyless rule alone, with a live trust root, and about the provenance that decides |
| Documents.dfy | bundle documents written out field by field, and what the keyed and blob verifiers make of them |
| Worlds.dfy | evidence built to order: the exact weakening order on evidence, and concrete runs of `Evaluate` |
| Adapter.dfy | the forgeseal adapter |
| TrustRootCache.dfy | the live trust-root cache under any interleaving of callers |
| Bundle.dfy | packing and pulling policy bundles |

How the model is set up:

- Strings are sequences of Unicode characters, that is, valid UTF-8, which is all the JSON and YAML
  decoders produce. Bytes are sequences of `byte`.
- X.509, ECDSA, SHA-256, sigstore-go, go-spiffe, JSON syntax, protojson, CycloneDX and OpenVEX parsing
  are fields of one value, `Evidence.Libraries`, and every statement holds for all of them. The only
  property ever assumed of them is `Adapter.JsonLaws`, where a lemma names it: nothing is no document,
  what parses has well-formed numbers (section 6 of RFC 8259) and at most 10000 levels of nesting, and a
  tree with well-formed numbers reads back when written, unless it is nested more deeply. Of the digest
  and metadata functions a bundle is packed with (`Bundle.Codecs`), the round trip `Bundle.PullInvertsPack`
  assumes that the metadata written reads back.
- sigstore-go parses a bundle and then verifies it against a root. A parsed bundle shows the type and
  payload of its DSSE envelope; that this envelope is what the verification covers is sigstore-go's own
  promise and stays uninterpreted here.
- The live root is asked anew at each verifier call. A root once found stays
  (`SignatureTheorems.CacheServes` derives that from the cache model); statements that depend on it are made
  both with and without the background refresh of its material.
- A JSON object is its members in document order, repetitions included. `json.Unmarshal` into a struct
  is modelled on that: keys match up to case, a later value overrides or is merged into an earlier one,
  null and absent leave the zero value, a value of the wrong kind is an error, and the classifier
  ignores that error as the source does.
- Loops over Go maps pick keys in an arbitrary order, so what is proved of a method holds for every order.
- The `Detail` text of a reason is not modelled, except that the two findings-violation reasons carry the
  finding's code (`about`), which keeps their order observable.
- `EvaluatePolicy` is split into one method per check; the order of the checks is the source's.

Where the code and its own words part:

- evaluate.go:159-160 says that when a keyless rule meets an unverified signature another check has already
  failed. That is so only if a signature or a log entry is required. With neither,
  `SignatureTheorems.KeylessRuleAloneIsOpenIff` gives the exact condition under which unverified evidence is
  allowed, and `Worlds.KeylessRuleAdmitsUnreadable` is such a run.
- core/wasm/parity_test.go:7-13 says a policy that requires a signature is always denied in wasm as
  unavailable. `SignatureTheorems.UnavailableInWasmIff` and `SignatureTheorems.WasmAllowsSignedIff` say exactly
  when: not if some attestation is a keyed bundle. `Worlds.WasmAllowsSigned` is a run that allows.
- slsa.go:29-33 documents levels that leave out one family of builders; `Predicates.LevelIsAsDocumentedIff`
  says which, and that the code puts it at level 2.
- Same input, same decision holds only as far as the libraries answer alike
  (`EngineTheorems.EvaluateIsDeterministic`). Without an injected root the live root may be fetched in one run
  and not in the next: `SignatureTheorems.LiveRootIsUnseenIff` is the exact condition under which that cannot
  be seen, and `Worlds.LiveRootFlips` is a pair of runs in which it can.
- internal/forgeseal/adapter.go:129-132 says the verifier sees the keyed material and the router extracts
  content.dsseEnvelope. The router does so only when nothing at the top level overrides it:
  `Envelope.RoutingIsFaithfulIff`, with `Worlds.KeyedDocRoutes` for both cases.
- blob_signature.go:49-51 says a dsseEnvelope marks a bundle that must be rejected as a blob. The code rejects
  it only if it has no message signature: `Envelope.BlobBundleReads` does not depend on a dsseEnvelope.
- A required signature and a provenance rule are met independently, in two ways. They may be met by different
  attestations (`Worlds.UnsignedProvenanceDecides` is such a run), and a verified keyed bundle may be routed
  with an envelope it was not verified for (`Worlds.OverriddenBundleDecides`).
  `SignatureTheorems.DecidingProvenanceIsSignedIff` says exactly when neither can happen, so that the type and
  payload of the deciding provenance must have been signed; `SignatureTheorems.KeyedMustBeSignedIff` says what
  an override does to that condition.

## Model

| member | source | states |
|---|---|---|
| Glob.SplitInvertsJoin | pkg/core/policy/evaluate.go:477-477 | splitting on the star loses nothing and leaves no star in a part |
| Glob.CompiledTextParses | pkg/core/policy/evaluate.go:477-482 | the quoted and joined text always compiles, whatever metacharacters the pattern holds, and to exactly the expected expression |
| Glob.CompilationPreservesMeaning | pkg/core/policy/evaluate.go:472-487 | the compiled expression matches s exactly when s is the pattern with each star replaced by newline-free text |
| Glob.GlobMatch | pkg/core/policy/evaluate.go:472-487 | the method decides that meaning; the empty pattern matches everything |
| Glob.AnyGlobMatch | pkg/core/policy/evaluate.go:490-497 | true exactly when some pattern accepts |
| Glob.LeftmostMatchIsExact | pkg/core/policy/evaluate.go:464-487 | on newline-free subjects a single leftmost-first pass gives the same answer |
| Glob.NewlineSeparatesThem | pkg/core/policy/evaluate.go:482-482 | with a newline the two differ: a star does not cross it |
| Policies.TextIsInjective | pkg/core/policy/evaluate.go:109-387 | the sixteen reason codes have different texts, so sorting by text never mixes two codes |
| Policies.CodeTexts | pkg/core/policy/evaluate.go:109-456 | each reason carries the text callers match on, and there are no others |
| Policies.RankIsPosition | pkg/core/policy/evaluate.go:421-427 | the rank of a text is its place among low, medium, high and critical in any casing, and 0 for every other text |
| Policies.ExceedsIsTheOrder | pkg/core/policy/evaluate.go:421-447 | of two severities the one later in that list exceeds the earlier; a text that is none of the four neither bounds nor exceeds |
| Ordering.StableSortIsStableSort | pkg/core/policy/evaluate.go:385-387 | the sort yields a sorted permutation that keeps the order within each key |
| Ordering.SortedIsDetermined | pkg/core/policy/evaluate.go:385-387 | two sorted sequences with the same elements per key, in the same order, are equal |
| Ordering.SortListsTheSet | pkg/core/engine/engine.go:142-148 | sorting the distinct keys of a map, walked in any order, lists the key set strictly increasing |
| Ordering.ListingIsUnique | pkg/core/engine/engine.go:142-148 | there is only one such listing |
| PolicyEval.Emit | pkg/core/policy/evaluate.go:91-92 | emitting adds one reason under its code and changes nothing under any other |
| PolicyEval.CheckSignatureRequired | pkg/core/policy/evaluate.go:119-135 | the SIGNATURE_REQUIRED_MISSING verdict and no other change |
| PolicyEval.CheckKeyless | pkg/core/policy/evaluate.go:139-161 | the identity verdict, present only for a verified signature, met exactly on equal issuer and accepted subject |
| PolicyEval.CheckRekor | pkg/core/policy/evaluate.go:165-181 | the transparency-log verdict and no other change |
| PolicyEval.CheckSignature | pkg/core/policy/evaluate.go:103-182 | all four signature verdicts, collapsed to UNAVAILABLE when the verifier could not run |
| PolicyEval.CheckLevel | pkg/core/policy/evaluate.go:191-207 | the level verdict and no other change |
| PolicyEval.CheckBuilder | pkg/core/policy/evaluate.go:210-226 | the builder verdict, met exactly when some pattern accepts the builder |
| PolicyEval.CheckSubject | pkg/core/policy/evaluate.go:228-247 | the subject verdict, present whenever a level or a builder list is configured |
| PolicyEval.CheckSlsa | pkg/core/policy/evaluate.go:188-247 | the level, builder and subject verdicts, the last whenever either of the others is configured |
| PolicyEval.CheckVex | pkg/core/policy/evaluate.go:258-274 | the VEX verdict, met exactly when no id is affected |
| PolicyEval.CheckSbom | pkg/core/policy/evaluate.go:281-297 | the SBOM-presence verdict and no other change |
| PolicyEval.CheckLicenses | pkg/core/policy/evaluate.go:301-317 | the licence verdict, met exactly when no licence is disallowed |
| PolicyEval.CheckDocuments | pkg/core/policy/evaluate.go:258-317 | the VEX, SBOM and licence verdicts |
| PolicyEval.Intersect | pkg/core/policy/evaluate.go:500-512 | exactly the common elements |
| PolicyEval.CheckTrustDomain | pkg/core/policy/evaluate.go:340-358 | the trust-domain verdict, met exactly when both configured constraints hold |
| PolicyEval.CheckIdentity | pkg/core/policy/evaluate.go:325-375 | the three identity verdicts, the last two only for a verified identity |
| PolicyEval.EvaluateFinding | pkg/core/policy/evaluate.go:441-452 | a finding violates iff its code is forbidden or its severity spells a graver word than the bound does; what it then adds |
| PolicyEval.EvaluateFindings | pkg/core/policy/evaluate.go:430-458 | one violation per offending finding in finding order; the passing reason exactly when gated and nothing offends |
| PolicyEval.UngatedNeverViolates | pkg/core/policy/evaluate.go:431-433 | an empty findings rule never gates, so the early return loses nothing |
| PolicyEval.SortReasons | pkg/core/policy/evaluate.go:385-387 | the returned reasons are a sorted permutation of the emitted ones with the same sequence under each code |
| PolicyEval.EvaluatePolicy | pkg/core/policy/evaluate.go:81-419 | sorted reasons, under every code exactly the verdict read off policy and views, and the result the mode prescribes |
| PolicyTheorems.AllowIffCompliant | pkg/core/policy/evaluate.go:392-418 | under enforce and unknown modes allow iff compliant and deny otherwise; audit always audits, warn always allows |
| PolicyTheorems.DecisionIsUnique | pkg/core/policy/evaluate.go:81-419 | the contract determines result and reasons completely; views with equal verdicts get equal answers |
| PolicyTheorems.FindingsAreGated | pkg/core/policy/evaluate.go:430-458 | end to end: the decision reports exactly the findings graver than the bound and exactly those with a forbidden code, reports all within policy iff gated and neither, and denies under enforce on either |
| PolicyTheorems.OtherCodesOccurOnce | pkg/core/policy/evaluate.go:94-456 | only the two findings-violation codes can occur twice |
| PolicyTheorems.WeakeningKeepsAllow | pkg/core/policy/evaluate.go:94-380 | a weaker policy does not deny what the stricter one allowed |
| PolicyTheorems.EditsThatWeaken | pkg/core/policy/evaluate.go:94-458 | each edit an operator makes to relax a rule is a weakening |
| PolicyTheorems.WeakensIsExact | pkg/core/policy/evaluate.go:94-458 | and nothing else is: q allows all that p allows iff p weakens to q |
| PolicyTheorems.PolicyIsSatisfiable | pkg/core/policy/evaluate.go:94-458 | no policy is contradictory: some views comply with it |
| PolicyTheorems.FirstBuilderStrengthens | pkg/core/policy/evaluate.go:188-247 | adding a first builder to an empty list brings the subject digest into scope and can deny |
| Encoding.EncodeDecode | internal/forgeseal/adapter.go:303-310 | the decoder with its fallback reads back what the adapter encoded (section 4 of RFC 4648) |
| Encoding.QuantaDecodeIff | pkg/core/verify/dsse.go:97-104 | what a base64 text decodes to, bit by bit, and exactly which texts decode (section 4 of RFC 4648, trailing bits not checked) |
| Encoding.FromCharIff | pkg/core/verify/dsse.go:97-104 | the alphabets read exactly what they write |
| Encoding.BreaksAreSkipped | pkg/core/verify/dsse.go:97-104 | carriage returns and line feeds are skipped wherever they stand, and nothing else is |
| Encoding.HexDecodeIff | pkg/core/verify/blob_signature.go:78-84 | two hexadecimal digits in either case for every byte, and nothing else decodes |
| Encoding.HexDigitIff | pkg/core/verify/blob_signature.go:78-84 | the sixteen digits and their values |
| Encoding.FoldsTogetherIff | pkg/core/verify/blob_signature.go:239-240 | folding onto an ASCII character identifies the two cases of a letter, the Kelvin sign with k and the long s with s, and nothing else |
| Encoding.FallbackOrderIsImmaterial | pkg/core/verify/dsse.go:97-104 | where the standard and URL-safe decoders both succeed they agree, so trying them in the other order changes nothing |
| Encoding.FoldedHexDecodesAlike | pkg/core/verify/blob_signature.go:239-240 | a text equal under case folding to valid hex is valid hex for the same bytes |
| Encoding.BlobDigestMatchesIff | pkg/core/verify/blob_signature.go:229-241 | matches iff the non-empty field encodes the artifact's bytes in base64 or hex; the textual comparison adds nothing |
| Encoding.ReadingsExcludeEachOther | pkg/core/verify/blob_signature.go:233-238 | no non-empty digest is read from the same field both ways |
| Pae.Utf8IsInjective | pkg/core/verify/keyed_signature.go:215-224 | different payload types have different bytes |
| Pae.Utf8CharIsWellFormed | pkg/core/verify/keyed_signature.go:215-224 | each character has the length, lead byte and continuation bytes of section 3 of RFC 3629 and spells its code point |
| Pae.CodePointOrderIsByteOrder | pkg/core/evidence_codec.go:40-46 | comparing code points orders strings as comparing their UTF-8 bytes does |
| Pae.DssePae | pkg/core/verify/keyed_signature.go:218-229 | the result is the UTF-8 of "DSSEv1 ", the decimal byte lengths and the type, each followed by a space, and then the payload; it parses back to type and payload |
| Pae.PaeIsSignedText | pkg/core/verify/keyed_signature.go:215-229 | so is the encoding over which signatures are checked; the lengths are decimal texts without leading zeros |
| Pae.ParseInvertsPae | pkg/core/verify/keyed_signature.go:218-229 | a parser driven by the two decimal lengths inverts the encoding for every type and payload |
| Pae.PaeIsInjective | pkg/core/verify/keyed_signature.go:218-229 | equal encodings have equal types and payloads |
| FixedWidth.MinimalBytesFit | testdata/gen/main.go:165-168 | the minimal bytes of a number below 256^k fit in k bytes, so no copy starts outside the buffer |
| FixedWidth.Copy | testdata/gen/main.go:167-168 | copying replaces exactly the target range |
| FixedWidth.EncodeSignature | testdata/gen/main.go:158-169 | the halves of the 64-byte buffer have the big-endian values r and s (section 3.4 of RFC 7518) |
| FixedWidth.EncodingIsABijection | testdata/gen/main.go:158-169 | 64-byte buffers and pairs of values below 2^256 determine each other |
| Json.LastStringIff | pkg/core/verify/keyed_signature.go:21-40 | a string field takes the last string given, null changes nothing, any other kind is an error |
| Json.LastItemsIff | pkg/core/verify/keyed_signature.go:21-40 | a slice field takes the last array given and null empties it |
| Json.MergedIff | pkg/core/verify/keyed_signature.go:21-40 | a struct field takes the members of all objects given for it |
| Json.PointedIff | pkg/core/verify/keyed_signature.go:21-40 | a pointer field is nil after null, and else takes the members of the objects since the last null |
| Envelope.DecodesIff | pkg/core/verify/dsse.go:49-110 | for every document: it decodes to a type and payload iff it has a type of its own, or is a bundle whose top-level envelope has one, or else whose content envelope has one, and that payload text decodes, URL-safe only where the standard alphabet fails |
| Envelope.KeyedBundleReads | pkg/core/verify/keyed_signature.go:21-64 | the keyed verifier reads a bundle iff the document's fields have the right kinds, and then exactly its certificate, number of log entries, envelope and signatures |
| Envelope.BlobBundleReads | pkg/core/verify/blob_signature.go:41-100 | the blob verifier likewise, with the message signature at the top level before the one under content |
| Envelope.ResultsAreCoherent | pkg/core/verify/signature.go:8-19 | in both builds logged implies verified implies available; native is always available; keyed results carry no issuer and no log entry |
| Envelope.KeyedVerifiedIff | pkg/core/verify/keyed_signature.go:55-213 | for every document: handled iff it is a readable bundle with a non-empty certificate and no log entries, and anchors are configured; verified iff the leaf it carries signed the type and payload it holds, with its first signature; the result then names the leaf's first URI, and is a refusal otherwise |
| Envelope.RoutedComesFromContent | pkg/core/verify/dsse.go:49-110 | without an override the router opens the same type and payload as the keyed verifier |
| Envelope.RoutedIsSigned | pkg/core/verify/keyed_signature.go:137-212 | for a verified keyed bundle without an override, the bundle's own leaf made the bundle's own signature over exactly the type and payload that are routed |
| Envelope.OverrideKeepsTheVerdict | pkg/core/verify/dsse.go:49-110 | with an override that fails: any readable envelope put at the top level leaves the keyed verdict as it was and is what the router opens |
| Envelope.RoutingIsFaithfulIff | pkg/core/verify/dsse.go:49-110 | the condition is exact: of two verified and routed bundles that differ in the content envelope, both are routed with what was verified iff nothing at top level, in any spelling of its key, overrides |
| Envelope.BlobVerifiedIff | pkg/core/verify/blob_signature.go:76-222 | for every blob: verified iff the build is native, the artifact digest is well-formed sha256, and the document's message signature binds those bytes: with a certificate, no log entries and anchors by its own leaf and the digest it names, else through sigstore-go; refused otherwise |
| Envelope.KeylessVerifiedIff | pkg/core/verify/sigstore_native.go:93-170 | verified iff sigstore-go can parse the bundle, backs it against the injected root, or the live one if none is injected, and names a certificate, whose issuer and name the result carries; a refusal otherwise |
| Predicates.MatchSubject | pkg/core/verify/slsa.go:121-131 | for any iteration order: true iff one algorithm gives the same non-empty digest on both sides |
| Predicates.VerifySLSA | pkg/core/verify/slsa.go:61-115 | any matching subject counts; an unreadable statement or predicate gives the zero result |
| Predicates.LevelIsAsDocumentedIff | pkg/core/verify/slsa.go:135-143 | the level is the documented one iff the builder is not one that has a build type and is no https URI; those get level 2 |
| Predicates.FirstLicenseIsFirst | pkg/core/verify/sbom.go:91-111 | a component has no licence iff no choice offers one; otherwise it is the one of the first choice that offers any: the id, else the name, else the expression |
| Predicates.SbomPresentIff | pkg/core/verify/sbom.go:42-88 | an SBOM is present iff the statement's predicate is a BOM of format CycloneDX, with one licence per component in order |
| Predicates.VexAcceptedIff | pkg/core/verify/vex.go:26-50 | a VEX document is accepted iff the predicate parses to at least one statement |
| Predicates.VerifyVEX | pkg/core/verify/vex.go:26-75 | each id, the name or else the @id, has the status of the last statement naming it |
| Predicates.PrimaryDigest | pkg/core/evidence_codec.go:34-48 | for any iteration order an entry of the set, and sha256 or else the least name when no name is empty |
| Predicates.PrimaryIsUnique | pkg/core/evidence_codec.go:31-48 | so the choice is a function of the set |
| Predicates.ParseDigestIff | pkg/core/evidence_codec.go:17-29 | a digest text is read iff it is a non-empty algorithm, the first colon and a non-empty rest; any other gives an artifact without digests |
| Predicates.ParsedDigestIsPrimary | pkg/core/evidence_codec.go:17-29 | alg:hex makes a one-entry set with a non-empty name, which is its primary digest |
| Engine.FirstVerifiedIsFirst | pkg/core/engine/engine.go:47-53 | the first verified result exists iff some result verified, and none before it did |
| Engine.FoldResult | pkg/core/engine/engine.go:43-54 | one more result keeps the fold invariant |
| Engine.FoldSignatures | pkg/core/engine/engine.go:36-70 | the flags are disjunctions over all results; identity and log flag are those of the first verified, the blob last |
| Engine.RoutePredicates | pkg/core/engine/engine.go:82-104 | each slot is its verifier on the last attestation that decodes and routes to it, else zero |
| Engine.ProjectSbom | pkg/core/engine/engine.go:127-138 | the view holds the sorted non-empty licences |
| Engine.ProjectVex | pkg/core/engine/engine.go:142-152 | the view lists exactly the affected ids, strictly sorted, for any map order |
| Engine.ProjectViews | pkg/core/engine/engine.go:36-161 | all five views are those of the evidence |
| Engine.BuildSummary | pkg/core/engine/engine.go:183-201 | the summary names the artifact, every attestation type in order, and the identity if there is one |
| Engine.Evaluate | pkg/core/engine/engine.go:28-180 | the decision is the policy's answer on those views, labelled name@version, with the summary of the evidence and the clock's time |
| EngineTheorems.ViewsAreFaithful | pkg/core/engine/engine.go:118-166 | the views comply iff the evidence does, stated without views |
| EngineTheorems.AllowsExactlyCompliantEvidence | pkg/core/engine/engine.go:28-180 | end to end: enforce and unknown modes allow exactly the compliant evidence; audit and warn as promised |
| EngineTheorems.RekorOnlyDemandsASignature | pkg/core/policy/evaluate.go:165-181 | a policy asking only for a log entry allows only evidence with a verified, logged signature |
| EngineTheorems.EveryResultIsCoherent | pkg/core/verify/signature.go:8-19 | every result the fold sees is coherent |
| EngineTheorems.LevelsEndAtThree | pkg/core/verify/slsa.go:135-143 | a minimum level above 3 allows nothing, and 3 allows only https builders with a build type |
| EngineTheorems.UnsignedEvidencePassesIff | pkg/core/policy/evaluate.go:139-161 | exactly when evidence without any verified signature passes the signature rules |
| EngineTheorems.EvaluateIsDeterministic | pkg/core/engine/engine.go:140-180 | whatever order the maps are walked in, runs whose libraries answer alike return the same decision, reasons and summary included |
| EngineTheorems.OnlyTheLastOfEachClassCounts | pkg/core/engine/engine.go:72-152 | rearranging attestations without changing the last of each class leaves SLSA, SBOM, VEX and identity views unchanged |
| EngineTheorems.LastOfIsLast | pkg/core/engine/engine.go:72-104 | what counts as last: of its class, with none of its class after it |
| EngineTheorems.BuildsAgreeWithoutSignatureRule | core/wasm/parity_test.go:1-14 | without a signature rule native and wasm return the same decision |
| EngineTheorems.BuildsAgreeOnKeyedEvidence | pkg/core/verify/sigstore_wasm.go:30-42 | with only keyed attestations and no blob they agree for every policy |
| EngineTheorems.WasmSeesLess | pkg/core/verify/blob_signature_wasm.go:15-21 | result by result, wasm repeats native or is unavailable, and never reports a log entry |
| EngineTheorems.WasmAllowCarriesOver | pkg/core/verify/sigstore_native.go:86-91 | after a wasm allow under an enforcing policy, native allows iff its first verified signer meets the keyless rule; always if there is none |
| SignatureTheorems.UnavailableInWasmIff | core/wasm/parity_test.go:7-13 | in wasm a signature rule yields SIGNATURE_VERIFICATION_UNAVAILABLE iff no attestation is a keyed bundle |
| SignatureTheorems.WasmAllowsSignedIff | pkg/core/verify/sigstore_wasm.go:30-42 | in wasm a required signature is allowed iff a keyed bundle verifies, no log entry is required, the keyless rule is met and the rest complies; never under a keyless rule with an issuer |
| SignatureTheorems.KeylessRuleAloneIsOpenIff | pkg/core/policy/evaluate.go:139-161 | a keyless rule that requires nothing, nothing verified: allowed iff the rest complies and there is, natively, any attestation or blob signature at all, or, in wasm, any keyed bundle |
| SignatureTheorems.CacheServes | pkg/core/verify/sigstore_native.go:40-56 | for every run of the cache, the calls of one evaluation see a live root that never vanishes once found, and never changes without a refresh |
| SignatureTheorems.LiveRootIsUnseenIff | pkg/core/verify/sigstore_native.go:97-119 | with or without refresh: the signature results are the same for every live root, fetched or not, iff the build is wasm, a root is injected, or every attestation and blob is keyed or is nothing sigstore-go can parse or be asked about |
| SignatureTheorems.LiveRootCannotFlip | pkg/core/verify/sigstore_native.go:97-112 | under that condition two runs that differ only in the live root return the same decision |
| SignatureTheorems.DecidingProvenanceIsSignedIff | pkg/core/engine/engine.go:36-104 | under a required signature and a provenance rule, with the rest complying: whatever the network answers, evidence is allowed only if the type and payload of the deciding provenance were signed, iff nothing may verify at all, or what its verifier checks is what is routed and nothing verifies without it; a copy of the same keyless bundle is harmless before it or under an injected root, and with refresh only the latter |
| SignatureTheorems.KeyedMustBeSignedIff | pkg/core/verify/dsse.go:49-110 | for a verified keyed bundle as deciding provenance that condition says the bundle holds under content what is routed; it does unless something overrides |
| SignatureTheorems.AllowedProvenanceIsSigned | pkg/core/engine/engine.go:36-104 | for every policy that requires a signature or a log entry: under that condition what is allowed has the type and payload of its deciding provenance signed, by the bundle's own leaf and signature or as the envelope of the bundle sigstore-go verified |
| Documents.KeyedIffNotLogged | pkg/core/verify/keyed_signature.go:55-75 | a bundle written out is taken as keyed iff it has a non-empty certificate, no or no listed log entries, and anchors are configured; any other goes to sigstore-go natively and is unavailable in wasm |
| Documents.BlobDocVerifiesIff | pkg/core/verify/blob_signature.go:76-162 | a blob bundle written out, with a certificate: the message signature at top level wins over the one under content, without either it is refused; without log entries and under anchors it verifies iff it names the digest and the leaf signed it, else sigstore-go decides |
| Documents.BlobWithoutCertificate | pkg/core/verify/blob_signature.go:101-111 | without a certificate, or with an empty one, sigstore-go decides |
| Worlds.WorldComplies | pkg/core/engine/engine.go:28-180 | every signer, provenance, licence list, identity and findings is shown to the engine by some evidence, which complies iff they do |
| Worlds.EvidenceWeakensIsExact | pkg/core/policy/evaluate.go:94-458 | over all evidence, libraries and builds, q complies wherever p does iff p weakens to q; coarser than the order on views, since a log entry implies a signature and levels end at 3 |
| Worlds.NoOriginMeetsIff | pkg/core/verify/slsa.go:135-143 | a provenance rule can be met by no builder iff it asks for more than level 3, or for 3 while no allowed builder is an https URI |
| Worlds.WeakeningKeepsEngineAllow | pkg/core/engine/engine.go:28-180 | on the same evidence a policy that is weaker in that order does not deny |
| Worlds.KeyedDocVerifiesIff | pkg/core/verify/keyed_signature.go:55-213 | a keyed bundle as forgeseal writes it verifies iff its certificate chains and its ECDSA key checks the signature over the encoding of its payload |
| Worlds.KeyedDocRoutes | pkg/core/verify/dsse.go:49-110 | that bundle is routed with the payload it was signed for; with another envelope at top level the verdict stays and the other payload is routed |
| Worlds.KeylessRuleAdmitsUnreadable | pkg/core/policy/evaluate.go:139-161 | a run that allows one refused, unreadable attestation under a keyless rule |
| Worlds.WasmAllowsSigned | core/wasm/parity_test.go:7-13 | a wasm run that allows under a required signature |
| Worlds.LiveRootFlips | pkg/core/verify/sigstore_native.go:104-112 | two runs on the same evidence and policy, allow with the live root and deny without |
| Worlds.UnsignedProvenanceDecides | pkg/core/engine/engine.go:36-104 | a run that allows under a required signature and a level although the deciding provenance is refused by the signature verifier |
| Worlds.OverriddenBundleDecides | pkg/core/verify/dsse.go:49-110 | a run that allows under a required signature and level 3 on one verified keyed bundle although its own key does not check the provenance that is routed |
| TrustRootCache.LiveRoot.Fetch | pkg/core/verify/sigstore_native.go:40-56 | one call: a hit returns the cached root, a miss caches and returns what the constructor gives, and an error leaves the cache empty |
| TrustRootCache.StepKeepsInv | pkg/core/verify/sigstore_native.go:40-56 | every step of every caller keeps mutual exclusion and the agreement of cache, lock and event log |
| TrustRootCache.RunKeepsInv | pkg/core/verify/sigstore_native.go:40-56 | hence every state of every interleaving satisfies it |
| TrustRootCache.TenureActsLikeFetch | pkg/core/verify/sigstore_native.go:41-55 | while a caller holds the lock nobody else touches the cache or the constructor; on a hit it constructs nothing and returns the cached root, on a miss it constructs once and returns and leaves what that call gave |
| TrustRootCache.CallCanRun | pkg/core/verify/sigstore_native.go:40-56 | conversely, while the lock is free every call can run to its end, with either outcome of the constructor, and does what Fetch promises |
| TrustRootCache.OneRootForAll | pkg/core/verify/sigstore_native.go:25-56 | constructor calls never overlap, at most one succeeds, none starts after it, and every root handed out is that one |
| TrustRootCache.SuccessesAreReal | pkg/core/verify/sigstore_native.go:54-55 | a returned root was produced by an earlier constructor call of the run |
| TrustRootCache.RootsAreKept | pkg/core/verify/sigstore_native.go:44-46 | for every interleaving: once a call of some caller got a root, each later call of it gets that root |
| TrustRootCache.FailuresAreRetried | pkg/core/verify/sigstore_native.go:48-52 | an error comes only from the caller's own failed construction, and the next thing to happen is a fresh attempt |
| TrustRootCache.NoDeadlock | pkg/core/verify/sigstore_native.go:41-42 | while some caller is inside a call, some caller inside a call can move |
| Bundle.MemoryStore.Push | internal/bundle/bundle.go:104-106 | a push adds the blob unless its key is taken |
| Bundle.SortedNames | internal/bundle/bundle.go:85-89 | for any map order: the file names, strictly increasing |
| Bundle.PushLayers | internal/bundle/bundle.go:91-109 | fails iff two files share a store key; otherwise one layer per name, each blob stored under its own key |
| Bundle.Pack | internal/bundle/bundle.go:80-125 | succeeds iff no two files agree in digest and size, and then layers, config and store describe exactly these files, each under its media type |
| Bundle.PackIsDeterministic | internal/bundle/bundle.go:83-121 | layers and config do not depend on the map order |
| Bundle.Pull | internal/bundle/bundle.go:204-232 | an error for a missing blob or a file that does not parse; otherwise the titled layers as a map |
| Bundle.PullInvertsPack | internal/bundle/bundle.go:204-232 | pulling a packed bundle succeeds iff every titled file parses, and returns all files and the metadata iff no name is empty |
| Bundle.TagFromRef | internal/bundle/bundle.go:272-289 | the text after the last colon behind a slash, else latest |
| Bundle.PortIsNoTag | internal/bundle/bundle.go:270-271 | host:port/repo:tag has its tag found, and the port is never taken for one |
| Adapter.ClassifyTreeIff | internal/forgeseal/adapter.go:327-387 | for every document: an SBOM iff its last bomFormat string is CycloneDX; else VEX iff its context mentions openvex.dev; else a statement iff its type is an in-toto statement with a provenance predicate; else a bundle iff the envelope it gives wraps provenance; else a blob signature iff it gives no envelope but a message signature |
| Adapter.ClassifiedFilesParse | internal/forgeseal/adapter.go:241-276 | a classified file is valid JSON, and a file classified as a bundle validates as one |
| Adapter.NullFieldsAreAbsent | internal/forgeseal/adapter.go:198-228 | for every object, an explicit null envelope or message signature is classified as if it were absent, at either level |
| Adapter.ScanFiles | internal/forgeseal/adapter.go:84-106 | last bundle, first statement, last SBOM and last VEX, skipping directories and unreadable files |
| Adapter.AppendRaw | internal/forgeseal/adapter.go:151-175 | a raw document found by the scan is always wrapped and appended |
| Adapter.EvidenceFromOutput | internal/forgeseal/adapter.go:78-178 | for every readable listing: fails iff no file is a CycloneDX document, a provenance bundle or a provenance statement, else SLSA, SBOM, VEX in that order, under their types |
| Adapter.WrappedDecodes | internal/forgeseal/adapter.go:300-310 | `DecodeDSSE` opens what the adapter wrapped, to the same payload |
| Adapter.TypesRouteToTheirClass | internal/forgeseal/adapter.go:134-172 | each of the three predicate types is routed to its own verifier and no other |
| Adapter.WrappingIsUndone | internal/forgeseal/adapter.go:274-298 | a wrapped JSON value is routed by its type and reaches the verifier unchanged, unless it exhausts the nesting limit; then it is routed nowhere |
| Adapter.WrappedDocumentSays | internal/forgeseal/adapter.go:274-310 | what wrapping writes, field by field: an unsigned in-toto envelope around a statement about the one subject, with the document as predicate |
| Adapter.WrappedStatementRoutes | internal/forgeseal/adapter.go:137-146 | a wrapped provenance statement is routed as provenance iff no predicateType in it is of the wrong kind |
| Adapter.EngineSeesTheFiles | internal/forgeseal/adapter.go:120-175 | from directory to engine: at most three attestations; the SBOM and VEX verifiers see the last file of their kind; the SLSA verifier sees what the router opens in the last bundle, or nothing if that names no provenance, and it is the payload the classifier read if the router opens the same envelope; without a bundle it sees the first statement, or nothing if its type is unreadable |
| Adapter.CycloneDxReachesTheVerifier | internal/forgeseal/adapter.go:78-178 | a listing with a readable CycloneDX document yields evidence in which the SBOM verifier is handed the last such document |
| Adapter.RouterFollowsClassifierIff | internal/forgeseal/adapter.go:208-219 | the router opens the envelope the classifier looked into iff the document has no payload type of its own, its envelopes decode, and that envelope has a type |
| Adapter.ClassifiedBundleRoutes | internal/forgeseal/adapter.go:346-387 | if that holds, a bundle classified as provenance is routed as provenance, with the payload the classifier read, even when dsseEnvelope is given more than once |
| Adapter.BundledStatementIsRecognised | internal/forgeseal/adapter.go:208-219 | the envelope of a readable provenance statement, put in a bundle at either level, is recognised and routed as provenance |

## Left out

- Cryptography, certificate chains, sigstore-go, go-spiffe and the CycloneDX, OpenVEX and protojson parsers: library code, taken as arbitrary functions. The PEM loops only feed a certificate pool.
- `VerifyIdentity`: a chain of go-spiffe calls, taken as one library function of identity, artifact and roots, the clock included.
- JSON and YAML text: documents are trees. An array given twice for one field replaces the earlier one; encoding/json decodes it over the earlier elements.
- Policy parsing (`Parse`), the strict evidence decoder and the legacy image field: decoders around the core, easy members.
- `Attestation.Verified`, which the decision never reads, and error texts.
- Invalid UTF-8 in strings handed directly to the Go API: such a pattern fails to compile and matches nothing.
- The manifest blob and its digest from `oras.PackManifest`, and the transfer between registries: `Bundle.Pull` reads the store that was packed.
- `DetectSigningCA`, the OCI, HTTP, command-line, webhook, npm and Cloudflare surfaces: plumbing.
- `deriveKey` and the rest of the fixture generator.
- Predicates.PrimaryDigest: when an algorithm name is empty and sha256 is absent, only that some entry is returned; the source's choice then depends on the iteration order.
- EngineTheorems.BuildsAgreeWithoutSignatureRule: the two builds are given the same libraries; that the identity library behaves alike on both targets is not part of this model.
- Worlds.EvidenceWeakensIsExact: ranges over every identity verifier; one that only ever reports trust domains of the form `spiffe://name` relates more identity rules than this order does.
- SignatureTheorems.AllowedProvenanceIsSigned: for a keyless bundle, that sigstore-go's verification covers the envelope it parsed is taken from sigstore-go.
- TrustRootCache.LiveRoot.Fetch: stated for one call under the lock; overlapping calls are the subject of the step lemmas, and `TenureActsLikeFetch` connects the two.
