/** Envelopes: decoding (pkg/core/verify/dsse.go) and the signature verifiers
    (keyed_signature.go, sigstore_native.go, sigstore_wasm.go, blob_signature.go,
    blob_signature_wasm.go). */
module Envelope {
  import opened Prelude
  import opened Json
  import opened Evidence
  import opened Encoding
  import Pae

  // --- DecodeDSSE -----------------------------------------------------------------

  datatype DsseEnvelope = DsseEnvelope(payloadType: string, payload: string)
  datatype DecodedEnvelope = DecodedEnvelope(payloadType: string, payload: bytes)

  function ReadEnvelope(m: seq<Member>): Option<DsseEnvelope> {
    var payloadType, payload := StringField(m, "payloadType"), StringField(m, "payload");
    if payloadType.None? || payload.None? then None else Some(DsseEnvelope(payloadType.value, payload.value))
  }

  // A *dsseEnvelope field: outer None is a decoding error, inner None the nil pointer.
  function EnvelopeField(m: seq<Member>): Option<Option<DsseEnvelope>> {
    match PointerField(m, "dsseEnvelope")
    case None => None
    case Some(None) => Some(None)
    case Some(Some(e)) =>
      var env := ReadEnvelope(e);
      if env.None? then None else Some(env)
  }

  // The three shapes of DecodeDSSE.
  datatype Shape = Bare | TopLevel | Nested

  // extractBundleDSSE: the top-level envelope, else the one under content.
  function ExtractBundleEnvelope(m: seq<Member>): Option<(Shape, DsseEnvelope)> {
    var content := StructField(m, "content");
    if StringField(m, "mediaType").None? || content.None? then None
    else
      var top, nested := EnvelopeField(m), EnvelopeField(content.value);
      if top.None? || nested.None? then None
      else if top.value.Some? && top.value.value.payloadType != "" then Some((TopLevel, top.value.value))
      else if nested.value.Some? && nested.value.value.payloadType != "" then Some((Nested, nested.value.value))
      else None
  }

  // The envelope DecodeDSSE opens, and where it found it.
  function Select(m: seq<Member>): Option<(Shape, DsseEnvelope)> {
    match ReadEnvelope(m)
    case None => None
    case Some(bare) => if bare.payloadType != "" then Some((Bare, bare)) else ExtractBundleEnvelope(m)
  }

  function Open(env: DsseEnvelope): Option<DecodedEnvelope> {
    match DecodePayload(env.payload)
    case None => None
    case Some(payload) => Some(DecodedEnvelope(env.payloadType, payload))
  }

  function DecodeMembers(m: seq<Member>): Option<DecodedEnvelope> {
    match Select(m)
    case None => None
    case Some((_, env)) => Open(env)
  }

  function DecodeDSSE(lib: Libraries, envelope: bytes): Option<DecodedEnvelope> {
    match lib.parseJson(envelope)
    case None => None
    case Some(j) =>
      match Fields(j)
      case None => None
      case Some(m) => DecodeMembers(m)
  }

  // --- What DecodeDSSE opens, on the document -------------------------------------------

  // The object's two envelope fields.
  ghost predicate SaysEnvelope(m: seq<Member>, payloadType: string, text: string) {
    StringField(m, "payloadType") == Some(payloadType) && StringField(m, "payload") == Some(text)
  }

  // The object's dsseEnvelope has these two fields.
  ghost predicate WrapsEnvelope(m: seq<Member>, payloadType: string, text: string) {
    && PointerField(m, "dsseEnvelope").Some? && PointerField(m, "dsseEnvelope").value.Some?
    && SaysEnvelope(PointerField(m, "dsseEnvelope").value.value, payloadType, text)
  }

  // The dsseEnvelope is absent or readable.
  ghost predicate WrapsReadably(m: seq<Member>) {
    || PointerField(m, "dsseEnvelope") == Some(None)
    || exists payloadType, text :: WrapsEnvelope(m, payloadType, text)
  }

  /** The three shapes: the document's own envelope if that has a type, else the one at the top level
      of a bundle if that has one, else the one under content. */
  ghost predicate Opens(m: seq<Member>, payloadType: string, text: string) {
    payloadType != "" &&
    (|| SaysEnvelope(m, payloadType, text)
     || (&& (exists own :: SaysEnvelope(m, "", own))
         && StringField(m, "mediaType").Some? && StructField(m, "content").Some?
         && WrapsReadably(m) && WrapsReadably(StructField(m, "content").value)
         && (|| WrapsEnvelope(m, payloadType, text)
             || (&& (forall t, x | WrapsEnvelope(m, t, x) :: t == "")
                 && WrapsEnvelope(StructField(m, "content").value, payloadType, text)))))
  }

  // Base64, URL-safe only where the standard alphabet fails.
  ghost predicate DecodesTo(text: string, payload: bytes) {
    || Decode(Standard, text) == Some(payload)
    || (Decode(Standard, text).None? && Decode(UrlSafe, text) == Some(payload))
  }

  /** DecodeDSSE returns a type and payload exactly when the document opens to that type and to a
      text that decodes to that payload. */
  lemma DecodesIff(lib: Libraries, envelope: bytes, payloadType: string, payload: bytes)
    ensures DecodeDSSE(lib, envelope) == Some(DecodedEnvelope(payloadType, payload)) <==>
              exists j, m, text ::
                lib.parseJson(envelope) == Some(j) && Fields(j) == Some(m) && Opens(m, payloadType, text)
                && DecodesTo(text, payload)
  {
    hide Decode, Opens, Select;
    if lib.parseJson(envelope).Some? && Fields(lib.parseJson(envelope).value).Some? {
      var m := Fields(lib.parseJson(envelope).value).value;
      forall t, text ensures Opens(m, t, text) <==> Select(m).Some? && Select(m).value.1 == DsseEnvelope(t, text) {
        OpensIff(m, t, text);
      }
    }
  }

  lemma OpensIff(m: seq<Member>, payloadType: string, text: string)
    ensures Opens(m, payloadType, text) <==> Select(m).Some? && Select(m).value.1 == DsseEnvelope(payloadType, text)
  {
    hide StringField, StructField, PointerField;
    WrapsIff(m);
    if StructField(m, "content").Some? { WrapsIff(StructField(m, "content").value); }
    if ReadEnvelope(m).Some? {
      assert SaysEnvelope(m, ReadEnvelope(m).value.payloadType, ReadEnvelope(m).value.payload);
    }
  }

  lemma WrapsIff(m: seq<Member>)
    ensures WrapsReadably(m) <==> EnvelopeField(m).Some?
    ensures forall t, x :: WrapsEnvelope(m, t, x) <==> EnvelopeField(m) == Some(Some(DsseEnvelope(t, x)))
  {
    hide StringField, StructField, PointerField;
    if EnvelopeField(m).Some? && EnvelopeField(m).value.Some? {
      var env := EnvelopeField(m).value.value;
      assert WrapsEnvelope(m, env.payloadType, env.payload);
    }
  }

  // --- VerifyKeyedBundle ----------------------------------------------------------

  datatype SignedEnvelope = SignedEnvelope(payloadType: string, payload: string, signatures: seq<string>)
  datatype Material = Material(cert: Option<string>, tlogEntries: nat)
  datatype KeyedBundle = KeyedBundle(material: Material, envelope: Option<SignedEnvelope>)

  function ReadMaterial(m: seq<Member>): Option<Material> {
    match StructField(m, "verificationMaterial")
    case None => None
    case Some(vm) =>
      var tlog := SliceField(vm, "tlogEntries");
      if tlog.None? then None
      else
        match PointerField(vm, "certificate")
        case None => None
        case Some(None) => Some(Material(None, |tlog.value|))
        case Some(Some(c)) =>
          var rawBytes := StringField(c, "rawBytes");
          if rawBytes.None? then None else Some(Material(rawBytes, |tlog.value|))
  }

  function ReadSignatures(items: seq<Json>): Option<seq<string>> {
    if items == [] then Some([])
    else
      var first := match Fields(items[0]) case None => None case Some(m) => StringField(m, "sig");
      var rest := ReadSignatures(items[1..]);
      if first.None? || rest.None? then None else Some([first.value] + rest.value)
  }

  function ReadSignedEnvelope(m: seq<Member>): Option<SignedEnvelope> {
    var env, items := ReadEnvelope(m), SliceField(m, "signatures");
    if env.None? || items.None? then None
    else
      var signatures := ReadSignatures(items.value);
      if signatures.None? then None
      else Some(SignedEnvelope(env.value.payloadType, env.value.payload, signatures.value))
  }

  function ReadKeyedBundle(m: seq<Member>): Option<KeyedBundle> {
    var material, content := ReadMaterial(m), StructField(m, "content");
    if material.None? || content.None? then None
    else
      match PointerField(content.value, "dsseEnvelope")
      case None => None
      case Some(None) => Some(KeyedBundle(material.value, None))
      case Some(Some(e)) =>
        var env := ReadSignedEnvelope(e);
        if env.None? then None else Some(KeyedBundle(material.value, env))
  }

  // Certificate present, no transparency-log entries, trust anchors configured.
  predicate ClaimsKeyed(material: Material, roots: TrustRoots) {
    material.cert.Some? && material.cert.value != "" && material.tlogEntries == 0 && roots.signatureCAs != []
  }

  function Subject(leaf: Cert): string {
    if leaf.uris != [] then leaf.uris[0] else ""
  }

  // None: not handled, the caller falls through to its keyless path.
  function VerifyKeyedMembers(lib: Libraries, m: seq<Member>, roots: TrustRoots): Option<SignatureResult> {
    match ReadKeyedBundle(m)
    case None => None
    case Some(b) =>
      if !ClaimsKeyed(b.material, roots) then None
      else
        var der := Decode(Standard, b.material.cert.value);
        if der.None? then Some(REFUSED)
        else
          var leaf := lib.parseCert(der.value);
          if leaf.None? || !lib.chains(leaf.value, roots.signatureCAs) then Some(REFUSED)
          else if b.envelope.None? || b.envelope.value.signatures == [] then Some(REFUSED)
          else
            var env := b.envelope.value;
            var payload := DecodePayload(env.payload);
            if payload.None? then Some(REFUSED)
            else
              var digest := lib.sha256(Pae.Pae(env.payloadType, payload.value));
              var sig := Decode(Standard, env.signatures[0]);
              if sig.None? || leaf.value.ecdsaKey.None? then Some(REFUSED)
              else if !lib.verifyECDSA(leaf.value.ecdsaKey.value, digest, sig.value) then Some(REFUSED)
              else Some(SignatureResult(true, true, "", Subject(leaf.value), false))
  }

  function VerifyKeyedBundle(lib: Libraries, envelope: bytes, roots: TrustRoots): Option<SignatureResult> {
    match lib.parseJson(envelope)
    case None => None
    case Some(j) =>
      match Fields(j)
      case None => None
      case Some(m) => VerifyKeyedMembers(lib, m, roots)
  }

  // --- The two builds of NewSignatureVerifier ---------------------------------------

  datatype Build = Native | Wasm

  // The injected root, else the live root as this call finds it.
  function ResolveRoot(lib: Libraries, call: nat, roots: TrustRoots): Option<bytes> {
    if roots.sigstoreTUF != [] then lib.parseRoot(roots.sigstoreTUF) else lib.liveRoot(call)
  }

  // Common to the two keyless paths: resolve the root, parse, verify, require a certificate.
  function VerifyKeyless(lib: Libraries, call: nat, bundle: bytes, digest: Option<bytes>, roots: TrustRoots)
    : SignatureResult
  {
    var root, parsed := ResolveRoot(lib, call, roots), lib.parseBundle(bundle);
    if root.None? || parsed.None? then REFUSED
    else
      match lib.keyless(root.value, parsed.value, digest)
      case KeylessError => REFUSED
      case KeylessVerified(cert, timestamps) =>
        if cert.None? then REFUSED
        else SignatureResult(true, true, cert.value.issuer, cert.value.san, timestamps > 0)
  }

  // call numbers the attestations, so that the live root may fail for one and not the next.
  function VerifySignature(build: Build, lib: Libraries, call: nat, att: Attestation, roots: TrustRoots)
    : SignatureResult
  {
    match VerifyKeyedBundle(lib, att.envelope, roots)
    case Some(result) => result
    case None => if build.Native? then VerifyKeyless(lib, call, att.envelope, None, roots) else UNAVAILABLE
  }

  // --- VerifyBlobBundle -----------------------------------------------------------

  datatype MessageSignature = MessageSignature(digest: string, signature: string)
  datatype BlobBundle = BlobBundle(material: Material, messageSignature: Option<MessageSignature>)

  function MessageSignatureField(m: seq<Member>): Option<Option<MessageSignature>> {
    match PointerField(m, "messageSignature")
    case None => None
    case Some(None) => Some(None)
    case Some(Some(ms)) =>
      var md, signature := StructField(ms, "messageDigest"), StringField(ms, "signature");
      if md.None? || signature.None? then None
      else
        var algorithm, digest := StringField(md.value, "algorithm"), StringField(md.value, "digest");
        if algorithm.None? || digest.None? then None else Some(Some(MessageSignature(digest.value, signature.value)))
  }

  function ReadBlobBundle(j: Json): Option<BlobBundle> {
    match Fields(j)
    case None => None
    case Some(m) =>
      var material, content := ReadMaterial(m), StructField(m, "content");
      if material.None? || content.None? then None
      else
        var top, nested := MessageSignatureField(m), MessageSignatureField(content.value);
        if top.None? || nested.None? then None
        else Some(BlobBundle(material.value, if top.value.Some? then top.value else nested.value))
  }

  // strings.Cut(s, ":")
  function Cut(s: string): Option<(string, string)> {
    if s == "" then None
    else if s[0] == ':' then Some(("", s[1..]))
    else
      match Cut(s[1..])
      case None => None
      case Some((before, after)) => Some(([s[0]] + before, after))
  }

  function VerifyKeyedBlob(lib: Libraries, b: BlobBundle, digest: bytes, hexText: string, roots: TrustRoots)
    : SignatureResult
    requires b.messageSignature.Some? && b.material.cert.Some?
  {
    var ms := b.messageSignature.value;
    if !BlobDigestMatches(lib.foldOther, ms.digest, digest, hexText) then REFUSED
    else
      var der := Decode(Standard, b.material.cert.value);
      if der.None? then REFUSED
      else
        var leaf := lib.parseCert(der.value);
        if leaf.None? || !lib.chains(leaf.value, roots.signatureCAs) then REFUSED
        else
          var sig := Decode(Standard, ms.signature);
          if sig.None? || leaf.value.ecdsaKey.None? then REFUSED
          else if !lib.verifyECDSA(leaf.value.ecdsaKey.value, digest, sig.value) then REFUSED
          else SignatureResult(true, true, "", Subject(leaf.value), false)
  }

  function VerifyBlobNative(lib: Libraries, call: nat, blob: BlobSignature, roots: TrustRoots): SignatureResult {
    match Cut(blob.artifactDigest)
    case None => REFUSED
    case Some((alg, hexText)) =>
      if alg != "sha256" || hexText == "" then REFUSED
      else
        var digest, j := HexDecode(hexText), lib.parseJson(blob.bundle);
        if digest.None? || j.None? then REFUSED
        else
          match ReadBlobBundle(j.value)
          case None => REFUSED
          case Some(b) =>
            if b.messageSignature.None? then REFUSED
            else if ClaimsKeyed(b.material, roots) then VerifyKeyedBlob(lib, b, digest.value, hexText, roots)
            else VerifyKeyless(lib, call, blob.bundle, digest, roots)
  }

  function VerifyBlob(build: Build, lib: Libraries, call: nat, blob: BlobSignature, roots: TrustRoots)
    : SignatureResult
  {
    if build.Native? then VerifyBlobNative(lib, call, blob, roots) else UNAVAILABLE
  }

  // --- What every verifier result keeps ----------------------------------------------

  ghost predicate Coherent(r: SignatureResult) {
    && (r.rekorLogged ==> r.verified)
    && (r.verified ==> r.available)
    && (!r.verified ==> r.issuer == "" && r.subjectIdentity == "")
  }

  /** Both builds, both kinds of evidence: logged implies verified implies available; the
      native build is always available, and keyed results carry neither issuer nor log entry. */
  lemma ResultsAreCoherent(
    build: Build, lib: Libraries, call: nat, att: Attestation, blob: BlobSignature, roots: TrustRoots)
    ensures Coherent(VerifySignature(build, lib, call, att, roots))
        && Coherent(VerifyBlob(build, lib, call, blob, roots))
    ensures build.Native? ==>
              VerifySignature(build, lib, call, att, roots).available
                  && VerifyBlob(build, lib, call, blob, roots).available
    ensures var r := VerifyKeyedBundle(lib, att.envelope, roots);
            r.Some? ==> r.value.available && !r.value.rekorLogged && r.value.issuer == ""
  {
    hide DecodePayload, Decode, HexDecode, Cut, BlobDigestMatches, ReadKeyedBundle, ReadBlobBundle, Pae.Pae;
  }

  // --- What a bundle document says --------------------------------------------------------

  /** The verification material of the document: its certificate text, if it has a certificate, and
      the number of its log entries. */
  ghost predicate HasMaterial(m: seq<Member>, cert: Option<string>, entries: nat) {
    StructField(m, "verificationMaterial").Some? &&
    var vm := StructField(m, "verificationMaterial").value;
    && SliceField(vm, "tlogEntries").Some? && |SliceField(vm, "tlogEntries").value| == entries
    && match PointerField(vm, "certificate")
       case None => false
       case Some(None) => cert.None?
       case Some(Some(c)) => cert.Some? && StringField(c, "rawBytes") == cert
  }

  // The envelope under content, if there is one.
  ghost predicate HasContent(m: seq<Member>, env: Option<SignedEnvelope>) {
    StructField(m, "content").Some? &&
    match PointerField(StructField(m, "content").value, "dsseEnvelope")
    case None => false
    case Some(None) => env.None?
    case Some(Some(e)) => env.Some? && HasEnvelope(e, env.value)
  }

  ghost predicate HasEnvelope(e: seq<Member>, env: SignedEnvelope) {
    && StringField(e, "payloadType") == Some(env.payloadType)
    && StringField(e, "payload") == Some(env.payload)
    && SliceField(e, "signatures").Some?
    && HasSignatures(SliceField(e, "signatures").value, env.signatures)
  }

  ghost predicate HasSignatures(items: seq<Json>, sigs: seq<string>) {
    && |items| == |sigs|
    && forall i | 0 <= i < |items| ::
         Fields(items[i]).Some? && StringField(Fields(items[i]).value, "sig") == Some(sigs[i])
  }

  lemma {:induction false} SignaturesRead(items: seq<Json>, sigs: seq<string>)
    ensures ReadSignatures(items) == Some(sigs) <==> HasSignatures(items, sigs)
  {
    hide StringField, Fields;
    if items != [] && sigs != [] {
      SignaturesRead(items[1..], sigs[1..]);
      assert sigs == [sigs[0]] + sigs[1..];
      assert items == [items[0]] + items[1..];
    }
    if items != [] && ReadSignatures(items).Some? {
      assert ReadSignatures(items).value != [];
    }
  }

  lemma MaterialReads(m: seq<Member>, material: Material)
    ensures ReadMaterial(m) == Some(material) <==> HasMaterial(m, material.cert, material.tlogEntries)
  {
    hide StringField, StructField, SliceField, PointerField;
  }

  lemma EnvelopeReads(e: seq<Member>, env: SignedEnvelope)
    ensures ReadSignedEnvelope(e) == Some(env) <==> HasEnvelope(e, env)
  {
    hide StringField, StructField, SliceField, PointerField, ReadSignatures, HasSignatures;
    if SliceField(e, "signatures").Some? {
      SignaturesRead(SliceField(e, "signatures").value, env.signatures);
    }
  }

  /** The keyed verifier reads exactly what the document says. */
  lemma KeyedBundleReads(m: seq<Member>, b: KeyedBundle)
    ensures ReadKeyedBundle(m) == Some(b)
       <==> HasMaterial(m, b.material.cert, b.material.tlogEntries) && HasContent(m, b.envelope)
  {
    hide StringField, StructField, SliceField, PointerField, ReadMaterial, ReadSignedEnvelope, HasMaterial, HasEnvelope;
    MaterialReads(m, b.material);
    if StructField(m, "content").Some? && b.envelope.Some? {
      var e := PointerField(StructField(m, "content").value, "dsseEnvelope");
      if e.Some? && e.value.Some? {
        EnvelopeReads(e.value.value, b.envelope.value);
      }
    }
  }

  // The message signature in this object, if there is one.
  ghost predicate HasMessageSignature(m: seq<Member>, ms: Option<MessageSignature>) {
    match PointerField(m, "messageSignature")
    case None => false
    case Some(None) => ms.None?
    case Some(Some(s)) =>
      && ms.Some? && StringField(s, "signature") == Some(ms.value.signature)
      && StructField(s, "messageDigest").Some?
      && StringField(StructField(s, "messageDigest").value, "algorithm").Some?
      && StringField(StructField(s, "messageDigest").value, "digest") == Some(ms.value.digest)
  }

  // The one at the top level, and without one the one under content.
  ghost predicate HasBlobSignature(m: seq<Member>, ms: Option<MessageSignature>) {
    && StructField(m, "content").Some?
    && exists top, nested ::
         && HasMessageSignature(m, top) && HasMessageSignature(StructField(m, "content").value, nested)
         && ms == if top.Some? then top else nested
  }

  lemma MessageSignatureReads(m: seq<Member>, ms: Option<MessageSignature>)
    ensures MessageSignatureField(m) == Some(ms) <==> HasMessageSignature(m, ms)
  {
    hide StringField, StructField, PointerField;
  }

  /** The blob verifier reads exactly what the document says. */
  lemma BlobBundleReads(m: seq<Member>, b: BlobBundle)
    ensures ReadBlobBundle(Obj(m)) == Some(b)
       <==> HasMaterial(m, b.material.cert, b.material.tlogEntries) && HasBlobSignature(m, b.messageSignature)
  {
    hide StringField, StructField, PointerField, ReadMaterial, MessageSignatureField, HasMaterial, HasMessageSignature;
    MaterialReads(m, b.material);
    forall top ensures MessageSignatureField(m) == Some(top) <==> HasMessageSignature(m, top) {
      MessageSignatureReads(m, top);
    }
    if StructField(m, "content").Some? {
      var c := StructField(m, "content").value;
      forall nested ensures MessageSignatureField(c) == Some(nested) <==> HasMessageSignature(c, nested) {
        MessageSignatureReads(c, nested);
      }
    }
  }

  // --- When a keyed bundle is verified ------------------------------------------------

  // The leaf certificate the material carries.
  ghost function OwnLeaf(lib: Libraries, material: Material): Option<Cert> {
    if material.cert.None? || Decode(Standard, material.cert.value).None? then None
    else lib.parseCert(Decode(Standard, material.cert.value).value)
  }

  // A leaf that chains to the configured anchors checks this signature text over this digest.
  ghost predicate LeafSigned(lib: Libraries, roots: TrustRoots, leaf: Option<Cert>, digest: bytes, signature: string) {
    && leaf.Some? && lib.chains(leaf.value, roots.signatureCAs) && leaf.value.ecdsaKey.Some?
    && Decode(Standard, signature).Some?
    && lib.verifyECDSA(leaf.value.ecdsaKey.value, digest, Decode(Standard, signature).value)
  }

  // The result for a leaf that signed: no issuer, its first URI, no log entry.
  ghost predicate NamesLeaf(r: SignatureResult, leaf: Option<Cert>) {
    && leaf.Some?
    && r == SignatureResult(true, true, "", if leaf.value.uris == [] then "" else leaf.value.uris[0], false)
  }

  /** The bundle's own leaf made the bundle's own first signature over this type and payload. */
  ghost predicate BundleSigns(lib: Libraries, roots: TrustRoots, m: seq<Member>, payloadType: string, payload: bytes) {
    ReadKeyedBundle(m).Some? &&
    var b := ReadKeyedBundle(m).value;
    b.envelope.Some? && b.envelope.value.signatures != []
    && LeafSigned(lib, roots, OwnLeaf(lib, b.material), lib.sha256(Pae.Pae(payloadType, payload)),
                  b.envelope.value.signatures[0])
  }

  // The type and payload the bundle holds under content.
  ghost predicate BundleHolds(m: seq<Member>, payloadType: string, payload: bytes) {
    && ReadKeyedBundle(m).Some? && ReadKeyedBundle(m).value.envelope.Some?
    && ReadKeyedBundle(m).value.envelope.value.payloadType == payloadType
    && DecodePayload(ReadKeyedBundle(m).value.envelope.value.payload) == Some(payload)
  }

  // A readable bundle with a certificate and no log entries, while anchors are configured.
  ghost predicate IsHandled(m: seq<Member>, roots: TrustRoots) {
    && roots.signatureCAs != []
    && (exists cert :: cert != "" && HasMaterial(m, Some(cert), 0))
    && exists env :: HasContent(m, env)
  }

  /** For every document: the keyed verifier handles it exactly when it says it is a bundle with a
      certificate and no log entries, and anchors are configured; and it reports verified exactly
      when the bundle's own leaf signed the type and payload the bundle holds. */
  lemma KeyedVerifiedIff(lib: Libraries, m: seq<Member>, roots: TrustRoots)
    ensures VerifyKeyedMembers(lib, m, roots).Some? <==> IsHandled(m, roots)
    ensures VerifyKeyedMembers(lib, m, roots).Some? ==>
              var r := VerifyKeyedMembers(lib, m, roots).value;
              && (r.verified <==> exists t, p :: BundleHolds(m, t, p) && BundleSigns(lib, roots, m, t, p))
              && ReadKeyedBundle(m).Some?
              && (if r.verified then NamesLeaf(r, OwnLeaf(lib, ReadKeyedBundle(m).value.material)) else r == REFUSED)
  {
    hide Decode, DecodePayload, ReadKeyedBundle, Pae.Pae, HasMaterial, HasContent;
    HandledIfClaimed(m, roots);
    if VerifyKeyedMembers(lib, m, roots).Some? {
      var b := ReadKeyedBundle(m).value;
      if b.envelope.Some? && DecodePayload(b.envelope.value.payload).Some? {
        var t, p := b.envelope.value.payloadType, DecodePayload(b.envelope.value.payload).value;
        assert BundleHolds(m, t, p);
        assert VerifyKeyedMembers(lib, m, roots).value.verified ==> BundleSigns(lib, roots, m, t, p);
        assert forall t', p' | BundleHolds(m, t', p') :: t' == t && p' == p;
      }
    }
  }

  lemma HandledIfClaimed(m: seq<Member>, roots: TrustRoots)
    ensures ReadKeyedBundle(m).Some? && ClaimsKeyed(ReadKeyedBundle(m).value.material, roots) <==> IsHandled(m, roots)
  {
    hide ReadKeyedBundle, HasMaterial, HasContent;
    if ReadKeyedBundle(m).Some? {
      KeyedBundleReads(m, ReadKeyedBundle(m).value);
      var b := ReadKeyedBundle(m).value;
      assert HasContent(m, b.envelope);
      forall cert | HasMaterial(m, Some(cert), 0) ensures b.material == Material(Some(cert), 0) {
        KeyedBundleReads(m, KeyedBundle(Material(Some(cert), 0), b.envelope));
      }
      if ClaimsKeyed(b.material, roots) {
        assert HasMaterial(m, Some(b.material.cert.value), 0);
      }
    }
    if IsHandled(m, roots) {
      var cert :| cert != "" && HasMaterial(m, Some(cert), 0);
      var env :| HasContent(m, env);
      KeyedBundleReads(m, KeyedBundle(Material(Some(cert), 0), env));
    }
  }

  // --- What is verified is what is routed --------------------------------------------

  // DecodeDSSE prefers another envelope to the one under content: the document's own payloadType,
  // or a top-level dsseEnvelope with one.
  predicate Overridden(m: seq<Member>) {
    || StringField(m, "payloadType") != Some("")
    || (EnvelopeField(m).Some? && EnvelopeField(m).value.Some? && EnvelopeField(m).value.value.payloadType != "")
  }

  /** Without an override, the keyed verifier and the router read the same type and payload. */
  lemma RoutedComesFromContent(m: seq<Member>)
    requires ReadKeyedBundle(m).Some? && DecodeMembers(m).Some? && !Overridden(m)
    ensures BundleHolds(m, DecodeMembers(m).value.payloadType, DecodeMembers(m).value.payload)
  {
    hide DecodePayload, ReadSignatures, ReadMaterial, StringField, StructField, SliceField, PointerField;
  }

  /** A keyed bundle without an override: the bundle's own leaf made the bundle's own signature
      over exactly the type and payload handed on to the predicate verifiers. */
  lemma RoutedIsSigned(lib: Libraries, m: seq<Member>, roots: TrustRoots)
    requires VerifyKeyedMembers(lib, m, roots).Some? && VerifyKeyedMembers(lib, m, roots).value.verified
    requires DecodeMembers(m).Some? && !Overridden(m)
    ensures BundleSigns(lib, roots, m, DecodeMembers(m).value.payloadType, DecodeMembers(m).value.payload)
  {
    hide DecodePayload, Decode, ReadKeyedBundle, Pae.Pae, DecodeMembers, Overridden, LeafSigned, VerifyKeyedMembers;
    KeyedVerifiedIff(lib, m, roots);
    RoutedComesFromContent(m);
  }

  // --- The override is real, and nothing else breaks the link ------------------------

  // The bundle with this envelope at the top level.
  function WithTop(m: seq<Member>, env: seq<Member>): seq<Member> {
    With(m, "dsseEnvelope", Obj(env))
  }

  // The same bundle around another content envelope.
  function WithContent(m: seq<Member>, env: seq<Member>): seq<Member> {
    With(m, "content", Obj([Member("dsseEnvelope", Obj(env))]))
  }

  // Keys that are told apart by their length or a letter.
  lemma KeysDiffer()
    ensures !SameKey("dsseEnvelope", "verificationMaterial") && !SameKey("dsseEnvelope", "content")
    ensures !SameKey("dsseEnvelope", "payloadType") && !SameKey("dsseEnvelope", "payload")
    ensures !SameKey("dsseEnvelope", "mediaType")
    ensures !SameKey("content", "payloadType") && !SameKey("content", "mediaType")
        && !SameKey("content", "dsseEnvelope")
    ensures !SameKey("content", "payload") && !SameKey("content", "verificationMaterial")
  {
    assert Encoding.FoldAscii("content"[0]) != Encoding.FoldAscii("payload"[0]);
  }

  lemma OneValue(v: Json)
    ensures Pointed([v]) == (if v.Null? then Some(None) else if v.Obj? then Some(Some(v.members)) else None)
    ensures Merged([v]) == Fields(v)
    ensures LastString([v]) == (if v.Null? then Some("") else if v.Str? then Some(v.s) else None)
  {
    assert [v][..0] == [];
    assert Fields(v).Some? ==> [] + Fields(v).value == Fields(v).value;
  }

  /** The keyed verifier never looks at the top level: put any readable envelope with a type
      there, and the verdict stays while the router opens the new envelope. */
  lemma OverrideKeepsTheVerdict(lib: Libraries, m: seq<Member>, env: seq<Member>, roots: TrustRoots)
    requires StringField(m, "payloadType") == Some("") && StringField(m, "payload").Some?
    requires StringField(m, "mediaType").Some? && StructField(m, "content").Some?
    requires EnvelopeField(StructField(m, "content").value).Some?
    requires ReadEnvelope(env).Some? && ReadEnvelope(env).value.payloadType != ""
    ensures VerifyKeyedMembers(lib, WithTop(m, env), roots) == VerifyKeyedMembers(lib, m, roots)
    ensures Overridden(WithTop(m, env)) && DecodeMembers(WithTop(m, env)) == Open(ReadEnvelope(env).value)
  {
    hide DecodePayload, Decode, Pae.Pae, With, Values, SameKey, Pointed, Merged, LastString;
    var m' := WithTop(m, env);
    KeysDiffer();
    SameKeyIsAnEquivalence("dsseEnvelope", "dsseEnvelope", "dsseEnvelope");
    forall key | key in ["verificationMaterial", "content", "payloadType", "payload", "mediaType"]
      ensures Values(m', key) == Values(m, key)
    {
      ValuesWith(m, "dsseEnvelope", Obj(env), key);
    }
    ValuesWith(m, "dsseEnvelope", Obj(env), "dsseEnvelope");
    OneValue(Obj(env));
    SameReading(lib, m, m', roots);
    assert EnvelopeField(m') == Some(ReadEnvelope(env));
  }

  lemma SameReading(lib: Libraries, m: seq<Member>, m': seq<Member>, roots: TrustRoots)
    requires forall key | key in ["verificationMaterial", "content", "payloadType", "payload", "mediaType"] ::
               Values(m', key) == Values(m, key)
    ensures VerifyKeyedMembers(lib, m', roots) == VerifyKeyedMembers(lib, m, roots)
    ensures ReadEnvelope(m') == ReadEnvelope(m)
    ensures StructField(m', "content") == StructField(m, "content")
    ensures StringField(m', "mediaType") == StringField(m, "mediaType")
  {
    hide DecodePayload, Decode, Pae.Pae, Values, Pointed, Merged, LastString;
    var keys := ["verificationMaterial", "content", "payloadType", "payload", "mediaType"];
    assert keys[0] in keys && keys[1] in keys && keys[2] in keys && keys[3] in keys && keys[4] in keys;
    assert ReadKeyedBundle(m') == ReadKeyedBundle(m);
  }

  // A bundle that verifies, decodes, and is routed with the content it was verified for.
  ghost predicate RoutesItsContent(m: seq<Member>) {
    DecodeMembers(m).Some? && BundleHolds(m, DecodeMembers(m).value.payloadType, DecodeMembers(m).value.payload)
  }

  /** The condition of RoutedIsSigned is exact. Take two bundles that differ only in the content
      envelope, both verified and both routed, holding different things: each is routed with what
      was verified if and only if nothing overrides. */
  lemma RoutingIsFaithfulIff(lib: Libraries, roots: TrustRoots, m: seq<Member>, env1: seq<Member>, env2: seq<Member>)
    requires var m1, m2 := WithContent(m, env1), WithContent(m, env2);
             && VerifyKeyedMembers(lib, m1, roots).Some? && VerifyKeyedMembers(lib, m1, roots).value.verified
             && VerifyKeyedMembers(lib, m2, roots).Some? && VerifyKeyedMembers(lib, m2, roots).value.verified
             && DecodeMembers(m1).Some? && DecodeMembers(m2).Some?
             && !exists t, p :: BundleHolds(m1, t, p) && BundleHolds(m2, t, p)
    ensures RoutesItsContent(WithContent(m, env1)) && RoutesItsContent(WithContent(m, env2))
       <==> !Overridden(WithContent(m, env1))
    ensures Overridden(WithContent(m, env1)) <==> Overridden(WithContent(m, env2))
  {
    hide DecodeMembers, Overridden, BundleHolds, VerifyKeyedMembers, WithContent;
    var m1, m2 := WithContent(m, env1), WithContent(m, env2);
    ContentIsUnseenAtTop(m, env1, env2);
    KeyedVerifiedIff(lib, m1, roots);
    KeyedVerifiedIff(lib, m2, roots);
    if !Overridden(m1) {
      RoutedComesFromContent(m1);
      RoutedComesFromContent(m2);
    }
  }

  lemma ContentIsUnseenAtTop(m: seq<Member>, env1: seq<Member>, env2: seq<Member>)
    ensures var m1, m2 := WithContent(m, env1), WithContent(m, env2);
            && (Overridden(m1) <==> Overridden(m2))
            && (Overridden(m1) && DecodeMembers(m1).Some? && DecodeMembers(m2).Some? ==>
                  DecodeMembers(m1) == DecodeMembers(m2))
  {
    hide DecodePayload, With, Values, SameKey, Pointed, Merged, LastString;
    KeysDiffer();
    var v1, v2 := Obj([Member("dsseEnvelope", Obj(env1))]), Obj([Member("dsseEnvelope", Obj(env2))]);
    forall key | key in ["dsseEnvelope", "payloadType", "payload", "mediaType"]
      ensures Values(WithContent(m, env1), key) == Values(WithContent(m, env2), key)
    {
      ValuesWith(m, "content", v1, key);
      ValuesWith(m, "content", v2, key);
    }
    var keys := ["dsseEnvelope", "payloadType", "payload", "mediaType"];
    assert keys[0] in keys && keys[1] in keys && keys[2] in keys && keys[3] in keys;
  }

  // --- When a blob signature is verified ------------------------------------------------

  lemma {:induction false} CutJoins(s: string)
    requires Cut(s).Some?
    ensures s == Cut(s).value.0 + ":" + Cut(s).value.1 && ':' !in Cut(s).value.0
  {
    if s[0] != ':' {
      CutJoins(s[1..]);
      assert s == [s[0]] + s[1..];
    } else {
      assert s == "" + ":" + s[1..];
    }
  }

  // sigstore-go parsed the bundle, verified it against the resolved root, bound to this digest if
  // one is given, and named a certificate.
  ghost predicate KeylessBacked(
    lib: Libraries, call: nat, bundle: bytes, digest: Option<bytes>, roots: TrustRoots, cert: CertSummary,
        timestamps: nat)
  {
    && ResolveRoot(lib, call, roots).Some? && lib.parseBundle(bundle).Some?
    && lib.keyless(ResolveRoot(lib, call, roots).value, lib.parseBundle(bundle).value, digest)
       == KeylessVerified(Some(cert), timestamps)
  }

  /** A keyless result is verified exactly when the injected root, or else the live one, backs
      the parsed bundle with a certificate; it then carries that certificate's issuer and name. */
  lemma KeylessVerifiedIff(lib: Libraries, call: nat, bundle: bytes, digest: Option<bytes>, roots: TrustRoots)
    ensures var r := VerifyKeyless(lib, call, bundle, digest, roots);
            && (r.verified <==> exists cert, n :: KeylessBacked(lib, call, bundle, digest, roots, cert, n))
            && (forall cert, n | KeylessBacked(lib, call, bundle, digest, roots, cert, n) ::
                  r == SignatureResult(true, true, cert.issuer, cert.san, n > 0))
            && (!r.verified ==> r == REFUSED)
  {
    var root := ResolveRoot(lib, call, roots);
    var parsed := lib.parseBundle(bundle);
    if root.Some? && parsed.Some? && lib.keyless(root.value, parsed.value, digest).KeylessVerified? {
      var o := lib.keyless(root.value, parsed.value, digest);
      if o.cert.Some? {
        assert KeylessBacked(lib, call, bundle, digest, roots, o.cert.value, o.timestamps);
      }
    }
  }

  // The message signature the document has binds the artifact's digest: with a certificate, without
  // log entries and under configured anchors by the bundle's own leaf and signature, otherwise
  // through sigstore-go.
  ghost predicate BlobBinds(lib: Libraries, call: nat, blob: BlobSignature, roots: TrustRoots, digest: bytes) {
    exists m, cert, entries, ms ::
      && lib.parseJson(blob.bundle) == Some(Obj(m)) && HasMaterial(m, cert, entries) && HasBlobSignature(m, Some(ms))
      && if cert.Some? && cert.value != "" && entries == 0 && roots.signatureCAs != [] then
           && ms.digest != ""
           && (Decode(Standard, ms.digest) == Some(digest) || HexDecode(ms.digest) == Some(digest))
           && LeafSigned(lib, roots, OwnLeaf(lib, Material(cert, entries)), digest, ms.signature)
         else
           exists certificate, n :: KeylessBacked(lib, call, blob.bundle, Some(digest), roots, certificate, n)
  }

  // The digest text is sha256:<hex> for these bytes.
  ghost predicate NamesDigest(text: string, digest: bytes) {
    exists hexText :: hexText != "" && text == "sha256" + ":" + hexText && HexDecode(hexText) == Some(digest)
  }

  /** For every blob: the native verifier reports verified exactly when the artifact digest is
      well-formed and the bundle's signature binds those bytes; the wasm build never does. */
  lemma BlobVerifiedIff(build: Build, lib: Libraries, call: nat, blob: BlobSignature, roots: TrustRoots)
    ensures VerifyBlob(build, lib, call, blob, roots).verified
       <==> build.Native?
            && exists digest ::
                 NamesDigest(blob.artifactDigest, digest) && BlobBinds(lib, call, blob, roots, digest)
    ensures var r := VerifyBlob(build, lib, call, blob, roots);
            !r.verified ==> r == if build.Native? then REFUSED else UNAVAILABLE
  {
    hide Decode, HexDecode, Cut, ReadBlobBundle, BlobDigestMatches, VerifyKeyless, KeylessBacked, ResolveRoot,
        BlobBinds;
    ResultsAreCoherent(build, lib, call, Attestation("", []), blob, roots);
    if build.Native? {
      NamedDigestIsCut(blob.artifactDigest);
      if Cut(blob.artifactDigest).Some? && HexDecode(Cut(blob.artifactDigest).value.1).Some? {
        var hexText := Cut(blob.artifactDigest).value.1;
        var digest := HexDecode(hexText).value;
        KeylessVerifiedIff(lib, call, blob.bundle, Some(digest), roots);
        BlobVerifiedForDigest(lib, call, blob, roots, hexText, digest);
      }
    }
  }

  lemma NamedDigestIsCut(text: string)
    ensures forall digest :: NamesDigest(text, digest)
              <==> Cut(text).Some? && Cut(text).value.0 == "sha256" && Cut(text).value.1 != ""
                   && HexDecode(Cut(text).value.1) == Some(digest)
  {
    hide HexDecode;
    if Cut(text).Some? {
      CutJoins(text);
    }
    forall hexText | text == "sha256" + ":" + hexText ensures Cut(text) == Some(("sha256", hexText)) {
      CutOfJoined("sha256", hexText);
    }
  }

  lemma {:induction false} CutOfJoined(before: string, after: string)
    requires ':' !in before
    ensures Cut(before + ":" + after) == Some((before, after))
  {
    var s := before + ":" + after;
    if before == "" {
      assert s[1..] == after;
    } else {
      assert before[0] in before;
      assert s[1..] == before[1..] + ":" + after;
      assert forall c | c in before[1..] :: c in before;
      CutOfJoined(before[1..], after);
      assert [before[0]] + before[1..] == before;
    }
  }

  lemma BlobVerifiedForDigest(
    lib: Libraries, call: nat, blob: BlobSignature, roots: TrustRoots, hexText: string, digest: bytes)
    requires Cut(blob.artifactDigest).Some? && Cut(blob.artifactDigest).value.1 == hexText
    requires HexDecode(hexText) == Some(digest)
    ensures VerifyBlob(Native, lib, call, blob, roots).verified
       <==> Cut(blob.artifactDigest).value.0 == "sha256" && hexText != "" && BlobBinds(lib, call, blob, roots, digest)
  {
    hide Decode, HexDecode, Cut, ReadBlobBundle, BlobDigestMatches, VerifyKeyless, KeylessBacked, ResolveRoot,
         HasMaterial, HasBlobSignature;
    KeylessVerifiedIff(lib, call, blob.bundle, Some(digest), roots);
    if lib.parseJson(blob.bundle).Some? {
      var j := lib.parseJson(blob.bundle).value;
      if !j.Obj? {
        assert ReadBlobBundle(j).None? || ReadBlobBundle(j).value.messageSignature.None? by { NoObjectNoBlob(j); }
      } else {
        forall b ensures ReadBlobBundle(j) == Some(b)
                    <==> HasMaterial(j.members, b.material.cert, b.material.tlogEntries)
                         && HasBlobSignature(j.members, b.messageSignature)
        {
          BlobBundleReads(j.members, b);
        }
        if ReadBlobBundle(j).Some? && ReadBlobBundle(j).value.messageSignature.Some? {
          var b := ReadBlobBundle(j).value;
          BlobDigestMatchesIff(lib.foldOther, b.messageSignature.value.digest, digest, hexText);
          assert Material(b.material.cert, b.material.tlogEntries) == b.material;
          assert HasBlobSignature(j.members, Some(b.messageSignature.value));
          forall cert, entries, ms | HasMaterial(j.members, cert, entries) && HasBlobSignature(j.members, Some(ms))
            ensures b == BlobBundle(Material(cert, entries), Some(ms))
          {
            assert ReadBlobBundle(j) == Some(BlobBundle(Material(cert, entries), Some(ms)));
          }
        } else {
          forall cert, entries, ms | HasMaterial(j.members, cert, entries) && HasBlobSignature(j.members, Some(ms))
            ensures ReadBlobBundle(j) == Some(BlobBundle(Material(cert, entries), Some(ms)))
          {
          }
        }
      }
    }
  }

  lemma NoObjectNoBlob(j: Json)
    requires !j.Obj?
    ensures ReadBlobBundle(j).None? || ReadBlobBundle(j).value.messageSignature.None?
  {
  }
}
