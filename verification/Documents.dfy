/** Bundle documents written out field by field, and what the verifiers make of them. */
module Documents {
  import opened Prelude
  import opened Json
  import opened Evidence
  import opened Encoding
  import opened Envelope
  import opened Worlds
  import Adapter
  import Pae

  // --- The documents ------------------------------------------------------------------------

  function Given(present: bool, key: string, value: Json): seq<Member> {
    if present then [Member(key, value)] else []
  }

  // Verification material with or without a certificate and with or without log entries.
  function MaterialDoc(cert: Option<string>, entries: Option<seq<Json>>): (j: Json)
    ensures j.Obj?
  {
    Obj(Given(cert.Some?, "certificate", One("rawBytes", Str(if cert.Some? then cert.value else "")))
        + Given(entries.Some?, "tlogEntries", Arr(if entries.Some? then entries.value else [])))
  }

  // A bundle with this material, this under content, and this beside it.
  function BundleDoc(cert: Option<string>, entries: Option<seq<Json>>, content: seq<Member>,
      top: seq<Member>): (j: Json)
    ensures j.Obj?
  {
    Obj([Member("verificationMaterial", MaterialDoc(cert, entries)), Member("content", Obj(content))] + top)
  }

  datatype BlobText = BlobText(digest: string, signature: string)

  function BlobTextDoc(b: BlobText): Json {
    Obj([
      Member("messageDigest", Obj([Member("algorithm", Str("SHA2_256")), Member("digest", Str(b.digest))])),
      Member("signature", Str(b.signature))])
  }

  function MessageIn(b: Option<BlobText>): seq<Member> {
    if b.None? then [] else [Member("messageSignature", BlobTextDoc(b.value))]
  }

  // --- What they say ------------------------------------------------------------------------

  lemma MaterialSays(cert: Option<string>, entries: Option<seq<Json>>, content: seq<Member>, top: seq<Member>)
    requires forall i | 0 <= i < |top| :: top[i].key == "messageSignature"
    ensures HasMaterial(BundleDoc(cert, entries, content, top).members, cert, if entries.Some? then |entries.value|
        else 0)
    ensures StructField(BundleDoc(cert, entries, content, top).members, "content") == Some(content)
  {
    hide Values, Merged, MaterialDoc;
    var m := BundleDoc(cert, entries, content, top).members;
    var vm := MaterialDoc(cert, entries);
    Adapter.OnlyMember(m, 0);
    Adapter.OnlyMember(m, 1);
    OneValue(vm);
    OneValue(Obj(content));
    CertificateSays(cert, entries);
    EntriesSay(cert, entries);
  }

  lemma KeysOfMaterial()
    ensures SameKey("certificate", "certificate") && SameKey("tlogEntries", "tlogEntries")
    ensures !SameKey("certificate", "tlogEntries") && !SameKey("tlogEntries", "certificate")
  {
    assert FoldAscii("certificate"[0]) != FoldAscii("tlogEntries"[0]);
  }

  lemma MaterialValues(cert: Option<string>, entries: Option<seq<Json>>)
    ensures var vm := MaterialDoc(cert, entries).members;
            && Values(vm, "certificate") == (if cert.Some? then [One("rawBytes", Str(cert.value))] else [])
            && Values(vm, "tlogEntries") == (if entries.Some? then [Arr(entries.value)] else [])
  {
    hide SameKey;
    KeysOfMaterial();
    var a := Given(cert.Some?, "certificate", One("rawBytes", Str(if cert.Some? then cert.value else "")));
    var b := Given(entries.Some?, "tlogEntries", Arr(if entries.Some? then entries.value else []));
    ValuesAppend(a, b, "certificate");
    ValuesAppend(a, b, "tlogEntries");
    assert (a == [] || a[1..] == []) && (b == [] || b[1..] == []);
  }

  lemma CertificateSays(cert: Option<string>, entries: Option<seq<Json>>)
    ensures var c := PointerField(MaterialDoc(cert, entries).members, "certificate");
            && c.Some? && (c.value.Some? <==> cert.Some?)
            && (cert.Some? ==> StringField(c.value.value, "rawBytes") == cert)
  {
    hide Values, MaterialDoc, LastString;
    MaterialValues(cert, entries);
    assert Pointed([]) == Some(None);
    if cert.Some? {
      OneValue(One("rawBytes", Str(cert.value)));
      OneReads("rawBytes", Str(cert.value));
      OneValue(Str(cert.value));
    }
  }

  lemma EntriesSay(cert: Option<string>, entries: Option<seq<Json>>)
    ensures SliceField(MaterialDoc(cert, entries).members, "tlogEntries")
         == Some(if entries.Some? then entries.value else [])
  {
    hide Values, MaterialDoc;
    MaterialValues(cert, entries);
    assert LastItems([]) == Some([]);
    if entries.Some? {
      var v := Arr(entries.value);
      assert [v][..0] == [] && [v][0] == v;
      assert LastItems([v]) == Some(entries.value);
    }
  }

  lemma MessageSays(m: seq<Member>, b: Option<BlobText>)
    requires Values(m, "messageSignature") == if b.Some? then [BlobTextDoc(b.value)] else []
    ensures HasMessageSignature(m, if b.Some? then Some(MessageSignature(b.value.digest, b.value.signature)) else None)
  {
    hide Values, LastString, Merged;
    assert Pointed([]) == Some(None);
    if b.Some? {
      var s := BlobTextDoc(b.value).members;
      OneValue(BlobTextDoc(b.value));
      Adapter.OnlyMember(s, 0);
      Adapter.OnlyMember(s, 1);
      OneValue(s[0].value);
      OneValue(s[1].value);
      var d := s[0].value.members;
      Adapter.OnlyMember(d, 0);
      Adapter.OnlyMember(d, 1);
      OneValue(d[0].value);
      OneValue(d[1].value);
    }
  }

  // --- Keyed or not -------------------------------------------------------------------------

  // A bundle around a signed envelope.
  function EnvelopeBundle(cert: Option<string>, entries: Option<seq<Json>>, payload: bytes, sig: bytes): (j: Json)
    ensures j.Obj?
  {
    BundleDoc(cert, entries, [Member("dsseEnvelope", SignedDoc(payload, sig))], [])
  }

  lemma EnvelopeBundleReads(cert: Option<string>, entries: Option<seq<Json>>, payload: bytes, sig: bytes)
    ensures exists env :: HasContent(EnvelopeBundle(cert, entries, payload, sig).members, env)
  {
    hide HasMaterial, HasEnvelope, SignedDoc, BundleDoc, Encode, Values, Pointed;
    var content := [Member("dsseEnvelope", SignedDoc(payload, sig))];
    var m := EnvelopeBundle(cert, entries, payload, sig).members;
    MaterialSays(cert, entries, content, []);
    SignedDocReads(payload, sig);
    var env := SignedEnvelope(Adapter.IN_TOTO_PAYLOAD, Encode(payload), [Encode(sig)]);
    EnvelopeReads(SignedDoc(payload, sig).members, env);
    OneReads("dsseEnvelope", SignedDoc(payload, sig));
    OneValue(SignedDoc(payload, sig));
    assert One("dsseEnvelope", SignedDoc(payload, sig)).members == content;
    assert HasContent(m, Some(env));
  }

  /** A signed bundle is taken as keyed exactly when it has a non-empty certificate and no log
      entries, absent or empty, while anchors are configured. Any other goes to sigstore-go in the
      native build, and is beyond the wasm build. */
  lemma KeyedIffNotLogged(lib: Libraries, call: nat, att: Attestation, roots: TrustRoots,
      cert: Option<string>, entries: Option<seq<Json>>, payload: bytes, sig: bytes)
    requires lib.parseJson(att.envelope) == Some(EnvelopeBundle(cert, entries, payload, sig))
    ensures VerifyKeyedBundle(lib, att.envelope, roots).Some?
       <==> cert.Some? && cert.value != "" && (entries.None? || entries.value == []) && roots.signatureCAs != []
    ensures VerifyKeyedBundle(lib, att.envelope, roots).None? ==>
              && VerifySignature(Native, lib, call, att, roots) == VerifyKeyless(lib, call, att.envelope, None, roots)
              && VerifySignature(Wasm, lib, call, att, roots) == UNAVAILABLE
  {
    hide VerifyKeyedMembers, VerifyKeyless, HasMaterial, HasContent, BundleDoc;
    var m := EnvelopeBundle(cert, entries, payload, sig).members;
    MaterialSays(cert, entries, [Member("dsseEnvelope", SignedDoc(payload, sig))], []);
    EnvelopeBundleReads(cert, entries, payload, sig);
    KeyedVerifiedIff(lib, m, roots);
    forall c, n | HasMaterial(m, c, n) ensures c == cert && n == if entries.Some? then |entries.value| else 0 {
      OneMaterial(m, c, n, cert, if entries.Some? then |entries.value| else 0);
    }
  }

  lemma OneMaterial(m: seq<Member>, c: Option<string>, n: nat, c': Option<string>, n': nat)
    requires HasMaterial(m, c, n) && HasMaterial(m, c', n')
    ensures c == c' && n == n'
  {
    hide StructField, SliceField, PointerField, StringField;
  }

  // --- Blobs --------------------------------------------------------------------------------

  function BlobDoc(cert: Option<string>, entries: Option<seq<Json>>, top: Option<BlobText>, nested: Option<BlobText>)
    : (j: Json)
    ensures j.Obj?
  {
    BundleDoc(cert, entries, MessageIn(nested), MessageIn(top))
  }

  lemma BlobDocReads(
    cert: Option<string>, entries: Option<seq<Json>>, top: Option<BlobText>, nested: Option<BlobText>)
    ensures var b := if top.Some? then top else nested;
            ReadBlobBundle(BlobDoc(cert, entries, top, nested))
            == Some(BlobBundle(Material(cert, if entries.Some? then |entries.value| else 0),
                               if b.Some? then Some(MessageSignature(b.value.digest, b.value.signature)) else None))
  {
    hide HasMaterial, HasMessageSignature, BlobTextDoc, BundleDoc, ReadBlobBundle;
    var m := BlobDoc(cert, entries, top, nested).members;
    var b := if top.Some? then top else nested;
    MaterialSays(cert, entries, MessageIn(nested), MessageIn(top));
    TopValues(cert, entries, top, nested);
    MessageSays(m, top);
    MessageSays(MessageIn(nested), nested);
    var of := (t: Option<BlobText>) => if t.Some? then Some(MessageSignature(t.value.digest, t.value.signature))
        else None;
    assert HasMessageSignature(m, of(top)) && HasMessageSignature(MessageIn(nested), of(nested));
    assert of(b) == if of(top).Some? then of(top) else of(nested);
    assert HasBlobSignature(m, of(b));
    BlobBundleReads(m, BlobBundle(Material(cert, if entries.Some? then |entries.value| else 0), of(b)));
  }

  lemma TopValues(cert: Option<string>, entries: Option<seq<Json>>, top: Option<BlobText>, nested: Option<BlobText>)
    ensures Values(BlobDoc(cert, entries, top, nested).members, "messageSignature")
         == if top.Some? then [BlobTextDoc(top.value)] else []
    ensures Values(MessageIn(nested), "messageSignature") == if nested.Some? then [BlobTextDoc(nested.value)] else []
  {
    hide Values, MaterialDoc, BlobTextDoc;
    var m := BlobDoc(cert, entries, top, nested).members;
    if top.Some? {
      Adapter.OnlyMember(m, 2);
    } else {
      Adapter.NoMember(m, "messageSignature");
    }
    if nested.Some? {
      Adapter.OnlyMember(MessageIn(nested), 0);
    } else {
      Adapter.NoMember([], "messageSignature");
    }
  }

  // The leaf's key signed this digest, which the bundle's own digest text names.
  ghost predicate LeafBinds(lib: Libraries, roots: TrustRoots, cert: bytes, b: BlobText, digest: bytes) {
    && b.digest != "" && (Decode(Standard, b.digest) == Some(digest) || HexDecode(b.digest) == Some(digest))
    && lib.parseCert(cert).Some? && lib.chains(lib.parseCert(cert).value, roots.signatureCAs)
    && lib.parseCert(cert).value.ecdsaKey.Some? && Decode(Standard, b.signature).Some?
    && lib.verifyECDSA(lib.parseCert(cert).value.ecdsaKey.value, digest, Decode(Standard, b.signature).value)
  }

  /** A blob bundle, written out: the message signature at the top level counts, else the one under
      content, else the answer is a refusal. With a certificate, without log entries and under
      anchors the answer is verified iff that signature names the artifact's digest and the leaf
      signed it, and it then names the leaf; otherwise the answer is sigstore-go's for that digest. */
  lemma BlobDocVerifiesIff(lib: Libraries, call: nat, blob: BlobSignature, roots: TrustRoots, digest: bytes,
      cert: bytes, entries: Option<seq<Json>>, top: Option<BlobText>, nested: Option<BlobText>)
    requires lib.parseJson(blob.bundle) == Some(BlobDoc(Some(Encode(cert)), entries, top, nested)) && cert != []
    requires NamesDigest(blob.artifactDigest, digest)
    ensures var r := VerifyBlob(Native, lib, call, blob, roots);
            var b := if top.Some? then top else nested;
            if b.None? then r == REFUSED
            else if (entries.None? || entries.value == []) && roots.signatureCAs != [] then
              if LeafBinds(lib, roots, cert, b.value, digest) then NamesLeaf(r, lib.parseCert(cert)) else r == REFUSED
            else r == VerifyKeyless(lib, call, blob.bundle, Some(digest), roots)
  {
    hide Encode, Decode, HexDecode, Cut, ReadBlobBundle, BlobDigestMatches, VerifyKeyless, BlobDoc, NamesDigest;
    BlobDocReads(Some(Encode(cert)), entries, top, nested);
    NamedDigestIsCut(blob.artifactDigest);
    EncodeDecode(cert);
    assert Encode(cert) != "" by { SomethingEncodes(cert); }
    var b := if top.Some? then top else nested;
    if b.Some? {
      BlobDigestMatchesIff(lib.foldOther, b.value.digest, digest, Cut(blob.artifactDigest).value.1);
    }
  }

  /** The same without a certificate: sigstore-go decides. */
  lemma BlobWithoutCertificate(lib: Libraries, call: nat, blob: BlobSignature, roots: TrustRoots, digest: bytes,
      cert: Option<string>, entries: Option<seq<Json>>, top: Option<BlobText>, nested: Option<BlobText>)
    requires lib.parseJson(blob.bundle) == Some(BlobDoc(cert, entries, top, nested)) && (cert.None? || cert.value == "")
    requires NamesDigest(blob.artifactDigest, digest)
    ensures VerifyBlob(Native, lib, call, blob, roots)
         == if top.None? && nested.None? then REFUSED else VerifyKeyless(lib, call, blob.bundle, Some(digest), roots)
  {
    hide Decode, HexDecode, Cut, ReadBlobBundle, BlobDigestMatches, VerifyKeyless, BlobDoc, NamesDigest;
    BlobDocReads(cert, entries, top, nested);
    NamedDigestIsCut(blob.artifactDigest);
  }
}
